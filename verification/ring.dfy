/**
 The ring buffer that the keyboard, the TTY and every PTY channel use: a fixed
 buffer, a head where bytes go in and a tail where they come out, one cell
 always left empty.
 */
module Rings {
  import opened Common

  datatype Ring = Ring(buf: seq<Byte>, head: nat, tail: nat) {
    predicate Valid() {
      |buf| >= 2 && head < |buf| && tail < |buf|
    }

    /** The bytes waiting, oldest first. */
    function Contents(): seq<Byte>
      requires Valid()
    {
      if tail <= head then buf[tail..head] else buf[tail..] + buf[..head]
    }

    function Capacity(): nat
      requires Valid()
    {
      |buf| - 1
    }
  }

  /** `(i + 1) % size` for an index into a buffer of that size. */
  function Next(i: nat, size: nat): nat {
    if i + 1 < size then i + 1 else 0
  }

  function Empty(size: nat): Ring {
    Ring(seq(size, _ => 0), 0, 0)
  }

  /** Store a byte unless the ring is full. */
  function Push(r: Ring, b: Byte): Ring
    requires r.Valid()
  {
    if Next(r.head, |r.buf|) == r.tail then r
    else Ring(r.buf[r.head := b], Next(r.head, |r.buf|), r.tail)
  }

  function Advance(r: Ring): Ring
    requires r.Valid()
  {
    r.(tail := Next(r.tail, |r.buf|))
  }

  lemma NextIsModulo(i: nat, size: nat)
    requires i < size
    ensures Next(i, size) == (i + 1) % size
  {
    if i + 1 == size {
      DivModUnique(1, size, 0);
    }
  }

  /** A push appends exactly when fewer than size - 1 bytes wait; otherwise nothing changes. */
  lemma PushAppends(r: Ring, b: Byte)
    requires r.Valid()
    ensures Push(r, b).Valid() && |Push(r, b).buf| == |r.buf|
    ensures |r.Contents()| <= r.Capacity()
    ensures Next(r.head, |r.buf|) == r.tail <==> |r.Contents()| == r.Capacity()
    ensures Push(r, b).Contents() == if |r.Contents()| < r.Capacity() then r.Contents() + [b] else r.Contents()
  {
  }

  /** Advancing the tail drops the oldest byte, which sits at the tail. */
  lemma AdvancePops(r: Ring)
    requires r.Valid()
    ensures r.tail == r.head <==> r.Contents() == []
    ensures r.Contents() != [] ==>
              && Advance(r).Valid()
              && r.buf[r.tail] == r.Contents()[0]
              && Advance(r).Contents() == r.Contents()[1..]
  {
  }

  // ---------------------------------------------------------------------
  // Offering bytes to a bounded queue with nobody reading meanwhile
  // ---------------------------------------------------------------------

  function Taken(queue: seq<Byte>, bytes: seq<Byte>, capacity: nat): (n: nat)
    requires |queue| <= capacity
    ensures n <= |bytes| && |queue| + n <= capacity
  {
    Min(|bytes|, capacity - |queue|)
  }

  /** The queue takes a prefix of what is offered, as long as there is room. */
  function Offer(queue: seq<Byte>, bytes: seq<Byte>, capacity: nat): (r: seq<Byte>)
    requires |queue| <= capacity
    ensures |r| <= capacity
  {
    queue + bytes[..Taken(queue, bytes, capacity)]
  }

  /** Offering in two parts is offering at once. */
  lemma OfferInParts(queue: seq<Byte>, xs: seq<Byte>, ys: seq<Byte>, capacity: nat)
    requires |queue| <= capacity
    ensures Offer(Offer(queue, xs, capacity), ys, capacity) == Offer(queue, xs + ys, capacity)
    ensures Taken(queue, xs, capacity) + Taken(Offer(queue, xs, capacity), ys, capacity) ==
            Taken(queue, xs + ys, capacity)
  {
  }

  lemma PushIsOffer(r: Ring, b: Byte)
    requires r.Valid()
    ensures Push(r, b).Valid() && |Push(r, b).buf| == |r.buf|
    ensures |r.Contents()| <= r.Capacity()
    ensures Push(r, b).Contents() == Offer(r.Contents(), [b], r.Capacity())
    ensures Next(r.head, |r.buf|) == r.tail <==> Taken(r.Contents(), [b], r.Capacity()) == 0
  {
    PushAppends(r, b);
    assert [b][..1] == [b] && [b][..0] == [];
    assert r.Contents() + [] == r.Contents();
  }
}
