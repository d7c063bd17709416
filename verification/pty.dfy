/**
 Pseudo-terminals (kernel/src/core/pty.c): eight slots, each with a ring from
 master to slave and one back, and two global counters.
 */
module Pty {
  import opened Common
  import opened Rings

  const PTY_MAX := 8
  const QUEUE_SIZE := 2048
  const CAPACITY := 2047

  // ---------------------------------------------------------------------
  // Sixteen bounded queues
  // ---------------------------------------------------------------------

  datatype Dir = ToSlave | ToMaster

  /** A slot as its two byte queues. */
  datatype Pair = Pair(inUse: bool, toSlave: seq<Byte>, toMaster: seq<Byte>) {
    function Get(d: Dir): seq<Byte> { if d.ToSlave? then toSlave else toMaster }
    function Set(d: Dir, q: seq<Byte>): Pair {
      if d.ToSlave? then this.(toSlave := q) else this.(toMaster := q)
    }
    predicate Ok() {
      && |toSlave| <= CAPACITY && |toMaster| <= CAPACITY
      && (!inUse ==> toSlave == [] && toMaster == [])
    }
  }

  datatype Ptys = Ptys(slots: seq<Pair>, dropped: nat, invalid: nat)

  predicate Ok(p: Ptys) {
    |p.slots| == PTY_MAX && forall i :: 0 <= i < PTY_MAX ==> p.slots[i].Ok()
  }

  predicate IsValid(p: Ptys, id: int) {
    0 <= id < |p.slots| && p.slots[id].inUse
  }

  /** A call on the table. A null buffer is None. */
  datatype Call =
    | AllocCall
    | WriteCall(dir: Dir, id: int, buf: Option<seq<Byte>>)
    | ReadCall(dir: Dir, id: int, len: Option<nat>)

  /** The lowest slot not in use, or PTY_MAX. */
  function FirstFree(slots: seq<Pair>, from: nat): (i: nat)
    requires from <= |slots|
    ensures from <= i <= |slots|
    ensures i < |slots| ==> !slots[i].inUse
    ensures forall j :: from <= j < i ==> slots[j].inUse
    decreases |slots| - from
  {
    if from == |slots| || !slots[from].inUse then from else FirstFree(slots, from + 1)
  }

  /** What an allocation returns. */
  function AllocId(p: Ptys): int {
    var i := FirstFree(p.slots, 0);
    if i == |p.slots| then -1 else i
  }

  function Do(p: Ptys, c: Call): Ptys
    requires Ok(p)
  {
    match c
    case AllocCall =>
      var i := FirstFree(p.slots, 0);
      if i == PTY_MAX then p else p.(slots := p.slots[i := Pair(true, [], [])])
    case WriteCall(d, id, buf) =>
      if !IsValid(p, id) || buf.None? then p.(invalid := p.invalid + 1)
      else
        var q := p.slots[id].Get(d);
        p.(slots := p.slots[id := p.slots[id].Set(d, Offer(q, buf.value, CAPACITY))],
           dropped := p.dropped + |buf.value| - Taken(q, buf.value, CAPACITY))
    case ReadCall(d, id, len) =>
      if !IsValid(p, id) || len.None? then p.(invalid := p.invalid + 1)
      else
        var q := p.slots[id].Get(d);
        p.(slots := p.slots[id := p.slots[id].Set(d, q[Min(len.value, |q|)..])])
  }

  /** What a call puts into, takes out of, and asks to put into one channel. */
  function Entered(p: Ptys, c: Call, id: int, d: Dir): seq<Byte>
    requires Ok(p)
  {
    if c.WriteCall? && c.dir == d && c.id == id && IsValid(p, id) && c.buf.Some?
    then c.buf.value[..Taken(p.slots[id].Get(d), c.buf.value, CAPACITY)] else []
  }

  function Left(p: Ptys, c: Call, id: int, d: Dir): seq<Byte>
    requires Ok(p)
  {
    if c.ReadCall? && c.dir == d && c.id == id && IsValid(p, id) && c.len.Some?
    then p.slots[id].Get(d)[..Min(c.len.value, |p.slots[id].Get(d)|)] else []
  }

  lemma DoKeepsOk(p: Ptys, c: Call)
    requires Ok(p)
    ensures Ok(Do(p, c))
  {
  }

  /** One call moves bytes through one channel only, in order. */
  lemma DoIsFifo(p: Ptys, c: Call, id: int, d: Dir)
    requires Ok(p) && 0 <= id < PTY_MAX
    ensures Ok(Do(p, c))
    ensures p.slots[id].Get(d) + Entered(p, c, id, d) == Left(p, c, id, d) + Do(p, c).slots[id].Get(d)
  {
    DoKeepsOk(p, c);
    var q := p.slots[id].Get(d);
    if Entered(p, c, id, d) != [] {
      assert q + Entered(p, c, id, d) == Offer(q, c.buf.value, CAPACITY);
    } else if Left(p, c, id, d) != [] {
      assert q == Left(p, c, id, d) + Do(p, c).slots[id].Get(d);
    } else {
      QuietCall(p, c, id, d);
    }
  }

  /** A call that moves nothing through a channel leaves it alone. */
  lemma QuietCall(p: Ptys, c: Call, id: int, d: Dir)
    requires Ok(p) && 0 <= id < PTY_MAX && Entered(p, c, id, d) == [] && Left(p, c, id, d) == []
    ensures Do(p, c).slots[id].Get(d) == p.slots[id].Get(d)
  {
    assert p.slots[id].Ok();
  }

  function Run(p: Ptys, calls: seq<Call>): (q: Ptys)
    requires Ok(p)
    ensures Ok(q)
    decreases |calls|
  {
    if calls == [] then p else
    DoKeepsOk(p, calls[0]);
    Run(Do(p, calls[0]), calls[1..])
  }

  /** Everything that entered, or left, one channel during a run. */
  function AllEntered(p: Ptys, calls: seq<Call>, id: int, d: Dir): seq<Byte>
    requires Ok(p)
    decreases |calls|
  {
    if calls == [] then [] else
    DoKeepsOk(p, calls[0]);
    Entered(p, calls[0], id, d) + AllEntered(Do(p, calls[0]), calls[1..], id, d)
  }

  function AllLeft(p: Ptys, calls: seq<Call>, id: int, d: Dir): seq<Byte>
    requires Ok(p)
    decreases |calls|
  {
    if calls == [] then [] else
    DoKeepsOk(p, calls[0]);
    Left(p, calls[0], id, d) + AllLeft(Do(p, calls[0]), calls[1..], id, d)
  }

  /**
   Over any interleaving of calls on all PTYs, each channel is a FIFO of its
   own: what it held, followed by what entered it, is what left it, followed
   by what it holds.
   */
  lemma {:induction false} EveryChannelIsFifo(p: Ptys, calls: seq<Call>, id: int, d: Dir)
    requires Ok(p) && 0 <= id < PTY_MAX
    ensures p.slots[id].Get(d) + AllEntered(p, calls, id, d) ==
            AllLeft(p, calls, id, d) + Run(p, calls).slots[id].Get(d)
    ensures |Run(p, calls).slots[id].Get(d)| <= CAPACITY
    decreases |calls|
  {
    if calls == [] {
      assert p.slots[id].Ok();
    } else {
      var c, rest := calls[0], calls[1..];
      DoIsFifo(p, c, id, d);
      var q := Do(p, c);
      EveryChannelIsFifo(q, rest, id, d);
      Regroup(p.slots[id].Get(d), Entered(p, c, id, d), AllEntered(q, rest, id, d),
              Left(p, c, id, d), q.slots[id].Get(d), AllLeft(q, rest, id, d), Run(q, rest).slots[id].Get(d));
    }
  }

  lemma Regroup(held: seq<Byte>, e: seq<Byte>, e': seq<Byte>,
                l: seq<Byte>, mid: seq<Byte>, l': seq<Byte>, end: seq<Byte>)
    requires held + e == l + mid && mid + e' == l' + end
    ensures held + (e + e') == (l + l') + end
  {
    assert held + (e + e') == (held + e) + e';
    assert (l + mid) + e' == l + (mid + e');
  }

  /** Bytes a call validly asks to write, and how many of them were taken. */
  function Requested(p: Ptys, c: Call): nat {
    if c.WriteCall? && IsValid(p, c.id) && c.buf.Some? then |c.buf.value| else 0
  }

  function AllRequested(p: Ptys, calls: seq<Call>): nat
    requires Ok(p)
    decreases |calls|
  {
    if calls == [] then 0 else
    DoKeepsOk(p, calls[0]);
    Requested(p, calls[0]) + AllRequested(Do(p, calls[0]), calls[1..])
  }

  function Accepted(p: Ptys, c: Call): nat
    requires Ok(p)
  {
    if c.WriteCall? then |Entered(p, c, c.id, c.dir)| else 0
  }

  function AllAccepted(p: Ptys, calls: seq<Call>): nat
    requires Ok(p)
    decreases |calls|
  {
    if calls == [] then 0 else
    DoKeepsOk(p, calls[0]);
    Accepted(p, calls[0]) + AllAccepted(Do(p, calls[0]), calls[1..])
  }

  /** Bytes requested by valid writes are bytes accepted plus the growth of the global drop counter. */
  lemma {:induction false} RequestsAreAcceptedOrDropped(p: Ptys, calls: seq<Call>)
    requires Ok(p)
    ensures AllRequested(p, calls) == AllAccepted(p, calls) + (Run(p, calls).dropped - p.dropped)
    decreases |calls|
  {
    if calls != [] {
      DoKeepsOk(p, calls[0]);
      assert Requested(p, calls[0]) == Accepted(p, calls[0]) + (Do(p, calls[0]).dropped - p.dropped);
      RequestsAreAcceptedOrDropped(Do(p, calls[0]), calls[1..]);
    }
  }

  // ---------------------------------------------------------------------
  // Which PTYs are valid
  // ---------------------------------------------------------------------

  /** How many slots are in use. */
  function InUse(slots: seq<Pair>): (n: nat)
    ensures n <= |slots|
  {
    if slots == [] then 0 else (if slots[0].inUse then 1 else 0) + InUse(slots[1..])
  }

  lemma {:induction false} InUseAfterTaking(slots: seq<Pair>, i: nat, s: Pair)
    requires i < |slots| && !slots[i].inUse && s.inUse
    ensures InUse(slots[i := s]) == InUse(slots) + 1
  {
    if i > 0 {
      assert slots[i := s][1..] == slots[1..][i - 1 := s];
      InUseAfterTaking(slots[1..], i - 1, s);
    } else {
      assert slots[0 := s][1..] == slots[1..];
    }
  }

  lemma {:induction false} AllInUse(slots: seq<Pair>)
    ensures InUse(slots) == |slots| <==> forall i :: 0 <= i < |slots| ==> slots[i].inUse
  {
    if slots != [] {
      AllInUse(slots[1..]);
      assert forall i :: 0 <= i < |slots[1..]| ==> slots[1..][i] == slots[i + 1];
      assert (forall i :: 0 <= i < |slots| ==> slots[i].inUse) <==>
             slots[0].inUse && forall i :: 0 <= i < |slots[1..]| ==> slots[1..][i].inUse;
    }
  }

  /** What the successful allocations of a run returned, in order. */
  function AllocatedIds(p: Ptys, calls: seq<Call>): seq<int>
    requires Ok(p)
    decreases |calls|
  {
    if calls == [] then [] else
    DoKeepsOk(p, calls[0]);
    (if calls[0].AllocCall? && AllocId(p) >= 0 then [AllocId(p)] else []) + AllocatedIds(Do(p, calls[0]), calls[1..])
  }

  function AllocCalls(calls: seq<Call>): nat {
    if calls == [] then 0 else (if calls[0].AllocCall? then 1 else 0) + AllocCalls(calls[1..])
  }

  /** An allocation makes one more id valid, with empty channels, unless all are in use; nothing else changes. */
  lemma AllocMakesValid(p: Ptys)
    requires Ok(p)
    ensures
      var q, id := Do(p, AllocCall), AllocId(p);
      && (id == -1 <==> InUse(p.slots) == PTY_MAX) && (id == -1 ==> q == p)
      && (id != -1 ==>
            && 0 <= id < PTY_MAX && !IsValid(p, id) && (forall j :: IsValid(q, j) <==> IsValid(p, j) || j == id)
            && q.slots[id].toSlave == [] && q.slots[id].toMaster == []
            && q == p.(slots := p.slots[id := q.slots[id]]) && InUse(q.slots) == InUse(p.slots) + 1)
  {
    AllInUse(p.slots);
    var q, id := Do(p, AllocCall), AllocId(p);
    if id != -1 {
      InUseAfterTaking(p.slots, id, q.slots[id]);
    }
  }

  lemma {:induction false} SameUse(a: seq<Pair>, b: seq<Pair>)
    requires |a| == |b| && forall i :: 0 <= i < |a| ==> a[i].inUse == b[i].inUse
    ensures InUse(a) == InUse(b)
  {
    if a != [] {
      SameUse(a[1..], b[1..]);
    }
  }

  lemma OtherCallsKeepIds(p: Ptys, c: Call)
    requires Ok(p) && !c.AllocCall?
    ensures forall j :: IsValid(Do(p, c), j) <==> IsValid(p, j)
    ensures InUse(Do(p, c).slots) == InUse(p.slots)
  {
    SameUse(p.slots, Do(p, c).slots);
  }

  /**
   Over every run: an id once valid stays valid, every successful allocation
   returns an id that was not valid before, so no two return the same, and
   allocations succeed until all eight are in use.
   */
  lemma {:induction false} AllocatedIdsAreNew(p: Ptys, calls: seq<Call>)
    requires Ok(p)
    ensures
      var ids, q := AllocatedIds(p, calls), Run(p, calls);
      && (forall id :: IsValid(q, id) <==> IsValid(p, id) || id in ids)
      && (forall id :: id in ids ==> !IsValid(p, id))
      && (forall i, j :: 0 <= i < j < |ids| ==> ids[i] != ids[j])
      && |ids| == Min(AllocCalls(calls), PTY_MAX - InUse(p.slots)) && InUse(q.slots) == InUse(p.slots) + |ids|
    decreases |calls|
  {
    if calls != [] {
      var c, rest := calls[0], calls[1..];
      DoKeepsOk(p, c);
      AllocatedIdsAreNew(Do(p, c), rest);
      if c.AllocCall? {
        AllocMakesValid(p);
      } else {
        OtherCallsKeepIds(p, c);
      }
    }
  }

  /** From the start: after k allocations, with any other calls in between, exactly Min(k, 8) ids are valid. */
  lemma ValidAfterAllocations(p: Ptys, calls: seq<Call>)
    requires Ok(p) && forall i :: 0 <= i < PTY_MAX ==> !p.slots[i].inUse
    ensures InUse(Run(p, calls).slots) == |AllocatedIds(p, calls)| == Min(AllocCalls(calls), 8)
    ensures forall id :: IsValid(Run(p, calls), id) <==> id in AllocatedIds(p, calls)
  {
    NoneInUse(p.slots);
    AllocatedIdsAreNew(p, calls);
  }

  lemma {:induction false} NoneInUse(slots: seq<Pair>)
    requires forall i :: 0 <= i < |slots| ==> !slots[i].inUse
    ensures InUse(slots) == 0
  {
    if slots != [] {
      NoneInUse(slots[1..]);
    }
  }

  /** A call on an id that is not valid, or without a buffer. */
  predicate IsInvalid(p: Ptys, c: Call) {
    match c
    case AllocCall => false
    case WriteCall(_, id, buf) => !IsValid(p, id) || buf.None?
    case ReadCall(_, id, len) => !IsValid(p, id) || len.None?
  }

  function InvalidCalls(p: Ptys, calls: seq<Call>): nat
    requires Ok(p)
    decreases |calls|
  {
    if calls == [] then 0 else
    DoKeepsOk(p, calls[0]);
    (if IsInvalid(p, calls[0]) then 1 else 0) + InvalidCalls(Do(p, calls[0]), calls[1..])
  }

  /** The invalid-operation counter grows by the number of such calls, and they change nothing else. */
  lemma {:induction false} InvalidCallsAreCounted(p: Ptys, calls: seq<Call>)
    requires Ok(p)
    ensures Run(p, calls).invalid == p.invalid + InvalidCalls(p, calls)
    ensures calls != [] && IsInvalid(p, calls[0]) ==> Do(p, calls[0]) == p.(invalid := p.invalid + 1)
    decreases |calls|
  {
    if calls != [] {
      DoKeepsOk(p, calls[0]);
      assert IsInvalid(p, calls[0]) <==> Do(p, calls[0]).invalid == p.invalid + 1;
      InvalidCallsAreCounted(Do(p, calls[0]), calls[1..]);
    }
  }

  // ---------------------------------------------------------------------
  // The table itself
  // ---------------------------------------------------------------------

  /** `pty_slot_t`: the struct embeds both ring buffers. */
  datatype Slot = Slot(inUse: bool, m2s: Ring, s2m: Ring) {
    predicate Valid() {
      && m2s.Valid() && |m2s.buf| == QUEUE_SIZE
      && s2m.Valid() && |s2m.buf| == QUEUE_SIZE
      && (!inUse ==> m2s.head == m2s.tail && s2m.head == s2m.tail)
    }

    /** The ring that carries bytes in a direction. */
    function Channel(d: Dir): Ring {
      if d.ToSlave? then m2s else s2m
    }

    function WithChannel(d: Dir, r: Ring): Slot {
      if d.ToSlave? then this.(m2s := r) else this.(s2m := r)
    }

    function View(): (p: Pair)
      requires Valid()
      ensures p.Ok()
    {
      ChannelFits(m2s);
      ChannelFits(s2m);
      Pair(inUse, m2s.Contents(), s2m.Contents())
    }
  }

  lemma ChannelFits(r: Ring)
    requires r.Valid() && |r.buf| == QUEUE_SIZE
    ensures |r.Contents()| <= CAPACITY
    ensures r.head == r.tail ==> r.Contents() == []
  {
    PushAppends(r, 0);
  }

  function Pairs(slots: seq<Slot>): (r: seq<Pair>)
    requires forall i :: 0 <= i < |slots| ==> slots[i].Valid()
    ensures |r| == |slots| && forall i :: 0 <= i < |r| ==> r[i] == slots[i].View()
  {
    seq(|slots|, i requires 0 <= i < |slots| => slots[i].View())
  }

  /** One turn of the write loop: the full test of the ring is the full test of the queue, */
  lemma WriteStep(start: seq<Byte>, r: Ring, buf: seq<Byte>, k: nat)
    requires r.Valid() && |r.buf| == QUEUE_SIZE && k < |buf| && r.Contents() == start + buf[..k]
    ensures Push(r, buf[k]).Valid() && |Push(r, buf[k]).buf| == QUEUE_SIZE
    ensures Next(r.head, QUEUE_SIZE) == r.tail <==> |start| + k == CAPACITY
    ensures |start| + k <= CAPACITY
    ensures |start| + k < CAPACITY ==> Push(r, buf[k]).Contents() == start + buf[..k + 1]
  {
    PushAppends(r, buf[k]);
    assert |r.Contents()| == |start| + k;
    if |start| + k < CAPACITY {
      WriteAppends(start, buf, k);
    }
  }

  /** and a push adds the next byte of the buffer. */
  lemma WriteAppends(start: seq<Byte>, buf: seq<Byte>, k: nat)
    requires k < |buf|
    ensures start + buf[..k] + [buf[k]] == start + buf[..k + 1]
  {
  }

  /** One turn of the read loop. */
  lemma ReadStep(start: seq<Byte>, r: Ring, k: nat)
    requires r.Valid() && |r.buf| == QUEUE_SIZE && k <= |start| && r.Contents() == start[k..]
    ensures r.tail == r.head <==> k == |start|
    ensures k < |start| ==>
              && Advance(r).Valid() && Advance(r).Contents() == start[k + 1..]
              && start[..k] + [r.buf[r.tail]] == start[..k + 1]
  {
    AdvancePops(r);
  }

  class PtyTable {
    var slots: seq<Slot>
    var dropped: nat
    var invalid: nat

    ghost predicate Valid()
      reads this
    {
      |slots| == PTY_MAX && forall i :: 0 <= i < PTY_MAX ==> slots[i].Valid()
    }

    ghost function View(): (p: Ptys)
      requires Valid()
      reads this
      ensures Ok(p)
    {
      Ptys(Pairs(slots), dropped, invalid)
    }

    /** `pty_init` */
    constructor ()
      ensures Valid()
      ensures View() == Ptys(seq(PTY_MAX, _ => Pair(false, [], [])), 0, 0)
    {
      slots := seq(PTY_MAX, _ => Slot(false, Empty(QUEUE_SIZE), Empty(QUEUE_SIZE)));
      dropped, invalid := 0, 0;
    }

    predicate IsValidId(id: int)
      reads this
    {
      0 <= id < |slots| && slots[id].inUse
    }

    /** `pty_queue_write` on one ring of one slot. */
    method QueueWrite(ring: Ring, buf: seq<Byte>) returns (after: Ring, written: nat)
      requires ring.Valid() && |ring.buf| == QUEUE_SIZE
      modifies this`dropped
      ensures after.Valid() && |after.buf| == QUEUE_SIZE && |ring.Contents()| <= CAPACITY
      ensures after.Contents() == Offer(ring.Contents(), buf, CAPACITY)
      ensures written == Taken(ring.Contents(), buf, CAPACITY)
      ensures dropped == old(dropped) + |buf| - written
    {
      PushIsOffer(ring, 0);
      after, written := ring, 0;
      assert ring.Contents() + buf[..0] == ring.Contents();
      while written < |buf|
        invariant 0 <= written <= |buf|
        invariant after.Valid() && |after.buf| == QUEUE_SIZE && dropped == old(dropped)
        invariant after.Contents() == ring.Contents() + buf[..written] && |after.Contents()| <= CAPACITY
      {
        WriteStep(ring.Contents(), after, buf, written);
        if Next(after.head, QUEUE_SIZE) == after.tail {
          dropped := dropped + (|buf| - written);
          break;
        }
        after := Push(after, buf[written]);
        written := written + 1;
      }
    }

    /** `pty_queue_read` */
    static method QueueRead(ring: Ring, len: nat) returns (after: Ring, out: seq<Byte>)
      requires ring.Valid() && |ring.buf| == QUEUE_SIZE
      ensures after.Valid() && |after.buf| == QUEUE_SIZE
      ensures out == ring.Contents()[..Min(len, |ring.Contents()|)]
      ensures after.Contents() == ring.Contents()[Min(len, |ring.Contents()|)..]
    {
      after, out := ring, [];
      while |out| < len && after.tail != after.head
        invariant after.Valid() && |after.buf| == QUEUE_SIZE
        invariant |out| <= len && |out| <= |ring.Contents()|
        invariant out == ring.Contents()[..|out|] && after.Contents() == ring.Contents()[|out|..]
        decreases len - |out|
      {
        ReadStep(ring.Contents(), after, |out|);
        out := out + [after.buf[after.tail]];
        after := Advance(after);
      }
      AdvancePops(after);
    }

    /** `pty_alloc`: the lowest slot that is free becomes valid, with empty channels. */
    method Alloc() returns (id: int)
      requires Valid()
      modifies this
      ensures Valid() && View() == Do(old(View()), AllocCall) && id == AllocId(old(View()))
      ensures id == -1 ==> unchanged(this) && forall j :: 0 <= j < PTY_MAX ==> IsValidId(j)
      ensures id != -1 ==>
        && 0 <= id < PTY_MAX && !old(IsValidId(id)) && (forall j :: 0 <= j < id ==> old(IsValidId(j)))
        && IsValidId(id) && slots[id].m2s.Contents() == [] && slots[id].s2m.Contents() == []
        && slots == old(slots)[id := slots[id]] && dropped == old(dropped) && invalid == old(invalid)
    {
      for i := 0 to PTY_MAX
        invariant unchanged(this)
        invariant forall j :: 0 <= j < i ==> slots[j].inUse
      {
        if !slots[i].inUse {
          FirstFreeIsUnique(View().slots, 0, i);
          slots := slots[i := slots[i].(inUse := true,
                                        m2s := slots[i].m2s.(head := 0, tail := 0),
                                        s2m := slots[i].s2m.(head := 0, tail := 0))];
          assert View().slots == old(View()).slots[i := Pair(true, [], [])];
          return i;
        }
      }
      return -1;
    }

    /** `pty_master_write` and `pty_slave_write`, by direction. */
    method Write(d: Dir, id: int, buf: Option<seq<Byte>>) returns (written: nat)
      requires Valid()
      modifies this
      ensures Valid() && View() == Do(old(View()), WriteCall(d, id, buf))
      ensures written == |Entered(old(View()), WriteCall(d, id, buf), id, d)|
      ensures old(IsValidId(id)) && buf.Some? ==>
        && slots == old(slots)[id := old(slots)[id].WithChannel(d, slots[id].Channel(d))]
        && |old(slots[id].Channel(d).Contents())| <= CAPACITY
        && slots[id].Channel(d).Contents() == Offer(old(slots[id].Channel(d).Contents()), buf.value, CAPACITY)
        && written == Taken(old(slots[id].Channel(d).Contents()), buf.value, CAPACITY)
        && dropped == old(dropped) + |buf.value| - written && invalid == old(invalid)
    {
      if !IsValidId(id) || buf.None? {
        invalid := invalid + 1;
        assert View().slots == old(View()).slots;
        return 0;
      }
      var ring;
      if d.ToSlave? {
        ring, written := QueueWrite(slots[id].m2s, buf.value);
        slots := slots[id := slots[id].(m2s := ring)];
      } else {
        ring, written := QueueWrite(slots[id].s2m, buf.value);
        slots := slots[id := slots[id].(s2m := ring)];
      }
      assert View().slots == Do(old(View()), WriteCall(d, id, buf)).slots;
    }

    /** `pty_slave_read` and `pty_master_read`, by direction. */
    method Read(d: Dir, id: int, len: Option<nat>) returns (out: seq<Byte>)
      requires Valid()
      modifies this
      ensures Valid() && View() == Do(old(View()), ReadCall(d, id, len))
      ensures out == Left(old(View()), ReadCall(d, id, len), id, d)
      ensures old(IsValidId(id)) && len.Some? ==>
        && slots == old(slots)[id := old(slots)[id].WithChannel(d, slots[id].Channel(d))]
        && out == old(slots[id].Channel(d).Contents())[..Min(len.value, |old(slots[id].Channel(d).Contents())|)]
        && slots[id].Channel(d).Contents() == old(slots[id].Channel(d).Contents())[|out|..]
        && dropped == old(dropped) && invalid == old(invalid)
    {
      if !IsValidId(id) || len.None? {
        invalid := invalid + 1;
        assert View().slots == old(View()).slots;
        return [];
      }
      var ring;
      if d.ToSlave? {
        ring, out := QueueRead(slots[id].m2s, len.value);
        slots := slots[id := slots[id].(m2s := ring)];
      } else {
        ring, out := QueueRead(slots[id].s2m, len.value);
        slots := slots[id := slots[id].(s2m := ring)];
      }
      assert View().slots == Do(old(View()), ReadCall(d, id, len)).slots;
    }
  }

  lemma FirstFreeIsUnique(slots: seq<Pair>, from: nat, i: nat)
    requires from <= i < |slots| && !slots[i].inUse
    requires forall j :: from <= j < i ==> slots[j].inUse
    ensures FirstFree(slots, from) == i
    decreases |slots| - from
  {
    if from < i {
      FirstFreeIsUnique(slots, from + 1, i);
    }
  }
}
