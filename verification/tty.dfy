/**
 The TTY (kernel/src/core/tty.c): the line discipline running over a bounded
 queue, which is the attached PTY's channel or the TTY's own ring.
 */
module Tty {
  import opened Common
  import opened Rings
  import opened Pty
  import opened LineEditor

  // ---------------------------------------------------------------------
  // The discipline with its queue and counters
  // ---------------------------------------------------------------------

  datatype TtyState = TtyState(line: Line, queue: seq<Byte>, rejected: nat,
                               drops: nat, overflows: nat, discards: nat, truncated: bool)

  /** One byte in canonical mode. */
  function Receive(t: TtyState, b: Byte): (r: TtyState)
    requires |t.queue| <= CAPACITY
    ensures |r.queue| <= CAPACITY
  {
    if Swallowed(t.line.esc, b)
    then t.(line := Line(EscNext(t.line.esc, b), t.line.text), discards := t.discards + 1)
    else
      var e := Edit(t.line.text, b);
      var lost := |e.sent| - Taken(t.queue, e.sent, CAPACITY);
      var over := if Overflows(t.line.text, b) then 1 else 0;
      t.(line := Line(0, e.text),
         queue := Offer(t.queue, e.sent, CAPACITY),
         rejected := t.rejected + lost,
         drops := t.drops + lost + over,
         overflows := t.overflows + over,
         truncated := b != NEWLINE && (t.truncated || over == 1))
  }

  function ReceiveAll(t: TtyState, bytes: seq<Byte>): (r: TtyState)
    requires |t.queue| <= CAPACITY
    ensures |r.queue| <= CAPACITY
    decreases |bytes|
  {
    if bytes == [] then t else ReceiveAll(Receive(t, bytes[0]), bytes[1..])
  }

  /** The queue ends up with as much of the delivered stream as fits; the rest is counted as rejected. */
  lemma {:induction false} ReceiveRefinesDiscipline(t: TtyState, bytes: seq<Byte>)
    requires |t.queue| <= CAPACITY
    ensures
      var r := ReceiveAll(t, bytes);
      var (line, sent) := CanonicalAll(t.line, bytes);
      && r.line == line
      && r.queue == Offer(t.queue, sent, CAPACITY)
      && r.rejected == t.rejected + |sent| - Taken(t.queue, sent, CAPACITY)
    decreases |bytes|
  {
    if bytes == [] {
      assert t.queue + [] == t.queue;
    } else {
      var r := Receive(t, bytes[0]);
      var (l1, s1) := Canonical(t.line, bytes[0]);
      assert t.queue + [] == t.queue;
      assert r.queue == Offer(t.queue, s1, CAPACITY);
      ReceiveRefinesDiscipline(r, bytes[1..]);
      OfferInParts(t.queue, s1, CanonicalAll(l1, bytes[1..]).1, CAPACITY);
    }
  }

  /** Dropped bytes are line overflows plus rejected deliveries, over every run. */
  lemma {:induction false} DropsAreOverflowsPlusRejected(t: TtyState, bytes: seq<Byte>)
    requires |t.queue| <= CAPACITY
    ensures
      var r := ReceiveAll(t, bytes);
      r.drops - t.drops == (r.overflows - t.overflows) + (r.rejected - t.rejected)
    decreases |bytes|
  {
    if bytes != [] {
      DropsAreOverflowsPlusRejected(Receive(t, bytes[0]), bytes[1..]);
    }
  }

  // ---------------------------------------------------------------------
  // Every byte has one fate
  // ---------------------------------------------------------------------

  datatype Fate = Escaped | Overflowed | Ignored | Control | Buffered

  function FateOf(l: Line, b: Byte): Fate {
    if Swallowed(l.esc, b) then Escaped
    else if Overflows(l.text, b) then Overflowed
    else if b == 0x03 || b == 0x04 || b == 0x08 || b == 0x0C || b == 0x7F || b == NEWLINE then Control
    else if Printable(b) then Buffered
    else Ignored
  }

  function Fates(l: Line, bytes: seq<Byte>, f: Fate): nat
    decreases |bytes|
  {
    if bytes == [] then 0
    else (if FateOf(l, bytes[0]) == f then 1 else 0) + Fates(Canonical(l, bytes[0]).0, bytes[1..], f)
  }

  /** The counters agree with the fates, and the fates account for every byte received. */
  lemma {:induction false} EveryByteHasOneFate(t: TtyState, bytes: seq<Byte>)
    requires |t.queue| <= CAPACITY
    ensures
      var r := ReceiveAll(t, bytes);
      && r.discards - t.discards == Fates(t.line, bytes, Escaped)
      && r.overflows - t.overflows == Fates(t.line, bytes, Overflowed)
      && |bytes| == Fates(t.line, bytes, Escaped) + Fates(t.line, bytes, Overflowed) + Fates(t.line, bytes, Ignored)
                    + Fates(t.line, bytes, Control) + Fates(t.line, bytes, Buffered)
    decreases |bytes|
  {
    if bytes != [] {
      EveryByteHasOneFate(Receive(t, bytes[0]), bytes[1..]);
    }
  }

  /**
   Exactly the buffered bytes lengthen the line, by themselves; ignored and
   escaped ones change nothing; and what each control byte does.
   */
  lemma FateDecidesEffect(l: Line, b: Byte)
    ensures
      var (l', sent) := Canonical(l, b);
      match FateOf(l, b)
      case Escaped => l'.text == l.text && sent == []
      case Overflowed => if b == NEWLINE then l'.text == [] && sent == l.text else l'.text == l.text && sent == []
      case Ignored => l' == l && sent == []
      case Control =>
        if b == 0x03 then l'.text == [] && sent == [b]
        else if b == 0x0C then l'.text == l.text && sent == [b]
        else if b == NEWLINE then l'.text == [] && sent == l.text + [b]
        else if b == 0x04 then l'.text == [] && sent == (if l.text == [] then [b] else l.text)
        else sent == [] && l'.text == (if l.text == [] then [] else l.text[..|l.text| - 1])
      case Buffered => l'.text == l.text + [b] && sent == []
  {
  }

  /** Bytes that are not a newline outside a key sequence. */
  predicate NoNewline(l: Line, bytes: seq<Byte>)
    decreases |bytes|
  {
    bytes != [] ==>
      && !(bytes[0] == NEWLINE && !Swallowed(l.esc, NEWLINE))
      && NoNewline(Canonical(l, bytes[0]).0, bytes[1..])
  }

  /** The line counts as cut since the first byte that overflowed it, until its newline. */
  lemma {:induction false} CutUntilNewline(t: TtyState, bytes: seq<Byte>)
    requires |t.queue| <= CAPACITY && NoNewline(t.line, bytes)
    ensures ReceiveAll(t, bytes).truncated <==> t.truncated || Fates(t.line, bytes, Overflowed) > 0
    ensures t.line.esc == 0 ==> !Receive(t, NEWLINE).truncated
    decreases |bytes|
  {
    if bytes != [] {
      CutUntilNewline(Receive(t, bytes[0]), bytes[1..]);
    }
  }

  // ---------------------------------------------------------------------
  // How much one poll can deliver
  // ---------------------------------------------------------------------

  /** What a held line can still cost the queue beyond one byte per byte received. */
  function Credit(text: seq<Byte>): nat {
    Min(|text|, LINE_MAX - 1)
  }

  lemma {:induction false} DeliveryIsBounded(l: Line, bytes: seq<Byte>)
    requires LineOk(l)
    ensures
      var (l', sent) := CanonicalAll(l, bytes);
      |sent| + Credit(l'.text) <= Credit(l.text) + |bytes|
    decreases |bytes|
  {
    if bytes != [] {
      CanonicalKeepsLineOk(l, bytes[0]);
      DeliveryIsBounded(Canonical(l, bytes[0]).0, bytes[1..]);
    }
  }

  /** The most that n bytes can deliver: inside a key sequence the first of them is swallowed. */
  function MostDelivered(l: Line, n: nat): nat {
    if n == 0 then 0 else Credit(l.text) + n - (if l.esc == 0 then 0 else 1)
  }

  lemma DeliversNoMore(l: Line, bytes: seq<Byte>)
    requires LineOk(l)
    ensures |CanonicalAll(l, bytes).1| <= MostDelivered(l, |bytes|)
  {
    if bytes != [] && l.esc != 0 {
      var l1 := Canonical(l, bytes[0]).0;
      CanonicalKeepsLineOk(l, bytes[0]);
      DeliveryIsBounded(l1, bytes[1..]);
    } else {
      DeliveryIsBounded(l, bytes);
    }
  }

  lemma {:induction false} FormFeeds(l: Line, n: nat)
    requires l.esc == 0
    ensures CanonicalAll(l, Repeated(0x0C, n)) == (l, Repeated(0x0C, n))
  {
    if n > 0 {
      assert Repeated(0x0C, n)[1..] == Repeated(0x0C, n - 1);
      FormFeeds(l, n - 1);
      assert [0x0C] + Repeated(0x0C, n - 1) == Repeated(0x0C, n);
    }
  }

  /** Enter and then form feeds, after a byte that ends a key sequence if one is under way. */
  function Worst(esc: nat, n: nat): (bytes: seq<Byte>)
    ensures |bytes| == n
  {
    if n == 0 then []
    else if esc != 0 then [0x61] + Worst(0, n - 1)
    else [NEWLINE] + Repeated(0x0C, n - 1)
  }

  lemma {:induction false} WorstDeliversMost(l: Line, n: nat)
    requires LineOk(l) && (l.esc != 0 ==> n != 1)
    ensures |CanonicalAll(l, Worst(l.esc, n)).1| == MostDelivered(l, n)
    decreases l.esc
  {
    var bytes := Worst(l.esc, n);
    if n > 0 {
      var l1 := Canonical(l, bytes[0]).0;
      if l.esc != 0 {
        assert bytes[1..] == Worst(0, n - 1);
        WorstDeliversMost(Line(0, l.text), n - 1);
      } else {
        assert bytes[1..] == Repeated(0x0C, n - 1);
        FormFeeds(l1, n - 1);
      }
    }
  }

  /**
   No poll of n bytes into an empty queue loses a delivery, whatever the
   bytes are, exactly when n and the credit of the held line fit into it (one
   more byte fits when it is known to be swallowed).
   */
  lemma PollsNeverDropIff(t: TtyState, n: nat)
    requires LineOk(t.line) && t.queue == []
    ensures (forall bytes: seq<Byte> :: |bytes| == n ==> ReceiveAll(t, bytes).rejected == t.rejected)
            <==> n + Credit(t.line.text) <= CAPACITY + (if t.line.esc == 0 then 0 else 1)
  {
    if n + Credit(t.line.text) <= CAPACITY + (if t.line.esc == 0 then 0 else 1) {
      forall bytes: seq<Byte> | |bytes| == n ensures ReceiveAll(t, bytes).rejected == t.rejected {
        DeliversNoMore(t.line, bytes);
        ReceiveRefinesDiscipline(t, bytes);
      }
    } else {
      WorstDeliversMost(t.line, n);
      ReceiveRefinesDiscipline(t, Worst(t.line.esc, n));
    }
  }

  /** For any held line: up to 1537 bytes into an empty queue lose nothing and arrive in order, */
  lemma ShortPollsNeverDrop(t: TtyState, bytes: seq<Byte>)
    requires LineOk(t.line) && t.queue == [] && |bytes| <= 1537
    ensures
      var r := ReceiveAll(t, bytes);
      r.rejected == t.rejected && r.queue == CanonicalAll(t.line, bytes).1
  {
    PollsNeverDropIff(t, |bytes|);
    ReceiveRefinesDiscipline(t, bytes);
    var sent := CanonicalAll(t.line, bytes).1;
    assert [] + sent[..|sent|] == sent;
  }

  /** and 1538 bytes can lose some. */
  lemma LongerPollsCanDrop(t: TtyState)
    requires LineOk(t.line) && t.line.esc == 0 && |t.line.text| >= LINE_MAX - 1 && t.queue == []
    ensures exists bytes: seq<Byte> :: |bytes| == 1538 && ReceiveAll(t, bytes).rejected != t.rejected
  {
    PollsNeverDropIff(t, 1538);
  }

  // ---------------------------------------------------------------------
  // The device
  // ---------------------------------------------------------------------

  /** Leave text on the line and offer bytes to the queue; each refused byte is a drop. */
  function Deliver(t: TtyState, text: seq<Byte>, bytes: seq<Byte>): TtyState
    requires |t.queue| <= CAPACITY
  {
    var lost := |bytes| - Taken(t.queue, bytes, CAPACITY);
    t.(line := Line(t.line.esc, text), queue := Offer(t.queue, bytes, CAPACITY),
       rejected := t.rejected + lost, drops := t.drops + lost)
  }

  lemma ReceiveControl(t: TtyState, b: Byte)
    requires |t.queue| <= CAPACITY && t.line.esc == 0
    ensures b == 0x03 ==> Receive(t, b) == Deliver(t, [], [b])
    ensures b == 0x0C ==> Receive(t, b) == Deliver(t, t.line.text, [b])
    ensures b == 0x04 ==> Receive(t, b) == Deliver(t, [], if t.line.text == [] then [b] else t.line.text)
  {
  }

  lemma ReceiveErase(t: TtyState, b: Byte)
    requires |t.queue| <= CAPACITY && t.line.esc == 0 && (b == 0x08 || b == 0x7F)
    ensures Receive(t, b) == if t.line.text == [] then t else t.(line := Line(0, t.line.text[..|t.line.text| - 1]))
  {
    OfferNothing(t.queue);
  }

  /** The line after its newline was stored, or counted as lost. */
  function WithNewline(t: TtyState): TtyState {
    if |t.line.text| < LINE_MAX then t.(line := Line(0, t.line.text + [NEWLINE]))
    else t.(drops := t.drops + 1, overflows := t.overflows + 1, truncated := true)
  }

  lemma ReceiveNewline(t: TtyState)
    requires |t.queue| <= CAPACITY && t.line.esc == 0
    ensures Receive(t, NEWLINE) == Deliver(WithNewline(t), [], WithNewline(t).line.text).(truncated := false)
  {
  }

  /** One byte in noncanonical mode goes straight to the queue. */
  function Raw(t: TtyState, b: Byte): (r: TtyState)
    requires |t.queue| <= CAPACITY
    ensures |r.queue| <= CAPACITY
  {
    var lost := 1 - Taken(t.queue, [b], CAPACITY);
    t.(queue := Offer(t.queue, [b], CAPACITY), rejected := t.rejected + lost, drops := t.drops + lost)
  }

  /** One byte in either mode. */
  function Accept(t: TtyState, canonical: bool, b: Byte): (r: TtyState)
    requires |t.queue| <= CAPACITY
    ensures |r.queue| <= CAPACITY
  {
    if canonical then Receive(t, b) else Raw(t, b)
  }

  function AcceptAll(t: TtyState, canonical: bool, bytes: seq<Byte>): (r: TtyState)
    requires |t.queue| <= CAPACITY
    ensures |r.queue| <= CAPACITY
    decreases |bytes|
  {
    if bytes == [] then t else AcceptAll(Accept(t, canonical, bytes[0]), canonical, bytes[1..])
  }

  lemma AcceptStep(t: TtyState, canonical: bool, bytes: seq<Byte>, i: nat)
    requires |t.queue| <= CAPACITY && i < |bytes|
    ensures AcceptAll(t, canonical, bytes[i..]) == AcceptAll(Accept(t, canonical, bytes[i]), canonical, bytes[i + 1..])
  {
    assert bytes[i..][0] == bytes[i] && bytes[i..][1..] == bytes[i + 1..];
  }

  lemma {:induction false} CanonicalModeReceives(t: TtyState, bytes: seq<Byte>)
    requires |t.queue| <= CAPACITY
    ensures AcceptAll(t, true, bytes) == ReceiveAll(t, bytes)
    decreases |bytes|
  {
    if bytes != [] {
      CanonicalModeReceives(Receive(t, bytes[0]), bytes[1..]);
    }
  }

  /** In noncanonical mode every byte is delivered as it is, as long as there is room, and the line stays as it was. */
  lemma {:induction false} NoncanonicalPassesEverything(t: TtyState, bytes: seq<Byte>)
    requires |t.queue| <= CAPACITY
    ensures
      var r, lost := AcceptAll(t, false, bytes), |bytes| - Taken(t.queue, bytes, CAPACITY);
      r == t.(queue := Offer(t.queue, bytes, CAPACITY), rejected := t.rejected + lost, drops := t.drops + lost)
    decreases |bytes|
  {
    if bytes == [] {
      OfferNothing(t.queue);
    } else {
      NoncanonicalPassesEverything(Raw(t, bytes[0]), bytes[1..]);
      OfferInParts(t.queue, [bytes[0]], bytes[1..], CAPACITY);
      assert [bytes[0]] + bytes[1..] == bytes;
    }
  }

  /** The PTY table's slots and counters. */
  datatype Table = Table(slots: seq<Slot>, dropped: nat, invalid: nat)

  /**
   What delivering does to the PTY table: if a PTY is attached, only its
   master-to-slave ring and, by the bytes lost, the drop counter; nothing
   otherwise, and never the invalid-operation counter.
   */
  predicate PtyEffect(p: Table, q: Table, attached: bool, id: int, lost: int) {
    if attached then
      && 0 <= id < |p.slots| && |q.slots| == |p.slots|
      && q.slots == p.slots[id := p.slots[id].(m2s := q.slots[id].m2s)]
      && q.dropped == p.dropped + lost && q.invalid == p.invalid
    else q == p
  }

  lemma PtyEffectAdds(p: Table, q: Table, r: Table, attached: bool, id: int, lost: int, lost': int)
    requires PtyEffect(p, q, attached, id, lost) && PtyEffect(q, r, attached, id, lost')
    ensures PtyEffect(p, r, attached, id, lost + lost')
  {
  }

  /** Offering a line byte by byte. */
  lemma OfferNext(queue: seq<Byte>, line: seq<Byte>, i: nat)
    requires |queue| <= CAPACITY && i < |line|
    ensures Offer(Offer(queue, line[..i], CAPACITY), [line[i]], CAPACITY) == Offer(queue, line[..i + 1], CAPACITY)
    ensures Taken(queue, line[..i], CAPACITY) + Taken(Offer(queue, line[..i], CAPACITY), [line[i]], CAPACITY)
         == Taken(queue, line[..i + 1], CAPACITY)
  {
    OfferInParts(queue, line[..i], [line[i]], CAPACITY);
    assert line[..i] + [line[i]] == line[..i + 1];
  }

  class TtyDevice {
    const readQueue: array<Byte>
    var readHead: nat
    var readTail: nat
    const lineBuffer: array<Byte>
    var lineLen: nat
    var escapeState: nat
    var canonical: bool
    var rx: nat
    var drops: nat
    var overflows: nat
    var discards: nat
    var truncated: bool
    /** The attached PTY, negative when there is none. */
    var sessionPty: int
    const ptys: PtyTable
    /** How many enqueues have been refused. */
    ghost var rejected: nat

    ghost predicate QueueValid()
      reads this`readHead, this`readTail, ptys
    {
      readQueue.Length == QUEUE_SIZE && readHead < QUEUE_SIZE && readTail < QUEUE_SIZE && ptys.Valid()
    }

    ghost predicate Valid()
      reads this, ptys
    {
      QueueValid() && lineBuffer.Length == 512 && lineLen <= LINE_MAX && lineBuffer != readQueue
    }

    predicate Attached()
      reads this`sessionPty, ptys
    {
      sessionPty >= 0 && ptys.IsValidId(sessionPty)
    }

    ghost function PtyState(): Table
      reads ptys
    {
      Table(ptys.slots, ptys.dropped, ptys.invalid)
    }

    ghost function OwnRing(): Ring
      reads this`readHead, this`readTail, readQueue
    {
      Ring(readQueue[..], readHead, readTail)
    }

    /** What waits for the reader. */
    ghost function Queue(): (q: seq<Byte>)
      requires QueueValid()
      reads this`readHead, this`readTail, this`sessionPty, ptys, readQueue
      ensures |q| <= CAPACITY
    {
      PushAppends(OwnRing(), 0);
      if Attached() then
        PushAppends(ptys.slots[sessionPty].m2s, 0);
        ptys.slots[sessionPty].m2s.Contents()
      else OwnRing().Contents()
    }

    ghost function View(): (t: TtyState)
      requires Valid()
      reads this, ptys, readQueue, lineBuffer
      ensures |t.queue| <= CAPACITY
    {
      TtyState(Line(escapeState, lineBuffer[..lineLen]), Queue(), rejected, drops, overflows, discards, truncated)
    }

    /** `tty_init` followed by `tty_attach_session` with the given PTY, or none if it is negative. */
    constructor (ptys: PtyTable, sessionPty: int)
      requires ptys.Valid()
      ensures Valid() && this.ptys == ptys && this.sessionPty == sessionPty && canonical && rx == 0
      ensures fresh(readQueue) && fresh(lineBuffer)
      ensures View() == TtyState(Line(0, []), if Attached() then ptys.slots[sessionPty].m2s.Contents() else [],
                                 0, 0, 0, 0, false)
    {
      readQueue := new Byte[QUEUE_SIZE](_ => 0);
      lineBuffer := new Byte[512](_ => 0);
      readHead, readTail, lineLen, escapeState, canonical := 0, 0, 0, 0, true;
      rx, drops, overflows, discards, truncated := 0, 0, 0, 0, false;
      this.sessionPty := sessionPty;
      this.ptys := ptys;
      rejected := 0;
    }

    method EnqueueRead(b: Byte) returns (ok: bool)
      requires Valid()
      modifies this`drops, this`readHead, this`rejected, readQueue, ptys
      ensures Valid() && Attached() == old(Attached())
      ensures Queue() == Offer(old(Queue()), [b], CAPACITY)
      ensures rejected == old(rejected) + 1 - Taken(old(Queue()), [b], CAPACITY)
      ensures drops - old(drops) == rejected - old(rejected)
      ensures ok <==> rejected == old(rejected)
      ensures PtyEffect(old(PtyState()), PtyState(), Attached(), sessionPty, rejected - old(rejected))
    {
      if sessionPty >= 0 && ptys.IsValidId(sessionPty) {
        var wrote := ptys.Write(ToSlave, sessionPty, Some([b]));
        if wrote == 1 {
          return true;
        }
        drops := drops + 1;
        rejected := rejected + 1;
        return false;
      }
      ok := PushOwn(b);
      if !ok {
        drops := drops + 1;
        rejected := rejected + 1;
      }
    }

    /** The part of `tty_enqueue_read` that uses the TTY's own ring. */
    method PushOwn(b: Byte) returns (ok: bool)
      requires Valid()
      modifies this`readHead, readQueue
      ensures Valid()
      ensures |old(OwnRing().Contents())| <= CAPACITY
      ensures OwnRing().Contents() == Offer(old(OwnRing().Contents()), [b], CAPACITY)
      ensures ok <==> Taken(old(OwnRing().Contents()), [b], CAPACITY) == 1
    {
      PushIsOffer(OwnRing(), b);
      var next := Next(readHead, QUEUE_SIZE);
      if next == readTail {
        return false;
      }
      readQueue[readHead] := b;
      readHead := next;
      assert OwnRing() == Push(old(OwnRing()), b);
      return true;
    }

    /** The loop of `tty_flush_line_buffer`. */
    method OfferLine()
      requires Valid()
      modifies this`drops, this`readHead, this`rejected, readQueue, ptys
      ensures Valid() && Attached() == old(Attached())
      ensures Queue() == Offer(old(Queue()), lineBuffer[..lineLen], CAPACITY)
      ensures rejected == old(rejected) + lineLen - Taken(old(Queue()), lineBuffer[..lineLen], CAPACITY)
      ensures drops - old(drops) == rejected - old(rejected)
      ensures PtyEffect(old(PtyState()), PtyState(), Attached(), sessionPty, rejected - old(rejected))
    {
      ghost var line := lineBuffer[..lineLen];
      ghost var queue := Queue();
      for i := 0 to lineLen
        invariant Valid() && Attached() == old(Attached()) && lineLen == |line|
        invariant Queue() == Offer(queue, line[..i], CAPACITY)
        invariant rejected == old(rejected) + i - Taken(queue, line[..i], CAPACITY)
        invariant drops - old(drops) == rejected - old(rejected)
        invariant PtyEffect(old(PtyState()), PtyState(), Attached(), sessionPty, rejected - old(rejected))
      {
        OfferNext(queue, line, i);
        ghost var p, r := PtyState(), rejected;
        var _ := EnqueueRead(lineBuffer[i]);
        PtyEffectAdds(old(PtyState()), p, PtyState(), Attached(), sessionPty, r - old(rejected), rejected - r);
      }
      assert line[..|line|] == line;
    }

    method FlushLineBuffer()
      requires Valid()
      modifies this`lineLen, this`drops, this`readHead, this`rejected, readQueue, ptys
      ensures Valid() && Attached() == old(Attached())
      ensures View() == Deliver(old(View()), [], old(View()).line.text)
      ensures PtyEffect(old(PtyState()), PtyState(), Attached(), sessionPty, rejected - old(rejected))
    {
      OfferLine();
      lineLen := 0;
    }

    /** One enqueue, seen from the whole device. */
    method Send(b: Byte)
      requires Valid()
      modifies this`drops, this`readHead, this`rejected, readQueue, ptys
      ensures Valid() && Attached() == old(Attached())
      ensures View() == Deliver(old(View()), old(View()).line.text, [b])
      ensures PtyEffect(old(PtyState()), PtyState(), Attached(), sessionPty, rejected - old(rejected))
    {
      var _ := EnqueueRead(b);
    }

    /** `tty_handle_escape_filter` */
    method EscapeFilter(b: Byte) returns (consumed: bool)
      requires Valid() && escapeState <= 2
      modifies this`escapeState, this`discards
      ensures Valid()
      ensures consumed == Swallowed(old(escapeState), b)
      ensures escapeState == EscNext(old(escapeState), b)
      ensures discards == old(discards) + (if consumed then 1 else 0)
    {
      consumed := false;
      if escapeState == 0 {
        if b == ESC {
          escapeState := 1;
          consumed := true;
          discards := discards + 1;
        }
        return;
      }
      consumed := true;
      discards := discards + 1;
      if escapeState == 1 {
        if b == 0x5B || b == 0x4F {
          escapeState := 2;
        } else {
          escapeState := 0;
        }
        return;
      }
      if escapeState == 2 && 0x40 <= b <= 0x7E {
        escapeState := 0;
      }
    }

    /** Enter, first half: the newline joins the line if there is room. */
    method StoreNewline()
      requires Valid() && escapeState == 0
      modifies this`lineLen, this`drops, this`overflows, this`truncated, lineBuffer
      ensures Valid()
      ensures View() == WithNewline(old(View()))
    {
      ghost var text := lineBuffer[..lineLen];
      if lineLen + 1 < 512 {
        lineBuffer[lineLen] := NEWLINE;
        lineLen := lineLen + 1;
        assert lineBuffer[..lineLen] == text + [NEWLINE];
      } else {
        drops := drops + 1;
        overflows := overflows + 1;
        truncated := true;
      }
    }

    /** The Enter branch of `tty_handle_canonical`. */
    method Enter()
      requires Valid() && escapeState == 0
      modifies this`lineLen, this`drops, this`overflows, this`truncated, this`readHead, this`rejected
      modifies lineBuffer, readQueue, ptys
      ensures Valid() && Attached() == old(Attached())
      ensures View() == Receive(old(View()), NEWLINE)
      ensures PtyEffect(old(PtyState()), PtyState(), Attached(), sessionPty, rejected - old(rejected))
    {
      ReceiveNewline(View());
      StoreNewline();
      EndLine();
    }

    /** Enter, second half: flush and forget that the line was cut. */
    method EndLine()
      requires Valid()
      modifies this`lineLen, this`drops, this`truncated, this`readHead, this`rejected, readQueue, ptys
      ensures Valid() && Attached() == old(Attached())
      ensures View() == Deliver(old(View()), [], old(View()).line.text).(truncated := false)
      ensures PtyEffect(old(PtyState()), PtyState(), Attached(), sessionPty, rejected - old(rejected))
    {
      FlushLineBuffer();
      truncated := false;
    }

    /** The Ctrl-D branch of `tty_handle_canonical`. */
    method EndOfFile()
      requires Valid() && escapeState == 0
      modifies this`lineLen, this`drops, this`readHead, this`rejected, readQueue, ptys
      ensures Valid() && Attached() == old(Attached())
      ensures View() == Receive(old(View()), 0x04)
      ensures PtyEffect(old(PtyState()), PtyState(), Attached(), sessionPty, rejected - old(rejected))
    {
      ReceiveControl(View(), 0x04);
      if lineLen == 0 {
        Send(0x04);
      } else {
        FlushLineBuffer();
      }
    }

    /** The last branches: ignore what is not printable, count what does not fit, store the rest. */
    method Store(b: Byte)
      requires Valid() && escapeState == 0
      requires b != ESC && b != NEWLINE && b != 0x03 && b != 0x04 && b != 0x08 && b != 0x0C && b != 0x7F
      modifies this`lineLen, this`drops, this`overflows, this`truncated, lineBuffer
      ensures Valid() && View() == Receive(old(View()), b)
    {
      OfferNothing(Queue());
      if !Printable(b) {
        return;
      }
      if lineLen + 1 >= 512 {
        drops := drops + 1;
        overflows := overflows + 1;
        truncated := true;
        return;
      }
      ghost var text := lineBuffer[..lineLen];
      lineBuffer[lineLen] := b;
      lineLen := lineLen + 1;
      assert lineBuffer[..lineLen] == text + [b];
    }

    /** Ctrl-C throws the line away and goes on alone; a form feed goes on past the line. */
    method Pass(b: Byte)
      requires Valid() && escapeState == 0 && (b == 0x03 || b == 0x0C)
      modifies this`lineLen, this`drops, this`readHead, this`rejected, readQueue, ptys
      ensures Valid() && Attached() == old(Attached())
      ensures View() == Receive(old(View()), b)
      ensures PtyEffect(old(PtyState()), PtyState(), Attached(), sessionPty, rejected - old(rejected))
    {
      ReceiveControl(View(), b);
      if b == 0x03 {
        lineLen := 0;
        assert View() == old(View()).(line := Line(0, []));
      }
      Send(b);
    }

    /** Backspace and DEL shorten the line, if there is one. */
    method Rub(b: Byte)
      requires Valid() && escapeState == 0 && (b == 0x08 || b == 0x7F)
      modifies this`lineLen
      ensures Valid()
      ensures View() == Receive(old(View()), b)
    {
      ReceiveErase(View(), b);
      if lineLen > 0 {
        ghost var text := lineBuffer[..lineLen];
        lineLen := lineLen - 1;
        assert lineBuffer[..lineLen] == text[..|text| - 1];
      }
    }

    /** The rest of `tty_handle_canonical`, for a byte the filter let through. */
    method EditByte(b: Byte)
      requires Valid() && escapeState == 0 && b != ESC
      modifies this`lineLen, this`drops, this`overflows, this`truncated, this`readHead, this`rejected
      modifies lineBuffer, readQueue, ptys
      ensures Valid() && Attached() == old(Attached())
      ensures View() == Receive(old(View()), b)
      ensures PtyEffect(old(PtyState()), PtyState(), Attached(), sessionPty, rejected - old(rejected))
    {
      if b == 0x03 || b == 0x0C {
        Pass(b);
        return;
      }
      if b == 0x08 || b == 0x7F {
        Rub(b);
        return;
      }
      if b == NEWLINE {
        Enter();
        return;
      }
      if b == 0x04 {
        EndOfFile();
        return;
      }
      Store(b);
    }

    method HandleCanonical(b: Byte)
      requires Valid() && escapeState <= 2
      modifies this`lineLen, this`drops, this`overflows, this`truncated, this`readHead, this`rejected
      modifies this`escapeState, this`discards, lineBuffer, readQueue, ptys
      ensures Valid() && Attached() == old(Attached()) && escapeState <= 2
      ensures View() == Receive(old(View()), b)
      ensures PtyEffect(old(PtyState()), PtyState(), Attached(), sessionPty, rejected - old(rejected))
    {
      var consumed := EscapeFilter(b);
      if !consumed {
        EditByte(b);
      }
    }

    method HandleNoncanonical(b: Byte)
      requires Valid()
      modifies this`drops, this`readHead, this`rejected, readQueue, ptys
      ensures Valid() && Attached() == old(Attached())
      ensures View() == Raw(old(View()), b)
      ensures PtyEffect(old(PtyState()), PtyState(), Attached(), sessionPty, rejected - old(rejected))
    {
      Send(b);
    }

    /** The body of the poll loop. */
    method HandleByte(b: Byte)
      requires Valid() && escapeState <= 2
      modifies this`lineLen, this`drops, this`overflows, this`truncated, this`readHead, this`rejected
      modifies this`escapeState, this`discards, this`rx, lineBuffer, readQueue, ptys
      ensures Valid() && Attached() == old(Attached()) && escapeState <= 2
      ensures rx == old(rx) + 1
      ensures View() == Accept(old(View()), canonical, b)
      ensures PtyEffect(old(PtyState()), PtyState(), Attached(), sessionPty, rejected - old(rejected))
    {
      rx := rx + 1;
      if canonical {
        HandleCanonical(b);
      } else {
        HandleNoncanonical(b);
      }
    }

    /**
     `tty_poll_input`. The input is the stream that the successful calls of
     keyboard_pop_char return until one fails; interrupts may lengthen it
     while the loop runs.
     */
    method PollInput(input: seq<Byte>)
      requires Valid() && escapeState <= 2
      modifies this`lineLen, this`drops, this`overflows, this`truncated, this`readHead, this`rejected
      modifies this`escapeState, this`discards, this`rx, lineBuffer, readQueue, ptys
      ensures Valid() && Attached() == old(Attached()) && escapeState <= 2
      ensures View() == AcceptAll(old(View()), canonical, input)
      ensures rx == old(rx) + |input|
      ensures PtyEffect(old(PtyState()), PtyState(), Attached(), sessionPty, rejected - old(rejected))
    {
      ghost var start := View();
      for i := 0 to |input|
        invariant Valid() && Attached() == old(Attached()) && escapeState <= 2 && rx == old(rx) + i
        invariant AcceptAll(View(), canonical, input[i..]) == AcceptAll(start, canonical, input)
        invariant PtyEffect(old(PtyState()), PtyState(), Attached(), sessionPty, rejected - old(rejected))
      {
        AcceptStep(View(), canonical, input, i);
        ghost var p, r := PtyState(), rejected;
        HandleByte(input[i]);
        PtyEffectAdds(old(PtyState()), p, PtyState(), Attached(), sessionPty, r - old(rejected), rejected - r);
      }
      assert input[|input|..] == [];
    }

    /** `tty_pop_char`: reads the TTY's own ring, which is the queue when no PTY is attached. */
    method PopChar() returns (c: Option<Byte>)
      requires Valid()
      modifies this`readTail
      ensures Valid() && Attached() == old(Attached())
      ensures old(OwnRing().Contents()) == [] ==> c == None && OwnRing() == old(OwnRing())
      ensures old(OwnRing().Contents()) != [] ==>
                c == Some(old(OwnRing().Contents())[0]) && OwnRing().Contents() == old(OwnRing().Contents())[1..]
    {
      AdvancePops(OwnRing());
      if readTail == readHead {
        return None;
      }
      c := Some(readQueue[readTail]);
      readTail := Next(readTail, QUEUE_SIZE);
      assert OwnRing() == Advance(old(OwnRing()));
    }
  }

  lemma OfferNothing(queue: seq<Byte>)
    requires |queue| <= CAPACITY
    ensures Offer(queue, [], CAPACITY) == queue
  {
  }
}