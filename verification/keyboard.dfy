/**
 The keyboard byte queue (kernel/src/core/keyboard.c). The interrupt handler
 is the only producer, keyboard_pop_char the only consumer; the handler runs
 with interrupts disabled but may run between any two memory accesses of the
 consumer.
 */
module Keyboard {
  import opened Common
  import opened Rings
  import opened Utf8

  const QUEUE_SIZE := 1024

  // ---------------------------------------------------------------------
  // Producer and consumer, one memory access at a time
  // ---------------------------------------------------------------------

  /**
   Where the consumer stands inside keyboard_pop_char, with what it has read so
   far. The two operands of the emptiness test may be read in either order.
   */
  datatype Pc =
    | Idle
    | HaveTail(t: nat)             // tail read first, head still to read
    | HaveHead(h: nat)             // head read first, tail still to read
    | NotEmpty                     // the test failed, the byte is still to fetch
    | Fetching(t: nat)             // tail read as index
    | Fetched(b: Byte)             // *out written
    | Advancing(b: Byte, t: nat)   // tail read again, to be written back plus one

  /** The shared variables, the consumer's position and what has happened so far. */
  datatype State = State(ring: Ring, dropped: nat, pc: Pc,
                         pushed: seq<Byte>, accepted: seq<Byte>, popped: seq<Byte>)

  /** Irq: one kbd_push_byte. Consumer: its next access; the flag picks the order of the two reads. */
  datatype Action = Irq(byte: Byte) | Consumer(tailFirst: bool)

  /** Every index in play is inside the queue. */
  predicate Shape(s: State) {
    s.ring.Valid() && |s.ring.buf| == QUEUE_SIZE && (s.pc.Fetching? ==> s.pc.t < QUEUE_SIZE)
  }

  function PushByte(s: State, b: Byte): State
    requires Shape(s)
  {
    var s' := s.(pushed := s.pushed + [b]);
    if Next(s.ring.head, |s.ring.buf|) == s.ring.tail
    then s'.(dropped := s.dropped + 1)
    else s'.(ring := Push(s.ring, b), accepted := s.accepted + [b])
  }

  function Consume(s: State, tailFirst: bool): State
    requires Shape(s)
  {
    match s.pc
    case Idle => s.(pc := if tailFirst then HaveTail(s.ring.tail) else HaveHead(s.ring.head))
    case HaveTail(t) => s.(pc := if t == s.ring.head then Idle else NotEmpty)
    case HaveHead(h) => s.(pc := if s.ring.tail == h then Idle else NotEmpty)
    case NotEmpty => s.(pc := Fetching(s.ring.tail))
    case Fetching(t) => s.(pc := Fetched(s.ring.buf[t]))
    case Fetched(b) => s.(pc := Advancing(b, s.ring.tail))
    case Advancing(b, t) => s.(ring := s.ring.(tail := Next(t, |s.ring.buf|)), popped := s.popped + [b], pc := Idle)
  }

  /** What holds between any two memory accesses. */
  predicate Inv(s: State) {
    && Shape(s)
    && s.accepted == s.popped + s.ring.Contents()
    && |s.pushed| == |s.accepted| + s.dropped
    && match s.pc
       case Idle => true
       case HaveTail(t) => t == s.ring.tail
       case HaveHead(h) => h != s.ring.tail ==> s.ring.Contents() != []
       case NotEmpty => s.ring.Contents() != []
       case Fetching(t) => t == s.ring.tail && s.ring.Contents() != []
       case Fetched(b) => s.ring.Contents() != [] && b == s.ring.Contents()[0]
       case Advancing(b, t) => t == s.ring.tail && s.ring.Contents() != [] && b == s.ring.Contents()[0]
  }

  function Step(s: State, a: Action): (t: State)
    requires Shape(s)
    ensures Shape(t)
    ensures t.pushed == s.pushed + Pushes([a])
  {
    match a
    case Irq(b) => PushByte(s, b)
    case Consumer(tailFirst) => Consume(s, tailFirst)
  }

  function Start(): State {
    State(Empty(QUEUE_SIZE), 0, Idle, [], [], [])
  }

  /** The producer keeps the invariant wherever the consumer stands, and drops exactly when 1023 bytes wait. */
  lemma PushKeepsInv(s: State, b: Byte)
    requires Inv(s)
    ensures Inv(PushByte(s, b))
    ensures PushByte(s, b).dropped == s.dropped + (if |s.ring.Contents()| == 1023 then 1 else 0)
  {
    PushAppends(s.ring, b);
    AdvancePops(s.ring);
    var t := PushByte(s, b);
    assert s.accepted + [b] == s.popped + (s.ring.Contents() + [b]);
    assert t.ring.Contents() == s.ring.Contents() || t.ring.Contents() == s.ring.Contents() + [b];
  }

  lemma ConsumeKeepsInv(s: State, tailFirst: bool)
    requires Inv(s)
    ensures Inv(Consume(s, tailFirst))
  {
    if s.pc.Advancing? {
      AdvanceKeepsInv(s);
    } else {
      AdvancePops(s.ring);
    }
  }

  /** The write of the tail hands over the byte that was fetched. */
  lemma AdvanceKeepsInv(s: State)
    requires Inv(s) && s.pc.Advancing?
    ensures Inv(Consume(s, true)) && Consume(s, false) == Consume(s, true)
  {
    AdvancePops(s.ring);
    var t := Consume(s, true);
    assert t.ring == Advance(s.ring);
    assert s.popped + s.ring.Contents() == (s.popped + [s.pc.b]) + t.ring.Contents();
  }

  lemma StepKeepsInv(s: State, a: Action)
    requires Inv(s)
    ensures Inv(Step(s, a))
  {
    match a {
      case Irq(b) => PushKeepsInv(s, b);
      case Consumer(tailFirst) => ConsumeKeepsInv(s, tailFirst);
    }
  }

  function Run(s: State, actions: seq<Action>): (t: State)
    requires Shape(s)
    ensures Shape(t)
    decreases |actions|
  {
    if actions == [] then s else Run(Step(s, actions[0]), actions[1..])
  }

  lemma {:induction false} RunKeepsInv(s: State, actions: seq<Action>)
    requires Inv(s)
    ensures Inv(Run(s, actions))
    decreases |actions|
  {
    if actions != [] {
      StepKeepsInv(s, actions[0]);
      RunKeepsInv(Step(s, actions[0]), actions[1..]);
    }
  }

  /** The bytes that interrupts tried to queue, in order. */
  function Pushes(actions: seq<Action>): seq<Byte> {
    if actions == [] then []
    else (if actions[0].Irq? then [actions[0].byte] else []) + Pushes(actions[1..])
  }

  lemma {:induction false} RunRecordsPushes(s: State, actions: seq<Action>)
    requires Shape(s)
    ensures Run(s, actions).pushed == s.pushed + Pushes(actions)
    decreases |actions|
  {
    if actions != [] {
      var a, rest := actions[0], actions[1..];
      RunRecordsPushes(Step(s, a), rest);
      assert Pushes(actions) == Pushes([a]) + Pushes(rest);
    }
  }

  /**
   For every interleaving: what was popped followed by what is queued is what
   was accepted, in order; at most 1023 bytes wait; the drop counter is the
   number of rejected pushes.
   */
  lemma EveryInterleavingIsFifo(actions: seq<Action>)
    ensures
      var s := Run(Start(), actions);
      && s.accepted == s.popped + s.ring.Contents()
      && |s.ring.Contents()| <= 1023
      && s.pushed == Pushes(actions)
      && s.dropped == |s.pushed| - |s.accepted|
  {
    var s := Run(Start(), actions);
    RunKeepsInv(Start(), actions);
    RunRecordsPushes(Start(), actions);
    PushAppends(s.ring, 0);
  }

  /** The accesses a pop still needs, if it found a byte. */
  function AccessesLeft(pc: Pc): nat {
    match pc
    case Idle => 6
    case HaveTail(_) => 5
    case HaveHead(_) => 5
    case NotEmpty => 4
    case Fetching(_) => 3
    case Fetched(_) => 2
    case Advancing(_, _) => 1
  }

  function ConsumerActions(actions: seq<Action>): nat {
    if actions == [] then 0 else (if actions[0].Consumer? then 1 else 0) + ConsumerActions(actions[1..])
  }

  /**
   A pop that starts, or is under way, with a byte waiting succeeds after its
   six accesses, however many interrupts fall in between: it returns the
   oldest byte. (A head that was read while nothing waited is the one way to
   miss a byte that has come since.)
   */
  lemma {:induction false} PopSucceeds(s: State, actions: seq<Action>)
    requires Inv(s) && s.ring.Contents() != [] && (s.pc.HaveHead? ==> s.pc.h != s.ring.tail)
    requires ConsumerActions(actions) == AccessesLeft(s.pc)
    ensures
      var t := Run(s, actions);
      t.pc == Idle && t.popped == s.popped + [s.ring.Contents()[0]]
    decreases |actions|
  {
    if actions[0].Consumer? && s.pc.Advancing? {
      AdvancePops(s.ring);
      OnlyInterrupts(Step(s, actions[0]), actions[1..]);
    } else {
      StepKeepsByte(s, actions[0]);
      PopSucceeds(Step(s, actions[0]), actions[1..]);
    }
  }

  lemma StepKeepsByte(s: State, a: Action)
    requires Inv(s) && s.ring.Contents() != [] && (s.pc.HaveHead? ==> s.pc.h != s.ring.tail)
    requires a.Irq? || !s.pc.Advancing?
    ensures
      var t := Step(s, a);
      && Inv(t) && t.popped == s.popped && t.ring.tail == s.ring.tail
      && t.ring.Contents() != [] && t.ring.Contents()[0] == s.ring.Contents()[0]
      && (t.pc.HaveHead? ==> t.pc.h != t.ring.tail)
      && AccessesLeft(t.pc) == AccessesLeft(s.pc) - (if a.Consumer? then 1 else 0)
  {
    StepKeepsInv(s, a);
    AdvancePops(s.ring);
    if a.Irq? {
      PushAppends(s.ring, a.byte);
    }
  }

  lemma {:induction false} OnlyInterrupts(s: State, actions: seq<Action>)
    requires Shape(s) && ConsumerActions(actions) == 0
    ensures Run(s, actions).pc == s.pc && Run(s, actions).popped == s.popped
    decreases |actions|
  {
    if actions != [] {
      OnlyInterrupts(Step(s, actions[0]), actions[1..]);
    }
  }

  // ---------------------------------------------------------------------
  // What a key press sends
  // ---------------------------------------------------------------------

  /** The keys without a code point that send an escape sequence. */
  datatype SpecialKey =
    | Up | Down | Right | Left | Home | End | Insert | Delete | PageUp | PageDown
    | F1 | F2 | F3 | F4 | F5 | F6 | F7 | F8 | F9 | F10 | F11 | F12

  /** `kbd_emit_special_sequence`: ESC then `[` or `O` and the rest. */
  function Sequence(key: SpecialKey): seq<Byte> {
    match key
    case Up => [0x1B, 0x5B, 0x41]
    case Down => [0x1B, 0x5B, 0x42]
    case Right => [0x1B, 0x5B, 0x43]
    case Left => [0x1B, 0x5B, 0x44]
    case Home => [0x1B, 0x5B, 0x48]
    case End => [0x1B, 0x5B, 0x46]
    case Insert => [0x1B, 0x5B, 0x32, 0x7E]
    case Delete => [0x1B, 0x5B, 0x33, 0x7E]
    case PageUp => [0x1B, 0x5B, 0x35, 0x7E]
    case PageDown => [0x1B, 0x5B, 0x36, 0x7E]
    case F1 => [0x1B, 0x4F, 0x50]
    case F2 => [0x1B, 0x4F, 0x51]
    case F3 => [0x1B, 0x4F, 0x52]
    case F4 => [0x1B, 0x4F, 0x53]
    case F5 => [0x1B, 0x5B, 0x31, 0x35, 0x7E]
    case F6 => [0x1B, 0x5B, 0x31, 0x37, 0x7E]
    case F7 => [0x1B, 0x5B, 0x31, 0x38, 0x7E]
    case F8 => [0x1B, 0x5B, 0x31, 0x39, 0x7E]
    case F9 => [0x1B, 0x5B, 0x32, 0x30, 0x7E]
    case F10 => [0x1B, 0x5B, 0x32, 0x31, 0x7E]
    case F11 => [0x1B, 0x5B, 0x32, 0x33, 0x7E]
    case F12 => [0x1B, 0x5B, 0x32, 0x34, 0x7E]
  }

  datatype KeyEvent = KeyEvent(pressed: bool, unicode: nat, altOrAltGr: bool, special: Option<SpecialKey>)

  /** The bytes one event puts on the line. */
  function InputBytes(e: KeyEvent): seq<Byte> {
    if !e.pressed then []
    else if e.unicode != 0 then (if e.altOrAltGr then [0x1B] else []) + Encode(e.unicode)
    else if e.special.Some? then Sequence(e.special.value)
    else []
  }

  /** The ESC that Alt puts in front. */
  function AltPrefix(e: KeyEvent): seq<Byte> {
    if e.altOrAltGr then [0x1B] else []
  }

  /**
   What the bytes of an event mean. A release sends nothing. A press with a
   code point sends, after an ESC for Alt, bytes that decode to that code
   point and to nothing else (no bytes if it is no scalar value); other
   presses send nothing that starts without ESC.
   */
  lemma EventBytesMean(e: KeyEvent)
    ensures !e.pressed ==> InputBytes(e) == []
    ensures e.pressed && e.unicode != 0 ==>
              && AltPrefix(e) <= InputBytes(e) && |InputBytes(e)| <= 5
              && Decode(READY, InputBytes(e)[|AltPrefix(e)|..]) ==
                 (READY, if IsScalar(e.unicode) then [Decoded(e.unicode)] else [])
              && (!IsScalar(e.unicode) ==> InputBytes(e) == AltPrefix(e))
    ensures e.pressed && e.unicode == 0 ==>
              match e.special
              case None => InputBytes(e) == []
              case Some(key) => InputBytes(e) == Sequence(key)
  {
    if e.pressed && e.unicode != 0 {
      assert InputBytes(e)[|AltPrefix(e)|..] == Encode(e.unicode);
      if IsScalar(e.unicode) {
        DecodeOne(e.unicode);
      }
    }
  }

  /** The queue before and after an event, by what the new bytes mean. */
  predicate Announced(before: seq<Byte>, after: seq<Byte>, e: KeyEvent) {
    && before <= after
    && var bytes := after[|before|..];
       if !e.pressed then bytes == []
       else if e.unicode == 0 then bytes == (match e.special case None => [] case Some(key) => Sequence(key))
       else if !IsScalar(e.unicode) then bytes == AltPrefix(e)
       else AltPrefix(e) <= bytes && Decode(READY, bytes[|AltPrefix(e)|..]) == (READY, [Decoded(e.unicode)])
  }

  lemma OfferAnnounces(queue: seq<Byte>, e: KeyEvent)
    requires |queue| <= 1023
    ensures !e.pressed || |queue| + 5 <= 1023 ==>
              && Announced(queue, Offer(queue, InputBytes(e), 1023), e)
              && Taken(queue, InputBytes(e), 1023) == |InputBytes(e)|
  {
    EventBytesMean(e);
    if !e.pressed || |queue| + 5 <= 1023 {
      assert Offer(queue, InputBytes(e), 1023)[|queue|..] == InputBytes(e);
    }
  }

  /** No two special keys send the same bytes, and none sends the beginning of another's. */
  lemma SequencesAreDistinct(a: SpecialKey, b: SpecialKey)
    ensures Sequence(a) <= Sequence(b) <==> a == b
  {
    var x, y := Sequence(a), Sequence(b);
    if x <= y {
      assert x[1] == y[1] && x[2] == y[2] && (|x| > 3 ==> x[3] == y[3]) && (|x| > 4 ==> x[4] == y[4]);
    }
  }

  /** Without a drop, what was accepted is what was pushed. */
  lemma {:induction false} NothingElseIsAccepted(s: State, actions: seq<Action>)
    requires Shape(s) && (s.dropped == 0 ==> s.accepted == s.pushed)
    ensures Run(s, actions).dropped >= s.dropped
    ensures Run(s, actions).dropped == 0 ==> Run(s, actions).accepted == Run(s, actions).pushed
    decreases |actions|
  {
    if actions != [] {
      NothingElseIsAccepted(Step(s, actions[0]), actions[1..]);
    }
  }

  /** Up to 1023 pushes in all, no interleaving drops any. */
  lemma {:induction false} FewPushesDropNothing(s: State, actions: seq<Action>)
    requires Inv(s) && s.dropped == 0 && |s.pushed| + |Pushes(actions)| <= 1023
    ensures Run(s, actions).dropped == 0
    decreases |actions|
  {
    if actions != [] {
      var a, rest := actions[0], actions[1..];
      StepKeepsInv(s, a);
      assert Pushes(actions) == Pushes([a]) + Pushes(rest);
      if a.Irq? {
        PushKeepsInv(s, a.byte);
        assert |Pushes([a])| == 1;
      }
      FewPushesDropNothing(Step(s, a), rest);
    }
  }

  /** The queue as the kernel holds it. */
  class KeyboardQueue {
    const queue: array<Byte>
    var head: nat
    var tail: nat
    var dropped: nat

    ghost predicate Valid()
      reads this
    {
      queue.Length == QUEUE_SIZE && head < QUEUE_SIZE && tail < QUEUE_SIZE
    }

    ghost function Queued(): (q: seq<Byte>)
      requires Valid()
      reads this, queue
      ensures |q| <= 1023
    {
      PushAppends(Ring(queue[..], head, tail), 0);
      Ring(queue[..], head, tail).Contents()
    }

    constructor ()
      ensures Valid() && fresh(queue) && Queued() == [] && dropped == 0
    {
      queue := new Byte[QUEUE_SIZE](_ => 0);
      head, tail, dropped := 0, 0, 0;
    }

    method PushByte(b: Byte)
      requires Valid()
      modifies this`head, this`dropped, queue
      ensures Valid()
      ensures Queued() == Offer(old(Queued()), [b], 1023)
      ensures dropped == old(dropped) + 1 - Taken(old(Queued()), [b], 1023)
    {
      PushIsOffer(Ring(queue[..], head, tail), b);
      var next := Next(head, QUEUE_SIZE);
      if next == tail {
        dropped := dropped + 1;
        return;
      }
      queue[head] := b;
      head := next;
      assert Ring(queue[..], head, tail) == Push(old(Ring(queue[..], head, tail)), b);
    }

    /** `kbd_emit_sequence`: push one after the other; when the queue fills up the rest is dropped. */
    method EmitSequence(bytes: seq<Byte>)
      requires Valid()
      modifies this`head, this`dropped, queue
      ensures Valid()
      ensures Queued() == Offer(old(Queued()), bytes, 1023)
      ensures dropped == old(dropped) + |bytes| - Taken(old(Queued()), bytes, 1023)
    {
      for i := 0 to |bytes|
        invariant Valid()
        invariant Queued() == Offer(old(Queued()), bytes[..i], 1023)
        invariant dropped == old(dropped) + i - Taken(old(Queued()), bytes[..i], 1023)
      {
        OfferInParts(old(Queued()), bytes[..i], [bytes[i]], 1023);
        assert bytes[..i] + [bytes[i]] == bytes[..i + 1];
        PushByte(bytes[i]);
      }
      assert bytes[..|bytes|] == bytes;
    }

    /**
     `kbd_emit_input_bytes`: nothing on release; on a press, when five bytes
     fit, the code point in UTF-8 after an ESC for Alt, or else the special
     key's sequence.
     */
    method EmitInput(e: KeyEvent)
      requires Valid()
      modifies this`head, this`dropped, queue
      ensures Valid()
      ensures !e.pressed || |old(Queued())| + 5 <= 1023 ==>
        Announced(old(Queued()), Queued(), e) && dropped == old(dropped)
      ensures Queued() == Offer(old(Queued()), InputBytes(e), 1023)
      ensures dropped == old(dropped) + |InputBytes(e)| - Taken(old(Queued()), InputBytes(e), 1023)
    {
      OfferAnnounces(Queued(), e);
      if !e.pressed {
        return;
      }
      if e.unicode != 0 {
        if e.altOrAltGr {
          PushByte(0x1B);
          OfferInParts(old(Queued()), [0x1B], Encode(e.unicode), 1023);
        }
        EmitSequence(Encode(e.unicode));
        assert InputBytes(e) == AltPrefix(e) + Encode(e.unicode);
        assert !e.altOrAltGr ==> [] + Encode(e.unicode) == Encode(e.unicode);
        assert Queued() == Offer(old(Queued()), InputBytes(e), 1023);
        return;
      }
      if e.special.Some? {
        EmitSequence(Sequence(e.special.value));
      }
    }

    /** `keyboard_pop_char` with no interrupt in between. */
    method PopChar() returns (c: Option<Byte>)
      requires Valid()
      modifies this`tail
      ensures Valid()
      ensures old(Queued()) == [] ==> c == None && Queued() == []
      ensures old(Queued()) != [] ==> c == Some(old(Queued())[0]) && Queued() == old(Queued())[1..]
    {
      AdvancePops(Ring(queue[..], head, tail));
      if tail == head {
        return None;
      }
      c := Some(queue[tail]);
      tail := Next(tail, QUEUE_SIZE);
      assert Ring(queue[..], head, tail) == Advance(old(Ring(queue[..], head, tail)));
    }
  }
}
