/**
 The scancode side of kernel/src/core/keyboard.c: prefixes, key state,
 modifiers and locks, up to the bytes that go into the queue. The code tables
 are parameters.
 */
module Scancodes {
  import opened Common
  import opened Rings
  import opened Utf8
  import opened Keyboard

  const KEY_MAX := 102

  datatype Modifier = Shift | Ctrl | Alt | AltGr | Meta
  datatype Lock = Caps | Num | Scroll

  /** The keys of `kbd_update_state`. */
  function ModifierOf(key: nat): Option<Modifier> {
    if key == 42 || key == 54 then Some(Shift)
    else if key == 29 || key == 86 then Some(Ctrl)
    else if key == 56 then Some(Alt)
    else if key == 87 then Some(AltGr)
    else if key == 98 || key == 99 then Some(Meta)
    else None
  }

  function LockOf(key: nat): Option<Lock> {
    if key == 58 then Some(Caps) else if key == 69 then Some(Num) else if key == 70 then Some(Scroll) else None
  }

  /** Scancode tables without and with the E0 prefix, code points by key and state, and the special keys. */
  datatype Tables = Tables(plain: seq<nat>, prefixed: seq<nat>,
                           unicode: (nat, set<Modifier>, set<Lock>) -> nat,
                           special: nat -> Option<SpecialKey>) {
    predicate Valid() { |plain| == 128 && |prefixed| == 128 }
  }

  datatype Scanner = Scanner(prefix: bool, skip: nat, modifiers: set<Modifier>, locks: set<Lock>, down: seq<bool>) {
    predicate Valid() { |down| == KEY_MAX }
  }

  /** A key going down or up, as the handler reports it. */
  datatype Report = Report(key: nat, pressed: bool, repeated: bool, event: KeyEvent)

  const AT_REST := Scanner(false, 0, {}, {}, seq(KEY_MAX, _ => false))

  /** `kbd_update_state` */
  function Update(s: Scanner, key: nat, pressed: bool): Scanner {
    match ModifierOf(key)
    case Some(m) => s.(modifiers := if pressed then s.modifiers + {m} else s.modifiers - {m})
    case None =>
      match LockOf(key)
      case Some(l) => if pressed then s.(locks := if l in s.locks then s.locks - {l} else s.locks + {l}) else s
      case None => s
  }

  /** `keyboard_on_irq` without the queues. */
  function Scan(tb: Tables, s: Scanner, code: Byte): (r: (Scanner, Option<Report>))
    requires tb.Valid() && s.Valid()
    ensures r.0.Valid()
  {
    if code == 0xE0 then (s.(prefix := true), None)
    else if code == 0xE1 then (s.(skip := 5), None)
    else if s.skip > 0 then (s.(skip := s.skip - 1), None)
    else
      var key := if s.prefix then tb.prefixed[code % 128] else tb.plain[code % 128];
      var pressed := code < 0x80;
      var s1 := s.(prefix := false);
      if key == 0 || key >= KEY_MAX then (s1, None)
      else
        var s2 := Update(s1.(down := s1.down[key := pressed]), key, pressed);
        (s2, Some(Report(key, pressed, pressed && s.down[key],
                         KeyEvent(pressed, if pressed then tb.unicode(key, s2.modifiers, s2.locks) else 0,
                                  Alt in s2.modifiers || AltGr in s2.modifiers, tb.special(key)))))
  }

  function ScanAll(tb: Tables, s: Scanner, codes: seq<Byte>): (r: (Scanner, seq<Report>))
    requires tb.Valid() && s.Valid()
    ensures r.0.Valid()
    decreases |codes|
  {
    if codes == [] then (s, [])
    else
      var (s1, e) := Scan(tb, s, codes[0]);
      var (s2, es) := ScanAll(tb, s1, codes[1..]);
      (s2, (if e.Some? then [e.value] else []) + es)
  }

  // ---------------------------------------------------------------------
  // Modifier bits and the keys held
  // ---------------------------------------------------------------------

  predicate Held(s: Scanner, m: Modifier)
    requires s.Valid()
  {
    exists k :: 0 <= k < KEY_MAX && ModifierOf(k) == Some(m) && s.down[k]
  }

  /** A modifier bit is never set without one of its keys being down. */
  predicate BitsAreHeld(s: Scanner)
    requires s.Valid()
  {
    forall m :: m in s.modifiers ==> Held(s, m)
  }

  lemma ScanKeepsBits(tb: Tables, s: Scanner, code: Byte)
    requires tb.Valid() && s.Valid() && BitsAreHeld(s)
    ensures BitsAreHeld(Scan(tb, s, code).0)
  {
    var (t, e) := Scan(tb, s, code);
    forall m | m in t.modifiers ensures Held(t, m) {
      if e.Some? && ModifierOf(e.value.key) == Some(m) {
        assert t.down[e.value.key];
      } else {
        var k :| 0 <= k < KEY_MAX && ModifierOf(k) == Some(m) && s.down[k];
        assert t.down[k];
      }
    }
  }

  /** Over every run of scancodes. */
  lemma {:induction false} SetBitsAreHeld(tb: Tables, s: Scanner, codes: seq<Byte>)
    requires tb.Valid() && s.Valid() && BitsAreHeld(s)
    ensures BitsAreHeld(ScanAll(tb, s, codes).0)
    decreases |codes|
  {
    if codes != [] {
      ScanKeepsBits(tb, s, codes[0]);
      SetBitsAreHeld(tb, Scan(tb, s, codes[0]).0, codes[1..]);
    }
  }

  /** Another key of the same modifier is down. */
  predicate TwinDown(s: Scanner, key: nat)
    requires s.Valid()
  {
    exists k :: 0 <= k < KEY_MAX && k != key && ModifierOf(k) == ModifierOf(key) && s.down[k]
  }

  /**
   The converse fails, because left and right keys share a bit. After a
   modifier key moves, its bit tells whether one of its keys is held exactly
   when the key went down or its twin is up.
   */
  lemma BitAgreesIff(tb: Tables, s: Scanner, code: Byte)
    requires tb.Valid() && s.Valid()
    requires Scan(tb, s, code).1.Some? && ModifierOf(Scan(tb, s, code).1.value.key).Some?
    ensures
      var (t, e) := Scan(tb, s, code);
      var m := ModifierOf(e.value.key).value;
      (m in t.modifiers <==> Held(t, m)) <==> e.value.pressed || !TwinDown(s, e.value.key)
  {
    var (t, e) := Scan(tb, s, code);
    var key := e.value.key;
    var m := ModifierOf(key).value;
    if e.value.pressed {
      assert t.down[key];
    } else if TwinDown(s, key) {
      var k :| 0 <= k < KEY_MAX && k != key && ModifierOf(k) == ModifierOf(key) && s.down[k];
      assert t.down[k];
    }
  }

  lemma ScanHead(tb: Tables, s: Scanner, a: Byte, rest: seq<Byte>)
    requires tb.Valid() && s.Valid()
    ensures ScanAll(tb, s, [a] + rest).0 == ScanAll(tb, Scan(tb, s, a).0, rest).0
  {
    assert ([a] + rest)[1..] == rest;
  }

  /** Both shift keys down, then the left one up: the right one is still held and the bit is off. */
  lemma SharedShiftBit(tb: Tables, left: Byte, right: Byte)
    requires tb.Valid() && left < 0x60 && right < 128 && tb.plain[left] == 42 && tb.plain[right] == 54
    ensures
      var s := ScanAll(tb, AT_REST, [left] + ([right] + [left + 0x80])).0;
      Shift !in s.modifiers && s.down[54]
  {
    ScanHead(tb, AT_REST, left, [right] + [left + 0x80]);
    var s1 := Scan(tb, AT_REST, left).0;
    ScanHead(tb, s1, right, [left + 0x80]);
    var s2 := Scan(tb, s1, right).0;
    assert s2.down[54] && !s2.prefix && s2.skip == 0;
    assert [left + 0x80][1..] == [];
    assert (left as int + 0x80) % 128 == left;
    var s3 := Scan(tb, s2, left + 0x80).0;
    assert ModifierOf(42) == Some(Shift);
    assert s3.down[54] && Shift !in s3.modifiers;
    assert ScanAll(tb, s2, [left + 0x80]).0 == s3;
  }

  // ---------------------------------------------------------------------
  // The Pause key
  // ---------------------------------------------------------------------

  /**
   What happens while the skip count n lasts: the count, the prefix flag and
   the scancodes left when it is used up, or the stream ends. A prefix byte is
   not counted, and E1 starts the count again.
   */
  function Skipping(n: nat, prefix: bool, codes: seq<Byte>): (nat, bool, seq<Byte>)
    decreases |codes|
  {
    if n == 0 || codes == [] then (n, prefix, codes)
    else if codes[0] == 0xE0 then Skipping(n, true, codes[1..])
    else if codes[0] == 0xE1 then Skipping(5, prefix, codes[1..])
    else Skipping(n - 1, prefix, codes[1..])
  }

  /** Skipped scancodes report nothing and touch nothing but the prefix flag. */
  lemma {:induction false} ScanAfterSkipping(tb: Tables, s: Scanner, codes: seq<Byte>)
    requires tb.Valid() && s.Valid()
    ensures
      var (n, prefix, rest) := Skipping(s.skip, s.prefix, codes);
      ScanAll(tb, s, codes) == ScanAll(tb, s.(skip := n, prefix := prefix), rest)
    decreases |codes|
  {
    if s.skip > 0 && codes != [] {
      var s1 := Scan(tb, s, codes[0]).0;
      ScanAfterSkipping(tb, s1, codes[1..]);
      assert [] + ScanAll(tb, s1, codes[1..]).1 == ScanAll(tb, s1, codes[1..]).1;
    }
  }

  /** Scancodes other than E0. */
  function Counted(codes: seq<Byte>): nat {
    if codes == [] then 0 else (if codes[0] == 0xE0 then 0 else 1) + Counted(codes[1..])
  }

  /**
   Without E1 the skipped part holds exactly the first n scancodes other than
   E0, and the flag is set if E0 was among it.
   */
  lemma {:induction false} SkippedPart(n: nat, prefix: bool, codes: seq<Byte>) returns (skipped: seq<Byte>)
    requires 0xE1 !in codes
    ensures
      var (k, flag, rest) := Skipping(n, prefix, codes);
      && codes == skipped + rest
      && n == Counted(skipped) + k && (k > 0 ==> rest == [])
      && (flag <==> prefix || 0xE0 in skipped)
    decreases |codes|
  {
    if n == 0 || codes == [] {
      skipped := [];
    } else {
      var c, rest := codes[0], codes[1..];
      var more := SkippedPart(if c == 0xE0 then n else n - 1, c == 0xE0 || prefix, rest);
      skipped := [c] + more;
      assert skipped[1..] == more && codes == [c] + rest;
    }
  }

  lemma {:induction false} ScanSplit(tb: Tables, s: Scanner, xs: seq<Byte>, ys: seq<Byte>)
    requires tb.Valid() && s.Valid()
    ensures
      var (s1, es) := ScanAll(tb, s, xs);
      var (s2, fs) := ScanAll(tb, s1, ys);
      ScanAll(tb, s, xs + ys) == (s2, es + fs)
    decreases |xs|
  {
    if xs == [] {
      assert xs + ys == ys;
      assert [] + ScanAll(tb, s, ys).1 == ScanAll(tb, s, ys).1;
    } else {
      assert (xs + ys)[0] == xs[0] && (xs + ys)[1..] == xs[1..] + ys;
      var (s1, e) := Scan(tb, s, xs[0]);
      ScanSplit(tb, s1, xs[1..], ys);
      var head := if e.Some? then [e.value] else [];
      var (m, es) := ScanAll(tb, s1, xs[1..]);
      assert head + (es + ScanAll(tb, m, ys).1) == (head + es) + ScanAll(tb, m, ys).1;
    }
  }

  /** The six scancodes of Pause: E1 1D 45 E1 9D C5. */
  const PAUSE: seq<Byte> := [0xE1, 0x1D, 0x45] + [0xE1, 0x9D, 0xC5]

  lemma HalfPause(tb: Tables, s: Scanner, a: Byte, b: Byte)
    requires tb.Valid() && s.Valid() && a != 0xE0 && a != 0xE1 && b != 0xE0 && b != 0xE1
    ensures ScanAll(tb, s, [0xE1, a, b]) == (s.(skip := 3), [])
  {
    assert [0xE1, a, b][1..] == [a, b] && [a, b][1..] == [b] && [b][1..] == [];
    assert Skipping(5, s.prefix, [a, b]) == (3, s.prefix, []) by {
      assert Skipping(4, s.prefix, [b]) == (3, s.prefix, []);
    }
    ScanAfterSkipping(tb, s.(skip := 5), [a, b]);
    assert [] + ScanAll(tb, s.(skip := 5), [a, b]).1 == [];
  }

  /**
   Pause is not ignored cleanly: the second E1 arms the count again, so in
   whatever follows it three scancodes besides E0 are swallowed (SkippedPart).
   */
  lemma PauseSwallowsThreeMore(tb: Tables, s: Scanner, next: seq<Byte>)
    requires tb.Valid() && s.Valid()
    ensures
      var (n, prefix, rest) := Skipping(3, s.prefix, next);
      ScanAll(tb, s, PAUSE + next) == ScanAll(tb, s.(skip := n, prefix := prefix), rest)
  {
    HalfPause(tb, s, 0x1D, 0x45);
    HalfPause(tb, s.(skip := 3), 0x9D, 0xC5);
    ScanSplit(tb, s, [0xE1, 0x1D, 0x45], [0xE1, 0x9D, 0xC5]);
    ScanSplit(tb, s, PAUSE, next);
    var s1 := s.(skip := 3);
    assert ScanAll(tb, s, PAUSE) == (s1, []);
    ScanAfterSkipping(tb, s1, next);
    assert [] + ScanAll(tb, s1, next).1 == ScanAll(tb, s1, next).1;
  }

  /** The scancodes of an arrow key pressed and released, and one more. */
  function ArrowThen(arrow: Byte, x: Byte): seq<Byte>
    requires arrow < 0x60
  {
    [0xE0] + ([arrow] + ([0xE0] + ([arrow + 0x80] + [x])))
  }

  lemma ArrowIsSkipped(arrow: Byte, x: Byte, prefix: bool)
    requires arrow < 0x60 && x != 0xE0 && x != 0xE1
    ensures Skipping(3, prefix, ArrowThen(arrow, x)) == (0, true, [])
  {
    var tail := [arrow + 0x80] + [x];
    assert ArrowThen(arrow, x)[1..] == [arrow] + ([0xE0] + tail) && ([arrow] + ([0xE0] + tail))[1..] == [0xE0] + tail;
    assert ([0xE0] + tail)[1..] == tail && tail[1..] == [x] && [x][1..] == [];
    assert Skipping(1, true, [x]) == (0, true, []);
    assert Skipping(2, true, [0xE0] + tail) == (0, true, []) by {
      assert Skipping(2, true, tail) == (0, true, []);
    }
  }

  /**
   After Pause an arrow key and one more scancode vanish but for the prefix
   flag: the next plain key is looked up as an E0 key.
   */
  lemma ArrowAfterPause(tb: Tables, s: Scanner, arrow: Byte, x: Byte, code: Byte)
    requires tb.Valid() && s.Valid() && arrow < 0x60
    requires x != 0xE0 && x != 0xE1 && code != 0xE0 && code != 0xE1
    ensures ScanAll(tb, s, PAUSE + ArrowThen(arrow, x)) == (s.(skip := 0, prefix := true), [])
    ensures
      var e := Scan(tb, s.(skip := 0, prefix := true), code).1;
      var key := tb.prefixed[code % 128];
      e.Some? <==> 0 < key < KEY_MAX
    ensures
      var e := Scan(tb, s.(skip := 0, prefix := true), code).1;
      e.Some? ==> e.value.key == tb.prefixed[code % 128]
  {
    PauseSwallowsThreeMore(tb, s, ArrowThen(arrow, x));
    ArrowIsSkipped(arrow, x, s.prefix);
  }

  // ---------------------------------------------------------------------
  // Locks
  // ---------------------------------------------------------------------

  /** How often a key is reported pressed, repeats included. */
  function Presses(reports: seq<Report>, key: nat): nat {
    if reports == [] then 0
    else (if reports[0].key == key && reports[0].pressed then 1 else 0) + Presses(reports[1..], key)
  }

  lemma ScanFlipsLock(tb: Tables, s: Scanner, code: Byte, key: nat)
    requires tb.Valid() && s.Valid() && LockOf(key).Some?
    ensures
      var (t, e) := Scan(tb, s, code);
      var l := LockOf(key).value;
      (l in t.locks) == if e.Some? && e.value.key == key && e.value.pressed then l !in s.locks else l in s.locks
  {
  }

  /** Over every run a lock is on exactly when the parity says so: auto-repeat flips it too. */
  lemma {:induction false} LocksCountPresses(tb: Tables, s: Scanner, codes: seq<Byte>, key: nat)
    requires tb.Valid() && s.Valid() && LockOf(key).Some?
    ensures
      var (t, es) := ScanAll(tb, s, codes);
      var l := LockOf(key).value;
      (l in t.locks) == ((l in s.locks) == (Presses(es, key) % 2 == 0))
    decreases |codes|
  {
    if codes != [] {
      var (s1, e) := Scan(tb, s, codes[0]);
      ScanFlipsLock(tb, s, codes[0], key);
      LocksCountPresses(tb, s1, codes[1..], key);
      var es := ScanAll(tb, s1, codes[1..]).1;
      if e.Some? {
        assert ([e.value] + es)[1..] == es;
      } else {
        assert [] + es == es;
      }
    }
  }

  // ---------------------------------------------------------------------
  // Keys held
  // ---------------------------------------------------------------------

  /** What the last report about a key said, if there was one. */
  function LastSaid(reports: seq<Report>, key: nat): Option<bool> {
    if reports == [] then None
    else
      match LastSaid(reports[1..], key)
      case Some(p) => Some(p)
      case None => if reports[0].key == key then Some(reports[0].pressed) else None
  }

  lemma ScanMovesOneKey(tb: Tables, s: Scanner, code: Byte, key: nat)
    requires tb.Valid() && s.Valid() && key < KEY_MAX
    ensures
      var (t, e) := Scan(tb, s, code);
      && (t.down[key] == if e.Some? && e.value.key == key then e.value.pressed else s.down[key])
      && (e.Some? ==> 0 < e.value.key < KEY_MAX && (e.value.repeated <==> e.value.pressed && s.down[e.value.key]))
  {
  }

  /** Over every run a key counts as held as its last report said, and as before if there was none. */
  lemma {:induction false} KeysFollowReports(tb: Tables, s: Scanner, codes: seq<Byte>, key: nat)
    requires tb.Valid() && s.Valid() && key < KEY_MAX
    ensures
      var (t, es) := ScanAll(tb, s, codes);
      t.down[key] == match LastSaid(es, key) case Some(p) => p case None => s.down[key]
    decreases |codes|
  {
    if codes != [] {
      var (s1, e) := Scan(tb, s, codes[0]);
      ScanMovesOneKey(tb, s, codes[0], key);
      KeysFollowReports(tb, s1, codes[1..], key);
      var es := ScanAll(tb, s1, codes[1..]).1;
      if e.Some? {
        assert ([e.value] + es)[1..] == es;
      } else {
        assert [] + es == es;
      }
    }
  }

  // ---------------------------------------------------------------------
  // From scancodes to queued bytes
  // ---------------------------------------------------------------------

  /** The bytes that a run of interrupts sends, all reports together. */
  function Bytes(reports: seq<Report>): seq<Byte> {
    if reports == [] then [] else InputBytes(reports[0].event) + Bytes(reports[1..])
  }

  /** The bytes of one interrupt. */
  function Sends(tb: Tables, s: Scanner, code: Byte): seq<Byte>
    requires tb.Valid() && s.Valid()
  {
    match Scan(tb, s, code).1
    case None => []
    case Some(report) => InputBytes(report.event)
  }

  /** Key state and queue after one interrupt, as OnIrq leaves them, */
  function IrqOne(tb: Tables, s: Scanner, queue: seq<Byte>, code: Byte): (r: (Scanner, seq<Byte>))
    requires tb.Valid() && s.Valid() && |queue| <= 1023
    ensures r.0.Valid() && |r.1| <= 1023
  {
    (Scan(tb, s, code).0, Offer(queue, Sends(tb, s, code), 1023))
  }

  /** and after a run of interrupts with nobody reading. */
  function IrqAll(tb: Tables, s: Scanner, queue: seq<Byte>, codes: seq<Byte>): (r: (Scanner, seq<Byte>))
    requires tb.Valid() && s.Valid() && |queue| <= 1023
    ensures |r.1| <= 1023
    decreases |codes|
  {
    if codes == [] then (s, queue)
    else
      var (t, q) := IrqOne(tb, s, queue, codes[0]);
      IrqAll(tb, t, q, codes[1..])
  }

  lemma {:induction false} IrqsOfferBytes(tb: Tables, s: Scanner, queue: seq<Byte>, codes: seq<Byte>)
    requires tb.Valid() && s.Valid() && |queue| <= 1023
    ensures IrqAll(tb, s, queue, codes) == (ScanAll(tb, s, codes).0, Offer(queue, Bytes(ScanAll(tb, s, codes).1), 1023))
    decreases |codes|
  {
    if codes == [] {
      assert queue + [] == queue;
    } else {
      var (s1, e) := Scan(tb, s, codes[0]);
      var bytes := Sends(tb, s, codes[0]);
      var es := ScanAll(tb, s1, codes[1..]).1;
      IrqsOfferBytes(tb, s1, Offer(queue, bytes, 1023), codes[1..]);
      OfferInParts(queue, bytes, Bytes(es), 1023);
      if e.Some? {
        assert ([e.value] + es)[1..] == es;
      } else {
        assert [] + es == es && [] + Bytes(es) == Bytes(es);
      }
    }
  }

  /** The key of a scancode without prefix. */
  function KeyOf(tb: Tables, code: Byte): nat
    requires tb.Valid()
  {
    tb.plain[code % 128]
  }

  /** The scancode of a key that types a character, going down or up: no prefix, no modifier, no lock. */
  predicate TypingCode(tb: Tables, s: Scanner, code: Byte)
    requires tb.Valid()
  {
    var key := KeyOf(tb, code);
    && code != 0xE0 && code != 0xE1 && 0 < key < KEY_MAX && ModifierOf(key).None? && LockOf(key).None?
    && tb.unicode(key, s.modifiers, s.locks) > 0 && IsScalar(tb.unicode(key, s.modifiers, s.locks))
  }

  predicate AllTyping(tb: Tables, s: Scanner, codes: seq<Byte>)
    requires tb.Valid()
  {
    forall i :: 0 <= i < |codes| ==> TypingCode(tb, s, codes[i])
  }

  /** The characters of the keys that go down, in order. */
  function Characters(tb: Tables, s: Scanner, codes: seq<Byte>): seq<nat>
    requires tb.Valid()
  {
    if codes == [] then []
    else
      (if codes[0] < 0x80 then [tb.unicode(KeyOf(tb, codes[0]), s.modifiers, s.locks)] else [])
      + Characters(tb, s, codes[1..])
  }

  /** Between scancodes, with neither Alt key held. */
  predicate Listening(s: Scanner) {
    !s.prefix && s.skip == 0 && Alt !in s.modifiers && AltGr !in s.modifiers
  }

  lemma OneTypedKey(tb: Tables, s: Scanner, code: Byte)
    requires tb.Valid() && s.Valid() && Listening(s) && TypingCode(tb, s, code)
    ensures
      var (t, e) := Scan(tb, s, code);
      && t == s.(down := t.down) && e.Some?
      && InputBytes(e.value.event) ==
         if code < 0x80 then Encode(tb.unicode(KeyOf(tb, code), s.modifiers, s.locks)) else []
  {
  }

  /**
   However the presses and releases of typing keys follow each other, auto-
   repeat included: what is sent is the encoding of the characters of the keys
   pressed, in order, and a release sends nothing.
   */
  lemma {:induction false} TypingSendsCharacters(tb: Tables, s: Scanner, codes: seq<Byte>)
    requires tb.Valid() && s.Valid() && Listening(s) && AllTyping(tb, s, codes)
    ensures
      var (t, es) := ScanAll(tb, s, codes);
      t == s.(down := t.down) && Bytes(es) == EncodeAll(Characters(tb, s, codes))
    decreases |codes|
  {
    if codes != [] {
      var code, rest := codes[0], codes[1..];
      OneTypedKey(tb, s, code);
      var (s1, e) := Scan(tb, s, code);
      var es := ScanAll(tb, s1, rest).1;
      assert forall i :: 0 <= i < |rest| ==> TypingCode(tb, s, rest[i]) && TypingCode(tb, s1, rest[i]);
      SameCharacters(tb, s, s1, rest);
      TypingSendsCharacters(tb, s1, rest);
      assert ([e.value] + es)[1..] == es;
      if code < 0x80 {
        assert Characters(tb, s, codes)[1..] == Characters(tb, s, rest);
      } else {
        assert [] + Characters(tb, s, rest) == Characters(tb, s, rest);
        assert [] + Bytes(es) == Bytes(es);
      }
    }
  }

  lemma {:induction false} SameCharacters(tb: Tables, s: Scanner, t: Scanner, codes: seq<Byte>)
    requires tb.Valid() && t.modifiers == s.modifiers && t.locks == s.locks
    ensures Characters(tb, t, codes) == Characters(tb, s, codes)
  {
    if codes != [] {
      SameCharacters(tb, s, t, codes[1..]);
    }
  }

  /** So the keys pressed decide what a run of interrupts queues, and the console can read it back from there. */
  lemma TypedKeysAreQueued(tb: Tables, s: Scanner, codes: seq<Byte>)
    requires tb.Valid() && s.Valid() && Listening(s) && AllTyping(tb, s, codes)
    requires |EncodeAll(Characters(tb, s, codes))| <= 1023
    ensures
      var (t, queue) := IrqAll(tb, s, [], codes);
      Decode(READY, queue) == (READY, Shown(Characters(tb, s, codes)))
  {
    TypingSendsCharacters(tb, s, codes);
    IrqsOfferBytes(tb, s, [], codes);
    var bytes := EncodeAll(Characters(tb, s, codes));
    assert [] + bytes[..|bytes|] == bytes;
    CharactersAreScalar(tb, s, codes);
    DecodeUndoesEncode(Characters(tb, s, codes));
  }

  lemma {:induction false} CharactersAreScalar(tb: Tables, s: Scanner, codes: seq<Byte>)
    requires tb.Valid() && AllTyping(tb, s, codes)
    ensures forall cp :: cp in Characters(tb, s, codes) ==> IsScalar(cp)
  {
    if codes != [] {
      assert AllTyping(tb, s, codes[1..]);
      CharactersAreScalar(tb, s, codes[1..]);
    }
  }

  // ---------------------------------------------------------------------
  // What the keys of a keyboard send
  // ---------------------------------------------------------------------

  /** A key going down or up, as its scancode with or without the E0 prefix says. */
  datatype Stroke = Stroke(prefixed: bool, code: Byte) {
    predicate Valid() { code != 0xE0 && code != 0xE1 }
    function Down(): bool { code < 0x80 }
    function Codes(): seq<Byte> { if prefixed then [0xE0, code] else [code] }
    function Key(tb: Tables): nat
      requires tb.Valid()
    {
      if prefixed then tb.prefixed[code % 128] else tb.plain[code % 128]
    }
  }

  function CodesOf(strokes: seq<Stroke>): seq<Byte> {
    if strokes == [] then [] else strokes[0].Codes() + CodesOf(strokes[1..])
  }

  /** What a key sends when it goes down, with these modifiers and locks on. */
  function Typed(tb: Tables, key: nat, modifiers: set<Modifier>, locks: set<Lock>): seq<Byte> {
    var cp := tb.unicode(key, modifiers, locks);
    if cp == 0 then
      match tb.special(key)
      case None => []
      case Some(k) => Sequence(k)
    else
      (if Alt in modifiers || AltGr in modifiers then [0x1B] else []) + if IsScalar(cp) then Encode(cp) else []
  }

  /**
   Modifiers and locks after a series of strokes, and the bytes sent by them.
   Neither the keys that happen to be down nor releases nor unknown keys send
   or change anything else.
   */
  function StrokeAll(tb: Tables, s: Scanner, strokes: seq<Stroke>): (r: (Scanner, seq<Byte>))
    requires tb.Valid()
    ensures r.0 == s.(modifiers := r.0.modifiers, locks := r.0.locks)
    decreases |strokes|
  {
    if strokes == [] then (s, [])
    else
      var key := strokes[0].Key(tb);
      if key == 0 || key >= KEY_MAX then StrokeAll(tb, s, strokes[1..])
      else
        var t := Update(s, key, strokes[0].Down());
        var (r, rest) := StrokeAll(tb, t, strokes[1..]);
        (r, (if strokes[0].Down() then Typed(tb, key, t.modifiers, t.locks) else []) + rest)
  }

  /** Not inside the scancodes of a key. */
  predicate Between(s: Scanner) {
    !s.prefix && s.skip == 0
  }

  /** The scancode after the prefix, if there is one. */
  lemma LastCode(tb: Tables, s: Scanner, stroke: Stroke)
    requires tb.Valid() && s.Valid() && s.skip == 0 && stroke.Valid() && s.prefix == stroke.prefixed
    ensures
      var (t, e) := Scan(tb, s, stroke.code);
      var key, down := stroke.Key(tb), stroke.Down();
      var u := Update(s, key, down);
      if key == 0 || key >= KEY_MAX then t == s.(prefix := false) && e.None?
      else
        && t == u.(prefix := false, down := t.down)
        && e.Some? && InputBytes(e.value.event) == if down then Typed(tb, key, u.modifiers, u.locks) else []
  {
    var e := Scan(tb, s, stroke.code).1;
    if e.Some? {
      EventBytesMean(e.value.event);
    }
  }

  lemma ScanOne(tb: Tables, s: Scanner, code: Byte)
    requires tb.Valid() && s.Valid()
    ensures
      var (t, e) := Scan(tb, s, code);
      ScanAll(tb, s, [code]) == (t, if e.Some? then [e.value] else [])
  {
    var (t, e) := Scan(tb, s, code);
    var es := if e.Some? then [e.value] else [];
    assert [code][1..] == [] && es + [] == es;
    assert ScanAll(tb, t, []) == (t, []);
  }

  lemma ScanCodes(tb: Tables, s: Scanner, stroke: Stroke)
    requires tb.Valid() && s.Valid() && Between(s) && stroke.Valid()
    ensures ScanAll(tb, s, stroke.Codes()) == ScanAll(tb, s.(prefix := stroke.prefixed), [stroke.code])
  {
    var code := stroke.code;
    if stroke.prefixed {
      assert [0xE0, code][1..] == [code];
      var r := ScanAll(tb, s.(prefix := true), [code]);
      assert [] + r.1 == r.1;
    } else {
      assert s.(prefix := false) == s;
    }
  }

  lemma OneStroke(tb: Tables, s: Scanner, stroke: Stroke)
    requires tb.Valid() && s.Valid() && Between(s) && stroke.Valid()
    ensures
      var (t, es) := ScanAll(tb, s, stroke.Codes());
      var (u, bytes) := StrokeAll(tb, s, [stroke]);
      t == u.(down := t.down) && Bytes(es) == bytes
  {
    ScanCodes(tb, s, stroke);
    var s0 := s.(prefix := stroke.prefixed);
    LastCode(tb, s0, stroke);
    ScanOne(tb, s0, stroke.code);
    var e := Scan(tb, s0, stroke.code).1;
    assert [stroke][1..] == [];
    if e.Some? {
      assert InputBytes(e.value.event) + [] == InputBytes(e.value.event) && [e.value][1..] == [];
    }
  }

  lemma {:induction false} StrokesIgnoreDown(tb: Tables, s: Scanner, t: Scanner, strokes: seq<Stroke>)
    requires tb.Valid() && t == s.(down := t.down)
    ensures StrokeAll(tb, t, strokes).1 == StrokeAll(tb, s, strokes).1
    ensures StrokeAll(tb, t, strokes).0 == StrokeAll(tb, s, strokes).0.(down := t.down)
    decreases |strokes|
  {
    if strokes != [] {
      var key := strokes[0].Key(tb);
      if key == 0 || key >= KEY_MAX {
        StrokesIgnoreDown(tb, s, t, strokes[1..]);
      } else {
        StrokesIgnoreDown(tb, Update(s, key, strokes[0].Down()), Update(t, key, strokes[0].Down()), strokes[1..]);
      }
    }
  }

  lemma {:induction false} BytesOfBoth(es: seq<Report>, fs: seq<Report>)
    ensures Bytes(es + fs) == Bytes(es) + Bytes(fs)
  {
    if es == [] {
      assert es + fs == fs;
    } else {
      assert (es + fs)[1..] == es[1..] + fs;
      BytesOfBoth(es[1..], fs);
    }
  }

  lemma StrokeHead(tb: Tables, s: Scanner, strokes: seq<Stroke>)
    requires tb.Valid() && strokes != []
    ensures
      var (t, bytes) := StrokeAll(tb, s, [strokes[0]]);
      var (u, rest) := StrokeAll(tb, t, strokes[1..]);
      StrokeAll(tb, s, strokes) == (u, bytes + rest)
  {
    assert [strokes[0]][1..] == [];
    var key := strokes[0].Key(tb);
    if key == 0 || key >= KEY_MAX {
      assert [] + StrokeAll(tb, s, strokes[1..]).1 == StrokeAll(tb, s, strokes[1..]).1;
    } else {
      var t := Update(s, key, strokes[0].Down());
      var one := if strokes[0].Down() then Typed(tb, key, t.modifiers, t.locks) else [];
      assert one + [] == one;
      assert StrokeAll(tb, t, []) == (t, []);
    }
  }

  /** Over every run: the strokes decide what is sent, modifiers, locks, prefixes and auto-repeat included. */
  lemma {:induction false} StrokesDecideBytes(tb: Tables, s: Scanner, strokes: seq<Stroke>)
    requires tb.Valid() && s.Valid() && Between(s) && forall i :: 0 <= i < |strokes| ==> strokes[i].Valid()
    ensures
      var (t, es) := ScanAll(tb, s, CodesOf(strokes));
      var (u, bytes) := StrokeAll(tb, s, strokes);
      t == u.(down := t.down) && Bytes(es) == bytes
    decreases |strokes|
  {
    if strokes != [] {
      var (t, es) := ScanAll(tb, s, strokes[0].Codes());
      OneStroke(tb, s, strokes[0]);
      ScanSplit(tb, s, strokes[0].Codes(), CodesOf(strokes[1..]));
      StrokesDecideBytes(tb, t, strokes[1..]);
      StrokeHead(tb, s, strokes);
      StrokesIgnoreDown(tb, StrokeAll(tb, s, [strokes[0]]).0, t, strokes[1..]);
      BytesOfBoth(es, ScanAll(tb, t, CodesOf(strokes[1..])).1);
    }
  }

  /** So the queue is offered exactly the bytes of the strokes, by whatever interrupts bring them. */
  lemma StrokesAreQueued(tb: Tables, s: Scanner, queue: seq<Byte>, strokes: seq<Stroke>)
    requires tb.Valid() && s.Valid() && Between(s) && |queue| <= 1023
    requires forall i :: 0 <= i < |strokes| ==> strokes[i].Valid()
    ensures IrqAll(tb, s, queue, CodesOf(strokes)).1 == Offer(queue, StrokeAll(tb, s, strokes).1, 1023)
  {
    StrokesDecideBytes(tb, s, strokes);
    IrqsOfferBytes(tb, s, queue, CodesOf(strokes));
  }

  // ---------------------------------------------------------------------
  // The handler
  // ---------------------------------------------------------------------

  class KeyboardDriver {
    const tables: Tables
    const queue: KeyboardQueue
    var prefix: bool
    var skip: nat
    var modifiers: set<Modifier>
    var locks: set<Lock>
    const down: array<bool>

    ghost predicate Valid()
      reads this, queue
    {
      tables.Valid() && down.Length == KEY_MAX && queue.Valid()
    }

    ghost function View(): (s: Scanner)
      requires Valid()
      reads this, queue, down
      ensures s.Valid()
    {
      Scanner(prefix, skip, modifiers, locks, down[..])
    }

    /** `keyboard_init` */
    constructor (tables: Tables, queue: KeyboardQueue)
      requires tables.Valid() && queue.Valid()
      ensures Valid() && this.tables == tables && this.queue == queue && fresh(down)
      ensures View() == AT_REST
    {
      this.tables := tables;
      this.queue := queue;
      prefix, skip, modifiers, locks := false, 0, {}, {};
      down := new bool[KEY_MAX](_ => false);
    }

    method UpdateState(key: nat, pressed: bool)
      requires Valid()
      modifies this`modifiers, this`locks
      ensures Valid() && View() == Update(old(View()), key, pressed)
    {
      var m := ModifierOf(key);
      if m.Some? {
        modifiers := if pressed then modifiers + {m.value} else modifiers - {m.value};
        return;
      }
      var l := LockOf(key);
      if l.Some? && pressed {
        locks := if l.value in locks then locks - {l.value} else locks + {l.value};
      }
    }

    /** `keyboard_on_irq`: the state follows the scanner and the queue is offered the bytes of what it reports. */
    method OnIrq(code: Byte)
      requires Valid()
      modifies this, down, queue`head, queue`dropped, queue.queue
      ensures Valid()
      ensures (View(), queue.Queued()) == IrqOne(tables, old(View()), old(queue.Queued()), code)
      ensures
        var bytes := Sends(tables, old(View()), code);
        queue.dropped == old(queue.dropped) + |bytes| - Taken(old(queue.Queued()), bytes, 1023)
    {
      assert queue.Queued() + [] == queue.Queued();
      if code == 0xE0 {
        prefix := true;
        return;
      }
      if code == 0xE1 {
        skip := 5;
        return;
      }
      if skip > 0 {
        skip := skip - 1;
        return;
      }
      var pressed := code < 0x80;
      var key := if prefix then tables.prefixed[code % 128] else tables.plain[code % 128];
      prefix := false;
      if key == 0 || key >= KEY_MAX {
        return;
      }
      Press(key, pressed);
    }

    /** The rest of the handler for a known key. */
    method Press(key: nat, pressed: bool)
      requires Valid() && 0 < key < KEY_MAX
      modifies this`modifiers, this`locks, down, queue`head, queue`dropped, queue.queue
      ensures Valid() && View() == Update(old(View()).(down := old(View()).down[key := pressed]), key, pressed)
      ensures
        var bytes := InputBytes(KeyEvent(pressed, if pressed then tables.unicode(key, modifiers, locks) else 0,
                                         Alt in modifiers || AltGr in modifiers, tables.special(key)));
        && queue.Queued() == Offer(old(queue.Queued()), bytes, 1023)
        && queue.dropped == old(queue.dropped) + |bytes| - Taken(old(queue.Queued()), bytes, 1023)
    {
      ghost var before := View();
      down[key] := pressed;
      assert View() == before.(down := before.down[key := pressed]);
      UpdateState(key, pressed);
      var code := if pressed then tables.unicode(key, modifiers, locks) else 0;
      queue.EmitInput(KeyEvent(pressed, code, Alt in modifiers || AltGr in modifiers, tables.special(key)));
    }
  }
}
