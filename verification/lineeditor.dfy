/**
 The canonical line discipline of kernel/src/core/tty.c as functions on byte
 streams: a filter that removes escape sequences, then a line editor.
 */
module LineEditor {
  import opened Common
  import opened Keyboard

  /** TTY_LINE_BUFFER_SIZE leaves room for 511 characters. */
  const LINE_MAX := 511

  const ESC: Byte := 0x1B
  const NEWLINE: Byte := 0x0A

  // ---------------------------------------------------------------------
  // The escape filter
  // ---------------------------------------------------------------------

  /** `tty_escape_state` after a byte: 0 outside, 1 after ESC, 2 inside a CSI or SS3 sequence. */
  function EscNext(esc: nat, b: Byte): nat {
    if esc == 0 then (if b == ESC then 1 else 0)
    else if esc == 1 then (if b == 0x5B || b == 0x4F then 2 else 0)
    else if 0x40 <= b <= 0x7E then 0
    else esc
  }

  predicate Swallowed(esc: nat, b: Byte) {
    esc != 0 || b == ESC
  }

  function Strip(esc: nat, bytes: seq<Byte>): seq<Byte>
    decreases |bytes|
  {
    if bytes == [] then []
    else (if Swallowed(esc, bytes[0]) then [] else [bytes[0]]) + Strip(EscNext(esc, bytes[0]), bytes[1..])
  }

  function EscAfter(esc: nat, bytes: seq<Byte>): nat
    decreases |bytes|
  {
    if bytes == [] then esc else EscAfter(EscNext(esc, bytes[0]), bytes[1..])
  }

  // ---------------------------------------------------------------------
  // The editor
  // ---------------------------------------------------------------------

  predicate Printable(b: Byte) {
    b >= 0x20 || b == 0x09
  }

  /** A byte that finds the line full. */
  predicate Overflows(text: seq<Byte>, b: Byte) {
    |text| >= LINE_MAX && (b == NEWLINE || (Printable(b) && b != 0x7F))
  }

  /** The line after a byte, and what the byte sends on. */
  datatype Edited = Edited(text: seq<Byte>, sent: seq<Byte>)

  function Edit(text: seq<Byte>, b: Byte): Edited {
    if b == 0x03 then Edited([], [b])
    else if b == 0x0C then Edited(text, [b])
    else if b == 0x08 || b == 0x7F then Edited(if text == [] then [] else text[..|text| - 1], [])
    else if b == NEWLINE then Edited([], if Overflows(text, b) then text else text + [b])
    else if b == 0x04 then (if text == [] then Edited([], [b]) else Edited([], text))
    else if !Printable(b) || Overflows(text, b) then Edited(text, [])
    else Edited(text + [b], [])
  }

  function EditAll(text: seq<Byte>, bytes: seq<Byte>): Edited
    decreases |bytes|
  {
    if bytes == [] then Edited(text, [])
    else
      var e := Edit(text, bytes[0]);
      var rest := EditAll(e.text, bytes[1..]);
      Edited(rest.text, e.sent + rest.sent)
  }

  // ---------------------------------------------------------------------
  // Both together, byte by byte, as tty_handle_canonical does it
  // ---------------------------------------------------------------------

  datatype Line = Line(esc: nat, text: seq<Byte>)

  function Canonical(l: Line, b: Byte): (Line, seq<Byte>) {
    if Swallowed(l.esc, b) then (Line(EscNext(l.esc, b), l.text), [])
    else (Line(0, Edit(l.text, b).text), Edit(l.text, b).sent)
  }

  function CanonicalAll(l: Line, bytes: seq<Byte>): (Line, seq<Byte>)
    decreases |bytes|
  {
    if bytes == [] then (l, [])
    else
      var (l1, s1) := Canonical(l, bytes[0]);
      var (l2, s2) := CanonicalAll(l1, bytes[1..]);
      (l2, s1 + s2)
  }

  /** The discipline is the composition of the filter and the editor, for every stream. */
  lemma {:induction false} FilterThenEdit(l: Line, bytes: seq<Byte>)
    ensures
      var e := EditAll(l.text, Strip(l.esc, bytes));
      CanonicalAll(l, bytes) == (Line(EscAfter(l.esc, bytes), e.text), e.sent)
    decreases |bytes|
  {
    if bytes != [] {
      var b, rest := bytes[0], bytes[1..];
      var l1 := Canonical(l, b).0;
      FilterThenEdit(l1, rest);
      if Swallowed(l.esc, b) {
        assert Strip(l.esc, bytes) == Strip(l1.esc, rest);
        assert [] + CanonicalAll(l1, rest).1 == CanonicalAll(l1, rest).1;
      } else {
        var stripped := Strip(l.esc, bytes);
        assert stripped == [b] + Strip(0, rest);
        assert stripped[1..] == Strip(0, rest);
      }
    }
  }

  /** Splitting a stream anywhere makes no difference. */
  lemma {:induction false} CanonicalSplit(l: Line, xs: seq<Byte>, ys: seq<Byte>)
    ensures
      var (l1, s1) := CanonicalAll(l, xs);
      var (l2, s2) := CanonicalAll(l1, ys);
      CanonicalAll(l, xs + ys) == (l2, s1 + s2)
    decreases |xs|
  {
    if xs == [] {
      assert xs + ys == ys;
      assert [] + CanonicalAll(l, ys).1 == CanonicalAll(l, ys).1;
    } else {
      assert (xs + ys)[0] == xs[0] && (xs + ys)[1..] == xs[1..] + ys;
      var (l1, s1) := Canonical(l, xs[0]);
      CanonicalSplit(l1, xs[1..], ys);
      var (m, t1) := CanonicalAll(l1, xs[1..]);
      var t2 := CanonicalAll(m, ys).1;
      assert s1 + (t1 + t2) == (s1 + t1) + t2;
    }
  }

  // ---------------------------------------------------------------------
  // What is delivered
  // ---------------------------------------------------------------------

  /** A byte the line may hold: tab, or anything from 0x20 except DEL. */
  predicate Text(b: Byte) {
    b == 0x09 || (b >= 0x20 && b != 0x7F)
  }

  /** A byte that may be delivered: text, or one of 03, 04, 0A, 0C. */
  predicate Deliverable(b: Byte) {
    Text(b) || b == 0x03 || b == 0x04 || b == NEWLINE || b == 0x0C
  }

  predicate LineOk(l: Line) {
    && l.esc <= 2 && |l.text| <= LINE_MAX
    && forall i :: 0 <= i < |l.text| ==> Text(l.text[i])
  }

  lemma CanonicalKeepsLineOk(l: Line, b: Byte)
    requires LineOk(l)
    ensures LineOk(Canonical(l, b).0)
    ensures forall i :: 0 <= i < |Canonical(l, b).1| ==> Deliverable(Canonical(l, b).1[i])
    ensures |Canonical(l, b).1| + |Canonical(l, b).0.text| <= |l.text| + 1
  {
  }

  /**
   Over every stream: the held line stays within 511 text bytes, every
   delivered byte is deliverable (never ESC, DEL or another control byte), and
   each byte received adds at most one to delivered plus held.
   */
  lemma {:induction false} DeliveryIsSafe(l: Line, bytes: seq<Byte>)
    requires LineOk(l)
    ensures
      var (l', sent) := CanonicalAll(l, bytes);
      && LineOk(l')
      && (forall i :: 0 <= i < |sent| ==> Deliverable(sent[i]))
      && |sent| + |l'.text| <= |l.text| + |bytes|
    decreases |bytes|
  {
    if bytes != [] {
      CanonicalKeepsLineOk(l, bytes[0]);
      DeliveryIsSafe(Canonical(l, bytes[0]).0, bytes[1..]);
    }
  }

  function Repeated(b: Byte, n: nat): seq<Byte> {
    seq(n, _ => b)
  }

  lemma FirstThenRest(text: seq<Byte>, typed: seq<Byte>, n: nat)
    requires 1 <= n <= |typed|
    ensures (text + [typed[0]]) + typed[1..][..n - 1] == text + typed[..n]
  {
  }

  /** Typing text that fits or not: the line holds its first 511 characters. */
  lemma {:induction false} TypingFills(text: seq<Byte>, typed: seq<Byte>)
    requires |text| <= LINE_MAX
    requires forall i :: 0 <= i < |typed| ==> Text(typed[i])
    ensures EditAll(text, typed) == Edited(text + typed[..Min(|typed|, LINE_MAX - |text|)], [])
    decreases |typed|
  {
    if typed == [] {
      assert text + typed == text;
    } else if |text| == LINE_MAX {
      TypingFills(text, typed[1..]);
      assert text + [] == text;
    } else {
      TypingFills(text + [typed[0]], typed[1..]);
      FirstThenRest(text, typed, Min(|typed|, LINE_MAX - |text|));
    }
  }

  lemma {:induction false} EditSplit(text: seq<Byte>, xs: seq<Byte>, ys: seq<Byte>)
    ensures
      var e := EditAll(text, xs);
      var f := EditAll(e.text, ys);
      EditAll(text, xs + ys) == Edited(f.text, e.sent + f.sent)
    decreases |xs|
  {
    if xs == [] {
      assert xs + ys == ys;
      assert [] + EditAll(text, ys).sent == EditAll(text, ys).sent;
    } else {
      assert (xs + ys)[0] == xs[0] && (xs + ys)[1..] == xs[1..] + ys;
      var e := Edit(text, xs[0]);
      EditSplit(e.text, xs[1..], ys);
      var f := EditAll(e.text, xs[1..]);
      assert e.sent + (f.sent + EditAll(f.text, ys).sent) == (e.sent + f.sent) + EditAll(f.text, ys).sent;
    }
  }

  /** Any typed line is delivered cut to 511 characters, with its newline exactly when fewer than 511 are held. */
  lemma LineIsDeliveredTruncated(typed: seq<Byte>)
    requires forall i :: 0 <= i < |typed| ==> Text(typed[i])
    ensures EditAll([], typed + [NEWLINE]) ==
            Edited([], typed[..Min(|typed|, LINE_MAX)] + (if |typed| < LINE_MAX then [NEWLINE] else []))
  {
    TypingFills([], typed);
    EditSplit([], typed, [NEWLINE]);
    var held := typed[..Min(|typed|, LINE_MAX)];
    assert [] + held == held;
    assert EditAll(held, [NEWLINE]).sent == Edit(held, NEWLINE).sent + [];
  }

  /** Any number of erasures, at most as many as characters held, undoes the last characters typed. */
  lemma {:induction false} BackspaceUndoesTyping(text: seq<Byte>, typed: seq<Byte>)
    requires |text| + |typed| <= LINE_MAX
    requires forall i :: 0 <= i < |typed| ==> Text(typed[i])
    ensures EditAll(text, typed + Repeated(0x7F, |typed|)) == Edited(text, [])
    decreases |typed|
  {
    if typed == [] {
      assert typed + Repeated(0x7F, 0) == [];
    } else {
      var n := |typed|;
      var front, last := typed[..n - 1], typed[n - 1];
      // text front last DEL DEL^(n-1): the inner pair cancels
      TypingFills(text, front);
      TypingFills(text, typed);
      assert typed[..n] == typed && front[..n - 1] == front;
      EditSplit(text, typed, Repeated(0x7F, n));
      EditSplit(text, front, Repeated(0x7F, n - 1));
      BackspaceUndoesTyping(text, front);
      assert (text + typed)[..|text| + n - 1] == text + front;
      assert Repeated(0x7F, n)[1..] == Repeated(0x7F, n - 1);
      assert Edit(text + typed, 0x7F) == Edited(text + front, []);
      assert EditAll(text + typed, Repeated(0x7F, n)).text == EditAll(text + front, Repeated(0x7F, n - 1)).text;
    }
  }

  /** Ctrl-C throws the typed text away and is delivered; Ctrl-D sends the text without a newline, or itself. */
  lemma InterruptAndEndOfFile(typed: seq<Byte>)
    requires |typed| <= LINE_MAX && forall i :: 0 <= i < |typed| ==> Text(typed[i])
    ensures EditAll([], typed + [0x03]) == Edited([], [0x03])
    ensures EditAll([], typed + [0x04]) == Edited([], if typed == [] then [0x04] else typed)
  {
    assert EditAll([], typed) == Edited(typed, []) by {
      assert [] + typed[..Min(|typed|, LINE_MAX)] == typed;
      TypingFills([], typed);
    }
    EditLast(typed, 0x03);
    EditLast(typed, 0x04);
  }

  /** One byte after a stream that delivered nothing. */
  lemma EditLast(typed: seq<Byte>, b: Byte)
    requires EditAll([], typed) == Edited(typed, [])
    ensures EditAll([], typed + [b]) == Edit(typed, b)
  {
    EditSplit([], typed, [b]);
    assert EditAll(typed, [b]).sent == Edit(typed, b).sent + [];
    assert [] + Edit(typed, b).sent == Edit(typed, b).sent;
  }

  // ---------------------------------------------------------------------
  // Navigation and function keys
  // ---------------------------------------------------------------------

  /** What the user does: type a byte other than ESC, or press a navigation or function key. */
  datatype Item = Plain(b: Byte) | Press(key: SpecialKey)

  function Sent(items: seq<Item>): seq<Byte> {
    if items == [] then []
    else (match items[0] case Plain(b) => [b] case Press(k) => Sequence(k)) + Sent(items[1..])
  }

  function PlainBytes(items: seq<Item>): seq<Byte> {
    if items == [] then []
    else (match items[0] case Plain(b) => [b] case Press(_) => []) + PlainBytes(items[1..])
  }

  lemma {:induction false} StripSplit(esc: nat, xs: seq<Byte>, ys: seq<Byte>)
    ensures Strip(esc, xs + ys) == Strip(esc, xs) + Strip(EscAfter(esc, xs), ys)
    ensures EscAfter(esc, xs + ys) == EscAfter(EscAfter(esc, xs), ys)
    decreases |xs|
  {
    if xs == [] {
      assert xs + ys == ys;
    } else {
      assert (xs + ys)[0] == xs[0] && (xs + ys)[1..] == xs[1..] + ys;
      StripSplit(EscNext(esc, xs[0]), xs[1..], ys);
    }
  }

  /** `[` or `O`, which open a longer sequence after ESC. */
  predicate Opens(b: Byte) {
    b == 0x5B || b == 0x4F
  }

  predicate Ends(b: Byte) {
    0x40 <= b <= 0x7E
  }

  /**
   What the filter takes out of a stream, unit by unit: ESC and one byte, or
   ESC, an opening byte and everything up to a final byte. Any other byte
   passes. With StripSplit this decides every stream.
   */
  lemma FilterTakesSequences(b: Byte, params: seq<Byte>, final: Byte)
    requires Ends(final) && forall i :: 0 <= i < |params| ==> !Ends(params[i])
    ensures b != ESC ==> Strip(0, [b]) == [b] && EscAfter(0, [b]) == 0
    ensures !Opens(b) ==> Strip(0, [ESC, b]) == [] && EscAfter(0, [ESC, b]) == 0
    ensures Opens(b) ==> Strip(0, [ESC, b] + (params + [final])) == [] && EscAfter(0, [ESC, b] + (params + [final])) == 0
    ensures Opens(b) ==> Strip(0, [ESC, b] + params) == [] && EscAfter(0, [ESC, b] + params) == 2
  {
    assert [b][1..] == [];
    EscapedByte(b);
    if Opens(b) {
      StripSplit(0, [ESC, b], params + [final]);
      StripSplit(0, [ESC, b], params);
      TailIsSwallowed(params + [final]);
      ParametersAreSwallowed(params);
    }
  }

  lemma EscapedByte(b: Byte)
    ensures Strip(0, [ESC, b]) == [] && EscAfter(0, [ESC, b]) == if Opens(b) then 2 else 0
  {
    assert [ESC, b][1..] == [b] && [b][1..] == [];
    assert Strip(1, [b]) == [] && EscAfter(1, [b]) == if Opens(b) then 2 else 0;
  }

  lemma {:induction false} ParametersAreSwallowed(params: seq<Byte>)
    requires forall i :: 0 <= i < |params| ==> !Ends(params[i])
    ensures Strip(2, params) == [] && EscAfter(2, params) == 2
    decreases |params|
  {
    if params != [] {
      ParametersAreSwallowed(params[1..]);
    }
  }

  /**
   A 7-bit key pressed with Alt never reaches the line. With `[` or `O` it
   even leaves the filter inside a sequence, so that what is typed next is
   swallowed up to the first byte from 0x40 to 0x7E.
   */
  lemma AltKeyIsSwallowed(e: KeyEvent)
    requires e.pressed && e.altOrAltGr && 0 < e.unicode < 0x80
    ensures Strip(0, InputBytes(e)) == []
    ensures EscAfter(0, InputBytes(e)) == if Opens(e.unicode) then 2 else 0
  {
    assert InputBytes(e) == [ESC, e.unicode];
    assert [ESC, e.unicode] + [] == [ESC, e.unicode];
    FilterTakesSequences(e.unicode, [], 0x40);
  }

  lemma SequenceIsSwallowed(key: SpecialKey)
    ensures Strip(0, Sequence(key)) == [] && EscAfter(0, Sequence(key)) == 0
  {
    var s := Sequence(key);
    assert EscNext(0, s[0]) == 1 && EscNext(1, s[1]) == 2;
    TailIsSwallowed(s[2..]);
    assert s[1..][1..] == s[2..];
  }

  /** Inside a sequence everything up to and including the final byte disappears. */
  lemma {:induction false} TailIsSwallowed(tail: seq<Byte>)
    requires tail != []
    requires forall i :: 0 <= i < |tail| - 1 ==> !(0x40 <= tail[i] <= 0x7E)
    requires 0x40 <= tail[|tail| - 1] <= 0x7E
    ensures Strip(2, tail) == [] && EscAfter(2, tail) == 0
    decreases |tail|
  {
    if |tail| > 1 {
      TailIsSwallowed(tail[1..]);
    }
  }

  lemma {:induction false} KeysAreStripped(items: seq<Item>)
    requires forall i :: 0 <= i < |items| && items[i].Plain? ==> items[i].b != ESC
    ensures Strip(0, Sent(items)) == PlainBytes(items) && EscAfter(0, Sent(items)) == 0
    decreases |items|
  {
    if items != [] {
      KeysAreStripped(items[1..]);
      match items[0] {
        case Plain(b) =>
          StripSplit(0, [b], Sent(items[1..]));
          assert [b][1..] == [];
        case Press(k) =>
          StripSplit(0, Sequence(k), Sent(items[1..]));
          SequenceIsSwallowed(k);
      }
    }
  }

  /** Pressing navigation or function keys in between changes neither the line nor what is delivered. */
  lemma KeysDoNotDisturbTheLine(text: seq<Byte>, items: seq<Item>)
    requires forall i :: 0 <= i < |items| && items[i].Plain? ==> items[i].b != ESC
    ensures CanonicalAll(Line(0, text), Sent(items)) == CanonicalAll(Line(0, text), PlainBytes(items))
  {
    KeysAreStripped(items);
    PlainStream(items);
    FilterThenEdit(Line(0, text), Sent(items));
    FilterThenEdit(Line(0, text), PlainBytes(items));
  }

  lemma {:induction false} PlainStream(items: seq<Item>)
    requires forall i :: 0 <= i < |items| && items[i].Plain? ==> items[i].b != ESC
    ensures Strip(0, PlainBytes(items)) == PlainBytes(items) && EscAfter(0, PlainBytes(items)) == 0
    decreases |items|
  {
    if items != [] {
      PlainStream(items[1..]);
      if items[0].Plain? {
        StripSplit(0, [items[0].b], PlainBytes(items[1..]));
        assert [items[0].b][1..] == [];
      } else {
        assert PlainBytes(items) == PlainBytes(items[1..]);
      }
    }
  }
}
