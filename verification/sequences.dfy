/** What whole CSI sequences do to a terminal at rest, byte by byte from ESC to the final byte. */
module Sequences {
  import opened Common
  import opened Layout
  import opened Terminal
  import opened Utf8
  import Keys = Keyboard

  // ---------------------------------------------------------------------
  // How a sequence is written and what is read from it
  // ---------------------------------------------------------------------

  /** Parameters separated by semicolons; an absent one is written as nothing. */
  function Written(ps: seq<Option<nat>>): seq<Byte>
    requires ps != []
  {
    WrittenOne(ps[0]) + if |ps| == 1 then [] else [0x3B] + Written(ps[1..])
  }

  function WrittenOne(p: Option<nat>): seq<Byte> {
    match p
    case None => []
    case Some(n) => Decimal(n)
  }

  /** `ESC [ parameters final` */
  function Csi(ps: seq<Option<nat>>, final: Byte): seq<Byte>
    requires ps != []
  {
    [0x1B, 0x5B] + (Written(ps) + [final])
  }

  /** What `int` holds. */
  predicate Fits(ps: seq<Option<nat>>) {
    forall i :: 0 <= i < |ps| && ps[i].Some? ==> ps[i].value < 0x8000_0000
  }

  function ValueOf(p: Option<nat>): nat {
    match p
    case None => 0
    case Some(n) => n
  }

  function Values(ps: seq<Option<nat>>): seq<int> {
    if ps == [] then [] else [ValueOf(ps[0])] + Values(ps[1..])
  }

  function WithoutLeadingBlanks(ps: seq<Option<nat>>): seq<Option<nat>> {
    if ps != [] && ps[0].None? then WithoutLeadingBlanks(ps[1..]) else ps
  }

  /** The parameters the terminal works with: absent ones at the front do not count, the others are zero, and at most eight. */
  function Kept(ps: seq<Option<nat>>): seq<int> {
    var vs := Values(WithoutLeadingBlanks(ps));
    vs[..Min(|vs|, 8)]
  }

  /** One more parameter after those stored so far. */
  function Store(stored: seq<int>, p: Option<nat>): seq<int> {
    if (stored == [] && p.None?) || |stored| >= 8 then stored else stored + [ValueOf(p)]
  }

  function StoreAll(stored: seq<int>, ps: seq<Option<nat>>): seq<int>
    decreases |ps|
  {
    if ps == [] then stored else StoreAll(Store(stored, ps[0]), ps[1..])
  }

  lemma {:induction false} StoresUpToEight(stored: seq<int>, ps: seq<Option<nat>>)
    requires 0 < |stored| <= 8
    ensures StoreAll(stored, ps) == stored + Values(ps)[..Min(|Values(ps)|, 8 - |stored|)]
    decreases |ps|
  {
    if ps == [] {
      assert stored + [] == stored;
    } else {
      StoresUpToEight(Store(stored, ps[0]), ps[1..]);
      if |stored| < 8 {
        PrefixStep(stored, ValueOf(ps[0]), Values(ps[1..]), Min(|Values(ps)|, 8 - |stored|));
      }
    }
  }

  lemma PrefixStep(stored: seq<int>, v: int, vs: seq<int>, n: nat)
    requires 1 <= n <= |vs| + 1
    ensures (stored + [v]) + vs[..n - 1] == stored + ([v] + vs)[..n]
  {
  }

  lemma {:induction false} StoresKept(ps: seq<Option<nat>>)
    ensures StoreAll([], ps) == Kept(ps)
    decreases |ps|
  {
    if ps != [] {
      if ps[0].None? {
        StoresKept(ps[1..]);
      } else {
        assert [] + [ValueOf(ps[0])] == [ValueOf(ps[0])];
        StoresUpToEight([ValueOf(ps[0])], ps[1..]);
        var vs := Values(ps);
        assert vs[..Min(|vs|, 8)] == [ValueOf(ps[0])] + Values(ps[1..])[..Min(|Values(ps[1..])|, 7)];
      }
    }
  }

  // ---------------------------------------------------------------------
  // Reading it
  // ---------------------------------------------------------------------

  lemma {:induction false} DigitsAreRead(t: Term, n: nat)
    requires TermOk(t) && t.parser.Csi? && t.current == 0 && n < 0x8000_0000
    ensures PutBytes(t, Decimal(n)) == t.(current := n, active := true)
    decreases n
  {
    if n < 10 {
      PutOne(t, 0x30 + n);
    } else {
      DigitsAreRead(t, n / 10);
      PutBytesSplit(t, Decimal(n / 10), [0x30 + n % 10]);
      PutOne(t.(current := n / 10, active := true), 0x30 + n % 10);
    }
  }

  /** Inside a sequence, between parameters. */
  predicate Reading(t: Term) {
    t.parser.Csi? && t.current == 0 && !t.active
  }

  lemma OneIsRead(t: Term, p: Option<nat>)
    requires TermOk(t) && Reading(t) && Fits([p])
    ensures PushParam(PutBytes(t, WrittenOne(p))) == t.(params := Store(t.params, p))
  {
    assert [p][0] == p;
    if p.Some? {
      DigitsAreRead(t, p.value);
    }
  }

  /** Up to the last parameter, which the final byte will store. */
  lemma {:induction false} AllAreRead(t: Term, ps: seq<Option<nat>>)
    requires TermOk(t) && Reading(t) && ps != [] && Fits(ps)
    ensures PushParam(PutBytes(t, Written(ps))) == t.(params := StoreAll(t.params, ps))
    ensures PutBytes(t, Written(ps)).parser.Csi?
    decreases |ps|
  {
    OneIsRead(t, ps[0]);
    var one := PutBytes(t, WrittenOne(ps[0]));
    assert one.parser.Csi? by {
      if ps[0].Some? {
        DigitsAreRead(t, ps[0].value);
      }
    }
    if |ps| == 1 {
      assert WrittenOne(ps[0]) + [] == WrittenOne(ps[0]);
      assert ps[1..] == [];
    } else {
      PutBytesSplit(t, WrittenOne(ps[0]), [0x3B] + Written(ps[1..]));
      PutHead(one, 0x3B, Written(ps[1..]));
      AllAreRead(PushParam(one), ps[1..]);
    }
  }

  lemma EnterCsi(t: Term)
    requires TermOk(t) && t.parser.Ground?
    ensures PutBytes(t, [0x1B, 0x5B]) == t.(parser := Parser.Csi, params := [], current := 0, active := false)
  {
    assert [0x1B, 0x5B][1..] == [0x5B];
    PutOne(PutByte(t, 0x1B), 0x5B);
  }

  lemma FinalByte(t: Term, final: Byte)
    requires TermOk(t) && t.parser.Csi? && 0x40 <= final <= 0x7E
    ensures PutByte(t, final) == ResetParams(Execute(PushParam(t), final).(parser := Ground))
  {
  }

  /** A sequence executes its final byte on the parameters kept, and leaves the parser at rest. */
  lemma CsiExecutes(t: Term, ps: seq<Option<nat>>, final: Byte)
    requires TermOk(t) && t.parser.Ground? && ps != [] && Fits(ps) && 0x40 <= final <= 0x7E
    ensures |Kept(ps)| <= 8
    ensures PutBytes(t, Csi(ps, final)) ==
            Execute(t.(parser := Parser.Csi, params := Kept(ps), current := 0, active := false), final)
              .(parser := Ground, params := [], current := 0, active := false)
  {
    EnterCsi(t);
    var t1 := t.(parser := Parser.Csi, params := [], current := 0, active := false);
    PutBytesSplit(t, [0x1B, 0x5B], Written(ps) + [final]);
    PutBytesSplit(t1, Written(ps), [final]);
    AllAreRead(t1, ps);
    StoresKept(ps);
    PutOne(PutBytes(t1, Written(ps)), final);
    FinalByte(PutBytes(t1, Written(ps)), final);
  }

  // ---------------------------------------------------------------------
  // Cursor
  // ---------------------------------------------------------------------

  /** A coordinate from 1, cut at the last row or column; 0 wraps below the first one and is cut as well. */
  function Target(v: nat, limit: nat): int {
    if 1 <= v <= limit then v - 1 else limit - 1
  }

  lemma ExecuteMove(t: Term, row: nat, col: nat, final: Byte)
    requires TermOk(t) && (final == 0x48 || final == 0x66) && row < 0x8000_0000 && col < 0x8000_0000
    requires ParamAt(t, 0, 1) == row && ParamAt(t, 1, 1) == col
    ensures Execute(t, final) == t.(row := Target(row, t.rows), col := Target(col, t.cols))
  {
  }

  /**
   `ESC [ row ; col H` (or `f`): the cursor goes there, to the last row or
   column if it lies beyond or is written as 0. Nothing else changes.
   */
  lemma MoveSequenceMoves(t: Term, row: nat, col: nat, final: Byte)
    requires TermOk(t) && t.parser.Ground? && (final == 0x48 || final == 0x66)
    requires row < 0x8000_0000 && col < 0x8000_0000
    ensures PutBytes(t, Csi([Some(row), Some(col)], final)) ==
            t.(row := Target(row, t.rows), col := Target(col, t.cols), params := [], current := 0, active := false)
  {
    var ps := [Some(row), Some(col)];
    CsiExecutes(t, ps, final);
    KeptTwo(row, col);
    ExecuteMove(t.(parser := Parser.Csi, params := Kept(ps), current := 0, active := false), row, col, final);
  }

  lemma KeptTwo(a: nat, b: nat)
    ensures Kept([Some(a), Some(b)]) == [a, b]
  {
    var ps := [Some(a), Some(b)];
    assert ps[1..] == [Some(b)] && [Some(b)][1..] == [];
    assert Values(ps) == [a, b] by {
      assert Values([Some(b)]) == [b];
    }
  }

  lemma KeptOne(p: Option<nat>)
    ensures Kept([p]) == if p.Some? then [p.value] else []
  {
    assert [p][1..] == [];
    assert Values([p]) == [ValueOf(p)];
    assert WithoutLeadingBlanks([p]) == if p.Some? then [p] else [];
  }

  /** Without parameters the cursor goes home; a row alone leaves the column at the left edge. */
  lemma HomeSequence(t: Term, p: Option<nat>)
    requires TermOk(t) && t.parser.Ground? && Fits([p])
    ensures PutBytes(t, Csi([p], 0x48)) ==
            t.(row := if p.Some? then Target(p.value, t.rows) else 0, col := 0,
               params := [], current := 0, active := false)
  {
    CsiExecutes(t, [p], 0x48);
    KeptOne(p);
    assert [p][0] == p;
    var s := t.(parser := Parser.Csi, params := Kept([p]), current := 0, active := false);
    ExecuteMove(s, if p.Some? then p.value else 1, 1, 0x48);
  }

  /** An absent row in front of a column is skipped: the column is taken for the row. */
  lemma LeadingBlankIsSkipped(t: Term, n: nat, final: Byte)
    requires TermOk(t) && t.parser.Ground? && n < 0x8000_0000 && 0x40 <= final <= 0x7E
    ensures PutBytes(t, Csi([None, Some(n)], final)) == PutBytes(t, Csi([Some(n)], final))
  {
    CsiExecutes(t, [None, Some(n)], final);
    CsiExecutes(t, [Some(n)], final);
    assert [None, Some(n)][1..] == [Some(n)];
  }

  /** A ninth parameter and all after it are lost. */
  lemma NinthIsLost(t: Term, ps: seq<Option<nat>>, final: Byte)
    requires TermOk(t) && t.parser.Ground? && |ps| > 8 && Fits(ps) && ps[0].Some? && 0x40 <= final <= 0x7E
    ensures PutBytes(t, Csi(ps, final)) == PutBytes(t, Csi(ps[..8], final))
  {
    CsiExecutes(t, ps, final);
    CsiExecutes(t, ps[..8], final);
    ValuesOfPrefix(ps, 8);
    assert WithoutLeadingBlanks(ps) == ps && WithoutLeadingBlanks(ps[..8]) == ps[..8];
    assert Values(ps)[..8][..8] == Values(ps)[..8];
  }

  lemma {:induction false} ValuesOfPrefix(ps: seq<Option<nat>>, n: nat)
    requires n <= |ps|
    ensures |Values(ps)| == |ps| && Values(ps[..n]) == Values(ps)[..n]
    decreases |ps|
  {
    if ps != [] {
      ValuesOfPrefix(ps[1..], if n == 0 then 0 else n - 1);
      if n > 0 {
        assert ps[..n][1..] == ps[1..][..n - 1];
      }
    }
  }

  /** How far a motion goes: once if nothing or 0 is written. */
  function Count(p: Option<nat>): nat {
    if p.None? || p.value == 0 then 1 else p.value
  }

  lemma ExecuteMotion(t: Term, n: nat, final: Byte)
    requires TermOk(t) && 0x41 <= final <= 0x44
    requires n == if ParamAt(t, 0, 1) < 1 then 1 else ParamAt(t, 0, 1)
    ensures
      var s := Execute(t, final);
      && s == t.(row := s.row, col := s.col)
      && s.row == (if final == 0x41 then Max(t.row - n, 0) else if final == 0x42 then Min(t.row + n, t.rows - 1) else t.row)
      && s.col == (if final == 0x43 then Min(t.col + n, t.cols - 1) else if final == 0x44 then Max(t.col - n, 0) else t.col)
  {
  }

  /**
   `A` up, `B` down, `C` right, `D` left, by the parameter or by one, and no
   further than the edge of the screen. Nothing else changes.
   */
  lemma MotionSequenceMoves(t: Term, p: Option<nat>, final: Byte)
    requires TermOk(t) && t.parser.Ground? && Fits([p]) && 0x41 <= final <= 0x44
    ensures
      var s, n := PutBytes(t, Csi([p], final)), Count(p);
      && s == t.(row := s.row, col := s.col, params := [], current := 0, active := false)
      && s.row == (if final == 0x41 then Max(t.row - n, 0) else if final == 0x42 then Min(t.row + n, t.rows - 1) else t.row)
      && s.col == (if final == 0x43 then Min(t.col + n, t.cols - 1) else if final == 0x44 then Max(t.col - n, 0) else t.col)
  {
    CsiExecutes(t, [p], final);
    KeptOne(p);
    ExecuteMotion(t.(parser := Parser.Csi, params := Kept([p]), current := 0, active := false), Count(p), final);
  }

  function Max(a: int, b: int): int {
    if a >= b then a else b
  }

  /** The keyboard's arrow keys, sent to the screen, move the cursor by one in the direction they are named for. */
  lemma ArrowKeyMovesCursor(t: Term, key: Keys.SpecialKey)
    requires TermOk(t) && t.parser.Ground? && (key.Up? || key.Down? || key.Right? || key.Left?)
    ensures
      var s := PutBytes(t, Keys.Sequence(key));
      && s == t.(row := s.row, col := s.col, params := [], current := 0, active := false)
      && s.row == (if key.Up? then Max(t.row - 1, 0) else if key.Down? then Min(t.row + 1, t.rows - 1) else t.row)
      && s.col == (if key.Right? then Min(t.col + 1, t.cols - 1) else if key.Left? then Max(t.col - 1, 0) else t.col)
  {
    var final := Keys.Sequence(key)[2];
    assert Keys.Sequence(key) == [0x1B, 0x5B, final];
    BareSequence(final);
    MotionSequenceMoves(t, None, final);
  }

  lemma BareSequence(final: Byte)
    ensures Csi([None], final) == [0x1B, 0x5B, final]
  {
    assert Written([None]) == [];
  }

  /** Bytes other than ESC do not touch the saved cursor. */
  lemma {:induction false} TextKeepsSavedCursor(t: Term, bytes: seq<Byte>)
    requires TermOk(t) && t.parser.Ground? && 0x1B !in bytes
    ensures
      var s := PutBytes(t, bytes);
      s.parser.Ground? && s.savedRow == t.savedRow && s.savedCol == t.savedCol
    decreases |bytes|
  {
    if bytes != [] {
      ByteKeepsSavedCursor(t, bytes[0]);
      TextKeepsSavedCursor(PutByte(t, bytes[0]), bytes[1..]);
    }
  }

  lemma ByteKeepsSavedCursor(t: Term, b: Byte)
    requires TermOk(t) && t.parser.Ground? && b != 0x1B
    ensures
      var s := PutByte(t, b);
      s.parser.Ground? && s.savedRow == t.savedRow && s.savedCol == t.savedCol
  {
    if b == 0x09 {
      SpacesKeepSavedCursor(t, 4 - t.col % 4);
    }
  }

  lemma {:induction false} SpacesKeepSavedCursor(t: Term, n: nat)
    requires TermOk(t)
    ensures
      var s := ShowMany(t, 0x20, n);
      s.parser == t.parser && s.savedRow == t.savedRow && s.savedCol == t.savedCol
    decreases n
  {
    if n > 0 {
      SpacesKeepSavedCursor(Show(t, 0x20), n - 1);
    }
  }

  lemma ExecuteSave(t: Term)
    requires TermOk(t)
    ensures Execute(t, 0x73) == t.(savedRow := t.row, savedCol := t.col)
  {
  }

  lemma ExecuteRestore(t: Term)
    requires TermOk(t)
    ensures Execute(t, 0x75) == t.(row := t.savedRow, col := t.savedCol)
  {
  }

  /** `s` and `u` store and fetch the cursor, whatever their parameters. */
  lemma SaveSequence(t: Term, ps: seq<Option<nat>>)
    requires TermOk(t) && t.parser.Ground? && ps != [] && Fits(ps)
    ensures PutBytes(t, Csi(ps, 0x73)) ==
            t.(savedRow := t.row, savedCol := t.col, params := [], current := 0, active := false)
  {
    CsiExecutes(t, ps, 0x73);
    ExecuteSave(t.(parser := Parser.Csi, params := Kept(ps), current := 0, active := false));
  }

  lemma RestoreSequence(t: Term, ps: seq<Option<nat>>)
    requires TermOk(t) && t.parser.Ground? && ps != [] && Fits(ps)
    ensures PutBytes(t, Csi(ps, 0x75)) ==
            t.(row := t.savedRow, col := t.savedCol, params := [], current := 0, active := false)
  {
    CsiExecutes(t, ps, 0x75);
    ExecuteRestore(t.(parser := Parser.Csi, params := Kept(ps), current := 0, active := false));
  }

  /** `s`, any text without ESC, `u`: the cursor is back where it was, whatever was written and scrolled in between. */
  lemma SavedCursorReturns(t: Term, text: seq<Byte>, ps: seq<Option<nat>>)
    requires TermOk(t) && t.parser.Ground? && 0x1B !in text && ps != [] && Fits(ps)
    ensures
      var s := PutBytes(t, text);
      PutBytes(t, (Csi(ps, 0x73) + text) + Csi(ps, 0x75)) ==
      s.(row := t.row, col := t.col, savedRow := t.row, savedCol := t.col, params := [], current := 0, active := false)
  {
    var saved := t.(savedRow := t.row, savedCol := t.col, params := [], current := 0, active := false);
    SaveSequence(t, ps);
    TextKeepsSavedCursor(saved, text);
    SavedDoesNotShow(t, saved, text);
    RestoreSequence(PutBytes(saved, text), ps);
    PutBytesSplit(t, Csi(ps, 0x73), text);
    PutBytesSplit(t, Csi(ps, 0x73) + text, Csi(ps, 0x75));
  }

  /** Two terminals that agree but for the saved cursor and the parameters of a finished sequence. */
  predicate SameScreen(t: Term, s: Term) {
    s == t.(savedRow := s.savedRow, savedCol := s.savedCol, params := s.params, current := s.current, active := s.active)
  }

  lemma {:induction false} SavedDoesNotShow(t: Term, s: Term, text: seq<Byte>)
    requires TermOk(t) && TermOk(s) && t.parser.Ground? && 0x1B !in text && SameScreen(t, s)
    ensures SameScreen(PutBytes(t, text), PutBytes(s, text))
    decreases |text|
  {
    if text != [] {
      ByteKeepsSavedCursor(t, text[0]);
      SameScreenStep(t, s, text[0]);
      SavedDoesNotShow(PutByte(t, text[0]), PutByte(s, text[0]), text[1..]);
    }
  }

  lemma SameScreenStep(t: Term, s: Term, b: Byte)
    requires TermOk(t) && TermOk(s) && t.parser.Ground? && b != 0x1B && SameScreen(t, s)
    ensures SameScreen(PutByte(t, b), PutByte(s, b))
  {
    if b == 0x09 {
      SameScreenSpaces(t, s, 4 - t.col % 4);
    } else if b == 0x08 {
      SameScreenBack(t, s);
    } else if b >= 0x80 {
      SameScreenHigh(t, s, b);
    } else if b >= 0x20 {
      SameScreenShow(t, s, b);
    }
  }

  lemma SameScreenBack(t: Term, s: Term)
    requires TermOk(t) && TermOk(s) && SameScreen(t, s)
    ensures SameScreen(Backspace(t), Backspace(s))
  {
  }

  lemma SameScreenShow(t: Term, s: Term, b: Byte)
    requires TermOk(t) && TermOk(s) && b < 0x80 && SameScreen(t, s)
    ensures SameScreen(Show(t, b), Show(s, b))
  {
  }

  lemma SameScreenHigh(t: Term, s: Term, b: Byte)
    requires TermOk(t) && TermOk(s) && t.parser.Ground? && b >= 0x80 && SameScreen(t, s)
    ensures SameScreen(PutByte(t, b), PutByte(s, b))
  {
    var (d, e) := Feed(t.utf8, b);
    FeedKeepsDecoderOk(t.utf8, b);
    FeedIsNeverLow(t.utf8, b);
    SameScreenShow(t.(utf8 := d), s.(utf8 := d), 0x3F);
  }

  lemma {:induction false} SameScreenSpaces(t: Term, s: Term, n: nat)
    requires TermOk(t) && TermOk(s) && SameScreen(t, s)
    ensures SameScreen(ShowMany(t, 0x20, n), ShowMany(s, 0x20, n))
    decreases n
  {
    if n > 0 {
      SameScreenShow(t, s, 0x20);
      SameScreenSpaces(Show(t, 0x20), Show(s, 0x20), n - 1);
    }
  }

  // ---------------------------------------------------------------------
  // Erasing
  // ---------------------------------------------------------------------

  /** Which cells `ESC [ mode J` and `ESC [ mode K` blank: from the cursor on, up to the cursor, and for K the whole row. */
  predicate Erases(t: Term, final: Byte, mode: nat, r: nat, c: nat)
    requires t.col < t.cols && c < t.cols
  {
    var here, cursor := At(r, c, t.cols), At(t.row, t.col, t.cols);
    && (final == 0x4B ==> r == t.row)
    && ((mode == 0 && here >= cursor) || (mode == 1 && here <= cursor) || (mode == 2 && final == 0x4B))
  }

  lemma ReadingOrder(r: nat, c: nat, row: nat, col: nat, width: nat)
    requires c < width && col < width
    ensures NotAfter(r, c, row, col) <==> At(r, c, width) <= At(row, col, width)
  {
    AtIsLinear(r, c, width);
    AtIsLinear(row, col, width);
    if r < row {
      MulAtLeast(row - r, width);
      assert row * width == r * width + (row - r) * width;
    } else if r > row {
      MulAtLeast(r - row, width);
      assert r * width == row * width + (r - row) * width;
    }
  }

  lemma EraseCell(t: Term, final: Byte, mode: nat, r: nat, c: nat)
    requires TermOk(t) && r < t.rows && c < t.cols
    requires (final == 0x4A && mode < 2) || (final == 0x4B && mode < 3)
    ensures
      var g := (if final == 0x4A then EraseDisplay(t, mode) else EraseLine(t, mode)).grid;
      g[r][c] == if Erases(t, final, mode, r, c) then Cell(0x20, 16 * t.bg + t.fg) else t.grid[r][c]
  {
    ReadingOrder(r, c, t.row, t.col, t.cols);
    ReadingOrder(t.row, t.col, r, c, t.cols);
  }

  lemma ExecuteErase(t: Term, final: Byte, mode: nat)
    requires TermOk(t) && (final == 0x4A || final == 0x4B) && !(final == 0x4A && mode == 2)
    requires ParamAt(t, 0, 0) == mode
    ensures
      var s := Execute(t, final);
      && s == t.(grid := s.grid)
      && forall r: nat, c: nat :: r < t.rows && c < t.cols ==>
           s.grid[r][c] == if Erases(t, final, mode, r, c) then Cell(0x20, 16 * t.bg + t.fg) else t.grid[r][c]
  {
    if mode < 2 || (final == 0x4B && mode == 2) {
      forall r: nat, c: nat | r < t.rows && c < t.cols
        ensures Execute(t, final).grid[r][c] ==
                if Erases(t, final, mode, r, c) then Cell(0x20, 16 * t.bg + t.fg) else t.grid[r][c]
      {
        EraseCell(t, final, mode, r, c);
      }
    }
  }

  /**
   `ESC [ mode J` and `ESC [ mode K` blank exactly those cells in the current
   colours; an absent mode is 0, and other modes erase nothing. Everything
   else on the screen, the cursor included, stays as it was.
   */
  lemma EraseSequenceErases(t: Term, p: Option<nat>, final: Byte)
    requires TermOk(t) && t.parser.Ground? && Fits([p]) && (final == 0x4A || final == 0x4B)
    requires !(final == 0x4A && p == Some(2))
    ensures
      var s := PutBytes(t, Csi([p], final));
      && s == t.(grid := s.grid, params := [], current := 0, active := false)
      && forall r: nat, c: nat :: r < t.rows && c < t.cols ==>
           s.grid[r][c] == if Erases(t, final, ValueOf(p), r, c) then Cell(0x20, 16 * t.bg + t.fg) else t.grid[r][c]
  {
    CsiExecutes(t, [p], final);
    KeptOne(p);
    assert [p][0] == p;
    ExecuteErase(t.(parser := Parser.Csi, params := Kept([p]), current := 0, active := false), final, ValueOf(p));
  }

  /** `ESC [ 2 J` starts over: bright white on black blanks, both cursors at the top left, nothing pending. */
  lemma ClearSequenceClears(t: Term)
    requires TermOk(t) && t.parser.Ground?
    ensures
      var s := PutBytes(t, Csi([Some(2)], 0x4A));
      && s.cols == t.cols && s.rows == t.rows
      && s.row == s.col == s.savedRow == s.savedCol == 0 && s.fg == 15 && s.bg == 0
      && s.parser.Ground? && s.utf8.needed == 0 && s.params == []
      && forall r, c :: 0 <= r < t.rows && 0 <= c < t.cols ==> s.grid[r][c] == Cell(0x20, 0x0F)
  {
    CsiExecutes(t, [Some(2)], 0x4A);
    KeptOne(Some(2));
  }

  // ---------------------------------------------------------------------
  // Colours
  // ---------------------------------------------------------------------

  /** An ANSI colour as a VGA one: ANSI counts red, green, blue from the low bit, VGA from the high one. */
  function Reversed(n: int): int
    requires 0 <= n < 8
  {
    n % 2 * 4 + n / 2 % 2 * 2 + n / 4
  }

  /** The foreground after one SGR code: bold adds 8 to a dark colour, and is lost with the next colour. */
  function Foreground(fg: int, code: int): int {
    if code == 0 || code == 39 then 15
    else if code == 1 then fg % 8 + 8
    else if code == 22 then fg % 8
    else if 30 <= code <= 37 then Reversed(code - 30)
    else if 90 <= code <= 97 then Reversed(code - 90) + 8
    else fg
  }

  function Background(bg: int, code: int): int {
    if code == 0 || code == 49 then 0
    else if 40 <= code <= 47 then Reversed(code - 40)
    else if 100 <= code <= 107 then Reversed(code - 100) + 8
    else bg
  }

  function Foregrounds(fg: int, codes: seq<int>): int
    decreases |codes|
  {
    if codes == [] then fg else Foregrounds(Foreground(fg, codes[0]), codes[1..])
  }

  function Backgrounds(bg: int, codes: seq<int>): int
    decreases |codes|
  {
    if codes == [] then bg else Backgrounds(Background(bg, codes[0]), codes[1..])
  }

  lemma TableReverses(n: int, bright: bool)
    requires 0 <= n < 8
    ensures AnsiColor(n, bright) == Reversed(n) + if bright then 8 else 0
  {
  }

  lemma OneForeground(t: Term, code: int)
    requires TermOk(t)
    ensures Sgr(t, code).fg == Foreground(t.fg, code)
  {
    if 30 <= code <= 37 {
      TableReverses(code - 30, false);
    } else if 90 <= code <= 97 {
      TableReverses(code - 90, true);
    }
  }

  lemma OneBackground(t: Term, code: int)
    requires TermOk(t)
    ensures Sgr(t, code).bg == Background(t.bg, code)
  {
    if 40 <= code <= 47 {
      TableReverses(code - 40, false);
    } else if 100 <= code <= 107 {
      TableReverses(code - 100, true);
    }
  }

  lemma {:induction false} AllCodes(t: Term, codes: seq<int>)
    requires TermOk(t)
    ensures SgrAll(t, codes).fg == Foregrounds(t.fg, codes) && SgrAll(t, codes).bg == Backgrounds(t.bg, codes)
    decreases |codes|
  {
    if codes != [] {
      OneForeground(t, codes[0]);
      OneBackground(t, codes[0]);
      AllCodes(Sgr(t, codes[0]), codes[1..]);
    }
  }

  /**
   `ESC [ codes m` applies the codes one after the other, none meaning 0. Each
   of the two colours depends on its own earlier value and the codes, not on
   the other colour; nothing else changes.
   */
  lemma ColourSequenceColours(t: Term, ps: seq<Option<nat>>)
    requires TermOk(t) && t.parser.Ground? && ps != [] && Fits(ps)
    ensures
      var s, codes := PutBytes(t, Csi(ps, 0x6D)), if Kept(ps) == [] then [0] else Kept(ps);
      && s == t.(fg := s.fg, bg := s.bg, params := [], current := 0, active := false)
      && s.fg == Foregrounds(t.fg, codes) && s.bg == Backgrounds(t.bg, codes)
  {
    CsiExecutes(t, ps, 0x6D);
    var codes := if Kept(ps) == [] then [0] else Kept(ps);
    AllCodes(t.(parser := Parser.Csi, params := Kept(ps), current := 0, active := false), codes);
  }

  lemma TwoCodes(fg: int, a: int, b: int)
    ensures Foregrounds(fg, [a, b]) == Foreground(Foreground(fg, a), b)
  {
    assert [a, b][1..] == [b] && [b][1..] == [];
    assert Foregrounds(Foreground(fg, a), [b]) == Foreground(Foreground(fg, a), b);
  }

  lemma TwoCodeSequence(t: Term, a: nat, b: nat)
    requires TermOk(t) && t.parser.Ground? && a < 0x8000_0000 && b < 0x8000_0000
    ensures PutBytes(t, Csi([Some(a), Some(b)], 0x6D)).fg == Foreground(Foreground(t.fg, a), b)
  {
    var ps := [Some(a), Some(b)];
    ColourSequenceColours(t, ps);
    KeptTwo(a, b);
    TwoCodes(t.fg, a, b);
  }

  /** Bold before a colour is lost, bold after it brightens: so the prompt's `ESC [ 1 ; 32 m` is dark green. */
  lemma BoldIsLostBeforeColour(t: Term, bold: nat, colour: nat)
    requires TermOk(t) && t.parser.Ground? && bold == 1 && 30 <= colour <= 37
    ensures PutBytes(t, Csi([Some(bold), Some(colour)], 0x6D)).fg == Reversed(colour - 30)
    ensures PutBytes(t, Csi([Some(colour), Some(bold)], 0x6D)).fg == Reversed(colour - 30) + 8
  {
    TwoCodeSequence(t, bold, colour);
    TwoCodeSequence(t, colour, bold);
    BoldAndColour(t.fg, bold, colour);
  }

  lemma BoldAndColour(fg: int, bold: nat, colour: nat)
    requires bold == 1 && 30 <= colour <= 37
    ensures Foreground(Foreground(fg, bold), colour) == Reversed(colour - 30)
    ensures Foreground(Foreground(fg, colour), bold) == Reversed(colour - 30) + 8
  {
  }

  // ---------------------------------------------------------------------
  // What is not understood
  // ---------------------------------------------------------------------

  /** A final byte without a meaning does nothing. */
  lemma UnknownFinalDoesNothing(t: Term, ps: seq<Option<nat>>, final: Byte)
    requires TermOk(t) && t.parser.Ground? && ps != [] && Fits(ps) && 0x40 <= final <= 0x7E
    requires final !in [0x41, 0x42, 0x43, 0x44, 0x48, 0x4A, 0x4B, 0x66, 0x6D, 0x73, 0x75]
    ensures PutBytes(t, Csi(ps, final)) == t.(params := [], current := 0, active := false)
  {
    CsiExecutes(t, ps, final);
  }

  /** Any other byte inside a sequence ends it and disappears: after `ESC [ ?` the rest of a sequence is shown as text. */
  lemma OtherByteEndsSequence(t: Term, ps: seq<Option<nat>>, b: Byte)
    requires TermOk(t) && t.parser.Ground? && ps != [] && Fits(ps)
    requires !(0x30 <= b <= 0x39) && b != 0x3B && !(0x40 <= b <= 0x7E)
    ensures
      var s := PutBytes(t, Csi(ps, b));
      s == t.(params := s.params, current := s.current, active := s.active)
  {
    EnterCsi(t);
    var t1 := t.(parser := Parser.Csi, params := [], current := 0, active := false);
    PutBytesSplit(t, [0x1B, 0x5B], Written(ps) + [b]);
    PutBytesSplit(t1, Written(ps), [b]);
    AllAreRead(t1, ps);
    var read := PutBytes(t1, Written(ps));
    PushTouchesParameters(read);
    PutOne(read, b);
  }

  lemma PushTouchesParameters(t: Term)
    requires TermOk(t)
    ensures
      var s := PushParam(t);
      t == s.(params := t.params, current := t.current, active := t.active)
  {
  }

  /** ESC in front of any byte but `[` is dropped. */
  lemma LoneEscapeIsDropped(t: Term, b: Byte)
    requires TermOk(t) && t.parser.Ground? && b != 0x5B
    ensures PutBytes(t, [0x1B, b]) == PutByte(t, b)
  {
    assert [0x1B, b][1..] == [b];
    PutOne(t.(parser := Escape), b);
  }
}
