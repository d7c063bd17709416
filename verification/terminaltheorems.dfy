/** What whole byte streams do to the terminal. */
module TerminalTheorems {
  import opened Common
  import opened Layout
  import opened Utf8
  import opened Terminal

  // ---------------------------------------------------------------------
  // Code points
  // ---------------------------------------------------------------------

  function ShowAll(t: Term, es: seq<Emit>): (r: Term)
    requires TermOk(t)
    ensures TermOk(r) && r.utf8 == t.utf8 && r.parser == t.parser
    decreases |es|
  {
    if es == [] then t else ShowAll(ShowEmit(t, es[0]), es[1..])
  }

  lemma {:induction false} StreamShows(t: Term, bytes: seq<Byte>)
    requires TermOk(t) && t.parser.Ground?
    requires forall i :: 0 <= i < |bytes| ==> bytes[i] >= 0x20
    ensures
      var (d, es) := Decode(t.utf8, bytes);
      DecoderOk(d) && PutBytes(t, bytes) == ShowAll(t, es).(utf8 := d)
    decreases |bytes|
  {
    if bytes != [] {
      var b, rest := bytes[0], bytes[1..];
      var (d, e) := Utf8.Ground(t.utf8, b);
      FeedKeepsDecoderOk(t.utf8, b);
      var t1 := PutByte(t, b);
      assert t1 == ShowEmit(t.(utf8 := d), e);
      ShowCommutes(t, e, d);
      StreamShows(t1, rest);
      var es := Decode(d, rest).1;
      ShowAllCommutes(ShowEmit(t, e), es, d);
      if e.Pending? {
        assert Visible(e) + es == es;
      } else {
        assert (Visible(e) + es)[0] == e && (Visible(e) + es)[1..] == es;
      }
    }
  }

  lemma ShowCommutes(t: Term, e: Emit, d: Decoder)
    requires TermOk(t) && DecoderOk(d)
    ensures ShowEmit(t.(utf8 := d), e) == ShowEmit(t, e).(utf8 := d)
  {
  }

  lemma {:induction false} ShowAllCommutes(t: Term, es: seq<Emit>, d: Decoder)
    requires TermOk(t) && DecoderOk(d)
    ensures ShowAll(t.(utf8 := d), es) == ShowAll(t, es).(utf8 := d)
    decreases |es|
  {
    if es != [] {
      ShowCommutes(t, es[0], d);
      ShowAllCommutes(ShowEmit(t, es[0]), es[1..], d);
    }
  }

  /** The 7-bit character that stands for what the decoder found: itself, or a question mark. */
  function Glyph(e: Emit): Byte {
    if e.Decoded? && e.cp < 0x80 then e.cp else 0x3F
  }

  function Glyphs(es: seq<Emit>): seq<Byte> {
    if es == [] then [] else [Glyph(es[0])] + Glyphs(es[1..])
  }

  /** No emission is empty or a control character. */
  predicate AllVisible(es: seq<Emit>) {
    forall i :: 0 <= i < |es| ==> !es[i].Pending? && (es[i].Decoded? ==> es[i].cp >= 0x20)
  }

  lemma {:induction false} DecodedIsVisible(d: Decoder, bytes: seq<Byte>)
    requires DecoderOk(d) && forall i :: 0 <= i < |bytes| ==> bytes[i] >= 0x20
    ensures AllVisible(Decode(d, bytes).1)
    decreases |bytes|
  {
    if bytes != [] {
      FeedKeepsDecoderOk(d, bytes[0]);
      DecodedIsVisible(Utf8.Ground(d, bytes[0]).0, bytes[1..]);
    }
  }

  lemma {:induction false} ShownAsGlyphs(t: Term, es: seq<Emit>)
    requires TermOk(t) && t.parser.Ground? && AllVisible(es)
    ensures ShowAll(t, es) == PutBytes(t, Glyphs(es))
    decreases |es|
  {
    if es != [] {
      PutHead(t, Glyph(es[0]), Glyphs(es[1..]));
      ShownAsGlyphs(ShowEmit(t, es[0]), es[1..]);
    }
  }

  /**
   In ground state, bytes from 0x20 on act on the screen exactly like the
   7-bit text they decode to, with a question mark for every code point that
   is not ASCII and for every broken sequence.
   */
  lemma GroundStreamIsDecoded(t: Term, bytes: seq<Byte>)
    requires TermOk(t) && t.parser.Ground?
    requires forall i :: 0 <= i < |bytes| ==> bytes[i] >= 0x20
    ensures
      var (d, es) := Decode(t.utf8, bytes);
      DecoderOk(d) && PutBytes(t, bytes) == PutBytes(t, Glyphs(es)).(utf8 := d)
  {
    StreamShows(t, bytes);
    DecodedIsVisible(t.utf8, bytes);
    ShownAsGlyphs(t, Decode(t.utf8, bytes).1);
  }

  /** Code points as a console that only has ASCII shows them. */
  function Substituted(cps: seq<nat>): seq<Byte> {
    if cps == [] then [] else [if cps[0] < 0x80 then cps[0] else 0x3F] + Substituted(cps[1..])
  }

  lemma {:induction false} ShownIsSubstituted(cps: seq<nat>)
    ensures Glyphs(Shown(cps)) == Substituted(cps)
  {
    if cps != [] {
      ShownIsSubstituted(cps[1..]);
      assert Shown(cps)[1..] == Shown(cps[1..]);
    }
  }

  /**
   Code points encoded by the keyboard and sent to a console at rest appear one
   by one, as themselves or as a question mark, and leave nothing pending.
   */
  lemma EncodedTextAppears(t: Term, cps: seq<nat>)
    requires TermOk(t) && t.parser.Ground? && t.utf8 == READY
    requires forall i :: 0 <= i < |cps| ==> IsScalar(cps[i]) && cps[i] >= 0x20
    ensures PutBytes(t, EncodeAll(cps)) == PutBytes(t, Substituted(cps))
    ensures PutBytes(t, EncodeAll(cps)).utf8 == READY
  {
    EncodedBytesAreVisible(cps);
    DecodeUndoesEncode(cps);
    GroundStreamIsDecoded(t, EncodeAll(cps));
    ShownIsSubstituted(cps);
    SubstitutedKeepsDecoder(t, cps);
  }

  lemma {:induction false} SubstitutedKeepsDecoder(t: Term, cps: seq<nat>)
    requires TermOk(t) && t.parser.Ground? && forall i :: 0 <= i < |cps| ==> cps[i] >= 0x20
    ensures PutBytes(t, Substituted(cps)).utf8 == t.utf8
    decreases |cps|
  {
    if cps != [] {
      var b := Substituted(cps)[0];
      PutHead(t, b, Substituted(cps[1..]));
      SubstitutedKeepsDecoder(PutByte(t, b), cps[1..]);
    }
  }

  lemma {:induction false} EncodedBytesAreVisible(cps: seq<nat>)
    requires forall i :: 0 <= i < |cps| ==> cps[i] >= 0x20
    ensures forall i :: 0 <= i < |EncodeAll(cps)| ==> EncodeAll(cps)[i] >= 0x20
  {
    if cps != [] {
      EncodedBytesAreVisible(cps[1..]);
    }
  }

  // ---------------------------------------------------------------------
  // Line feeds and backspaces
  // ---------------------------------------------------------------------

  /**
   A newline goes to the start of the next row. Above the last row no cell
   changes; on the last row every row moves up and the bottom row is blank in
   the current colours.
   */
  lemma NewlineGoesDown(t: Term)
    requires TermOk(t) && t.parser.Ground?
    ensures
      var s := PutByte(t, 0x0A);
      && s == t.(row := s.row, col := s.col, grid := s.grid)
      && s.col == 0 && s.row == Min(t.row + 1, t.rows - 1)
      && (t.row + 1 < t.rows ==> s.grid == t.grid)
      && (t.row + 1 == t.rows ==>
            forall r, c :: 0 <= r < t.rows && 0 <= c < t.cols ==>
              s.grid[r][c] == if r + 1 < t.rows then t.grid[r + 1][c] else Cell(0x20, 16 * t.bg + t.fg))
  {
  }

  /** A backspace goes back one position in reading order and blanks it, and does nothing at the top left. */
  lemma BackspaceStepsBack(t: Term)
    requires TermOk(t) && t.parser.Ground?
    ensures
      var s := PutByte(t, 0x08);
      if t.row == 0 && t.col == 0 then s == t
      else
        && s == t.(row := s.row, col := s.col, grid := s.grid)
        && At(s.row, s.col, t.cols) + 1 == At(t.row, t.col, t.cols)
        && forall r, c :: 0 <= r < t.rows && 0 <= c < t.cols ==>
             s.grid[r][c] == if r == s.row && c == s.col then Cell(0x20, 16 * t.bg + t.fg) else t.grid[r][c]
  {
    var s := PutByte(t, 0x08);
    if t.row > 0 || t.col > 0 {
      NextPosition(s.row, s.col, t.cols);
    }
  }

  // ---------------------------------------------------------------------
  // Running text: the screen is a window on a tape
  // ---------------------------------------------------------------------

  /**
   Writing on an endless tape that is read in rows of `cols` cells: where the
   next character goes, and what has been written where.
   */
  datatype Pen = Pen(at: nat, ink: map<nat, Byte>)

  function Draw(p: Pen, b: Byte): Pen {
    Pen(p.at + 1, p.ink[p.at := b])
  }

  function DrawMany(p: Pen, b: Byte, n: nat): Pen
    decreases n
  {
    if n == 0 then p else DrawMany(Draw(p, b), b, n - 1)
  }

  /**
   A newline goes to the start of the next row, a carriage return to the start
   of this one, a tab writes blanks up to the next column that is a multiple
   of four (or past the end of the row), other control bytes do nothing.
   */
  function Write(cols: nat, p: Pen, b: Byte): Pen
    requires cols > 0
  {
    if b == 0x0A then p.(at := (p.at / cols + 1) * cols)
    else if b == 0x0D then p.(at := p.at / cols * cols)
    else if b == 0x09 then DrawMany(p, 0x20, 4 - p.at % cols % 4)
    else if b < 0x20 then p
    else Draw(p, b)
  }

  function WriteAll(cols: nat, p: Pen, bytes: seq<Byte>): Pen
    requires cols > 0
    decreases |bytes|
  {
    if bytes == [] then p else WriteAll(cols, Write(cols, p, bytes[0]), bytes[1..])
  }

  /** Printable text occupies one cell after the other. */
  lemma {:induction false} PrintableTextIsConsecutive(cols: nat, p: Pen, text: seq<Byte>)
    requires cols > 0 && forall i :: 0 <= i < |text| ==> text[i] >= 0x20
    ensures
      var q := WriteAll(cols, p, text);
      && q.at == p.at + |text|
      && (forall i :: i in q.ink <==> p.at <= i < p.at + |text| || i in p.ink)
      && forall i :: i in q.ink ==> q.ink[i] == if p.at <= i < p.at + |text| then text[i - p.at] else p.ink[i]
    decreases |text|
  {
    if text != [] {
      PrintableTextIsConsecutive(cols, Draw(p, text[0]), text[1..]);
    }
  }

  /** The tape's cell at column c of row r, counted from the top row of the screen t. */
  function Tape(t: Term, ink: map<nat, Byte>, r: nat, c: nat): Cell
    requires TermOk(t) && c < t.cols
  {
    if At(r, c, t.cols) in ink then Cell(ink[At(r, c, t.cols)], 16 * t.bg + t.fg)
    else if r < t.rows then t.grid[r][c]
    else Cell(0x20, 16 * t.bg + t.fg)
  }

  /** s shows the tape from row k on, its cursor where the pen is, and has scrolled no more than needed. */
  predicate WindowAt(t: Term, p: Pen, s: Term, k: nat)
    requires TermOk(t) && TermOk(s)
  {
    CursorAt(t, p, s, k) && ShowsTape(t, p.ink, s.grid, k)
  }

  /** Apart from the grid: the pen is at the cursor, and nothing was written below its row. */
  predicate CursorAt(t: Term, p: Pen, s: Term, k: nat)
    requires TermOk(t) && TermOk(s)
  {
    && s == t.(row := s.row, col := s.col, grid := s.grid)
    && At(k + s.row, s.col, t.cols) == p.at
    && (k > 0 ==> s.row == t.rows - 1)
    && (forall i :: i in p.ink ==> i < At(k + s.row + 1, 0, t.cols))
  }

  predicate ShowsTape(t: Term, ink: map<nat, Byte>, g: Grid, k: nat)
    requires TermOk(t) && GridOk(g, t.rows, t.cols)
  {
    forall r: nat, c: nat {:trigger At(r, c, t.cols)} :: k <= r < k + t.rows && c < t.cols ==>
      g[r - k][c] == Tape(t, ink, r, c)
  }

  lemma NextPosition(row: nat, col: nat, width: nat)
    requires col < width
    ensures At(row, col, width) + 1 == if col + 1 < width then At(row, col + 1, width) else At(row + 1, 0, width)
  {
    AtIsLinear(row, col, width);
    AtIsLinear(row, col + 1, width);
    AtIsLinear(row + 1, 0, width);
    assert (row + 1) * width == row * width + width;
  }

  /** Row and column of a position, and the start of its row and of the next. */
  lemma Coordinates(row: nat, col: nat, width: nat)
    requires col < width
    ensures At(row, col, width) / width == row && At(row, col, width) % width == col
    ensures At(row, 0, width) == At(row, col, width) / width * width
    ensures At(row + 1, 0, width) == (At(row, col, width) / width + 1) * width
    ensures At(row, col, width) < At(row + 1, 0, width) < At(row + 2, 0, width)
  {
    AtIsLinear(row, col, width);
    AtIsLinear(row, 0, width);
    AtIsLinear(row + 1, 0, width);
    AtIsLinear(row + 2, 0, width);
    DivModUnique(row, width, col);
    assert (row + 1) * width == row * width + width;
    assert (row + 2) * width == (row + 1) * width + width;
  }

  predicate AtCorner(s: Term) {
    s.col + 1 == s.cols && s.row + 1 == s.rows
  }

  /** What a character does to one cell, with or without a scroll. */
  lemma ShowOnCell(s: Term, b: Byte, r: nat, c: nat)
    requires TermOk(s) && b < 0x80 && r < s.rows && c < s.cols
    ensures
      var color := Color(s.fg, s.bg);
      Show(s, b).grid[r][c] ==
      if AtCorner(s) && r == s.rows - 1 then Blank(color)
      else
        var r' := if AtCorner(s) then r + 1 else r;
        if r' == s.row && c == s.col then Cell(b, color) else s.grid[r'][c]
  {
    var written := SetCell(s.grid, s.row, s.col, Cell(b, Color(s.fg, s.bg)));
    assert Show(s, b).grid == if AtCorner(s) then Scrolled(written, s.cols, Color(s.fg, s.bg)) else written;
  }

  /**
   Backspace right after a character leaves the grid as if a space had been
   shown, also across a line wrap or a scroll, and puts the cursor back onto
   it. Only a one-row screen loses the character to the scroll first.
   */
  lemma BackspaceErasesLast(t: Term, b: Byte)
    requires TermOk(t) && b < 0x80 && !(AtCorner(t) && t.rows == 1)
    ensures Backspace(Show(t, b)) ==
            t.(grid := Show(t, 0x20).grid, row := if AtCorner(t) then t.row - 1 else t.row)
  {
    var s := Show(t, b);
    var back := Backspace(s);
    var want := Show(t, 0x20).grid;
    assert back.row == (if AtCorner(t) then t.row - 1 else t.row) && back.col == t.col;
    forall r | 0 <= r < t.rows ensures back.grid[r] == want[r] {
      forall c | 0 <= c < t.cols ensures back.grid[r][c] == want[r][c] {
        ShowOnCell(t, b, r, c);
        ShowOnCell(t, 0x20, r, c);
      }
    }
  }

  /** Writing into one cell of the window, */
  lemma DrawInWindow(t: Term, p: Pen, s: Term, k: nat, b: Byte)
    requires TermOk(t) && TermOk(s) && b < 0x80 && WindowAt(t, p, s, k)
    ensures
      var g := SetCell(s.grid, s.row, s.col, Cell(b, Color(s.fg, s.bg)));
      ShowsTape(t, Draw(p, b).ink, g, k)
  {
    AtIsInjective(0, t.cols);
    var g := SetCell(s.grid, s.row, s.col, Cell(b, Color(s.fg, s.bg)));
    forall r: nat, c: nat | k <= r < k + t.rows && c < t.cols
      ensures g[r - k][c] == Tape(t, Draw(p, b).ink, r, c)
    {
      assert s.grid[r - k][c] == Tape(t, p.ink, r, c);
    }
  }

  /** and going down from the last row, which scrolls. */
  lemma ScrollWindow(t: Term, ink: map<nat, Byte>, g: Grid, k: nat)
    requires TermOk(t) && GridOk(g, t.rows, t.cols) && ShowsTape(t, ink, g, k)
    requires forall i :: i in ink ==> i < At(k + t.rows, 0, t.cols)
    ensures ShowsTape(t, ink, Scrolled(g, t.cols, Color(t.fg, t.bg)), k + 1)
  {
    var h := Scrolled(g, t.cols, Color(t.fg, t.bg));
    forall r: nat, c: nat | k + 1 <= r < k + 1 + t.rows && c < t.cols ensures h[r - k - 1][c] == Tape(t, ink, r, c) {
      ScrolledCell(g, t.cols, Color(t.fg, t.bg), r - k - 1, c);
      if r < k + t.rows {
        assert g[r - k][c] == Tape(t, ink, r, c);
      } else {
        RowStart(r, c, t.cols);
      }
    }
  }

  lemma ScrolledCell(g: Grid, cols: nat, color: Byte, r: nat, c: nat)
    requires GridOk(g, |g|, cols) && r < |g| && c < cols
    ensures Scrolled(g, cols, color)[r][c] == if r + 1 < |g| then g[r + 1][c] else Cell(0x20, color)
  {
  }

  /** The window's first row after the cursor went down, and after a character. */
  function RowAfterNewline(s: Term, k: nat): nat { if s.row + 1 < s.rows then k else k + 1 }
  function RowAfterShow(s: Term, k: nat): nat { if s.col + 1 < s.cols then k else RowAfterNewline(s, k) }

  lemma NewlineMovesCursor(t: Term, p: Pen, s: Term, k: nat)
    requires TermOk(t) && TermOk(s) && CursorAt(t, p, s, k)
    ensures CursorAt(t, p.(at := (p.at / t.cols + 1) * t.cols), NextRow(s.(col := 0)), RowAfterNewline(s, k))
  {
    Coordinates(k + s.row, s.col, t.cols);
  }

  lemma NewlineMovesWindow(t: Term, p: Pen, s: Term, k: nat)
    requires TermOk(t) && TermOk(s) && WindowAt(t, p, s, k)
    ensures WindowAt(t, p.(at := (p.at / t.cols + 1) * t.cols), NextRow(s.(col := 0)), RowAfterNewline(s, k))
  {
    NewlineMovesCursor(t, p, s, k);
    if s.row + 1 == s.rows {
      ScrollWindow(t, p.ink, s.grid, k);
    }
  }

  lemma ShowInsideRow(t: Term, p: Pen, s: Term, k: nat, b: Byte)
    requires TermOk(t) && TermOk(s) && b < 0x80 && CursorAt(t, p, s, k) && s.col + 1 < s.cols
    ensures CursorAt(t, Draw(p, b), Show(s, b), k)
  {
    NextPosition(k + s.row, s.col, t.cols);
    PenIsInRow(t, p, s, k);
  }

  lemma ShowAtRowEnd(t: Term, p: Pen, s: Term, k: nat, b: Byte)
    requires TermOk(t) && TermOk(s) && b < 0x80 && CursorAt(t, p, s, k) && s.col + 1 == s.cols
    ensures CursorAt(t, Draw(p, b), Show(s, b), RowAfterNewline(s, k))
  {
    var drawn := s.(grid := SetCell(s.grid, s.row, s.col, Cell(b, Color(s.fg, s.bg))));
    PenIsInRow(t, p, s, k);
    EndOfRow(k + s.row, s.col, t.cols);
    NewlineMovesCursor(t, p.(ink := p.ink[p.at := b]), drawn, k);
  }

  lemma EndOfRow(row: nat, col: nat, width: nat)
    requires col + 1 == width
    ensures (At(row, col, width) / width + 1) * width == At(row, col, width) + 1
  {
    Coordinates(row, col, width);
    NextPosition(row, col, width);
  }

  /** Where the pen is. */
  lemma PenIsInRow(t: Term, p: Pen, s: Term, k: nat)
    requires TermOk(t) && TermOk(s) && CursorAt(t, p, s, k)
    ensures p.at % t.cols == s.col && p.at / t.cols * t.cols == At(k + s.row, 0, t.cols)
    ensures p.at < At(k + s.row + 1, 0, t.cols)
  {
    Coordinates(k + s.row, s.col, t.cols);
  }

  lemma ShowMovesCursor(t: Term, p: Pen, s: Term, k: nat, b: Byte)
    requires TermOk(t) && TermOk(s) && b < 0x80 && CursorAt(t, p, s, k)
    ensures CursorAt(t, Draw(p, b), Show(s, b), RowAfterShow(s, k))
  {
    if s.col + 1 < s.cols {
      ShowInsideRow(t, p, s, k, b);
    } else {
      ShowAtRowEnd(t, p, s, k, b);
    }
  }

  lemma ShowMovesTape(t: Term, p: Pen, s: Term, k: nat, b: Byte)
    requires TermOk(t) && TermOk(s) && b < 0x80 && WindowAt(t, p, s, k)
    ensures ShowsTape(t, Draw(p, b).ink, Show(s, b).grid, RowAfterShow(s, k))
  {
    DrawInWindow(t, p, s, k, b);
    Coordinates(k + s.row, s.col, t.cols);
    if AtCorner(s) {
      ScrollWindow(t, Draw(p, b).ink, SetCell(s.grid, s.row, s.col, Cell(b, Color(s.fg, s.bg))), k);
    }
  }

  lemma ShowMovesWindow(t: Term, p: Pen, s: Term, k: nat, b: Byte)
    requires TermOk(t) && TermOk(s) && b < 0x80 && WindowAt(t, p, s, k)
    ensures WindowAt(t, Draw(p, b), Show(s, b), RowAfterShow(s, k))
  {
    ShowMovesCursor(t, p, s, k, b);
    ShowMovesTape(t, p, s, k, b);
  }

  lemma {:induction false} ShowManyMovesWindow(t: Term, p: Pen, s: Term, k: nat, b: Byte, n: nat) returns (k': nat)
    requires TermOk(t) && TermOk(s) && b < 0x80 && WindowAt(t, p, s, k)
    ensures WindowAt(t, DrawMany(p, b, n), ShowMany(s, b, n), k')
    decreases n
  {
    k' := k;
    if n > 0 {
      ShowMovesWindow(t, p, s, k, b);
      k' := ShowManyMovesWindow(t, Draw(p, b), Show(s, b), RowAfterShow(s, k), b, n - 1);
    }
  }

  /** The bytes of running text: 7-bit, without ESC and backspace. */
  predicate Running(b: Byte) {
    b < 0x80 && b != 0x1B && b != 0x08
  }

  lemma TabMovesWindow(t: Term, p: Pen, s: Term, k: nat) returns (k': nat)
    requires TermOk(t) && TermOk(s) && t.parser.Ground? && WindowAt(t, p, s, k)
    ensures WindowAt(t, Write(t.cols, p, 0x09), PutByte(s, 0x09), k')
  {
    PenIsInRow(t, p, s, k);
    assert Write(t.cols, p, 0x09) == DrawMany(p, 0x20, 4 - s.col % 4);
    k' := ShowManyMovesWindow(t, p, s, k, 0x20, 4 - s.col % 4);
  }

  lemma ReturnMovesWindow(t: Term, p: Pen, s: Term, k: nat)
    requires TermOk(t) && TermOk(s) && t.parser.Ground? && WindowAt(t, p, s, k)
    ensures WindowAt(t, Write(t.cols, p, 0x0D), PutByte(s, 0x0D), k)
  {
    PenIsInRow(t, p, s, k);
  }

  lemma ByteMovesWindow(t: Term, p: Pen, s: Term, k: nat, b: Byte) returns (k': nat)
    requires TermOk(t) && TermOk(s) && t.parser.Ground? && Running(b) && WindowAt(t, p, s, k)
    ensures WindowAt(t, Write(t.cols, p, b), PutByte(s, b), k')
  {
    k' := k;
    if b == 0x0A {
      NewlineMovesWindow(t, p, s, k);
      k' := RowAfterNewline(s, k);
    } else if b == 0x09 {
      k' := TabMovesWindow(t, p, s, k);
    } else if b == 0x0D {
      ReturnMovesWindow(t, p, s, k);
    } else if b >= 0x20 {
      ShowMovesWindow(t, p, s, k, b);
      k' := RowAfterShow(s, k);
    }
  }

  lemma {:induction false} BytesMoveWindow(t: Term, p: Pen, s: Term, k: nat, bytes: seq<Byte>) returns (k': nat)
    requires TermOk(t) && TermOk(s) && t.parser.Ground? && WindowAt(t, p, s, k)
    requires forall i :: 0 <= i < |bytes| ==> Running(bytes[i])
    ensures WindowAt(t, WriteAll(t.cols, p, bytes), PutBytes(s, bytes), k')
    decreases |bytes|
  {
    k' := k;
    if bytes != [] {
      k' := ByteMovesWindow(t, p, s, k, bytes[0]);
      k' := BytesMoveWindow(t, Write(t.cols, p, bytes[0]), PutByte(s, bytes[0]), k', bytes[1..]);
    }
  }

  lemma WindowAtStart(t: Term)
    requires TermOk(t)
    ensures WindowAt(t, Pen(At(t.row, t.col, t.cols), map[]), t, 0)
  {
    assert t == t.(row := t.row, col := t.col, grid := t.grid);
    forall r: nat, c: nat | r < t.rows && c < t.cols ensures t.grid[r][c] == Tape(t, map[], r, c) {
    }
  }

  /**
   Text of any length, with line feeds, carriage returns and tabs, wrapping
   and scrolling as it goes, leaves the screen showing a window of the tape
   written from the cursor on.
   */
  lemma TextFillsTheTape(t: Term, bytes: seq<Byte>)
    requires TermOk(t) && t.parser.Ground? && forall i :: 0 <= i < |bytes| ==> Running(bytes[i])
    ensures exists k: nat ::
              WindowAt(t, WriteAll(t.cols, Pen(At(t.row, t.col, t.cols), map[]), bytes), PutBytes(t, bytes), k)
  {
    var p := Pen(At(t.row, t.col, t.cols), map[]);
    WindowAtStart(t);
    var k := BytesMoveWindow(t, p, t, 0, bytes);
    assert WindowAt(t, WriteAll(t.cols, p, bytes), PutBytes(t, bytes), k);
  }
}
