/**
 The terminal of kernel/src/core/console.c as a function from a screen and a
 byte to a screen: cursor, colours, the ANSI CSI parser, the UTF-8 decoder and
 a grid of character cells, independent of where the cells are stored.
 */
module Terminal {
  import opened Common
  import opened Utf8

  const MAX_PARAMS := 8

  datatype Cell = Cell(ch: Byte, color: Byte)

  /** Rows of cells. */
  type Grid = seq<seq<Cell>>

  datatype Parser = Ground | Escape | Csi

  datatype Term = Term(cols: nat, rows: nat, row: nat, col: nat, savedRow: nat, savedCol: nat,
                       fg: nat, bg: nat,
                       parser: Parser, params: seq<int>, current: int, active: bool,
                       utf8: Decoder, grid: Grid)

  predicate GridOk(g: Grid, rows: nat, cols: nat) {
    && |g| == rows
    && forall r :: 0 <= r < rows ==> |g[r]| == cols
  }

  /**
   What holds between bytes, whatever the stream and its parameter values:
   both cursors on the screen, colours below 16, at most 8 parameters, at most
   3 bytes of a sequence outstanding, and only 7-bit characters in cells.
   */
  predicate TermOk(t: Term) {
    && t.cols > 0 && t.rows > 0
    && t.row < t.rows && t.col < t.cols
    && t.savedRow < t.rows && t.savedCol < t.cols
    && t.fg < 16 && t.bg < 16
    && |t.params| <= MAX_PARAMS
    && DecoderOk(t.utf8)
    && GridOk(t.grid, t.rows, t.cols)
    && SevenBit(t.grid)
  }

  predicate SevenBit(g: Grid) {
    forall r, c :: 0 <= r < |g| && 0 <= c < |g[r]| ==> g[r][c].ch < 0x80
  }

  // ---------------------------------------------------------------------
  // The grid
  // ---------------------------------------------------------------------

  /** `current_vga_color` */
  function Color(fg: nat, bg: nat): Byte
    requires fg < 16 && bg < 16
  {
    bg * 16 + fg
  }

  function Blank(color: Byte): Cell { Cell(0x20, color) }

  function BlankRow(cols: nat, color: Byte): seq<Cell> {
    seq(cols, _ => Blank(color))
  }

  function BlankGrid(rows: nat, cols: nat, color: Byte): Grid {
    seq(rows, _ => BlankRow(cols, color))
  }

  function SetCell(g: Grid, r: nat, c: nat, cell: Cell): Grid
    requires r < |g| && c < |g[r]|
  {
    g[r := g[r][c := cell]]
  }

  /** Everything moves up a row; the bottom row becomes blank. */
  function Scrolled(g: Grid, cols: nat, color: Byte): Grid
    requires |g| > 0
  {
    g[1..] + [BlankRow(cols, color)]
  }

  /** Reading order on screen positions. */
  predicate NotAfter(r1: int, c1: int, r2: int, c2: int) {
    r1 < r2 || (r1 == r2 && c1 <= c2)
  }

  /** Blank every position from (r1, c1) to (r2, c2) in reading order, both included. */
  function Erased(g: Grid, r1: nat, c1: nat, r2: nat, c2: nat, color: Byte): (e: Grid)
    ensures |e| == |g|
    ensures forall r :: 0 <= r < |g| ==> |e[r]| == |g[r]|
    ensures forall r, c {:trigger e[r][c]} :: 0 <= r < |g| && 0 <= c < |g[r]| ==>
      e[r][c] == if NotAfter(r1, c1, r, c) && NotAfter(r, c, r2, c2) then Blank(color) else g[r][c]
  {
    seq(|g|, r requires 0 <= r < |g| =>
      seq(|g[r]|, c requires 0 <= c < |g[r]| =>
        if NotAfter(r1, c1, r, c) && NotAfter(r, c, r2, c2) then Blank(color) else g[r][c]))
  }

  // ---------------------------------------------------------------------
  // Characters
  // ---------------------------------------------------------------------

  /** Down one row, scrolling at the bottom. */
  function NextRow(t: Term): (r: Term)
    requires TermOk(t)
    ensures TermOk(r)
  {
    if t.row + 1 < t.rows then t.(row := t.row + 1)
    else t.(grid := Scrolled(t.grid, t.cols, Color(t.fg, t.bg)))
  }

  /** `raw_put_visible` */
  function Show(t: Term, ch: Byte): (r: Term)
    requires TermOk(t) && ch < 0x80
    ensures TermOk(r)
  {
    var s := t.(grid := SetCell(t.grid, t.row, t.col, Cell(ch, Color(t.fg, t.bg))));
    if t.col + 1 < t.cols then s.(col := t.col + 1) else NextRow(s.(col := 0))
  }

  function ShowMany(t: Term, ch: Byte, n: nat): (r: Term)
    requires TermOk(t) && ch < 0x80
    ensures TermOk(r)
    decreases n
  {
    if n == 0 then t else ShowMany(Show(t, ch), ch, n - 1)
  }

  /** `console_backspace` */
  function Backspace(t: Term): (r: Term)
    requires TermOk(t)
    ensures TermOk(r)
  {
    if t.col == 0 && t.row == 0 then t
    else
      var r := if t.col == 0 then t.row - 1 else t.row;
      var c := if t.col == 0 then t.cols - 1 else t.col - 1;
      t.(row := r, col := c, grid := SetCell(t.grid, r, c, Blank(Color(t.fg, t.bg))))
  }

  /** A cleared screen: white on black blanks, cursors home, nothing pending. */
  function Reset(rows: nat, cols: nat): (r: Term)
    ensures rows > 0 && cols > 0 ==> TermOk(r)
  {
    Term(cols, rows, 0, 0, 0, 0, 15, 0, Ground, [], 0, false, READY, BlankGrid(rows, cols, 0x0F))
  }

  // ---------------------------------------------------------------------
  // Control sequences
  // ---------------------------------------------------------------------

  /** `ansi_color_to_vga` */
  function AnsiColor(n: int, bright: bool): (v: nat)
    requires 0 <= n < 8
    ensures v < 16
  {
    [0, 4, 2, 6, 1, 5, 3, 7][n] + if bright then 8 else 0
  }

  /** `ansi_sgr_apply` */
  function Sgr(t: Term, code: int): (r: Term)
    requires TermOk(t)
    ensures TermOk(r) && r == t.(fg := r.fg, bg := r.bg)
  {
    if code == 0 then t.(fg := 15, bg := 0)
    else if code == 1 then (if t.fg < 8 then t.(fg := t.fg + 8) else t)
    else if code == 22 then (if t.fg >= 8 then t.(fg := t.fg - 8) else t)
    else if 30 <= code <= 37 then t.(fg := AnsiColor(code - 30, false))
    else if 90 <= code <= 97 then t.(fg := AnsiColor(code - 90, true))
    else if code == 39 then t.(fg := 15)
    else if 40 <= code <= 47 then t.(bg := AnsiColor(code - 40, false))
    else if 100 <= code <= 107 then t.(bg := AnsiColor(code - 100, true))
    else if code == 49 then t.(bg := 0)
    else t
  }

  function SgrAll(t: Term, codes: seq<int>): (r: Term)
    requires TermOk(t)
    ensures TermOk(r) && r == t.(fg := r.fg, bg := r.bg)
    decreases |codes|
  {
    if codes == [] then t else SgrAll(Sgr(t, codes[0]), codes[1..])
  }

  /** What a 32-bit `int` keeps of a result. */
  function Wrap32(x: int): (w: int)
    ensures -0x8000_0000 <= w < 0x8000_0000
    ensures -0x8000_0000 <= x < 0x8000_0000 ==> w == x
  {
    (x + 0x8000_0000) % 0x1_0000_0000 - 0x8000_0000
  }

  /** An `int` converted to `size_t`, clamped below a limit. */
  function ClampIndex(v: int, limit: nat): (i: nat)
    requires limit > 0
    ensures i < limit
  {
    if 0 <= v < limit then v else limit - 1
  }

  /** `ansi_param_at` */
  function ParamAt(t: Term, i: nat, fallback: int): int {
    if i < |t.params| then t.params[i] else fallback
  }

  /** `ansi_push_current_param` */
  function PushParam(t: Term): (r: Term)
    requires TermOk(t)
    ensures TermOk(r)
  {
    if !t.active && t.params == [] then t
    else t.(params := if |t.params| < MAX_PARAMS then t.params + [if t.active then t.current else 0] else t.params,
            current := 0, active := false)
  }

  function ResetParams(t: Term): (r: Term)
    requires TermOk(t)
    ensures TermOk(r)
  {
    t.(params := [], current := 0, active := false)
  }

  /** Erase between two positions with the current colour. */
  function Erase(t: Term, r1: nat, c1: nat, r2: nat, c2: nat): (r: Term)
    requires TermOk(t)
    ensures TermOk(r)
  {
    t.(grid := Erased(t.grid, r1, c1, r2, c2, Color(t.fg, t.bg)))
  }

  /** ED (section 8.3.39 of ECMA-48): to the end, from the start, or everything with a full reset. */
  function EraseDisplay(t: Term, mode: int): (r: Term)
    requires TermOk(t)
    ensures TermOk(r)
  {
    if mode == 2 then Reset(t.rows, t.cols)
    else if mode == 0 then Erase(t, t.row, t.col, t.rows - 1, t.cols - 1)
    else if mode == 1 then Erase(t, 0, 0, t.row, t.col)
    else t
  }

  /** EL (section 8.3.41 of ECMA-48) */
  function EraseLine(t: Term, mode: int): (r: Term)
    requires TermOk(t)
    ensures TermOk(r)
  {
    if mode == 0 then Erase(t, t.row, t.col, t.row, t.cols - 1)
    else if mode == 1 then Erase(t, t.row, 0, t.row, t.col)
    else if mode == 2 then Erase(t, t.row, 0, t.row, t.cols - 1)
    else t
  }

  /** `ansi_execute_csi` */
  function Execute(t: Term, final: Byte): (r: Term)
    requires TermOk(t)
    ensures TermOk(r)
  {
    var first := ParamAt(t, 0, 1);
    var n := if first < 1 then 1 else first;
    if final == 0x6D then SgrAll(t, if t.params == [] then [0] else t.params)            // m
    else if final == 0x48 || final == 0x66 then                                           // H, f
      t.(row := ClampIndex(Wrap32(first - 1), t.rows),
         col := ClampIndex(Wrap32(ParamAt(t, 1, 1) - 1), t.cols))
    else if final == 0x41 then t.(row := if t.row > n then t.row - n else 0)              // A
    else if final == 0x42 then t.(row := Min(t.row + n, t.rows - 1))                      // B
    else if final == 0x43 then t.(col := Min(t.col + n, t.cols - 1))                      // C
    else if final == 0x44 then t.(col := if t.col > n then t.col - n else 0)              // D
    else if final == 0x4A then EraseDisplay(t, ParamAt(t, 0, 0))                          // J
    else if final == 0x4B then EraseLine(t, ParamAt(t, 0, 0))                             // K
    else if final == 0x73 then t.(savedRow := t.row, savedCol := t.col)                   // s
    else if final == 0x75 then t.(row := t.savedRow, col := t.savedCol)                   // u
    else t
  }

  // ---------------------------------------------------------------------
  // Bytes
  // ---------------------------------------------------------------------

  /** What an emission of the decoder puts on the screen. */
  function ShowEmit(t: Term, e: Emit): (r: Term)
    requires TermOk(t)
    ensures TermOk(r)
  {
    match e
    case Pending => t
    case Bad => Show(t, 0x3F)
    case Decoded(cp) => if cp == 0 then t else if cp <= 0x7F then Show(t, cp) else Show(t, 0x3F)
  }

  lemma FeedKeepsDecoderOk(d: Decoder, b: Byte)
    requires DecoderOk(d)
    ensures DecoderOk(Feed(d, b).0)
  {
  }

  /** `console_handle_ground_byte` */
  function GroundByte(t: Term, b: Byte): (r: Term)
    requires TermOk(t)
    ensures TermOk(r)
  {
    if b == 0x1B then t.(parser := Escape)
    else if b == 0x0A then NextRow(t.(col := 0))
    else if b == 0x0D then t.(col := 0)
    else if b == 0x08 then Backspace(t)
    else if b == 0x09 then ShowMany(t, 0x20, 4 - t.col % 4)
    else if b < 0x20 then t
    else if b < 0x80 then Show(t, b)
    else
      var (d, e) := Feed(t.utf8, b);
      FeedKeepsDecoderOk(t.utf8, b);
      ShowEmit(t.(utf8 := d), e)
  }

  /** `console_putc` */
  function PutByte(t: Term, b: Byte): (r: Term)
    requires TermOk(t)
    ensures TermOk(r)
  {
    match t.parser
    case Ground => GroundByte(t, b)
    case Escape =>
      if b == 0x5B then ResetParams(t.(parser := Csi)) else GroundByte(t.(parser := Ground), b)
    case Csi =>
      if 0x30 <= b <= 0x39 then t.(current := Wrap32(t.current * 10 + (b - 0x30)), active := true)
      else if b == 0x3B then PushParam(t)
      else if 0x40 <= b <= 0x7E then ResetParams(Execute(PushParam(t), b).(parser := Ground))
      else t.(parser := Ground)
  }

  function PutBytes(t: Term, bytes: seq<Byte>): (r: Term)
    requires TermOk(t)
    ensures TermOk(r)
    decreases |bytes|
  {
    if bytes == [] then t else PutBytes(PutByte(t, bytes[0]), bytes[1..])
  }

  /** Decimal digits, as console_write_dec prints them. */
  function Decimal(n: nat): seq<Byte> {
    if n < 10 then [0x30 + n] else Decimal(n / 10) + [0x30 + n % 10]
  }

  function NumberOf(digits: seq<Byte>): int {
    if digits == [] then 0 else 10 * NumberOf(digits[..|digits| - 1]) + (digits[|digits| - 1] as int - 0x30)
  }

  /** The digits are those of the number, without zeros in front. */
  lemma {:induction false} DecimalIsTheNumber(n: nat)
    ensures NumberOf(Decimal(n)) == n && forall i :: 0 <= i < |Decimal(n)| ==> 0x30 <= Decimal(n)[i] <= 0x39
    ensures Decimal(n) != [] && (Decimal(n)[0] == 0x30 <==> n == 0)
    decreases n
  {
    if n >= 10 {
      DecimalIsTheNumber(n / 10);
      assert Decimal(n)[..|Decimal(n)| - 1] == Decimal(n / 10);
    } else {
      assert Decimal(n)[..0] == [];
    }
  }

  lemma {:induction false} PutBytesSplit(t: Term, xs: seq<Byte>, ys: seq<Byte>)
    requires TermOk(t)
    ensures PutBytes(t, xs + ys) == PutBytes(PutBytes(t, xs), ys)
    decreases |xs|
  {
    if xs == [] {
      assert xs + ys == ys;
    } else {
      assert (xs + ys)[0] == xs[0] && (xs + ys)[1..] == xs[1..] + ys;
      PutBytesSplit(PutByte(t, xs[0]), xs[1..], ys);
    }
  }

  lemma PutHead(t: Term, b: Byte, rest: seq<Byte>)
    requires TermOk(t)
    ensures PutBytes(t, [b] + rest) == PutBytes(PutByte(t, b), rest)
  {
    assert ([b] + rest)[1..] == rest;
  }

  lemma PutOne(t: Term, b: Byte)
    requires TermOk(t)
    ensures PutBytes(t, [b]) == PutByte(t, b)
  {
    assert [b][1..] == [];
  }
}
