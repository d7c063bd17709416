/** The console as it runs (kernel/src/core/console.c), on either backend. */
module Consoles {
  import opened Common
  import opened Utf8
  import opened Terminal
  import opened Screens

  class Console {
    const screen: Screen
    var row: nat
    var col: nat
    var savedRow: nat
    var savedCol: nat
    var fg: nat
    var bg: nat
    var parser: Parser
    const params: array<int>
    var paramCount: nat
    var current: int
    var active: bool
    var utf8: Decoder

    ghost predicate Shape()
      reads this
    {
      params.Length == MAX_PARAMS && paramCount <= MAX_PARAMS
    }

    ghost function View(): Term
      requires Shape()
      reads this, params, screen
    {
      Term(screen.cols, screen.rows, row, col, savedRow, savedCol, fg, bg,
           parser, params[..paramCount], current, active, utf8, screen.grid)
    }

    ghost predicate Valid()
      reads this, params, screen, screen.vga, screen.cells, screen.colors, screen.pixels
    {
      Shape() && screen.Valid() && TermOk(View())
    }

    /** `console_init` on a VGA screen. */
    constructor (screen: Screen)
      requires screen.Shape() && screen.backend.Vga?
      modifies screen`grid, screen.vga, screen.cells, screen.colors, screen.pixels
      ensures this.screen == screen && fresh(params)
      ensures Valid() && View() == Reset(screen.rows, screen.cols)
    {
      this.screen := screen;
      params := new int[MAX_PARAMS](_ => 0);
      row, col, savedRow, savedCol, fg, bg := 0, 0, 0, 0, 15, 0;
      parser, paramCount, current, active, utf8 := Ground, 0, 0, false, READY;
      new;
      ClearScreen();
    }

    method ScrollIfNeeded()
      requires Shape() && screen.Valid() && fg < 16 && bg < 16 && row <= screen.rows
      modifies this`row, screen`grid, screen.vga, screen.cells, screen.colors, screen.pixels
      ensures screen.Valid()
      ensures View() == if old(row) < screen.rows then old(View())
                        else old(View()).(row := screen.rows - 1,
                                          grid := Scrolled(old(screen.grid), screen.cols, Color(fg, bg)))
    {
      var color := Color(fg, bg);
      if row < screen.rows {
        return;
      }
      screen.ScrollUp(color);
      row := screen.rows - 1;
    }

    /** `raw_newline` */
    method RawNewline()
      requires Valid()
      modifies this`row, this`col, screen`grid, screen.vga, screen.cells, screen.colors, screen.pixels
      ensures Valid() && View() == NextRow(old(View()).(col := 0))
    {
      col := 0;
      row := row + 1;
      ScrollIfNeeded();
    }

    /** The cursor moves on after a character. */
    method Advance()
      requires Valid()
      modifies this`row, this`col, screen`grid, screen.vga, screen.cells, screen.colors, screen.pixels
      ensures Valid()
      ensures View() == if old(col) + 1 < screen.cols then old(View()).(col := old(col) + 1)
                        else NextRow(old(View()).(col := 0))
    {
      if col + 1 >= screen.cols {
        RawNewline();
        return;
      }
      col := col + 1;
      ScrollIfNeeded();
    }

    /**
     `raw_put_visible`: the character is on display where the cursor was, or a
     row higher if that was the last position of the screen.
     */
    method PutVisible(c: Byte)
      requires Valid() && c < 0x80
      modifies this`row, this`col, screen`grid, screen.vga, screen.cells, screen.colors, screen.pixels
      ensures Valid() && View() == Show(old(View()), c)
      ensures
        var r: int := if old(row) + 1 == screen.rows && old(col) + 1 == screen.cols then old(row) - 1 else old(row);
        r >= 0 ==> screen.Displays(r, old(col), c, fg, bg)
    {
      screen.PutCell(row, col, c, Color(fg, bg));
      Advance();
      ShownIsDisplayed(old(View()), c);
    }

    lemma ShownIsDisplayed(t: Term, c: Byte)
      requires Valid() && TermOk(t) && c < 0x80 && View() == Show(t, c)
      ensures
        var r: int := if t.row + 1 == t.rows && t.col + 1 == t.cols then t.row - 1 else t.row;
        r >= 0 ==> screen.Displays(r, t.col, c, t.fg, t.bg)
    {
      var r: int := if t.row + 1 == t.rows && t.col + 1 == t.cols then t.row - 1 else t.row;
      if r >= 0 {
        ShownCell(t, c, r);
        screen.GridIsDisplayed(r, t.col);
      }
    }

    /** `console_backspace` */
    method EraseBack()
      requires Valid()
      modifies this`row, this`col, screen`grid, screen.vga, screen.cells, screen.colors, screen.pixels
      ensures Valid() && View() == Backspace(old(View()))
    {
      if col == 0 && row == 0 {
        return;
      }
      if col == 0 {
        row := row - 1;
        col := screen.cols - 1;
      } else {
        col := col - 1;
      }
      screen.PutCell(row, col, 0x20, Color(fg, bg));
    }

    /** `ansi_reset_params` */
    method ResetParameters()
      requires Shape()
      modifies this`paramCount, this`current, this`active
      ensures paramCount == 0 && current == 0 && !active
    {
      paramCount, current, active := 0, 0, false;
    }

    /** Everything `console_clear` resets besides the cells. */
    method ResetState()
      requires Shape()
      modifies this
      ensures Shape() && View() == Reset(screen.rows, screen.cols).(grid := screen.grid)
    {
      fg, bg := 15, 0;
      parser := Ground;
      ResetParameters();
      utf8 := READY;
      row, col, savedRow, savedCol := 0, 0, 0, 0;
      assert params[..0] == [];
    }

    /** `console_clear`, also the first thing done on a new backend. */
    method ClearScreen()
      requires Shape() && screen.Shape() && (screen.backend.Framebuffer? ==> screen.MarginsUntouched())
      modifies this, screen`grid, screen.vga, screen.cells, screen.colors, screen.pixels
      ensures Valid() && View() == Reset(screen.rows, screen.cols)
    {
      ResetState();
      screen.ClearAll(Color(fg, bg));
    }

    /** `console_enable_framebuffer` */
    method EnableFramebuffer(info: FramebufferInfo, mem: array<nat>) returns (ok: bool)
      requires Valid() && mem != screen.vga
      requires info.Usable() ==> info.LinesHoldText() && mem.Length == info.pitch / 4 * info.height
      modifies this, screen, screen.vga, screen.cells, screen.colors, mem
      ensures Valid() && ok == info.Usable()
      ensures !ok ==> View() == old(View())
      ensures ok ==>
        && screen.backend.Framebuffer? && screen.pixels == mem && screen.base == old(mem[..])
        && screen.width == info.width && screen.height == info.height && screen.pitch == info.pitch / 4
        && View() == Reset(info.Rows(), info.Cols())
    {
      ok := screen.TakeFramebuffer(info, mem);
      if ok {
        ClearScreen();
      }
    }

    /** `clear_line_range`, with its clamps. */
    method ClearLineRange(r: nat, colStart: nat, colEnd: nat)
      requires Valid()
      modifies screen`grid, screen.vga, screen.cells, screen.colors, screen.pixels
      ensures Valid()
      ensures
        var from, to := Min(colStart, screen.cols - 1), Min(colEnd, screen.cols - 1);
        View() == if r < screen.rows && from <= to then Erase(old(View()), r, from, r, to) else old(View())
    {
      var color := Color(fg, bg);
      if r >= screen.rows {
        return;
      }
      var from, to := colStart, colEnd;
      if from >= screen.cols {
        from := screen.cols - 1;
      }
      if to >= screen.cols {
        to := screen.cols - 1;
      }
      if from > to {
        return;
      }
      BlankCells(r, from, to, color);
    }

    method BlankCells(r: nat, from: nat, to: nat, color: Byte)
      requires screen.Valid() && r < screen.rows && from <= to < screen.cols
      modifies screen`grid, screen.vga, screen.cells, screen.colors, screen.pixels
      ensures screen.Valid() && screen.grid == Erased(old(screen.grid), r, from, r, to, color)
    {
      ghost var g := screen.grid;
      for x := from to to + 1
        invariant screen.Valid()
        invariant screen.grid == if x == from then g else Erased(g, r, from, r, x - 1, color)
      {
        screen.PutCell(r, x, 0x20, color);
        EraseOneMore(g, r, from, x, color);
      }
    }

    /** `clear_line_range` for a range inside the screen. */
    method ClearInside(r: nat, from: nat, to: nat)
      requires Valid() && r < screen.rows && from <= to < screen.cols
      modifies screen`grid, screen.vga, screen.cells, screen.colors, screen.pixels
      ensures Valid() && View() == Erase(old(View()), r, from, r, to)
    {
      ClearLineRange(r, from, to);
    }

    /** One more row, up to column c2, joins what was erased from (r1, c1) on. */
    method EraseNextRow(ghost t: Term, ghost r1: nat, ghost c1: nat, y: nat, c2: nat)
      requires Valid() && TermOk(t) && r1 < y < screen.rows && c1 < screen.cols && c2 < screen.cols
      requires View() == Erase(t, r1, c1, y - 1, t.cols - 1)
      modifies screen`grid, screen.vga, screen.cells, screen.colors, screen.pixels
      ensures Valid() && View() == Erase(t, r1, c1, y, c2)
    {
      EraseJoin(t, r1, c1, y, c2);
      ClearInside(y, 0, c2);
    }

    /** The loops of ED over whole rows: reading order makes the pieces one range from (r1, c1). */
    method EraseRows(ghost t: Term, ghost r1: nat, ghost c1: nat, first: nat, stop: nat)
      requires Valid() && TermOk(t) && r1 < first <= stop <= screen.rows && c1 < screen.cols
      requires View() == Erase(t, r1, c1, first - 1, t.cols - 1)
      modifies screen`grid, screen.vga, screen.cells, screen.colors, screen.pixels
      ensures Valid() && View() == Erase(t, r1, c1, stop - 1, t.cols - 1)
    {
      for y := first to stop
        invariant Valid() && View() == Erase(t, r1, c1, y - 1, t.cols - 1)
      {
        EraseNextRow(t, r1, c1, y, screen.cols - 1);
      }
    }

    method EraseBelow()
      requires Valid()
      modifies screen`grid, screen.vga, screen.cells, screen.colors, screen.pixels
      ensures Valid() && View() == EraseDisplay(old(View()), 0)
    {
      ghost var t := View();
      ClearInside(row, col, screen.cols - 1);
      EraseRows(t, t.row, t.col, row + 1, screen.rows);
    }

    method EraseAbove()
      requires Valid()
      modifies screen`grid, screen.vga, screen.cells, screen.colors, screen.pixels
      ensures Valid() && View() == EraseDisplay(old(View()), 1)
    {
      ghost var t := View();
      if row == 0 {
        ClearInside(0, 0, col);
        return;
      }
      ClearInside(0, 0, screen.cols - 1);
      EraseRows(t, 0, 0, 1, row);
      EraseNextRow(t, 0, 0, row, col);
    }

    /** `ansi_sgr_apply` */
    method SgrApply(code: int)
      requires Valid()
      modifies this`fg, this`bg
      ensures Valid() && View() == Sgr(old(View()), code)
    {
      if code == 0 {
        fg, bg := 15, 0;
      } else if code == 1 {
        if fg < 8 {
          fg := fg + 8;
        }
      } else if code == 22 {
        if fg >= 8 {
          fg := fg - 8;
        }
      } else if 30 <= code <= 37 {
        fg := AnsiColor(code - 30, false);
      } else if 90 <= code <= 97 {
        fg := AnsiColor(code - 90, true);
      } else if code == 39 {
        fg := 15;
      } else if 40 <= code <= 47 {
        bg := AnsiColor(code - 40, false);
      } else if 100 <= code <= 107 {
        bg := AnsiColor(code - 100, true);
      } else if code == 49 {
        bg := 0;
      }
    }

    /** The `m` loop over the parameters. */
    method SgrLoop()
      requires Valid()
      modifies this`fg, this`bg
      ensures Valid() && View() == SgrAll(old(View()), if old(View()).params == [] then [0] else old(View()).params)
    {
      ghost var t := View();
      if paramCount == 0 {
        SgrApply(0);
        assert [0][1..] == [];
        return;
      }
      ghost var codes := params[..paramCount];
      for i := 0 to paramCount
        invariant Valid()
        invariant SgrAll(View(), codes[i..]) == SgrAll(t, codes)
      {
        assert codes[i..][0] == params[i] && codes[i..][1..] == codes[i + 1..];
        SgrApply(params[i]);
      }
      assert codes[paramCount..] == [];
    }

    /** `ansi_push_current_param` */
    method PushParameter()
      requires Valid()
      modifies this`paramCount, this`current, this`active, params
      ensures Valid() && View() == PushParam(old(View()))
    {
      if !active && paramCount == 0 {
        return;
      }
      if paramCount < MAX_PARAMS {
        ghost var before := params[..paramCount];
        params[paramCount] := if active then current else 0;
        paramCount := paramCount + 1;
        assert params[..paramCount] == before + [params[paramCount - 1]];
      }
      current, active := 0, false;
    }

    /** `ansi_param_at` */
    method Param(i: nat, fallback: int) returns (v: int)
      requires Shape()
      ensures v == ParamAt(View(), i, fallback)
    {
      if i >= paramCount {
        return fallback;
      }
      return params[i];
    }

    /** `J` */
    method ExecuteErase(mode: int)
      requires Valid()
      modifies this, screen`grid, screen.vga, screen.cells, screen.colors, screen.pixels
      ensures Valid() && View() == EraseDisplay(old(View()), mode)
    {
      if mode == 2 {
        MarginsStay();
        ClearScreen();
      } else if mode == 0 {
        EraseBelow();
      } else if mode == 1 {
        EraseAbove();
      }
    }

    lemma MarginsStay()
      requires Valid()
      ensures screen.backend.Framebuffer? ==> screen.MarginsUntouched()
    {
    }

    /** `K` */
    method ExecuteEraseLine(mode: int)
      requires Valid()
      modifies screen`grid, screen.vga, screen.cells, screen.colors, screen.pixels
      ensures Valid() && View() == EraseLine(old(View()), mode)
    {
      if mode == 0 {
        ClearInside(row, col, screen.cols - 1);
      } else if mode == 1 {
        ClearInside(row, 0, col);
      } else if mode == 2 {
        ClearInside(row, 0, screen.cols - 1);
      }
    }

    /** `H` and `f`: parameters minus one, converted to `size_t` and clamped. */
    method MoveTo(r: int, c: int)
      requires Valid()
      modifies this`row, this`col
      ensures Valid()
      ensures View() == old(View()).(row := ClampIndex(Wrap32(r - 1), screen.rows),
                                     col := ClampIndex(Wrap32(c - 1), screen.cols))
    {
      var r1 := AsSize(Wrap32(r - 1));
      var c1 := AsSize(Wrap32(c - 1));
      SizeClamps(Wrap32(r - 1), screen.rows);
      SizeClamps(Wrap32(c - 1), screen.cols);
      if r1 >= screen.rows {
        r1 := screen.rows - 1;
      }
      if c1 >= screen.cols {
        c1 := screen.cols - 1;
      }
      row, col := r1, c1;
    }

    /** The cursor motions, with a count of at least one. */
    method MoveBy(final: Byte, n: int)
      requires Valid() && n >= 1 && 0x41 <= final <= 0x44
      modifies this`row, this`col
      ensures Valid()
      ensures View() == if final == 0x41 then old(View()).(row := if old(row) > n then old(row) - n else 0)
                        else if final == 0x42 then old(View()).(row := Min(old(row) + n, screen.rows - 1))
                        else if final == 0x43 then old(View()).(col := Min(old(col) + n, screen.cols - 1))
                        else old(View()).(col := if old(col) > n then old(col) - n else 0)
    {
      if final == 0x41 {
        row := if row > n then row - n else 0;
      } else if final == 0x42 {
        row := row + n;
        if row >= screen.rows {
          row := screen.rows - 1;
        }
      } else if final == 0x43 {
        col := col + n;
        if col >= screen.cols {
          col := screen.cols - 1;
        }
      } else {
        col := if col > n then col - n else 0;
      }
    }

    /** `u`: the saved cursor always lies on the screen, so the source's clamps find nothing to do. */
    method Restore()
      requires Valid()
      modifies this`row, this`col
      ensures Valid() && View() == old(View()).(row := old(savedRow), col := old(savedCol))
    {
      row, col := savedRow, savedCol;
      row := ClampBelow(row, screen.rows);
      col := ClampBelow(col, screen.cols);
    }

    /** `ansi_execute_csi` */
    method ExecuteCsi(final: Byte)
      requires Valid()
      modifies this, screen`grid, screen.vga, screen.cells, screen.colors, screen.pixels
      ensures Valid() && View() == Execute(old(View()), final)
    {
      if final == 0x6D {
        SgrLoop();
        return;
      }
      var first := Param(0, 1);
      if final == 0x48 || final == 0x66 {
        var second := Param(1, 1);
        MoveTo(first, second);
        return;
      }
      var n := first;
      if n < 1 {
        n := 1;
      }
      if 0x41 <= final <= 0x44 {
        MoveBy(final, n);
      } else {
        ExecuteRest(final);
      }
    }

    /** The cases of the switch from `J` on. */
    method ExecuteRest(final: Byte)
      requires Valid() && final != 0x6D && final != 0x48 && final != 0x66 && !(0x41 <= final <= 0x44)
      modifies this, screen`grid, screen.vga, screen.cells, screen.colors, screen.pixels
      ensures Valid() && View() == Execute(old(View()), final)
    {
      if final == 0x4A {
        var mode := Param(0, 0);
        ExecuteErase(mode);
      } else if final == 0x4B {
        var mode := Param(0, 0);
        ExecuteEraseLine(mode);
      } else if final == 0x73 {
        savedRow, savedCol := row, col;
      } else if final == 0x75 {
        Restore();
      }
    }

    /** `console_emit_codepoint` */
    method EmitCodepoint(cp: nat)
      requires Valid()
      modifies this`row, this`col, screen`grid, screen.vga, screen.cells, screen.colors, screen.pixels
      ensures Valid() && View() == ShowEmit(old(View()), Decoded(cp))
    {
      if cp == 0 {
        return;
      }
      if cp <= 0x7F {
        PutVisible(cp);
        return;
      }
      PutVisible(0x3F);
    }

    /** `console_emit_utf8_byte` between sequences. */
    method StartSequence(b: Byte)
      requires Valid() && b >= 0x80 && utf8.needed == 0
      modifies this`row, this`col, this`utf8, screen`grid, screen.vga, screen.cells, screen.colors, screen.pixels
      ensures Valid()
      ensures View() == ShowEmit(old(View()).(utf8 := Feed(old(utf8), b).0), Feed(old(utf8), b).1)
    {
      FeedKeepsDecoderOk(utf8, b);
      if 0xC0 <= b < 0xE0 {
        utf8 := Decoder(b - 0xC0, 1, 1);
        return;
      }
      if 0xE0 <= b < 0xF0 {
        utf8 := Decoder(b - 0xE0, 2, 2);
        return;
      }
      if 0xF0 <= b < 0xF8 {
        utf8 := Decoder(b - 0xF0, 3, 3);
        return;
      }
      EmitCodepoint(0x3F);
    }

    /** Which completed values `console_emit_utf8_byte` accepts, test by test. */
    static method Check(total: nat, cp: nat) returns (valid: bool)
      ensures valid == Acceptable(total, cp)
    {
      valid := true;
      if total == 1 && cp < 0x80 {
        valid := false;
      }
      if total == 2 && cp < 0x800 {
        valid := false;
      }
      if total == 3 && cp < 0x1_0000 {
        valid := false;
      }
      if cp > 0x10FFFF || 0xD800 <= cp <= 0xDFFF {
        valid := false;
      }
    }

    /** `console_emit_utf8_byte` inside a sequence. */
    method ContinueSequence(b: Byte)
      requires Valid() && b >= 0x80 && utf8.needed > 0
      modifies this`row, this`col, this`utf8, screen`grid, screen.vga, screen.cells, screen.colors, screen.pixels
      ensures Valid()
      ensures View() == ShowEmit(old(View()).(utf8 := Feed(old(utf8), b).0), Feed(old(utf8), b).1)
    {
      FeedKeepsDecoderOk(utf8, b);
      if !(0x80 <= b < 0xC0) {
        utf8 := READY;
        EmitCodepoint(0x3F);
        return;
      }
      var cp: nat := utf8.codepoint * 64 + (b - 0x80);
      var total := utf8.total;
      if utf8.needed > 1 {
        utf8 := Decoder(cp, utf8.needed - 1, total);
        return;
      }
      var valid := Check(total, cp);
      utf8 := READY;
      EmitCodepoint(if valid then cp else 0x3F);
    }

    /** `console_emit_utf8_byte`, for a byte at or above 0x80. */
    method EmitUtf8Byte(b: Byte)
      requires Valid() && b >= 0x80
      modifies this`row, this`col, this`utf8, screen`grid, screen.vga, screen.cells, screen.colors, screen.pixels
      ensures Valid()
      ensures View() == ShowEmit(old(View()).(utf8 := Feed(old(utf8), b).0), Feed(old(utf8), b).1)
    {
      if utf8.needed == 0 {
        StartSequence(b);
      } else {
        ContinueSequence(b);
      }
    }

    /** The tab loop: spaces up to the next multiple of four, wrapping and scrolling as they go. */
    method PutSpaces(n: nat)
      requires Valid()
      modifies this`row, this`col, screen`grid, screen.vga, screen.cells, screen.colors, screen.pixels
      ensures Valid() && View() == ShowMany(old(View()), 0x20, n)
    {
      ghost var t := View();
      for i := 0 to n
        invariant Valid() && ShowMany(View(), 0x20, n - i) == ShowMany(t, 0x20, n)
      {
        PutVisible(0x20);
      }
    }

    /** `console_handle_ground_byte` */
    method HandleGround(b: Byte)
      requires Valid()
      modifies this, screen`grid, screen.vga, screen.cells, screen.colors, screen.pixels
      ensures Valid() && View() == GroundByte(old(View()), b)
    {
      if b == 0x1B {
        parser := Escape;
        return;
      }
      if b == 0x0A {
        RawNewline();
        return;
      }
      if b == 0x0D {
        col := 0;
        return;
      }
      if b == 0x08 {
        EraseBack();
        return;
      }
      if b == 0x09 {
        PutSpaces(4 - col % 4);
        return;
      }
      if b < 0x20 {
        return;
      }
      if b < 0x80 {
        PutVisible(b);
        return;
      }
      EmitUtf8Byte(b);
    }

    /** The CSI state of `console_putc`. */
    method HandleCsi(b: Byte)
      requires Valid() && parser.Csi?
      modifies this, params, screen`grid, screen.vga, screen.cells, screen.colors, screen.pixels
      ensures Valid() && View() == PutByte(old(View()), b)
    {
      if 0x30 <= b <= 0x39 {
        current := Wrap32(current * 10 + (b as int - 0x30));
        active := true;
        return;
      }
      if b == 0x3B {
        PushParameter();
        return;
      }
      if 0x40 <= b <= 0x7E {
        FinishCsi(b);
        return;
      }
      parser := Ground;
    }

    /** A final byte: store the last parameter, execute, return to ground state. */
    method FinishCsi(b: Byte)
      requires Valid()
      modifies this, params, screen`grid, screen.vga, screen.cells, screen.colors, screen.pixels
      ensures Valid() && View() == ResetParams(Execute(PushParam(old(View())), b).(parser := Ground))
    {
      PushParameter();
      ExecuteCsi(b);
      parser := Ground;
      ResetParameters();
      assert params[..0] == [];
    }

    /** `console_putc`: on both backends the same function of what was on display. */
    method PutC(b: Byte)
      requires Valid()
      modifies this, params, screen`grid, screen.vga, screen.cells, screen.colors, screen.pixels
      ensures Valid() && View() == PutByte(old(View()), b)
    {
      if parser.Ground? {
        HandleGround(b);
        return;
      }
      if parser.Escape? {
        if b == 0x5B {
          parser := Csi;
          ResetParameters();
          assert params[..0] == [];
          return;
        }
        parser := Ground;
        HandleGround(b);
        return;
      }
      HandleCsi(b);
    }

    /** `console_write` */
    method Write(s: seq<Byte>)
      requires Valid()
      modifies this, params, screen`grid, screen.vga, screen.cells, screen.colors, screen.pixels
      ensures Valid() && View() == PutBytes(old(View()), s)
    {
      ghost var t := View();
      for i := 0 to |s|
        invariant Valid() && PutBytes(View(), s[i..]) == PutBytes(t, s)
      {
        assert s[i..][0] == s[i] && s[i..][1..] == s[i + 1..];
        PutC(s[i]);
      }
      assert s[|s|..] == [];
    }

    /** `console_write_dec`: digits collected from the low end, then printed from the high end. */
    method WriteDec(number: Word)
      requires Valid()
      modifies this, params, screen`grid, screen.vga, screen.cells, screen.colors, screen.pixels
      ensures Valid() && View() == PutBytes(old(View()), Decimal(number))
    {
      if number == 0 {
        PutOne(View(), 0x30);
        PutC(0x30);
        return;
      }
      var digits := CollectDigits(number);
      WriteBackwards(digits);
    }

    /** The second loop of `console_write_dec`. */
    method WriteBackwards(digits: seq<Byte>)
      requires Valid()
      modifies this, params, screen`grid, screen.vga, screen.cells, screen.colors, screen.pixels
      ensures Valid() && View() == PutBytes(old(View()), Backwards(digits))
    {
      ghost var t := View();
      assert digits[..|digits|] == digits;
      var i := |digits|;
      while i > 0
        invariant 0 <= i <= |digits| && Valid()
        invariant PutBytes(View(), Backwards(digits[..i])) == PutBytes(t, Backwards(digits))
      {
        i := i - 1;
        assert digits[..i + 1][..i] == digits[..i];
        PutHead(View(), digits[i], Backwards(digits[..i]));
        PutC(digits[i]);
      }
      assert digits[..0] == [];
    }

    /** The first loop of `console_write_dec`; its buffer of 21 bytes never fills up. */
    static method CollectDigits(number: Word) returns (digits: seq<Byte>)
      requires number > 0
      ensures |digits| <= 20 && Backwards(digits) == Decimal(number)
    {
      var buf := new Byte[21](_ => 0);
      var i, value: nat := 0, number;
      TwentyDigits();
      assert Decimal(number) == DigitsLeft(value) + Backwards(buf[..0]);
      while value > 0 && i < 21
        invariant 0 <= i <= 20 && value < Pow10(20 - i)
        invariant Decimal(number) == DigitsLeft(value) + Backwards(buf[..i])
        decreases 21 - i
      {
        OneDigit(value, buf[..i]);
        buf[i] := 0x30 + value % 10;
        assert buf[..i + 1] == buf[..i] + [0x30 + value % 10];
        value := value / 10;
        i := i + 1;
      }
      digits := buf[..i];
    }
  }

  /** Where a character that was shown ends up. */
  lemma ShownCell(t: Term, c: Byte, r: nat)
    requires TermOk(t) && c < 0x80
    requires r == if t.row + 1 == t.rows && t.col + 1 == t.cols then t.row - 1 else t.row
    ensures r < t.rows && Show(t, c).grid[r][t.col].ch == c
    ensures Show(t, c).grid[r][t.col].color % 16 == t.fg && Show(t, c).grid[r][t.col].color / 16 == t.bg
  {
  }

  function Backwards(s: seq<Byte>): seq<Byte> {
    if s == [] then [] else [s[|s| - 1]] + Backwards(s[..|s| - 1])
  }

  lemma BackwardsLast(s: seq<Byte>, b: Byte)
    ensures Backwards(s + [b]) == [b] + Backwards(s)
  {
    assert (s + [b])[..|s|] == s;
  }

  function Pow10(n: nat): nat {
    if n == 0 then 1 else 10 * Pow10(n - 1)
  }

  /** 20 digits hold any 64-bit value. */
  lemma TwentyDigits()
    ensures Pow10(20) >= TWO64
  {
    assert Pow10(4) == 1_0000;
    assert Pow10(8) == 1_0000_0000;
    assert Pow10(12) == 1_0000_0000_0000;
    assert Pow10(16) == 1_0000_0000_0000_0000;
  }

  /** The digits still to produce, none for zero. */
  function DigitsLeft(n: nat): seq<Byte> {
    if n == 0 then [] else Decimal(n)
  }

  lemma OneDigit(n: nat, low: seq<Byte>)
    requires n > 0
    ensures DigitsLeft(n / 10) + Backwards(low + [0x30 + n % 10]) == DigitsLeft(n) + Backwards(low)
  {
    var digit := 0x30 + n % 10;
    BackwardsLast(low, digit);
    var high := DigitsLeft(n / 10);
    assert DigitsLeft(n) == high + [digit];
    assert high + ([digit] + Backwards(low)) == (high + [digit]) + Backwards(low);
  }

  /** An `int` converted to `size_t`. */
  function AsSize(v: int): nat {
    v % TWO64
  }

  /** A negative value becomes a huge size, so the clamp sends it to the last index. */
  lemma SizeClamps(v: int, limit: nat)
    requires -0x8000_0000 <= v < 0x8000_0000 && 0 < limit <= 0x8000_0000
    ensures (if AsSize(v) >= limit then limit - 1 else AsSize(v)) == ClampIndex(v, limit)
  {
    if v >= 0 {
      DivModUnique(0, TWO64, v);
    } else {
      DivModUnique(-1, TWO64, v + TWO64);
    }
  }

  function ClampBelow(i: nat, limit: nat): nat
    requires limit > 0
  {
    if i >= limit then limit - 1 else i
  }

  /** Erasing up to the end of a row and then a part of the next is one erasure. */
  lemma EraseJoin(t: Term, r1: nat, c1: nat, y: nat, c2: nat)
    requires TermOk(t) && r1 < y < t.rows && c1 < t.cols && c2 < t.cols
    ensures Erase(Erase(t, r1, c1, y - 1, t.cols - 1), y, 0, y, c2) == Erase(t, r1, c1, y, c2)
  {
    var g, color := t.grid, Color(t.fg, t.bg);
    var inner := Erased(g, r1, c1, y - 1, t.cols - 1, color);
    var outer := Erased(inner, y, 0, y, c2, color);
    var want := Erased(g, r1, c1, y, c2, color);
    forall r | 0 <= r < |g| ensures outer[r] == want[r] {
      forall c | 0 <= c < t.cols ensures outer[r][c] == want[r][c] {
        assert inner[r][c] ==
               if NotAfter(r1, c1, r, c) && NotAfter(r, c, y - 1, t.cols - 1) then Blank(color) else g[r][c];
      }
    }
  }

  /** Erasing a row's range cell by cell. */
  lemma EraseOneMore(g: Grid, r: nat, from: nat, x: nat, color: Byte)
    requires r < |g| && from <= x < |g[r]|
    ensures
      SetCell(if x == from then g else Erased(g, r, from, r, x - 1, color), r, x, Blank(color))
      == Erased(g, r, from, r, x, color)
  {
    var before := if x == from then g else Erased(g, r, from, r, x - 1, color);
    var after := SetCell(before, r, x, Blank(color));
    var want := Erased(g, r, from, r, x, color);
    forall r' | 0 <= r' < |g| ensures after[r'] == want[r'] {
      forall c' | 0 <= c' < |g[r']| ensures after[r'][c'] == want[r'][c'] {
      }
    }
  }
}
