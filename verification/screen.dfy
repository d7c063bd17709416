/**
 The two display backends of kernel/src/core/console.c: the VGA text buffer,
 and a grid of cells drawn glyph by glyph into a linear framebuffer.
 */
module Screens {
  import opened Common
  import opened Layout
  import opened Terminal

  const GLYPH_WIDTH := 8
  const GLYPH_HEIGHT := 16
  const FB_MAX_ROWS := 100
  const FB_MAX_COLS := 160

  datatype Backend = Vga | Framebuffer

  /** Any 128-glyph font of 8 rows, and any palette of 16 colours. */
  datatype Style = Style(font: seq<seq<Byte>>, palette: seq<nat>) {
    predicate Valid() {
      |font| == 128 && |palette| == 16 && forall g :: 0 <= g < 128 ==> |font[g]| == 8
    }
  }

  /** `vga_entry`: the character is a signed `char`, so from 0x80 on its sign bits would cover the colour. */
  function VgaEntry(cell: Cell): nat {
    if cell.ch < 0x80 then cell.ch + cell.color * 0x100 else 0xFF00 + cell.ch
  }

  /** For a 7-bit character the low byte is the character and the high byte the attribute. */
  lemma VgaEntryFields(cell: Cell)
    requires cell.ch < 0x80
    ensures VgaEntry(cell) % 0x100 == cell.ch && VgaEntry(cell) / 0x100 == cell.color
  {
    DivModUnique(cell.color, 0x100, cell.ch);
  }

  /** The colour of pixel (gx, gy) inside a cell: foreground where the font bit is set, background elsewhere. */
  function Ink(style: Style, cell: Cell, gx: nat, gy: nat): nat
    requires style.Valid() && gx < GLYPH_WIDTH && gy < GLYPH_HEIGHT
  {
    var glyph := if cell.ch >= 128 then 0x3F else cell.ch;
    style.palette[if TestBit(style.font[glyph][gy / 2], gx) then cell.color % 16 else cell.color / 16]
  }

  /** A pixel position and its place inside a cell determine each other. */
  lemma GlyphPixel(row: nat, col: nat, gy: nat, gx: nat, pitch: nat)
    requires gy < 16 && gx < 8
    ensures forall y: nat, x: nat {:trigger At(y, x, pitch)} ::
      y == row * 16 + gy && x == col * 8 + gx <==> y / 16 == row && y % 16 == gy && x / 8 == col && x % 8 == gx
  {
  }

  /** The pixel at column x of row y when the grid g is on display over what was there before. */
  function Picture(style: Style, g: Grid, rows: nat, cols: nat, base: seq<nat>, pitch: nat, y: nat, x: nat): nat
    requires style.Valid() && GridOk(g, rows, cols) && At(y, x, pitch) < |base|
  {
    if y < rows * 16 && x < cols * 8 then Ink(style, g[y / 16][x / 8], x % 8, y % 16) else base[At(y, x, pitch)]
  }

  /** The part of `video_framebuffer_info_t` the console looks at. */
  datatype FramebufferInfo = FramebufferInfo(present: bool, mapped: bool, rgb: bool, bpp: nat,
                                             width: nat, height: nat, pitch: nat) {
    predicate Usable() {
      present && mapped && rgb && bpp == 32 && width >= 8 && height >= 16 && pitch >= 4 && pitch % 4 == 0
    }

    function Cols(): nat { Min(width / 8, FB_MAX_COLS) }
    function Rows(): nat { Min(height / 16, FB_MAX_ROWS) }

    /** A scan line is long enough for the text columns, which the code does not check. */
    predicate LinesHoldText() {
      Cols() * 8 <= pitch / 4
    }
  }

  /** Two pixels of the text area share a memory word exactly when a scan line is too short for the text columns. */
  lemma TextPixelsAreDistinctIff(cols: nat, rows: nat, pitch: nat)
    requires cols > 0 && rows > 0
    ensures
      (forall y: nat, x: nat, y': nat, x': nat ::
        y < rows * 16 && y' < rows * 16 && x < cols * 8 && x' < cols * 8 && At(y, x, pitch) == At(y', x', pitch) ==>
        y == y' && x == x')
      <==> cols * 8 <= pitch
  {
    if cols * 8 <= pitch {
      AtIsInjective(rows * 16, pitch);
    } else {
      AtIsLinear(0, pitch, pitch);
      AtIsLinear(1, 0, pitch);
      assert At(0, pitch, pitch) == At(1, 0, pitch);
    }
  }

  class Screen {
    const style: Style
    var backend: Backend
    var rows: nat
    var cols: nat
    const vga: array<nat>
    const cells: array2<Byte>
    const colors: array2<Byte>
    var pixels: array<nat>
    var width: nat
    var height: nat
    var pitch: nat
    /** What is on display. */
    ghost var grid: Grid
    /** The framebuffer's content when it was taken into use. */
    ghost var base: seq<nat>

    ghost predicate Shape()
      reads this
    {
      && style.Valid() && 0 < rows <= FB_MAX_ROWS && 0 < cols <= FB_MAX_COLS
      && cells.Length0 == FB_MAX_ROWS && cells.Length1 == FB_MAX_COLS
      && colors.Length0 == FB_MAX_ROWS && colors.Length1 == FB_MAX_COLS
      && cells != colors && pixels != vga
      && match backend
         case Vga => vga.Length == rows * cols
         case Framebuffer =>
           && cols * 8 <= width && cols * 8 <= pitch && rows * 16 <= height
           && pixels.Length == pitch * height && |base| == pitch * height
    }

    /** The VGA buffer holds the grid, row by row. */
    ghost predicate VgaShows()
      reads this, vga
    {
      && GridOk(grid, rows, cols)
      && forall r: nat, c: nat {:trigger At(r, c, cols)} :: r < rows && c < cols ==>
           At(r, c, cols) < vga.Length && vga[At(r, c, cols)] == VgaEntry(grid[r][c])
    }

    /** The shadow arrays hold the grid. */
    ghost predicate CellsShow()
      requires Shape() && backend.Framebuffer?
      reads this, cells, colors
    {
      && GridOk(grid, rows, cols)
      && forall r, c :: 0 <= r < rows && 0 <= c < cols ==> Cell(cells[r, c], colors[r, c]) == grid[r][c]
    }

    /** Each pixel of the text area is what font and cell dictate; every other pixel is untouched. */
    ghost predicate PixelsShow()
      requires Shape() && backend.Framebuffer? && GridOk(grid, rows, cols)
      reads this, pixels
    {
      forall y: nat, x: nat {:trigger At(y, x, pitch)} :: y < height && x < pitch ==>
        && At(y, x, pitch) < pixels.Length
        && pixels[At(y, x, pitch)] == Picture(style, grid, rows, cols, base, pitch, y, x)
    }

    ghost predicate Valid()
      reads this, vga, cells, colors, pixels
    {
      && Shape()
      && match backend
         case Vga => VgaShows()
         case Framebuffer => CellsShow() && PixelsShow()
    }

    /**
     What someone in front of the screen sees at a position: a VGA word with
     the character in its low byte, foreground and background in the two
     nibbles above, or the 8 by 16 pixels of the glyph, each font row twice,
     in two palette colours.
     */
    ghost predicate Displays(row: nat, col: nat, ch: Byte, fg: nat, bg: nat)
      requires Shape() && row < rows && col < cols && ch < 0x80 && fg < 16 && bg < 16
      reads this, vga, pixels
    {
      match backend
      case Vga =>
        && row * cols + col < vga.Length
        && vga[row * cols + col] % 0x100 == ch
        && vga[row * cols + col] / 0x100 % 0x10 == fg && vga[row * cols + col] / 0x1000 == bg
      case Framebuffer =>
        forall y: nat, x: nat {:trigger At(y, x, pitch)} :: y / 16 == row && x / 8 == col ==>
          && At(y, x, pitch) < pixels.Length
          && pixels[At(y, x, pitch)] == style.palette[if TestBit(style.font[ch][y % 16 / 2], x % 8) then fg else bg]
    }

    lemma VgaIsDisplayed(row: nat, col: nat)
      requires Valid() && backend.Vga? && row < rows && col < cols && grid[row][col].ch < 0x80
      ensures
        var cell := grid[row][col];
        Displays(row, col, cell.ch, cell.color % 16, cell.color / 16)
    {
      AtIsLinear(row, col, cols);
      assert vga[At(row, col, cols)] == VgaEntry(grid[row][col]);
      VgaEntryFields(grid[row][col]);
    }

    lemma GlyphIsDisplayed(row: nat, col: nat)
      requires Valid() && backend.Framebuffer? && row < rows && col < cols && grid[row][col].ch < 0x80
      ensures
        var cell := grid[row][col];
        Displays(row, col, cell.ch, cell.color % 16, cell.color / 16)
    {
      forall y: nat, x: nat | y / 16 == row && x / 8 == col
        ensures At(y, x, pitch) < pixels.Length && pixels[At(y, x, pitch)] == Ink(style, grid[row][col], x % 8, y % 16)
      {
        assert y < height && x < pitch;
      }
    }

    /** Whatever is in the grid is what is seen, on either backend. */
    lemma GridIsDisplayed(row: nat, col: nat)
      requires Valid() && row < rows && col < cols && grid[row][col].ch < 0x80
      ensures
        var cell := grid[row][col];
        Displays(row, col, cell.ch, cell.color % 16, cell.color / 16)
    {
      if backend.Vga? {
        VgaIsDisplayed(row, col);
      } else {
        GlyphIsDisplayed(row, col);
      }
    }

    /** The VGA text buffer, 80 by 25, not yet cleared. */
    constructor (style: Style, vga: array<nat>)
      requires style.Valid() && vga.Length == 25 * 80
      ensures Shape() && backend.Vga? && rows == 25 && cols == 80
      ensures this.style == style && this.vga == vga && fresh(cells) && fresh(colors)
    {
      this.style := style;
      this.vga := vga;
      backend, rows, cols := Vga, 25, 80;
      cells := new Byte[FB_MAX_ROWS, FB_MAX_COLS]((_, _) => 0);
      colors := new Byte[FB_MAX_ROWS, FB_MAX_COLS]((_, _) => 0);
      pixels := new nat[0];
      width, height, pitch := 0, 0, 0;
      grid, base := [], [];
    }

    /**
     The switch of `console_enable_framebuffer`: the largest text area of whole
     glyphs, at most 160 by 100, over the mapped memory.
     */
    method TakeFramebuffer(info: FramebufferInfo, mem: array<nat>) returns (ok: bool)
      requires Shape() && mem != vga
      requires info.Usable() ==> info.LinesHoldText() && mem.Length == info.pitch / 4 * info.height
      modifies this
      ensures ok <==>
        && info.present && info.mapped && info.rgb && info.bpp == 32
        && info.width >= 8 && info.height >= 16 && info.pitch > 0 && info.pitch % 4 == 0
      ensures ok == info.Usable()
      ensures !ok ==> unchanged(this)
      ensures ok ==>
        && Shape() && backend.Framebuffer? && pixels == mem && base == mem[..]
        && width == info.width && height == info.height && pitch == info.pitch / 4
        && cols == info.Cols() && rows == info.Rows()
        && cols <= 160 && cols * 8 <= width && (cols == 160 || width < (cols + 1) * 8)
        && rows <= 100 && rows * 16 <= height && (rows == 100 || height < (rows + 1) * 16)
        && MarginsUntouched()
    {
      if !info.present || !info.mapped || !info.rgb || info.bpp != 32 ||
         info.width < GLYPH_WIDTH || info.height < GLYPH_HEIGHT || info.pitch < 4 || info.pitch % 4 != 0
      {
        return false;
      }
      Measure(info, mem);
      // never an empty text area: at least one glyph fits
      assert cols > 0 && rows > 0;
      backend := Framebuffer;
      base := mem[..];
      MarginsAsTaken();
      return true;
    }

    /** Memory, dimensions and text area of a usable framebuffer. */
    method Measure(info: FramebufferInfo, mem: array<nat>)
      requires info.Usable()
      modifies this`pixels, this`width, this`height, this`pitch, this`cols, this`rows
      ensures pixels == mem && width == info.width && height == info.height && pitch == info.pitch / 4
      ensures 0 < cols == info.Cols() && 0 < rows == info.Rows()
      ensures cols <= 160 && cols * 8 <= width && (cols == 160 || width < (cols + 1) * 8)
      ensures rows <= 100 && rows * 16 <= height && (rows == 100 || height < (rows + 1) * 16)
    {
      pixels := mem;
      width, height, pitch := info.width, info.height, info.pitch / 4;
      cols := width / GLYPH_WIDTH;
      rows := height / GLYPH_HEIGHT;
      if cols > FB_MAX_COLS {
        cols := FB_MAX_COLS;
      }
      if rows > FB_MAX_ROWS {
        rows := FB_MAX_ROWS;
      }
    }

    /** Right after the framebuffer was taken its content is the base. */
    lemma MarginsAsTaken()
      requires Shape() && backend.Framebuffer? && base == pixels[..]
      ensures MarginsUntouched()
    {
      AtIsInjective(height, pitch);
      assert pitch * height == height * pitch;
    }

    /** `fb_plot` */
    method Plot(x: nat, y: nat, rgb: nat)
      requires Shape() && backend.Framebuffer? && (x < width ==> x < pitch)
      modifies pixels
      ensures forall y': nat, x': nat {:trigger At(y', x', pitch)} :: y' < height && x' < pitch ==>
        && At(y', x', pitch) < pixels.Length
        && pixels[At(y', x', pitch)] ==
           if y' == y && x' == x && x < width then rgb else old(pixels[At(y', x', pitch)])
    {
      AtIsInjective(height, pitch);
      assert pitch * height == height * pitch;
      if x >= width || y >= height {
        return;
      }
      AtIsLinear(y, x, pitch);
      pixels[y * pitch + x] := rgb;
    }

    /** The pixels inside a cell have its ink, all others are as in `before`. */
    ghost predicate DrawnUpTo(before: seq<nat>, row: nat, col: nat, cell: Cell, gy: nat, gx: nat)
      requires Shape() && backend.Framebuffer? && |before| == pixels.Length
      reads this, pixels
    {
      forall y: nat, x: nat {:trigger At(y, x, pitch)} :: y < height && x < pitch ==>
        && At(y, x, pitch) < pixels.Length
        && pixels[At(y, x, pitch)] ==
           if y / 16 == row && x / 8 == col && (y % 16 < gy || (y % 16 == gy && x % 8 < gx))
           then Ink(style, cell, x % 8, y % 16) else before[At(y, x, pitch)]
    }

    /** `fb_draw_cell` */
    method DrawCell(row: nat, col: nat, c: Byte, color: Byte)
      requires Shape() && backend.Framebuffer?
      modifies pixels
      ensures row < rows && col < cols ==> DrawnUpTo(old(pixels[..]), row, col, Cell(c, color), 16, 0)
      ensures row >= rows || col >= cols ==> pixels[..] == old(pixels[..])
    {
      if row >= rows || col >= cols {
        return;
      }
      // the clipping return of the source would be here; the text area lies inside the framebuffer
      assert col * GLYPH_WIDTH + GLYPH_WIDTH <= width && row * GLYPH_HEIGHT + GLYPH_HEIGHT <= height;
      AtIsInjective(height, pitch);
      assert pitch * height == height * pitch;
      var fg := style.palette[color % 16];
      var bg := style.palette[color / 16];
      var glyph := c;
      if glyph >= 128 {
        glyph := 0x3F;
      }
      for gy := 0 to 16
        invariant DrawnUpTo(old(pixels[..]), row, col, Cell(c, color), gy, 0)
      {
        var bits := style.font[glyph][gy / 2];
        DrawGlyphRow(row, col, Cell(c, color), gy, bits, fg, bg, old(pixels[..]));
      }
    }

    /** One row of the glyph: eight plots. */
    method DrawGlyphRow(row: nat, col: nat, ghost cell: Cell, gy: nat, bits: Byte, fg: nat, bg: nat,
                        ghost before: seq<nat>)
      requires Shape() && backend.Framebuffer? && |before| == pixels.Length && row < rows && col < cols && gy < 16
      requires forall gx :: 0 <= gx < 8 ==> Ink(style, cell, gx, gy) == if TestBit(bits, gx) then fg else bg
      requires DrawnUpTo(before, row, col, cell, gy, 0)
      modifies pixels
      ensures DrawnUpTo(before, row, col, cell, gy + 1, 0)
    {
      for gx := 0 to 8
        invariant DrawnUpTo(before, row, col, cell, gy, gx)
      {
        GlyphPixel(row, col, gy, gx, pitch);
        Plot(col * GLYPH_WIDTH + gx, row * GLYPH_HEIGHT + gy, if TestBit(bits, gx) then fg else bg);
      }
    }

    /** The cells before position (row, col) in reading order are drawn, everything else is as in `before`. */
    ghost predicate RedrawnUpTo(before: seq<nat>, row: nat, col: nat)
      requires Shape() && backend.Framebuffer? && |before| == pixels.Length && row <= rows
      reads this, cells, colors, pixels
    {
      forall y: nat, x: nat {:trigger At(y, x, pitch)} :: y < height && x < pitch ==>
        && At(y, x, pitch) < pixels.Length
        && pixels[At(y, x, pitch)] ==
           if x / 8 < cols && (y / 16 < row || (y / 16 == row < rows && x / 8 < col))
           then Ink(style, Cell(cells[y / 16, x / 8], colors[y / 16, x / 8]), x % 8, y % 16)
           else before[At(y, x, pitch)]
    }

    /** `fb_redraw_full` */
    method RedrawFull()
      requires Shape() && backend.Framebuffer?
      modifies pixels
      ensures RedrawnUpTo(old(pixels[..]), rows, 0)
    {
      AtIsInjective(height, pitch);
      assert pitch * height == height * pitch;
      for r := 0 to rows
        invariant RedrawnUpTo(old(pixels[..]), r, 0)
      {
        for c := 0 to cols
          invariant RedrawnUpTo(old(pixels[..]), r, c)
        {
          DrawCell(r, c, cells[r, c], colors[r, c]);
        }
      }
    }

    method PutVga(row: nat, col: nat, c: Byte, color: Byte)
      requires Valid() && backend.Vga? && row < rows && col < cols
      modifies this`grid, vga
      ensures Valid() && grid == SetCell(old(grid), row, col, Cell(c, color))
    {
      StoreVga(row, col, VgaEntry(Cell(c, color)));
      grid := SetCell(grid, row, col, Cell(c, color));
    }

    /** Drawing one cell makes the pixels show the grid with that cell. */
    method DrawInto(row: nat, col: nat, c: Byte, color: Byte)
      requires Shape() && backend.Framebuffer? && row < rows && col < cols
      requires GridOk(grid, rows, cols) && PixelsShow()
      modifies this`grid, pixels
      ensures grid == SetCell(old(grid), row, col, Cell(c, color))
      ensures GridOk(grid, rows, cols) && PixelsShow()
    {
      DrawCell(row, col, c, color);
      grid := SetCell(grid, row, col, Cell(c, color));
    }

    method PutFramebuffer(row: nat, col: nat, c: Byte, color: Byte)
      requires Valid() && backend.Framebuffer? && row < rows && col < cols
      modifies this`grid, cells, colors, pixels
      ensures Valid() && grid == SetCell(old(grid), row, col, Cell(c, color))
    {
      cells[row, col] := c;
      colors[row, col] := color;
      DrawInto(row, col, c, color);
    }

    /** `backend_put_cell` */
    method PutCell(row: nat, col: nat, c: Byte, color: Byte)
      requires Valid()
      modifies this`grid, vga, cells, colors, pixels
      ensures Valid()
      ensures grid == if row < rows && col < cols then SetCell(old(grid), row, col, Cell(c, color)) else old(grid)
    {
      if row >= rows || col >= cols {
        return;
      }
      if backend.Vga? {
        PutVga(row, col, c, color);
      } else {
        PutFramebuffer(row, col, c, color);
      }
    }

    /** No pixel outside the text area has changed since the framebuffer was taken into use. */
    ghost predicate MarginsUntouched()
      requires Shape() && backend.Framebuffer?
      reads this, pixels
    {
      forall y: nat, x: nat {:trigger At(y, x, pitch)} ::
        y < height && x < pitch && !(y < rows * 16 && x < cols * 8) ==>
        At(y, x, pitch) < pixels.Length && pixels[At(y, x, pitch)] == base[At(y, x, pitch)]
    }

    /** Redrawing makes the pixels agree with the shadow arrays. */
    method ShowCells()
      requires Shape() && backend.Framebuffer? && CellsShow() && MarginsUntouched()
      modifies pixels
      ensures Valid()
    {
      RedrawFull();
      forall y: nat, x: nat | y < height && x < pitch
        ensures x / 8 < cols && y / 16 < rows <==> y < rows * 16 && x < cols * 8
      {
      }
    }

    method ClearVga(color: Byte)
      requires Shape() && backend.Vga?
      modifies this`grid, vga
      ensures Valid() && grid == BlankGrid(rows, cols, color)
    {
      for y := 0 to rows
        modifies vga
        invariant forall r: nat, c: nat {:trigger At(r, c, cols)} :: r < y && c < cols ==>
          At(r, c, cols) < vga.Length && vga[At(r, c, cols)] == VgaEntry(Blank(color))
      {
        for x := 0 to cols
          modifies vga
          invariant forall r: nat, c: nat {:trigger At(r, c, cols)} ::
            c < cols && (r < y || (r == y && c < x)) ==>
            At(r, c, cols) < vga.Length && vga[At(r, c, cols)] == VgaEntry(Blank(color))
        {
          StoreVga(y, x, VgaEntry(Blank(color)));
        }
      }
      grid := BlankGrid(rows, cols, color);
    }

    method ClearFramebuffer(color: Byte)
      requires Shape() && backend.Framebuffer? && MarginsUntouched()
      modifies this`grid, cells, colors, pixels
      ensures Valid() && grid == BlankGrid(rows, cols, color)
    {
      for y := 0 to rows
        modifies cells, colors
        invariant forall r, c :: 0 <= r < y && 0 <= c < cols ==> cells[r, c] == 0x20 && colors[r, c] == color
      {
        for x := 0 to cols
          modifies cells, colors
          invariant forall r, c :: 0 <= c < cols && 0 <= r <= y && (r < y || c < x) ==>
            cells[r, c] == 0x20 && colors[r, c] == color
        {
          cells[y, x] := 0x20;
          colors[y, x] := color;
        }
      }
      grid := BlankGrid(rows, cols, color);
      ShowCells();
    }

    /** `backend_clear_all` */
    method ClearAll(color: Byte)
      requires Shape() && (backend.Framebuffer? ==> MarginsUntouched())
      modifies this`grid, vga, cells, colors, pixels
      ensures Valid() && grid == BlankGrid(rows, cols, color)
    {
      if backend.Vga? {
        ClearVga(color);
      } else {
        ClearFramebuffer(color);
      }
    }

    /** The cell that belongs at (r, c) once rows above y - 1, and row y - 1 up to column x, have moved up. */
    static ghost function Moved(g: Grid, y: int, x: int, r: nat, c: nat): Cell
      requires r < |g| && c < |g[r]| && (r < y - 1 || (r == y - 1 && c < x) ==> r + 1 < |g| && c < |g[r + 1]|)
    {
      if r < y - 1 || (r == y - 1 && c < x) then g[r + 1][c] else g[r][c]
    }

    /** The VGA buffer part way through a scroll. */
    ghost predicate VgaMoved(y: nat, x: nat)
      requires 1 <= y <= rows && (x > 0 ==> y < rows)
      reads this, vga
    {
      && GridOk(grid, rows, cols)
      && forall r: nat, c: nat {:trigger At(r, c, cols)} :: r < rows && c < cols ==>
           At(r, c, cols) < vga.Length && vga[At(r, c, cols)] == VgaEntry(Moved(grid, y, x, r, c))
    }

    /** One store into the VGA buffer. */
    method StoreVga(row: nat, col: nat, w: nat)
      requires Shape() && backend.Vga? && row < rows && col < cols
      modifies vga
      ensures forall r: nat, c: nat {:trigger At(r, c, cols)} :: r < rows && c < cols ==>
        At(r, c, cols) < vga.Length &&
        vga[At(r, c, cols)] == if r == row && c == col then w else old(vga[At(r, c, cols)])
    {
      AtIsInjective(rows, cols);
      AtIsLinear(row, col, cols);
      vga[row * cols + col] := w;
    }

    method MoveRowUpVga(y: nat)
      requires Shape() && backend.Vga? && 1 <= y < rows && VgaMoved(y, 0)
      modifies vga
      ensures VgaMoved(y + 1, 0)
    {
      for x := 0 to cols
        invariant VgaMoved(y, x)
      {
        AtIsLinear(y, x, cols);
        assert At(y, x, cols) < vga.Length;
        StoreVga(y - 1, x, vga[y * cols + x]);
      }
    }

    /** Moving the rows up in place inside the VGA buffer. */
    method MoveUpVga()
      requires Valid() && backend.Vga?
      modifies vga
      ensures VgaMoved(rows, 0)
    {
      for y := 1 to rows
        invariant VgaMoved(y, 0)
      {
        MoveRowUpVga(y);
      }
    }

    /** The VGA buffer holds the moved rows, with the bottom row blank up to column x. */
    ghost predicate VgaBlanked(color: Byte, x: nat)
      reads this, vga
    {
      && GridOk(grid, rows, cols)
      && forall r: nat, c: nat {:trigger At(r, c, cols)} :: r < rows && c < cols ==>
           At(r, c, cols) < vga.Length &&
           vga[At(r, c, cols)] == VgaEntry(if r == rows - 1 && c < x then Blank(color) else Moved(grid, rows, 0, r, c))
    }

    method BlankBottomVga(color: Byte)
      requires Shape() && backend.Vga? && VgaBlanked(color, 0)
      modifies vga
      ensures VgaBlanked(color, cols)
    {
      for x := 0 to cols
        invariant VgaBlanked(color, x)
      {
        StoreVga(rows - 1, x, VgaEntry(Blank(color)));
      }
    }

    method ScrollVga(color: Byte)
      requires Valid() && backend.Vga?
      modifies this`grid, vga
      ensures Valid() && grid == Scrolled(old(grid), cols, color)
    {
      MoveUpVga();
      BlankBottomVga(color);
      grid := Scrolled(grid, cols, color);
    }

    /** Moving the rows of the shadow arrays up. */
    method MoveUpCells()
      requires Shape() && backend.Framebuffer? && CellsShow()
      modifies cells, colors
      ensures forall r, c :: 0 <= r < rows && 0 <= c < cols ==>
        Cell(cells[r, c], colors[r, c]) == Moved(grid, rows, 0, r, c)
    {
      for y := 1 to rows
        invariant forall r, c :: 0 <= r < rows && 0 <= c < cols ==>
          Cell(cells[r, c], colors[r, c]) == Moved(grid, y, 0, r, c)
      {
        for x := 0 to cols
          invariant forall r, c :: 0 <= r < rows && 0 <= c < cols ==>
            Cell(cells[r, c], colors[r, c]) == Moved(grid, y, x, r, c)
        {
          cells[y - 1, x] := cells[y, x];
          colors[y - 1, x] := colors[y, x];
        }
      }
    }

    method ScrollFramebuffer(color: Byte)
      requires Valid() && backend.Framebuffer?
      modifies this`grid, cells, colors, pixels
      ensures Valid() && grid == Scrolled(old(grid), cols, color)
    {
      ghost var g := grid;
      MoveUpCells();
      for x := 0 to cols
        modifies cells, colors
        invariant forall r, c :: 0 <= r < rows && 0 <= c < cols ==>
          Cell(cells[r, c], colors[r, c]) == if r == rows - 1 && c < x then Blank(color) else Moved(g, rows, 0, r, c)
      {
        cells[rows - 1, x] := 0x20;
        colors[rows - 1, x] := color;
      }
      grid := Scrolled(grid, cols, color);
      ShowCells();
    }

    /** `backend_scroll_up` */
    method ScrollUp(color: Byte)
      requires Valid()
      modifies this`grid, vga, cells, colors, pixels
      ensures Valid() && grid == Scrolled(old(grid), cols, color)
    {
      if backend.Vga? {
        ScrollVga(color);
      } else {
        ScrollFramebuffer(color);
      }
    }
  }
}
