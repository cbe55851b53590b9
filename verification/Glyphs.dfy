/** How one character cell looks on the framebuffer (terminal_draw_framebuffer_cell in src/kernel/terminal.c). */
module Glyphs {
  import opened Machine
  import opened Framebuffer

  const FONT_WIDTH: nat := 8
  const FONT_HEIGHT: nat := 16
  const SPACE: byte := 32

  datatype Cell = Cell(ch: byte, color: byte)

  type Font = seq<seq<byte>>

  /** A glyph for each of the characters 32..127, eight rows each; the first, for the space, is blank. */
  predicate FontOk(font: Font) {
    && |font| == 96
    && (forall i | 0 <= i < 96 :: |font[i]| == 8)
    && (forall i | 0 <= i < 8 :: font[0][i] == 0)
  }

  function Palette(color: nat): (rgb: word)
    requires color < 16
    ensures rgb < RGB
  {
    [0x000000, 0x0000AA, 0x00AA00, 0x00AAAA, 0xAA0000, 0xAA00AA, 0xAA5500, 0xAAAAAA,
     0x555555, 0x5555FF, 0x55FF55, 0x55FFFF, 0xFF5555, 0xFF55FF, 0xFFFF55, 0xFFFFFF][color]
  }

  function Foreground(cell: Cell): word {
    Palette(cell.color % 16)
  }

  function Background(cell: Cell): word {
    Palette(cell.color / 16)
  }

  function Glyph(font: Font, ch: byte): (glyph: seq<byte>)
    requires FontOk(font)
    ensures |glyph| == 8
  {
    if 32 <= ch <= 127 then font[ch - 32] else font[0]
  }

  /** Whether a row of a glyph is lit at a column, the leftmost column being the highest bit. */
  predicate Lit(bits: byte, px: nat)
    requires px < FONT_WIDTH
  {
    bits / Pow2(7 - px) % 2 == 1
  }

  /** Reference rendering of one pixel of a cell: glyph rows are doubled, and the cursor underlines the row before
      last. */
  function CellPixel(font: Font, cell: Cell, px: nat, py: nat, cursor: bool): word
    requires FontOk(font) && px < FONT_WIDTH && py < FONT_HEIGHT
  {
    if cursor && py == FONT_HEIGHT - 2 then Foreground(cell)
    else if Lit(Glyph(font, cell.ch)[py / 2], px) then Foreground(cell)
    else Background(cell)
  }

  /** The number whose binary digits are the columns from px on. */
  function Columns(bits: byte, px: nat): nat
    requires px <= FONT_WIDTH
    decreases FONT_WIDTH - px
  {
    if px == FONT_WIDTH then 0 else (if Lit(bits, px) then Pow2(7 - px) else 0) + Columns(bits, px + 1)
  }

  /** The columns of a glyph row, from left to right, are the binary digits of its byte, from the highest on. */
  lemma ColumnsAreDigits(bits: byte)
    ensures Columns(bits, 0) == bits
  {
    hide Columns, Pow2;
    ColumnsFrom(bits, 0);
    Pow2Eight();
  }

  lemma Pow2Eight()
    ensures Pow2(8) == 256
  {
    assert Pow2(4) == 16;
  }

  lemma {:induction false} ColumnsFrom(bits: byte, px: nat)
    requires px <= FONT_WIDTH
    ensures Columns(bits, px) == bits % Pow2(8 - px)
    decreases FONT_WIDTH - px
  {
    hide Lit;
    if px < FONT_WIDTH {
      ColumnsFrom(bits, px + 1);
      HighDigit(bits, px, Pow2(7 - px));
    }
  }

  lemma HighDigit(bits: byte, px: nat, p: nat)
    requires px < FONT_WIDTH && p == Pow2(7 - px)
    ensures bits % (2 * p) == (if Lit(bits, px) then p else 0) + bits % p
  {
    hide Pow2;
    SplitDigit(bits, p);
  }

  lemma SplitDigit(x: nat, p: nat)
    requires p > 0
    ensures x % (2 * p) == x / p % 2 * p + x % p
  {
    var q, r := x / p, x % p;
    var h, d := q / 2, q % 2;
    assert x == q * p + r;
    Distribute(h, d, p);
    assert d * p + r < 2 * p by {
      if d == 1 {
        assert d * p == p;
      }
    }
    ModUnique(x, 2 * p, h, d * p + r);
  }

  lemma Distribute(h: nat, d: nat, p: nat)
    ensures (2 * h + d) * p == h * (2 * p) + d * p
  {
  }

  /** A cell without cursor: the font's glyph of its character, each row twice, in the two colours of the cell; other
      characters are blank. The cursor is a line of the foreground colour in row 14. */
  lemma CellLooks(font: Font, ch: byte, foreground: nat, background: nat, px: nat, py: nat, cursor: bool)
    requires FontOk(font) && foreground < 16 && background < 16 && px < 8 && py < 16
    ensures CellPixel(font, Cell(ch, 16 * background + foreground), px, py, cursor)
            == if cursor && py == 14 then Palette(foreground)
               else if 32 <= ch <= 127 && Lit(font[ch - 32][py / 2], px) then Palette(foreground)
               else Palette(background)
  {
    hide Palette, Lit;
    assert (16 * background + foreground) % 16 == foreground && (16 * background + foreground) / 16 == background;
    BlankRowIsUnlit(px);
  }

  lemma BlankRowIsUnlit(px: nat)
    requires px < 8
    ensures !Lit(0, px)
  {
    hide Pow2;
  }

  /** A blank cell without cursor is all background. */
  lemma BlankIsBackground(font: Font, cell: Cell, px: nat, py: nat)
    requires FontOk(font) && px < FONT_WIDTH && py < FONT_HEIGHT && cell.ch == SPACE
    ensures CellPixel(font, cell, px, py, false) == Background(cell)
  {
    hide Palette, Pow2;
  }

  /** The cell (x, y) lies on the display. */
  predicate CellOnScreen(d: Display, x: nat, y: nat) {
    FONT_WIDTH * x + FONT_WIDTH <= d.width && FONT_HEIGHT * y + FONT_HEIGHT <= d.height
  }

  predicate InCell(x: nat, y: nat, px: nat, py: nat) {
    FONT_WIDTH * x <= px < FONT_WIDTH * x + FONT_WIDTH && FONT_HEIGHT * y <= py < FONT_HEIGHT * y + FONT_HEIGHT
  }

  /** The display shows the given cell contents at (x, y). */
  ghost predicate Shown(d: Display, font: Font, x: nat, y: nat, cell: Cell, cursor: bool)
    requires d.Valid() && d.CanDraw() && FontOk(font) && CellOnScreen(d, x, y)
    reads d.vram
  {
    forall px: nat, py: nat | InCell(x, y, px, py) ::
      d.Pixel(px, py) == CellPixel(font, cell, px - FONT_WIDTH * x, py - FONT_HEIGHT * y, cursor)
  }

  predicate InRow(x: nat, y: nat, j: nat, px: nat, py: nat) {
    FONT_WIDTH * x <= px < FONT_WIDTH * x + FONT_WIDTH && py == FONT_HEIGHT * y + j
  }

  /** One pixel row of a cell: its glyph, or the cursor line. */
  method DrawRow(d: Display, font: Font, x: nat, y: nat, j: nat, cell: Cell, cursor: bool)
    requires d.Valid() && d.CanDraw() && FontOk(font) && CellOnScreen(d, x, y) && j < FONT_HEIGHT
    requires cursor ==> j == FONT_HEIGHT - 2
    modifies d.vram
    ensures forall px: nat, py: nat | InRow(x, y, j, px, py) ::
              d.Pixel(px, py) == CellPixel(font, cell, px - FONT_WIDTH * x, j, cursor)
    ensures forall px: nat, py: nat | d.OnScreen(px, py) && !InRow(x, y, j, px, py) ::
              d.Pixel(px, py) == old(d.Pixel(px, py))
  {
    hide Lit, Glyph, CellPixel, Foreground, Background, d.CanDraw;
    var bits := Glyph(font, cell.ch)[j / 2];
    var ox, py := x * FONT_WIDTH, y * FONT_HEIGHT + j;
    for i := 0 to FONT_WIDTH
      invariant forall px: nat | ox <= px < ox + i :: d.Pixel(px, py) == CellPixel(font, cell, px - ox, j, cursor)
      invariant forall px: nat, py: nat | d.OnScreen(px, py) && !InRow(x, y, j, px, py) ::
                  d.Pixel(px, py) == old(d.Pixel(px, py))
    {
      RowColor(font, cell, i, j, cursor);
      d.Plot(ox + i, py, if cursor || Lit(bits, i) then Foreground(cell) else Background(cell));
    }
  }

  lemma RowColor(font: Font, cell: Cell, px: nat, j: nat, cursor: bool)
    requires FontOk(font) && px < FONT_WIDTH && j < FONT_HEIGHT && (cursor ==> j == FONT_HEIGHT - 2)
    ensures var color := if cursor || Lit(Glyph(font, cell.ch)[j / 2], px) then Foreground(cell) else Background(cell);
            CellPixel(font, cell, px, j, cursor) == color && color % RGB == color
  {
    hide Lit, Glyph, Palette;
  }

  /** Draw one cell, row by row, then the cursor line over it. */
  method DrawCell(d: Display, font: Font, x: nat, y: nat, cell: Cell, cursor: bool)
    requires d.Valid() && d.CanDraw() && FontOk(font) && CellOnScreen(d, x, y)
    modifies d.vram
    ensures Shown(d, font, x, y, cell, cursor)
    ensures forall x', y', cell', c' | CellOnScreen(d, x', y') && (x' != x || y' != y) ::
              Shown(d, font, x', y', cell', c') == old(Shown(d, font, x', y', cell', c'))
  {
    hide CellPixel, d.CanDraw;
    CursorOnlyUnderlines(font, cell);
    for j := 0 to FONT_HEIGHT
      invariant forall px: nat, py: nat | InCell(x, y, px, py) && py < FONT_HEIGHT * y + j ::
                  d.Pixel(px, py) == CellPixel(font, cell, px - FONT_WIDTH * x, py - FONT_HEIGHT * y, false)
      invariant forall px: nat, py: nat | d.OnScreen(px, py) && !InCell(x, y, px, py) ::
                  d.Pixel(px, py) == old(d.Pixel(px, py))
    {
      DrawRow(d, font, x, y, j, cell, false);
    }
    if cursor {
      DrawRow(d, font, x, y, FONT_HEIGHT - 2, cell, true);
    }
    forall x', y', cell', c' | CellOnScreen(d, x', y') && (x' != x || y' != y)
      ensures Shown(d, font, x', y', cell', c') == old(Shown(d, font, x', y', cell', c'))
    {
      assert forall px: nat, py: nat | InCell(x', y', px, py) :: d.Pixel(px, py) == old(d.Pixel(px, py));
    }
  }

  lemma CursorOnlyUnderlines(font: Font, cell: Cell)
    requires FontOk(font)
    ensures forall px: nat, py: nat | px < FONT_WIDTH && py < FONT_HEIGHT && py != FONT_HEIGHT - 2 ::
              CellPixel(font, cell, px, py, true) == CellPixel(font, cell, px, py, false)
  {
  }
}
