/** The terminal of src/kernel/terminal.c: a cell grid with scrolling, a soft cursor, incremental drawing and a lock. */
module Terminal {
  import opened Machine
  import opened Framebuffer
  import opened Glyphs
  import opened Transcript

  const VGA_HEIGHT: nat := 25
  const MAX_COLUMNS: nat := 128
  const MAX_ROWS: nat := 64

  /** A word of VGA text memory. */
  function VgaEntry(cell: Cell): nat {
    cell.ch + 256 * cell.color
  }

  /** The low byte is the character, the high byte its colours. */
  lemma VgaEntryBytes(cell: Cell)
    ensures VgaEntry(cell) % 256 == cell.ch && VgaEntry(cell) / 256 == cell.color
  {
  }

  datatype Event =
    | Output(c: byte)
    | ClearScreen
    | ChangeColor(attribute: byte)
    | Lock(on: bool)
    | Draw(x: word, y: word, rgb: word)

  /** What the reference layout keeps of a terminal: the log, the current colour, and the lock. */
  datatype Session = Session(log: Log, color: byte, locked: bool)

  function After(s: Session, e: Event, width: nat, height: nat): (t: Session)
    requires LogOk(s.log, width, height) && (width >= VGA_WIDTH || height == 1)
    ensures LogOk(t.log, width, height)
  {
    match e
    case Output(c) =>
      NeverUnsafe(s.log, c, width, height);
      PutKeepsLog(s.log, c, s.color, width, height);
      s.(log := Put(s.log, c, s.color, width, height))
    case ClearScreen => s.(log := Cleared(s.color, width, height))
    case ChangeColor(attribute) => s.(color := attribute)
    case Lock(on) => s.(locked := on)
    case Draw(_, _, _) => s
  }

  function AfterAll(s: Session, events: seq<Event>, width: nat, height: nat): (t: Session)
    requires LogOk(s.log, width, height) && (width >= VGA_WIDTH || height == 1)
    ensures LogOk(t.log, width, height)
    decreases |events|
  {
    if events == [] then s else AfterAll(After(s, events[0], width, height), events[1..], width, height)
  }

  /** One event more, field by field. */
  lemma {:induction false} AfterAllThen(s: Session, events: seq<Event>, e: Event, width: nat, height: nat)
    requires LogOk(s.log, width, height) && (width >= VGA_WIDTH || height == 1)
    ensures var before, after := AfterAll(s, events, width, height), AfterAll(s, events + [e], width, height);
            && after.color == (if e.ChangeColor? then e.attribute else before.color)
            && after.locked == (if e.Lock? then e.on else before.locked)
            && after.log == (if e.Output? then PutText(before.log, [e.c], before.color, width, height)
                             else if e.ClearScreen? then Cleared(before.color, width, height)
                             else before.log)
    decreases |events|
  {
    hide LogOk, Put, Cleared, Unsafe;
    if events == [] {
      assert events + [e] == [e] && [e][1..] == [];
      if e.Output? {
        NeverUnsafe(s.log, e.c, width, height);
        PutKeepsLog(s.log, e.c, s.color, width, height);
        assert [e.c][1..] == [];
      }
    } else {
      assert (events + [e])[0] == events[0] && (events + [e])[1..] == events[1..] + [e];
      AfterAllThen(After(s, events[0], width, height), events[1..], e, width, height);
    }
  }

  class Terminal {
    const useFramebuffer: bool
    const display: Display
    const font: Font
    const width: nat
    const height: nat
    const cells: array2<Cell>
    const vga: array<nat>
    var row: nat
    var column: nat
    var cursorRow: nat
    var cursorColumn: nat
    var color: byte
    var cursorVisible: bool
    var locked: bool
    var hardwareCursor: nat

    /** Everything written since the last clear. */
    ghost var log: Log

    // ---- invariant ----

    /** The grid fits its array and its screen; none of this ever changes. */
    predicate Geometry() {
      && 1 <= width <= MAX_COLUMNS && 1 <= height <= MAX_ROWS
      && cells.Length0 == MAX_ROWS && cells.Length1 == MAX_COLUMNS
      && FontOk(font) && display.Valid()
      && (useFramebuffer ==>
            display.CanDraw() && FONT_WIDTH * width <= display.width
            && FONT_HEIGHT * height <= display.height)
      && (!useFramebuffer ==> width == VGA_WIDTH && height == VGA_HEIGHT)
      && vga.Length == VGA_WIDTH * VGA_HEIGHT && vga as object != display.vram
    }

    /** The grid is the last height rows of the log, with the cursor where the log has it. */
    ghost predicate GridIsWindow()
      requires Geometry()
      reads this, cells
    {
      CellsAreWindow() && row == log.row - Top(log, height) && column == log.column
    }

    ghost predicate CellsAreWindow()
      requires Geometry()
      reads this, cells
    {
      && LogOk(log, width, height)
      && forall y, x | 0 <= y < height && 0 <= x < width :: cells[y, x] == log.rows[Top(log, height) + y][x]
    }

    ghost predicate Shows(x: nat, y: nat, cursor: bool)
      requires Geometry() && useFramebuffer && x < width && y < height
      reads cells, display.vram
    {
      Shown(display, font, x, y, cells[y, x], cursor)
    }

    ghost predicate ShowsCursorRightly(x: nat, y: nat)
      requires Geometry() && useFramebuffer && x < width && y < height
      reads this, cells, display.vram
    {
      Shows(x, y, x == column && y == row)
    }

    /** An unlocked screen is the full rendering of the grid, underlined at the cursor position and nowhere else. */
    ghost predicate Rendered()
      requires Geometry()
      reads this, cells, vga, display.vram
    {
      && (useFramebuffer && !locked ==>
            && cursorVisible && cursorRow == row && cursorColumn == column
            && forall x: nat, y: nat | x < width && y < height :: ShowsCursorRightly(x, y))
      && (!useFramebuffer ==> VgaShows() && hardwareCursor == (row * VGA_WIDTH + column) % 65536)
    }

    ghost predicate VgaShows()
      requires Geometry() && !useFramebuffer
      reads cells, vga
    {
      forall x: nat, y: nat | x < width && y < height :: VgaAt(x, y)
    }

    ghost predicate VgaAt(x: nat, y: nat)
      requires Geometry() && !useFramebuffer && x < width && y < height
      reads cells, vga
    {
      vga[y * VGA_WIDTH + x] == VgaEntry(cells[y, x])
    }

    ghost predicate Valid()
      reads this, cells, vga, display.vram
    {
      Geometry() && GridIsWindow() && Rendered()
    }

    /** In text mode VGA memory holds the grid row after row, 80 words to a row, and the hardware cursor is at the
        cursor. */
    lemma TextModeMemory()
      requires Valid() && !useFramebuffer
      ensures width == 80 && height == 25 && vga.Length == 2000
      ensures forall x: nat, y: nat | x < 80 && y < 25 ::
                vga[80 * y + x] % 256 == cells[y, x].ch && vga[80 * y + x] / 256 == cells[y, x].color
      ensures hardwareCursor == 80 * row + column
    {
      hide VgaEntry, LogOk;
      forall x: nat, y: nat | x < 80 && y < 25
        ensures vga[80 * y + x] % 256 == cells[y, x].ch && vga[80 * y + x] / 256 == cells[y, x].color
      {
        assert VgaAt(x, y);
        VgaEntryBytes(cells[y, x]);
      }
      CursorInGrid();
    }

    lemma CursorInGrid()
      requires Valid()
      ensures row < height && column < width
    {
    }

    /** Between the steps of an operation: every cell is drawn and shows no cursor, except the one the terminal
        remembers underlining and the one the cursor is now on. */
    ghost predicate Settled()
      requires Geometry()
      reads this, cells, vga, display.vram
    {
      && (useFramebuffer && !locked ==>
            forall x: nat, y: nat | x < width && y < height && (x != column || y != row)
              && !(cursorVisible && x == cursorColumn && y == cursorRow) :: Shows(x, y, false))
      && (!useFramebuffer ==> VgaShows())
    }

    /** Which displays the terminal draws on, the size of its grid there, and a cleared and unlocked screen. */
    constructor (display: Display, font: Font, vga: array<nat>)
      requires display.Valid() && FontOk(font) && vga.Length == VGA_WIDTH * VGA_HEIGHT && vga as object != display.vram
      modifies display.vram, vga
      ensures Geometry() && this.display == display && this.font == font && this.vga == vga && fresh(cells)
      ensures useFramebuffer <==> display.CanDraw() && display.width >= FONT_WIDTH && display.height >= FONT_HEIGHT
      ensures useFramebuffer ==>
                && width == (if display.width / FONT_WIDTH > MAX_COLUMNS then MAX_COLUMNS
                             else display.width / FONT_WIDTH)
                && height == (if display.height / FONT_HEIGHT > MAX_ROWS then MAX_ROWS
                              else display.height / FONT_HEIGHT)
      ensures Valid() && Session(log, color, locked) == Session(Cleared(0x0F, width, height), 0x0F, false)
    {
      this.display, this.font, this.vga := display, font, vga;
      var accepted := display.CanDraw() && display.width >= FONT_WIDTH && display.height >= FONT_HEIGHT;
      useFramebuffer := accepted;
      var w := if accepted then display.width / FONT_WIDTH else VGA_WIDTH;
      var h := if accepted then display.height / FONT_HEIGHT else VGA_HEIGHT;
      width := if w > MAX_COLUMNS then MAX_COLUMNS else w;
      height := if h > MAX_ROWS then MAX_ROWS else h;
      cells := new Cell[MAX_ROWS, MAX_COLUMNS]((y, x) => Cell(0, 0));
      row, column, cursorRow, cursorColumn, color := 0, 0, 0, 0, 0x0F;
      cursorVisible, locked, hardwareCursor := false, false, 0;
      new;
      GridFits();
      Clear();
    }

    lemma GridFits()
      requires useFramebuffer ==> width <= display.width / FONT_WIDTH && height <= display.height / FONT_HEIGHT
      ensures useFramebuffer ==> FONT_WIDTH * width <= display.width && FONT_HEIGHT * height <= display.height
    {
    }

    // ---- drawing ----

    method DrawFramebufferCell(x: nat, y: nat, cursor: bool)
      requires Geometry()
      modifies display.vram
      ensures useFramebuffer && !locked && x < width && y < height ==>
                && Shows(x, y, cursor)
                && forall x': nat, y': nat, c | x' < width && y' < height && (x' != x || y' != y) ::
                     Shows(x', y', c) == old(Shows(x', y', c))
      ensures !useFramebuffer || locked || x >= width || y >= height ==> unchanged(display.vram)
    {
      if !useFramebuffer || locked || x >= width || y >= height {
        return;
      }
      hide Shown;
      DrawCell(display, font, x, y, cells[y, x], cursor);
    }

    method UpdateCursor()
      requires Geometry() && Settled() && row < height && column < width
      modifies display.vram, this`cursorRow, this`cursorColumn, this`cursorVisible, this`hardwareCursor
      ensures Rendered()
      ensures locked ==> unchanged(display.vram)
    {
      hide Shows, VgaShows, Geometry;
      if useFramebuffer {
        if locked {
          cursorColumn, cursorRow := column, row;
          cursorVisible := false;
          return;
        }
        if cursorVisible && cursorColumn < width && cursorRow < height {
          DrawFramebufferCell(cursorColumn, cursorRow, false);
        }
        cursorColumn, cursorRow := column, row;
        cursorVisible := true;
        DrawFramebufferCell(cursorColumn, cursorRow, true);
        return;
      }
      hardwareCursor := (row * VGA_WIDTH + column) % 65536;
    }

    method WriteCell(x: nat, y: nat)
      requires Geometry() && x < width && y < height
      modifies display.vram, vga
      ensures useFramebuffer && !locked ==>
                && Shows(x, y, x == column && y == row)
                && forall x': nat, y': nat, c | x' < width && y' < height && (x' != x || y' != y) ::
                     Shows(x', y', c) == old(Shows(x', y', c))
      ensures useFramebuffer ==> unchanged(vga)
      ensures !useFramebuffer ==>
                && VgaAt(x, y)
                && forall x': nat, y': nat | x' < width && y' < height && (x' != x || y' != y) ::
                     VgaAt(x', y') == old(VgaAt(x', y'))
      ensures locked || !useFramebuffer ==> unchanged(display.vram)
    {
      hide Shows, FontOk, VgaAt;
      if useFramebuffer {
        if locked {
          return;
        }
        DrawFramebufferCell(x, y, x == column && y == row);
        return;
      }
      WriteVga(x, y);
    }

    /** One word of VGA text memory. */
    method WriteVga(x: nat, y: nat)
      requires Geometry() && !useFramebuffer && x < width && y < height
      modifies vga
      ensures VgaAt(x, y)
      ensures forall x': nat, y': nat | x' < width && y' < height && (x' != x || y' != y) ::
                VgaAt(x', y') == old(VgaAt(x', y'))
    {
      hide FontOk, VgaEntry;
      vga[y * VGA_WIDTH + x] := VgaEntry(cells[y, x]);
      forall x': nat, y': nat | x' < width && y' < height && (x' != x || y' != y)
        ensures VgaAt(x', y') == old(VgaAt(x', y'))
      {
        assert y' * VGA_WIDTH + x' != y * VGA_WIDTH + x;
      }
    }

    // ---- scrolling ----

    /** One row of the grid copied to the row above. */
    method CopyRowUp(y: nat)
      requires Geometry() && 1 <= y < height
      modifies cells
      ensures forall i | 0 <= i < width :: cells[y - 1, i] == old(cells[y, i])
      ensures forall j, i | 0 <= j < height && 0 <= i < width && j != y - 1 :: cells[j, i] == old(cells[j, i])
    {
      for x := 0 to width
        invariant forall i | 0 <= i < x :: cells[y - 1, i] == old(cells[y, i])
        invariant forall j, i | 0 <= j < height && 0 <= i < width && j != y - 1 :: cells[j, i] == old(cells[j, i])
      {
        cells[y - 1, x] := cells[y, x];
      }
    }

    /** The grid after moving every row up by one and blanking the last. */
    method ShiftCells()
      requires Geometry()
      modifies cells
      ensures forall y, x | 0 <= y < height && 0 <= x < width ::
                cells[y, x] == if y + 1 < height then old(cells[y + 1, x]) else Cell(SPACE, color)
    {
      for y := 1 to height
        invariant forall j, i | 0 <= j < y - 1 && 0 <= i < width :: cells[j, i] == old(cells[j + 1, i])
        invariant forall j, i | y - 1 <= j < height && 0 <= i < width :: cells[j, i] == old(cells[j, i])
      {
        CopyRowUp(y);
      }
      var last := height - 1;
      for x := 0 to width
        invariant forall j, i | 0 <= j < last && 0 <= i < width :: cells[j, i] == old(cells[j + 1, i])
        invariant forall i | 0 <= i < x :: cells[last, i] == Cell(SPACE, color)
      {
        cells[last, x] := Cell(SPACE, color);
      }
    }

    /** Redraw every cell without cursor. */
    method DrawAll()
      requires Geometry()
      modifies display.vram, vga
      ensures useFramebuffer && !locked ==> forall x: nat, y: nat | x < width && y < height :: Shows(x, y, false)
      ensures !useFramebuffer ==> VgaShows()
      ensures useFramebuffer ==> unchanged(vga)
      ensures locked || !useFramebuffer ==> unchanged(display.vram)
    {
      if useFramebuffer {
        if !locked {
          for y := 0 to height
            invariant forall i: nat, j: nat | i < width && j < y :: Shows(i, j, false)
            invariant unchanged(vga)
          {
            for x := 0 to width
              invariant forall i: nat, j: nat | i < width && (j < y || (j == y && i < x)) :: Shows(i, j, false)
              invariant unchanged(vga)
            {
              DrawFramebufferCell(x, y, false);
            }
          }
        }
      } else {
        for y := 0 to height
          invariant forall i: nat, j: nat | i < width && j < y :: VgaAt(i, j)
          invariant unchanged(display.vram)
        {
          for x := 0 to width
            invariant forall i: nat, j: nat | i < width && (j < y || (j == y && i < x)) :: VgaAt(i, j)
            invariant unchanged(display.vram)
          {
            WriteCell(x, y);
          }
        }
      }
    }

    method ScrollIfNeeded()
      requires Geometry() && row <= height
      modifies this`row, cells, display.vram, vga
      ensures row == if old(row) < height then old(row) else height - 1
      ensures old(row) < height ==> unchanged(cells) && unchanged(display.vram) && unchanged(vga)
      ensures old(row) == height ==>
                && (forall y, x | 0 <= y < height && 0 <= x < width ::
                      cells[y, x] == if y + 1 < height then old(cells[y + 1, x]) else Cell(SPACE, color))
                && (useFramebuffer && !locked ==> forall x: nat, y: nat | x < width && y < height :: Shows(x, y, false))
                && (!useFramebuffer ==> VgaShows())
      ensures locked ==> unchanged(display.vram)
    {
      if row < height {
        return;
      }
      ShiftCells();
      DrawAll();
      row := height - 1;
    }

    // ---- output ----

    /** The grid after a line feed is the window of the log after one. */
    twostate lemma ScrolledIsWindow(after: Log)
      requires Geometry() && LogOk(old(log), width, height)
      requires forall y, x | 0 <= y < height && 0 <= x < width ::
                 old(cells[y, x]) == old(log).rows[Top(old(log), height) + y][x]
      requires after == NextRow(old(log), color, width) && log == after
      requires row == if old(log.row) + 1 < |old(log.rows)| then old(log.row) + 1 - Top(old(log), height)
               else height - 1
      requires column == 0
      requires forall y, x | 0 <= y < height && 0 <= x < width ::
                 cells[y, x] == if old(log.row) + 1 < |old(log.rows)| then old(cells[y, x])
                                else if y + 1 < height then old(cells[y + 1, x]) else Cell(SPACE, color)
      ensures GridIsWindow()
    {
    }

    /** Clear the screen and start a new log. */
    method Clear()
      requires Geometry()
      modifies this, cells, display.vram, vga
      ensures Valid() && log == Cleared(color, width, height) && color == old(color) && locked == old(locked)
      ensures locked ==> unchanged(display.vram)
    {
      if useFramebuffer && !locked {
        FillScreen(Palette(color / 16));
      }
      BlankCells();
      row, column := 0, 0;
      log := Cleared(color, width, height);
      if useFramebuffer && !locked {
        FilledShowsBlanks();
      }
      UpdateCursor();
    }

    method BlankCells()
      requires Geometry()
      modifies cells, vga
      ensures forall x: nat, y: nat | x < width && y < height :: cells[y, x] == Cell(SPACE, color)
      ensures !useFramebuffer ==> VgaShows()
    {
      for y := 0 to height
        invariant forall i: nat, j: nat | i < width && j < y :: cells[j, i] == Cell(SPACE, color)
        invariant !useFramebuffer ==> forall i: nat, j: nat | i < width && j < y :: VgaAt(i, j)
      {
        for x := 0 to width
          invariant forall i: nat, j: nat | i < width && (j < y || (j == y && i < x)) ::
                      cells[j, i] == Cell(SPACE, color)
          invariant !useFramebuffer ==> forall i: nat, j: nat | i < width && (j < y || (j == y && i < x)) :: VgaAt(i, j)
        {
          BlankCell(x, y);
        }
      }
    }

    method BlankCell(x: nat, y: nat)
      requires Geometry() && x < width && y < height
      modifies cells, vga
      ensures cells[y, x] == Cell(SPACE, color)
      ensures forall i: nat, j: nat | i < width && j < height && (i != x || j != y) :: cells[j, i] == old(cells[j, i])
      ensures !useFramebuffer ==>
                && VgaAt(x, y)
                && forall i: nat, j: nat | i < width && j < height && (i != x || j != y) ::
                     VgaAt(i, j) == old(VgaAt(i, j))
    {
      cells[y, x] := Cell(SPACE, color);
      if !useFramebuffer {
        vga[y * VGA_WIDTH + x] := VgaEntry(Cell(SPACE, color));
      }
    }

    ghost predicate Filled(rgb: word)
      requires Geometry() && useFramebuffer
      reads display.vram
    {
      forall px: nat, py: nat | display.OnScreen(px, py) :: display.Pixel(px, py) == rgb
    }

    lemma FilledShowsBlanks()
      requires Geometry() && useFramebuffer && Filled(Palette(color / 16))
      requires forall i: nat, j: nat | i < width && j < height :: cells[j, i] == Cell(SPACE, color)
      ensures forall x: nat, y: nat | x < width && y < height :: Shows(x, y, false)
    {
      forall x: nat, y: nat | x < width && y < height
        ensures Shows(x, y, false)
      {
        forall px: nat, py: nat | InCell(x, y, px, py)
          ensures display.Pixel(px, py) == CellPixel(font, cells[y, x], px - FONT_WIDTH * x, py - FONT_HEIGHT * y,
                                                     false)
        {
          BlankIsBackground(font, cells[y, x], px - FONT_WIDTH * x, py - FONT_HEIGHT * y);
        }
      }
    }

    method FillScreen(rgb: word)
      requires Geometry() && useFramebuffer && rgb < RGB
      modifies display.vram
      ensures Filled(rgb)
    {
      hide FontOk, display.Pixel, display.Valid, display.CanDraw;
      for y := 0 to display.height
        invariant forall px: nat, py: nat | display.OnScreen(px, py) && py < y :: display.Pixel(px, py) == rgb
      {
        for x := 0 to display.width
          invariant forall px: nat, py: nat | display.OnScreen(px, py) && (py < y || (py == y && px < x)) ::
                      display.Pixel(px, py) == rgb
        {
          display.Plot(x, y, rgb);
        }
      }
    }

    /** Every cell but the remembered cursor cell is drawn and shows no cursor. */
    ghost predicate Ready()
      requires Geometry()
      reads this, cells, vga, display.vram
    {
      && (useFramebuffer && !locked ==>
            && cursorVisible
            && forall x: nat, y: nat | x < width && y < height && (x != cursorColumn || y != cursorRow) ::
                 Shows(x, y, false))
      && (!useFramebuffer ==> VgaShows())
    }

    lemma RenderedIsReady()
      requires Geometry() && Rendered()
      ensures Ready()
    {
      hide Shows;
      if useFramebuffer && !locked {
        forall x: nat, y: nat | x < width && y < height && (x != cursorColumn || y != cursorRow)
          ensures Shows(x, y, false)
        {
          assert ShowsCursorRightly(x, y);
        }
      }
    }

    /** Move to the start of the next row, scrolling at the bottom. */
    method NewLine()
      requires Geometry() && CellsAreWindow() && row == log.row - Top(log, height) && Ready()
      modifies this`row, this`column, this`log, cells, display.vram, vga
      ensures GridIsWindow() && Settled() && log == NextRow(old(log), color, width)
      ensures locked ==> unchanged(display.vram)
    {
      hide Shows, VgaShows, Geometry;
      column := 0;
      row := row + 1;
      ScrollIfNeeded();
      log := NextRow(log, color, width);
      ScrolledIsWindow(log);
    }

    /** A change to one cell of the grid does not affect what the screen shows of the others. */
    twostate lemma CellStored(p: (nat, nat))
      requires Geometry() && unchanged(display.vram) && unchanged(vga)
      requires forall x: nat, y: nat | x < width && y < height && (x != p.0 || y != p.1) ::
                 cells[y, x] == old(cells[y, x])
      ensures useFramebuffer ==> forall x: nat, y: nat, c | x < width && y < height && (x != p.0 || y != p.1) ::
                Shows(x, y, c) == old(Shows(x, y, c))
      ensures !useFramebuffer && old(VgaShows()) ==>
                forall x: nat, y: nat | x < width && y < height && (x != p.0 || y != p.1) :: VgaAt(x, y)
    {
      hide FontOk, VgaEntry;
      if !useFramebuffer && old(VgaShows()) {
        forall x: nat, y: nat | x < width && y < height && (x != p.0 || y != p.1)
          ensures VgaAt(x, y)
        {
          assert old(VgaAt(x, y));
        }
      }
    }

    lemma WindowHasRow(y: nat)
      requires Geometry() && CellsAreWindow() && y < height
      ensures height <= |log.rows| && |log.rows[Top(log, height) + y]| == width
    {
    }

    /** A character stored in the grid and in the log alike. */
    twostate lemma StoredIsWindow(p: (nat, nat, Cell))
      requires Geometry() && old(CellsAreWindow()) && p.0 < width && p.1 < height && cells[p.1, p.0] == p.2
      requires forall y, x | 0 <= y < height && 0 <= x < width && (x != p.0 || y != p.1) ::
                 cells[y, x] == old(cells[y, x])
      requires log == SetCell(old(log), Top(old(log), height) + p.1, p.0, p.2)
      ensures CellsAreWindow()
    {
    }

    /** Store a character in a cell of the grid and draw it. */
    method StoreCell(x: nat, y: nat, ch: byte)
      requires Geometry() && CellsAreWindow() && x < width && y < height
      modifies this`log, cells, display.vram, vga
      ensures log == SetCell(old(log), Top(old(log), height) + y, x, Cell(ch, color)) && CellsAreWindow()
      ensures useFramebuffer && !locked ==>
                forall x': nat, y': nat, c | x' < width && y' < height && (x' != x || y' != y) ::
                  Shows(x', y', c) == old(Shows(x', y', c))
      ensures !useFramebuffer && old(VgaShows()) ==> VgaShows()
      ensures locked ==> unchanged(display.vram)
    {
      hide Shown, FontOk, VgaAt, Shows, CellsAreWindow, SetCell, LogOk;
      WindowHasRow(y);
      cells[y, x] := Cell(ch, color);
      log := SetCell(log, Top(log, height) + y, x, Cell(ch, color));
      CellStored((x, y));
      WriteCell(x, y);
      StoredIsWindow((x, y, Cell(ch, color)));
    }

    /** Step back one cell and blank it. */
    method PutBackspace()
      requires Valid() && !Unsafe(log, BACKSPACE, width, height)
      modifies this`row, this`column, this`log, this`cursorRow, this`cursorColumn, this`cursorVisible,
               this`hardwareCursor
      modifies cells, display.vram, vga
      ensures Valid() && log == Put(old(log), BACKSPACE, color, width, height)
      ensures locked ==> unchanged(display.vram)
    {
      hide Shows, VgaShows, Geometry;
      RenderedIsReady();
      if column > 0 {
        column := column - 1;
      } else if row > 0 {
        row := row - 1;
        column := VGA_WIDTH - 1;
      } else {
        UpdateCursor();
        return;
      }
      StoreCell(column, row, SPACE);
      log := log.(row := Top(log, height) + row, column := column);
      UpdateCursor();
    }

    /** Store a character at the cursor and advance, wrapping at the right edge. */
    method PutPlainChar(c: byte)
      requires Valid() && Plain(c)
      modifies this`row, this`column, this`log, this`cursorRow, this`cursorColumn, this`cursorVisible,
               this`hardwareCursor
      modifies cells, display.vram, vga
      ensures Valid() && log == Put(old(log), c, color, width, height)
      ensures locked ==> unchanged(display.vram)
    {
      hide Shows, VgaShows, Geometry;
      RenderedIsReady();
      StoreCell(column, row, c);
      column := column + 1;
      if column == width {
        NewLine();
      } else {
        log := log.(column := column);
      }
      UpdateCursor();
    }

    /** One character of output. The screen stays the rendering of the grid and the grid the window of the log, as long
        as the character is not a backspace at the start of a lower row of a narrow screen. */
    method PutChar(c: byte)
      requires Valid() && !Unsafe(log, c, width, height)
      modifies this`row, this`column, this`log, this`cursorRow, this`cursorColumn, this`cursorVisible,
               this`hardwareCursor
      modifies cells, display.vram, vga
      ensures Valid() && log == Put(old(log), c, color, width, height)
      ensures locked ==> unchanged(display.vram)
    {
      hide Shows, VgaShows, Geometry;
      if c == LINE_FEED {
        RenderedIsReady();
        NewLine();
        UpdateCursor();
        return;
      }
      if c == CARRIAGE_RETURN {
        RenderedIsReady();
        column := 0;
        log := log.(column := 0);
        UpdateCursor();
        return;
      }
      if c == BACKSPACE {
        PutBackspace();
        return;
      }
      PutPlainChar(c);
    }

    method SetColor(color: byte)
      requires Valid()
      modifies this`color
      ensures Valid() && this.color == color
    {
      hide Geometry, LogOk, Shown, VgaEntry;
      this.color := color;
      if useFramebuffer && !locked {
        forall x: nat, y: nat | x < width && y < height
          ensures ShowsCursorRightly(x, y)
        {
          assert old(ShowsCursorRightly(x, y));
        }
      }
    }

    // ---- the framebuffer lock ----

    method RedrawFramebuffer()
      requires Geometry() && GridIsWindow() && (!useFramebuffer ==> Rendered())
      modifies this`cursorRow, this`cursorColumn, this`cursorVisible, this`hardwareCursor, display.vram, vga
      ensures Rendered()
    {
      hide Shows, VgaShows, Geometry;
      if !useFramebuffer || locked {
        return;
      }
      DrawAll();
      cursorVisible := false;
      UpdateCursor();
    }

    /** Whatever was drawn over a locked screen, unlocking renders the grid again. */
    method SetFramebufferLock(locked: bool)
      requires Valid()
      modifies this`locked, this`cursorRow, this`cursorColumn, this`cursorVisible, this`hardwareCursor, display.vram,
               vga
      ensures Valid() && this.locked == locked
      ensures locked ==> unchanged(display.vram) && unchanged(vga)
    {
      hide Shows, VgaShows, Geometry;
      var wasLocked := this.locked;
      this.locked := locked;
      if !wasLocked && locked {
        cursorVisible := false;
        return;
      }
      if wasLocked && !locked {
        RedrawFramebuffer();
      }
    }

    /** What a process holding the framebuffer may do to a pixel while the terminal is locked. */
    method DrawOver(x: word, y: word, color: word)
      requires Valid() && locked
      modifies display.vram
      ensures Valid()
    {
      display.PutPixel(x, y, color);
    }

    /** While the terminal is locked nothing on the display matters to it. */
    twostate lemma DrawnOver()
      requires old(Valid()) && locked && unchanged(this) && unchanged(cells) && unchanged(vga)
      ensures Valid()
    {
      hide Geometry, LogOk;
    }

    // ---- whole runs ----

    /** On a screen of at least 80 columns no run of operations, with drawing over it while it is locked, breaks the
        invariant: the grid stays the window of the log that the reference layout gives for the run. */
    method Run(events: seq<Event>)
      requires Valid() && (width >= VGA_WIDTH || height == 1)
      modifies this, cells, display.vram, vga
      ensures Valid() && LogOk(old(log), width, height)
      ensures Session(log, color, locked) == AfterAll(Session(old(log), old(color), old(locked)), events, width, height)
    {
      hide Shows, VgaShows, Geometry, LogOk, Rendered, Put, Cleared;
      ValidLog();
      ghost var start := Session(log, color, locked);
      for i := 0 to |events|
        invariant Valid() && LogOk(log, width, height)
        invariant AfterAll(start, events, width, height)
                  == AfterAll(Session(log, color, locked), events[i..], width, height)
      {
        match events[i] {
          case Output(c) =>
            NeverUnsafe(log, c, width, height);
            PutChar(c);
          case ClearScreen => Clear();
          case ChangeColor(attribute) => SetColor(attribute);
          case Lock(on) => SetFramebufferLock(on);
          case Draw(x, y, rgb) =>
            if locked {
              DrawOver(x, y, rgb);
            }
        }
        ValidLog();
        assert events[i..][1..] == events[i + 1..];
      }
    }

    lemma ValidLog()
      requires Valid()
      ensures LogOk(log, width, height)
    {
    }

    method WriteText(data: seq<byte>)
      requires Valid() && (width >= VGA_WIDTH || height == 1)
      modifies this, cells, display.vram, vga
      ensures Valid() && log == PutText(old(log), data, old(color), width, height)
      ensures color == old(color) && locked == old(locked)
      ensures locked ==> unchanged(display.vram)
    {
      hide Rendered, Geometry, LogOk;
      for i := 0 to |data|
        invariant Valid() && color == old(color) && locked == old(locked)
        invariant locked ==> unchanged(display.vram)
        invariant PutText(old(log), data, color, width, height) == PutText(log, data[i..], color, width, height)
      {
        NeverUnsafe(log, data[i], width, height);
        PutChar(data[i]);
      }
    }
  }
}
