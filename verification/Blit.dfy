/** Rectangle fills and blits from user memory to the framebuffer (src/kernel/syscall.c and framebuffer_draw_rect in
    src/kernel/framebuffer.c). */
module Blit {
  import opened Machine
  import opened Framebuffer
  import opened UserMemory

  const FORMAT_XRGB8888: word := 1
  const CHUNK_PIXELS: nat := 32

  datatype Request = Request(dstX: word, dstY: word, width: word, height: word, source: word, stride: word,
                             format: word)

  /** syscall_framebuffer_rect_valid: a non-empty rectangle within the screen. */
  predicate RectValid(d: Display, x: word, y: word, width: word, height: word) {
    && width != 0 && height != 0 && x + width < TWO32 && y + height < TWO32
    && x + width <= d.width && y + height <= d.height
  }

  predicate InRect(x: nat, y: nat, width: nat, height: nat, px: nat, py: nat) {
    x <= px < x + width && y <= py < y + height
  }

  /** Byte i of the display memory belongs to no pixel of the rectangle. */
  ghost predicate ByteOutside(d: Display, x: nat, y: nat, width: nat, height: nat, i: nat) {
    forall px: nat, py: nat | d.OnScreen(px, py) && InRect(x, y, width, height, px, py) ::
      !(d.Offset(px, py) <= i < d.Offset(px, py) + d.Depth())
  }

  /** Pixels and bytes outside a rectangle are as they were, and so is everything on a display that cannot be
      drawn on. */
  twostate predicate OutsideKept(d: Display, x: nat, y: nat, width: nat, height: nat)
    requires d.Valid()
    reads d.vram
  {
    && (forall px: nat, py: nat | d.CanDraw() && d.OnScreen(px, py) && !InRect(x, y, width, height, px, py) ::
          d.Pixel(px, py) == old(d.Pixel(px, py)))
    && (forall i | 0 <= i < d.vram.Length && ByteOutside(d, x, y, width, height, i) :: d.vram[i] == old(d.vram[i]))
    && (!d.CanDraw() ==> unchanged(d.vram))
  }

  /** A smaller rectangle leaves more bytes outside. */
  lemma OutsideShrinks(d: Display, x: nat, y: nat, width: nat, height: nat, x': nat, y': nat, width': nat, height': nat)
    requires x <= x' && x' + width' <= x + width && y <= y' && y' + height' <= y + height
    ensures forall i: nat | ByteOutside(d, x, y, width, height, i) :: ByteOutside(d, x', y', width', height', i)
  {
  }

  /** One pixel of a rectangle. */
  method PutInRect(d: Display, px: word, py: word, color: word)
    requires d.Valid()
    modifies d.vram
    ensures d.CanDraw() && d.OnScreen(px, py) ==> d.Pixel(px, py) == d.Shade(color)
    ensures OutsideKept(d, px, py, 1, 1)
  {
    hide d.CanDraw, d.Valid;
    d.PutPixel(px, py, color);
    if d.OnScreen(px, py) {
      assert InRect(px, py, 1, 1, px, py);
    }
  }

  method FillRow(d: Display, x: word, y: word, width: word, color: word)
    requires d.Valid() && x + width < TWO32
    modifies d.vram
    ensures forall px: nat | d.CanDraw() && d.OnScreen(px, y) && x <= px < x + width :: d.Pixel(px, y) == d.Shade(color)
    ensures OutsideKept(d, x, y, width, 1)
  {
    hide d.CanDraw, d.Valid, d.Shade, d.Pixel, d.OnScreen, ByteOutside, Wrap;
    for col := 0 to width
      invariant forall px: nat | d.CanDraw() && d.OnScreen(px, y) && x <= px < x + col ::
                  d.Pixel(px, y) == d.Shade(color)
      invariant OutsideKept(d, x, y, width, 1)
    {
      OutsideShrinks(d, x, y, width, 1, x + col, y, 1, 1);
      SmallWrap(x + col);
      PutInRect(d, Wrap(x + col), y, color);
    }
  }

  /** Fill a rectangle with one colour. */
  method DrawRect(d: Display, x: word, y: word, width: word, height: word, color: word)
    requires d.Valid() && x + width < TWO32 && y + height < TWO32
    modifies d.vram
    ensures forall px: nat, py: nat | d.CanDraw() && d.OnScreen(px, py) && InRect(x, y, width, height, px, py) ::
              d.Pixel(px, py) == d.Shade(color)
    ensures OutsideKept(d, x, y, width, height)
  {
    hide d.CanDraw, d.Valid, d.Shade, d.Pixel, d.OnScreen, ByteOutside, Wrap;
    for row := 0 to height
      invariant forall px: nat, py: nat | d.CanDraw() && d.OnScreen(px, py) && InRect(x, y, width, row, px, py) ::
                  d.Pixel(px, py) == d.Shade(color)
      invariant OutsideKept(d, x, y, width, height)
    {
      OutsideShrinks(d, x, y, width, height, x, y + row, width, 1);
      SmallWrap(y + row);
      FillRow(d, x, Wrap(y + row), width, color);
    }
  }

  // ---- blits ----

  /** The k-th pixel of a row of pixels at an address. */
  function RowWord(mem: seq<byte>, source: nat, k: nat): word
    requires source + 4 * k + 4 <= |mem|
  {
    WordAt(mem, source + 4 * k)
  }

  method PutChunk(d: Display, x: word, y: word, pixels: seq<byte>, n: nat)
    requires d.Valid() && |pixels| == 4 * n && x + n < TWO32
    modifies d.vram
    ensures forall px: nat | x <= px < x + n && d.CanDraw() && d.OnScreen(px, y) ::
              d.Pixel(px, y) == d.Shade(RowWord(pixels, 0, px - x))
    ensures OutsideKept(d, x, y, n, 1)
  {
    hide d.CanDraw, d.Valid, d.Shade, d.Pixel, d.OnScreen, ByteOutside, RowWord, Wrap;
    for index := 0 to n
      invariant forall px: nat | x <= px < x + index && d.CanDraw() && d.OnScreen(px, y) ::
                  d.Pixel(px, y) == d.Shade(RowWord(pixels, 0, px - x))
      invariant OutsideKept(d, x, y, n, 1)
    {
      OutsideShrinks(d, x, y, n, 1, x + index, y, 1, 1);
      SmallWrap(x + index);
      PutInRect(d, Wrap(x + index), y, RowWord(pixels, 0, index));
    }
  }

  method BlitChunk(d: Display, mem: array<byte>, r: Regions, x: word, y: word, source: word, col: nat, n: nat)
    returns (readable: bool)
    requires d.Valid() && Holds(r, mem) && mem != d.vram
    requires x + col + n <= d.width && y < d.height && source + 4 * col < TWO32 && n <= CHUNK_PIXELS
    modifies d.vram
    ensures readable <==> ValidRange(r, source + 4 * col, 4 * n)
    ensures readable ==> source + 4 * (col + n) <= mem.Length && source + 4 * (col + n) < TWO32
    ensures readable ==> forall px: nat | d.CanDraw() && x + col <= px < x + col + n ::
              d.Pixel(px, y) == d.Shade(RowWord(mem[..], source, px - x))
    ensures OutsideKept(d, x + col, y, n, 1)
  {
    hide d.CanDraw, d.Valid, d.Shade, d.Pixel, ByteOutside, RowWord, ValidRange;
    var pixels;
    readable, pixels := CopyFromUser(mem, r, Wrap(source + 4 * col), 4 * n);
    if readable {
      RangeBelowTop(r, source + 4 * col, 4 * n);
      PutChunk(d, x + col, y, pixels, n);
      WordsInSlice(mem[..], source, col, pixels);
    }
  }

  lemma RangeBelowTop(r: Regions, address: word, size: nat)
    requires ValidRange(r, address, size)
    ensures address + size < TWO32
  {
  }

  /** Copy one row from user memory in chunks: it succeeds exactly when the whole row is readable, and then the row on
      the display is the row in memory. */
  method BlitRow(d: Display, mem: array<byte>, r: Regions, x: word, y: word, width: word, source: word)
    returns (ok: bool)
    requires d.Valid() && Holds(r, mem) && mem != d.vram
    requires 0 < width && x + width <= d.width && y < d.height
    modifies d.vram
    ensures ok <==> ValidRange(r, source, 4 * width)
    ensures ok ==> source + 4 * width <= mem.Length
    ensures ok ==> forall px: nat | d.CanDraw() && x <= px < x + width ::
              d.Pixel(px, y) == d.Shade(RowWord(mem[..], source, px - x))
    ensures OutsideKept(d, x, y, width, 1)
  {
    hide d.CanDraw, d.Valid, d.Shade, d.Pixel, ByteOutside, RowWord, ValidRange, ChunksValid;
    ChunksValidIffWhole(r, source, 4 * width, 4 * CHUNK_PIXELS);
    var col := 0;
    while col < width
      invariant col <= width
      invariant source + 4 * col < TWO32 && (col > 0 ==> source + 4 * col <= mem.Length)
      invariant ChunksValid(r, source, 4 * width, 4 * CHUNK_PIXELS)
                <==> ChunksValid(r, source + 4 * col, 4 * (width - col), 4 * CHUNK_PIXELS)
      invariant forall px: nat | d.CanDraw() && x <= px < x + col ::
                  d.Pixel(px, y) == d.Shade(RowWord(mem[..], source, px - x))
      invariant OutsideKept(d, x, y, width, 1)
    {
      var n := Min(width - col, CHUNK_PIXELS);
      ChunkStep(r, source + 4 * col, 4 * (width - col), 4 * CHUNK_PIXELS);
      OutsideShrinks(d, x, y, width, 1, x + col, y, n, 1);
      var readable := BlitChunk(d, mem, r, x, y, source, col, n);
      if !readable {
        return false;
      }
      col := col + n;
    }
    NoChunks(r, source + 4 * col, 4 * CHUNK_PIXELS);
    return true;
  }

  lemma NoChunks(r: Regions, address: word, chunk: nat)
    requires chunk > 0
    ensures ChunksValid(r, address, 0, chunk)
  {
  }

  lemma WordsInSlice(mem: seq<byte>, source: nat, col: nat, data: seq<byte>)
    requires source + 4 * col + |data| <= |mem| && data == mem[source + 4 * col..source + 4 * col + |data|]
    ensures forall k: nat | 4 * k + 4 <= |data| :: RowWord(data, 0, k) == RowWord(mem, source, col + k)
    ensures forall j: nat | col <= j && 4 * (j - col) + 4 <= |data| ::
              RowWord(mem, source, j) == RowWord(data, 0, j - col)
  {
  }

  /** Address of a source row, in 32-bit arithmetic. */
  function RowSource(q: Request, row: nat): word {
    Wrap(q.source + row * q.stride)
  }

  /** What syscall_fb_blit checks before it copies. */
  predicate Checked(d: Display, q: Request) {
    && q.format == FORMAT_XRGB8888
    && RectValid(d, q.dstX, q.dstY, q.width, q.height)
    && q.source != 0 && q.stride >= Wrap(q.width * 4)
  }

  /** The whole request: what is checked before and while it copies. */
  predicate Accepted(d: Display, r: Regions, q: Request) {
    && Checked(d, q)
    && forall row: nat | row < q.height :: RowReadable(r, q, row)
  }

  /** A blit is accepted exactly when its format is the known one, its rectangle has pixels and all of them are on the
      screen, its source is not null, a row of the source holds the pixels of a row, and every byte of every source row
      is one of the image or of the stack. */
  lemma AcceptedIff(d: Display, r: Regions, q: Request)
    requires Separated(r) && d.width <= 0x3FFF_FFFF
    ensures Accepted(d, r, q) <==>
              && q.format == 1 && q.width > 0 && q.height > 0 && q.source > 0
              && (forall px: nat, py: nat | InRect(q.dstX, q.dstY, q.width, q.height, px, py) ::
                    px < d.width && py < d.height)
              && q.stride >= 4 * q.width
              && forall row: nat | row < q.height :: RowInRegions(r, q, row)
  {
    hide ValidRange, Separated, RowSource, InRegions, InRect;
    RectValidIff(d, q.dstX, q.dstY, q.width, q.height);
    if RectValid(d, q.dstX, q.dstY, q.width, q.height) {
      SmallWrap(q.width * 4);
      forall row: nat | row < q.height
        ensures RowReadable(r, q, row) <==> RowInRegions(r, q, row)
      {
        ValidRangeIff(r, RowSource(q, row), 4 * q.width);
      }
    }
  }

  /** All bytes of a row of the source are the process's. */
  predicate RowInRegions(r: Regions, q: Request, row: nat) {
    forall a: nat | RowSource(q, row) <= a < RowSource(q, row) + 4 * q.width :: InRegions(r, a)
  }

  predicate RowReadable(r: Regions, q: Request, row: nat) {
    ValidRange(r, RowSource(q, row), 4 * q.width)
  }

  /** The source pixel for a place on the screen. */
  function SourceWord(mem: seq<byte>, q: Request, px: nat, py: nat): word
    requires InRect(q.dstX, q.dstY, q.width, q.height, px, py)
    requires RowSource(q, py - q.dstY) + 4 * q.width <= |mem|
  {
    RowWord(mem, RowSource(q, py - q.dstY), px - q.dstX)
  }

  /** The source pixel of the place (px, py) is the word so many rows of stride bytes, and so many words, behind the
      source address; the address of a row wraps around. */
  lemma SourceAddress(mem: seq<byte>, q: Request, px: nat, py: nat)
    requires InRect(q.dstX, q.dstY, q.width, q.height, px, py)
    requires RowSource(q, py - q.dstY) + 4 * q.width <= |mem|
    ensures q.dstX <= px && q.dstY <= py
    ensures var at := (q.source + (py - q.dstY) * q.stride) % 0x1_0000_0000 + 4 * (px - q.dstX);
            at + 4 <= |mem| && SourceWord(mem, q, px, py) == WordAt(mem, at)
  {
  }

  /** Without padding between the rows the source is the image in reading order. */
  lemma PackedImage(mem: seq<byte>, q: Request, px: nat, py: nat)
    requires InRect(q.dstX, q.dstY, q.width, q.height, px, py)
    requires q.stride == 4 * q.width && q.source + 4 * (q.width * q.height) <= |mem| <= TWO32
    ensures RowSource(q, py - q.dstY) + 4 * q.width <= |mem|
    ensures var i := (py - q.dstY) * q.width + (px - q.dstX);
            0 <= i < q.width * q.height && SourceWord(mem, q, px, py) == WordAt(mem, q.source + 4 * i)
  {
    hide RowSource, Wrap, WordAt;
    var row, col := py - q.dstY, px - q.dstX;
    MulMonotone(row + 1, q.height, q.width);
    assert (row + 1) * q.width == row * q.width + q.width;
    assert row * q.stride == 4 * (row * q.width);
    RowIs(q, row);
  }

  lemma RowIs(q: Request, row: nat)
    requires q.source + row * q.stride < TWO32
    ensures RowSource(q, row) == q.source + row * q.stride
  {
    SmallWrap(q.source + row * q.stride);
  }

  /** A rectangle is accepted exactly when it has pixels and all of them are on the screen. */
  lemma RectValidIff(d: Display, x: word, y: word, width: word, height: word)
    ensures RectValid(d, x, y, width, height) <==>
              && width > 0 && height > 0
              && forall px: nat, py: nat | InRect(x, y, width, height, px, py) :: px < d.width && py < d.height
  {
    if width > 0 && height > 0 {
      assert InRect(x, y, width, height, x + width - 1, y + height - 1);
    }
  }

  ghost predicate RowsInMemory(mem: array<byte>, q: Request, rows: nat) {
    forall row: nat | row < rows :: RowFits(mem, q, row)
  }

  ghost predicate RowFits(mem: array<byte>, q: Request, row: nat) {
    RowSource(q, row) + 4 * q.width <= mem.Length
  }

  /** A blit succeeds exactly when it is accepted, and then every pixel of the rectangle is the source pixel at the same
      place. Nothing outside the rectangle changes, whether it succeeds or not. */
  method Copy(d: Display, mem: array<byte>, r: Regions, q: Request) returns (ok: bool)
    requires d.Valid() && Holds(r, mem) && mem != d.vram
    modifies d.vram
    ensures ok <==> Accepted(d, r, q)
    ensures ok ==> RowsInMemory(mem, q, q.height)
    ensures ok ==> forall px: nat, py: nat | d.CanDraw() && d.OnScreen(px, py)
            && InRect(q.dstX, q.dstY, q.width, q.height, px, py) ::
              RowFits(mem, q, py - q.dstY) && d.Pixel(px, py) == d.Shade(SourceWord(mem[..], q, px, py))
    ensures OutsideKept(d, q.dstX, q.dstY, q.width, q.height)
    ensures !Checked(d, q) ==> unchanged(d.vram)
  {
    hide d.CanDraw, d.Valid, d.Shade, d.Pixel, ByteOutside, RowWord, ValidRange, RowSource;
    if q.format != FORMAT_XRGB8888 {
      return false;
    }
    if !RectValid(d, q.dstX, q.dstY, q.width, q.height) {
      return false;
    }
    if q.source == 0 || q.stride < Wrap(q.width * 4) {
      return false;
    }
    for row := 0 to q.height
      invariant forall j: nat | j < row :: RowReadable(r, q, j)
      invariant RowsInMemory(mem, q, row)
      invariant forall px: nat, py: nat | d.CanDraw() && d.OnScreen(px, py)
                && InRect(q.dstX, q.dstY, q.width, row, px, py) ::
                  RowFits(mem, q, py - q.dstY) && d.Pixel(px, py) == d.Shade(SourceWord(mem[..], q, px, py))
      invariant OutsideKept(d, q.dstX, q.dstY, q.width, q.height)
    {
      OutsideShrinks(d, q.dstX, q.dstY, q.width, q.height, q.dstX, q.dstY + row, q.width, 1);
      var copied := BlitRow(d, mem, r, q.dstX, q.dstY + row, q.width, RowSource(q, row));
      if !copied {
        assert !RowReadable(r, q, row);
        return false;
      }
      assert RowReadable(r, q, row) && RowFits(mem, q, row);
    }
    return true;
  }
}
