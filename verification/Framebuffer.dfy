/** The linear framebuffer and its drawing primitives (src/kernel/framebuffer.c). */
module Framebuffer {
  import opened Machine

  const RGB: word := 0x100_0000

  /** The display described by the boot loader, with its memory as bytes from its base address on. */
  class Display {
    const available: bool
    const address: word
    const pitch: word
    const width: word
    const height: word
    const bpp: nat
    const kind: nat
    const vram: array<byte>

    constructor (available: bool, address: word, pitch: word, width: word, height: word, bpp: nat, kind: nat,
                 vram: array<byte>)
      ensures this.available == available && this.address == address && this.pitch == pitch && this.width == width
      ensures this.height == height && this.bpp == bpp && this.kind == kind && this.vram == vram
    {
      this.available, this.address, this.pitch, this.width := available, address, pitch, width;
      this.height, this.bpp, this.kind, this.vram := height, bpp, kind, vram;
    }

    predicate CanDraw() {
      available && address != 0 && kind == 1 && (bpp == 24 || bpp == 32)
    }

    /** Bytes of a pixel. */
    function Depth(): nat {
      bpp / 8
    }

    /** What a drawable display promises: rows hold their pixels, and the memory holds the rows. */
    predicate Valid() {
      CanDraw() ==> width * Depth() <= pitch && height * pitch <= vram.Length < TWO32
    }

    predicate OnScreen(x: nat, y: nat) {
      x < width && y < height
    }

    /** First byte of a pixel. */
    function Offset(x: nat, y: nat): nat {
      y * pitch + x * Depth()
    }

    /** Every pixel's bytes lie in the display memory, and the kernel's 32-bit offset arithmetic does not wrap. */
    lemma OffsetInBounds(x: nat, y: nat)
      requires Valid() && CanDraw() && OnScreen(x, y)
      ensures Offset(x, y) + Depth() <= vram.Length
      ensures Wrap(y * pitch) + Wrap(x * Depth()) == Offset(x, y)
    {
      InBounds(x, y, width, height, Depth(), pitch, vram.Length);
    }

    /** Where pixels lie: the first at the display's address, each next one a pixel's bytes further, each next row a
        pitch further; and the last byte of the last pixel lies before the end of the last row. */
    lemma PixelPlaces(x: nat, y: nat, k: nat)
      requires Valid() && CanDraw() && OnScreen(x, y) && k < Depth()
      ensures Offset(0, 0) == 0 && Offset(x + 1, y) == Offset(x, y) + bpp / 8
              && Offset(x, y + 1) == Offset(x, y) + pitch
      ensures Offset(x, y) + k < pitch * height
    {
      InBounds(x, y, width, height, Depth(), pitch, height * pitch);
      assert (y + 1) * pitch == y * pitch + pitch && (x + 1) * Depth() == x * Depth() + Depth();
    }

    /** The bytes of a pixel of a colour: blue, green, red, and on a 32-bit display the fourth. */
    lemma PixelBytes(x: nat, y: nat, color: word)
      requires Valid() && CanDraw() && OnScreen(x, y)
      ensures Offset(x, y) + Depth() <= vram.Length
      ensures Pixel(x, y) == Shade(color) <==>
                && vram[Offset(x, y)] == color % 256
                && vram[Offset(x, y) + 1] == color / 0x100 % 256
                && vram[Offset(x, y) + 2] == color / 0x1_0000 % 256
                && (bpp == 32 ==> vram[Offset(x, y) + 3] == color / 0x100_0000)
    {
      hide Offset, LeWord;
      OffsetInBounds(x, y);
      ColorBytes(color);
      var o := Offset(x, y);
      var last: byte := if bpp == 32 then vram[o + 3] else 0;
      LeUnique([vram[o], vram[o + 1], vram[o + 2], last],
               if bpp == 32 then LeBytes(color) else LeBytes(color)[..3] + [0]);
    }

    static lemma InBounds(x: nat, y: nat, width: nat, height: nat, depth: nat, pitch: nat, length: nat)
      requires x < width && y < height && width * depth <= pitch && height * pitch <= length < TWO32
      ensures y * pitch + x * depth + depth <= length
      ensures Wrap(y * pitch) + Wrap(x * depth) == y * pitch + x * depth
    {
      hide Wrap;
      RowFits(x, width, depth, pitch);
      OffsetFits(y, height, pitch, x * depth + depth);
      WrapSum(y * pitch, x * depth);
    }

    static lemma OffsetFits(y: nat, height: nat, pitch: nat, row: nat)
      requires y < height && row <= pitch
      ensures y * pitch + row <= height * pitch
    {
      MulMonotone(y + 1, height, pitch);
      assert (y + 1) * pitch == y * pitch + pitch;
    }

    static lemma WrapSum(a: nat, b: nat)
      requires a + b < TWO32
      ensures Wrap(a) + Wrap(b) == a + b
    {
    }

    static lemma RowFits(x: nat, width: nat, depth: nat, pitch: nat)
      requires x < width && width * depth <= pitch
      ensures x * depth + depth <= pitch
    {
      MulMonotone(x + 1, width, depth);
      assert (x + 1) * depth == x * depth + depth;
    }

    /** Distinct pixels occupy disjoint bytes. */
    lemma PixelsDisjoint(x: nat, y: nat, x': nat, y': nat)
      requires Valid() && CanDraw() && OnScreen(x, y) && OnScreen(x', y') && (x != x' || y != y')
      ensures Offset(x, y) + Depth() <= Offset(x', y') || Offset(x', y') + Depth() <= Offset(x, y)
    {
      if y < y' || (y == y' && x < x') {
        PixelsOrdered(x, y, x', y');
      } else {
        PixelsOrdered(x', y', x, y);
      }
    }

    lemma PixelsOrdered(x: nat, y: nat, x': nat, y': nat)
      requires Valid() && CanDraw() && OnScreen(x, y) && OnScreen(x', y') && (y < y' || (y == y' && x < x'))
      ensures Offset(x, y) + Depth() <= Offset(x', y')
    {
      RowFits(x, width, Depth(), pitch);
      if y < y' {
        MulMonotone(y + 1, y', pitch);
        assert (y + 1) * pitch == y * pitch + pitch;
        assert x' * Depth() >= 0;
      } else {
        MulMonotone(x + 1, x', Depth());
        assert (x + 1) * Depth() == x * Depth() + Depth();
      }
    }

    /** The colour stored for a pixel; a 24-bit pixel has no fourth byte. */
    ghost function Pixel(x: nat, y: nat): word
      requires Valid() && CanDraw() && OnScreen(x, y)
      reads vram
    {
      OffsetInBounds(x, y);
      var o := Offset(x, y);
      LeWord(vram[o], vram[o + 1], vram[o + 2], if bpp == 32 then vram[o + 3] else 0)
    }

    /** What the display keeps of a 32-bit colour. */
    function Shade(color: word): word {
      if bpp == 32 then color else color % RGB
    }

    lemma ColorBytes(color: word)
      ensures var b := LeBytes(color);
              LeWord(b[0], b[1], b[2], b[3]) == color && LeWord(b[0], b[1], b[2], 0) == color % RGB
    {
      LeRoundTrip(color);
      assert color / 16777216 * 16777216 + color % RGB == color;
    }

    /** If only one pixel's bytes changed, every other pixel is as before. */
    twostate lemma OthersKept(p: (nat, nat))
      requires Valid() && CanDraw() && OnScreen(p.0, p.1)
      requires forall i | 0 <= i < vram.Length && !(Offset(p.0, p.1) <= i < Offset(p.0, p.1) + Depth()) ::
                 vram[i] == old(vram[i])
      ensures forall x, y | OnScreen(x, y) && (x != p.0 || y != p.1) :: Pixel(x, y) == old(Pixel(x, y))
    {
      forall x, y | OnScreen(x, y) && (x != p.0 || y != p.1)
        ensures Pixel(x, y) == old(Pixel(x, y))
      {
        PixelsDisjoint(x, y, p.0, p.1);
        OffsetInBounds(x, y);
        hide Offset;
      }
    }

    method PutPixel(x: word, y: word, color: word)
      requires Valid()
      modifies vram
      ensures CanDraw() && OnScreen(x, y) ==> Pixel(x, y) == Shade(color)
      ensures forall x', y' | CanDraw() && OnScreen(x', y') && (x' != x || y' != y) ::
                Pixel(x', y') == old(Pixel(x', y'))
      ensures forall i | 0 <= i < vram.Length
              && !(CanDraw() && OnScreen(x, y) && Offset(x, y) <= i < Offset(x, y) + Depth()) ::
                vram[i] == old(vram[i])
      ensures !CanDraw() || !OnScreen(x, y) ==> unchanged(vram)
    {
      if !CanDraw() || x >= width || y >= height {
        return;
      }
      OffsetInBounds(x, y);
      ColorBytes(color);
      var pixel := Wrap(y * pitch) + Wrap(x * (bpp / 8));
      vram[pixel] := color % 256;
      vram[pixel + 1] := (color / 256) % 256;
      vram[pixel + 2] := (color / 65536) % 256;
      if bpp == 32 {
        vram[pixel + 3] := color / 16777216;
      }
      OthersKept((x, y));
    }

    /** The terminal's own plotting routine, which clears the fourth byte and does no range check. */
    method Plot(x: word, y: word, color: word)
      requires Valid() && CanDraw() && OnScreen(x, y)
      modifies vram
      ensures Pixel(x, y) == color % RGB
      ensures forall x', y' | OnScreen(x', y') && (x' != x || y' != y) :: Pixel(x', y') == old(Pixel(x', y'))
    {
      OffsetInBounds(x, y);
      ColorBytes(color);
      var pixel := Wrap(y * pitch) + Wrap(x * (bpp / 8));
      vram[pixel] := color % 256;
      vram[pixel + 1] := (color / 256) % 256;
      vram[pixel + 2] := (color / 65536) % 256;
      if bpp == 32 {
        vram[pixel + 3] := 0;
      }
      OthersKept((x, y));
    }
  }
}
