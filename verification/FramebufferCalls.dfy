/** The drawing system calls of src/kernel/syscall.c: who may draw, what the request says, and what is drawn. */
module FramebufferCalls {
  import opened Machine
  import opened UserMemory
  import opened Processes
  import opened Ownership
  import opened Syscalls
  import Framebuffer
  import Blit
  import Scheduler
  import Fairness

  const BLIT_SIZE: nat := 28
  const RECT_SIZE: nat := 20

  /** syscall_framebuffer_available: unlike the drawing code it does not look at the address. */
  predicate Available(d: Framebuffer.Display) {
    d.available && d.kind == 1 && (d.bpp == 24 || d.bpp == 32)
  }

  /** The checks every drawing call starts with. */
  predicate MayDraw(k: Kernel, d: Framebuffer.Display, fd: word)
    requires k.Valid()
    reads k, k.table, k.table.slots, k.scheduler, k.scheduler.ring
  {
    && k.Using(fd) && k.KindOf(fd) == Framebuffer
    && k.owner == k.table.slots[k.table.current].pid && Available(d)
  }

  /** On an available display drawing has an effect exactly when its address is not 0: the system calls do not look. */
  lemma DrawsIffAddressed(d: Framebuffer.Display)
    requires Available(d)
    ensures d.CanDraw() <==> d.address != 0
  {
  }

  /** Whatever descriptors it has, a process that does not own the framebuffer may not draw, nor may one without a
      descriptor on it, nor anybody without a linear display of 24 or 32 bits. */
  lemma WhoMayNotDraw(k: Kernel, d: Framebuffer.Display, fd: word)
    requires k.Valid()
    ensures k.table.current < 0 || k.owner != k.table.slots[k.table.current].pid ==> !MayDraw(k, d, fd)
    ensures !d.available || d.kind != 1 || d.bpp !in {24, 32} ==> !MayDraw(k, d, fd)
    ensures fd >= 8 ==> !MayDraw(k, d, fd)
    ensures k.table.current >= 0 && fd < 8 && !k.table.slots[k.table.current].fds[fd].inUse ==> !MayDraw(k, d, fd)
    ensures k.table.current >= 0 && fd < 8 && k.table.slots[k.table.current].fds[fd].kind != Framebuffer ==>
              !MayDraw(k, d, fd)
  {
  }

  /** Two displays that differ in their address only, say because one has none, take the same calls with the same
      result. */
  lemma AddressDoesNotDecide(k: Kernel, d: Framebuffer.Display, e: Framebuffer.Display, fd: word, r: Regions,
                             m: seq<byte>, request: word)
    requires k.Valid() && d.available == e.available && d.kind == e.kind && d.bpp == e.bpp
    requires d.width == e.width && d.height == e.height && d.pitch == e.pitch
    ensures MayDraw(k, d, fd) == MayDraw(k, e, fd)
    ensures RectAccepted(d, r, m, request) == RectAccepted(e, r, m, request)
    ensures BlitAccepted(d, r, m, request) == BlitAccepted(e, r, m, request)
  {
    hide ValidRange, BlitRequest, RectRequest;
  }

  /** In a sound system the ownership check never fails for a process in a call that has the descriptor. */
  lemma HolderMayDraw(k: Kernel, d: Framebuffer.Display, fd: word, capacity: nat)
    requires k.Valid() && Inv(k.View(), capacity)
    ensures MayDraw(k, d, fd) <==> k.Using(fd) && k.KindOf(fd) == Framebuffer && Available(d)
  {
    hide Fairness.RingOk, Fairness.AllRegistered, SlotsOk;
    if k.Using(fd) && k.KindOf(fd) == Framebuffer {
      OneHolds(k.table.slots[k.table.current], fd);
      OwnerIs(k.View(), k.table.current);
    }
  }

  /** The request a user program has at an address: seven little-endian words. */
  function BlitRequest(m: seq<byte>, a: nat): Blit.Request
    requires a + BLIT_SIZE <= |m|
  {
    Blit.Request(WordAt(m, a), WordAt(m, a + 4), WordAt(m, a + 8), WordAt(m, a + 12),
                 WordAt(m, a + 16), WordAt(m, a + 20), WordAt(m, a + 24))
  }

  lemma SameRequest(m: seq<byte>, a: nat, b: seq<byte>)
    requires a + BLIT_SIZE <= |m| && b == m[a..a + BLIT_SIZE]
    ensures BlitRequest(b, 0) == BlitRequest(m, a)
  {
  }

  /** A user program's side: the words of a request in the order of the structure. */
  function RequestBytes(q: Blit.Request): (b: seq<byte>)
    ensures |b| == BLIT_SIZE
  {
    LeBytes(q.dstX) + LeBytes(q.dstY) + LeBytes(q.width) + LeBytes(q.height) + LeBytes(q.source) + LeBytes(q.stride)
        + LeBytes(q.format)
  }

  /** The kernel reads the request the program wrote. */
  lemma RequestRoundTrip(q: Blit.Request)
    ensures BlitRequest(RequestBytes(q), 0) == q
  {
    hide LeBytes, LeWord;
    LeRoundTrip(q.dstX);
    LeRoundTrip(q.dstY);
    LeRoundTrip(q.width);
    LeRoundTrip(q.height);
    LeRoundTrip(q.source);
    LeRoundTrip(q.stride);
    LeRoundTrip(q.format);
  }

  /** The request is readable, and passes what is checked before the first row is read. */
  predicate BlitChecked(d: Framebuffer.Display, r: Regions, m: seq<byte>, request: word) {
    request != 0 && ValidRange(r, request, BLIT_SIZE) && request + BLIT_SIZE <= |m|
        && Blit.Checked(d, BlitRequest(m, request))
  }

  /** The request is readable and acceptable. */
  predicate BlitAccepted(d: Framebuffer.Display, r: Regions, m: seq<byte>, request: word) {
    request != 0 && ValidRange(r, request, BLIT_SIZE) && request + BLIT_SIZE <= |m|
        && Blit.Accepted(d, r, BlitRequest(m, request))
  }

  /** syscall_fb_blit: it succeeds exactly for the framebuffer's owner with an acceptable request; then the destination
      rectangle is the source image, pixel by pixel. Outside the rectangle nothing changes in any case. */
  method FbBlit(k: Kernel, d: Framebuffer.Display, fd: word, request: word) returns (r: word)
    requires k.Valid() && d.Valid() && k.mem != d.vram && d.vram as object != k.scheduler.ring
             && d.vram as object != k.table.slots
    requires k.table.current >= 0 ==> Holds(k.CurrentRegions(), k.mem)
    modifies d.vram
    ensures r == 0 || r == FAIL
    ensures r == 0 <==> MayDraw(k, d, fd) && BlitAccepted(d, k.CurrentRegions(), k.mem[..], request)
    ensures r == 0 ==>
              var q := BlitRequest(k.mem[..], request);
              forall px: nat, py: nat | d.CanDraw() && d.OnScreen(px, py)
                  && Blit.InRect(q.dstX, q.dstY, q.width, q.height, px, py) ::
                Blit.RowFits(k.mem, q, py - q.dstY) && d.Pixel(px, py) == d.Shade(Blit.SourceWord(k.mem[..], q, px, py))
    ensures r == 0 ==> if d.address != 0 then d.CanDraw() else unchanged(d.vram)
    ensures request + BLIT_SIZE <= k.mem.Length ==>
              var q := BlitRequest(k.mem[..], request); Blit.OutsideKept(d, q.dstX, q.dstY, q.width, q.height)
    ensures !MayDraw(k, d, fd) || !BlitChecked(d, k.CurrentRegions(), k.mem[..], request) ==> unchanged(d.vram)
  {
    hide ValidRange, Blit.Accepted, Blit.Checked, d.CanDraw, d.Pixel, d.Shade, Blit.SourceWord, Blit.RowFits, Separated,
         Blit.ByteOutside, BlitRequest, Scheduler.InSlots;
    if !MayDraw(k, d, fd) || request == 0 {
      return FAIL;
    }
    var copied, bytes := CopyFromUser(k.mem, k.CurrentRegions(), request, BLIT_SIZE);
    if !copied {
      return FAIL;
    }
    SameRequest(k.mem[..], request, bytes);
    DrawsIffAddressed(d);
    var drawn := Blit.Copy(d, k.mem, k.CurrentRegions(), BlitRequest(bytes, 0));
    return if drawn then 0 else FAIL;
  }

  /** syscall_fb_putpixel: it succeeds exactly for the framebuffer's owner and a pixel of the display. */
  method FbPutPixel(k: Kernel, d: Framebuffer.Display, fd: word, x: word, y: word, color: word) returns (r: word)
    requires k.Valid() && d.Valid() && d.vram as object != k.scheduler.ring && d.vram as object != k.table.slots
    modifies d.vram
    ensures r == 0 || r == FAIL
    ensures r == 0 <==> MayDraw(k, d, fd) && x < d.width && y < d.height
    ensures r == 0 && d.CanDraw() ==> d.Pixel(x, y) == d.Shade(color)
    ensures Blit.OutsideKept(d, x, y, 1, 1) && (r == FAIL ==> unchanged(d.vram))
  {
    hide d.Pixel, d.Shade, Scheduler.InSlots;
    if !MayDraw(k, d, fd) || x >= d.width || y >= d.height {
      return FAIL;
    }
    Blit.PutInRect(d, x, y, color);
    return 0;
  }

  /** syscall_fb_fill_rect. */
  method FbFillRect(k: Kernel, d: Framebuffer.Display, fd: word, request: word) returns (r: word)
    requires k.Valid() && d.Valid() && k.mem != d.vram && d.vram as object != k.scheduler.ring
             && d.vram as object != k.table.slots
    requires k.table.current >= 0 ==> Holds(k.CurrentRegions(), k.mem)
    modifies d.vram
    ensures r == 0 || r == FAIL
    ensures r == 0 <==> MayDraw(k, d, fd) && RectAccepted(d, k.CurrentRegions(), k.mem[..], request)
    ensures r == FAIL ==> unchanged(d.vram)
    ensures r == 0 ==> if d.address != 0 then d.CanDraw() else unchanged(d.vram)
    ensures r == 0 ==>
              var (x, y, width, height, color) := RectRequest(k.mem[..], request);
              && Blit.OutsideKept(d, x, y, width, height)
              && forall px: nat, py: nat | d.CanDraw() && d.OnScreen(px, py)
                 && Blit.InRect(x, y, width, height, px, py) ::
                   d.Pixel(px, py) == d.Shade(color)
  {
    hide ValidRange, d.CanDraw, d.Pixel, d.Shade, Separated, Blit.ByteOutside, RectRequest, Scheduler.InSlots;
    if !MayDraw(k, d, fd) || request == 0 {
      return FAIL;
    }
    var copied, bytes := CopyFromUser(k.mem, k.CurrentRegions(), request, RECT_SIZE);
    if !copied {
      return FAIL;
    }
    SameRect(k.mem[..], request, bytes);
    var (x, y, width, height, color) := RectRequest(bytes, 0);
    if !Blit.RectValid(d, x, y, width, height) {
      return FAIL;
    }
    DrawsIffAddressed(d);
    Blit.DrawRect(d, x, y, width, height, color);
    return 0;
  }

  function RectRequest(m: seq<byte>, a: nat): (word, word, word, word, word)
    requires a + RECT_SIZE <= |m|
  {
    (WordAt(m, a), WordAt(m, a + 4), WordAt(m, a + 8), WordAt(m, a + 12), WordAt(m, a + 16))
  }

  function RectBytes(x: word, y: word, width: word, height: word, color: word): (b: seq<byte>)
    ensures |b| == RECT_SIZE
  {
    LeBytes(x) + LeBytes(y) + LeBytes(width) + LeBytes(height) + LeBytes(color)
  }

  /** The kernel reads the rectangle the program wrote. */
  lemma RectRoundTrip(x: word, y: word, width: word, height: word, color: word)
    ensures RectRequest(RectBytes(x, y, width, height, color), 0) == (x, y, width, height, color)
  {
    hide LeBytes, LeWord;
    LeRoundTrip(x);
    LeRoundTrip(y);
    LeRoundTrip(width);
    LeRoundTrip(height);
    LeRoundTrip(color);
  }

  lemma SameRect(m: seq<byte>, a: nat, b: seq<byte>)
    requires a + RECT_SIZE <= |m| && b == m[a..a + RECT_SIZE]
    ensures RectRequest(b, 0) == RectRequest(m, a)
  {
  }

  predicate RectAccepted(d: Framebuffer.Display, r: Regions, m: seq<byte>, request: word) {
    && request != 0 && ValidRange(r, request, RECT_SIZE) && request + RECT_SIZE <= |m|
    && var (x, y, width, height, color) := RectRequest(m, request); Blit.RectValid(d, x, y, width, height)
  }
}
