/** The page map at boot and the display (src/kernel/kernel.c): whatever is drawn later reaches the display's memory. */
module BootMap {
  import opened Machine
  import opened PageEntries
  import opened Paging
  import opened Heap
  import opened UserSpace
  import Framebuffer

  /** The kernel finds the byte at its own address and may write there, or the address is that of a user page. */
  ghost predicate ByteMapped(t: PageTables, a: nat)
    requires t.Valid()
    reads t, t.directory, t.tables
  {
    var page := a / PAGE_SIZE;
    page < PAGES && (UserPages(page) || t.Lookup(page) == Mapping(page * PAGE_SIZE, true, false))
  }

  /** All bytes of a pixel, as src/kernel/framebuffer.c addresses them. */
  ghost predicate PixelMapped(t: PageTables, d: Framebuffer.Display, x: nat, y: nat)
    requires t.Valid()
    reads t, t.directory, t.tables
  {
    var first := d.address + y * d.pitch + x * (d.bpp / 8);
    forall a: nat | first <= a < first + d.bpp / 8 :: ByteMapped(t, a)
  }

  /** Paging is set up for the display the boot loader described. Unless the kernel panics, and unless the display ends
      in the last page of the address space, every pixel is then mapped for the kernel. */
  method SetUpPaging(t: PageTables, heap: Allocator, mem: array<byte>, d: Framebuffer.Display) returns (ok: bool)
    requires t.Layout() && PageHeap(heap.View()) && heap.heapEnd <= mem.Length && d.Valid()
    requires mem as object != t.directory && mem as object != t.tables
    modifies t`count, t`owner, t.directory, t.tables, heap, mem
    ensures ok ==> t.Valid() && forall a: nat | a < heap.heapEnd || a < 0x100_0000 :: ByteMapped(t, a)
    ensures ok && d.CanDraw() && d.address + d.pitch * d.height <= TWO32 - PAGE_SIZE ==>
              forall x: nat, y: nat | x < d.width && y < d.height :: PixelMapped(t, d, x, y)
  {
    hide UserPages, ClearedIn, ClearedFrom, ClearedPages, RoomFor, FirstFrame, ZeroFrames, t.Lookup, d.Valid;
    ok := Boot(t, heap, mem, d.available, d.address, d.pitch, d.height);
    if ok {
      LowMapped(t, heap.heapEnd);
      if d.CanDraw() && d.address + d.pitch * d.height <= TWO32 - PAGE_SIZE {
        RowsMapped(t, d);
      }
    }
  }

  lemma LowMapped(t: PageTables, end: word)
    requires t.Valid() && end <= TWO32 - PAGE_SIZE
    requires forall a: nat | (a < end || a < 0x100_0000) && !UserPages(a / PAGE_SIZE) :: t.KernelOwn(a / PAGE_SIZE)
    ensures forall a: nat | a < end || a < 0x100_0000 :: ByteMapped(t, a)
  {
    hide t.Lookup, UserPages;
    forall a: nat | a < end || a < 0x100_0000
      ensures ByteMapped(t, a)
    {
      assert !UserPages(a / PAGE_SIZE) ==> t.KernelOwn(a / PAGE_SIZE);
    }
  }

  lemma RowsMapped(t: PageTables, d: Framebuffer.Display)
    requires t.Valid() && d.Valid() && d.CanDraw() && d.address + d.pitch * d.height <= TWO32 - PAGE_SIZE
    requires forall a: nat | d.address <= a < d.address + d.pitch * d.height && !UserPages(a / PAGE_SIZE) ::
               t.KernelOwn(a / PAGE_SIZE)
    ensures forall x: nat, y: nat | x < d.width && y < d.height :: PixelMapped(t, d, x, y)
  {
    hide t.Lookup, t.Valid, UserPages;
    forall x: nat, y: nat | x < d.width && y < d.height
      ensures PixelMapped(t, d, x, y)
    {
      var first := d.address + d.Offset(x, y);
      d.PixelPlaces(x, y, d.Depth() - 1);
      forall a: nat | first <= a < first + d.Depth()
        ensures ByteMapped(t, a)
      {
        assert d.address <= a < d.address + d.pitch * d.height;
        assert !UserPages(a / PAGE_SIZE) ==> t.KernelOwn(a / PAGE_SIZE);
      }
    }
  }
}
