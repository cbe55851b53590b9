/** The initial user image and stack (paging_map_initial_user_space in src/kernel/paging.c): fresh heap frames mapped
    over the kernel's identity map. */
module UserSpace {
  import opened Machine
  import opened Heap
  import opened PageEntries
  import opened Paging
  import Memory

  const IMAGE_BASE: word := 0x40_0000
  const IMAGE_PAGES: nat := 256
  const STACK_PAGES: nat := 32
  const STACK_TOP: word := 0x80_0000
  const STACK_BOTTOM: word := STACK_TOP - STACK_PAGES * PAGE_SIZE

  const USER_PAGES: nat := IMAGE_PAGES + STACK_PAGES

  // ---- user pages and their frames ----

  /** Where the user image and the user stack are, in pages. */
  const IMAGE_PAGE: nat := 0x400
  const STACK_PAGE: nat := 0x7E0

  predicate UserPages(page: nat) {
    IMAGE_PAGE <= page < IMAGE_PAGE + IMAGE_PAGES || STACK_PAGE <= page < STACK_PAGE + STACK_PAGES
  }

  /** The place of a user page in the order of mapping: image pages first, then stack pages. */
  function FrameIndex(page: nat): (i: nat)
    requires UserPages(page)
    ensures i < USER_PAGES && UserPage(i) == page
  {
    if page < STACK_PAGE then page - IMAGE_PAGE else IMAGE_PAGES + (page - STACK_PAGE)
  }

  function UserPage(i: nat): (page: nat)
    requires i < USER_PAGES
    ensures UserPages(page)
  {
    if i < IMAGE_PAGES then IMAGE_PAGE + i else STACK_PAGE + (i - IMAGE_PAGES)
  }

  /** The first whole page of the free heap: the i-th user page gets the i-th frame from there on. */
  function FirstFrame(current: nat): nat {
    RoundUp(current, PAGE_SIZE) / PAGE_SIZE
  }

  /** The frame that step i clears. The kernel clears through its own page map, so when the address of frame i is that
      of a user page mapped before, it is the frame of that page. */
  function Target(q: nat, i: nat): (j: nat)
    ensures j <= i
  {
    if UserPages(q + i) && FrameIndex(q + i) < i then FrameIndex(q + i) else i
  }

  /** The pages of memory cleared in the first n steps. */
  ghost function ClearedPages(q: nat, n: nat): set<nat> {
    set k | 0 <= k < n :: q + Target(q, k)
  }

  /** The frame of the i-th user page is cleared at some step. */
  ghost predicate Cleared(q: nat, i: nat) {
    q + i in ClearedPages(q, USER_PAGES)
  }

  /** Some pages of memory are cleared, the rest is as it was. */
  ghost predicate ClearedIn(now: seq<byte>, before: seq<byte>, pages: set<nat>) {
    && |now| == |before|
    && forall a | 0 <= a < |before| :: now[a] == if a / PAGE_SIZE in pages then 0 else before[a]
  }

  /** Bytes are as they were or, from an address on, cleared. */
  predicate ClearedFrom(now: seq<byte>, before: seq<byte>, low: nat) {
    |now| == |before| && forall a | 0 <= a < |before| :: now[a] == before[a] || (low <= a && now[a] == 0)
  }

  /** The frames of all user pages are zero. */
  predicate ZeroFrames(bytes: seq<byte>, q: nat) {
    forall a | 0 <= a < |bytes| && q <= a / PAGE_SIZE < q + USER_PAGES :: bytes[a] == 0
  }

  /** The heap pointers at which some frame is never cleared. */
  predicate Missed(q: nat) {
    0x2E1 <= q <= 0x3FF || 0x6C1 <= q <= 0x6DF
  }

  /** The frame of step i is cleared in its own step, or when the address of a later frame is that of its user page. */
  lemma ClearedIff(q: nat, i: nat)
    requires i < USER_PAGES
    ensures Cleared(q, i) <==> Target(q, i) == i || q + i < UserPage(i) < q + USER_PAGES
  {
    if Cleared(q, i) {
      var k :| 0 <= k < USER_PAGES && q + Target(q, k) == q + i;
      assert Target(q, k) == i;
    }
    if q + i < UserPage(i) < q + USER_PAGES {
      assert Target(q, UserPage(i) - q) == i;
    }
    if Target(q, i) == i {
      assert q + Target(q, i) == q + i;
    }
  }

  /** Every frame is cleared exactly when the heap pointer is in none of the bad places. */
  lemma AllClearedIff(q: nat)
    ensures (forall i: nat | i < USER_PAGES :: Cleared(q, i)) <==> !Missed(q)
  {
    hide Cleared;
    if Missed(q) {
      var i := if q <= 0x300 then USER_PAGES - 1
               else if q <= 0x3FF then IMAGE_PAGES
               else USER_PAGES - 1;
      ClearedIff(q, i);
      assert !Cleared(q, i);
    } else {
      forall i: nat | i < USER_PAGES
        ensures Cleared(q, i)
      {
        ClearedIff(q, i);
      }
    }
  }

  /** After the boot calls all user frames are zero, whatever memory held before, exactly when the heap pointer was in
      none of the bad places. */
  lemma ZeroFramesIff(q: nat, size: nat)
    requires (q + USER_PAGES) * PAGE_SIZE <= size
    ensures (forall now: seq<byte>, before: seq<byte> ::
               |before| == size && ClearedIn(now, before, ClearedPages(q, USER_PAGES)) ==> ZeroFrames(now, q))
            <==> !Missed(q)
  {
    hide ClearedPages, UserPages;
    AllClearedIff(q);
    if Missed(q) {
      var i: nat :| i < USER_PAGES && !Cleared(q, i);
      var pages := ClearedPages(q, USER_PAGES);
      var before: seq<byte> := seq(size, _ => 1);
      var now: seq<byte> := seq(size, a => if a / PAGE_SIZE in pages then 0 else 1);
      assert ClearedIn(now, before, pages);
      assert (q + i) * PAGE_SIZE / PAGE_SIZE == q + i;
      assert now[(q + i) * PAGE_SIZE] == 1;
    } else {
      forall now: seq<byte>, before: seq<byte> | |before| == size && ClearedIn(now, before, ClearedPages(q, USER_PAGES))
        ensures ZeroFrames(now, q)
      {
        ZeroIfCleared(now, before, q);
      }
    }
  }

  lemma ZeroIfCleared(now: seq<byte>, before: seq<byte>, q: nat)
    requires ClearedIn(now, before, ClearedPages(q, USER_PAGES)) && !Missed(q)
    ensures ZeroFrames(now, q)
  {
    hide ClearedPages;
    AllClearedIff(q);
    forall a | 0 <= a < |now| && q <= a / PAGE_SIZE < q + USER_PAGES
      ensures now[a] == 0
    {
      assert Cleared(q, a / PAGE_SIZE - q);
    }
  }

  /** With the heap pointer at 0x3FF000 the lowest page of the user stack keeps what memory held: its frame is under the
      last page of the image. */
  lemma StackPageMissed(now: seq<byte>, before: seq<byte>)
    requires ClearedIn(now, before, ClearedPages(0x3FF, USER_PAGES))
    ensures UserPage(IMAGE_PAGES) == STACK_PAGE && 0x3FF + IMAGE_PAGES == UserPage(IMAGE_PAGES - 1)
    ensures forall a | 0 <= a < |before| && a / PAGE_SIZE == 0x3FF + IMAGE_PAGES :: now[a] == before[a]
  {
    hide ClearedPages;
    ClearedIff(0x3FF, IMAGE_PAGES);
  }

  // ---- the heap ----

  /** A heap whose last page-sized allocation cannot wrap. */
  predicate PageHeap(a: Arena) {
    ArenaOk(a) && a.end <= TWO32 - 2 * PAGE_SIZE
  }

  /** The heap holds n more page-aligned pages. */
  predicate RoomFor(a: Arena, n: nat) {
    n == 0 || RoundUp(a.current, PAGE_SIZE) + n * PAGE_SIZE <= a.end
  }

  /** Taking a page succeeds exactly when there is room for one, and leaves room for one less. */
  lemma PageAllocation(a: Arena, n: nat)
    requires PageHeap(a) && n >= 1
    ensures var (b, p) := Alloc(a, PAGE_SIZE, PAGE_SIZE);
            && PageHeap(b) && b.start == a.start && b.end == a.end && p % PAGE_SIZE == 0
            && (p == 0 ==> b == a && !RoomFor(a, n))
            && (p != 0 ==> p == RoundUp(a.current, PAGE_SIZE) && p + PAGE_SIZE == b.current <= a.end
                           && (RoomFor(a, n) <==> RoomFor(b, n - 1)))
  {
    AllocBlock(a, PAGE_SIZE, PAGE_SIZE);
    RoundUpIsLeastMultiple(a.current, PAGE_SIZE);
    var next := RoundUp(a.current, PAGE_SIZE) + PAGE_SIZE;
    assert RoundUp(next, PAGE_SIZE) == next;
  }

  // ---- mapping page by page ----

  /** The whole page map. */
  ghost function Pages(t: PageTables): (pages: seq<Mapping>)
    requires t.Valid()
    reads t, t.directory, t.tables
    ensures |pages| == PAGES
  {
    seq(PAGES, q requires 0 <= q < PAGES && t.Valid() reads t, t.directory, t.tables => t.Lookup(q))
  }

  /** The first n user pages are mapped to their frames, all other translations are as before. */
  ghost predicate UserMapped(now: seq<Mapping>, before: seq<Mapping>, q: nat, n: nat)
    requires (q + n) * PAGE_SIZE <= TWO32
  {
    && |now| == |before|
    && forall page | 0 <= page < |now| ::
         now[page] == if UserPages(page) && FrameIndex(page) < n
                      then Mapping((q + FrameIndex(page)) * PAGE_SIZE, true, true)
                      else before[page]
  }

  /** The kernel finds every page of the free heap at its own address. */
  predicate HeapMapped(pages: seq<Mapping>, low: nat, end: nat) {
    forall page | 0 <= page < |pages| && low <= page * PAGE_SIZE && page * PAGE_SIZE + PAGE_SIZE <= end ::
      pages[page].Mapping? && pages[page].frame == page * PAGE_SIZE
  }

  /** The next frame of the heap is that page. */
  ghost predicate NextIs(heapCurrent: nat, page: nat) {
    RoundUp(heapCurrent, PAGE_SIZE) == page * PAGE_SIZE
  }

  /** The heap pointer is at the start of that page. */
  ghost predicate EndsAt(heapCurrent: nat, page: nat) {
    heapCurrent == page * PAGE_SIZE
  }

  /** Page map and memory after n steps. */
  ghost predicate Stage(pages: seq<Mapping>, pages0: seq<Mapping>, bytes: seq<byte>, bytes0: seq<byte>, q: nat,
                        n: nat) {
    && (q + n) * PAGE_SIZE <= TWO32
    && UserMapped(pages, pages0, q, n) && ClearedIn(bytes, bytes0, ClearedPages(q, n))
  }

  lemma StartStage(pages: seq<Mapping>, bytes: seq<byte>, q: nat)
    requires q * PAGE_SIZE <= TWO32
    ensures Stage(pages, pages, bytes, bytes, q, 0)
  {
  }

  /** What the next step finds at the address of its frame. */
  lemma FoundFrame(pages: seq<Mapping>, pages0: seq<Mapping>, q: nat, i: nat, end: nat)
    requires (q + i) * PAGE_SIZE + PAGE_SIZE <= end < TWO32 && |pages| == PAGES
    requires UserMapped(pages, pages0, q, i) && HeapMapped(pages0, q * PAGE_SIZE, end)
    ensures pages[q + i].Mapping? && pages[q + i].frame == (q + Target(q, i)) * PAGE_SIZE
  {
    hide UserPages;
  }

  lemma NextStage(pages: seq<Mapping>, pages0: seq<Mapping>, bytes: seq<byte>, middle: seq<byte>, bytes0: seq<byte>,
                  q: nat, i: nat)
    requires Stage(pages, pages0, middle, bytes0, q, i) && ClearedIn(bytes, middle, {q + Target(q, i)})
    requires i < USER_PAGES && |pages| == PAGES && (q + i + 1) * PAGE_SIZE <= TWO32
    ensures Stage(pages[UserPage(i) := Mapping((q + i) * PAGE_SIZE, true, true)], pages0, bytes, bytes0, q, i + 1)
  {
    hide Target;
    assert ClearedPages(q, i + 1) == ClearedPages(q, i) + {q + Target(q, i)};
  }

  lemma StillCleared(now: seq<byte>, middle: seq<byte>, before: seq<byte>, low: nat)
    requires ClearedFrom(now, middle, low) && ClearedFrom(middle, before, low)
    ensures ClearedFrom(now, before, low)
  {
  }

  lemma NothingCleared(bytes: seq<byte>, low: nat)
    ensures ClearedFrom(bytes, bytes, low)
  {
  }

  lemma OneCleared(now: seq<byte>, before: seq<byte>, q: nat, i: nat)
    requires ClearedIn(now, before, {q + i})
    ensures ClearedFrom(now, before, q * PAGE_SIZE)
  {
  }

  /** A page from the heap, cleared through the page map, or the null address. */
  method TakeZeroPage(t: PageTables, heap: Allocator, mem: array<byte>, ghost n: nat, ghost target: nat)
    returns (p: word)
    requires PageHeap(heap.View()) && heap.heapEnd <= mem.Length && n >= 1
    requires t.Valid() && mem as object != t.directory && mem as object != t.tables
    requires RoomFor(heap.View(), 1) ==>
               FirstFrame(heap.heapCurrent) < PAGES && target * PAGE_SIZE + PAGE_SIZE <= mem.Length
               && var m := Pages(t)[FirstFrame(heap.heapCurrent)]; m.Mapping? && m.frame == target * PAGE_SIZE
    modifies heap, mem
    ensures PageHeap(heap.View()) && heap.heapEnd == old(heap.heapEnd) && p % PAGE_SIZE == 0
    ensures p == 0 ==> !RoomFor(old(heap.View()), n) && mem[..] == old(mem[..])
    ensures p != 0 ==>
              p == RoundUp(old(heap.heapCurrent), PAGE_SIZE) && p + PAGE_SIZE == heap.heapCurrent
              && ClearedIn(mem[..], old(mem[..]), {target})
    ensures p != 0 ==> (RoomFor(old(heap.View()), n) <==> RoomFor(heap.View(), n - 1))
    ensures t.Valid() && Pages(t) == old(Pages(t))
  {
    hide Alloc, t.Valid, t.Lookup;
    ghost var pages := Pages(t);
    PageAllocation(heap.View(), n);
    Pow2Values();
    p := heap.KmallocAligned(PAGE_SIZE, PAGE_SIZE, 12);
    if p != 0 {
      Memory.MemSet(mem, t.Lookup(p / PAGE_SIZE).frame, 0, PAGE_SIZE);
    }
  }

  /** One user page: a frame from the heap, cleared through the page map as it is, and mapped at its place. */
  method MapOne(t: PageTables, heap: Allocator, mem: array<byte>, address: word, ghost n: nat, ghost q: nat,
                ghost i: nat, ghost pages0: seq<Mapping>, ghost bytes0: seq<byte>)
    returns (ok: bool)
    requires t.Valid() && PageHeap(heap.View()) && heap.heapEnd <= mem.Length && n >= 1
    requires mem as object != t.directory && mem as object != t.tables
    requires i < USER_PAGES && address == UserPage(i) * PAGE_SIZE
    requires NextIs(heap.heapCurrent, q + i) && HeapMapped(pages0, q * PAGE_SIZE, heap.heapEnd)
    requires Stage(Pages(t), pages0, mem[..], bytes0, q, i)
    modifies t`count, t`owner, t.directory, t.tables, heap, mem
    ensures t.Valid() && PageHeap(heap.View()) && heap.heapEnd == old(heap.heapEnd)
    ensures !ok ==> !RoomFor(old(heap.View()), n)
                    || (UserPage(i) / ENTRIES !in old(t.Slots()) && old(t.count) >= POOL)
    ensures ok ==> EndsAt(heap.heapCurrent, q + i + 1) && NextIs(heap.heapCurrent, q + i + 1)
    ensures ok ==> (RoomFor(old(heap.View()), n) <==> RoomFor(heap.View(), n - 1))
    ensures ok ==> t.Slots() == old(t.Slots()) + {UserPage(i) / ENTRIES}
    ensures ok ==> Stage(Pages(t), pages0, mem[..], bytes0, q, i + 1)
    ensures ClearedFrom(mem[..], old(mem[..]), q * PAGE_SIZE)
  {
    hide t.Lookup, t.Slots, t.SlotOk, t.UserOk, t.TableOk, Frame, ArenaOk, HeapMapped, UserMapped, ClearedIn,
         ClearedPages, Target, ClearedFrom, Stage, RoomFor, UserPages;
    ghost var bytes, pages := mem[..], Pages(t);
    StageFits(pages, pages0, bytes, bytes0, q, i, heap.View());
    NothingCleared(bytes, q * PAGE_SIZE);
    var p := TakeZeroPage(t, heap, mem, n, q + Target(q, i));
    if p == 0 {
      return false;
    }
    OneCleared(mem[..], bytes, q, Target(q, i));
    PageAddress(UserPage(i), p);
    HeapBound(heap.View());
    NextStage(pages, pages0, mem[..], bytes, bytes0, q, i);
    ok := t.MapPage(address, p, WRITABLE + USER);
    if ok {
      assert Pages(t) == pages[UserPage(i) := Mapping(p, true, true)];
      RoundedStays(q + i + 1);
    }
  }

  lemma StageFits(pages: seq<Mapping>, pages0: seq<Mapping>, bytes: seq<byte>, bytes0: seq<byte>, q: nat, i: nat,
                  a: Arena)
    requires Stage(pages, pages0, bytes, bytes0, q, i) && |pages| == PAGES && PageHeap(a)
    requires NextIs(a.current, q + i) && HeapMapped(pages0, q * PAGE_SIZE, a.end)
    ensures RoomFor(a, 1) ==>
              FirstFrame(a.current) == q + i < PAGES && (q + i) * PAGE_SIZE + PAGE_SIZE <= a.end
              && pages[q + i].Mapping? && pages[q + i].frame == (q + Target(q, i)) * PAGE_SIZE
  {
    hide UserMapped, ClearedIn, HeapMapped, ClearedPages, Target, UserPages;
    if RoomFor(a, 1) {
      FoundFrame(pages, pages0, q, i, a.end);
    }
  }

  lemma PageAddress(page: nat, physical: word)
    requires page < PAGES && physical % PAGE_SIZE == 0
    ensures page * PAGE_SIZE < TWO32 && page * PAGE_SIZE / PAGE_SIZE == page
    ensures page * PAGE_SIZE / 0x40_0000 == page / ENTRIES && Frame(physical) == physical
  {
  }

  /** The user pages from the i-th on, n in a row, get the next frames of the heap; not ok stands for the kernel's
      panic. */
  method MapUserPages(t: PageTables, heap: Allocator, mem: array<byte>, base: word, n: nat, ghost i: nat, ghost q: nat,
                      ghost pages0: seq<Mapping>, ghost bytes0: seq<byte>)
    returns (ok: bool)
    requires t.Valid() && PageHeap(heap.View()) && heap.heapEnd <= mem.Length
    requires mem as object != t.directory && mem as object != t.tables
    requires 1 <= n && i + n <= USER_PAGES && base == UserPage(i) * PAGE_SIZE
    requires i + n <= IMAGE_PAGES || IMAGE_PAGES <= i
    requires NextIs(heap.heapCurrent, q + i) && HeapMapped(pages0, q * PAGE_SIZE, heap.heapEnd)
    requires Stage(Pages(t), pages0, mem[..], bytes0, q, i)
    modifies t`count, t`owner, t.directory, t.tables, heap, mem
    ensures t.Valid() && PageHeap(heap.View()) && heap.heapEnd == old(heap.heapEnd)
    ensures ok <==>
              RoomFor(old(heap.View()), n)
              && |old(t.Slots()) + SlotsOf(base / PAGE_SIZE, base / PAGE_SIZE + n)| <= POOL
    ensures ok ==> EndsAt(heap.heapCurrent, q + i + n)
    ensures ok ==> t.Slots() == old(t.Slots()) + SlotsOf(base / PAGE_SIZE, base / PAGE_SIZE + n)
    ensures ok ==> Stage(Pages(t), pages0, mem[..], bytes0, q, i + n)
    ensures ClearedFrom(mem[..], old(mem[..]), q * PAGE_SIZE)
  {
    hide t.Lookup, t.Slots, t.SlotOk, t.UserOk, t.TableOk, SlotsOf, Alloc, RoomFor, RoundUp, t.Layout, t.Valid, Pow2,
         ClearedFrom, Pages, ArenaOk, Stage, HeapMapped, UserPages, UserPage, NextIs, EndsAt, Progress;
    t.ValidLayout();
    ghost var first, arena, slots, bytes := base / PAGE_SIZE, heap.View(), t.Slots(), mem[..];
    t.CountSlots();
    StartProgress(arena, slots, first, n, q + i);
    NothingCleared(bytes, q * PAGE_SIZE);
    for page := 0 to n
      invariant t.Valid() && PageHeap(heap.View()) && heap.heapEnd == old(heap.heapEnd)
      invariant Progress(arena, heap.View(), slots, t.Slots(), first, page, n, q + i)
      invariant Stage(Pages(t), pages0, mem[..], bytes0, q, i + page)
      invariant ClearedFrom(mem[..], bytes, q * PAGE_SIZE)
    {
      t.ValidLayout();
      t.CountSlots();
      ghost var here, before, a := mem[..], t.Slots(), heap.View();
      UserAddress(base, i, page);
      NextInProgress(arena, a, slots, before, first, page, n, q, i);
      ok := MapOne(t, heap, mem, base + page * PAGE_SIZE, n - page, q, i + page, pages0, bytes0);
      StillCleared(mem[..], here, bytes, q * PAGE_SIZE);
      if !ok {
        StuckProgress(arena, a, slots, before, first, page, n, q + i);
        return false;
      }
      t.CountSlots();
      MoreProgress(arena, a, heap.View(), slots, before, t.Slots(), first, page, n, q, i);
    }
    EndOfProgress(arena, heap.View(), slots, t.Slots(), first, n, q + i);
    ok := true;
  }

  /** Heap and directory slots after some of n pages. */
  ghost predicate Progress(a0: Arena, a: Arena, slots0: set<nat>, slots: set<nat>, first: nat, page: nat, n: nat,
                           start: nat)
  {
    && page <= n
    && (RoomFor(a0, n) <==> RoomFor(a, n - page))
    && NextIs(a.current, start + page) && (page > 0 ==> EndsAt(a.current, start + page))
    && slots == slots0 + SlotsOf(first, first + page) && |slots| <= POOL
  }

  lemma StartProgress(a: Arena, slots: set<nat>, first: nat, n: nat, start: nat)
    requires NextIs(a.current, start) && |slots| <= POOL
    ensures Progress(a, a, slots, slots, first, 0, n, start)
  {
    NoSlots(slots, first);
  }

  lemma NextInProgress(a0: Arena, a: Arena, slots0: set<nat>, slots: set<nat>, first: nat, page: nat, n: nat, q: nat,
                       i: nat)
    requires Progress(a0, a, slots0, slots, first, page, n, q + i)
    ensures NextIs(a.current, q + (i + page))
  {
    hide NextIs, EndsAt, RoomFor, SlotsOf;
    assert q + i + page == q + (i + page);
  }

  lemma MoreProgress(a0: Arena, a: Arena, b: Arena, slots0: set<nat>, slots: set<nat>, slots': set<nat>, first: nat,
                     page: nat, n: nat, q: nat, i: nat)
    requires Progress(a0, a, slots0, slots, first, page, n, q + i) && page < n
    requires RoomFor(a, n - page) <==> RoomFor(b, n - page - 1)
    requires NextIs(b.current, q + (i + page) + 1) && EndsAt(b.current, q + (i + page) + 1)
    requires slots' == slots + {(first + page) / ENTRIES} && |slots'| <= POOL
    ensures Progress(a0, b, slots0, slots', first, page + 1, n, q + i)
  {
    hide NextIs, EndsAt, RoomFor, SlotsOf;
    assert q + i + (page + 1) == q + (i + page) + 1;
    MoreSlots(first, first + page, first + n);
  }

  /** A page fails exactly when the whole run must. */
  lemma StuckProgress(a0: Arena, a: Arena, slots0: set<nat>, slots: set<nat>, first: nat, page: nat, n: nat, start: nat)
    requires Progress(a0, a, slots0, slots, first, page, n, start) && page < n
    requires !RoomFor(a, n - page) || (|slots| >= POOL && (first + page) / ENTRIES !in slots)
    ensures !RoomFor(a0, n) || |slots0 + SlotsOf(first, first + n)| > POOL
  {
    hide NextIs, EndsAt, RoomFor, SlotsOf;
    if RoomFor(a, n - page) {
      MoreSlots(first, first + page, first + n);
      PoolExceeded(slots, (first + page) / ENTRIES, slots0 + SlotsOf(first, first + n));
    }
  }

  lemma EndOfProgress(a0: Arena, a: Arena, slots0: set<nat>, slots: set<nat>, first: nat, n: nat, start: nat)
    requires Progress(a0, a, slots0, slots, first, n, n, start) && n >= 1
    ensures RoomFor(a0, n) && slots == slots0 + SlotsOf(first, first + n) && |slots| <= POOL
    ensures EndsAt(a.current, start + n)
  {
  }

  lemma UserAddress(base: word, i: nat, page: nat)
    requires i + page < USER_PAGES && (i + page < IMAGE_PAGES || IMAGE_PAGES <= i) && base == UserPage(i) * PAGE_SIZE
    ensures base / PAGE_SIZE + page == UserPage(i + page)
    ensures base + page * PAGE_SIZE == UserPage(i + page) * PAGE_SIZE < TWO32
  {
  }

  lemma RoundedStays(page: nat)
    ensures RoundUp(page * PAGE_SIZE, PAGE_SIZE) == page * PAGE_SIZE
  {
  }

  // ---- the initial user space ----

  /** paging_map_initial_user_space: the user pages, image first, go to the next frames of the heap for user mode, and
      all other translations stay. Which pages of memory are cleared is exact, and nothing else changes. */
  method MapInitialUserSpace(t: PageTables, heap: Allocator, mem: array<byte>) returns (ok: bool)
    requires t.Valid() && PageHeap(heap.View()) && heap.heapEnd <= mem.Length
    requires mem as object != t.directory && mem as object != t.tables
    requires HeapMapped(Pages(t), FirstFrame(heap.heapCurrent) * PAGE_SIZE, heap.heapEnd)
    modifies t`count, t`owner, t.directory, t.tables, heap, mem
    ensures t.Valid()
    ensures ok <==> RoomFor(old(heap.View()), USER_PAGES) && |old(t.Slots()) + {1}| <= POOL
    ensures ok ==> t.Slots() == old(t.Slots()) + {1}
    ensures ok ==> (FirstFrame(old(heap.heapCurrent)) + USER_PAGES) * PAGE_SIZE == heap.heapCurrent <= heap.heapEnd
    ensures ok ==> UserMapped(Pages(t), old(Pages(t)), FirstFrame(old(heap.heapCurrent)), USER_PAGES)
    ensures ok ==> ClearedIn(mem[..], old(mem[..]), ClearedPages(FirstFrame(old(heap.heapCurrent)), USER_PAGES))
    ensures heap.heapEnd == old(heap.heapEnd) && ClearedFrom(mem[..], old(mem[..]), old(heap.heapCurrent))
  {
    hide t.Lookup, t.Slots, t.SlotOk, t.UserOk, t.TableOk, SlotsOf, ClearedFrom, RoomFor, RoundUp, ArenaOk,
         UserMapped, ClearedIn, ClearedPages, HeapMapped, FirstFrame;
    UserSlots(t.Slots());
    ghost var low, arena, q := heap.heapCurrent, heap.View(), FirstFrame(heap.heapCurrent);
    ghost var pages, bytes := Pages(t), mem[..];
    RoomSplits(arena);
    FrameBounds(arena);
    StartStage(pages, bytes, q);
    ok := MapUserPages(t, heap, mem, IMAGE_BASE, IMAGE_PAGES, 0, q, pages, bytes);
    HigherFrom(mem[..], bytes, low, q * PAGE_SIZE);
    if !ok {
      return;
    }
    ghost var before := mem[..];
    RoomLeft(arena, heap.View());
    RoundedStays(q + IMAGE_PAGES);
    ok := MapUserPages(t, heap, mem, STACK_BOTTOM, STACK_PAGES, IMAGE_PAGES, q, pages, bytes);
    HigherFrom(mem[..], before, low, q * PAGE_SIZE);
    StillCleared(mem[..], before, bytes, low);
    HeapBound(heap.View());
  }

  lemma FrameBounds(a: Arena)
    requires PageHeap(a)
    ensures RoundUp(a.current, PAGE_SIZE) == FirstFrame(a.current) * PAGE_SIZE <= TWO32
    ensures a.current <= FirstFrame(a.current) * PAGE_SIZE
  {
    RoundUpIsLeastMultiple(a.current, PAGE_SIZE);
  }

  lemma HigherFrom(now: seq<byte>, before: seq<byte>, low: nat, high: nat)
    requires ClearedFrom(now, before, high) && low <= high
    ensures ClearedFrom(now, before, low)
  {
  }

  lemma UserSlots(s: set<nat>)
    ensures SlotsOf(IMAGE_PAGE, IMAGE_PAGE + IMAGE_PAGES) == {1} && SlotsOf(STACK_PAGE, STACK_PAGE + STACK_PAGES) == {1}
    ensures s + {1} + {1} == s + {1}
  {
    assert IMAGE_PAGE / ENTRIES in SlotsOf(IMAGE_PAGE, IMAGE_PAGE + IMAGE_PAGES);
    assert STACK_PAGE / ENTRIES in SlotsOf(STACK_PAGE, STACK_PAGE + STACK_PAGES);
  }

  lemma RoomSplits(a: Arena)
    ensures RoomFor(a, IMAGE_PAGES + STACK_PAGES) ==> RoomFor(a, IMAGE_PAGES)
  {
  }

  lemma RoomLeft(a: Arena, b: Arena)
    requires b.end == a.end && b.current == (FirstFrame(a.current) + IMAGE_PAGES) * PAGE_SIZE
    ensures RoomFor(a, IMAGE_PAGES + STACK_PAGES) <==> RoomFor(b, STACK_PAGES)
  {
    RoundUpIsLeastMultiple(a.current, PAGE_SIZE);
    RoundedStays(FirstFrame(a.current) + IMAGE_PAGES);
  }

  lemma HeapBound(a: Arena)
    requires PageHeap(a)
    ensures a.current <= a.end
  {
  }

  /** The two calls at boot. They do not panic exactly when the distinct directory slots fit the pool and the heap has
      room; then user pages have frames of their own, all other kernel pages map to themselves for the kernel only, and
      the pool holds one table for each slot. The user pages are zero unless the heap pointer is in a bad place. */
  method Boot(t: PageTables, heap: Allocator, mem: array<byte>, framebuffer: bool, address: word, pitch: word,
              rows: word)
      returns (ok: bool)
    requires t.Layout() && PageHeap(heap.View()) && heap.heapEnd <= mem.Length
    requires mem as object != t.directory && mem as object != t.tables
    modifies t`count, t`owner, t.directory, t.tables, heap, mem
    ensures ok <==> |t.KernelSlots(old(heap.heapEnd), framebuffer, address, pitch, rows) + {1}| <= POOL
                    && RoomFor(old(heap.View()), USER_PAGES)
    ensures ok ==> t.Valid() && t.count == |t.KernelSlots(old(heap.heapEnd), framebuffer, address, pitch, rows) + {1}|
    ensures ok ==> (FirstFrame(old(heap.heapCurrent)) + USER_PAGES) * PAGE_SIZE == heap.heapCurrent <= heap.heapEnd
    ensures ok ==> forall page: nat | page < PAGES ::
              t.Lookup(page) == if UserPages(page)
                                then Mapping((FirstFrame(old(heap.heapCurrent)) + FrameIndex(page)) * PAGE_SIZE, true,
                                             true)
                                else if t.InKernel(page, old(heap.heapEnd), framebuffer, address, pitch, rows)
                                     then Mapping(page * PAGE_SIZE, true, false)
                                else Unmapped
    ensures ok ==> ClearedIn(mem[..], old(mem[..]), ClearedPages(FirstFrame(old(heap.heapCurrent)), USER_PAGES))
    ensures ok && !Missed(FirstFrame(old(heap.heapCurrent))) ==>
              ZeroFrames(mem[..], FirstFrame(old(heap.heapCurrent)))
    ensures heap.heapEnd == old(heap.heapEnd) && ClearedFrom(mem[..], old(mem[..]), old(heap.heapCurrent))
    ensures ok ==> forall a: nat | (a < heap.heapEnd || a < 0x100_0000) && !UserPages(a / PAGE_SIZE) ::
              t.KernelOwn(a / PAGE_SIZE)
    ensures ok && framebuffer && address != 0 && address + pitch * rows <= TWO32 - PAGE_SIZE ==>
              forall a: nat | address <= a < address + pitch * rows && !UserPages(a / PAGE_SIZE) ::
                t.KernelOwn(a / PAGE_SIZE)
  {
    hide t.Lookup, t.Slots, t.SlotOk, t.UserOk, t.TableOk, t.KernelSlots, t.InKernel, t.Identity, SlotsOf, ClearedFrom,
         RoomFor, RoundUp, ArenaOk, UserPages, ClearedIn, ClearedPages, HeapMapped, FirstFrame, Missed, ZeroFrames;
    ghost var slots := t.KernelSlots(heap.heapEnd, framebuffer, address, pitch, rows);
    ghost var q, bytes := FirstFrame(heap.heapCurrent), mem[..];
    NothingCleared(bytes, heap.heapCurrent);
    ok := t.Initialize(heap.heapEnd, framebuffer, address, pitch, rows);
    if !ok {
      t.MoreThanPool(slots, slots + {1});
      return;
    }
    IdentityIsSupervisor();
    HeapIsMapped(Pages(t), heap.View(), framebuffer, address, pitch, rows);
    ghost var pages := Pages(t);
    assert forall page: nat | t.KernelOwn(page) :: pages[page] == Mapping(page * PAGE_SIZE, true, false);
    ok := MapInitialUserSpace(t, heap, mem);
    if ok {
      t.CountSlots();
      assert UserMapped(Pages(t), pages, q, USER_PAGES);
      forall page: nat | page < PAGES
        ensures t.Lookup(page) == Pages(t)[page]
        ensures !UserPages(page) && pages[page] == Mapping(page * PAGE_SIZE, true, false) ==> t.KernelOwn(page)
      {
      }
      if !Missed(q) {
        ZeroIfCleared(mem[..], bytes, q);
      }
    }
  }

  /** After paging_initialize the kernel finds every page of the heap at its own address. */
  lemma HeapIsMapped(pages: seq<Mapping>, a: Arena, framebuffer: bool, address: word, pitch: word, rows: word)
    requires PageHeap(a) && |pages| == PAGES
    requires forall page: nat | page < PAGES ::
               pages[page] == if PageTables.InKernel(page, a.end, framebuffer, address, pitch, rows)
                              then PageTables.Identity(page, WRITABLE)
                              else Unmapped
    ensures HeapMapped(pages, FirstFrame(a.current) * PAGE_SIZE, a.end)
  {
    PageTables.RangeBounds(0, PageTables.LowEnd(a.end));
  }

  lemma IdentityIsSupervisor()
    ensures forall page: nat | page < PAGES ::
              PageTables.Identity(page, WRITABLE) == Mapping(page * PAGE_SIZE, true, false)
  {
    forall page: nat | page < PAGES
      ensures PageTables.Identity(page, WRITABLE) == Mapping(page * PAGE_SIZE, true, false)
    {
    }
  }
}
