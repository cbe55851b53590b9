/** The kernel's two-level page table with its pool of tables (src/kernel/paging.c), refining a flat map from pages to
    frames with their access rights. */
module Paging {
  import opened Machine
  import opened PageEntries

  const POOL: nat := 64

  /** What translating an address in a page yields: a frame, and the effective access, which a directory entry and a
      table entry must both grant. */
  datatype Mapping = Unmapped | Mapping(frame: word, writable: bool, user: bool)

  class PageTables {
    const directory: array<word>
    const tables: array2<word>
    const poolBase: word
    var count: nat

    /** The directory slot each table of the pool was allocated for. */
    ghost var owner: seq<nat>

    constructor (poolBase: word)
      requires poolBase % PAGE_SIZE == 0 && poolBase + POOL * PAGE_SIZE <= TWO32
      ensures this.poolBase == poolBase && fresh(directory) && fresh(tables) && Layout()
    {
      this.poolBase := poolBase;
      directory := new word[ENTRIES](_ => 0);
      tables := new word[POOL, ENTRIES]((_, _) => 0);
      count, owner := 0, [];
    }

    // ---- invariant ----

    predicate Layout() {
      && directory.Length == ENTRIES && tables.Length0 == POOL && tables.Length1 == ENTRIES
      && directory as object != tables
      && poolBase % PAGE_SIZE == 0 && poolBase + POOL * PAGE_SIZE <= TWO32
    }

    /** Address of the i-th table of the pool, and back. */
    function TableAddress(i: nat): (a: word)
      requires i < POOL && poolBase % PAGE_SIZE == 0 && poolBase + POOL * PAGE_SIZE <= TWO32
      ensures a % PAGE_SIZE == 0
    {
      poolBase + PAGE_SIZE * i
    }

    function TableIndex(a: word): int {
      (a - poolBase) / PAGE_SIZE
    }

    lemma TableIndexOfAddress(i: nat)
      requires i < POOL && poolBase % PAGE_SIZE == 0 && poolBase + POOL * PAGE_SIZE <= TWO32
      ensures TableIndex(TableAddress(i)) == i
    {
    }

    /** The table a directory entry points at. */
    function TableAt(d: nat): int
      requires Layout() && d < ENTRIES
      reads directory
    {
      TableIndex(Frame(directory[d]))
    }

    /** A present directory entry points at the pool table allocated for it, writably. */
    ghost predicate SlotOk(d: nat)
      requires Layout() && d < ENTRIES
      reads this, directory
    {
      Present(directory[d]) ==>
        && 0 <= TableAt(d) < |owner| <= POOL && owner[TableAt(d)] == d
        && Frame(directory[d]) == TableAddress(TableAt(d)) && Writable(directory[d])
    }

    /** A table entry for user mode is under a directory entry for user mode. */
    ghost predicate UserOk(d: nat)
      requires Layout() && d < ENTRIES
      reads this, directory, tables
    {
      Present(directory[d]) && 0 <= TableAt(d) < POOL ==>
        forall j | 0 <= j < ENTRIES && Present(tables[TableAt(d), j]) && User(tables[TableAt(d), j]) ::
              User(directory[d])
    }

    /** Every allocated table hangs in the directory. */
    ghost predicate TableOk(i: nat)
      requires Layout() && i < |owner|
      reads this, directory
    {
      owner[i] < ENTRIES && Present(directory[owner[i]]) && TableAt(owner[i]) == i
    }

    ghost predicate Valid()
      reads this, directory, tables
    {
      && Layout() && count == |owner| <= POOL
      && (forall d: nat {:trigger SlotOk(d)} | d < ENTRIES :: SlotOk(d))
      && (forall d: nat {:trigger UserOk(d)} | d < ENTRIES :: UserOk(d))
      && (forall i: nat {:trigger TableOk(i)} | i < |owner| :: TableOk(i))
    }

    // ---- the flat map ----

    function Lookup(page: nat): Mapping
      requires Valid() && page < PAGES
      reads this, directory, tables
    {
      var d := page / ENTRIES;
      if !Present(directory[d]) then Unmapped
      else
        assert SlotOk(d);
        Through(directory[d], tables[TableAt(d), page % ENTRIES])
    }

    static function Through(pde: word, pte: word): Mapping {
      if !Present(pte) then Unmapped
      else Mapping(Frame(pte), Writable(pde) && Writable(pte), User(pde) && User(pte))
    }

    /** The directory slots in use. */
    ghost function Slots(): set<nat>
      requires Layout()
      reads directory
    {
      set d | 0 <= d < ENTRIES && Present(directory[d])
    }

    /** The pool is used exactly once per slot in use. */
    lemma PoolUse()
      requires Valid()
      ensures |Slots()| == count
    {
      OwnersDistinct();
      var s := set i | 0 <= i < |owner| :: owner[i];
      forall d <- Slots()
        ensures d in s
      {
        assert SlotOk(d);
        assert owner[TableAt(d)] == d;
      }
      forall i | 0 <= i < |owner|
        ensures owner[i] in Slots()
      {
        assert TableOk(i);
      }
      assert s == Slots();
      DistinctCount(owner);
    }

    lemma OwnersDistinct()
      requires Valid()
      ensures forall i, j | 0 <= i < j < |owner| :: owner[i] != owner[j]
    {
      forall i, j | 0 <= i < j < |owner|
        ensures owner[i] != owner[j]
      {
        assert TableOk(i) && TableOk(j);
      }
    }

    static lemma {:induction false} DistinctCount(s: seq<nat>)
      requires forall i, j | 0 <= i < j < |s| :: s[i] != s[j]
      ensures |set i | 0 <= i < |s| :: s[i]| == |s|
    {
      if s != [] {
        var t := s[..|s| - 1];
        DistinctCount(t);
        var x := s[|s| - 1];
        assert (set i | 0 <= i < |s| :: s[i]) == (set i | 0 <= i < |t| :: t[i]) + {x};
      }
    }

    // ---- operations ----

    /** Take a zeroed table from the pool; not ok stands for the kernel's panic. */
    method AllocateTable() returns (ok: bool, t: nat)
      requires Layout() && count <= POOL
      modifies this`count, tables
      ensures ok <==> old(count) < POOL
      ensures t == old(count) && count == if ok then t + 1 else t
      ensures !ok ==> unchanged(tables)
      ensures forall i, j | 0 <= i < POOL && 0 <= j < ENTRIES ::
                tables[i, j] == if ok && i == t then 0 else old(tables[i, j])
    {
      t := count;
      if count >= POOL {
        return false, t;
      }
      count := count + 1;
      for k := 0 to ENTRIES
        invariant count == t + 1
        invariant forall i, j | 0 <= i < POOL && 0 <= j < ENTRIES ::
                    tables[i, j] == if i == t && j < k then 0 else old(tables[i, j])
      {
        tables[t, k] := 0;
      }
      ok := true;
    }

    /** The table for an address, allocated if its slot is empty. No translation changes. */
    method TableFor(address: word, flags: word) returns (ok: bool, t: nat)
      requires Valid() && (flags == 0 || flags == USER)
      modifies this`count, this`owner, directory, tables
      ensures Valid()
      ensures ok <==> address / 0x40_0000 in old(Slots()) || old(count) < POOL
      ensures Slots() == if ok then old(Slots()) + {address / 0x40_0000} else old(Slots())
      ensures forall page: nat | page < PAGES :: Lookup(page) == old(Lookup(page))
      ensures ok ==> t < POOL && TableAt(address / 0x40_0000) == t && Present(directory[address / 0x40_0000])
      ensures ok && flags == USER ==> User(directory[address / 0x40_0000])
    {
      hide And, Or, Present, Writable, User, Frame;
      var d := address / 0x40_0000;
      EntryTests(directory[d]);
      assert SlotOk(d);
      if And(directory[d], PRESENT) == 0 {
        ok, t := AllocateTable();
        if !ok {
          Unmoved();
          return;
        }
        BuildDirectoryEntry(TableAddress(t), flags);
        directory[d] := Or(Or(Or(And(TableAddress(t), FRAME_MASK), PRESENT), WRITABLE), flags);
        owner := owner + [d];
        TableIndexOfAddress(t);
        SlotFilled(d);
        return;
      }
      AddUser(directory[d], flags);
      directory[d] := Or(directory[d], flags);
      EntryTests(directory[d]);
      ok, t := true, TableIndex(And(directory[d], FRAME_MASK));
      EntryWidened(d);
      assert SlotOk(d);
    }

    twostate lemma Unmoved()
      requires old(Valid()) && count == old(count) && owner == old(owner) && unchanged(directory, tables)
      ensures Valid() && Slots() == old(Slots())
      ensures forall page: nat | page < PAGES :: Lookup(page) == old(Lookup(page))
    {
      hide Present, Writable, User, Frame;
      forall k: nat | k < ENTRIES
        ensures SlotOk(k) && UserOk(k)
      {
        assert old(SlotOk(k)) && old(UserOk(k));
      }
      forall i: nat | i < |owner|
        ensures TableOk(i)
      {
        assert old(TableOk(i));
      }
    }

    /** Hanging a zeroed table in an empty slot changes no translation. */
    twostate lemma SlotFilled(d: nat)
      requires old(Valid()) && Layout() && d < ENTRIES && !old(Present(directory[d]))
      requires old(count) < POOL && count == old(count) + 1 && owner == old(owner) + [d]
      requires forall k | 0 <= k < ENTRIES && k != d :: directory[k] == old(directory[k])
      requires Present(directory[d]) && Frame(directory[d]) == TableAddress(old(count)) && Writable(directory[d])
      requires forall i, j | 0 <= i < POOL && 0 <= j < ENTRIES ::
                 tables[i, j] == if i == old(count) then 0 else old(tables[i, j])
      ensures Valid() && Slots() == old(Slots()) + {d}
      ensures forall page: nat | page < PAGES :: Lookup(page) == old(Lookup(page))
    {
      hide Writable, User, Frame;
      TableIndexOfAddress(old(count));
      assert TableAt(d) == old(count);
      forall k: nat | k < ENTRIES
        ensures SlotOk(k) && UserOk(k)
      {
        assert old(SlotOk(k)) && old(UserOk(k));
      }
      forall i: nat | i < |owner|
        ensures TableOk(i)
      {
        assert i < old(|owner|) ==> old(TableOk(i));
      }
      forall page: nat | page < PAGES
        ensures Lookup(page) == old(Lookup(page))
      {
        var k := page / ENTRIES;
        assert old(SlotOk(k)) && SlotOk(k);
      }
    }

    /** Giving a directory entry the user flag changes no translation, because no entry below it was for user mode
        unless it already was. */
    twostate lemma EntryWidened(d: nat)
      requires old(Valid()) && Layout() && d < ENTRIES && unchanged(this) && unchanged(tables)
      requires forall k | 0 <= k < ENTRIES && k != d :: directory[k] == old(directory[k])
      requires old(Present(directory[d])) && Present(directory[d]) && Frame(directory[d]) == old(Frame(directory[d]))
      requires Writable(directory[d]) == old(Writable(directory[d])) && (old(User(directory[d])) ==> User(directory[d]))
      ensures Valid() && Slots() == old(Slots())
      ensures forall page: nat | page < PAGES :: Lookup(page) == old(Lookup(page))
    {
      hide Present, Writable, User, Frame;
      forall k: nat | k < ENTRIES
        ensures SlotOk(k) && UserOk(k)
      {
        assert old(SlotOk(k)) && old(UserOk(k));
      }
      forall i: nat | i < |owner|
        ensures TableOk(i)
      {
        assert old(TableOk(i));
      }
      forall page: nat | page < PAGES
        ensures Lookup(page) == old(Lookup(page))
      {
        var k := page / ENTRIES;
        assert old(SlotOk(k)) && old(UserOk(k)) && SlotOk(k);
      }
    }

    /** Map one page. On the flat map this is a point update; it uses a new table exactly when the page's directory slot
        is empty, and panics exactly when the pool then has none left. */
    method MapPage(address: word, physical: word, flags: word) returns (ok: bool)
      requires Valid() && Flags(flags)
      modifies this`count, this`owner, directory, tables
      ensures Valid()
      ensures ok <==> address / 0x40_0000 in old(Slots()) || old(count) < POOL
      ensures Slots() == if ok then old(Slots()) + {address / 0x40_0000} else old(Slots())
      ensures forall page: nat | page < PAGES ::
                Lookup(page) == if ok && page == address / PAGE_SIZE
                                then Mapping(Frame(physical), flags == WRITABLE || flags == WRITABLE + USER,
                                             flags == USER || flags == WRITABLE + USER)
                                else old(Lookup(page))
    {
      hide And, Or, Present, Writable, User, Frame;
      var directoryFlags := 0;
      EntryTests(flags);
      FlagUser(flags);
      if And(flags, USER) != 0 {
        directoryFlags := USER;
      }
      var t;
      ok, t := TableFor(address, directoryFlags);
      if !ok {
        return;
      }
      Indices(address);
      label found:
      BuildEntry(physical, flags);
      tables[t, And(address / PAGE_SIZE, 0x3FF)] := Or(Or(And(physical, FRAME_MASK), flags), PRESENT);
      EntryStored@found(address / PAGE_SIZE);
    }

    static lemma FlagUser(flags: word)
      requires Flags(flags)
      ensures User(flags) <==> flags == USER || flags == WRITABLE + USER
    {
    }

    /** Writing one entry of a table changes the translation of that page only. */
    twostate lemma EntryStored(page: nat)
      requires old(Valid()) && unchanged(this) && unchanged(directory) && page < PAGES
      requires Present(directory[page / ENTRIES])
      requires 0 <= TableAt(page / ENTRIES) < POOL
      requires forall i, j | 0 <= i < POOL && 0 <= j < ENTRIES
               && (i != TableAt(page / ENTRIES) || j != page % ENTRIES) ::
                 tables[i, j] == old(tables[i, j])
      requires Present(tables[TableAt(page / ENTRIES), page % ENTRIES])
      requires User(tables[TableAt(page / ENTRIES), page % ENTRIES]) ==> User(directory[page / ENTRIES])
      ensures Valid() && Slots() == old(Slots())
      ensures forall q: nat | q < PAGES && q != page :: Lookup(q) == old(Lookup(q))
      ensures var pte := tables[TableAt(page / ENTRIES), page % ENTRIES];
              Lookup(page) == Mapping(Frame(pte), Writable(pte), User(pte))
    {
      hide Present, Writable, User, Frame;
      var d := page / ENTRIES;
      assert old(SlotOk(d));
      forall k: nat | k < ENTRIES
        ensures SlotOk(k) && UserOk(k)
      {
        assert old(SlotOk(k)) && old(UserOk(k));
      }
      forall i: nat | i < |owner|
        ensures TableOk(i)
      {
        assert old(TableOk(i));
      }
      forall q: nat | q < PAGES && q != page
        ensures Lookup(q) == old(Lookup(q))
      {
        assert old(SlotOk(q / ENTRIES)) && SlotOk(q / ENTRIES);
      }
      assert SlotOk(d) && UserOk(d);
    }

    // ---- ranges ----

    /** First page of a range, and the first page after it, in the kernel's 32-bit arithmetic. */
    static function FirstPage(start: word): nat {
      AlignDown(start, PAGE_SIZE) / PAGE_SIZE
    }

    static function LastPage(end: word): nat {
      AlignUp(end, PAGE_SIZE) / PAGE_SIZE
    }

    static lemma RangeBounds(start: word, end: word)
      ensures AlignDown(start, PAGE_SIZE) == PAGE_SIZE * FirstPage(start) && FirstPage(start) == start / PAGE_SIZE
      ensures AlignUp(end, PAGE_SIZE) == PAGE_SIZE * LastPage(end) && LastPage(end) < PAGES
      ensures end <= TWO32 - PAGE_SIZE ==> LastPage(end) == (end + PAGE_SIZE - 1) / PAGE_SIZE
    {
      hide AlignDown, AlignUp;
      Pow2Values();
      AlignDownRounds(start, PAGE_SIZE, 12);
      AlignUp4096(end);
    }

    static function Identity(page: nat, flags: word): Mapping
      requires page < PAGES
    {
      Mapping(page * PAGE_SIZE, flags == WRITABLE || flags == WRITABLE + USER,
              flags == USER || flags == WRITABLE + USER)
    }

    /** Map a range of addresses to themselves, page by page: it panics exactly when the directory slots in use and
        those of the range are together more than the pool has tables. */
    method IdentityMapRange(start: word, end: word, flags: word) returns (ok: bool)
      requires Valid() && Flags(flags)
      modifies this`count, this`owner, directory, tables
      ensures Valid()
      ensures ok <==> |old(Slots()) + SlotsOf(FirstPage(start), LastPage(end))| <= POOL
      ensures ok ==> Slots() == old(Slots()) + SlotsOf(FirstPage(start), LastPage(end))
      ensures ok ==> forall page: nat | page < PAGES ::
                Lookup(page) == if FirstPage(start) <= page < LastPage(end) then Identity(page, flags)
                    else old(Lookup(page))
    {
      hide Lookup, Slots, SlotOk, UserOk, TableOk, AlignDown, AlignUp, Frame, SlotsOf, FirstPage, LastPage;
      RangeBounds(start, end);
      var address := AlignDown(start, PAGE_SIZE);
      var limit := AlignUp(end, PAGE_SIZE);
      ghost var lo, hi, page := FirstPage(start), LastPage(end), FirstPage(start);
      NoSlots(old(Slots()), lo);
      CountSlots();
      while address < limit
        invariant address == PAGE_SIZE * page && lo <= page && (page <= hi || page == lo)
        invariant Valid() && Slots() == old(Slots()) + SlotsOf(lo, page) && |Slots()| == count <= POOL
        invariant forall q: nat | q < PAGES ::
                    Lookup(q) == if lo <= q < page then Identity(q, flags) else old(Lookup(q))
      {
        PageOf(page);
        MoreSlots(lo, page, hi);
        ghost var before := Slots();
        var mapped := MapPage(address, address, flags);
        if !mapped {
          PoolExceeded(before, page / ENTRIES, old(Slots()) + SlotsOf(lo, hi));
          return false;
        }
        CountSlots();
        address := Wrap(address + PAGE_SIZE);
        page := page + 1;
      }
      NoSlots(old(Slots()), lo);
      SlotsOfEmpty(lo, page, hi);
      return true;
    }

    /** Empty the directory. */
    method Reset()
      requires Layout()
      modifies this`count, this`owner, directory
      ensures Valid() && Slots() == {} && forall page: nat | page < PAGES :: Lookup(page) == Unmapped
    {
      for d := 0 to ENTRIES
        invariant forall k | 0 <= k < d :: directory[k] == 0
      {
        directory[d] := 0;
      }
      count, owner := 0, [];
    }

    /** paging_initialize: the low memory up to the heap's end, at least 16 MiB, and the framebuffer map to themselves,
        writable and for the kernel only; nothing else is mapped. */
    method Initialize(heapEnd: word, framebuffer: bool, address: word, pitch: word, rows: word) returns (ok: bool)
      requires Layout()
      modifies this`count, this`owner, directory, tables
      ensures ok ==> Valid() && Slots() == KernelSlots(heapEnd, framebuffer, address, pitch, rows)
      ensures ok <==> |KernelSlots(heapEnd, framebuffer, address, pitch, rows)| <= POOL
      ensures ok ==> forall page: nat | page < PAGES ::
                Lookup(page) == if InKernel(page, heapEnd, framebuffer, address, pitch, rows)
                    then Identity(page, WRITABLE) else Unmapped
      ensures ok && heapEnd <= TWO32 - PAGE_SIZE ==>
                forall a: nat | a < heapEnd || a < 0x100_0000 :: KernelOwn(a / PAGE_SIZE)
      ensures ok && framebuffer && address != 0 && address + pitch * rows <= TWO32 - PAGE_SIZE ==>
                forall a: nat | address <= a < address + pitch * rows :: KernelOwn(a / PAGE_SIZE)
    {
      hide Lookup, Slots, SlotOk, UserOk, TableOk, AlignDown, AlignUp, SlotsOf, FirstPage, LastPage, Identity;
      Reset();
      var lowEnd := LowEnd(heapEnd);
      FirstPageOfZero();
      ok := IdentityMapRange(0, lowEnd, WRITABLE);
      NoSlotsUsed(SlotsOf(0, LastPage(lowEnd)));
      if !ok {
        MoreThanPool(SlotsOf(0, LastPage(lowEnd)), KernelSlots(heapEnd, framebuffer, address, pitch, rows));
        return;
      }
      if framebuffer && address != 0 {
        AlignTwice(address, FramebufferEnd(address, pitch, rows));
        ok := IdentityMapRange(AlignDown(address, PAGE_SIZE), AlignUp(FramebufferEnd(address, pitch, rows), PAGE_SIZE),
                               WRITABLE);
      } else {
        CountSlots();
      }
      if ok {
        OwnPages(heapEnd, framebuffer, address, pitch, rows);
      }
    }

    /** The page maps to itself, writable, for the kernel only. */
    ghost predicate KernelOwn(page: nat)
      requires Valid()
      reads this, directory, tables
    {
      page < PAGES && Lookup(page) == Mapping(page * PAGE_SIZE, true, false)
    }

    /** Which pages the kernel maps to itself: those that begin below the heap's end or 16 MiB, and those that overlap
        the framebuffer's rows. */
    static lemma KernelPagesIff(page: nat, heapEnd: word, framebuffer: bool, address: word, pitch: word, rows: word)
      requires heapEnd <= TWO32 - PAGE_SIZE
      requires framebuffer && address != 0 ==> address + pitch * rows <= TWO32 - PAGE_SIZE
      ensures InKernel(page, heapEnd, framebuffer, address, pitch, rows) <==>
                || 4096 * page < heapEnd || 4096 * page < 16 * 1024 * 1024
                || (framebuffer && address != 0
                    && 4096 * page < address + pitch * rows && address < 4096 * page + 4096)
    {
      hide FirstPage, LastPage, AlignDown, AlignUp, Wrap;
      RangeBounds(0, LowEnd(heapEnd));
      if framebuffer && address != 0 {
        RowPagesIff(page, address, pitch, rows);
      }
    }

    static lemma RowPagesIff(page: nat, address: word, pitch: word, rows: word)
      requires address + pitch * rows <= TWO32 - PAGE_SIZE
      ensures FirstPage(address) <= page < LastPage(FramebufferEnd(address, pitch, rows)) <==>
                4096 * page < address + pitch * rows && address < 4096 * page + 4096
    {
      hide FirstPage, LastPage, AlignDown, AlignUp, FramebufferEnd;
      EndIsPlain(address, pitch, rows);
      RangeBounds(address, FramebufferEnd(address, pitch, rows));
    }

    static lemma EndIsPlain(address: word, pitch: word, rows: word)
      requires address + pitch * rows < TWO32
      ensures FramebufferEnd(address, pitch, rows) == address + pitch * rows
    {
      hide Wrap;
      var size := pitch * rows;
      MulMonotone(0, pitch, rows);
      EndOf(address, size);
      assert FramebufferEnd(address, pitch, rows) == Wrap(address + Wrap(size));
    }

    static lemma EndOf(address: word, size: nat)
      requires address + size < TWO32
      ensures Wrap(address + Wrap(size)) == address + size
    {
    }

    /** The directory slots of those pages. */
    static lemma KernelSlotsIff(d: nat, heapEnd: word, framebuffer: bool, address: word, pitch: word, rows: word)
      ensures d in KernelSlots(heapEnd, framebuffer, address, pitch, rows) <==>
                exists page: nat :: page / 1024 == d && InKernel(page, heapEnd, framebuffer, address, pitch, rows)
    {
      hide FirstPage, LastPage, LowEnd, FramebufferEnd;
      if d in SlotsOf(0, LastPage(LowEnd(heapEnd))) {
        var page: nat :| page < LastPage(LowEnd(heapEnd)) && page / ENTRIES == d;
        assert InKernel(page, heapEnd, framebuffer, address, pitch, rows);
      } else if d in KernelSlots(heapEnd, framebuffer, address, pitch, rows) {
        var page: nat :| FirstPage(address) <= page < LastPage(FramebufferEnd(address, pitch, rows))
                         && page / ENTRIES == d;
        assert InKernel(page, heapEnd, framebuffer, address, pitch, rows);
      }
    }

    /** The whole framebuffer is mapped exactly when it ends at least a page below the top of the address space:
        otherwise the rounded end wraps around to 0. */
    static lemma FramebufferMappedIff(heapEnd: word, address: word, pitch: word, rows: word)
      requires heapEnd <= TWO32 - PAGE_SIZE && 16 * 1024 * 1024 <= address && heapEnd <= address
      requires address % PAGE_SIZE == 0 && 0 < pitch * rows && address + pitch * rows <= TWO32
      ensures (forall a: nat | address <= a < address + pitch * rows ::
                 InKernel(a / PAGE_SIZE, heapEnd, true, address, pitch, rows))
              <==> address + pitch * rows <= TWO32 - PAGE_SIZE
    {
      hide FirstPage, LastPage, AlignDown, AlignUp, Wrap;
      RangeBounds(0, LowEnd(heapEnd));
      if address + pitch * rows <= TWO32 - PAGE_SIZE {
        forall a: nat | address <= a < address + pitch * rows
          ensures InKernel(a / PAGE_SIZE, heapEnd, true, address, pitch, rows)
        {
          KernelPagesIff(a / PAGE_SIZE, heapEnd, true, address, pitch, rows);
        }
      } else {
        EndWraps(address, pitch, rows);
        assert !InKernel(address / PAGE_SIZE, heapEnd, true, address, pitch, rows);
      }
    }

    static lemma EndWraps(address: word, pitch: word, rows: word)
      requires TWO32 - PAGE_SIZE < address + pitch * rows <= TWO32 && address > 0
      ensures LastPage(FramebufferEnd(address, pitch, rows)) == 0
    {
      hide AlignUp;
      var end := FramebufferEnd(address, pitch, rows);
      assert end == if address + pitch * rows == TWO32 then 0 else address + pitch * rows;
      AlignUp4096(end);
    }

    lemma OwnPages(heapEnd: word, framebuffer: bool, address: word, pitch: word, rows: word)
      requires Valid()
      requires forall page: nat | page < PAGES ::
                 Lookup(page) == if InKernel(page, heapEnd, framebuffer, address, pitch, rows)
                                 then Identity(page, WRITABLE) else Unmapped
      ensures heapEnd <= TWO32 - PAGE_SIZE ==>
                forall a: nat | a < heapEnd || a < 0x100_0000 :: KernelOwn(a / PAGE_SIZE)
      ensures framebuffer && address != 0 && address + pitch * rows <= TWO32 - PAGE_SIZE ==>
                forall a: nat | address <= a < address + pitch * rows :: KernelOwn(a / PAGE_SIZE)
    {
      hide FirstPage, LastPage, AlignDown, AlignUp, Wrap, Lookup, LowEnd, FramebufferEnd;
      if heapEnd <= TWO32 - PAGE_SIZE {
        forall a: nat | a < heapEnd || a < 0x100_0000
          ensures KernelOwn(a / PAGE_SIZE)
        {
          KernelPagesIff(a / PAGE_SIZE, heapEnd, false, 0, 0, 0);
        }
      }
      if framebuffer && address != 0 && address + pitch * rows <= TWO32 - PAGE_SIZE {
        forall a: nat | address <= a < address + pitch * rows
          ensures KernelOwn(a / PAGE_SIZE)
        {
          RowPagesIff(a / PAGE_SIZE, address, pitch, rows);
        }
      }
    }

    static function LowEnd(heapEnd: word): word {
      if heapEnd < 16 * 1024 * 1024 then 16 * 1024 * 1024 else heapEnd
    }

    static function FramebufferEnd(address: word, pitch: word, rows: word): word {
      Wrap(address + Wrap(pitch * rows))
    }

    static predicate InKernel(page: nat, heapEnd: word, framebuffer: bool, address: word, pitch: word, rows: word) {
      page < LastPage(LowEnd(heapEnd)) ||
      (framebuffer && address != 0 && FirstPage(address) <= page < LastPage(FramebufferEnd(address, pitch, rows)))
    }

    static function KernelSlots(heapEnd: word, framebuffer: bool, address: word, pitch: word, rows: word): set<nat> {
      SlotsOf(0, LastPage(LowEnd(heapEnd))) +
      (if framebuffer && address != 0 then SlotsOf(FirstPage(address), LastPage(FramebufferEnd(address, pitch, rows)))
       else {})
    }

    static lemma FirstPageOfZero()
      ensures FirstPage(0) == 0
    {
      hide AlignDown;
      Pow2Values();
      AlignDownRounds(0, PAGE_SIZE, 12);
    }

    static lemma AlignTwice(start: word, end: word)
      ensures FirstPage(AlignDown(start, PAGE_SIZE)) == FirstPage(start)
      ensures LastPage(AlignUp(end, PAGE_SIZE)) == LastPage(end)
    {
      hide AlignDown, AlignUp, FirstPage, LastPage;
      RangeBounds(start, end);
      RangeBounds(AlignDown(start, PAGE_SIZE), AlignUp(end, PAGE_SIZE));
    }

    static lemma NoSlotsUsed(s: set<nat>)
      ensures {} + s == s
    {
    }

    static lemma MoreThanPool(s: set<nat>, all: set<nat>)
      requires |s| > POOL && s <= all
      ensures |all| > POOL
    {
      SubsetSmaller(s, all);
    }

    lemma ValidLayout()
      requires Valid()
      ensures Layout() && count <= POOL
    {
    }

    lemma CountSlots()
      requires Valid()
      ensures |Slots()| == count <= POOL
    {
      PoolUse();
    }

    static lemma PageOf(page: nat)
      requires page < PAGES
      ensures PAGE_SIZE * page / PAGE_SIZE == page && PAGE_SIZE * page / 0x40_0000 == page / ENTRIES
      ensures Frame(PAGE_SIZE * page) == PAGE_SIZE * page
    {
    }
  }

  /** The directory slots of a range of pages. */
  function SlotsOf(lo: nat, hi: nat): set<nat> {
    set page | lo <= page < hi :: page / ENTRIES
  }

  lemma NoSlots(s: set<nat>, lo: nat)
    ensures s + SlotsOf(lo, lo) == s
  {
  }

  lemma SlotsOfEmpty(lo: nat, page: nat, hi: nat)
    requires lo <= page && (page <= hi || page == lo) && hi <= page
    ensures SlotsOf(lo, page) == SlotsOf(lo, hi)
  {
  }

  lemma MoreSlots(lo: nat, page: nat, hi: nat)
    requires lo <= page < hi
    ensures SlotsOf(lo, page + 1) == SlotsOf(lo, page) + {page / ENTRIES}
    ensures SlotsOf(lo, page) + {page / ENTRIES} <= SlotsOf(lo, hi)
  {
    assert page / ENTRIES in SlotsOf(lo, page + 1);
  }

  lemma PoolExceeded(used: set<nat>, d: nat, all: set<nat>)
    requires |used| >= POOL && d !in used && used + {d} <= all
    ensures |all| > POOL
  {
    SubsetSmaller(used + {d}, all);
  }

  lemma {:induction false} SubsetSmaller(a: set<nat>, b: set<nat>)
    requires a <= b
    ensures |a| <= |b|
  {
    if a != {} {
      var x :| x in a;
      SubsetSmaller(a - {x}, b - {x});
    }
  }
}
