/** Loading an initial ramdisk: a ustar archive replayed into the file system (ramfs_load_initrd in
    src/kernel/ramfs.c). */
module Initrd {
  import opened Machine
  import opened Paths
  import opened Heap
  import opened FileSystem
  import opened Directories
  import opened Ustar
  import Memory
  import Ramfs

  const DIRECTORY_TYPE: byte := 53
  const FILE_TYPE: byte := 48

  datatype Record = Record(kind: byte, path: seq<byte>, data: seq<byte>) {
    predicate IsDirectory() { kind == DIRECTORY_TYPE }
    predicate IsFile() { kind == FILE_TYPE || kind == NUL }
  }

  // ---- the archive as a list of records ----

  predicate EmptyHeader(a: seq<byte>)
    requires |a| >= BLOCK
  {
    forall i | 0 <= i < BLOCK :: a[i] == NUL
  }

  /** Nothing more to load: the rest is shorter than a header, or its header is all zeros. */
  predicate AtEnd(a: seq<byte>) {
    |a| < BLOCK || EmptyHeader(a)
  }

  function SizeOf(a: seq<byte>): word
    requires |a| >= BLOCK
  {
    Wrap(OctalSum(Digits(a[124..136])))
  }

  function PathOf(a: seq<byte>): seq<byte>
    requires |a| >= BLOCK
  {
    BuildPath(CStr(a[345..500]), CStr(a[0..100]))
  }

  /** Header and data, rounded up to whole blocks. */
  function RecordLength(size: nat): (n: nat)
    ensures n >= BLOCK + size
  {
    BLOCK + RoundUp(size, BLOCK)
  }

  function RestOf(a: seq<byte>): (r: seq<byte>)
    requires |a| >= BLOCK
    ensures |r| < |a|
  {
    if RecordLength(SizeOf(a)) <= |a| then a[RecordLength(SizeOf(a))..] else []
  }

  /** Every record's data lies inside the archive. */
  predicate InBounds(a: seq<byte>)
    decreases |a|
  {
    AtEnd(a) || (BLOCK + SizeOf(a) <= |a| && InBounds(RestOf(a)))
  }

  function FirstRecord(a: seq<byte>): Record
    requires |a| >= BLOCK && BLOCK + SizeOf(a) <= |a|
  {
    Record(a[156], PathOf(a), a[BLOCK..BLOCK + SizeOf(a)])
  }

  function Records(a: seq<byte>): seq<Record>
    requires InBounds(a)
    decreases |a|
  {
    if AtEnd(a) then [] else [FirstRecord(a)] + Records(RestOf(a))
  }

  // ---- what the loader does with one record ----

  function LoadFile(fs: Fs, path: seq<byte>, data: seq<byte>): Fs
    requires Absolute(path) && |data| + 1 < TWO32
  {
    var f1 := EnsureParent(fs, path).0;
    var f2 := Create(f1, path, File([])).0;
    if Resolves(f2.tree, path) && !ResolvesToDir(f2.tree, path) then SetBytes(f2, Components(path), data).0 else f2
  }

  function LoadRecord(fs: Fs, r: Record): Fs
    requires Absolute(r.path) && |r.data| + 1 < TWO32
  {
    if r.IsDirectory() then EnsureDirectory(fs, r.path).0
    else if r.IsFile() then LoadFile(fs, r.path, r.data)
    else fs
  }

  predicate Loadable(rs: seq<Record>) {
    forall r <- rs :: Absolute(r.path) && |r.data| + 1 < TWO32
  }

  function LoadRecords(fs: Fs, rs: seq<Record>): Fs
    requires Loadable(rs)
    decreases |rs|
  {
    if rs == [] then fs else LoadRecords(LoadRecord(fs, rs[0]), rs[1..])
  }

  lemma {:induction false} BuiltPathOk(path: seq<byte>, c: Path)
    requires 1 <= |path| < PATH_SIZE && Absolute(path) && CString(path) && forall n <- c :: CString(n)
    ensures Absolute(AppendAll(path, c)) && CString(AppendAll(path, c))
    decreases |c|
  {
    if c != [] {
      assert c[0] in c && forall n <- c[1..] :: n in c;
      BuiltPathOk(AppendComponent(path, c[0]), c[1..]);
    }
  }

  lemma PathOfOk(a: seq<byte>)
    requires |a| >= BLOCK
    ensures Absolute(PathOf(a)) && CString(PathOf(a))
  {
    hide Components, AppendAll, CStr;
    var p, n := Components(CStr(a[345..500])), Components(CStr(a[0..100]));
    ComponentsWellFormed(CStr(a[345..500]));
    ComponentsWellFormed(CStr(a[0..100]));
    BuiltPathOk([SLASH], p);
    BuiltPathOk(AppendAll([SLASH], p), n);
  }

  lemma {:induction false} RecordsOk(a: seq<byte>)
    requires InBounds(a)
    ensures forall r <- Records(a) :: Absolute(r.path) && CString(r.path) && |r.data| <= |a|
    decreases |a|
  {
    if !AtEnd(a) {
      PathOfOk(a);
      RecordsOk(RestOf(a));
    }
  }

  // ---- the loader ----

  /** The kernel rounds the address of the next header up to a block boundary, which is the next header's offset
      exactly when the archive itself starts on one. */
  lemma NextHeaderIffAligned(base: word, off: nat, size: nat)
    requires off % BLOCK == 0 && base + off + BLOCK + size <= TWO32 - BLOCK
    ensures RoundUpWord(base + off + BLOCK + size, BLOCK) == base + off + RecordLength(size) <==> base % BLOCK == 0
  {
    hide RoundUp, RecordLength;
    var end := base + off + BLOCK + size;
    RecordIsRounded(off, size);
    if base % BLOCK == 0 {
      SumOfMultiples(base, off, BLOCK);
      RecordIsRounded(base + off, size);
    } else {
      RoundUpIsLeastMultiple(end, BLOCK);
      SumOfMultiples(off + RecordLength(size), base, BLOCK);
    }
  }

  /** From a block boundary on, a record ends on the next boundary after its data. */
  lemma RecordIsRounded(off: nat, size: nat)
    requires off % BLOCK == 0
    ensures RoundUp(off + BLOCK + size, BLOCK) == off + RecordLength(size) && (off + RecordLength(size)) % BLOCK == 0
  {
    hide RoundUp;
    SumOfMultiples(off, BLOCK, BLOCK);
    RoundUpShift(off + BLOCK, size, BLOCK);
    RoundUpIsLeastMultiple(size, BLOCK);
    SumOfMultiples(off + BLOCK, RoundUp(size, BLOCK), BLOCK);
  }

  method LoadFileRecord(fs: Ramfs.Tree, path: seq<byte>, data: word, size: word)
    requires fs.Valid() && CString(path) && Absolute(path)
    requires data + size <= fs.mem.Length && Untouched(fs, data, size) && fs.heap.heapEnd + size + 17 <= TWO32
    modifies fs, fs.heap, fs.mem, fs.Nodes()
    ensures fs.Valid() && fs.View() == LoadFile(old(fs.View()), path, old(fs.mem[data..data + size]))
    ensures old(fs.Nodes()) <= fs.Nodes() && fresh(fs.Nodes() - old(fs.Nodes()))
    ensures fs.heap.heapCurrent >= old(fs.heap.heapCurrent) && fs.heap.heapEnd == old(fs.heap.heapEnd)
    ensures Memory.KeptOutside(fs.mem[..], old(fs.mem[..]), old(fs.heap.heapCurrent), fs.heap.heapEnd)
  {
    hide EnsureParent, Create, SetBytes, ResolvesToDir, Resolves, Components, fs.Contents, fs.Valid, Memory.KeptOutside;
    ghost var low, before := fs.heap.heapCurrent, fs.mem[..];
    var _ := EnsureParentDirectory(fs, path);
    ghost var low', middle := fs.heap.heapCurrent, fs.mem[..];
    var node := TouchAndFind(fs, path);
    Memory.KeptInTwo(fs.mem[..], middle, before, low, low', fs.heap.heapEnd);
    if node != null && !node.isDir {
      fs.NodeIn(Components(path));
      Memory.KeptRange(fs.mem[..], before, low, fs.heap.heapEnd, data, data + size);
      assert fs.mem[data..data + size] == before[data..data + size];
      ghost var low'', touched := fs.heap.heapCurrent, fs.mem[..];
      var _ := fs.WriteBytes(node, fs.mem[data..data + size], Components(path));
      Memory.KeptInTwo(fs.mem[..], touched, before, low, low'', fs.heap.heapEnd);
    }
  }

  /** A range of memory that the heap will not hand out. */
  predicate Untouched(fs: Ramfs.Tree, start: nat, size: nat)
    reads fs.heap
  {
    start + size <= fs.heap.heapCurrent || fs.heap.heapEnd <= start
  }

  method TouchAndFind(fs: Ramfs.Tree, path: seq<byte>) returns (node: Ramfs.Node?)
    requires fs.Valid() && CString(path)
    modifies fs, fs.heap, fs.mem, fs.Nodes()
    ensures fs.Valid() && fs.View() == Create(old(fs.View()), path, File([])).0
    ensures node != null <==> Resolves(fs.Contents(), path)
    ensures node != null ==> Components(path) in fs.at && node == fs.at[Components(path)]
    ensures node != null ==> (node.isDir <==> ResolvesToDir(fs.Contents(), path))
    ensures old(fs.Nodes()) <= fs.Nodes() && fresh(fs.Nodes() - old(fs.Nodes()))
    ensures fs.heap.heapCurrent >= old(fs.heap.heapCurrent) && fs.heap.heapEnd == old(fs.heap.heapEnd)
    ensures Memory.KeptOutside(fs.mem[..], old(fs.mem[..]), old(fs.heap.heapCurrent), fs.heap.heapEnd)
  {
    hide Create, ResolvesToDir, Resolves, Components, fs.Valid, Memory.KeptOutside;
    var _ := fs.Touch(path);
    fs.DirectoryAt(path);
    node := fs.ResolvePath(path);
  }

  method IsEmptyHeader(header: seq<byte>) returns (empty: bool)
    requires |header| >= BLOCK
    ensures empty <==> EmptyHeader(header)
  {
    for i := 0 to BLOCK
      invariant forall j | 0 <= j < i :: header[j] == NUL
    {
      if header[i] != NUL {
        return false;
      }
    }
    return true;
  }

  /** Load the record whose header is at an address, the rest of the archive being a. */
  method LoadOne(fs: Ramfs.Tree, cursor: word, ghost a: seq<byte>) returns (size: word)
    requires fs.Valid() && |a| >= BLOCK && BLOCK + SizeOf(a) <= |a|
    requires cursor + |a| <= fs.mem.Length && cursor + |a| < TWO32 && fs.mem[cursor..cursor + |a|] == a
    requires Untouched(fs, cursor, |a|) && fs.heap.heapEnd + |a| + 17 <= TWO32
    modifies fs, fs.heap, fs.mem, fs.Nodes()
    ensures size == SizeOf(a)
    ensures Absolute(PathOf(a)) && fs.Valid() && fs.View() == LoadRecord(old(fs.View()), FirstRecord(a))
    ensures old(fs.Nodes()) <= fs.Nodes() && fresh(fs.Nodes() - old(fs.Nodes()))
    ensures fs.heap.heapCurrent >= old(fs.heap.heapCurrent) && fs.heap.heapEnd == old(fs.heap.heapEnd)
    ensures Memory.KeptOutside(fs.mem[..], old(fs.mem[..]), old(fs.heap.heapCurrent), fs.heap.heapEnd)
  {
    hide LoadFile, EnsureDirectory, BuildPath, Digits, OctalSum, CStr, fs.Contents, fs.Valid, Memory.KeptOutside;
    PathOfOk(a);
    KeptAlways(fs.mem[..], fs.heap.heapCurrent, fs.heap.heapEnd);
    HeaderParts(fs.mem[..], cursor, a);
    var header := fs.mem[cursor..cursor + BLOCK];
    var path := BuildHeaderPath(header[345..500], header[0..100]);
    size := ParseOctal(header[124..136]);
    var typeflag := header[156];
    if typeflag == DIRECTORY_TYPE {
      var _ := MakeDirectories(fs, path);
    } else if typeflag == FILE_TYPE || typeflag == NUL {
      DataPart(fs.mem[..], cursor, a, size);
      LoadFileRecord(fs, path, cursor + BLOCK, size);
    }
  }

  lemma HeaderParts(bytes: seq<byte>, cursor: nat, a: seq<byte>)
    requires |a| >= BLOCK && cursor + |a| <= |bytes| && bytes[cursor..cursor + |a|] == a
    ensures var h := bytes[cursor..cursor + BLOCK];
            h[345..500] == a[345..500] && h[0..100] == a[0..100] && h[124..136] == a[124..136] && h[156] == a[156]
  {
    SliceOfSlice(bytes, cursor, cursor + |a|, 0, BLOCK);
    assert a[..BLOCK] == a[0..BLOCK];
  }

  lemma SliceOfSlice(s: seq<byte>, i: nat, j: nat, k: nat, l: nat)
    requires i <= j <= |s| && k <= l <= j - i
    ensures s[i..j][k..l] == s[i + k..i + l]
  {
    var a, b := s[i..j][k..l], s[i + k..i + l];
    assert |a| == |b| && forall n | 0 <= n < |a| :: a[n] == b[n];
  }

  lemma DataPart(bytes: seq<byte>, cursor: nat, a: seq<byte>, size: nat)
    requires BLOCK + size <= |a| && cursor + |a| <= |bytes| && bytes[cursor..cursor + |a|] == a
    ensures bytes[cursor + BLOCK..cursor + BLOCK + size] == a[BLOCK..BLOCK + size]
  {
    SliceOfSlice(bytes, cursor, cursor + |a|, BLOCK, BLOCK + size);
  }

  lemma KeptAlways(bytes: seq<byte>, low: nat, high: nat)
    ensures Memory.KeptOutside(bytes, bytes, low, high)
  {
  }

  /** Loading an archive whose data lies within it, and which lies in memory apart from the free heap, is the replay of
      its records, one by one. The loop terminates because every record moves the cursor by at least one block. */
  method LoadInitrd(fs: Ramfs.Tree, base: word, n: nat)
    requires fs.Valid() && base + n <= fs.mem.Length && InBounds(fs.mem[base..base + n]) && Untouched(fs, base, n)
    requires base % BLOCK == 0 && base + n + 2 * BLOCK <= TWO32 && fs.heap.heapEnd + n + 17 <= TWO32
    modifies fs, fs.heap, fs.mem, fs.Nodes()
    ensures var archive := old(fs.mem[base..base + n]);
            && Loadable(Records(archive)) && fs.mem[base..base + n] == archive
            && fs.Valid() && fs.View() == LoadRecords(old(fs.View()), Records(archive))
    ensures Memory.KeptOutside(fs.mem[..], old(fs.mem[..]), old(fs.heap.heapCurrent), fs.heap.heapEnd)
  {
    hide LoadRecords, LoadRecord, FirstRecord, Records, RestOf, From, InBounds, Loadable, EmptyHeader, SizeOf, AlignUp,
         fs.Contents, fs.Valid, Memory.KeptOutside;
    ghost var archive, before, low := fs.mem[base..base + n], fs.mem[..], fs.heap.heapCurrent;
    ArchiveLoadable(archive);
    FromStart(archive, 0);
    KeptAlways(before, low, fs.heap.heapEnd);
    var cursor := base;
    var end := base + n;
    while cursor + BLOCK <= end
      invariant base <= cursor && cursor % BLOCK == 0 && cursor <= TWO32 - BLOCK
      invariant InBounds(From(archive, cursor - base)) && Loadable(Records(From(archive, cursor - base)))
      invariant fs.Valid() && fs.mem[base..base + n] == archive
      invariant LoadRecords(fs.View(), Records(From(archive, cursor - base)))
                == LoadRecords(old(fs.View()), Records(archive))
      invariant old(fs.Nodes()) <= fs.Nodes() && fresh(fs.Nodes() - old(fs.Nodes()))
      invariant fs.heap.heapEnd == old(fs.heap.heapEnd) && low <= fs.heap.heapCurrent
      invariant Memory.KeptOutside(fs.mem[..], before, low, fs.heap.heapEnd)
      decreases end - cursor
    {
      RestInMemory(fs.mem[..], base, n, cursor - base);
      var empty := IsEmptyHeader(fs.mem[cursor..cursor + BLOCK]);
      ghost var rest := From(archive, cursor - base);
      FromStart(archive, cursor - base);
      EmptyInRest(rest);
      if empty {
        break;
      }
      RecordsUnfold(rest);
      LoadUnfold(fs.View(), rest);
      ghost var low', here := fs.heap.heapCurrent, fs.mem[..];
      cursor := LoadNext(fs, base, n, cursor, archive, rest);
      Memory.KeptInTwo(fs.mem[..], here, before, low, low', fs.heap.heapEnd);
    }
    FromStart(archive, cursor - base);
    RecordsUnfold(From(archive, cursor - base));
  }

  /** One turn of the loop: load a record, and move to the next header. */
  method LoadNext(fs: Ramfs.Tree, base: word, n: nat, cursor: word, ghost archive: seq<byte>, ghost rest: seq<byte>)
    returns (next: word)
    requires fs.Valid() && base + n <= fs.mem.Length && fs.mem[base..base + n] == archive && Untouched(fs, base, n)
    requires base % BLOCK == 0 && base + n + 2 * BLOCK <= TWO32 && fs.heap.heapEnd + n + 17 <= TWO32
    requires base <= cursor && cursor % BLOCK == 0 && cursor + BLOCK <= base + n
    requires rest == From(archive, cursor - base) && BLOCK + SizeOf(rest) <= |rest|
    modifies fs, fs.heap, fs.mem, fs.Nodes()
    ensures cursor < next <= TWO32 - BLOCK && next % BLOCK == 0 && RestOf(rest) == From(archive, next - base)
    ensures Absolute(FirstRecord(rest).path) && |FirstRecord(rest).data| + 1 < TWO32
    ensures fs.Valid() && fs.View() == LoadRecord(old(fs.View()), FirstRecord(rest))
    ensures old(fs.Nodes()) <= fs.Nodes() && fresh(fs.Nodes() - old(fs.Nodes()))
    ensures fs.heap.heapCurrent >= old(fs.heap.heapCurrent) && fs.heap.heapEnd == old(fs.heap.heapEnd)
    ensures fs.mem[base..base + n] == archive
    ensures Memory.KeptOutside(fs.mem[..], old(fs.mem[..]), old(fs.heap.heapCurrent), fs.heap.heapEnd)
  {
    hide LoadRecord, RestOf, From, EmptyHeader, SizeOf, AlignUp, fs.Contents, fs.Valid, Memory.KeptOutside, PathOf;
    ghost var before, low := fs.mem[..], fs.heap.heapCurrent;
    FromStart(archive, cursor - base);
    RestInMemory(before, base, n, cursor - base);
    var size := LoadOne(fs, cursor, rest);
    Memory.KeptRange(fs.mem[..], before, low, fs.heap.heapEnd, base, base + n);
    NextHeader(base, cursor, archive, rest);
    next := AlignUp(Wrap(cursor + BLOCK + size), BLOCK);
  }

  /** The archive from an offset on. */
  lemma RestInMemory(bytes: seq<byte>, base: nat, n: nat, k: nat)
    requires base + n <= |bytes| && k + BLOCK <= n
    ensures var rest := From(bytes[base..base + n], k);
            bytes[base + k..base + n] == rest && bytes[base + k..base + k + BLOCK] == rest[..BLOCK]
  {
    assert bytes[base + k..base + n] == bytes[base..base + n][k..];
    assert bytes[base + k..base + k + BLOCK] == bytes[base + k..base + n][..BLOCK];
  }

  lemma EmptyInRest(a: seq<byte>)
    requires |a| >= BLOCK
    ensures EmptyHeader(a[..BLOCK]) <==> EmptyHeader(a)
  {
  }

  /** The bytes a pointer k bytes into the archive points at. */
  function From(archive: seq<byte>, k: nat): seq<byte> {
    if k <= |archive| then archive[k..] else []
  }

  lemma FromStart(archive: seq<byte>, k: nat)
    ensures From(archive, 0) == archive
    ensures |From(archive, k)| == if k <= |archive| then |archive| - k else 0
  {
  }

  lemma ArchiveLoadable(a: seq<byte>)
    requires InBounds(a) && |a| + 1 < TWO32
    ensures Loadable(Records(a))
  {
    RecordsOk(a);
  }

  lemma RecordsUnfold(a: seq<byte>)
    requires InBounds(a)
    ensures AtEnd(a) ==> Records(a) == []
    ensures AtEnd(a) ==> forall fs :: LoadRecords(fs, Records(a)) == fs
    ensures !AtEnd(a) ==>
              BLOCK + SizeOf(a) <= |a| && InBounds(RestOf(a))
              && Records(a) == [FirstRecord(a)] + Records(RestOf(a))
  {
  }

  lemma LoadUnfold(fs: Fs, a: seq<byte>)
    requires InBounds(a) && !AtEnd(a)
    requires Loadable(Records(a))
    ensures Loadable(Records(RestOf(a)))
    ensures Absolute(FirstRecord(a).path)
    ensures LoadRecords(fs, Records(a)) == LoadRecords(LoadRecord(fs, FirstRecord(a)), Records(RestOf(a)))
  {
    hide LoadRecord, FirstRecord, RestOf, AtEnd, SizeOf;
    var r, rest := FirstRecord(a), Records(RestOf(a));
    assert Records(a) == [r] + rest;
    assert r in Records(a) && forall x <- rest :: x in Records(a);
    assert Records(a)[0] == r && Records(a)[1..] == rest;
  }

  lemma NextHeader(base: word, cursor: word, archive: seq<byte>, rest: seq<byte>)
    requires base % BLOCK == 0 && base + |archive| + 2 * BLOCK <= TWO32 && cursor % BLOCK == 0
    requires base <= cursor && cursor + BLOCK <= base + |archive| && rest == From(archive, cursor - base)
    requires BLOCK + SizeOf(rest) <= |rest|
    ensures var next := AlignUp(Wrap(cursor + BLOCK + SizeOf(rest)), BLOCK);
            && cursor < next <= TWO32 - BLOCK && next % BLOCK == 0
            && RestOf(rest) == From(archive, next - base)
  {
    hide AlignUp, SizeOf, RecordLength;
    var size := SizeOf(rest);
    FromStart(archive, cursor - base);
    NextAddress(cursor, size, base + |archive|);
    if cursor + RecordLength(size) <= base + |archive| {
      RestOfRest(archive, cursor - base, RecordLength(size));
    }
  }

  lemma NextAddress(cursor: word, size: word, end: nat)
    requires cursor % BLOCK == 0 && cursor + BLOCK + size <= end && end + 2 * BLOCK <= TWO32
    ensures var next := AlignUp(Wrap(cursor + BLOCK + size), BLOCK);
            cursor < next == cursor + RecordLength(size) <= TWO32 - BLOCK && next % BLOCK == 0
  {
    hide AlignUp;
    AlignUp512(cursor + BLOCK + size);
    RoundUpFromBlock(cursor, size);
  }

  lemma RestOfRest(archive: seq<byte>, k: nat, n: nat)
    requires k + n <= |archive|
    ensures From(archive, k)[n..] == From(archive, k + n)
  {
    assert archive[k..][n..] == archive[k + n..];
  }

  lemma RoundUpFromBlock(cursor: nat, size: nat)
    requires cursor % BLOCK == 0
    ensures RoundUp(cursor + BLOCK + size, BLOCK) == cursor + RecordLength(size)
    ensures (cursor + RecordLength(size)) % BLOCK == 0
    ensures RecordLength(size) < 2 * BLOCK + size
  {
    RecordIsRounded(cursor, size);
  }
}
