/** The file system as its users see it: a map from component sequences to entries, together with the heap that nodes
    and file contents are allocated from. The functions here specify the operations of src/kernel/ramfs.c; the linked
    tree that implements them is in Ramfs. */
module FileSystem {
  import opened Machine
  import opened Paths
  import opened Heap

  datatype Entry = Dir | File(bytes: seq<byte>)
  type Tree = map<Path, Entry>
  datatype Fs = Fs(tree: Tree, arena: Arena)

  /** Bytes of one tree node. */
  const NODE_SIZE: word := 56

  ghost predicate TreeOk(t: Tree) {
    && IsDir(t, [])
    && forall p {:trigger Hangs(t, p)} | p in t :: Hangs(t, p)
  }

  /** Every entry but the root has a usable name and a directory above it. */
  predicate Hangs(t: Tree, p: Path) {
    p != [] ==> IsDir(t, Parent(p)) && NameOk(Last(p))
  }

  predicate IsDir(t: Tree, p: Path) {
    p in t && t[p] == Dir
  }

  predicate Absolute(path: seq<byte>) {
    path != [] && path[0] == SLASH
  }

  /** What a path string resolves to depends only on its components. */
  predicate Resolves(t: Tree, path: seq<byte>) {
    Absolute(path) && Components(path) in t
  }

  predicate ResolvesToDir(t: Tree, path: seq<byte>) {
    Resolves(t, path) && t[Components(path)] == Dir
  }

  /** The condition under which a path splits into an existing parent directory and a usable name. */
  predicate Splits(t: Tree, path: seq<byte>) {
    && Absolute(path) && |path| > 1
    && var k := LastSlash(path);
    && 1 <= |path| - k - 1 <= NODE_NAME_MAX
    && (k == 0 || (k < PARTIAL_SIZE && ResolvesToDir(t, path[..k])))
  }

  /** mkdir and touch: one new entry, or none. */
  function Create(fs: Fs, path: seq<byte>, e: Entry): (Fs, bool) {
    if !Splits(fs.tree, path) || Components(path) in fs.tree then (fs, false)
    else AddNode(fs, Components(path), e)
  }

  function AddNode(fs: Fs, p: Path, e: Entry): (Fs, bool) {
    var (arena, address) := Alloc(fs.arena, NODE_SIZE, 16);
    if address == 0 then (fs, false) else (Fs(fs.tree[p := e], arena), true)
  }

  /** What an allocation means for the file system: the handed-out part of the heap only grows. */
  lemma AllocGrows(a: Arena, size: word)
    requires ArenaOk(a) && a.end + size + 16 <= TWO32
    ensures var (b, p) := Alloc(a, size, 16);
            && ArenaOk(b) && b.start == a.start && b.end == a.end
            && (p == 0 ==> b == a)
            && (p != 0 ==> a.current <= p && p + size == b.current)
  {
    AllocBlock(a, size, 16);
  }

  /** Replace the contents of the file at p, in a freshly allocated buffer. */
  function SetBytes(fs: Fs, p: Path, data: seq<byte>): (Fs, bool)
    requires |data| + 1 < TWO32
  {
    var (arena, address) := Alloc(fs.arena, |data| + 1, 16);
    if address == 0 then (fs, false) else (Fs(fs.tree[p := File(data)], arena), true)
  }

  function Write(fs: Fs, path: seq<byte>, data: seq<byte>): (Fs, bool)
    requires |data| + 1 < TWO32
  {
    var (fs1, found) := FindOrTouch(fs, path);
    if !found || IsDir(fs1.tree, Components(path)) then (fs1, false)
    else SetBytes(fs1, Components(path), data)
  }

  function FindOrTouch(fs: Fs, path: seq<byte>): (Fs, bool) {
    if Resolves(fs.tree, path) then (fs, true) else Create(fs, path, File([]))
  }

  // ---- what the operations do to the tree ----

  /** A splitting path names a child of an existing directory. */
  lemma SplitNamesChild(t: Tree, path: seq<byte>)
    requires TreeOk(t) && CString(path) && Splits(t, path)
    ensures var c := Components(path); c != [] && IsDir(t, Parent(c)) && NameOk(Last(c))
  {
    hide Components, LastSlash;
    var k := LastSlash(path);
    LastSlashSplits(path);
    ComponentsSplitLast(path, k);
    if k == 0 {
      assert path[..0] == [];
      ComponentsOfEmpty();
    }
    var name := path[k + 1..];
    assert NUL !in name;
    assert Components(path) == Child(Components(path[..k]), name);
  }

  /** A successful mkdir or touch adds exactly one key, under an existing directory; a failed one changes nothing. */
  lemma CreateAddsOneKey(fs: Fs, path: seq<byte>, e: Entry)
    requires TreeOk(fs.tree) && CString(path)
    ensures var (fs', ok) := Create(fs, path, e);
            var c := Components(path);
            && TreeOk(fs'.tree)
            && (ok ==> c !in fs.tree && fs'.tree == fs.tree[c := e] && c != [] && IsDir(fs.tree, Parent(c)))
            && (!ok ==> fs' == fs)
  {
    hide Components, LastSlash;
    if Splits(fs.tree, path) && Components(path) !in fs.tree {
      SplitNamesChild(fs.tree, path);
      AddNodeKeepsTree(fs.tree, Components(path), e);
    }
  }

  lemma CreatedResolves(fs: Fs, path: seq<byte>, e: Entry)
    ensures var (fs', ok) := Create(fs, path, e); ok ==> Resolves(fs'.tree, path)
  {
  }

  lemma AddNodeKeepsTree(t: Tree, c: Path, e: Entry)
    requires TreeOk(t) && c !in t && c != [] && IsDir(t, Parent(c)) && NameOk(Last(c))
    ensures TreeOk(t[c := e])
  {
    var t' := t[c := e];
    forall p <- t'
      ensures Hangs(t', p)
    {
      assert p in t ==> Hangs(t, p);
    }
  }

  /** For a canonical path, creation succeeds exactly when the name is usable, the parent is a directory whose path fits
      the kernel's buffer, nothing has that name yet, and the heap holds one more node. */
  lemma CreateSucceedsIff(fs: Fs, c: Path, e: Entry)
    requires TreeOk(fs.tree) && c != [] && (forall n <- c :: n != [] && SLASH !in n && NUL !in n)
    requires ArenaOk(fs.arena)
    ensures Create(fs, Join(c), e).1 <==>
            && |Last(c)| <= NODE_NAME_MAX && |Join(Parent(c))| < PARTIAL_SIZE
            && IsDir(fs.tree, Parent(c)) && c !in fs.tree && Fits(fs.arena, NODE_SIZE, 16)
  {
    hide Components, LastSlash, Join, RoundUp, Alloc;
    var path, dir, name := Join(c), Join(Parent(c)), Last(c);
    assert c == Parent(c) + [name];
    JoinAppend(Parent(c), name);
    ComponentsOfJoin(c);
    assert name in c && forall n <- Parent(c) :: n in c;
    ComponentsOfJoin(Parent(c));
    var k := |dir|;
    assert path == dir + [SLASH] + name;
    SlashSlices(dir, name);
    JoinAbsolute(Parent(c));
    LastSlashUnique(path, k);
    AllocBlock(fs.arena, NODE_SIZE, 16);
  }

  lemma JoinAbsolute(p: Path)
    ensures p == [] ==> Join(p) == []
    ensures p != [] ==> Absolute(Join(p))
  {
  }

  /** After a successful write the file holds the written bytes; nothing else changes. A failed write changes at most a
      missing file into an empty one (when the node fits the heap but its contents do not). */
  lemma WriteThenRead(fs: Fs, path: seq<byte>, data: seq<byte>)
    requires TreeOk(fs.tree) && CString(path) && |data| + 1 < TWO32
    ensures var (fs', ok) := Write(fs, path, data);
            var c := Components(path);
            && TreeOk(fs'.tree)
            && (ok ==> fs'.tree == fs.tree[c := File(data)])
            && (!ok ==> fs'.tree == fs.tree || (c !in fs.tree && fs'.tree == fs.tree[c := File([])]))
            && (Resolves(fs.tree, path) && fs.tree[c] == Dir ==> fs' == fs && !ok)
  {
    hide Components, LastSlash;
    var c := Components(path);
    CreateAddsOneKey(fs, path, File([]));
    var (fs1, found) := FindOrTouch(fs, path);
    if found && !IsDir(fs1.tree, c) {
      assert c != [];
      OverwriteKeepsTree(fs1.tree, c, data);
    }
  }

  /** For a canonical path, a file can be made there: the name is usable, the parent is a directory whose path fits the
      kernel's buffer, and nothing has that name yet. */
  predicate CanMake(t: Tree, c: Path)
    requires c != []
  {
    |Last(c)| <= 31 && |Join(Parent(c))| < 128 && IsDir(t, Parent(c)) && c !in t
  }

  /** For a canonical path, a write succeeds exactly when there is a file or one can be made, and the heap holds the new
      node (56 bytes, and 8 up to the next multiple of 16) if it is missing, and then the data and its terminator. When
      only the data does not fit, a missing file has become an empty one; every other failure changes nothing. */
  lemma WriteSucceedsIff(fs: Fs, c: Path, data: seq<byte>)
    requires TreeOk(fs.tree) && c != [] && (forall n <- c :: n != [] && SLASH !in n && NUL !in n)
    requires ArenaOk(fs.arena) && fs.arena.end + |data| + 128 <= TWO32
    ensures var (fs', ok) := Write(fs, Join(c), data);
            var start := RoundUp(fs.arena.current, 16);
            && (ok <==>
                  if c in fs.tree then fs.tree[c].File? && start + |data| + 1 <= fs.arena.end
                  else CanMake(fs.tree, c) && start + 64 + |data| + 1 <= fs.arena.end)
            && (ok ==> fs'.tree == fs.tree[c := File(data)])
            && (!ok ==> fs'.tree == if c !in fs.tree && CanMake(fs.tree, c) && start + 56 <= fs.arena.end
                                    then fs.tree[c := File([])]
                                    else fs.tree)
  {
    hide Components, LastSlash, Join, RoundUp, Alloc, TreeOk, Splits, ArenaOk;
    ComponentsOfJoin(c);
    JoinAbsolute(c);
    CreateSucceedsIff(fs, c, File([]));
    AllocatesIff(fs.arena, NODE_SIZE);
    AllocatesIff(fs.arena, |data| + 1);
    AllocatesIff(Alloc(fs.arena, NODE_SIZE, 16).0, |data| + 1);
  }

  /** An allocation with alignment 16 succeeds exactly when it fits, and moves the heap pointer to its end. */
  lemma AllocatesIff(a: Arena, size: word)
    requires ArenaOk(a) && a.end + size + 16 <= TWO32
    ensures var (b, p) := Alloc(a, size, 16);
            && ArenaOk(b) && b.end == a.end && (p != 0 <==> RoundUp(a.current, 16) + size <= a.end)
            && (p == 0 ==> b == a)
            && (p != 0 ==> b.current == RoundUp(a.current, 16) + size)
            && (p != 0 && size == 56 ==> RoundUp(b.current, 16) == RoundUp(a.current, 16) + 64)
    ensures RoundUp(a.current, 16) + size <= a.end <==> Fits(a, size, 16)
  {
    AllocBlock(a, size, 16);
    RoundUpIsLeastMultiple(a.current, 16);
  }

  lemma OverwriteKeepsTree(t: Tree, c: Path, data: seq<byte>)
    requires TreeOk(t) && c in t && t[c] != Dir
    ensures TreeOk(t[c := File(data)])
  {
    var t' := t[c := File(data)];
    forall p <- t'
      ensures Hangs(t', p)
    {
      assert Hangs(t, p);
    }
  }

  // ---- whole runs ----

  datatype Op = Mkdir(path: seq<byte>) | Touch(path: seq<byte>) | WriteFile(path: seq<byte>, data: seq<byte>)

  predicate OpOk(op: Op) {
    CString(op.path) && (op.WriteFile? ==> |op.data| + 1 < TWO32)
  }

  function Step(fs: Fs, op: Op): Fs
    requires OpOk(op)
  {
    match op
    case Mkdir(path) => Create(fs, path, Dir).0
    case Touch(path) => Create(fs, path, File([])).0
    case WriteFile(path, data) => Write(fs, path, data).0
  }

  function RunOps(fs: Fs, ops: seq<Op>): Fs
    requires forall op <- ops :: OpOk(op)
    decreases |ops|
  {
    if ops == [] then fs else RunOps(Step(fs, ops[0]), ops[1..])
  }

  /** Over every run the tree stays well formed, no entry disappears, directories stay directories and files stay files,
      and a file that no write names keeps its contents. */
  lemma {:induction false} RunKeepsTree(fs: Fs, ops: seq<Op>)
    requires TreeOk(fs.tree) && forall op <- ops :: OpOk(op)
    ensures var t := RunOps(fs, ops).tree;
            && TreeOk(t)
            && forall p <- fs.tree :: p in t && t[p].Dir? == fs.tree[p].Dir?
                                      && ((forall op <- ops | op.WriteFile? :: Components(op.path) != p) ==>
                                            t[p] == fs.tree[p])
    decreases |ops|
  {
    hide Components, Create, Write;
    if ops != [] {
      assert ops[0] in ops && forall op <- ops[1..] :: op in ops;
      StepKeepsTree(fs, ops[0]);
      RunKeepsTree(Step(fs, ops[0]), ops[1..]);
    }
  }

  lemma StepKeepsTree(fs: Fs, op: Op)
    requires TreeOk(fs.tree) && OpOk(op)
    ensures var t := Step(fs, op).tree;
            && TreeOk(t)
            && forall p <- fs.tree :: p in t && t[p].Dir? == fs.tree[p].Dir?
                                      && ((op.WriteFile? && Components(op.path) == p) || t[p] == fs.tree[p])
  {
    hide Components, LastSlash;
    match op {
      case Mkdir(path) => CreateAddsOneKey(fs, path, Dir);
      case Touch(path) => CreateAddsOneKey(fs, path, File([]));
      case WriteFile(path, data) => WriteThenRead(fs, path, data);
    }
  }
}
