/** What loading an archive means: the records of a well-formed archive, applied in order to the path map. */
module Replay {
  import opened Machine
  import opened Paths
  import opened Heap
  import opened FileSystem
  import opened Directories
  import opened Initrd
  import opened Ustar

  // ---- heap budgets ----

  predicate Room(a: Arena, n: nat) {
    ArenaOk(a) && a.current + n <= a.end
  }

  /** An allocation costs its size and at most 15 bytes of padding. */
  lemma AllocRoom(a: Arena, size: word, n: nat)
    requires Room(a, size + 15 + n)
    ensures var (b, p) := Alloc(a, size, 16); p != 0 && Room(b, n)
  {
    AllocBlock(a, size, 16);
  }

  // ---- ideal replay ----

  /** A path as its author meant it: the canonical path of components that the tree can hold, "/" for none. */
  predicate Names(path: seq<byte>, c: Path) {
    && path == Canonical(c) && |path| < PARTIAL_SIZE
    && forall n <- c :: NameOk(n)
  }

  /** Directories and files have usable paths; what the loader skips may have any. */
  predicate WellFormed(r: Record) {
    && Absolute(r.path) && |r.data| + 1 < TWO32
    && (r.IsDirectory() || r.IsFile() ==> Names(r.path, Components(r.path)))
  }

  function Apply(t: FileSystem.Tree, r: Record): FileSystem.Tree {
    var c := Components(r.path);
    if r.IsDirectory() then AddDirs(t, c)
    else if r.IsFile() && c != [] then AddDirs(t, Parent(c))[c := File(r.data)]
    else t
  }

  function ApplyAll(t: FileSystem.Tree, rs: seq<Record>): FileSystem.Tree
    decreases |rs|
  {
    if rs == [] then t else ApplyAll(Apply(t, rs[0]), rs[1..])
  }

  /** The record clashes with nothing in the tree: no file where it needs a directory, no directory where it puts a
      file. */
  predicate Fits(t: FileSystem.Tree, r: Record) {
    var c := Components(r.path);
    && (r.IsDirectory() ==> NoFileOn(t, c))
    && (r.IsFile() ==> c != [] && NoFileOn(t, Parent(c)) && !IsDir(t, c))
  }

  predicate FitsAll(t: FileSystem.Tree, rs: seq<Record>)
    decreases |rs|
  {
    rs == [] || (WellFormed(rs[0]) && Fits(t, rs[0]) && FitsAll(Apply(t, rs[0]), rs[1..]))
  }

  /** Heap bytes that suffice for a record: a node per component, and a file's contents. */
  function Need(r: Record): nat {
    if r.IsDirectory() then 71 * |Components(r.path)|
    else if r.IsFile() then 71 * |Components(r.path)| + |r.data| + 16
    else 0
  }

  function NeedAll(rs: seq<Record>): nat
    decreases |rs|
  {
    if rs == [] then 0 else Need(rs[0]) + NeedAll(rs[1..])
  }

  // ---- the loader meets the ideal ----

  lemma {:induction false} ChainSucceeds(fs: Fs, c: Path, n: nat)
    requires TreeOk(fs.tree) && (forall m <- c :: NameOk(m)) && NoFileOn(fs.tree, c)
    requires Room(fs.arena, 71 * |c| + n)
    ensures var (f, ok) := EnsureChain(fs, c);
            ok && TreeOk(f.tree) && f.tree == AddDirs(fs.tree, c) && Room(f.arena, n)
  {
    hide EnsureChain, TreeOk, AddDirs, Room, NoFileOn;
    ChainHasRoom(fs, c, n);
    var k := EnsureChainAdds(fs, c);
    assert c[..k] == c;
  }

  lemma {:induction false} ChainHasRoom(fs: Fs, c: Path, n: nat)
    requires TreeOk(fs.tree) && (forall m <- c :: NameOk(m)) && NoFileOn(fs.tree, c)
    requires Room(fs.arena, 71 * |c| + n)
    ensures EnsureChain(fs, c).1 && Room(EnsureChain(fs, c).0.arena, n)
    decreases |c|
  {
    if c != [] {
      hide TreeOk, Prefixes, Alloc, EnsureChain, AddDirs;
      PrefixesSnoc(c);
      assert (forall m <- Parent(c) :: m in c) && Last(c) in c;
      ChainHasRoom(fs, Parent(c), 71 + n);
      ChainSucceedsFrom(fs, Parent(c));
      EnsureChainStep(fs, c);
      AddDirsDomain(fs.tree, Parent(c));
      AllocRoom(EnsureChain(fs, Parent(c)).0.arena, NODE_SIZE, n);
    }
  }

  lemma ChainSucceedsFrom(fs: Fs, c: Path)
    requires TreeOk(fs.tree) && (forall m <- c :: NameOk(m)) && EnsureChain(fs, c).1
    ensures EnsureChain(fs, c).0.tree == AddDirs(fs.tree, c)
  {
    hide EnsureChain, TreeOk, AddDirs;
    var k := EnsureChainAdds(fs, c);
    assert c[..k] == c;
  }

  /** Loading a directory record makes exactly its prefixes directories. */
  lemma LoadDirectoryApplies(fs: Fs, r: Record, n: nat)
    requires TreeOk(fs.tree) && WellFormed(r) && r.IsDirectory() && Fits(fs.tree, r)
    requires Room(fs.arena, Need(r) + n)
    ensures Absolute(r.path)
    ensures var f := LoadRecord(fs, r); TreeOk(f.tree) && f.tree == Apply(fs.tree, r) && Room(f.arena, n)
  {
    hide EnsureChain, TreeOk, AddDirs, NoFileOn, Components;
    ChainSucceeds(fs, Components(r.path), n);
  }

  /** The entry an archive of a whole directory starts with, its own root, fits every tree and changes nothing. */
  lemma RootRecordFits(fs: Fs, data: seq<byte>)
    requires TreeOk(fs.tree) && |data| + 1 < TWO32
    ensures var r := Record(DIRECTORY_TYPE, [SLASH], data);
            && WellFormed(r) && Fits(fs.tree, r) && Need(r) == 0
            && Apply(fs.tree, r) == fs.tree && LoadRecord(fs, r) == fs
  {
    var root: Path := [];
    assert Components([SLASH]) == root;
    assert root[..0] == root;
    NoDirsToAdd(fs.tree);
  }

  /** The path of a file record is its directory's path, a slash and its name. */
  lemma FilePath(path: seq<byte>, c: Path)
    requires path == Join(c) && c != [] && forall m <- c :: NameOk(m)
    ensures Absolute(path) && LastSlash(path) == |Join(Parent(c))| && path[..LastSlash(path)] == Join(Parent(c))
    ensures Parent(c) == [] ==> LastSlash(path) == 0
    ensures Parent(c) != [] ==> LastSlash(path) >= 2 && Absolute(Join(Parent(c)))
    ensures Components(path) == c && Components(Join(Parent(c))) == Parent(c)
  {
    hide Components, Join, LastSlash;
    var p, name := Parent(c), Last(c);
    assert c == p + [name] && name in c && forall m <- p :: m in c;
    JoinAppend(p, name);
    ComponentsOfJoin(c);
    ComponentsOfJoin(p);
    var k := |Join(p)|;
    SlashSlices(Join(p), name);
    JoinAbsolute(p);
    JoinAbsolute(c);
    LastSlashUnique(path, k);
    if p != [] {
      assert p[0] in c;
      JoinHead(p);
    }
  }

  lemma JoinHead(p: Path)
    requires p != []
    ensures |Join(p)| >= 1 + |p[0]|
  {
  }

  /** ramfs_ensure_parent_directory on a file's path succeeds exactly when the path fits the buffer, the file is not
      directly under the root, and its ancestors can be made directories: below the root it fails, having nothing to
      do. */
  lemma EnsureParentSucceedsIff(fs: Fs, c: Path)
    requires TreeOk(fs.tree) && c != [] && forall m <- c :: NameOk(m)
    ensures Absolute(Join(c))
    ensures EnsureParent(fs, Join(c)).1 <==>
              |Join(c)| < PARTIAL_SIZE && |c| >= 2 && EnsureChain(fs, Parent(c)).1
  {
    hide EnsureChain, TreeOk, Components, LastSlash, Join;
    FilePath(Join(c), c);
  }

  lemma EnsureParentSucceeds(fs: Fs, path: seq<byte>, c: Path, n: nat)
    requires TreeOk(fs.tree) && path == Join(c) && c != [] && |path| < PARTIAL_SIZE && (forall m <- c :: NameOk(m))
    requires NoFileOn(fs.tree, Parent(c)) && Room(fs.arena, 71 * |Parent(c)| + n)
    ensures Absolute(path)
    ensures var f := EnsureParent(fs, path).0;
            TreeOk(f.tree) && f.tree == AddDirs(fs.tree, Parent(c)) && Room(f.arena, n)
  {
    hide EnsureChain, TreeOk, Components, LastSlash, Join, AddDirs, NoFileOn;
    FilePath(path, c);
    var p := Parent(c);
    assert forall m <- p :: m in c;
    if p == [] {
      NoDirsToAdd(fs.tree);
    } else {
      ChainSucceeds(fs, p, n);
    }
  }

  lemma NoDirsToAdd(t: FileSystem.Tree)
    requires TreeOk(t)
    ensures AddDirs(t, []) == t
  {
    var root: Path := [];
    assert Prefixes(root) == {root} by {
      assert root[..0] == root;
    }
    AddDirsDomain(t, root);
  }

  /** Touching a file whose directory exists leaves a file there, old or new. */
  lemma TouchLeavesFile(fs: Fs, path: seq<byte>, c: Path, n: nat)
    requires TreeOk(fs.tree) && path == Join(c) && c != [] && |path| < PARTIAL_SIZE && (forall m <- c :: NameOk(m))
    requires IsDir(fs.tree, Parent(c)) && !IsDir(fs.tree, c) && Room(fs.arena, 71 + n)
    ensures Absolute(path)
    ensures var f := Create(fs, path, File([])).0;
            && TreeOk(f.tree) && c in f.tree && f.tree[c] != Dir && Room(f.arena, n)
            && (f.tree == fs.tree || f.tree == fs.tree[c := File([])])
  {
    hide TreeOk, Components, LastSlash, Join, Alloc;
    FilePath(path, c);
    assert Last(c) in c;
    if c !in fs.tree {
      AllocRoom(fs.arena, NODE_SIZE, n);
      CreateSucceedsAt(fs, c);
      AddNodeKeepsTree(fs.tree, c, File([]));
    }
  }

  lemma CreateSucceedsAt(fs: Fs, c: Path)
    requires TreeOk(fs.tree) && c != [] && (forall m <- c :: NameOk(m)) && ArenaOk(fs.arena)
    requires |Join(c)| < PARTIAL_SIZE && IsDir(fs.tree, Parent(c)) && c !in fs.tree
             && Alloc(fs.arena, NODE_SIZE, 16).1 != 0
    ensures Create(fs, Join(c), File([])) == AddNode(fs, c, File([]))
  {
    hide TreeOk, Components, LastSlash, Join, RoundUp;
    FilePath(Join(c), c);
    CreateSucceedsIff(fs, c, File([]));
    AllocBlock(fs.arena, NODE_SIZE, 16);
    assert Last(c) in c;
  }

  /** Loading a file record makes its ancestors directories and the file hold exactly the record's bytes. */
  lemma LoadFileApplies(fs: Fs, r: Record, n: nat)
    requires TreeOk(fs.tree) && WellFormed(r) && r.IsFile() && Fits(fs.tree, r)
    requires Room(fs.arena, Need(r) + n)
    ensures Absolute(r.path)
    ensures var f := LoadRecord(fs, r); TreeOk(f.tree) && f.tree == Apply(fs.tree, r) && Room(f.arena, n)
  {
    hide EnsureParent, Create, TreeOk, Components, Join, AddDirs, NoFileOn, Prefixes, Alloc;
    var c := Components(r.path);
    FilePath(r.path, c);
    EnsureParentSucceeds(fs, r.path, c, 71 + |r.data| + 16 + n);
    var f1 := EnsureParent(fs, r.path).0;
    AddDirsDomain(fs.tree, Parent(c));
    PrefixesSnoc(c);
    TouchLeavesFile(f1, r.path, c, |r.data| + 16 + n);
    var f2 := Create(f1, r.path, File([])).0;
    AllocRoom(f2.arena, |r.data| + 1, n);
    OverwriteKeepsTree(f2.tree, c, r.data);
    assert f2.tree[c := File(r.data)] == f1.tree[c := File(r.data)];
  }

  /** Loading well-formed records that clash with nothing, into a heap with room for them, is exactly their ideal
      replay. */
  lemma {:induction false} LoadIsReplay(fs: Fs, rs: seq<Record>)
    requires TreeOk(fs.tree) && FitsAll(fs.tree, rs) && Room(fs.arena, NeedAll(rs))
    ensures Loadable(rs)
    ensures TreeOk(LoadRecords(fs, rs).tree) && LoadRecords(fs, rs).tree == ApplyAll(fs.tree, rs)
    decreases |rs|
  {
    if rs != [] {
      hide TreeOk, WellFormed, Fits, Apply, LoadRecord, Need, Room;
      LoadOneApplies(fs, rs[0], NeedAll(rs[1..]));
      LoadIsReplay(LoadRecord(fs, rs[0]), rs[1..]);
    }
  }

  lemma LoadOneApplies(fs: Fs, r: Record, n: nat)
    requires TreeOk(fs.tree) && WellFormed(r) && Fits(fs.tree, r) && Room(fs.arena, Need(r) + n)
    ensures Absolute(r.path) && |r.data| + 1 < TWO32
    ensures var f := LoadRecord(fs, r); TreeOk(f.tree) && f.tree == Apply(fs.tree, r) && Room(f.arena, n)
  {
    hide TreeOk, Fits, Apply, LoadRecord, Need, Components, Join, Names;
    if r.IsDirectory() {
      LoadDirectoryApplies(fs, r, n);
    } else if r.IsFile() {
      LoadFileApplies(fs, r, n);
    } else {
      LoadOtherApplies(fs, r, n);
    }
  }

  lemma LoadOtherApplies(fs: Fs, r: Record, n: nat)
    requires !r.IsDirectory() && !r.IsFile() && Absolute(r.path) && |r.data| + 1 < TWO32
    requires Room(fs.arena, Need(r) + n)
    ensures LoadRecord(fs, r) == fs && Apply(fs.tree, r) == fs.tree && Room(fs.arena, n)
  {
  }

  // ---- what the replayed tree contains ----

  /** Applying a record that fits changes no file but its own and no directory. */
  lemma ApplyKeeps(t: FileSystem.Tree, r: Record, c: Path)
    requires WellFormed(r) && Fits(t, r) && c in t
    ensures c in Apply(t, r)
    ensures t[c] == Dir ==> Apply(t, r)[c] == Dir
    ensures t[c] != Dir ==> Apply(t, r)[c] != Dir
    ensures t[c] != Dir && !(r.IsFile() && Components(r.path) == c) ==> Apply(t, r)[c] == t[c]
  {
    hide Components, Prefixes;
    var d := Components(r.path);
    if r.IsDirectory() {
      AddDirsDomain(t, d);
    } else if r.IsFile() {
      AddDirsDomain(t, Parent(d));
    }
  }

  /** Over a whole replay, directories stay directories, and a file that no record names keeps its bytes. */
  lemma {:induction false} ReplayKeeps(t: FileSystem.Tree, rs: seq<Record>, c: Path)
    requires FitsAll(t, rs) && c in t
    ensures c in ApplyAll(t, rs)
    ensures t[c] == Dir ==> ApplyAll(t, rs)[c] == Dir
    ensures t[c] != Dir && (forall r <- rs :: !(r.IsFile() && Components(r.path) == c)) ==> ApplyAll(t, rs)[c] == t[c]
    decreases |rs|
  {
    if rs != [] {
      hide Components, Apply, WellFormed, Fits;
      assert rs[0] in rs && forall r <- rs[1..] :: r in rs;
      ApplyKeeps(t, rs[0], c);
      ReplayKeeps(Apply(t, rs[0]), rs[1..], c);
    }
  }

  /** Records that are neither directories nor files are skipped. */
  lemma OtherKindsSkipped(fs: Fs, r: Record)
    requires Absolute(r.path) && |r.data| + 1 < TWO32 && r.kind !in {0, 48, 53}
    ensures LoadRecord(fs, r) == fs
  {
  }

  /** Every file, of kind '0' or NUL, reads back the bytes of its last record; the path of every record of kind '5' is a
      directory. */
  lemma {:induction false} ReplayReadsBack(t: FileSystem.Tree, rs: seq<Record>, i: nat)
    requires FitsAll(t, rs) && i < |rs|
    ensures var c := Components(rs[i].path);
            && (rs[i].kind == 53 ==> IsDir(ApplyAll(t, rs), c))
            && (rs[i].kind in {0, 48}
                && (forall r <- rs[i + 1..] :: !(r.kind in {0, 48} && Components(r.path) == c)) ==>
                  c in ApplyAll(t, rs) && ApplyAll(t, rs)[c] == File(rs[i].data))
    decreases |rs|
  {
    hide Components, WellFormed, Fits, Apply;
    if i == 0 {
      ApplyPlaces(t, rs[0]);
      if rs[0].IsDirectory() || rs[0].IsFile() {
        ReplayKeeps(Apply(t, rs[0]), rs[1..], Components(rs[0].path));
      }
    } else {
      assert rs[1..][i..] == rs[i + 1..];
      ReplayReadsBack(Apply(t, rs[0]), rs[1..], i - 1);
    }
  }

  lemma ApplyPlaces(t: FileSystem.Tree, r: Record)
    requires WellFormed(r) && Fits(t, r)
    ensures var c := Components(r.path);
            && (r.IsDirectory() ==> IsDir(Apply(t, r), c))
            && (r.IsFile() ==> c in Apply(t, r) && Apply(t, r)[c] == File(r.data))
  {
    hide Components, Prefixes;
    AddDirsDomain(t, Components(r.path));
  }

  /** A replay adds nothing but the records' own paths and their ancestors. */
  lemma {:induction false} ReplayAddsOnlyAncestors(t: FileSystem.Tree, rs: seq<Record>, q: Path)
    requires FitsAll(t, rs) && q in ApplyAll(t, rs) && q !in t
    ensures exists r <- rs :: q in Prefixes(Components(r.path))
    decreases |rs|
  {
    hide Components, WellFormed, Fits, Apply;
    if rs != [] {
      assert rs[0] in rs && forall r <- rs[1..] :: r in rs;
      if q in Apply(t, rs[0]) {
        ApplyAdds(t, rs[0], q);
      } else {
        ReplayAddsOnlyAncestors(Apply(t, rs[0]), rs[1..], q);
      }
    }
  }

  lemma ApplyAdds(t: FileSystem.Tree, r: Record, q: Path)
    requires q in Apply(t, r) && q !in t
    ensures q in Prefixes(Components(r.path))
  {
    hide Components, Prefixes;
    var c := Components(r.path);
    AddDirsDomain(t, c);
    if c != [] {
      PrefixesSnoc(c);
      AddDirsDomain(t, Parent(c));
    }
  }
}
