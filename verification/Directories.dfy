/** Creating a directory together with its missing ancestors (ramfs_ensure_directory and
    ramfs_ensure_parent_directory in src/kernel/ramfs.c). */
module Directories {
  import opened Machine
  import opened Paths
  import opened Heap
  import opened FileSystem
  import Memory
  import Ramfs

  // ---- specification ----

  /** Make p a directory, its parent being dealt with already. */
  function EnsureDir(fs: Fs, p: Path): (Fs, bool)
    requires p != []
  {
    if IsDir(fs.tree, p) then (fs, true)
    else if p in fs.tree || !IsDir(fs.tree, Parent(p)) || |Last(p)| > NODE_NAME_MAX then (fs, false)
    else AddNode(fs, p, Dir)
  }

  /** Make every prefix of c a directory, shortest first, stopping at the first that cannot be made. */
  function EnsureChain(fs: Fs, c: Path): (Fs, bool)
    decreases |c|
  {
    if c == [] then (fs, true)
    else
      var (f, ok) := EnsureChain(fs, Parent(c));
      if !ok then (f, false) else EnsureDir(f, c)
  }

  /** The kernel works in a 128-byte buffer: of a longer path only the ancestors that fit are created. */
  function EnsureDirectory(fs: Fs, path: seq<byte>): (Fs, bool) {
    if !Absolute(path) then (fs, false)
    else if |path| < PARTIAL_SIZE then EnsureChain(fs, Components(path))
    else (EnsureChain(fs, Components(path[..LastSlash(path[..PARTIAL_SIZE - 1])])).0, false)
  }

  function EnsureParent(fs: Fs, path: seq<byte>): (Fs, bool)
    requires Absolute(path)
  {
    var k := LastSlash(path);
    if |path| >= PARTIAL_SIZE || |path| < 2 || k == 0 then (fs, false)
    else if k == 1 then (fs, true)
    else EnsureDirectory(fs, path[..k])
  }

  // ---- what it does to the tree ----

  function Prefixes(c: Path): set<Path> {
    set k | 0 <= k <= |c| :: c[..k]
  }

  /** The tree with every prefix of c a directory. */
  function AddDirs(t: Tree, c: Path): Tree {
    t + map q | q in Prefixes(c) :: Dir
  }

  predicate NoFileOn(t: Tree, c: Path) {
    forall q <- Prefixes(c) | q in t :: t[q] == Dir
  }

  lemma PrefixesSnoc(c: Path)
    requires c != []
    ensures Prefixes(c) == Prefixes(Parent(c)) + {c}
    ensures forall q <- Prefixes(Parent(c)) :: |q| < |c|
  {
    var p := Parent(c);
    forall k | 0 <= k <= |c|
      ensures c[..k] in Prefixes(p) + {c}
    {
      if k == |c| {
        assert c[..k] == c;
      } else {
        assert c[..k] == p[..k];
      }
    }
    forall k | 0 <= k <= |p|
      ensures p[..k] in Prefixes(c) && |p[..k]| < |c|
    {
      assert p[..k] == c[..k];
    }
    assert c[..|c|] == c;
  }

  /** Success makes every prefix a directory and adds exactly the missing prefixes; failure has added some shorter
      chain of directories and nothing else. Either way no existing entry changes. */
  lemma {:induction false} EnsureChainAdds(fs: Fs, c: Path) returns (k: nat)
    requires TreeOk(fs.tree) && (forall n <- c :: n != [] && SLASH !in n && NUL !in n)
    ensures var (f, ok) := EnsureChain(fs, c);
            && TreeOk(f.tree) && k <= |c| && (ok <==> k == |c|)
            && f.tree == AddDirs(fs.tree, c[..k]) && NoFileOn(fs.tree, c[..k])
    decreases |c|
  {
    if c == [] {
      k := 0;
      assert c[..0] == [] && Prefixes([]) == {[]};
    } else {
      hide EnsureChain, EnsureDir, TreeOk, AddDirs, NoFileOn;
      assert forall n <- Parent(c) :: n in c;
      k := EnsureChainAdds(fs, Parent(c));
      EnsureChainStep(fs, c);
      assert Parent(c)[..k] == c[..k];
      if EnsureChain(fs, Parent(c)).1 {
        assert Parent(c)[..k] == Parent(c) && c[..|c|] == c;
        assert Last(c) in c && (|Last(c)| <= NODE_NAME_MAX ==> NameOk(Last(c)));
        EnsureDirAdds(fs.tree, EnsureChain(fs, Parent(c)).0, c);
        if EnsureChain(fs, c).1 {
          k := |c|;
        }
      }
    }
  }

  lemma EnsureChainStep(fs: Fs, c: Path)
    requires c != []
    ensures var (f, ok) := EnsureChain(fs, Parent(c));
            EnsureChain(fs, c) == if ok then EnsureDir(f, c) else (f, false)
  {
  }

  lemma EnsureDirAdds(t: Tree, fs: Fs, c: Path)
    requires c != [] && TreeOk(fs.tree) && fs.tree == AddDirs(t, Parent(c)) && NoFileOn(t, Parent(c))
    requires |Last(c)| <= NODE_NAME_MAX ==> NameOk(Last(c))
    ensures var (f, ok) := EnsureDir(fs, c);
            && TreeOk(f.tree)
            && (ok ==> f.tree == AddDirs(t, c) && NoFileOn(t, c))
            && (!ok ==> f.tree == fs.tree)
  {
    hide NameOk, TreeOk, AddDirs;
    AddDirsSnoc(t, c);
    if c !in fs.tree && IsDir(fs.tree, Parent(c)) && |Last(c)| <= NODE_NAME_MAX {
      AddNodeKeepsTree(fs.tree, c, Dir);
    }
  }

  lemma AddDirsSnoc(t: Tree, c: Path)
    requires c != []
    ensures AddDirs(t, c) == AddDirs(t, Parent(c))[c := Dir]
    ensures IsDir(AddDirs(t, Parent(c)), c) ==> AddDirs(t, c) == AddDirs(t, Parent(c))
    ensures NoFileOn(t, c) <==> NoFileOn(t, Parent(c)) && (c in t ==> t[c] == Dir)
    ensures c in AddDirs(t, Parent(c)) <==> c in t
    ensures c in t ==> AddDirs(t, Parent(c))[c] == t[c]
  {
    PrefixesSnoc(c);
  }

  /** Ensuring again changes nothing. */
  lemma {:induction false} EnsureAgain(fs: Fs, c: Path)
    requires forall q <- Prefixes(c) :: IsDir(fs.tree, q)
    ensures EnsureChain(fs, c) == (fs, true)
    decreases |c|
  {
    if c != [] {
      PrefixesSnoc(c);
      EnsureAgain(fs, Parent(c));
    }
  }

  lemma EnsureTwice(fs: Fs, c: Path)
    requires TreeOk(fs.tree) && (forall n <- c :: n != [] && SLASH !in n && NUL !in n)
    requires EnsureChain(fs, c).1
    ensures EnsureChain(EnsureChain(fs, c).0, c) == (EnsureChain(fs, c).0, true)
    ensures forall q <- Prefixes(c) :: IsDir(EnsureChain(fs, c).0.tree, q)
  {
    hide EnsureChain, TreeOk;
    var k := EnsureChainAdds(fs, c);
    assert c[..k] == c;
    EnsureAgain(EnsureChain(fs, c).0, c);
  }

  // ---- when it succeeds ----

  function Missing(t: Tree, c: Path): nat
    decreases |c|
  {
    if c == [] then 0 else Missing(t, Parent(c)) + (if c in t then 0 else 1)
  }

  predicate MissingNamesFit(t: Tree, c: Path) {
    forall q <- Prefixes(c) | q !in t && q != [] :: |Last(q)| <= NODE_NAME_MAX
  }

  /** The heap after n node allocations, and whether all of them succeed. */
  function AllocNodes(a: Arena, n: nat): (Arena, bool) {
    if n == 0 then (a, true)
    else
      var (b, ok) := AllocNodes(a, n - 1);
      var (d, p) := Alloc(b, NODE_SIZE, 16);
      (d, ok && p != 0)
  }

  /** Exactly when a chain of directories can be made: no prefix is a file, the missing names fit a node, and the heap
      holds one node for each. */
  lemma {:induction false} EnsureSucceedsIff(fs: Fs, c: Path)
    requires TreeOk(fs.tree) && (forall n <- c :: n != [] && SLASH !in n && NUL !in n)
    ensures EnsureChain(fs, c).1 <==>
            NoFileOn(fs.tree, c) && MissingNamesFit(fs.tree, c) && AllocNodes(fs.arena, Missing(fs.tree, c)).1
    ensures EnsureChain(fs, c).1 ==> EnsureChain(fs, c).0.arena == AllocNodes(fs.arena, Missing(fs.tree, c)).0
    decreases |c|
  {
    if c == [] {
      assert c[..0] == [] && Prefixes([]) == {[]};
    } else {
      hide TreeOk, EnsureChain, AddDirs;
      var p := Parent(c);
      assert forall n <- p :: n in c;
      EnsureSucceedsIff(fs, p);
      var k := EnsureChainAdds(fs, p);
      assert p[..|p|] == p;
      EnsureChainStep(fs, c);
      EnsureStepIff(fs, c);
    }
  }

  /** The call on a path string: besides all that, the path must be absolute and fit the kernel's buffer. */
  lemma EnsureDirectorySucceedsIff(fs: Fs, path: seq<byte>)
    requires TreeOk(fs.tree) && CString(path)
    ensures var c := Components(path);
            EnsureDirectory(fs, path).1 <==>
              && Absolute(path) && |path| < PARTIAL_SIZE
              && NoFileOn(fs.tree, c) && MissingNamesFit(fs.tree, c) && AllocNodes(fs.arena, Missing(fs.tree, c)).1
  {
    hide Components, EnsureChain, NoFileOn, MissingNamesFit, AllocNodes, Missing;
    ComponentsWellFormed(path);
    EnsureSucceedsIff(fs, Components(path));
  }

  lemma EnsureStepIff(fs: Fs, c: Path)
    requires c != []
    requires var (f, ok) := EnsureChain(fs, Parent(c));
             && (ok <==>
                   NoFileOn(fs.tree, Parent(c)) && MissingNamesFit(fs.tree, Parent(c))
                   && AllocNodes(fs.arena, Missing(fs.tree, Parent(c))).1)
             && (ok ==> f == Fs(AddDirs(fs.tree, Parent(c)), AllocNodes(fs.arena, Missing(fs.tree, Parent(c))).0))
    requires EnsureChain(fs, c) == if EnsureChain(fs, Parent(c)).1 then EnsureDir(EnsureChain(fs, Parent(c)).0, c)
             else (EnsureChain(fs, Parent(c)).0, false)
    ensures EnsureChain(fs, c).1 <==>
            NoFileOn(fs.tree, c) && MissingNamesFit(fs.tree, c) && AllocNodes(fs.arena, Missing(fs.tree, c)).1
    ensures EnsureChain(fs, c).1 ==> EnsureChain(fs, c).0.arena == AllocNodes(fs.arena, Missing(fs.tree, c)).0
  {
    hide EnsureChain, Alloc, AddDirs, Prefixes;
    var p := Parent(c);
    PrefixesSnoc(c);
    AddDirsDomain(fs.tree, p);
    AllocNodesPrefix(fs.arena, Missing(fs.tree, p), Missing(fs.tree, c));
  }

  lemma AddDirsDomain(t: Tree, p: Path)
    ensures forall q :: q in AddDirs(t, p) <==> q in t || q in Prefixes(p)
    ensures forall q :: q in AddDirs(t, p) ==> AddDirs(t, p)[q] == if q in Prefixes(p) then Dir else t[q]
    ensures p in Prefixes(p)
  {
    assert p[..|p|] == p;
  }

  lemma {:induction false} AllocNodesPrefix(a: Arena, m: nat, n: nat)
    requires m <= n
    ensures AllocNodes(a, n).1 ==> AllocNodes(a, m).1
  {
    if m < n {
      AllocNodesPrefix(a, m, n - 1);
    }
  }

  // ---- the loop over the path's characters ----

  /** is_dir(path) || mkdir(path) */
  function Ensured(fs: Fs, path: seq<byte>): (Fs, bool) {
    if ResolvesToDir(fs.tree, path) then (fs, true) else Create(fs, path, Dir)
  }

  /** No slash strictly between two positions of a path, the first of which is one. */
  predicate SegmentBetween(path: seq<byte>, last: nat, i: nat) {
    last < i <= |path| && path[last] == SLASH && SLASH !in path[last + 1..i]
  }

  /** One is_dir/mkdir call carries the chain from one slash of the path to the next. */
  lemma EnsuredExtendsChain(fs: Fs, f: Fs, path: seq<byte>, last: nat, i: nat)
    requires TreeOk(fs.tree) && CString(path) && Absolute(path) && SegmentBetween(path, last, i) && last < PARTIAL_SIZE
    requires EnsureChain(fs, Components(path[..last])) == (f, true)
    ensures Ensured(f, path[..i]) == EnsureChain(fs, Components(path[..i]))
  {
    hide EnsureChain, Components, LastSlash, TreeOk, AddNode;
    var head, c := path[..i], Components(path[..last]);
    assert head[..last] == path[..last] && head[last + 1..] == path[last + 1..i];
    ComponentsSplitLast(head, last);
    LastSlashUnique(head, last);
    ComponentsWellFormed(path[..last]);
    assert CString(path[..last]);
    EnsureTwice(fs, c);
    assert c[..|c|] == c && c in Prefixes(c) && IsDir(f.tree, c);
    if i > last + 1 {
      var name := path[last + 1..i];
      assert Components(head) == Child(c, name);
      EnsureChainStep(fs, Child(c, name));
      if last == 0 {
        assert path[..0] == [];
      }
    } else {
      assert Components(head) == c;
    }
  }

  lemma {:induction false} EnsureStopsAtFailure(fs: Fs, p: Path, rest: Path)
    requires !EnsureChain(fs, p).1
    ensures EnsureChain(fs, p + rest) == EnsureChain(fs, p)
    decreases |rest|
  {
    if rest == [] {
      assert p + rest == p;
    } else {
      EnsureStopsAtFailure(fs, p, Parent(rest));
      assert Parent(p + rest) == p + Parent(rest);
    }
  }

  /** Failing at one slash of the path decides the result for the whole path. */
  lemma FailureDecides(fs: Fs, path: seq<byte>, i: nat)
    requires Absolute(path) && 0 < i < |path| && i < PARTIAL_SIZE - 1 && path[i] == SLASH
    requires !EnsureChain(fs, Components(path[..i])).1
    ensures EnsureDirectory(fs, path) == EnsureChain(fs, Components(path[..i]))
  {
    hide EnsureChain, Components;
    var end := |path|;
    if |path| >= PARTIAL_SIZE {
      var head := path[..PARTIAL_SIZE - 1];
      end := LastSlash(head);
      assert head[i] == SLASH && i <= end && head[..end] == path[..end];
    }
    assert path[..end] == path[..i] + path[i..end];
    ComponentsConcat(path[..i], path[i..end]);
    EnsureStopsAtFailure(fs, Components(path[..i]), Components(path[i..end]));
    assert path[..|path|] == path;
  }

  method EnsureOne(fs: Ramfs.Tree, path: seq<byte>) returns (ok: bool)
    requires fs.Valid() && CString(path)
    modifies fs, fs.heap, fs.mem, fs.Nodes()
    ensures fs.Valid() && (fs.View(), ok) == Ensured(old(fs.View()), path)
    ensures old(fs.Nodes()) <= fs.Nodes() && fresh(fs.Nodes() - old(fs.Nodes()))
    ensures fs.heap.heapCurrent >= old(fs.heap.heapCurrent) && fs.heap.heapEnd == old(fs.heap.heapEnd)
    ensures Memory.KeptOutside(fs.mem[..], old(fs.mem[..]), old(fs.heap.heapCurrent), fs.heap.heapEnd)
  {
    hide ResolvesToDir, Create;
    var dir := fs.IsDirectory(path);
    if dir {
      return true;
    }
    ok := fs.Mkdir(path);
  }

  method MakeDirectories(fs: Ramfs.Tree, path: seq<byte>) returns (ok: bool)
    requires fs.Valid() && CString(path)
    modifies fs, fs.heap, fs.mem, fs.Nodes()
    ensures fs.Valid() && (fs.View(), ok) == EnsureDirectory(old(fs.View()), path)
    ensures old(fs.Nodes()) <= fs.Nodes() && fresh(fs.Nodes() - old(fs.Nodes()))
    ensures fs.heap.heapCurrent >= old(fs.heap.heapCurrent) && fs.heap.heapEnd == old(fs.heap.heapEnd)
    ensures Memory.KeptOutside(fs.mem[..], old(fs.mem[..]), old(fs.heap.heapCurrent), fs.heap.heapEnd)
  {
    hide Components, LastSlash, EnsureChain, EnsureDirectory, TreeOk, SegmentBetween, fs.Valid, fs.Contents;
    if path == [] || path[0] != SLASH {
      NotAbsolute(fs.View(), path);
      return false;
    }
    ghost var before := fs.View();
    fs.ContentsOk();
    RootPath(before, path);
    if |path| == 1 {
      return true;
    }
    var partial := [SLASH];
    var i := 1;
    ghost var last := 0;
    TakeNext(path, 0);
    while i < |path|
      invariant 1 <= i <= |path| && i < PARTIAL_SIZE && partial == path[..i]
      invariant last < i && SegmentBetween(path, last, i)
      invariant fs.Valid() && (fs.View(), true) == EnsureChain(before, Components(path[..last]))
      invariant old(fs.Nodes()) <= fs.Nodes() && fresh(fs.Nodes() - old(fs.Nodes()))
      invariant fs.heap.heapCurrent >= old(fs.heap.heapCurrent) && fs.heap.heapEnd == old(fs.heap.heapEnd)
      invariant Memory.KeptOutside(fs.mem[..], old(fs.mem[..]), old(fs.heap.heapCurrent), fs.heap.heapEnd)
    {
      if |partial| + 1 >= PARTIAL_SIZE {
        OverlongPath(before, path, last);
        return false;
      }
      TakeNext(path, i);
      partial := partial + [path[i]];
      if path[i] == SLASH {
        var made := EnsureNext(fs, partial[..i], path, before, last, i);
        if !made {
          FailureDecides(before, path, i);
          return false;
        }
        last := i;
      } else {
        SegmentGrows(path, last, i);
      }
      i := i + 1;
    }
    TakeAll(path);
    ok := EnsureNext(fs, partial, path, before, last, i);
    ShortPath(before, path);
  }

  /** EnsureOne, read as one link of the chain. */
  method EnsureNext(fs: Ramfs.Tree, partial: seq<byte>, ghost path: seq<byte>, ghost before: Fs, ghost last: nat,
                    ghost i: nat)
    returns (ok: bool)
    requires fs.Valid() && CString(path) && Absolute(path) && SegmentBetween(path, last, i) && last < PARTIAL_SIZE
    requires TreeOk(before.tree) && partial == path[..i]
    requires EnsureChain(before, Components(path[..last])) == (fs.View(), true)
    modifies fs, fs.heap, fs.mem, fs.Nodes()
    ensures fs.Valid() && (fs.View(), ok) == EnsureChain(before, Components(path[..i]))
    ensures old(fs.Nodes()) <= fs.Nodes() && fresh(fs.Nodes() - old(fs.Nodes()))
    ensures fs.heap.heapCurrent >= old(fs.heap.heapCurrent) && fs.heap.heapEnd == old(fs.heap.heapEnd)
    ensures Memory.KeptOutside(fs.mem[..], old(fs.mem[..]), old(fs.heap.heapCurrent), fs.heap.heapEnd)
  {
    hide Components, LastSlash, EnsureChain, TreeOk, Ensured, SegmentBetween;
    EnsuredExtendsChain(before, fs.View(), path, last, i);
    ok := EnsureOne(fs, partial);
  }

  lemma TakeNext(path: seq<byte>, i: nat)
    requires i < |path|
    ensures path[..i] + [path[i]] == path[..i + 1] && path[..i + 1][..i] == path[..i]
    ensures [path[0]] == path[..1]
    ensures path[i] == SLASH ==> SegmentBetween(path, i, i + 1)
  {
  }

  lemma TakeAll(path: seq<byte>)
    ensures path[..|path|] == path
  {
  }

  lemma SegmentGrows(path: seq<byte>, last: nat, i: nat)
    requires i < |path| && SegmentBetween(path, last, i) && path[i] != SLASH
    ensures SegmentBetween(path, last, i + 1)
  {
    assert path[last + 1..i + 1] == path[last + 1..i] + [path[i]];
  }

  lemma NotAbsolute(fs: Fs, path: seq<byte>)
    requires !Absolute(path)
    ensures EnsureDirectory(fs, path) == (fs, false)
  {
  }

  lemma RootPath(fs: Fs, path: seq<byte>)
    requires Absolute(path)
    ensures EnsureChain(fs, Components(path[..0])) == (fs, true)
    ensures |path| == 1 ==> EnsureDirectory(fs, path) == (fs, true)
  {
    hide LastSlash;
    assert path[..0] == [];
    ComponentsOfEmpty();
    ComponentsUnfold(path);
  }

  lemma ShortPath(fs: Fs, path: seq<byte>)
    requires Absolute(path) && |path| < PARTIAL_SIZE
    ensures EnsureDirectory(fs, path) == EnsureChain(fs, Components(path))
  {
  }

  lemma OverlongPath(fs: Fs, path: seq<byte>, last: nat)
    requires Absolute(path) && |path| >= PARTIAL_SIZE && SegmentBetween(path, last, PARTIAL_SIZE - 1)
    ensures EnsureDirectory(fs, path) == (EnsureChain(fs, Components(path[..last])).0, false)
  {
    hide Components, EnsureChain;
    var head := path[..PARTIAL_SIZE - 1];
    assert head[last + 1..] == path[last + 1..PARTIAL_SIZE - 1] && head[..last] == path[..last];
    LastSlashUnique(head, last);
  }

  method EnsureParentDirectory(fs: Ramfs.Tree, path: seq<byte>) returns (ok: bool)
    requires fs.Valid() && CString(path) && Absolute(path)
    modifies fs, fs.heap, fs.mem, fs.Nodes()
    ensures fs.Valid() && (fs.View(), ok) == EnsureParent(old(fs.View()), path)
    ensures old(fs.Nodes()) <= fs.Nodes() && fresh(fs.Nodes() - old(fs.Nodes()))
    ensures fs.heap.heapCurrent >= old(fs.heap.heapCurrent) && fs.heap.heapEnd == old(fs.heap.heapEnd)
    ensures Memory.KeptOutside(fs.mem[..], old(fs.mem[..]), old(fs.heap.heapCurrent), fs.heap.heapEnd)
  {
    hide LastSlash, EnsureDirectory, fs.Valid, fs.Contents;
    if |path| >= PARTIAL_SIZE || |path| < 2 {
      return false;
    }
    var i := |path|;
    while i > 0
      invariant 0 <= i <= |path|
      invariant forall j | i < j < |path| :: path[j] != SLASH
    {
      if i < |path| && path[i] == SLASH {
        assert SLASH !in path[i + 1..];
        LastSlashUnique(path, i);
        if i <= 1 {
          return true;
        }
        ok := MakeDirectories(fs, path[..i]);
        return;
      }
      i := i - 1;
    }
    assert SLASH !in path[1..];
    LastSlashUnique(path, 0);
    return false;
  }
}
