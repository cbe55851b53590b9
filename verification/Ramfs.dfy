/** The linked first-child/next-sibling tree of src/kernel/ramfs.c, refining the path map of FileSystem. Nodes are
    objects; file contents live in byte-addressed memory, in buffers taken from the bump allocator. */
module Ramfs {
  import opened Machine
  import opened Paths
  import opened Heap
  import opened FileSystem
  import Memory

  class Node {
    const isDir: bool
    const name: Name
    ghost const path: Path  // where the tree holds this node
    var parent: Node?
    var firstChild: Node?
    var nextSibling: Node?
    var data: word
    var size: word

    constructor (name: Name, isDir: bool, ghost path: Path)
      ensures this.name == if |name| > NODE_NAME_MAX then name[..NODE_NAME_MAX] else name
      ensures this.isDir == isDir && this.path == path
      ensures parent == null && firstChild == null && nextSibling == null && data == 0 && size == 0
    {
      this.name := if |name| > NODE_NAME_MAX then name[..NODE_NAME_MAX] else name;
      this.isDir, this.path := isDir, path;
      parent, firstChild, nextSibling := null, null, null;
      data, size := 0, 0;
    }
  }

  class Tree {
    const heap: Allocator
    const mem: array<byte>
    const root: Node

    /** The node at each path, and the names of each node's children in list order. */
    ghost var at: map<Path, Node>
    ghost var order: map<Path, seq<Name>>

    // ---- representation invariant ----

    ghost function NodeAt(p: Path): Node
      requires p in at
      reads this
    {
      at[p]
    }

    ghost function ChildAt(p: Path, i: nat): Node?
      reads this
    {
      if p in order && i < |order[p]| && Child(p, order[p][i]) in at then at[Child(p, order[p][i])] else null
    }

    /** The node's own position: parent link, name, and membership in its parent's child list. */
    ghost predicate Placed(p: Path)
      requires p in at
      reads this, NodeAt(p)`parent
    {
      && at[p].path == p
      && (p != [] ==>
        && Parent(p) in at && at[Parent(p)].isDir && Parent(p) in order
        && at[p].parent == at[Parent(p)] && at[p].name == Last(p) && NameOk(Last(p))
        && Last(p) in order[Parent(p)])
    }

    /** The child list starting at the node: exactly the named children, each once, null-terminated. */
    ghost predicate Listed(p: Path)
      requires p in at
      reads this, at.Values`firstChild, at.Values`nextSibling
    {
      && p in order
      && (!at[p].isDir ==> order[p] == [])
      && (forall i, j | 0 <= i < j < |order[p]| :: order[p][i] != order[p][j])
      && at[p].firstChild == ChildAt(p, 0)
      && (forall i {:trigger LinkAt(p, i)} | 0 <= i < |order[p]| :: LinkAt(p, i))
    }

    /** The i-th child exists and points at the next one. */
    ghost predicate LinkAt(p: Path, i: nat)
      requires p in order && i < |order[p]|
      reads this, at.Values`nextSibling
    {
      Child(p, order[p][i]) in at && at[Child(p, order[p][i])].nextSibling == ChildAt(p, i + 1)
    }

    /** File contents lie in the part of the heap already handed out. */
    ghost predicate Stored(p: Path)
      requires p in at
      reads this, NodeAt(p)`data, NodeAt(p)`size, heap
    {
      && (at[p].isDir ==> at[p].size == 0)
      && (at[p].size == 0 || heap.heapStart <= at[p].data)
      && at[p].data + at[p].size <= heap.heapCurrent
    }

    ghost predicate Valid()
      reads this, at.Values, heap
    {
      && ArenaOk(heap.View()) && heap.heapEnd <= mem.Length
      && [] in at && at[[]] == root && root.isDir
      && (forall p {:trigger Placed(p)} | p in at :: Placed(p))
      && (forall p {:trigger Listed(p)} | p in at :: Listed(p))
      && (forall p {:trigger Stored(p)} | p in at :: Stored(p))
    }

    ghost function Nodes(): set<Node>
      reads this
    {
      at.Values
    }

    lemma NodeIn(p: Path)
      requires p in at
      ensures at[p] in Nodes()
    {
    }

    // ---- abstraction ----

    ghost function EntryAt(p: Path): Entry
      requires p in at && (at[p].isDir || at[p].data + at[p].size <= mem.Length)
      reads this, at[p], mem
    {
      if at[p].isDir then Dir else File(mem[at[p].data..at[p].data + at[p].size])
    }

    ghost function Contents(): FileSystem.Tree
      requires Valid()
      reads this, at.Values, heap, mem
    {
      map p | p in at :: assert Stored(p); EntryAt(p)
    }

    ghost function View(): Fs
      requires Valid()
      reads this, at.Values, heap, mem
    {
      Fs(Contents(), heap.View())
    }

    lemma ContentsOk()
      requires Valid()
      ensures TreeOk(Contents())
    {
      var t := Contents();
      forall p <- t
        ensures Hangs(t, p)
      {
        assert Placed(p);
      }
    }

    // ---- operations ----

    constructor (heap: Allocator, mem: array<byte>)
      requires ArenaOk(heap.View()) && heap.heapEnd <= mem.Length && Fits(heap.View(), NODE_SIZE, 16)
      modifies heap, mem
      ensures Valid() && fresh(root) && at.Values == {root} && this.heap == heap && this.mem == mem
      ensures View() == Fs(map[[] := Dir], Alloc(old(heap.View()), NODE_SIZE, 16).0)
      ensures Memory.KeptOutside(mem[..], old(mem[..]), old(heap.heapCurrent), heap.heapEnd)
    {
      hide RoundUpWord;
      this.heap, this.mem := heap, mem;
      root := new Node([SLASH], true, []);
      at, order := map[[] := root], map[[] := []];
      AllocBlock(heap.View(), NODE_SIZE, 16);
      new;
      var address := heap.Kmalloc(NODE_SIZE);
      Memory.MemSet(mem, address, 0, NODE_SIZE);
    }

    /** Search of one child list. */
    method FindChild(parent: Node, name: seq<byte>, ghost p: Path) returns (found: Node?)
      requires Valid() && p in at && at[p] == parent
      ensures found == if Child(p, name) in at then at[Child(p, name)] else null
    {
      var child := parent.firstChild;
      ghost var i := 0;
      assert Listed(p);
      while child != null
        invariant i <= |order[p]|
        invariant child == ChildAt(p, i)
        invariant forall j | 0 <= j < i :: order[p][j] != name
        decreases |order[p]| - i
      {
        assert LinkAt(p, i) && Placed(Child(p, order[p][i]));
        if child.name == name {
          return child;
        }
        child := child.nextSibling;
        i := i + 1;
      }
      assert i < |order[p]| ==> LinkAt(p, i);
      assert Child(p, name) in at ==> Placed(Child(p, name));
      return null;
    }

    /** Path resolution walks the tree exactly along the path's components. The pointer into the path is modelled by the
        string it points at. */
    method ResolvePath(path: seq<byte>) returns (node: Node?)
      requires Valid()
      ensures node != null <==> Resolves(Contents(), path)
      ensures node != null ==> Components(path) in at && node == at[Components(path)]
    {
      if path == [] || path[0] != SLASH {
        return null;
      }
      assert [] in at && at[[]] == root && Contents().Keys == at.Keys;
      hide Components, Valid, Contents, Walked;
      var current := root;
      var cursor := path[1..];
      ghost var p: Path := [];
      WalkedSlash(path, p, path);
      while cursor != []
        invariant p in at && current == at[p]
        invariant Walked(path, p, cursor)
        decreases |cursor|
      {
        var len := SegmentLength(cursor);
        WalkedSlash(path, p, cursor);
        if len == 0 {
          cursor := cursor[1..];
        } else {
          var name := cursor[..len];
          var next := FindChild(current, name, p);
          WalkedSegment(path, p, cursor, len);
          cursor := cursor[len..];
          if next == null {
            WalkedBelow(path, Child(p, name), cursor);
            return null;
          }
          p, current := Child(p, name), next;
          WalkedSlash(path, p, cursor);
          if cursor != [] && cursor[0] == SLASH {
            cursor := cursor[1..];
          }
        }
      }
      WalkedSlash(path, p, cursor);
      return current;
    }

    /** The walk has followed the components p of path and has the string cursor left. */
    static ghost predicate Walked(path: seq<byte>, p: Path, cursor: seq<byte>) {
      Components(path) == p + Components(cursor)
    }

    static lemma WalkedSlash(path: seq<byte>, p: Path, cursor: seq<byte>)
      ensures cursor == path ==> Walked(path, [], cursor)
      ensures Walked(path, p, cursor) && cursor != [] && cursor[0] == SLASH ==> Walked(path, p, cursor[1..])
      ensures cursor == path && cursor != [] && cursor[0] == SLASH ==> Walked(path, [], cursor[1..])
      ensures Walked(path, p, []) ==> Components(path) == p
    {
    }

    static lemma WalkedSegment(path: seq<byte>, p: Path, cursor: seq<byte>, len: nat)
      requires Walked(path, p, cursor) && cursor != [] && len == SegmentLength(cursor) && len > 0
      ensures Walked(path, Child(p, cursor[..len]), cursor[len..])
    {
      hide Components;
      ComponentsUnfold(cursor);
    }

    lemma WalkedBelow(path: seq<byte>, q: Path, cursor: seq<byte>)
      requires Valid() && Walked(path, q, cursor) && q != [] && q !in at
      ensures Components(path) !in at
    {
      ChildOfParent(q);
      NotBelow(Parent(q), Last(q), Components(cursor));
    }

    /** Nothing lies below a missing child. */
    lemma {:induction false} NotBelow(p: Path, name: Name, rest: Path)
      requires Valid() && Child(p, name) !in at
      ensures Child(p, name) + rest !in at
      decreases |rest|
    {
      var q := Child(p, name) + rest;
      if rest == [] {
        assert q == Child(p, name);
      } else {
        assert Parent(q) == Child(p, name) + Parent(rest);
        NotBelow(p, name, Parent(rest));
        assert q in at ==> Placed(q);
      }
    }

    /** Split a path into its existing parent directory and a name for a new child. */
    method SplitParent(path: seq<byte>) returns (ok: bool, name: seq<byte>, parent: Node?, ghost p: Path)
      requires Valid()
      ensures ok == Splits(Contents(), path)
      ensures ok ==> Components(path) == Child(p, name) && p in at && parent == at[p] && parent.isDir
    {
      ok, name, parent, p := false, [], null, [];
      if path == [] || path[0] != SLASH || |path| == 1 {
        return;
      }
      assert [] in at && at[[]] == root && root.isDir && Contents().Keys == at.Keys;
      hide Components, Valid, Contents, LastSlash;
      var lastSlash := 0;
      for cursor := 0 to |path|
        invariant lastSlash < |path| && path[lastSlash] == SLASH
        invariant forall i | lastSlash < i < cursor :: path[i] != SLASH
      {
        if path[cursor] == SLASH {
          lastSlash := cursor;
        }
      }
      assert SLASH !in path[lastSlash + 1..];
      LastSlashUnique(path, lastSlash);
      ComponentsSplitLast(path, lastSlash);
      name := path[lastSlash + 1..];
      if |name| == 0 || |name| > NODE_NAME_MAX {
        return;
      }
      if lastSlash == 0 {
        assert path[..0] == [];
        ComponentsOfEmpty();
        parent := root;
      } else {
        if lastSlash >= PARTIAL_SIZE {
          return;
        }
        parent := ResolvePath(path[..lastSlash]);
        DirectoryAt(path[..lastSlash]);
        if parent == null || !parent.isDir {
          return;
        }
      }
      ok, p := true, Components(path[..lastSlash]);
    }

    lemma DirectoryAt(path: seq<byte>)
      requires Valid()
      ensures Contents().Keys == at.Keys
      ensures ResolvesToDir(Contents(), path) <==> Resolves(Contents(), path) && at[Components(path)].isDir
      ensures Components(path) in at ==> (IsDir(Contents(), Components(path)) <==> at[Components(path)].isDir)
    {
      hide Components;
    }

    /** Allocate a node and put it at the head of its parent's child list. */
    method AddChild(parent: Node, name: seq<byte>, isDir: bool, ghost p: Path) returns (node: Node?)
      requires Valid() && p in at && at[p] == parent && parent.isDir
      requires NameOk(name) && Child(p, name) !in at
      modifies this, heap, mem, parent
      ensures Valid()
      ensures (View(), node != null) == AddNode(old(View()), Child(p, name), if isDir then Dir else File([]))
      ensures at == if node == null then old(at) else old(at)[Child(p, name) := node]
      ensures Nodes() == old(Nodes()) + if node == null then {} else {node}
      ensures node != null ==> fresh(node)
      ensures heap.heapCurrent >= old(heap.heapCurrent) && heap.heapEnd == old(heap.heapEnd)
      ensures Memory.KeptOutside(mem[..], old(mem[..]), old(heap.heapCurrent), heap.heapEnd)
    {
      ghost var q := Child(p, name);
      hide Alloc, Valid, Contents;
      ArenaValid();
      AllocGrows(heap.View(), NODE_SIZE);
      var address := heap.Kmalloc(NODE_SIZE);
      if address != 0 {
        Memory.MemSet(mem, address, 0, NODE_SIZE);
      }
      Unmoved();
      if address == 0 {
        node := null;
      } else {
        node := new Node(name, isDir, q);
        LinkNode(node, parent, q);
      }
    }

    lemma ArenaValid()
      requires Valid()
      ensures ArenaOk(heap.View()) && heap.heapEnd <= mem.Length
    {
    }

    /** The pointer updates of an insertion at the head of the parent's list. */
    method LinkNode(node: Node, parent: Node, ghost q: Path)
      requires Valid() && q != [] && Parent(q) in at && at[Parent(q)] == parent && parent.isDir
      requires q !in at && NameOk(Last(q)) && node !in at.Values
      requires node.path == q && node.name == Last(q)
      requires node.firstChild == null && node.data == 0 && node.size == 0
      modifies this, node, parent
      ensures Valid() && at == old(at)[q := node] && at.Values == old(at.Values) + {node}
      ensures Contents() == old(Contents())[q := if node.isDir then Dir else File([])]
    {
      hide Placed, Listed, Stored, EntryAt, NameOk;
      PathsDistinct(Parent(q));
      HasOrder(Parent(q));
      node.parent := parent;
      node.nextSibling := parent.firstChild;
      parent.firstChild := node;
      at, order := at[q := node], order[q := []][Parent(q) := [Last(q)] + order[Parent(q)]];
      GrewPlaced(q);
      GrewListed(q);
      GrewStored(q);
      ValuesGrow(old(at), q, node);
    }

    static lemma ValuesGrow(m: map<Path, Node>, q: Path, node: Node)
      requires q !in m
      ensures m[q := node].Values == m.Values + {node}
    {
      var m' := m[q := node];
      forall n <- m.Values + {node}
        ensures n in m'.Values
      {
        if n == node {
          assert m'[q] == node;
        } else {
          var r :| r in m && m[r] == n;
          assert m'[r] == n;
        }
      }
    }

    lemma HasOrder(p: Path)
      requires Valid() && p in at
      ensures p in order
    {
      assert Listed(p);
    }

    lemma PathsDistinct(p: Path)
      requires Valid() && p in at
      ensures forall r <- at | r != p :: at[r] != at[p]
    {
      assert Placed(p);
      forall r <- at | r != p
        ensures at[r] != at[p]
      {
        assert Placed(r);
      }
    }

    /** The tree survives anything that leaves its links and the handed-out part of memory alone. */
    twostate lemma Unmoved()
      requires old(Valid()) && unchanged(this) && ArenaOk(heap.View()) && heap.heapEnd <= mem.Length
      requires old(heap.heapCurrent) <= mem.Length
      requires forall n <- at.Values :: unchanged(n)
      requires heap.heapStart == old(heap.heapStart) && heap.heapCurrent >= old(heap.heapCurrent)
      requires forall a | 0 <= a < old(heap.heapCurrent) :: mem[a] == old(mem[a])
      ensures Valid() && Contents() == old(Contents())
    {
      hide Placed, Listed, Stored, EntryAt;
      UnmovedPlaces();
      UnmovedLists();
      UnmovedContents();
    }

    twostate lemma UnmovedPlaces()
      requires old(Valid()) && unchanged(this) && forall n <- at.Values :: unchanged(n)
      ensures forall r {:trigger Placed(r)} | r in at :: Placed(r)
    {
      forall r <- at
        ensures Placed(r)
      {
        assert at[r] in at.Values && old(Placed(r));
      }
    }

    twostate lemma UnmovedContents()
      requires old(Valid()) && unchanged(this) && forall n <- at.Values :: unchanged(n)
      requires heap.heapStart == old(heap.heapStart) && heap.heapCurrent >= old(heap.heapCurrent)
      requires heap.heapCurrent <= mem.Length
      requires forall a | 0 <= a < old(heap.heapCurrent) :: mem[a] == old(mem[a])
      ensures forall r {:trigger Stored(r)} | r in at :: Stored(r)
      ensures forall r <- at :: old(Stored(r)) && Stored(r) && EntryAt(r) == old(EntryAt(r))
    {
      forall r <- at
        ensures Stored(r) && old(Stored(r))
      {
        assert at[r] in at.Values && old(Stored(r));
      }
      forall r <- at
        ensures EntryAt(r) == old(EntryAt(r))
      {
        assert at[r] in at.Values && Stored(r) && old(Stored(r));
        assert mem[at[r].data..at[r].data + at[r].size] == old(mem[at[r].data..at[r].data + at[r].size]);
      }
    }

    twostate lemma UnmovedLists()
      requires old(Valid()) && unchanged(this) && forall n <- at.Values :: unchanged(n)
      ensures forall r {:trigger Listed(r)} | r in at :: Listed(r)
    {
      forall r <- at
        ensures Listed(r)
      {
        assert old(Listed(r));
        forall i | 0 <= i < |order[r]|
          ensures LinkAt(r, i)
        {
          assert old(LinkAt(r, i));
        }
      }
    }

    /** The heap after a fresh node was put at the head of its parent's child list, to be found at q. */
    twostate predicate Grew(q: Path)
      reads this, at.Values, heap, mem
    {
      && q != [] && Parent(q) in old(at) && old(at[Parent(q)]).isDir && NameOk(Last(q)) && q !in old(at)
      && q in at && at == old(at)[q := at[q]]
      && Parent(q) in old(order) && order == old(order)[q := []][Parent(q) := [Last(q)] + old(order[Parent(q)])]
      && at[q] !in old(at).Values
      && at[Parent(q)].firstChild == at[q]
      && at[q].path == q && at[q].name == Last(q)
      && at[q].parent == at[Parent(q)] && at[q].firstChild == null
      && at[q].nextSibling == old(at[Parent(q)].firstChild)
      && (forall r <- old(at) :: at[r].parent == old(at[r].parent)
                                 && (r != Parent(q) ==> at[r].firstChild == old(at[r].firstChild))
                                 && at[r].nextSibling == old(at[r].nextSibling))
    }

    twostate lemma GrewPlaced(q: Path)
      requires old(Valid()) && Grew(q)
      ensures forall r {:trigger Placed(r)} | r in at :: Placed(r)
    {
      assert old(Listed(Parent(q)));
      forall r <- at
        ensures Placed(r)
      {
        assert r != q ==> old(Placed(r));
      }
    }

    twostate lemma GrewListed(q: Path)
      requires old(Valid()) && Grew(q)
      ensures forall r {:trigger Listed(r)} | r in at :: Listed(r)
    {
      forall r <- at
        ensures Listed(r)
      {
        if r == Parent(q) {
          GrewListedParent(q);
        } else if r != q {
          GrewListedElsewhere((q, r));
        }
      }
    }

    twostate lemma GrewListedElsewhere(qr: (Path, Path))
      requires old(Valid()) && Grew(qr.0) && qr.1 in old(at) && qr.1 != Parent(qr.0)
      ensures Listed(qr.1)
    {
      var (q, r) := qr;
      assert old(Listed(r));
      forall i | 0 <= i < |order[r]|
        ensures LinkAt(r, i)
      {
        assert old(LinkAt(r, i));
      }
    }

    twostate lemma GrewListedParent(q: Path)
      requires old(Valid()) && Grew(q)
      ensures Listed(Parent(q))
    {
      var p := Parent(q);
      var names := old(order[p]);
      assert old(Listed(p));
      ChildOfParent(q);
      GrewChildren(q);
      GrewShift(q);
      forall i | 0 <= i < |order[p]|
        ensures LinkAt(p, i)
      {
        assert order[p][i] == if i == 0 then Last(q) else names[i - 1];
      }
    }

    twostate lemma GrewShift(q: Path)
      requires old(Valid()) && Grew(q)
      ensures forall i | 0 <= i <= |old(order[Parent(q)])| :: ChildAt(Parent(q), i + 1) == old(ChildAt(Parent(q), i))
    {
      var p := Parent(q);
      var names := old(order[p]);
      assert old(Listed(p));
      forall i | 0 <= i <= |names|
        ensures ChildAt(p, i + 1) == old(ChildAt(p, i))
      {
        assert i < |names| ==> order[p][i + 1] == names[i] && Child(p, names[i]) in old(at) by {
          assert i < |names| ==> old(LinkAt(p, i));
        }
      }
    }

    /** The old children of the parent follow the new one, each linked as before. */
    twostate lemma GrewChildren(q: Path)
      requires old(Valid()) && Grew(q)
      ensures forall i | 0 <= i < |old(order[Parent(q)])| ::
                var c := Child(Parent(q), old(order[Parent(q)])[i]);
                c in old(at) && at[c].nextSibling == old(ChildAt(Parent(q), i + 1))
      ensures Last(q) !in old(order[Parent(q)])
    {
      var p := Parent(q);
      var names := old(order[p]);
      assert old(Listed(p));
      ChildOfParent(q);
      forall i | 0 <= i < |names|
        ensures Child(p, names[i]) in old(at) && at[Child(p, names[i])].nextSibling == old(ChildAt(p, i + 1))
      {
        assert old(LinkAt(p, i));
      }
      assert Last(q) !in names;
    }

    twostate lemma GrewStored(q: Path)
      requires old(Valid()) && Grew(q) && ArenaOk(heap.View()) && heap.heapEnd <= mem.Length
      requires at[q].data == 0 && at[q].size == 0
      requires forall r <- old(at) :: at[r].data == old(at[r].data) && at[r].size == old(at[r].size)
      requires heap.heapStart == old(heap.heapStart) && heap.heapCurrent >= old(heap.heapCurrent)
      requires forall a | 0 <= a < mem.Length :: mem[a] == old(mem[a])
      ensures forall r {:trigger Stored(r)} | r in at :: Stored(r)
      ensures forall r <- old(at) :: old(Stored(r)) && Stored(r) && EntryAt(r) == old(EntryAt(r))
      ensures EntryAt(q) == if at[q].isDir then Dir else File([])
    {
      forall r <- at
        ensures Stored(r)
      {
        assert r != q ==> old(Stored(r));
      }
    }

    // ---- the public operations ----

    method IsDirectory(path: seq<byte>) returns (dir: bool)
      requires Valid()
      ensures dir <==> ResolvesToDir(Contents(), path)
    {
      hide Components, Valid, Contents;
      DirectoryAt(path);
      var node := ResolvePath(path);
      dir := node != null && node.isDir;
    }

    lemma StoredAt(p: Path)
      requires Valid() && p in at
      ensures at[p].data + at[p].size <= heap.heapCurrent <= mem.Length
      ensures p in Contents() && Contents()[p] == EntryAt(p)
    {
      assert Stored(p);
    }

    /** A successful read returns the address and size of exactly the file's bytes. */
    method Read(path: seq<byte>) returns (found: bool, data: word, size: word)
      requires Valid()
      ensures found <==> Resolves(Contents(), path) && !ResolvesToDir(Contents(), path)
      ensures found ==>
                data + size <= heap.heapCurrent <= mem.Length
                && Contents()[Components(path)] == File(mem[data..data + size])
      ensures !found ==> (data, size) == (0, 0)
    {
      hide Components, Valid, Contents;
      DirectoryAt(path);
      var node := ResolvePath(path);
      if node == null || node.isDir {
        return false, 0, 0;
      }
      StoredAt(Components(path));
      return true, node.data, node.size;
    }

    /** mkdir and touch share their checks; only the kind of node differs. */
    method MakeNode(path: seq<byte>, isDir: bool) returns (ok: bool)
      requires Valid() && CString(path)
      modifies this, heap, mem, Nodes()
      ensures Valid()
      ensures (View(), ok) == Create(old(View()), path, if isDir then Dir else File([]))
      ensures old(Nodes()) <= Nodes() && fresh(Nodes() - old(Nodes()))
      ensures heap.heapCurrent >= old(heap.heapCurrent) && heap.heapEnd == old(heap.heapEnd)
      ensures Memory.KeptOutside(mem[..], old(mem[..]), old(heap.heapCurrent), heap.heapEnd)
    {
      hide Components, Valid, Contents, AddNode, Splits, TreeOk, Nodes;
      ContentsOk();
      DirectoryAt(path);
      var split, name, parent, p := SplitParent(path);
      if !split {
        return false;
      }
      SplitNamesChild(Contents(), path);
      var existing := FindChild(parent, name, p);
      if existing != null {
        return false;
      }
      NodeIn(p);
      var node := AddChild(parent, name, isDir, p);
      ok := node != null;
    }

    method Mkdir(path: seq<byte>) returns (ok: bool)
      requires Valid() && CString(path)
      modifies this, heap, mem, Nodes()
      ensures Valid()
      ensures (View(), ok) == Create(old(View()), path, Dir)
      ensures old(Nodes()) <= Nodes() && fresh(Nodes() - old(Nodes()))
      ensures heap.heapCurrent >= old(heap.heapCurrent) && heap.heapEnd == old(heap.heapEnd)
      ensures Memory.KeptOutside(mem[..], old(mem[..]), old(heap.heapCurrent), heap.heapEnd)
    {
      ok := MakeNode(path, true);
    }

    method Touch(path: seq<byte>) returns (ok: bool)
      requires Valid() && CString(path)
      modifies this, heap, mem, Nodes()
      ensures Valid()
      ensures (View(), ok) == Create(old(View()), path, File([]))
      ensures old(Nodes()) <= Nodes() && fresh(Nodes() - old(Nodes()))
      ensures heap.heapCurrent >= old(heap.heapCurrent) && heap.heapEnd == old(heap.heapEnd)
      ensures Memory.KeptOutside(mem[..], old(mem[..]), old(heap.heapCurrent), heap.heapEnd)
    {
      ok := MakeNode(path, false);
    }

    /** Copy data into a fresh buffer and hang it on the node. Bytes already handed out are not touched, so whoever
        still holds the old buffer keeps reading the old contents. */
    method WriteBytes(node: Node, data: seq<byte>, ghost p: Path) returns (ok: bool)
      requires Valid() && p in at && at[p] == node && !node.isDir
      requires heap.heapEnd + |data| + 17 <= TWO32
      modifies heap, mem, node
      ensures Valid() && (View(), ok) == SetBytes(old(View()), p, data)
      ensures heap.heapCurrent >= old(heap.heapCurrent) && heap.heapEnd == old(heap.heapEnd)
      ensures Memory.KeptOutside(mem[..], old(mem[..]), old(heap.heapCurrent), heap.heapEnd)
    {
      hide Alloc, Valid, Contents;
      ArenaValid();
      PathsDistinct(p);
      AllocGrows(heap.View(), |data| + 1);
      var buffer := heap.Kmalloc(|data| + 1);
      if buffer == 0 {
        Unmoved();
        return false;
      }
      Memory.MemCpy(mem, buffer, data + [NUL]);
      node.data, node.size := buffer, |data|;
      assert mem[buffer..buffer + |data|] == (data + [NUL])[..|data|] == data;
      Rewritten(p);
      return true;
    }

    /** A node given a new buffer holds the new contents; every other entry is as before. */
    twostate lemma Rewritten(p: Path)
      requires old(Valid()) && unchanged(this) && p in at && !at[p].isDir
      requires forall r <- at | r != p :: unchanged(at[r])
      requires unchanged(NodeAt(p)`parent, NodeAt(p)`firstChild, NodeAt(p)`nextSibling)
      requires ArenaOk(heap.View()) && heap.heapEnd <= mem.Length
      requires heap.heapStart == old(heap.heapStart) && old(heap.heapCurrent) <= heap.heapCurrent <= mem.Length
      requires heap.heapStart <= at[p].data && at[p].data + at[p].size <= heap.heapCurrent
      requires forall a | 0 <= a < old(heap.heapCurrent) :: mem[a] == old(mem[a])
      ensures Valid()
      ensures Contents() == old(Contents())[p := File(mem[at[p].data..at[p].data + at[p].size])]
    {
      hide Placed, Listed, Stored, EntryAt;
      RewrittenLinks(p);
      RewrittenContents(p);
    }

    twostate lemma RewrittenLinks(p: Path)
      requires old(Valid()) && unchanged(this) && p in at
      requires forall r <- at | r != p :: unchanged(at[r])
      requires unchanged(NodeAt(p)`parent, NodeAt(p)`firstChild, NodeAt(p)`nextSibling)
      ensures forall r {:trigger Placed(r)} | r in at :: Placed(r)
      ensures forall r {:trigger Listed(r)} | r in at :: Listed(r)
    {
      forall r <- at
        ensures Placed(r) && Listed(r)
      {
        assert old(Placed(r)) && old(Listed(r));
        forall i | 0 <= i < |order[r]|
          ensures LinkAt(r, i)
        {
          assert old(LinkAt(r, i));
        }
      }
    }

    twostate lemma RewrittenContents(p: Path)
      requires old(Valid()) && unchanged(this) && p in at && !at[p].isDir
      requires forall r <- at | r != p :: unchanged(at[r])
      requires heap.heapStart == old(heap.heapStart) && old(heap.heapCurrent) <= heap.heapCurrent <= mem.Length
      requires heap.heapStart <= at[p].data && at[p].data + at[p].size <= heap.heapCurrent
      requires forall a | 0 <= a < old(heap.heapCurrent) :: mem[a] == old(mem[a])
      ensures forall r {:trigger Stored(r)} | r in at :: Stored(r)
      ensures forall r <- at | r != p :: old(Stored(r)) && Stored(r) && EntryAt(r) == old(EntryAt(r))
      ensures EntryAt(p) == File(mem[at[p].data..at[p].data + at[p].size])
    {
      forall r <- at
        ensures Stored(r) && old(Stored(r))
      {
        assert old(Stored(r));
      }
      forall r <- at | r != p
        ensures EntryAt(r) == old(EntryAt(r))
      {
        assert Stored(r) && old(Stored(r));
        assert mem[at[r].data..at[r].data + at[r].size] == old(mem[at[r].data..at[r].data + at[r].size]);
      }
    }

    method Write(path: seq<byte>, data: seq<byte>) returns (ok: bool)
      requires Valid() && CString(path)
      requires heap.heapEnd + |data| + 17 <= TWO32
      modifies this, heap, mem, Nodes()
      ensures Valid() && (View(), ok) == FileSystem.Write(old(View()), path, data)
      ensures old(Nodes()) <= Nodes() && fresh(Nodes() - old(Nodes()))
      ensures heap.heapCurrent >= old(heap.heapCurrent) && heap.heapEnd == old(heap.heapEnd)
      ensures Memory.KeptOutside(mem[..], old(mem[..]), old(heap.heapCurrent), heap.heapEnd)
    {
      hide Components, Valid, Contents, FileSystem.FindOrTouch, SetBytes, Nodes;
      var node := FindOrTouch(path);
      if node == null || node.isDir {
        return false;
      }
      NodeIn(Components(path));
      ok := WriteBytes(node, data, Components(path));
    }

    method FindOrTouch(path: seq<byte>) returns (node: Node?)
      requires Valid() && CString(path)
      modifies this, heap, mem, Nodes()
      ensures Valid() && (View(), node != null) == FileSystem.FindOrTouch(old(View()), path)
      ensures node != null ==> Components(path) in at && node == at[Components(path)]
      ensures node != null ==> (node.isDir <==> IsDir(Contents(), Components(path)))
      ensures old(Nodes()) <= Nodes() && fresh(Nodes() - old(Nodes()))
      ensures heap.heapCurrent >= old(heap.heapCurrent) && heap.heapEnd == old(heap.heapEnd)
      ensures Memory.KeptOutside(mem[..], old(mem[..]), old(heap.heapCurrent), heap.heapEnd)
    {
      hide Components, Valid, Contents, Create, Resolves, IsDir;
      DirectoryAt(path);
      CreatedResolves(View(), path, File([]));
      node := ResolvePath(path);
      if node == null {
        var made := Touch(path);
        if made {
          DirectoryAt(path);
          node := ResolvePath(path);
        }
      }
    }
  }
}
