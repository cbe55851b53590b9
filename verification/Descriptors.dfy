/** An open file is a snapshot: reads in a process and writes in the file system, in any order
    (src/kernel/syscall.c over src/kernel/ramfs.c). */
module Descriptors {
  import opened Machine
  import opened UserMemory
  import opened Processes
  import opened Ownership
  import opened Syscalls
  import FileSystem
  import Paths
  import Ramfs
  import Scheduler

  datatype Access =
    | ReadInto(buffer: word, requested: word)
    | WriteFile(path: seq<byte>, data: seq<byte>)

  /** An open file's size bytes at data lie below the heap's next free address and outside the process's regions. */
  ghost predicate OpenOn(k: Kernel, t: Ramfs.Tree, fd: word, data: word, size: word, r: Regions)
    reads k, k.table, k.table.slots, k.scheduler, k.scheduler.ring, t.heap
  {
    && k.Valid() && k.mem == t.mem && k.mem as object != k.table.slots && Holds(r, k.mem)
    && k.Using(fd) && k.CurrentRegions() == r && data + size <= t.heap.heapCurrent
    && var f := k.table.slots[k.table.current].fds[fd];
       f.kind == File && f.data == data && f.size == size && k.FileApart(f, r)
  }

  function Offset(k: Kernel, fd: word): word
    requires 0 <= k.table.current < k.table.slots.Length && fd < |k.table.slots[k.table.current].fds|
    reads k.table, k.table.slots
  {
    k.table.slots[k.table.current].fds[fd].offset
  }

  lemma OpenHasOffset(k: Kernel, t: Ramfs.Tree, fd: word, data: word, size: word, r: Regions)
    requires OpenOn(k, t, fd, data, size, r)
    ensures 0 <= k.table.current < k.table.slots.Length && fd < |k.table.slots[k.table.current].fds|
    ensures Offset(k, fd) <= size && data + size <= k.mem.Length && k.mem == t.mem
  {
    assert FdOk(k.table.slots[k.table.current].fds[fd]);
  }

  /** Opening a file of the tree: the descriptor starts at offset 0 on exactly the bytes the tree has for the path. */
  method OpenFile(k: Kernel, t: Ramfs.Tree, path: seq<byte>, available: bool)
    returns (fd: word, ghost data: word, ghost contents: seq<byte>)
    requires t.Valid() && k.Valid() && k.table.current >= 0 && k.mem == t.mem && k.mem as object != k.table.slots
    requires Holds(k.CurrentRegions(), k.mem) && path != [] && Named(path, NotFound) == Missing
    modifies k`owner, k`locked, k.table.slots
    ensures k.Valid() && k.table.current >= 0 && k.CurrentRegions() == old(k.CurrentRegions())
    ensures fd != FAIL ==>
              FileSystem.Resolves(t.Contents(), path)
              && t.Contents()[Paths.Components(path)] == FileSystem.File(contents)
    ensures fd != FAIL ==>
              |contents| < TWO32 && data + |contents| <= k.mem.Length
              && contents == k.mem[data..data + |contents|]
    ensures fd != FAIL && k.FileApart(Fd(true, File, data, |contents|, 0), k.CurrentRegions()) ==>
              OpenOn(k, t, fd, data, |contents|, k.CurrentRegions())
    ensures fd != FAIL ==> fd < |k.table.slots[k.table.current].fds| && Offset(k, fd) == 0
  {
    hide t.Valid, t.Contents, Paths.Components, Scheduler.InSlots;
    var found, start, size := t.Read(path);
    data, contents := start, if found then k.mem[start..start + size] else [];
    fd := k.OpenNamed(path, if found then Found(start, size) else NotFound, available);
  }

  /** A user range misses bytes outside both regions. */
  lemma OutOfReach(data: word, size: word, r: Regions, buffer: word, n: nat)
    requires Separated(r) && ValidRange(r, buffer, n) && OffRegions(r, data, size)
    ensures n == 0 || size == 0 || buffer + n <= data || data + size <= buffer
  {
  }

  /** Memory after bytes are stored at an address. */
  function Overwritten(m: seq<byte>, at: nat, bytes: seq<byte>): (after: seq<byte>)
    requires at + |bytes| <= |m|
    ensures |after| == |m|
  {
    m[..at] + bytes + m[at + |bytes|..]
  }

  /** The range keeps its bytes under one store. */
  predicate KeptBy(m: seq<byte>, data: nat, size: nat, at: nat, bytes: seq<byte>) {
    at + |bytes| <= |m| && data + size <= |m| ==> Overwritten(m, at, bytes)[data..data + size] == m[data..data + size]
  }

  lemma StoreMisses(m: seq<byte>, data: nat, size: nat, at: nat, bytes: seq<byte>)
    requires |bytes| == 0 || size == 0 || at + |bytes| <= data || data + size <= at
    ensures KeptBy(m, data, size, at, bytes)
  {
    if at + |bytes| <= |m| && data + size <= |m| {
      SameBytes(m, Overwritten(m, at, bytes), data, m[data..data + size]);
    }
  }

  /** A byte unlike another. */
  function Other(b: byte): (c: byte)
    ensures c != b
  {
    if b == 0 then 1 else 0
  }

  lemma StoreHits(m: seq<byte>, data: nat, size: nat, at: nat)
    requires data <= at < data + size <= |m|
    ensures !KeptBy(m, data, size, at, [Other(m[at])])
  {
    var after := Overwritten(m, at, [Other(m[at])]);
    assert after[at] == Other(m[at]);
    assert after[data..data + size][at - data] != m[data..data + size][at - data];
  }

  /** A place of the range in a region, if it is not off both. */
  function Exposed(r: Regions, data: word, size: word): word {
    if !(data + size <= r.imageBase || r.imageBase + r.imageSize <= data) then
      (if data < r.imageBase then r.imageBase else data)
    else
      (if data < r.stackBottom then r.stackBottom else data)
  }

  lemma ExposedIsValid(r: Regions, data: word, size: word)
    requires Separated(r) && r.imageSize > 0 && r.stackBottom < r.stackTop && size > 0 && !OffRegions(r, data, size)
    ensures data <= Exposed(r, data, size) < data + size && ValidRange(r, Exposed(r, data, size), 1)
  {
  }

  /** An open file is safe from everything that may be stored in the process's regions exactly when its bytes lie
      outside them: heap addresses under the user image or the user stack are not safe. */
  lemma SafeIffOffRegions(m: seq<byte>, data: word, size: word, r: Regions)
    requires Separated(r) && r.imageSize > 0 && r.stackBottom < r.stackTop <= |m| && size > 0 && data + size <= |m|
    ensures (forall at: word, bytes | ValidRange(r, at, |bytes|) :: KeptBy(m, data, size, at, bytes))
            <==> OffRegions(r, data, size)
  {
    hide ValidRange, KeptBy, Separated, OffRegions, Other, Exposed;
    if OffRegions(r, data, size) {
      forall at: word, bytes | ValidRange(r, at, |bytes|)
        ensures KeptBy(m, data, size, at, bytes)
      {
        OutOfReach(data, size, r, at, |bytes|);
        StoreMisses(m, data, size, at, bytes);
      }
    } else {
      ExposedIsValid(r, data, size);
      var at := Exposed(r, data, size);
      var bytes: seq<byte> := [Other(m[at])];
      StoreHits(m, data, size, at);
      assert ValidRange(r, at, |bytes|) && !KeptBy(m, data, size, at, bytes);
    }
  }

  lemma SameBytes(before: seq<byte>, after: seq<byte>, start: nat, contents: seq<byte>)
    requires |before| == |after| && start + |contents| <= |before| && before[start..start + |contents|] == contents
    requires forall a | start <= a < start + |contents| :: after[a] == before[a]
    ensures after[start..start + |contents|] == contents
  {
  }

  lemma Slice(m: seq<byte>, data: nat, contents: seq<byte>, offset: nat, n: nat)
    requires data + |contents| <= |m| && m[data..data + |contents|] == contents && offset + n <= |contents|
    ensures m[data + offset..data + offset + n] == contents[offset..offset + n]
  {
    SliceOfSlice(m, data, data + |contents|, offset, offset + n);
  }

  lemma SliceOfSlice(m: seq<byte>, a: nat, b: nat, c: nat, d: nat)
    requires a <= b <= |m| && c <= d <= b - a
    ensures m[a..b][c..d] == m[a + c..a + d]
  {
    var x, y := m[a..b][c..d], m[a + c..a + d];
    forall i | 0 <= i < |x|
      ensures x[i] == y[i]
    {
      assert x[i] == m[a..b][c + i] == m[a + (c + i)];
    }
  }

  /** One read: it returns the next bytes of the file, up to what is asked, and leaves the file alone. */
  method ReadOne(k: Kernel, t: Ramfs.Tree, fd: word, buffer: word, requested: word, ghost data: word,
                 ghost contents: seq<byte>, ghost r: Regions)
      returns (result: word, ghost got: seq<byte>)
    requires |contents| < TWO32 && OpenOn(k, t, fd, data, |contents|, r)
    requires data + |contents| <= k.mem.Length && k.mem[data..data + |contents|] == contents
    requires 0 <= k.table.current < k.table.slots.Length && fd < |k.table.slots[k.table.current].fds|
    modifies k.table.slots, k.mem
    ensures OpenOn(k, t, fd, data, |contents|, r) && k.mem[data..data + |contents|] == contents
    ensures 0 <= k.table.current < k.table.slots.Length && fd < |k.table.slots[k.table.current].fds|
    ensures old(Offset(k, fd)) <= Offset(k, fd) <= |contents| && got == contents[old(Offset(k, fd))..Offset(k, fd)]
    ensures requested > 0 && result == 0 ==> Offset(k, fd) == |contents|
    ensures result != FAIL ==> result == |got| && (|got| == requested || Offset(k, fd) == |contents|)
    ensures result != FAIL && |got| > 0 ==> buffer + |got| <= k.mem.Length && k.mem[buffer..buffer + |got|] == got
  {
    hide ValidRange, Separated, Scheduler.InSlots, Kernel.View, Advanced;
    OpenHasOffset(k, t, fd, data, |contents|, r);
    ghost var before, offset := k.mem[..], Offset(k, fd);
    ghost var n;
    result, n := k.ReadFile(fd, buffer, requested);
    got := contents[offset..offset + n];
    Slice(before, data, contents, offset, n);
    if n != 0 {
      OutOfReach(data, |contents|, r, buffer, n);
    }
    SameBytes(before, k.mem[..], data, contents);
  }

  /** One write to any path, the opened one included: it takes fresh bytes of the heap, so the file stays. */
  method WriteOne(k: Kernel, t: Ramfs.Tree, fd: word, path: seq<byte>, bytes: seq<byte>, ghost data: word,
                  ghost contents: seq<byte>, ghost r: Regions)
    requires |contents| < TWO32 && OpenOn(k, t, fd, data, |contents|, r)
    requires data + |contents| <= k.mem.Length && k.mem[data..data + |contents|] == contents
    requires 0 <= k.table.current < k.table.slots.Length && fd < |k.table.slots[k.table.current].fds|
    requires t.Valid() && Paths.CString(path) && t.heap.heapEnd + |bytes| + 17 <= TWO32
             && t.mem as object != k.scheduler.ring
    modifies t, t.heap, t.mem, t.Nodes()
    ensures t.Valid() && t.heap.heapEnd == old(t.heap.heapEnd) && old(t.Nodes()) <= t.Nodes()
            && fresh(t.Nodes() - old(t.Nodes()))
    ensures OpenOn(k, t, fd, data, |contents|, r) && k.mem[data..data + |contents|] == contents
    ensures Offset(k, fd) == old(Offset(k, fd))
  {
    hide t.Valid, t.View, t.Nodes, FileSystem.Write, Scheduler.InSlots;
    ghost var before := k.mem[..];
    var ok := t.Write(path, bytes);
    SameBytes(before, k.mem[..], data, contents);
  }

  /** Over any sequence of reads on the descriptor and writes to the file system, the reads together give the next bytes
      of the file as it was opened, and all the rest of them once a read of at least one byte returns zero. */
  method Session(k: Kernel, t: Ramfs.Tree, fd: word, accesses: seq<Access>, ghost data: word, ghost contents: seq<byte>,
                 ghost r: Regions)
      returns (ended: bool, ghost got: seq<byte>)
    requires |contents| < TWO32 && OpenOn(k, t, fd, data, |contents|, r)
    requires data + |contents| <= k.mem.Length && k.mem[data..data + |contents|] == contents
    requires 0 <= k.table.current < k.table.slots.Length && fd < |k.table.slots[k.table.current].fds|
    requires t.Valid() && t.mem as object != k.scheduler.ring
    requires forall a | a in accesses && a.WriteFile? ::
               Paths.CString(a.path) && t.heap.heapEnd + |a.data| + 17 <= TWO32
    modifies k.table.slots, k.mem, t, t.heap, t.Nodes()
    ensures OpenOn(k, t, fd, data, |contents|, r) && k.mem[data..data + |contents|] == contents
    ensures 0 <= k.table.current < k.table.slots.Length && fd < |k.table.slots[k.table.current].fds|
    ensures old(Offset(k, fd)) <= Offset(k, fd) <= |contents|
    ensures got == contents[old(Offset(k, fd))..Offset(k, fd)]
    ensures ended ==> got == contents[old(Offset(k, fd))..]
  {
    hide OpenOn, t.Valid, Offset, Paths.CString;
    ghost var start, nodes, end := Offset(k, fd), t.Nodes(), t.heap.heapEnd;
    OpenHasOffset(k, t, fd, data, |contents|, r);
    ended, got := false, [];
    for i := 0 to |accesses|
      invariant OpenOn(k, t, fd, data, |contents|, r) && k.mem[data..data + |contents|] == contents
      invariant 0 <= k.table.current < k.table.slots.Length && fd < |k.table.slots[k.table.current].fds|
      invariant t.Valid() && t.heap.heapEnd == end && nodes <= t.Nodes() && fresh(t.Nodes() - nodes)
      invariant start <= Offset(k, fd) <= |contents| && got == contents[start..Offset(k, fd)]
      invariant ended ==> Offset(k, fd) == |contents|
    {
      ghost var offset := Offset(k, fd);
      match accesses[i] {
        case ReadInto(buffer, requested) =>
          var result;
          ghost var more;
          result, more := ReadOne(k, t, fd, buffer, requested, data, contents, r);
          Appended(contents, start, offset, Offset(k, fd));
          got := got + more;
          ended := ended || (requested > 0 && result == 0);
        case WriteFile(path, bytes) =>
          WriteOne(k, t, fd, path, bytes, data, contents, r);
      }
    }
  }

  lemma Appended(s: seq<byte>, a: nat, b: nat, c: nat)
    requires a <= b <= c <= |s|
    ensures s[a..b] + s[b..c] == s[a..c]
  {
  }
}
