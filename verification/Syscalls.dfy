/** The descriptor system calls of src/kernel/syscall.c, over the process slots, the ring, and user memory. */
module Syscalls {
  import opened Machine
  import opened UserMemory
  import opened Processes
  import opened Scheduler
  import opened Ownership

  const WRITE_CHUNK: nat := 64
  const PATH_MAX: nat := 96

  // "/dev/fb0", "/dev/mouse0", "/dev/console" and "/dev/null"
  const FB0: seq<byte> := [47, 100, 101, 118, 47, 102, 98, 48]
  const MOUSE0: seq<byte> := [47, 100, 101, 118, 47, 109, 111, 117, 115, 101, 48]
  const CONSOLE: seq<byte> := [47, 100, 101, 118, 47, 99, 111, 110, 115, 111, 108, 101]
  const NULL: seq<byte> := [47, 100, 101, 118, 47, 110, 117, 108, 108]

  datatype FileResult = NotFound | Found(data: word, size: word)

  /** What a path names, given what the file system answers for it. */
  function Named(path: seq<byte>, file: FileResult): Target {
    if path == FB0 then Device(Framebuffer)
    else if path == MOUSE0 then Device(Mouse)
    else if path == CONSOLE then Device(Console)
    else if path == NULL then Device(Null)
    else if path == [] || file == NotFound then Missing
    else Stored(file.data, file.size)
  }

  /** A text as the bytes of its characters. */
  function Ascii(s: string): (b: seq<byte>)
    requires forall i | 0 <= i < |s| :: s[i] < 128 as char
  {
    seq(|s|, i requires 0 <= i < |s| && s[i] < 128 as char => AsciiByte(s[i]))
  }

  function AsciiByte(c: char): byte
    requires c < 128 as char
  {
    c as int
  }

  /** The four devices by name; any other path is a file's, or nothing's. */
  lemma DeviceNames(path: seq<byte>, file: FileResult)
    ensures Named(Ascii("/dev/fb0"), file) == Device(Framebuffer)
    ensures Named(Ascii("/dev/mouse0"), file) == Device(Mouse)
    ensures Named(Ascii("/dev/console"), file) == Device(Console)
    ensures Named(Ascii("/dev/null"), file) == Device(Null)
    ensures path !in {Ascii("/dev/fb0"), Ascii("/dev/mouse0"), Ascii("/dev/console"), Ascii("/dev/null")} ==>
              Named(path, file) == if path != [] && file.Found? then Stored(file.data, file.size) else Missing
  {
    assert Ascii("/dev/fb0") == FB0;
    assert Ascii("/dev/mouse0") == MOUSE0;
    assert Ascii("/dev/console") == CONSOLE;
    assert Ascii("/dev/null") == NULL;
  }

  class Kernel {
    const table: ProcessTable
    const scheduler: RoundRobin
    const mem: array<byte>
    var owner: word
    var locked: bool
    var output: seq<byte>

    ghost predicate Valid()
      reads this, table, table.slots, scheduler, scheduler.ring
    {
      && scheduler.Valid() && scheduler.table == table
      && mem as object != scheduler.ring && mem as object != table.slots
      && -1 <= table.current < table.slots.Length
      && InSlots(scheduler.View(), table.slots[..])
      && forall i | 0 <= i < table.slots.Length :: FdsOk(table.slots[i].fds)
    }

    ghost function View(): System
      requires Valid()
      reads this, table, table.slots, scheduler, scheduler.ring
    {
      System(table.View(), scheduler.View(), owner, locked)
    }

    /** Power-on. */
    constructor (slots: nat, capacity: nat, mem: array<byte>)
      ensures this.mem == mem && fresh(table) && fresh(table.slots) && fresh(scheduler) && fresh(scheduler.ring)
      ensures Valid() && View() == Initial(slots) && scheduler.ring.Length == capacity && output == []
    {
      var t := new ProcessTable(slots);
      var s := new RoundRobin(capacity, t);
      table, scheduler := t, s;
      this.mem := mem;
      owner, locked, output := 0, false, [];
      new;
    }

    /** syscall_framebuffer_force_acquire. */
    method ForceAcquire(i: nat, available: bool) returns (ok: bool)
      requires Valid() && i < table.slots.Length
      modifies this`owner, this`locked
      ensures Valid() && ok == (available && (old(owner) == 0 || old(owner) == table.slots[i].pid))
      ensures View() == if ok then old(View()).(owner := table.slots[i].pid, locked := true) else old(View())
    {
      if !available {
        return false;
      }
      if owner != 0 && owner != table.slots[i].pid {
        return false;
      }
      owner := table.slots[i].pid;
      locked := true;
      return true;
    }

    /** syscall_framebuffer_release_if_unused. */
    method ReleaseIfUnused(i: nat)
      requires Valid() && i < table.slots.Length
      modifies this`owner, this`locked
      ensures Valid()
      ensures View() == if old(owner) == table.slots[i].pid && !HoldsFramebuffer(table.slots[i])
                        then old(View()).(owner := 0, locked := false) else old(View())
    {
      if owner != table.slots[i].pid {
        return;
      }
      for fd := 0 to FD_MAX
        invariant forall k | 0 <= k < fd :: !(table.slots[i].fds[k].inUse && table.slots[i].fds[k].kind == Framebuffer)
      {
        if table.slots[i].fds[fd].inUse && table.slots[i].fds[fd].kind == Framebuffer {
          OneHolds(table.slots[i], fd);
          return;
        }
      }
      owner := 0;
      locked := false;
    }

    /** syscall_framebuffer_force_release. */
    method ForceRelease(i: nat)
      requires Valid() && i < table.slots.Length
      modifies this`owner, this`locked
      ensures Valid()
      ensures View() == if old(owner) == table.slots[i].pid then old(View()).(owner := 0, locked := false)
              else old(View())
    {
      if owner != table.slots[i].pid {
        return;
      }
      owner := 0;
      locked := false;
    }

    method SetFd(i: nat, fd: nat, f: Fd)
      requires Valid() && i < table.slots.Length && fd < FD_MAX && FdOk(f) && i == table.current
      modifies table.slots
      ensures Valid() && View() == WithFd(old(View()), fd, f)
    {
      table.slots[i] := table.slots[i].(fds := table.slots[i].fds[fd := f]);
    }

    /** syscall_open once the path is copied: a descriptor is taken only if the whole call succeeds. */
    method OpenNamed(path: seq<byte>, file: FileResult, available: bool) returns (r: word)
      requires Valid() && table.current >= 0
      modifies this`owner, this`locked, table.slots
      ensures Valid() && (View(), r) == Opened(old(View()), Named(path, file), available)
    {
      hide InSlots;
      var i := table.current;
      var fd := 3;
      ghost var fds := table.slots[i].fds;
      while fd < FD_MAX && table.slots[i].fds[fd].inUse
        invariant 3 <= fd <= FD_MAX && FirstFree(fds, 3) == FirstFree(fds, fd)
      {
        fd := fd + 1;
      }
      if fd == FD_MAX {
        return FAIL;
      }
      var f := table.slots[i].fds[fd];
      if path == FB0 {
        var acquired := ForceAcquire(i, available);
        if !acquired {
          return FAIL;
        }
        SetFd(i, fd, f.(inUse := true, kind := Framebuffer));
      } else if path == MOUSE0 {
        SetFd(i, fd, f.(inUse := true, kind := Mouse));
      } else if path == CONSOLE {
        SetFd(i, fd, f.(inUse := true, kind := Console));
      } else if path == NULL {
        SetFd(i, fd, f.(inUse := true, kind := Null));
      } else {
        if path == [] || file == NotFound {
          return FAIL;
        }
        SetFd(i, fd, Fd(true, File, file.data, file.size, 0));
      }
      return fd;
    }

    /** syscall_open: the path must be a terminated string of user memory that fits the kernel's buffer. */
    method Open(path: word, files: seq<byte> -> FileResult, available: bool)
      returns (r: word, ghost target: Target, ghost text: seq<byte>)
      requires Valid() && (table.current >= 0 ==> Holds(table.slots[table.current].regions, mem))
      modifies this`owner, this`locked, table.slots
      ensures Valid() && (View(), r) == Opened(old(View()), target, available)
      ensures target.BadPath? <==> table.current < 0 || path == 0 ||
                                   !exists n | 0 <= n < PATH_MAX - 1 ::
                                         TerminatedAt(mem[..], old(table.slots[table.current].regions), path, n)
      ensures !target.BadPath? ==>
                && TerminatedAt(mem[..], old(table.slots[table.current].regions), path, |text|)
                && path + |text| <= mem.Length && text == mem[path..path + |text|]
                && target == Named(text, files(text))
    {
      hide Opened, TerminatedAt, InSlots, Separated;
      target, text := BadPath, [];
      if table.current < 0 || path == 0 {
        BadPathFails(View(), available);
        return FAIL, target, text;
      }
      var copied, copy := CopyUserString(mem, table.slots[table.current].regions, path, PATH_MAX);
      if !copied {
        BadPathFails(View(), available);
        return FAIL, target, text;
      }
      target, text := Named(copy, files(copy)), copy;
      ghost var bytes := mem[..];
      assert text == mem[path..path + |text|];
      r := OpenNamed(copy, files(copy), available);
      assert mem[..] == bytes;
    }

    lemma BadPathFails(s: System, available: bool)
      ensures Opened(s, BadPath, available) == (s, FAIL)
    {
    }

    /** syscall_close. */
    method Close(fd: word) returns (r: word)
      requires Valid()
      modifies this`owner, this`locked, table.slots
      ensures Valid() && (View(), r) == Closed(old(View()), fd)
    {
      hide InSlots, HoldsFramebuffer;
      if table.current < 0 || fd >= FD_MAX || !table.slots[table.current].fds[fd].inUse || fd < 3 {
        return FAIL;
      }
      var kind := table.slots[table.current].fds[fd].kind;
      SetFd(table.current, fd, FREE_FD);
      if kind == Framebuffer {
        ReleaseIfUnused(table.current);
      }
      return 0;
    }

    /** scheduler_yield, from a system call. */
    method Yield()
      requires Valid()
      modifies scheduler`index, scheduler`current, table.slots
      ensures Valid() && View() == YieldedSystem(old(View()))
    {
      hide Yielded, FdsOk;
      YieldKeepsFds(scheduler.View(), table.slots[..]);
      var chosen := scheduler.Yield();
    }

    lemma YieldKeepsFds(r: Ring, slots: seq<Process>)
      requires InSlots(r, slots)
      ensures var (r', slots') := Yielded(r, slots);
              InSlots(r', slots') && |slots'| == |slots| && forall i | 0 <= i < |slots| :: slots'[i].fds == slots[i].fds
    {
      hide NextStep, Place;
    }

    /** syscall_exit: the framebuffer and all descriptors are given back before the process is marked. */
    method Exit(code: word)
      requires Valid()
      modifies this`owner, this`locked, scheduler`index, scheduler`current, table.slots
      ensures Valid() && View() == Left(old(View()), code)
    {
      hide Yielded, YieldedSystem;
      if table.current >= 0 {
        ForceRelease(table.current);
        table.slots[table.current] := table.slots[table.current].(fds := NO_FDS);
        table.MarkExited(table.current, code);
        assert table.slots[..] == old(table.slots[..])[table.current := old(table.slots[table.current]).(fds := NO_FDS,
                    state := Exited, exitCode := code)];
      }
      Yield();
    }

    /** The rest of exec once the file is loaded: create, register, select, run, and reset the descriptors. */
    method Exec(name: seq<byte>, entry: word, r: Regions) returns (ok: bool)
      requires Valid()
      modifies table, table.slots, scheduler, scheduler.ring
      ensures Valid() && (View(), ok) == Executed(old(View()), name, entry, r, scheduler.ring.Length)
    {
      hide Registered, Selected, InSlots, FdOk;
      ghost var before := View();
      FirstFdsOk();
      var i := table.Create(name, entry, r);
      if i == -1 {
        return false;
      }
      ghost var created := table.View();
      SlotsLeave(before.ring, before.table.slots, created.slots);
      RegisterInSlots(scheduler.View(), table.slots[..], i, scheduler.ring.Length);
      scheduler.Register(i);
      scheduler.SetCurrent(i);
      Dispatch(i);
      SlotsLeave(scheduler.View(), created.slots, table.slots[..]);
      assert scheduler.View() == Selected(Registered(before.ring, i, scheduler.ring.Length), i);
      assert table.View() == created.(slots := created.slots[i := created.slots[i].(state := Running,
                                                                                    fds := FIRST_FDS)], current := i);
      return true;
    }

    /** A created process starts to run. */
    method Dispatch(i: nat)
      requires i < table.slots.Length
      modifies table`current, table.slots
      ensures table.current == i && table.nextPid == old(table.nextPid)
      ensures table.slots[..] == old(table.slots[..])[i := old(table.slots[i]).(state := Running, fds := FIRST_FDS)]
    {
      table.MarkRunning(i);
      table.ResetFds(table.current);
    }

    lemma FirstFdsOk()
      ensures FdsOk(FIRST_FDS)
    {
    }

    lemma SlotsLeave(r: Ring, slots: seq<Process>, slots': seq<Process>)
      requires InSlots(r, slots) && |slots| == |slots'|
      ensures InSlots(r, slots')
    {
    }

    lemma RegisterInSlots(r: Ring, slots: seq<Process>, i: nat, capacity: nat)
      requires InSlots(r, slots) && i < |slots|
      ensures InSlots(Registered(r, i, capacity), slots)
      ensures InSlots(Selected(Registered(r, i, capacity), i), slots)
    {
    }

    // ---- writing ----

    function CurrentRegions(): Regions
      requires 0 <= table.current < table.slots.Length
      reads table, table.slots
    {
      table.slots[table.current].regions
    }

    /** What fd is: -1 as an index stands for no descriptor in use. */
    predicate Using(fd: word)
      requires Valid()
      reads this, table, table.slots, scheduler, scheduler.ring
    {
      table.current >= 0 && fd < FD_MAX && table.slots[table.current].fds[fd].inUse
    }

    function KindOf(fd: word): FdKind
      requires Valid() && Using(fd)
      reads this, table, table.slots, scheduler, scheduler.ring
    {
      table.slots[table.current].fds[fd].kind
    }

    /** The write loop of syscall_write: pieces of 64 bytes, each checked and copied before it is sent. To the console
        or the null device it accepts exactly the ranges that lie whole in one user region. */
    static method WriteChunks(mem: array<byte>, regions: Regions, text: word, length: word, kind: FdKind)
        returns (r: word, sent: seq<byte>, ghost count: nat)
      requires Holds(regions, mem) && length > 0
      ensures kind in {Console, Null} ==>
                && r == (if ValidRange(regions, text, length) then length else FAIL)
                && (count == length <==> ValidRange(regions, text, length))
      ensures kind !in {Console, Null} ==> r == FAIL && count == 0
      ensures count <= length && (count > 0 ==> text + count <= mem.Length)
      ensures kind in {Console, Null} && count < length ==>
                count % WRITE_CHUNK == 0 && !ValidRange(regions, Wrap(text + count), Min(length - count, WRITE_CHUNK))
      ensures sent == if kind == Console && count > 0 then mem[text..text + count] else []
    {
      hide ValidRange, ChunksValid, Separated, Wrap;
      ChunksValidIffWhole(regions, text, length, WRITE_CHUNK);
      var written := 0;
      sent, count := [], 0;
      while written < length
        invariant 0 <= written <= length && text + written < TWO32 && (written > 0 ==> text + written <= mem.Length)
        invariant written < length ==> written % WRITE_CHUNK == 0
        invariant written > 0 ==> kind in {Console, Null}
        invariant ChunksValid(regions, text, length, WRITE_CHUNK)
                  <==> ChunksValid(regions, text + written, length - written, WRITE_CHUNK)
        invariant sent == if kind == Console && written > 0 then mem[text..text + written] else []
      {
        var chunk := Min(length - written, WRITE_CHUNK);
        ChunkStep(regions, text + written, length - written, WRITE_CHUNK);
        SmallWrap(text + written);
        var copied, buffer := CopyFromUser(mem, regions, Wrap(text + written), chunk);
        if !copied {
          return FAIL, sent, written;
        }
        ChunkBelowTop(regions, text + written, chunk);
        if kind == Console {
          Joined(mem[..], text, written, chunk);
          sent := sent + buffer;
        } else if kind != Null {
          return FAIL, sent, written;
        }
        written := written + chunk;
      }
      NothingLeft(regions, text + written);
      return written, sent, written;
    }

    static lemma ChunkBelowTop(r: Regions, address: word, size: nat)
      requires Separated(r) && ValidRange(r, address, size)
      ensures address + size <= r.stackTop && address + size < TWO32
    {
    }

    static lemma NothingLeft(r: Regions, address: word)
      ensures ChunksValid(r, address, 0, WRITE_CHUNK)
    {
    }

    static lemma Joined(m: seq<byte>, text: nat, written: nat, chunk: nat)
      requires text + written + chunk <= |m|
      ensures m[text..text + written] + m[text + written..text + written + chunk] == m[text..text + (written + chunk)]
    {
    }

    /** syscall_write: to the console it sends the whole range or, when the range is not in one user region, a prefix
        made of whole pieces; the null device swallows; other descriptors take nothing. */
    method Write(fd: word, text: word, length: word) returns (r: word, ghost count: nat)
      requires Valid() && (table.current >= 0 ==> Holds(CurrentRegions(), mem))
      modifies this`output
      ensures Valid() && View() == old(View()) && count <= length
              && (count > 0 ==> Using(fd) && text + count <= mem.Length)
      ensures !Using(fd) || text == 0 || length == 0 ==> r == (if length == 0 then 0 else FAIL) && count == 0
      ensures Using(fd) && text != 0 && length > 0 && KindOf(fd) in {Console, Null} ==>
                && r == (if ValidRange(CurrentRegions(), text, length) then length else FAIL)
                && (count == length <==> ValidRange(CurrentRegions(), text, length))
                && (count < length ==> count % WRITE_CHUNK == 0
                                       && !ValidRange(CurrentRegions(), Wrap(text + count),
                                                      Min(length - count, WRITE_CHUNK)))
      ensures Using(fd) && KindOf(fd) !in {Console, Null} && length > 0 ==> r == FAIL && count == 0
      ensures output == if count > 0 && KindOf(fd) == Console then old(output) + mem[text..text + count]
              else old(output)
    {
      hide ValidRange, InSlots;
      if table.current < 0 || fd >= FD_MAX || !table.slots[table.current].fds[fd].inUse || text == 0 || length == 0 {
        return if length == 0 then 0 else FAIL, 0;
      }
      var sent;
      r, sent, count := WriteChunks(mem, CurrentRegions(), text, length, table.slots[table.current].fds[fd].kind);
      output := output + sent;
    }

    // ---- reading ----

    /** The bytes behind an open file are in memory, outside the user regions: in the kernel's heap. */
    predicate FileApart(f: Fd, r: Regions) {
      f.data + f.size <= mem.Length && OffRegions(r, f.data, f.size)
    }

    /** What a read on a file takes: as much as is asked for, or all that is left. */
    function Taken(f: Fd, requested: word): (n: nat)
      ensures n <= requested
      ensures f.offset <= f.size ==> f.offset + n <= f.size && (n == requested || f.offset + n == f.size)
    {
      if f.offset <= f.size then Min(requested, f.size - f.offset) else 0
    }

    /** Memory after a read: n bytes of the file are in the buffer, and nothing else changed. */
    static predicate FileRead(now: seq<byte>, before: seq<byte>, source: nat, buffer: word, n: nat) {
      && |now| == |before| && source + n <= |before|
      && (n > 0 ==> buffer + n <= |now| && now[buffer..buffer + n] == before[source..source + n])
      && (forall a | 0 <= a < |now| && !(buffer <= a < buffer + n) :: now[a] == before[a])
    }

    /** Bytes of the kernel's memory copied to a user buffer, or nothing. */
    static method CopyOut(mem: array<byte>, regions: Regions, source: nat, buffer: word, count: word) returns (ok: bool)
      requires Holds(regions, mem) && source + count <= mem.Length
      modifies mem
      ensures ok <==> count == 0 || ValidRange(regions, buffer, count)
      ensures ok ==> count < FAIL
      ensures FileRead(mem[..], old(mem[..]), source, buffer, if ok then count else 0)
    {
      hide ValidRange, Separated;
      if count == 0 {
        return true;
      }
      ok := CopyToUser(mem, regions, buffer, mem[source..source + count]);
      if ok {
        CountBelowFail(regions, buffer, count);
      }
    }

    /** syscall_read on a file: the bytes at the offset go to the user's buffer and the offset moves on, unless the
        buffer is null or not a user range; then nothing changes. No other byte of memory changes. */
    method ReadFile(fd: word, buffer: word, requested: word) returns (r: word, ghost n: nat)
      requires Valid() && Using(fd) && KindOf(fd) == File && Holds(CurrentRegions(), mem)
      requires FileApart(table.slots[table.current].fds[fd], CurrentRegions())
      modifies table.slots, mem
      ensures Valid() && Using(fd) && CurrentRegions() == old(CurrentRegions())
      ensures View() == if r == FAIL then old(View()) else Advanced(old(View()), fd, n)
      ensures table.slots[table.current].fds[fd]
              == old(table.slots[table.current].fds[fd]).(offset := table.slots[table.current].fds[fd].offset)
      ensures table.slots[table.current].fds[fd].offset == old(table.slots[table.current].fds[fd].offset) + n
      ensures var taken := Taken(old(table.slots[table.current].fds[fd]), requested);
              && (r == FAIL <==> buffer == 0 || (taken != 0 && !ValidRange(CurrentRegions(), buffer, taken)))
              && (if r == FAIL then n == 0 else r == n == taken)
      ensures FileRead(mem[..], old(mem[..]),
                       old(table.slots[table.current].fds[fd].data + table.slots[table.current].fds[fd].offset),
                       buffer, n)
    {
      hide ValidRange, InSlots, FileRead, Separated;
      NothingRead(mem[..], buffer);
      if buffer == 0 {
        return FAIL, 0;
      }
      var f := table.slots[table.current].fds[fd];
      assert FdOk(f);
      var remaining := f.size - f.offset;
      var count := if requested < remaining then requested else remaining;
      var copied := CopyOut(mem, CurrentRegions(), f.data + f.offset, buffer, count);
      if !copied {
        return FAIL, 0;
      }
      SetFd(table.current, fd, f.(offset := f.offset + count));
      return count, count;
    }

    static lemma NothingRead(m: seq<byte>, buffer: word)
      ensures forall source: nat | source <= |m| :: FileRead(m, m, source, buffer, 0)
    {
    }

    static lemma CountBelowFail(r: Regions, address: word, size: nat)
      requires Separated(r) && ValidRange(r, address, size)
      ensures size < FAIL
    {
    }
  }
}
