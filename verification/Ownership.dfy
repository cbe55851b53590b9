/** The system state behind the descriptor calls of src/kernel/syscall.c, and who owns the framebuffer. */
module Ownership {
  import opened Machine
  import opened UserMemory
  import opened Processes
  import opened Scheduler
  import opened Fairness

  const FAIL: word := 0xFFFF_FFFF

  /** Process slots, ring, framebuffer owner (0 for none) and the terminal's framebuffer lock. */
  datatype System = System(table: Table, ring: Ring, owner: word, locked: bool)

  /** Power-on. */
  function Initial(n: nat): System {
    System(Table(seq(n, _ => NO_PROCESS), -1, 1), NO_RING, 0, false)
  }

  /** What a path names: nothing readable, a device, or a file's bytes. */
  datatype Target = BadPath | Missing | Device(kind: FdKind) | Stored(data: word, size: word)

  predicate HasCurrent(s: System) {
    0 <= s.table.current < |s.table.slots|
  }

  function Current(s: System): Process
    requires HasCurrent(s)
  {
    s.table.slots[s.table.current]
  }

  function WithCurrent(s: System, p: Process): System
    requires HasCurrent(s)
  {
    s.(table := s.table.(slots := s.table.slots[s.table.current := p]))
  }

  predicate HoldsFramebuffer(p: Process) {
    exists k | 0 <= k < |p.fds| :: p.fds[k].inUse && p.fds[k].kind == Framebuffer
  }

  /** The first descriptor not in use at or after from, or the number of descriptors. */
  function FirstFree(fds: seq<Fd>, from: nat): (k: nat)
    requires from <= |fds|
    ensures from <= k <= |fds|
    ensures forall j | from <= j < k :: fds[j].inUse
    ensures k < |fds| ==> !fds[k].inUse
    decreases |fds| - from
  {
    if from == |fds| || !fds[from].inUse then from else FirstFree(fds, from + 1)
  }

  /** syscall_fd_get. */
  predicate FdInUse(s: System, fd: word) {
    HasCurrent(s) && fd < |Current(s).fds| && Current(s).fds[fd].inUse
  }

  function WithFd(s: System, fd: nat, f: Fd): System
    requires HasCurrent(s) && fd < |Current(s).fds|
  {
    WithCurrent(s, Current(s).(fds := Current(s).fds[fd := f]))
  }

  /** syscall_open once the path is known. */
  function Opened(s: System, target: Target, available: bool): (System, word) {
    if !HasCurrent(s) || target.BadPath? || |Current(s).fds| < 3 then (s, FAIL)
    else
      var fd := FirstFree(Current(s).fds, 3);
      if fd >= |Current(s).fds| || fd >= FAIL || target.Missing? then (s, FAIL)
      else
        var f := Current(s).fds[fd];
        if target.Stored? then (WithFd(s, fd, Fd(true, File, target.data, target.size, 0)), fd)
        else if target.kind != Framebuffer then (WithFd(s, fd, f.(inUse := true, kind := target.kind)), fd)
        else if !available || (s.owner != 0 && s.owner != Current(s).pid) then (s, FAIL)
        else (WithFd(s, fd, f.(inUse := true, kind := Framebuffer)).(owner := Current(s).pid, locked := true), fd)
  }

  /** syscall_close. */
  function Closed(s: System, fd: word): (System, word) {
    if !FdInUse(s, fd) || fd < 3 then (s, FAIL)
    else
      var t := WithFd(s, fd, FREE_FD);
      if Current(s).fds[fd].kind == Framebuffer && t.owner == Current(t).pid && !HoldsFramebuffer(Current(t))
      then (t.(owner := 0, locked := false), 0)
      else (t, 0)
  }

  /** The offset of an open file moves on. */
  function Advanced(s: System, fd: word, count: nat): System {
    if FdInUse(s, fd) && Current(s).fds[fd].kind == File && Current(s).fds[fd].offset + count <= Current(s).fds[fd].size
    then WithFd(s, fd, Current(s).fds[fd].(offset := Current(s).fds[fd].offset + count))
    else s
  }

  function YieldedSystem(s: System): System {
    if InSlots(s.ring, s.table.slots) then
      var (r, slots) := Yielded(s.ring, s.table.slots);
      s.(ring := r, table := s.table.(slots := slots))
    else s
  }

  /** syscall_exit. */
  function Left(s: System, code: word): System {
    if HasCurrent(s) then
      var p := Current(s);
      var released := if s.owner == p.pid then s.(owner := 0, locked := false) else s;
      YieldedSystem(WithCurrent(released, p.(fds := NO_FDS, state := Exited, exitCode := code)))
    else YieldedSystem(s)
  }

  /** exec once the file is loaded: a process is created, registered, selected and run; false when no slot is free. */
  function Executed(s: System, name: seq<byte>, entry: word, r: Regions, capacity: nat): (System, bool) {
    var (t, i) := Created(s.table, name, entry, r);
    if i < 0 then (s, false)
    else
      var p := t.slots[i].(state := Running, fds := FIRST_FDS);
      (s.(table := t.(slots := t.slots[i := p], current := i), ring := Selected(Registered(s.ring, i, capacity), i)),
       true)
  }

  // ---- the invariant ----

  predicate FdOk(f: Fd) {
    (f.inUse || f == FREE_FD) && f.offset <= f.size
  }

  predicate FdsOk(fds: seq<Fd>) {
    |fds| == FD_MAX && forall k | 0 <= k < |fds| :: FdOk(fds[k])
  }

  /** Live processes keep descriptors 0 to 2 on the console; the others have none. */
  predicate ProcessOk(p: Process) {
    && FdsOk(p.fds)
    && (Live(p) ==> forall k | 0 <= k < 3 :: p.fds[k] == CONSOLE_FD)
    && (!Live(p) ==> p.fds == NO_FDS)
  }

  predicate SlotsOk(slots: seq<Process>) {
    forall i | 0 <= i < |slots| :: ProcessOk(slots[i])
  }

  /** At most one process holds the framebuffer, and it is the owner; there is an owner exactly while somebody holds it;
      and the lock is on exactly while there is an owner. */
  predicate OwnerOk(slots: seq<Process>, owner: word, locked: bool) {
    && (forall i | 0 <= i < |slots| && HoldsFramebuffer(slots[i]) :: slots[i].pid == owner)
    && (forall i, j | 0 <= i < j < |slots| :: !(HoldsFramebuffer(slots[i]) && HoldsFramebuffer(slots[j])))
    && (owner != 0 <==> exists i | 0 <= i < |slots| :: HoldsFramebuffer(slots[i]))
    && (locked <==> owner != 0)
  }

  /** The calling process does not pass for the owner, or for nobody, by its pid alone. */
  predicate CallerOk(slots: seq<Process>, current: int, owner: word) {
    0 <= current < |slots| && Live(slots[current]) && owner == slots[current].pid ==> HoldsFramebuffer(slots[current])
  }

  /** Nothing is asked of the pid counter, and pids may repeat. */
  predicate Inv(s: System, capacity: nat) {
    && -1 <= s.table.current < |s.table.slots| <= capacity
    && SlotsOk(s.table.slots)
    && OwnerOk(s.table.slots, s.owner, s.locked)
    && CallerOk(s.table.slots, s.table.current, s.owner)
    && RingOk(s.ring, s.table.slots) && AllRegistered(s.ring, s.table.slots)
  }

  /** The current process is the one in user mode, so it is live when a system call comes. */
  predicate InCall(s: System) {
    HasCurrent(s) && Live(Current(s))
  }

  /** No process without descriptors holds the framebuffer. */
  lemma HolderIsLive(p: Process)
    requires ProcessOk(p) && HoldsFramebuffer(p)
    ensures Live(p)
  {
  }

  predicate OnlyHolder(s: System, i: nat)
    requires i < |s.table.slots|
  {
    && Live(s.table.slots[i]) && s.table.slots[i].pid == s.owner && HoldsFramebuffer(s.table.slots[i])
    && forall j | 0 <= j < |s.table.slots| && HoldsFramebuffer(s.table.slots[j]) :: j == i
  }

  /** The promise: the terminal is locked if and only if there is an owner, if and only if exactly one process holds the
      framebuffer; that process is live and is the owner, and no other process holds it. */
  predicate LockOk(s: System) {
    && (s.locked <==> s.owner != 0)
    && (s.locked <==> exists i | 0 <= i < |s.table.slots| :: OnlyHolder(s, i))
    && (s.locked <==> exists i | 0 <= i < |s.table.slots| :: HoldsFramebuffer(s.table.slots[i]))
  }

  /** A sound system keeps the promise. */
  lemma LockMeansOneHolder(s: System, capacity: nat)
    requires Inv(s, capacity)
    ensures LockOk(s)
  {
    hide RingOk, AllRegistered, HoldsFramebuffer;
    var slots := s.table.slots;
    if s.locked {
      var i :| 0 <= i < |slots| && HoldsFramebuffer(slots[i]);
      HolderIsLive(slots[i]);
      assert OnlyHolder(s, i);
    }
  }

  // ---- steps keep the invariant ----

  /** One slot replaced by a version of the same process, live or just exited. */
  lemma SlotReplaced(slots: seq<Process>, i: nat, p: Process)
    requires SlotsOk(slots) && i < |slots| && ProcessOk(p)
    ensures SlotsOk(slots[i := p])
  {
    hide ProcessOk;
  }

  lemma RingStays(r: Ring, slots: seq<Process>, i: nat, p: Process)
    requires RingOk(r, slots) && AllRegistered(r, slots) && i < |slots| && !slots[i].state.Unused?
    ensures RingOk(r, slots[i := p]) && AllRegistered(r, slots[i := p])
  {
  }

  /** One descriptor of the current process set to a sound value. */
  lemma FdReplaced(s: System, capacity: nat, fd: nat, f: Fd)
    requires Inv(s, capacity) && InCall(s) && 3 <= fd < FD_MAX == |Current(s).fds| && FdOk(f)
    ensures var p := Current(s).(fds := Current(s).fds[fd := f]);
            && SlotsOk(s.table.slots[s.table.current := p])
            && RingOk(s.ring, s.table.slots[s.table.current := p])
               && AllRegistered(s.ring, s.table.slots[s.table.current := p])
  {
    hide RingOk, AllRegistered, SlotsOk, OwnerOk;
    var p := Current(s).(fds := Current(s).fds[fd := f]);
    OneSlot(s.table.slots, s.table.current);
    SlotReplaced(s.table.slots, s.table.current, p);
    RingStays(s.ring, s.table.slots, s.table.current, p);
  }

  lemma OneSlot(slots: seq<Process>, i: nat)
    requires SlotsOk(slots) && i < |slots|
    ensures ProcessOk(slots[i])
  {
  }

  /** A process gains the framebuffer: it may if nobody owns it or it holds it already. */
  lemma OwnerGained(slots: seq<Process>, owner: word, locked: bool, i: nat, p: Process)
    requires OwnerOk(slots, owner, locked) && CallerOk(slots, i, owner) && i < |slots| && Live(slots[i])
    requires owner == 0 || owner == slots[i].pid
    requires p.pid == slots[i].pid && HoldsFramebuffer(p)
    ensures OwnerOk(slots[i := p], slots[i].pid, true) && CallerOk(slots[i := p], i, slots[i].pid)
  {
    hide HoldsFramebuffer;
    assert HoldsFramebuffer(slots[i := p][i]);
  }

  /** Nothing about the framebuffer changes for a process. */
  lemma OwnerSame(slots: seq<Process>, owner: word, locked: bool, i: nat, p: Process)
    requires OwnerOk(slots, owner, locked) && i < |slots|
    requires (p.pid == slots[i].pid || !HoldsFramebuffer(p)) && (HoldsFramebuffer(p) <==> HoldsFramebuffer(slots[i]))
    ensures OwnerOk(slots[i := p], owner, locked)
  {
    hide HoldsFramebuffer;
    if owner != 0 {
      var j :| 0 <= j < |slots| && HoldsFramebuffer(slots[j]);
      assert HoldsFramebuffer(slots[i := p][j]);
    }
    assert forall j | 0 <= j < |slots| && j != i :: slots[i := p][j] == slots[j];
  }

  /** The holder lets go of its last framebuffer descriptor. */
  lemma OwnerLost(slots: seq<Process>, owner: word, locked: bool, i: nat, p: Process)
    requires OwnerOk(slots, owner, locked) && i < |slots| && HoldsFramebuffer(slots[i]) && !HoldsFramebuffer(p)
    ensures OwnerOk(slots[i := p], 0, false) && owner == slots[i].pid != 0
  {
    hide HoldsFramebuffer;
    assert forall j | 0 <= j < |slots| && j != i :: slots[i := p][j] == slots[j];
  }

  lemma OpenKeeps(s: System, capacity: nat, target: Target, available: bool)
    requires Inv(s, capacity) && InCall(s)
    requires target.Device? ==> target.kind in {Console, Null, Framebuffer, Mouse}
    ensures Inv(Opened(s, target, available).0, capacity)
  {
    hide RingOk, AllRegistered, OwnerOk, HoldsFramebuffer;
    OneSlot(s.table.slots, s.table.current);
    var p, fd := Current(s), FirstFree(Current(s).fds, 3);
    var t := Opened(s, target, available).0;
    if t != s {
      var q := Current(t);
      FdReplaced(s, capacity, fd, q.fds[fd]);
      if q.fds[fd].kind == Framebuffer {
        assert HoldsFramebuffer(q) by { OneHolds(q, fd); }
        OwnerGained(s.table.slots, s.owner, s.locked, s.table.current, q);
      } else {
        SameHolding(p, q, fd);
        OwnerSame(s.table.slots, s.owner, s.locked, s.table.current, q);
      }
    }
  }

  lemma OneHolds(p: Process, k: nat)
    requires k < |p.fds| && p.fds[k].inUse && p.fds[k].kind == Framebuffer
    ensures HoldsFramebuffer(p)
  {
  }

  /** A descriptor that is not on the framebuffer before and after makes no difference. */
  lemma SameHolding(p: Process, q: Process, fd: nat)
    requires fd < |p.fds| == |q.fds| && q.fds == p.fds[fd := q.fds[fd]]
    requires p.fds[fd].inUse ==> p.fds[fd].kind != Framebuffer
    requires q.fds[fd].inUse ==> q.fds[fd].kind != Framebuffer
    ensures HoldsFramebuffer(p) <==> HoldsFramebuffer(q)
  {
    if k :| 0 <= k < |p.fds| && p.fds[k].inUse && p.fds[k].kind == Framebuffer {
      assert q.fds[k] == p.fds[k];
    }
    if k :| 0 <= k < |q.fds| && q.fds[k].inUse && q.fds[k].kind == Framebuffer {
      assert q.fds[k] == p.fds[k];
    }
  }

  lemma CloseKeeps(s: System, capacity: nat, fd: word)
    requires Inv(s, capacity) && InCall(s)
    ensures Inv(Closed(s, fd).0, capacity)
  {
    hide RingOk, AllRegistered, OwnerOk, HoldsFramebuffer;
    OneSlot(s.table.slots, s.table.current);
    var p := Current(s);
    if FdInUse(s, fd) && fd >= 3 {
      var q := p.(fds := p.fds[fd := FREE_FD]);
      FdReplaced(s, capacity, fd, FREE_FD);
      if p.fds[fd].kind == Framebuffer {
        OneHolds(p, fd);
        OwnerIs(s, s.table.current);
        if HoldsFramebuffer(q) {
          OwnerSame(s.table.slots, s.owner, s.locked, s.table.current, q);
        } else {
          OwnerLost(s.table.slots, s.owner, s.locked, s.table.current, q);
        }
      } else {
        SameHolding(p, q, fd);
        OwnerSame(s.table.slots, s.owner, s.locked, s.table.current, q);
      }
    }
  }

  lemma OwnerIs(s: System, i: nat)
    requires OwnerOk(s.table.slots, s.owner, s.locked) && i < |s.table.slots| && HoldsFramebuffer(s.table.slots[i])
    ensures s.owner == s.table.slots[i].pid
  {
  }

  lemma AdvanceKeeps(s: System, capacity: nat, fd: word, count: nat)
    requires Inv(s, capacity) && InCall(s)
    ensures Inv(Advanced(s, fd, count), capacity)
  {
    hide RingOk, AllRegistered, OwnerOk, HoldsFramebuffer;
    OneSlot(s.table.slots, s.table.current);
    var t := Advanced(s, fd, count);
    if t != s {
      var p, q := Current(s), Current(t);
      FdReplaced(s, capacity, fd, q.fds[fd]);
      SameHolding(p, q, fd);
      OwnerSame(s.table.slots, s.owner, s.locked, s.table.current, q);
    }
  }

  /** Changes of state between ready and running keep everything. */
  lemma YieldKeepsInv(s: System, capacity: nat)
    requires Inv(s, capacity)
    ensures Inv(YieldedSystem(s), capacity)
  {
    hide Yielded, HoldsFramebuffer, FdOk;
    YieldKeeps(s.ring, s.table.slots);
    var slots := Yielded(s.ring, s.table.slots).1;
    SameSlots(s.table.slots, slots);
    SameOwner(s.table.slots, slots, s.table.current, s.owner, s.locked);
  }

  lemma SameSlots(slots: seq<Process>, slots': seq<Process>)
    requires SlotsOk(slots) && SameLive(slots, slots')
    requires forall i | 0 <= i < |slots| :: slots'[i] == slots[i].(state := slots'[i].state)
    ensures SlotsOk(slots')
  {
    hide FdsOk;
  }

  lemma SameOwner(slots: seq<Process>, slots': seq<Process>, current: int, owner: word, locked: bool)
    requires OwnerOk(slots, owner, locked) && CallerOk(slots, current, owner) && SameLive(slots, slots')
    requires forall i | 0 <= i < |slots| :: slots'[i] == slots[i].(state := slots'[i].state)
    ensures OwnerOk(slots', owner, locked) && CallerOk(slots', current, owner)
  {
    forall i | 0 <= i < |slots|
      ensures HoldsFramebuffer(slots'[i]) <==> HoldsFramebuffer(slots[i])
    {
    }
    hide HoldsFramebuffer;
    if owner != 0 {
      var i :| 0 <= i < |slots| && HoldsFramebuffer(slots[i]);
      assert HoldsFramebuffer(slots'[i]);
    }
  }

  lemma ExitKeeps(s: System, capacity: nat, code: word)
    requires Inv(s, capacity) && InCall(s)
    ensures Inv(Left(s, code), capacity)
  {
    hide RingOk, AllRegistered, OwnerOk, HoldsFramebuffer, YieldedSystem;
    var i, p := s.table.current, Current(s);
    OneSlot(s.table.slots, i);
    var q := p.(fds := NO_FDS, state := Exited, exitCode := code);
    SlotReplaced(s.table.slots, i, q);
    RingStays(s.ring, s.table.slots, i, q);
    NobodyHolds(q);
    if HoldsFramebuffer(p) {
      OwnerIs(s, i);
      OwnerLost(s.table.slots, s.owner, s.locked, i, q);
    } else {
      OwnerSame(s.table.slots, s.owner, s.locked, i, q);
    }
    var released := if s.owner == p.pid then s.(owner := 0, locked := false) else s;
    YieldKeepsInv(WithCurrent(released, q), capacity);
  }

  lemma NobodyHolds(p: Process)
    requires p.fds == NO_FDS || p.fds == FIRST_FDS
    ensures !HoldsFramebuffer(p)
  {
  }

  // ---- exec ----

  /** A new process joins the ring and is chosen. */
  lemma NewProcessJoins(r: Ring, slots: seq<Process>, i: nat, p: Process, capacity: nat)
    requires RingOk(r, slots) && AllRegistered(r, slots) && i < |slots| <= capacity
    ensures var r' := Selected(Registered(r, i, capacity), i);
            RingOk(r', slots[i := p]) && AllRegistered(r', slots[i := p]) && r'.current == i && r.members <= r'.members
  {
    hide Registered, Selected;
    RegisterNeverDrops(r, slots, i, capacity);
    SelectKeeps(Registered(r, i, capacity), slots, i);
    var r' := Selected(Registered(r, i, capacity), i);
    forall j | 0 <= j < |slots| && !slots[i := p][j].state.Unused?
      ensures j in r'.members
    {
      if j != i {
        assert j in r.members;
      }
    }
  }

  /** exec finds a slot exactly when one is reusable. */
  lemma ExecFindsSlot(s: System, name: seq<byte>, entry: word, r: Regions, capacity: nat)
    ensures Executed(s, name, entry, r, capacity).1
            <==> exists i | 0 <= i < |s.table.slots| :: Reusable(s.table.slots[i])
    ensures !Executed(s, name, entry, r, capacity).1 ==> Executed(s, name, entry, r, capacity).0 == s
  {
  }

  /** exec keeps the system sound exactly when there is no free slot or the next pid is not the framebuffer's owner, 0
      standing for no owner. */
  lemma ExecKeepsIff(s: System, capacity: nat, name: seq<byte>, entry: word, r: Regions)
    requires Inv(s, capacity)
    ensures Inv(Executed(s, name, entry, r, capacity).0, capacity)
            <==> !Executed(s, name, entry, r, capacity).1 || s.table.nextPid != s.owner
    ensures s.ring.members <= Executed(s, name, entry, r, capacity).0.ring.members
  {
    hide RingOk, AllRegistered, OwnerOk, SlotsOk, Selected, Registered, HoldsFramebuffer;
    var i := FirstReusable(s.table.slots, 0);
    if i < |s.table.slots| {
      var t := Executed(s, name, entry, r, capacity).0;
      var p := t.table.slots[i];
      assert t.table.slots == s.table.slots[i := p];
      OneSlot(s.table.slots, i);
      NobodyHolds(s.table.slots[i]);
      NobodyHolds(p);
      NewProcessJoins(s.ring, s.table.slots, i, p, capacity);
      SlotReplaced(s.table.slots, i, p);
      OwnerSame(s.table.slots, s.owner, s.locked, i, p);
    }
  }

  /** The condition is the right one: a new process that opens the framebuffer leaves the promise about the lock intact
      exactly when its pid is not the owner's. Otherwise it locks the terminal in nobody's name, or holds the
      framebuffer beside a process with the same pid. */
  lemma ExecThenOpenIff(s: System, capacity: nat, name: seq<byte>, entry: word, r: Regions)
    requires Inv(s, capacity) && Executed(s, name, entry, r, capacity).1
    ensures LockOk(Opened(Executed(s, name, entry, r, capacity).0, Device(Framebuffer), true).0)
            <==> s.table.nextPid != s.owner
  {
    hide RingOk, AllRegistered, OwnerOk, SlotsOk, Selected, Registered, LockOk, Opened, Executed;
    ExecFindsSlot(s, name, entry, r, capacity);
    var e := Executed(s, name, entry, r, capacity).0;
    if s.table.nextPid != s.owner {
      ExecKeepsIff(s, capacity, name, entry, r);
      NewInCall(s, name, entry, r, capacity);
      OpenKeeps(e, capacity, Device(Framebuffer), true);
      LockMeansOneHolder(Opened(e, Device(Framebuffer), true).0, capacity);
    } else {
      SamePidBreaks(s, capacity, name, entry, r);
    }
  }

  lemma NewInCall(s: System, name: seq<byte>, entry: word, r: Regions, capacity: nat)
    requires Executed(s, name, entry, r, capacity).1
    ensures var t := Executed(s, name, entry, r, capacity).0;
            && InCall(t) && t.table.current == FirstReusable(s.table.slots, 0) && |t.table.slots| == |s.table.slots|
            && t.owner == s.owner && t.locked == s.locked && t.table.nextPid == Wrap(s.table.nextPid + 1)
            && Current(t).pid == s.table.nextPid && Current(t).fds == FIRST_FDS && Current(t).state == Running
            && t.table.slots == s.table.slots[t.table.current := Current(t)]
  {
    hide Registered, Selected;
  }

  lemma SamePidBreaks(s: System, capacity: nat, name: seq<byte>, entry: word, r: Regions)
    requires Inv(s, capacity) && Executed(s, name, entry, r, capacity).1 && s.table.nextPid == s.owner
    ensures !LockOk(Opened(Executed(s, name, entry, r, capacity).0, Device(Framebuffer), true).0)
  {
    hide RingOk, AllRegistered, Executed, HoldsFramebuffer;
    NewInCall(s, name, entry, r, capacity);
    var e := Executed(s, name, entry, r, capacity).0;
    var i := e.table.current;
    assert FirstFree(Current(e).fds, 3) == 3;
    var t := Opened(e, Device(Framebuffer), true).0;
    assert t.locked && t.owner == s.owner && Current(t).fds[3].kind == Framebuffer;
    OneHolds(t.table.slots[i], 3);
    if s.owner != 0 {
      var h :| 0 <= h < |s.table.slots| && HoldsFramebuffer(s.table.slots[h]);
      NobodyHolds(s.table.slots[i]);
      assert t.table.slots[h] == s.table.slots[h];
    }
  }

  /** Pids of live processes are not 0 and all different. */
  predicate PidsOk(slots: seq<Process>) {
    && (forall i | 0 <= i < |slots| && Live(slots[i]) :: slots[i].pid != 0)
    && (forall i, j | 0 <= i < j < |slots| && Live(slots[i]) && Live(slots[j]) :: slots[i].pid != slots[j].pid)
  }

  /** exec keeps the pids different exactly when the next one is neither 0 nor in use. */
  lemma ExecKeepsPidsIff(s: System, name: seq<byte>, entry: word, r: Regions, capacity: nat)
    requires PidsOk(s.table.slots) && Executed(s, name, entry, r, capacity).1
    ensures PidsOk(Executed(s, name, entry, r, capacity).0.table.slots)
            <==> s.table.nextPid != 0 && forall i | 0 <= i < |s.table.slots| && Live(s.table.slots[i]) ::
                   s.table.slots[i].pid != s.table.nextPid
  {
    hide Executed;
    NewInCall(s, name, entry, r, capacity);
    var t := Executed(s, name, entry, r, capacity).0;
    var i := t.table.current;
    ReusableAt(s, name, entry, r, capacity);
    forall j | 0 <= j < |s.table.slots| && Live(s.table.slots[j])
      ensures j != i && t.table.slots[j] == s.table.slots[j]
    {
    }
  }

  lemma ReusableAt(s: System, name: seq<byte>, entry: word, r: Regions, capacity: nat)
    requires Executed(s, name, entry, r, capacity).1
    ensures FirstReusable(s.table.slots, 0) < |s.table.slots|
            && Reusable(s.table.slots[FirstReusable(s.table.slots, 0)])
  {
  }

  // ---- one running process ----

  predicate NothingRuns(slots: seq<Process>) {
    forall i | 0 <= i < |slots| :: slots[i].state != Running
  }

  /** Running exec leaves one running process exactly when none was running before: dispatch demotes nobody. */
  lemma ExecKeepsOneRunningIff(s: System, capacity: nat, name: seq<byte>, entry: word, r: Regions)
    requires Inv(s, capacity) && Executed(s, name, entry, r, capacity).1
    ensures var t := Executed(s, name, entry, r, capacity).0;
            && (OneRunning(t.ring, t.table.slots) <==> NothingRuns(s.table.slots))
            && t.ring.current == t.table.current && t.table.slots[t.table.current].state == Running
  {
    hide Selected, Registered, RingOk, AllRegistered, OwnerOk, SlotsOk;
    var i := FirstReusable(s.table.slots, 0);
    var t := Executed(s, name, entry, r, capacity).0;
    NewProcessJoins(s.ring, s.table.slots, i, t.table.slots[i], capacity);
    if !NothingRuns(s.table.slots) {
      var j :| 0 <= j < |s.table.slots| && s.table.slots[j].state == Running;
      assert j != i && t.table.slots[j].state == Running;
    }
  }

  /** No process but the current one of process.c could run. */
  predicate NobodyElse(s: System) {
    forall i | 0 <= i < |s.table.slots| && Live(s.table.slots[i]) :: i == s.table.current
  }

  /** A yield moves the scheduler's current process but not the one system calls act for: when both were the same they
      still are exactly when nobody else could run. */
  lemma YieldKeepsCurrentIff(s: System, capacity: nat)
    requires Inv(s, capacity) && InCall(s) && s.ring.current == s.table.current
    ensures var t := YieldedSystem(s); t.ring.current == t.table.current <==> NobodyElse(s)
  {
    YieldMoves(s.ring, s.table.slots, s.table.current);
  }

  /** The same for an exit, which leaves with a yield. */
  lemma ExitKeepsCurrentIff(s: System, capacity: nat, code: word)
    requires Inv(s, capacity) && InCall(s) && s.ring.current == s.table.current
    ensures var t := Left(s, code); t.ring.current == t.table.current <==> NobodyElse(s)
  {
    hide RingOk, AllRegistered, OwnerOk, SlotsOk, Yielded, HoldsFramebuffer;
    var i, p := s.table.current, Current(s);
    var q := p.(fds := NO_FDS, state := Exited, exitCode := code);
    RingStays(s.ring, s.table.slots, i, q);
    RingInSlots(s.ring, s.table.slots[i := q]);
    YieldMoves(s.ring, s.table.slots[i := q], i);
    assert forall j | 0 <= j < |s.table.slots| && j != i :: s.table.slots[i := q][j] == s.table.slots[j];
  }

  /** A yield chooses another slot exactly when another one is live. */
  lemma YieldMoves(r: Ring, slots: seq<Process>, i: nat)
    requires RingOk(r, slots) && AllRegistered(r, slots) && r.current == i < |slots|
    ensures Yielded(r, slots).0.current == i <==> forall j | 0 <= j < |slots| && Live(slots[j]) :: j == i
  {
    hide Place;
    var step := NextStep(r, slots, 1);
    if j :| 0 <= j < |slots| && Live(slots[j]) && j != i {
      var k :| 0 <= k < |r.members| && r.members[k] == j;
      var s := StepTo(r, k);
      assert step <= s < |r.members| by { RoundEnds(r, s); }
      PlacesDiffer(r, step, |r.members|);
      RoundEnds(r, |r.members|);
    }
  }

  /** The last step of a round, and only that, is back at the ring index. */
  lemma RoundEnds(r: Ring, s: nat)
    requires r.index < |r.members| && 1 <= s <= |r.members|
    ensures Place(r, s) == r.index <==> s == |r.members|
  {
    SmallSum(r.index + s, |r.members|);
  }

  /** The descriptor calls leave the states of all processes alone. */
  lemma CallsKeepStates(s: System, target: Target, available: bool, fd: word, count: nat)
    requires OneRunning(s.ring, s.table.slots)
    ensures var t := Opened(s, target, available).0; OneRunning(t.ring, t.table.slots)
    ensures var t := Closed(s, fd).0; OneRunning(t.ring, t.table.slots)
    ensures var t := Advanced(s, fd, count); OneRunning(t.ring, t.table.slots)
  {
  }

  /** Exit and yield keep at most one process running, the chosen one. */
  lemma ExitKeepsOneRunning(s: System, capacity: nat, code: word)
    requires Inv(s, capacity) && InCall(s) && OneRunning(s.ring, s.table.slots)
    ensures var t := Left(s, code); OneRunning(t.ring, t.table.slots)
  {
    hide AllRegistered, OwnerOk, SlotsOk, Yielded, HoldsFramebuffer;
    var i, p := s.table.current, Current(s);
    var q := p.(fds := NO_FDS, state := Exited, exitCode := code);
    YieldKeepsOneRunning(s.ring, s.table.slots[i := q]);
  }
}
