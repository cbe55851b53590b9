/** What the descriptor calls, exit, exec and a yield do, call by call, said of the state before and the state after
    (src/kernel/syscall.c, src/kernel/process.c, src/kernel/scheduler.c). */
module Effects {
  import opened Machine
  import opened UserMemory
  import opened Processes
  import opened Scheduler
  import opened Fairness
  import opened Ownership

  /** Nothing but descriptors of the calling process, ownership and lock. */
  predicate OnlyFds(s: System, t: System)
    requires HasCurrent(s)
  {
    && HasCurrent(t) && t.table.current == s.table.current && t.table.nextPid == s.table.nextPid && t.ring == s.ring
    && |t.table.slots| == |s.table.slots| && |Current(t).fds| == |Current(s).fds|
    && Current(t) == Current(s).(fds := Current(t).fds)
    && forall i | 0 <= i < |s.table.slots| && i != s.table.current :: t.table.slots[i] == s.table.slots[i]
  }

  /** All descriptors of the calling process but one are as before. */
  predicate OtherFdsKept(s: System, t: System, fd: nat)
    requires HasCurrent(s) && OnlyFds(s, t)
  {
    forall k | 0 <= k < |Current(s).fds| && k != fd :: Current(t).fds[k] == Current(s).fds[k]
  }

  /** close succeeds exactly for a descriptor in use that is not one of the first three. Then that one is free, and all
      others, of this process and of every other, are as before; a second close fails. The framebuffer is given up
      exactly with the last descriptor on it. A failing close changes nothing. */
  lemma CloseFrees(s: System, capacity: nat, fd: word)
    requires Inv(s, capacity) && InCall(s)
    ensures var (t, r) := Closed(s, fd);
            var p := Current(s);
            && (r == 0 || r == 0xFFFF_FFFF) && (r == 0 <==> 3 <= fd < |p.fds| && p.fds[fd].inUse)
            && (r != 0 ==> t == s)
            && (r == 0 ==>
                  && OnlyFds(s, t) && OtherFdsKept(s, t, fd) && !Current(t).fds[fd].inUse && Closed(t, fd).1 != 0
                  && (t.owner, t.locked)
                     == (if HoldsFramebuffer(p) && !HoldsFramebuffer(Current(t)) then (0, false)
                         else (s.owner, s.locked)))
  {
    hide RingOk, AllRegistered;
    var p := Current(s);
    OneSlot(s.table.slots, s.table.current);
    if FdInUse(s, fd) && fd >= 3 {
      if p.fds[fd].kind == Framebuffer {
        OneHolds(p, fd);
        OwnerIs(s, s.table.current);
      } else {
        SameHolding(p, p.(fds := p.fds[fd := FREE_FD]), fd);
      }
    }
  }

  /** The path names something, and nobody else owns the framebuffer if it is that. */
  predicate CanOpen(s: System, target: Target, available: bool)
    requires HasCurrent(s)
  {
    && (target.Device? || target.Stored?)
    && (target == Device(Framebuffer) ==> available && (s.owner == 0 || s.owner == Current(s).pid))
  }

  /** open succeeds exactly when the path can be opened and one of the descriptors from 3 on is free. Then the lowest of
      those is in use for what the path names, a file from its start on, and all others are as before; the framebuffer
      gets its owner and its lock exactly when it is opened. A failing open changes nothing. */
  lemma OpenTakesLowest(s: System, capacity: nat, target: Target, available: bool)
    requires Inv(s, capacity) && InCall(s)
    ensures var (t, fd) := Opened(s, target, available);
            var p := Current(s);
            && (fd != 0xFFFF_FFFF <==>
                  CanOpen(s, target, available) && exists k | 3 <= k < |p.fds| :: !p.fds[k].inUse)
            && (fd == 0xFFFF_FFFF ==> t == s)
            && (fd != 0xFFFF_FFFF ==>
                  && 3 <= fd < |p.fds| && !p.fds[fd].inUse && (forall k | 3 <= k < fd :: p.fds[k].inUse)
                  && OnlyFds(s, t) && OtherFdsKept(s, t, fd) && Current(t).fds[fd].inUse
                  && (target.Device? ==> Current(t).fds[fd].kind == target.kind)
                  && (target.Stored? ==> Current(t).fds[fd] == Fd(true, File, target.data, target.size, 0))
                  && (t.owner, t.locked)
                     == (if target == Device(Framebuffer) then (p.pid, true) else (s.owner, s.locked)))
  {
    hide RingOk, AllRegistered, OwnerOk, CallerOk, SlotsOk, FdOk;
    OneSlot(s.table.slots, s.table.current);
    var p := Current(s);
    if k :| 3 <= k < |p.fds| && !p.fds[k].inUse {
      assert FirstFree(p.fds, 3) <= k;
    }
  }

  /** Descriptors are used again: what is opened after a close gets the lowest descriptor that was free or is free
      now. */
  lemma CloseThenOpen(s: System, capacity: nat, fd: word, target: Target, available: bool)
    requires Inv(s, capacity) && InCall(s) && Closed(s, fd).1 == 0
    requires CanOpen(Closed(s, fd).0, target, available)
    ensures var again := Opened(Closed(s, fd).0, target, available).1;
            3 <= again <= fd && (forall k | 3 <= k < again :: Current(s).fds[k].inUse)
            && (again == fd || !Current(s).fds[again].inUse)
  {
    hide RingOk, AllRegistered, OwnerOk, CallerOk, Closed, Opened, HoldsFramebuffer, CanOpen, SlotsOk;
    CloseKeeps(s, capacity, fd);
    CloseFrees(s, capacity, fd);
    var t := Closed(s, fd).0;
    OpenTakesLowest(t, capacity, target, available);
    assert !Current(t).fds[fd].inUse;
  }

  /** Opening and then closing is as if nothing had happened. */
  lemma OpenThenClose(s: System, capacity: nat, target: Target, available: bool)
    requires Inv(s, capacity) && InCall(s) && Opened(s, target, available).1 != 0xFFFF_FFFF
    requires target.Device? ==> target.kind in {Console, Null, Framebuffer, Mouse}
    ensures var (t, fd) := Opened(s, target, available); Closed(t, fd) == (s, 0)
  {
    hide RingOk, AllRegistered, Closed, Opened, HoldsFramebuffer, SlotsOk;
    OpenKeeps(s, capacity, target, available);
    OpenTakesLowest(s, capacity, target, available);
    var (t, fd) := Opened(s, target, available);
    CloseFrees(t, capacity, fd);
    var u := Closed(t, fd).0;
    CloseKeeps(t, capacity, fd);
    FreeIsFree(s, u, capacity, fd);
    assert Current(u).fds == Current(s).fds;
    assert u.table.slots == s.table.slots;
  }

  lemma FreeIsFree(s: System, u: System, capacity: nat, fd: nat)
    requires Inv(s, capacity) && InCall(s) && Inv(u, capacity) && InCall(u)
    requires fd < |Current(s).fds| && fd < |Current(u).fds| && !Current(s).fds[fd].inUse && !Current(u).fds[fd].inUse
    ensures Current(s).fds[fd] == Current(u).fds[fd]
  {
    hide RingOk, AllRegistered, OwnerOk, CallerOk;
    OneSlot(s.table.slots, s.table.current);
    OneSlot(u.table.slots, u.table.current);
    assert FdOk(Current(s).fds[fd]) && FdOk(Current(u).fds[fd]);
  }

  /** Reading moves the offset of one open file, and of nothing else. */
  lemma AdvanceMoves(s: System, fd: word, count: nat)
    requires HasCurrent(s) && fd < |Current(s).fds| && Current(s).fds[fd].inUse && Current(s).fds[fd].kind == File
    requires Current(s).fds[fd].offset + count <= Current(s).fds[fd].size
    ensures var t := Advanced(s, fd, count);
            && OnlyFds(s, t) && OtherFdsKept(s, t, fd) && (t.owner, t.locked) == (s.owner, s.locked)
            && Current(t).fds[fd].offset == Current(s).fds[fd].offset + count
            && Current(t).fds[fd] == Current(s).fds[fd].(offset := Current(t).fds[fd].offset)
  {
  }

  /** After exit the process is over, with its code and without descriptors; the framebuffer is given up if it was its
      own; of the other processes at most the states change, between ready and running. */
  lemma ExitEnds(s: System, capacity: nat, code: word)
    requires Inv(s, capacity) && InCall(s)
    ensures var t := Left(s, code);
            var (p, q) := (Current(s), t.table.slots[s.table.current]);
            && |t.table.slots| == |s.table.slots| && t.table.current == s.table.current
            && q.state == Exited && q.exitCode == code && (forall k | 0 <= k < |q.fds| :: !q.fds[k].inUse)
            && q == p.(state := q.state, exitCode := q.exitCode, fds := q.fds)
            && (t.owner, t.locked) == (if HoldsFramebuffer(p) then (0, false) else (s.owner, s.locked))
            && forall i | 0 <= i < |s.table.slots| && i != s.table.current ::
                 t.table.slots[i] == s.table.slots[i].(state := t.table.slots[i].state)
  {
    hide AllRegistered, SlotsOk, Yielded;
    var i, p := s.table.current, Current(s);
    var q := p.(fds := NO_FDS, state := Exited, exitCode := code);
    RingStays(s.ring, s.table.slots, i, q) by { RingKnows(s, capacity); }
    YieldKeeps(s.ring, s.table.slots[i := q]);
    if HoldsFramebuffer(p) {
      OwnerIs(s, i);
    }
  }

  lemma RingKnows(s: System, capacity: nat)
    requires Inv(s, capacity)
    ensures RingOk(s.ring, s.table.slots) && AllRegistered(s.ring, s.table.slots)
  {
  }

  /** A successful exec takes the first reusable slot for a new process: it has the next pid, runs at the entry in its
      regions, has descriptors 0 to 2 on the console and no others, and both current processes are it. Nothing else
      changes but the ring and the pid counter. */
  lemma ExecStarts(s: System, name: seq<byte>, entry: word, r: Regions, capacity: nat)
    requires RingOk(s.ring, s.table.slots) && |s.table.slots| <= capacity
    requires exists i | 0 <= i < |s.table.slots| :: Reusable(s.table.slots[i])
    ensures var t := Executed(s, name, entry, r, capacity).0;
            var i := t.table.current;
            && 0 <= i < |s.table.slots| == |t.table.slots|
            && s.table.slots[i].state in {Unused, Exited}
            && (forall j | 0 <= j < i :: s.table.slots[j].state !in {Unused, Exited})
            && t.table.slots == s.table.slots[i := t.table.slots[i]]
            && t.ring.current == i && i in t.ring.members && s.ring.members <= t.ring.members
            && t.table.nextPid == (s.table.nextPid + 1) % 0x1_0000_0000 && (t.owner, t.locked) == (s.owner, s.locked)
            && var p := t.table.slots[i];
            && p.pid == s.table.nextPid && p.state == Running && p.entry == entry && p.regions == r && p.exitCode == 0
            && p.name == (if |name| <= 31 then name else name[..31]) && |p.fds| == 8
            && (forall k | 0 <= k < 3 :: p.fds[k].inUse && p.fds[k].kind == Console)
            && (forall k | 3 <= k < 8 :: !p.fds[k].inUse)
  {
    hide Registered, Selected;
    var i := FirstReusable(s.table.slots, 0);
    RegisterNeverDrops(s.ring, s.table.slots, i, capacity);
    SelectKeeps(Registered(s.ring, i, capacity), s.table.slots, i);
  }

  /** The ring from the place after its index on, all the way around. */
  function Ahead(r: Ring): (s: seq<nat>)
    requires r.index < |r.members|
    ensures |s| == |r.members|
  {
    r.members[r.index + 1..] + r.members[..r.index + 1]
  }

  lemma AheadAt(r: Ring, d: nat)
    requires r.index < |r.members| && 1 <= d <= |r.members|
    ensures Ahead(r)[d - 1] == r.members[Place(r, d)]
  {
    SmallSum(r.index + d, |r.members|);
  }

  /** A yield chooses the first live process after the ring index, going forward around the ring. It runs; the one that
      was running before waits; nobody else is touched. */
  lemma YieldChoosesNext(r: Ring, slots: seq<Process>)
    requires RingOk(r, slots) && exists p | p in r.members :: Runnable(slots, p)
    ensures r.index < |r.members|
    ensures var (r', slots') := Yielded(r, slots);
            && r'.members == r.members && |slots'| == |slots| && 0 <= r'.current < |slots|
            && (exists d | 0 <= d < |r.members| ::
                  && Ahead(r)[d] == r'.current && Live(slots[r'.current])
                  && forall e | 0 <= e < d :: !Runnable(slots, Ahead(r)[e]))
            && slots'[r'.current] == slots[r'.current].(state := Running)
            && (r'.current != r.current && slots[r.current].state == Running ==>
                  slots'[r.current] == slots[r.current].(state := Ready))
            && forall i | 0 <= i < |slots| && i != r.current && i != r'.current :: slots'[i] == slots[i]
  {
    hide Place, Ahead;
    var p :| p in r.members && Runnable(slots, p);
    var k :| 0 <= k < |r.members| && r.members[k] == p;
    var s := StepTo(r, k);
    var d := NextStep(r, slots, 1);
    assert d <= s;
    AheadAt(r, d);
    forall e | 0 <= e < d - 1
      ensures !Runnable(slots, Ahead(r)[e])
    {
      AheadAt(r, e + 1);
    }
  }

  /** After an exit the first live process ahead in the ring is chosen, the one that is leaving left aside. */
  lemma ExitChoosesNext(s: System, capacity: nat, code: word)
    requires Inv(s, capacity) && InCall(s)
    requires exists p | p in s.ring.members :: p != s.table.current && Runnable(s.table.slots, p)
    ensures s.ring.index < |s.ring.members|
    ensures var t := Left(s, code);
            && 0 <= t.ring.current < |s.table.slots| && t.ring.current != s.table.current
            && (exists d | 0 <= d < |s.ring.members| ::
                  && Ahead(s.ring)[d] == t.ring.current && Live(s.table.slots[t.ring.current])
                  && forall e | 0 <= e < d ::
                       Ahead(s.ring)[e] == s.table.current || !Runnable(s.table.slots, Ahead(s.ring)[e]))
            && t.table.slots[t.ring.current].state == Running
  {
    hide AllRegistered, SlotsOk, Yielded, Ahead, OwnerOk, CallerOk;
    var i, p := s.table.current, Current(s);
    var q := p.(fds := NO_FDS, state := Exited, exitCode := code);
    var slots := s.table.slots[i := q];
    RingStays(s.ring, s.table.slots, i, q) by { RingKnows(s, capacity); }
    var other :| other in s.ring.members && other != i && Runnable(s.table.slots, other);
    assert Runnable(slots, other);
    YieldChoosesNext(s.ring, slots);
  }

  /** With nobody live a yield changes nothing. */
  lemma YieldWithNobody(r: Ring, slots: seq<Process>)
    requires RingOk(r, slots) && forall p | p in r.members :: !Runnable(slots, p)
    ensures Yielded(r, slots) == (r, slots)
  {
  }
}
