/** Whole runs of system calls and of exec (src/kernel/syscall.c, src/kernel/process.c, src/kernel/exec.c): what they
    keep, and when the lock on the terminal can go wrong. */
module Runs {
  import opened Machine
  import opened UserMemory
  import opened Processes
  import opened Scheduler
  import opened Fairness
  import opened Ownership

  datatype Event =
    | Exec(name: seq<byte>, entry: word, regions: Regions)
    | Open(target: Target, available: bool)
    | Close(fd: word)
    | Read(readFd: word, count: nat)
    | Yield
    | Exit(code: word)

  function Step(s: System, e: Event, capacity: nat): System {
    match e
    case Exec(name, entry, regions) => Executed(s, name, entry, regions, capacity).0
    case Open(target, available) => Opened(s, target, available).0
    case Close(fd) => Closed(s, fd).0
    case Read(fd, count) => Advanced(s, fd, count)
    case Yield => YieldedSystem(s)
    case Exit(code) => Left(s, code)
  }

  /** System calls come from a live process, and devices are the four there are. Nothing is asked of exec. */
  predicate Possible(s: System, e: Event) {
    e.Exec? || (InCall(s) && (e.Open? && e.target.Device? ==> e.target.kind in {Console, Null, Framebuffer, Mouse}))
  }

  /** The guard on exec that can be checked before it: no free slot, or a next pid that is not the owner's. */
  predicate ExecIsSafe(s: System) {
    FirstReusable(s.table.slots, 0) == |s.table.slots| || s.table.nextPid != s.owner
  }

  predicate Enabled(s: System, e: Event) {
    Possible(s, e) && (e.Exec? ==> ExecIsSafe(s))
  }

  function Run(s: System, events: seq<Event>, capacity: nat): System
    decreases |events|
  {
    if events == [] then s else Run(Step(s, events[0], capacity), events[1..], capacity)
  }

  predicate RunPossible(s: System, events: seq<Event>, capacity: nat)
    decreases |events|
  {
    events == [] || (Possible(s, events[0]) && RunPossible(Step(s, events[0], capacity), events[1..], capacity))
  }

  predicate RunEnabled(s: System, events: seq<Event>, capacity: nat)
    decreases |events|
  {
    events == [] || (Enabled(s, events[0]) && RunEnabled(Step(s, events[0], capacity), events[1..], capacity))
  }

  lemma InitialIsSound(n: nat, capacity: nat)
    requires n <= capacity
    ensures Inv(Initial(n), capacity) && PidsOk(Initial(n).table.slots)
    ensures OneRunning(Initial(n).ring, Initial(n).table.slots)
  {
    NobodyHolds(NO_PROCESS);
  }

  // ---- what every run keeps ----

  lemma StepKeeps(s: System, e: Event, capacity: nat)
    requires Inv(s, capacity) && Enabled(s, e)
    ensures Inv(Step(s, e, capacity), capacity) && s.ring.members <= Step(s, e, capacity).ring.members
  {
    hide Inv, Opened, Closed, Advanced, Left, YieldedSystem, Executed;
    RingGrows(s, e, capacity);
    match e {
      case Exec(name, entry, regions) =>
        SafeExec(s, name, entry, regions, capacity);
        ExecKeepsIff(s, capacity, name, entry, regions);
      case Open(target, available) => OpenKeeps(s, capacity, target, available);
      case Close(fd) => CloseKeeps(s, capacity, fd);
      case Read(fd, count) => AdvanceKeeps(s, capacity, fd, count);
      case Yield => YieldKeepsInv(s, capacity);
      case Exit(code) => ExitKeeps(s, capacity, code);
    }
  }

  lemma SafeExec(s: System, name: seq<byte>, entry: word, r: Regions, capacity: nat)
    ensures ExecIsSafe(s) <==> !Executed(s, name, entry, r, capacity).1 || s.table.nextPid != s.owner
  {
  }

  lemma RingGrows(s: System, e: Event, capacity: nat)
    requires Inv(s, capacity) && Enabled(s, e)
    ensures s.ring.members <= Step(s, e, capacity).ring.members
  {
    hide Inv, Registered, Selected;
    if e.Exec? {
      ExecKeepsIff(s, capacity, e.name, e.entry, e.regions);
    }
  }

  /** Over every run in which exec is safe the system stays sound, and nobody leaves the ring. */
  lemma {:induction false} RunKeeps(s: System, events: seq<Event>, capacity: nat)
    requires Inv(s, capacity) && RunEnabled(s, events, capacity)
    ensures Inv(Run(s, events, capacity), capacity) && s.ring.members <= Run(s, events, capacity).ring.members
    decreases |events|
  {
    hide Inv, Step, Enabled;
    if events != [] {
      StepKeeps(s, events[0], capacity);
      RunKeeps(Step(s, events[0], capacity), events[1..], capacity);
    }
  }

  /** Any such run from power-on: locked, owned, and held by exactly one live process are the same. */
  lemma LockOverRuns(n: nat, events: seq<Event>, capacity: nat)
    requires n <= capacity && RunEnabled(Initial(n), events, capacity)
    ensures Inv(Run(Initial(n), events, capacity), capacity) && LockOk(Run(Initial(n), events, capacity))
  {
    hide Run, RunEnabled, LockOk, Inv;
    InitialIsSound(n, capacity);
    RunKeeps(Initial(n), events, capacity);
    LockMeansOneHolder(Run(Initial(n), events, capacity), capacity);
  }

  // ---- while the pid counter has not come around ----

  /** Processes made so far, as long as they are fewer than 2^32. */
  function Made(s: System): nat {
    if s.table.nextPid == 0 then TWO32 - 1 else s.table.nextPid - 1
  }

  function Execs(events: seq<Event>): nat
    decreases |events|
  {
    if events == [] then 0 else (if events[0].Exec? then 1 else 0) + Execs(events[1..])
  }

  /** Every live process has a pid of its own among those given out. */
  predicate PidsFresh(s: System) {
    PidsOk(s.table.slots) && forall i | 0 <= i < |s.table.slots| && Live(s.table.slots[i]) ::
          s.table.slots[i].pid <= Made(s)
  }

  lemma OwnerIsOld(s: System, capacity: nat)
    requires Inv(s, capacity) && PidsFresh(s)
    ensures s.owner <= Made(s)
  {
    hide RingOk, AllRegistered, HoldsFramebuffer;
    if s.owner != 0 {
      var i :| 0 <= i < |s.table.slots| && HoldsFramebuffer(s.table.slots[i]);
      HolderIsLive(s.table.slots[i]);
    }
  }

  lemma StepKeepsFresh(s: System, e: Event, capacity: nat)
    requires Inv(s, capacity) && Possible(s, e) && PidsFresh(s) && (e.Exec? ==> Made(s) < TWO32 - 1)
    ensures PidsFresh(Step(s, e, capacity)) && Made(Step(s, e, capacity)) <= Made(s) + (if e.Exec? then 1 else 0)
  {
    hide Inv;
    if e.Exec? {
      ExecKeepsFresh(s, e.name, e.entry, e.regions, capacity);
    } else {
      CallKeepsPids(s, e, capacity);
    }
  }

  lemma ExecKeepsFresh(s: System, name: seq<byte>, entry: word, r: Regions, capacity: nat)
    requires PidsFresh(s) && Made(s) < TWO32 - 1
    ensures var t := Executed(s, name, entry, r, capacity).0; PidsFresh(t) && Made(t) <= Made(s) + 1
  {
    hide Executed;
    ExecFindsSlot(s, name, entry, r, capacity);
    if Executed(s, name, entry, r, capacity).1 {
      NewInCall(s, name, entry, r, capacity);
      ExecKeepsPidsIff(s, name, entry, r, capacity);
    }
  }

  /** System calls give nobody a pid and wake nobody up. */
  lemma CallKeepsPids(s: System, e: Event, capacity: nat)
    requires Inv(s, capacity) && !e.Exec?
    ensures SamePids(s, Step(s, e, capacity))
  {
    hide Inv, Opened, Closed, Advanced, YieldedSystem, Left;
    match e {
      case Exec(_, _, _) =>
      case Open(target, available) => DescriptorsKeepPids(s, target, available, 0, 0);
      case Close(fd) => DescriptorsKeepPids(s, BadPath, false, fd, 0);
      case Read(fd, count) => DescriptorsKeepPids(s, BadPath, false, fd, count);
      case Yield => YieldKeepsPids(s, capacity);
      case Exit(code) => ExitKeepsPids(s, capacity, code);
    }
  }

  /** The same processes, none of them newly live. */
  predicate SamePids(s: System, t: System) {
    && t.table.nextPid == s.table.nextPid && |t.table.slots| == |s.table.slots|
    && forall i | 0 <= i < |s.table.slots| ::
         t.table.slots[i].pid == s.table.slots[i].pid && (Live(t.table.slots[i]) ==> Live(s.table.slots[i]))
  }

  lemma DescriptorsKeepPids(s: System, target: Target, available: bool, fd: word, count: nat)
    ensures SamePids(s, Opened(s, target, available).0)
    ensures SamePids(s, Closed(s, fd).0)
    ensures SamePids(s, Advanced(s, fd, count))
  {
    hide HoldsFramebuffer, FirstFree;
  }

  lemma YieldKeepsPids(s: System, capacity: nat)
    requires Inv(s, capacity)
    ensures SamePids(s, YieldedSystem(s))
  {
    hide Yielded, AllRegistered, OwnerOk, SlotsOk;
    YieldKeeps(s.ring, s.table.slots);
  }

  lemma ExitKeepsPids(s: System, capacity: nat, code: word)
    requires Inv(s, capacity)
    ensures SamePids(s, Left(s, code))
  {
    hide Yielded, AllRegistered, OwnerOk, SlotsOk;
    YieldKeeps(s.ring, s.table.slots);
    if HasCurrent(s) {
      var q := Current(s).(fds := NO_FDS, state := Exited, exitCode := code);
      YieldKeeps(s.ring, s.table.slots[s.table.current := q]);
    }
  }

  /** Fewer than 2^32 processes since power-on need no guard on exec: it is safe each time, and live processes have
      different pids. */
  lemma {:induction false} UnwrappedRuns(s: System, events: seq<Event>, capacity: nat)
    requires Inv(s, capacity) && PidsFresh(s) && RunPossible(s, events, capacity)
             && Made(s) + Execs(events) <= TWO32 - 1
    ensures RunEnabled(s, events, capacity) && PidsFresh(Run(s, events, capacity))
    decreases |events|
  {
    hide Inv, Step, PidsFresh, InCall, Made;
    if events != [] {
      var e := events[0];
      OwnerIsOld(s, capacity);
      if e.Exec? {
        MadeIsSafe(s);
      }
      StepKeeps(s, e, capacity);
      StepKeepsFresh(s, e, capacity);
      UnwrappedRuns(Step(s, e, capacity), events[1..], capacity);
    }
  }

  lemma MadeIsSafe(s: System)
    requires s.owner <= Made(s) < TWO32 - 1
    ensures ExecIsSafe(s)
  {
  }

  // ---- and when it has ----

  /** Pairs of exec and exit. */
  function Cycles(n: nat, r: Regions): seq<Event> {
    if n == 0 then [] else [Exec([], 0, r), Exit(0)] + Cycles(n - 1, r)
  }

  /** How far the pid counter is from the owner. */
  function Distance(s: System): nat {
    Wrap(s.owner - s.table.nextPid)
  }

  predicate HasSlot(s: System) {
    exists i | 0 <= i < |s.table.slots| :: Reusable(s.table.slots[i])
  }

  /** A process that comes and goes turns the pid counter by one and leaves the rest. */
  lemma OneCycle(s: System, r: Regions, capacity: nat)
    requires Inv(s, capacity) && HasSlot(s) && s.table.nextPid != s.owner
    ensures var e := Step(s, Exec([], 0, r), capacity);
            && Enabled(s, Exec([], 0, r)) && Enabled(e, Exit(0))
            && var t := Step(e, Exit(0), capacity);
               && Inv(t, capacity) && HasSlot(t) && t.owner == s.owner && t.table.nextPid == Wrap(s.table.nextPid + 1)
  {
    hide Inv, Executed, RingOk, InSlots, Yielded;
    SafeExec(s, [], 0, r, capacity);
    ExecFindsSlot(s, [], 0, r, capacity);
    NewInCall(s, [], 0, r, capacity);
    var e := Step(s, Exec([], 0, r), capacity);
    StepKeeps(s, Exec([], 0, r), capacity);
    StepKeeps(e, Exit(0), capacity);
    ExitFreesSlot(e, capacity);
  }

  lemma ExitFreesSlot(s: System, capacity: nat)
    requires Inv(s, capacity) && InCall(s)
    ensures HasSlot(Left(s, 0)) && Left(s, 0).table.nextPid == s.table.nextPid
    ensures s.owner != Current(s).pid ==> Left(s, 0).owner == s.owner
  {
    hide Yielded, AllRegistered, OwnerOk, SlotsOk;
    var q := Current(s).(fds := NO_FDS, state := Exited, exitCode := 0);
    var slots := s.table.slots[s.table.current := q];
    YieldKeeps(s.ring, slots);
    assert Reusable(Yielded(s.ring, slots).1[s.table.current]);
  }

  lemma {:induction false} CyclesTurnCounter(s: System, n: nat, r: Regions, capacity: nat)
    requires Inv(s, capacity) && HasSlot(s) && n <= Distance(s)
    ensures RunEnabled(s, Cycles(n, r), capacity)
    ensures var t := Run(s, Cycles(n, r), capacity);
            Inv(t, capacity) && HasSlot(t) && t.owner == s.owner && t.table.nextPid == Wrap(s.table.nextPid + n)
    decreases n
  {
    hide Inv, Step, HasSlot, Enabled, Distance;
    if n > 0 {
      var t := Step(Step(s, Exec([], 0, r), capacity), Exit(0), capacity);
      CloserByOne(s, t);
      OneCycle(s, r, capacity);
      CyclesTurnCounter(t, n - 1, r, capacity);
      assert Cycles(n, r)[1..] == [Exit(0)] + Cycles(n - 1, r);
      assert Cycles(n, r)[1..][1..] == Cycles(n - 1, r);
      WrapTwice(s.table.nextPid, n - 1);
    } else {
      WrapSelf(s.table.nextPid);
    }
  }

  lemma WrapTwice(x: word, n: nat)
    ensures Wrap(Wrap(x + 1) + n) == Wrap(x + (n + 1))
  {
  }

  lemma WrapSelf(x: word)
    ensures Wrap(x + 0) == x
  {
  }

  lemma CloserByOne(s: System, t: System)
    requires Distance(s) > 0
    ensures s.table.nextPid != s.owner
    ensures t.owner == s.owner && t.table.nextPid == Wrap(s.table.nextPid + 1) ==> Distance(t) == Distance(s) - 1
  {
  }

  lemma {:induction false} RunConcat(s: System, a: seq<Event>, b: seq<Event>, capacity: nat)
    ensures Run(s, a + b, capacity) == Run(Run(s, a, capacity), b, capacity)
    ensures RunPossible(s, a + b, capacity)
            <==> RunPossible(s, a, capacity) && RunPossible(Run(s, a, capacity), b, capacity)
    decreases |a|
  {
    hide Step, Possible;
    if a == [] {
      assert a + b == b;
    } else {
      assert (a + b)[0] == a[0] && (a + b)[1..] == a[1..] + b;
      RunConcat(Step(s, a[0], capacity), a[1..], b, capacity);
    }
  }

  lemma {:induction false} EnabledIsPossible(s: System, events: seq<Event>, capacity: nat)
    requires RunEnabled(s, events, capacity)
    ensures RunPossible(s, events, capacity)
    decreases |events|
  {
    hide Step, InCall, ExecIsSafe;
    if events != [] {
      EnabledIsPossible(Step(s, events[0], capacity), events[1..], capacity);
    }
  }

  /** Once the counter may come around, the promise about the lock can always be broken: from every sound system with a
      free slot, power-on included, there is a run of processes coming and going after which a new one has the owner's
      pid, or pid 0 while there is no owner, and opens the framebuffer. */
  lemma PromiseCanBreak(s: System, r: Regions, capacity: nat)
    requires Inv(s, capacity) && HasSlot(s)
    ensures var events := Cycles(Distance(s), r) + [Exec([], 0, r), Open(Device(Framebuffer), true)];
            RunPossible(s, events, capacity) && !LockOk(Run(s, events, capacity))
  {
    hide Inv, HasSlot, Executed, Opened, LockOk, Cycles;
    var n := Distance(s);
    var cycles, last := Cycles(n, r), [Exec([], 0, r), Open(Device(Framebuffer), true)];
    CyclesTurnCounter(s, n, r, capacity);
    EnabledIsPossible(s, cycles, capacity);
    RunConcat(s, cycles, last, capacity);
    var t := Run(s, cycles, capacity);
    WrapDistance(s.table.nextPid, s.owner);
    LastTwo(t, r, capacity);
  }

  /** The counter does come around: this run from power-on leads to the next pid being 0, without an owner. */
  lemma CounterComesAround(n: nat, r: Regions, capacity: nat)
    requires 1 <= n <= capacity
    ensures RunEnabled(Initial(n), Cycles(TWO32 - 1, r), capacity)
    ensures var t := Run(Initial(n), Cycles(TWO32 - 1, r), capacity); t.table.nextPid == 0 && t.owner == 0 && HasSlot(t)
  {
    hide Run, RunEnabled, Cycles, Inv;
    InitialIsSound(n, capacity);
    assert Reusable(Initial(n).table.slots[0]);
    CyclesTurnCounter(Initial(n), TWO32 - 1, r, capacity);
  }

  /** The two current processes come apart: after the second of two execs and a yield the scheduler has chosen the first
      process, while system calls act for the second. */
  lemma CurrentsComeApart(n: nat, r: Regions, capacity: nat)
    requires 2 <= n <= capacity
    ensures var events := [Exec([], 0, r), Exec([], 0, r), Yield];
            && RunEnabled(Initial(n), events, capacity)
            && var t := Run(Initial(n), events, capacity); t.ring.current == 0 && t.table.current == 1
  {
    hide Executed, YieldedSystem;
    var e := Exec([], 0, r);
    var a := Step(Initial(n), e, capacity);
    var b := Step(a, e, capacity);
    var t := Step(b, Yield, capacity);
    TwoStarted(n, r, capacity);
    YieldOfTwo(b);
    var events := [e, e, Yield];
    assert events[1..] == [e, Yield] && [e, Yield][1..] == [Yield] && [Yield][1..] == [];
    assert Run(b, [Yield], capacity) == t && Run(a, [e, Yield], capacity) == t;
    assert RunEnabled(b, [Yield], capacity) && RunEnabled(a, [e, Yield], capacity);
  }

  lemma TwoStarted(n: nat, r: Regions, capacity: nat)
    requires 2 <= n <= capacity
    ensures var a := Executed(Initial(n), [], 0, r, capacity).0;
            var b := Executed(a, [], 0, r, capacity).0;
            && Initial(n).owner == 0 != Initial(n).table.nextPid && a.owner == 0 != a.table.nextPid
            && b.ring == Ring([0, 1], 1, 1) && b.table.current == 1
            && |b.table.slots| == n && Live(b.table.slots[0]) && Live(b.table.slots[1])
  {
    var s := Initial(n);
    assert FirstReusable(s.table.slots, 0) == 0;
    var a := Executed(s, [], 0, r, capacity).0;
    assert a.ring == Ring([0], 0, 0) && Live(a.table.slots[0]) && a.table.slots[1] == NO_PROCESS;
    assert FirstReusable(a.table.slots, 0) == 1;
    assert [0] + [1] == [0, 1] && Find([0, 1], 1, 0) == 1;
  }

  lemma YieldOfTwo(b: System)
    requires b.ring == Ring([0, 1], 1, 1) && |b.table.slots| >= 2 && Live(b.table.slots[0])
    ensures YieldedSystem(b).ring.current == 0 && YieldedSystem(b).table.current == b.table.current
  {
    assert NextStep(b.ring, b.table.slots, 1) == 1;
  }

  lemma WrapDistance(x: word, y: word)
    ensures Wrap(x + Wrap(y - x)) == y
  {
  }

  lemma LastTwo(t: System, r: Regions, capacity: nat)
    requires Inv(t, capacity) && HasSlot(t) && t.table.nextPid == t.owner
    ensures var last := [Exec([], 0, r), Open(Device(Framebuffer), true)];
            RunPossible(t, last, capacity) && !LockOk(Run(t, last, capacity))
  {
    hide Inv, Executed, Opened, LockOk;
    ExecFindsSlot(t, [], 0, r, capacity);
    ExecThenOpenIff(t, capacity, [], 0, r);
    NewInCall(t, [], 0, r, capacity);
    var last := [Exec([], 0, r), Open(Device(Framebuffer), true)];
    var e := Step(t, last[0], capacity);
    assert last[1..] == [last[1]] && [last[1]][1..] == [];
    assert RunPossible(e, [last[1]], capacity);
    assert Run(e, [last[1]], capacity) == Step(e, last[1], capacity);
  }

  // ---- one running process ----

  /** Exec comes only when nothing is running, or there is no slot for it. */
  predicate Quiet(s: System, e: Event) {
    e.Exec? ==> NothingRuns(s.table.slots) || FirstReusable(s.table.slots, 0) == |s.table.slots|
  }

  predicate RunQuiet(s: System, events: seq<Event>, capacity: nat)
    decreases |events|
  {
    events == [] || (Quiet(s, events[0]) && RunQuiet(Step(s, events[0], capacity), events[1..], capacity))
  }

  lemma StepKeepsOneRunning(s: System, e: Event, capacity: nat)
    requires Inv(s, capacity) && Enabled(s, e) && Quiet(s, e) && OneRunning(s.ring, s.table.slots)
    ensures var t := Step(s, e, capacity); OneRunning(t.ring, t.table.slots)
  {
    hide Inv, Opened, Closed, Advanced, Left, Executed, InCall;
    match e {
      case Exec(name, entry, regions) =>
        QuietExec(s, name, entry, regions, capacity);
      case Open(target, available) => CallsKeepStates(s, target, available, 0, 0);
      case Close(fd) => CallsKeepStates(s, BadPath, false, fd, 0);
      case Read(fd, count) => CallsKeepStates(s, BadPath, false, fd, count);
      case Yield => YieldOneRunning(s, capacity);
      case Exit(code) => ExitKeepsOneRunning(s, capacity, code);
    }
  }

  lemma QuietExec(s: System, name: seq<byte>, entry: word, r: Regions, capacity: nat)
    requires Inv(s, capacity) && Quiet(s, Exec(name, entry, r)) && OneRunning(s.ring, s.table.slots)
    ensures var t := Executed(s, name, entry, r, capacity).0; OneRunning(t.ring, t.table.slots)
  {
    hide Inv;
    ExecFindsSlot(s, name, entry, r, capacity);
    if Executed(s, name, entry, r, capacity).1 {
      ExecKeepsOneRunningIff(s, capacity, name, entry, r);
    }
  }

  lemma YieldOneRunning(s: System, capacity: nat)
    requires Inv(s, capacity) && OneRunning(s.ring, s.table.slots)
    ensures var t := YieldedSystem(s); OneRunning(t.ring, t.table.slots)
  {
    hide Yielded;
    YieldKeepsOneRunning(s.ring, s.table.slots);
  }

  /** Over every run in which exec comes only when nothing is running, at most one process is running, the chosen
      one. */
  lemma {:induction false} RunKeepsOneRunning(s: System, events: seq<Event>, capacity: nat)
    requires Inv(s, capacity) && RunEnabled(s, events, capacity) && RunQuiet(s, events, capacity)
    requires OneRunning(s.ring, s.table.slots)
    ensures var t := Run(s, events, capacity); OneRunning(t.ring, t.table.slots)
    decreases |events|
  {
    hide Inv, Step, Enabled, Quiet, OneRunning;
    if events != [] {
      StepKeeps(s, events[0], capacity);
      StepKeepsOneRunning(s, events[0], capacity);
      RunKeepsOneRunning(Step(s, events[0], capacity), events[1..], capacity);
    }
  }
}
