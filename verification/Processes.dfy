/** The process slots of src/kernel/process.c. */
module Processes {
  import opened Machine
  import opened UserMemory

  const FD_MAX: nat := 8
  const NAME_MAX: nat := 31

  datatype FdKind = NoKind | Console | File | Null | Framebuffer | Mouse
  datatype Fd = Fd(inUse: bool, kind: FdKind, data: word, size: word, offset: word)
  datatype State = Unused | Ready | Running | Exited

  const FREE_FD: Fd := Fd(false, NoKind, 0, 0, 0)
  const CONSOLE_FD: Fd := Fd(true, Console, 0, 0, 0)
  const NO_FDS: seq<Fd> := [FREE_FD, FREE_FD, FREE_FD, FREE_FD, FREE_FD, FREE_FD, FREE_FD, FREE_FD]
  const FIRST_FDS: seq<Fd> := [CONSOLE_FD, CONSOLE_FD, CONSOLE_FD, FREE_FD, FREE_FD, FREE_FD, FREE_FD, FREE_FD]

  datatype Process = Process(pid: word, state: State, regions: Regions, entry: word, exitCode: word, name: seq<byte>,
                             fds: seq<Fd>)

  const NO_PROCESS: Process := Process(0, Unused, Regions(0, 0, 0, 0), 0, 0, [], NO_FDS)

  predicate Live(p: Process) {
    p.state == Ready || p.state == Running
  }

  predicate Reusable(p: Process) {
    p.state == Unused || p.state == Exited
  }

  /** The slots, the current one (-1 for none) and the pid counter. */
  datatype Table = Table(slots: seq<Process>, current: int, nextPid: word)

  /** The first reusable slot at or after from, or the number of slots. */
  function FirstReusable(slots: seq<Process>, from: nat): (i: nat)
    requires from <= |slots|
    ensures from <= i <= |slots|
    ensures forall j | from <= j < i :: !Reusable(slots[j])
    ensures i < |slots| ==> Reusable(slots[i])
    decreases |slots| - from
  {
    if from == |slots| || Reusable(slots[from]) then from else FirstReusable(slots, from + 1)
  }

  function NewProcess(pid: word, name: seq<byte>, entry: word, r: Regions): Process {
    Process(pid, Ready, r, entry, 0, name[..Min(|name|, NAME_MAX)], FIRST_FDS)
  }

  /** process_create: the first reusable slot becomes a new process; -1 when there is none. */
  function Created(t: Table, name: seq<byte>, entry: word, r: Regions): (Table, int) {
    var i: int := FirstReusable(t.slots, 0);
    if i == |t.slots| then (t, -1)
    else (Table(t.slots[i := NewProcess(t.nextPid, name, entry, r)], t.current, Wrap(t.nextPid + 1)), i)
  }

  class ProcessTable {
    const slots: array<Process>
    var current: int
    var nextPid: word

    function View(): Table
      reads this, slots
    {
      Table(slots[..], current, nextPid)
    }

    /** process_initialize. */
    constructor (n: nat)
      ensures fresh(slots) && View() == Table(seq(n, _ => NO_PROCESS), -1, 1)
    {
      slots := new Process[n](_ => NO_PROCESS);
      current, nextPid := -1, 1;
      new;
      assert slots[..] == seq(n, _ => NO_PROCESS);
    }

    method Create(name: seq<byte>, entry: word, r: Regions) returns (i: int)
      modifies this, slots
      ensures (View(), i) == Created(old(View()), name, entry, r)
    {
      i := 0;
      while i < slots.Length && !Reusable(slots[i])
        invariant 0 <= i <= slots.Length
        invariant unchanged(this) && unchanged(slots)
        invariant FirstReusable(slots[..], 0) == FirstReusable(slots[..], i)
      {
        i := i + 1;
      }
      if i == slots.Length {
        return -1;
      }
      slots[i] := NewProcess(nextPid, name, entry, r);
      nextPid := Wrap(nextPid + 1);
    }

    /** process_reset_fds. */
    method ResetFds(i: int)
      requires -1 <= i < slots.Length
      modifies slots
      ensures View() == if i < 0 then old(View()) else
                          old(View()).(slots := old(slots[..])[i := old(slots[i]).(fds := FIRST_FDS)])
    {
      if i >= 0 {
        slots[i] := slots[i].(fds := FIRST_FDS);
      }
    }

    method MarkRunning(i: int)
      requires -1 <= i < slots.Length
      modifies this`current, slots
      ensures View() == if i < 0 then old(View()) else
                          old(View()).(slots := old(slots[..])[i := old(slots[i]).(state := Running)], current := i)
    {
      if i >= 0 {
        slots[i] := slots[i].(state := Running);
        current := i;
      }
    }

    method MarkExited(i: int, code: word)
      requires -1 <= i < slots.Length
      modifies slots
      ensures View() == if i < 0 then old(View()) else
                          old(View()).(slots := old(slots[..])[i := old(slots[i]).(state := Exited, exitCode := code)])
    {
      if i >= 0 {
        slots[i] := slots[i].(state := Exited, exitCode := code);
      }
    }
  }
}
