/** The round-robin ring of src/kernel/scheduler.c over the process slots. */
module Scheduler {
  import opened Processes

  /** Registered slots in order, the ring index, and the chosen slot (-1 before the first registration). */
  datatype Ring = Ring(members: seq<nat>, index: nat, current: int)

  const NO_RING: Ring := Ring([], 0, -1)

  /** scheduler_register, for a ring that can hold capacity slots. */
  function Registered(r: Ring, p: nat, capacity: nat): Ring {
    if p in r.members then r
    else
      var members := if |r.members| < capacity then r.members + [p] else r.members;
      if r.current == -1 then Ring(members, 0, p) else Ring(members, r.index, r.current)
  }

  /** The first place of a slot in the ring at or after from, or the number of members. */
  function Find(members: seq<nat>, p: nat, from: nat): (k: nat)
    requires from <= |members|
    ensures from <= k <= |members|
    ensures k < |members| ==> members[k] == p
    ensures k == |members| ==> p !in members[from..]
    decreases |members| - from
  {
    if from == |members| || members[from] == p then from else Find(members, p, from + 1)
  }

  /** scheduler_set_current. */
  function Selected(r: Ring, p: nat): Ring {
    var k := Find(r.members, p, 0);
    Ring(r.members, if k < |r.members| then k else r.index, p)
  }

  /** The place a number of steps after the ring index. */
  function Place(r: Ring, step: nat): (k: nat)
    requires |r.members| > 0
    ensures k < |r.members|
  {
    (r.index + step) % |r.members|
  }

  predicate InSlots(r: Ring, slots: seq<Process>) {
    (forall k | 0 <= k < |r.members| :: r.members[k] < |slots|) && -1 <= r.current < |slots|
  }

  predicate Runnable(slots: seq<Process>, p: nat) {
    p < |slots| && Live(slots[p])
  }

  /** The first step from a given one at which the ring holds a live process, or one more than the number of members. */
  function NextStep(r: Ring, slots: seq<Process>, step: nat): (s: nat)
    requires 1 <= step <= |r.members| + 1
    ensures step <= s <= |r.members| + 1
    ensures s <= |r.members| ==> Runnable(slots, r.members[Place(r, s)])
    ensures forall j | step <= j < s :: !Runnable(slots, r.members[Place(r, j)])
    decreases |r.members| - step
  {
    if step == |r.members| + 1 || Runnable(slots, r.members[Place(r, step)]) then step else NextStep(r, slots, step + 1)
  }

  function Demoted(p: Process): Process {
    if p.state == Running then p.(state := Ready) else p
  }

  function Promoted(p: Process): Process {
    if p.state == Ready then p.(state := Running) else p
  }

  /** Hand over from one slot to another. */
  function Switched(slots: seq<Process>, from: nat, to: nat): (s: seq<Process>)
    requires from < |slots| && to < |slots|
    ensures |s| == |slots|
  {
    var demoted := slots[from := Demoted(slots[from])];
    demoted[to := Promoted(demoted[to])]
  }

  /** scheduler_yield. */
  function Yielded(r: Ring, slots: seq<Process>): (Ring, seq<Process>)
    requires InSlots(r, slots)
  {
    if |r.members| == 0 || r.current == -1 then (r, slots)
    else
      var step := NextStep(r, slots, 1);
      if step > |r.members| then (r, slots)
      else
        var k := Place(r, step);
        (Ring(r.members, k, r.members[k]), Switched(slots, r.current, r.members[k]))
  }

  class RoundRobin {
    const ring: array<nat>
    var count: nat
    var index: nat
    var current: int
    const table: ProcessTable

    ghost predicate Valid()
      reads this
    {
      count <= ring.Length && ring as object != table.slots
    }

    function View(): Ring
      requires Valid()
      reads this, ring
    {
      Ring(ring[..count], index, current)
    }

    /** scheduler_initialize. */
    constructor (capacity: nat, table: ProcessTable)
      ensures fresh(ring) && Valid() && View() == NO_RING && this.table == table && ring.Length == capacity
    {
      this.table := table;
      ring := new nat[capacity];
      count, index, current := 0, 0, -1;
      new;
    }

    method Register(p: nat)
      requires Valid()
      modifies this`count, this`index, this`current, ring
      ensures Valid() && View() == Registered(old(View()), p, ring.Length)
    {
      for k := 0 to count
        invariant Valid() && View() == old(View()) && count == old(count) && p !in ring[..k]
        invariant unchanged(this)
      {
        if ring[k] == p {
          assert p in ring[..count];
          return;
        }
      }
      if count < ring.Length {
        ring[count] := p;
        count := count + 1;
        assert ring[..count] == old(ring[..count]) + [p];
      }
      if current == -1 {
        index := 0;
        current := p;
      }
    }

    method SetCurrent(p: nat)
      requires Valid()
      modifies this`index, this`current
      ensures Valid() && View() == Selected(old(View()), p)
    {
      current := p;
      for k := 0 to count
        invariant Valid() && index == old(index) && current == p
        invariant Find(ring[..count], p, 0) == Find(ring[..count], p, k)
      {
        if ring[k] == p {
          index := k;
          break;
        }
      }
    }

    method Yield() returns (chosen: int)
      requires Valid() && InSlots(View(), table.slots[..])
      modifies this`index, this`current, table.slots
      ensures Valid() && (View(), table.slots[..]) == Yielded(old(View()), old(table.slots[..]))
      ensures chosen == current
    {
      if count == 0 || current == -1 {
        return current;
      }
      ghost var r, slots := View(), table.slots[..];
      for step := 1 to count + 1
        invariant Valid() && View() == r && table.slots[..] == slots && count == |r.members|
        invariant NextStep(r, slots, 1) == NextStep(r, slots, step)
      {
        var k := (index + step) % count;
        assert k == Place(r, step);
        var candidate := ring[k];
        assert candidate == r.members[k];
        if table.slots[candidate].state != Unused && table.slots[candidate].state != Exited {
          if table.slots[current].state == Running {
            table.slots[current] := table.slots[current].(state := Ready);
          }
          assert table.slots[..] == slots[r.current := Demoted(slots[r.current])];
          index := k;
          current := candidate;
          if table.slots[current].state == Ready {
            table.slots[current] := table.slots[current].(state := Running);
          }
          assert table.slots[..] == Switched(slots, r.current, candidate);
          break;
        }
      }
      return current;
    }
  }
}
