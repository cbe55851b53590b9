/** What round robin promises: nobody registered is dropped, and each live process gets its turn in ring order. */
module Fairness {
  import opened Machine
  import opened Processes
  import opened Scheduler

  /** Distinct slots, and the index names the chosen one. */
  predicate RingOk(r: Ring, slots: seq<Process>) {
    && InSlots(r, slots)
    && (forall j, k | 0 <= j < k < |r.members| :: r.members[j] != r.members[k])
    && (r.current == -1 <==> r.members == [])
    && (r.members != [] ==> r.index < |r.members| && r.members[r.index] == r.current)
  }

  /** Everyone ever created is in the ring. */
  predicate AllRegistered(r: Ring, slots: seq<Process>) {
    forall i | 0 <= i < |slots| && !slots[i].state.Unused? :: i in r.members
  }

  // ---- registration ----

  lemma {:induction false} DistinctBelow(s: seq<nat>, n: nat)
    requires forall p | p in s :: p < n
    requires forall j, k | 0 <= j < k < |s| :: s[j] != s[k]
    ensures |s| <= n
    ensures |s| == n ==> forall p: nat | p < n :: p in s
    decreases n
  {
    assert s == [] || s[0] in s;
    if n > 0 {
      if n - 1 in s {
        var k :| 0 <= k < |s| && s[k] == n - 1;
        var rest := s[..k] + s[k + 1..];
        assert forall i | 0 <= i < |rest| :: rest[i] == if i < k then s[i] else s[i + 1];
        forall p | p in rest
          ensures p < n - 1
        {
          var i :| 0 <= i < |rest| && rest[i] == p;
          assert p in s && p != s[k];
        }
        DistinctBelow(rest, n - 1);
        forall p: nat | p < n && |s| == n
          ensures p in s
        {
          if p < n - 1 {
            assert p in rest;
          }
        }
      } else {
        DistinctBelow(s, n - 1);
      }
    }
  }

  /** A ring with room for all slots never drops a registration: the slot is in the ring exactly once and everyone
      registered before still is. */
  lemma RegisterNeverDrops(r: Ring, slots: seq<Process>, p: nat, capacity: nat)
    requires RingOk(r, slots) && p < |slots| <= capacity
    ensures RingOk(Registered(r, p, capacity), slots) && p in Registered(r, p, capacity).members
    ensures r.members <= Registered(r, p, capacity).members
  {
    DistinctBelow(r.members, |slots|);
  }

  /** With less room a registration can be lost, and the index then names somebody else. */
  lemma FullRingDrops()
    ensures var r := Registered(Registered(NO_RING, 0, 1), 1, 1); 1 !in r.members
    ensures Selected(Registered(Registered(NO_RING, 0, 1), 1, 1), 1) == Ring([0], 0, 1)
  {
    var r := Registered(NO_RING, 0, 1);
    assert r == Ring([0], 0, 0);
    assert Registered(r, 1, 1) == r;
    assert Find([0], 1, 1) == 1;
  }

  /** Selecting a registered slot moves the index to it. */
  lemma SelectKeeps(r: Ring, slots: seq<Process>, p: nat)
    requires RingOk(r, slots) && p in r.members
    ensures RingOk(Selected(r, p), slots) && Selected(r, p).current == p && Selected(r, p).members == r.members
  {
    assert r.members[0..] == r.members;
    assert Find(r.members, p, 0) < |r.members|;
    assert r.members[Find(r.members, p, 0)] < |slots|;
  }

  // ---- yielding ----

  predicate SameLive(slots: seq<Process>, slots': seq<Process>) {
    |slots| == |slots'| && forall i | 0 <= i < |slots| :: Live(slots[i]) == Live(slots'[i])
  }

  /** A yield changes nothing but two states, between ready and running. */
  lemma YieldKeeps(r: Ring, slots: seq<Process>)
    requires RingOk(r, slots)
    ensures var (r', slots') := Yielded(r, slots);
            && RingOk(r', slots') && r'.members == r.members && SameLive(slots, slots')
            && (forall i | 0 <= i < |slots| :: slots'[i] == slots[i].(state := slots'[i].state))
            && (forall i | 0 <= i < |slots| :: slots'[i].state.Unused? <==> slots[i].state.Unused?)
  {
    hide NextStep, Place;
  }

  /** At most one process is marked running, and it is the chosen one. */
  predicate OneRunning(r: Ring, slots: seq<Process>) {
    forall i | 0 <= i < |slots| && slots[i].state == Running :: i == r.current
  }

  lemma YieldKeepsOneRunning(r: Ring, slots: seq<Process>)
    requires RingOk(r, slots) && OneRunning(r, slots)
    ensures var (r', slots') := Yielded(r, slots); OneRunning(r', slots')
    ensures var (r', slots') := Yielded(r, slots);
            (exists k | 0 <= k < |r.members| :: Runnable(slots, r.members[k])) ==> slots'[r'.current].state == Running
  {
    hide Place;
    if k :| 0 <= k < |r.members| && Runnable(slots, r.members[k]) {
      var s := StepTo(r, k);
    }
  }

  // ---- places ----

  /** Every place of the ring is reached by exactly one step count between 1 and the number of members. */
  lemma StepTo(r: Ring, k: nat) returns (s: nat)
    requires r.index < |r.members| && k < |r.members|
    ensures 1 <= s <= |r.members| && Place(r, s) == k
  {
    var c := |r.members|;
    s := if k > r.index then k - r.index else k - r.index + c;
    SmallSum(r.index + s, c);
  }

  lemma PlacesDiffer(r: Ring, s: nat, t: nat)
    requires r.index < |r.members| && 1 <= s < t <= |r.members|
    ensures Place(r, s) != Place(r, t)
  {
    SmallSum(r.index + s, |r.members|);
    SmallSum(r.index + t, |r.members|);
  }

  /** Steps counted from a later place. */
  lemma PlaceShift(r0: Ring, r: Ring, j: nat, s: nat)
    requires r.members == r0.members && r0.index < |r0.members| && r.index == Place(r0, j) && j <= |r0.members|
             && s >= 1 && j + s <= |r0.members|
    ensures Place(r, s) == Place(r0, j + s)
  {
    var c := |r0.members|;
    SmallSum(r0.index + j, c);
    SmallSum(r0.index + (j + s), c);
    SmallSum(r.index + s, c);
  }

  // ---- one round ----

  /** The live members in ring order from a step count on. */
  function Order(r: Ring, slots: seq<Process>, step: nat): seq<nat>
    requires 1 <= step <= |r.members| + 1
    decreases |r.members| + 1 - step
  {
    if step == |r.members| + 1 then []
    else
      var p := r.members[Place(r, step)];
      (if Runnable(slots, p) then [p] else []) + Order(r, slots, step + 1)
  }

  /** The slots chosen by n yields in a row. */
  function Visits(r: Ring, slots: seq<Process>, n: nat): seq<nat>
    requires RingOk(r, slots)
    decreases n
  {
    if n == 0 then []
    else
      YieldKeeps(r, slots);
      var (r', slots') := Yielded(r, slots);
      [if r'.current >= 0 then r'.current else 0] + Visits(r', slots', n - 1)
  }

  /** The members of the round are the live members of the ring, each once. */
  lemma {:induction false} OrderIsExact(r: Ring, slots: seq<Process>, step: nat)
    requires RingOk(r, slots) && 1 <= step <= |r.members| + 1
    ensures forall p | p in Order(r, slots, step) :: Runnable(slots, p) && exists s | step <= s <= |r.members| ::
              r.members[Place(r, s)] == p
    ensures forall s | step <= s <= |r.members| && Runnable(slots, r.members[Place(r, s)]) ::
              r.members[Place(r, s)] in Order(r, slots, step)
    ensures forall j, k | 0 <= j < k < |Order(r, slots, step)| :: Order(r, slots, step)[j] != Order(r, slots, step)[k]
    decreases |r.members| + 1 - step
  {
    hide Place, Runnable, InSlots;
    if step <= |r.members| {
      OrderIsExact(r, slots, step + 1);
      var p, rest := r.members[Place(r, step)], Order(r, slots, step + 1);
      if p in rest {
        var s :| step + 1 <= s <= |r.members| && r.members[Place(r, s)] == p;
        PlacesDiffer(r, step, s);
        assert false;
      }
    }
  }

  /** From step j of a round, the next yield finds the next live member of the round. */
  lemma {:induction false} SearchShift(r0: Ring, slots0: seq<Process>, r: Ring, slots: seq<Process>, j: nat, s: nat)
    requires r.members == r0.members && r0.index < |r0.members| && j <= |r0.members| && r.index == Place(r0, j)
    requires SameLive(slots0, slots) && s >= 1 && j + s <= |r0.members|
    requires NextStep(r0, slots0, j + s) <= |r0.members|
    ensures NextStep(r, slots, s) == NextStep(r0, slots0, j + s) - j
    decreases |r0.members| - s
  {
    hide Place;
    PlaceShift(r0, r, j, s);
    if !Runnable(slots0, r0.members[Place(r0, j + s)]) {
      SearchShift(r0, slots0, r, slots, j, s + 1);
    }
  }

  lemma {:induction false} OrderFrom(r: Ring, slots: seq<Process>, step: nat)
    requires 1 <= step <= |r.members| + 1
    ensures var k := NextStep(r, slots, step);
            Order(r, slots, step) == if k > |r.members| then [] else [r.members[Place(r, k)]] + Order(r, slots, k + 1)
    decreases |r.members| + 1 - step
  {
    hide Place, Runnable;
    if step <= |r.members| {
      if Runnable(slots, r.members[Place(r, step)]) {
        assert NextStep(r, slots, step) == step;
      } else {
        OrderFrom(r, slots, step + 1);
        assert NextStep(r, slots, step) == NextStep(r, slots, step + 1);
        assert [] + Order(r, slots, step + 1) == Order(r, slots, step + 1);
      }
    }
  }

  lemma NextVisit(r0: Ring, slots0: seq<Process>, r: Ring, slots: seq<Process>, j: nat)
    requires RingOk(r0, slots0) && RingOk(r, slots) && SameLive(slots0, slots) && r0.members != []
    requires r.members == r0.members && j <= |r0.members| && r.index == Place(r0, j)
    requires NextStep(r0, slots0, j + 1) <= |r0.members|
    ensures var k := Place(r0, NextStep(r0, slots0, j + 1)); Yielded(r, slots).0 == Ring(r0.members, k, r0.members[k])
  {
    hide Place, Runnable, Switched;
    SearchShift(r0, slots0, r, slots, j, 1);
    PlaceShift(r0, r, j, NextStep(r0, slots0, j + 1) - j);
  }

  /** After j steps of a round, yielding visits exactly the rest of it. */
  lemma {:induction false} RestOfRound(r0: Ring, slots0: seq<Process>, r: Ring, slots: seq<Process>, j: nat)
    requires RingOk(r0, slots0) && RingOk(r, slots) && SameLive(slots0, slots) && r0.members != []
    requires r.members == r0.members && j <= |r0.members| && r.index == Place(r0, j)
    ensures Visits(r, slots, |Order(r0, slots0, j + 1)|) == Order(r0, slots0, j + 1)
    decreases |r0.members| - j
  {
    hide Place, Runnable, Order, Yielded, RingOk, NextStep;
    var k := NextStep(r0, slots0, j + 1);
    OrderFrom(r0, slots0, j + 1);
    if k <= |r0.members| {
      NextVisit(r0, slots0, r, slots, j);
      RingInSlots(r, slots);
      YieldKeeps(r, slots);
      var (r', slots') := Yielded(r, slots);
      SameLiveChain(slots0, slots, slots');
      RestOfRound(r0, slots0, r', slots', k);
    }
  }

  lemma RingInSlots(r: Ring, slots: seq<Process>)
    requires RingOk(r, slots)
    ensures InSlots(r, slots)
  {
  }

  lemma SameLiveChain(a: seq<Process>, b: seq<Process>, c: seq<Process>)
    requires SameLive(a, b) && SameLive(b, c)
    ensures SameLive(a, c)
  {
  }

  /** As many yields as there are live members visit each of them exactly once, in ring order from the current one. */
  lemma RoundVisitsEachOnce(r: Ring, slots: seq<Process>)
    requires RingOk(r, slots)
    ensures var round := Order(r, slots, 1);
            && Visits(r, slots, |round|) == round
            && (forall p: nat :: p in round <==> p in r.members && Runnable(slots, p))
            && (forall j, k | 0 <= j < k < |round| :: round[j] != round[k])
  {
    hide Place, Runnable, Order;
    var round := Order(r, slots, 1);
    OrderIsExact(r, slots, 1);
    if r.members == [] {
      OrderFrom(r, slots, 1);
    } else {
      SmallSum(r.index, |r.members|);
      StartOfRound(r);
      RestOfRound(r, slots, r, slots, 0);
      forall p: nat | p in r.members && Runnable(slots, p)
        ensures p in round
      {
        var k :| 0 <= k < |r.members| && r.members[k] == p;
        var s := StepTo(r, k);
      }
    }
  }

  lemma StartOfRound(r: Ring)
    requires r.index < |r.members|
    ensures Place(r, 0) == r.index
  {
    SmallSum(r.index, |r.members|);
  }
}
