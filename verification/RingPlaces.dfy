/** Places of a ring buffer: the arithmetic behind the input queues of src/kernel/mouse.c and src/kernel/console.c. */
module RingPlaces {
  import opened Machine

  /** The place i steps after head in a ring of n places. */
  function Place(n: nat, head: nat, i: nat): (k: nat)
    requires n > 0
    ensures k < n
  {
    (head + i) % n
  }

  function Next(n: nat, k: nat): (next: nat)
    requires n > 0
    ensures next < n
  {
    (k + 1) % n
  }

  lemma PlaceHere(n: nat, head: nat)
    requires head < n
    ensures Place(n, head, 0) == head
  {
    SmallSum(head, n);
  }

  lemma PlaceAfter(n: nat, head: nat, i: nat)
    requires head < n && i < n
    ensures Next(n, Place(n, head, i)) == Place(n, head, i + 1)
    ensures Place(n, Next(n, head), i) == Place(n, head, i + 1)
  {
    SmallSum(head + i, n);
    SmallSum(head + (i + 1), n);
    SmallSum(Place(n, head, i) + 1, n);
    SmallSum(head + 1, n);
    SmallSum((head + 1) % n + i, n);
  }

  lemma PlacesApart(n: nat, head: nat, i: nat, j: nat)
    requires head < n && i < j < n
    ensures Place(n, head, i) != Place(n, head, j)
  {
    SmallSum(head + i, n);
    SmallSum(head + j, n);
  }

  /** What is left of a queue whose first element is taken. */
  lemma Shifted<T>(before: seq<T>, first: T, after: seq<T>)
    requires |before| == |after| + 1 && before[0] == first
    requires forall i | 0 <= i < |after| :: after[i] == before[i + 1]
    ensures before == [first] + after
  {
  }
}
