/** Choosing the next node inside `Solver.AStar` (Solver.py): a linear scan
    for the highest priority that starts from a maximum of 0 and replaces it
    only on a strictly greater priority, followed by `pop` of the chosen index. */
module Selection {
  import opened SearchNode

  /** `k` is the index the scan picks: when some priority is positive, the
      first index holding the greatest priority; otherwise index 0. */
  ghost predicate IsSelection<S>(f: seq<Node<S>>, k: int)
  {
    && 0 <= k < |f|
    && if exists i :: 0 <= i < |f| && f[i].priority > 0.0 then
         && (forall j :: 0 <= j < |f| ==> f[j].priority <= f[k].priority)
         && (forall j :: 0 <= j < k ==> f[j].priority < f[k].priority)
       else
         k == 0
  }

  /** At most one index is a selection. */
  lemma SelectionUnique<S>(f: seq<Node<S>>, k1: int, k2: int)
    requires IsSelection(f, k1) && IsSelection(f, k2)
    ensures k1 == k2
  {
  }

  /** The scan loop from position `i` on, with `max` the greatest priority
      seen so far (0 at the start) and `maxIndex` where it was first seen. */
  function Scan<S>(f: seq<Node<S>>, i: nat, max: real, maxIndex: nat): (k: nat)
    requires 0 < |f| && i <= |f| && maxIndex < |f|
    requires 0.0 <= max
    requires forall j :: 0 <= j < i ==> f[j].priority <= max
    requires max == 0.0 ==> maxIndex == 0
    requires max > 0.0 ==>
      && maxIndex < i && f[maxIndex].priority == max
      && forall j :: 0 <= j < maxIndex ==> f[j].priority < max
    ensures IsSelection(f, k)
    decreases |f| - i
  {
    if i == |f| then maxIndex
    else if f[i].priority > max then Scan(f, i + 1, f[i].priority, i)
    else Scan(f, i + 1, max, maxIndex)
  }

  /** The index chosen from a non-empty frontier. */
  function Select<S>(f: seq<Node<S>>): (k: nat)
    requires 0 < |f|
    ensures IsSelection(f, k)
  {
    Scan(f, 0, 0.0, 0)
  }

  /** `pop(k)`: removes exactly the element at `k` and keeps the others in
      their relative order. */
  function RemoveAt<T>(f: seq<T>, k: nat): (r: seq<T>)
    requires k < |f|
    ensures |r| == |f| - 1
    ensures forall i {:trigger r[i]} :: 0 <= i < k ==> r[i] == f[i]
    ensures forall i :: k <= i < |r| ==> r[i] == f[i + 1]
    ensures multiset(r) + multiset{f[k]} == multiset(f)
    ensures forall x :: x in r ==> x in f
  {
    assert f == f[..k] + [f[k]] + f[k + 1..];
    f[..k] + f[k + 1..]
  }
}
