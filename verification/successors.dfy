/** Successor generation, `Solver.addNext` in Solver.py: every neighbour of the
    current state except the one equal to the parent's state becomes a new
    frontier node, parented at the current node. */
module Successors {
  import opened Wrappers
  import opened GameState
  import opened SearchNode

  /** Whether neighbour `s` of `current` is kept: the root keeps every
      neighbour, any other node drops a neighbour equal to its parent's state
      (the move that would undo the previous one). */
  predicate Accepted<S>(g: Game<S>, current: Node<S>, s: S)
  {
    current.parent.None? || !g.equals(s, current.parent.value.state)
  }

  /** One new node per kept neighbour of `ns`, in the order of `ns`. */
  function Expand<S>(g: Game<S>, target: int, current: Node<S>, fallback: bool, ns: seq<S>): (r: seq<Node<S>>)
    ensures |r| <= |ns|
    ensures forall i :: 0 <= i < |r| ==>
      && r[i].parent == Some(current)
      && r[i].target == target
      && r[i].state in ns
      && Accepted(g, current, r[i].state)
      && r[i].priority == Priority(g, r[i].state, fallback)
  {
    if |ns| == 0 then []
    else
      var rest := Expand(g, target, current, fallback, ns[1..]);
      assert forall s :: s in ns[1..] ==> s in ns;
      if Accepted(g, current, ns[0]) then
        [Node(Some(current), ns[0], Priority(g, ns[0], fallback), target)] + rest
      else
        rest
  }

  /** No kept neighbour is lost: each one has a node in the expansion. */
  lemma {:induction false} ExpandComplete<S>(g: Game<S>, target: int, current: Node<S>, fallback: bool, ns: seq<S>, s: S)
    requires s in ns && Accepted(g, current, s)
    ensures exists i :: 0 <= i < |Expand(g, target, current, fallback, ns)|
                     && Expand(g, target, current, fallback, ns)[i].state == s
    decreases |ns|
  {
    var r := Expand(g, target, current, fallback, ns);
    if ns[0] == s {
      assert r[0].state == s;
    } else {
      assert s in ns[1..];
      ExpandComplete(g, target, current, fallback, ns[1..], s);
      var rest := Expand(g, target, current, fallback, ns[1..]);
      var j :| 0 <= j < |rest| && rest[j].state == s;
      if Accepted(g, current, ns[0]) {
        assert r[j + 1] == rest[j];
      } else {
        assert r[j] == rest[j];
      }
    }
  }

  /** `addNext`: the frontier grows by the expansion of the current state's
      neighbours; the existing entries stay where they were, and every kept
      neighbour gets a new entry. */
  function AddNext<S>(g: Game<S>, target: int, frontier: seq<Node<S>>, current: Node<S>, fallback: bool)
    : (r: seq<Node<S>>)
    ensures |frontier| <= |r| <= |frontier| + |g.neighbors(current.state)|
    ensures r[..|frontier|] == frontier
    ensures forall i :: |frontier| <= i < |r| ==>
      && r[i].parent == Some(current)
      && r[i].target == target
      && r[i].state in g.neighbors(current.state)
      && Accepted(g, current, r[i].state)
      && r[i].priority == Priority(g, r[i].state, fallback)
    ensures forall s :: s in g.neighbors(current.state) && Accepted(g, current, s) ==>
      exists i :: |frontier| <= i < |r| && r[i].state == s
  {
    var e := Expand(g, target, current, fallback, g.neighbors(current.state));
    assert forall s :: s in g.neighbors(current.state) && Accepted(g, current, s) ==>
      exists i :: |frontier| <= i < |frontier + e| && (frontier + e)[i].state == s
    by {
      forall s | s in g.neighbors(current.state) && Accepted(g, current, s)
        ensures exists i :: |frontier| <= i < |frontier + e| && (frontier + e)[i].state == s
      {
        ExpandComplete(g, target, current, fallback, g.neighbors(current.state), s);
        var j :| 0 <= j < |e| && e[j].state == s;
        assert (frontier + e)[|frontier| + j] == e[j];
      }
    }
    frontier + e
  }

  /** Expansion distributes over concatenation of neighbour lists: the new
      nodes come out in neighbour order. */
  lemma {:induction false} ExpandAppend<S>(g: Game<S>, target: int, current: Node<S>, fallback: bool, xs: seq<S>, ys: seq<S>)
    ensures Expand(g, target, current, fallback, xs + ys)
         == Expand(g, target, current, fallback, xs) + Expand(g, target, current, fallback, ys)
    decreases |xs|
  {
    if |xs| == 0 {
      assert xs + ys == ys;
    } else {
      assert (xs + ys)[1..] == xs[1..] + ys;
      ExpandAppend(g, target, current, fallback, xs[1..], ys);
    }
  }

  /** Expansion of a single neighbour: one node when it is kept, none otherwise. */
  lemma ExpandSingle<S>(g: Game<S>, target: int, current: Node<S>, fallback: bool, s: S)
    ensures Accepted(g, current, s) ==>
      Expand(g, target, current, fallback, [s]) == [Node(Some(current), s, Priority(g, s, fallback), target)]
    ensures !Accepted(g, current, s) ==> Expand(g, target, current, fallback, [s]) == []
  {
    assert [s][1..] == [];
  }

  /** At the root nothing is filtered: exactly one node per neighbour, each
      holding the neighbour at the same position. */
  lemma {:induction false} ExpandAtRoot<S>(g: Game<S>, target: int, current: Node<S>, fallback: bool, ns: seq<S>)
    requires current.parent.None?
    ensures |Expand(g, target, current, fallback, ns)| == |ns|
    ensures forall i :: 0 <= i < |ns| ==> Expand(g, target, current, fallback, ns)[i].state == ns[i]
    decreases |ns|
  {
    if |ns| > 0 {
      ExpandAtRoot(g, target, current, fallback, ns[1..]);
    }
  }

  /** A node that the search can produce: the root built from `init`, or an
      accepted, prioritised neighbour of a node that the search can produce. */
  ghost predicate Valid<S>(g: Game<S>, init: S, target: int, n: Node<S>)
    decreases n
  {
    && n.target == target
    && match n.parent
       case None => n.state == init && n.priority == 0.0
       case Some(p) =>
         && Valid(g, init, target, p)
         && n.state in g.neighbors(p.state)
         && Accepted(g, p, n.state)
         && (n.priority == Priority(g, n.state, false) || n.priority == Priority(g, n.state, true))
  }

  /** Expanding a node the search can produce only yields such nodes. */
  lemma AddNextValid<S>(g: Game<S>, init: S, target: int, frontier: seq<Node<S>>, current: Node<S>, fallback: bool)
    requires Valid(g, init, target, current)
    requires forall n :: n in frontier ==> Valid(g, init, target, n)
    ensures var r := AddNext(g, target, frontier, current, fallback);
      forall n :: n in r ==> Valid(g, init, target, n)
  {
  }
}
