/** `Solver.getSolution` in Solver.py: follow parent links from the solution
    node, inserting each state at the front, to list the states from the root
    to the solution. */
module Reconstruction {
  import opened Wrappers
  import opened GameState
  import opened SearchNode
  import opened Successors

  /** The walk up the parent links: `acc` holds the states already collected
      and each step puts the current node's state in front of them. */
  function Walk<S>(cur: Option<Node<S>>, acc: seq<S>): (r: seq<S>)
    decreases cur
    ensures cur.None? ==> r == acc
    ensures cur.Some? ==>
      var c := Chain(cur.value);
      && |r| == |c| + |acc|
      && (forall i :: 0 <= i < |c| ==> r[i] == c[i].state)
      && r[|c|..] == acc
  {
    match cur
    case None => acc
    case Some(n) => Walk(n.parent, [n.state] + acc)
  }

  /** The solution path: empty without a solution, otherwise one state per node
      of the solution's parent chain, root first and the solution's state last. */
  function GetSolution<S>(solution: Option<Node<S>>): (r: seq<S>)
    ensures solution.None? ==> r == []
    ensures solution.Some? ==>
      var c := Chain(solution.value);
      && |r| == Depth(solution.value) + 1
      && r[|r| - 1] == solution.value.state
      && forall i :: 0 <= i < |r| ==> r[i] == c[i].state
  {
    Walk(solution, [])
  }

  /** Every node on the parent chain of a node the search can produce is
      itself one the search can produce. */
  lemma {:induction false} ChainValid<S>(g: Game<S>, init: S, target: int, n: Node<S>)
    requires Valid(g, init, target, n)
    ensures forall i :: 0 <= i < |Chain(n)| ==> Valid(g, init, target, Chain(n)[i])
    decreases n
  {
    match n.parent
    case None =>
    case Some(p) =>
      ChainValid(g, init, target, p);
      assert Chain(n) == Chain(p) + [n];
  }

  /** The path to a node the search can produce starts at the initial state,
      takes one admissible move per step, never moves straight back to the
      state two steps earlier, and ends at the node's state. */
  lemma PathIntegrity<S>(g: Game<S>, init: S, target: int, n: Node<S>)
    requires Valid(g, init, target, n)
    ensures var p := GetSolution(Some(n));
      && p[0] == init
      && p[|p| - 1] == n.state
      && (forall i :: 0 <= i < |p| - 1 ==> p[i + 1] in g.neighbors(p[i]))
      && (forall i :: 0 <= i < |p| - 2 ==> !g.equals(p[i + 2], p[i]))
  {
  }
}
