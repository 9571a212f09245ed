/** The `SearchNode` record of Solver.py: a game state, its priority, a link
    to the node it was expanded from, and the score the search is after. */
module SearchNode {
  import opened Wrappers
  import opened GameState

  /** A frontier entry. Nodes are never mutated after creation, so the parent
      link is held by value; only the root has no parent. */
  datatype Node<S> = Node(parent: Option<Node<S>>, state: S, priority: real, target: int)

  /** The first node of a search: no parent, priority 0 and the solver's target. */
  function Root<S>(init: S, target: int): (n: Node<S>)
    ensures n.parent.None? && n.state == init
    ensures n.priority == 0.0 && n.target == target
  {
    Node(None, init, 0.0, target)
  }

  /** Three-way comparison of two nodes by priority alone. */
  function CompareTo<S>(a: Node<S>, b: Node<S>): (r: int)
    ensures r == -1 || r == 0 || r == 1
    ensures r == -1 <==> a.priority < b.priority
    ensures r == 1 <==> a.priority > b.priority
    ensures r == 0 <==> a.priority == b.priority
  {
    if a.priority < b.priority then -1
    else if a.priority > b.priority then 1
    else 0
  }

  /** Swapping the operands of `CompareTo` negates the answer. */
  lemma CompareAntisymmetric<S>(a: Node<S>, b: Node<S>)
    ensures CompareTo(a, b) == -CompareTo(b, a)
  {
  }

  /** `CompareTo` is transitive: it orders nodes consistently. */
  lemma CompareTransitive<S>(a: Node<S>, b: Node<S>, c: Node<S>)
    requires CompareTo(a, b) >= 0 && CompareTo(b, c) >= 0
    ensures CompareTo(a, c) >= 0
    ensures CompareTo(a, b) == 1 || CompareTo(b, c) == 1 ==> CompareTo(a, c) == 1
  {
  }

  /** The goal test: the node's state has reached the target score. */
  predicate IsGoal<S>(g: Game<S>, n: Node<S>)
  {
    g.score(n.state) >= n.target
  }

  /** The root is a goal exactly when the initial state already meets the target;
      in particular a target no greater than the initial score makes it a goal. */
  lemma RootGoal<S>(g: Game<S>, init: S, target: int)
    ensures IsGoal(g, Root(init, target)) <==> g.score(init) >= target
  {
  }

  /** Number of parent links from a node up to its root. */
  function Depth<S>(n: Node<S>): nat
    decreases n
  {
    match n.parent
    case None => 0
    case Some(p) => Depth(p) + 1
  }

  /** The nodes on the parent chain of `n`, root first and `n` last: every
      entry but the first is the child of the entry before it. */
  function Chain<S>(n: Node<S>): (c: seq<Node<S>>)
    decreases n
    ensures |c| == Depth(n) + 1
    ensures c[0].parent.None? && c[|c| - 1] == n
    ensures forall i :: 0 <= i < |c| - 1 ==> c[i + 1].parent == Some(c[i])
  {
    match n.parent
    case None => [n]
    case Some(p) => Chain(p) + [n]
  }
}
