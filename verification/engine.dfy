/** The main loop of `Solver.AStar` in Solver.py, one iteration at a time.

    Each iteration expands the current node into the frontier, selects and
    pops the best frontier entry, and updates the stagnation bookkeeping:
    `best` (the best score seen), `stuck` (selections since the last
    improvement) and `isStuck` (whether successors are scored against the
    fallback food). The loop stops on a goal, gives up after two runs of
    `recursion` stalled selections, or fails when the frontier is empty. */
module Engine {
  import opened Wrappers
  import opened GameState
  import opened SearchNode
  import opened Successors
  import opened Selection
  import opened Reconstruction

  /** The loop variables of `AStar` at the top of the loop. */
  datatype Search<S> = Search(
    frontier: seq<Node<S>>,
    current: Node<S>,
    best: int,
    stuck: nat,
    isStuck: bool)

  /** What one iteration, or a run of iterations, ends in. `IndexError` is the
      exception raised when the frontier is empty at selection time;
      `ZeroDivisionError` is the one the progress bar raises for a target of 0
      before the loop starts. */
  datatype Outcome<S> =
    | Running(search: Search<S>)
    | Found(solution: Node<S>)
    | GaveUp(solution: Node<S>, best: int)
    | IndexError
    | ZeroDivisionError

  /** The loop state before the first iteration: the root popped off a
      one-element frontier, best score 0, not stuck. */
  function Initial<S>(init: S, target: int): (s: Search<S>)
    ensures s.frontier == [] && s.current == Root(init, target)
    ensures s.best == 0 && s.stuck == 0 && !s.isStuck
  {
    Search([], Root(init, target), 0, 0, false)
  }

  /** One pass of the `while not current.isGoal()` loop.

      It stops with `Found` exactly when the current node is a goal, and fails
      exactly when the frontier is empty after expansion. Otherwise the new
      current node is the selected entry of the expanded frontier, and a
      continuing iteration keeps exactly the other entries, in order. The best
      score never decreases. An improvement resets the stall counter and clears
      the fallback flag. Without one the counter goes up by exactly one, unless
      it has just reached `recursion` without the fallback flag: then the flag
      is set and the counter restarts at 0. The search gives up exactly when the
      flag was already set and the counter reaches `recursion`. */
  function Step<S>(g: Game<S>, target: int, recursion: int, s: Search<S>): (o: Outcome<S>)
    ensures o.Found? <==> IsGoal(g, s.current)
    ensures o.Found? ==> o.solution == s.current
    ensures !o.ZeroDivisionError?
    ensures var f := AddNext(g, target, s.frontier, s.current, s.isStuck);
      && (o.IndexError? <==> !IsGoal(g, s.current) && |f| == 0)
      && (o.Running? || o.GaveUp? ==> 0 < |f| && IsSelection(f, Select(f)))
      && (o.Running? ==> o.search.current == f[Select(f)] && o.search.frontier == RemoveAt(f, Select(f)))
      && (o.GaveUp? ==> o.solution == f[Select(f)] && o.best == s.best)
      && (o.GaveUp? <==>
            && !IsGoal(g, s.current) && 0 < |f|
            && g.score(f[Select(f)].state) <= s.best
            && s.isStuck && s.stuck + 1 == recursion)
    ensures o.Running? ==>
      var t := o.search;
      && t.best >= s.best
      && t.best == (if g.score(t.current.state) > s.best then g.score(t.current.state) else s.best)
      && (t.best > s.best ==> t.best == g.score(t.current.state) && t.stuck == 0 && !t.isStuck)
      && (t.best == s.best ==>
            || (t.stuck == s.stuck + 1 && t.isStuck == s.isStuck)
            || (s.stuck + 1 == recursion && !s.isStuck && t.stuck == 0 && t.isStuck))
      && (!s.isStuck && t.isStuck ==> s.stuck + 1 == recursion && t.stuck == 0 && g.score(t.current.state) <= s.best)
  {
    if IsGoal(g, s.current) then Found(s.current)
    else
      var f := AddNext(g, target, s.frontier, s.current, s.isStuck);
      if |f| == 0 then IndexError
      else
        var k := Select(f);
        var c := f[k];
        if g.score(c.state) > s.best then
          Running(Search(RemoveAt(f, k), c, g.score(c.state), 0, false))
        else
          var stuck, isStuck :=
            if s.stuck + 1 == recursion && !s.isStuck then 0 else s.stuck + 1,
            s.isStuck || s.stuck + 1 == recursion;
          if stuck == recursion && isStuck then GaveUp(c, s.best)
          else Running(Search(RemoveAt(f, k), c, s.best, stuck, isStuck))
  }

  /** The `while` loop itself: apply `step` until it no longer answers
      `Running`, for at most `fuel` rounds; `Running` when the fuel runs out. */
  function Iterate<S>(step: Search<S> -> Outcome<S>, s: Search<S>, fuel: nat): Outcome<S>
    decreases fuel
  {
    if fuel == 0 then Running(s)
    else
      match step(s)
      case Running(next) => Iterate(step, next, fuel - 1)
      case o => o
  }

  /** What an outcome reached from `s` always satisfies: the best score has
      not gone down, `Found` is reported only at a goal node, and the
      progress bar's division never fails inside the loop. */
  ghost predicate Progress<S>(g: Game<S>, s: Search<S>, o: Outcome<S>)
  {
    && (o.Running? ==> o.search.best >= s.best)
    && (o.Found? ==> IsGoal(g, o.solution))
    && (o.GaveUp? ==> o.best >= s.best)
    && !o.ZeroDivisionError?
  }

  /** A loop invariant `inv` and a property `good` of reported nodes that every
      single step keeps are kept by any number of steps, together with
      `Progress`. */
  lemma {:induction false} IterateKeeps<S>(
    g: Game<S>, inv: Search<S> -> bool, good: Node<S> -> bool,
    step: Search<S> -> Outcome<S>, s: Search<S>, fuel: nat)
    requires inv(s)
    requires forall x :: inv(x) ==>
      && Progress(g, x, step(x))
      && (step(x).Running? ==> inv(step(x).search))
      && (step(x).Found? || step(x).GaveUp? ==> good(step(x).solution))
    ensures var o := Iterate(step, s, fuel);
      && Progress(g, s, o)
      && (o.Running? ==> inv(o.search))
      && (o.Found? || o.GaveUp? ==> good(o.solution))
    decreases fuel
  {
    if fuel > 0 && step(s).Running? {
      IterateKeeps(g, inv, good, step, step(s).search, fuel - 1);
    }
  }

  /** Running `a` rounds and then `b` more is running `a + b` rounds: the
      second leg starts where the first left off, and a first leg that
      stopped is the answer. */
  lemma {:induction false} IterateCompose<S>(step: Search<S> -> Outcome<S>, s: Search<S>, a: nat, b: nat)
    ensures Iterate(step, s, a + b)
         == if Iterate(step, s, a).Running? then Iterate(step, Iterate(step, s, a).search, b)
            else Iterate(step, s, a)
    decreases a
  {
    if a > 0 && step(s).Running? {
      IterateCompose(step, step(s).search, a - 1, b);
    }
  }

  /** At most `fuel` iterations of `Step` from `s`. */
  function Run<S>(g: Game<S>, target: int, recursion: int, s: Search<S>, fuel: nat): (o: Outcome<S>)
    ensures fuel == 0 ==> o == Running(s)
    ensures o.Found? ==> IsGoal(g, o.solution)
    ensures o.Running? ==> o.search.best >= s.best
    ensures o.GaveUp? ==> o.best >= s.best
    ensures !o.ZeroDivisionError?
  {
    var step := (x: Search<S>) => Step(g, target, recursion, x);
    IterateKeeps(g, _ => true, _ => true, step, s, fuel);
    Iterate(step, s, fuel)
  }

  /** Every further iteration starts from the loop state the previous one
      left: `a` rounds followed by `b` rounds are `a + b` rounds. */
  lemma RunCompose<S>(g: Game<S>, target: int, recursion: int, s: Search<S>, a: nat, b: nat)
    ensures var o := Run(g, target, recursion, s, a);
      Run(g, target, recursion, s, a + b)
        == if o.Running? then Run(g, target, recursion, o.search, b) else o
  {
    IterateCompose((x: Search<S>) => Step(g, target, recursion, x), s, a, b);
  }

  /** The first round of a run is one `Step`; a `Running` step is followed by
      the remaining rounds from the state it produced. */
  lemma RunUnfold<S>(g: Game<S>, target: int, recursion: int, s: Search<S>, fuel: nat)
    requires 0 < fuel
    ensures var o := Step(g, target, recursion, s);
      Run(g, target, recursion, s, fuel)
        == if o.Running? then Run(g, target, recursion, o.search, fuel - 1) else o
  {
  }

  /** `AStar` from the initial state, bounded by `fuel` iterations. The
      progress bar drawn before the loop divides by the target, so a target
      of 0 raises before any iteration. */
  function AStar<S>(g: Game<S>, init: S, target: int, recursion: int, fuel: nat): (o: Outcome<S>)
    ensures o.ZeroDivisionError? <==> target == 0
    ensures target != 0 && fuel == 0 ==> o == Running(Initial(init, target))
    ensures o.Found? ==> o.solution.target == target && g.score(o.solution.state) >= target
    ensures o.Running? ==> o.search.best >= 0
    ensures o.GaveUp? ==> o.best >= 0 && o.solution.target == target
  {
    if target == 0 then ZeroDivisionError
    else
      InitialInv(g, init, target, recursion);
      RunInv(g, init, target, recursion, Initial(init, target), fuel);
      Run(g, target, recursion, Initial(init, target), fuel)
  }

  /** The solver's `solution` field once the loop has ended: the goal node, the
      node current at give-up, or nothing when the loop raised or has not ended. */
  function Solution<S>(o: Outcome<S>): (sol: Option<Node<S>>)
    ensures sol.Some? <==> o.Found? || o.GaveUp?
    ensures o.Found? ==> sol == Some(o.solution)
    ensures o.GaveUp? ==> sol == Some(o.solution)
  {
    match o
    case Found(n) => Some(n)
    case GaveUp(n, _) => Some(n)
    case _ => None
  }

  /** What holds at the top of every iteration: every node held by the loop is
      one the search can produce, the best score is at least 0, and with a
      positive `recursion` the stall counter stays below it. */
  ghost predicate Inv<S>(g: Game<S>, init: S, target: int, recursion: int, s: Search<S>)
  {
    && Valid(g, init, target, s.current)
    && (forall n :: n in s.frontier ==> Valid(g, init, target, n))
    && 0 <= s.best
    && (recursion >= 1 ==> s.stuck < recursion)
  }

  /** The invariant holds before the first iteration. */
  lemma InitialInv<S>(g: Game<S>, init: S, target: int, recursion: int)
    ensures Inv(g, init, target, recursion, Initial(init, target))
  {
  }

  /** One iteration keeps the loop invariant; a goal or give-up result is a
      node the search can produce, a goal result meets the target, and a
      give-up result carries a best score no lower than before. */
  lemma StepInv<S>(g: Game<S>, init: S, target: int, recursion: int, s: Search<S>)
    requires Inv(g, init, target, recursion, s)
    ensures var o := Step(g, target, recursion, s);
      && (o.Running? ==> Inv(g, init, target, recursion, o.search) && o.search.best >= s.best)
      && (o.Found? ==> Valid(g, init, target, o.solution) && IsGoal(g, o.solution))
      && (o.GaveUp? ==> Valid(g, init, target, o.solution) && o.best >= s.best)
  {
  }

  /** Any number of iterations from a state satisfying the invariant keeps it,
      never lowers the best score, and ends in `Found` only at a goal. */
  lemma RunInv<S>(g: Game<S>, init: S, target: int, recursion: int, s: Search<S>, fuel: nat)
    requires Inv(g, init, target, recursion, s)
    ensures var o := Run(g, target, recursion, s, fuel);
      && (o.Running? ==> Inv(g, init, target, recursion, o.search) && o.search.best >= s.best)
      && (o.Found? ==> Valid(g, init, target, o.solution) && IsGoal(g, o.solution))
      && (o.GaveUp? ==> Valid(g, init, target, o.solution) && o.best >= s.best)
  {
    var step := (x: Search<S>) => Step(g, target, recursion, x);
    var inv := (x: Search<S>) => Inv(g, init, target, recursion, x);
    var good := (n: Node<S>) => Valid(g, init, target, n);
    forall x | inv(x)
      ensures && Progress(g, x, step(x))
              && (step(x).Running? ==> inv(step(x).search))
              && (step(x).Found? || step(x).GaveUp? ==> good(step(x).solution))
    {
      StepInv(g, init, target, recursion, x);
    }
    IterateKeeps(g, inv, good, step, s, fuel);
  }

  /** The path handed back after a search that ended: it starts at the initial
      state, moves one admissible step at a time without undoing the previous
      move, and after `Found` its last state meets the target. */
  lemma AStarSolution<S>(g: Game<S>, init: S, target: int, recursion: int, fuel: nat)
    requires AStar(g, init, target, recursion, fuel).Found? || AStar(g, init, target, recursion, fuel).GaveUp?
    ensures var p := GetSolution(Solution(AStar(g, init, target, recursion, fuel)));
      && 0 < |p| && p[0] == init
      && (forall i :: 0 <= i < |p| - 1 ==> p[i + 1] in g.neighbors(p[i]))
      && (forall i :: 0 <= i < |p| - 2 ==> !g.equals(p[i + 2], p[i]))
      && (AStar(g, init, target, recursion, fuel).Found? ==> g.score(p[|p| - 1]) >= target)
  {
    var o := AStar(g, init, target, recursion, fuel);
    InitialInv(g, init, target, recursion);
    RunInv(g, init, target, recursion, Initial(init, target), fuel);
    PathIntegrity(g, init, target, o.solution);
  }

  /** A target of 0: the progress bar raises before the loop, whatever the
      initial state, and the solver is left without a solution. */
  lemma ZeroTarget<S>(g: Game<S>, init: S, recursion: int, fuel: nat)
    ensures AStar(g, init, 0, recursion, fuel) == ZeroDivisionError
    ensures GetSolution(Solution(AStar(g, init, 0, recursion, fuel))) == []
  {
  }

  /** A non-zero target the initial state already meets: the search stops at
      once with the root, and the solution path is the initial state alone. */
  lemma ImmediateGoal<S>(g: Game<S>, init: S, target: int, recursion: int, fuel: nat)
    requires target != 0 && g.score(init) >= target && 1 <= fuel
    ensures AStar(g, init, target, recursion, fuel) == Found(Root(init, target))
    ensures GetSolution(Solution(AStar(g, init, target, recursion, fuel))) == [init]
  {
  }

  /** An initial state below a non-zero target with no neighbours: the first
      selection reads an empty frontier and raises. The exception escapes the
      solver's constructor, so no solver object exists; the empty path stated
      here is this model's convention for "no solution". */
  lemma DeadEndRoot<S>(g: Game<S>, init: S, target: int, recursion: int, fuel: nat)
    requires target != 0 && g.score(init) < target && g.neighbors(init) == [] && 1 <= fuel
    ensures AStar(g, init, target, recursion, fuel) == IndexError
    ensures GetSolution(Solution(AStar(g, init, target, recursion, fuel))) == []
  {
  }
}
