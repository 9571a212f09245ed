/** The game-state collaborator the search engine consults, and the priority
    heuristic the engine computes from it (Solver.py, `Solver.addNext`).

    The game itself (board geometry, collision, food placement, how the score
    changes) is not part of this model: a game is a record of total functions
    over an abstract state type `S`. */
module GameState {

  /** A distance to a food item, as reported by the game. The engine adds one
      to it and divides, so it is never negative. */
  type Distance = d: real | 0.0 <= d

  /** The capabilities of a game state that the search engine uses. */
  datatype Game<!S> = Game(
    score: S -> int,                    // current score of a state
    equals: (S, S) -> bool,             // structural equality of two states
    neighbors: S -> seq<S>,             // states one admissible move away, in the game's order
    foodDistance: (S, bool) -> Distance, // distance to the nearest food, or to the fallback food when the flag is set
    moves: S -> nat                     // moves taken from the initial state
  )

  /** Weight of the score term; it dominates the two tie-breaking terms. */
  const ScoreWeight: real := 10000.0

  /** `1 / (x + 1)` for a non-negative `x`: always in the interval (0, 1]. */
  function Reciprocal(x: real): (r: real)
    requires 0.0 <= x
    ensures 0.0 < r <= 1.0
  {
    1.0 / (x + 1.0)
  }

  /** The priority given to a successor state: closeness to the selected food,
      few moves, and above all a high score. `fallback` selects the alternate
      food target. The score term fixes the priority to within 2 of
      `score * 10000`. */
  function Priority<S>(g: Game<S>, s: S, fallback: bool): (p: real)
    ensures (g.score(s) as real) * ScoreWeight < p <= (g.score(s) as real) * ScoreWeight + 2.0
  {
    Reciprocal(g.foodDistance(s, fallback)) + Reciprocal(g.moves(s) as real)
      + (g.score(s) as real) * ScoreWeight
  }

  /** A successor with a strictly higher score always gets a strictly higher
      priority, whatever the distances, move counts and food modes involved. */
  lemma PriorityDominance<S>(g: Game<S>, a: S, fa: bool, b: S, fb: bool)
    requires g.score(a) > g.score(b)
    ensures Priority(g, a, fa) > Priority(g, b, fb)
  {
  }

  /** Among states of equal score the priority order is decided by the two
      reciprocal terms alone: nearer food or fewer moves gives a higher priority. */
  lemma PriorityTieBreak<S>(g: Game<S>, a: S, fa: bool, b: S, fb: bool)
    requires g.score(a) == g.score(b)
    requires g.foodDistance(a, fa) <= g.foodDistance(b, fb)
    requires g.moves(a) <= g.moves(b)
    ensures Priority(g, a, fa) >= Priority(g, b, fb)
    ensures g.foodDistance(a, fa) < g.foodDistance(b, fb) ==> Priority(g, a, fa) > Priority(g, b, fb)
    ensures g.moves(a) < g.moves(b) ==> Priority(g, a, fa) > Priority(g, b, fb)
  {
    ReciprocalAntitone(g.foodDistance(a, fa), g.foodDistance(b, fb));
    ReciprocalAntitone(g.moves(a) as real, g.moves(b) as real);
  }

  /** `Reciprocal` is strictly decreasing. */
  lemma ReciprocalAntitone(x: real, y: real)
    requires 0.0 <= x <= y
    ensures Reciprocal(x) >= Reciprocal(y)
    ensures x < y ==> Reciprocal(x) > Reciprocal(y)
  {
    var p := (x + 1.0) * (y + 1.0);
    assert 0.0 < p by { MultiplyPositive(x + 1.0, y + 1.0); }
    assert Reciprocal(x) == (y + 1.0) / p;
    assert Reciprocal(y) == (x + 1.0) / p;
    DivideMonotone(x + 1.0, y + 1.0, p);
  }

  lemma MultiplyPositive(a: real, b: real)
    requires 0.0 < a && 0.0 < b
    ensures 0.0 < a * b
  {
  }

  lemma DivideMonotone(a: real, b: real, p: real)
    requires a <= b && 0.0 < p
    ensures a / p <= b / p
    ensures a < b ==> a / p < b / p
  {
  }
}
