# Best-first search of the SnakeMalin solver, in Dafny

This project models the search engine of `Solver.py` in the SnakeMalin
repository. The engine looks for a sequence of snake moves that drives the
game's score up to a target:

- A **search node** (`SearchNode.Node`) holds a game state, a priority, a
  link to its parent node and the target score. The module also has the
  three-way `CompareTo` and the goal test `IsGoal`.
- **Successor generation** (`Successors.AddNext`, `Successors.Expand`) takes
  each neighbour of the current state and skips one equal to the parent's
  state. It scores the rest with
  `1/(distance+1) + 1/(moves+1) + score*10000` (`GameState.Priority`) and
  appends one node per kept neighbour to the frontier.
- **Selection** (`Selection.Select`, `Selection.Scan`) is a linear scan for
  the highest priority. It starts from a maximum of 0, and only a strictly
  greater priority replaces the maximum. The chosen index is then removed
  (`Selection.RemoveAt`).
- The **main loop** (`Engine.Step`, `Engine.Run`, `Engine.AStar`) tracks the
  best score seen, a stall counter and a fallback flag. After `recursion`
  selections without improvement it scores successors against the fallback
  food. After a second such run it gives up with the current node.
- **Path reconstruction** (`Reconstruction.GetSolution`) follows parent
  links from the solution node and lists the states from root to solution.

The game state is a type parameter `S`. What the engine asks of it is a
`GameState.Game` record of total functions: `score`, `equals`, `neighbors`,
`foodDistance` (standing for `getNearestFood(...)[2]`) and `moves`
(`get_moves`). Priorities are exact `real`s.

The loop is one pure step function over
`Search(frontier, current, best, stuck, isStuck)`. `Run` applies it at most
`fuel` times, because the original loop need not terminate.

Two behaviours of the code are easy to miss, and the model keeps both:
- On an empty frontier, selection reads `nodeArray[0]` and raises
  `IndexError` (Solver.py:67). No give-up covers that case. The exception
  escapes `AStar` and the solver's constructor (Solver.py:35), so no solver
  object exists. The model has an explicit `IndexError` outcome
  (`Engine.DeadEndRoot`).
- Before the loop, `AStar` draws the progress bar for a best score of 0
  (Solver.py:54), and the bar divides by the target (Solver.py:39). A target
  of 0 therefore raises `ZeroDivisionError` before any iteration, and that
  exception also escapes the constructor. The model has a
  `ZeroDivisionError` outcome for it (`Engine.ZeroTarget`).
- `best_score_yet` starts at 0, not at the root's score (Solver.py:50). So a
  selection counts as an improvement only if its score exceeds
  `max(0, earlier scores)`.

## Model

| member | source | states |
|---|---|---|
| SearchNode.Root | Solver.py:47 | the first node has no parent, priority 0, the initial state and the solver's target |
| SearchNode.CompareTo | Solver.py:13-19 | the result is exactly -1, 0 or 1, and it is -1, 0 or 1 precisely when the first priority is below, equal to or above the second |
| SearchNode.CompareAntisymmetric | Solver.py:13-19 | swapping the operands negates the comparison |
| SearchNode.CompareTransitive | Solver.py:13-19 | the comparison is transitive, and strictly so when one of the two steps is strict |
| SearchNode.RootGoal | Solver.py:21-22 | the root is a goal exactly when the initial state's score is at least the target |
| SearchNode.IsGoal | Solver.py:21-22 | a node is a goal exactly when its state's score is at least its target |
| SearchNode.Chain | Solver.py:116-118 | the parent chain of a node has depth + 1 entries, starts at a parentless node, ends at the node, and each entry is the parent of the next |
| GameState.Reciprocal | Solver.py:110 | each reciprocal term `1/(x+1)` of a non-negative quantity lies in (0, 1] |
| GameState.ReciprocalAntitone | Solver.py:110 | `1/(x+1)` never increases as x grows over the non-negative reals, and strictly decreases when x strictly grows |
| GameState.Priority | Solver.py:110 | a successor's priority lies strictly above score*10000 and at most 2 above it |
| GameState.PriorityDominance | Solver.py:110 | a strictly higher score always gives a strictly higher priority, whatever the distances, move counts and food modes |
| GameState.PriorityTieBreak | Solver.py:110 | at equal scores, nearer food or fewer moves never lowers the priority, and a strict improvement in either raises it strictly |
| Successors.Accepted | Solver.py:107 | a neighbour is kept exactly when the current node has no parent or the neighbour differs from the parent's state |
| Successors.Expand | Solver.py:106-111 | each new node holds a kept neighbour, is parented at the current node, carries the solver's target and the priority for the current food mode; there are no more nodes than neighbours |
| Successors.ExpandComplete | Solver.py:106-111 | every kept neighbour gets a node |
| Successors.ExpandAppend | Solver.py:106-111 | expansion of a concatenated neighbour list is the concatenation of the expansions, so new nodes follow neighbour order |
| Successors.ExpandSingle | Solver.py:107-111 | one neighbour yields exactly its node when it differs from the parent's state (or there is no parent), and nothing otherwise |
| Successors.ExpandAtRoot | Solver.py:107 | at a parentless node nothing is filtered: one node per neighbour, position by position |
| Successors.AddNext | Solver.py:105-111 | the earlier frontier is an unchanged prefix of the result; every appended entry is a kept neighbour of the current state, parented at it, with the solver's target and the computed priority; every kept neighbour of the current state gets an appended entry |
| Successors.AddNextValid | Solver.py:105-111 | expanding a node the search can produce adds only such nodes: accepted neighbours chained back to the initial root |
| Selection.Scan | Solver.py:58-65 | the scan returns the first index of the greatest priority when some priority is positive, and index 0 otherwise |
| Selection.Select | Solver.py:58-67 | on a non-empty frontier the selected index is in range and is that first maximum, or 0 when no priority is positive |
| Selection.SelectionUnique | Solver.py:58-65 | at most one index meets the selection property, so the scan's choice is determined |
| Selection.RemoveAt | Solver.py:88 | popping index k removes exactly that element: the length drops by one, the elements before k and after k keep their order, and the multiset loses only that element |
| Reconstruction.Walk | Solver.py:115-118 | walking up from a node in front of the collected states yields that node's chain states, root first, followed by the collected states |
| Reconstruction.GetSolution | Solver.py:113-119 | no solution gives the empty list; otherwise the list has depth + 1 states, the i-th being the i-th chain node's state and the last being the solution's state |
| Reconstruction.ChainValid | Solver.py:111 | every ancestor of a node the search can produce is one too |
| Reconstruction.PathIntegrity | Solver.py:113-119 | the path to a producible node starts at the initial state, each step moves to a neighbour, no step returns to the state two steps earlier, and it ends at the node's state |
| Engine.Initial | Solver.py:47-53 | the loop starts with an empty frontier, the root as current node, best score 0, counter 0 and no fallback |
| Engine.Solution | Solver.py:83-103 | the solver's solution is set exactly when the loop stopped at a goal or gave up, and it is the node that was current then |
| Engine.InitialInv | Solver.py:47-53 | the loop invariant holds before the first iteration |
| Engine.Step | Solver.py:56-88 | one iteration stops with the current node exactly when it is a goal; it fails exactly when the frontier is empty after expansion; otherwise the new current node is the first-maximum entry of the expanded frontier, and only that entry is popped. The best score becomes the selected node's score exactly when that score exceeds the old best, and stays unchanged otherwise. An increase resets the counter and clears the fallback flag. Otherwise the counter rises by exactly one, unless it has just reached `recursion` without the flag: then the flag is set and the counter is 0. The search gives up, with the selected node and the unchanged best score, exactly when the flag was already set and the counter reaches `recursion` |
| Engine.StepInv | Solver.py:56-88 | one iteration keeps the invariant (producible nodes, best score at least 0, counter below a positive `recursion`); a goal result meets the target |
| Engine.IterateKeeps | Solver.py:56-99 | whatever one pass of the loop preserves, any number of passes preserves, and the best score never goes down across them |
| Engine.IterateCompose | Solver.py:56-99 | a bounded loop run for `a` rounds and then `b` more is the same as running it for `a + b` rounds; a loop that stopped within `a` rounds stays stopped |
| Engine.Run | Solver.py:56-99 | repeated iterations report `Found` only at a goal node, never lower the best score and never fail in the progress bar; with no fuel the loop state is returned unchanged |
| Engine.RunCompose | Solver.py:56-99 | `a` rounds of the solver's loop followed by `b` more from where they left off equal `a + b` rounds |
| Engine.RunUnfold | Solver.py:56-99 | the first round is one iteration; after a continuing iteration the loop goes on from the state it produced, and a stopping iteration's outcome is the loop's outcome |
| Engine.AStar | Solver.py:38-103 | a target of 0 raises `ZeroDivisionError` in the progress bar before the loop, and no other target does; otherwise a search from the initial state reports `Found` only at a node whose score meets the target, gives up only with a node carrying the solver's target, and never reports a best score below 0 |
| Engine.RunInv | Solver.py:56-99 | any number of iterations keeps the invariant and never lowers the best score; `Found` only at a goal node |
| Engine.AStarSolution | Solver.py:45-119 | a finished search's path starts at the initial state, moves between neighbours without undoing the previous move, and ends at or above the target when the goal was found |
| Engine.ZeroTarget | Solver.py:38-39 | with a target of 0 the progress bar drawn at Solver.py:54 divides by zero, so the search raises `ZeroDivisionError` whatever the initial state; the empty path stated for it is the model's convention for "no solution" |
| Engine.ImmediateGoal | Solver.py:45-56 | when the initial state meets a non-zero target the search stops at once with the root, and the path is the initial state alone |
| Engine.DeadEndRoot | Solver.py:56-67 | an initial state below a non-zero target with no neighbours makes the first selection raise `IndexError`, which escapes the solver's constructor (Solver.py:35); the empty path stated for this outcome is the model's convention for "no solution" |

## Left out

- The PyQt widget, `QPainter` and the drawing methods (`scoreBoard`, `scoreText`, `drawRocks`, `drawFood`, `drawSnake`, `gameOver`). They are presentation only.
- `direction`. It changes an attribute the solver never sets and repaints; it is interactive plumbing.
- The text that `progress_bar` prints, the debug trace and the give-up message. They are console output. The one effect of `progress_bar` on the search, the `ZeroDivisionError` for a target of 0, is modelled. The `getNearestFood()` call at Solver.py:89 runs on every iteration, but only the debug trace reads its result, so it has no effect on the search. The unused counter `i` is dropped too.
- The constructor running `AStar` and then creating a painter. `Engine.AStar` takes the initial state, target and `recursion` as parameters, and ignores the `debug` flag because it only controls printing.
- The game state's internals: board geometry, collision, food placement and scoring. They are uninterpreted functions of the `Game` record.
- IEEE floating-point rounding in the priority. Priorities are exact reals.
- The global `best_score_yet`. It is a field of the loop state, one per search.
- Negative distances and move counts. The types of `Game` exclude them, and the code would divide by zero at -1.
- Object identity of nodes. Parent links are held by value; the code only ever tests a parent for `None`.
- Engine.Run: non-termination is not modelled. The loop is bounded by `fuel`, and running out of fuel returns the loop state as `Running`.
- Successors.Valid: records only that a non-root node's priority was computed for one of the two food modes, not which mode.
