# Adversarial search for Pacman, in Dafny

This project models the adversarial game-tree search of the Pacman
multi-agent assignment (`multiAgents.py`), along with the leaf heuristics it
scores states with:

- **Depth-limited minimax.** `MinimaxAgent.getAction` maximises for Pacman
  (agent 0) and minimises for every ghost. Turns go round-robin, and the depth
  counter rises each time the turn wraps back to Pacman.
- **Alpha-beta pruning.** `AlphaBetaAgent.getAction` is a fail-soft version
  of the same search. Its maximizer returns as soon as its running maximum
  exceeds `b`. Its minimizer returns as soon as its running minimum drops
  below `a`.
- **Expectimax.** In `ExpectimaxAgent.getAction` every ghost node averages its
  children.
- **Leaf heuristics.** `scoreEvaluationFunction` and
  `betterEvaluationFunction`.

The engine's game state is abstract. A `Game<S, A>` holds:

- the number of agents (at least two);
- the depth limit;
- the engine's queries `getLegalActions`, `generateSuccessor`, `isWin` and
  `isLose`;
- the evaluation function.

Search values use an extended-real type, `Score = NegInf | Fin(real) | PosInf`.
It stands for Python's floats together with the `±float('inf')` sentinels.
Python's `max`, `min`, `<`, `+` and `/` on these values are the `Scores`
functions `Max`, `Min`, `Lt`, `Add` and `DivBy`. Every `for` loop of the
source becomes a left fold over the index of the action list. The folds are
mutually recursive with their search. Termination rests on the
lexicographic tuple `(maxDepth - depth, numAgents - agent, role, |acts| - i)`,
in which `role` puts a search call above the loops it runs.
`Games.MeasureStep` adds that each ply, from one search call to the next,
lowers `(maxDepth - depth) * numAgents + (numAgents - agent)` by exactly one.

The root loops return a `Decision`:

- `Move(action)` for an action;
- `StateReturned(state)` when minimax or expectimax return their default
  `action = gameState`;
- `ScoreReturned(value)` for alpha-beta's early `return utility` at
  line 252, which is proved never to happen.

Alpha-beta's default action `Directions.WEST` is the parameter `west`.

Modules and files:

- `Scores` (`scores.dfy`): the value type and its order.
- `Games`, `Decisions` (`games.dfy`): the game interface and the turn cycle,
  plus the "first strict maximum" root loop shared by all three agents.
- `MinimaxSearch` (`minimax.dfy`), `AlphaBetaSearch` (`alphabeta.dfy`),
  `ExpectimaxSearch` (`expectimax.dfy`): the three agents.
- `Evaluation` (`evaluation.dfy`): both heuristics and the correction of the
  ghost guard described under Findings.

Two places where the code does not do what its own comments say. The model
keeps the code's behaviour:

- **The ghost guard.** The comment at line 345 says "if ghost gets too
  close, avoid". The docstring at lines 321-323 treats each ghost by its own
  scared state. The reflex agent's heuristic tests each ghost's own
  distance (lines 89-92). The code at line 350, however, tests the *running
  minimum* distance over all ghosts so far together with the *current*
  ghost's timer. The as-written behaviour is modelled and proved; the
  per-ghost guard is proved as well (see Findings).
- **The sign of the ghost term.** The docstring at lines 321-323 says an
  unscared ghost's distance is subtracted and a scared ghost's is added. In
  the code the flag `ghoststateclose` turns to -1 for good as soon as any
  scared ghost equals the running minimum when its turn comes, and is never
  reset. The model keeps the sticky flag (`Evaluation.GhostLoopSign`).
  `Evaluation.StickySignRewardsUnscaredGhost` shows the consequence: with a
  scared ghost at distance 3 followed by an unscared ghost at distance 2, the
  nearest ghost is unscared, yet the ghost term is a reward of `+2/3`.

## Model

| member | source | states |
|---|---|---|
| Games.Next | multiagent-master/multiAgents.py:176-179 | The next agent is the following index modulo the number of agents. The depth goes up by exactly one iff the turn wraps back to Pacman and stays the same otherwise. Agent and depth stay in range. |
| Games.MeasureStep | multiagent-master/multiAgents.py:179 | Each recursive call uses up exactly one unit of the termination measure, so the round-robin recursion terminates. |
| Decisions.PickLoopPicks | multiagent-master/multiAgents.py:184-192 | Started from `-inf` with the default decision, the "replace on strictly greater" loop keeps the default iff every value is `-inf`. Otherwise it picks the first action of largest value. |
| MinimaxSearch.MaxLoopIsMax | multiagent-master/multiAgents.py:166-172 | `MaxLoop`, Pacman's loop, returns an upper bound of the starting value and of every child value, and the result is one of them. |
| MinimaxSearch.MinLoopIsMin | multiagent-master/multiAgents.py:173-182 | `MinLoop`, a ghost's loop, returns a lower bound of the starting value and of every child value, and the result is one of them. |
| MinimaxSearch.MinimaxValue | multiagent-master/multiAgents.py:161-182 | `Minimax` (the nested `minimax`, with its loops `MaxLoop` and `MinLoop`): at a win, a loss or the depth limit the value is the evaluation. Otherwise it is the largest child value at Pacman (`-inf` with no action) and the smallest at a ghost (`+inf` with no action). |
| MinimaxSearch.RootLoopIsPickLoop | multiagent-master/multiAgents.py:184-192 | `RootLoop`, the minimax root loop, is the first-maximum loop over the values `minimax(1, 0, successor)` of the legal actions. |
| MinimaxSearch.MinimaxActionPicksFirstMax | multiagent-master/multiAgents.py:184-192 | `MinimaxAction` (`getAction`) returns the first legal action of largest minimax value. It returns the game state itself when no action is worth more than `-inf` or there is none. |
| AlphaBetaSearch.AlphaBetaSound | multiagent-master/multiAgents.py:209-240 | `AlphaBeta` (`alphabetaprune`, lines 230-240, with `maximizer` and `minimizer` as `Maximizer` and `Minimizer`) against `Minimax`: for every window `a <= b`, alpha-beta equals minimax when the minimax value lies in the window. When the minimax value is above `b`, the result is above `b` and at most the minimax value, and conversely; symmetrically below `a`. |
| AlphaBetaSearch.MaximizerSound | multiagent-master/multiAgents.py:209-216 | `Maximizer` (lines 209-216) against minimax's `MaxLoop`: the maximizer loop, with its cut-off at `maximum > b` and its update `a = max(a, maximum)`, stays sound against minimax's maximum loop at every iteration. |
| AlphaBetaSearch.MinimizerSound | multiagent-master/multiAgents.py:218-228 | `Minimizer` (lines 218-228) against minimax's `MinLoop`: the minimizer loop, with its cut-off at `minimum < a` and its update `b = min(b, minimum)`, stays sound against minimax's minimum loop at every iteration. |
| AlphaBetaSearch.MaximizerWindowNarrows | multiagent-master/multiAgents.py:209-216 | The lower window ends the maximizer hands to its children start at `a`, never decrease and stay within `[a, b]`. At most one child per action is explored. |
| AlphaBetaSearch.MinimizerWindowNarrows | multiagent-master/multiAgents.py:218-228 | The upper window ends the minimizer hands to its children start at `b`, never increase and stay within `[a, b]`. |
| AlphaBetaSearch.AlphaBetaCutoff | multiagent-master/multiAgents.py:232-233 | At a win, a loss or the depth limit, alpha-beta returns the evaluation unchanged, whatever the window. |
| AlphaBetaSearch.AlphaBetaFullWindow | multiagent-master/multiAgents.py:230-240 | Called with `(-inf, +inf)`, alpha-beta returns exactly the minimax value. |
| AlphaBetaSearch.RootLoopsAgree | multiagent-master/multiAgents.py:242-255 | `RootPrune` (lines 242-255) against minimax's `RootLoop`: iteration by iteration, the alpha-beta root loop keeps `alpha` equal to its best value and `beta` at `+inf`. It makes the same choice as the minimax root loop. |
| AlphaBetaSearch.AlphaBetaAgreesWithMinimax | multiagent-master/multiAgents.py:242-255 | `AlphaBetaAction` (`getAction`) returns the same action as the minimax root whenever minimax returns an action, and `Directions.WEST` where minimax returns the game state. It always returns an action: the early `return utility` is unreachable. |
| ExpectimaxSearch.Expectimax | multiagent-master/multiAgents.py:274-301 | `Expectimax` (the nested `expectimax`): with an evaluation that never returns `+inf`, no expectimax value is `+inf`, so no sum of `+inf` and `-inf` (NaN) can arise. |
| ExpectimaxSearch.MaxLoopIsMax | multiagent-master/multiAgents.py:285-291 | `MaxLoop`, Pacman's loop, succeeds iff every child does. It then returns an upper bound of the starting value and of every child value that is one of them. |
| ExpectimaxSearch.ChanceLoopAdds | multiagent-master/multiAgents.py:293-300 | `ChanceLoop`, a ghost's `total +=` loop, succeeds iff every child does. The total is then `-inf` if the start or some child is `-inf`, and otherwise the start plus the sum of the finite child values. |
| ExpectimaxSearch.ExpectimaxValue | multiagent-master/multiAgents.py:274-301 | At a cutoff the value is the evaluation; at Pacman it is the largest child value; at a ghost with legal actions it is the arithmetic mean of its children. The search fails with a division by zero iff some child fails or the ghost has no legal action. |
| ExpectimaxSearch.ExpectimaxDefined | multiagent-master/multiAgents.py:301 | When every ghost always has a legal action, the division at a chance node never raises. |
| ExpectimaxSearch.MinimaxBelowExpectimax | multiagent-master/multiAgents.py:274-301 | Wherever expectimax has a value, the minimax value of the same node is at most that value: averaging the ghosts never does worse for Pacman than minimising. |
| ExpectimaxSearch.RootLoopFails | multiagent-master/multiAgents.py:305-306 | `RootLoop`, the expectimax root loop, fails iff the search of some root action fails. |
| ExpectimaxSearch.RootLoopIsPickLoop | multiagent-master/multiAgents.py:303-311 | When it succeeds, `RootLoop`, the expectimax root loop, is the first-maximum loop over the root values. |
| ExpectimaxSearch.ExpectimaxActionPicksFirstMax | multiagent-master/multiAgents.py:303-311 | `ExpectimaxAction` (`getAction`) fails iff some root search fails. Otherwise it returns the first legal action of largest expected value, or the game state when none is worth more than `-inf`. |
| Evaluation.ScoreEvaluation | multiagent-master/multiAgents.py:96-104 | The score evaluation is the state's score, a finite value, never `±inf`. |
| Evaluation.Manhattan | multiagent-master/multiAgents.py:15 | The Manhattan distance is non-negative and is zero exactly between equal positions. |
| Evaluation.MinDistanceLoop | multiagent-master/multiAgents.py:338-339 | The `min(m, distance)` loop returns a lower bound of `m` and of every distance, and the result is one of them. |
| Evaluation.MinDistance | multiagent-master/multiAgents.py:333-343 | The nearest-item distance is `+inf` exactly for an empty list. Otherwise it is a non-negative distance that is attained and below all the others. |
| Evaluation.Closeness | multiagent-master/multiAgents.py:353 | `k / (d + 1)` is 0 for a missing item kind (`d = +inf`) and lies in `(0, k]` for a finite distance. The divisor is never 0. |
| Evaluation.GhostLoop | multiagent-master/multiAgents.py:346-351 | `GhostLoop`, the loop over the ghosts, stops with `-inf` iff some unscared ghost comes at or after a ghost within distance 2 (or after a running minimum already below 2). Otherwise it returns the smallest ghost distance. |
| Evaluation.GhostLoopSign | multiagent-master/multiAgents.py:346-349 | The flag ends at -1 iff it started at -1 or some scared ghost is, in list order, no farther than every ghost before it. |
| Evaluation.GhostLoopStopsIffGuard | multiagent-master/multiAgents.py:350-351 | Started as the source starts it, the loop returns `-inf` exactly when the as-written guard condition holds. |
| Evaluation.GhostLoopNearest | multiagent-master/multiAgents.py:346-347 | When the ghost loop runs to the end, its minimum is the distance to the nearest ghost. |
| Evaluation.BetterEvaluation | multiagent-master/multiAgents.py:313-353 | The heuristic never returns `+inf`, so it can serve expectimax. |
| Evaluation.BetterEvaluationCatastrophe | multiagent-master/multiAgents.py:346-351 | The heuristic is `-inf` iff the as-written guard fires, and in particular whenever an unscared ghost is within distance 2. |
| Evaluation.BetterEvaluationFormula | multiagent-master/multiAgents.py:326-353 | When the guard does not fire, the value is the score plus `1/(d+1)` for the nearest food and the nearest capsule, minus `sign*2/(d+1)` for the nearest ghost. A missing kind of item contributes 0, and `sign` is -1 iff a scared ghost reaches the running minimum. |
| Evaluation.BetterEvaluationIntended | multiagent-master/multiAgents.py:350-351 | With the guard on the current ghost's own distance, the heuristic is `-inf` iff some unscared ghost is within distance 2. It is never `+inf`. |
| Evaluation.GhostLoopsAgree | multiagent-master/multiAgents.py:346-351 | Wherever the as-written ghost loop runs to the end, the corrected loop ends in the same place. The corrected loop runs to the end whenever either does. |
| Evaluation.IntendedRefinesAsWritten | multiagent-master/multiAgents.py:350-351 | The corrected heuristic returns `-inf` only where the source does, and otherwise agrees with it. |
| Evaluation.StickySignRewardsUnscaredGhost | multiagent-master/multiAgents.py:346-353 | With a scared ghost at distance 3 followed by an unscared ghost at distance 2, the nearest ghost is the unscared one, yet the as-written heuristic returns `+2/3`: the sticky flag turns the ghost term into a reward. |
| Evaluation.GuardFiresOnFarGhost | multiagent-master/multiAgents.py:350-351 | A scared ghost at distance 1 followed by an unscared ghost at distance 5: no dangerous ghost is near, yet the source returns `-inf`, while the corrected heuristic returns 1. |

## Left out

- `ReflexAgent` and its evaluation function are not modelled. Its `getAction` breaks ties with `random.choice`, and its heuristic needs the engine's successor generator.
- `MultiAgentSearchAgent.__init__` is not modelled. Its string-to-function lookup (`util.lookup`) and `int(depth)` parsing are plumbing; the depth limit and the evaluation function are fields of `Game`.
- The game engine (`game.py`, `pacman.py`, `util.py`) is not part of this model. States, legal actions, successors, win/loss tests and `Directions.WEST` are abstract parameters. `manhattanDistance` is defined directly as `|x1-x2| + |y1-y2|`.
- `getNumAgents()` is a single constant of the game. The source queries it on every state, but it does not change during a game.
- IEEE floating point is not modelled: finite values are exact reals, and NaN and rounding are left out.
- Python 3 division is assumed. `Scores.DivBy` and `Evaluation.Closeness` divide as reals. Under Python 2, the integer operands at line 353 (`1 / (minFood + 1)` with integer grid distances) and line 301 (`total/len(...)` with an integer score total) would floor instead.
- A negative depth limit is not modelled: `maxDepth` is a `nat`. Line 124 accepts `int('-1')`, after which the test `self.depth == depth` never holds and the recursion stops only at a win, a loss or Python's recursion limit.
- ExpectimaxSearch.Expectimax: requires an evaluation function that never returns `+inf`, because `+inf + -inf` would be NaN. Both heuristics meet this, as `Evaluation.HeuristicsFitExpectimax` proves from the contracts of `Evaluation.ScoreEvaluation` and `Evaluation.BetterEvaluation`.
- A ghost whose legal-action list is empty raises `ZeroDivisionError` at line 301. The whole search then ends with the `DivisionByZero` outcome; the exception itself is not modelled further.
- Cost is not modelled: the absence of memoisation, the number of nodes visited and the depth of the recursion.
- The heuristic's view of the game state (`getFood().asList()`, `getCapsules()`, `getGhostStates()`) is taken as plain lists in the engine's order; the food grid itself is not modelled.

## Findings

| source | as written | input that shows it | evidently intended | confidence | as-written member | corrected member |
|---|---|---|---|---|---|---|
| multiagent-master/multiAgents.py:350-351 | `minGhost < 2 and ghost.scaredTimer == 0` tests the running minimum over all ghosts so far against the current ghost's timer | Pacman at (0,0), no food or capsules, score 0, a ghost at (1,0) scared for 5 moves, then an unscared ghost at (5,0): returns `-inf` | `-inf` only when some unscared ghost is itself within distance 2: the comment at line 345 ("if ghost gets too close, avoid"), the docstring at lines 321-323 and the reflex agent's per-ghost test at lines 89-92 all judge each ghost on its own. This input should score 1 | medium, not executed | Evaluation.GuardFiresOnFarGhost | Evaluation.BetterEvaluationIntended |
