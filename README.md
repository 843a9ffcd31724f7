# TurismoCWB optimisation engine in Dafny

This project models the optimisation engine of the TurismoCWB tourist-route
planner (`algoritmos.py`) and proves properties of it. The engine has three
cooperating parts.

- **Nearest-neighbour tour** (`_calculate_heuristic_upper_bound`). It builds a
  greedy closed tour from position 0, and that tour seeds the exact solver's
  upper bound.
- **Branch-and-Bound TSP** (`_solve_tsp_branch_and_bound`, run by
  `run_tsp_experiment`, counting into `BnBStats`). It is an iterative
  depth-first search over an explicit LIFO stack of `(path, cost)` states.
  It prunes with a strict `<` against a mutable incumbent.
- **Budgeted greedy route** (`solve_budget_route_heuristic`). It grows an open
  route from a start point. Each step appends the affordable unvisited point
  with the best `popularity / (travel + visit + 1)` score.

Two helpers serve all three parts:
- `calculate_distance_matrix`: n×n, zero diagonal;
- `calculate_travel_time`: minutes at an average speed, infinite when the
  speed is not positive.

Layout, one module per file:

| file | module | content |
|---|---|---|
| `common.dfy` | `Common` | `Option`; `ExtReal` (a real or the `float('inf')` sentinel); the point record `Poi`; matrix shape predicates; counting lemmas about repetition-free position sequences |
| `distances.dfy` | `Distances` | the distance matrix, filled into an `array2` by nested loops as the source fills its `np.zeros` array; the travel-time conversion |
| `tours.dfy` | `Tours` | path cost, Hamiltonian orders and closed tours |
| `nearest_neighbour.dfy` | `NearestNeighbour` | the heuristic as a `while` loop over `path`, `visited` and `totalCost` |
| `branch_and_bound.dfy` | `BranchAndBound` | `BnBStats` as a class whose fields the search updates in place, and the stack search |
| `experiment.dfy` | `Experiment` | one TSP experiment: matrix, heuristic seed, exact search, results |
| `budget_route.dfy` | `BudgetRoute` | the `while True` route builder and its candidate scan |

Main results:
- **Exact solver optimality.** With non-negative distances, the final bound is
  at most the cost of every closed tour through position 0. The reported path
  is a closed tour costing exactly the bound. The bound never increases, and
  it changes only on a strict improvement.
- **Optimality proof.** It uses a coverage invariant: every Hamiltonian order
  either has a prefix on the stack or already costs at least the bound. One
  lemma keeps this invariant for each case of the source: pop, close, push,
  prune and skip.
- **Termination.** A ghost measure sums the subtree sizes of the states on
  the stack, and each expansion lowers it. The same measure bounds
  `nodes_expanded`.
- **Nearest-neighbour tour.** It is a closed tour. Every step takes the
  nearest unvisited position, lowest position on ties. Its cost is the sum of
  its edges.
- **Budget route.** The route is the unique greedy route: each step is the
  best candidate, and no candidate remains at the end. Every prefix is within
  both budgets, and no identifier repeats.

## Model

| member | source | states |
|---|---|---|
| `Distances.DistanceMatrix` | algoritmos.py:75-88 | the matrix over n points is n×n with a zero diagonal |
| `Distances.CalculateDistanceMatrix` | algoritmos.py:75-88 | the nested loops leave entry (i, j) equal to the pairwise distance for i ≠ j and 0 on the diagonal; the array's rows are exactly `DistanceMatrix` |
| `Distances.DistanceMatrixShape` | algoritmos.py:80-88 | the matrix is symmetric when the pairwise distance is, and non-negative when it is |
| `Distances.TravelTime` | algoritmos.py:90-94 | infinite exactly when the speed is ≤ 0; otherwise minutes × speed = distance × 60, and non-negative for a non-negative distance |
| `Distances.TravelTimeMonotone` | algoritmos.py:90-94 | at a fixed positive speed a longer distance never takes fewer minutes |
| `Tours.PathCostAppend` | algoritmos.py:121-122 | extending a path by one position adds exactly the new edge to its cost |
| `Tours.PathCostPrefix` | algoritmos.py:159-166 | with non-negative distances a prefix never costs more than the path it begins, so a partial cost is a lower bound on every completion |
| `Tours.TourVisitsAll` | algoritmos.py:110-131 | a closed tour visits every position 0 .. n-1 before its return to 0 |
| `NearestNeighbour.NearestUnvisited` | algoritmos.py:111-119 | the ascending scan with a strict `<` returns -1 and an infinite minimum exactly when every position is visited; otherwise an unvisited position at minimum distance, lowest among equals, and its distance |
| `NearestNeighbour.GreedyStepsExtend` | algoritmos.py:121-124 | appending the nearest unvisited position keeps the path repetition-free and every step greedy, and adds it to the visited set |
| `NearestNeighbour.GreedyPathStep` | algoritmos.py:121-124 | one iteration keeps the loop state: a greedy repetition-free path from 0 whose running cost is its edge sum, with `visited` its set of positions |
| `NearestNeighbour.GreedyPathFull` | algoritmos.py:110-126 | when nothing is left unvisited the path holds all n positions |
| `NearestNeighbour.GreedyPathClose` | algoritmos.py:128-129 | returning to 0 from a full greedy path gives a nearest-neighbour tour whose cost is the running cost plus the closing edge |
| `NearestNeighbour.CloseGreedyTour` | algoritmos.py:128-131 | the final step returns a nearest-neighbour tour and its exact cost |
| `NearestNeighbour.HeuristicUpperBound` | algoritmos.py:100-131 | for n ≥ 1 the result is a closed tour from 0 (length n+1, each position once before the return) whose every step takes the nearest unvisited position, lowest on ties, and the returned cost is its edge sum |
| `BranchAndBound.BnBStats.constructor` | algoritmos.py:17-23 | a fresh accumulator has an infinite bound, an empty best path and zero counters |
| `BranchAndBound.BnBStats.Reset` | algoritmos.py:25-31 | resetting restores the infinite bound, the empty best path and zero counters |
| `BranchAndBound.RootCoversAll` | algoritmos.py:139 | the root state ([0], 0) is a prefix of every Hamiltonian order |
| `BranchAndBound.PopState` | algoritmos.py:141-142 | after a pop, every order is covered by the rest of the stack or extends the popped path |
| `BranchAndBound.ClosedTour` | algoritmos.py:146-148 | a full-length state closed back to 0 is a tour whose cost is the state's cost plus the closing edge |
| `BranchAndBound.CloseState` | algoritmos.py:146-153 | closing a full-length state with the strict-improvement rule leaves every order covered |
| `BranchAndBound.ChildPushed` | algoritmos.py:163-164 | pushing the child through `next` covers every order that continues the popped path with `next` |
| `BranchAndBound.ChildPruned` | algoritmos.py:161-166 | with non-negative distances a child not strictly below the bound prunes only orders already costing at least the bound |
| `BranchAndBound.ChildSkipped` | algoritmos.py:156-157 | a position already on the path continues no order |
| `BranchAndBound.EmptyStackOptimal` | algoritmos.py:141 | once the stack is empty every closed tour costs at least the bound |
| `BranchAndBound.ChildrenWellFormed` | algoritmos.py:156-164 | every pushed child is a valid state that extends the popped path by one position and whose cost was strictly below the bound when pushed |
| `BranchAndBound.ChildrenAscending` | algoritmos.py:156-164 | children are pushed in ascending order of the position they add |
| `BranchAndBound.ChildrenPartition` | algoritmos.py:156-166 | among successors 0 .. k-1, the pushed ones and the pruned ones together number as many as the positions not on the path |
| `BranchAndBound.AllSuccessorsAccounted` | algoritmos.py:156-166 | one expansion pushes or prunes exactly n − \|path\| successors |
| `BranchAndBound.ExpansionShrinks` | algoritmos.py:155-166 | expanding a state that is not full-length strictly lowers the termination measure |
| `BranchAndBound.PushStep` | algoritmos.py:163-164 | a pushed successor keeps the expansion loop's invariant: stack, validity, coverage, prune count |
| `BranchAndBound.PruneStep` | algoritmos.py:165-166 | a pruned successor keeps the expansion loop's invariant and counts exactly one prune |
| `BranchAndBound.SkipStep` | algoritmos.py:157 | a successor already on the path keeps the expansion loop's invariant and counts nothing |
| `BranchAndBound.ExamineSuccessor` | algoritmos.py:157-166 | one pass of the `for` loop: push when strictly below the bound, otherwise count one prune; bound, best path and expansions unchanged |
| `BranchAndBound.ExpandChildren` | algoritmos.py:155-166 | the stack grows by exactly the children in ascending order, pruning count grows by the prunes, bound and best path unchanged, every order still covered, measure lowered |
| `BranchAndBound.CloseTour` | algoritmos.py:146-153 | the closed cost replaces bound and best path (the path plus 0) only when strictly smaller; the incumbent stays a closed tour costing exactly the bound |
| `BranchAndBound.ProcessState` | algoritmos.py:144-166 | a popped state is closed or expanded; the stack stays valid and covering, the bound stays or strictly drops, at most n − 1 prunes are counted, and the termination measure drops |
| `BranchAndBound.SearchStep` | algoritmos.py:141-166 | one loop iteration keeps the search invariant: valid covering stack, incumbent tour at the bound, one more expansion, at most n − 1 more prunes |
| `BranchAndBound.SearchIteration` | algoritmos.py:141-166 | one pass of the `while stack` loop keeps the search invariant with one more pop, and lowers the termination measure |
| `BranchAndBound.SearchDone` | algoritmos.py:141-166 | with the stack empty, the bound is at most every closed tour's cost under non-negative distances, expansions are between 1 and the tree size, and prunes are at most n − 1 per expansion |
| `BranchAndBound.SolveBranchAndBound` | algoritmos.py:133-166 | the incumbent stays a closed tour costing the bound; the bound only strictly decreases or stays; with non-negative distances it is at most every closed tour's cost; expansions grow by at least 1 and at most the search-tree size; prunes never decrease and grow by at most n − 1 per expansion |
| `BranchAndBound.BnBStats.GetResults` | algoritmos.py:33-40 | the reported metrics are the current bound as the tour cost, the incumbent path, and the expansion and pruning counters |
| `Experiment.RunTspExperiment` | algoritmos.py:168-204 | `None` exactly when fewer than 2 points; otherwise a closed tour with its exact cost, equal to the nearest-neighbour tour or strictly cheaper than it, expansions between 1 and the tree size, prunes at most n − 1 per expansion, and with non-negative distances no closed tour is cheaper |
| `Experiment.SolveOnMatrix` | algoritmos.py:186-204 | seeded with the nearest-neighbour tour and fresh counters, the search reports a solved experiment over the matrix, optimal under non-negative distances |
| `BudgetRoute.SelectCandidate` | algoritmos.py:243-268 | no candidate exactly when no unvisited point fits both budgets with a score above −1; otherwise the qualifying point with the greatest score, earliest in list order among equals |
| `BudgetRoute.SolveBudgetRoute` | algoritmos.py:210-298 | unknown start: empty route, no summary; start over either budget: empty route, no summary; otherwise the route is the points of the greedy route from the start and the summary holds its popularity, minutes and cost with both budgets |
| `BudgetRoute.TracksStep` | algoritmos.py:270-280 | appending the best candidate and adding its minutes, cost and popularity keeps the loop variables equal to the route's totals |
| `BudgetRoute.GreedyPrefixFacts` | algoritmos.py:229-280 | a greedy prefix starts at the start point, repeats no position, and is within both budgets |
| `BudgetRoute.GreedyPrefixClosed` | algoritmos.py:242-280 | every non-empty prefix of a greedy prefix is one |
| `BudgetRoute.EveryPrefixWithinBudget` | algoritmos.py:261-277 | cumulative minutes and cost stay within the budgets after every append, not only at the end |
| `BudgetRoute.RouteNeverRepeatsId` | algoritmos.py:249-279 | with a well-formed index a greedy route never repeats an identifier |
| `BudgetRoute.BestCandidateUnique` | algoritmos.py:264-268 | the strict `>` scan leaves at most one best candidate |
| `BudgetRoute.GreedyPrefixStep` | algoritmos.py:270-280 | every step of a greedy prefix is the best candidate after the steps before it |
| `BudgetRoute.GreedyPrefixesAgree` | algoritmos.py:242-286 | two greedy prefixes from the same start agree on their common length |
| `BudgetRoute.ShorterPrefixHasCandidate` | algoritmos.py:271-286 | a greedy prefix strictly shorter than another still has a qualifying candidate, so it cannot be a stopping point |
| `BudgetRoute.GreedyRouteUnique` | algoritmos.py:242-286 | the greedy route is determined by its inputs: two routes meeting its definition are equal |
| `BudgetRoute.StopsOnlyWhenNothingFits` | algoritmos.py:244-286 | with non-negative distances, visit times and popularity, the builder stops only when no unvisited point fits the remaining budget |
| `BudgetRoute.NonNegativeScoreDefined` | algoritmos.py:263-264 | with non-negative distances and visit times the score's divisor is never zero |
| `BudgetRoute.RouteAppend` | algoritmos.py:276-278 | appending a point adds its travel and visit minutes, its entry cost and its popularity to the route's totals |
| `BudgetRoute.RoutePointsAppend` | algoritmos.py:279-280 | appending a position appends its point to the route and its identifier to the visited set |
| `BudgetRoute.IdVisited` | algoritmos.py:249 | with a well-formed index, a point's identifier is visited exactly when its position is on the route |

## Left out

- `load_data` is not part of this model. It reads a CSV file, fills missing values and imputes medians, so it is file I/O and library calls.
- The `haversine` call is a function parameter of `CalculateDistanceMatrix` and `RunTspExperiment`. Its trigonometric floating point belongs to a third-party library.
- Floating point is modelled as Dafny `real`, with no rounding, no NaN and no overflow. `float('inf')` is `ExtReal.Infinity`.
- The `time` result, `start_time`, `end_time` and the `time.time()` calls are left out, because wall-clock timing is not modellable behaviour.
- The experiment name, `index_to_name`, `path_names`, the printed message for fewer than two points, and every `log_messages` entry are left out, because they are presentation text only.
- The point record keeps only the fields the engine reads: identifier, latitude, longitude, popularity, entry cost and visit minutes. The display name, category and rating are left out.
- `app.py` and `solver_pulp.py` are not part of this model. One is the dashboard; the other hands an integer program to an external solver.
- BnBStats.GetResults: the `time` entry of the returned dictionary is left out with the other timing fields.
- SolveBudgetRoute: the default `start_node_id=1` is not modelled; callers pass the start identifier explicitly.
- SolveBudgetRoute: it requires a well-formed identifier index (`WellIndexed`). The index is built from the same list of points, so the uncaught `KeyError` and `IndexError` lookups at algoritmos.py:224, 246, 251 and 272 cannot happen. The caught `KeyError` for an unknown start is modelled.
- SolveBudgetRoute: it requires a score divisor that is never zero (`ScoreDefined`) instead of modelling the `ZeroDivisionError` the source would raise. `NonNegativeScoreDefined` shows that non-negative data always meets it.
- SolveBudgetRoute: an empty summary `{}` is modelled as `None`.
- SelectCandidate: it returns the candidate's position rather than the point record. The source's `if best_candidate:` tests a non-empty record, so it holds exactly when a candidate was chosen.
- SelectCandidate: the scan starts from a best score of −1 with a strict `>`, exactly as the code does. So a point that fits but scores −1 or less (negative popularity) is never chosen. The closing log message at algoritmos.py:285 says no other point could be added within the budget, but the code stops as soon as nothing fits with a score above −1; the model follows the code. `StopsOnlyWhenNothingFits` recovers the plain "nothing fits" reading for non-negative popularity.
- HeuristicUpperBound: it requires n ≥ 1. With an empty matrix the source fails at the closing lookup at algoritmos.py:128.
- SolveBranchAndBound: the optimality ensures is conditional on non-negative distances, the same assumption the pruning test relies on. The great-circle distance is non-negative.
- SolveBranchAndBound: the exact numbers of expansions and prunes are not given in closed form. The contract bounds expansions by the size of the search tree, and prunes by n − 1 per expansion. `ExpandChildren` states the exact per-expansion counts.
- The integers of the source are Python's unbounded integers, so no wrap-around needs modelling.
