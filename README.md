# TSP solvers: a verified model

This project models the three tour-search strategies of a small Python
repository for the symmetric travelling-salesman problem, and proves
properties of each:

- **Tabu search** (`tabu_search.py`, module `TabuSearch`). It starts from a
  shuffled tour and repeatedly swaps two positions of the current solution.
  The neighbour is adopted when it is strictly cheaper, or when the current
  solution's (first city, last city) pair is not in the tabu list. The best
  tour seen so far is kept. After each iteration the new current solution's
  endpoint pair goes into a bounded FIFO tabu list, `TabuSearch.TabuList`,
  a class whose `moves` field is updated in place.
- **Simulated annealing** (`simulates_annealing.py`, module `Annealing`). The
  same swap-neighbour walk, but a costlier neighbour is adopted when a
  probabilistic test succeeds. A neighbour of equal cost always passes that
  test, because `math.exp(0)` is 1.0 and `random.random()` is below 1.
- **A\*-style search** (`a_star.py`, module `AStar`). It runs a best-first
  search over `Node` values: a city, a parent link, the accumulated cost and
  a heuristic. The frontier is ordered by cost + heuristic. The `visited`
  set is shared by the whole search. The heuristic enumerates every
  ordering of a set of cities and takes the cheapest closed loop.
- **Its tour-returning copy** (`visu.py`, module `Visu`). It runs the same
  search, then walks the parent links of the final node and returns the
  cities in order.

Module `Tours` holds what the solvers share:

- `calculate_total_distance`, the closed-tour cost
- `generate_neighbor`, the swap of two positions
- `generate_initial_solution`, the shuffled `range(n)`

`tabu_search.py` and `simulates_annealing.py` each carry their own
identical copy of the cost and neighbour helpers. Likewise, `visu.py`
repeats `Node`, `calculate_heuristic` and the search loop of `a_star.py`.
Each of these is defined once here. The table below cites one copy and
names the other in the member's row.

How the source's features are represented:

- The distance matrix is a square `seq<seq<nat>>`.
- Tours are `seq<nat>`.
- `float('inf')` results are `None` of an `Option`.
- Randomness becomes explicit inputs:
  - the permutation `order` that `random.shuffle` applies
  - the swap positions `random.sample` draws, which must be two distinct
    positions
  - for annealing, a boolean per iteration that decides the test
    `random.random() < math.exp(...)` for a costlier neighbour
- The two local searches are written twice:
  - as imperative loops, over a per-iteration method `Iteration`
  - as pure folds `Run` of a one-iteration function `Step`

  Each loop is proved to compute `Run`, and the search properties are
  lemmas about `Run`.

What is proved, in brief:

- **Tabu list.** It stays within its capacity. Its newest entry is always
  the current solution's endpoint pair. Consequence: from the second
  iteration on, the tabu branch never admits a non-improving neighbour, so
  the walk becomes a strict descent (`DescentAfterFirstIteration`).
- **Both local searches.**
  - Every tour they hold is a permutation of the cities.
  - `best_distance` is the cost of `best_tour`.
  - It never increases.
  - It is at most the cost of the initial tour and of every neighbour
    generated, whether that neighbour was adopted or not.
  - `best_tour` is the initial tour or one of the neighbours generated.
- **Heuristic.** It is exactly the minimum, over all orderings of the
  remaining cities, of the closed loop through them (lower bound and
  attained).
- **A\*.**
  - The search loop is specified by a trace of its states, each a multiset
    of queued nodes and a visited set. Each step pops a node of least
    priority. It drops the node when its city is visited. Otherwise it
    visits the city and pushes exactly the children for the unvisited
    cities, in increasing order. The search records this trace as ghost
    state, and the trace is fixed once the popped nodes are.
  - The returned node is the pop that completes `visited`. Its city is the
    one city still missing.
  - It returns `None` exactly when there are no cities.
  - Otherwise the returned node's parent chain starts at the start city,
    repeats no city, and costs what the node's `cost` field says.
  - The value `astar_tsp` returns is that chain closed by the edge back to
    the start city.
  - The loop terminates: each pass either discards a stale node or visits
    a new city.

Because `visited` is shared across branches rather than kept per path, the
chain of the node that completes the search need not contain every city.
Take cities 0, 1, 2 with `d[0][1] = 1`, `d[0][2] = 2`, `d[1][2] = 10`, a
symmetric matrix and start city 0:

1. The root pushes children for 1 (priority 3) and 2 (priority 6).
2. Popping 1 marks {0, 1} and pushes a child for 2 (priority 24).
3. Popping the root's child for 2 then completes `visited`.

The cost returned is 4, for the chain `[0, 2]`, which skips city 1. The
contracts therefore state that the chain is duplicate-free and at most
`num_cities` long, not that it is a permutation. The code's behaviour is
followed here, although the repository describes the A\* result as a tour
through every city.

The comment in `calculate_heuristic` speaks of a minimum-spanning-tree
cost. The code enumerates permutations instead, and the model follows the
code. `Node(start_city)` has heuristic 0, as the code says.

## Model

| member | source | states |
|---|---|---|
| Tours.TotalDistance | tabu_search.py:5-10 | the accumulating loop returns the closed-tour cost: consecutive edges plus the edge from the last city back to the first (also the copy at simulates_annealing.py:6-11) |
| Tours.TourCostRotate | tabu_search.py:5-10 | the closed-tour cost does not depend on which city the tour is listed from |
| Tours.TourCostReversed | tabu_search.py:5-10 | on a symmetric matrix a tour walked backwards costs the same |
| Tours.GenerateNeighbor | tabu_search.py:17-22 | the neighbour is a copy of the solution with the two sampled positions exchanged (also the copy at simulates_annealing.py:13-18) |
| Tours.SwappedExchanges | tabu_search.py:19-21 | the swap exchanges exactly the two chosen entries, leaves every other entry in place and keeps the same multiset of cities |
| Tours.SwapInvolution | tabu_search.py:19-21 | swapping the same two positions again restores the original tour |
| Tours.SwapNeighbor | tabu_search.py:48 | the neighbour each iteration of either local search generates from a permutation of the cities is again a permutation (also simulates_annealing.py:37) |
| Tours.SwapPreservesPermutation | tabu_search.py:17-22 | a swap neighbour of a permutation of the cities is again a permutation |
| Tours.Shuffled | tabu_search.py:14 | the shuffled list has the same length, and position k holds the entry the shuffle permutation sends there |
| Tours.InitialSolution | tabu_search.py:12-15 | the shuffled range(n) lists every city 0..n-1 exactly once, whatever permutation the shuffle draws (also the start tour at simulates_annealing.py:24-25) |
| Tours.DistinctBound | a_star.py:43-45 | a duplicate-free list of cities below n has at most n entries, which bounds the returned chain to num_cities cities (also visu.py:40-45) |
| TabuSearch.IsTabuMove | tabu_search.py:24-25 | a pair is tabu exactly when it occurs at some position of the tabu list |
| TabuSearch.UpdatedTabu | tabu_search.py:27-30 | the list grows by one below capacity and keeps its length at capacity; the result is always the newest entries of the old list followed by the move |
| TabuSearch.TabuListBounded | tabu_search.py:27-30 | with a capacity of at least one, a list within capacity stays within capacity and ends with the move just recorded |
| TabuSearch.TabuList.Update | tabu_search.py:27-30 | the in-place pop(0)/append leaves `moves` equal to the updated list |
| TabuSearch.TabuList.constructor | tabu_search.py:43 | the tabu list starts empty |
| TabuSearch.Start | tabu_search.py:35-43 | the shuffled range(n) is both the current and the best solution, the tabu list starts empty, and this state (with best_distance the tour's cost) is valid for every capacity |
| TabuSearch.Step | tabu_search.py:46-64 | one iteration keeps the state valid (permutations, best_distance equals the best tour's cost, list within capacity), records the new current solution's endpoints as newest tabu entry, never raises best_distance and leaves it at most the neighbour's cost |
| TabuSearch.Run | tabu_search.py:46-64 | after any number of iterations the state is valid and best_distance is at most its initial value |
| TabuSearch.TabuAcceptance | tabu_search.py:55-56 | the neighbour is adopted exactly when it is strictly cheaper or the current solution's endpoint pair is not tabu; otherwise the current solution stays |
| TabuSearch.TabuListTracksCurrent | tabu_search.py:63-64 | after every iteration the tabu list holds between one and max_tabu_size entries and its newest entry is the current solution's endpoint pair |
| TabuSearch.DescentAfterFirstIteration | tabu_search.py:55-64 | from the second iteration on, the neighbour is adopted only when strictly cheaper, so the current cost never increases |
| TabuSearch.FirstIterationAccepts | tabu_search.py:43-56 | in the first iteration the tabu list is empty and the neighbour is always adopted |
| TabuSearch.BestStep | tabu_search.py:58-61 | one iteration never raises best_distance |
| TabuSearch.BestNonIncreasing | tabu_search.py:46-64 | best_distance after k iterations is at most best_distance after any j <= k iterations |
| TabuSearch.NeighborStep | tabu_search.py:59-61 | after iteration j, best_distance is at most the cost of the neighbour generated in that iteration |
| TabuSearch.BestBelowNeighbors | tabu_search.py:46-64 | after m iterations, best_distance is at most the cost of every neighbour generated so far, adopted or not |
| TabuSearch.BestOrigin | tabu_search.py:58-61 | names the iteration whose neighbour best_solution is after m iterations, or 0 when it is still the initial solution |
| TabuSearch.BestFrom | tabu_search.py:58-61 | an iteration either keeps best_solution or replaces it by the neighbour it generated |
| TabuSearch.BestSeen | tabu_search.py:39-61 | best_solution is always the initial solution or a neighbour generated in one of the iterations so far |
| TabuSearch.SearchOutcome | tabu_search.py:32-66 | the result is a permutation of the cities, best_distance is its cost, it is at most the initial tour's cost and every generated neighbour's cost, and the tour is the initial one or a generated neighbour |
| TabuSearch.Iteration | tabu_search.py:47-64 | one pass of the loop body, with the tabu list updated in place, moves the state exactly as Step does |
| TabuSearch.TabooSearch | tabu_search.py:32-66 | taboo_search returns the best tour and distance of Run after max_iterations iterations: a permutation, with its cost, no worse than the initial tour or any neighbour generated, and itself the initial tour or a generated neighbour |
| Annealing.Start | simulates_annealing.py:24-29 | the shuffled tour is both the current and the best tour, with its cost |
| Annealing.ProbabilisticTest | simulates_annealing.py:44 | a neighbour of equal cost passes the test, since exp(0) = 1.0 exceeds every random() in [0, 1); for a costlier neighbour the random draw alone decides |
| Annealing.Step | simulates_annealing.py:35-53 | one iteration keeps both tours permutations with best_distance the best tour's cost, never raises best_distance and leaves it at most the neighbour's cost |
| Annealing.Run | simulates_annealing.py:35-53 | after any number of iterations the state is valid and best_distance is at most its initial value |
| Annealing.NeighborAt | simulates_annealing.py:37 | the neighbour generated in iteration j is a permutation of the cities |
| Annealing.AcceptanceRule | simulates_annealing.py:44-45 | a neighbour that is not costlier is adopted whatever the random draw (strictly cheaper by the first disjunct, equal cost because exp(0) = 1.0 exceeds random()); for a costlier neighbour the draw alone decides |
| Annealing.CurrentFromNeighbor | simulates_annealing.py:44-45 | the current tour only ever changes to the neighbour generated in that iteration |
| Annealing.BestStep | simulates_annealing.py:48-50 | one iteration never raises best_distance |
| Annealing.BestNonIncreasing | simulates_annealing.py:35-53 | best_distance after k iterations is at most best_distance after any j <= k iterations |
| Annealing.NeighborStep | simulates_annealing.py:48-50 | after iteration j, best_distance is at most the cost of the neighbour generated in that iteration |
| Annealing.BestBelowNeighbors | simulates_annealing.py:35-53 | after m iterations, best_distance is at most the cost of every neighbour generated so far, adopted or not |
| Annealing.BestOrigin | simulates_annealing.py:48-50 | names the iteration whose neighbour best_tour is after m iterations, or 0 when it is still the initial tour |
| Annealing.BestFrom | simulates_annealing.py:48-50 | an iteration either keeps best_tour or replaces it by the neighbour it generated |
| Annealing.BestSeen | simulates_annealing.py:28-50 | best_tour is always the initial tour or a neighbour generated in one of the iterations so far |
| Annealing.SearchOutcome | simulates_annealing.py:20-55 | the result is a permutation of the cities, best_distance is its cost, it is at most the initial tour's cost and every generated neighbour's cost, and the tour is the initial one or a generated neighbour |
| Annealing.NoIterations | simulates_annealing.py:24-29 | with no iterations the result is the shuffled tour and its cost |
| Annealing.Iteration | simulates_annealing.py:37-50 | one pass of the loop body moves the state exactly as Step does |
| Annealing.SimulatedAnnealing | simulates_annealing.py:20-55 | simulated_annealing returns the best tour and distance of Run after num_iterations iterations: a permutation, with its cost, no worse than the initial tour or any neighbour generated, and itself the initial tour or a generated neighbour |
| AStar.MinOver | a_star.py:20-27 | the running minimum over candidate first cities below k exists exactly when the set has a member below k |
| AStar.Heuristic | a_star.py:16-29 | calculate_heuristic(c, s) is the closed-loop cost c -> ordering of s -> c of some ordering of s, a cost the enumeration actually meets (also the copy at visu.py:15-26) |
| AStar.MinLoopLower | a_star.py:20-27 | the minimum is at most the closed-loop cost of every ordering of the remaining cities |
| AStar.MinLoopAttained | a_star.py:20-27 | some ordering of the remaining cities achieves the minimum |
| AStar.HeuristicIsMinimum | a_star.py:16-29 | calculate_heuristic(c, s) is the least cost, over all orderings of s, of leaving c, visiting s in that order and returning to c (also the copy at visu.py:15-26) |
| AStar.HeuristicEmpty | a_star.py:19-29 | over no remaining cities the single empty ordering gives d[c][c] |
| AStar.HeuristicSingleton | a_star.py:16-29 | over one remaining city x the heuristic is the round trip c -> x -> c |
| AStar.Less | a_star.py:12-13 | Node.__lt__ compares cost + heuristic and is total on it: a node is not below another exactly when its priority is at least the other's |
| AStar.Child | a_star.py:49-51 | the node pushed for next_city extends its parent's chain by that city |
| AStar.RootOk | a_star.py:33 | the initial node has the chain [start], in range, with cost 0 |
| AStar.ChildOk | a_star.py:47-51 | a child for a city off its parent's chain extends the chain by that city, stays duplicate-free, and its cost is the edge sum along the new chain |
| AStar.HeapPop | a_star.py:38 | heappop removes one node of least cost + heuristic (Node.__lt__) and leaves the other nodes in the queue |
| AStar.ChildrenUpTo | a_star.py:47-52 | the children pushed for the cities below k: exactly one per unvisited city, each with the parent's cost plus the edge and the heuristic over the visited set, in increasing order of city |
| AStar.PushChildren | a_star.py:47-52 | the expansion loop appends exactly ChildrenOf (the children for all cities) to the queue |
| AStar.TraceExtend | a_star.py:37-52 | a trace of the loop extended by one more pass is a trace |
| AStar.TraceDetermined | a_star.py:37-52 | two traces that pop the same nodes pass through the same states: the only freedom is which least node heappop takes |
| AStar.DiscardOk | a_star.py:38-40 | popping a node whose city is already visited keeps the search invariant |
| AStar.VisitOk | a_star.py:40-52 | marking a new city visited and pushing its children keeps the search invariant: every queued node is good, and every unvisited city has a pending node |
| AStar.PopLeast | a_star.py:38 | on the multiset of queued nodes, heappop takes out one node of least priority |
| AStar.DiscardPass | a_star.py:38-40 | dropping a popped node whose city is visited is a transition of the loop that keeps the search invariant and shortens the queue |
| AStar.VisitPass | a_star.py:40-52 | visiting a new city that does not complete `visited` and pushing its children is a transition of the loop that keeps the search invariant |
| AStar.FinishPass | a_star.py:40-43 | a least node whose city completes `visited` ends the search, and it is good |
| AStar.VisitNext | a_star.py:37-52 | each pass pops a node of least priority and either makes a transition of the loop (drop a stale node, or visit one new city and push its children) or is the final pop that completes `visited` with a good node |
| AStar.Search | a_star.py:32-54 | the search's recorded states form a trace from [Root(start)] and {}; it returns None exactly when there are no cities, with the queue empty; otherwise the least node popped from the last state, whose city is the one city not yet visited and whose chain starts at the start city, repeats no city and costs the node's cost; with one city it returns the initial node (also the loop of visu.py:29-54) |
| AStar.FinalCity | a_star.py:40-43 | when the popped node's city brings `visited` to num_cities, `visited` holds every city |
| AStar.ClosedChainCost | a_star.py:43-45 | the returned cost plus the closing edge is the closed-tour cost of the chain, which is at most num_cities long |
| AStar.AStarTsp | a_star.py:32-54 | astar_tsp returns inf exactly when the search finds no node, which is exactly when there are no cities; otherwise the found node's cost plus the edge back to the start city, which is the closed-tour cost of its duplicate-free chain from the start city; with one city, d[start][start] |
| Visu.ParentChainTour | visu.py:41-45 | walking the parent links and reversing yields the node's chain from the root |
| Visu.AStarTour | visu.py:29-54 | astar_tsp returns inf exactly when the search finds no node, which is exactly when there are no cities; otherwise the parent chain of the found node, a duplicate-free route from the start city of at most num_cities cities; with one city, [start] |

## Left out

- Plotting (`plot_tour`, matplotlib), coordinate generation, NumPy seeding and the `__main__` blocks are not modelled. They only produce the input matrix or display the result.
- Distances are floating point in the source and `nat` here, so every comparison is exact. Rounding is not modelled.
- The temperature, its cooling (`temperature *= cooling_rate`) and the `math.exp` acceptance probability are not modelled. For a costlier neighbour the outcome of the probabilistic test is an input bit per iteration, so `Annealing.Step` holds for whatever the random draw was. A neighbour of equal cost is always adopted, as the source does for any positive temperature.
- `Annealing.Step`: the source divides by the temperature on line 44 whenever the neighbour is not strictly cheaper. The temperature reaches 0.0 with `initial_temperature = 0`, or once `1000 * 0.995**k` underflows after about 150,000 iterations. The repository's callers pass NumPy matrices (simulates_annealing.py:78-81, gui.py:57-58), so the distances are `numpy.float64`. At temperature 0.0 the division then yields nan for an equal-cost neighbour and -inf for a costlier one, with no exception. `math.exp(nan)` is nan and `random.random() < nan` is False, so the source rejects an equal-cost neighbour at temperature 0. The model always adopts it (`Annealing.ProbabilisticTest`) and does not capture this case. Only for a plain-Python matrix does the division raise ZeroDivisionError.
- The random number generator is not modelled. `random.shuffle` is the permutation `order` and `random.sample` is the sequence of swap pairs. The model allows any permutation and any pair of distinct positions, but does not capture their distribution.
- The heap layout of `heapq` is not modelled. `AStar.HeapPop` is a linear scan, and its contract allows any node of least priority to be taken, which covers any tie-breaking the heap performs.
- `num_cities` and `distance_matrix` are module globals in the A\* sources. Here they are the parameter `d` and its length.
- `TabuSearch.TabooSearch`: requires a capacity of at least one when there are iterations. With `max_tabu_size = 0` the source's `pop(0)` on the empty list raises IndexError in the first iteration.
- `TabuSearch.TabooSearch`: requires a non-empty matrix, and swap pairs of distinct positions. With no cities the source's `tour[-1]` raises IndexError. With one city `random.sample(range(1), 2)` raises ValueError. These error paths are preconditions rather than modelled results.
- `Annealing.SimulatedAnnealing`: requires a non-empty matrix and swap pairs of distinct positions, for the same two errors the source raises.
- `AStar.AStarTsp`: start cities outside 0..num_cities-1 are not modelled (`start: nat` with `start < |d|` when there are cities). In the source, a start of num_cities or more raises IndexError. A negative start from -num_cities to -1 does not raise: Python's negative indexing wraps it to row num_cities + start, `visited` holds the negative number, and the loop at a_star.py:37-52 runs and returns a number.
- `Visu.AStarTour`: carries the same requirement on the start city, for the same reasons (visu.py:29-54).
- The `__main__` block of visu.py calls its `astar_tsp` twice (lines 78 and 81). Both calls return the tour, and the first one is printed as if it were a cost. The script is not modelled; `Visu.AStarTour` models the function it calls.
- `AStar.AStarTsp`: states that the route is duplicate-free and at most `num_cities` long, not that it is a permutation. As explained above, the shared `visited` set lets the final chain skip cities.
