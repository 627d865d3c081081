// Tabu search (tabu_search.py). The main loop is an imperative method whose
// state after every iteration is pinned to the pure specification `Run`, a
// left fold of `Step` over the swap pairs drawn so far; the properties of the
// search are lemmas about `Step` and `Run`.
module TabuSearch {
  import opened Tours

  /** A tabu entry: the (first city, last city) pair of a solution. */
  type Move = (nat, nat)

  function Endpoints(s: seq<nat>): Move
    requires |s| > 0
  {
    (s[0], s[|s| - 1])
  }

  /** is_tabu_move: membership of the pair in the tabu list. */
  predicate IsTabuMove(move: Move, tabuList: seq<Move>): (r: bool)
    ensures r <==> exists i :: 0 <= i < |tabuList| && tabuList[i] == move
  {
    move in tabuList
  }

  /** update_tabu_list as a value: drop the oldest entry when the list is at
      (or above) capacity, then append the new move. pop(0) on an empty list
      fails, hence the precondition. The result keeps the newest entries of
      `tabuList + [move]`. */
  function UpdatedTabu(tabuList: seq<Move>, maxTabuSize: nat, move: Move): (r: seq<Move>)
    requires |tabuList| >= maxTabuSize ==> |tabuList| > 0
    ensures |r| == if |tabuList| < maxTabuSize then |tabuList| + 1 else |tabuList|
    ensures r == (tabuList + [move])[|tabuList| + 1 - |r|..]
  {
    NewestEntries(tabuList, move);
    if |tabuList| >= maxTabuSize then tabuList[1..] + [move] else tabuList + [move]
  }

  /** Both ways of updating the list keep a suffix of `tabuList + [move]`. */
  lemma NewestEntries(tabuList: seq<Move>, move: Move)
    ensures tabuList + [move] == (tabuList + [move])[0..]
    ensures |tabuList| > 0 ==> tabuList[1..] + [move] == (tabuList + [move])[1..]
  {
  }

  /** Once non-empty and within a capacity of at least one, the tabu list stays
      within capacity, and its newest entry is the move just recorded. */
  lemma TabuListBounded(tabuList: seq<Move>, maxTabuSize: nat, move: Move)
    requires 1 <= maxTabuSize && |tabuList| <= maxTabuSize
    ensures |UpdatedTabu(tabuList, maxTabuSize, move)| <= maxTabuSize
    ensures var r := UpdatedTabu(tabuList, maxTabuSize, move); r[|r| - 1] == move
  {
  }

  /** The tabu list object that update_tabu_list mutates in place. */
  class TabuList {
    var moves: seq<Move>

    constructor ()
      ensures moves == []
    {
      moves := [];
    }

    /** update_tabu_list: pop(0) when full, then append. */
    method Update(maxTabuSize: nat, move: Move)
      requires |moves| >= maxTabuSize ==> |moves| > 0
      modifies this
      ensures moves == UpdatedTabu(old(moves), maxTabuSize, move)
    {
      if |moves| >= maxTabuSize {
        moves := moves[1..];
      }
      moves := moves + [move];
    }
  }

  // ---------------------------------------------------------------------------
  // Specification of the main loop

  datatype State = State(current: seq<nat>, best: seq<nat>, bestDistance: nat, tabuList: seq<Move>)

  /** What holds of the search state between iterations. */
  predicate Valid(d: seq<seq<nat>>, maxTabuSize: nat, s: State)
  {
    IsMatrix(d) && |d| > 0 &&
    IsPermutation(s.current, |d|) && IsPermutation(s.best, |d|) &&
    s.bestDistance == TourCost(d, s.best) &&
    |s.tabuList| <= maxTabuSize
  }

  /** The state before the first iteration: shuffled tour, its cost, empty
      tabu list. */
  function Start(d: seq<seq<nat>>, order: seq<nat>): (s: State)
    requires IsMatrix(d) && |d| > 0 && IsPermutation(order, |d|)
    ensures forall maxTabuSize: nat :: Valid(d, maxTabuSize, s)
    ensures s.current == s.best == InitialSolution(|d|, order) && s.tabuList == []
  {
    var initial := InitialSolution(|d|, order);
    State(initial, initial, TourCost(d, initial), [])
  }

  /** One iteration of the main loop, with the swap positions `sw`. */
  function Step(d: seq<seq<nat>>, maxTabuSize: nat, s: State, sw: Swap): (r: State)
    requires Valid(d, maxTabuSize, s) && 1 <= maxTabuSize && ValidSwap(sw, |d|)
    ensures Valid(d, maxTabuSize, r)
    ensures |r.tabuList| > 0 && r.tabuList[|r.tabuList| - 1] == Endpoints(r.current)
    ensures r.bestDistance <= s.bestDistance
    ensures r.bestDistance <= TourCost(d, SwapNeighbor(s.current, |d|, sw))
  {
    var neighbor := SwapNeighbor(s.current, |d|, sw);
    var currentDistance := TourCost(d, s.current);
    var neighborDistance := TourCost(d, neighbor);
    var current :=
      if neighborDistance < currentDistance || !IsTabuMove(Endpoints(s.current), s.tabuList)
      then neighbor else s.current;
    var improves := neighborDistance < s.bestDistance;
    TabuListBounded(s.tabuList, maxTabuSize, Endpoints(current));
    State(current,
          if improves then neighbor else s.best,
          if improves then neighborDistance else s.bestDistance,
          UpdatedTabu(s.tabuList, maxTabuSize, Endpoints(current)))
  }

  predicate ValidSwaps(swaps: seq<Swap>, n: nat)
  {
    forall k :: 0 <= k < |swaps| ==> ValidSwap(swaps[k], n)
  }

  /** The state after the first k iterations; iteration i swaps the
      positions swaps[i]. */
  function Run(d: seq<seq<nat>>, maxTabuSize: nat, s0: State, swaps: seq<Swap>, k: nat): (r: State)
    requires Valid(d, maxTabuSize, s0) && ValidSwaps(swaps, |d|) && k <= |swaps|
    requires k > 0 ==> 1 <= maxTabuSize
    ensures Valid(d, maxTabuSize, r)
    ensures r.bestDistance <= s0.bestDistance
  {
    if k == 0 then s0
    else Step(d, maxTabuSize, Run(d, maxTabuSize, s0, swaps, k - 1), swaps[k - 1])
  }

  /** The inputs of a run: a valid start state, swaps inside the tour and a
      tabu capacity of at least one. */
  predicate Setting(d: seq<seq<nat>>, maxTabuSize: nat, s0: State, swaps: seq<Swap>)
  {
    Valid(d, maxTabuSize, s0) && ValidSwaps(swaps, |d|) && 1 <= maxTabuSize
  }

  /** The neighbour generated in iteration j, counting from 1. */
  function NeighborAt(d: seq<seq<nat>>, maxTabuSize: nat, s0: State, swaps: seq<Swap>, j: nat): (r: seq<nat>)
    requires Setting(d, maxTabuSize, s0, swaps)
    requires 1 <= j <= |swaps|
    ensures IsPermutation(r, |d|)
  {
    SwapNeighbor(Run(d, maxTabuSize, s0, swaps, j - 1).current, |d|, swaps[j - 1])
  }

  // ---------------------------------------------------------------------------
  // Properties

  /** The acceptance rule tests the CURRENT solution's endpoints against the
      tabu list: the neighbour is adopted exactly when it is strictly cheaper
      or those endpoints are not tabu; otherwise the current solution stays. */
  lemma TabuAcceptance(d: seq<seq<nat>>, maxTabuSize: nat, s: State, sw: Swap)
    requires Valid(d, maxTabuSize, s) && 1 <= maxTabuSize && ValidSwap(sw, |d|)
    ensures var nb := SwapNeighbor(s.current, |d|, sw);
            var r := Step(d, maxTabuSize, s, sw);
            (TourCost(d, nb) < TourCost(d, s.current) || Endpoints(s.current) !in s.tabuList ==> r.current == nb) &&
            (TourCost(d, nb) >= TourCost(d, s.current) && Endpoints(s.current) in s.tabuList ==> r.current == s.current)
  {
  }

  /** After any iteration, the newest tabu entry is the endpoint pair of the
      current solution, and the list is within capacity. */
  lemma TabuListTracksCurrent(d: seq<seq<nat>>, maxTabuSize: nat, s0: State, swaps: seq<Swap>, k: nat)
    requires Setting(d, maxTabuSize, s0, swaps)
    requires 1 <= k <= |swaps|
    ensures var r := Run(d, maxTabuSize, s0, swaps, k);
            1 <= |r.tabuList| <= maxTabuSize && r.tabuList[|r.tabuList| - 1] == Endpoints(r.current)
  {
  }

  /** Consequence of the literal acceptance rule: once k >= 1 iterations have
      run, the current solution's endpoints are tabu (they were just
      recorded), so the next iteration, whatever its swap, adopts the
      neighbour only when strictly cheaper, and the current solution's cost
      never increases again. */
  lemma DescentAfterFirstIteration(d: seq<seq<nat>>, maxTabuSize: nat, s0: State, swaps: seq<Swap>, k: nat, sw: Swap)
    requires Setting(d, maxTabuSize, s0, swaps)
    requires 1 <= k <= |swaps| && ValidSwap(sw, |d|)
    ensures var s := Run(d, maxTabuSize, s0, swaps, k);
            var nb := SwapNeighbor(s.current, |d|, sw);
            var r := Step(d, maxTabuSize, s, sw);
            r.current == (if TourCost(d, nb) < TourCost(d, s.current) then nb else s.current) &&
            TourCost(d, r.current) <= TourCost(d, s.current)
  {
    var s := Run(d, maxTabuSize, s0, swaps, k);
    TabuListTracksCurrent(d, maxTabuSize, s0, swaps, k);
    TabuAcceptance(d, maxTabuSize, s, sw);
  }

  /** In the first iteration the tabu list is empty, so the neighbour is
      always adopted. */
  lemma FirstIterationAccepts(d: seq<seq<nat>>, maxTabuSize: nat, order: seq<nat>, sw: Swap)
    requires IsMatrix(d) && |d| > 0 && IsPermutation(order, |d|)
    requires 1 <= maxTabuSize && ValidSwap(sw, |d|)
    ensures Step(d, maxTabuSize, Start(d, order), sw).current == SwapNeighbor(Start(d, order).current, |d|, sw)
  {
  }

  /** One iteration never raises best_distance. */
  lemma BestStep(d: seq<seq<nat>>, maxTabuSize: nat, s0: State, swaps: seq<Swap>, k: nat)
    requires Setting(d, maxTabuSize, s0, swaps)
    requires 1 <= k <= |swaps|
    ensures Run(d, maxTabuSize, s0, swaps, k).bestDistance <= Run(d, maxTabuSize, s0, swaps, k - 1).bestDistance
  {
  }

  /** best_distance never increases over the iterations. */
  lemma BestNonIncreasing(d: seq<seq<nat>>, maxTabuSize: nat, s0: State, swaps: seq<Swap>, j: nat, k: nat)
    requires Setting(d, maxTabuSize, s0, swaps)
    requires j <= k <= |swaps|
    ensures Run(d, maxTabuSize, s0, swaps, k).bestDistance <= Run(d, maxTabuSize, s0, swaps, j).bestDistance
  {
    var i := j;
    while i < k
      invariant j <= i <= k
      invariant Run(d, maxTabuSize, s0, swaps, i).bestDistance <= Run(d, maxTabuSize, s0, swaps, j).bestDistance
    {
      BestStep(d, maxTabuSize, s0, swaps, i + 1);
      i := i + 1;
    }
  }

  /** Iteration j leaves best_distance at most the cost of its neighbour. */
  lemma NeighborStep(d: seq<seq<nat>>, maxTabuSize: nat, s0: State, swaps: seq<Swap>, j: nat)
    requires Setting(d, maxTabuSize, s0, swaps)
    requires 1 <= j <= |swaps|
    ensures Run(d, maxTabuSize, s0, swaps, j).bestDistance <= TourCost(d, NeighborAt(d, maxTabuSize, s0, swaps, j))
  {
  }

  /** After m iterations best_distance is at most the cost of every
      neighbour generated so far, adopted or not. */
  lemma BestBelowNeighbors(d: seq<seq<nat>>, maxTabuSize: nat, s0: State, swaps: seq<Swap>, m: nat)
    requires Setting(d, maxTabuSize, s0, swaps)
    requires m <= |swaps|
    ensures forall j :: 1 <= j <= m ==>
              Run(d, maxTabuSize, s0, swaps, m).bestDistance <= TourCost(d, NeighborAt(d, maxTabuSize, s0, swaps, j))
  {
    forall j | 1 <= j <= m
      ensures Run(d, maxTabuSize, s0, swaps, m).bestDistance <= TourCost(d, NeighborAt(d, maxTabuSize, s0, swaps, j))
    {
      BestNonIncreasing(d, maxTabuSize, s0, swaps, j, m);
      NeighborStep(d, maxTabuSize, s0, swaps, j);
    }
  }

  /** A tour the search has produced within its first m iterations: the
      start state's best solution or one of the neighbours generated so far. */
  predicate Produced(d: seq<seq<nat>>, maxTabuSize: nat, s0: State, swaps: seq<Swap>, m: nat, t: seq<nat>)
    requires Valid(d, maxTabuSize, s0) && ValidSwaps(swaps, |d|) && m <= |swaps|
    requires m > 0 ==> 1 <= maxTabuSize
  {
    t == s0.best || exists j :: 1 <= j <= m && t == NeighborAt(d, maxTabuSize, s0, swaps, j)
  }

  /** Iteration k either keeps best_solution or replaces it by its neighbour. */
  lemma BestFrom(d: seq<seq<nat>>, maxTabuSize: nat, s0: State, swaps: seq<Swap>, k: nat)
    requires Setting(d, maxTabuSize, s0, swaps)
    requires 1 <= k <= |swaps|
    ensures var r := Run(d, maxTabuSize, s0, swaps, k);
            r.best == Run(d, maxTabuSize, s0, swaps, k - 1).best || r.best == NeighborAt(d, maxTabuSize, s0, swaps, k)
  {
  }

  /** The iteration whose neighbour best_solution is after m iterations, or 0
      when it is still the start state's best tour. */
  function BestOrigin(d: seq<seq<nat>>, maxTabuSize: nat, s0: State, swaps: seq<Swap>, m: nat): (j: nat)
    requires Setting(d, maxTabuSize, s0, swaps) && m <= |swaps|
    ensures j <= m
    ensures j == 0 ==> Run(d, maxTabuSize, s0, swaps, m).best == s0.best
    ensures j > 0 ==> Run(d, maxTabuSize, s0, swaps, m).best == NeighborAt(d, maxTabuSize, s0, swaps, j)
  {
    if m == 0 then 0
    else if Run(d, maxTabuSize, s0, swaps, m).best == Run(d, maxTabuSize, s0, swaps, m - 1).best
    then BestOrigin(d, maxTabuSize, s0, swaps, m - 1)
    else BestFrom(d, maxTabuSize, s0, swaps, m); m
  }

  /** best_solution is always a tour the search has produced: the initial
      one or a neighbour generated in some iteration. */
  lemma BestSeen(d: seq<seq<nat>>, maxTabuSize: nat, s0: State, swaps: seq<Swap>, m: nat)
    requires Setting(d, maxTabuSize, s0, swaps) && m <= |swaps|
    ensures Produced(d, maxTabuSize, s0, swaps, m, Run(d, maxTabuSize, s0, swaps, m).best)
  {
    var j := BestOrigin(d, maxTabuSize, s0, swaps, m);
  }

  /** What taboo_search returns after m iterations from the shuffled tour. */
  lemma SearchOutcome(d: seq<seq<nat>>, maxTabuSize: nat, order: seq<nat>, swaps: seq<Swap>, m: nat)
    requires IsMatrix(d) && |d| > 0 && IsPermutation(order, |d|)
    requires m <= |swaps| && ValidSwaps(swaps, |d|) && 1 <= maxTabuSize
    ensures var r := Run(d, maxTabuSize, Start(d, order), swaps, m);
            IsPermutation(r.best, |d|) && r.bestDistance == TourCost(d, r.best) &&
            r.bestDistance <= TourCost(d, InitialSolution(|d|, order)) &&
            (forall j :: 1 <= j <= m ==>
               r.bestDistance <= TourCost(d, NeighborAt(d, maxTabuSize, Start(d, order), swaps, j))) &&
            Produced(d, maxTabuSize, Start(d, order), swaps, m, r.best)
  {
    assert Setting(d, maxTabuSize, Start(d, order), swaps);
    BestBelowNeighbors(d, maxTabuSize, Start(d, order), swaps, m);
    BestSeen(d, maxTabuSize, Start(d, order), swaps, m);
  }

  // ---------------------------------------------------------------------------
  // The main loop

  /** One pass of taboo_search's loop body: generate the neighbour, apply
      the acceptance rule, update the best tour and record the current
      solution's endpoints in the tabu list. */
  method Iteration(d: seq<seq<nat>>, maxTabuSize: nat, currentSolution: seq<nat>, bestSolution: seq<nat>,
                   bestDistance: nat, tabuList: TabuList, sw: Swap)
    returns (current': seq<nat>, best': seq<nat>, bestDistance': nat)
    modifies tabuList
    requires Valid(d, maxTabuSize, State(currentSolution, bestSolution, bestDistance, tabuList.moves))
    requires 1 <= maxTabuSize && ValidSwap(sw, |d|)
    ensures State(current', best', bestDistance', tabuList.moves)
            == Step(d, maxTabuSize, State(currentSolution, bestSolution, bestDistance, old(tabuList.moves)), sw)
  {
    ghost var s := State(currentSolution, bestSolution, bestDistance, tabuList.moves);
    var neighborSolution := GenerateNeighbor(currentSolution, sw);
    assert neighborSolution == SwapNeighbor(s.current, |d|, sw);
    var currentDistance := TotalDistance(currentSolution, d);
    var neighborDistance := TotalDistance(neighborSolution, d);

    current' := currentSolution;
    if neighborDistance < currentDistance || !IsTabuMove(Endpoints(currentSolution), tabuList.moves) {
      current' := neighborSolution;
    }
    best', bestDistance' := bestSolution, bestDistance;
    if neighborDistance < bestDistance {
      best', bestDistance' := neighborSolution, neighborDistance;
    }
    tabuList.Update(maxTabuSize, Endpoints(current'));
  }

  /** taboo_search: the initial shuffle is the permutation `order`, and
      iteration i swaps the positions swaps[i]. */
  method TabooSearch(d: seq<seq<nat>>, maxIterations: nat, maxTabuSize: nat, order: seq<nat>, swaps: seq<Swap>)
    returns (bestSolution: seq<nat>, bestDistance: nat)
    requires IsMatrix(d) && |d| > 0 && IsPermutation(order, |d|)
    requires |swaps| == maxIterations && ValidSwaps(swaps, |d|)
    requires maxIterations > 0 ==> 1 <= maxTabuSize
    ensures var r := Run(d, maxTabuSize, Start(d, order), swaps, maxIterations);
            bestSolution == r.best && bestDistance == r.bestDistance
    ensures IsPermutation(bestSolution, |d|) && bestDistance == TourCost(d, bestSolution)
    ensures bestDistance <= TourCost(d, InitialSolution(|d|, order))
    ensures forall j :: 1 <= j <= maxIterations ==>
              bestDistance <= TourCost(d, NeighborAt(d, maxTabuSize, Start(d, order), swaps, j))
    ensures Produced(d, maxTabuSize, Start(d, order), swaps, maxIterations, bestSolution)
  {
    var s0 := Start(d, order);
    assert Valid(d, maxTabuSize, s0);
    var currentSolution := InitialSolution(|d|, order);
    bestSolution := currentSolution;
    bestDistance := TotalDistance(bestSolution, d);
    var tabuList := new TabuList();

    for iteration := 0 to maxIterations
      invariant State(currentSolution, bestSolution, bestDistance, tabuList.moves)
                == Run(d, maxTabuSize, s0, swaps, iteration)
    {
      currentSolution, bestSolution, bestDistance :=
        Iteration(d, maxTabuSize, currentSolution, bestSolution, bestDistance, tabuList, swaps[iteration]);
    }
    if maxIterations > 0 {
      SearchOutcome(d, maxTabuSize, order, swaps, maxIterations);
    }
  }
}
