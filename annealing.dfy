// Simulated annealing (simulates_annealing.py). The main loop is an imperative
// method whose state after every iteration is pinned to the pure specification
// `Run`, a left fold of `Step` over the swap pairs and acceptance outcomes
// drawn so far. The temperature and the exponential acceptance probability are
// not modelled: the outcome of `random.random() < math.exp(...)` in each
// iteration is an input bit.
module Annealing {
  import opened Tours

  // ---------------------------------------------------------------------------
  // Specification of the main loop

  datatype State = State(current: seq<nat>, best: seq<nat>, bestDistance: nat)

  /** What holds of the search state between iterations. */
  predicate Valid(d: seq<seq<nat>>, s: State)
  {
    IsMatrix(d) && |d| > 0 &&
    IsPermutation(s.current, |d|) && IsPermutation(s.best, |d|) &&
    s.bestDistance == TourCost(d, s.best)
  }

  /** The state before the first iteration: the shuffled tour is both the
      current and the best tour. */
  function Start(d: seq<seq<nat>>, order: seq<nat>): (s: State)
    requires IsMatrix(d) && |d| > 0 && IsPermutation(order, |d|)
    ensures Valid(d, s)
    ensures s.current == s.best == InitialSolution(|d|, order)
  {
    var initial := InitialSolution(|d|, order);
    State(initial, initial, TourCost(d, initial))
  }

  /** The outcome of random.random() < math.exp((current - neighbour) /
      temperature), evaluated only when the neighbour is not strictly cheaper.
      For a neighbour of equal cost the exponent is 0 and exp(0) = 1.0 exceeds
      every draw of random.random(), which lies in [0, 1), so the test
      succeeds; for a costlier neighbour the random bit `draw` decides. */
  predicate ProbabilisticTest(currentDistance: nat, neighborDistance: nat, draw: bool): (r: bool)
    ensures neighborDistance == currentDistance ==> r
    ensures neighborDistance != currentDistance ==> (r <==> draw)
  {
    neighborDistance == currentDistance || draw
  }

  /** One iteration of the main loop with swap positions `sw`; `accept` is the
      random bit of the probabilistic test, which is evaluated only when the
      neighbour is not strictly cheaper (the `or` short-circuits). */
  function Step(d: seq<seq<nat>>, s: State, sw: Swap, accept: bool): (r: State)
    requires Valid(d, s) && ValidSwap(sw, |d|)
    ensures Valid(d, r)
    ensures r.bestDistance <= s.bestDistance
    ensures r.bestDistance <= TourCost(d, SwapNeighbor(s.current, |d|, sw))
  {
    var neighbor := SwapNeighbor(s.current, |d|, sw);
    var currentDistance := TourCost(d, s.current);
    var neighborDistance := TourCost(d, neighbor);
    var improves := neighborDistance < s.bestDistance;
    State(if neighborDistance < currentDistance || ProbabilisticTest(currentDistance, neighborDistance, accept)
          then neighbor else s.current,
          if improves then neighbor else s.best,
          if improves then neighborDistance else s.bestDistance)
  }

  /** The random choices of one iteration: the two swap positions and the
      outcome of the probabilistic acceptance test. */
  datatype Draw = Draw(sw: Swap, accept: bool)

  predicate ValidDraws(draws: seq<Draw>, n: nat)
  {
    forall k :: 0 <= k < |draws| ==> ValidSwap(draws[k].sw, n)
  }

  /** The inputs of a run: a valid start state and swaps inside the tour. */
  predicate Setting(d: seq<seq<nat>>, s0: State, draws: seq<Draw>)
  {
    Valid(d, s0) && ValidDraws(draws, |d|)
  }

  /** The state after the first k iterations; iteration i makes the random
      choices draws[i]. */
  function Run(d: seq<seq<nat>>, s0: State, draws: seq<Draw>, k: nat): (r: State)
    requires Valid(d, s0) && ValidDraws(draws, |d|) && k <= |draws|
    ensures Valid(d, r)
    ensures r.bestDistance <= s0.bestDistance
  {
    if k == 0 then s0
    else Step(d, Run(d, s0, draws, k - 1), draws[k - 1].sw, draws[k - 1].accept)
  }

  /** The neighbour generated in iteration j, counting from 1. */
  function NeighborAt(d: seq<seq<nat>>, s0: State, draws: seq<Draw>, j: nat): (r: seq<nat>)
    requires Setting(d, s0, draws)
    requires 1 <= j <= |draws|
    ensures IsPermutation(r, |d|)
  {
    SwapNeighbor(Run(d, s0, draws, j - 1).current, |d|, draws[j - 1].sw)
  }

  // ---------------------------------------------------------------------------
  // Properties

  /** A neighbour that is not costlier is adopted whatever the random bit;
      for a costlier neighbour the bit alone decides between the neighbour and
      the current tour. */
  lemma AcceptanceRule(d: seq<seq<nat>>, s: State, sw: Swap, accept: bool)
    requires Valid(d, s) && ValidSwap(sw, |d|)
    ensures var nb := SwapNeighbor(s.current, |d|, sw);
            var r := Step(d, s, sw, accept);
            (TourCost(d, nb) <= TourCost(d, s.current) ==>
               r.current == nb && Step(d, s, sw, !accept) == r) &&
            (TourCost(d, nb) > TourCost(d, s.current) ==>
               r.current == if accept then nb else s.current)
  {
  }

  /** The current tour changes only by adopting the generated neighbour. */
  lemma CurrentFromNeighbor(d: seq<seq<nat>>, s0: State, draws: seq<Draw>, k: nat)
    requires Setting(d, s0, draws)
    requires 1 <= k <= |draws|
    ensures var r := Run(d, s0, draws, k);
            r.current == NeighborAt(d, s0, draws, k) ||
            r.current == Run(d, s0, draws, k - 1).current
  {
  }

  /** One iteration never raises best_distance. */
  lemma BestStep(d: seq<seq<nat>>, s0: State, draws: seq<Draw>, k: nat)
    requires Setting(d, s0, draws)
    requires 1 <= k <= |draws|
    ensures Run(d, s0, draws, k).bestDistance <= Run(d, s0, draws, k - 1).bestDistance
  {
  }

  /** best_distance never increases over the iterations. */
  lemma BestNonIncreasing(d: seq<seq<nat>>, s0: State, draws: seq<Draw>, j: nat, k: nat)
    requires Setting(d, s0, draws)
    requires j <= k <= |draws|
    ensures Run(d, s0, draws, k).bestDistance <= Run(d, s0, draws, j).bestDistance
  {
    var i := j;
    while i < k
      invariant j <= i <= k
      invariant Run(d, s0, draws, i).bestDistance <= Run(d, s0, draws, j).bestDistance
    {
      BestStep(d, s0, draws, i + 1);
      i := i + 1;
    }
  }

  /** Iteration j leaves best_distance at most the cost of its neighbour. */
  lemma NeighborStep(d: seq<seq<nat>>, s0: State, draws: seq<Draw>, j: nat)
    requires Setting(d, s0, draws)
    requires 1 <= j <= |draws|
    ensures Run(d, s0, draws, j).bestDistance <= TourCost(d, NeighborAt(d, s0, draws, j))
  {
  }

  /** After m iterations best_distance is at most the cost of every neighbour
      generated so far, accepted or not. */
  lemma BestBelowNeighbors(d: seq<seq<nat>>, s0: State, draws: seq<Draw>, m: nat)
    requires Setting(d, s0, draws)
    requires m <= |draws|
    ensures forall j :: 1 <= j <= m ==>
              Run(d, s0, draws, m).bestDistance <= TourCost(d, NeighborAt(d, s0, draws, j))
  {
    forall j | 1 <= j <= m
      ensures Run(d, s0, draws, m).bestDistance <= TourCost(d, NeighborAt(d, s0, draws, j))
    {
      BestNonIncreasing(d, s0, draws, j, m);
      NeighborStep(d, s0, draws, j);
    }
  }

  /** A tour the search has produced within its first m iterations: the
      start state's best tour or one of the neighbours generated so far. */
  predicate Produced(d: seq<seq<nat>>, s0: State, draws: seq<Draw>, m: nat, t: seq<nat>)
    requires Setting(d, s0, draws) && m <= |draws|
  {
    t == s0.best || exists j :: 1 <= j <= m && t == NeighborAt(d, s0, draws, j)
  }

  /** Iteration k either keeps best_solution or replaces it by its neighbour. */
  lemma BestFrom(d: seq<seq<nat>>, s0: State, draws: seq<Draw>, k: nat)
    requires Setting(d, s0, draws)
    requires 1 <= k <= |draws|
    ensures var r := Run(d, s0, draws, k);
            r.best == Run(d, s0, draws, k - 1).best || r.best == NeighborAt(d, s0, draws, k)
  {
  }

  /** The iteration whose neighbour best_solution is after m iterations, or 0
      when it is still the start state's best tour. */
  function BestOrigin(d: seq<seq<nat>>, s0: State, draws: seq<Draw>, m: nat): (j: nat)
    requires Setting(d, s0, draws) && m <= |draws|
    ensures j <= m
    ensures j == 0 ==> Run(d, s0, draws, m).best == s0.best
    ensures j > 0 ==> Run(d, s0, draws, m).best == NeighborAt(d, s0, draws, j)
  {
    if m == 0 then 0
    else if Run(d, s0, draws, m).best == Run(d, s0, draws, m - 1).best then BestOrigin(d, s0, draws, m - 1)
    else BestFrom(d, s0, draws, m); m
  }

  /** best_solution is always a tour the search has produced: the initial
      one or a neighbour generated in some iteration. */
  lemma BestSeen(d: seq<seq<nat>>, s0: State, draws: seq<Draw>, m: nat)
    requires Setting(d, s0, draws) && m <= |draws|
    ensures Produced(d, s0, draws, m, Run(d, s0, draws, m).best)
  {
    var j := BestOrigin(d, s0, draws, m);
  }

  /** What simulated_annealing returns after m iterations from the shuffled
      tour. */
  lemma SearchOutcome(d: seq<seq<nat>>, order: seq<nat>, draws: seq<Draw>, m: nat)
    requires IsMatrix(d) && |d| > 0 && IsPermutation(order, |d|)
    requires ValidDraws(draws, |d|) && m <= |draws|
    ensures var r := Run(d, Start(d, order), draws, m);
            IsPermutation(r.best, |d|) && r.bestDistance == TourCost(d, r.best) &&
            r.bestDistance <= TourCost(d, InitialSolution(|d|, order)) &&
            (forall j :: 1 <= j <= m ==>
               r.bestDistance <= TourCost(d, NeighborAt(d, Start(d, order), draws, j))) &&
            Produced(d, Start(d, order), draws, m, r.best)
  {
    assert Setting(d, Start(d, order), draws);
    BestBelowNeighbors(d, Start(d, order), draws, m);
    BestSeen(d, Start(d, order), draws, m);
  }

  /** With no iterations the result is the shuffled tour and its cost. */
  lemma NoIterations(d: seq<seq<nat>>, order: seq<nat>, draws: seq<Draw>)
    requires IsMatrix(d) && |d| > 0 && IsPermutation(order, |d|) && ValidDraws(draws, |d|)
    ensures var r := Run(d, Start(d, order), draws, 0);
            r.best == InitialSolution(|d|, order) && r.bestDistance == TourCost(d, InitialSolution(|d|, order))
  {
  }

  // ---------------------------------------------------------------------------
  // The main loop

  /** One pass of simulated_annealing's loop body: generate the neighbour,
      apply the acceptance rule and update the best tour. */
  method Iteration(d: seq<seq<nat>>, currentTour: seq<nat>, bestTour: seq<nat>, bestDistance: nat,
                   sw: Swap, accept: bool)
    returns (current': seq<nat>, best': seq<nat>, bestDistance': nat)
    requires Valid(d, State(currentTour, bestTour, bestDistance)) && ValidSwap(sw, |d|)
    ensures State(current', best', bestDistance') == Step(d, State(currentTour, bestTour, bestDistance), sw, accept)
  {
    ghost var s := State(currentTour, bestTour, bestDistance);
    var neighborTour := GenerateNeighbor(currentTour, sw);
    assert neighborTour == SwapNeighbor(s.current, |d|, sw);
    var currentDistance := TotalDistance(currentTour, d);
    var neighborDistance := TotalDistance(neighborTour, d);

    current' := currentTour;
    if neighborDistance < currentDistance || ProbabilisticTest(currentDistance, neighborDistance, accept) {
      current' := neighborTour;
    }
    best', bestDistance' := bestTour, bestDistance;
    if neighborDistance < bestDistance {
      best', bestDistance' := neighborTour, neighborDistance;
    }
  }

  /** simulated_annealing: the initial shuffle is the permutation `order`;
      iteration i swaps the positions draws[i].sw and, when the neighbour is
      not strictly cheaper, accepts it exactly when draws[i].accept holds. */
  method SimulatedAnnealing(d: seq<seq<nat>>, numIterations: nat, order: seq<nat>, draws: seq<Draw>)
    returns (bestTour: seq<nat>, bestDistance: nat)
    requires IsMatrix(d) && |d| > 0 && IsPermutation(order, |d|)
    requires |draws| == numIterations && ValidDraws(draws, |d|)
    ensures var r := Run(d, Start(d, order), draws, numIterations);
            bestTour == r.best && bestDistance == r.bestDistance
    ensures IsPermutation(bestTour, |d|) && bestDistance == TourCost(d, bestTour)
    ensures bestDistance <= TourCost(d, InitialSolution(|d|, order))
    ensures forall j :: 1 <= j <= numIterations ==>
              bestDistance <= TourCost(d, NeighborAt(d, Start(d, order), draws, j))
    ensures Produced(d, Start(d, order), draws, numIterations, bestTour)
  {
    var s0 := Start(d, order);
    var currentTour := InitialSolution(|d|, order);
    bestTour := currentTour;
    bestDistance := TotalDistance(bestTour, d);

    for iteration := 0 to numIterations
      invariant State(currentTour, bestTour, bestDistance) == Run(d, s0, draws, iteration)
    {
      currentTour, bestTour, bestDistance :=
        Iteration(d, currentTour, bestTour, bestDistance, draws[iteration].sw, draws[iteration].accept);
    }
    SearchOutcome(d, order, draws, numIterations);
  }
}
