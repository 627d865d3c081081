// Shared vocabulary of the TSP solvers: the cost matrix, tours, the closed-tour
// cost (calculate_total_distance), the swap neighbour (generate_neighbor) and
// the shuffled initial tour. tabu_search.py and simulates_annealing.py carry
// identical copies of these helpers; this module defines them once.
module Tours {

  /** A square matrix of edge costs indexed by city number. */
  predicate IsMatrix(d: seq<seq<nat>>)
  {
    forall i :: 0 <= i < |d| ==> |d[i]| == |d|
  }

  predicate Symmetric(d: seq<seq<nat>>)
    requires IsMatrix(d)
  {
    forall i, j :: 0 <= i < |d| && 0 <= j < |d| ==> d[i][j] == d[j][i]
  }

  /** Every entry of `t` is a city of an `n`-city instance. */
  predicate InRange(t: seq<nat>, n: nat)
  {
    forall k :: 0 <= k < |t| ==> t[k] < n
  }

  predicate Distinct(t: seq<nat>)
  {
    forall i, j :: 0 <= i < j < |t| ==> t[i] != t[j]
  }

  /** `t` lists the cities 0..n-1, each exactly once. */
  predicate IsPermutation(t: seq<nat>, n: nat)
  {
    |t| == n && InRange(t, n) && Distinct(t)
  }

  /** The set of cities 0..n-1. */
  function Range(n: nat): (r: set<nat>)
    ensures forall k: nat :: k in r <==> k < n
  {
    if n == 0 then {} else Range(n - 1) + {n - 1}
  }

  function Elements(t: seq<nat>): set<nat>
  {
    set x | x in t
  }

  // ---------------------------------------------------------------------------
  // Tour cost

  /** Sum of the consecutive edges t[0]->t[1], ..., t[|t|-2]->t[|t|-1]. */
  function PathCost(d: seq<seq<nat>>, t: seq<nat>): nat
    requires IsMatrix(d) && InRange(t, |d|)
  {
    if |t| <= 1 then 0
    else PathCost(d, t[..|t| - 1]) + d[t[|t| - 2]][t[|t| - 1]]
  }

  /** Cost of the closed tour: the consecutive edges plus the edge from the
      last city back to the first. The tour must be non-empty. */
  function TourCost(d: seq<seq<nat>>, t: seq<nat>): nat
    requires IsMatrix(d) && InRange(t, |d|) && |t| > 0
  {
    PathCost(d, t) + d[t[|t| - 1]][t[0]]
  }

  lemma PathCostAppend(d: seq<seq<nat>>, s: seq<nat>, x: nat)
    requires IsMatrix(d) && InRange(s, |d|) && |s| > 0 && x < |d|
    ensures InRange(s + [x], |d|)
    ensures PathCost(d, s + [x]) == PathCost(d, s) + d[s[|s| - 1]][x]
  {
    assert (s + [x])[..|s|] == s;
  }

  /** The path cost read from the front: first edge plus the rest. */
  lemma {:induction false} PathCostFront(d: seq<seq<nat>>, t: seq<nat>)
    requires IsMatrix(d) && InRange(t, |d|) && |t| >= 2
    ensures PathCost(d, t) == d[t[0]][t[1]] + PathCost(d, t[1..])
  {
    if |t| > 2 {
      var u := t[..|t| - 1];
      PathCostFront(d, u);
      assert u[1..] == t[1..][..|t| - 2];
    }
  }

  /** Moving the first city to the end of a tour does not change its cost. */
  lemma {:induction false} TourCostRotateOnce(d: seq<seq<nat>>, t: seq<nat>)
    requires IsMatrix(d) && InRange(t, |d|) && |t| > 0
    ensures InRange(t[1..] + [t[0]], |d|)
    ensures TourCost(d, t[1..] + [t[0]]) == TourCost(d, t)
  {
    var r := t[1..] + [t[0]];
    if |t| == 1 {
      assert r == t;
    } else {
      PathCostAppend(d, t[1..], t[0]);
      PathCostFront(d, t);
      assert r[0] == t[1] && r[|r| - 1] == t[0];
    }
  }

  /** The cost of a closed tour is invariant under every cyclic rotation. */
  lemma {:induction false} TourCostRotate(d: seq<seq<nat>>, t: seq<nat>, k: nat)
    requires IsMatrix(d) && InRange(t, |d|) && k < |t|
    ensures InRange(t[k..] + t[..k], |d|)
    ensures TourCost(d, t[k..] + t[..k]) == TourCost(d, t)
  {
    if k == 0 {
      assert t[k..] + t[..k] == t;
    } else {
      TourCostRotate(d, t, k - 1);
      var r := t[k - 1..] + t[..k - 1];
      TourCostRotateOnce(d, r);
      assert r[1..] + [r[0]] == t[k..] + t[..k];
    }
  }

  function Reversed(s: seq<nat>): (r: seq<nat>)
    ensures |r| == |s|
    ensures forall k :: 0 <= k < |s| ==> r[k] == s[|s| - 1 - k]
  {
    if s == [] then [] else [s[|s| - 1]] + Reversed(s[..|s| - 1])
  }

  lemma {:induction false} PathCostReversed(d: seq<seq<nat>>, t: seq<nat>)
    requires IsMatrix(d) && Symmetric(d) && InRange(t, |d|)
    ensures InRange(Reversed(t), |d|)
    ensures PathCost(d, Reversed(t)) == PathCost(d, t)
  {
    if |t| >= 2 {
      var u := t[..|t| - 1];
      var r := Reversed(t);
      PathCostReversed(d, u);
      PathCostFront(d, r);
      assert r[1..] == Reversed(u);
    }
  }

  /** On a symmetric matrix, walking a tour backwards costs the same. */
  lemma TourCostReversed(d: seq<seq<nat>>, t: seq<nat>)
    requires IsMatrix(d) && Symmetric(d) && InRange(t, |d|) && |t| > 0
    ensures InRange(Reversed(t), |d|)
    ensures TourCost(d, Reversed(t)) == TourCost(d, t)
  {
    PathCostReversed(d, t);
  }

  /** calculate_total_distance: the accumulating loop over consecutive pairs,
      then the closing edge. */
  method TotalDistance(tour: seq<nat>, d: seq<seq<nat>>) returns (total: nat)
    requires IsMatrix(d) && InRange(tour, |d|) && |tour| > 0
    ensures total == TourCost(d, tour)
  {
    total := 0;
    for i := 0 to |tour| - 1
      invariant total == PathCost(d, tour[..i + 1])
    {
      PathCostAppend(d, tour[..i + 1], tour[i + 1]);
      assert tour[..i + 1] + [tour[i + 1]] == tour[..i + 2];
      total := total + d[tour[i]][tour[i + 1]];
    }
    assert tour[..|tour|] == tour;
    total := total + d[tour[|tour| - 1]][tour[0]];
  }

  // ---------------------------------------------------------------------------
  // Swap neighbour

  /** The two positions random.sample(range(len), 2) draws. */
  type Swap = (nat, nat)

  /** A pair of positions drawn by random.sample(range(len), 2): distinct and
      in range. */
  predicate ValidSwap(sw: Swap, n: nat)
  {
    sw.0 < n && sw.1 < n && sw.0 != sw.1
  }

  /** The list `s` with the entries at positions i and j exchanged. */
  function Swapped(s: seq<nat>, i: nat, j: nat): (r: seq<nat>)
    requires i < |s| && j < |s| && i != j
    ensures |r| == |s|
  {
    s[i := s[j]][j := s[i]]
  }

  /** The swap exchanges exactly the two chosen entries, and the neighbour
      holds the same cities with the same multiplicities. */
  lemma SwappedExchanges(s: seq<nat>, i: nat, j: nat)
    requires i < |s| && j < |s| && i != j
    ensures Swapped(s, i, j)[i] == s[j] && Swapped(s, i, j)[j] == s[i]
    ensures forall k :: 0 <= k < |s| && k != i && k != j ==> Swapped(s, i, j)[k] == s[k]
    ensures multiset(Swapped(s, i, j)) == multiset(s)
  {
  }

  /** generate_neighbor: copy the list, then swap two distinct positions in
      the copy; the input is left as it was. */
  method GenerateNeighbor(solution: seq<nat>, sw: Swap) returns (neighbor: seq<nat>)
    requires ValidSwap(sw, |solution|)
    ensures neighbor == Swapped(solution, sw.0, sw.1)
  {
    var a := new nat[|solution|](k requires 0 <= k < |solution| => solution[k]);
    a[sw.0], a[sw.1] := a[sw.1], a[sw.0];
    neighbor := a[..];
  }

  /** The swap neighbour of a tour of n cities, a permutation again. */
  function SwapNeighbor(t: seq<nat>, n: nat, sw: Swap): (r: seq<nat>)
    requires IsPermutation(t, n) && ValidSwap(sw, n)
    ensures IsPermutation(r, n)
  {
    SwapPreservesPermutation(t, n, sw.0, sw.1);
    Swapped(t, sw.0, sw.1)
  }

  /** Swapping the same two positions again restores the original tour. */
  lemma SwapInvolution(s: seq<nat>, i: nat, j: nat)
    requires i < |s| && j < |s| && i != j
    ensures Swapped(Swapped(s, i, j), i, j) == s
  {
    SwappedExchanges(s, i, j);
    SwappedExchanges(Swapped(s, i, j), i, j);
    var r := Swapped(Swapped(s, i, j), i, j);
    assert forall k :: 0 <= k < |s| ==> r[k] == s[k];
  }

  /** A swap neighbour of a permutation of 0..n-1 is again one. */
  lemma SwapPreservesPermutation(s: seq<nat>, n: nat, i: nat, j: nat)
    requires IsPermutation(s, n) && i < n && j < n && i != j
    ensures IsPermutation(Swapped(s, i, j), n)
  {
    var r := Swapped(s, i, j);
    SwappedExchanges(s, i, j);
    forall a, b | 0 <= a < b < |r| ensures r[a] != r[b] {
      var a' := if a == i then j else if a == j then i else a;
      var b' := if b == i then j else if b == j then i else b;
      assert r[a] == s[a'] && r[b] == s[b'] && a' != b';
      if a' > b' { assert s[b'] != s[a']; }
    }
  }

  // ---------------------------------------------------------------------------
  // Initial tour

  /** random.shuffle(s) with the shuffle drawn as the oracle permutation
      `order`: position k of the result receives s[order[k]]. */
  function Shuffled(s: seq<nat>, order: seq<nat>): (r: seq<nat>)
    requires IsPermutation(order, |s|)
    ensures |r| == |s|
    ensures forall k :: 0 <= k < |s| ==> r[k] == s[order[k]]
  {
    seq(|s|, k requires 0 <= k < |s| => s[order[k]])
  }

  /** generate_initial_solution: list(range(n)), then shuffled. Whatever
      permutation the shuffle draws, the result lists each city exactly once. */
  function InitialSolution(n: nat, order: seq<nat>): (r: seq<nat>)
    requires IsPermutation(order, n)
    ensures IsPermutation(r, n)
    ensures Elements(r) == Range(n)
  {
    var r := Shuffled(seq(n, k => k), order);
    PermutationCoversRange(r, n);
    r
  }

  // ---------------------------------------------------------------------------
  // Counting cities

  lemma {:induction false} RangeCard(n: nat)
    ensures |Range(n)| == n
  {
    if n > 0 {
      RangeCard(n - 1);
      var r := Range(n - 1);
      assert n - 1 !in r;
      assert r * {n - 1} == {};
      assert Range(n) == r + {n - 1};
    }
  }

  lemma SubsetCard(a: set<nat>, b: set<nat>)
    requires a <= b
    ensures |a| <= |b|
  {
    assert b == a + (b - a);
  }

  lemma {:induction false} DistinctCard(t: seq<nat>)
    requires Distinct(t)
    ensures |Elements(t)| == |t|
  {
    if t != [] {
      var u := t[..|t| - 1];
      DistinctCard(u);
      assert Elements(t) == Elements(u) + {t[|t| - 1]};
      assert t[|t| - 1] !in Elements(u);
    }
  }

  /** Pigeonhole: a duplicate-free list of cities below n has at most n
      entries. */
  lemma DistinctBound(t: seq<nat>, n: nat)
    requires Distinct(t) && InRange(t, n)
    ensures |t| <= n
  {
    DistinctCard(t);
    RangeCard(n);
    SubsetCard(Elements(t), Range(n));
  }

  /** A set of cities below n that has n members holds every city. */
  lemma FullSubset(a: set<nat>, n: nat)
    requires a <= Range(n) && |a| >= n
    ensures a == Range(n)
  {
    RangeCard(n);
    if a != Range(n) {
      assert exists x :: x in Range(n) && x !in a;
      var x :| x in Range(n) && x !in a;
      SubsetCard(a, Range(n) - {x});
    }
  }

  /** A permutation of 0..n-1 omits no city. */
  lemma PermutationCoversRange(t: seq<nat>, n: nat)
    requires IsPermutation(t, n)
    ensures Elements(t) == Range(n)
  {
    DistinctCard(t);
    FullSubset(Elements(t), n);
  }
}
