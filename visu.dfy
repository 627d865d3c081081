// The A* variant of visu.py. Its Node class and calculate_heuristic are
// copies of the ones in a_star.py and are modelled by the members of AStar;
// its astar_tsp runs the same search but, on success, walks the parent links
// of the final node and returns the visited cities in order instead of a
// cost. plot_tour (matplotlib) is not modelled.
module Visu {
  import opened Tours
  import opened AStar

  /** Appending a city to the walk puts it in front of the reversed walk. */
  lemma ReversedSnoc(w: seq<nat>, x: nat)
    ensures Reversed(w + [x]) == [x] + Reversed(w)
  {
    assert (w + [x])[..|w|] == w;
  }

  /** The walk up the parent links: collect the cities from the node back to
      the root, then reverse them, which gives the node's chain from the
      root. */
  method ParentChainTour(node: Node) returns (tour: seq<nat>)
    ensures tour == Chain(node)
  {
    var walked: seq<nat> := [];
    var cur: Option<Node> := Some(node);
    while cur.Some?
      invariant cur.Some? ==> Chain(cur.value) + Reversed(walked) == Chain(node)
      invariant cur.None? ==> Reversed(walked) == Chain(node)
      decreases cur
    {
      var c := cur.value;
      ReversedSnoc(walked, c.city);
      walked := walked + [c.city];
      cur := c.parent;
    }
    tour := Reversed(walked);
  }

  /** astar_tsp of visu.py: the parent chain of the search's found node, from
      the start city on, or None (float('inf')) when there are no cities. The
      tour repeats no city, so it is at most num_cities long. */
  method AStarTour(d: seq<seq<nat>>, start: nat)
    returns (r: Option<seq<nat>>, ghost found: Option<Node>, ghost frames: seq<Frame>, ghost pops: seq<Node>)
    requires IsMatrix(d) && (start < |d| || |d| == 0)
    ensures Outcome(d, start, frames, pops, found)
    ensures r.None? <==> found.None?
    ensures r.None? <==> |d| == 0
    ensures r.Some? ==> r.value == Chain(found.value) &&
                        frames[|frames| - 1].visited + {found.value.city} == Range(|d|)
    ensures r.Some? ==> |r.value| > 0 && InRange(r.value, |d|) && r.value[0] == start &&
                        Distinct(r.value) && |r.value| <= |d|
    ensures |d| == 1 ==> r == Some([start])
  {
    var result;
    result, frames, pops := Search(d, start);
    found := result;
    match result
    case None =>
      r := None;
    case Some(node) =>
      var tour := ParentChainTour(node);
      DistinctBound(tour, |d|);
      r := Some(tour);
  }
}
