// A*-style search (a_star.py, and its tour-returning copy visu.py). A search
// node is an immutable value: the source never updates a Node's fields after
// construction. The frontier is a sequence that the search loop reassigns, the
// shared `visited` set grows across all branches, and the heuristic is the
// exhaustive minimum closed-loop cost over the orderings of a set of cities.
module AStar {
  import opened Tours

  datatype Option<T> = None | Some(value: T)

  // ---------------------------------------------------------------------------
  // The heuristic (calculate_heuristic)

  /** Cost of leaving `prev`, visiting the cities of `p` in order and
      returning to `home`: the inner loop of calculate_heuristic with
      prev_city = prev. */
  function LoopCost(d: seq<seq<nat>>, home: nat, prev: nat, p: seq<nat>): nat
    requires IsMatrix(d) && home < |d| && prev < |d| && InRange(p, |d|)
    decreases |p|
  {
    if |p| == 0 then d[prev][home]
    else d[prev][p[0]] + LoopCost(d, home, p[0], p[1..])
  }

  /** `p` lists the members of `s`, each once: one of itertools.permutations(s). */
  predicate IsOrdering(p: seq<nat>, s: set<nat>)
  {
    Distinct(p) && Elements(p) == s
  }

  predicate Below(s: set<nat>, n: nat)
  {
    forall x :: x in s ==> x < n
  }

  /** The least LoopCost from `prev` over the orderings of `s`. */
  function MinLoop(d: seq<seq<nat>>, home: nat, prev: nat, s: set<nat>): nat
    requires IsMatrix(d) && home < |d| && prev < |d| && Below(s, |d|)
    decreases |s|, |d| + 1
  {
    if s == {} then d[prev][home]
    else
      assert exists x :: x in s && x < |d|;
      MinOver(d, home, prev, s, |d|).value
  }

  /** The least cost, over the first cities x < k of `s`, of going to x and
      then around the rest of `s`; None when no member of `s` is below k. */
  function MinOver(d: seq<seq<nat>>, home: nat, prev: nat, s: set<nat>, k: nat): (r: Option<nat>)
    requires IsMatrix(d) && home < |d| && prev < |d| && Below(s, |d|) && k <= |d|
    ensures r.Some? <==> exists x :: x in s && x < k
    decreases |s|, k
  {
    if k == 0 then None
    else
      var rest := MinOver(d, home, prev, s, k - 1);
      if k - 1 in s then
        assert |s - {k - 1}| < |s|;
        var c := d[prev][k - 1] + MinLoop(d, home, k - 1, s - {k - 1});
        Some(if rest.Some? && rest.value < c then rest.value else c)
      else rest
  }

  /** calculate_heuristic(c, s): the minimum closed-loop cost from c through
      every ordering of s. */
  function Heuristic(d: seq<seq<nat>>, c: nat, s: set<nat>): (r: nat)
    requires IsMatrix(d) && c < |d| && Below(s, |d|)
    ensures exists p :: InRange(p, |d|) && IsOrdering(p, s) && LoopCost(d, c, c, p) == r
  {
    MinLoopAttained(d, c, c, s);
    MinLoop(d, c, c, s)
  }

  /** Going to any member x below k first costs at least the minimum. */
  lemma {:induction false} MinOverLe(d: seq<seq<nat>>, home: nat, prev: nat, s: set<nat>, k: nat, x: nat)
    requires IsMatrix(d) && home < |d| && prev < |d| && Below(s, |d|) && k <= |d|
    requires x in s && x < k
    ensures MinOver(d, home, prev, s, k).Some?
    ensures MinOver(d, home, prev, s, k).value <= d[prev][x] + MinLoop(d, home, x, s - {x})
    decreases k
  {
    if x < k - 1 {
      MinOverLe(d, home, prev, s, k - 1, x);
    }
  }

  /** The minimum is the cost of going to some member x below k first. */
  lemma {:induction false} MinOverAttained(d: seq<seq<nat>>, home: nat, prev: nat, s: set<nat>, k: nat)
    requires IsMatrix(d) && home < |d| && prev < |d| && Below(s, |d|) && k <= |d|
    ensures var r := MinOver(d, home, prev, s, k);
            r.Some? ==> exists x :: x in s && x < k && r.value == d[prev][x] + MinLoop(d, home, x, s - {x})
    decreases k
  {
    if k > 0 {
      MinOverAttained(d, home, prev, s, k - 1);
    }
  }

  /** MinLoop is a lower bound on the loop cost of every ordering. */
  lemma {:induction false} MinLoopLower(d: seq<seq<nat>>, home: nat, prev: nat, s: set<nat>, p: seq<nat>)
    requires IsMatrix(d) && home < |d| && prev < |d| && Below(s, |d|)
    requires InRange(p, |d|) && IsOrdering(p, s)
    ensures MinLoop(d, home, prev, s) <= LoopCost(d, home, prev, p)
    decreases |p|
  {
    if p != [] {
      var x := p[0];
      var q := p[1..];
      assert x in s;
      assert Elements(q) == s - {x} by {
        assert p == [x] + q;
        forall y | y in q ensures y != x {
          var i :| 0 <= i < |q| && q[i] == y;
          assert p[i + 1] == y;
        }
      }
      MinLoopLower(d, home, x, s - {x}, q);
      MinOverLe(d, home, prev, s, |d|, x);
    }
  }

  /** Putting x in front of an ordering of s - {x} orders s. */
  lemma ConsOrdering(x: nat, q: seq<nat>, s: set<nat>)
    requires x in s && IsOrdering(q, s - {x})
    ensures IsOrdering([x] + q, s)
  {
    var p := [x] + q;
    assert p[1..] == q;
    assert Elements(p) == {x} + Elements(q);
    assert s == {x} + (s - {x});
  }

  lemma LoopCostCons(d: seq<seq<nat>>, home: nat, prev: nat, x: nat, q: seq<nat>)
    requires IsMatrix(d) && home < |d| && prev < |d| && x < |d| && InRange(q, |d|)
    ensures InRange([x] + q, |d|)
    ensures LoopCost(d, home, prev, [x] + q) == d[prev][x] + LoopCost(d, home, x, q)
  {
    assert ([x] + q)[1..] == q;
  }

  /** Some ordering achieves MinLoop. */
  lemma {:induction false} MinLoopAttained(d: seq<seq<nat>>, home: nat, prev: nat, s: set<nat>)
    requires IsMatrix(d) && home < |d| && prev < |d| && Below(s, |d|)
    ensures exists p :: InRange(p, |d|) && IsOrdering(p, s) && LoopCost(d, home, prev, p) == MinLoop(d, home, prev, s)
    decreases |s|
  {
    if s == {} {
      var p: seq<nat> := [];
      assert InRange(p, |d|) && IsOrdering(p, s) && LoopCost(d, home, prev, p) == MinLoop(d, home, prev, s);
    } else {
      MinOverAttained(d, home, prev, s, |d|);
      var x :| x in s && x < |d| &&
               MinOver(d, home, prev, s, |d|).value == d[prev][x] + MinLoop(d, home, x, s - {x});
      MinLoopAttained(d, home, x, s - {x});
      var q :| InRange(q, |d|) && IsOrdering(q, s - {x}) && LoopCost(d, home, x, q) == MinLoop(d, home, x, s - {x});
      ConsOrdering(x, q, s);
      LoopCostCons(d, home, prev, x, q);
      var p := [x] + q;
      assert InRange(p, |d|) && IsOrdering(p, s) && LoopCost(d, home, prev, p) == MinLoop(d, home, prev, s);
    }
  }

  /** calculate_heuristic(c, s) is the minimum, over all orderings p of s,
      of the closed loop c -> p[0] -> ... -> p[|p|-1] -> c. */
  lemma HeuristicIsMinimum(d: seq<seq<nat>>, c: nat, s: set<nat>)
    requires IsMatrix(d) && c < |d| && Below(s, |d|)
    ensures forall p :: InRange(p, |d|) && IsOrdering(p, s) ==> Heuristic(d, c, s) <= LoopCost(d, c, c, p)
    ensures exists p :: InRange(p, |d|) && IsOrdering(p, s) && LoopCost(d, c, c, p) == Heuristic(d, c, s)
  {
    forall p | InRange(p, |d|) && IsOrdering(p, s) ensures Heuristic(d, c, s) <= LoopCost(d, c, c, p) {
      MinLoopLower(d, c, c, s, p);
    }
    MinLoopAttained(d, c, c, s);
  }

  /** Over the empty set there is one ordering, the empty one. */
  lemma HeuristicEmpty(d: seq<seq<nat>>, c: nat)
    requires IsMatrix(d) && c < |d|
    ensures Heuristic(d, c, {}) == d[c][c]
  {
  }

  lemma {:induction false} MinOverSingleton(d: seq<seq<nat>>, home: nat, prev: nat, x: nat, k: nat)
    requires IsMatrix(d) && home < |d| && prev < |d| && x < |d| && k <= |d|
    ensures MinOver(d, home, prev, {x}, k) == if x < k then Some(d[prev][x] + d[x][home]) else None
    decreases k
  {
    if k > 0 {
      MinOverSingleton(d, home, prev, x, k - 1);
      if k - 1 == x {
        assert {x} - {x} == {};
      }
    }
  }

  /** Over a single city x the heuristic is the round trip c -> x -> c. */
  lemma HeuristicSingleton(d: seq<seq<nat>>, c: nat, x: nat)
    requires IsMatrix(d) && c < |d| && x < |d|
    ensures Heuristic(d, c, {x}) == d[c][x] + d[x][c]
  {
    MinOverSingleton(d, c, c, x, |d|);
  }

  // ---------------------------------------------------------------------------
  // Search nodes

  /** Node: a city, the node it was expanded from, the accumulated edge cost
      from the start city and the heuristic estimate. */
  datatype Node = Node(city: nat, parent: Option<Node>, cost: nat, heuristic: nat)

  /** The priority of a node, cost + heuristic. */
  function Priority(n: Node): nat
  {
    n.cost + n.heuristic
  }

  /** Node.__lt__: the heap order. It is total on priorities: a node is not
      below another exactly when its priority is at least the other's. */
  predicate Less(a: Node, b: Node): (r: bool)
    ensures !r <==> Priority(b) <= Priority(a)
  {
    Priority(a) < Priority(b)
  }

  /** Node(start_city): no parent, cost 0 and heuristic 0. */
  function Root(start: nat): Node
  {
    Node(start, None, 0, 0)
  }

  /** The cities on the parent chain, from the root to `n`. */
  function Chain(n: Node): (r: seq<nat>)
    ensures |r| >= 1 && r[|r| - 1] == n.city
    ensures n.parent.None? ==> r == [n.city]
    ensures n.parent.Some? ==> r == Chain(n.parent.value) + [n.city]
    decreases n
  {
    match n.parent
    case None => [n.city]
    case Some(p) => Chain(p) + [n.city]
  }

  /** What every node the search creates satisfies: its chain starts at the
      start city, visits distinct cities of the instance, and its cost is the
      edge sum along the chain. */
  predicate NodeOk(d: seq<seq<nat>>, start: nat, n: Node)
  {
    var ch := Chain(n);
    IsMatrix(d) && InRange(ch, |d|) && ch[0] == start && Distinct(ch) && n.cost == PathCost(d, ch)
  }

  /** The child pushed for `next` when `parent` is expanded. */
  function Child(d: seq<seq<nat>>, parent: Node, next: nat, visited: set<nat>): (c: Node)
    requires IsMatrix(d) && parent.city < |d| && next < |d| && Below(visited, |d|)
    ensures Chain(c) == Chain(parent) + [next]
  {
    Node(next, Some(parent), parent.cost + d[parent.city][next], Heuristic(d, next, visited))
  }

  lemma RootOk(d: seq<seq<nat>>, start: nat)
    requires IsMatrix(d) && start < |d|
    ensures NodeOk(d, start, Root(start))
  {
  }

  /** A child of a good node for a city off its chain is a good node, with
      the parent's chain extended by that city. */
  lemma ChildOk(d: seq<seq<nat>>, start: nat, parent: Node, next: nat, visited: set<nat>)
    requires NodeOk(d, start, parent) && next < |d| && Below(visited, |d|)
    requires Elements(Chain(parent)) <= visited && next !in visited
    ensures var c := Child(d, parent, next, visited);
            NodeOk(d, start, c) && Chain(c) == Chain(parent) + [next]
  {
    var ch := Chain(parent);
    PathCostAppend(d, ch, next);
    assert next !in ch;
    var ch' := ch + [next];
    forall i, j | 0 <= i < j < |ch'| ensures ch'[i] != ch'[j] {
      if j == |ch| {
        assert ch'[i] in ch;
      }
    }
  }

  // ---------------------------------------------------------------------------
  // The frontier

  /** heapq.heappop: removes a node of least priority. Which of several such
      nodes is taken is left open. */
  method HeapPop(queue: seq<Node>) returns (node: Node, rest: seq<Node>)
    requires |queue| > 0
    ensures node in queue
    ensures forall x :: x in queue ==> !Less(x, node)
    ensures multiset(rest) + multiset{node} == multiset(queue)
    ensures forall x :: x in rest ==> x in queue
    ensures forall x :: x in queue && x != node ==> x in rest
  {
    var m := 0;
    for i := 1 to |queue|
      invariant 0 <= m < |queue|
      invariant forall j :: 0 <= j < i ==> !Less(queue[j], queue[m])
    {
      if Less(queue[i], queue[m]) {
        m := i;
      }
    }
    node := queue[m];
    rest := queue[..m] + queue[m + 1..];
    assert queue == queue[..m] + [node] + queue[m + 1..];
  }

  /** The children that expanding `node` pushes for the cities below k: one
      for every city not in `visited`, in increasing order of city. */
  function ChildrenUpTo(d: seq<seq<nat>>, node: Node, visited: set<nat>, k: nat): (r: seq<Node>)
    requires IsMatrix(d) && k <= |d| && (|d| > 0 ==> node.city < |d| && Below(visited, |d|))
    ensures forall x :: x in r ==> x.city < k && x.city !in visited && x == Child(d, node, x.city, visited)
    ensures forall c :: 0 <= c < k && c !in visited ==> Child(d, node, c, visited) in r
    ensures forall i, j :: 0 <= i < j < |r| ==> r[i].city < r[j].city
    decreases k
  {
    if k == 0 then []
    else
      var r := ChildrenUpTo(d, node, visited, k - 1);
      if k - 1 in visited then r else r + [Child(d, node, k - 1, visited)]
  }

  /** All the children that expanding `node` pushes. */
  function ChildrenOf(d: seq<seq<nat>>, node: Node, visited: set<nat>): seq<Node>
    requires IsMatrix(d) && (|d| > 0 ==> node.city < |d| && Below(visited, |d|))
  {
    ChildrenUpTo(d, node, visited, |d|)
  }

  /** The expansion loop: for every city not yet visited, in increasing order,
      push a child with the accumulated cost and the heuristic over
      `visited`. */
  method PushChildren(d: seq<seq<nat>>, node: Node, visited: set<nat>, queue: seq<Node>) returns (queue': seq<Node>)
    requires IsMatrix(d)
    requires |d| > 0 ==> node.city < |d| && Below(visited, |d|)
    ensures queue' == queue + ChildrenOf(d, node, visited)
  {
    queue' := queue;
    for next := 0 to |d|
      invariant queue' == queue + ChildrenUpTo(d, node, visited, next)
    {
      if next !in visited {
        var child := Node(next, Some(node), node.cost + d[node.city][next], Heuristic(d, next, visited));
        queue' := queue' + [child];
      }
    }
  }

  // ---------------------------------------------------------------------------
  // Specification of the search loop

  /** The state of astar_tsp between iterations: the nodes in the priority
      queue (a heap, so only their multiset matters) and the visited cities. */
  datatype Frame = Frame(queue: multiset<Node>, visited: set<nat>)

  /** `node` is a node of least priority in the queue, which heappop may
      return. */
  predicate LeastIn(node: Node, queue: multiset<Node>)
  {
    node in queue && forall x :: x in queue ==> !Less(x, node)
  }

  /** One iteration that does not end the search: pop a least node; if its
      city is visited, drop it; otherwise visit the city and push the
      node's children, computed over the enlarged visited set. */
  predicate Transition(d: seq<seq<nat>>, f: Frame, node: Node, f': Frame)
    requires IsMatrix(d)
  {
    LeastIn(node, f.queue) &&
    if node.city in f.visited then
      f' == Frame(f.queue - multiset{node}, f.visited)
    else
      var v := f.visited + {node.city};
      |v| != |d| && (|d| > 0 ==> node.city < |d| && Below(v, |d|)) &&
      f' == Frame(f.queue - multiset{node} + multiset(ChildrenOf(d, node, v)), v)
  }

  /** The iteration that ends the search: the least node popped carries the
      last city not yet visited. */
  predicate Finish(d: seq<seq<nat>>, f: Frame, node: Node)
  {
    LeastIn(node, f.queue) && node.city !in f.visited && |f.visited + {node.city}| == |d|
  }

  /** `frames` are the states the loop passes through from the start, and
      pops[i] is the node popped in iteration i. */
  predicate IsTrace(d: seq<seq<nat>>, start: nat, frames: seq<Frame>, pops: seq<Node>)
    requires IsMatrix(d)
  {
    |frames| == |pops| + 1 && frames[0] == Frame(multiset{Root(start)}, {}) &&
    forall i :: 0 <= i < |pops| ==> Transition(d, frames[i], pops[i], frames[i + 1])
  }

  /** A trace extended by one more transition is a trace. */
  lemma TraceExtend(d: seq<seq<nat>>, start: nat, frames: seq<Frame>, pops: seq<Node>, node: Node, f': Frame)
    requires IsMatrix(d) && IsTrace(d, start, frames, pops)
    requires Transition(d, frames[|frames| - 1], node, f')
    ensures IsTrace(d, start, frames + [f'], pops + [node])
  {
    var frames', pops' := frames + [f'], pops + [node];
    forall i | 0 <= i < |pops'| ensures Transition(d, frames'[i], pops'[i], frames'[i + 1]) {
      if i < |pops| {
        assert frames'[i] == frames[i] && frames'[i + 1] == frames[i + 1] && pops'[i] == pops[i];
      }
    }
  }

  /** Given the nodes popped, the states of the loop are determined: the
      only freedom of the search is which of several least nodes heappop
      returns. */
  lemma TraceDetermined(d: seq<seq<nat>>, start: nat, frames1: seq<Frame>, frames2: seq<Frame>, pops: seq<Node>)
    requires IsMatrix(d) && IsTrace(d, start, frames1, pops) && IsTrace(d, start, frames2, pops)
    ensures frames1 == frames2
  {
    var i := 0;
    while i < |pops|
      invariant i <= |pops|
      invariant forall k :: 0 <= k <= i ==> frames1[k] == frames2[k]
    {
      assert Transition(d, frames1[i], pops[i], frames1[i + 1]);
      assert Transition(d, frames2[i], pops[i], frames2[i + 1]);
      i := i + 1;
    }
  }

  /** How a run of the loop ends: with the queue empty and nothing found,
      or with the pop that visits the last city. */
  predicate Outcome(d: seq<seq<nat>>, start: nat, frames: seq<Frame>, pops: seq<Node>, found: Option<Node>)
    requires IsMatrix(d)
  {
    IsTrace(d, start, frames, pops) &&
    var last := frames[|frames| - 1];
    match found
    case None => last.queue == multiset{}
    case Some(node) => Finish(d, last, node)
  }

  // ---------------------------------------------------------------------------
  // The search loop (astar_tsp)

  /** Every queued node is good, and the cities before it on its chain are
      all visited. */
  predicate Frontier(d: seq<seq<nat>>, start: nat, queue: seq<Node>, visited: set<nat>)
  {
    forall x :: x in queue ==>
      NodeOk(d, start, x) && (x.parent.Some? ==> Elements(Chain(x.parent.value)) <= visited)
  }

  /** Every city not yet visited has a pending node in the queue. */
  predicate Covered(n: nat, queue: seq<Node>, visited: set<nat>)
  {
    forall c :: 0 <= c < n && c !in visited ==> exists x :: x in queue && x.city == c
  }

  /** Fewer than n visited cities below n leave one out. */
  lemma UnvisitedExists(visited: set<nat>, n: nat)
    requires visited <= Range(n) && |visited| < n
    ensures exists c :: 0 <= c < n && c !in visited
  {
    if forall c :: 0 <= c < n ==> c in visited {
      assert Range(n) <= visited;
      SubsetCard(Range(n), visited);
      RangeCard(n);
    }
  }

  /** What holds of the queue and the visited set between iterations of the
      search loop; `universe` is the set of cities any node can carry. */
  predicate SearchInv(d: seq<seq<nat>>, start: nat, universe: set<nat>, queue: seq<Node>, visited: set<nat>)
  {
    visited <= universe &&
    (forall x :: x in queue ==> x.city in universe) &&
    (|d| > 0 ==> Frontier(d, start, queue, visited)) &&
    (visited == {} ==> queue == [Root(start)]) &&
    (visited != {} && |d| > 0 ==> visited <= Range(|d|) && |visited| < |d| && Covered(|d|, queue, visited))
  }

  /** The postconditions of HeapPop that the loop relies on. */
  predicate Popped(queue: seq<Node>, node: Node, rest: seq<Node>)
  {
    node in queue &&
    (forall x :: x in rest ==> x in queue) &&
    (forall x :: x in queue && x != node ==> x in rest)
  }

  /** Discarding a node whose city is already visited keeps the invariant. */
  lemma DiscardOk(d: seq<seq<nat>>, start: nat, universe: set<nat>, queue: seq<Node>, visited: set<nat>,
                  node: Node, rest: seq<Node>)
    requires SearchInv(d, start, universe, queue, visited)
    requires Popped(queue, node, rest) && node.city in visited
    ensures SearchInv(d, start, universe, rest, visited)
  {
  }

  /** Visiting the popped node's city and pushing its children keeps the
      invariant, as long as the search has not finished. */
  lemma VisitOk(d: seq<seq<nat>>, start: nat, universe: set<nat>, queue: seq<Node>, visited: set<nat>,
                node: Node, rest: seq<Node>, queue': seq<Node>)
    requires IsMatrix(d) && (start < |d| || |d| == 0) && universe == Range(|d|) + {start}
    requires SearchInv(d, start, universe, queue, visited)
    requires Popped(queue, node, rest) && node.city !in visited
    requires |visited + {node.city}| != |d|
    requires queue' == rest + ChildrenOf(d, node, visited + {node.city})
    ensures SearchInv(d, start, universe, queue', visited + {node.city})
    ensures |d| > 0 ==> node.city < |d| && Below(visited + {node.city}, |d|)
  {
    var visited' := visited + {node.city};
    if |d| > 0 {
      assert node.city < |d|;
      assert visited' <= Range(|d|);
      SubsetCard(visited', Range(|d|));
      RangeCard(|d|);
      var children := ChildrenOf(d, node, visited');
      forall x | x in queue'
        ensures NodeOk(d, start, x) && (x.parent.Some? ==> Elements(Chain(x.parent.value)) <= visited')
      {
        if x in children {
          ChildOk(d, start, node, x.city, visited');
        }
      }
      forall c | 0 <= c < |d| && c !in visited'
        ensures exists x :: x in queue' && x.city == c
      {
        assert Child(d, node, c, visited') in queue';
      }
    }
  }

  /** heappop's result seen on the multiset of queued nodes. */
  lemma PopLeast(queue: seq<Node>, node: Node, rest: seq<Node>)
    requires node in queue && (forall x :: x in queue ==> !Less(x, node))
    requires multiset(rest) + multiset{node} == multiset(queue)
    ensures LeastIn(node, multiset(queue)) && multiset(rest) == multiset(queue) - multiset{node}
    ensures |rest| + 1 == |queue|
  {
    assert |multiset(rest)| + 1 == |multiset(queue)|;
  }

  /** What one pass of the loop body achieves from the state (queue, visited)
      when it pops `node` and leaves (queue', visited'): either a transition
      that keeps the loop invariant, or the pop that ends the search with a
      good node. It discards a node whose city is visited or visits exactly
      one new city, and the first pass visits the start city. */
  predicate Pass(d: seq<seq<nat>>, start: nat, universe: set<nat>, queue: seq<Node>, visited: set<nat>,
                 node: Node, queue': seq<Node>, visited': set<nat>)
    requires IsMatrix(d)
  {
    (|visited'| != |d| ==>
       Transition(d, Frame(multiset(queue), visited), node, Frame(multiset(queue'), visited')) &&
       SearchInv(d, start, universe, queue', visited')) &&
    (|visited'| == |d| ==> Finish(d, Frame(multiset(queue), visited), node) && |d| > 0 && NodeOk(d, start, node)) &&
    (node.city in visited ==> visited' == visited && |queue'| + 1 == |queue|) &&
    (node.city !in visited ==> visited' == visited + {node.city} && |visited'| == |visited| + 1) &&
    (visited == {} ==> node == Root(start) && visited' == {start})
  }

  /** The pass that pops a node whose city is already visited. */
  lemma DiscardPass(d: seq<seq<nat>>, start: nat, universe: set<nat>, queue: seq<Node>, visited: set<nat>,
                    node: Node, rest: seq<Node>)
    requires IsMatrix(d) && SearchInv(d, start, universe, queue, visited)
    requires Popped(queue, node, rest) && LeastIn(node, multiset(queue)) && node.city in visited
    requires multiset(rest) == multiset(queue) - multiset{node} && |rest| + 1 == |queue|
    ensures Pass(d, start, universe, queue, visited, node, rest, visited)
  {
    DiscardOk(d, start, universe, queue, visited, node, rest);
    assert Transition(d, Frame(multiset(queue), visited), node, Frame(multiset(rest), visited));
  }

  /** The pass that visits a new city and pushes its children. */
  lemma VisitPass(d: seq<seq<nat>>, start: nat, universe: set<nat>, queue: seq<Node>, visited: set<nat>,
                  node: Node, rest: seq<Node>, queue': seq<Node>)
    requires IsMatrix(d) && (start < |d| || |d| == 0) && universe == Range(|d|) + {start}
    requires SearchInv(d, start, universe, queue, visited)
    requires Popped(queue, node, rest) && LeastIn(node, multiset(queue)) && node.city !in visited
    requires multiset(rest) == multiset(queue) - multiset{node}
    requires |visited + {node.city}| != |d|
    requires queue' == rest + ChildrenOf(d, node, visited + {node.city})
    ensures Pass(d, start, universe, queue, visited, node, queue', visited + {node.city})
  {
    var visited' := visited + {node.city};
    VisitOk(d, start, universe, queue, visited, node, rest, queue');
    assert multiset(queue') == multiset(rest) + multiset(ChildrenOf(d, node, visited'));
    assert Transition(d, Frame(multiset(queue), visited), node, Frame(multiset(queue'), visited'));
  }

  /** The pass that visits the last city and ends the search. */
  lemma FinishPass(d: seq<seq<nat>>, start: nat, universe: set<nat>, queue: seq<Node>, visited: set<nat>,
                   node: Node, rest: seq<Node>)
    requires IsMatrix(d) && SearchInv(d, start, universe, queue, visited)
    requires Popped(queue, node, rest) && LeastIn(node, multiset(queue)) && node.city !in visited
    requires |visited + {node.city}| == |d|
    ensures Pass(d, start, universe, queue, visited, node, rest, visited + {node.city})
  {
  }

  /** One pass of astar_tsp's loop body: pop a node of least priority; if its
      city is new, visit it and, unless every city is now visited, push its
      children. */
  method VisitNext(d: seq<seq<nat>>, start: nat, ghost universe: set<nat>, queue: seq<Node>, visited: set<nat>)
    returns (node: Node, queue': seq<Node>, visited': set<nat>)
    requires IsMatrix(d) && (start < |d| || |d| == 0) && universe == Range(|d|) + {start}
    requires SearchInv(d, start, universe, queue, visited) && |queue| > 0
    ensures Pass(d, start, universe, queue, visited, node, queue', visited')
  {
    var rest;
    node, rest := HeapPop(queue);
    PopLeast(queue, node, rest);
    queue' := rest;
    visited' := visited;
    if node.city !in visited {
      visited' := visited + {node.city};
      if |visited'| != |d| {
        queue' := PushChildren(d, node, visited', queue');
        VisitPass(d, start, universe, queue, visited, node, rest, queue');
      } else {
        FinishPass(d, start, universe, queue, visited, node, rest);
      }
    } else {
      DiscardPass(d, start, universe, queue, visited, node, rest);
    }
  }

  /** astar_tsp's loop, shared by both copies. `frames` and `pops` record the
      states it passes through and the nodes it pops; it returns the node
      popped when `visited` reaches num_cities, whose city is then the last
      one missing, or None (float('inf')) when the queue runs dry, which
      happens exactly when there are no cities. */
  method Search(d: seq<seq<nat>>, start: nat) returns (r: Option<Node>, ghost frames: seq<Frame>, ghost pops: seq<Node>)
    requires IsMatrix(d) && (start < |d| || |d| == 0)
    ensures Outcome(d, start, frames, pops, r)
    ensures r.None? <==> |d| == 0
    ensures r.Some? ==> NodeOk(d, start, r.value) &&
                        frames[|frames| - 1].visited + {r.value.city} == Range(|d|)
    ensures |d| == 1 ==> r == Some(Root(start))
  {
    var queue := [Root(start)];
    var visited: set<nat> := {};
    ghost var universe := Range(|d|) + {start};
    frames, pops := [Frame(multiset(queue), visited)], [];
    if |d| > 0 {
      RootOk(d, start);
    }
    while |queue| > 0
      invariant SearchInv(d, start, universe, queue, visited)
      invariant |d| == 1 ==> visited == {}
      invariant IsTrace(d, start, frames, pops) && frames[|frames| - 1] == Frame(multiset(queue), visited)
      decreases |universe| - |visited|, |queue|
    {
      SubsetCard(visited, universe);
      var node, queue', visited' := VisitNext(d, start, universe, queue, visited);
      if |visited'| == |d| {
        FinalCity(d, start, universe, queue, visited, node);
        return Some(node), frames, pops;
      }
      TraceExtend(d, start, frames, pops, node, Frame(multiset(queue'), visited'));
      frames, pops := frames + [Frame(multiset(queue'), visited')], pops + [node];
      queue, visited := queue', visited';
      SubsetCard(visited, universe);
    }
    if |d| > 0 {
      UnvisitedExists(visited, |d|);
    }
    return None, frames, pops;
  }

  /** When the popped node's city completes `visited`, every city is
      visited. */
  lemma FinalCity(d: seq<seq<nat>>, start: nat, universe: set<nat>, queue: seq<Node>, visited: set<nat>, node: Node)
    requires IsMatrix(d) && (start < |d| || |d| == 0)
    requires SearchInv(d, start, universe, queue, visited)
    requires NodeOk(d, start, node) && |visited + {node.city}| == |d|
    ensures visited + {node.city} == Range(|d|)
  {
    if visited == {} {
      assert {node.city} <= Range(|d|);
    }
    FullSubset(visited + {node.city}, |d|);
  }

  /** Closing a good node's chain with the edge back to the start city costs
      the node's cost plus that edge; the chain is no longer than the number
      of cities. */
  lemma ClosedChainCost(d: seq<seq<nat>>, start: nat, node: Node)
    requires NodeOk(d, start, node)
    ensures var t := Chain(node);
            |t| <= |d| && node.cost + d[node.city][start] == TourCost(d, t)
  {
    DistinctBound(Chain(node), |d|);
  }

  /** astar_tsp of a_star.py: the search's found node, closed by the edge back
      to the start city, or None (float('inf')) when there are no cities.
      The cost is that of the found node's parent chain as a closed tour,
      which starts at the start city and repeats no city. */
  method AStarTsp(d: seq<seq<nat>>, start: nat)
    returns (r: Option<nat>, ghost found: Option<Node>, ghost frames: seq<Frame>, ghost pops: seq<Node>)
    requires IsMatrix(d) && (start < |d| || |d| == 0)
    ensures Outcome(d, start, frames, pops, found)
    ensures r.None? <==> found.None?
    ensures r.None? <==> |d| == 0
    ensures found.Some? ==> NodeOk(d, start, found.value) &&
                            frames[|frames| - 1].visited + {found.value.city} == Range(|d|)
    ensures r.Some? ==> r.value == found.value.cost + d[found.value.city][start]
    ensures r.Some? ==> var tour := Chain(found.value);
                        InRange(tour, |d|) && tour[0] == start && Distinct(tour) && |tour| <= |d| &&
                        r.value == TourCost(d, tour)
    ensures |d| == 1 ==> r == Some(d[start][start])
  {
    var result;
    result, frames, pops := Search(d, start);
    found := result;
    match result
    case None =>
      r := None;
    case Some(node) =>
      ClosedChainCost(d, start, node);
      r := Some(node.cost + d[node.city][start]);
  }
}
