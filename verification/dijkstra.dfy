/** One search of tsp.cc:134-154: Dijkstra from a root over the cost
    matrix, filling the root's row of `distance` and its column of `next`.

    The source keeps a min-priority queue of `(distance, id)` pairs and
    skips a popped pair whose distance is stale. A node's pair is pushed
    only when its distance strictly drops, so the pairs it pops and does not
    skip are, in order, the unsettled reached nodes with the least
    `(distance, id)`; each node is taken once. The model takes that node
    directly by a scan. */
module Dijkstra {
  import opened Wrappers
  import opened Records
  import opened Graphs
  import opened Costs

  /** The search from one root: `dist` is the row `distance[root]`, `pred[v]`
      is `next[v][root]`, and `order` lists the nodes taken off the queue,
      in the order taken. */
  datatype Search = Search(dist: seq<Cost>, pred: seq<int>, order: seq<int>)

  /** `(a, u) < (b, v)` as `pair<double, int>` compares. */
  predicate Precedes(a: Cost, u: int, b: Cost, v: int) {
    Below(a, b) || (a == b && u < v)
  }

  /** The next node the queue yields among `0..k-1`: reached, not yet
      taken, and least by `(distance, id)`; `None` once every node not yet
      taken is unreached, which is when the queue runs dry. */
  function Pick(dist: seq<Cost>, order: seq<int>, k: nat): (r: Option<int>)
    requires k <= |dist|
    ensures r.Some? ==> 0 <= r.value < k && dist[r.value].Fin? && r.value !in order
    ensures r.Some? ==> forall v :: 0 <= v < k && v != r.value && dist[v].Fin? && v !in order
                                   ==> Precedes(dist[r.value], r.value, dist[v], v)
    ensures r.None? <==> forall v :: 0 <= v < k && v !in order ==> dist[v].Inf?
  {
    if k == 0 then None
    else
      var r := Pick(dist, order, k - 1);
      var v := k - 1;
      if v in order || dist[v].Inf? then r
      else if r.None? || Below(dist[v], dist[r.value]) then Some(v)
      else r
  }

  /** Whether taking `u` improves `v`: `v` is a neighbour of `u` and
      `d + cost[u][v] < distance[root][v]` for `u`'s distance `d`. */
  predicate Improves(s: Search, cost: seq<seq<Cost>>, n: nat, u: int, nbrs: set<int>, v: int)
    requires |s.dist| == n && Square(cost, n) && 0 <= u < n && 0 <= v < n
  {
    v in nbrs && Below(Plus(s.dist[u], cost[u][v]), s.dist[v])
  }

  /** Taking `u` off the queue: every neighbour it improves gets the new
      distance and `u` as its next hop. The source updates the neighbours
      one at a time, but each update reads only `u`'s distance and the
      neighbour's own entries, and `u` never improves itself because costs
      are not negative, so updating them all at once is the same. */
  function Relax(s: Search, cost: seq<seq<Cost>>, n: nat, u: int, nbrs: set<int>): (s': Search)
    requires |s.dist| == n && |s.pred| == n && Square(cost, n) && 0 <= u < n
    ensures |s'.dist| == n && |s'.pred| == n && s'.order == s.order + [u]
  {
    Search(
      seq(n, v requires 0 <= v < n =>
        if Improves(s, cost, n, u, nbrs, v) then Plus(s.dist[u], cost[u][v]) else s.dist[v]),
      seq(n, v requires 0 <= v < n =>
        if Improves(s, cost, n, u, nbrs, v) then u else s.pred[v]),
      s.order + [u])
  }

  /** The nodes not yet taken. */
  function Unsettled(order: seq<int>, n: nat): set<int> {
    set v | 0 <= v < n && v !in order
  }

  /** The `while (!pq.empty())` loop. `getNeighbors` throws for a node with
      no adjacency entry. */
  function Run(g: Graph, cost: seq<seq<Cost>>, n: nat, s: Search): (r: Result<Search>)
    requires |s.dist| == n && |s.pred| == n && Square(cost, n)
    ensures r.Ok? ==> |r.value.dist| == n && |r.value.pred| == n
    decreases |Unsettled(s.order, n)|
  {
    match Pick(s.dist, s.order, n)
    case None => Ok(s)
    case Some(u) =>
      match GetNeighbors(g, u)
      case None => Fatal
      case Some(nbrs) =>
        assert Unsettled(s.order, n) == Unsettled(s.order + [u], n) + {u};
        Run(g, cost, n, Relax(s, cost, n, u, nbrs))
  }

  /** The state before the loop: `distance[root][root] = 0`, every other
      distance `DBL_MAX`, every next hop -1, nothing taken. */
  function Initial(n: nat, root: int): Search {
    Search(seq(n, v => if v == root then Fin(0) else Inf), seq(n, _ => NoNode), [])
  }

  /** One iteration of tsp.cc:134 for `root`. */
  function ShortestFrom(g: Graph, cost: seq<seq<Cost>>, n: nat, root: int): (r: Result<Search>)
    requires Square(cost, n)
    ensures r.Ok? ==> |r.value.dist| == n && |r.value.pred| == n
  {
    Run(g, cost, n, Initial(n, root))
  }

  /** The nodes met following next hops from `v` toward `root`: `v` first,
      `root` left out, at most `fuel` hops; `None` when the chain leaves the
      table or needs more hops. tour.cc walks this chain through `getNext`. */
  function Follow(pred: seq<int>, v: int, root: int, fuel: nat): (r: Option<seq<int>>)
    ensures r.Some? ==> |r.value| <= fuel && root !in r.value
    ensures r.Some? ==> (r.value == [] <==> v == root)
    ensures r.Some? && r.value != [] ==> r.value[0] == v
    decreases fuel
  {
    if v == root then Some([])
    else if fuel == 0 || !(0 <= v < |pred|) then None
    else
      match Follow(pred, pred[v], root, fuel - 1)
      case None => None
      case Some(rest) => Some([v] + rest)
  }

  /** `cost[a][b]`, or `Inf` off the table. */
  function StepCost(cost: seq<seq<Cost>>, a: int, b: int): Cost {
    if 0 <= a < |cost| && 0 <= b < |cost[a]| then cost[a][b] else Inf
  }

  /** The summed step costs along a walk. */
  function WalkCost(cost: seq<seq<Cost>>, w: seq<int>): Cost
    decreases |w|
  {
    if |w| <= 1 then Fin(0)
    else Plus(WalkCost(cost, w[..|w| - 1]), StepCost(cost, w[|w| - 2], w[|w| - 1]))
  }
}
