/** The all-pairs loop of tsp.cc:131-154: one search per root `i`, writing
    the row `distance[i]` and the column `next[*][i]`. The iterations run in
    parallel but write disjoint cells, so the tables do not depend on their
    order. */
module AllPairs {
  import opened Wrappers
  import opened Records
  import opened Graphs
  import opened UnionFind
  import opened Costs
  import opened Dijkstra
  import opened DijkstraProofs

  /** `distance[i][v]` is the cost from `i` to `v`; `next[v][i]` is the node
      after `v` on the way from `v` to `i`, or -1. */
  datatype Tables = Tables(distance: seq<seq<Cost>>, next: seq<seq<int>>)

  /** The searches from the roots `0..k-1`, in root order. */
  function Searches(g: Graph, cost: seq<seq<Cost>>, n: nat, k: nat): (r: Result<seq<Search>>)
    requires Square(cost, n)
    ensures r.Ok? <==> forall i :: 0 <= i < k ==> ShortestFrom(g, cost, n, i).Ok?
    ensures r.Ok? ==> |r.value| == k && forall i :: 0 <= i < k ==> Ok(r.value[i]) == ShortestFrom(g, cost, n, i)
    decreases k
  {
    if k == 0 then Ok([])
    else
      match Searches(g, cost, n, k - 1)
      case Fatal => Fatal
      case Ok(ss) =>
        match ShortestFrom(g, cost, n, k - 1)
        case Fatal => Fatal
        case Ok(s) => Ok(ss + [s])
  }

  /** Column `i` of an `n` by `n` table. */
  function Column(m: seq<seq<int>>, n: nat, i: int): (c: seq<int>)
    requires Square(m, n) && 0 <= i < n
    ensures |c| == n && forall v :: 0 <= v < n ==> c[v] == m[v][i]
  {
    seq(n, v requires 0 <= v < n => m[v][i])
  }

  /** tsp.cc:131-154: both tables start as `DBL_MAX` and -1, and each search
      fills its row and column. A search that throws aborts the program. */
  function ShortestPaths(g: Graph, cost: seq<seq<Cost>>, n: nat): (r: Result<Tables>)
    requires Square(cost, n)
    ensures r.Ok? ==> Square(r.value.distance, n) && Square(r.value.next, n)
  {
    match Searches(g, cost, n, n)
    case Fatal => Fatal
    case Ok(ss) =>
      Ok(Tables(seq(n, i requires 0 <= i < n => ss[i].dist),
                seq(n, v requires 0 <= v < n => seq(n, i requires 0 <= i < n => ss[i].pred[v]))))
  }

  /** What the cost table must give every search: a well-formed graph on
      `0..n-1` whose linked pairs have finite costs. */
  ghost predicate Ready(g: Graph, cost: seq<seq<Cost>>, n: nat) {
    && Wellformed(g) && EdgesWithin(g.edges, n) && Square(cost, n)
    && forall u, v :: 0 <= u < n && 0 <= v < n && Linked(g.edges, u, v) ==> cost[u][v].Fin?
  }

  /** The tables are filled exactly when every node has an adjacency entry;
      then row `i` of `distance` and column `i` of `next` form a
      shortest-path tree rooted at `i`, with `distance[i][i] = 0` and
      `next[i][i] = -1`. */
  lemma ShortestPathsSpec(g: Graph, cost: seq<seq<Cost>>, n: nat)
    requires Ready(g, cost, n)
    ensures ShortestPaths(g, cost, n).Ok? <==> forall v :: 0 <= v < n ==> v in g.adj
    ensures ShortestPaths(g, cost, n).Ok? ==>
      var t := ShortestPaths(g, cost, n).value;
      forall i :: 0 <= i < n ==>
        && t.distance[i][i] == Fin(0) && t.next[i][i] == NoNode
        && ShortestPathTree(g, cost, n, i, t.distance[i], Column(t.next, n, i))
  {
    ShortestPathsOk(g, cost, n);
    if ShortestPaths(g, cost, n).Ok? {
      forall i | 0 <= i < n {
        ShortestPathsRoot(g, cost, n, i);
      }
    }
  }

  lemma ShortestPathsOk(g: Graph, cost: seq<seq<Cost>>, n: nat)
    requires Ready(g, cost, n)
    ensures ShortestPaths(g, cost, n).Ok? <==> forall v :: 0 <= v < n ==> v in g.adj
  {
    forall i | 0 <= i < n
      ensures ShortestFrom(g, cost, n, i).Ok? <==> forall v :: 0 <= v < n && Connected(g.edges, i, v) ==> v in g.adj
    {
      assert Setting(g, cost, n, i);
      ShortestFromSpec(g, cost, n, i);
    }
    if ShortestPaths(g, cost, n).Ok? {
      forall v | 0 <= v < n
        ensures v in g.adj
      {
        ConnectedReflexive(g.edges, v);
        assert ShortestFrom(g, cost, n, v).Ok?;
      }
    }
  }

  lemma ShortestPathsRoot(g: Graph, cost: seq<seq<Cost>>, n: nat, i: int)
    requires Ready(g, cost, n) && 0 <= i < n && ShortestPaths(g, cost, n).Ok?
    ensures var t := ShortestPaths(g, cost, n).value;
      && t.distance[i][i] == Fin(0) && t.next[i][i] == NoNode
      && ShortestPathTree(g, cost, n, i, t.distance[i], Column(t.next, n, i))
  {
    var t := ShortestPaths(g, cost, n).value;
    var ss := Searches(g, cost, n, n).value;
    assert Ok(ss[i]) == ShortestFrom(g, cost, n, i);
    assert Setting(g, cost, n, i);
    ShortestFromSpec(g, cost, n, i);
    assert t.distance[i] == ss[i].dist;
    assert Column(t.next, n, i) == ss[i].pred;
  }
}
