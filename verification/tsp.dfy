/** The middle of tsp.cc: the build restricted to the component of Tokyo
    station, the cost matrix over it and the all-pairs searches. The groups
    it reads are the rows group.cc wrote. */
module Tsp {
  import opened Wrappers
  import opened Records
  import opened Repositories
  import opened Graphs
  import opened Builder
  import opened Cliques
  import opened UnionFind
  import opened Components
  import opened Costs
  import opened DijkstraProofs
  import opened AllPairs

  /** The station code of Tokyo (tsp.cc:8). */
  const Tokyo: int := 1130101

  /** `groupRepository.isSame(code, TOKYO)`. */
  function InTokyo(groups: seq<Group>): int -> bool {
    c => IsSame(GroupRepositoryOf(groups), c, Tokyo)
  }

  /** tsp.cc:33-154 after loading its inputs: build over the codes in
      Tokyo's group, weigh the edges, run every search. `weight` stands for
      `calcDistance` on the two stations' coordinates. */
  function TspTables(stations: seq<Station>, joins: seq<Join>, groups: seq<Group>,
                     weight: (Station, Station) -> nat): Result<Tables>
  {
    RestrictedTables(stations, joins, InTokyo(groups), weight)
  }

  /** The same pipeline for any acceptance test. */
  function RestrictedTables(stations: seq<Station>, joins: seq<Join>, accept: int -> bool,
                            weight: (Station, Station) -> nat): Result<Tables>
  {
    var b := Build(stations, joins, accept);
    var n := Size(b.nodes);
    // Never taken (`Cliques.BuildShape` puts every edge among the nodes);
    // it stands for nothing in tsp.cc and only makes `CostMatrix` callable.
    if !EdgesWithin(b.graph.edges, n) then Fatal
    else
      match CostMatrix(b.nodes, StationRepositoryOf(stations), weight, n, b.graph.edges)
      case Fatal => Fatal
      case Ok(cost) => ShortestPaths(b.graph, cost, n)
  }

  /** With the rows group.cc writes, being in Tokyo's group is closed under
      known joins: the two stations of a known join are joined by an edge
      of group.cc's graph, so they share a leader. */
  lemma GroupsClosed(stations: seq<Station>, joins: seq<Join>)
    ensures GroupRows(stations, joins).Ok?
    ensures ClosedUnderJoins(StationRepositoryOf(stations), InTokyo(GroupRows(stations, joins).value), joins)
  {
    var sr := StationRepositoryOf(stations);
    GroupRowsSpec(stations, joins);
    var rows := GroupRows(stations, joins).value;
    var repo := GroupRepositoryOf(rows);
    forall k | 0 <= k < |joins| && KnownJoin(sr, joins[k]) && IsSame(repo, joins[k].code1, Tokyo)
      ensures IsSame(repo, joins[k].code2, Tokyo)
    {
      var c1 := joins[k].code1;
      var c2 := joins[k].code2;
      KnownJoinLinked(stations, joins, k);
      SameGroupIffConnected(stations, joins, c1, c2);
      IsSameSymmetric(repo, c1, c2);
      IsSameTransitive(repo, c2, c1, Tokyo);
    }
  }

  /** In group.cc's graph the two stations of a known join have nodes
      joined by an edge. */
  lemma KnownJoinLinked(stations: seq<Station>, joins: seq<Join>, k: int)
    requires 0 <= k < |joins| && KnownJoin(StationRepositoryOf(stations), joins[k])
    ensures var b := Build(stations, joins, AcceptAll);
            var c1 := joins[k].code1;
            var c2 := joins[k].code2;
            c1 in b.nodes.byCode && c2 in b.nodes.byCode
            && Connected(b.graph.edges, IdOf(b.nodes, c1), IdOf(b.nodes, c2))
  {
    var sr := StationRepositoryOf(stations);
    var b := Build(stations, joins, AcceptAll);
    var c1 := joins[k].code1;
    var c2 := joins[k].code2;
    BuildShape(stations, joins, AcceptAll);
    BuildSpec(stations, joins, AcceptAll);
    NodeCodesSpec(sr, AcceptAll, joins);
    JoinEdgeCodesSpec(sr, AcceptAll, joins);
    NodesAreLookup(b.nodes, NodeCodes(sr, AcceptAll, joins));
    assert AsksFor(sr, AcceptAll, joins[k], c1) && AsksFor(sr, AcceptAll, joins[k], c2);
    assert (c1, c2) in JoinEdgeCodes(sr, AcceptAll, joins);
    var e := (IdOf(b.nodes, c1), IdOf(b.nodes, c2));
    assert BuildEdge(stations, joins, AcceptAll, b.nodes, e);
    ConnectedByEdge(b.graph.edges, e.0, e.1);
  }

  /** Over the restricted build every edge has a weight, so the cost matrix
      is built, and it is finite exactly on linked pairs. */
  lemma RestrictedCosts(stations: seq<Station>, joins: seq<Join>, accept: int -> bool,
                        weight: (Station, Station) -> nat)
    ensures var b := Build(stations, joins, accept);
            EdgesWithin(b.graph.edges, Size(b.nodes))
    ensures var b := Build(stations, joins, accept);
            var n := Size(b.nodes);
            var r := CostMatrix(b.nodes, StationRepositoryOf(stations), weight, n, b.graph.edges);
            r.Ok? && Ready(b.graph, r.value, n)
  {
    var sr := StationRepositoryOf(stations);
    var b := Build(stations, joins, accept);
    var n := Size(b.nodes);
    BuildShape(stations, joins, accept);
    var codes := NodeCodes(sr, accept, joins);
    forall k | 0 <= k < |b.graph.edges|
      ensures EdgeWeight(b.nodes, sr, weight, b.graph.edges[k]).Some?
    {
      var e := b.graph.edges[k];
      assert e in b.graph.edges;
      assert e.0 in b.nodes.byId && e.1 in b.nodes.byId;
      assert b.nodes.byId[e.0].stationCode in b.nodes.byCode;
      assert b.nodes.byId[e.1].stationCode in b.nodes.byCode;
    }
    CostMatrixSpec(b.nodes, sr, weight, n, b.graph.edges);
    CostMatrixSymmetric(b.nodes, sr, weight, n, b.graph.edges);
  }

  /** When the accepted codes are closed under known joins, the pipeline
      never aborts and every row of `distance` with its column of `next`
      is a shortest-path tree of the restricted graph. */
  lemma RestrictedTablesSpec(stations: seq<Station>, joins: seq<Join>, accept: int -> bool,
                             weight: (Station, Station) -> nat)
    requires ClosedUnderJoins(StationRepositoryOf(stations), accept, joins)
    ensures RestrictedTables(stations, joins, accept, weight).Ok?
    ensures var b := Build(stations, joins, accept);
            var n := Size(b.nodes);
            var cost := CostMatrix(b.nodes, StationRepositoryOf(stations), weight, n, b.graph.edges).value;
            var t := RestrictedTables(stations, joins, accept, weight).value;
            forall i :: 0 <= i < n ==>
              && t.distance[i][i] == Fin(0) && t.next[i][i] == NoNode
              && ShortestPathTree(b.graph, cost, n, i, t.distance[i], Column(t.next, n, i))
  {
    var b := Build(stations, joins, accept);
    var n := Size(b.nodes);
    RestrictedCosts(stations, joins, accept, weight);
    ClosedNodesHaveNeighbors(stations, joins, accept);
    var cost := CostMatrix(b.nodes, StationRepositoryOf(stations), weight, n, b.graph.edges).value;
    RestrictedTablesAre(stations, joins, accept, weight);
    assert forall v :: 0 <= v < n ==> v in b.graph.adj by {
      forall v | 0 <= v < n ensures v in b.graph.adj {
        assert GetNeighbors(b.graph, v).Some?;
      }
    }
    TreesOfReady(RestrictedTables(stations, joins, accept, weight), b.graph, cost, n);
  }

  /** Once the edges lie among the nodes and the matrix is built, the
      pipeline's result is that of the searches. */
  lemma RestrictedTablesAre(stations: seq<Station>, joins: seq<Join>, accept: int -> bool,
                            weight: (Station, Station) -> nat)
    ensures var b := Build(stations, joins, accept);
            var n := Size(b.nodes);
            EdgesWithin(b.graph.edges, n)
            && CostMatrix(b.nodes, StationRepositoryOf(stations), weight, n, b.graph.edges).Ok?
            ==> RestrictedTables(stations, joins, accept, weight)
                == ShortestPaths(b.graph, CostMatrix(b.nodes, StationRepositoryOf(stations), weight, n, b.graph.edges).value, n)
  {
  }

  /** The searches over a ready graph whose every node has neighbours. */
  lemma TreesOfReady(r: Result<Tables>, g: Graph, cost: seq<seq<Cost>>, n: nat)
    requires Ready(g, cost, n) && r == ShortestPaths(g, cost, n)
    requires forall v :: 0 <= v < n ==> v in g.adj
    ensures r.Ok?
    ensures forall i :: 0 <= i < n ==>
              && r.value.distance[i][i] == Fin(0) && r.value.next[i][i] == NoNode
              && ShortestPathTree(g, cost, n, i, r.value.distance[i], Column(r.value.next, n, i))
  {
    ShortestPathsSpec(g, cost, n);
    var t := r.value;
    forall i | 0 <= i < n
      ensures && t.distance[i][i] == Fin(0) && t.next[i][i] == NoNode
              && ShortestPathTree(g, cost, n, i, t.distance[i], Column(t.next, n, i))
    {
    }
  }

  /** End to end: with the rows group.cc writes, tsp.cc never aborts in
      the searches, and every row of `distance` with its column of `next`
      is a shortest-path tree of the graph restricted to Tokyo's group. */
  lemma TspTablesSpec(stations: seq<Station>, joins: seq<Join>, weight: (Station, Station) -> nat)
    ensures GroupRows(stations, joins).Ok?
    ensures var groups := GroupRows(stations, joins).value;
            TspTables(stations, joins, groups, weight).Ok?
    ensures var groups := GroupRows(stations, joins).value;
            var b := Build(stations, joins, InTokyo(groups));
            var n := Size(b.nodes);
            var cost := CostMatrix(b.nodes, StationRepositoryOf(stations), weight, n, b.graph.edges).value;
            var t := TspTables(stations, joins, groups, weight).value;
            && Square(cost, n) && Square(t.distance, n) && Square(t.next, n)
            && forall i :: 0 <= i < n ==>
              && t.distance[i][i] == Fin(0) && t.next[i][i] == NoNode
              && ShortestPathTree(b.graph, cost, n, i, t.distance[i], Column(t.next, n, i))
  {
    GroupsClosed(stations, joins);
    var groups := GroupRows(stations, joins).value;
    RestrictedTablesSpec(stations, joins, InTokyo(groups), weight);
  }
}
