/** The second half of the graph build (group.cc:55-91, tsp.cc:72-111):
    every station group that holds an accepted node-bearing station becomes
    a clique over its node-bearing stations. No node is created here. */
module Cliques {
  import opened Wrappers
  import opened Records
  import opened Repositories
  import opened Graphs
  import opened OrderedSets
  import opened Builder

  /* ---------------------------------------------------------------------
     The group codes (`station_group_codes`)
     --------------------------------------------------------------------- */

  /** The group codes of the stations that have a node and are accepted,
      as the `std::set<int>` iterates them. */
  function GroupCodes(nodes: NodeRepository, accept: int -> bool, stations: seq<Station>): (r: seq<int>)
    ensures IntsIncreasing(r)
    decreases |stations|
  {
    if stations == [] then []
    else
      var codes := GroupCodes(nodes, accept, stations[..|stations| - 1]);
      var s := stations[|stations| - 1];
      if GetNodeByStationCode(nodes, s.code).None? || !accept(s.code) then codes
      else InsertInt(codes, s.groupCode)
  }

  /** Station `s` brings its group into the clique step. */
  predicate BringsGroup(nodes: NodeRepository, accept: int -> bool, s: Station) {
    s.code in nodes.byCode && accept(s.code)
  }

  lemma {:induction false} GroupCodesSpec(nodes: NodeRepository, accept: int -> bool, stations: seq<Station>)
    ensures forall g :: g in GroupCodes(nodes, accept, stations)
                    <==> exists i :: 0 <= i < |stations| && BringsGroup(nodes, accept, stations[i])
                                     && stations[i].groupCode == g
    decreases |stations|
  {
    if stations != [] {
      var n := |stations| - 1;
      var init := stations[..n];
      GroupCodesSpec(nodes, accept, init);
      forall g
        ensures g in GroupCodes(nodes, accept, stations)
            <==> exists i :: 0 <= i < |stations| && BringsGroup(nodes, accept, stations[i])
                             && stations[i].groupCode == g
      {
        if exists i :: 0 <= i < |stations| && BringsGroup(nodes, accept, stations[i]) && stations[i].groupCode == g {
          var i :| 0 <= i < |stations| && BringsGroup(nodes, accept, stations[i]) && stations[i].groupCode == g;
          if i < n {
            assert BringsGroup(nodes, accept, init[i]) && init[i].groupCode == g;
          }
        }
        if g in GroupCodes(nodes, accept, init) {
          var i :| 0 <= i < n && BringsGroup(nodes, accept, init[i]) && init[i].groupCode == g;
          assert stations[i] == init[i];
        }
      }
    }
  }

  /* ---------------------------------------------------------------------
     The double loop over one group
     --------------------------------------------------------------------- */

  /** Row `i` of the double loop over `members`, columns `0..n-1`: the
      column must differ from the row and have a node. */
  function RowPairs(nodes: NodeRepository, members: seq<Station>, i: nat, n: nat): seq<Edge>
    requires i < |members| && n <= |members|
    decreases n
  {
    if n == 0 then []
    else
      RowPairs(nodes, members, i, n - 1)
        + (if n - 1 != i && GetNodeByStationCode(nodes, members[n - 1].code).Some?
           then [(IdOf(nodes, members[i].code), IdOf(nodes, members[n - 1].code))]
           else [])
  }

  /** Rows `0..n-1`, each only when its station has a node. */
  function GroupPairs(nodes: NodeRepository, members: seq<Station>, n: nat): seq<Edge>
    requires n <= |members|
    decreases n
  {
    if n == 0 then []
    else
      GroupPairs(nodes, members, n - 1)
        + (if GetNodeByStationCode(nodes, members[n - 1].code).Some?
           then RowPairs(nodes, members, n - 1, |members|)
           else [])
  }

  /** The `addEdge` calls for one group, in call order; a group of at most
      one station is skipped. */
  function CliquePairs(nodes: NodeRepository, members: seq<Station>): seq<Edge> {
    if |members| <= 1 then [] else GroupPairs(nodes, members, |members|)
  }

  /** `e` joins two node-bearing stations at different positions of the
      group, in this order. */
  ghost predicate CliqueEdge(nodes: NodeRepository, members: seq<Station>, e: Edge) {
    exists i, j :: 0 <= i < |members| && 0 <= j < |members| && i != j
                   && members[i].code in nodes.byCode && members[j].code in nodes.byCode
                   && e == (IdOf(nodes, members[i].code), IdOf(nodes, members[j].code))
  }

  lemma {:induction false} RowPairsSpec(nodes: NodeRepository, members: seq<Station>, i: nat, n: nat)
    requires i < |members| && n <= |members|
    ensures forall e :: e in RowPairs(nodes, members, i, n)
                    <==> exists j :: 0 <= j < n && j != i && members[j].code in nodes.byCode
                                     && e == (IdOf(nodes, members[i].code), IdOf(nodes, members[j].code))
    decreases n
  {
    if n > 0 {
      RowPairsSpec(nodes, members, i, n - 1);
    }
  }

  lemma {:induction false} GroupPairsSpec(nodes: NodeRepository, members: seq<Station>, n: nat)
    requires n <= |members|
    ensures forall e :: e in GroupPairs(nodes, members, n)
                    <==> exists i, j :: 0 <= i < n && 0 <= j < |members| && i != j
                                        && members[i].code in nodes.byCode && members[j].code in nodes.byCode
                                        && e == (IdOf(nodes, members[i].code), IdOf(nodes, members[j].code))
    decreases n
  {
    if n > 0 {
      GroupPairsSpec(nodes, members, n - 1);
      RowPairsSpec(nodes, members, n - 1, |members|);
    }
  }

  /** The calls for one group are exactly the ordered pairs of distinct
      positions whose stations have nodes. */
  lemma CliquePairsSpec(nodes: NodeRepository, members: seq<Station>)
    ensures forall e :: e in CliquePairs(nodes, members) <==> CliqueEdge(nodes, members, e)
  {
    GroupPairsSpec(nodes, members, |members|);
  }

  /* ---------------------------------------------------------------------
     The loop over the group codes
     --------------------------------------------------------------------- */

  function CliqueLoop(sr: StationRepository, nodes: NodeRepository, g: Graph, codes: seq<int>): (g': Graph)
    requires EdgesIncreasing(g.edges)
    ensures EdgesIncreasing(g'.edges)
    decreases |codes|
  {
    if codes == [] then g
    else
      var g1 := AddEdges(g, CliquePairs(nodes, GetStationsByStationGroupCode(sr, codes[0])));
      CliqueLoop(sr, nodes, g1, codes[1..])
  }

  /** `e` is a clique edge of one of the groups `codes`. */
  ghost predicate GroupEdge(sr: StationRepository, nodes: NodeRepository, codes: seq<int>, e: Edge) {
    exists c :: c in codes && CliqueEdge(nodes, GetStationsByStationGroupCode(sr, c), e)
  }

  lemma {:induction false} CliqueLoopSpec(sr: StationRepository, nodes: NodeRepository, g: Graph, codes: seq<int>)
    requires Wellformed(g)
    ensures Wellformed(CliqueLoop(sr, nodes, g, codes))
    ensures forall e :: e in CliqueLoop(sr, nodes, g, codes).edges <==> e in g.edges || GroupEdge(sr, nodes, codes, e)
    decreases |codes|
  {
    if codes != [] {
      var members := GetStationsByStationGroupCode(sr, codes[0]);
      var g1 := AddEdges(g, CliquePairs(nodes, members));
      AddEdgesSpec(g, CliquePairs(nodes, members));
      CliquePairsSpec(nodes, members);
      CliqueLoopSpec(sr, nodes, g1, codes[1..]);
      forall e
        ensures GroupEdge(sr, nodes, codes, e)
            <==> CliqueEdge(nodes, members, e) || GroupEdge(sr, nodes, codes[1..], e)
      {
        if GroupEdge(sr, nodes, codes, e) {
          var c :| c in codes && CliqueEdge(nodes, GetStationsByStationGroupCode(sr, c), e);
          if c != codes[0] {
            assert c in codes[1..];
          }
        }
        if GroupEdge(sr, nodes, codes[1..], e) {
          var c :| c in codes[1..] && CliqueEdge(nodes, GetStationsByStationGroupCode(sr, c), e);
          assert c in codes;
        }
      }
    }
  }

  /* ---------------------------------------------------------------------
     The whole build
     --------------------------------------------------------------------- */

  /** The join loop followed by the clique step: the graph of group.cc
      with `AcceptAll`, the graph of tsp.cc with its component test. */
  function Build(stations: seq<Station>, joins: seq<Join>, accept: int -> bool): (b: Built)
    ensures EdgesIncreasing(b.graph.edges)
  {
    var sr := StationRepositoryOf(stations);
    var b := JoinLoop(sr, accept, joins);
    Built(b.nodes, CliqueLoop(sr, b.nodes, b.graph, GroupCodes(b.nodes, accept, stations)))
  }

  /** An edge of the finished graph, described from the input records:
      either an accepted join, or two node-bearing stations at different
      positions of a group that an accepted node-bearing station belongs to. */
  ghost predicate BuildEdge(stations: seq<Station>, joins: seq<Join>, accept: int -> bool,
                            nodes: NodeRepository, e: Edge) {
    var sr := StationRepositoryOf(stations);
    || (exists p :: p in JoinEdgeCodes(sr, accept, joins) && e == (IdOf(nodes, p.0), IdOf(nodes, p.1)))
    || (exists k :: 0 <= k < |stations| && BringsGroup(nodes, accept, stations[k])
                    && CliqueEdge(nodes, InGroup(stations, stations[k].groupCode), e))
  }

  lemma GroupEdgeOfStations(stations: seq<Station>, nodes: NodeRepository, accept: int -> bool, e: Edge)
    ensures GroupEdge(StationRepositoryOf(stations), nodes, GroupCodes(nodes, accept, stations), e)
        <==> exists k :: 0 <= k < |stations| && BringsGroup(nodes, accept, stations[k])
                         && CliqueEdge(nodes, InGroup(stations, stations[k].groupCode), e)
  {
    var sr := StationRepositoryOf(stations);
    var codes := GroupCodes(nodes, accept, stations);
    GroupCodesSpec(nodes, accept, stations);
    if GroupEdge(sr, nodes, codes, e) {
      var c :| c in codes && CliqueEdge(nodes, GetStationsByStationGroupCode(sr, c), e);
      var k :| 0 <= k < |stations| && BringsGroup(nodes, accept, stations[k]) && stations[k].groupCode == c;
      StationsOfGroup(stations, c);
    }
    if exists k :: 0 <= k < |stations| && BringsGroup(nodes, accept, stations[k])
                   && CliqueEdge(nodes, InGroup(stations, stations[k].groupCode), e) {
      var k :| 0 <= k < |stations| && BringsGroup(nodes, accept, stations[k])
               && CliqueEdge(nodes, InGroup(stations, stations[k].groupCode), e);
      var c := stations[k].groupCode;
      StationsOfGroup(stations, c);
      assert c in codes;
    }
  }

  /** The finished build: node ids `0..N-1` in first-asked order, every node
      an accepted known station, the adjacency map in step with the edges,
      and every edge between valid node ids. */
  lemma BuildShape(stations: seq<Station>, joins: seq<Join>, accept: int -> bool)
    ensures var sr := StationRepositoryOf(stations);
            NodesAre(Build(stations, joins, accept).nodes, NodeCodes(sr, accept, joins))
    ensures var sr := StationRepositoryOf(stations);
            forall c :: c in Build(stations, joins, accept).nodes.byCode ==> accept(c) && GetStationByCode(sr, c).Some?
    ensures Wellformed(Build(stations, joins, accept).graph)
    ensures var b := Build(stations, joins, accept);
            forall e :: e in b.graph.edges ==> 0 <= e.0 < Size(b.nodes) && 0 <= e.1 < Size(b.nodes)
  {
    var sr := StationRepositoryOf(stations);
    var b0 := JoinLoop(sr, accept, joins);
    var codes := GroupCodes(b0.nodes, accept, stations);
    var b := Build(stations, joins, accept);
    JoinLoopSpec(stations, accept, joins);
    CliqueLoopSpec(sr, b0.nodes, b0.graph, codes);
    NodesAreLookup(b0.nodes, NodeCodes(sr, accept, joins));
    forall e | e in b.graph.edges
      ensures 0 <= e.0 < Size(b.nodes) && 0 <= e.1 < Size(b.nodes)
    {
      if !(e in b0.graph.edges) {
        var c :| c in codes && CliqueEdge(b0.nodes, GetStationsByStationGroupCode(sr, c), e);
      }
    }
  }

  /** The edges of the finished build are exactly those the input records
      describe. */
  lemma BuildSpec(stations: seq<Station>, joins: seq<Join>, accept: int -> bool)
    ensures var b := Build(stations, joins, accept);
            forall e :: e in b.graph.edges <==> BuildEdge(stations, joins, accept, b.nodes, e)
  {
    var sr := StationRepositoryOf(stations);
    var b0 := JoinLoop(sr, accept, joins);
    var codes := GroupCodes(b0.nodes, accept, stations);
    var b := Build(stations, joins, accept);
    JoinLoopSpec(stations, accept, joins);
    CliqueLoopSpec(sr, b0.nodes, b0.graph, codes);
    forall e
      ensures e in b.graph.edges <==> BuildEdge(stations, joins, accept, b.nodes, e)
    {
      GroupEdgeOfStations(stations, b0.nodes, accept, e);
    }
  }

  /** The accepted codes are closed under known joins: a known join whose
      first code is accepted has its second code accepted too. */
  predicate ClosedUnderJoins(sr: StationRepository, accept: int -> bool, joins: seq<Join>) {
    forall k :: 0 <= k < |joins| && KnownJoin(sr, joins[k]) && accept(joins[k].code1) ==> accept(joins[k].code2)
  }

  /** When the accepted codes are closed under known joins, every node's
      code is an end of a join between two accepted codes. */
  lemma NodeOnJoinEdge(sr: StationRepository, accept: int -> bool, joins: seq<Join>,
                       nodes: NodeRepository, i: int)
    requires ClosedUnderJoins(sr, accept, joins) && NodesAre(nodes, NodeCodes(sr, accept, joins))
    requires 0 <= i < Size(nodes)
    ensures exists p :: p in JoinEdgeCodes(sr, accept, joins) && (IdOf(nodes, p.0) == i || IdOf(nodes, p.1) == i)
  {
    var codes := NodeCodes(sr, accept, joins);
    NodeCodesSpec(sr, accept, joins);
    NodesAreLookup(nodes, codes);
    var c := codes[i];
    assert IdOf(nodes, c) == i;
    var k :| 0 <= k < |joins| && AsksFor(sr, accept, joins[k], c);
    var p := (joins[k].code1, joins[k].code2);
    JoinEdgeCodesSpec(sr, accept, joins);
    assert p in JoinEdgeCodes(sr, accept, joins);
  }

  /** When the accepted codes are closed under known joins, every node is
      the endpoint of an edge, so `getNeighbors` succeeds on every node id. */
  lemma ClosedNodesHaveNeighbors(stations: seq<Station>, joins: seq<Join>, accept: int -> bool)
    requires ClosedUnderJoins(StationRepositoryOf(stations), accept, joins)
    ensures var b := Build(stations, joins, accept);
            forall i :: 0 <= i < Size(b.nodes) ==> GetNeighbors(b.graph, i).Some?
  {
    var sr := StationRepositoryOf(stations);
    var b := Build(stations, joins, accept);
    assert NodesAre(b.nodes, NodeCodes(sr, accept, joins)) && Wellformed(b.graph) by {
      BuildShape(stations, joins, accept);
    }
    assert forall e :: BuildEdge(stations, joins, accept, b.nodes, e) ==> e in b.graph.edges by {
      BuildSpec(stations, joins, accept);
    }
    forall i | 0 <= i < Size(b.nodes)
      ensures i in b.graph.adj
    {
      NodeOnJoinEdge(sr, accept, joins, b.nodes, i);
      var p :| p in JoinEdgeCodes(sr, accept, joins) && (IdOf(b.nodes, p.0) == i || IdOf(b.nodes, p.1) == i);
      var e := (IdOf(b.nodes, p.0), IdOf(b.nodes, p.1));
      assert BuildEdge(stations, joins, accept, b.nodes, e);
    }
  }

  /** In group.cc every node is the endpoint of an edge. */
  lemma UnrestrictedNodesHaveNeighbors(stations: seq<Station>, joins: seq<Join>)
    ensures var b := Build(stations, joins, AcceptAll);
            forall i :: 0 <= i < Size(b.nodes) ==> GetNeighbors(b.graph, i).Some?
  {
    ClosedNodesHaveNeighbors(stations, joins, AcceptAll);
  }

  /** In tsp.cc a node can be left without an adjacency entry: the first
      station of a join is accepted and gets a node, the second is refused,
      and the first has no accepted partner in its group. */
  const ExampleStations: seq<Station> := [Station(1, 10), Station(2, 20)]
  const ExampleJoins: seq<Join> := [Join(100, 1, 2)]
  const ExampleAccept: int -> bool := c => c == 1

  lemma ExampleJoinLoop()
    ensures JoinLoop(StationRepositoryOf(ExampleStations), ExampleAccept, ExampleJoins)
         == Built(AddNode(NoNodes, Node(0, 1)), EmptyGraph)
  {
    var sr := StationRepositoryOf(ExampleStations);
    assert ExampleStations[..1] == [Station(1, 10)];
    assert GetStationByCode(sr, 1) == Some(Station(1, 10));
    assert GetStationByCode(sr, 2) == Some(Station(2, 20));
  }

  lemma ExampleGroupCodes()
    ensures GroupCodes(AddNode(NoNodes, Node(0, 1)), ExampleAccept, ExampleStations) == [10]
  {
    assert ExampleStations[..1] == [Station(1, 10)];
    assert [Station(1, 10)][..0] == [];
    assert InsertInt([], 10) == [10];
  }

  lemma RestrictedNodeWithoutNeighbors()
    ensures var b := Build(ExampleStations, ExampleJoins, ExampleAccept);
            Size(b.nodes) == 1 && GetNodeById(b.nodes, 0) == Some(Node(0, 1))
            && GetNeighbors(b.graph, 0).None?
  {
    var sr := StationRepositoryOf(ExampleStations);
    ExampleJoinLoop();
    ExampleGroupCodes();
    StationsOfGroup(ExampleStations, 10);
    assert ExampleStations[1..] == [Station(2, 20)];
    assert InGroup(ExampleStations, 10) == [Station(1, 10)];
    assert CliqueLoop(sr, AddNode(NoNodes, Node(0, 1)), EmptyGraph, [10]) == EmptyGraph;
  }
}
