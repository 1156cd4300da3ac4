/** The output of group.cc: the union-find pass over the edges of the
    unrestricted build and one row per node naming its station and the
    station of its leader. tsp.cc reads these rows back into a
    `GroupRepository` and asks `isSame(code, TOKYO)` of them. */
module Components {
  import opened Wrappers
  import opened Records
  import opened Repositories
  import opened Graphs
  import opened Builder
  import opened Cliques
  import opened UnionFind

  /** Rows for the ids `0..n-1`: the node of the id and the node of its
      leader, each through `getNodeById(...).value()`, which throws when
      the id has no node. */
  function LeaderRows(nodes: NodeRepository, d: Dsu, n: nat): (r: Result<seq<Group>>)
    requires n <= |d.root|
    ensures r.Ok? ==> |r.value| == n
    decreases n
  {
    if n == 0 then Ok([])
    else
      match LeaderRows(nodes, d, n - 1)
      case Fatal => Fatal
      case Ok(rows) =>
        var node := GetNodeById(nodes, n - 1);
        var leader := GetNodeById(nodes, Leader(d, n - 1));
        if node.None? || leader.None? then Fatal
        else Ok(rows + [Group(node.value.stationCode, leader.value.stationCode)])
  }

  /** group.cc after loading its inputs: build with every code accepted,
      unite along the edges in order, print the rows. `atcoder::dsu`
      aborts on an element outside `0..N-1`. */
  function GroupRows(stations: seq<Station>, joins: seq<Join>): (r: Result<seq<Group>>)
  {
    var b := Build(stations, joins, AcceptAll);
    var n := Size(b.nodes);
    if !EdgesWithin(b.graph.edges, n) then Fatal
    else LeaderRows(b.nodes, UniteAll(n, b.graph.edges), n)
  }

  /** Over a dense repository every row exists and names the station of
      the id and the station of its leader. */
  lemma {:induction false} LeaderRowsSpec(nodes: NodeRepository, codes: seq<int>, d: Dsu, n: nat)
    requires NodesAre(nodes, codes) && Valid(d, |codes|) && n <= |codes|
    ensures LeaderRows(nodes, d, n).Ok?
    ensures forall i :: 0 <= i < n ==>
      LeaderRows(nodes, d, n).value[i] == Group(codes[i], codes[Leader(d, i)])
    decreases n
  {
    if n > 0 {
      LeaderRowsSpec(nodes, codes, d, n - 1);
      assert n - 1 in nodes.byId && Leader(d, n - 1) in nodes.byId;
    }
  }

  /** Distinct ids of a dense repository carry distinct station codes. */
  lemma NodeCodesDistinct(nodes: NodeRepository, codes: seq<int>)
    requires NodesAre(nodes, codes)
    ensures forall i, j :: 0 <= i < |codes| && 0 <= j < |codes| && codes[i] == codes[j] ==> i == j
  {
    forall i, j | 0 <= i < |codes| && 0 <= j < |codes| && codes[i] == codes[j]
      ensures i == j
    {
      assert i in nodes.byId && j in nodes.byId;
      assert nodes.byCode[codes[i]] == nodes.byId[i] && nodes.byCode[codes[j]] == nodes.byId[j];
    }
  }

  /** The leader rows over a dense repository and any edges between its
      ids: rows share a leader exactly when their ids are connected, and
      every leader is the station of a row that leads itself (and so, by
      the first property, of a connected node). */
  lemma RowsPartition(nodes: NodeRepository, codes: seq<int>, edges: seq<Edge>)
    requires NodesAre(nodes, codes) && EdgesWithin(edges, |codes|)
    ensures var r := LeaderRows(nodes, UniteAll(|codes|, edges), |codes|);
            r.Ok? && forall i :: 0 <= i < |codes| ==> r.value[i].stationCode == codes[i]
    ensures var rows := LeaderRows(nodes, UniteAll(|codes|, edges), |codes|).value;
            forall i, j :: 0 <= i < |codes| && 0 <= j < |codes| ==>
              (rows[i].leader == rows[j].leader <==> Connected(edges, i, j))
    ensures var rows := LeaderRows(nodes, UniteAll(|codes|, edges), |codes|).value;
            forall i, j :: 0 <= i < |codes| && 0 <= j < |codes| ==>
              rows[i].leader in codes && (rows[i].leader == codes[j] ==> rows[j].leader == codes[j])
  {
    var n := |codes|;
    UniteAllValid(n, edges);
    LeaderRowsSpec(nodes, codes, UniteAll(n, edges), n);
    RowsShareLeader(nodes, codes, edges);
    RowsLeaderMember(nodes, codes, edges);
  }

  lemma RowsShareLeader(nodes: NodeRepository, codes: seq<int>, edges: seq<Edge>)
    requires NodesAre(nodes, codes) && EdgesWithin(edges, |codes|)
    ensures LeaderRows(nodes, UniteAll(|codes|, edges), |codes|).Ok?
    ensures var rows := LeaderRows(nodes, UniteAll(|codes|, edges), |codes|).value;
            forall i, j :: 0 <= i < |codes| && 0 <= j < |codes| ==>
              (rows[i].leader == rows[j].leader <==> Connected(edges, i, j))
  {
    var n := |codes|;
    var d := UniteAll(n, edges);
    UniteAllSpec(n, edges);
    LeaderRowsSpec(nodes, codes, d, n);
    NodeCodesDistinct(nodes, codes);
  }

  lemma RowsLeaderMember(nodes: NodeRepository, codes: seq<int>, edges: seq<Edge>)
    requires NodesAre(nodes, codes) && EdgesWithin(edges, |codes|)
    ensures LeaderRows(nodes, UniteAll(|codes|, edges), |codes|).Ok?
    ensures var rows := LeaderRows(nodes, UniteAll(|codes|, edges), |codes|).value;
            forall i, j :: 0 <= i < |codes| && 0 <= j < |codes| ==>
              rows[i].leader in codes && (rows[i].leader == codes[j] ==> rows[j].leader == codes[j])
  {
    var n := |codes|;
    var d := UniteAll(n, edges);
    UniteAllValid(n, edges);
    LeaderRowsSpec(nodes, codes, d, n);
    NodeCodesDistinct(nodes, codes);
    LeadersLeadThemselves(codes, d, LeaderRows(nodes, d, n).value);
  }

  /** Rows that name each id's leader: every leader is a code, and the
      row of a leader leads itself. */
  lemma LeadersLeadThemselves(codes: seq<int>, d: Dsu, rows: seq<Group>)
    requires Valid(d, |codes|) && |rows| == |codes|
    requires forall i :: 0 <= i < |codes| ==> rows[i] == Group(codes[i], codes[Leader(d, i)])
    requires forall i, j :: 0 <= i < |codes| && 0 <= j < |codes| && codes[i] == codes[j] ==> i == j
    ensures forall i, j :: 0 <= i < |codes| && 0 <= j < |codes| ==>
              rows[i].leader in codes && (rows[i].leader == codes[j] ==> rows[j].leader == codes[j])
  {
  }

  /** The rows of group.cc: one per node in id order, and two rows share
      a leader exactly when their nodes are connected in the graph; every
      leader is the station of a row that leads itself. */
  lemma GroupRowsSpec(stations: seq<Station>, joins: seq<Join>)
    ensures var codes := NodeCodes(StationRepositoryOf(stations), AcceptAll, joins);
            var r := GroupRows(stations, joins);
            r.Ok? && |r.value| == |codes|
            && forall i :: 0 <= i < |codes| ==> r.value[i].stationCode == codes[i]
    ensures var codes := NodeCodes(StationRepositoryOf(stations), AcceptAll, joins);
            var edges := Build(stations, joins, AcceptAll).graph.edges;
            var rows := GroupRows(stations, joins).value;
            forall i, j :: 0 <= i < |codes| && 0 <= j < |codes| ==>
              (rows[i].leader == rows[j].leader <==> Connected(edges, i, j))
    ensures var codes := NodeCodes(StationRepositoryOf(stations), AcceptAll, joins);
            var edges := Build(stations, joins, AcceptAll).graph.edges;
            var rows := GroupRows(stations, joins).value;
            forall i, j :: 0 <= i < |codes| && 0 <= j < |codes| ==>
              rows[i].leader in codes && (rows[i].leader == codes[j] ==> rows[j].leader == codes[j])
  {
    var codes := NodeCodes(StationRepositoryOf(stations), AcceptAll, joins);
    var b := Build(stations, joins, AcceptAll);
    BuildShape(stations, joins, AcceptAll);
    assert EdgesWithin(b.graph.edges, |codes|);
    RowsPartition(b.nodes, codes, b.graph.edges);
  }

  /** What tsp.cc learns from the rows: `isSame` holds of two codes exactly
      when both have nodes in the unrestricted build and those nodes are
      connected. */
  lemma SameGroupIffConnected(stations: seq<Station>, joins: seq<Join>, c1: int, c2: int)
    ensures GroupRows(stations, joins).Ok?
    ensures var b := Build(stations, joins, AcceptAll);
            IsSame(GroupRepositoryOf(GroupRows(stations, joins).value), c1, c2)
            <==> c1 in b.nodes.byCode && c2 in b.nodes.byCode
                 && Connected(b.graph.edges, IdOf(b.nodes, c1), IdOf(b.nodes, c2))
  {
    var codes := NodeCodes(StationRepositoryOf(stations), AcceptAll, joins);
    var b := Build(stations, joins, AcceptAll);
    GroupRowsSpec(stations, joins);
    BuildShape(stations, joins, AcceptAll);
    SameIffConnected(b.nodes, codes, b.graph.edges, GroupRows(stations, joins).value, c1, c2);
  }

  /** `isSame` over rows laid out like the leader rows. */
  lemma SameIffConnected(nodes: NodeRepository, codes: seq<int>, edges: seq<Edge>, rows: seq<Group>, c1: int, c2: int)
    requires NodesAre(nodes, codes) && |rows| == |codes|
    requires forall i :: 0 <= i < |codes| ==> rows[i].stationCode == codes[i]
    requires forall i, j :: 0 <= i < |codes| && 0 <= j < |codes| ==>
               (rows[i].leader == rows[j].leader <==> Connected(edges, i, j))
    ensures IsSame(GroupRepositoryOf(rows), c1, c2)
            <==> c1 in nodes.byCode && c2 in nodes.byCode && Connected(edges, IdOf(nodes, c1), IdOf(nodes, c2))
  {
    NodesAreLookup(nodes, codes);
    NodeCodesDistinct(nodes, codes);
    LeaderOfGroups(rows, c1);
    LeaderOfGroups(rows, c2);
    var repo := GroupRepositoryOf(rows);
    if c1 in repo.leaderOf {
      var i :| 0 <= i < |rows| && rows[i].stationCode == c1 && rows[i].leader == repo.leaderOf[c1];
      assert i == IdOf(nodes, c1);
    }
    if c2 in repo.leaderOf {
      var i :| 0 <= i < |rows| && rows[i].stationCode == c2 && rows[i].leader == repo.leaderOf[c2];
      assert i == IdOf(nodes, c2);
    }
    if c1 in nodes.byCode {
      assert rows[IdOf(nodes, c1)].stationCode == c1;
    }
    if c2 in nodes.byCode {
      assert rows[IdOf(nodes, c2)].stationCode == c2;
    }
  }
}
