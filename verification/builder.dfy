/** The graph build shared by group.cc and tsp.cc: the join loop that
    creates nodes and edges, and the clique step that connects the
    node-bearing stations of each station group. tsp.cc gates node creation
    with a component predicate (`isSame(code, TOKYO)`); group.cc is the same
    loop with a predicate that accepts every code. */
module Builder {
  import opened Wrappers
  import opened Records
  import opened Repositories
  import opened Graphs
  import opened OrderedSets

  /** The node repository and the graph that points at it. */
  datatype Built = Built(nodes: NodeRepository, graph: Graph)

  const Start: Built := Built(NoNodes, EmptyGraph)

  /** group.cc accepts every station. */
  const AcceptAll: int -> bool := _ => true

  /** The id of the node for `code`, or -1 when there is none. */
  function IdOf(nodes: NodeRepository, code: int): int {
    if code in nodes.byCode then nodes.byCode[code].id else NoNode
  }

  /** The existing node for `code`, or a new one whose id is `size()`. */
  function EnsureNode(nodes: NodeRepository, code: int): NodeRepository {
    if GetNodeByStationCode(nodes, code).Some? then nodes
    else AddNode(nodes, Node(Size(nodes), code))
  }

  /* ---------------------------------------------------------------------
     The join loop (group.cc:24-53, tsp.cc:33-68)
     --------------------------------------------------------------------- */

  /** One iteration over a join. A join with an unknown station is skipped.
      A missing node is created only for an accepted code; a refused code
      ends the iteration, possibly after a node for the first station was
      already created. */
  function JoinStep(sr: StationRepository, accept: int -> bool, b: Built, j: Join): (b': Built)
    requires EdgesIncreasing(b.graph.edges)
    ensures EdgesIncreasing(b'.graph.edges)
  {
    var station1 := GetStationByCode(sr, j.code1);
    var station2 := GetStationByCode(sr, j.code2);
    if station1.None? || station2.None? then b
    else
      var c1 := station1.value.code;
      var c2 := station2.value.code;
      if GetNodeByStationCode(b.nodes, c1).None? && !accept(c1) then b
      else
        var nodes1 := EnsureNode(b.nodes, c1);
        if GetNodeByStationCode(nodes1, c2).None? && !accept(c2) then Built(nodes1, b.graph)
        else
          var nodes2 := EnsureNode(nodes1, c2);
          Built(nodes2, AddEdge(b.graph, IdOf(nodes2, c1), IdOf(nodes2, c2)))
  }

  function JoinLoop(sr: StationRepository, accept: int -> bool, joins: seq<Join>): (b: Built)
    ensures EdgesIncreasing(b.graph.edges)
    decreases |joins|
  {
    if joins == [] then Start
    else JoinStep(sr, accept, JoinLoop(sr, accept, joins[..|joins| - 1]), joins[|joins| - 1])
  }

  /* ---------------------------------------------------------------------
     Reference description of the join loop
     --------------------------------------------------------------------- */

  /** Both stations of the join are known. */
  predicate KnownJoin(sr: StationRepository, j: Join) {
    GetStationByCode(sr, j.code1).Some? && GetStationByCode(sr, j.code2).Some?
  }

  /** The join asks for a node for `c`: it is known, its first code is
      accepted, and `c` is that code or the accepted second one. */
  predicate AsksFor(sr: StationRepository, accept: int -> bool, j: Join, c: int) {
    KnownJoin(sr, j) && accept(j.code1) && (c == j.code1 || (c == j.code2 && accept(c)))
  }

  /** `codes` with `c` appended unless it is already there. */
  function AddCode(codes: seq<int>, c: int): (r: seq<int>)
    ensures forall x :: x in r <==> x in codes || x == c
  {
    if c in codes then codes else codes + [c]
  }

  /** The codes one join adds to the node order. */
  function CodesStep(sr: StationRepository, accept: int -> bool, codes: seq<int>, j: Join): seq<int> {
    if !KnownJoin(sr, j) || !accept(j.code1) then codes
    else if accept(j.code2) then AddCode(AddCode(codes, j.code1), j.code2)
    else AddCode(codes, j.code1)
  }

  /** The station codes that receive a node, in first-asked order. */
  function NodeCodes(sr: StationRepository, accept: int -> bool, joins: seq<Join>): seq<int>
    decreases |joins|
  {
    if joins == [] then []
    else CodesStep(sr, accept, NodeCodes(sr, accept, joins[..|joins| - 1]), joins[|joins| - 1])
  }

  /** The station-code pair one join turns into an edge, if any. */
  function PairsStep(sr: StationRepository, accept: int -> bool, j: Join): seq<(int, int)> {
    if KnownJoin(sr, j) && accept(j.code1) && accept(j.code2) then [(j.code1, j.code2)] else []
  }

  /** The station-code pairs that become edges: one per known join whose
      two codes are accepted, as `(code1, code2)`. */
  function JoinEdgeCodes(sr: StationRepository, accept: int -> bool, joins: seq<Join>): seq<(int, int)>
    decreases |joins|
  {
    if joins == [] then []
    else JoinEdgeCodes(sr, accept, joins[..|joins| - 1]) + PairsStep(sr, accept, joins[|joins| - 1])
  }

  lemma JoinSnoc(sr: StationRepository, accept: int -> bool, joins: seq<Join>, j: Join)
    ensures NodeCodes(sr, accept, joins + [j]) == CodesStep(sr, accept, NodeCodes(sr, accept, joins), j)
    ensures JoinEdgeCodes(sr, accept, joins + [j]) == JoinEdgeCodes(sr, accept, joins) + PairsStep(sr, accept, j)
  {
    assert (joins + [j])[..|joins|] == joins;
  }

  /** A code receives a node iff some join asks for one, and no code
      receives two. */
  lemma {:induction false} NodeCodesSpec(sr: StationRepository, accept: int -> bool, joins: seq<Join>)
    ensures forall c :: c in NodeCodes(sr, accept, joins)
                    <==> exists i :: 0 <= i < |joins| && AsksFor(sr, accept, joins[i], c)
    ensures forall i, k :: 0 <= i < k < |NodeCodes(sr, accept, joins)|
                      ==> NodeCodes(sr, accept, joins)[i] != NodeCodes(sr, accept, joins)[k]
    decreases |joins|
  {
    if joins != [] {
      var n := |joins| - 1;
      var init := joins[..n];
      NodeCodesSpec(sr, accept, init);
      forall c
        ensures c in NodeCodes(sr, accept, joins)
            <==> exists i :: 0 <= i < |joins| && AsksFor(sr, accept, joins[i], c)
      {
        if exists i :: 0 <= i < |joins| && AsksFor(sr, accept, joins[i], c) {
          var i :| 0 <= i < |joins| && AsksFor(sr, accept, joins[i], c);
          if i < n {
            assert AsksFor(sr, accept, init[i], c);
          }
        }
        if c in NodeCodes(sr, accept, init) {
          var i :| 0 <= i < n && AsksFor(sr, accept, init[i], c);
          assert AsksFor(sr, accept, joins[i], c);
        }
      }
    }
  }

  /** A pair becomes an edge iff some known join with two accepted codes
      names it in that order. */
  lemma {:induction false} JoinEdgeCodesSpec(sr: StationRepository, accept: int -> bool, joins: seq<Join>)
    ensures forall p :: p in JoinEdgeCodes(sr, accept, joins)
                    <==> exists i :: 0 <= i < |joins| && KnownJoin(sr, joins[i])
                                     && accept(joins[i].code1) && accept(joins[i].code2)
                                     && p == (joins[i].code1, joins[i].code2)
    decreases |joins|
  {
    if joins != [] {
      var n := |joins| - 1;
      var init := joins[..n];
      JoinEdgeCodesSpec(sr, accept, init);
      assert forall i :: 0 <= i < n ==> joins[i] == init[i];
    }
  }

  /** The node repository holds exactly one node per code of `codes`, the
      node for `codes[i]` having id `i`. */
  ghost predicate NodesAre(nodes: NodeRepository, codes: seq<int>) {
    && Dense(nodes)
    && Size(nodes) == |codes|
    && forall i :: 0 <= i < |codes| ==> nodes.byId[i].stationCode == codes[i]
  }

  lemma NodesAreLookup(nodes: NodeRepository, codes: seq<int>)
    requires NodesAre(nodes, codes)
    ensures forall c :: c in nodes.byCode <==> c in codes
    ensures forall c :: c in nodes.byCode ==> 0 <= IdOf(nodes, c) < |codes| && codes[IdOf(nodes, c)] == c
  {
    forall c | c in codes
      ensures c in nodes.byCode
    {
      var i :| 0 <= i < |codes| && codes[i] == c;
      assert i in nodes.byId;
    }
  }

  /** `EnsureNode` appends the code when it is new and moves no other node. */
  lemma EnsureNodeSpec(nodes: NodeRepository, codes: seq<int>, c: int)
    requires NodesAre(nodes, codes)
    ensures NodesAre(EnsureNode(nodes, c), AddCode(codes, c))
    ensures c in EnsureNode(nodes, c).byCode
    ensures forall x :: x in nodes.byCode ==> IdOf(EnsureNode(nodes, c), x) == IdOf(nodes, x)
  {
    NodesAreLookup(nodes, codes);
    if c !in codes {
      AddFreshNodeDense(nodes, c);
      var nodes' := EnsureNode(nodes, c);
      assert nodes'.byId[Size(nodes)].stationCode == c;
    }
  }

  /** Every pair of `pairs` names codes of `codes`. */
  ghost predicate PairsWithin(pairs: seq<(int, int)>, codes: seq<int>) {
    forall p :: p in pairs ==> p.0 in codes && p.1 in codes
  }

  /** The edge set is the join pairs, translated to node ids. */
  ghost predicate EdgesAre(g: Graph, nodes: NodeRepository, pairs: seq<(int, int)>) {
    forall e :: e in g.edges <==> exists p :: p in pairs && e == (IdOf(nodes, p.0), IdOf(nodes, p.1))
  }

  /** What the join loop has built after a prefix of the joins. */
  ghost predicate JoinLoopResult(sr: StationRepository, accept: int -> bool, joins: seq<Join>, b: Built) {
    var codes := NodeCodes(sr, accept, joins);
    var pairs := JoinEdgeCodes(sr, accept, joins);
    && NodesAre(b.nodes, codes)
    && PairsWithin(pairs, codes)
    && (forall c :: c in codes ==> accept(c) && GetStationByCode(sr, c).Some?)
    && Wellformed(b.graph)
    && EdgesAre(b.graph, b.nodes, pairs)
  }

  lemma NodesGrowKeepEdges(g: Graph, nodes: NodeRepository, nodes': NodeRepository,
                           pairs: seq<(int, int)>, codes: seq<int>)
    requires EdgesAre(g, nodes, pairs) && PairsWithin(pairs, codes)
    requires forall c :: c in codes ==> c in nodes.byCode
    requires forall x :: x in nodes.byCode ==> IdOf(nodes', x) == IdOf(nodes, x)
    ensures EdgesAre(g, nodes', pairs)
  {
    forall e
      ensures e in g.edges <==> exists p :: p in pairs && e == (IdOf(nodes', p.0), IdOf(nodes', p.1))
    {
      if e in g.edges {
        var p :| p in pairs && e == (IdOf(nodes, p.0), IdOf(nodes, p.1));
        assert e == (IdOf(nodes', p.0), IdOf(nodes', p.1));
      }
      if exists p :: p in pairs && e == (IdOf(nodes', p.0), IdOf(nodes', p.1)) {
        var p :| p in pairs && e == (IdOf(nodes', p.0), IdOf(nodes', p.1));
        assert e == (IdOf(nodes, p.0), IdOf(nodes, p.1));
      }
    }
  }

  lemma StationCodeMatches(sr: StationRepository, stations: seq<Station>, c: int)
    requires sr == StationRepositoryOf(stations)
    ensures GetStationByCode(sr, c).Some? ==> GetStationByCode(sr, c).value.code == c
  {
    StationByCode(stations, c);
  }

  /** One join keeps the description of the loop. */
  lemma JoinStepSpec(stations: seq<Station>, accept: int -> bool, joins: seq<Join>, j: Join, b: Built)
    requires JoinLoopResult(StationRepositoryOf(stations), accept, joins, b)
    ensures JoinLoopResult(StationRepositoryOf(stations), accept, joins + [j],
                           JoinStep(StationRepositoryOf(stations), accept, b, j))
  {
    var sr := StationRepositoryOf(stations);
    StationCodeMatches(sr, stations, j.code1);
    StationCodeMatches(sr, stations, j.code2);
    JoinSnoc(sr, accept, joins, j);
    if !KnownJoin(sr, j) || !accept(j.code1) {
      JoinSkipped(sr, accept, joins, j, b);
    } else if !accept(j.code2) {
      JoinHalfDone(sr, accept, joins, j, b);
    } else {
      JoinAccepted(sr, accept, joins, j, b);
    }
  }

  /** A join with an unknown station or a refused first code changes nothing. */
  lemma JoinSkipped(sr: StationRepository, accept: int -> bool, joins: seq<Join>, j: Join, b: Built)
    requires JoinLoopResult(sr, accept, joins, b)
    requires !KnownJoin(sr, j) || !accept(j.code1)
    requires KnownJoin(sr, j) ==> GetStationByCode(sr, j.code1).value.code == j.code1
    ensures JoinStep(sr, accept, b, j) == b
  {
    if KnownJoin(sr, j) {
      assert j.code1 !in b.nodes.byCode by {
        NodesAreLookup(b.nodes, NodeCodes(sr, accept, joins));
      }
    }
  }

  /** Both codes known, the first accepted and the second refused: a node
      for the first code may be created, and no edge is added. */
  lemma JoinHalfDone(sr: StationRepository, accept: int -> bool, joins: seq<Join>, j: Join, b: Built)
    requires JoinLoopResult(sr, accept, joins, b)
    requires KnownJoin(sr, j) && accept(j.code1) && !accept(j.code2)
    requires GetStationByCode(sr, j.code1).value.code == j.code1
    requires GetStationByCode(sr, j.code2).value.code == j.code2
    ensures JoinLoopResult(sr, accept, joins + [j], JoinStep(sr, accept, b, j))
  {
    var codes := NodeCodes(sr, accept, joins);
    var pairs := JoinEdgeCodes(sr, accept, joins);
    var c1 := j.code1;
    var nodes1 := EnsureNode(b.nodes, c1);
    JoinSnoc(sr, accept, joins, j);
    EnsureNodeSpec(b.nodes, codes, c1);
    assert EdgesAre(b.graph, nodes1, pairs) by {
      NodesAreLookup(b.nodes, codes);
      NodesGrowKeepEdges(b.graph, b.nodes, nodes1, pairs, codes);
    }
    assert j.code2 !in b.nodes.byCode by {
      NodesAreLookup(b.nodes, codes);
    }
    JoinStepHalf(sr, accept, b, j);
  }

  /** With both codes known, the first accepted and the second refused, one
      join at most creates the first node and adds no edge. */
  lemma JoinStepHalf(sr: StationRepository, accept: int -> bool, b: Built, j: Join)
    requires EdgesIncreasing(b.graph.edges)
    requires KnownJoin(sr, j) && accept(j.code1) && !accept(j.code2)
    requires GetStationByCode(sr, j.code1).value.code == j.code1
    requires GetStationByCode(sr, j.code2).value.code == j.code2
    requires j.code2 !in b.nodes.byCode
    ensures JoinStep(sr, accept, b, j) == Built(EnsureNode(b.nodes, j.code1), b.graph)
  {
  }

  /** Inserting the edge of a new pair after the nodes have grown keeps the
      edge set equal to the translated pairs. */
  lemma AcceptedEdges(g: Graph, nodes: NodeRepository, nodes': NodeRepository,
                      pairs: seq<(int, int)>, codes: seq<int>, c1: int, c2: int)
    requires EdgesIncreasing(g.edges)
    requires EdgesAre(g, nodes, pairs) && PairsWithin(pairs, codes)
    requires forall c :: c in codes ==> c in nodes.byCode
    requires forall x :: x in nodes.byCode ==> IdOf(nodes', x) == IdOf(nodes, x)
    ensures EdgesAre(AddEdge(g, IdOf(nodes', c1), IdOf(nodes', c2)), nodes', pairs + [(c1, c2)])
  {
    NodesGrowKeepEdges(g, nodes, nodes', pairs, codes);
    var e0 := (IdOf(nodes', c1), IdOf(nodes', c2));
    var g' := AddEdge(g, e0.0, e0.1);
    var pairs' := pairs + [(c1, c2)];
    forall e
      ensures e in g'.edges <==> exists p :: p in pairs' && e == (IdOf(nodes', p.0), IdOf(nodes', p.1))
    {
      if e == e0 {
        assert (c1, c2) in pairs';
      }
      if exists p :: p in pairs' && e == (IdOf(nodes', p.0), IdOf(nodes', p.1)) {
        var p :| p in pairs' && e == (IdOf(nodes', p.0), IdOf(nodes', p.1));
        if p != (c1, c2) {
          assert p in pairs;
        }
      }
    }
  }

  /** Both codes known and accepted: nodes for both exist afterwards and the
      edge between them is inserted. */
  lemma JoinAccepted(sr: StationRepository, accept: int -> bool, joins: seq<Join>, j: Join, b: Built)
    requires JoinLoopResult(sr, accept, joins, b)
    requires KnownJoin(sr, j) && accept(j.code1) && accept(j.code2)
    requires GetStationByCode(sr, j.code1).value.code == j.code1
    requires GetStationByCode(sr, j.code2).value.code == j.code2
    ensures JoinLoopResult(sr, accept, joins + [j], JoinStep(sr, accept, b, j))
  {
    var codes := NodeCodes(sr, accept, joins);
    var pairs := JoinEdgeCodes(sr, accept, joins);
    var c1 := j.code1;
    var c2 := j.code2;
    var nodes1 := EnsureNode(b.nodes, c1);
    var nodes2 := EnsureNode(nodes1, c2);
    JoinSnoc(sr, accept, joins, j);
    EnsureNodeSpec(b.nodes, codes, c1);
    EnsureNodeSpec(nodes1, AddCode(codes, c1), c2);
    assert EdgesAre(AddEdge(b.graph, IdOf(nodes2, c1), IdOf(nodes2, c2)), nodes2, pairs + [(c1, c2)]) by {
      NodesAreLookup(b.nodes, codes);
      AcceptedEdges(b.graph, b.nodes, nodes2, pairs, codes, c1, c2);
    }
    AddEdgeWellformed(b.graph, IdOf(nodes2, c1), IdOf(nodes2, c2));
    JoinStepAdds(sr, accept, b, j);
  }

  /** With both codes known and accepted, one join creates whatever nodes
      are missing and inserts the edge between them. */
  lemma JoinStepAdds(sr: StationRepository, accept: int -> bool, b: Built, j: Join)
    requires EdgesIncreasing(b.graph.edges)
    requires KnownJoin(sr, j) && accept(j.code1) && accept(j.code2)
    requires GetStationByCode(sr, j.code1).value.code == j.code1
    requires GetStationByCode(sr, j.code2).value.code == j.code2
    ensures var nodes2 := EnsureNode(EnsureNode(b.nodes, j.code1), j.code2);
            JoinStep(sr, accept, b, j) == Built(nodes2, AddEdge(b.graph, IdOf(nodes2, j.code1), IdOf(nodes2, j.code2)))
  {
  }

  /** After the whole loop: node ids are `0..N-1`, one per code some join
      asks for, in first-asked order; each edge is a known join whose two
      codes are accepted, as `(id(code1), id(code2))`; the adjacency map is
      in step with the edges. */
  lemma {:induction false} JoinLoopSpec(stations: seq<Station>, accept: int -> bool, joins: seq<Join>)
    ensures JoinLoopResult(StationRepositoryOf(stations), accept, joins,
                           JoinLoop(StationRepositoryOf(stations), accept, joins))
    decreases |joins|
  {
    var sr := StationRepositoryOf(stations);
    if joins == [] {
      EmptyGraphWellformed();
      assert NodesAre(Start.nodes, []);
    } else {
      var init := joins[..|joins| - 1];
      var last := joins[|joins| - 1];
      assert init + [last] == joins;
      assert JoinLoop(sr, accept, joins) == JoinStep(sr, accept, JoinLoop(sr, accept, init), last);
      JoinLoopSpec(stations, accept, init);
      JoinStepSpec(stations, accept, init, last, JoinLoop(sr, accept, init));
    }
  }
}
