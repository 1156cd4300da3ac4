/** tour.cc:38-54: the solver's cyclic tour expanded into the stations
    actually passed, by walking the next-hop table from each stop to the
    following one (the last stop returns to the first). */
module Tour {
  import opened Wrappers
  import opened Records
  import opened Repositories
  import opened Graphs
  import opened Costs
  import opened Dijkstra
  import opened DijkstraProofs

  /** How an expansion ends: the station codes pushed to the JSON array;
      an exception (`optional::value` or `map::at`); or a walk that had not
      reached its target after the fuel it was given, which the source
      would keep walking. */
  datatype Expansion = Expanded(codes: seq<int>) | Aborted | Exhausted

  /** The `while (current_node.node_id != to_node_id)` loop, with at most
      `fuel` iterations: push the current station, take `getNext(current,
      target)`, move to that node. */
  function Segment(nodes: NodeRepository, sr: StationRepository, paths: PathRepository,
                   current: Node, target: int, fuel: nat): Expansion
    decreases fuel
  {
    if current.id == target then Expanded([])
    else if fuel == 0 then Exhausted
    else
      match GetStationByCode(sr, current.stationCode)
      case None => Aborted
      case Some(station) =>
        match GetNext(paths, current.id, target)
        case None => Aborted
        case Some(hop) =>
          match GetNodeById(nodes, hop)
          case None => Aborted
          case Some(node) =>
            match Segment(nodes, sr, paths, node, target, fuel - 1)
            case Expanded(rest) => Expanded([station.code] + rest)
            case other => other
  }

  /** The stop after stop `i`: `tour[i + 1]`, or `tour[0]` after the last. */
  function NextStop(tour: seq<int>, i: int): int
    requires 0 <= i < |tour|
  {
    if i < |tour| - 1 then tour[i + 1] else tour[0]
  }

  /** Leg `i`: from the node of stop `i`, which must exist, to the next stop. */
  function Leg(nodes: NodeRepository, sr: StationRepository, paths: PathRepository,
               tour: seq<int>, i: int, fuel: nat): Expansion
    requires 0 <= i < |tour|
  {
    match GetNodeById(nodes, tour[i])
    case None => Aborted
    case Some(start) => Segment(nodes, sr, paths, start, NextStop(tour, i), fuel)
  }

  /** The first `k` legs, in order; the first leg that does not finish
      decides the outcome. */
  function Legs(nodes: NodeRepository, sr: StationRepository, paths: PathRepository,
                tour: seq<int>, k: nat, fuel: nat): Expansion
    requires k <= |tour|
    decreases k
  {
    if k == 0 then Expanded([])
    else
      match Legs(nodes, sr, paths, tour, k - 1, fuel)
      case Expanded(codes) =>
        (match Leg(nodes, sr, paths, tour, k - 1, fuel)
         case Expanded(more) => Expanded(codes + more)
         case other => other)
      case other => other
  }

  /** The loop over the whole tour, each leg with at most `fuel` steps. */
  function ExpandTour(nodes: NodeRepository, sr: StationRepository, paths: PathRepository,
                      tour: seq<int>, fuel: nat): Expansion
  {
    Legs(nodes, sr, paths, tour, |tour|, fuel)
  }

  /* ---------------------------------------------------------------------
     Legs
     --------------------------------------------------------------------- */

  /** The tour expands iff every leg does, and its codes are then the legs'
      codes one after another. */
  lemma {:induction false} LegsSpec(nodes: NodeRepository, sr: StationRepository, paths: PathRepository,
                                    tour: seq<int>, k: nat, fuel: nat)
    requires k <= |tour|
    ensures Legs(nodes, sr, paths, tour, k, fuel).Expanded?
            <==> forall i :: 0 <= i < k ==> Leg(nodes, sr, paths, tour, i, fuel).Expanded?
    ensures Legs(nodes, sr, paths, tour, k, fuel).Expanded? && k > 0 ==>
      Legs(nodes, sr, paths, tour, k, fuel).codes
      == Legs(nodes, sr, paths, tour, k - 1, fuel).codes + Leg(nodes, sr, paths, tour, k - 1, fuel).codes
    decreases k
  {
    if k > 0 {
      LegsSpec(nodes, sr, paths, tour, k - 1, fuel);
    }
  }

  /** A leg whose two stops are the same node emits nothing, so an empty
      tour and a tour of one stop whose node exists expand to nothing. */
  lemma ShortTour(nodes: NodeRepository, sr: StationRepository, paths: PathRepository,
                  tour: seq<int>, fuel: nat)
    requires |tour| <= 1
    requires tour != [] ==> GetNodeById(nodes, tour[0]).Some? && GetNodeById(nodes, tour[0]).value.id == tour[0]
    ensures ExpandTour(nodes, sr, paths, tour, fuel) == Expanded([])
  {
  }

  /* ---------------------------------------------------------------------
     One leg along a shortest-path tree
     --------------------------------------------------------------------- */

  /** The station codes of the nodes `ids`, which lie in the repository. */
  function CodesOf(nodes: NodeRepository, ids: seq<int>): (codes: seq<int>)
    ensures |codes| == |ids|
  {
    seq(|ids|, i requires 0 <= i < |ids| => if ids[i] in nodes.byId then nodes.byId[ids[i]].stationCode else NoNode)
  }

  /** The station repository knows `code`, under that code. */
  predicate StationKnown(sr: StationRepository, code: int) {
    GetStationByCode(sr, code).Some? && GetStationByCode(sr, code).value.code == code
  }

  /** A chain that reaches the root starts at the root or at an index of
      `pred`, and continues with the chain of `v`'s hop. */
  lemma FollowHead(pred: seq<int>, v: int, root: int, k: nat)
    requires Follow(pred, v, root, k).Some? && v != root
    ensures 0 <= v < |pred| && k >= 1
    ensures Follow(pred, pred[v], root, k - 1).Some?
    ensures Follow(pred, v, root, k).value == [v] + Follow(pred, pred[v], root, k - 1).value
  {
  }

  lemma FollowStart(pred: seq<int>, v: int, root: int, k: nat)
    requires Follow(pred, v, root, k).Some?
    ensures v == root || 0 <= v < |pred|
  {
  }

  /** Walking the hops toward `target` from `v` pushes the stations of the
      nodes of `v`'s chain, given fuel for the chain's length. */
  lemma {:induction false} SegmentOfChain(nodes: NodeRepository, sr: StationRepository, paths: PathRepository,
                                          pred: seq<int>, target: int, v: int, k: nat, fuel: nat)
    requires Dense(nodes) && |pred| == Size(nodes) && 0 <= target < Size(nodes) && 0 <= v < Size(nodes)
    requires forall a :: 0 <= a < |pred| ==> GetNext(paths, a, target) == Some(pred[a])
    requires forall id :: id in nodes.byId ==> StationKnown(sr, nodes.byId[id].stationCode)
    requires Follow(pred, v, target, k).Some? && |Follow(pred, v, target, k).value| <= fuel
    ensures v in nodes.byId
    ensures Segment(nodes, sr, paths, nodes.byId[v], target, fuel)
            == Expanded(CodesOf(nodes, Follow(pred, v, target, k).value))
    decreases k
  {
    assert v in nodes.byId;
    var chain := Follow(pred, v, target, k).value;
    if v == target {
      assert chain == [];
    } else {
      FollowHead(pred, v, target, k);
      var hop := pred[v];
      FollowStart(pred, hop, target, k - 1);
      assert hop in nodes.byId;
      SegmentOfChain(nodes, sr, paths, pred, target, hop, k - 1, fuel - 1);
      var rest := Follow(pred, hop, target, k - 1).value;
      assert CodesOf(nodes, chain) == [nodes.byId[v].stationCode] + CodesOf(nodes, rest);
    }
  }

  /** Ids of a dense repository carry distinct station codes. */
  lemma DenseCodesDistinct(nodes: NodeRepository, a: int, b: int)
    requires Dense(nodes) && a in nodes.byId && b in nodes.byId
    requires nodes.byId[a].stationCode == nodes.byId[b].stationCode
    ensures a == b
  {
  }

  /** A leg along the tree of searches rooted at `target` (the column of
      `next` tour.cc consults): it ends at the target exactly when the
      start is connected to it, and then pushes the stations of the hop
      chain, which read backwards is a least-cost walk from the target;
      the target's own station is never pushed. Unreached starts abort on
      the `-1` hop. */
  lemma TreeLeg(g: Graph, cost: seq<seq<Cost>>, n: nat, dist: seq<Cost>, pred: seq<int>,
                nodes: NodeRepository, sr: StationRepository, paths: PathRepository,
                target: int, v: int, fuel: nat)
    requires Square(cost, n) && 0 <= target < n && ShortestPathTree(g, cost, n, target, dist, pred)
    requires Dense(nodes) && Size(nodes) == n
    requires forall a :: 0 <= a < n ==> GetNext(paths, a, target) == Some(pred[a])
    requires forall id :: id in nodes.byId ==> StationKnown(sr, nodes.byId[id].stationCode)
    requires 0 <= v < n && fuel >= n - 1
    ensures v in nodes.byId
    ensures Connected(g.edges, target, v) ==>
              && HopWalk(g, cost, target, dist, pred, v, n - 1)
              && Segment(nodes, sr, paths, nodes.byId[v], target, fuel)
                 == Expanded(CodesOf(nodes, Follow(pred, v, target, n - 1).value))
    ensures !Connected(g.edges, target, v) ==> Segment(nodes, sr, paths, nodes.byId[v], target, fuel) == Aborted
    ensures target in nodes.byId
    ensures Segment(nodes, sr, paths, nodes.byId[v], target, fuel).Expanded? ==>
              nodes.byId[target].stationCode !in Segment(nodes, sr, paths, nodes.byId[v], target, fuel).codes
  {
    var reached := Connected(g.edges, target, v);
    assert |pred| == n && (reached ==> HopWalk(g, cost, target, dist, pred, v, n - 1))
                       && (!reached ==> v != target && pred[v] == NoNode) by {
      if reached {
        TreeReached(g, cost, n, target, dist, pred, v);
      } else {
        TreeUnreached(g, cost, n, target, dist, pred, v);
      }
    }
    HopLeg(nodes, sr, paths, pred, target, v, n, fuel);
  }

  /** The same leg for any table of hops whose chain from `v` either
      reaches the target within `n - 1` hops or stops at once on `-1`. */
  lemma HopLeg(nodes: NodeRepository, sr: StationRepository, paths: PathRepository,
               pred: seq<int>, target: int, v: int, n: nat, fuel: nat)
    requires Dense(nodes) && Size(nodes) == n && |pred| == n && 0 <= target < n && 0 <= v < n
    requires forall a :: 0 <= a < n ==> GetNext(paths, a, target) == Some(pred[a])
    requires forall id :: id in nodes.byId ==> StationKnown(sr, nodes.byId[id].stationCode)
    requires fuel >= n - 1
    requires Follow(pred, v, target, n - 1).Some? || (v != target && pred[v] == NoNode)
    ensures v in nodes.byId && target in nodes.byId
    ensures Follow(pred, v, target, n - 1).Some? ==>
              Segment(nodes, sr, paths, nodes.byId[v], target, fuel)
              == Expanded(CodesOf(nodes, Follow(pred, v, target, n - 1).value))
    ensures Follow(pred, v, target, n - 1).None? ==> Segment(nodes, sr, paths, nodes.byId[v], target, fuel) == Aborted
    ensures Segment(nodes, sr, paths, nodes.byId[v], target, fuel).Expanded? ==>
              nodes.byId[target].stationCode !in Segment(nodes, sr, paths, nodes.byId[v], target, fuel).codes
  {
    if Follow(pred, v, target, n - 1).Some? {
      ChainSegment(nodes, sr, paths, pred, target, v, n - 1, fuel);
    } else {
      UnreachedSegment(nodes, sr, paths, pred, target, v, fuel);
    }
  }

  lemma TreeReached(g: Graph, cost: seq<seq<Cost>>, n: nat, root: int, dist: seq<Cost>, pred: seq<int>, v: int)
    requires Square(cost, n) && 0 <= root < n && ShortestPathTree(g, cost, n, root, dist, pred)
    requires 0 <= v < n && Connected(g.edges, root, v)
    ensures HopWalk(g, cost, root, dist, pred, v, n - 1)
  {
  }

  lemma TreeUnreached(g: Graph, cost: seq<seq<Cost>>, n: nat, root: int, dist: seq<Cost>, pred: seq<int>, v: int)
    requires Square(cost, n) && 0 <= root < n && ShortestPathTree(g, cost, n, root, dist, pred)
    requires 0 <= v < n && !Connected(g.edges, root, v)
    ensures v != root && pred[v] == NoNode
  {
    if v == root {
      ConnectedReflexive(g.edges, v);
    }
  }

  /** The segment along a chain that reaches the target never pushes the
      target's station. */
  lemma ChainSegment(nodes: NodeRepository, sr: StationRepository, paths: PathRepository,
                     pred: seq<int>, target: int, v: int, k: nat, fuel: nat)
    requires Dense(nodes) && |pred| == Size(nodes) && 0 <= target < Size(nodes) && 0 <= v < Size(nodes)
    requires forall a :: 0 <= a < |pred| ==> GetNext(paths, a, target) == Some(pred[a])
    requires forall id :: id in nodes.byId ==> StationKnown(sr, nodes.byId[id].stationCode)
    requires Follow(pred, v, target, k).Some? && k <= fuel
    ensures v in nodes.byId && target in nodes.byId
    ensures Segment(nodes, sr, paths, nodes.byId[v], target, fuel)
            == Expanded(CodesOf(nodes, Follow(pred, v, target, k).value))
    ensures nodes.byId[target].stationCode !in CodesOf(nodes, Follow(pred, v, target, k).value)
  {
    assert target in nodes.byId;
    SegmentOfChain(nodes, sr, paths, pred, target, v, k, fuel);
    var chain := Follow(pred, v, target, k).value;
    var codes := CodesOf(nodes, chain);
    forall i | 0 <= i < |codes|
      ensures codes[i] != nodes.byId[target].stationCode
    {
      FollowWithin(pred, v, target, k, i);
      if codes[i] == nodes.byId[target].stationCode {
        DenseCodesDistinct(nodes, chain[i], target);
      }
    }
  }

  /** A start whose hop is `-1` aborts: no node has id -1. */
  lemma UnreachedSegment(nodes: NodeRepository, sr: StationRepository, paths: PathRepository,
                         pred: seq<int>, target: int, v: int, fuel: nat)
    requires Dense(nodes) && |pred| == Size(nodes) && 0 <= v < Size(nodes) && v != target
    requires GetNext(paths, v, target) == Some(pred[v]) && pred[v] == NoNode
    requires forall id :: id in nodes.byId ==> StationKnown(sr, nodes.byId[id].stationCode)
    requires fuel >= 1
    ensures v in nodes.byId
    ensures Segment(nodes, sr, paths, nodes.byId[v], target, fuel) == Aborted
  {
    assert v in nodes.byId;
    assert NoNode !in nodes.byId;
  }

  /** Every node of a chain that reaches the root is an index of `pred`
      other than the root. */
  lemma {:induction false} FollowWithin(pred: seq<int>, v: int, root: int, k: nat, i: int)
    requires Follow(pred, v, root, k).Some? && 0 <= i < |Follow(pred, v, root, k).value|
    ensures 0 <= Follow(pred, v, root, k).value[i] < |pred|
    ensures Follow(pred, v, root, k).value[i] != root
    decreases k
  {
    FollowHead(pred, v, root, k);
    if i > 0 {
      FollowWithin(pred, pred[v], root, k - 1, i - 1);
    }
  }
}
