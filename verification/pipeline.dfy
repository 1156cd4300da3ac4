/** The two programs end to end: tsp.cc writes `node.csv` and
    `shortest_path.csv` over the nodes in Tokyo's group, the solver writes a
    tour over those nodes, and tour.cc reads the three files back and
    expands the tour stop by stop along the next-hop table. */
module Pipeline {
  import opened Wrappers
  import opened Records
  import opened Text
  import opened Repositories
  import opened Graphs
  import opened Builder
  import opened Cliques
  import opened Components
  import opened Costs
  import opened Dijkstra
  import opened DijkstraProofs
  import opened AllPairs
  import opened Tsp
  import opened Readers
  import opened Writers
  import opened Tour

  /** The two files tour.cc reads from tsp.cc's output directory. */
  datatype TspFiles = TspFiles(node: string, shortestPath: string)

  /** tsp.cc:33-183: the tables over Tokyo's group, then the files. */
  function TspOutput(stations: seq<Station>, joins: seq<Join>, groups: seq<Group>,
                     weight: (Station, Station) -> nat): Result<TspFiles>
  {
    match TspTables(stations, joins, groups, weight)
    case Fatal => Fatal
    case Ok(t) => FilesOf(Build(stations, joins, InTokyo(groups)).nodes, t.next)
  }

  /** tsp.cc:156-183: `shortest_path.csv` from the next-hop table, then
      `node.csv`. */
  function FilesOf(nodes: NodeRepository, next: seq<seq<int>>): Result<TspFiles> {
    match ShortestPathFile(nodes, next)
    case Fatal => Fatal
    case Ok(path) =>
      match NodeFile(nodes, Size(nodes))
      case Fatal => Fatal
      case Ok(node) => Ok(TspFiles(node, path))
  }

  /** tour.cc:22-55: load the nodes, the tour and the paths, in that order,
      then expand the tour. A loader that throws aborts the program. */
  function TourRun(stations: seq<Station>, files: TspFiles, tourFile: string, fuel: nat): Expansion {
    match ReadNode(files.node)
    case Fatal => Aborted
    case Ok(ns) =>
      match ReadTour(tourFile)
      case Fatal => Aborted
      case Ok(tour) =>
        match ReadShortestPath(files.shortestPath)
        case Fatal => Aborted
        case Ok(paths) =>
          ExpandTour(NodeRepositoryOf(ns), StationRepositoryOf(stations), PathRepositoryOf(paths), tour, fuel)
  }

  /* ---------------------------------------------------------------------
     The expansion only looks nodes up by id
     --------------------------------------------------------------------- */

  lemma {:induction false} SegmentSameNodes(n1: NodeRepository, n2: NodeRepository, sr: StationRepository,
                                            paths: PathRepository, current: Node, target: int, fuel: nat)
    requires forall id :: GetNodeById(n1, id) == GetNodeById(n2, id)
    ensures Segment(n1, sr, paths, current, target, fuel) == Segment(n2, sr, paths, current, target, fuel)
    decreases fuel
  {
    if current.id != target && fuel > 0 {
      var hop := GetNext(paths, current.id, target);
      if hop.Some? && GetNodeById(n1, hop.value).Some? {
        SegmentSameNodes(n1, n2, sr, paths, GetNodeById(n1, hop.value).value, target, fuel - 1);
      }
    }
  }

  lemma {:induction false} LegsSameNodes(n1: NodeRepository, n2: NodeRepository, sr: StationRepository,
                                         paths: PathRepository, tour: seq<int>, k: nat, fuel: nat)
    requires k <= |tour|
    requires forall id :: GetNodeById(n1, id) == GetNodeById(n2, id)
    ensures Legs(n1, sr, paths, tour, k, fuel) == Legs(n2, sr, paths, tour, k, fuel)
    decreases k
  {
    if k > 0 {
      LegsSameNodes(n1, n2, sr, paths, tour, k - 1, fuel);
      var start := GetNodeById(n1, tour[k - 1]);
      if start.Some? {
        SegmentSameNodes(n1, n2, sr, paths, start.value, NextStop(tour, k - 1), fuel);
      }
    }
  }

  /** Two repositories that answer `getNodeById` alike expand every tour
      alike: the expansion never asks for a node by station code. */
  lemma ExpandSameNodes(n1: NodeRepository, n2: NodeRepository, sr: StationRepository,
                        paths: PathRepository, tour: seq<int>, fuel: nat)
    requires forall id :: GetNodeById(n1, id) == GetNodeById(n2, id)
    ensures ExpandTour(n1, sr, paths, tour, fuel) == ExpandTour(n2, sr, paths, tour, fuel)
  {
    LegsSameNodes(n1, n2, sr, paths, tour, |tour|, fuel);
  }

  /* ---------------------------------------------------------------------
     A tour over the all-pairs tables
     --------------------------------------------------------------------- */

  /** Every root's search left a shortest-path tree in its row of
      `distance` and its column of `next`. */
  ghost predicate AllTrees(g: Graph, cost: seq<seq<Cost>>, n: nat, t: Tables)
    requires Square(cost, n)
  {
    && Square(t.distance, n) && Square(t.next, n)
    && forall i :: 0 <= i < n ==> ShortestPathTree(g, cost, n, i, t.distance[i], Column(t.next, n, i))
  }

  /** Every stop of the tour is a node. */
  predicate StopsWithin(tour: seq<int>, n: nat) {
    forall i :: 0 <= i < |tour| ==> 0 <= tour[i] < n
  }

  /** The hop chain of leg `i`: from stop `i` toward the next stop along
      the next stop's column of `next`. */
  function LegChain(next: seq<seq<int>>, n: nat, tour: seq<int>, i: int): Option<seq<int>>
    requires Square(next, n) && StopsWithin(tour, n) && 0 <= i < |tour|
  {
    Follow(Column(next, n, NextStop(tour, i)), tour[i], NextStop(tour, i), n - 1)
  }

  /** Leg `i` over the tables: it finishes exactly when its stop is
      connected to the next one, along a least-cost walk whose stations it
      pushes; otherwise it aborts. */
  lemma TreeTourLeg(g: Graph, cost: seq<seq<Cost>>, n: nat, t: Tables,
                    nodes: NodeRepository, sr: StationRepository, paths: PathRepository,
                    tour: seq<int>, i: int, fuel: nat)
    requires Square(cost, n) && AllTrees(g, cost, n, t)
    requires Dense(nodes) && Size(nodes) == n
    requires forall a, b :: 0 <= a < n && 0 <= b < n ==> GetNext(paths, a, b) == Some(t.next[a][b])
    requires forall id :: id in nodes.byId ==> StationKnown(sr, nodes.byId[id].stationCode)
    requires StopsWithin(tour, n) && 0 <= i < |tour| && fuel >= n - 1
    ensures var target := NextStop(tour, i);
            Connected(g.edges, target, tour[i]) ==>
              && HopWalk(g, cost, target, t.distance[target], Column(t.next, n, target), tour[i], n - 1)
              && LegChain(t.next, n, tour, i).Some?
              && Leg(nodes, sr, paths, tour, i, fuel) == Expanded(CodesOf(nodes, LegChain(t.next, n, tour, i).value))
    ensures !Connected(g.edges, NextStop(tour, i), tour[i]) ==> Leg(nodes, sr, paths, tour, i, fuel) == Aborted
  {
    var target := NextStop(tour, i);
    var v := tour[i];
    var pred := Column(t.next, n, target);
    assert ShortestPathTree(g, cost, n, target, t.distance[target], pred)
        && forall a :: 0 <= a < n ==> GetNext(paths, a, target) == Some(pred[a]);
    TreeLeg(g, cost, n, t.distance[target], pred, nodes, sr, paths, target, v, fuel);
  }

  /** Every leg either follows its chain to the next stop, when the two
      stops are connected, or aborts. */
  ghost predicate LegsFollowChains(g: Graph, nodes: NodeRepository, sr: StationRepository, paths: PathRepository,
                                   next: seq<seq<int>>, n: nat, tour: seq<int>, fuel: nat)
    requires Square(next, n) && StopsWithin(tour, n)
  {
    forall i :: 0 <= i < |tour| ==>
      if Connected(g.edges, NextStop(tour, i), tour[i])
      then LegChain(next, n, tour, i).Some?
           && Leg(nodes, sr, paths, tour, i, fuel) == Expanded(CodesOf(nodes, LegChain(next, n, tour, i).value))
      else Leg(nodes, sr, paths, tour, i, fuel) == Aborted
  }

  /** The codes of legs `0..k-1` one after another. */
  function ConcatLegs(codes: int -> seq<int>, k: nat): seq<int>
    decreases k
  {
    if k == 0 then [] else ConcatLegs(codes, k - 1) + codes(k - 1)
  }

  /** Legs each of which finishes with `codes(i)` when `done(i)` and
      aborts otherwise: the first `k` finish exactly when every one of them
      is done, and push their codes in order. */
  lemma {:induction false} LegsOfOutcomes(nodes: NodeRepository, sr: StationRepository, paths: PathRepository,
                                          tour: seq<int>, k: nat, fuel: nat,
                                          done: int -> bool, codes: int -> seq<int>)
    requires k <= |tour|
    requires forall i :: 0 <= i < k ==>
               Leg(nodes, sr, paths, tour, i, fuel) == if done(i) then Expanded(codes(i)) else Aborted
    ensures Legs(nodes, sr, paths, tour, k, fuel).Expanded? <==> forall i :: 0 <= i < k ==> done(i)
    ensures Legs(nodes, sr, paths, tour, k, fuel).Expanded? ==>
              Legs(nodes, sr, paths, tour, k, fuel).codes == ConcatLegs(codes, k)
    decreases k
  {
    if k > 0 {
      LegsOfOutcomes(nodes, sr, paths, tour, k - 1, fuel, done, codes);
    }
  }

  /** The codes of leg `i` when it follows its chain. */
  function ChainCodes(nodes: NodeRepository, next: seq<seq<int>>, n: nat, tour: seq<int>, i: int): seq<int>
    requires Square(next, n) && StopsWithin(tour, n)
  {
    if 0 <= i < |tour| then
      match LegChain(next, n, tour, i)
      case Some(chain) => CodesOf(nodes, chain)
      case None => []
    else []
  }

  /** The station codes a tour pushes when every leg follows its chain
      to the end. */
  function TourCodes(nodes: NodeRepository, next: seq<seq<int>>, n: nat, tour: seq<int>): seq<int>
    requires Square(next, n) && StopsWithin(tour, n)
  {
    ConcatLegs(i => ChainCodes(nodes, next, n, tour, i), |tour|)
  }

  /** Legs that follow their chains: the first `k` finish exactly when
      each of their stops is connected to the next, and then push the
      chains' stations in order. */
  lemma LegsOfChains(g: Graph, nodes: NodeRepository, sr: StationRepository, paths: PathRepository,
                     next: seq<seq<int>>, n: nat, tour: seq<int>, k: nat, fuel: nat)
    requires Square(next, n) && StopsWithin(tour, n) && k <= |tour|
    requires LegsFollowChains(g, nodes, sr, paths, next, n, tour, fuel)
    ensures Legs(nodes, sr, paths, tour, k, fuel).Expanded?
            <==> forall i :: 0 <= i < k ==> Connected(g.edges, NextStop(tour, i), tour[i])
    ensures Legs(nodes, sr, paths, tour, k, fuel).Expanded? ==>
              Legs(nodes, sr, paths, tour, k, fuel).codes == ConcatLegs(i => ChainCodes(nodes, next, n, tour, i), k)
  {
    var done := i => 0 <= i < |tour| && Connected(g.edges, NextStop(tour, i), tour[i]);
    var codes := i => ChainCodes(nodes, next, n, tour, i);
    forall i | 0 <= i < k
      ensures Leg(nodes, sr, paths, tour, i, fuel) == if done(i) then Expanded(codes(i)) else Aborted
    {
    }
    LegsOfOutcomes(nodes, sr, paths, tour, k, fuel, done, codes);
  }

  /** A tour over the tables of every search: it expands exactly when
      every stop is connected to the next, and then pushes, leg after leg,
      the stations of a least-cost walk between the two stops. */
  lemma TreeTour(g: Graph, cost: seq<seq<Cost>>, n: nat, t: Tables,
                 nodes: NodeRepository, sr: StationRepository, paths: PathRepository,
                 tour: seq<int>, fuel: nat)
    requires Square(cost, n) && AllTrees(g, cost, n, t)
    requires Dense(nodes) && Size(nodes) == n
    requires forall a, b :: 0 <= a < n && 0 <= b < n ==> GetNext(paths, a, b) == Some(t.next[a][b])
    requires forall id :: id in nodes.byId ==> StationKnown(sr, nodes.byId[id].stationCode)
    requires StopsWithin(tour, n) && fuel >= n - 1
    ensures ExpandTour(nodes, sr, paths, tour, fuel).Expanded?
            <==> forall i :: 0 <= i < |tour| ==> Connected(g.edges, NextStop(tour, i), tour[i])
    ensures ExpandTour(nodes, sr, paths, tour, fuel).Expanded? ==>
              ExpandTour(nodes, sr, paths, tour, fuel).codes == TourCodes(nodes, t.next, n, tour)
    ensures forall i :: 0 <= i < |tour| && Connected(g.edges, NextStop(tour, i), tour[i]) ==>
              HopWalk(g, cost, NextStop(tour, i), t.distance[NextStop(tour, i)],
                      Column(t.next, n, NextStop(tour, i)), tour[i], n - 1)
  {
    forall i | 0 <= i < |tour|
      ensures Connected(g.edges, NextStop(tour, i), tour[i]) ==>
                HopWalk(g, cost, NextStop(tour, i), t.distance[NextStop(tour, i)],
                        Column(t.next, n, NextStop(tour, i)), tour[i], n - 1)
      ensures if Connected(g.edges, NextStop(tour, i), tour[i])
              then LegChain(t.next, n, tour, i).Some?
                   && Leg(nodes, sr, paths, tour, i, fuel) == Expanded(CodesOf(nodes, LegChain(t.next, n, tour, i).value))
              else Leg(nodes, sr, paths, tour, i, fuel) == Aborted
    {
      TreeTourLeg(g, cost, n, t, nodes, sr, paths, tour, i, fuel);
    }
    LegsOfChains(g, nodes, sr, paths, t.next, n, tour, |tour|, fuel);
  }

  /* ---------------------------------------------------------------------
     From tsp.cc's tables to tour.cc's expansion
     --------------------------------------------------------------------- */

  /** A finished search leaves in its column `-1` or a node id. */
  lemma TreeHops(g: Graph, cost: seq<seq<Cost>>, n: nat, root: int, dist: seq<Cost>, pred: seq<int>)
    requires Square(cost, n) && 0 <= root < n && ShortestPathTree(g, cost, n, root, dist, pred)
    ensures forall v :: 0 <= v < n ==> pred[v] == NoNode || 0 <= pred[v] < n
  {
  }

  /** So every cell of `next` is `-1` or a node id. */
  lemma TablesAreHops(g: Graph, cost: seq<seq<Cost>>, n: nat, t: Tables)
    requires Square(cost, n) && AllTrees(g, cost, n, t)
    ensures HopTable(t.next, n)
  {
    forall a, b | 0 <= a < n && 0 <= b < n
      ensures t.next[a][b] == NoNode || 0 <= t.next[a][b] < n
    {
      TreeHops(g, cost, n, b, t.distance[b], Column(t.next, n, b));
      assert Column(t.next, n, b)[a] == t.next[a][b];
    }
  }

  /** The built nodes are dense, and each one's station is known under its
      code, which fits an `int` when every station code does. */
  lemma BuildNodesKnown(stations: seq<Station>, joins: seq<Join>, accept: int -> bool)
    requires forall i :: 0 <= i < |stations| ==> InInt32(stations[i].code)
    ensures Dense(Build(stations, joins, accept).nodes)
    ensures var nodes := Build(stations, joins, accept).nodes;
            forall id :: id in nodes.byId ==>
              StationKnown(StationRepositoryOf(stations), nodes.byId[id].stationCode)
              && InInt32(nodes.byId[id].stationCode)
  {
    var sr := StationRepositoryOf(stations);
    var nodes := Build(stations, joins, accept).nodes;
    BuildShape(stations, joins, accept);
    forall id | id in nodes.byId
      ensures StationKnown(sr, nodes.byId[id].stationCode) && InInt32(nodes.byId[id].stationCode)
    {
      var c := nodes.byId[id].stationCode;
      assert c in nodes.byCode;
      StationByCode(stations, c);
      var i :| IsLastWithCode(stations, i, c) && stations[i] == GetStationByCode(sr, c).value;
    }
  }

  /** Over dense nodes with 32-bit ids and codes and a table of hops both
      writers succeed, so tsp.cc leaves both files. */
  lemma FilesWritten(nodes: NodeRepository, next: seq<seq<int>>, n: nat)
    requires Dense(nodes) && Size(nodes) == n && n <= IntMax && Int32Nodes(nodes) && HopTable(next, n)
    ensures ShortestPathFile(nodes, next).Ok? && NodeFile(nodes, n).Ok?
    ensures FilesOf(nodes, next) == Ok(TspFiles(NodeFile(nodes, n).value, ShortestPathFile(nodes, next).value))
  {
    assert ShortestPathFile(nodes, next).Ok? by {
      ShortestPathRoundTrip(nodes, next, n);
    }
    assert NodeFile(nodes, n).Ok? by {
      NodeFileRoundTrip(nodes, n);
    }
  }

  /** tour.cc run on the two files and a solver's tour file expands the
      tour over the original nodes and the paths it read, which answer
      every pair of nodes with its cell of `next`. */
  lemma TourThroughFiles(nodes: NodeRepository, next: seq<seq<int>>, n: nat,
                         stations: seq<Station>, header: seq<string>, tour: seq<int>, fuel: nat)
    requires Dense(nodes) && Size(nodes) == n && n <= IntMax && Int32Nodes(nodes) && HopTable(next, n)
    requires StopsWithin(tour, n)
    requires |header| == 6 && forall i :: 0 <= i < 6 ==> '\n' !in header[i]
    ensures FilesOf(nodes, next).Ok?
    ensures ReadShortestPath(FilesOf(nodes, next).value.shortestPath).Ok?
    ensures var paths := PathRepositoryOf(ReadShortestPath(FilesOf(nodes, next).value.shortestPath).value);
            && (forall a, b :: 0 <= a < n && 0 <= b < n ==> GetNext(paths, a, b) == Some(next[a][b]))
            && TourRun(stations, FilesOf(nodes, next).value, Terminated(TourFileLines(header, tour), '\n'), fuel)
               == ExpandTour(nodes, StationRepositoryOf(stations), paths, tour, fuel)
  {
    var sr := StationRepositoryOf(stations);
    var tourFile := Terminated(TourFileLines(header, tour), '\n');
    assert FilesOf(nodes, next).Ok? && ReadNode(FilesOf(nodes, next).value.node).Ok?
           && ReadShortestPath(FilesOf(nodes, next).value.shortestPath).Ok?
           && (forall id :: GetNodeById(NodeRepositoryOf(ReadNode(FilesOf(nodes, next).value.node).value), id)
                            == GetNodeById(nodes, id))
           && (forall a, b :: 0 <= a < n && 0 <= b < n ==>
                 GetNext(PathRepositoryOf(ReadShortestPath(FilesOf(nodes, next).value.shortestPath).value), a, b)
                 == Some(next[a][b])) by {
      FilesWritten(nodes, next, n);
      ShortestPathRoundTrip(nodes, next, n);
      NodeFileRoundTrip(nodes, n);
    }
    var files := FilesOf(nodes, next).value;
    var rn := NodeRepositoryOf(ReadNode(files.node).value);
    var paths := PathRepositoryOf(ReadShortestPath(files.shortestPath).value);
    assert ReadTour(tourFile) == Ok(tour) by {
      ReadTourOfFile(header, tour);
    }
    assert TourRun(stations, files, tourFile, fuel) == ExpandTour(rn, sr, paths, tour, fuel);
    assert ExpandTour(rn, sr, paths, tour, fuel) == ExpandTour(nodes, sr, paths, tour, fuel) by {
      ExpandSameNodes(rn, nodes, sr, paths, tour, fuel);
    }
  }

  /** A tour over the tables of every search, through the files: tour.cc
      expands it as `TreeTour` describes. */
  lemma TablesTour(g: Graph, cost: seq<seq<Cost>>, n: nat, t: Tables, nodes: NodeRepository,
                   stations: seq<Station>, header: seq<string>, tour: seq<int>, fuel: nat)
    requires Square(cost, n) && AllTrees(g, cost, n, t)
    requires Dense(nodes) && Size(nodes) == n && n <= IntMax && Int32Nodes(nodes)
    requires forall id :: id in nodes.byId ==> StationKnown(StationRepositoryOf(stations), nodes.byId[id].stationCode)
    requires StopsWithin(tour, n) && fuel >= n - 1
    requires |header| == 6 && forall i :: 0 <= i < 6 ==> '\n' !in header[i]
    ensures FilesOf(nodes, t.next).Ok?
    ensures var e := TourRun(stations, FilesOf(nodes, t.next).value, Terminated(TourFileLines(header, tour), '\n'), fuel);
            && (e.Expanded? <==> forall i :: 0 <= i < |tour| ==> Connected(g.edges, NextStop(tour, i), tour[i]))
            && (e.Expanded? ==> e.codes == TourCodes(nodes, t.next, n, tour))
  {
    assert HopTable(t.next, n) by {
      TablesAreHops(g, cost, n, t);
    }
    TourThroughFiles(nodes, t.next, n, stations, header, tour, fuel);
    var paths := PathRepositoryOf(ReadShortestPath(FilesOf(nodes, t.next).value.shortestPath).value);
    TreeTour(g, cost, n, t, nodes, StationRepositoryOf(stations), paths, tour, fuel);
  }

  /** group.cc's rows, tsp.cc's two files, a solver's tour over the nodes
      and tour.cc's expansion: tsp.cc writes both files; tour.cc expands the
      tour exactly when each stop is connected to the next in the restricted
      graph, and then pushes, leg after leg, the stations of a least-cost
      walk between the two stops (`TreeTour`). */
  lemma TspTour(stations: seq<Station>, joins: seq<Join>, groups: seq<Group>,
                weight: (Station, Station) -> nat, header: seq<string>, tour: seq<int>, fuel: nat)
    requires GroupRows(stations, joins) == Ok(groups)
    requires forall i :: 0 <= i < |stations| ==> InInt32(stations[i].code)
    requires Size(Build(stations, joins, InTokyo(groups)).nodes) <= IntMax
    requires StopsWithin(tour, Size(Build(stations, joins, InTokyo(groups)).nodes))
    requires fuel >= Size(Build(stations, joins, InTokyo(groups)).nodes) - 1
    requires |header| == 6 && forall i :: 0 <= i < 6 ==> '\n' !in header[i]
    ensures TspOutput(stations, joins, groups, weight).Ok?
    ensures TspTables(stations, joins, groups, weight).Ok?
    ensures Square(TspTables(stations, joins, groups, weight).value.next, Size(Build(stations, joins, InTokyo(groups)).nodes))
    ensures var b := Build(stations, joins, InTokyo(groups));
            var n := Size(b.nodes);
            var t := TspTables(stations, joins, groups, weight).value;
            var e := TourRun(stations, TspOutput(stations, joins, groups, weight).value,
                             Terminated(TourFileLines(header, tour), '\n'), fuel);
            && (e.Expanded? <==> forall i :: 0 <= i < |tour| ==> Connected(b.graph.edges, NextStop(tour, i), tour[i]))
            && (e.Expanded? ==> e.codes == TourCodes(b.nodes, t.next, n, tour))
  {
    var sr := StationRepositoryOf(stations);
    var b := Build(stations, joins, InTokyo(groups));
    var n := Size(b.nodes);
    assert TspTables(stations, joins, groups, weight).Ok?
           && CostMatrix(b.nodes, sr, weight, n, b.graph.edges).Ok?
           && Square(CostMatrix(b.nodes, sr, weight, n, b.graph.edges).value, n)
           && AllTrees(b.graph, CostMatrix(b.nodes, sr, weight, n, b.graph.edges).value, n,
                       TspTables(stations, joins, groups, weight).value) by {
      TspTablesSpec(stations, joins, weight);
    }
    var cost := CostMatrix(b.nodes, sr, weight, n, b.graph.edges).value;
    var t := TspTables(stations, joins, groups, weight).value;
    assert Dense(b.nodes) && Int32Nodes(b.nodes)
           && forall id :: id in b.nodes.byId ==> StationKnown(sr, b.nodes.byId[id].stationCode) by {
      BuildNodesKnown(stations, joins, InTokyo(groups));
    }
    TablesTour(b.graph, cost, n, t, b.nodes, stations, header, tour, fuel);
  }
}
