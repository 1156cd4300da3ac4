# railway-tsp in Dafny

A model of the core of railway-tsp, a batch pipeline that turns the Japanese
railway network into a travelling-salesman instance and expands a solver's
tour back into stations. It has three programs:

- **group.cc** builds the station graph from the station and join records.
  - Each join between two known stations becomes an edge.
  - Each station group becomes a clique of transfer edges.
  - It then runs a union-find pass over the edges and prints one
    `station_cd,leader` row per node.
- **tsp.cc** rebuilds the graph, keeping only the stations that the group
  rows place with Tokyo (`isSame(code, TOKYO)`, `TOKYO = 1130101`). Then it:
  - fills the cost matrix from the edges;
  - runs Dijkstra from every root, filling `distance` and `next`;
  - writes `shortest_path.csv`, `node.csv` and the weight section of
    `railway.tsp`.
- **tour.cc** reads back `node.csv`, the solver's tour and `shortest_path.csv`.
  For each pair of consecutive stops (wrapping around), it emits stations
  along the `next` hops until the next stop is reached.

The model is pure Dafny: immutable datatypes and total functions. One module
follows each part of the source.

| module | file | what it models |
|---|---|---|
| `Wrappers` | `wrappers.dfy` | `Option` for `std::optional`; `Result` with `Fatal` for an uncaught exception |
| `Records` | `records.dfy` | `Station`, `Join`, `Node`, `Group`, `Path`, `Edge` |
| `Text` | `text.dfy` | `std::stoi`, `std::to_string`, `getline` splitting, `>>` word reading |
| `Repositories` | `repositories.dfy` | the five repositories of railway.h |
| `OrderedSets` | `ordered.dfy` | `std::set<int>` and `std::set<Edge>` as strictly increasing sequences |
| `Graphs` | `graph.dfy` | `Graph`: `addEdge`, `getNeighbors`, `getEdges`, connectivity |
| `Builder` | `builder.dfy` | the join loop (group.cc:24-53, tsp.cc:33-68) for any acceptance test |
| `Cliques` | `cliques.dfy` | group codes and cliques (group.cc:55-91, tsp.cc:72-111); the whole build |
| `UnionFind` | `dsu.dfy` | `atcoder::dsu` as a root labelling with union by size |
| `Components` | `components.dfy` | group.cc's leader rows and what `isSame` learns from them |
| `Costs` | `costs.dfy` | the cost matrix of tsp.cc:113-129 over abstract costs |
| `Dijkstra` | `dijkstra.dfy` | one search of tsp.cc:134-154 |
| `DijkstraProofs` | `dijkstra_proofs.dfy` | the loop invariant and why a search yields a shortest-path tree |
| `AllPairs` | `allpairs.dfy` | the search from every root |
| `Tsp` | `tsp.dfy` | tsp.cc from records to tables, restricted to Tokyo's group |
| `Readers` | `readers.dfy` | `readShortestPath`, `readNode`, `readTour` |
| `Writers` | `writers.dfy` | `shortest_path.csv`, `node.csv`, the weight section |
| `Tour` | `tour.dfy` | tour.cc's expansion (tour.cc:38-54) |
| `Pipeline` | `pipeline.dfy` | tsp.cc's files read back by tour.cc, end to end |

**Costs.** A `double` cost is `Cost = Inf | Fin(nat)`, where `Inf` is
`DBL_MAX`. `calcDistance` becomes a parameter `weight: (Station, Station) -> nat`.

**The priority queue.** The queue of `(distance, id)` pairs with stale
entries skipped is modelled by `Dijkstra.Pick`. It takes, from the nodes not
yet taken, the reached node that is least by `(distance, id)`. The queue
yields its live entries in exactly that order.

**The restricted build.** At tsp.cc:46-61, a join whose first station is in
Tokyo's group and whose second station is not still creates a node for the
first station. Only then is the join skipped. So "a join with a refused
endpoint is skipped entirely" describes the code only when the accepted codes
are closed under joins. The model follows the code:

- `Cliques.RestrictedNodeWithoutNeighbors` shows a node that ends up with no
  adjacency entry.
- `Tsp.GroupsClosed` proves that the rows group.cc writes always give a closed
  acceptance test.

## Model

| member | source | states |
|---|---|---|
| Repositories.Put2 | src/railway.h:210-214 | `mp[a][b] = v` makes `(a, b)` answer `v` and leaves every other pair's lookup as it was |
| Repositories.StationByCode | src/railway.h:68-81 | `getStationByCode` finds a code exactly when some input station has it, and then returns the last input station with that code |
| Repositories.StationsOfGroup | src/railway.h:68-88 | `getStationsByStationGroupCode` returns the stations of the group in input order, and an empty list for an unknown group |
| Repositories.InGroupMembers | src/railway.h:71-72 | a station is listed under a group exactly when it is an input station with that group code |
| Repositories.AddNode | src/railway.h:97-102 | after `addNode` both indices return the node, every other id and code answers as before, and `size()` grows exactly when the id is new |
| Repositories.AddFreshNodeDense | src/group.cc:37-41 | giving a new station the id `size()` keeps the ids `0..size()-1` dense, with the two indices in agreement, and grows `size()` by one |
| Repositories.LeaderOfGroups | src/railway.h:154-158 | a code has a leader exactly when some group record names it, and the leader is that of the last such record |
| Repositories.IsSameSymmetric | src/railway.h:160-165 | `isSame(a, b) == isSame(b, a)` |
| Repositories.IsSameTransitive | src/railway.h:160-165 | `isSame` chains: from `isSame(a, b)` and `isSame(b, c)` follows `isSame(a, c)` |
| Repositories.IsSameReflexive | src/railway.h:160-165 | `isSame(c, c)` holds exactly when some group record names `c` |
| Repositories.NextOfPaths | src/railway.h:210-216 | `getNext(from, to)` throws exactly when no path was recorded for the pair, and otherwise answers the `next` of the last such path |
| Repositories.JoinWrite | src/railway.h:225-227 | one join writes its line code under both orders of its codes and leaves every other pair unchanged |
| Repositories.LineCodeIsLast | src/railway.h:222-239 | the repository's answer equals a scan of the joins from the end for the last one between the two codes |
| Repositories.LastLineCodeSpec | src/railway.h:231-239 | the scan finds nothing exactly when no join connects the pair; otherwise it returns the line code of the last join that does |
| Repositories.LineOfJoins | src/railway.h:222-239 | `getLineCodeByStationCodes` is empty exactly when no join connects the codes, and otherwise gives the last connecting join's line code |
| Repositories.LineCodeSymmetric | src/railway.h:226-227 | the line code of a station pair does not depend on the order of the two codes |
| OrderedSets.InsertInt | src/tsp.cc:80 | `std::set<int>::insert` keeps the elements strictly increasing, adds exactly the value, and changes nothing when it is present |
| OrderedSets.InsertEdge | src/railway.h:132-133 | `std::set<Edge>::insert` keeps lexicographic order, adds exactly the edge, and changes nothing when it is present |
| OrderedSets.EdgesIncreasingUnique | src/railway.h:144 | two ordered edge sets with the same elements are the same sequence, so `getEdges` is fixed by its elements |
| Graphs.AddEdge | src/railway.h:128-134 | `addEdge(a, b)` stores the pair as given, adds exactly that edge, makes `a` and `b` neighbours of each other and creates both adjacency entries |
| Graphs.AddEdgeWellformed | src/railway.h:128-134 | `addEdge` keeps the adjacency map equal to the endpoints of the edge set |
| Graphs.NeighborsSymmetric | src/railway.h:129-130 | `b` is a neighbour of `a` exactly when `a` is a neighbour of `b`, exactly when an edge joins them in some order |
| Graphs.AddEdgeIdempotent | src/railway.h:128-134 | inserting an edge that is already present leaves the graph unchanged |
| Graphs.WellformedDeterminedByEdges | src/railway.h:146-149 | the edge set determines the whole graph, including its adjacency map |
| Graphs.AddEdgesSpec | src/railway.h:128-134 | a sequence of `addEdge` calls adds exactly its pairs and keeps the graph well formed |
| Graphs.ConnectedSnoc | src/group.cc:95-101 | connectivity after one more edge is connectivity before, extended through that edge |
| Builder.NodeCodesSpec | src/group.cc:37-46 | a station code receives a node exactly when some known join asks for it, and no code receives two nodes |
| Builder.JoinEdgeCodesSpec | src/group.cc:24-53 | a station pair becomes an edge exactly when some join between two known stations with both codes accepted names it |
| Builder.EnsureNodeSpec | src/group.cc:37-46 | looking a code up, and adding it under id `size()` when absent, appends the code when it is new and moves no other node |
| Builder.JoinSkipped | src/tsp.cc:34-49 | a join with an unknown station, or whose first code is refused, changes neither the nodes nor the graph |
| Builder.JoinStepHalf | src/tsp.cc:46-57 | a join whose first code is accepted and whose second is refused creates the first station's node and adds no edge |
| Builder.JoinStepAdds | src/tsp.cc:46-67 | a join with both codes accepted creates whatever nodes are missing and adds the edge between their ids in join order |
| Builder.JoinLoopSpec | src/tsp.cc:33-68 | after the join loop, ids are `0..N-1` in first-asked order, one per asked code, and the edges are exactly the accepted join pairs mapped to ids |
| Cliques.GroupCodes | src/tsp.cc:72-81 | the group codes are collected into an ordered set |
| Cliques.GroupCodesSpec | src/tsp.cc:72-81 | a group code is collected exactly when some input station of that group has a node and is accepted |
| Cliques.RowPairsSpec | src/group.cc:76-89 | row `i` of the double loop adds an edge from `i`'s node to every other member with a node, and nothing else |
| Cliques.GroupPairsSpec | src/group.cc:68-90 | the double loop over a group adds exactly the ordered pairs of distinct positions whose stations both have nodes |
| Cliques.CliquePairsSpec | src/group.cc:62-91 | one group's `addEdge` calls are exactly its clique edges; a group of at most one station adds none |
| Cliques.CliqueLoopSpec | src/group.cc:62-91 | the loop over the collected groups adds exactly the clique edges of those groups and keeps the graph well formed |
| Cliques.GroupEdgeOfStations | src/tsp.cc:82-111 | a clique edge of a collected group is one between two stations of the group of some station that brings the group in |
| Cliques.BuildShape | src/group.cc:22-91 | the finished build has dense ids in first-asked order; every node's station is accepted and known; every edge lies among the nodes |
| Cliques.BuildSpec | src/tsp.cc:31-111 | the finished edge set is exactly the accepted join edges together with the clique edges, described from the input records |
| Cliques.NodeOnJoinEdge | src/tsp.cc:46-67 | when acceptance is closed under known joins, every node is an endpoint of some accepted join pair |
| Cliques.ClosedNodesHaveNeighbors | src/tsp.cc:46-67 | when acceptance is closed under known joins, `getNeighbors` succeeds on every node |
| Cliques.UnrestrictedNodesHaveNeighbors | src/group.cc:37-52 | in group.cc's graph, `getNeighbors` succeeds on every node |
| Cliques.RestrictedNodeWithoutNeighbors | src/tsp.cc:46-57 | with a closedness-violating acceptance test, one join can leave a node with no adjacency entry, so `getNeighbors` on it would throw |
| UnionFind.Init | src/group.cc:94 | `dsu(n)`: a well-formed forest in which each element is alone |
| UnionFind.MergeSpec | src/group.cc:100 | `merge(a, b)` keeps the forest well formed, joins exactly the sets of `a` and `b`, and the new leader is one of the two old leaders |
| UnionFind.MergeSameNoop | src/group.cc:97-100 | merging two elements of one set changes nothing, so the `same` test only saves work |
| UnionFind.UniteAllSpec | src/group.cc:93-101 | after the loop over the edges, two nodes share a leader exactly when a path of edges joins them |
| UnionFind.LeaderConnected | src/group.cc:106 | every node's leader is a node connected to it |
| Components.LeaderRowsSpec | src/group.cc:103-109 | over dense nodes, every row exists and pairs the station of id `i` with the station of `leader(i)` |
| Components.LeadersLeadThemselves | src/group.cc:105-108 | every printed leader is a printed station, and that station's own row names itself as leader |
| Components.RowsPartition | src/group.cc:93-109 | the rows name the stations in id order, and two rows share a leader exactly when their nodes are connected, whatever the edge order |
| Components.GroupRowsSpec | src/group.cc:22-109 | group.cc never aborts; it prints one row per node in id order, and two rows share a leader exactly when their nodes are connected in its graph |
| Components.SameIffConnected | src/railway.h:154-165 | over rows laid out like group.cc's, `isSame(c1, c2)` holds exactly when both codes have nodes and the nodes are connected |
| Components.SameGroupIffConnected | src/railway.h:160-165 | with group.cc's rows, `isSame(c1, c2)` holds exactly when both stations are nodes of group.cc's graph and are connected in it |
| Costs.Filled | src/tsp.cc:113 | `vector(N, vector(N, x))` is N by N with `x` in every cell |
| Costs.Store | src/tsp.cc:127-128 | a cell assignment changes that cell and keeps every other |
| Costs.LastLinkSpec | src/tsp.cc:115-129 | the last edge between two nodes is found exactly when they are linked, is the last edge joining them, and does not depend on the order of the pair |
| Costs.CostMatrixSpec | src/tsp.cc:113-129 | the matrix is built exactly when every edge's nodes and stations exist; each cell then holds the weight of the last edge joining the pair, or `DBL_MAX` |
| Costs.CostMatrixSymmetric | src/tsp.cc:113-129 | `cost[a][b] == cost[b][a]`, and a cell is finite exactly when some edge joins the pair |
| Dijkstra.Pick | src/tsp.cc:140-145 | the node taken next is reached, not yet taken, and least by `(distance, id)`; nothing is taken once every untaken node is unreached |
| Dijkstra.Follow | src/tsp.cc:150 | a next-hop chain toward the root starts at its node, never contains the root, and is empty only at the root |
| DijkstraProofs.InitialInv | src/tsp.cc:135-139 | the state before the loop (root at 0, all else `DBL_MAX` and -1, nothing taken) satisfies the loop invariant |
| DijkstraProofs.PickedOptimal | src/tsp.cc:141-145 | the node the queue yields costs no more than any walk from the root to it |
| DijkstraProofs.RelaxBounds | src/tsp.cc:146-151 | relaxing never raises a distance, and leaves every untaken node at least as far as the node just taken |
| DijkstraProofs.TakenUnchanged | src/tsp.cc:146-151 | relaxing never changes the distance or next hop of a node already taken |
| DijkstraProofs.StepShaped | src/tsp.cc:140-153 | one step keeps: the root taken first, unreached nodes without a next hop, taken nodes having neighbours, each node taken once |
| DijkstraProofs.StepHops | src/tsp.cc:147-150 | after one step, every reached node other than the root has a taken neighbour as next hop, and its distance is that neighbour's plus the edge |
| DijkstraProofs.StepEarlier | src/tsp.cc:147-150 | after one step, every next hop was taken before the node it serves |
| DijkstraProofs.StepRelaxed | src/tsp.cc:146-151 | after one step, every neighbour of a taken node is within the taken node's distance plus the edge |
| DijkstraProofs.StepOptimal | src/tsp.cc:141-151 | after one step, every taken node's distance is at most the cost of any walk to it |
| DijkstraProofs.StepInv | src/tsp.cc:140-153 | one iteration of the `while` loop keeps the whole invariant |
| DijkstraProofs.TakenAtMost | src/tsp.cc:143-144 | at most `N` nodes are ever taken, each once |
| DijkstraProofs.HopWalkReached | src/tsp.cc:147-150 | from every reached node, the chain of next hops reaches the root along a walk whose cost is the node's distance |
| DijkstraProofs.FinalClosed | src/tsp.cc:140-153 | once the queue is empty, every neighbour of a taken node has been taken |
| DijkstraProofs.WalkTaken | src/tsp.cc:140-153 | once the queue is empty, every node some walk from the root reaches has been taken |
| DijkstraProofs.FinalReached | src/tsp.cc:140-153 | at the end, a distance is finite exactly when the node is connected to the root |
| DijkstraProofs.FinalOptimal | src/tsp.cc:140-153 | at the end, no walk from the root is cheaper than its target's distance |
| DijkstraProofs.FinalHops | src/tsp.cc:150 | at the end, every reached node's next-hop chain reaches the root within `N - 1` hops |
| DijkstraProofs.FinalSpec | src/tsp.cc:140-153 | the state the loop ends in is a shortest-path tree for the root |
| DijkstraProofs.RunSucceeds | src/tsp.cc:146 | the loop does not abort when every node connected to the root has an adjacency entry; only `getNeighbors` on a missing entry can abort it |
| DijkstraProofs.RunSpec | src/tsp.cc:140-153 | the loop ends with the invariant and an empty queue, and it ends without aborting when every node connected to the root has an adjacency entry |
| DijkstraProofs.ShortestFromSpec | src/tsp.cc:134-154 | a search succeeds exactly when every node connected to the root has an adjacency entry. It then leaves `distance[root][root] = 0` and a finite distance exactly for connected nodes; each reached node's next hop is an adjacent node one edge closer; no walk beats a distance; every chain reaches the root within `N - 1` hops |
| AllPairs.Searches | src/tsp.cc:134 | the searches from all roots succeed exactly when each one does, and then each is the search from its own root |
| AllPairs.Column | src/tsp.cc:150 | column `i` of `next` is `next[v][i]` for every `v` |
| AllPairs.ShortestPathsSpec | src/tsp.cc:131-154 | the tables are filled exactly when every node has an adjacency entry. Each root then has distance 0 to itself and no next hop; its `distance` row and its `next` column form a shortest-path tree |
| Tsp.GroupsClosed | src/tsp.cc:47-57 | with the rows group.cc writes, being in Tokyo's group is closed under known joins |
| Tsp.KnownJoinLinked | src/group.cc:24-53 | in group.cc's graph, the stations of every known join have nodes and are connected |
| Tsp.RestrictedCosts | src/tsp.cc:113-129 | over the restricted build, every `getNodeById(...).value()` and `getStationByCode(...).value()` of the cost loop succeeds, and the matrix is square with a finite cost for every pair an edge links |
| Tsp.RestrictedTablesSpec | src/tsp.cc:33-154 | when acceptance is closed under known joins, the restricted pipeline never aborts, and every root's row of the tables is a shortest-path tree |
| Tsp.TspTablesSpec | src/tsp.cc:33-154 | with group.cc's rows, tsp.cc never aborts before writing, and each `distance` row and `next` column is a shortest-path tree over Tokyo's component |
| Text.Stoi | src/railway.h:441 | `stoi` yields only values that fit an `int` |
| Text.StoiOfDigits | src/railway.h:441 | a string of digits reads as its decimal value, or fails when that value does not fit an `int` |
| Text.StoiToDecimal | src/tsp.cc:168 | `stoi(to_string(n)) == n` for every `int` `n` |
| Text.ToDecimalPlain | src/tsp.cc:168 | `to_string` writes only digits and a minus sign, so no separator appears inside a number |
| Text.Split | src/railway.h:436 | no part returned by `getline(.., sep)` contains the separator |
| Text.SplitTerminated | src/railway.h:434-436 | splitting parts that were each written followed by the separator gives the parts back |
| Text.Words | src/railway.h:462-466 | the words read by `>>` are nonempty and contain no white space |
| Text.WordsOfTerminated | src/railway.h:462-466 | reading words from nonempty plain words, each followed by a space character, gives the words back |
| Readers.RowPathsSpec | src/railway.h:471-478 | a row is read exactly when each of its fields is a number; it then yields one path `(i, j, entry)` per column and nothing else |
| Readers.PathRowsSpec | src/railway.h:469-479 | the rows are read exactly when every field is a number; the paths are then exactly one `(i, j, entry(i, j))` per cell |
| Readers.LookupOfPaths | src/railway.h:210-216 | over paths holding every cell of an `N` by `N` table once, `getNext(a, b)` is the cell inside the table and throws outside it |
| Readers.PathTableSpec | src/railway.h:453-482 | the file is read exactly when every field is a number; the repository then answers `getNext(a, b)` with field `b` of line `a` inside the table and throws outside it |
| Readers.MapAllSpec | src/railway.h:436-448 | a per-line read succeeds exactly when every line parses, and yields the lines' values in order |
| Readers.ReadNodeOfLines | src/railway.h:434-448 | `readNode` skips the header line and reads every later line as a node |
| Readers.NodeOfRowWithoutComma | src/railway.h:439-444 | a row with no comma reads as one number used for both the node id and the station code, because both `getline` calls share `sep` and the second one fails |
| Readers.TourLinesOfNumbers | src/railway.h:411-421 | lines holding the 1-based numbers, followed by `-1`, read back as the 0-based tour |
| Readers.ReadTourOfFile | src/railway.h:399-424 | a tour file with a six-line header, the 1-based stops, then `-1` and `EOF`, reads back as the tour |
| Writers.NextWordIs | src/tsp.cc:165-168 | a cell is written as `-1` or as the id `getNodeById` returns, which over dense nodes is the cell itself |
| Writers.NextRowIs | src/tsp.cc:164-170 | a row of `next` is written as its cells in decimal, each followed by a comma |
| Writers.ShortestPathLines | src/tsp.cc:159-174 | `shortest_path.csv` is row `i` of `next` on line `i`, for every `i` |
| Writers.CellReadsBack | src/railway.h:474-475 | field `j` of a written row reads back as cell `j` |
| Writers.ShortestPathRoundTrip | src/tsp.cc:156-174 | `shortest_path.csv` as written reads back, and `getNext(a, b)` then equals `next[a][b]` inside the table and throws outside it |
| Writers.RowReadsBack | src/tsp.cc:181-182 | a `node_id,station_cd` row reads back as the node it was written from |
| Writers.NodeRowsAre | src/tsp.cc:176-183 | `node.csv` is the header followed by one row per id `0..N-1` |
| Writers.NodeLinesRead | src/railway.h:426-451 | `readNode` of the written `node.csv` returns the nodes in id order |
| Writers.RepositoryOfListed | src/tour.cc:25-29 | adding the nodes listed in id order rebuilds a repository that answers both lookups like the original |
| Writers.ListedPrefix | src/tour.cc:26-29 | after the first `k` listed nodes, the rebuilt repository answers exactly for the ids below `k` and their station codes |
| Writers.NodeFileRoundTrip | src/tsp.cc:176-183 | `node.csv` as written reads back into a repository that answers `getNodeById` and `getNodeByStationCode` like the original |
| Writers.CostValue | src/tsp.cc:201-205 | a written cost is never below -1 |
| Writers.CostWordSpec | src/tsp.cc:201-205 | a cell is written as the decimal of its value; -1 marks exactly `DBL_MAX`; the word reads back as its value |
| Writers.SectionTerminated | src/tsp.cc:197-210 | the weight section is every cell of every row, each followed by a space |
| Writers.WeightSectionWords | src/tsp.cc:195-211 | reading the weight section word by word gives the cells' words in row-major order |
| Tour.LegsSpec | src/tour.cc:38-54 | the expansion finishes exactly when every leg does, and its codes are the legs' codes concatenated in tour order |
| Tour.ShortTour | src/tour.cc:38-54 | an empty tour, or one with a single stop whose node exists, emits nothing |
| Tour.SegmentOfChain | src/tour.cc:42-53 | a leg whose next-hop chain reaches the target emits the station of each node on the chain, excluding the target |
| Tour.ChainSegment | src/tour.cc:42-53 | along a chain that reaches the target, the leg emits the chain's stations and never the target's own station |
| Tour.UnreachedSegment | src/tour.cc:50-52 | a leg whose first hop is `-1` aborts at `getNodeById(-1).value()` |
| Tour.HopLeg | src/tour.cc:42-53 | for any hop table whose chain from a stop either reaches the target or starts with `-1`: the leg emits the chain's stations, or it aborts |
| Tour.TreeReached | src/tsp.cc:147-150 | in a shortest-path tree, the next-hop chain of every node connected to the root reaches the root within `N - 1` hops, along a walk costing the node's distance |
| Tour.TreeUnreached | src/tsp.cc:132 | in a shortest-path tree, a node not connected to the root has next hop -1 |
| Tour.TreeLeg | src/tour.cc:39-53 | along the tree rooted at the target, a leg from a connected stop emits the chain's stations and never the target's station; from an unconnected stop it aborts |
| Pipeline.ExpandSameNodes | src/tour.cc:25-29 | two node repositories that answer `getNodeById` alike expand every tour alike |
| Pipeline.TreeTourLeg | src/tour.cc:39-53 | over the tables of every search, leg `i` finishes exactly when its stops are connected, emitting its chain's stations |
| Pipeline.LegsOfOutcomes | src/tour.cc:38-54 | legs that each finish or abort give an expansion that finishes exactly when all of them finish, with their codes concatenated |
| Pipeline.LegsOfChains | src/tour.cc:38-54 | legs that follow their chains finish exactly when each stop is connected to the next, emitting the chains' stations in order |
| Pipeline.TreeTour | src/tour.cc:38-54 | over the tables of every search, a tour expands exactly when every stop is connected to the next. It then emits each leg's chain in turn, and each chain is a walk costing the stop's shortest distance |
| Pipeline.TreeHops | src/tsp.cc:150 | a finished search leaves -1 or a node id in every cell of its column |
| Pipeline.TablesAreHops | src/tsp.cc:165-167 | every cell of `next` is -1 or a node id, so `getNodeById(next[i][j]).value()` at tsp.cc:167 never throws |
| Pipeline.BuildNodesKnown | src/tour.cc:43-45 | the built nodes are dense and each one's station is known under its own code, so `getStationByCode(...).value()` never throws |
| Pipeline.FilesWritten | src/tsp.cc:156-183 | over dense nodes with 32-bit ids and codes, both files are written without aborting |
| Pipeline.TourThroughFiles | src/tour.cc:22-55 | tour.cc on the written files answers `getNext(a, b) == next[a][b]` and expands a solver's tour exactly as over the original repositories |
| Pipeline.TablesTour | src/tour.cc:22-55 | through the files, a tour expands exactly when every stop is connected to the next, emitting the shortest-path chains of its legs |
| Pipeline.TspTour | src/tour.cc:22-55 | end to end from the records: tsp.cc writes its files, and tour.cc expands a solver's tour exactly when each stop is connected to the next, emitting each leg's next-hop chain |

## Left out

- `calcDistance` (railway.h:193-206) uses floating point. It becomes the parameter `weight`, an arbitrary non-negative integer per pair of stations.
- `double` arithmetic is not modelled. `DBL_MAX` becomes `Inf`, and `Inf` absorbs in `Plus`.
- `lround` of a distance is not modelled. A finite cost is already an integer and is written as it is.
- OpenMP is not modelled. The parallel loops write disjoint cells: iteration i of tsp.cc:133 writes row i of `distance` and column i of `next`, and those of tsp.cc:160 and 196 write line i of their text; so they run in sequence.
- File and stream I/O is not modelled: opening files, `fs.fail()`, `argc` checks and exit codes. File contents are strings passed in, and an unopenable file is not modelled.
- The station, join, line and group CSV loaders (`readStations`, `readJoins`, `readLines`, `readGroup`) are left out, because the records they produce are inputs of the model.
- The JSON output of tour.cc is left out. The expansion yields the sequence of station codes pushed to the array.
- The TSPLIB header and `EOF` footer of `railway.tsp` (tsp.cc:187-193, 212) are constant text. Only the weight section is modelled.
- `Prefectures` and `LineRepository` are constant or unused by the core.
- Station fields other than the code and the group code are not modelled.
- The internals of `atcoder::dsu` (path compression, its exact representation) are not part of this model. Union by size with ties kept by `leader(a)` gives the same leaders, because path compression does not change roots.
- Dijkstra.Pick: the claim that a `priority_queue` with stale entries skipped yields nodes in this order is argued in the module comment, not proved. Any other tie-breaking would give the same proved properties except the exact `next` values.
- Tour.Segment: the `while` loop of tour.cc:42 has no bound. The model gives each leg `fuel` steps and ends with `Exhausted` when they run out. The theorems use `fuel >= N - 1`, which the shortest-path tables never exceed.
- Text.Stoi: characters after the digits are ignored, as `std::stoi` does. A base prefix is not modelled, because the programs use base 10.
- Readers.ReadTourOfFile: requires every stop to be below `INT_MAX`. In readTour (railway.h:419), `stoi(sep) - 1` overflows on `INT_MIN`. The model's `TourLines` subtracts without wrapping.
- Writers.ShortestPathRoundTrip: requires `N <= INT_MAX`, so that every written id reads back through `stoi`.
- Pipeline.TspTour: requires station codes and the node count to fit an `int`, a tour of node ids `0..N-1`, and `fuel >= N - 1`. The properties of the solver's tour (a permutation, optimality) are not modelled.
- Cliques.ClosedNodesHaveNeighbors: holds only when acceptance is closed under known joins. `Cliques.RestrictedNodeWithoutNeighbors` shows why the restriction is needed.
