/** The records the pipeline reads and derives (railway.h). Only the fields
    the graph pipeline looks at are kept. */
module Records {

  /** A station of the master file; its coordinates enter the model only
      through the edge weight handed to the routing engine. */
  datatype Station = Station(code: int, groupCode: int)

  /** One directly connected track segment of a line. */
  datatype Join = Join(lineCode: int, code1: int, code2: int)

  /** A graph vertex and the station it stands for. */
  datatype Node = Node(id: int, stationCode: int)

  /** A precomputed component assignment: station code and its leader code. */
  datatype Group = Group(stationCode: int, leader: int)

  /** One entry of the persisted next-hop table. */
  datatype Path = Path(from: int, to: int, next: int)

  /** An ordered pair of node ids, as `std::pair<int, int>`. */
  type Edge = (int, int)

  /** The value `-1` the programs use for "no node". */
  const NoNode: int := -1
}
