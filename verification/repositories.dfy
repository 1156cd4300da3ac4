/** The key-to-value indices of railway.h. Each repository is filled by one
    pass over its input records; a later record overwrites an earlier one
    with the same key, as assignment through `std::map::operator[]` does.
    Lookups that the source answers with `std::nullopt`, or with an
    exception from `std::map::at`, answer `None` here. */
module Repositories {
  import opened Wrappers
  import opened Records

  /* ---------------------------------------------------------------------
     Two-level maps, as `std::map<int, std::map<int, int>>`
     --------------------------------------------------------------------- */

  type Table = map<int, map<int, int>>

  /** `mp.at(a).at(b)`, or `None` where either `at` throws. */
  function Get2(m: Table, a: int, b: int): (r: Option<int>)
    ensures r.Some? <==> a in m && b in m[a]
  {
    if a in m && b in m[a] then Some(m[a][b]) else None
  }

  /** `mp[a][b] = v`: creates the inner map on first use. */
  function Put2(m: Table, a: int, b: int, v: int): (m': Table)
    ensures Get2(m', a, b) == Some(v)
    ensures forall x, y :: (x, y) != (a, b) ==> Get2(m', x, y) == Get2(m, x, y)
  {
    m[a := (if a in m then m[a] else map[])[b := v]]
  }

  /* ---------------------------------------------------------------------
     StationRepository (railway.h:66-93)
     --------------------------------------------------------------------- */

  datatype StationRepository =
    StationRepository(byCode: map<int, Station>, byGroup: map<int, seq<Station>>)

  function GetStationByCode(r: StationRepository, code: int): Option<Station> {
    if code in r.byCode then Some(r.byCode[code]) else None
  }

  function GetStationsByStationGroupCode(r: StationRepository, groupCode: int): seq<Station> {
    if groupCode in r.byGroup then r.byGroup[groupCode] else []
  }

  /** One iteration of the constructor's loop. */
  function RegisterStation(r: StationRepository, s: Station): StationRepository {
    StationRepository(
      r.byCode[s.code := s],
      r.byGroup[s.groupCode := GetStationsByStationGroupCode(r, s.groupCode) + [s]])
  }

  /** The repository the constructor builds from `stations`, in order. */
  function StationRepositoryOf(stations: seq<Station>): StationRepository
    decreases |stations|
  {
    if stations == [] then StationRepository(map[], map[])
    else RegisterStation(StationRepositoryOf(stations[..|stations| - 1]), stations[|stations| - 1])
  }

  /** `i` is the last position of `stations` holding a station with `code`. */
  predicate IsLastWithCode(stations: seq<Station>, i: int, code: int) {
    0 <= i < |stations| && stations[i].code == code
    && forall j :: i < j < |stations| ==> stations[j].code != code
  }

  /** The stations of group `g`, in input order. */
  function InGroup(stations: seq<Station>, g: int): seq<Station> {
    if stations == [] then []
    else (if stations[0].groupCode == g then [stations[0]] else []) + InGroup(stations[1..], g)
  }

  /** A code is found iff some input station has it, and then the station
      found is the last one with that code. */
  lemma {:induction false} StationByCode(stations: seq<Station>, code: int)
    ensures GetStationByCode(StationRepositoryOf(stations), code).None?
        <==> forall i :: 0 <= i < |stations| ==> stations[i].code != code
    ensures var r := GetStationByCode(StationRepositoryOf(stations), code);
      r.Some? ==> (r.value.code == code
                   && exists i :: IsLastWithCode(stations, i, code) && stations[i] == r.value)
    decreases |stations|
  {
    if stations != [] {
      var n := |stations| - 1;
      var init := stations[..n];
      StationByCode(init, code);
      if stations[n].code == code {
        assert IsLastWithCode(stations, n, code);
      } else {
        var r := GetStationByCode(StationRepositoryOf(init), code);
        if r.Some? {
          var i :| IsLastWithCode(init, i, code) && init[i] == r.value;
          forall k | i < k < |stations|
            ensures stations[k].code != code
          {
            if k < n {
              assert stations[k] == init[k];
            }
          }
          assert IsLastWithCode(stations, i, code);
        } else {
          assert forall i :: 0 <= i < n ==> stations[i].code == init[i].code;
        }
      }
    }
  }

  lemma InGroupSnoc(stations: seq<Station>, s: Station, g: int)
    ensures InGroup(stations + [s], g)
         == InGroup(stations, g) + (if s.groupCode == g then [s] else [])
  {
    if stations != [] {
      assert (stations + [s])[1..] == stations[1..] + [s];
      InGroupSnoc(stations[1..], s, g);
    }
  }

  /** The stations of a group are exactly the input stations with that
      group code, in input order, duplicates included. */
  lemma {:induction false} StationsOfGroup(stations: seq<Station>, g: int)
    ensures GetStationsByStationGroupCode(StationRepositoryOf(stations), g) == InGroup(stations, g)
    decreases |stations|
  {
    if stations != [] {
      var n := |stations| - 1;
      StationsOfGroup(stations[..n], g);
      InGroupSnoc(stations[..n], stations[n], g);
      assert stations[..n] + [stations[n]] == stations;
    }
  }

  lemma InGroupMembers(stations: seq<Station>, g: int)
    ensures forall s :: s in InGroup(stations, g) <==> s in stations && s.groupCode == g
  {
  }

  /* ---------------------------------------------------------------------
     NodeRepository (railway.h:95-121)
     --------------------------------------------------------------------- */

  datatype NodeRepository = NodeRepository(byId: map<int, Node>, byCode: map<int, Node>)

  const NoNodes: NodeRepository := NodeRepository(map[], map[])

  /** The number of distinct node ids held. */
  function Size(r: NodeRepository): nat {
    |r.byId|
  }

  function GetNodeByStationCode(r: NodeRepository, code: int): Option<Node> {
    if code in r.byCode then Some(r.byCode[code]) else None
  }

  function GetNodeById(r: NodeRepository, id: int): Option<Node> {
    if id in r.byId then Some(r.byId[id]) else None
  }

  /** Both indices point at `n` afterwards; every other key is untouched and
      the size grows only for an id not held before. */
  function AddNode(r: NodeRepository, n: Node): (r': NodeRepository)
    ensures GetNodeById(r', n.id) == Some(n)
    ensures GetNodeByStationCode(r', n.stationCode) == Some(n)
    ensures forall id :: id != n.id ==> GetNodeById(r', id) == GetNodeById(r, id)
    ensures forall c :: c != n.stationCode ==> GetNodeByStationCode(r', c) == GetNodeByStationCode(r, c)
    ensures Size(r') == if GetNodeById(r, n.id).Some? then Size(r) else Size(r) + 1
  {
    NodeRepository(r.byId[n.id := n], r.byCode[n.stationCode := n])
  }

  /** The repository tour.cc fills from a node file, one `addNode` per row. */
  function NodeRepositoryOf(nodes: seq<Node>): NodeRepository
    decreases |nodes|
  {
    if nodes == [] then NoNodes else AddNode(NodeRepositoryOf(nodes[..|nodes| - 1]), nodes[|nodes| - 1])
  }

  /** Ids are exactly `0..Size(r)-1`, and the two indices are mutually
      inverse: one node per station code and one per id. */
  ghost predicate Dense(r: NodeRepository) {
    && (forall id :: id in r.byId <==> 0 <= id < |r.byId|)
    && (forall id :: id in r.byId ==>
          r.byId[id].id == id && r.byId[id].stationCode in r.byCode
          && r.byCode[r.byId[id].stationCode] == r.byId[id])
    && (forall c :: c in r.byCode ==>
          r.byCode[c].stationCode == c && r.byCode[c].id in r.byId
          && r.byId[r.byCode[c].id] == r.byCode[c])
  }

  /** Adding a node for a new station under the next id keeps ids dense. */
  lemma AddFreshNodeDense(r: NodeRepository, code: int)
    requires Dense(r) && GetNodeByStationCode(r, code).None?
    ensures Dense(AddNode(r, Node(Size(r), code)))
    ensures Size(AddNode(r, Node(Size(r), code))) == Size(r) + 1
  {
    var n := Node(Size(r), code);
    var r' := AddNode(r, n);
    assert n.id !in r.byId;
    assert |r'.byId| == |r.byId| + 1;
    forall id | id in r'.byId
      ensures r'.byId[id].id == id && r'.byId[id].stationCode in r'.byCode
          && r'.byCode[r'.byId[id].stationCode] == r'.byId[id]
    {
      if id != n.id {
        assert r.byId[id].stationCode != code;
      }
    }
  }

  /* ---------------------------------------------------------------------
     GroupRepository (railway.h:152-169)
     --------------------------------------------------------------------- */

  datatype GroupRepository = GroupRepository(leaderOf: map<int, int>)

  function GroupRepositoryOf(groups: seq<Group>): GroupRepository
    decreases |groups|
  {
    if groups == [] then GroupRepository(map[])
    else
      var g := groups[|groups| - 1];
      var r := GroupRepositoryOf(groups[..|groups| - 1]);
      GroupRepository(r.leaderOf[g.stationCode := g.leader])
  }

  /** Both codes have a record and their leaders agree. */
  function IsSame(r: GroupRepository, code1: int, code2: int): bool {
    code1 in r.leaderOf && code2 in r.leaderOf && r.leaderOf[code1] == r.leaderOf[code2]
  }

  /** The recorded leader of a code is the one of its last input record. */
  lemma {:induction false} LeaderOfGroups(groups: seq<Group>, code: int)
    ensures code in GroupRepositoryOf(groups).leaderOf
        <==> exists i :: 0 <= i < |groups| && groups[i].stationCode == code
    ensures code in GroupRepositoryOf(groups).leaderOf ==>
      exists i :: 0 <= i < |groups| && groups[i].stationCode == code
        && groups[i].leader == GroupRepositoryOf(groups).leaderOf[code]
        && forall j :: i < j < |groups| ==> groups[j].stationCode != code
    decreases |groups|
  {
    if groups != [] {
      var n := |groups| - 1;
      var init := groups[..n];
      LeaderOfGroups(init, code);
      if groups[n].stationCode != code {
        if code in GroupRepositoryOf(init).leaderOf {
          var i :| 0 <= i < |init| && init[i].stationCode == code
            && init[i].leader == GroupRepositoryOf(init).leaderOf[code]
            && forall j :: i < j < |init| ==> init[j].stationCode != code;
          assert groups[i] == init[i];
        } else {
          assert forall i :: 0 <= i < n ==> groups[i] == init[i];
        }
      }
    }
  }

  lemma IsSameSymmetric(r: GroupRepository, code1: int, code2: int)
    ensures IsSame(r, code1, code2) == IsSame(r, code2, code1)
  {
  }

  lemma IsSameTransitive(r: GroupRepository, code1: int, code2: int, code3: int)
    requires IsSame(r, code1, code2) && IsSame(r, code2, code3)
    ensures IsSame(r, code1, code3)
  {
  }

  /** A code is the same as itself exactly when some group record names it. */
  lemma IsSameReflexive(groups: seq<Group>, code: int)
    ensures IsSame(GroupRepositoryOf(groups), code, code)
        <==> exists i :: 0 <= i < |groups| && groups[i].stationCode == code
  {
    LeaderOfGroups(groups, code);
  }

  /* ---------------------------------------------------------------------
     PathRepository (railway.h:208-220)
     --------------------------------------------------------------------- */

  datatype PathRepository = PathRepository(nextOf: Table)

  function PathRepositoryOf(paths: seq<Path>): PathRepository
    decreases |paths|
  {
    if paths == [] then PathRepository(map[])
    else
      var p := paths[|paths| - 1];
      PathRepository(Put2(PathRepositoryOf(paths[..|paths| - 1]).nextOf, p.from, p.to, p.next))
  }

  /** `getNext(from, to)`: `None` where `map::at` throws. */
  function GetNext(r: PathRepository, from: int, to: int): Option<int> {
    Get2(r.nextOf, from, to)
  }

  /** `i` is the last position of `paths` recorded for `(from, to)`. */
  predicate IsLastPathFor(paths: seq<Path>, i: int, from: int, to: int) {
    0 <= i < |paths| && paths[i].from == from && paths[i].to == to
    && forall j :: i < j < |paths| ==> (paths[j].from, paths[j].to) != (from, to)
  }

  /** `getNext` answers the `next` of the last path recorded for the pair,
      and fails iff no path was recorded for it. */
  lemma {:induction false} NextOfPaths(paths: seq<Path>, from: int, to: int)
    ensures GetNext(PathRepositoryOf(paths), from, to).None?
        <==> forall i :: 0 <= i < |paths| ==> (paths[i].from, paths[i].to) != (from, to)
    ensures var r := GetNext(PathRepositoryOf(paths), from, to);
      r.Some? ==> exists i :: IsLastPathFor(paths, i, from, to) && paths[i].next == r.value
    decreases |paths|
  {
    if paths != [] {
      var n := |paths| - 1;
      var init := paths[..n];
      NextOfPaths(init, from, to);
      if (paths[n].from, paths[n].to) != (from, to) {
        var r := GetNext(PathRepositoryOf(init), from, to);
        if r.Some? {
          var i :| IsLastPathFor(init, i, from, to) && init[i].next == r.value;
          forall k | i < k < |paths|
            ensures (paths[k].from, paths[k].to) != (from, to)
          {
            if k < n {
              assert paths[k] == init[k];
            }
          }
          assert IsLastPathFor(paths, i, from, to);
        } else {
          assert forall i :: 0 <= i < n ==> paths[i] == init[i];
        }
      }
    }
  }

  /* ---------------------------------------------------------------------
     JoinRepository (railway.h:222-243)
     --------------------------------------------------------------------- */

  datatype JoinRepository = JoinRepository(lineOf: Table)

  /** Every join is written in both directions. */
  function JoinRepositoryOf(joins: seq<Join>): JoinRepository
    decreases |joins|
  {
    if joins == [] then JoinRepository(map[])
    else
      var j := joins[|joins| - 1];
      var m := JoinRepositoryOf(joins[..|joins| - 1]).lineOf;
      JoinRepository(Put2(Put2(m, j.code1, j.code2, j.lineCode), j.code2, j.code1, j.lineCode))
  }

  function GetLineCodeByStationCodes(r: JoinRepository, code1: int, code2: int): Option<int> {
    Get2(r.lineOf, code1, code2)
  }

  /** The join touches both codes, in either order. */
  predicate Connects(j: Join, a: int, b: int) {
    (j.code1 == a && j.code2 == b) || (j.code1 == b && j.code2 == a)
  }

  /** `i` is the last position of `joins` holding a join between `a` and `b`. */
  predicate IsLastJoinOf(joins: seq<Join>, i: int, a: int, b: int) {
    0 <= i < |joins| && Connects(joins[i], a, b)
    && forall k :: i < k < |joins| ==> !Connects(joins[k], a, b)
  }

  /** One join writes the pairs it connects and nothing else. */
  lemma JoinWrite(m: Table, j: Join, a: int, b: int)
    ensures Get2(Put2(Put2(m, j.code1, j.code2, j.lineCode), j.code2, j.code1, j.lineCode), a, b)
         == if Connects(j, a, b) then Some(j.lineCode) else Get2(m, a, b)
  {
  }

  /** The line code of the last join between `a` and `b`, scanning the
      joins from the end. */
  function LastLineCode(joins: seq<Join>, a: int, b: int): Option<int>
    decreases |joins|
  {
    if joins == [] then None
    else if Connects(joins[|joins| - 1], a, b) then Some(joins[|joins| - 1].lineCode)
    else LastLineCode(joins[..|joins| - 1], a, b)
  }

  lemma {:induction false} LineCodeIsLast(joins: seq<Join>, a: int, b: int)
    ensures GetLineCodeByStationCodes(JoinRepositoryOf(joins), a, b) == LastLineCode(joins, a, b)
    decreases |joins|
  {
    if joins != [] {
      LineCodeIsLast(joins[..|joins| - 1], a, b);
      JoinWrite(JoinRepositoryOf(joins[..|joins| - 1]).lineOf, joins[|joins| - 1], a, b);
    }
  }

  lemma {:induction false} LastLineCodeSpec(joins: seq<Join>, a: int, b: int)
    ensures LastLineCode(joins, a, b).None? <==> forall i :: 0 <= i < |joins| ==> !Connects(joins[i], a, b)
    ensures var r := LastLineCode(joins, a, b);
      r.Some? ==> exists i :: IsLastJoinOf(joins, i, a, b) && joins[i].lineCode == r.value
    decreases |joins|
  {
    if joins != [] {
      var n := |joins| - 1;
      var init := joins[..n];
      LastLineCodeSpec(init, a, b);
      var r := LastLineCode(init, a, b);
      if Connects(joins[n], a, b) {
        assert IsLastJoinOf(joins, n, a, b);
      } else if r.None? {
        forall i | 0 <= i < |joins|
          ensures !Connects(joins[i], a, b)
        {
          if i < n {
            assert joins[i] == init[i];
          }
        }
      } else {
        var i :| IsLastJoinOf(init, i, a, b) && init[i].lineCode == r.value;
        forall k | i < k < |joins|
          ensures !Connects(joins[k], a, b)
        {
          if k < n {
            assert joins[k] == init[k];
          }
        }
        assert IsLastJoinOf(joins, i, a, b);
      }
    }
  }

  /** The line code of a station pair is that of the last join between
      them, in either direction; no join, no line code. */
  lemma LineOfJoins(joins: seq<Join>, a: int, b: int)
    ensures GetLineCodeByStationCodes(JoinRepositoryOf(joins), a, b).None?
        <==> forall i :: 0 <= i < |joins| ==> !Connects(joins[i], a, b)
    ensures var r := GetLineCodeByStationCodes(JoinRepositoryOf(joins), a, b);
      r.Some? ==> exists i :: IsLastJoinOf(joins, i, a, b) && joins[i].lineCode == r.value
  {
    LineCodeIsLast(joins, a, b);
    LastLineCodeSpec(joins, a, b);
  }

  /** Line codes do not depend on the order of the two station codes. */
  lemma {:induction false} LineCodeSymmetric(joins: seq<Join>, a: int, b: int)
    ensures GetLineCodeByStationCodes(JoinRepositoryOf(joins), a, b)
         == GetLineCodeByStationCodes(JoinRepositoryOf(joins), b, a)
    decreases |joins|
  {
    if joins != [] {
      var n := |joins| - 1;
      LineCodeSymmetric(joins[..n], a, b);
      var m := JoinRepositoryOf(joins[..n]).lineOf;
      JoinWrite(m, joins[n], a, b);
      JoinWrite(m, joins[n], b, a);
    }
  }
}
