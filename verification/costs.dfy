/** The cost matrix of tsp.cc. `DBL_MAX` marks a pair with no edge and a
    node not reached; a real distance is modelled as a natural number. */
module Costs {
  import opened Wrappers
  import opened Records
  import opened Repositories
  import opened Graphs
  import opened UnionFind

  /** A `double` cost: `Inf` is `DBL_MAX`. */
  datatype Cost = Inf | Fin(value: nat)

  /** `a + b`. Adding a realistic distance to `DBL_MAX` rounds back to
      `DBL_MAX`, so `Inf` absorbs. */
  function Plus(a: Cost, b: Cost): Cost {
    if a.Inf? || b.Inf? then Inf else Fin(a.value + b.value)
  }

  /** `a < b`. */
  predicate Below(a: Cost, b: Cost) {
    a.Fin? && (b.Inf? || a.value < b.value)
  }

  /** `a <= b`. */
  predicate AtMost(a: Cost, b: Cost) {
    b.Inf? || (a.Fin? && a.value <= b.value)
  }

  /** An `n` by `n` table, as `vector<vector<T>>(N, vector<T>(N, x))` builds. */
  ghost predicate Square<T>(m: seq<seq<T>>, n: nat) {
    |m| == n && forall i :: 0 <= i < n ==> |m[i]| == n
  }

  function Filled<T>(n: nat, x: T): (m: seq<seq<T>>)
    ensures Square(m, n)
    ensures forall i, j :: 0 <= i < n && 0 <= j < n ==> m[i][j] == x
  {
    seq(n, _ => seq(n, _ => x))
  }

  /** `m[a][b] = x`; every other cell keeps its value. */
  function Store<T>(m: seq<seq<T>>, n: nat, a: int, b: int, x: T): (m': seq<seq<T>>)
    requires Square(m, n) && 0 <= a < n && 0 <= b < n
    ensures Square(m', n)
    ensures forall i, j :: 0 <= i < n && 0 <= j < n ==>
      m'[i][j] == if i == a && j == b then x else m[i][j]
  {
    m[a := m[a][b := x]]
  }

  /** The weight of an edge: both endpoints through `getNodeById(...).value()`
      and their stations through `getStationByCode(...).value()`, which
      throw when absent; `weight` stands for `calcDistance`. */
  function EdgeWeight(nodes: NodeRepository, sr: StationRepository,
                      weight: (Station, Station) -> nat, e: Edge): Option<nat> {
    var n1 := GetNodeById(nodes, e.0);
    var n2 := GetNodeById(nodes, e.1);
    if n1.None? || n2.None? then None
    else
      var s1 := GetStationByCode(sr, n1.value.stationCode);
      var s2 := GetStationByCode(sr, n2.value.stationCode);
      if s1.None? || s2.None? then None else Some(weight(s1.value, s2.value))
  }

  /** tsp.cc:113-129: start from `DBL_MAX` everywhere and, edge by edge in
      set order, write the weight in both directions. */
  function CostMatrix(nodes: NodeRepository, sr: StationRepository,
                      weight: (Station, Station) -> nat, n: nat, edges: seq<Edge>): (r: Result<seq<seq<Cost>>>)
    requires EdgesWithin(edges, n)
    ensures r.Ok? ==> Square(r.value, n)
    decreases |edges|
  {
    if edges == [] then Ok(Filled(n, Inf))
    else
      var e := edges[|edges| - 1];
      assert e in edges;
      match CostMatrix(nodes, sr, weight, n, edges[..|edges| - 1])
      case Fatal => Fatal
      case Ok(m) =>
        match EdgeWeight(nodes, sr, weight, e)
        case None => Fatal
        case Some(w) => Ok(Store(Store(m, n, e.0, e.1, Fin(w)), n, e.1, e.0, Fin(w)))
  }

  /** Whether edge `e` joins `u` and `v`, in either order. */
  predicate Joins(e: Edge, u: int, v: int) {
    e == (u, v) || e == (v, u)
  }

  /** The position of the last edge joining `u` and `v`, scanning from the end. */
  function LastLink(edges: seq<Edge>, u: int, v: int): (r: Option<nat>)
    ensures r.Some? ==> r.value < |edges|
    decreases |edges|
  {
    if edges == [] then None
    else if Joins(edges[|edges| - 1], u, v) then Some(|edges| - 1)
    else LastLink(edges[..|edges| - 1], u, v)
  }

  /** `LastLink` finds an edge exactly when the two nodes are linked, and the
      one it finds is the last such edge. */
  lemma {:induction false} LastLinkSpec(edges: seq<Edge>, u: int, v: int)
    ensures LastLink(edges, u, v).None? <==> !Linked(edges, u, v)
    ensures LastLink(edges, u, v).Some? ==>
      var k := LastLink(edges, u, v).value;
      k < |edges| && Joins(edges[k], u, v)
      && forall j :: k < j < |edges| ==> !Joins(edges[j], u, v)
    ensures LastLink(edges, u, v) == LastLink(edges, v, u)
    decreases |edges|
  {
    if edges != [] {
      var init := edges[..|edges| - 1];
      LastLinkSpec(init, u, v);
      assert edges == init + [edges[|edges| - 1]];
    }
  }

  /** The matrix is built iff every edge has a weight; then each cell holds
      the weight of the last edge joining its two nodes, or `Inf`. */
  lemma {:induction false} CostMatrixSpec(nodes: NodeRepository, sr: StationRepository,
                                          weight: (Station, Station) -> nat, n: nat, edges: seq<Edge>)
    requires EdgesWithin(edges, n)
    ensures CostMatrix(nodes, sr, weight, n, edges).Ok?
        <==> forall k :: 0 <= k < |edges| ==> EdgeWeight(nodes, sr, weight, edges[k]).Some?
    ensures CostMatrix(nodes, sr, weight, n, edges).Ok? ==>
      forall u, v :: 0 <= u < n && 0 <= v < n ==>
        CostMatrix(nodes, sr, weight, n, edges).value[u][v]
          == match LastLink(edges, u, v)
             case None => Inf
             case Some(k) => Fin(EdgeWeight(nodes, sr, weight, edges[k]).value)
    decreases |edges|
  {
    if edges != [] {
      var init := edges[..|edges| - 1];
      var e := edges[|edges| - 1];
      assert e in edges;
      assert forall k :: 0 <= k < |init| ==> init[k] == edges[k];
      CostMatrixSpec(nodes, sr, weight, n, init);
      var r := CostMatrix(nodes, sr, weight, n, edges);
      if r.Ok? {
        var m := CostMatrix(nodes, sr, weight, n, init).value;
        var w := EdgeWeight(nodes, sr, weight, e).value;
        forall u, v | 0 <= u < n && 0 <= v < n
          ensures r.value[u][v] == match LastLink(edges, u, v)
                                   case None => Inf
                                   case Some(k) => Fin(EdgeWeight(nodes, sr, weight, edges[k]).value)
        {
          if !Joins(e, u, v) {
            assert LastLink(edges, u, v) == LastLink(init, u, v);
            assert r.value[u][v] == m[u][v];
          }
        }
      }
    }
  }

  /** The cost matrix is symmetric, and a cell is finite exactly when an
      edge joins its two nodes. */
  lemma CostMatrixSymmetric(nodes: NodeRepository, sr: StationRepository,
                            weight: (Station, Station) -> nat, n: nat, edges: seq<Edge>)
    requires EdgesWithin(edges, n)
    requires CostMatrix(nodes, sr, weight, n, edges).Ok?
    ensures var m := CostMatrix(nodes, sr, weight, n, edges).value;
            forall u, v :: 0 <= u < n && 0 <= v < n ==>
              m[u][v] == m[v][u] && (m[u][v].Fin? <==> Linked(edges, u, v))
  {
    CostMatrixSpec(nodes, sr, weight, n, edges);
    forall u, v | 0 <= u < n && 0 <= v < n {
      LastLinkSpec(edges, u, v);
    }
  }
}
