/** The disjoint-set forest group.cc takes from the AtCoder Library
    (`atcoder::dsu`): `same`, `merge` and `leader` over the nodes `0..n-1`.
    The library keeps parents with path compression and unions by size;
    path compression changes parents but never roots, so the state here is
    the root of every element. */
module UnionFind {
  import opened Records
  import opened Graphs

  /** `root[v]` is `leader(v)`. */
  datatype Dsu = Dsu(root: seq<int>)

  /** `dsu(n)`: every element alone. */
  function Init(n: nat): (d: Dsu)
    ensures Valid(d, n)
    ensures forall u, v :: 0 <= u < n && 0 <= v < n ==> (Same(d, u, v) <==> u == v)
  {
    Dsu(seq(n, v => v))
  }

  /** Roots are elements and lead themselves. */
  ghost predicate Valid(d: Dsu, n: nat) {
    |d.root| == n
    && forall v :: 0 <= v < n ==> 0 <= d.root[v] < n && d.root[d.root[v]] == d.root[v]
  }

  function Leader(d: Dsu, v: int): int
    requires 0 <= v < |d.root|
  {
    d.root[v]
  }

  predicate Same(d: Dsu, a: int, b: int)
    requires 0 <= a < |d.root| && 0 <= b < |d.root|
  {
    Leader(d, a) == Leader(d, b)
  }

  /** The number of elements led by `r`. */
  function SizeOf(roots: seq<int>, r: int): nat
    decreases |roots|
  {
    if roots == [] then 0
    else SizeOf(roots[..|roots| - 1], r) + (if roots[|roots| - 1] == r then 1 else 0)
  }

  /** `merge(a, b)`: the larger set's leader leads the union; on equal
      sizes the leader of `a` does. */
  function Merge(d: Dsu, a: int, b: int): (d': Dsu)
    requires 0 <= a < |d.root| && 0 <= b < |d.root|
    ensures |d'.root| == |d.root|
  {
    var x := Leader(d, a);
    var y := Leader(d, b);
    if x == y then d
    else
      var keep := if SizeOf(d.root, x) < SizeOf(d.root, y) then y else x;
      var gone := if keep == x then y else x;
      Dsu(seq(|d.root|, v requires 0 <= v < |d.root| => if d.root[v] == gone then keep else d.root[v]))
  }

  /** `merge` keeps the forest well formed and joins exactly the two sets. */
  lemma MergeSpec(d: Dsu, n: nat, a: int, b: int)
    requires Valid(d, n) && 0 <= a < n && 0 <= b < n
    ensures Valid(Merge(d, a, b), n)
    ensures forall u, v :: 0 <= u < n && 0 <= v < n ==>
      (Same(Merge(d, a, b), u, v) <==>
         Same(d, u, v) || (Same(d, u, a) && Same(d, v, b)) || (Same(d, u, b) && Same(d, v, a)))
    ensures Leader(Merge(d, a, b), a) in {Leader(d, a), Leader(d, b)}
  {
  }

  /** Merging two elements of one set changes nothing, so the `same` test
      before `merge` in group.cc does not change the partition. */
  lemma MergeSameNoop(d: Dsu, a: int, b: int)
    requires 0 <= a < |d.root| && 0 <= b < |d.root|
    requires Same(d, a, b)
    ensures Merge(d, a, b) == d
  {
  }

  /** One iteration of group.cc:95-101. */
  function Unite(d: Dsu, e: Edge): Dsu
    requires 0 <= e.0 < |d.root| && 0 <= e.1 < |d.root|
  {
    if Same(d, e.0, e.1) then d else Merge(d, e.0, e.1)
  }

  /** Every edge joins two elements of `0..n-1`. */
  predicate EdgesWithin(edges: seq<Edge>, n: nat) {
    forall e :: e in edges ==> 0 <= e.0 < n && 0 <= e.1 < n
  }

  /** The loop over all edges, in order. */
  function UniteAll(n: nat, edges: seq<Edge>): (d: Dsu)
    requires EdgesWithin(edges, n)
    ensures |d.root| == n
    decreases |edges|
  {
    if edges == [] then Init(n)
    else
      var last := edges[|edges| - 1];
      assert last in edges;
      Unite(UniteAll(n, edges[..|edges| - 1]), last)
  }

  /** After the loop two nodes share a leader iff a path of edges joins them. */
  lemma {:induction false} UniteAllSpec(n: nat, edges: seq<Edge>)
    requires EdgesWithin(edges, n)
    ensures Valid(UniteAll(n, edges), n)
    ensures forall u, v :: 0 <= u < n && 0 <= v < n ==>
      (Same(UniteAll(n, edges), u, v) <==> Connected(edges, u, v))
    decreases |edges|
  {
    if edges == [] {
      forall u, v | 0 <= u < n && 0 <= v < n
        ensures Same(UniteAll(n, edges), u, v) <==> Connected(edges, u, v)
      {
        if Connected(edges, u, v) {
          var w :| IsLinkWalk(edges, w, u, v);
          WalkWithoutEdges(w, u, v);
        } else {
          if u == v {
            ConnectedReflexive(edges, u);
          }
        }
      }
    } else {
      var init := edges[..|edges| - 1];
      var e := edges[|edges| - 1];
      assert init + [e] == edges;
      assert e in edges;
      var d := UniteAll(n, init);
      UniteAllSpec(n, init);
      MergeSpec(d, n, e.0, e.1);
      if Same(d, e.0, e.1) {
        MergeSameNoop(d, e.0, e.1);
      }
      forall u, v | 0 <= u < n && 0 <= v < n
        ensures Same(UniteAll(n, edges), u, v) <==> Connected(edges, u, v)
      {
        ConnectedSnoc(init, e.0, e.1, u, v);
        ConnectedSymmetric2(init, v, e.0);
        ConnectedSymmetric2(init, v, e.1);
      }
    }
  }

  /** The forest after the loop is well formed. */
  lemma UniteAllValid(n: nat, edges: seq<Edge>)
    requires EdgesWithin(edges, n)
    ensures Valid(UniteAll(n, edges), n)
  {
    UniteAllSpec(n, edges);
  }

  /** Every element is connected to its leader. */
  lemma LeaderConnected(n: nat, edges: seq<Edge>, v: int)
    requires EdgesWithin(edges, n) && 0 <= v < n
    ensures 0 <= Leader(UniteAll(n, edges), v) < n
    ensures Connected(edges, v, Leader(UniteAll(n, edges), v))
  {
    var d := UniteAll(n, edges);
    UniteAllSpec(n, edges);
    assert Same(d, v, Leader(d, v));
  }

  /** With no edges a walk cannot leave its start. */
  lemma WalkWithoutEdges(w: seq<int>, u: int, v: int)
    requires IsLinkWalk([], w, u, v)
    ensures u == v
  {
    assert |w| == 1 || Linked([], w[0], w[1]);
  }

  lemma ConnectedSymmetric2(edges: seq<Edge>, u: int, v: int)
    ensures Connected(edges, u, v) <==> Connected(edges, v, u)
  {
    if Connected(edges, u, v) {
      ConnectedSymmetric(edges, u, v);
    }
    if Connected(edges, v, u) {
      ConnectedSymmetric(edges, v, u);
    }
  }
}
