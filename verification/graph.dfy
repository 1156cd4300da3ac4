/** `Graph` of railway.h:123-150: a set of ordered edge pairs and an
    adjacency map kept beside it. The node repository the class points at
    is kept separately (see Builder). */
module Graphs {
  import opened Wrappers
  import opened Records
  import opened OrderedSets

  /** `edges` is the `std::set<Edge>`, kept in its iteration order. */
  datatype Graph = Graph(edges: seq<Edge>, adj: map<int, set<int>>)

  const EmptyGraph: Graph := Graph([], map[])

  /** The set `neighbors[id]` denotes, where `operator[]` would create an
      empty one. */
  function NeighborsOf(g: Graph, id: int): set<int> {
    if id in g.adj then g.adj[id] else {}
  }

  /** `getNeighbors(id)`: `None` where `neighbors.at(id)` throws. */
  function GetNeighbors(g: Graph, id: int): Option<set<int>> {
    if id in g.adj then Some(g.adj[id]) else None
  }

  /** `addEdge(node1, node2)`. The pair is stored as given: `(b, a)` is a
      different element and `a == b` is a self-loop. */
  function AddEdge(g: Graph, a: int, b: int): (g': Graph)
    requires EdgesIncreasing(g.edges)
    ensures EdgesIncreasing(g'.edges)
    ensures forall e :: e in g'.edges <==> e in g.edges || e == (a, b)
    ensures g'.adj.Keys == g.adj.Keys + {a, b}
    ensures forall x ::
      NeighborsOf(g', x) == NeighborsOf(g, x) + (if x == a then {b} else {}) + (if x == b then {a} else {})
  {
    var adj1 := g.adj[a := NeighborsOf(g, a) + {b}];
    var adj2 := adj1[b := (if b in adj1 then adj1[b] else {}) + {a}];
    Graph(InsertEdge(g.edges, (a, b)), adj2)
  }

  /** `addEdge` on each pair in order. */
  function AddEdges(g: Graph, pairs: seq<Edge>): (g': Graph)
    requires EdgesIncreasing(g.edges)
    ensures EdgesIncreasing(g'.edges)
    decreases |pairs|
  {
    if pairs == [] then g else AddEdges(AddEdge(g, pairs[0].0, pairs[0].1), pairs[1..])
  }

  /** An edge between `a` and `b` was inserted in one of the two orders. */
  predicate Linked(edges: seq<Edge>, a: int, b: int) {
    (a, b) in edges || (b, a) in edges
  }

  /** The adjacency map holds exactly the endpoints of the edges, each with
      the nodes it shares an edge with in either order. */
  ghost predicate Wellformed(g: Graph) {
    && EdgesIncreasing(g.edges)
    && (forall a, b :: (a, b) in g.edges ==> a in g.adj && b in g.adj)
    && (forall a :: a in g.adj ==> exists b :: b in g.adj[a])
    && (forall a, b :: a in g.adj ==> (b in g.adj[a] <==> Linked(g.edges, a, b)))
  }

  lemma EmptyGraphWellformed()
    ensures Wellformed(EmptyGraph)
  {
  }

  /** `addEdge` keeps the adjacency map in step with the edge set. */
  lemma AddEdgeWellformed(g: Graph, a: int, b: int)
    requires Wellformed(g)
    ensures Wellformed(AddEdge(g, a, b))
  {
    var g' := AddEdge(g, a, b);
    forall x, y | x in g'.adj
      ensures y in g'.adj[x] <==> Linked(g'.edges, x, y)
    {
      assert g'.adj[x] == NeighborsOf(g', x);
      if x !in g.adj {
        assert !Linked(g.edges, x, y);
      }
    }
    forall x | x in g'.adj
      ensures exists y :: y in g'.adj[x]
    {
      assert g'.adj[x] == NeighborsOf(g', x);
      if x == a {
        assert b in g'.adj[x];
      } else if x == b {
        assert a in g'.adj[x];
      } else {
        var y :| y in g.adj[x];
        assert y in g'.adj[x];
      }
    }
  }

  /** Adjacency is symmetric and agrees with the edge set. */
  lemma NeighborsSymmetric(g: Graph, a: int, b: int)
    requires Wellformed(g)
    ensures b in NeighborsOf(g, a) <==> a in NeighborsOf(g, b)
    ensures b in NeighborsOf(g, a) <==> Linked(g.edges, a, b)
  {
  }

  /** Inserting an edge already present changes nothing: not the edges, not
      the adjacency sets. */
  lemma AddEdgeIdempotent(g: Graph, a: int, b: int)
    requires Wellformed(g) && (a, b) in g.edges
    ensures AddEdge(g, a, b) == g
  {
    assert Linked(g.edges, a, b) && Linked(g.edges, b, a);
    AddEdgePresent(g, a, b);
  }

  lemma AddEdgePresent(g: Graph, a: int, b: int)
    requires EdgesIncreasing(g.edges) && (a, b) in g.edges
    requires a in g.adj && b in g.adj[a]
    requires b in g.adj && a in g.adj[b]
    ensures AddEdge(g, a, b) == g
  {
    assert InsertEdge(g.edges, (a, b)) == g.edges;
    var adj1 := g.adj[a := NeighborsOf(g, a) + {b}];
    assert NeighborsOf(g, a) + {b} == g.adj[a];
    assert adj1 == g.adj;
    assert adj1[b] + {a} == g.adj[b];
    assert adj1[b := adj1[b] + {a}] == g.adj;
  }

  /** Two well-formed graphs with the same edges are the same graph: the
      adjacency map carries no information beyond the edges, whatever
      order they were inserted in. */
  lemma WellformedDeterminedByEdges(g1: Graph, g2: Graph)
    requires Wellformed(g1) && Wellformed(g2)
    requires forall e :: e in g1.edges <==> e in g2.edges
    ensures g1 == g2
  {
    EdgesIncreasingUnique(g1.edges, g2.edges);
    forall a | a in g1.adj
      ensures a in g2.adj
    {
      var b :| b in g1.adj[a];
      assert Linked(g2.edges, a, b);
    }
    forall a | a in g2.adj
      ensures a in g1.adj
    {
      var b :| b in g2.adj[a];
      assert Linked(g1.edges, a, b);
    }
    forall a | a in g1.adj
      ensures g1.adj[a] == g2.adj[a]
    {
      assert forall b :: b in g1.adj[a] <==> b in g2.adj[a];
    }
    assert g1.adj == g2.adj;
  }

  /** A sequence of insertions adds exactly its pairs and keeps the graph
      well formed. */
  lemma {:induction false} AddEdgesSpec(g: Graph, pairs: seq<Edge>)
    requires Wellformed(g)
    ensures Wellformed(AddEdges(g, pairs))
    ensures forall e :: e in AddEdges(g, pairs).edges <==> e in g.edges || e in pairs
    decreases |pairs|
  {
    if pairs != [] {
      var g1 := AddEdge(g, pairs[0].0, pairs[0].1);
      AddEdgeWellformed(g, pairs[0].0, pairs[0].1);
      AddEdgesSpec(g1, pairs[1..]);
      assert forall e :: e in pairs <==> e == pairs[0] || e in pairs[1..];
    }
  }

  /* ---------------------------------------------------------------------
     Undirected connectivity over an edge set
     --------------------------------------------------------------------- */

  /** `w` walks from `u` to `v`, each step along an edge in either order. */
  ghost predicate IsLinkWalk(edges: seq<Edge>, w: seq<int>, u: int, v: int) {
    |w| >= 1 && w[0] == u && w[|w| - 1] == v
    && forall k :: 0 <= k < |w| - 1 ==> Linked(edges, w[k], w[k + 1])
  }

  ghost predicate Connected(edges: seq<Edge>, u: int, v: int) {
    exists w :: IsLinkWalk(edges, w, u, v)
  }

  lemma ConnectedReflexive(edges: seq<Edge>, u: int)
    ensures Connected(edges, u, u)
  {
    assert IsLinkWalk(edges, [u], u, u);
  }

  lemma ConnectedByEdge(edges: seq<Edge>, u: int, v: int)
    requires Linked(edges, u, v)
    ensures Connected(edges, u, v)
  {
    assert IsLinkWalk(edges, [u, v], u, v);
  }

  lemma ConnectedSymmetric(edges: seq<Edge>, u: int, v: int)
    requires Connected(edges, u, v)
    ensures Connected(edges, v, u)
  {
    var w :| IsLinkWalk(edges, w, u, v);
    var r := seq(|w|, i requires 0 <= i < |w| => w[|w| - 1 - i]);
    forall k | 0 <= k < |r| - 1
      ensures Linked(edges, r[k], r[k + 1])
    {
      var j := |w| - 2 - k;
      assert Linked(edges, w[j], w[j + 1]);
    }
    assert IsLinkWalk(edges, r, v, u);
  }

  lemma ConnectedTransitive(edges: seq<Edge>, u: int, v: int, x: int)
    requires Connected(edges, u, v) && Connected(edges, v, x)
    ensures Connected(edges, u, x)
  {
    var w1 :| IsLinkWalk(edges, w1, u, v);
    var w2 :| IsLinkWalk(edges, w2, v, x);
    var w := w1 + w2[1..];
    forall k | 0 <= k < |w| - 1
      ensures Linked(edges, w[k], w[k + 1])
    {
      if k < |w1| - 1 {
      } else {
        assert w[k] == w2[k - |w1| + 1] && w[k + 1] == w2[k - |w1| + 2];
      }
    }
    assert IsLinkWalk(edges, w, u, x);
  }

  lemma ConnectedMonotone(edges: seq<Edge>, more: seq<Edge>, u: int, v: int)
    requires forall e :: e in edges ==> e in more
    requires Connected(edges, u, v)
    ensures Connected(more, u, v)
  {
    var w :| IsLinkWalk(edges, w, u, v);
    assert IsLinkWalk(more, w, u, v);
  }

  /** What connectivity becomes once the edge `(a, b)` is added: a path
      without it, or a path to one end of it and on from the other end. */
  ghost predicate ConnectedVia(edges: seq<Edge>, a: int, b: int, u: int, v: int) {
    || Connected(edges, u, v)
    || (Connected(edges, u, a) && Connected(edges, b, v))
    || (Connected(edges, u, b) && Connected(edges, a, v))
  }

  lemma ViaExtend(edges: seq<Edge>, a: int, b: int, u: int, x: int, v: int)
    requires ConnectedVia(edges, a, b, u, x) && Connected(edges, x, v)
    ensures ConnectedVia(edges, a, b, u, v)
  {
    if Connected(edges, u, x) {
      ConnectedTransitive(edges, u, x, v);
    } else if Connected(edges, u, a) && Connected(edges, b, x) {
      ConnectedTransitive(edges, b, x, v);
    } else {
      ConnectedTransitive(edges, a, x, v);
    }
  }

  lemma ViaNewEdge(edges: seq<Edge>, a: int, b: int, u: int, x: int, v: int)
    requires ConnectedVia(edges, a, b, u, x)
    requires (x == a && v == b) || (x == b && v == a)
    ensures ConnectedVia(edges, a, b, u, v)
  {
    ConnectedReflexive(edges, a);
    ConnectedReflexive(edges, b);
    if x == a {
      if !Connected(edges, u, a) {
        assert Connected(edges, u, b);
      }
    } else {
      if !Connected(edges, u, b) {
        assert Connected(edges, u, a);
      }
    }
  }

  lemma {:induction false} WalkWithNewEdge(edges: seq<Edge>, a: int, b: int, w: seq<int>, u: int, v: int)
    requires IsLinkWalk(edges + [(a, b)], w, u, v)
    ensures ConnectedVia(edges, a, b, u, v)
    decreases |w|
  {
    if |w| == 1 {
      ConnectedReflexive(edges, u);
    } else {
      var x := w[|w| - 2];
      var w' := w[..|w| - 1];
      assert IsLinkWalk(edges + [(a, b)], w', u, x);
      WalkWithNewEdge(edges, a, b, w', u, x);
      assert Linked(edges + [(a, b)], x, v);
      if Linked(edges, x, v) {
        ConnectedByEdge(edges, x, v);
        ViaExtend(edges, a, b, u, x, v);
      } else {
        ViaNewEdge(edges, a, b, u, x, v);
      }
    }
  }

  /** Connectivity after appending an edge, in terms of connectivity before. */
  lemma ConnectedSnoc(edges: seq<Edge>, a: int, b: int, u: int, v: int)
    ensures Connected(edges + [(a, b)], u, v) <==> ConnectedVia(edges, a, b, u, v)
  {
    var more := edges + [(a, b)];
    if Connected(more, u, v) {
      var w :| IsLinkWalk(more, w, u, v);
      WalkWithNewEdge(edges, a, b, w, u, v);
    }
    if ConnectedVia(edges, a, b, u, v) {
      assert forall e :: e in edges ==> e in more;
      ConnectedByEdge(more, a, b);
      ConnectedSymmetric(more, a, b);
      if Connected(edges, u, v) {
        ConnectedMonotone(edges, more, u, v);
      } else if Connected(edges, u, a) && Connected(edges, b, v) {
        ConnectedMonotone(edges, more, u, a);
        ConnectedMonotone(edges, more, b, v);
        ConnectedTransitive(more, u, a, b);
        ConnectedTransitive(more, u, b, v);
      } else {
        ConnectedMonotone(edges, more, u, b);
        ConnectedMonotone(edges, more, a, v);
        ConnectedTransitive(more, u, b, a);
        ConnectedTransitive(more, u, a, v);
      }
    }
  }
}
