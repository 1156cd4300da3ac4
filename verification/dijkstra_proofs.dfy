/** Why one search of tsp.cc:134-154 computes shortest paths: the loop
    invariant of `Dijkstra.Run`, its preservation by one step, and what it
    gives once the queue runs dry. */
module DijkstraProofs {
  import opened Wrappers
  import opened Records
  import opened Graphs
  import opened UnionFind
  import opened Costs
  import opened Dijkstra

  /** What a search may rely on: a well-formed graph on `0..n-1`, an `n` by
      `n` cost table that is finite on every linked pair, and a root among
      the nodes. */
  ghost predicate Setting(g: Graph, cost: seq<seq<Cost>>, n: nat, root: int) {
    && Wellformed(g) && EdgesWithin(g.edges, n) && Square(cost, n) && 0 <= root < n
    && forall u, v :: 0 <= u < n && 0 <= v < n && Linked(g.edges, u, v) ==> cost[u][v].Fin?
  }

  /* ---------------------------------------------------------------------
     The loop invariant
     --------------------------------------------------------------------- */

  /** Rows of length `n`; every taken node is a reached node id. */
  ghost predicate Shaped(s: Search, n: nat) {
    && |s.dist| == n && |s.pred| == n
    && (forall i :: 0 <= i < |s.order| ==> 0 <= s.order[i] < n)
    && (forall v :: v in s.order ==> 0 <= v < n && s.dist[v].Fin?)
  }

  /** The root keeps distance 0 and no next hop, and is taken first. */
  ghost predicate RootKept(s: Search, n: nat, root: int)
    requires Shaped(s, n) && 0 <= root < n
  {
    && s.dist[root] == Fin(0) && s.pred[root] == NoNode
    && (root !in s.order ==> s.order == [] && forall v :: 0 <= v < n && v != root ==> s.dist[v].Inf?)
    && (|s.order| > 0 ==> s.order[0] == root)
  }

  /** No node is taken twice. */
  ghost predicate OrderDistinct(s: Search) {
    forall i, j :: 0 <= i < j < |s.order| ==> s.order[i] != s.order[j]
  }

  /** Every reached node other than the root has a taken neighbour as its
      next hop, and its distance is that neighbour's plus the step. */
  ghost predicate HopsOk(g: Graph, cost: seq<seq<Cost>>, n: nat, root: int, s: Search)
    requires Shaped(s, n) && Square(cost, n)
  {
    forall v :: 0 <= v < n && v != root && s.dist[v].Fin? ==>
      s.pred[v] in s.order && Linked(g.edges, s.pred[v], v)
      && s.dist[v] == Plus(s.dist[s.pred[v]], cost[s.pred[v]][v])
  }

  ghost predicate UnreachedNoHop(s: Search, n: nat)
    requires Shaped(s, n)
  {
    forall v :: 0 <= v < n && s.dist[v].Inf? ==> s.pred[v] == NoNode
  }

  /** No taken node is farther than a node not taken. */
  ghost predicate TakenFirst(s: Search, n: nat)
    requires Shaped(s, n)
  {
    forall x, y :: x in s.order && 0 <= y < n && y !in s.order ==> AtMost(s.dist[x], s.dist[y])
  }

  /** The neighbours of every taken node have been relaxed. */
  ghost predicate TakenRelaxed(g: Graph, cost: seq<seq<Cost>>, n: nat, s: Search)
    requires Shaped(s, n) && Square(cost, n)
  {
    forall x, y :: x in s.order && 0 <= y < n && Linked(g.edges, x, y)
      ==> AtMost(s.dist[y], Plus(s.dist[x], cost[x][y]))
  }

  /** A taken node's distance is at most the cost of any walk to it. */
  ghost predicate TakenOptimal(g: Graph, cost: seq<seq<Cost>>, n: nat, root: int, s: Search)
    requires Shaped(s, n)
  {
    forall x, w :: x in s.order && IsLinkWalk(g.edges, w, root, x) ==> AtMost(s.dist[x], WalkCost(cost, w))
  }

  /** The next hop of a taken node was taken before it. */
  ghost predicate HopsEarlier(s: Search, n: nat, root: int)
    requires Shaped(s, n)
  {
    forall i :: 0 <= i < |s.order| && s.order[i] != root ==> s.pred[s.order[i]] in s.order[..i]
  }

  ghost predicate TakenHaveNeighbors(g: Graph, s: Search) {
    forall v :: v in s.order ==> v in g.adj
  }

  ghost predicate Inv(g: Graph, cost: seq<seq<Cost>>, n: nat, root: int, s: Search) {
    && Setting(g, cost, n, root)
    && Shaped(s, n)
    && RootKept(s, n, root)
    && HopsOk(g, cost, n, root, s)
    && UnreachedNoHop(s, n)
    && TakenFirst(s, n)
    && TakenRelaxed(g, cost, n, s)
    && TakenOptimal(g, cost, n, root, s)
    && OrderDistinct(s)
    && HopsEarlier(s, n, root)
    && TakenHaveNeighbors(g, s)
  }

  /* ---------------------------------------------------------------------
     Walks
     --------------------------------------------------------------------- */

  lemma LinkedWithin(edges: seq<Edge>, n: nat, a: int, b: int)
    requires EdgesWithin(edges, n) && Linked(edges, a, b)
    ensures 0 <= a < n && 0 <= b < n
  {
    if (a, b) in edges {
      assert (a, b).0 == a;
    } else {
      assert (b, a) in edges;
    }
  }

  lemma WalkPrefix(edges: seq<Edge>, w: seq<int>, u: int, v: int, k: nat)
    requires IsLinkWalk(edges, w, u, v) && 1 <= k <= |w|
    ensures IsLinkWalk(edges, w[..k], u, w[k - 1])
  {
    forall i | 0 <= i < k - 1
      ensures Linked(edges, w[..k][i], w[..k][i + 1])
    {
      assert w[..k][i] == w[i] && w[..k][i + 1] == w[i + 1];
    }
  }

  lemma WalkExtend(edges: seq<Edge>, w: seq<int>, u: int, v: int, x: int)
    requires IsLinkWalk(edges, w, u, v) && Linked(edges, v, x)
    ensures IsLinkWalk(edges, w + [x], u, x)
  {
    var w' := w + [x];
    forall i | 0 <= i < |w'| - 1
      ensures Linked(edges, w'[i], w'[i + 1])
    {
      if i < |w| - 1 {
        assert w'[i] == w[i] && w'[i + 1] == w[i + 1];
      }
    }
  }

  lemma WalkCostExtend(cost: seq<seq<Cost>>, w: seq<int>, x: int)
    requires |w| >= 1
    ensures WalkCost(cost, w + [x]) == Plus(WalkCost(cost, w), StepCost(cost, w[|w| - 1], x))
  {
    assert (w + [x])[..|w|] == w;
  }

  /** Costs are not negative, so a walk costs at least any prefix of it. */
  lemma {:induction false} WalkCostGrows(cost: seq<seq<Cost>>, w: seq<int>, k: nat)
    requires 1 <= k <= |w|
    ensures AtMost(WalkCost(cost, w[..k]), WalkCost(cost, w))
    decreases |w|
  {
    if k < |w| {
      var init := w[..|w| - 1];
      WalkCostGrows(cost, init, k);
      assert init[..k] == w[..k];
    } else {
      assert w[..k] == w;
    }
  }

  /** The index of the first element of `w` not in `order`, or `|w|`. */
  function FirstOut(w: seq<int>, order: seq<int>): (k: nat)
    ensures k <= |w|
    ensures forall i :: 0 <= i < k ==> w[i] in order
    ensures k < |w| ==> w[k] !in order
  {
    if w == [] || w[0] !in order then 0 else 1 + FirstOut(w[1..], order)
  }

  /* ---------------------------------------------------------------------
     One step preserves the invariant
     --------------------------------------------------------------------- */

  /** The node the queue yields costs no more than any walk to it: the
      walk leaves the taken nodes somewhere, and the node where it first
      leaves is already no closer than the picked node. */
  lemma PickedOptimal(g: Graph, cost: seq<seq<Cost>>, n: nat, root: int, s: Search, p: int, w: seq<int>)
    requires Setting(g, cost, n, root) && Shaped(s, n) && RootKept(s, n, root)
    requires TakenRelaxed(g, cost, n, s) && TakenOptimal(g, cost, n, root, s)
    requires Pick(s.dist, s.order, n) == Some(p)
    requires IsLinkWalk(g.edges, w, root, p)
    ensures AtMost(s.dist[p], WalkCost(cost, w))
  {
    if p != root {
      assert root in s.order;
      var j := FirstOut(w, s.order);
      assert 0 < j < |w|;
      var x := w[j - 1];
      var y := w[j];
      assert 0 <= x < n && 0 <= y < n && Linked(g.edges, x, y) by {
        assert Linked(g.edges, x, y);
        LinkedWithin(g.edges, n, x, y);
      }
      assert AtMost(s.dist[x], WalkCost(cost, w[..j])) by {
        WalkPrefix(g.edges, w, root, p, j);
      }
      assert AtMost(s.dist[p], Plus(s.dist[x], StepCost(cost, x, y))) by {
        assert AtMost(s.dist[y], Plus(s.dist[x], cost[x][y]));
      }
      ExitCost(cost, w, j, s.dist[p], s.dist[x]);
    }
  }

  /** A walk costs at least `d` when its prefix up to `j` costs at least
      `dx` and `d` is at most `dx` plus the step out of the prefix. */
  lemma ExitCost(cost: seq<seq<Cost>>, w: seq<int>, j: nat, d: Cost, dx: Cost)
    requires 1 <= j < |w|
    requires AtMost(dx, WalkCost(cost, w[..j]))
    requires AtMost(d, Plus(dx, StepCost(cost, w[j - 1], w[j])))
    ensures AtMost(d, WalkCost(cost, w))
  {
    WalkCostExtend(cost, w[..j], w[j]);
    assert w[..j] + [w[j]] == w[..j + 1];
    WalkCostGrows(cost, w, j + 1);
  }

  /** Taking `p` changes neither a taken node nor `p` itself. */
  lemma TakenUnchanged(s: Search, cost: seq<seq<Cost>>, n: nat, p: int, nbrs: set<int>)
    requires Shaped(s, n) && Square(cost, n) && TakenFirst(s, n)
    requires 0 <= p < n && p !in s.order && s.dist[p].Fin?
    ensures var s' := Relax(s, cost, n, p, nbrs);
            forall v :: v in s'.order ==> s'.dist[v] == s.dist[v] && s'.pred[v] == s.pred[v]
  {
  }

  /** Taking `p` never raises a distance, and leaves every node not taken
      at least as far as `p`. */
  lemma RelaxBounds(s: Search, cost: seq<seq<Cost>>, n: nat, p: int, nbrs: set<int>)
    requires Shaped(s, n) && Square(cost, n) && Pick(s.dist, s.order, n) == Some(p)
    ensures var s' := Relax(s, cost, n, p, nbrs);
            forall v :: 0 <= v < n ==> AtMost(s'.dist[v], s.dist[v])
    ensures var s' := Relax(s, cost, n, p, nbrs);
            forall v :: 0 <= v < n && v !in s.order ==> AtMost(s.dist[p], s'.dist[v])
  {
  }

  /** The root is taken first. */
  lemma RootTaken(s: Search, cost: seq<seq<Cost>>, n: nat, root: int, p: int, nbrs: set<int>)
    requires Shaped(s, n) && Square(cost, n) && 0 <= root < n && RootKept(s, n, root)
    requires Pick(s.dist, s.order, n) == Some(p)
    ensures root in Relax(s, cost, n, p, nbrs).order
  {
  }

  lemma StepShaped(g: Graph, cost: seq<seq<Cost>>, n: nat, root: int, s: Search, p: int)
    requires Setting(g, cost, n, root) && Shaped(s, n) && RootKept(s, n, root) && TakenFirst(s, n)
    requires UnreachedNoHop(s, n) && TakenHaveNeighbors(g, s) && OrderDistinct(s)
    requires Pick(s.dist, s.order, n) == Some(p) && p in g.adj
    ensures var s' := Relax(s, cost, n, p, g.adj[p]);
            Shaped(s', n) && RootKept(s', n, root) && UnreachedNoHop(s', n)
            && TakenHaveNeighbors(g, s') && OrderDistinct(s')
  {
    TakenUnchanged(s, cost, n, p, g.adj[p]);
    RootTaken(s, cost, n, root, p, g.adj[p]);
  }

  lemma StepHops(g: Graph, cost: seq<seq<Cost>>, n: nat, root: int, s: Search, p: int)
    requires Setting(g, cost, n, root) && Shaped(s, n) && TakenFirst(s, n)
    requires HopsOk(g, cost, n, root, s)
    requires Pick(s.dist, s.order, n) == Some(p) && p in g.adj
    requires Shaped(Relax(s, cost, n, p, g.adj[p]), n)
    ensures HopsOk(g, cost, n, root, Relax(s, cost, n, p, g.adj[p]))
  {
    TakenUnchanged(s, cost, n, p, g.adj[p]);
  }

  lemma StepEarlier(g: Graph, cost: seq<seq<Cost>>, n: nat, root: int, s: Search, p: int)
    requires Setting(g, cost, n, root) && Shaped(s, n) && RootKept(s, n, root) && TakenFirst(s, n)
    requires HopsOk(g, cost, n, root, s) && HopsEarlier(s, n, root)
    requires Pick(s.dist, s.order, n) == Some(p) && p in g.adj
    requires Shaped(Relax(s, cost, n, p, g.adj[p]), n)
    ensures HopsEarlier(Relax(s, cost, n, p, g.adj[p]), n, root)
  {
    var s' := Relax(s, cost, n, p, g.adj[p]);
    TakenUnchanged(s, cost, n, p, g.adj[p]);
    RootTaken(s, cost, n, root, p, g.adj[p]);
    forall i | 0 <= i < |s'.order| && s'.order[i] != root
      ensures s'.pred[s'.order[i]] in s'.order[..i]
    {
      if i < |s.order| {
        assert s'.order[..i] == s.order[..i];
      } else {
        assert s'.order[..i] == s.order;
      }
    }
  }

  lemma StepFirst(g: Graph, cost: seq<seq<Cost>>, n: nat, root: int, s: Search, p: int)
    requires Setting(g, cost, n, root) && Shaped(s, n) && TakenFirst(s, n)
    requires Pick(s.dist, s.order, n) == Some(p) && p in g.adj
    requires Shaped(Relax(s, cost, n, p, g.adj[p]), n)
    ensures TakenFirst(Relax(s, cost, n, p, g.adj[p]), n)
  {
    TakenUnchanged(s, cost, n, p, g.adj[p]);
    RelaxBounds(s, cost, n, p, g.adj[p]);
  }

  lemma StepRelaxed(g: Graph, cost: seq<seq<Cost>>, n: nat, root: int, s: Search, p: int)
    requires Setting(g, cost, n, root) && Shaped(s, n) && TakenFirst(s, n) && TakenRelaxed(g, cost, n, s)
    requires Pick(s.dist, s.order, n) == Some(p) && p in g.adj
    requires Shaped(Relax(s, cost, n, p, g.adj[p]), n)
    ensures TakenRelaxed(g, cost, n, Relax(s, cost, n, p, g.adj[p]))
  {
    TakenUnchanged(s, cost, n, p, g.adj[p]);
    RelaxBounds(s, cost, n, p, g.adj[p]);
  }

  lemma StepOptimal(g: Graph, cost: seq<seq<Cost>>, n: nat, root: int, s: Search, p: int)
    requires Setting(g, cost, n, root) && Shaped(s, n) && RootKept(s, n, root) && TakenFirst(s, n)
    requires TakenRelaxed(g, cost, n, s) && TakenOptimal(g, cost, n, root, s)
    requires Pick(s.dist, s.order, n) == Some(p) && p in g.adj
    requires Shaped(Relax(s, cost, n, p, g.adj[p]), n)
    ensures TakenOptimal(g, cost, n, root, Relax(s, cost, n, p, g.adj[p]))
  {
    var s' := Relax(s, cost, n, p, g.adj[p]);
    TakenUnchanged(s, cost, n, p, g.adj[p]);
    forall x, w | x in s'.order && IsLinkWalk(g.edges, w, root, x)
      ensures AtMost(s'.dist[x], WalkCost(cost, w))
    {
      if x == p {
        PickedOptimal(g, cost, n, root, s, p, w);
      }
    }
  }

  /** One iteration of the loop keeps the invariant. */
  lemma StepInv(g: Graph, cost: seq<seq<Cost>>, n: nat, root: int, s: Search, p: int)
    requires Inv(g, cost, n, root, s) && Pick(s.dist, s.order, n) == Some(p) && p in g.adj
    ensures Inv(g, cost, n, root, Relax(s, cost, n, p, g.adj[p]))
  {
    StepShaped(g, cost, n, root, s, p);
    StepHops(g, cost, n, root, s, p);
    StepEarlier(g, cost, n, root, s, p);
    StepFirst(g, cost, n, root, s, p);
    StepRelaxed(g, cost, n, root, s, p);
    StepOptimal(g, cost, n, root, s, p);
  }

  /** The state before the loop satisfies the invariant. */
  lemma InitialInv(g: Graph, cost: seq<seq<Cost>>, n: nat, root: int)
    requires Setting(g, cost, n, root)
    ensures Inv(g, cost, n, root, Initial(n, root))
  {
  }

  /* ---------------------------------------------------------------------
     Following next hops
     --------------------------------------------------------------------- */

  function Reversed(xs: seq<int>): (r: seq<int>)
    ensures |r| == |xs|
  {
    if xs == [] then [] else Reversed(xs[1..]) + [xs[0]]
  }

  /** Following next hops from `v` reaches the root within `k` hops, and
      the nodes met, read backwards, are a walk from the root to `v` that
      costs exactly `v`'s distance. */
  ghost predicate HopWalk(g: Graph, cost: seq<seq<Cost>>, root: int, dist: seq<Cost>, pred: seq<int>, v: int, k: nat)
    requires 0 <= v < |dist|
  {
    && Follow(pred, v, root, k).Some?
    && var w := Reversed(Follow(pred, v, root, k).value + [root]);
       IsLinkWalk(g.edges, w, root, v) && WalkCost(cost, w) == dist[v]
  }

  /** More fuel does not change a chain that already reached the root. */
  lemma {:induction false} FollowMore(pred: seq<int>, v: int, root: int, k: nat, k': nat)
    requires k <= k' && Follow(pred, v, root, k).Some?
    ensures Follow(pred, v, root, k') == Follow(pred, v, root, k)
    decreases k
  {
    if v != root {
      FollowMore(pred, pred[v], root, k - 1, k' - 1);
    }
  }

  lemma HopWalkMore(g: Graph, cost: seq<seq<Cost>>, root: int, dist: seq<Cost>, pred: seq<int>, v: int, k: nat, k': nat)
    requires 0 <= v < |dist| && k <= k' && HopWalk(g, cost, root, dist, pred, v, k)
    ensures HopWalk(g, cost, root, dist, pred, v, k')
  {
    FollowMore(pred, v, root, k, k');
  }

  /** The root's chain is empty and its walk is the root alone. */
  lemma HopWalkRoot(g: Graph, cost: seq<seq<Cost>>, n: nat, root: int, s: Search, k: nat)
    requires Setting(g, cost, n, root) && Shaped(s, n) && RootKept(s, n, root)
    ensures HopWalk(g, cost, root, s.dist, s.pred, root, k)
  {
    assert Reversed([root]) == [root];
  }

  /** A reached node's chain is one hop to its next hop's chain. */
  lemma HopWalkStep(g: Graph, cost: seq<seq<Cost>>, n: nat, root: int, dist: seq<Cost>, pred: seq<int>, v: int, k: nat)
    requires EdgesWithin(g.edges, n) && Square(cost, n) && |dist| == n && |pred| == n
    requires 0 <= v < n && v != root && 0 <= pred[v] < n && Linked(g.edges, pred[v], v)
    requires dist[v] == Plus(dist[pred[v]], cost[pred[v]][v])
    requires k >= 1 && HopWalk(g, cost, root, dist, pred, pred[v], k - 1)
    ensures HopWalk(g, cost, root, dist, pred, v, k)
  {
    var p := pred[v];
    var rest := Follow(pred, p, root, k - 1).value;
    assert Follow(pred, v, root, k) == Some([v] + rest);
    var w' := Reversed(rest + [root]);
    assert ([v] + rest + [root])[1..] == rest + [root];
    assert Reversed([v] + rest + [root]) == w' + [v];
    WalkExtend(g.edges, w', root, p, v);
    WalkCostExtend(cost, w', v);
  }

  /** A chain of `j` hops from the next hop gives one of `i > j` hops. */
  lemma HopWalkVia(g: Graph, cost: seq<seq<Cost>>, n: nat, root: int, dist: seq<Cost>, pred: seq<int>, v: int, j: nat, i: nat)
    requires EdgesWithin(g.edges, n) && Square(cost, n) && |dist| == n && |pred| == n
    requires 0 <= v < n && v != root && 0 <= pred[v] < n && Linked(g.edges, pred[v], v)
    requires dist[v] == Plus(dist[pred[v]], cost[pred[v]][v])
    requires j < i && HopWalk(g, cost, root, dist, pred, pred[v], j)
    ensures HopWalk(g, cost, root, dist, pred, v, i)
  {
    HopWalkMore(g, cost, root, dist, pred, pred[v], j, i - 1);
    HopWalkStep(g, cost, n, root, dist, pred, v, i);
  }

  /** The chain from the `i`-th taken node reaches the root within `i` hops. */
  lemma {:induction false} HopWalkTaken(g: Graph, cost: seq<seq<Cost>>, n: nat, root: int, s: Search, i: nat)
    requires Setting(g, cost, n, root) && Shaped(s, n) && RootKept(s, n, root)
    requires HopsOk(g, cost, n, root, s) && HopsEarlier(s, n, root)
    requires i < |s.order|
    ensures HopWalk(g, cost, root, s.dist, s.pred, s.order[i], i)
    decreases i
  {
    var v := s.order[i];
    if v == root {
      HopWalkRoot(g, cost, n, root, s, i);
    } else {
      assert s.order[0] == root;
      assert 0 <= v < n && s.dist[v].Fin?;
      var p := s.pred[v];
      assert Linked(g.edges, p, v) && s.dist[v] == Plus(s.dist[p], cost[p][v]);
      assert p in s.order[..i];
      var j :| 0 <= j < i && s.order[j] == p;
      assert 0 <= p < n;
      HopWalkTaken(g, cost, n, root, s, j);
      HopWalkVia(g, cost, n, root, s.dist, s.pred, v, j, i);
    }
  }

  /** Every reached node's chain reaches the root, within as many hops as
      there are taken nodes. */
  lemma HopWalkReached(g: Graph, cost: seq<seq<Cost>>, n: nat, root: int, s: Search, v: int)
    requires Setting(g, cost, n, root) && Shaped(s, n) && RootKept(s, n, root)
    requires HopsOk(g, cost, n, root, s) && HopsEarlier(s, n, root)
    requires 0 <= v < n && s.dist[v].Fin?
    ensures HopWalk(g, cost, root, s.dist, s.pred, v, |s.order|)
  {
    if v == root {
      HopWalkRoot(g, cost, n, root, s, |s.order|);
    } else if v in s.order {
      var i :| 0 <= i < |s.order| && s.order[i] == v;
      HopWalkTaken(g, cost, n, root, s, i);
      HopWalkMore(g, cost, root, s.dist, s.pred, v, i, |s.order|);
    } else {
      var p := s.pred[v];
      assert p in s.order && Linked(g.edges, p, v) && s.dist[v] == Plus(s.dist[p], cost[p][v]);
      var j :| 0 <= j < |s.order| && s.order[j] == p;
      assert 0 <= p < n;
      HopWalkTaken(g, cost, n, root, s, j);
      HopWalkVia(g, cost, n, root, s.dist, s.pred, v, j, |s.order|);
    }
  }

  lemma {:induction false} DistinctCard(xs: seq<int>)
    requires forall i, j :: 0 <= i < j < |xs| ==> xs[i] != xs[j]
    ensures |set x | x in xs| == |xs|
    decreases |xs|
  {
    if xs != [] {
      var init := xs[..|xs| - 1];
      DistinctCard(init);
      assert (set x | x in xs) == (set x | x in init) + {xs[|xs| - 1]};
    }
  }

  /** A set of ids below `n` has at most `n` elements. */
  lemma {:induction false} BoundedCard(a: set<int>, n: nat)
    requires forall x :: x in a ==> 0 <= x < n
    ensures |a| <= n
    decreases n
  {
    if n == 0 {
      assert forall x :: x !in a;
      assert a == {};
    } else {
      BoundedCard(a - {n - 1}, n - 1);
    }
  }

  /** At most `n` nodes are ever taken. */
  lemma TakenAtMost(s: Search, n: nat)
    requires Shaped(s, n) && OrderDistinct(s)
    ensures |s.order| <= n
  {
    DistinctCard(s.order);
    BoundedCard((set x | x in s.order), n);
  }

  /* ---------------------------------------------------------------------
     When the queue runs dry
     --------------------------------------------------------------------- */

  /** The taken nodes are closed under edges. */
  lemma FinalClosed(g: Graph, cost: seq<seq<Cost>>, n: nat, root: int, s: Search, x: int, y: int)
    requires Setting(g, cost, n, root) && Shaped(s, n) && TakenRelaxed(g, cost, n, s)
    requires Pick(s.dist, s.order, n) == None
    requires x in s.order && Linked(g.edges, x, y)
    ensures y in s.order
  {
    LinkedWithin(g.edges, n, x, y);
    assert AtMost(s.dist[y], Plus(s.dist[x], cost[x][y]));
  }

  /** Every node a walk from the root reaches has been taken. */
  lemma {:induction false} WalkTaken(g: Graph, cost: seq<seq<Cost>>, n: nat, root: int, s: Search, w: seq<int>, v: int)
    requires Setting(g, cost, n, root) && Shaped(s, n) && RootKept(s, n, root) && TakenRelaxed(g, cost, n, s)
    requires Pick(s.dist, s.order, n) == None
    requires IsLinkWalk(g.edges, w, root, v)
    ensures v in s.order
    decreases |w|
  {
    if |w| == 1 {
      assert s.dist[root].Fin?;
    } else {
      var x := w[|w| - 2];
      WalkPrefix(g.edges, w, root, v, |w| - 1);
      WalkTaken(g, cost, n, root, s, w[..|w| - 1], x);
      FinalClosed(g, cost, n, root, s, x, v);
    }
  }

  /** What the `distance` row and the `next` column of one search promise:
      the root at 0 with no next hop; a finite distance exactly for the
      nodes connected to the root; no next hop for the others; for the
      rest a next hop that is a neighbour one step closer; no walk
      cheaper than the distance; and a chain of next hops that reaches
      the root within `n - 1` hops along a walk of exactly that cost. */
  ghost predicate ShortestPathTree(g: Graph, cost: seq<seq<Cost>>, n: nat, root: int, dist: seq<Cost>, pred: seq<int>)
    requires Square(cost, n) && 0 <= root < n
  {
    && |dist| == n && |pred| == n
    && dist[root] == Fin(0) && pred[root] == NoNode
    && (forall v :: 0 <= v < n ==> (dist[v].Fin? <==> Connected(g.edges, root, v)))
    && (forall v :: 0 <= v < n && dist[v].Inf? ==> pred[v] == NoNode)
    && (forall v :: 0 <= v < n && v != root && dist[v].Fin? ==>
          0 <= pred[v] < n && Linked(g.edges, pred[v], v)
          && dist[v] == Plus(dist[pred[v]], cost[pred[v]][v]))
    && (forall v, w :: 0 <= v < n && IsLinkWalk(g.edges, w, root, v) ==> AtMost(dist[v], WalkCost(cost, w)))
    && (forall v :: 0 <= v < n && dist[v].Fin? ==> HopWalk(g, cost, root, dist, pred, v, n - 1))
  }

  /** The state the loop ends in is a shortest-path tree. */
  lemma FinalSpec(g: Graph, cost: seq<seq<Cost>>, n: nat, root: int, s: Search)
    requires Inv(g, cost, n, root, s) && Pick(s.dist, s.order, n) == None
    ensures ShortestPathTree(g, cost, n, root, s.dist, s.pred)
  {
    FinalReached(g, cost, n, root, s);
    FinalOptimal(g, cost, n, root, s);
    FinalHops(g, cost, n, root, s);
  }

  lemma FinalReached(g: Graph, cost: seq<seq<Cost>>, n: nat, root: int, s: Search)
    requires Setting(g, cost, n, root) && Shaped(s, n) && RootKept(s, n, root)
    requires HopsOk(g, cost, n, root, s) && HopsEarlier(s, n, root) && TakenRelaxed(g, cost, n, s)
    requires Pick(s.dist, s.order, n) == None
    ensures forall v :: 0 <= v < n ==> (s.dist[v].Fin? <==> Connected(g.edges, root, v))
  {
    forall v | 0 <= v < n
      ensures s.dist[v].Fin? <==> Connected(g.edges, root, v)
    {
      if s.dist[v].Fin? {
        HopWalkReached(g, cost, n, root, s, v);
      }
      if Connected(g.edges, root, v) {
        var w :| IsLinkWalk(g.edges, w, root, v);
        WalkTaken(g, cost, n, root, s, w, v);
      }
    }
  }

  lemma FinalOptimal(g: Graph, cost: seq<seq<Cost>>, n: nat, root: int, s: Search)
    requires Setting(g, cost, n, root) && Shaped(s, n) && RootKept(s, n, root)
    requires TakenRelaxed(g, cost, n, s) && TakenOptimal(g, cost, n, root, s)
    requires Pick(s.dist, s.order, n) == None
    ensures forall v, w :: 0 <= v < n && IsLinkWalk(g.edges, w, root, v) ==> AtMost(s.dist[v], WalkCost(cost, w))
  {
    forall v, w | 0 <= v < n && IsLinkWalk(g.edges, w, root, v)
      ensures AtMost(s.dist[v], WalkCost(cost, w))
    {
      WalkTaken(g, cost, n, root, s, w, v);
    }
  }

  lemma FinalHops(g: Graph, cost: seq<seq<Cost>>, n: nat, root: int, s: Search)
    requires Setting(g, cost, n, root) && Shaped(s, n) && RootKept(s, n, root) && OrderDistinct(s)
    requires HopsOk(g, cost, n, root, s) && HopsEarlier(s, n, root)
    requires Pick(s.dist, s.order, n) == None
    ensures forall v :: 0 <= v < n && s.dist[v].Fin? ==> HopWalk(g, cost, root, s.dist, s.pred, v, n - 1)
  {
    TakenAtMost(s, n);
    TakenHopWalks(g, cost, n, root, s);
    assert forall v :: 0 <= v < n && s.dist[v].Fin? ==> v in s.order;
    HopWalksOfOrder(g, cost, n, root, s.dist, s.pred, s.order);
  }

  /** Every taken node's chain, within its position's count of hops. */
  lemma TakenHopWalks(g: Graph, cost: seq<seq<Cost>>, n: nat, root: int, s: Search)
    requires Setting(g, cost, n, root) && Shaped(s, n) && RootKept(s, n, root)
    requires HopsOk(g, cost, n, root, s) && HopsEarlier(s, n, root)
    ensures forall i :: 0 <= i < |s.order| ==> HopWalk(g, cost, root, s.dist, s.pred, s.order[i], i)
  {
    forall i | 0 <= i < |s.order|
      ensures HopWalk(g, cost, root, s.dist, s.pred, s.order[i], i)
    {
      HopWalkTaken(g, cost, n, root, s, i);
    }
  }

  /** When the reached nodes are all taken, at most `n` of them, every
      reached node's chain fits in `n - 1` hops. */
  lemma HopWalksOfOrder(g: Graph, cost: seq<seq<Cost>>, n: nat, root: int, dist: seq<Cost>, pred: seq<int>, order: seq<int>)
    requires |dist| == n && |order| <= n
    requires forall i :: 0 <= i < |order| ==> 0 <= order[i] < n
    requires forall i :: 0 <= i < |order| ==> HopWalk(g, cost, root, dist, pred, order[i], i)
    requires forall v :: 0 <= v < n && dist[v].Fin? ==> v in order
    ensures forall v :: 0 <= v < n && dist[v].Fin? ==> HopWalk(g, cost, root, dist, pred, v, n - 1)
  {
    var walk := (v: int, k: nat) => 0 <= v < n && HopWalk(g, cost, root, dist, pred, v, k);
    forall v: int, k: nat, k': nat | walk(v, k) && k <= k'
      ensures walk(v, k')
    {
      HopWalkMore(g, cost, root, dist, pred, v, k, k');
    }
    var reached := v => 0 <= v < n && dist[v].Fin?;
    LateWithin(walk, n, reached, order);
    forall v | 0 <= v < n && dist[v].Fin?
      ensures HopWalk(g, cost, root, dist, pred, v, n - 1)
    {
      assert reached(v) && walk(v, n - 1);
    }
  }

  /** A property of a node and a bound that holds for larger bounds once it
      holds, and holds for the `i`-th node of `order` with bound `i`, holds
      with bound `n - 1` for every node of `order`, which has at most `n`
      nodes. */
  lemma LateWithin(walk: (int, nat) -> bool, n: nat, reached: int -> bool, order: seq<int>)
    requires |order| <= n
    requires forall i :: 0 <= i < |order| ==> walk(order[i], i)
    requires forall v: int, k: nat, k': nat :: walk(v, k) && k <= k' ==> walk(v, k')
    requires forall v :: reached(v) ==> v in order
    ensures forall v :: reached(v) ==> walk(v, n - 1)
  {
    forall v | reached(v)
      ensures walk(v, n - 1)
    {
      var i :| 0 <= i < |order| && order[i] == v;
      assert walk(order[i], i);
    }
  }

  /** Induction over the loop for any property of the search state that
      every step keeps: it holds when the loop ends, with an empty queue. */
  lemma {:induction false} RunInduction(g: Graph, cost: seq<seq<Cost>>, n: nat, s: Search, keep: Search -> bool)
    requires |s.dist| == n && |s.pred| == n && Square(cost, n) && keep(s)
    requires forall t: Search, p: int ::
               |t.dist| == n && |t.pred| == n && keep(t) && Pick(t.dist, t.order, n) == Some(p) && p in g.adj
               ==> keep(Relax(t, cost, n, p, g.adj[p]))
    ensures Run(g, cost, n, s).Ok? ==>
      keep(Run(g, cost, n, s).value) && Pick(Run(g, cost, n, s).value.dist, Run(g, cost, n, s).value.order, n) == None
    decreases |Unsettled(s.order, n)|
  {
    match Pick(s.dist, s.order, n)
    case None =>
    case Some(p) =>
      if p in g.adj {
        assert Unsettled(s.order, n) == Unsettled(s.order + [p], n) + {p};
        RunInduction(g, cost, n, Relax(s, cost, n, p, g.adj[p]), keep);
      }
  }

  /** The loop keeps the invariant and ends with an empty queue. */
  lemma RunKeepsInv(g: Graph, cost: seq<seq<Cost>>, n: nat, root: int, s: Search)
    requires Inv(g, cost, n, root, s)
    ensures Run(g, cost, n, s).Ok? ==>
      Inv(g, cost, n, root, Run(g, cost, n, s).value)
      && Pick(Run(g, cost, n, s).value.dist, Run(g, cost, n, s).value.order, n) == None
  {
    var keep := (t: Search) => Inv(g, cost, n, root, t);
    forall t: Search, p: int |
      |t.dist| == n && |t.pred| == n && keep(t) && Pick(t.dist, t.order, n) == Some(p) && p in g.adj
      ensures keep(Relax(t, cost, n, p, g.adj[p]))
    {
      StepInv(g, cost, n, root, t, p);
    }
    RunInduction(g, cost, n, s, keep);
  }

  /** The loop ends without failing when a property that every step keeps
      also guarantees that the node taken has an adjacency entry. */
  lemma {:induction false} RunCompletes(g: Graph, cost: seq<seq<Cost>>, n: nat, s: Search, keep: Search -> bool)
    requires |s.dist| == n && |s.pred| == n && Square(cost, n) && keep(s)
    requires forall t: Search, p: int ::
               |t.dist| == n && |t.pred| == n && keep(t) && Pick(t.dist, t.order, n) == Some(p)
               ==> p in g.adj && keep(Relax(t, cost, n, p, g.adj[p]))
    ensures Run(g, cost, n, s).Ok?
    decreases |Unsettled(s.order, n)|
  {
    match Pick(s.dist, s.order, n)
    case None =>
    case Some(p) =>
      assert Unsettled(s.order, n) == Unsettled(s.order + [p], n) + {p};
      RunCompletes(g, cost, n, Relax(s, cost, n, p, g.adj[p]), keep);
  }

  /** The loop fails only when it takes a node with no adjacency entry, and
      every node it takes is connected to the root; so it succeeds when
      every node connected to the root has an entry. */
  lemma RunSucceeds(g: Graph, cost: seq<seq<Cost>>, n: nat, root: int, s: Search)
    requires Inv(g, cost, n, root, s)
    ensures (forall v :: 0 <= v < n && Connected(g.edges, root, v) ==> v in g.adj) ==> Run(g, cost, n, s).Ok?
  {
    if forall v :: 0 <= v < n && Connected(g.edges, root, v) ==> v in g.adj {
      var keep := (t: Search) => Inv(g, cost, n, root, t);
      forall t: Search, p: int |
        |t.dist| == n && |t.pred| == n && keep(t) && Pick(t.dist, t.order, n) == Some(p)
        ensures p in g.adj && keep(Relax(t, cost, n, p, g.adj[p]))
      {
        HopWalkReached(g, cost, n, root, t, p);
        StepInv(g, cost, n, root, t, p);
      }
      RunCompletes(g, cost, n, s, keep);
    }
  }

  /** The loop ends with the invariant and an empty queue, and it ends
      without failing when every node connected to the root has an
      adjacency entry. */
  lemma RunSpec(g: Graph, cost: seq<seq<Cost>>, n: nat, root: int, s: Search)
    requires Inv(g, cost, n, root, s)
    ensures Run(g, cost, n, s).Ok? ==>
      Inv(g, cost, n, root, Run(g, cost, n, s).value)
      && Pick(Run(g, cost, n, s).value.dist, Run(g, cost, n, s).value.order, n) == None
    ensures (forall v :: 0 <= v < n && Connected(g.edges, root, v) ==> v in g.adj) ==> Run(g, cost, n, s).Ok?
  {
    RunKeepsInv(g, cost, n, root, s);
    RunSucceeds(g, cost, n, root, s);
  }

  /** One search of tsp.cc:134-154 succeeds exactly when every node
      connected to the root has an adjacency entry, and then fills a
      shortest-path tree. */
  lemma ShortestFromSpec(g: Graph, cost: seq<seq<Cost>>, n: nat, root: int)
    requires Setting(g, cost, n, root)
    ensures ShortestFrom(g, cost, n, root).Ok?
        <==> forall v :: 0 <= v < n && Connected(g.edges, root, v) ==> v in g.adj
    ensures ShortestFrom(g, cost, n, root).Ok? ==>
      var s := ShortestFrom(g, cost, n, root).value;
      ShortestPathTree(g, cost, n, root, s.dist, s.pred)
  {
    InitialInv(g, cost, n, root);
    RunSpec(g, cost, n, root, Initial(n, root));
    var r := ShortestFrom(g, cost, n, root);
    if r.Ok? {
      FinalSpec(g, cost, n, root, r.value);
      forall v | 0 <= v < n && Connected(g.edges, root, v)
        ensures v in g.adj
      {
        var w :| IsLinkWalk(g.edges, w, root, v);
        WalkTaken(g, cost, n, root, r.value, w, v);
      }
    }
  }
}
