/** `std::set<int>` and `std::set<std::pair<int, int>>` as strictly
    increasing sequences: membership is `in`, and a range-for visits the
    elements in sequence order, which is the container's order. */
module OrderedSets {
  import opened Records

  predicate IntsIncreasing(xs: seq<int>) {
    forall i, j :: 0 <= i < j < |xs| ==> xs[i] < xs[j]
  }

  /** `std::set<int>::insert`. */
  function InsertInt(xs: seq<int>, v: int): (r: seq<int>)
    requires IntsIncreasing(xs)
    ensures IntsIncreasing(r)
    ensures forall x :: x in r <==> x in xs || x == v
    ensures v in xs ==> r == xs
    decreases |xs|, 1
  {
    if xs == [] then [v]
    else if v < xs[0] then [v] + xs
    else if v == xs[0] then xs
    else
      var rest := InsertInt(xs[1..], v);
      InsertedAbove(xs, v);
      [xs[0]] + rest
  }

  /** Inserting a value above the head into the tail keeps every element
      above the head. */
  lemma InsertedAbove(xs: seq<int>, v: int)
    requires IntsIncreasing(xs) && xs != [] && xs[0] < v
    ensures forall k :: 0 <= k < |InsertInt(xs[1..], v)| ==> xs[0] < InsertInt(xs[1..], v)[k]
    decreases |xs|, 0
  {
    var rest := InsertInt(xs[1..], v);
    forall k | 0 <= k < |rest|
      ensures xs[0] < rest[k]
    {
      assert rest[k] in rest;
      if rest[k] != v {
        var i :| 0 <= i < |xs[1..]| && xs[1..][i] == rest[k];
        assert xs[i + 1] == rest[k];
      }
    }
  }

  /** The order of `std::pair<int, int>`: first components, then second. */
  predicate EdgeLess(a: Edge, b: Edge) {
    a.0 < b.0 || (a.0 == b.0 && a.1 < b.1)
  }

  predicate EdgesIncreasing(es: seq<Edge>) {
    forall i, j :: 0 <= i < j < |es| ==> EdgeLess(es[i], es[j])
  }

  /** `std::set<Edge>::insert`. */
  function InsertEdge(es: seq<Edge>, e: Edge): (r: seq<Edge>)
    requires EdgesIncreasing(es)
    ensures EdgesIncreasing(r)
    ensures forall x :: x in r <==> x in es || x == e
    ensures e in es ==> r == es
    decreases |es|, 1
  {
    if es == [] then [e]
    else if EdgeLess(e, es[0]) then [e] + es
    else if e == es[0] then es
    else
      var rest := InsertEdge(es[1..], e);
      EdgeInsertedAbove(es, e);
      [es[0]] + rest
  }

  lemma EdgeInsertedAbove(es: seq<Edge>, e: Edge)
    requires EdgesIncreasing(es) && es != [] && EdgeLess(es[0], e)
    ensures forall k :: 0 <= k < |InsertEdge(es[1..], e)| ==> EdgeLess(es[0], InsertEdge(es[1..], e)[k])
    decreases |es|, 0
  {
    var rest := InsertEdge(es[1..], e);
    forall k | 0 <= k < |rest|
      ensures EdgeLess(es[0], rest[k])
    {
      assert rest[k] in rest;
      if rest[k] != e {
        var i :| 0 <= i < |es[1..]| && es[1..][i] == rest[k];
        assert es[i + 1] == rest[k];
      }
    }
  }

  lemma HeadIsMember<T>(xs: seq<T>)
    ensures |xs| > 0 ==> xs[0] in xs
  {
  }

  /** An ordered container is fixed by its elements: two increasing
      sequences with the same members are equal. */
  lemma {:induction false} EdgesIncreasingUnique(xs: seq<Edge>, ys: seq<Edge>)
    requires EdgesIncreasing(xs) && EdgesIncreasing(ys)
    requires forall e :: e in xs <==> e in ys
    ensures xs == ys
    decreases |xs|
  {
    if xs != [] {
      assert xs[0] in ys;
      assert ys != [] && ys[0] in xs;
      assert xs[0] == ys[0];
      forall e
        ensures e in xs[1..] <==> e in ys[1..]
      {
        if e in xs[1..] {
          var i :| 1 <= i < |xs| && xs[i] == e;
          assert EdgeLess(xs[0], xs[i]);
          assert e in ys && e != ys[0];
          var j :| 0 <= j < |ys| && ys[j] == e;
          assert j != 0;
          assert e == ys[1..][j - 1];
        }
        if e in ys[1..] {
          var j :| 1 <= j < |ys| && ys[j] == e;
          assert EdgeLess(ys[0], ys[j]);
          assert e in xs && e != xs[0];
          var i :| 0 <= i < |xs| && xs[i] == e;
          assert i != 0;
          assert e == xs[1..][i - 1];
        }
      }
      EdgesIncreasingUnique(xs[1..], ys[1..]);
    } else {
      HeadIsMember(ys);
    }
  }
}
