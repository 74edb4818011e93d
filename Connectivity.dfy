// Connectivity of an undirected edge list over the vertices 0 .. n-1, given
// two ways: by walks along edges, and by a labelling that merges the two
// endpoints' classes edge by edge. The two are proved to agree; the labelling
// is what the Kruskal loop is checked against.

module Connectivity {
  import opened Edges

  /** Both endpoints of e are vertex indices below n. */
  predicate ValidEdge(n: int, e: Edge)
  {
    0 <= e.source < n && 0 <= e.destination < n
  }

  predicate ValidEdges(n: int, es: seq<Edge>)
  {
    forall e | e in es :: ValidEdge(n, e)
  }

  // ---------------------------------------------------------------------
  // Walks

  /** Some edge of es joins a and b, in either direction. */
  ghost predicate Joins(es: seq<Edge>, a: int, b: int)
  {
    exists e :: e in es && ((e.source == a && e.destination == b) || (e.source == b && e.destination == a))
  }

  /** w is a non-empty vertex sequence whose consecutive vertices are joined by edges of es. */
  ghost predicate IsWalk(es: seq<Edge>, w: seq<int>)
  {
    |w| > 0 && forall k :: 0 <= k < |w| - 1 ==> Joins(es, w[k], w[k + 1])
  }

  /** y can be reached from x along the edges of es. */
  ghost predicate Reachable(es: seq<Edge>, x: int, y: int)
  {
    exists w :: IsWalk(es, w) && w[0] == x && w[|w| - 1] == y
  }

  lemma ReachableRefl(es: seq<Edge>, x: int)
    ensures Reachable(es, x, x)
  {
    assert IsWalk(es, [x]);
  }

  lemma ReachableEdge(es: seq<Edge>, e: Edge)
    requires e in es
    ensures Reachable(es, e.source, e.destination)
    ensures Reachable(es, e.destination, e.source)
  {
    assert IsWalk(es, [e.source, e.destination]);
    assert IsWalk(es, [e.destination, e.source]);
  }

  lemma ReachableTrans(es: seq<Edge>, x: int, y: int, z: int)
    requires Reachable(es, x, y) && Reachable(es, y, z)
    ensures Reachable(es, x, z)
  {
    var w1 :| IsWalk(es, w1) && w1[0] == x && w1[|w1| - 1] == y;
    var w2 :| IsWalk(es, w2) && w2[0] == y && w2[|w2| - 1] == z;
    var w := w1 + w2[1..];
    forall k | 0 <= k < |w| - 1
      ensures Joins(es, w[k], w[k + 1])
    {
      if k < |w1| - 1 {
        assert w[k] == w1[k] && w[k + 1] == w1[k + 1];
      } else {
        var j := k - |w1| + 1;
        assert w[k] == w2[j] && w[k + 1] == w2[j + 1];
      }
    }
    assert IsWalk(es, w);
  }

  /** Adding edges keeps every walk a walk. */
  lemma ReachableMono(es: seq<Edge>, more: seq<Edge>, x: int, y: int)
    requires forall e | e in es :: e in more
    requires Reachable(es, x, y)
    ensures Reachable(more, x, y)
  {
    var w :| IsWalk(es, w) && w[0] == x && w[|w| - 1] == y;
    forall k | 0 <= k < |w| - 1
      ensures Joins(more, w[k], w[k + 1])
    {
      assert Joins(es, w[k], w[k + 1]);
    }
    assert IsWalk(more, w);
  }

  // ---------------------------------------------------------------------
  // Labelling

  /** Relabels every vertex in e.source's class with e.destination's label. */
  function Merge(lab: seq<int>, e: Edge): (r: seq<int>)
    requires 0 <= e.source < |lab| && 0 <= e.destination < |lab|
    ensures |r| == |lab|
  {
    seq(|lab|, i requires 0 <= i < |lab| => if lab[i] == lab[e.source] then lab[e.destination] else lab[i])
  }

  /** Every vertex labelled by itself. */
  function Identity(n: nat): (lab: seq<int>)
    ensures |lab| == n && forall i :: 0 <= i < n ==> lab[i] == i
  {
    seq(n, i => i)
  }

  /** Starting from singleton labels, merges the endpoints' classes of each edge in order. */
  function Label(n: nat, es: seq<Edge>): (lab: seq<int>)
    requires ValidEdges(n, es)
    ensures |lab| == n
    ensures forall i :: 0 <= i < n ==> 0 <= lab[i] < n
    decreases |es|
  {
    if es == [] then Identity(n)
    else
      var init := es[..|es| - 1];
      assert forall e | e in init :: e in es;
      assert es[|es| - 1] in es;
      Merge(Label(n, init), es[|es| - 1])
  }

  /** x and y carry the same label once every edge of es has been merged. */
  predicate Connected(n: nat, es: seq<Edge>, x: int, y: int)
    requires ValidEdges(n, es) && 0 <= x < n && 0 <= y < n
  {
    Label(n, es)[x] == Label(n, es)[y]
  }

  lemma LabelAppend(n: nat, es: seq<Edge>, e: Edge)
    requires ValidEdges(n, es + [e])
    ensures ValidEdges(n, es) && ValidEdge(n, e)
    ensures Label(n, es + [e]) == Merge(Label(n, es), e)
  {
    assert (es + [e])[..|es|] == es;
    assert e in es + [e];
    assert forall f | f in es :: f in es + [e];
  }

  /** Adding edge (u, v) connects x and y exactly when they were connected, or one was connected to u and the other to v. */
  lemma ConnectedAppend(n: nat, es: seq<Edge>, e: Edge, x: int, y: int)
    requires ValidEdges(n, es + [e]) && 0 <= x < n && 0 <= y < n
    ensures ValidEdges(n, es) && ValidEdge(n, e)
    ensures Connected(n, es + [e], x, y) <==>
      Connected(n, es, x, y)
      || (Connected(n, es, x, e.source) && Connected(n, es, e.destination, y))
      || (Connected(n, es, x, e.destination) && Connected(n, es, e.source, y))
  {
    LabelAppend(n, es, e);
  }

  /** The endpoints of every edge of es are connected by es. */
  lemma {:induction false} EdgeConnected(n: nat, es: seq<Edge>, e: Edge)
    requires ValidEdges(n, es) && e in es
    ensures ValidEdge(n, e) && Connected(n, es, e.source, e.destination)
    decreases |es|
  {
    var init, last := es[..|es| - 1], es[|es| - 1];
    assert es == init + [last];
    LabelAppend(n, init, last);
    if e != last {
      assert e in init;
      EdgeConnected(n, init, e);
    }
  }

  /** The two ends of a walk carry the same label. */
  lemma {:induction false} WalkConnected(n: nat, es: seq<Edge>, w: seq<int>)
    requires ValidEdges(n, es) && IsWalk(es, w) && 0 <= w[0] < n
    ensures 0 <= w[|w| - 1] < n && Connected(n, es, w[0], w[|w| - 1])
    decreases |w|
  {
    if |w| > 1 {
      assert Joins(es, w[0], w[1]);
      var e :| e in es && ((e.source == w[0] && e.destination == w[1]) || (e.source == w[1] && e.destination == w[0]));
      EdgeConnected(n, es, e);
      var rest := w[1..];
      assert forall k :: 0 <= k < |rest| ==> rest[k] == w[k + 1];
      assert IsWalk(es, rest);
      WalkConnected(n, es, rest);
    }
  }

  /** Connected vertices are joined by a walk. */
  lemma {:induction false} ConnectedWalk(n: nat, es: seq<Edge>, x: int, y: int)
    requires ValidEdges(n, es) && 0 <= x < n && 0 <= y < n
    requires Connected(n, es, x, y)
    ensures Reachable(es, x, y)
    decreases |es|
  {
    if es == [] {
      ReachableRefl(es, x);
    } else {
      var init, e := es[..|es| - 1], es[|es| - 1];
      assert es == init + [e];
      assert forall f | f in init :: f in es;
      ConnectedAppend(n, init, e, x, y);
      var u, v := e.source, e.destination;
      if Connected(n, init, x, y) {
        ConnectedWalk(n, init, x, y);
        ReachableMono(init, es, x, y);
      } else if Connected(n, init, x, u) && Connected(n, init, v, y) {
        ConnectedWalk(n, init, x, u);
        ConnectedWalk(n, init, v, y);
        ReachableMono(init, es, x, u);
        ReachableMono(init, es, v, y);
        ReachableEdge(es, e);
        ReachableTrans(es, x, u, v);
        ReachableTrans(es, x, v, y);
      } else {
        ConnectedWalk(n, init, x, v);
        ConnectedWalk(n, init, u, y);
        ReachableMono(init, es, x, v);
        ReachableMono(init, es, u, y);
        ReachableEdge(es, e);
        ReachableTrans(es, x, v, u);
        ReachableTrans(es, x, u, y);
      }
    }
  }

  /** The labelling captures exactly reachability along the edges. */
  lemma ConnectedIffReachable(n: nat, es: seq<Edge>, x: int, y: int)
    requires ValidEdges(n, es) && 0 <= x < n && 0 <= y < n
    ensures Connected(n, es, x, y) <==> Reachable(es, x, y)
  {
    if Connected(n, es, x, y) {
      ConnectedWalk(n, es, x, y);
    }
    if Reachable(es, x, y) {
      var w :| IsWalk(es, w) && w[0] == x && w[|w| - 1] == y;
      WalkConnected(n, es, w);
    }
  }

  /** Reachability depends only on which edges are present, not on their order or multiplicity. */
  lemma ReachableSameEdges(es: seq<Edge>, other: seq<Edge>, x: int, y: int)
    requires forall e :: e in es <==> e in other
    ensures Reachable(es, x, y) <==> Reachable(other, x, y)
  {
    if Reachable(es, x, y) {
      ReachableMono(es, other, x, y);
    }
    if Reachable(other, x, y) {
      ReachableMono(other, es, x, y);
    }
  }

  // ---------------------------------------------------------------------
  // Counting components

  /** The number of distinct labels, that is, of connected components. */
  function Components(n: nat, es: seq<Edge>): nat
    requires ValidEdges(n, es)
  {
    |set l | l in Label(n, es)|
  }

  lemma {:induction false} IdentityLabels(n: nat)
    ensures |set l | l in Identity(n)| == n
  {
    if n > 0 {
      var s, t := Identity(n), Identity(n - 1);
      IdentityLabels(n - 1);
      assert s == t + [n - 1];
      assert (set l | l in s) == (set l | l in t) + {n - 1};
    }
  }

  /** With no edges every vertex is its own component. */
  lemma ComponentsNoEdges(n: nat)
    ensures Components(n, []) == n
  {
    IdentityLabels(n);
  }

  /** A graph with a vertex has a component. */
  lemma ComponentsPositive(n: nat, es: seq<Edge>)
    requires ValidEdges(n, es) && n > 0
    ensures Components(n, es) >= 1
  {
    var lab := Label(n, es);
    var labels := set l | l in lab;
    assert lab[0] in labels;
    assert labels == (labels - {lab[0]}) + {lab[0]};
  }

  /** An edge between two different components merges them into one. */
  lemma ComponentsAppend(n: nat, es: seq<Edge>, e: Edge)
    requires ValidEdges(n, es + [e])
    requires ValidEdges(n, es) && ValidEdge(n, e)
    requires !Connected(n, es, e.source, e.destination)
    ensures Components(n, es + [e]) == Components(n, es) - 1
  {
    LabelAppend(n, es, e);
    var lab, merged := Label(n, es), Label(n, es + [e]);
    var before := set l | l in lab;
    var after := set l | l in merged;
    forall l | l in after
      ensures l in before - {lab[e.source]}
    {
      var i :| 0 <= i < n && merged[i] == l;
      if lab[i] == lab[e.source] {
        assert l == lab[e.destination];
      } else {
        assert l == lab[i];
      }
    }
    forall l | l in before - {lab[e.source]}
      ensures l in after
    {
      var i :| 0 <= i < n && lab[i] == l;
      assert merged[i] == l;
    }
    assert after == before - {lab[e.source]};
    assert lab[e.source] in before;
  }

  /** No smaller vertex reaches i: i is the lowest-numbered vertex of its component. */
  ghost predicate IsLeader(es: seq<Edge>, i: int)
  {
    forall j :: 0 <= j < i ==> !Reachable(es, j, i)
  }

  /** One vertex per component: its lowest-numbered one. */
  ghost function ComponentLeaders(n: nat, es: seq<Edge>): set<int>
  {
    set i | 0 <= i < n && IsLeader(es, i)
  }

  /** Some element of a non-empty set. */
  lemma Pick(vs: set<int>) returns (x: int)
    requires vs != {}
    ensures x in vs
  {
    if forall y :: y !in vs {
      assert false;
    }
    x :| x in vs;
  }

  /** An injective labelling has as many labels as it labels vertices. */
  lemma {:induction false} InjectiveImage(vs: set<int>, lab: seq<int>)
    requires forall i | i in vs :: 0 <= i < |lab|
    requires forall i, j | i in vs && j in vs && lab[i] == lab[j] :: i == j
    ensures |set i | i in vs :: lab[i]| == |vs|
    decreases |vs|
  {
    if vs != {} {
      var x := Pick(vs);
      var rest := vs - {x};
      InjectiveImage(rest, lab);
      assert (set i | i in vs :: lab[i]) == (set i | i in rest :: lab[i]) + {lab[x]};
      assert lab[x] !in (set i | i in rest :: lab[i]);
    }
  }

  /** The first position at or after k holding label l, given that l sits at position i. */
  function FirstWith(lab: seq<int>, l: int, k: nat, i: nat): (j: nat)
    requires k <= i < |lab| && lab[i] == l
    requires forall m :: 0 <= m < k ==> lab[m] != l
    ensures j <= i && lab[j] == l && forall m :: 0 <= m < j ==> lab[m] != l
    decreases i - k
  {
    if lab[k] == l then k else FirstWith(lab, l, k + 1, i)
  }

  /** The lowest-numbered vertex of x's component is a leader carrying x's label. */
  lemma LeaderOf(n: nat, es: seq<Edge>, x: int) returns (j: int)
    requires ValidEdges(n, es) && 0 <= x < n
    ensures j in ComponentLeaders(n, es) && Label(n, es)[j] == Label(n, es)[x]
  {
    var lab := Label(n, es);
    j := FirstWith(lab, lab[x], 0, x);
    forall m | 0 <= m < j
      ensures !Reachable(es, m, j)
    {
      ConnectedIffReachable(n, es, m, j);
    }
    assert IsLeader(es, j);
  }

  /** Counting leaders counts labels: each component has one leader and one label. */
  lemma LeadersCountComponents(n: nat, es: seq<Edge>)
    requires ValidEdges(n, es)
    ensures |ComponentLeaders(n, es)| == Components(n, es)
  {
    var lab := Label(n, es);
    var leaders := ComponentLeaders(n, es);
    forall i, j | i in leaders && j in leaders && lab[i] == lab[j]
      ensures i == j
    {
      ConnectedIffReachable(n, es, i, j);
      ConnectedIffReachable(n, es, j, i);
    }
    InjectiveImage(leaders, lab);
    forall l | l in lab
      ensures l in set i | i in leaders :: lab[i]
    {
      var x :| 0 <= x < n && lab[x] == l;
      var j := LeaderOf(n, es, x);
    }
    assert (set i | i in leaders :: lab[i]) == (set l | l in lab);
  }

  /** A labelling takes no more values on a set than the set has elements. */
  lemma {:induction false} ImageBound(vs: set<int>, lab: seq<int>)
    requires forall i | i in vs :: 0 <= i < |lab|
    ensures |set i | i in vs :: lab[i]| <= |vs|
    decreases |vs|
  {
    if vs != {} {
      var x := Pick(vs);
      var rest := vs - {x};
      ImageBound(rest, lab);
      assert (set i | i in vs :: lab[i]) == (set i | i in rest :: lab[i]) + {lab[x]};
    }
  }

  /** A subset has no more elements than the whole. */
  lemma {:induction false} SubsetBound(a: set<int>, b: set<int>)
    requires a <= b
    ensures |a| <= |b|
    decreases |b|
  {
    if b != {} {
      var x := Pick(b);
      SubsetBound(a - {x}, b - {x});
      if x in a {
        assert a == (a - {x}) + {x};
      } else {
        assert a == a - {x};
      }
    }
  }

  /** If es connects everything that finer connects, es has no more components than finer. */
  lemma ComponentsCoarsen(n: nat, es: seq<Edge>, finer: seq<Edge>)
    requires ValidEdges(n, es) && ValidEdges(n, finer)
    requires forall x, y :: 0 <= x < n && 0 <= y < n && Connected(n, finer, x, y) ==> Connected(n, es, x, y)
    ensures Components(n, es) <= Components(n, finer)
  {
    var lab := Label(n, es);
    var leaders := ComponentLeaders(n, finer);
    var image := set i | i in leaders :: lab[i];
    LeadersCountComponents(n, finer);
    ImageBound(leaders, lab);
    forall l | l in lab
      ensures l in image
    {
      var x :| 0 <= x < n && lab[x] == l;
      var j := LeaderOf(n, finer, x);
      assert Connected(n, finer, j, x);
    }
    SubsetBound((set l | l in lab), image);
  }

  /** If es connects the endpoints of every edge of finer, it connects whatever finer connects. */
  lemma {:induction false} ConnectedRefine(n: nat, es: seq<Edge>, finer: seq<Edge>, x: int, y: int)
    requires ValidEdges(n, es) && ValidEdges(n, finer) && 0 <= x < n && 0 <= y < n
    requires forall e | e in finer :: Connected(n, es, e.source, e.destination)
    requires Connected(n, finer, x, y)
    ensures Connected(n, es, x, y)
    decreases |finer|
  {
    if finer != [] {
      var init, e := finer[..|finer| - 1], finer[|finer| - 1];
      assert finer == init + [e];
      assert forall f | f in init :: f in finer;
      assert e in finer;
      ConnectedAppend(n, init, e, x, y);
      var u, v := e.source, e.destination;
      if Connected(n, init, x, y) {
        ConnectedRefine(n, es, init, x, y);
      } else if Connected(n, init, x, u) && Connected(n, init, v, y) {
        ConnectedRefine(n, es, init, x, u);
        ConnectedRefine(n, es, init, v, y);
      } else {
        ConnectedRefine(n, es, init, x, v);
        ConnectedRefine(n, es, init, u, y);
      }
    }
  }
}
