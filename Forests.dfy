// Properties of an edge list read as a subgraph: it has no cycle, it has the
// same components as another edge list, it is a subsequence of another list.

module Forests {
  import opened Edges
  import opened Connectivity

  /** Edge j of es joins two vertices that the edges before it do not connect. */
  ghost predicate JoinsTwoTrees(es: seq<Edge>, j: int)
    requires 0 <= j < |es|
  {
    !Reachable(es[..j], es[j].source, es[j].destination)
  }

  /** No edge closes a cycle: each joins two vertices the earlier edges do not connect. */
  ghost predicate Acyclic(es: seq<Edge>)
  {
    forall j :: 0 <= j < |es| ==> JoinsTwoTrees(es, j)
  }

  /** Appending an edge between two unconnected vertices keeps the list acyclic. */
  lemma AcyclicAppend(n: nat, es: seq<Edge>, e: Edge)
    requires ValidEdges(n, es) && ValidEdge(n, e) && Acyclic(es)
    requires !Connected(n, es, e.source, e.destination)
    ensures Acyclic(es + [e])
  {
    ConnectedIffReachable(n, es, e.source, e.destination);
    var es' := es + [e];
    forall j | 0 <= j < |es'|
      ensures JoinsTwoTrees(es', j)
    {
      if j < |es| {
        assert JoinsTwoTrees(es, j);
        assert es'[..j] == es[..j] && es'[j] == es[j];
      } else {
        assert es'[..j] == es;
      }
    }
  }

  /** An acyclic edge list over n vertices leaves exactly n minus its length components. */
  lemma {:induction false} AcyclicEdgeCount(n: nat, es: seq<Edge>)
    requires ValidEdges(n, es) && Acyclic(es)
    ensures |es| + Components(n, es) == n
  {
    if es == [] {
      ComponentsNoEdges(n);
    } else {
      var init, e := es[..|es| - 1], es[|es| - 1];
      assert es == init + [e];
      assert forall f | f in init :: f in es;
      assert e in es;
      forall j | 0 <= j < |init|
        ensures JoinsTwoTrees(init, j)
      {
        assert JoinsTwoTrees(es, j);
        assert init[..j] == es[..j] && init[j] == es[j];
      }
      assert JoinsTwoTrees(es, |init|);
      assert es[..|init|] == init;
      ConnectedIffReachable(n, init, e.source, e.destination);
      AcyclicEdgeCount(n, init);
      ComponentsAppend(n, init, e);
    }
  }

  /** An acyclic edge list over n vertices has at most n - 1 edges, and none when n is 0. */
  lemma AcyclicBound(n: nat, es: seq<Edge>)
    requires ValidEdges(n, es) && Acyclic(es)
    ensures n == 0 ==> es == []
    ensures n > 0 ==> |es| <= n - 1
  {
    AcyclicEdgeCount(n, es);
    if n > 0 {
      ComponentsPositive(n, es);
    }
  }

  /** Two edge lists connect exactly the same pairs of vertices. */
  ghost predicate SameComponents(n: nat, a: seq<Edge>, b: seq<Edge>)
    requires ValidEdges(n, a) && ValidEdges(n, b)
  {
    forall x, y :: 0 <= x < n && 0 <= y < n ==> (Connected(n, a, x, y) <==> Connected(n, b, x, y))
  }

  /** Appending the same edge to both lists keeps their components equal. */
  lemma SameComponentsAccept(n: nat, a: seq<Edge>, b: seq<Edge>, e: Edge)
    requires ValidEdges(n, a) && ValidEdges(n, b) && ValidEdge(n, e)
    requires SameComponents(n, a, b)
    ensures ValidEdges(n, a + [e]) && ValidEdges(n, b + [e])
    ensures SameComponents(n, a + [e], b + [e])
  {
    forall x, y | 0 <= x < n && 0 <= y < n
      ensures Connected(n, a + [e], x, y) <==> Connected(n, b + [e], x, y)
    {
      ConnectedAppend(n, a, e, x, y);
      ConnectedAppend(n, b, e, x, y);
    }
  }

  /** An edge whose endpoints a already connects changes no component of b. */
  lemma SameComponentsReject(n: nat, a: seq<Edge>, b: seq<Edge>, e: Edge)
    requires ValidEdges(n, a) && ValidEdges(n, b) && ValidEdge(n, e)
    requires SameComponents(n, a, b) && Connected(n, a, e.source, e.destination)
    ensures ValidEdges(n, b + [e])
    ensures SameComponents(n, a, b + [e])
  {
    forall x, y | 0 <= x < n && 0 <= y < n
      ensures Connected(n, a, x, y) <==> Connected(n, b + [e], x, y)
    {
      ConnectedAppend(n, b, e, x, y);
    }
  }

  /** a[k] sits at position idx[k] of b, and the positions increase. */
  ghost predicate SubsequenceAt(a: seq<Edge>, b: seq<Edge>, idx: seq<int>)
  {
    |idx| == |a| &&
    (forall k :: 0 <= k < |idx| ==> 0 <= idx[k] < |b| && a[k] == b[idx[k]]) &&
    (forall k, l :: 0 <= k < l < |idx| ==> idx[k] < idx[l])
  }

  ghost predicate IsSubsequence(a: seq<Edge>, b: seq<Edge>)
  {
    exists idx :: SubsequenceAt(a, b, idx)
  }

  /** Scanning one more edge of b keeps a a subsequence, whether or not the edge is kept. */
  lemma SubsequenceExtend(a: seq<Edge>, b: seq<Edge>, e: Edge)
    requires IsSubsequence(a, b)
    ensures IsSubsequence(a, b + [e]) && IsSubsequence(a + [e], b + [e])
  {
    var idx :| SubsequenceAt(a, b, idx);
    assert SubsequenceAt(a, b + [e], idx);
    assert SubsequenceAt(a + [e], b + [e], idx + [|b|]);
  }

  /** A subsequence of a list sorted by weight is sorted by weight. */
  lemma SubsequenceSorted(a: seq<Edge>, b: seq<Edge>)
    requires IsSubsequence(a, b) && SortedByWeight(b)
    ensures SortedByWeight(a)
  {
    var idx :| SubsequenceAt(a, b, idx);
    forall i, j | 0 <= i < j < |a|
      ensures a[i].weight <= a[j].weight
    {
      assert idx[i] < idx[j];
    }
  }

  /** Every edge of a subsequence of b is an edge of b. */
  lemma SubsequenceMembers(a: seq<Edge>, b: seq<Edge>)
    requires IsSubsequence(a, b)
    ensures forall e | e in a :: e in b
  {
    var idx :| SubsequenceAt(a, b, idx);
    forall e | e in a
      ensures e in b
    {
      var k :| 0 <= k < |a| && a[k] == e;
      assert b[idx[k]] == e;
    }
  }

  /** Edges picked from the first k of a sorted list are no heavier than its k-th edge. */
  lemma SubsequenceNoHeavier(a: seq<Edge>, b: seq<Edge>, k: int)
    requires SortedByWeight(b) && 0 <= k < |b| && IsSubsequence(a, b[..k])
    ensures forall f | f in a :: f.weight <= b[k].weight
  {
    SubsequenceMembers(a, b[..k]);
    forall f | f in a
      ensures f.weight <= b[k].weight
    {
      var i :| 0 <= i < k && b[..k][i] == f;
      assert b[i] == f;
    }
  }

  /** The first k edges of a list form a subsequence of it. */
  lemma PrefixSubsequence(a: seq<Edge>, k: int)
    requires 0 <= k <= |a|
    ensures IsSubsequence(a[..k], a)
  {
    assert SubsequenceAt(a[..k], a, seq(k, i => i));
  }

  /** Dropping edges from an acyclic list, keeping the order of the rest, leaves it acyclic. */
  lemma AcyclicSubsequence(a: seq<Edge>, b: seq<Edge>)
    requires IsSubsequence(a, b) && Acyclic(b)
    ensures Acyclic(a)
  {
    var idx :| SubsequenceAt(a, b, idx);
    forall j | 0 <= j < |a|
      ensures JoinsTwoTrees(a, j)
    {
      assert JoinsTwoTrees(b, idx[j]);
      forall f | f in a[..j]
        ensures f in b[..idx[j]]
      {
        var k :| 0 <= k < j && a[k] == f;
        assert b[..idx[j]][idx[k]] == f;
      }
      if Reachable(a[..j], a[j].source, a[j].destination) {
        ReachableMono(a[..j], b[..idx[j]], a[j].source, a[j].destination);
      }
    }
  }

  /**
   * An acyclic list whose every edge joins two vertices already connected by
   * another acyclic list has no more edges than that list.
   */
  lemma AcyclicRefineBound(n: nat, es: seq<Edge>, finer: seq<Edge>)
    requires ValidEdges(n, es) && ValidEdges(n, finer) && Acyclic(es) && Acyclic(finer)
    requires forall e | e in finer :: Connected(n, es, e.source, e.destination)
    ensures |finer| <= |es|
  {
    forall x, y | 0 <= x < n && 0 <= y < n && Connected(n, finer, x, y)
      ensures Connected(n, es, x, y)
    {
      ConnectedRefine(n, es, finer, x, y);
    }
    ComponentsCoarsen(n, es, finer);
    AcyclicEdgeCount(n, es);
    AcyclicEdgeCount(n, finer);
  }
}
