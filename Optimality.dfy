// Why the forest Kruskal's scan returns has the least total weight among all
// spanning forests of the input: every input edge has its endpoints joined by
// forest edges no heavier than itself (the cycle property), so no acyclic set
// of input edges can hold more edges lighter than a given forest edge than the
// forest holds before it, and a sorted list that wins every such count weighs
// no more than any list of the same length.

module Optimality {
  import opened Edges
  import opened Connectivity
  import opened Forests

  /** The edges of es lighter than w, in their order in es. */
  function Below(es: seq<Edge>, w: int): (r: seq<Edge>)
    ensures |r| <= |es|
  {
    if es == [] then []
    else
      var init, last := es[..|es| - 1], es[|es| - 1];
      assert es == init + [last];
      Below(init, w) + (if last.weight < w then [last] else [])
  }

  /** The filter keeps exactly the edges lighter than w. */
  lemma {:induction false} BelowMembers(es: seq<Edge>, w: int)
    ensures forall e :: e in Below(es, w) <==> e in es && e.weight < w
    decreases |es|
  {
    if es != [] {
      var init, last := es[..|es| - 1], es[|es| - 1];
      BelowMembers(init, w);
      assert es == init + [last];
    }
  }

  /** Filtering a concatenation filters each part. */
  lemma {:induction false} BelowAppend(a: seq<Edge>, b: seq<Edge>, w: int)
    ensures Below(a + b, w) == Below(a, w) + Below(b, w)
    decreases |b|
  {
    if b == [] {
      assert a + b == a;
    } else {
      var init := b[..|b| - 1];
      assert (a + b)[..|a + b| - 1] == a + init;
      BelowAppend(a, init, w);
    }
  }

  /** When every edge is lighter than w the filter keeps them all. */
  lemma {:induction false} BelowAll(es: seq<Edge>, w: int)
    requires forall k :: 0 <= k < |es| ==> es[k].weight < w
    ensures |Below(es, w)| == |es|
    decreases |es|
  {
    if es != [] {
      var init := es[..|es| - 1];
      assert forall k :: 0 <= k < |init| ==> init[k] == es[k];
      BelowAll(init, w);
    }
  }

  /** The filter keeps the order of what it keeps. */
  lemma {:induction false} BelowSubsequence(es: seq<Edge>, w: int)
    ensures IsSubsequence(Below(es, w), es)
    decreases |es|
  {
    if es != [] {
      var init, last := es[..|es| - 1], es[|es| - 1];
      BelowSubsequence(init, w);
      assert es == init + [last];
      SubsequenceExtend(Below(init, w), init, last);
      if last.weight < w {
        assert Below(es, w) == Below(init, w) + [last];
        assert IsSubsequence(Below(init, w) + [last], init + [last]);
      } else {
        assert Below(es, w) == Below(init, w);
        assert IsSubsequence(Below(init, w), init + [last]);
      }
    } else {
      assert SubsequenceAt([], es, []);
    }
  }

  /**
   * Every edge of es has its endpoints joined by edges of forest that are no
   * heavier than it.
   */
  ghost predicate CycleProperty(forest: seq<Edge>, es: seq<Edge>)
  {
    forall e | e in es :: JoinedNoHeavier(forest, e)
  }

  /** The endpoints of e are joined by edges of forest no heavier than e. */
  ghost predicate JoinedNoHeavier(forest: seq<Edge>, e: Edge)
  {
    Reachable(Below(forest, e.weight + 1), e.source, e.destination)
  }

  /** forest is drawn from the edges of es, has no cycle and connects exactly what es connects. */
  ghost predicate SpanningForest(n: nat, forest: seq<Edge>, es: seq<Edge>)
  {
    ValidEdges(n, forest) && (forall e | e in forest :: e in es) && Acyclic(forest) &&
    forall x, y :: 0 <= x < n && 0 <= y < n ==> (Reachable(forest, x, y) <==> Reachable(es, x, y))
  }

  /** Keeping an edge keeps the property for the edges already scanned and gives it to the new one. */
  lemma CyclePropertyAccept(forest: seq<Edge>, scanned: seq<Edge>, e: Edge)
    requires CycleProperty(forest, scanned)
    ensures CycleProperty(forest + [e], scanned + [e])
  {
    forall f | f in scanned + [e]
      ensures JoinedNoHeavier(forest + [e], f)
    {
      var before, after := Below(forest, f.weight + 1), Below(forest + [e], f.weight + 1);
      BelowMembers(forest, f.weight + 1);
      BelowMembers(forest + [e], f.weight + 1);
      if f in scanned {
        assert forall g | g in before :: g in after;
        ReachableMono(before, after, f.source, f.destination);
      } else {
        assert f == e && e in forest + [e];
        ReachableEdge(after, e);
      }
    }
  }

  /**
   * Skipping an edge whose endpoints the forest already joins keeps the
   * property, provided no forest edge is heavier than the skipped one.
   */
  lemma CyclePropertyReject(forest: seq<Edge>, scanned: seq<Edge>, e: Edge)
    requires CycleProperty(forest, scanned) && Reachable(forest, e.source, e.destination)
    requires forall f | f in forest :: f.weight <= e.weight
    ensures CycleProperty(forest, scanned + [e])
  {
    BelowMembers(forest, e.weight + 1);
    ReachableMono(forest, Below(forest, e.weight + 1), e.source, e.destination);
    assert JoinedNoHeavier(forest, e);
    forall f | f in scanned + [e]
      ensures JoinedNoHeavier(forest, f)
    {
      if f != e {
        assert f in scanned;
      }
    }
  }

  /** In a sorted list, an edge lighter than the k-th one sits before it. */
  lemma LighterInPrefix(es: seq<Edge>, k: int, g: Edge)
    requires SortedByWeight(es) && 0 <= k < |es| && g in es && g.weight < es[k].weight
    ensures g in es[..k]
  {
    var i :| 0 <= i < |es| && es[i] == g;
    assert forall j :: k <= j < |es| ==> es[k].weight <= es[j].weight;
    assert es[..k][i] == g;
  }

  /**
   * An edge of es lighter than forest[k] has its endpoints joined by the
   * forest edges before position k.
   */
  lemma LighterJoined(n: nat, forest: seq<Edge>, es: seq<Edge>, k: int, f: Edge)
    requires ValidEdges(n, forest) && SortedByWeight(forest) && CycleProperty(forest, es)
    requires 0 <= k < |forest| && f in es && f.weight < forest[k].weight && ValidEdge(n, f)
    ensures ValidEdges(n, forest[..k]) && Connected(n, forest[..k], f.source, f.destination)
  {
    var joining, before := Below(forest, f.weight + 1), forest[..k];
    assert forall g | g in before :: g in forest;
    BelowMembers(forest, f.weight + 1);
    forall g | g in joining
      ensures g in before
    {
      LighterInPrefix(forest, k, g);
    }
    assert JoinedNoHeavier(forest, f);
    ReachableMono(joining, before, f.source, f.destination);
    ConnectedIffReachable(n, before, f.source, f.destination);
  }

  /** Fewer edges of an acyclic list, drawn from es, are lighter than forest[k] than forest has before k. */
  lemma LighterCount(n: nat, forest: seq<Edge>, other: seq<Edge>, es: seq<Edge>, k: int)
    requires ValidEdges(n, forest) && SortedByWeight(forest) && Acyclic(forest) && CycleProperty(forest, es)
    requires ValidEdges(n, other) && Acyclic(other) && forall e | e in other :: e in es
    requires 0 <= k < |forest|
    ensures |Below(other, forest[k].weight)| <= k
  {
    var lighter, before := Below(other, forest[k].weight), forest[..k];
    BelowMembers(other, forest[k].weight);
    BelowSubsequence(other, forest[k].weight);
    AcyclicSubsequence(lighter, other);
    PrefixSubsequence(forest, k);
    AcyclicSubsequence(before, forest);
    forall f | f in lighter
      ensures Connected(n, before, f.source, f.destination)
    {
      LighterJoined(n, forest, es, k, f);
    }
    AcyclicRefineBound(n, before, lighter);
  }

  /** The position of a heaviest edge of a non-empty list. */
  function Heaviest(es: seq<Edge>): (i: int)
    requires es != []
    ensures 0 <= i < |es| && forall k :: 0 <= k < |es| ==> es[k].weight <= es[i].weight
  {
    if |es| == 1 then 0
    else
      var i := Heaviest(es[..|es| - 1]);
      if es[i].weight < es[|es| - 1].weight then |es| - 1 else i
  }

  /** Removing the edge at position i filters to no more edges. */
  lemma BelowRemove(b: seq<Edge>, i: int, w: int)
    requires 0 <= i < |b|
    ensures |Below(b[..i] + b[i + 1..], w)| <= |Below(b, w)|
  {
    assert b == b[..i] + ([b[i]] + b[i + 1..]);
    BelowAppend(b[..i], b[i + 1..], w);
    BelowAppend(b[..i], [b[i]] + b[i + 1..], w);
    BelowAppend([b[i]], b[i + 1..], w);
  }

  /** Removing the edge at position i takes its weight off the sum. */
  lemma WeightSumRemove(b: seq<Edge>, i: int)
    requires 0 <= i < |b|
    ensures WeightSum(b) == WeightSum(b[..i] + b[i + 1..]) + b[i].weight
  {
    var front, x, back := b[..i], b[i], b[i + 1..];
    assert b == front + ([x] + back);
    WeightSumAppend(front, back);
    WeightSumAppend(front, [x] + back);
    WeightSumAppend([x], back);
    assert [x][..0] == [];
    assert WeightSum([x]) == x.weight;
  }

  /** Dropping the last edge of a and any edge of b keeps every count bound. */
  lemma CountsAfterRemove(a: seq<Edge>, b: seq<Edge>, i: int)
    requires 0 <= i < |b| && 0 < |a|
    requires forall k :: 0 <= k < |a| ==> |Below(b, a[k].weight)| <= k
    ensures forall k :: 0 <= k < |a| - 1 ==> |Below(b[..i] + b[i + 1..], a[k].weight)| <= k
  {
    forall k | 0 <= k < |a| - 1
      ensures |Below(b[..i] + b[i + 1..], a[k].weight)| <= k
    {
      BelowRemove(b, i, a[k].weight);
    }
  }

  /** If fewer than |b| edges of b are lighter than w, a heaviest edge of b is not. */
  lemma HeaviestNotLighter(b: seq<Edge>, w: int, count: int)
    requires b != [] && |Below(b, w)| <= count < |b|
    ensures w <= b[Heaviest(b)].weight
  {
    if b[Heaviest(b)].weight < w {
      BelowAll(b, w);
      assert false;
    }
  }

  /**
   * A sorted list a weighs no more than a list b of the same length when, for
   * every position k, at most k edges of b are lighter than a[k].
   */
  lemma {:induction false} SumBound(a: seq<Edge>, b: seq<Edge>)
    requires SortedByWeight(a) && |a| == |b|
    requires forall k :: 0 <= k < |a| ==> |Below(b, a[k].weight)| <= k
    ensures WeightSum(a) <= WeightSum(b)
    decreases |a|
  {
    if a != [] {
      var last := |a| - 1;
      var i := Heaviest(b);
      var a', b' := a[..last], b[..i] + b[i + 1..];
      assert WeightSum(a') <= WeightSum(b') by {
        CountsAfterRemove(a, b, i);
        SumBound(a', b');
      }
      assert a[last].weight <= b[i].weight by {
        HeaviestNotLighter(b, a[last].weight, last);
      }
      WeightSumRemove(b, i);
      assert WeightSum(a) == WeightSum(a') + a[last].weight;
    }
  }


  /**
   * A spanning forest with the cycle property, kept in weight order, weighs no
   * more than any other spanning forest of the same edges.
   */
  lemma MinimumWeight(n: nat, forest: seq<Edge>, es: seq<Edge>)
    requires SpanningForest(n, forest, es) && SortedByWeight(forest) && CycleProperty(forest, es)
    ensures forall other | SpanningForest(n, other, es) :: WeightSum(forest) <= WeightSum(other)
  {
    AcyclicEdgeCount(n, forest);
    LeadersCountComponents(n, forest);
    forall other | SpanningForest(n, other, es)
      ensures WeightSum(forest) <= WeightSum(other)
    {
      AcyclicEdgeCount(n, other);
      LeadersCountComponents(n, other);
      assert ComponentLeaders(n, forest) == ComponentLeaders(n, other);
      forall k | 0 <= k < |forest|
        ensures |Below(other, forest[k].weight)| <= k
      {
        LighterCount(n, forest, other, es, k);
      }
      SumBound(forest, other);
    }
  }
}
