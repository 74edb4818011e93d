// The graph of Program.cs: an edge list and a vertex count, Kruskal's
// algorithm over an int[] parent array with a recursive, path-compressing
// Find and a Union that always links the first root under the second, and the
// weight total that TestGraph computes over the result.

module Kruskal {
  import opened Edges
  import opened Connectivity
  import opened UnionFind
  import opened Forests
  import opened Optimality

  /**
   * The parent pointers p over n vertices form a forest, and two vertices share
   * a root exactly when the edges es connect them.
   */
  ghost predicate Tracks(p: seq<int>, d: seq<nat>, n: nat, es: seq<Edge>)
  {
    Forest(p, d) && |p| == n && ValidEdges(n, es) &&
    forall x, y :: 0 <= x < n && 0 <= y < n ==> (Root(p, d, x) == Root(p, d, y) <==> Connected(n, es, x, y))
  }

  /** Singleton parents match the labelling of no edges. */
  lemma TracksInit(p: seq<int>, d: seq<nat>, n: nat)
    requires |p| == n == |d| && forall i :: 0 <= i < n ==> p[i] == i
    ensures Tracks(p, d, n, [])
  {
  }

  /** Rewriting pointers without changing any root keeps the correspondence. */
  lemma TracksSameRoots(p: seq<int>, q: seq<int>, d: seq<nat>, n: nat, es: seq<Edge>)
    requires Tracks(p, d, n, es) && Forest(q, d) && |q| == n
    requires forall i :: 0 <= i < n ==> Root(q, d, i) == Root(p, d, i)
    ensures Tracks(q, d, n, es)
  {
  }

  /**
   * Merging the roots of e's endpoints in the forest matches appending e to
   * the edge list.
   */
  lemma TracksLink(p: seq<int>, d: seq<nat>, q: seq<int>, d': seq<nat>, n: nat, es: seq<Edge>, e: Edge)
    requires Tracks(p, d, n, es) && ValidEdge(n, e) && Forest(q, d') && |q| == n
    requires forall i :: 0 <= i < n ==>
      Root(q, d', i) == if Root(p, d, i) == Root(p, d, e.source) then Root(p, d, e.destination) else Root(p, d, i)
    ensures Tracks(q, d', n, es + [e])
  {
    forall x, y | 0 <= x < n && 0 <= y < n
      ensures Root(q, d', x) == Root(q, d', y) <==> Connected(n, es + [e], x, y)
    {
      ConnectedAppend(n, es, e, x, y);
    }
  }

  /**
   * The state of the scan once the edges scanned have been read: the parent
   * array tracks the kept edges, which are picked in order from the scanned
   * ones, have no cycle, connect what the scanned edges connect, and join the
   * endpoints of each scanned edge by kept edges no heavier than it.
   */
  ghost predicate Scanned(p: seq<int>, d: seq<nat>, n: nat, result: seq<Edge>, scanned: seq<Edge>)
  {
    Tracks(p, d, n, result) && ValidEdges(n, scanned) && SameComponents(n, result, scanned) &&
    Acyclic(result) && IsSubsequence(result, scanned) && CycleProperty(result, scanned)
  }

  /**
   * What the scan leaves behind, stated over the input graph: a spanning forest
   * of it, kept in sorted order, with n minus the number of input components
   * edges (so at most n - 1), joining the endpoints of every input edge by
   * edges no heavier than that edge.
   */
  lemma KruskalOutcome(n: nat, result: seq<Edge>, sorted: seq<Edge>, input: seq<Edge>)
    requires ValidEdges(n, result) && ValidEdges(n, sorted)
    requires forall e :: e in sorted <==> e in input
    requires SortedByWeight(sorted) && IsSubsequence(result, sorted)
    requires Acyclic(result) && SameComponents(n, result, sorted) && CycleProperty(result, sorted)
    ensures SpanningForest(n, result, input) && SortedByWeight(result) && CycleProperty(result, input)
    ensures |result| + |ComponentLeaders(n, input)| == n
    ensures n == 0 ==> result == []
    ensures n > 0 ==> |result| <= n - 1
    ensures forall e | e in input :: Reachable(result, e.source, e.destination)
  {
    SubsequenceSorted(result, sorted);
    SubsequenceMembers(result, sorted);
    AcyclicEdgeCount(n, result);
    AcyclicBound(n, result);
    forall x, y | 0 <= x < n && 0 <= y < n
      ensures Reachable(result, x, y) <==> Reachable(input, x, y)
    {
      ConnectedIffReachable(n, result, x, y);
      ConnectedIffReachable(n, sorted, x, y);
      ReachableSameEdges(sorted, input, x, y);
    }
    forall e | e in input
      ensures Reachable(result, e.source, e.destination)
    {
      assert e in sorted;
      ReachableEdge(input, e);
    }
    assert ComponentLeaders(n, result) == ComponentLeaders(n, input);
    LeadersCountComponents(n, result);
    assert SpanningForest(n, result, input);
  }

  /** The foreach loop of TestGraph that totals the weights of the tree. */
  method TotalWeight(mst: seq<Edge>) returns (totalWeight: int)
    ensures totalWeight == WeightSum(mst)
  {
    totalWeight := 0;
    for i := 0 to |mst|
      invariant totalWeight == WeightSum(mst[..i])
    {
      assert mst[..i + 1][..i] == mst[..i];
      totalWeight := totalWeight + mst[i].weight;
    }
    assert mst[..|mst|] == mst;
  }

  /**
   * The two Finds of Union rewrite only pointers on the chains from root1 and
   * from root2 in the array they started from.
   */
  lemma ChangedOnPaths(p0: seq<int>, p1: seq<int>, p2: seq<int>, d: seq<nat>, root1: int, root2: int)
    requires Forest(p0, d) && Forest(p1, d) && Forest(p2, d) && |p1| == |p0| && |p2| == |p0|
    requires 0 <= root1 < |p0| && 0 <= root2 < |p0|
    requires forall i :: 0 <= i < |p0| ==> p1[i] == if OnPath(p0, d, root1, i) then Root(p0, d, root1) else p0[i]
    requires forall i :: 0 <= i < |p0| ==> p2[i] == if OnPath(p1, d, root2, i) then Root(p1, d, root2) else p1[i]
    ensures forall i :: 0 <= i < |p0| && p2[i] != p0[i] ==> OnPath(p0, d, root1, i) || OnPath(p0, d, root2, i)
  {
    forall j | 0 <= j < |p0|
      ensures p1[j] == p0[j] || p1[j] == Root(p0, d, j)
    {
      OnPathBelow(p0, d, root1, j);
    }
    forall i | 0 <= i < |p0| && p2[i] != p0[i] && !OnPath(p0, d, root1, i)
      ensures OnPath(p0, d, root2, i)
    {
      ShortcutPath(p0, p1, d, root2, i);
    }
  }

  class Graph {
    var vertices: int
    var edges: seq<Edge>

    constructor (vertices: int)
      ensures this.vertices == vertices && edges == []
    {
      this.vertices := vertices;
      edges := [];
    }

    method AddEdge(source: int, destination: int, weight: int)
      modifies this`edges
      ensures edges == old(edges) + [Edge(source, destination, weight)]
    {
      edges := edges + [Edge(source, destination, weight)];
    }

    /**
     * Returns the root of vertex and points every vertex on its parent chain
     * straight at that root; no vertex's root changes.
     */
    static method Find(parent: array<int>, ghost d: seq<nat>, vertex: int) returns (r: int)
      requires Forest(parent[..], d) && 0 <= vertex < parent.Length
      modifies parent
      ensures Forest(parent[..], d)
      ensures r == Root(old(parent[..]), d, vertex) && parent[vertex] == r && parent[r] == r
      ensures forall i :: 0 <= i < parent.Length ==>
        parent[i] == if OnPath(old(parent[..]), d, vertex, i) then r else old(parent[i])
      ensures forall i :: 0 <= i < parent.Length ==> Root(parent[..], d, i) == Root(old(parent[..]), d, i)
      decreases d[vertex]
    {
      ghost var p0 := parent[..];
      if parent[vertex] != vertex {
        var next := parent[vertex];
        var up := Find(parent, d, next);
        OnPathBelow(p0, d, next, vertex);
        ghost var p1 := parent[..];
        assert p1[vertex] == next;
        forall i | 0 <= i < parent.Length
          ensures Forest(p1[vertex := up], d) && Root(p1[vertex := up], d, i) == Root(p0, d, i)
        {
          Compress(p1, d, vertex, i);
        }
        parent[vertex] := up;
        assert parent[..] == p1[vertex := up];
      }
      r := parent[vertex];
    }

    /**
     * Links the root of root1 under the root of root2, so that root1's whole
     * component joins root2's. The returned ghost depth witnesses the new forest.
     */
    static method Union(parent: array<int>, ghost d: seq<nat>, root1: int, root2: int) returns (ghost d': seq<nat>)
      requires Forest(parent[..], d) && 0 <= root1 < parent.Length && 0 <= root2 < parent.Length
      modifies parent
      ensures Forest(parent[..], d')
      ensures parent[Root(old(parent[..]), d, root1)] == Root(old(parent[..]), d, root2)
      ensures forall i :: 0 <= i < parent.Length ==>
        Root(parent[..], d', i) ==
          if Root(old(parent[..]), d, i) == Root(old(parent[..]), d, root1)
          then Root(old(parent[..]), d, root2)
          else Root(old(parent[..]), d, i)
      ensures Root(parent[..], d', root1) == Root(parent[..], d', root2)
      ensures forall i :: 0 <= i < parent.Length && parent[i] != old(parent[i]) ==>
        OnPath(old(parent[..]), d, root1, i) || OnPath(old(parent[..]), d, root2, i)
    {
      ghost var p0 := parent[..];
      var root1Parent := Find(parent, d, root1);
      ghost var p1 := parent[..];
      var root2Parent := Find(parent, d, root2);
      ghost var p2 := parent[..];
      d' := Link(parent, d, root1Parent, root2Parent);
      ChangedOnPaths(p0, p1, p2, d, root1, root2);
      OnPathBelow(p0, d, root1, root1);
    }

    /** Points root r1 at root r2: the tree of r1 joins the tree of r2 and no other root moves. */
    static method Link(parent: array<int>, ghost d: seq<nat>, r1: int, r2: int) returns (ghost d': seq<nat>)
      requires Forest(parent[..], d) && 0 <= r1 < parent.Length && 0 <= r2 < parent.Length
      requires parent[r1] == r1 && parent[r2] == r2
      modifies parent
      ensures parent[..] == old(parent[..])[r1 := r2]
      ensures Forest(parent[..], d')
      ensures forall i :: 0 <= i < parent.Length ==>
        Root(parent[..], d', i) == if Root(old(parent[..]), d, i) == r1 then r2 else Root(old(parent[..]), d, i)
    {
      ghost var p := parent[..];
      parent[r1] := r2;
      d' := Shift(p, d, r1, r2);
      assert parent[..] == p[r1 := r2];
      LinkForest(p, d, r1, r2);
      forall i | 0 <= i < parent.Length
        ensures Root(parent[..], d', i) == if Root(p, d, i) == r1 then r2 else Root(p, d, i)
      {
        LinkRoot(p, d, r1, r2, i);
      }
    }

    /** The parent array of n singleton sets: every vertex is its own root. */
    static method NewParent(n: nat) returns (parent: array<int>)
      ensures fresh(parent) && parent.Length == n
      ensures forall i :: 0 <= i < n ==> parent[i] == i
    {
      parent := new int[n];
      for i := 0 to n
        invariant forall j :: 0 <= j < i ==> parent[j] == j
      {
        parent[i] := i;
      }
    }

    /**
     * One pass of the foreach loop: keeps edge exactly when its endpoints have
     * different roots, that is, when the edges kept so far do not connect them,
     * and then unions those roots.
     */
    static method ScanEdge(parent: array<int>, ghost d: seq<nat>, n: nat, result: seq<Edge>, ghost scanned: seq<Edge>, edge: Edge)
      returns (result': seq<Edge>, ghost d': seq<nat>)
      requires Scanned(parent[..], d, n, result, scanned) && ValidEdge(n, edge)
      requires forall f | f in result :: f.weight <= edge.weight
      modifies parent
      ensures result' == if Connected(n, result, edge.source, edge.destination) then result else result + [edge]
      ensures Scanned(parent[..], d', n, result', scanned + [edge])
    {
      ghost var p0 := parent[..];
      SubsequenceExtend(result, scanned, edge);
      var sourceRoot := Find(parent, d, edge.source);
      var destinationRoot := Find(parent, d, edge.destination);
      TracksSameRoots(p0, parent[..], d, n, result);
      d' := d;
      result' := result;
      if sourceRoot != destinationRoot {
        ghost var p1 := parent[..];
        result' := result + [edge];
        d' := Union(parent, d, sourceRoot, destinationRoot);
        TracksLink(p1, d, parent[..], d', n, result, edge);
        AcyclicAppend(n, result, edge);
        SameComponentsAccept(n, result, scanned, edge);
        CyclePropertyAccept(result, scanned, edge);
      } else {
        SameComponentsReject(n, result, scanned, edge);
        ConnectedIffReachable(n, result, edge.source, edge.destination);
        CyclePropertyReject(result, scanned, edge);
      }
    }

    /**
     * The foreach loop over the sorted edges, starting from singleton sets:
     * each edge is scanned once and kept or skipped by ScanEdge.
     */
    static method Scan(parent: array<int>, n: nat, sorted: seq<Edge>) returns (result: seq<Edge>)
      requires parent.Length == n && forall i :: 0 <= i < n ==> parent[i] == i
      requires ValidEdges(n, sorted) && SortedByWeight(sorted)
      modifies parent
      ensures ValidEdges(n, result) && Acyclic(result) && IsSubsequence(result, sorted)
      ensures SameComponents(n, result, sorted) && CycleProperty(result, sorted)
    {
      result := [];
      ghost var d: seq<nat> := seq(n, _ => 0);
      TracksInit(parent[..], d, n);
      assert SubsequenceAt(result, sorted[..0], []);
      for k := 0 to |sorted|
        invariant Scanned(parent[..], d, n, result, sorted[..k])
      {
        var edge := sorted[k];
        assert edge in sorted;
        assert sorted[..k + 1] == sorted[..k] + [edge];
        SubsequenceNoHeavier(result, sorted, k);
        result, d := ScanEdge(parent, d, n, result, sorted[..k], edge);
      }
      assert sorted[..|sorted|] == sorted;
    }

    /**
     * Sorts the edges by weight and keeps, in that order, each edge whose
     * endpoints are not yet connected by the edges kept before it.
     */
    method KruskalMST() returns (result: seq<Edge>)
      requires vertices >= 0 && ValidEdges(vertices, edges)
      modifies this`edges
      ensures SortedByWeight(edges) && multiset(edges) == multiset(old(edges))
      ensures IsSubsequence(result, edges) && SortedByWeight(result)
      ensures SpanningForest(vertices, result, old(edges))
      ensures |result| + |ComponentLeaders(vertices, old(edges))| == vertices
      ensures vertices == 0 ==> result == []
      ensures vertices > 0 ==> |result| <= vertices - 1
      ensures forall e | e in old(edges) :: Reachable(result, e.source, e.destination)
      ensures CycleProperty(result, old(edges))
      ensures forall other | SpanningForest(vertices, other, old(edges)) :: WeightSum(result) <= WeightSum(other)
    {
      var sorted := Sort(edges);
      edges := sorted;
      SameMembers(sorted, old(edges));
      var n := vertices;
      var parent := NewParent(n);
      // The foreach runs over _edges, which now holds sorted.
      result := Scan(parent, n, sorted);
      KruskalOutcome(n, result, edges, old(edges));
      MinimumWeight(n, result, old(edges));
    }

    /**
     * Builds a graph from the edge list, runs Kruskal's algorithm on it and
     * totals the weights of the result; the elapsed time and the printed line
     * are not modelled, so both values are returned instead.
     */
    static method TestGraph(vertices: int, edges: seq<Edge>) returns (mst: seq<Edge>, totalWeight: int)
      requires vertices >= 0 && ValidEdges(vertices, edges)
      ensures totalWeight == WeightSum(mst)
      ensures SpanningForest(vertices, mst, edges) && SortedByWeight(mst) && CycleProperty(mst, edges)
      ensures |mst| + |ComponentLeaders(vertices, edges)| == vertices
      ensures forall other | SpanningForest(vertices, other, edges) :: totalWeight <= WeightSum(other)
    {
      var graph := new Graph(vertices);
      for i := 0 to |edges|
        invariant graph.vertices == vertices && graph.edges == edges[..i]
      {
        var edge := edges[i];
        graph.AddEdge(edge.source, edge.destination, edge.weight);
        assert edges[..i + 1] == edges[..i] + [edge];
      }
      assert edges[..|edges|] == edges;
      mst := graph.KruskalMST();
      totalWeight := TotalWeight(mst);
    }
  }
}
