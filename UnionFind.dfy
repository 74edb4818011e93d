// The disjoint-set forest behind Kruskal's loop: parent pointers over the
// vertex indices 0 .. n-1, where a vertex whose parent is itself is a root
// naming its component. A ghost depth d, strictly smaller at a parent than at
// its child, shows that every parent chain ends at a root; the operations
// below rewrite pointers and keep such a depth.

module UnionFind {

  /** Every parent pointer is an index, and walking to a parent lowers the depth. */
  ghost predicate Forest(p: seq<int>, d: seq<nat>)
  {
    |d| == |p| &&
    forall i :: 0 <= i < |p| ==> 0 <= p[i] < |p| && (p[i] != i ==> d[p[i]] < d[i])
  }

  /** The root at the end of i's parent chain. */
  ghost function Root(p: seq<int>, d: seq<nat>, i: int): (r: int)
    requires Forest(p, d) && 0 <= i < |p|
    ensures 0 <= r < |p| && p[r] == r
    ensures r == i <==> p[i] == i
    ensures r != i ==> d[r] < d[i]
    decreases d[i]
  {
    if p[i] == i then i else Root(p, d, p[i])
  }

  /** i lies on the parent chain from v to its root (both ends included). */
  ghost predicate OnPath(p: seq<int>, d: seq<nat>, v: int, i: int)
    requires Forest(p, d) && 0 <= v < |p|
    decreases d[v]
  {
    i == v || (p[v] != v && OnPath(p, d, p[v], i))
  }

  /** Vertices on v's chain are no deeper than v, and the chain ends at v's root. */
  lemma {:induction false} OnPathBelow(p: seq<int>, d: seq<nat>, v: int, i: int)
    requires Forest(p, d) && 0 <= v < |p|
    ensures OnPath(p, d, v, Root(p, d, v))
    ensures OnPath(p, d, v, i) ==> 0 <= i < |p| && d[i] <= d[v] && Root(p, d, i) == Root(p, d, v)
    decreases d[v]
  {
    if p[v] != v {
      OnPathBelow(p, d, p[v], i);
    }
  }

  /**
   * If q differs from p only by pointing some vertices straight at their
   * roots, every chain in q follows a chain of p.
   */
  lemma {:induction false} ShortcutPath(p: seq<int>, q: seq<int>, d: seq<nat>, v: int, i: int)
    requires Forest(p, d) && Forest(q, d) && |q| == |p| && 0 <= v < |p|
    requires forall j :: 0 <= j < |p| ==> q[j] == p[j] || q[j] == Root(p, d, j)
    requires OnPath(q, d, v, i)
    ensures OnPath(p, d, v, i)
    decreases d[v]
  {
    if i != v {
      if q[v] == p[v] {
        ShortcutPath(p, q, d, q[v], i);
      } else {
        var r := Root(p, d, v);
        assert q[r] == r;
        assert i == r;
        OnPathBelow(p, d, v, i);
      }
    }
  }

  /**
   * Pointing v straight at its root keeps a forest under the same depth and
   * changes no vertex's root.
   */
  lemma {:induction false} Compress(p: seq<int>, d: seq<nat>, v: int, i: int)
    requires Forest(p, d) && 0 <= v < |p| && 0 <= i < |p|
    ensures Forest(p[v := Root(p, d, v)], d)
    ensures Root(p[v := Root(p, d, v)], d, i) == Root(p, d, i)
    decreases d[i]
  {
    var q := p[v := Root(p, d, v)];
    assert Forest(q, d);
    if i != v && p[i] != i {
      Compress(p, d, v, p[i]);
    }
  }

  /** The depth after linking root r1 under root r2: r1's whole tree sinks below r2. */
  ghost function Shift(p: seq<int>, d: seq<nat>, r1: int, r2: int): (d': seq<nat>)
    requires Forest(p, d) && 0 <= r1 < |p| && 0 <= r2 < |p|
    ensures |d'| == |d|
  {
    seq(|p|, i requires 0 <= i < |p| && Forest(p, d) =>
      if r1 != r2 && Root(p, d, i) == r1 then d[i] + d[r2] + 1 else d[i])
  }

  /** Linking one root under another keeps a forest, with the shifted depth. */
  lemma LinkForest(p: seq<int>, d: seq<nat>, r1: int, r2: int)
    requires Forest(p, d) && 0 <= r1 < |p| && 0 <= r2 < |p| && p[r1] == r1 && p[r2] == r2
    ensures Forest(p[r1 := r2], Shift(p, d, r1, r2))
  {
    var q, d' := p[r1 := r2], Shift(p, d, r1, r2);
    forall i | 0 <= i < |q| && q[i] != i
      ensures d'[q[i]] < d'[i]
    {
      if i != r1 {
        assert Root(p, d, i) == Root(p, d, p[i]);
      }
    }
  }

  /** After linking r1 under r2, exactly the vertices whose root was r1 have root r2. */
  lemma {:induction false} LinkRoot(p: seq<int>, d: seq<nat>, r1: int, r2: int, i: int)
    requires Forest(p, d) && 0 <= r1 < |p| && 0 <= r2 < |p| && p[r1] == r1 && p[r2] == r2
    requires 0 <= i < |p|
    ensures Forest(p[r1 := r2], Shift(p, d, r1, r2))
    ensures Root(p[r1 := r2], Shift(p, d, r1, r2), i) == if Root(p, d, i) == r1 then r2 else Root(p, d, i)
    decreases d[i]
  {
    LinkForest(p, d, r1, r2);
    if r1 == r2 {
      assert p[r1 := r2] == p;
      assert Shift(p, d, r1, r2) == d;
    } else if i != r1 && p[i] != i {
      LinkRoot(p, d, r1, r2, p[i]);
    }
  }
}
