// Edges of a weighted undirected graph and their order by weight.

module Edges {

  /** An edge between two vertex indices, carrying an integer weight. */
  datatype Edge = Edge(source: int, destination: int, weight: int)

  /** Edges compare by weight alone, with the -1/0/1 result of Int32.CompareTo. */
  function CompareTo(e: Edge, other: Edge): (r: int)
    ensures -1 <= r <= 1
    ensures r < 0 <==> e.weight < other.weight
    ensures r == 0 <==> e.weight == other.weight
    ensures r > 0 <==> e.weight > other.weight
  {
    if e.weight < other.weight then -1
    else if e.weight == other.weight then 0
    else 1
  }

  /** Every edge is no heavier than any edge after it. */
  ghost predicate SortedByWeight(es: seq<Edge>)
  {
    forall i, j :: 0 <= i < j < |es| ==> es[i].weight <= es[j].weight
  }

  /** The sum of the weights of es. */
  function WeightSum(es: seq<Edge>): int
  {
    if es == [] then 0 else WeightSum(es[..|es| - 1]) + es[|es| - 1].weight
  }

  /** Summing a concatenation sums the parts. */
  lemma {:induction false} WeightSumAppend(a: seq<Edge>, b: seq<Edge>)
    ensures WeightSum(a + b) == WeightSum(a) + WeightSum(b)
    decreases |b|
  {
    if b == [] {
      assert a + b == a;
    } else {
      var init := b[..|b| - 1];
      assert (a + b)[..|a + b| - 1] == a + init;
      WeightSumAppend(a, init);
    }
  }

  /** Placing x between the edges no heavier than it and the edges heavier than it keeps the order. */
  lemma InsertSorted(s: seq<Edge>, j: int, x: Edge)
    requires SortedByWeight(s) && 0 <= j <= |s|
    requires forall k :: 0 <= k < j ==> s[k].weight <= x.weight
    requires forall k :: j <= k < |s| ==> x.weight < s[k].weight
    ensures SortedByWeight(s[..j] + [x] + s[j..])
  {
    var t := s[..j] + [x] + s[j..];
    assert forall a :: 0 <= a < j ==> t[a] == s[a];
    assert forall a :: j < a < |t| ==> t[a] == s[a - 1];
  }

  /** Inserts x after every edge no heavier than it, keeping s sorted. */
  method Insert(s: seq<Edge>, x: Edge) returns (t: seq<Edge>)
    requires SortedByWeight(s)
    ensures SortedByWeight(t)
    ensures multiset(t) == multiset(s) + multiset{x}
  {
    var j := 0;
    while j < |s| && CompareTo(s[j], x) <= 0
      invariant 0 <= j <= |s|
      invariant forall k :: 0 <= k < j ==> s[k].weight <= x.weight
    {
      j := j + 1;
    }
    InsertSorted(s, j, x);
    t := s[..j] + [x] + s[j..];
    assert s == s[..j] + s[j..];
  }

  /** Lists that are permutations of each other hold the same edges. */
  lemma SameMembers(a: seq<Edge>, b: seq<Edge>)
    requires multiset(a) == multiset(b)
    ensures forall e :: e in a <==> e in b
  {
    forall e
      ensures e in a <==> e in b
    {
      assert e in a <==> e in multiset(a);
      assert e in b <==> e in multiset(b);
    }
  }

  /**
   * Sorts edges ascending by CompareTo. The library sort of List<Edge> is
   * specified only by its result: a permutation that is sorted; ties between
   * equal weights may come out in any order.
   */
  method Sort(es: seq<Edge>) returns (s: seq<Edge>)
    ensures SortedByWeight(s)
    ensures multiset(s) == multiset(es)
  {
    s := [];
    for i := 0 to |es|
      invariant SortedByWeight(s)
      invariant multiset(s) == multiset(es[..i])
    {
      s := Insert(s, es[i]);
      assert es[..i + 1] == es[..i] + [es[i]];
    }
    assert es[..|es|] == es;
  }
}
