# Kruskal's minimum spanning tree, modelled in Dafny

This project models the core of `KruskalAlgorithmProject/Program.cs`. That core has four parts:

- the `Edge` class and its ordering by weight;
- the `Graph` class: its constructor, `AddEdge`, and `KruskalMST`, which sorts the edges and scans them with a disjoint-set (union-find) forest kept in an `int[] parent` array;
- the private `Find` (recursive, with path compression) and `Union` (links the first root under the second);
- the loop in `TestGraph` that totals the weights of the tree.

Modules:

- `Edges`: the `Edge` value, `CompareTo`, the weight order, the weight sum, and the sort.
- `Connectivity`: two independent definitions of "x and y are in the same component" and a proof that they agree.
  - A quick-find labelling (`Label`/`Connected`) merges classes edge by edge.
  - Walks (`Reachable`) follow the edges.
  - This module also counts components, by labels and by their lowest-numbered vertices.
- `UnionFind`: the parent-pointer forest.
  - A ghost depth shows that every parent chain ends at a root.
  - Lemmas cover path compression and linking.
- `Forests`: acyclic edge lists, "same components", and subsequences.
- `Optimality`: the cycle property of the greedy result, and the exchange argument proving that no other spanning forest of the input weighs less.
- `Kruskal`: the `Graph` class, with `Find`, `Union`, `KruskalMST` and `TestGraph` as imperative methods over an `array<int>`, plus the weight-total loop.

What is proved about `KruskalMST`:

- `_edges` ends up as a sorted permutation of itself.
- The result is a subsequence of it, so its weights are non-decreasing.
- The result has no cycle, and it connects exactly the vertex pairs the input connects: it is a spanning forest.
- It has `vertices` minus the number of input components edges, so at most `vertices - 1`, and none for 0 vertices.
- Every input edge's endpoints are joined by result edges no heavier than that edge.
- No spanning forest drawn from the input edges has a smaller weight sum.

The union-find forest has no union by rank. `Union` always writes `parent[root1Parent] = root2Parent` (`Program.cs:80`), and the model follows that code. No rank array is modelled, and no height bound is claimed.

## Model

| member | source | states |
|---|---|---|
| Edges.CompareTo | KruskalAlgorithmProject/Program.cs:8-22 | The result is -1, 0 or 1, and its sign is negative, zero or positive exactly when this edge's weight is less than, equal to or greater than the other's; nothing but the weight is compared |
| Edges.Sort | KruskalAlgorithmProject/Program.cs:46 | `_edges.Sort()`: the result is sorted by weight and is a permutation (equal multiset) of the input |
| Edges.Insert | KruskalAlgorithmProject/Program.cs:46 | One step of the sort: inserting an edge into a sorted list gives a sorted list whose multiset gains exactly that edge |
| Edges.InsertSorted | KruskalAlgorithmProject/Program.cs:46 | Placing an edge after every no-heavier edge and before every heavier one keeps the list sorted |
| Edges.SameMembers | KruskalAlgorithmProject/Program.cs:46 | Sorting in place keeps the same set of edges: permutations hold the same members |
| Edges.WeightSumAppend | KruskalAlgorithmProject/Program.cs:96-100 | The weight total of a concatenation is the sum of the totals of its parts |
| Kruskal.TotalWeight | KruskalAlgorithmProject/Program.cs:96-100 | The foreach loop leaves `totalWeight` equal to the sum of the weights of the tree's edges |
| Kruskal.Graph.constructor | KruskalAlgorithmProject/Program.cs:31-35 | A new graph has the given vertex count and an empty edge list |
| Kruskal.Graph.AddEdge | KruskalAlgorithmProject/Program.cs:37-40 | Appends exactly one edge, with the given endpoints and weight, and leaves the earlier edges unchanged |
| Kruskal.Graph.Find | KruskalAlgorithmProject/Program.cs:68-73 | Returns the root of the vertex's chain, which is its own parent. It points every vertex on that chain straight at the root and changes no other entry. Afterwards the vertex's parent is the root, the array is still a forest, and no vertex's root changes |
| Kruskal.Graph.Union | KruskalAlgorithmProject/Program.cs:76-81 | The root of root1 ends up pointing at the root of root2. Vertices in root1's old tree now have root2's root, and every other vertex keeps its root. root1 and root2 end up sharing a root. Only entries on the chains from root1 and root2 change. If they already shared a root, no vertex's root changes |
| Kruskal.Graph.Link | KruskalAlgorithmProject/Program.cs:80 | The single write of Union: the array changes only at the first root, the result is still a forest, and exactly the vertices rooted at the first root move to the second |
| Kruskal.ChangedOnPaths | KruskalAlgorithmProject/Program.cs:78-79 | Together, the two Finds of Union rewrite only entries on the original chains from root1 and from root2 |
| Kruskal.Graph.NewParent | KruskalAlgorithmProject/Program.cs:48-50 | A fresh array of length `vertices` in which every vertex is its own parent |
| Kruskal.Graph.ScanEdge | KruskalAlgorithmProject/Program.cs:53-61 | Keeps the edge exactly when the edges kept so far do not connect its endpoints (when its roots differ). It preserves the scan invariant: the roots track the kept edges, the kept edges are acyclic, connect what the scanned edges connect, form a subsequence of them, and join each scanned edge's endpoints by edges no heavier than it |
| Kruskal.Graph.Scan | KruskalAlgorithmProject/Program.cs:52-62 | Over sorted edges, the foreach loop leaves a result with these properties: its edges are valid and acyclic; it is a subsequence of the sorted list; it has the same components; and it satisfies the cycle property |
| Kruskal.Graph.KruskalMST | KruskalAlgorithmProject/Program.cs:43-65 | `_edges` becomes a sorted permutation of itself. The result is a sorted subsequence of it and a spanning forest of the input. It has `vertices` minus the input's component count edges (none when there are no vertices, at most `vertices - 1` otherwise). Every input edge's endpoints are joined in it by result edges no heavier than that edge. No spanning forest of the input has a smaller weight sum |
| Kruskal.Graph.TestGraph | KruskalAlgorithmProject/Program.cs:84-100 | Builds the graph from the edge list and runs the algorithm. Returns a sorted minimum-weight spanning forest of the edges, joining each edge's endpoints by tree edges no heavier than it, and its weight total |
| Kruskal.KruskalOutcome | KruskalAlgorithmProject/Program.cs:43-65 | From the scan's result over a sorted permutation of the input, derives these facts about the input: a sorted spanning forest; the cycle property; the edge count `vertices` minus the number of components; the `vertices - 1` bound; every input edge reachable |
| Kruskal.TracksInit | KruskalAlgorithmProject/Program.cs:48-50 | Singleton parents track the empty edge list: two vertices share a root exactly when the empty edge list connects them, that is, only when they are equal |
| Kruskal.TracksSameRoots | KruskalAlgorithmProject/Program.cs:54-55 | The path compression done by the two Finds keeps "same root iff connected by the kept edges" |
| Kruskal.TracksLink | KruskalAlgorithmProject/Program.cs:59-60 | Merging the endpoints' roots corresponds to appending the edge to the kept list, so root equality still means connectivity |
| UnionFind.Root | KruskalAlgorithmProject/Program.cs:68-73 | The chain from i ends at an index that is its own parent. It ends at i exactly when i is a root, and otherwise at a strictly shallower vertex |
| UnionFind.OnPathBelow | KruskalAlgorithmProject/Program.cs:70-72 | A vertex's root lies on its chain, and every vertex on that chain is no deeper and has the same root |
| UnionFind.ShortcutPath | KruskalAlgorithmProject/Program.cs:78-79 | If some pointers are redirected straight to their roots, every chain of the new array runs along a chain of the old one |
| UnionFind.Compress | KruskalAlgorithmProject/Program.cs:71 | Pointing a vertex straight at its root keeps the forest and changes no vertex's root |
| UnionFind.LinkForest | KruskalAlgorithmProject/Program.cs:80 | Linking one root under another keeps a forest, witnessed by the shifted depth |
| UnionFind.LinkRoot | KruskalAlgorithmProject/Program.cs:80 | After linking r1 under r2, exactly the vertices whose root was r1 have root r2 |
| Connectivity.ConnectedIffReachable | KruskalAlgorithmProject/Program.cs:57 | The label-merging reference for "same component" agrees with reachability along edges, in both directions |
| Connectivity.ConnectedAppend | KruskalAlgorithmProject/Program.cs:59-60 | After adding edge (u, v), x and y are connected exactly when they were already connected, or one was connected to u and the other to v |
| Connectivity.LabelAppend | KruskalAlgorithmProject/Program.cs:59-60 | Labelling with one more edge merges the classes of that edge's endpoints |
| Connectivity.EdgeConnected | KruskalAlgorithmProject/Program.cs:52-57 | The endpoints of every edge of a list are connected by that list |
| Connectivity.ReachableEdge | KruskalAlgorithmProject/Program.cs:52-57 | An edge's endpoints reach each other in both directions |
| Connectivity.ReachableSameEdges | KruskalAlgorithmProject/Program.cs:46 | Reachability depends only on which edges are present, so sorting the edges changes nothing |
| Connectivity.ComponentsNoEdges | KruskalAlgorithmProject/Program.cs:48-50 | With no edges there are exactly `vertices` components |
| Connectivity.ComponentsPositive | KruskalAlgorithmProject/Program.cs:48-50 | A graph with at least one vertex has at least one component |
| Connectivity.ComponentsAppend | KruskalAlgorithmProject/Program.cs:57-60 | An edge between two different components lowers the component count by exactly one |
| Connectivity.LeadersCountComponents | KruskalAlgorithmProject/Program.cs:43-65 | The number of lowest-numbered vertices of components equals the number of distinct labels |
| Connectivity.ComponentsCoarsen | KruskalAlgorithmProject/Program.cs:57 | If one edge list connects everything another connects, it has no more components |
| Connectivity.ConnectedRefine | KruskalAlgorithmProject/Program.cs:57 | If one edge list connects the endpoints of every edge of another, it connects every pair the other connects |
| Forests.AcyclicAppend | KruskalAlgorithmProject/Program.cs:57-59 | Adding an edge whose endpoints are not yet connected keeps the kept edges free of cycles |
| Forests.AcyclicEdgeCount | KruskalAlgorithmProject/Program.cs:43-65 | An acyclic edge list over n vertices has exactly n minus its component count edges |
| Forests.AcyclicBound | KruskalAlgorithmProject/Program.cs:43-65 | An acyclic edge list has at most n - 1 edges, and none when n is 0 |
| Forests.SameComponentsAccept | KruskalAlgorithmProject/Program.cs:57-60 | Keeping an edge keeps the kept list connecting what the scanned list connects |
| Forests.SameComponentsReject | KruskalAlgorithmProject/Program.cs:57 | Skipping an edge whose endpoints are already connected keeps the kept list connecting what the scanned list connects |
| Forests.SubsequenceExtend | KruskalAlgorithmProject/Program.cs:52-61 | Whether the scanned edge is kept or skipped, the result stays a subsequence of the scanned edges |
| Forests.SubsequenceSorted | KruskalAlgorithmProject/Program.cs:46-59 | A subsequence of the sorted edges is sorted, so the result's weights never decrease |
| Forests.SubsequenceMembers | KruskalAlgorithmProject/Program.cs:59 | Every edge of the result is an edge of the graph |
| Forests.SubsequenceNoHeavier | KruskalAlgorithmProject/Program.cs:52-59 | Edges kept from before position k of the sorted list are no heavier than the k-th edge |
| Forests.AcyclicSubsequence | KruskalAlgorithmProject/Program.cs:59 | Dropping edges from an acyclic list keeps it acyclic |
| Forests.AcyclicRefineBound | KruskalAlgorithmProject/Program.cs:43-65 | An acyclic list whose every edge is spanned by another acyclic list has no more edges than that list |
| Optimality.CyclePropertyAccept | KruskalAlgorithmProject/Program.cs:57-59 | Keeping an edge no lighter than the kept ones keeps every scanned edge joined by kept edges no heavier than it, and joins the new edge |
| Optimality.CyclePropertyReject | KruskalAlgorithmProject/Program.cs:57 | A skipped edge's endpoints are already joined by kept edges, all of them no heavier than it |
| Optimality.LighterInPrefix | KruskalAlgorithmProject/Program.cs:46 | In the sorted list, an edge lighter than the k-th lies before it |
| Optimality.LighterJoined | KruskalAlgorithmProject/Program.cs:52-61 | Every input edge lighter than the k-th result edge has its endpoints connected by the first k result edges |
| Optimality.LighterCount | KruskalAlgorithmProject/Program.cs:43-65 | No acyclic list of input edges has more than k edges lighter than the k-th edge of the result |
| Optimality.SumBound | KruskalAlgorithmProject/Program.cs:96-100 | A sorted list weighs no more than any equally long list that never has more than k edges lighter than the sorted list's k-th edge |
| Optimality.MinimumWeight | KruskalAlgorithmProject/Program.cs:43-65 | A sorted spanning forest with the cycle property weighs no more than any other spanning forest of the same edges |

## Left out

- `Main`, the random graph generator, `Stopwatch` and `Console.WriteLine` are not modelled. `TestGraph` returns the tree and its total instead of printing them with the elapsed time.
- Kruskal.TotalWeight: the C# `int` sum can wrap around on overflow; the model sums unbounded integers, so the total is exact only when no 32-bit overflow occurs.
- Edges.WeightSum: the same unbounded sum; 32-bit wrap-around is not modelled.
- Edges.Sort: the library introsort of `List<Edge>.Sort` is not modelled. It is replaced by an insertion sort specified only as "sorted and a permutation". The order among equal-weight edges is therefore left open. Every property of `KruskalMST` is proved for any such order.
- Union by rank is not modelled because the code has none: `Union` always links the first root under the second. No logarithmic height bound or complexity claim is made.
- Kruskal.Graph.Find: stated over a ghost depth that witnesses the termination of the parent chains. C# call-stack depth is not modelled.
- Kruskal.Graph.KruskalMST: requires every edge's endpoints to lie in `[0, vertices)` and `vertices >= 0`. The C# code throws an index or overflow exception in those cases, and such exceptions are not modelled.
- `Edge` is a mutable C# class with property setters. It is modelled as an immutable value, since nothing in the core mutates an edge after construction.
- `Find` and `Union` are instance methods in C# that never touch the instance. They are modelled as static methods over the parent array.
- The foreach loop runs over the local sorted list, which `_edges` is set to beforehand, so it is the same sequence. It is split into `Scan` (the loop) and `ScanEdge` (its body).
