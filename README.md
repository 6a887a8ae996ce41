# Chazelle's soft heap and MST building blocks, in Dafny

This project models the sequential core of a C++ implementation of Chazelle's
soft heap and of the pieces of Chazelle's minimum-spanning-tree algorithm built
on it, and proves properties of the model.

- `csoftheap.dfy` (module `CSoftHeap`): the C-style soft heap. It has a list of heads
  kept in strictly increasing rank order, each with a `suffix_min` pointer. `meld`
  is a binary carry, `fix_minlist` repairs the pointers, and `sift` pools item
  lists ("car-pooling") only above rank `r`. `deletemin` returns an inserted key
  and removes it. When every rank stays at or below `r`, it returns the least key.
- `softheapcpp.dfy` (module `SoftHeapCpp`): the C++ template port. Its `std::list`
  of queues becomes a class with a sequence of heads, and each node owns a vector
  of children and a value list. It has `Insert`, `Meld`, `FixMinList` and
  `DeleteMin` with its re-meld and sift paths.
- `comparable_object.dfy` (module `ComparableObject`): the null-as-infinity
  comparison wrapper, proved to be a strict total order.
- `common.dfy` (module `Common`): `SoftHeapSelect`, a quickselect whose pivot is the
  largest of the values a soft heap gives up. It is proved to return the k-th
  smallest element for any heap that only ever returns an element it holds.
  Also `IsRangeContains`, `IsInRange` and `LazyList`.
- `kruskal.dfy` (module `Kruskal`): Kruskal's algorithm with union-find, path
  compression and union by rank, over arrays. The result is tied to a functional
  specification: sort by weight, then keep each edge whose ends lie in different
  classes. The kept edges are shown to form a spanning forest of the scanned
  edges, with connectivity defined by walks along edges.
- `graph_details.dfy` and `graph.dfy` (modules `GraphDetails`, `Graph`): the
  contractible graph. It has an edge table with an active-index list, contracted
  and disabled flags, and parent links per vertex. The operations are
  `ContractEdge`, parallel-edge pruning, and a Boruvka phase. The vertex count is
  tied to the number of contracted edges by an invariant.
- `mst_utils.dfy` (module `MSTUtils`): the Ackermann-like table `S(i, j)`, the
  parameter `t` and the target sizes.
- `decorator.dfy` and `subgraph.dfy` (modules `Decorator`, `TreeSubgraph`): the
  lazy-deletion heap decorator and the node of the MST hierarchy. Both sit over an
  abstract inner heap of edge entries.
- `mst_test.dfy` and `graph_generator.dfy` (modules `MstTest`, `GraphGenerator`):
  the binomial-tree test-graph generators and the matrix row printer, with its
  round trip through a parser.
- `wrappers.dfy` and `measures.dfy`: `Option`/`Result` with the library's error
  kinds, and small shared helpers.

Pointers and heap allocation become values: sequences of heads, and trees whose
children a node owns. Where the source mutates an object's fields, the model is a
class whose methods state the new state. Exceptions become `Result` failures.

## Model

| member | source | states |
|---|---|---|
| ComparableObject.NullIsTop | SoftHeapCpp/Utils.h:56-65 | Null is never less than anything. Every non-null value is less than null. `<=` and `>=` against null hold as with +infinity. |
| ComparableObject.LessAgreesWithExtendedOrder | SoftHeapCpp/Utils.h:56-65 | `<` coincides with the order on the integers extended by a top element +infinity. |
| ComparableObject.EqIsValueEquality | SoftHeapCpp/Utils.h:45-54 | `==` holds exactly when both are null or both hold equal values. `!=` is its negation. |
| ComparableObject.LessIsStrictTotalOrder | SoftHeapCpp/Utils.h:56-65 | `<` is irreflexive, asymmetric and transitive, and any two keys that are not `==` are comparable. |
| ComparableObject.DerivedOperators | SoftHeapCpp/Utils.h:67-71 | `<=`, `>` and `>=` agree with their definitions from `<` and `==`. |
| MSTUtils.S | MST/MSTUtils.cpp:34-44 | Succeeds exactly when both arguments are at least 1, and then the value is at least 2. A zero argument is an out-of-range failure. |
| MSTUtils.SFirstRow | MST/MSTUtils.cpp:39-40 | S(1, j) = 2j. |
| MSTUtils.SFirstColumn | MST/MSTUtils.cpp:41-42 | S(i, 1) = 2 for every i >= 2. |
| MSTUtils.SStaticChecks | MST/MSTUtils.cpp:46-47 | The compile-time checks S(1, 5) = 10 and S(100500, 1) = 2 hold. |
| MSTUtils.SGrowsWithRow | MST/MSTUtils.cpp:43 | For j >= 2, S(i, j) >= i + 1, proved by induction on the recursion. |
| MSTUtils.FindParamT | MST/MSTUtils.cpp:56-68 | Fails exactly when d = 0. For d = 1 it returns 1. Otherwise it returns the least t >= 1 with vertexCount <= S(t, d)^3. |
| MSTUtils.SAsWritten | MST/MSTUtils.cpp:34-44 | The table as computed in `uint32_t`: every value is below 2^32, and a zero argument (including one reached through a wrapped inner value) throws out of range. |
| MSTUtils.SAsWrittenWrapsToZero | MST/MSTUtils.cpp:43 | In 32 bits S(2, 5) = 2^31 agrees with the unbounded table, but S(2, 6) wraps to 0 where the unbounded table holds 2^63. |
| MSTUtils.SAsWrittenSecondRowThrows | MST/MSTUtils.cpp:36-43 | In 32 bits S(2, j) throws for every j >= 7, because the recursion reaches S(1, S(2, 6)) = S(1, 0). Proved by induction on j. |
| MSTUtils.SAsWrittenThirdRowThrows | MST/MSTUtils.cpp:36-43 | In 32 bits S(3, j) throws for every j >= 3, because S(3, 3) needs S(2, S(3, 2)) = S(2, 16). |
| MSTUtils.FindParamTAsWrittenThrows | MST/MSTUtils.cpp:56-68 | For d = 6 and 2000 vertices, the source's loop passes t = 1 (12^3 < 2000) and t = 2 (the wrapped 0), and then S(3, 6) throws. With the unbounded table, t = 2 is already the answer. |
| MSTUtils.CalculateTargetSize | MST/MSTUtils.cpp:70-75 | Succeeds exactly when t >= 1 (height 1) or t >= 2 (other heights). The size is at least 8, and exactly 8 at height 1. Height 0 wraps to 2^32 - 1. |
| Common.Heap.constructor | Common/Common.h:49-51 | An empty abstract soft heap. |
| Common.Heap.Insert | Common/Common.h:51 | Adds the value to the heap's multiset. |
| Common.Heap.DeleteMin | Common/Common.h:56 | Returns some element the heap holds and removes one copy of it. This is all the selection relies on. |
| Common.LoadHeap | Common/Common.h:49-51 | After inserting every element, the heap holds exactly the multiset of the input. |
| Common.LargestRemoved | Common/Common.h:53-59 | Exactly `count` (size/3 in the caller) values are removed from the heap, the heap keeps the rest, and the pivot is the largest removed value. It starts from the first removed value, not -1 (see Findings). |
| Common.SoftHeapSelect | Common/Common.h:41-74 | For k < size, the result is the k-th smallest: at most k elements are below it and more than k are at or below it. |
| Common.SelectLeft | Common/Common.h:67-68 | The k-th smallest of the part below the pivot is the k-th smallest of the input. |
| Common.SelectPivot | Common/Common.h:61-65 | When exactly k elements are below the pivot, the pivot is the k-th. |
| Common.SelectRight | Common/Common.h:70-73 | When k exceeds the size of the part below the pivot, the (k - partition_index - 1)-th of the right part is the k-th of the input. |
| Common.SidesShorter | Common/Common.h:61-73 | Both recursive calls are on vectors strictly shorter than the input, because the pivot is in neither. |
| Common.SplitCounts | Common/Common.h:61 | Splitting by the pivot into the parts below, equal to and above it partitions the vector, and every count adds up over the three parts. |
| Common.RightCounts | Common/Common.h:71 | For q at or above the pivot, the count at or below q is the left part, the pivot and the right part's count. |
| Common.KthExists | Common/Common.h:43-46 | Every index below the size has a k-th smallest element in the input. |
| Common.KthUnique | Common/Common.h:41-74 | The k-th smallest element is unique. |
| Common.CountsByMultiset | Common/Common.h:61-73 | The counts below and at a value depend only on the multiset of the vector, not on its order. |
| Common.SelectOnShuffledRange | SoftHeapCpp/Test/SoftHeapCppTest.cpp:93-108 | On any permutation of 0..n-1, the k-th smallest element (what selection returns) is k. |
| Common.PivotAsWrittenMissesInput | Common/Common.h:53-59 | As written, with the pivot starting at -1, the input [-5, -4, -3, 0] removes only -5. The pivot -1 is then not in the input. |
| Common.Find | Common/Common.h:77-81 | Returns an index holding the value, or the length when the value is absent. |
| Common.IsRangeContains | Common/Common.h:77-81 | True exactly when the value occurs in the range. |
| Common.IsInRange | Common/Common.h:83-87 | The predicate it returns holds of v exactly when v occurs in the range. |
| Common.LazyList.Size | Common/Common.h:130 | The length of the window between the two iterators. |
| Common.LazyList.Front | Common/Common.h:132 | The first element of the window. |
| Common.LazyList.Back | Common/Common.h:133 | The last element of the window. |
| Common.LazyListVisitsNothing | Common/Common.h:128-129 | As written, a range-for over any LazyList visits no element, whatever its size. |
| Common.LazyListVisitsWindow | Common/Common.h:128-133 | With the intended `end()`, the traversal visits exactly the window, `Size()` elements from `Front()` to `Back()`. |
| Decorator.MSTSoftHeapDecorator.constructor | MST/MSTSoftHeapDecorator.cpp:32-37 | A decorator with an empty inner heap and no live entries. |
| Decorator.MSTSoftHeapDecorator.Insert | MST/MSTSoftHeapDecorator.cpp:39-45 | A fresh entry for the edge is added to both the inner heap and the live list, and the live edges gain exactly that edge. |
| Decorator.MSTSoftHeapDecorator.DeleteMin | MST/MSTSoftHeapDecorator.cpp:47-57 | Fails with "No available queues" exactly when nothing is live. Otherwise it returns the edge of a live entry of least weight and removes that entry from the live list. |
| Decorator.MSTSoftHeapDecorator.FindMin | MST/MSTSoftHeapDecorator.cpp:59-70 | Leaves the live list as it was. It returns None exactly when nothing is live, and otherwise a live entry of least weight. |
| Decorator.MSTSoftHeapDecorator.DeleteAndReturnIf | MST/MSTSoftHeapDecorator.cpp:72-86 | Returns the entries satisfying the predicate and keeps the others in order. The inner heap is untouched (deletion is lazy). |
| Decorator.MSTSoftHeapDecorator.Meld | MST/MSTSoftHeapDecorator.cpp:88-92 | The other decorator's live entries and heap are appended to this one's, and the other is left empty. |
| Decorator.MSTSoftHeapDecorator.PopHeap | MST/MSTSoftHeapDecorator.cpp:49 | Removes and returns a heap entry of least weight. |
| Decorator.Scan | MST/MSTSoftHeapDecorator.cpp:75-84 | The list walk leaves exactly the kept entries and returns exactly the taken ones. |
| Decorator.TakenKeptPartition | MST/MSTSoftHeapDecorator.cpp:72-86 | Taken and kept entries partition the live list as a multiset. |
| Decorator.TakenSatisfies | MST/MSTSoftHeapDecorator.cpp:77-80 | Every taken entry satisfies the predicate. |
| Decorator.KeptMembers | MST/MSTSoftHeapDecorator.cpp:81-83 | Every kept entry is a live entry that fails the predicate. |
| Decorator.WithoutMembers | MST/MSTSoftHeapDecorator.cpp:55 | `list::remove` keeps exactly the entries different from the removed one. |
| Decorator.MinIndex | MST/MSTSoftHeapDecorator.cpp:49 | Indexes an entry of least weight in a non-empty list. |
| TreeSubgraph.SubGraph.Leaf | MST/MSTTreeSubgraph.cpp:30-37 | A node for one vertex at the given level, with no children, level + 1 fresh empty heaps, and that vertex as its only vertex. It meets its target size. |
| TreeSubgraph.SubGraph.Above | MST/MSTTreeSubgraph.cpp:39-46 | A node one level above its only child, linked without an edge, whose vertices are the child's. It meets its target size only when the target is at most 1. |
| TreeSubgraph.NewHeaps | MST/MSTTreeSubgraph.cpp:48-56 | Makes the requested number of fresh, distinct, empty heaps. |
| TreeSubgraph.SubGraph.IsMeetTargetSize | MST/MSTTreeSubgraph.cpp:63-66 | A leaf always meets its target size. An inner node meets it exactly when it has at least targetSize children. |
| TreeSubgraph.SubGraph.GetVertices | MST/MSTTreeSubgraph.cpp:68-81 | Collects the vertices of the whole subtree, from leftmost leaf to rightmost. |
| TreeSubgraph.SubGraph.PushToHeap | MST/MSTTreeSubgraph.cpp:83-86 | The edge is added to the node's own heap H(level): a fresh entry for it goes to the end of both the live list and the inner heap (which `ExtractItems` returns), and every other heap is unchanged. |
| TreeSubgraph.SubGraph.MeldHeapsFrom | MST/MSTTreeSubgraph.cpp:88-93 | For each index below this node's level, the other node's heap is melded into the heap at the same index: both its live list and its inner heap are appended, and the other's are left empty. |
| TreeSubgraph.SubGraph.MeldAt | MST/MSTTreeSubgraph.cpp:91-92 | One index of that loop: heap i gains the other's heap i (live list and inner heap), which is emptied, and every other heap of either node is unchanged. |
| TreeSubgraph.SubGraph.AddToMinLinks | MST/MSTTreeSubgraph.cpp:95-98 | Pushes the edge onto the min-link stack. |
| TreeSubgraph.SubGraph.PopMinLink | MST/MSTTreeSubgraph.cpp:100-104 | Pops the top of the min-link stack, and does nothing on an empty stack. |
| TreeSubgraph.SubGraph.ExtractItems | MST/MSTTreeSubgraph.cpp:106-123 | Returns the whole contents of the last min(2, level) heaps, the last heap first, stale entries included. It then leaves level + 1 fresh empty heaps. |
| TreeSubgraph.SubGraph.AddChild | MST/MSTTreeSubgraph.cpp:125-128 | Appends the child and its vertices. A node that met its target size still does. |
| TreeSubgraph.SubGraph.PopLastChild | MST/MSTTreeSubgraph.cpp:130-137 | Removes and returns the last child, and the other children stay. |
| TreeSubgraph.SubGraph.FindHeapWithMin | MST/MSTTreeSubgraph.cpp:139-153 | None exactly when every heap has nothing live. Otherwise it returns the index of a heap whose minimum is no heavier than any other heap's. |
| TreeSubgraph.SubGraph.DeleteAndReturnIf | MST/MSTTreeSubgraph.cpp:156-162 | Collects, from every heap, the entries satisfying the predicate, and leaves each heap with the rest. |
| TreeSubgraph.SubGraph.DeleteAndReturnIfAt | MST/MSTTreeSubgraph.cpp:159-160 | One heap of that loop. |
| TreeSubgraph.TakenAll | MST/MSTTreeSubgraph.cpp:156-162 | Every collected edge satisfies the predicate. |
| GraphDetails.Edge.OriginalIndex | Graph/GraphDetails.h:64-67 | The original edge's index for a copy, and the edge's own index otherwise. |
| GraphDetails.NewEdge | Graph/GraphDetails.h:84-85 | A new edge has the given ends, weight and index, is neither contracted nor disabled, and is its own original. |
| GraphDetails.EdgeComparisons | Graph/GraphDetails.h:77-78 | Edges order by weight only, and two edges are equal exactly when their indices are. |
| GraphDetails.Member.SetParent | Graph/GraphDetails.h:96 | Changes the parent link and nothing else. |
| GraphDetails.NewMember | Graph/GraphDetails.cpp:44-47 | A new member is its own root, with the given original vertex and rank. |
| GraphDetails.MemberComparisons | Graph/GraphDetails.h:98-104 | Members are equal exactly when their parents are. The order by rank is asymmetric and does not separate equal ranks. Two roots are equal exactly when their original vertices are. |
| GraphDetails.EdgesView.constructor | Graph/GraphDetails.h:113 | An empty view. |
| GraphDetails.EdgesView.AddEdge | Graph/GraphDetails.cpp:49-53 | Appends the edge at the next index, with its ends ordered as (min, max), and makes that index active. |
| GraphDetails.EdgesView.DisableEdge | Graph/GraphDetails.cpp:61-65 | Flags the edge disabled and drops its index from the active list, leaving everything else. |
| GraphDetails.EdgesView.ContractEdge | Graph/GraphDetails.cpp:55-59 | Flags the edge contracted and drops its index from the active list. |
| GraphDetails.EdgesView.Get | Graph/GraphDetails.cpp:67-77 | For an index below the size (the source asserts it), returns the table's edge carrying that index. |
| GraphDetails.EdgesView.Visit | Graph/GraphDetails.h:144-147 | Iteration yields one edge per active index, the edge at that index. |
| GraphDetails.ViewVisitsNotDisabled | Graph/GraphDetails.h:164-171 | The iterator over `Original()` visits exactly the edges that are not disabled. |
| GraphDetails.VisitIsNotDisabled | Graph/GraphDetails.h:164-171 | An edge is visited exactly when it is not disabled. |
| GraphDetails.ActiveUpToExact | Graph/GraphDetails.cpp:49-65 | An index is in the active list exactly when its edge is not disabled (a contracted edge is always disabled). |
| GraphDetails.DisableIdempotent | Graph/GraphDetails.cpp:61-65 | Disabling an edge twice is the same as once. |
| GraphDetails.RemoveAll | Graph/GraphDetails.cpp:63 | A value survives exactly when it differs from the removed one, and nothing is added. |
| Kruskal.Graph.constructor | Graph/Kruskal.cpp:12-16 | A graph with the given vertex count and no edges. |
| Kruskal.Graph.AddEdge | Graph/Kruskal.cpp:18-21 | Appends the weighted edge. |
| Kruskal.Graph.KruskalMST | Graph/Kruskal.cpp:23-63 | The edge list becomes the weight-sorted permutation of the old one. The result is the indices of the edges that the sorted scan keeps, starting from singleton classes. |
| Kruskal.SortByWeight | Graph/Kruskal.cpp:26-29 | The result is sorted by weight and is a permutation of the input. |
| Kruskal.InsertByWeight | Graph/Kruskal.cpp:26-29 | Inserting into a sorted list keeps it sorted and adds exactly that edge. |
| Kruskal.SortKeepsEndpoints | Graph/Kruskal.cpp:26-29 | Sorting keeps every edge's endpoints in range. |
| Kruskal.DisjointSets.constructor | Graph/Kruskal.cpp:65-81 | n + 1 slots, each its own parent with rank 0. |
| Kruskal.DisjointSets.Find | Graph/Kruskal.cpp:83-90 | Returns the root of u's tree and points u at it. No class changes, and the ranks are kept. |
| Kruskal.DisjointSets.Merge | Graph/Kruskal.cpp:92-105 | Union by rank on the old roots rx and ry of x and y. If rx has the higher rank, ry's parent becomes rx. Otherwise rx's parent becomes ry, and on equal ranks ry's rank grows by one; no other rank changes. The two classes become one, and every other class is unchanged. |
| Kruskal.MergeAll | Graph/Kruskal.cpp:92-105 | The same link on the parent and rank contents: the result is still a rank-ordered forest, the two classes share y's new representative, which is one of their old roots, and every other vertex keeps its root. |
| Kruskal.Root | Graph/Kruskal.cpp:83-90 | The root reached by following parents, with ranks strictly growing along the way. |
| Kruskal.CompressKeepsRoots | Graph/Kruskal.cpp:87-88 | Pointing a node straight at its root keeps the forest ranked and changes no node's root. |
| Kruskal.LinkRoots | Graph/Kruskal.cpp:98-104 | Linking root a under root b sends every node of a's class to b and leaves every other root. |
| Kruskal.LinkAll | Graph/Kruskal.cpp:98-104 | With the rank raised as union by rank does, the forest stays ranked and every node's root is its old root, renamed to top if it was child. |
| Kruskal.MergeMatchesUnion | Graph/Kruskal.cpp:92-105 | Merge's effect on the roots equals the functional union of the two classes. |
| Kruskal.ConsiderEdge | Graph/Kruskal.cpp:43-58 | An edge is kept exactly when its ends lie in different classes, and then the classes are joined. |
| Kruskal.KeepJoiningEdges | Graph/Kruskal.cpp:32-62 | The loop keeps exactly the edges that the functional selection keeps. |
| Kruskal.SortAndJoin | Graph/Kruskal.cpp:26-62 | Sorting followed by the join loop computes the specification's result. |
| Kruskal.JoinStep | Graph/Kruskal.cpp:38-59 | One iteration advances the selection by one edge. |
| Kruskal.KruskalResultShape | Graph/Kruskal.cpp:38-59 | On a sorted list of edges over V vertices, at most V - 1 edges are kept, in non-decreasing weight. |
| Kruskal.SelectBound | Graph/Kruskal.cpp:38-59 | Every kept edge joins two classes, so at most (classes - 1) edges are kept. |
| Kruskal.SelectKeepsWeightOrder | Graph/Kruskal.cpp:38-59 | Kept edges come out in the order of a sorted input. |
| Kruskal.SelectKeepsOnlyScanned | Graph/Kruskal.cpp:38-59 | Every kept edge is one of the scanned edges. |
| Kruskal.KruskalKeepsSpanningForest | Graph/Kruskal.cpp:38-59 | The kept edges form a spanning forest of the scanned edges: no kept edge joins two vertices that a walk along the edges kept before it already connects, and the ends of every scanned edge are connected by a walk along kept edges. |
| Kruskal.SelectGrowsForest | Graph/Kruskal.cpp:37-59 | Scanning from tags that label the components of the edges kept so far, no kept edge closes a cycle. |
| Kruskal.SelectSpans | Graph/Kruskal.cpp:37-59 | Scanning from tags that label the components of the edges kept so far, every scanned edge ends with its two ends connected through kept edges. |
| Kruskal.UnionTracksComponents | Graph/Kruskal.cpp:45-57 | When an edge joins two different classes, the merged tags label exactly the components of the kept edges plus that edge. |
| Kruskal.MergedClassesConnect | Graph/Kruskal.cpp:57 | Two vertices that the merge puts in one class are connected by a walk once the edge is added. |
| Kruskal.SingletonsAreComponents | Graph/Kruskal.cpp:31-32 | Before any edge is kept, every vertex is a component of its own: distinct vertices are not connected. |
| Kruskal.UnionRemovesOneClass | Graph/Kruskal.cpp:58 | Joining two different classes lowers the number of classes by one. |
| Graph.Graph.constructor | Graph/Graph.cpp:38-49 | From a square matrix: one subgraph per row, all vertices counted. For each row i and each j < i, an edge (j, i) weighted max(adjacency[i][j], adjacency[j][i]) is added when that weight is nonzero, numbered in scan order. |
| Graph.Graph.AddRows | Graph/Graph.cpp:41-48 | Adds the edges of the remaining rows. |
| Graph.Graph.AddRow | Graph/Graph.cpp:46-47 | Adds the edges of one row. |
| Graph.Graph.AddEntry | Graph/Graph.cpp:47 | Adds one cell's edge, weighted by the larger of the two mirrored cells. |
| Graph.MatrixEntriesExact | Graph/Graph.cpp:41-48 | An (i, j) pair is listed exactly when i < j and the cell is nonzero. |
| Graph.RowEntriesExact | Graph/Graph.cpp:46-47 | The same for one row. |
| Graph.MatrixEntriesDistinct | Graph/Graph.cpp:41-48 | No pair is listed twice. |
| Graph.MatrixEntriesBelow | Graph/Graph.cpp:41-48 | Every listed endpoint is a vertex of the matrix. |
| Graph.Heavier | Graph/Graph.cpp:47 | The larger of the two weights. |
| Graph.Graph.AddEdge | Graph/Graph.cpp:51-57 | Ignores a self-loop or a zero weight. Otherwise it appends a new edge with ends ordered as (min, max) at the next index. |
| Graph.Graph.AddVertex | Graph/Graph.cpp:44 | Adds a new root vertex. |
| Graph.Root | Graph/Graph.cpp:105-114 | Follows parent links to a root, and a root is its own. |
| Graph.LinkRoot | Graph/Graph.cpp:95-98 | Linking root a under root b sends every vertex of a's class to b and leaves every other root. |
| Graph.LinkRoots | Graph/Graph.cpp:95-98 | The forest stays well founded and the roots are relinked: every vertex of the child's class now has the top root. |
| Graph.Graph.RemoveMultipleEdgesForVertex | Graph/Graph.cpp:59-83 | The new edge table is the old one with the prune scan's drops disabled (`PrunedAround`). The active list loses exactly those indices, and the vertex count, the contracted flags and every vertex's representative are unchanged. Graph.PruneLeavesOneLightestEdge says which edges stay. |
| Graph.Graph.ScanParallelEdges | Graph/Graph.cpp:63-79 | The scan's result is the functional prune of the active edges. |
| Graph.Graph.DisableAll | Graph/Graph.cpp:81-82 | Disables exactly the listed edges. |
| Graph.PruneStep | Graph/Graph.cpp:77-78 | The corrected step: the edge line 77 disables is kept as the drop, and the record moves to the other one. The kept edge is the lighter, the later one on equal weights, and exactly one of the two is dropped. |
| Graph.PruneStepAgreesOffTies | Graph/Graph.cpp:77-78 | The corrected and as-written steps drop the same edge always, and differ in nothing when the weights differ. |
| Graph.PruneStepAsWritten | Graph/Graph.cpp:77-78 | On equal weights the recorded edge stays and is also dropped. |
| Graph.PruneKeepsOnlyCheapest | Graph/Graph.cpp:59-83 | The kept edge for each neighbour class is no heavier than any edge to that class. |
| Graph.PruneLeavesOneLightestEdge | Graph/Graph.cpp:59-83 | Each neighbour class keeps exactly one edge, and every other edge to it is dropped. |
| Graph.PruneAsWrittenKeepsHeavierEdge | Graph/Graph.cpp:77-78 | As written, weights 5, 5, 3 (indices 0, 1, 2) to one class drop index 0 twice and leave index 1 undropped; the corrected scan drops 0 and then 1. |
| Graph.Graph.ContractEdge | Graph/Graph.cpp:85-103 | Nothing changes if both ends already share a root. Otherwise the two classes merge and the vertex count drops by one. The new edge table is the edge contracted (and disabled), followed by the parallel-edge prune around the new root, taken on the merged partition. Exactly this edge gains the contracted flag. |
| Graph.Graph.MergeAndPrune | Graph/Graph.cpp:95-102 | Merges exactly the two classes and lowers the vertex count by one. The new edge table is the contraction of the edge followed by the prune around the new root. Only this edge gains the contracted flag. |
| Graph.Graph.LinkAndContract | Graph/Graph.cpp:95-100 | Sets the child root's parent to the top root and changes no other member, so every vertex of the first class moves to the second. The edge table changes only in that edge, now contracted and disabled, and the vertex count drops by one. |
| Graph.Graph.BoruvkaPhase | Graph/Graph.cpp:121-146 | Each original vertex's cheapest edge is offered to `ContractEdge` in vertex order. The returned rounds record the partition before each turn: each turn merges the chosen edge's two classes when they differ and changes nothing otherwise. An edge ends up contracted exactly when it was already, or some turn chose it while its ends were in different classes. Every chosen edge's ends end up joined, and the vertex count does not grow. |
| Graph.Graph.PhaseStep | Graph/Graph.cpp:139-143 | One turn of the contraction loop: it extends the record by the new partition and keeps the phase's record correct. |
| Graph.PhaseAdvance | Graph/Graph.cpp:139-143 | Appending one turn to the record: the contracted edges become the earlier ones plus the edge this turn contracts. |
| Graph.ContractTurn | Graph/Graph.cpp:139-143 | A turn that chose an edge is the step of that choice, and flags exactly that edge when its classes differed. |
| Graph.SkipTurn | Graph/Graph.cpp:139-143 | A vertex with no choice changes neither the partition nor the flags. |
| Graph.StepOfContract | Graph/Graph.cpp:85-103 | What `ContractEdge` does to the partition is the step of any choice with the same ends. |
| Graph.Graph.ChooseCheapest | Graph/Graph.cpp:123-137 | The recorded edge of each original vertex is the one the functional cheapest-edge scan of the active edges picks. An edge is offered to both of its original ends, unless they coincide. |
| Graph.CheapestScanIsCheapest | Graph/Graph.cpp:123-137 | The recorded edge of an original vertex is no heavier than any active edge with that vertex as an original end. |
| Graph.OfferKeepsCheapest | Graph/Graph.cpp:133-135 | Offering an edge keeps the lighter of it and the recorded one. |
| Graph.Graph.VertexesCount | Graph/Graph.cpp:148-153 | Equals the number of subgraphs minus the number of contracted edges, that is, the number of classes. |
| Graph.Graph.EdgesCount | Graph/Graph.cpp:155-160 | Equals the number of active edges, none of which is contracted. |
| Graph.Graph.Mst | Graph/Graph.cpp:162-169 | Returns one pair per contracted edge. |
| Graph.ContractedEnds | Graph/Graph.cpp:162-169 | Lists exactly the original end pairs of the contracted edges, one per contracted edge. |
| Graph.ConsistentContract | Graph/Graph.cpp:85-103 | Contracting an edge between two classes keeps roots + contracted edges = vertices. |
| Graph.ConsistentAddVertex | Graph/Graph.cpp:44 | Adding a vertex keeps that invariant. |
| Graph.ConsistentAddEdge | Graph/Graph.cpp:51-57 | Adding an edge keeps that invariant. |
| Graph.ConsistentDisable | Graph/Graph.cpp:81-82 | Disabling an edge keeps that invariant. |
| Graph.RelinkMerges | Graph/Graph.cpp:95-98 | Relinking one root under another merges exactly those two classes. |
| Graph.CoarserKeepsJoined | Graph/Graph.cpp:121-146 | Pairs joined earlier in the phase stay joined. |
| Graph.Graph.CurrentSubgraphs | Graph/GraphDetails.cpp:39-42 | Returns the roots of the classes of the edge's two ends. |
| MstTest.GenerateMatrix | MST/Test/MSTTest.cpp:31-73 | Fills an n x n matrix whose every cell is the specification's cell for the generated edge list. |
| MstTest.ShiftedCopy | MST/Test/MSTTest.cpp:37-42 | Copies the edges with both ends shifted by the offset. |
| MstTest.Attachments | MST/Test/MSTTest.cpp:48-57 | Walking the edges backwards, each edge (i, j) gets a new vertex m and adds (i, m) and (j, m); the counter advances by the number of edges. |
| MstTest.FillMatrix | MST/Test/MSTTest.cpp:61-71 | Writes each edge's weight into both mirrored cells. |
| MstTest.BinomialShape | MST/Test/MSTTest.cpp:33-45 | A binomial tree of order k has 2^k - 1 edges, all between its 2^k vertices, ordered and without duplicates. |
| MstTest.PostShape | MST/Test/MSTTest.cpp:46-59 | z rounds multiply the edge count by 3^z, never lower the vertex count, and keep the edges ordered and without duplicates. |
| MstTest.GeneratedShape | MST/Test/MSTTest.cpp:31-59 | The generated list has (2^k - 1) * 3^z edges, ordered below the vertex count and without duplicates. |
| MstTest.AttachShape | MST/Test/MSTTest.cpp:48-58 | One round triples the edge count, keeps the edges ordered below the new vertex count, and adds no duplicate. |
| MstTest.GeneratedMatrix | MST/Test/MSTTest.cpp:61-71 | The matrix is symmetric with a zero diagonal, and edge t has weight |E| - t. |
| MstTest.CellSymmetric | MST/Test/MSTTest.cpp:65-71 | Cell (i, j) equals cell (j, i). |
| MstTest.CellDiagonal | MST/Test/MSTTest.cpp:65-71 | Diagonal cells are 0. |
| MstTest.CellOfEdge | MST/Test/MSTTest.cpp:65-71 | The cell of edge t holds its weight, total - t. |
| MstTest.CellOfNonEdge | MST/Test/MSTTest.cpp:65-71 | A cell of no edge is 0. |
| MstTest.Shift | MST/Test/MSTTest.cpp:40 | Shifts both ends of every edge. |
| MstTest.Attach | MST/Test/MSTTest.cpp:54-55 | Each edge contributes two edges to its own new vertex, so the round adds twice as many edges as there were. |
| GraphGenerator.Augment | Misc/graph_generator.py:10-14 | Adds one new node per edge of the reversed list, joined to the edge's second end. |
| GraphGenerator.AugmentedAt | Misc/graph_generator.py:10-14 | New edge t joins the second end of the (|E| - 1 - t)-th edge to node n + t. |
| GraphGenerator.AugmentShape | Misc/graph_generator.py:10-14 | 2|E| distinct edges, every node below n + |E|, and each new node on exactly one edge. |
| GraphGenerator.NumberWeights | Misc/graph_generator.py:19-23 | The edges of the reversed list get weights 1, 2, ... in order. |
| GraphGenerator.WeightsOnce | Misc/graph_generator.py:19-23 | Each weight is used exactly once. |
| GraphGenerator.PrintMatrix | Misc/graph_generator.py:25-30 | One output line per matrix row, each the row's `std::array{ ... },` form. |
| GraphGenerator.FormatRowRoundTrip | Misc/graph_generator.py:26-30 | Parsing a formatted row gives the row back. |
| GraphGenerator.CellShape | Misc/graph_generator.py:29 | A cell is right-aligned to width 2 and followed by ", ". |
| GraphGenerator.NatToString | Misc/graph_generator.py:29 | Decimal digits only, with no leading zero. |
| GraphGenerator.ParseNatToString | Misc/graph_generator.py:29 | Reading a number's decimal form gives the number back. |
| GraphGenerator.ParseCellsRoundTrip | Misc/graph_generator.py:28-29 | Parsing the formatted cells gives the cells back. |
| CSoftHeap.SoftHeap.constructor | CSoftHeap/CSoftHeap.cpp:48-59 | An empty heap with no heads and no items. |
| CSoftHeap.SoftHeap.Insert | CSoftHeap/CSoftHeap.cpp:61-75 | The key joins the heap's items, the weight grows by one, and the heap invariant is kept. |
| CSoftHeap.SoftHeap.Meld | CSoftHeap/CSoftHeap.cpp:127-171 | The queue's items join the heap's items, the weight grows by 2^rank, and head ranks stay strictly increasing with correct suffix_min pointers. |
| CSoftHeap.Carry | CSoftHeap/CSoftHeap.cpp:136-156 | Links q0 with the heads of equal rank from p on, like a binary carry. The carried queue holds their items and weight, and its rank is below the next head's. |
| CSoftHeap.CarryOnce | CSoftHeap/CSoftHeap.cpp:138-155 | One carry step keeps that invariant for one more head. |
| CSoftHeap.LinkQueues | CSoftHeap/CSoftHeap.cpp:138-154 | Two equal-rank queues become one of rank + 1 holding both queues' items. |
| CSoftHeap.LinkOk | CSoftHeap/CSoftHeap.cpp:138-154 | The linked queue is well formed. |
| CSoftHeap.FirstAtLeast | CSoftHeap/CSoftHeap.cpp:129-131 | The first head whose rank is at least the new rank. |
| CSoftHeap.MeldSplice | CSoftHeap/CSoftHeap.cpp:158-168 | Splicing the carried queue between prevhead and tohead keeps ranks strictly increasing and sums the items and weights. |
| CSoftHeap.SoftHeap.FixMinlist | CSoftHeap/CSoftHeap.cpp:173-187 | The heads stay the same, and every suffix_min points at the least ckey among its head and the later ones. |
| CSoftHeap.FixStep | CSoftHeap/CSoftHeap.cpp:180-186 | One step of that loop keeps the pointers behind it correct. |
| CSoftHeap.MinOfLeast | CSoftHeap/CSoftHeap.cpp:182 | The chosen head has the least key. |
| CSoftHeap.SoftHeap.DeleteMin | CSoftHeap/CSoftHeap.cpp:77-125 | Returns one of the heap's items and removes it. When the weight is below 2^(r+1), so that no rank exceeds r, it is the least item. |
| CSoftHeap.SoftHeap.Remeld | CSoftHeap/CSoftHeap.cpp:93-104 | Re-melding an exhausted root's children keeps the items and lowers the weight. |
| CSoftHeap.SoftHeap.SiftHead | CSoftHeap/CSoftHeap.cpp:106-115 | Sifting an exhausted root keeps the items. Either a head goes or one stale node fewer remains. |
| CSoftHeap.SoftHeap.Replenish | CSoftHeap/CSoftHeap.cpp:82-117 | One round of the outer loop keeps the items and makes progress. |
| CSoftHeap.SoftHeap.RemoveHead | CSoftHeap/CSoftHeap.cpp:95-96 | Unlinking a head removes exactly its items and weight. |
| CSoftHeap.SoftHeap.ReplaceQueue | CSoftHeap/CSoftHeap.cpp:107 | Replacing a head's queue swaps its items and keeps the weight. |
| CSoftHeap.PopFront | CSoftHeap/CSoftHeap.cpp:119-123 | Taking the first item of the list removes exactly that item. |
| CSoftHeap.Sift | CSoftHeap/CSoftHeap.cpp:189-255 | Keeps the rank and the shape, and never grows the tree. |
| CSoftHeap.SiftOk | CSoftHeap/CSoftHeap.cpp:189-255 | Sift keeps the tree well formed and keeps its items. The ckey does not drop, and the number of stale nodes does not grow. |
| CSoftHeap.Pull | CSoftHeap/CSoftHeap.cpp:199-212 | The node keeps its rank, and the nodes below it are exactly those of the sifted `next` and of the child, so the shape is kept. |
| CSoftHeap.Combine | CSoftHeap/CSoftHeap.cpp:215-238 | The node keeps its rank, and the nodes below it are exactly those of the re-sifted `next` and of the child, so the shape is kept. |
| CSoftHeap.Cleanup | CSoftHeap/CSoftHeap.cpp:240-253 | Keeps the rank, ckey and item list, and only removes nodes. |
| CSoftHeap.PullOk | CSoftHeap/CSoftHeap.cpp:199-212 | Pulling keeps the tree well formed and its items. |
| CSoftHeap.CombineOk | CSoftHeap/CSoftHeap.cpp:215-238 | Combining keeps the tree well formed and its items. |
| CSoftHeap.CleanupOk | CSoftHeap/CSoftHeap.cpp:240-253 | Cleanup keeps the tree well formed. |
| CSoftHeap.CleanupCounts | CSoftHeap/CSoftHeap.cpp:240-253 | Cleanup keeps the items and removes no live node. |
| CSoftHeap.ExactItems | CSoftHeap/CSoftHeap.cpp:215-238 | In a node of rank at most r, no item is below the node's ckey, because lists are pooled only above r. |
| CSoftHeap.Exactness | CSoftHeap/CSoftHeap.cpp:215-238 | With total weight below 2^(r+1), the first item of the suffix_min head is the least item of the heap. |
| CSoftHeap.RanksWithin | CSoftHeap/CSoftHeap.cpp:127-171 | A weight below 2^(r+1) bounds every head rank by r, and the first head's suffix_min has the least key. |
| CSoftHeap.ChildWeightBelow | CSoftHeap/CSoftHeap.cpp:93-104 | Re-melding children adds back less weight than the root had. |
| CSoftHeap.DrainInOrder | CSoftHeap/Test/CSoftHeapTest.cpp:11-22 | Inserting 0..n-1 with n <= r and then deleting n times yields 0..n-1 in order. |
| CSoftHeap.Fill | CSoftHeap/Test/CSoftHeapTest.cpp:14-15 | Inserting 0..n-1 leaves exactly those items with weight n. |
| CSoftHeap.Drain | CSoftHeap/Test/CSoftHeapTest.cpp:17-21 | Deleting n times from a heap holding 0..n-1 with n <= r yields 0..n-1 in order. |
| CSoftHeap.DrainOne | CSoftHeap/Test/CSoftHeapTest.cpp:19-20 | From a heap holding k..n-1 with n <= r, a deletion returns k and leaves k+1..n-1. |
| SoftHeapCpp.SoftHeapCpp.constructor | SoftHeapCpp/SoftHeapCpp.h:46-47 | An empty heap with the given r. |
| SoftHeapCpp.SoftHeapCpp.Insert | SoftHeapCpp/SoftHeapCpp.h:232-236 | The value joins the heap's items, the queue list grows by at most one head, and ranks stay strictly increasing with correct suffix-min links. |
| SoftHeapCpp.SoftHeapCpp.Meld | SoftHeapCpp/SoftHeapCpp.h:273-298 | The new head's items and nodes join the heap's, and the queue order and links are kept. |
| SoftHeapCpp.SoftHeapCpp.Place | SoftHeapCpp/SoftHeapCpp.h:286-289 | Inserts the carried head at its rank position. |
| SoftHeapCpp.FirstAtLeast | SoftHeapCpp/SoftHeapCpp.h:278-283 | The first queue whose rank is at least the new rank. |
| SoftHeapCpp.SoftHeapCpp.FixMinList | SoftHeapCpp/SoftHeapCpp.h:300-316 | Roots unchanged, queues after `end` unchanged, and every queue up to `end` points at a least-Ckey queue among itself and its successors. |
| SoftHeapCpp.SuffixMinIsLeast | SoftHeapCpp/SoftHeapCpp.h:300-316 | With every link correct, the first queue's suffix-min has the least Ckey of all. |
| SoftHeapCpp.SoftHeapCpp.DeleteMin | SoftHeapCpp/SoftHeapCpp.h:238-271 | Fails with "No available queues" exactly when there are no queues. Otherwise it returns one of the heap's values and removes it. |
| SoftHeapCpp.SoftHeapCpp.Remeld | SoftHeapCpp/SoftHeapCpp.h:247-253 | Replaces a head by its root's re-melded children, keeping the items with fewer nodes. |
| SoftHeapCpp.SoftHeapCpp.SiftCandidate | SoftHeapCpp/SoftHeapCpp.h:254-266 | Sifts a head's root and unlinks it only when it owns nothing. The items are kept and the node count drops. |
| SoftHeapCpp.SoftHeapCpp.SiftRoot | SoftHeapCpp/SoftHeapCpp.h:256 | Replaces a root by its sifted form. |
| SoftHeapCpp.SoftHeapCpp.Erase | SoftHeapCpp/SoftHeapCpp.h:249 | Removes head c, and exactly its items and nodes. |
| SoftHeapCpp.SoftHeapCpp.ReMeld | SoftHeapCpp/SoftHeapCpp.h:120-130 | Melds each child of the root back into the heap, which gains exactly the children's items. |
| SoftHeapCpp.Ckey | SoftHeapCpp/SoftHeapCpp.h:86-89 | Null exactly when the value list is empty, and otherwise its front, which is one of the node's items. |
| SoftHeapCpp.Adopt | SoftHeapCpp/SoftHeapCpp.h:115-118 | The node keeps its values, gains the other root as its front child, and its rank grows by one. |
| SoftHeapCpp.HeadMeldOk | SoftHeapCpp/SoftHeapCpp.h:213-219 | Items and node counts add up, the result's Ckey is no larger than either root's, and equal ranks give rank + 1. |
| SoftHeapCpp.PopFront | SoftHeapCpp/SoftHeapCpp.h:106-111 | Taking the front value removes exactly it from the items. |
| SoftHeapCpp.SiftImpl | SoftHeapCpp/SoftHeapCpp.h:153-174 | Every child but the last stays where it was. |
| SoftHeapCpp.SiftImplSums | SoftHeapCpp/SoftHeapCpp.h:153-174 | Sifting keeps the items and removes exactly one node when there are children. |
| SoftHeapCpp.SiftDown | SoftHeapCpp/SoftHeapCpp.h:138-151 | Keeps the items, removes a node when there are children, keeps the children before `end`, and equals the one-level sift while ranks stay within r. |
| SoftHeapCpp.Sift | SoftHeapCpp/SoftHeapCpp.h:132-135 | Keeps the items, removes a node when there are children, leaves a childless node alone, and equals the one-level sift while ranks stay within r. |
| SoftHeapCpp.SiftTakesLastChild | SoftHeapCpp/SoftHeapCpp.h:158 | A sift can take the last child's value 5 as the new Ckey while the smaller value 1 stays below it, so a later DeleteMin need not return the least value. |
| SoftHeapCpp.SiftCanLowerRank | SoftHeapCpp/SoftHeapCpp.h:91-94 | A sift can leave a node whose rank is lower than before. |
| SoftHeapCpp.UnlinkAsWrittenLosesItems | SoftHeapCpp/SoftHeapCpp.h:259-262 | As written, a sifted root with no values but with children is unlinked while it still holds 3 and 4. |
| SoftHeapCpp.UnlinkKeepsItems | SoftHeapCpp/SoftHeapCpp.h:259-262 | The corrected condition unlinks only a root that owns no items. |
| SoftHeapCpp.Lift | SoftHeapCpp/SoftHeapCpp.h:168-173 | The lifted children are the same nodes, with the front one given the lifted child's rank. |

## Left out

- SoftHeapCpp.SoftHeapCpp.DeleteMin: requires that a heap with queues holds some value. In the excluded state (queues whose nodes hold no value), the loop unlinks queue after queue until the list is empty. After the last unlink, the sift branch calls `FixMinList` on `m_queues.end()`, which dereferences the end iterator of the empty list (SoftHeapCpp/SoftHeapCpp.h:303). Line 267 then calls `m_queues.front()` on the empty list. Both are undefined behaviour.
- SoftHeapCpp.SiftDown: `m_childs.size() - 2` is a `size_t` converted to `int` (SoftHeapCpp/SoftHeapCpp.h:140). The model uses unbounded integers and stops at a single child.
- SoftHeapCpp.SoftHeapCpp.DeleteMin: does not promise the least value. A sift pools values (SoftHeapCpp.SiftTakesLastChild) and can lower a rank (SoftHeapCpp.SiftCanLowerRank), so the C++ port has no exactness result like CSoftHeap's.
- Nodes in the C++ port are values owned by their parents. `std::unique_ptr` moves and the `std::list` of queues become sequences, so no aliasing is modelled.
- The C++ port's tests (AsSimpleHeap, WithSomeR, AsKthLargestElement) are not derived for SoftHeapCpp itself. Selection on a shuffled range is proved for any heap that returns held elements.
- CSoftHeap.SoftHeap.Insert: requires a key below INFTY = 100000, the sentinel rank and key that the source reserves.
- CSoftHeap.DrainInOrder: stated for any n <= r rather than for the fixed test values (r = 10000, n = 10). The r = 0 test's fixed permuted order is not derived.
- CSoftHeap: `malloc`'d nodes, item cells and the doubly linked head list become trees and sequences. The item list copied during pooling is modelled as moved.
- Graph: `ToFile` (Graph/Graph.cpp:171-209) writes a file and is not modelled. `ForEachAvailableEdge` is not modelled either.
- Graph: the concrete scenarios of Graph/Test/GraphTest.cpp (the 7-vertex sample and the small Boruvka cases) are not derived.
- Graph.Graph.BoruvkaPhase: the guard that skips an edge whose original ends coincide is modelled, but it never fires. `AddEdge` (Graph/Graph.cpp:53) never stores such an edge. An active edge may still join a class to itself; `ContractEdge` then changes nothing.
- Graph: every vertex rank is 0 as the constructor sets it. The union uses the parent links only.
- Common: `CalculateRByEps` and `MeasurePerfomance` (floating point and clocks) are not modelled.
- Common: `ToVector` turns a range into a vector. On sequences it is the identity.
- MSTUtils: `FindMaxHeight` uses floating point and is not modelled.
- MSTUtils.S: the rest of the model uses the unbounded table. `uint32_t` wrap-around is modelled separately as MSTUtils.SAsWritten, and the difference is recorded under Findings.
- MSTUtils.CalculateTargetSize: computes on unbounded naturals. In the source the cube is a `double` converted to `uint32_t`, and it does not fit from t = 2 and height 5 on: S(1, S(2, 4))^3 = 2^48. That conversion is undefined and is not modelled.
- MSTUtils.FindParamT: takes the graph's vertex count as a natural number instead of reading it from the graph as a double.
- Decorator: the inner heap is abstract. Its `FindMin`, `Meld(other)` and `ExtractItems` are not in the C++ soft heap shown, so it is modelled as a multiset whose minimum is exact.
- Decorator: the constructor's callback and the decorator's own `ExtractItems` (over the inner heap's unseen API) are not modelled.
- Decorator.MSTSoftHeapDecorator.DeleteMin: an empty inner heap throws in the source, and here it is a `Failure`.
- TreeSubgraph: the contradictory assertions in `GetVertices` (MST/MSTTreeSubgraph.cpp:70-71) are not modelled.
- TreeSubgraph.SubGraph.Above: requires a child of level at least 1. For a level-0 child the source's `size_t` subtraction (MST/MSTTreeSubgraph.cpp:40) wraps, and `InitHeaps` (line 51) then creates no heaps. The algorithm never builds a node above the root, so this case is excluded.
- TreeSubgraph.SubGraph.ExtractItems: returns the whole contents of the last min(2, level) heaps, stale entries included. It does not separate corrupted from clean items, since the inner heap is abstract.
- The MST driver (MST/MST.cpp, MSTTree*, MSTStack*), SoftHeapC, the networkx and matplotlib calls of Misc/graph_generator.py, random number generation, gtest and standard output are not part of this model.
- Kruskal.SortByWeight: `std::sort` is modelled by a stable insertion sort. Among edges of equal weight the source's order is unspecified.

## Findings

| source | as written | input that shows it | evidently intended | confidence | as-written member | corrected member |
|---|---|---|---|---|---|---|
| Graph/Graph.cpp:77-78 | On a tie, the parallel-edge scan disables `*ptr < edge ? edge : ptr`, which is the edge already recorded, while the record is only replaced when `edge < *ptr` | Edges of weights 5, 5, 3 from one vertex to one neighbour class | Exactly one lightest edge per neighbour class stays active. As written, the second 5 survives beside the 3 and the first 5 is disabled twice. The corrected scan keeps line 77's drop and moves the record to the other edge, so on a tie the later edge stays | not executed | Graph.PruneAsWrittenKeepsHeavierEdge | Graph.PruneLeavesOneLightestEdge |
| Common/Common.h:53-59 | The pivot starts at -1 and is the maximum of -1 and the removed values | [-5, -4, -3, 0] with k = 3: one value (-5) is removed and the pivot is -1, which is not in the input. Any input of four or more elements that are all at most -2 keeps the pivot at -1, so every element is below it: partition_index equals the size, which exceeds k, and line 68 recurses on the whole vector with the same k without end | The pivot is the largest removed value, an element of the input | not executed | Common.PivotAsWrittenMissesInput | Common.SoftHeapSelect |
| MST/MSTUtils.cpp:34-44 | S computes in `uint32_t`, so S(2, 6) wraps to 0 and S(2, j) throws out of range for j >= 7 | FindParamT with d = 6 on a graph of 2000 vertices: t = 1 and t = 2 both fail the test, and S(3, 6) throws | The least t with vertexCount <= S(t, d)^3 on the unbounded table, here t = 2 | not executed | MSTUtils.FindParamTAsWrittenThrows | MSTUtils.FindParamT |
| Common/Common.h:128-129 | `end()` returns `m_begin`, the same iterator as `begin()` | Any LazyList with a non-empty window | `end()` returns `m_end`, so iteration visits the window | not executed | Common.LazyListVisitsNothing | Common.LazyListVisitsWindow |
| SoftHeapCpp/SoftHeapCpp.h:259-262 | After a sift, a head whose root is `Empty` (no values) is unlinked even when the root still has children | r = 10000: Insert 1, DeleteMin, Insert 2, 3, 4, DeleteMin, Insert 9, DeleteMin, DeleteMin; the last sift leaves a value-less root holding 3 and 4 below it. That root is the only queue left, so unlinking it empties the list; line 265 then passes the end iterator to FixMinList, which dereferences it at line 303 (undefined behaviour), and 3 and 4 are no longer reachable from any queue | Unlink only a root with no values and no children | not executed | SoftHeapCpp.UnlinkAsWrittenLosesItems | SoftHeapCpp.UnlinkKeepsItems |
