# Graph library and graph algorithms in Dafny

This project models the core of a small Java graph library. It covers three parts:

- an insertion-ordered hash set that also serves as a deque (`HashSet.java`), both as the abstract list it stands for and node by node, bucket chains included;
- a generic graph of vertices and plain or weighted edges (`Graph.java`);
- four algorithms over that graph (`GraphAlgorithms.java`):
  - single-source shortest distances;
  - enumeration of Hamiltonian cycles;
  - the cheapest-tour search built on that enumeration;
  - Prim's minimum spanning tree.

The modules follow the Java files:

| file | module | models |
|---|---|---|
| `wrappers.dfy` | `Wrappers` | `Option` for nullable references, `Result` for "value or thrown exception", and the four exceptions the code can throw |
| `hash_set.dfy` | `HashSets` | `HashSet<T>` as the set it stands for. The linked insertion order is the sequence `elems`. The bucket array is represented by its length `capacity`, because that length decides when the set resizes. The `size` counter is a separate field, because some operations get it wrong. |
| `hash_chains.dfy` | `HashChains` | the same class node by node: the bucket array of chains along `next`, the linked order along `after`, and the counter. `hashCode` is a parameter. `Abs` maps a table to the `HashSets` value it stands for. |
| `graph.dfy` | `Graphs` | `Edge`, `Vertex` and `Graph`, vertex and edge insertion, lookups, the adjacency matrix, and the well-formedness invariant `Wf` |
| `graph_copies.dfy` | `GraphCopies` | the `Graph(int)` and `Graph(Collection)` constructors and `reverse()` |
| `shortest_paths.dfy` | `ShortestPaths` | `shortestPaths` |
| `ham_cycles.dfy` | `HamCycles` | `allHamCycles` and `minTSP` |
| `mst.dfy` | `SpanningTree` | `mst` |

## How the Java types are represented

- **Vertex objects.** A vertex is a `nat`: its index in `Graph.store`, which holds every vertex object that one graph can reach. Each vertex has a payload and its `edgesIn`/`edgesOut` maps, keyed by neighbour.
- **Equality.** Java `equals` on edges becomes equality of an `EdgeKey`: the ordered ends of a directed edge, or the end set of an undirected one. The hash set is generic in the key function it deduplicates by.
- **Exceptions.** A thrown exception becomes `Err`. This covers:
  - a null dereference;
  - `IndexOutOfBounds` from `verticesOrdered.get`;
  - `UnsupportedOperation` from `source()` or `target()` of an undirected edge;
  - `ClassCast` from casting a plain edge to `WeightedEdge`.
- **Weights.** Weights are natural numbers. A plain edge has weight `None`. A distance of `None` means infinity.
- **Iteration order.** `HashMap` iteration order and priority-queue tie-breaking are left open. The methods pick the next out-map entry or the next least-key vertex with `:|`, so every proved property holds for every order.

## Quirks kept as written

Two behaviours of `Graph.addEdge` are modelled as written, because every algorithm sees the graph through them:

- **Directed out-map key.** A directed edge is stored in its source's out-map under the source itself (Graph.java:531), not under its target. `getEdge(u, v)` therefore does not find a directed edge from `u` to `v`. `Graphs.DirectedEdgeFiledUnderSource` exhibits this.
- **Positional list.** Endpoints become members of the vertex set but are never appended to the positional list (Graph.java:527-529). As a result:
  - a graph built by the copy constructor has an empty positional list (`GraphCopies.FromEdges`);
  - `adjacencyMatrix()` and `reverse()` throw `IndexOutOfBounds` exactly when the vertex set is larger than the positional list.

## Model

| member | source | states |
|---|---|---|
| HashSets.Find | HashSet.java:120-124 | the walk over a list finds the first element whose key equals the probe, and reports absence only when no element has that key |
| HashSets.Contains | HashSet.java:157-164 | on the abstract set: true exactly when some element is equal to the (non-null) probe |
| HashSets.Get | HashSet.java:117-125 | on the abstract set: returns a stored element equal to the (non-null) probe exactly when the set contains it, and null otherwise |
| HashSets.AddLastKeeps | HashSet.java:442-460 | appending keeps the set valid (no duplicates, size counter = element count, load factor at most 1/2 after any doubling); a null or present item leaves the set unchanged; a new item ends up at the tail |
| HashSets.ResizeKeeps | HashSet.java:66-76 | rebuilding at a new capacity keeps the insertion order and restores a correct size counter |
| HashSets.RebuildKeeps | HashSet.java:66-76 | re-adding the old list one element at a time, in order, yields the old list appended to the accumulator |
| HashSets.Add | HashSet.java:244-248 | returns true exactly when the item is non-null and absent; then it is appended and the size grows by one; otherwise nothing changes |
| HashSets.AddFirst | HashSet.java:418-435 | a non-null absent item is placed at the head and the size grows by one; a null or present item changes nothing |
| HashSets.DecrementAfterUnlink | HashSet.java:191-209 | on the linked order: unlinking one node and then decrementing by one removes exactly that element's key, keeps the set valid and lowers the size by one |
| HashSets.Remove | HashSet.java:331-340 | on the abstract set, with the chain spliced: returns true exactly when the item was present; the result no longer contains it, every other element stays in order, and the size drops by one only on success |
| HashSets.RemoveFirst | HashSet.java:216-221 | throws NullPointerException exactly on an empty set; otherwise returns the head and leaves the rest, valid, with size one less |
| HashSets.RemoveLast | HashSet.java:228-233 | throws NullPointerException exactly on an empty set; otherwise returns the tail and leaves the rest, valid, with size one less |
| HashSets.GetFirst | HashSet.java:133-135 | null exactly when the size counter is not positive, whatever the list holds; otherwise the head |
| HashSets.GetLast | HashSet.java:142-144 | null exactly when the size counter is not positive, whatever the list holds; otherwise the tail |
| HashSets.EndsOfValid | HashSet.java:133-144 | on a valid set, where the counter is exact, `getFirst` and `getLast` are null exactly when nothing is stored |
| HashSets.AddFirstThenGetFirst | HashSet.java:418-435 | after `addFirst` of an absent item, `getFirst` returns it; after `addFirst` of a present one, `getFirst` is unchanged |
| HashSets.AddThenGetLast | HashSet.java:442-460 | after `add` of an absent item, `getLast` returns it; after `add` of a present one, `getLast` is unchanged |
| HashSets.AddThenRemove | HashSet.java:244-248 | removing an item just added reports true and restores the original elements and size |
| HashSets.RemoveIdempotent | HashSet.java:331-340 | a second removal of the same item reports false and changes nothing |
| HashSets.AddFirstThenRemoveFirst | HashSet.java:418-435 | `removeFirst` after `addFirst` of an absent item returns that item and restores the set |
| HashSets.AddThenRemoveLast | HashSet.java:442-460 | `removeLast` after `add` of an absent item returns that item and restores the set |
| HashSets.Clone | HashSet.java:646-652 | the copy is valid, with the same elements in the same order and the same size |
| HashSets.RemoveEach | HashSet.java:370-375 | the loop of single removals drops exactly the elements equal to some item before the collection's first null, keeps the rest in order and the set valid; it throws NullPointerException exactly when the collection holds a null, and otherwise counts the removals |
| HashSets.RemoveAllAsWritten | HashSet.java:370-378 | as written, the right elements are removed and the result reports whether any were; a null item throws NullPointerException after the items before it are removed, leaving a valid set with those removals; on success the size counter is the element count minus the number removed (the double decrement), unless the final decrement shrinks the array, whose re-adding counts the elements afresh |
| HashSets.RemoveAllAsWrittenMiscounts | HashSet.java:370-378 | as written, removing `[1]` from the valid set `[1, 2]` leaves the element `2` but a size counter of 0 |
| HashSets.RemoveAll | HashSet.java:370-378 | corrected: the set stays valid, no element equal to an item before the first null remains, the others keep their order; NullPointerException exactly when the collection holds a null; otherwise the result is true exactly when the set shared an element with the collection |
| HashSets.DropCount | HashSet.java:370-378 | removal by key shortens the list exactly when some element has a removed key |
| HashSets.RemovedAnyIffShared | HashSet.java:370-378 | removing a collection changes the list exactly when it shares an element with the collection |
| HashSets.RetainAll | HashSet.java:390-400 | keeps exactly the elements equal to some member of the collection, in their old relative order, keeps the set valid, and reports whether any element was dropped |
| HashSets.AddAllAsWritten | HashSet.java:352-358 | as written, once one item has been added, the remaining items are skipped: from the entry call, the set gains exactly the first fresh non-null item and the result says whether there was one; with none, nothing changes |
| HashSets.AddAllAsWrittenStopsEarly | HashSet.java:352-358 | as written, adding `[1, 2]` to an empty set yields only `[1]`; `2` is missing |
| HashSets.AddAll | HashSet.java:352-358 | corrected: the old elements stay in front, followed, in the collection's order, by exactly the non-null items not equal to an element already present or to an earlier item; every non-null item ends up in the set; the result is true exactly when the set grew |
| HashSets.FreshFrom | HashSet.java:352-358 | every element `addAll` appends is a non-null item of the collection whose key was not present before |
| HashChains.Slot | HashSet.java:62-64 | `Math.abs(h % n)` with Java's truncating remainder is a bucket index: below the array length |
| HashChains.Contains | HashSet.java:157-164 | throws NullPointerException exactly for a null probe; otherwise true exactly when the chain of the probe's bucket holds an element equal to it |
| HashChains.Get | HashSet.java:117-125 | throws NullPointerException exactly for a null probe; otherwise an element equal to the probe from the probe's chain exactly when `contains` is true, and null otherwise |
| HashChains.LookupAgrees | HashSet.java:117-164 | on a table whose chains agree with its linked order, `contains` and `get` give exactly the abstract set's answers |
| HashChains.AddLast | HashSet.java:442-460 | a null or present item leaves the table unchanged |
| HashChains.AddLastKeeps | HashSet.java:442-460 | keeps the class invariant (chains agree with the linked order, exact counter, at most half full) and moves elements and counter exactly as the abstract `addLast` |
| HashChains.AddFirstKeeps | HashSet.java:418-435 | keeps the class invariant and moves elements and counter exactly as the abstract `addFirst` |
| HashChains.ResizeKeeps | HashSet.java:66-76 | rebuilding from the linked order into a new array keeps the elements and their order, files every node in its new bucket, and makes the counter exact |
| HashChains.LinkThreads | HashSet.java:454-455 | pushing a node on its bucket keeps every node's `next` chain equal to the rest of the chain it sits in |
| HashChains.UnlinkAsWritten | HashSet.java:182-199 | `removeNode` as written: the bucket becomes the removed node's `next` chain, the node leaves the linked order, nothing else leaves it |
| HashChains.UnlinkAsWrittenCutsFront | HashSet.java:182-186 | as written, removing the node found at position j of a chain leaves the bucket holding only the nodes behind it; this agrees with splicing when j is 0 |
| HashChains.RemoveAsWritten | HashSet.java:331-340 | throws NullPointerException exactly for a null probe; true exactly when the probe's chain holds an equal element; nothing changes on false; the effect of a successful removal is stated by `RemoveAsWrittenEffect` |
| HashChains.RemoveAsWrittenEffect | HashSet.java:331-336 | as written, on a threaded table whose probe chain holds only linked nodes, a successful removal that does not shrink the array takes exactly the found node out of the linked order, cuts the probe's bucket to the chain behind that node, leaves the nodes and other buckets alone and lowers the counter by one, so the chain nodes in front of the found one stay linked but leave the bucket; a shrink halves the array |
| HashChains.UnlinkAsWrittenStrands | HashSet.java:182-186 | as written, on a threaded table whose probe chain holds only linked nodes, every node in front of the removed one in its chain stays in the linked order but is no longer in the bucket |
| HashChains.RemoveAsWrittenLosesNeighbour | HashSet.java:182-186 | as written, with `Integer`s 0 and 16 in one bucket: add 0, add 16, remove 0 leaves 16 in the linked order but `contains(16)` false, `get(16)` null, `remove(16)` false, and a second `add(16)` stores 16 twice with size 2; the corrected removal still finds 16 |
| HashChains.Remove | HashSet.java:331-340 | corrected: the same answer and error contract as written, with the node spliced out of its chain |
| HashChains.RemoveKeeps | HashSet.java:182-209 | corrected: on a table satisfying the class invariant, `remove` keeps the invariant and gives exactly the abstract set's answer, elements in order and counter |
| HashChains.NewCoherent | HashSet.java:47-51 | a new set satisfies the class invariant and stands for the empty abstract set |
| Graphs.SameEdgeIffKey | Graph.java:258-267 | edge equality holds exactly when the two edges have the same key |
| Graphs.Source | Graph.java:219-224 | throws UnsupportedOperation exactly for an undirected edge, else returns the first endpoint |
| Graphs.Target | Graph.java:232-236 | throws UnsupportedOperation exactly for an undirected edge, else returns the second endpoint |
| Graphs.ReverseSpec | Graph.java:247-249 | reversing swaps source and target, keeps directedness, payload and weight, is an involution, and yields an equal edge exactly when the edge is undirected or a self-loop |
| Graphs.Other | Graph.java:281-287 | null exactly for a non-endpoint; otherwise the opposite end, with the vertex itself for a self-loop |
| Graphs.EmptyWf | Graph.java:397-401 | a new graph satisfies the graph invariant |
| Graphs.GetVertex | Graph.java:449-451 | throws IndexOutOfBounds exactly for an index outside the positional list, else returns the vertex at that index |
| Graphs.GetEdgeTo | Graph.java:65-67 | returns the out-map entry under the given neighbour, or null when there is none |
| Graphs.GetEdge | Graph.java:485-491 | non-null exactly when either vertex's out-map has an entry under the other; that is the first vertex's entry when it has one, and the second vertex's entry otherwise |
| Graphs.GetEdgeAt | Graph.java:467-469 | throws exactly when either index is out of range, else behaves as `getEdge` on the vertices at those positions |
| Graphs.GetEdgeFindsUndirected | Graph.java:485-491 | an undirected non-loop edge of a well-formed graph is found from both of its ends |
| Graphs.AddVertex | Graph.java:508-513 | keeps the invariant, creates a fresh vertex with the given payload, appends it to both the vertex set and the positional list, and leaves every earlier position and vertex as it was |
| Graphs.AddEdge | Graph.java:525-542 | keeps the invariant; returns true exactly when no equal edge is present, and otherwise changes nothing; on success the edge is appended, the endpoints not yet in the vertex set are appended to it in order, the positional list is untouched, and the edge is filed in the endpoints' maps under the keys the source uses; every other map entry of every vertex is left as it was |
| Graphs.AddEdgeBetween | Graph.java:834-839 | returns the new edge exactly when no equal edge existed, and null with the graph unchanged otherwise; on success the edge list grows by exactly that edge, and the vertex set by the two endpoints |
| Graphs.AddEdgeAt | Graph.java:814-816 | throws exactly when an index is out of range, else adds between the vertices at those positions |
| Graphs.AddEdgeIdempotent | Graph.java:525-542 | adding the same undirected edge again, in either direction and with any payload, returns null and changes nothing |
| Graphs.AddUndirectedThenGetEdge | Graph.java:834-839 | an added undirected edge is what `getEdge` returns from either end |
| Graphs.DirectedEdgeFiledUnderSource | Graph.java:531 | after adding a directed edge from x to y, `getEdge(x, y)` is null, and the edge sits in x's out-map under x |
| Graphs.AdjacencyMatrix | Graph.java:851-860 | throws IndexOutOfBounds exactly when the vertex set is larger than the positional list; otherwise returns a square matrix over the positional list whose cell (i, j) is set exactly when vertex i's out-map has an entry for vertex j |
| Graphs.AdjacencySymmetricForUndirected | Graph.java:851-860 | an undirected edge sets both mirrored cells of the matrix |
| Graphs.OrderedWithinVertices | Graph.java:508-542 | the positional list is never longer than the vertex set, and when they are equally long it lists every member |
| GraphCopies.WithVertices | Graph.java:408-413 | for `n` at most 0 an empty graph, since the loop does not run; otherwise `n` vertices at positions 0 to n-1, all with a null payload, and no edges |
| GraphCopies.FromEdges | Graph.java:426-440 | each edge of the collection gets a copy between fresh vertices that carry the same payloads, equal to it (same ends and direction), and every edge of the result is the exact copy of some edge of the collection, with its direction, data and weight; the vertex map is defined exactly on the endpoints of the collection's edges, and the vertex set is exactly the vertices it maps to; no more edges than the collection; the positional list stays empty, so `getVertex(0)` and `adjacencyMatrix()` throw whenever the collection is non-empty |
| GraphCopies.CopyEdge | Graph.java:429-439 | one iteration: both endpoints get a fresh vertex unless already mapped, earlier mappings and edges stay, the edge gets a copy equal to it, and every new edge is its exact copy, carrying its direction, data and weight |
| GraphCopies.ReverseGraph | Graph.java:867-885 | throws exactly when the vertex set is larger than the positional list; otherwise position i of the result carries the payload of position i, every out-map entry of the original has a reversed copy, and every edge of the result is the reversal of an original edge |
| ShortestPaths.Relax | GraphAlgorithms.java:101-106 | only the target's distance can change, and it changes exactly when the new route is strictly shorter, to that route's length |
| ShortestPaths.RelaxOut | GraphAlgorithms.java:98-108 | throws ClassCast only when the current vertex has an unweighted out-entry; otherwise every entry of the current vertex is settled and the queue is unchanged |
| ShortestPaths.Poll | GraphAlgorithms.java:94-109 | taking a least vertex and relaxing its entries keeps the loop invariant and shortens the queue |
| ShortestPaths.ShortestPathsFrom | GraphAlgorithms.java:75-110 | throws ClassCast only if some member has an unweighted out-entry, and returns otherwise; the result has a distance for every member and the source; the source's distance is 0; no out-entry can improve any distance; and every finite distance is the length of an actual walk from the source |
| ShortestPaths.SettledBound | GraphAlgorithms.java:94-109 | once every entry is settled, a vertex's distance is at most the distance of any vertex plus the length of a walk between them |
| ShortestPaths.Shortest | GraphAlgorithms.java:75-110 | every vertex reachable by a walk from the source gets a finite distance no longer than that walk |
| HamCycles.TourEntries | GraphAlgorithms.java:129-136 | the edge list of a Hamiltonian path holds the path's edges, and its closing entry is non-null exactly when the path closes into a cycle |
| HamCycles.Extend | GraphAlgorithms.java:128-149 | the search below a partial path returns exactly the Hamiltonian paths that extend it, each once |
| HamCycles.Sweep | GraphAlgorithms.java:140-146 | the loop over the last vertex's neighbours: what it returns repeats nothing, and holds exactly the Hamiltonian paths that extend the path through a visited neighbour |
| HamCycles.Try | GraphAlgorithms.java:141-144 | a neighbour already on the path gives nothing; otherwise every Hamiltonian path through it is returned, each once, and nothing else |
| HamCycles.HamPaths | GraphAlgorithms.java:119-149 | the search from a start vertex returns exactly the Hamiltonian paths from it, each once |
| HamCycles.AllHamCyclesAsWritten | GraphAlgorithms.java:119-149 | as written, one edge list per Hamiltonian path, closed or not, each path once |
| HamCycles.OneVertexOpenPath | GraphAlgorithms.java:129-136 | as written, a one-vertex graph with no loop yields the open path `[x]`, reported as the edge list `[null]` |
| HamCycles.AllHamCycles | GraphAlgorithms.java:119-149 | corrected: one edge list per Hamiltonian cycle from the start vertex, each cycle once, and none with a null entry |
| HamCycles.WeightOkIff | GraphAlgorithms.java:163-166 | summing a tour's weights succeeds exactly when every entry is a non-null weighted edge |
| HamCycles.FirstFault | GraphAlgorithms.java:163-166 | a failing sum throws the exception of its first bad entry |
| HamCycles.TourWeightRotate | GraphAlgorithms.java:163-166 | a tour's weight does not depend on where the cycle starts |
| HamCycles.OpenPathThrows | GraphAlgorithms.java:163-166 | summing the edge list of an open path throws |
| HamCycles.Cheapest | GraphAlgorithms.java:162-172 | throws the first failing tour's exception; otherwise returns null for no tours, or a tour no dearer than any other and first among the cheapest |
| HamCycles.MinTSPAsWritten | GraphAlgorithms.java:158-173 | as written, throws IndexOutOfBounds exactly when the positional list is empty; otherwise searches from position 0 whatever the source, and returns only if every Hamiltonian path from there closes, and any exception it throws there is the one summing some Hamiltonian path's edge list throws |
| HamCycles.TourMissedWithoutPositions | GraphAlgorithms.java:161 | a graph made by `addEdge` alone, here one vertex with a weighted self-loop, has a Hamiltonian cycle and an empty positional list |
| HamCycles.MinTSP | GraphAlgorithms.java:158-173 | corrected: searches from `source`; returns null exactly when no Hamiltonian cycle exists, and otherwise a cycle's edge list no dearer than any other; throws ClassCast only for a cycle with an unweighted edge |
| SpanningTree.Visit | GraphAlgorithms.java:219-230 | offering one out-entry throws exactly when the entry is unweighted (ClassCast) or its other end is null, or unused and unlisted (NullPointer); otherwise only the other end can change, and only if unused: its key drops to at most the weight, and changes only when the weight is strictly below the old key, to the weight with `cur` as predecessor |
| SpanningTree.ScanOut | GraphAlgorithms.java:219-231 | the scan throws exactly when some out-entry of the current vertex is faulty; otherwise every entry has been offered |
| SpanningTree.ScanLowers | GraphAlgorithms.java:219-231 | scanning only lowers keys, and never those of used vertices |
| SpanningTree.Process | GraphAlgorithms.java:215-232 | one round appends the polled vertex to `used`, records its edge if it has one, and keeps the forest invariant; it throws exactly when the vertex has a blocked out-entry |
| SpanningTree.PollMin | GraphAlgorithms.java:214 | returns a queued vertex of least key |
| SpanningTree.TreeEdgesInGraph | GraphAlgorithms.java:218 | every recorded tree edge is an edge of the graph |
| SpanningTree.ForestSize | GraphAlgorithms.java:214-233 | a forest has fewer edges than used vertices |
| SpanningTree.MstAsWritten | GraphAlgorithms.java:214-233 | as written: throws only for a blocked entry of a listed vertex; otherwise exactly one listed vertex, the one polled last, is never used, and the result is empty or has at most (number of listed vertices − 2) edges, at least two fewer than there are listed vertices |
| SpanningTree.TwoVerticesOneEdge | GraphAlgorithms.java:214-233 | when both vertices of a two-vertex graph that are each other's neighbours are used, the forest holds exactly one edge |
| SpanningTree.Pair | GraphAlgorithms.java:214-233 | builds two distinct listed vertices joined by one undirected weighted edge, each the other's neighbour, with no blocked out-entry, so `mst` cannot throw on it |
| SpanningTree.Mst | GraphAlgorithms.java:182-236 | corrected: throws exactly when some listed vertex has an out-entry that is unweighted or leads to a null or unlisted vertex; otherwise every listed vertex is used once, each tree edge is an out-entry of an earlier used vertex leading to a later one, no vertex gets two, a used vertex gets one exactly when an earlier used vertex has an out-entry leading to it, and there are fewer edges than listed vertices |

## Left out

- **I/O and the demo driver.** `readData` (file input) and `main` are not modelled.
- **`tspApprox`.** It is not modelled.
- **The tests.**
- **Floating point.** Weights are natural numbers and infinity is `None`. Floating-point rounding and NaN are not modelled.
- **Hashing.** `hashCode` is a parameter of `HashChains`; `HashSets` represents the bucket array only by its length. Java `equals` becomes key equality.
- HashSets.Find: walks the linked order, not a bucket chain; the chain walk is `HashChains.Locate`, which agrees with it on well-formed tables (`HashChains.LocateAgrees`).
- HashSets.Contains: takes a non-null probe and answers from the linked order; the chain walk, and NullPointerException for a null probe, are `HashChains.Contains`.
- HashSets.Get: takes a non-null probe and answers from the linked order; the chain walk and the null probe are `HashChains.Get`.
- HashSets.Remove: takes a non-null probe and splices the node out of its chain, which is the corrected behaviour; the code as written, which loses the chain nodes in front of the removed one, is `HashChains.RemoveAsWritten`.
- HashSets.DecrementAfterUnlink: covers the linked-order half of `removeNode` only; the bucket half is `HashChains.UnlinkAsWritten`.
- **Other removals at chain level.** `removeFirst`, `removeLast`, the iterator's `remove`, `removeAll` and `retainAll` all go through `removeNode`, so as written they lose chain neighbours too. Worse, `removeFirst`, `removeLast`, `retainAll` and the iterator's `remove` pick nodes by the linked order, so they can unlink a node already stranded from its bucket. The bucket is then reset to that node's `next` chain, which can hold an element removed earlier, and a removed element becomes visible to `contains` and `get` again. With 0, 16 and 32 in one bucket of 16, two calls of `removeFirst` leave `contains(0)` true (HashSet.java:183-186, 157-163, 216-220). They are modelled on the abstract set only; `HashChains` covers `remove(o)`.
- HashChains.Resize: re-adds each element through one linking step without the load check of `add`. That check cannot fire during a refill, since the new array holds at least twice as many slots as there are elements.
- **Graphs only grow.** The graph has no removal operation, so no graph-level removal is modelled.
- **Other collection members.** `toString`, iterators, `toArray`, `containsAll`, `clear`, `isEmpty`, `descendingIterator` and `removeFirstOccurrence`/`removeLastOccurrence` are not modelled.
- **Deque aliases.** `offer`, `push`, `poll`, `pop`, `peek` and `peekLast` are one-line forwards to modelled operations. They are defined (`HashSets.Offer` … `HashSets.PeekLast`) but carry no contract of their own.
- **Vertex queries.** `getEdgeFrom`, `neighborsIn` and `edgesIn` are not modelled, except as the `edgesIn` maps that `addEdge` fills.
- **Shared vertex objects.** A vertex object shared between two graphs is not modelled. Each graph owns its `store`.
- **Memory and timing.** The recursion depth and running time of the searches are not modelled.
- ShortestPaths.ShortestPathsFrom: requires the closure property `Closed` (every out-entry stays among the member vertices). Every well-formed graph has it (`Graphs.WfClosed`). `HamCycles.HamPaths` and `HamCycles.MinTSP` require the same.
- HamCycles.AllHamCycles: the order in which tours are reported is left open, as the Java order follows hash-map iteration.
- SpanningTree.Mst: proves that the result is a spanning forest of the listed vertices. It does not prove that the forest has least total weight. It also does not prove that one tree covers a connected graph.

## Findings

| source | as written | input that shows it | evidently intended | confidence | as-written member | corrected member |
|---|---|---|---|---|---|---|
| HashSet.java:370-378 | `removeAll` decrements the size counter once in each `remove` and again by the total at the end | the set `[1, 2]` minus `[1]`: elements `[2]`, size counter 0 | the counter drops by the number of removed elements | not executed | HashSets.RemoveAllAsWrittenMiscounts | HashSets.RemoveAll |
| HashSet.java:352-358 | `added = added \|\| add(item)` short-circuits, so `add` is skipped once anything has been added | the empty set plus `[1, 2]` gives `[1]` | every item is added | not executed | HashSets.AddAllAsWrittenStopsEarly | HashSets.AddAll |
| GraphAlgorithms.java:129-136 | every Hamiltonian path is reported as a cycle, with null as its closing edge when it does not close | one vertex without a loop: the edge list `[null]` | only closed paths are reported | not executed | HamCycles.OneVertexOpenPath | HamCycles.AllHamCycles |
| GraphAlgorithms.java:161 | the search starts from `getVertex(0)` instead of `source` | a graph built through `addEdge` alone has a Hamiltonian cycle but an empty positional list, so `getVertex(0)` throws | the search starts from `source` | not executed | HamCycles.TourMissedWithoutPositions | HamCycles.MinTSP |
| GraphAlgorithms.java:214-233 | the next vertex is polled at the end of each round and the loop stops when the queue is empty, so the last polled vertex is never processed | two vertices joined by one weighted edge: the result is empty instead of that edge | every vertex is processed, so the tree gets one edge per newly reached vertex | not executed | SpanningTree.MstAsWritten | SpanningTree.Mst |
| HashSet.java:182-186 | a node's `prev` is only ever assigned null (line 189 copies the removed node's null `prev`), so `removeNode` always resets the bucket to the removed node's `next`, dropping the nodes in front of it from the chain | `Integer`s 0 and 16 (same bucket of 16): add 0, add 16, remove 0; then `contains(16)` is false and `add(16)` stores 16 twice | the node is spliced out of its chain, leaving the other nodes in it | not executed | HashChains.RemoveAsWrittenLosesNeighbour | HashChains.RemoveKeeps |
