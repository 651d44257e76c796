# Verified model of the MultivalueCollections path package

The `com.davidje13.path` package of MultivalueCollections provides a generic
**path**: a non-empty alternating sequence node, edge, node, ..., node,
with exactly one more node than edges. This project is a Dafny model of that
package.

- **`ImmutablePath`** is the path contract. The primitives are head, tail and
  pair traversal from either end. Every other operation is written once on
  top of them:
  - full traversal;
  - counting;
  - node and edge lists;
  - `subPath` with range checks;
  - first and last sub-path search, `containsSubPath`, `startsWith` and
    `endsWith`;
  - grouped traversal from either end.
- **`PathBuilder`** is the builder contract. It has the primitives `pushBack`,
  `pushFront`, `reset` and `build`, plus default methods that splice a whole
  path onto either end.
- **`ArrayPath`** stores a path as one list of (edge, node) cells. The first
  cell carries a null edge as a sentinel.
- **`LinkedPath`** stores a path as a doubly linked chain of node and edge
  wrappers.
- **`ComparablePath`** gives both representations structural equality,
  a hash and a string form.
- **`PathSquasher`** converts paths. `squashNodes` merges runs of nodes and
  `expandNodes` turns each node into a whole path. Both assemble the result
  with a linked builder.

Everything is modelled around one abstract value, `Paths.Path(nodes, edges)`.
Its invariant is `|nodes| == |edges| + 1`.

- Traversals return what they emit: a trace of `NodeItem`/`EdgeItem` visits,
  or a sequence of (edge, node) pairs.
- The builder contract is the value `Live(content) | Built`:
  - `build` hands the content over and leaves the builder `Built`;
  - only `reset` may follow;
  - every other operation needs a `Live` builder.
- The array builder (a class over a cell list) and the linked builder
  (a class over heap-allocated wrappers, with a ghost chain and a `Repr`
  footprint) are proved to refine that value.
  - Each primitive changes the builder's state exactly as the contract says.
  - Each one keeps the builder's representation invariant.
- The derived algorithms run imperatively, as the source does: counting
  loops, a builder driven by a traversal, and the build-then-reset sequence of
  grouped traversal. Each is proved against a specification function.

Modules and files:

| file | module | source |
|---|---|---|
| `paths.dfy` | `Paths` | the abstract path and its traversals |
| `path_builder.dfy` | `PathBuilders` | `PathBuilder.java` |
| `comparable_path.dfy` | `ComparablePaths` | `ComparablePath.java` |
| `immutable_path.dfy` | `ImmutablePaths` | `ImmutablePath.java` |
| `array_path.dfy` | `ArrayPaths` | `ArrayPath.java` |
| `linked_path.dfy` | `LinkedPaths` | `LinkedPath.java` |
| `path_squasher.dfy` | `PathSquashers` | `PathSquasher.java` |

## Model

| member | source | states |
|---|---|---|
| Paths.TraceFromHeadShape | src/main/java/com/davidje13/path/ImmutablePath.java:68-77 | visitFromHead makes 2·nodes − 1 calls: node j at position 2j and edge j at position 2j + 1 |
| Paths.TraceFromHeadAlternates | src/main/java/com/davidje13/path/ImmutablePath.java:68-77 | the head traversal starts and ends with a node visit; position i is a node visit iff i is even |
| Paths.TraceFromTailShape | src/main/java/com/davidje13/path/ImmutablePath.java:88-97 | visitFromTail visits the nodes and edges from the tail back to the head, alternating |
| Paths.TraceFromTailIsReverse | src/main/java/com/davidje13/path/ImmutablePath.java:88-97 | the tail traversal is exactly the reverse of the head traversal |
| Paths.TraceFromHeadAppend | src/main/java/com/davidje13/path/ImmutablePath.java:68-77 | appending an edge and a node to a path appends exactly that edge visit and node visit to its trace |
| Paths.NodesOfTraceFromHead | src/main/java/com/davidje13/path/ImmutablePath.java:68-77 | the node visits of the head traversal are the nodes, and its edge visits are the edges, in order |
| Paths.NodesOfTraceFromTail | src/main/java/com/davidje13/path/ImmutablePath.java:88-97 | the node and edge visits of the tail traversal are the nodes and edges reversed |
| PathBuilders.PrimitivePushes | src/main/java/com/davidje13/path/PathBuilder.java:7-8 | pushBack(e, n) keeps the head, makes n the tail and puts e last. pushFront(n, e) makes n the head with e between n and the old head, and keeps the tail. Each adds one node |
| PathBuilders.PushBackPath | src/main/java/com/davidje13/path/PathBuilder.java:20-26 | the content becomes old ++ [edge] ++ path in the path's own order. The head is kept, the tail becomes path's tail, and it adds as many nodes and edges as path has nodes |
| PathBuilders.PushFrontPath | src/main/java/com/davidje13/path/PathBuilder.java:35-41 | the content becomes path ++ [edge] ++ old with the path not reversed. The head becomes path's head, the tail is kept, and it adds as many nodes and edges as path has nodes |
| ComparablePaths.Equals | src/main/java/com/davidje13/path/ComparablePath.java:7-19 | a path equals the other object iff that object is a path with the same node list and edge list; a non-path is never equal |
| ComparablePaths.HashCode | src/main/java/com/davidje13/path/ComparablePath.java:21-24 | the hash is the given hash function applied to the node list and the edge list |
| ComparablePaths.EqualPathsHashEqually | src/main/java/com/davidje13/path/ComparablePath.java:21-24 | equal paths hash equally, whatever hash of the two lists is used |
| ComparablePaths.ToString | src/main/java/com/davidje13/path/ComparablePath.java:26-35 | appending each visit and ", ", then dropping the last two characters, gives the visits joined by ", " with no trailing separator |
| ComparablePaths.RenderedSingle | src/main/java/com/davidje13/path/ComparablePath.java:26-35 | a single-node path prints as just its node |
| ComparablePaths.RenderedAppend | src/main/java/com/davidje13/path/ComparablePath.java:26-35 | each further edge and node adds ", edge, node" at the end of the string |
| ImmutablePaths.ToBuilder | src/main/java/com/davidje13/path/ImmutablePath.java:27-31 | toBuilder gives a live builder holding exactly the path, and building it gives back the path |
| ImmutablePaths.CountNodes | src/main/java/com/davidje13/path/ImmutablePath.java:252-257 | counting node visits gives the number of nodes, which is at least 1 |
| ImmutablePaths.CountEdges | src/main/java/com/davidje13/path/ImmutablePath.java:262-264 | countEdges is the number of edges, which is countNodes − 1 and never negative |
| ImmutablePaths.CollectNodes | src/main/java/com/davidje13/path/ImmutablePath.java:269-282 | the list-adding node visitor ends up holding exactly the node visits of the trace, in visit order |
| ImmutablePaths.CollectEdges | src/main/java/com/davidje13/path/ImmutablePath.java:287-300 | the list-adding edge visitor ends up holding exactly the edge visits of the trace, in visit order |
| ImmutablePaths.GetNodesFromHead | src/main/java/com/davidje13/path/ImmutablePath.java:269-273 | the collected list is the nodes from head to tail |
| ImmutablePaths.GetNodesFromTail | src/main/java/com/davidje13/path/ImmutablePath.java:278-282 | the collected list is the nodes reversed |
| ImmutablePaths.GetEdgesFromHead | src/main/java/com/davidje13/path/ImmutablePath.java:287-291 | the collected list is the edges from head to tail |
| ImmutablePaths.GetEdgesFromTail | src/main/java/com/davidje13/path/ImmutablePath.java:296-300 | the collected list is the edges reversed |
| ImmutablePaths.SubPath | src/main/java/com/davidje13/path/ImmutablePath.java:151-181 | the call fails iff start < 0, end < start, or end ≥ the node count. It reports an invalid range for the first two and the node count for the last. Otherwise the result holds nodes start..end and the edges between them |
| ImmutablePaths.MatchesWhole | src/main/java/com/davidje13/path/ImmutablePath.java:151-181 | subPath(0, countNodes − 1) is the path itself, and a path occurs in itself only at index 0 |
| ImmutablePaths.FirstIndexOfSubPath | src/main/java/com/davidje13/path/ImmutablePath.java:187-196 | the result is the least index where the sub-path occurs, or −1 iff it occurs nowhere. That includes a sub-path longer than the path. A path found in itself is at 0 |
| ImmutablePaths.LastIndexOfSubPath | src/main/java/com/davidje13/path/ImmutablePath.java:202-211 | the result is the greatest index where the sub-path occurs, or −1 iff it occurs nowhere. That includes a sub-path longer than the path |
| ImmutablePaths.ContainsSubPath | src/main/java/com/davidje13/path/ImmutablePath.java:217-219 | true iff the sub-path occurs at some index |
| ImmutablePaths.StartsWith | src/main/java/com/davidje13/path/ImmutablePath.java:226-233 | true iff the sub-path occurs at index 0; false when it is longer than the path |
| ImmutablePaths.EndsWith | src/main/java/com/davidje13/path/ImmutablePath.java:240-247 | true iff the sub-path occurs so that it ends at the tail; false when it is longer than the path |
| ImmutablePaths.GroupedPrefixJoins | src/main/java/com/davidje13/path/ImmutablePath.java:99-118 | from the head, the groups so far, rejoined through the boundary edges, are exactly the prefix visited so far |
| ImmutablePaths.GroupedPrefixChained | src/main/java/com/davidje13/path/ImmutablePath.java:107-110 | from the head, inside a group each node tests equal to the node before it |
| ImmutablePaths.GroupedPrefixSplits | src/main/java/com/davidje13/path/ImmutablePath.java:107-115 | from the head, every boundary is where the next node tests unequal to the tail of the group before |
| ImmutablePaths.GroupedSuffixJoins | src/main/java/com/davidje13/path/ImmutablePath.java:120-139 | from the tail, the groups so far, rejoined through the boundary edges, are exactly the suffix visited so far |
| ImmutablePaths.GroupedSuffixAnchored | src/main/java/com/davidje13/path/ImmutablePath.java:128-131 | from the tail, every node of a group tests equal to the group's tail (the node first seen), not to its neighbour |
| ImmutablePaths.GroupedSuffixSplits | src/main/java/com/davidje13/path/ImmutablePath.java:128-136 | from the tail, every boundary is where the next node tests unequal to the tail of the current group |
| ImmutablePaths.GroupsFromHeadSound | src/main/java/com/davidje13/path/ImmutablePath.java:99-118 | the whole grouping from the head has one more group than boundary edges and rejoins to the path. Each group is chained, and every boundary is where the test fails |
| ImmutablePaths.GroupsFromTailSound | src/main/java/com/davidje13/path/ImmutablePath.java:120-139 | the whole grouping from the tail has one more group than boundary edges and rejoins, tail first, to the path. Each group is anchored at its tail, and every boundary is where the test fails against that tail |
| ImmutablePaths.VisitGroupedFromHead | src/main/java/com/davidje13/path/ImmutablePath.java:99-118 | it runs on the build-then-reset builder sequence and emits one more group than boundary edges. The groups and edges rejoin to the path, and each group is chained. Every boundary is where the test fails |
| ImmutablePaths.VisitGroupedFromTail | src/main/java/com/davidje13/path/ImmutablePath.java:120-139 | it runs on the build-then-reset builder sequence and emits one more group than boundary edges. The groups and edges rejoin to the path in tail-first order, and each group is anchored at its tail. Every boundary is where the test fails against that tail |
| ImmutablePaths.NearFromHead | src/main/java/com/davidje13/path/ImmutablePath.java:99-118 | with the test abs(a − b) ≤ 1, the path 0 -10- 1 -20- 2 is one group from the head |
| ImmutablePaths.NearFromTail | src/main/java/com/davidje13/path/ImmutablePath.java:120-139 | from the tail, the same path splits in two, because 0 is compared with the tail 2 and not with its neighbour 1 |
| ImmutablePaths.GroupingDirectionMatters | src/main/java/com/davidje13/path/ImmutablePath.java:129-131 | there is a path and a (non-transitive) test for which the two grouped traversals make different numbers of groups |
| ArrayPaths.CellsPath | src/main/java/com/davidje13/path/ArrayPath.java:32-34 | a well-formed cell list is a valid path: node i is cell i's node and edge i − 1 is cell i's edge; the sentinel never appears |
| ArrayPaths.ArrayPath.OfNode | src/main/java/com/davidje13/path/ArrayPath.java:32-34 | the single-node path is one sentinel cell |
| ArrayPaths.ArrayPath.GetHead | src/main/java/com/davidje13/path/ArrayPath.java:45-48 | the first cell's node is the head |
| ArrayPaths.ArrayPath.GetTail | src/main/java/com/davidje13/path/ArrayPath.java:50-53 | the last cell's node is the tail |
| ArrayPaths.ArrayPath.VisitPairsFromHead | src/main/java/com/davidje13/path/ArrayPath.java:55-63 | the index loop from 1 yields every pair from the head, one per edge, never the sentinel |
| ArrayPaths.ArrayPath.VisitPairsFromTail | src/main/java/com/davidje13/path/ArrayPath.java:65-73 | the loop from the last cell down to 1 pairs each cell's edge with the previous cell's node; that is the pair traversal from the tail |
| ArrayPaths.ArrayPath.CountNodes | src/main/java/com/davidje13/path/ArrayPath.java:75-78 | the override's list size equals the count the default traversal gives |
| ArrayPaths.ArrayPathBuilder.FromNode | src/main/java/com/davidje13/path/ArrayPath.java:84-86 | a new builder holds the one sentinel cell of the node |
| ArrayPaths.ArrayPathBuilder.FromPath | src/main/java/com/davidje13/path/ArrayPath.java:88-91 | the copy constructor holds exactly the base path |
| ArrayPaths.ArrayPathBuilder.GetHead | src/main/java/com/davidje13/path/ArrayPath.java:93-96 | the builder's first node is the contract's head |
| ArrayPaths.ArrayPathBuilder.GetTail | src/main/java/com/davidje13/path/ArrayPath.java:98-101 | the builder's last node is the contract's tail |
| ArrayPaths.ArrayPathBuilder.PushBack | src/main/java/com/davidje13/path/ArrayPath.java:103-111 | exactly one cell (e, n) is appended, the other cells are unchanged, and the state moves as the contract's pushBack |
| ArrayPaths.ArrayPathBuilder.PushFront | src/main/java/com/davidje13/path/ArrayPath.java:113-122 | the old first cell takes e in place of its sentinel and a sentinel cell with n goes in front. The sentinel invariant is kept and the state moves as the contract's pushFront |
| ArrayPaths.ArrayPathBuilder.Reset | src/main/java/com/davidje13/path/ArrayPath.java:124-130 | reset gives a fresh one-cell list from either state |
| ArrayPaths.ArrayPathBuilder.Build | src/main/java/com/davidje13/path/ArrayPath.java:132-141 | the path takes over the current cell list and the builder is left without one (Built) |
| ArrayPaths.ArrayPathBuilder.PushBackPath | src/main/java/com/davidje13/path/PathBuilder.java:20-26 | the default splice at the back, on the array builder, gives old ++ [edge] ++ path |
| ArrayPaths.ArrayPathBuilder.PushFrontPath | src/main/java/com/davidje13/path/PathBuilder.java:35-41 | the default splice at the front, on the array builder, gives path ++ [edge] ++ old |
| ArrayPaths.Concatenate | src/main/java/com/davidje13/path/ArrayPath.java:24-30 | concatenate(p1, j, p2) is p1 ++ [j] ++ p2 |
| ArrayPaths.CopyBuild | src/main/java/com/davidje13/path/ArrayPath.java:18-22 | building a builder copied from a path gives back that path |
| LinkedPaths.Link | src/main/java/com/davidje13/path/LinkedPath.java:228-234 | link sets first.next = second and second.prev = first and touches no other link |
| LinkedPaths.ChainPath | src/main/java/com/davidje13/path/LinkedPath.java:236-250 | an alternating chain stands for a valid path: node j is wrapper 2j and edge j is wrapper 2j + 1 |
| LinkedPaths.ChainWalkable | src/main/java/com/davidje13/path/LinkedPath.java:59-81 | in a well-linked chain, following next (or prev) from any wrapper reaches the following (or preceding) wrapper, and null past the end |
| LinkedPaths.ChainTraces | src/main/java/com/davidje13/path/LinkedPath.java:83-109 | the walk by next from the head is the head traversal and the walk by prev from the tail is the tail traversal; each walk is the other reversed |
| LinkedPaths.ChainPairs | src/main/java/com/davidje13/path/LinkedPath.java:59-81 | the k-th pair from either end is the edge and node wrappers 2k + 1 and 2k + 2 steps from the start |
| LinkedPaths.VisitPairsSkipFirst | src/main/java/com/davidje13/path/LinkedPath.java:111-126 | the cursor loop terminates, skips the start node and yields exactly the pair traversal, one pair per edge |
| LinkedPaths.VisitChain | src/main/java/com/davidje13/path/LinkedPath.java:128-145 | the cursor loop terminates and visits every wrapper of the chain in walk order |
| LinkedPaths.ChainPathAppend | src/main/java/com/davidje13/path/LinkedPath.java:171-184 | an edge and node wrapper added at the end of a chain add that edge and node to its path |
| LinkedPaths.ChainPathPrepend | src/main/java/com/davidje13/path/LinkedPath.java:186-199 | a node and edge wrapper added at the front of a chain add that node and edge to its path |
| LinkedPaths.LinkedPath.OfNode | src/main/java/com/davidje13/path/LinkedPath.java:31-34 | the single-node path is one fresh wrapper that is both head and tail |
| LinkedPaths.LinkedPath.Over | src/main/java/com/davidje13/path/LinkedPath.java:36-42 | a path over the two ends of a well-formed chain stands for that chain's path, owning exactly its wrappers |
| LinkedPaths.LinkedPath.GetHead | src/main/java/com/davidje13/path/LinkedPath.java:49-52 | the head wrapper's node is the head |
| LinkedPaths.LinkedPath.GetTail | src/main/java/com/davidje13/path/LinkedPath.java:54-57 | the tail wrapper's node is the tail |
| LinkedPaths.LinkedPath.VisitPairsFromHead | src/main/java/com/davidje13/path/LinkedPath.java:59-69 | walking by next from the head yields the pair traversal from the head |
| LinkedPaths.LinkedPath.VisitPairsFromTail | src/main/java/com/davidje13/path/LinkedPath.java:71-81 | walking by prev from the tail yields the pair traversal from the tail |
| LinkedPaths.LinkedPath.VisitFromHead | src/main/java/com/davidje13/path/LinkedPath.java:83-95 | the override's walk makes exactly the calls of the default visitFromHead |
| LinkedPaths.LinkedPath.VisitFromTail | src/main/java/com/davidje13/path/LinkedPath.java:97-109 | the override's walk makes exactly the calls of the default visitFromTail, the reverse of visitFromHead |
| LinkedPaths.LinkedPathBuilder.FromNode | src/main/java/com/davidje13/path/LinkedPath.java:152-154 | a new builder holds one fresh wrapper for the node |
| LinkedPaths.LinkedPathBuilder.FromPath | src/main/java/com/davidje13/path/LinkedPath.java:156-159 | the copy constructor holds exactly the base path in freshly allocated wrappers |
| LinkedPaths.LinkedPathBuilder.GetHead | src/main/java/com/davidje13/path/LinkedPath.java:161-164 | the head wrapper's node is the contract's head |
| LinkedPaths.LinkedPathBuilder.GetTail | src/main/java/com/davidje13/path/LinkedPath.java:166-169 | the tail wrapper's node is the contract's tail |
| LinkedPaths.LinkedPathBuilder.PushBack | src/main/java/com/davidje13/path/LinkedPath.java:171-184 | two fresh wrappers are linked after the old tail and the old chain prefix is unchanged. The head is kept, the tail becomes n, and the state moves as the contract's pushBack |
| LinkedPaths.LinkedPathBuilder.PushFront | src/main/java/com/davidje13/path/LinkedPath.java:186-199 | two fresh wrappers are linked before the old head and the old chain is unchanged behind them. The tail is kept, the head becomes n, and the state moves as the contract's pushFront |
| LinkedPaths.LinkedPathBuilder.Reset | src/main/java/com/davidje13/path/LinkedPath.java:201-208 | head and tail become one fresh wrapper, whatever the builder held |
| LinkedPaths.LinkedPathBuilder.Build | src/main/java/com/davidje13/path/LinkedPath.java:210-220 | the new path is over the current chain and the builder's head and tail become null (Built) |
| LinkedPaths.LinkedPathBuilder.PushBackPath | src/main/java/com/davidje13/path/PathBuilder.java:20-26 | the default splice at the back, on the linked builder, gives old ++ [edge] ++ path |
| LinkedPaths.LinkedPathBuilder.PushFrontPath | src/main/java/com/davidje13/path/PathBuilder.java:35-41 | the default splice at the front, on the linked builder, gives path ++ [edge] ++ old, and every wrapper it adds is fresh |
| LinkedPaths.Concatenate | src/main/java/com/davidje13/path/LinkedPath.java:23-29 | concatenate(p1, j, p2) is p1 ++ [j] ++ p2, in fresh wrappers |
| LinkedPaths.CopyBuild | src/main/java/com/davidje13/path/LinkedPath.java:17-21 | building a builder copied from a path gives back that path in fresh wrappers, sharing nothing |
| PathSquashers.BuildPath | src/main/java/com/davidje13/path/PathSquasher.java:45-67 | the call fails with a mismatched-arity error iff the node count is not the edge count + 1. Otherwise the result is a fresh linked path with exactly those nodes and edges in order |
| PathSquashers.Squashed | src/main/java/com/davidje13/path/PathSquasher.java:19-25 | the squashed lists always form a path, with one node per group and never more nodes than the input |
| PathSquashers.GroupCount | src/main/java/com/davidje13/path/ImmutablePath.java:99-118 | grouping from the head never makes more groups than there are nodes |
| PathSquashers.SquashNodes | src/main/java/com/davidje13/path/PathSquasher.java:9-26 | the call always succeeds. The result has one node per group from the head (the compactor applied) and one edge per boundary edge (the converter applied), in head-to-tail order |
| PathSquashers.SquashNothing | src/main/java/com/davidje13/path/PathSquasher.java:9-26 | with a test that never holds, every node is compacted on its own and every edge is kept, converted |
| PathSquashers.SquashCombinesChosenNodes | src/test/java/com/davidje13/path/PathSquasherTest.java:17-31 | a1 -1- a2 -2- b, grouped by first character and each group read out in full, squashes to [a1, 1, a2] -2- [b] |
| PathSquashers.PartsPathReadsBack | src/test/java/com/davidje13/path/PathSquasherTest.java:54-69 | spelling back the full read-out of a path gives the same path |
| PathSquashers.ExpandItemsPrefix | src/main/java/com/davidje13/path/PathSquasher.java:37-40 | the node and edge visits emitted for a prefix are those of expand(n1) ++ [conv(e1)] ++ ... ++ expand(nk) for that prefix |
| PathSquashers.CollectInto | src/main/java/com/davidje13/path/PathSquasher.java:38 | the outNodes::add and outEdges::add visitors append the visited nodes and edges to the two lists |
| PathSquashers.ExpandNodes | src/main/java/com/davidje13/path/PathSquasher.java:28-43 | the call always succeeds, and the result is expand(n1) ++ [conv(e1)] ++ expand(n2) ++ ... ++ expand(nk) |
| PathSquashers.ExpandConvertsNodesIntoLargerPaths | src/test/java/com/davidje13/path/PathSquasherTest.java:33-52 | [a, 10, b] -1- [c, 20, d, 30, e] -2- [f], each list spelled out as a path, expands to a -10- b -1- c -20- d -30- e -2- f |
| PathSquashers.ExpandPrefixCounts | src/main/java/com/davidje13/path/PathSquasher.java:34-42 | the expansion of a prefix has the summed node counts of the expansions, and their summed edge counts plus one edge per original edge |
| PathSquashers.ExpansionCounts | src/main/java/com/davidje13/path/PathSquasher.java:34-42 | the whole expansion has the sum of the expansions' node counts, and the sum of their edge counts plus the input's edge count, so the arity check passes |

## Left out

- **Java `int` width.** Indices and counts are unbounded integers. Paths with more than 2^31 − 1 nodes, where `countNodes` and the `subPath` index would overflow, are not modelled.
- **Visitor side effects.** A visitor is modelled by the sequence of calls it receives. Visitors that throw, or that touch the path being visited, are not modelled.
- **Other paths as arguments.** An `ImmutablePath` passed as an argument (a sub-path to search for, a path to splice, a base path, an expansion) is modelled by its abstract value. Whichever representation it has, it is read only through its traversals.
- **`com.davidje13.Box`.** It is a mutable cell and is not part of this model. Its uses are local variables.
- **`EqualityTester`.** It is an adapter over `Comparator` and is not part of this model. Grouping tests are a function `(N, N) -> bool`.
- **Concrete hashes and strings.** The numeric result of `Objects.hash` and `Object.toString` of node and edge values are parameters: a hash function of the two lists, and string functions for nodes and edges.
- **Reference identity and typing.** The `this == o` shortcut and the `instanceof` test of `equals` are not modelled separately. The shortcut agrees with structural equality by reflexivity. The argument is a path value or another object.
- **Element equality.** Nodes and edges are compared as values (Dafny `==`). The source compares them with their own `equals`, through `List.equals` in `ComparablePath.equals`. The sub-path search of `ImmutablePath` calls the sub-path's own `equals`, which reaches the elements the same way. The model assumes every element type's `equals` is value equality.
- **F-bounded generics.** The self type of the builders and the wildcard generics carry no behaviour and are left out.
- **Use after `build()`.** On a built builder, the pushes and the head and tail getters raise a `NullPointerException` in the source. A second `build()` does not fail: it returns a path over the null fields, and that path fails only when it is first used. The model makes a live builder a precondition of every operation but `reset`, `build()` included, so neither behaviour is modelled.
- **Cost.** Asymptotic cost (constant-time `pushFront` and so on) is not modelled.
- **Array cells.** `ArrayPath` cells are values, so the aliasing between a builder's list and the paths built from it is not modelled. The builder drops the list on `build`, so no path observes a later change.
- **Traversal direction.** The two advance lambdas that `LinkedPath` passes to its walkers are one `forward` flag: `next` when true, `prev` when false.
- **The builder factory methods.** `builderFromNode` and the static `builder(node)`/`builder(basePath)` are the `FromNode` and `FromPath` constructors.
- **The mirror property of grouped traversal.** That the from-tail grouping mirrors the from-head grouping when the test is an equivalence relation is not proved. The model proves what each direction does. It also proves, by counterexample, that the two differ for a test that is not transitive.
