/**
 * Transforms between paths of different node and edge types. squashNodes
 * merges each run of nodes that the grouped traversal from the head puts
 * together into one node; expandNodes replaces every node by a whole path.
 * Both collect the new node and edge lists through visitors and assemble the
 * result with a linked builder, after checking the lists fit together.
 */
module PathSquashers {
  import opened Paths
  import opened PathBuilders
  import opened ImmutablePaths
  import opened LinkedPaths

  /**
   * buildPath: refuse lists that cannot form a path; otherwise seed a linked
   * builder with the first node and push every edge with the node after it.
   */
  method BuildPath<N, E>(nodes: seq<N>, edges: seq<E>) returns (r: Result<LinkedPath<N, E>>)
    ensures r.Failure? <==> |nodes| != |edges| + 1
    ensures r.Failure? ==> r.error == MismatchedArity(|nodes|, |edges|)
    ensures r.Success? ==> r.value.Valid() && fresh(r.value.Repr) && r.value.Abs() == Path(nodes, edges)
  {
    if |nodes| != |edges| + 1 {
      return Failure(MismatchedArity(|nodes|, |edges|));
    }
    ghost var p := Path(nodes, edges);
    var builder := new LinkedPathBuilder.FromNode(nodes[0]);
    assert Prefix(p, 0) == Single(nodes[0]);
    for index := 0 to |edges|
      invariant builder.Valid() && builder.head != null
      invariant fresh(builder.Repr) && fresh(builder.head) && fresh(builder.tail)
      invariant builder.State() == Live(Prefix(p, index))
    {
      PrefixStep(p, index);
      builder.PushBack(edges[index], nodes[index + 1]);
    }
    PrefixWhole(p);
    var path := builder.Build();
    return Success(path);
  }

  // ---------------------------------------------------------------------
  // squashNodes
  // ---------------------------------------------------------------------

  /**
   * The squashed path: one node per group of the grouped traversal from the
   * head (the compactor applied to the group), one edge per boundary edge
   * (the converter applied), in head-to-tail order. It always forms a path,
   * as there is one more group than boundary edges.
   */
  ghost function Squashed<N, E, OutN, OutE>(
    p: Path<N, E>, same: (N, N) -> bool, compact: Path<N, E> -> OutN, convert: E -> OutE): (q: Path<OutN, OutE>)
    requires p.Valid()
    ensures q.Valid()
    ensures |q.nodes| == |GroupsFromHead(p, same).groups| <= |p.nodes|
  {
    GroupCount(p, same, |p.edges|);
    var g := GroupsFromHead(p, same);
    Path(seq(|g.groups|, i requires 0 <= i < |g.groups| => compact(g.groups[i])),
         seq(|g.boundaries|, i requires 0 <= i < |g.boundaries| => convert(g.boundaries[i])))
  }

  /** Grouping never makes more groups than there are nodes. */
  lemma {:induction false} GroupCount<N, E>(p: Path<N, E>, same: (N, N) -> bool, k: nat)
    requires p.Valid() && k <= |p.edges|
    ensures |GroupedPrefix(p, same, k).groups| <= k + 1
  {
    if k > 0 {
      GroupCount(p, same, k - 1);
    }
  }

  /** squashNodes: grouped traversal from the head, compacting each group and converting each boundary edge. */
  method SquashNodes<N, E, OutN, OutE>(
    path: Path<N, E>, same: (N, N) -> bool, compact: Path<N, E> -> OutN, convert: E -> OutE)
    returns (r: Result<LinkedPath<OutN, OutE>>)
    requires path.Valid()
    ensures r.Success? && r.value.Valid() && fresh(r.value.Repr)
    ensures r.value.Abs() == Squashed(path, same, compact, convert)
  {
    var groups, boundaries := VisitGroupedFromHead(path, same);
    var outNodes := seq(|groups|, i requires 0 <= i < |groups| => compact(groups[i]));
    var outEdges := seq(|boundaries|, i requires 0 <= i < |boundaries| => convert(boundaries[i]));
    r := BuildPath(outNodes, outEdges);
  }

  /** With a test that never holds, every node is a group of its own and nothing is merged. */
  lemma SquashNothing<N, E, OutN, OutE>(p: Path<N, E>, compact: Path<N, E> -> OutN, convert: E -> OutE)
    requires p.Valid()
    ensures var q := Squashed(p, (a: N, b: N) => false, compact, convert);
      && |q.nodes| == |p.nodes|
      && (forall i :: 0 <= i < |p.nodes| ==> q.nodes[i] == compact(Single(p.nodes[i])))
      && (forall i :: 0 <= i < |p.edges| ==> q.edges[i] == convert(p.edges[i]))
  {
    var never := (a: N, b: N) => false;
    SeparateGroups(p, never, |p.edges|);
  }

  /** Two node names with the same first character (the names in the squashing example are never empty). */
  predicate SameInitial(a: string, b: string) {
    |a| > 0 && |b| > 0 && a[0] == b[0]
  }

  /**
   * Every visit of a path from the head, as one list: the compactor of the
   * squashing example. Only valid paths reach it; anything else reads as nothing.
   */
  function ReadAll<N, E>(g: Path<N, E>): seq<Item<N, E>> {
    if g.Valid() then TraceFromHead(g) else []
  }

  /**
   * a1 -1- a2 -2- b, grouped by first character and each group read out in
   * full, squashes to [a1, 1, a2] -2- [b]: the edge inside the group lands in
   * the squashed node, the boundary edge is kept.
   */
  lemma SquashCombinesChosenNodes()
    ensures Squashed(Path(["a1", "a2", "b"], [1, 2]), SameInitial, ReadAll, (e: int) => e)
         == Path([[NodeItem("a1"), EdgeItem(1), NodeItem("a2")], [NodeItem("b")]], [2])
  {
    var p := Path(["a1", "a2", "b"], [1, 2]);
    var h0 := GroupedPrefix(p, SameInitial, 0);
    assert h0 == Grouping([Single("a1")], []);
    assert ["a1"] + ["a2"] == ["a1", "a2"] && [] + [1] == [1];
    var h1 := GroupedPrefix(p, SameInitial, 1);
    assert SameInitial("a1", "a2");
    assert h1.groups == [Path(["a1", "a2"], [1])];
    assert h1.boundaries == [];
    var h2 := GroupedPrefix(p, SameInitial, 2);
    assert !SameInitial("a2", "b");
    assert h2 == Grouping([Path(["a1", "a2"], [1]), Single("b")], [2]);
    var g0: Path<string, int> := Path(["a1", "a2"], [1]);
    assert PairsFromHead(g0) == [(1, "a2")];
    assert ReadAll(g0) == [NodeItem("a1"), EdgeItem(1), NodeItem("a2")];
    var g1: Path<string, int> := Single("b");
    assert PairsFromHead(g1) == [];
    assert ReadAll(g1) == [NodeItem("b")];
  }

  lemma {:induction false} SeparateGroups<N, E>(p: Path<N, E>, never: (N, N) -> bool, k: nat)
    requires p.Valid() && k <= |p.edges|
    requires forall a, b :: !never(a, b)
    ensures GroupedPrefix(p, never, k).groups == seq(k + 1, i requires 0 <= i < k + 1 => Single(p.nodes[i]))
    ensures GroupedPrefix(p, never, k).boundaries == p.edges[..k]
  {
    if k > 0 {
      SeparateGroups(p, never, k - 1);
      assert p.edges[..k - 1] + [p.edges[k - 1]] == p.edges[..k];
    }
  }

  // ---------------------------------------------------------------------
  // expandNodes
  // ---------------------------------------------------------------------

  /** What the visitors of expandNodes emit for one visit of the original path. */
  function ItemExpansion<N, E, OutN, OutE>(
    item: Item<N, E>, expand: N -> Path<OutN, OutE>, convert: E -> OutE): seq<Item<OutN, OutE>>
    requires item.NodeItem? ==> expand(item.node).Valid()
  {
    match item
    case NodeItem(n) => TraceFromHead(expand(n))
    case EdgeItem(e) => [EdgeItem(convert(e))]
  }

  /**
   * What the visitors of expandNodes emit for a trace: the whole head
   * traversal of the expansion for a node visit, the converted edge for an
   * edge visit.
   */
  ghost function ExpandItems<N(!new), E, OutN, OutE>(
    trace: seq<Item<N, E>>, expand: N -> Path<OutN, OutE>, convert: E -> OutE): seq<Item<OutN, OutE>>
    requires forall n :: expand(n).Valid()
  {
    if trace == [] then []
    else ExpandItems(trace[..|trace| - 1], expand, convert) + ItemExpansion(trace[|trace| - 1], expand, convert)
  }

  lemma ExpandItemsSnoc<N(!new), E, OutN, OutE>(
    trace: seq<Item<N, E>>, item: Item<N, E>, expand: N -> Path<OutN, OutE>, convert: E -> OutE)
    requires forall n :: expand(n).Valid()
    ensures ExpandItems(trace + [item], expand, convert) == ExpandItems(trace, expand, convert) + ItemExpansion(item, expand, convert)
  {
    assert (trace + [item])[..|trace|] == trace;
  }

  /** An edge visit followed by a node visit emits the converted edge and then the node's expansion. */
  lemma ExpandItemsPair<N(!new), E, OutN, OutE>(
    trace: seq<Item<N, E>>, e: E, n: N, expand: N -> Path<OutN, OutE>, convert: E -> OutE)
    requires forall n :: expand(n).Valid()
    ensures ExpandItems(trace + [EdgeItem(e), NodeItem(n)], expand, convert)
      == ExpandItems(trace, expand, convert) + [EdgeItem(convert(e))] + TraceFromHead(expand(n))
  {
    assert trace + [EdgeItem(e), NodeItem(n)] == trace + [EdgeItem(e)] + [NodeItem(n)];
    ExpandItemsSnoc(trace, EdgeItem(e), expand, convert);
    ExpandItemsSnoc(trace + [EdgeItem(e)], NodeItem(n), expand, convert);
  }

  /** One more pair of the original path emits its converted edge and then its node's expansion. */
  lemma ExpandItemsStep<N(!new), E, OutN, OutE>(
    p: Path<N, E>, expand: N -> Path<OutN, OutE>, convert: E -> OutE, k: nat)
    requires p.Valid() && 0 < k <= |p.edges| && forall n :: expand(n).Valid()
    ensures ExpandItems(TraceFromHead(Prefix(p, k)), expand, convert)
      == ExpandItems(TraceFromHead(Prefix(p, k - 1)), expand, convert)
           + [EdgeItem(convert(p.edges[k - 1]))] + TraceFromHead(expand(p.nodes[k]))
  {
    var e, n := p.edges[k - 1], p.nodes[k];
    PrefixStep(p, k - 1);
    TraceFromHeadAppend(Prefix(p, k - 1), e, n);
    ExpandItemsPair(TraceFromHead(Prefix(p, k - 1)), e, n, expand, convert);
  }

  /** Emitting a converted edge and then a whole path adds that edge and the path's nodes and edges. */
  lemma {:induction false} EmitEdgeThenPath<N, E>(before: seq<Item<N, E>>, c: E, q: Path<N, E>)
    requires q.Valid()
    ensures NodesOf(before + [EdgeItem(c)] + TraceFromHead(q)) == NodesOf(before) + q.nodes
    ensures EdgesOf(before + [EdgeItem(c)] + TraceFromHead(q)) == EdgesOf(before) + [c] + q.edges
  {
    var edgeItem: seq<Item<N, E>> := [EdgeItem(c)];
    NodesOfConcat(before + edgeItem, TraceFromHead(q));
    NodesOfConcat(before, edgeItem);
    assert edgeItem[..0] == [];
    NodesOfTraceFromHead(q);
  }

  /** The expansion of the first k + 1 nodes: expansions joined by the converted edges. */
  ghost function ExpandPrefix<N(!new), E, OutN, OutE>(
    p: Path<N, E>, expand: N -> Path<OutN, OutE>, convert: E -> OutE, k: nat): (q: Path<OutN, OutE>)
    requires p.Valid() && k <= |p.edges| && forall n :: expand(n).Valid()
    ensures q.Valid()
  {
    if k == 0 then expand(p.nodes[0])
    else Join(ExpandPrefix(p, expand, convert, k - 1), convert(p.edges[k - 1]), expand(p.nodes[k]))
  }

  /** expand(n1), conv(e1), expand(n2), ..., expand(nk), joined into one path. */
  ghost function Expansion<N(!new), E, OutN, OutE>(
    p: Path<N, E>, expand: N -> Path<OutN, OutE>, convert: E -> OutE): Path<OutN, OutE>
    requires p.Valid() && forall n :: expand(n).Valid()
  {
    ExpandPrefix(p, expand, convert, |p.edges|)
  }

  /** The node and edge visits of the emitted trace for a prefix are those of the expansion of that prefix. */
  lemma {:induction false} ExpandItemsPrefix<N(!new), E, OutN, OutE>(
    p: Path<N, E>, expand: N -> Path<OutN, OutE>, convert: E -> OutE, k: nat)
    requires p.Valid() && k <= |p.edges| && forall n :: expand(n).Valid()
    ensures NodesOf(ExpandItems(TraceFromHead(Prefix(p, k)), expand, convert)) == ExpandPrefix(p, expand, convert, k).nodes
    ensures EdgesOf(ExpandItems(TraceFromHead(Prefix(p, k)), expand, convert)) == ExpandPrefix(p, expand, convert, k).edges
  {
    if k == 0 {
      var t := TraceFromHead(Prefix(p, 0));
      assert PairsFromHead(Prefix(p, 0)) == [];
      assert t == [] + [NodeItem(p.nodes[0])];
      ExpandItemsSnoc([], NodeItem(p.nodes[0]), expand, convert);
      assert ExpandItems(t, expand, convert) == TraceFromHead(expand(p.nodes[0]));
      NodesOfTraceFromHead(expand(p.nodes[0]));
    } else {
      ExpandItemsPrefix(p, expand, convert, k - 1);
      ExpandItemsStep(p, expand, convert, k);
      EmitEdgeThenPath(ExpandItems(TraceFromHead(Prefix(p, k - 1)), expand, convert), convert(p.edges[k - 1]), expand(p.nodes[k]));
    }
  }

  /** One more visit adds the node and edge visits of what it emits. */
  lemma ExpandItemsVisit<N(!new), E, OutN, OutE>(
    trace: seq<Item<N, E>>, i: nat, expand: N -> Path<OutN, OutE>, convert: E -> OutE)
    requires i < |trace| && forall n :: expand(n).Valid()
    ensures NodesOf(ExpandItems(trace[..i + 1], expand, convert))
      == NodesOf(ExpandItems(trace[..i], expand, convert)) + NodesOf(ItemExpansion(trace[i], expand, convert))
    ensures EdgesOf(ExpandItems(trace[..i + 1], expand, convert))
      == EdgesOf(ExpandItems(trace[..i], expand, convert)) + EdgesOf(ItemExpansion(trace[i], expand, convert))
  {
    assert trace[..i + 1] == trace[..i] + [trace[i]];
    ExpandItemsSnoc(trace[..i], trace[i], expand, convert);
    NodesOfConcat(ExpandItems(trace[..i], expand, convert), ItemExpansion(trace[i], expand, convert));
  }

  /** An edge visit emits no node and exactly the converted edge. */
  lemma EdgeExpansion<N, E, OutN, OutE>(e: E, expand: N -> Path<OutN, OutE>, convert: E -> OutE)
    ensures NodesOf(ItemExpansion(EdgeItem(e), expand, convert)) == []
    ensures EdgesOf(ItemExpansion(EdgeItem(e), expand, convert)) == [convert(e)]
  {
    var emitted: seq<Item<OutN, OutE>> := [EdgeItem(convert(e))];
    assert emitted[..0] == [];
  }

  /** The node and edge visits emitted for the whole path are those of its expansion. */
  lemma ExpandItemsWhole<N(!new), E, OutN, OutE>(p: Path<N, E>, expand: N -> Path<OutN, OutE>, convert: E -> OutE)
    requires p.Valid() && forall n :: expand(n).Valid()
    ensures NodesOf(ExpandItems(TraceFromHead(p), expand, convert)) == Expansion(p, expand, convert).nodes
    ensures EdgesOf(ExpandItems(TraceFromHead(p), expand, convert)) == Expansion(p, expand, convert).edges
  {
    ExpandItemsPrefix(p, expand, convert, |p.edges|);
    PrefixWhole(p);
  }

  /**
   * A visit that adds every node to one list and every edge to another, as
   * the method references outNodes::add and outEdges::add do.
   */
  method CollectInto<N, E>(trace: seq<Item<N, E>>, nodes: seq<N>, edges: seq<E>)
    returns (outNodes: seq<N>, outEdges: seq<E>)
    ensures outNodes == nodes + NodesOf(trace) && outEdges == edges + EdgesOf(trace)
  {
    outNodes, outEdges := nodes, edges;
    for j := 0 to |trace|
      invariant outNodes == nodes + NodesOf(trace[..j])
      invariant outEdges == edges + EdgesOf(trace[..j])
    {
      assert trace[..j + 1][..j] == trace[..j];
      match trace[j]
      case NodeItem(n) =>
        outNodes := outNodes + [n];
      case EdgeItem(e) =>
        outEdges := outEdges + [e];
    }
    assert trace[..|trace|] == trace;
  }

  /** expandNodes: visit the path from the head; each node visit runs the expansion's own head traversal. */
  method ExpandNodes<N(!new), E, OutN, OutE>(path: Path<N, E>, expand: N -> Path<OutN, OutE>, convert: E -> OutE)
    returns (r: Result<LinkedPath<OutN, OutE>>)
    requires path.Valid() && forall n :: expand(n).Valid()
    ensures r.Success? && r.value.Valid() && fresh(r.value.Repr)
    ensures r.value.Abs() == Expansion(path, expand, convert)
  {
    var trace := TraceFromHead(path);
    var outNodes: seq<OutN>, outEdges: seq<OutE> := [], [];
    for i := 0 to |trace|
      invariant outNodes == NodesOf(ExpandItems(trace[..i], expand, convert))
      invariant outEdges == EdgesOf(ExpandItems(trace[..i], expand, convert))
    {
      ExpandItemsVisit(trace, i, expand, convert);
      match trace[i]
      case NodeItem(n) =>
        outNodes, outEdges := CollectInto(TraceFromHead(expand(n)), outNodes, outEdges);
      case EdgeItem(e) =>
        EdgeExpansion(e, expand, convert);
        outEdges := outEdges + [convert(e)];
    }
    assert trace[..|trace|] == trace;
    ExpandItemsWhole(path, expand, convert);
    r := BuildPath(outNodes, outEdges);
  }

  /**
   * The path a flat list of visits stands for: its node visits between its
   * edge visits, as the expansion example builds one. A list with the wrong
   * number of nodes, which that example's builder would reject, stands for
   * the single fallback node here.
   */
  function PartsPath<N, E>(parts: seq<Item<N, E>>, fallback: N): (q: Path<N, E>)
    ensures q.Valid()
  {
    if |NodesOf(parts)| == |EdgesOf(parts)| + 1 then Path(NodesOf(parts), EdgesOf(parts)) else Single(fallback)
  }

  /** Reading a path out in full and spelling the list back gives the path again. */
  lemma PartsPathReadsBack<N, E>(q: Path<N, E>, fallback: N)
    requires q.Valid()
    ensures PartsPath(ReadAll(q), fallback) == q
  {
    NodesOfTraceFromHead(q);
  }

  /**
   * [a, 10, b] -1- [c, 20, d, 30, e] -2- [f], each node expanded to the path
   * its list spells, becomes a -10- b -1- c -20- d -30- e -2- f.
   */
  lemma ExpandConvertsNodesIntoLargerPaths()
    ensures Expansion(
              Path([[NodeItem("a"), EdgeItem(10), NodeItem("b")],
                    [NodeItem("c"), EdgeItem(20), NodeItem("d"), EdgeItem(30), NodeItem("e")],
                    [NodeItem("f")]], [1, 2]),
              (parts: seq<Item<string, int>>) => PartsPath(parts, ""), (e: int) => e)
         == Path(["a", "b", "c", "d", "e", "f"], [10, 1, 20, 30, 2])
  {
    var expand := (parts: seq<Item<string, int>>) => PartsPath(parts, "");
    var convert := (e: int) => e;
    var l0: seq<Item<string, int>> := [NodeItem("a"), EdgeItem(10), NodeItem("b")];
    var l1: seq<Item<string, int>> := [NodeItem("c"), EdgeItem(20), NodeItem("d"), EdgeItem(30), NodeItem("e")];
    var l2: seq<Item<string, int>> := [NodeItem("f")];
    var p := Path([l0, l1, l2], [1, 2]);
    var q0: Path<string, int> := Path(["a", "b"], [10]);
    var q1: Path<string, int> := Path(["c", "d", "e"], [20, 30]);
    assert PairsFromHead(q0) == [(10, "b")];
    assert l0 == ReadAll(q0);
    PartsPathReadsBack(q0, "");
    assert PairsFromHead(q1) == [(20, "d"), (30, "e")];
    assert l1 == ReadAll(q1);
    PartsPathReadsBack(q1, "");
    assert NodesOf(l2) == ["f"] && EdgesOf(l2) == [];
    assert expand(l2) == Path(["f"], []);
    assert ExpandPrefix(p, expand, convert, 0) == Path(["a", "b"], [10]);
    assert ExpandPrefix(p, expand, convert, 1) == Path(["a", "b", "c", "d", "e"], [10, 1, 20, 30]);
  }

  /** The total node count of the expansions of `nodes`. */
  ghost function NodeTotal<N, OutN, OutE>(nodes: seq<N>, expand: N -> Path<OutN, OutE>): int {
    if nodes == [] then 0
    else NodeTotal(nodes[..|nodes| - 1], expand) + |expand(nodes[|nodes| - 1]).nodes|
  }

  /** The total edge count of the expansions of `nodes`. */
  ghost function EdgeTotal<N, OutN, OutE>(nodes: seq<N>, expand: N -> Path<OutN, OutE>): int {
    if nodes == [] then 0
    else EdgeTotal(nodes[..|nodes| - 1], expand) + |expand(nodes[|nodes| - 1]).edges|
  }

  /**
   * The expansion has the nodes of all the expansions, and their edges plus
   * one converted edge per original edge; so the arity check cannot fail.
   */
  lemma {:induction false} ExpandPrefixCounts<N(!new), E, OutN, OutE>(
    p: Path<N, E>, expand: N -> Path<OutN, OutE>, convert: E -> OutE, k: nat)
    requires p.Valid() && k <= |p.edges| && forall n :: expand(n).Valid()
    ensures |ExpandPrefix(p, expand, convert, k).nodes| == NodeTotal(p.nodes[..k + 1], expand)
    ensures |ExpandPrefix(p, expand, convert, k).edges| == EdgeTotal(p.nodes[..k + 1], expand) + k
  {
    if k == 0 {
      assert p.nodes[..1][..0] == [];
    } else {
      ExpandPrefixCounts(p, expand, convert, k - 1);
      assert p.nodes[..k + 1][..k] == p.nodes[..k];
    }
  }

  lemma ExpansionCounts<N(!new), E, OutN, OutE>(p: Path<N, E>, expand: N -> Path<OutN, OutE>, convert: E -> OutE)
    requires p.Valid() && forall n :: expand(n).Valid()
    ensures |Expansion(p, expand, convert).nodes| == NodeTotal(p.nodes, expand)
    ensures |Expansion(p, expand, convert).edges| == EdgeTotal(p.nodes, expand) + |p.edges|
  {
    ExpandPrefixCounts(p, expand, convert, |p.edges|);
    assert p.nodes[..|p.edges| + 1] == p.nodes;
  }
}
