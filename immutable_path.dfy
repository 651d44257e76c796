/**
 * The algorithms the path contract derives from its primitives (head, tail
 * and pair traversal): materialising a builder, counting, listing the nodes
 * and edges, cutting out a sub path, searching for a sub path and the
 * grouped traversals. Each one is written, as in the library, as a loop over
 * what the primitive traversal emits, with the state its visitor closes over
 * (a counter, a list, a builder) as loop variables.
 */
module ImmutablePaths {
  import opened Paths
  import opened PathBuilders
  import ComparablePaths

  // ---------------------------------------------------------------------
  // Builder round trip, counting and listing
  // ---------------------------------------------------------------------

  /** toBuilder: seed a builder with the head, then push every pair from the head. */
  method ToBuilder<N, E>(p: Path<N, E>) returns (b: Builder<N, E>)
    requires p.Valid()
    ensures b == Live(p) && b.Valid()
    ensures Build(b).0 == p
  {
    b := New(Head(p));
    assert Prefix(p, 0) == Single(Head(p));
    var pairs := PairsFromHead(p);
    for i := 0 to |pairs|
      invariant b == Live(Prefix(p, i))
    {
      PrefixStep(p, i);
      b := PushBack(b, pairs[i].0, pairs[i].1);
    }
    PrefixWhole(p);
  }

  /** countNodes: one increment per node visit of the traversal from the head. */
  method CountNodes<N, E>(p: Path<N, E>) returns (count: int)
    requires p.Valid()
    ensures count == |p.nodes| && count >= 1
  {
    var trace := TraceFromHead(p);
    count := 0;
    for i := 0 to |trace|
      invariant count == |NodesOf(trace[..i])|
    {
      assert trace[..i + 1][..i] == trace[..i];
      if trace[i].NodeItem? {
        count := count + 1;
      }
    }
    assert trace[..|trace|] == trace;
    NodesOfTraceFromHead(p);
  }

  /** countEdges: one fewer than the nodes. */
  method CountEdges<N, E>(p: Path<N, E>) returns (count: int)
    requires p.Valid()
    ensures count == |p.edges| && count == |p.nodes| - 1 && count >= 0
  {
    count := CountNodes(p);
    count := count - 1;
  }

  /** A list-adding node visitor run over a trace: it ends up holding the node visits. */
  method CollectNodes<N, E>(trace: seq<Item<N, E>>) returns (nodes: seq<N>)
    ensures nodes == NodesOf(trace)
  {
    nodes := [];
    for i := 0 to |trace|
      invariant nodes == NodesOf(trace[..i])
    {
      assert trace[..i + 1][..i] == trace[..i];
      if trace[i].NodeItem? {
        nodes := nodes + [trace[i].node];
      }
    }
    assert trace[..|trace|] == trace;
  }

  /** A list-adding edge visitor run over a trace: it ends up holding the edge visits. */
  method CollectEdges<N, E>(trace: seq<Item<N, E>>) returns (edges: seq<E>)
    ensures edges == EdgesOf(trace)
  {
    edges := [];
    for i := 0 to |trace|
      invariant edges == EdgesOf(trace[..i])
    {
      assert trace[..i + 1][..i] == trace[..i];
      if trace[i].EdgeItem? {
        edges := edges + [trace[i].edge];
      }
    }
    assert trace[..|trace|] == trace;
  }

  method GetNodesFromHead<N, E>(p: Path<N, E>) returns (nodes: seq<N>)
    requires p.Valid()
    ensures nodes == p.nodes
  {
    nodes := CollectNodes(TraceFromHead(p));
    NodesOfTraceFromHead(p);
  }

  method GetNodesFromTail<N, E>(p: Path<N, E>) returns (nodes: seq<N>)
    requires p.Valid()
    ensures nodes == Reverse(p.nodes)
  {
    nodes := CollectNodes(TraceFromTail(p));
    NodesOfTraceFromTail(p);
  }

  method GetEdgesFromHead<N, E>(p: Path<N, E>) returns (edges: seq<E>)
    requires p.Valid()
    ensures edges == p.edges
  {
    edges := CollectEdges(TraceFromHead(p));
    NodesOfTraceFromHead(p);
  }

  method GetEdgesFromTail<N, E>(p: Path<N, E>) returns (edges: seq<E>)
    requires p.Valid()
    ensures edges == Reverse(p.edges)
  {
    edges := CollectEdges(TraceFromTail(p));
    NodesOfTraceFromTail(p);
  }

  // ---------------------------------------------------------------------
  // Sub paths
  // ---------------------------------------------------------------------

  /**
   * subPath: the nodes start .. end (both inclusive). A negative start or an
   * end before the start is refused before anything is visited; an end past
   * the last node is only noticed once the traversal has counted the nodes.
   */
  method SubPath<N, E>(p: Path<N, E>, start: int, end: int) returns (r: Result<Path<N, E>>)
    requires p.Valid()
    ensures r.Failure? <==> start < 0 || end < start || end >= |p.nodes|
    ensures start < 0 || end < start ==> r == Failure(InvalidRange(start, end))
    ensures 0 <= start <= end && end >= |p.nodes| ==> r == Failure(RangeBeyondPath(start, end, |p.nodes|))
    ensures r.Success? ==> 0 <= start <= end < |p.nodes| && r.value == Slice(p, start, end)
  {
    if start < 0 || end < start {
      return Failure(InvalidRange(start, end));
    }
    var builder := New(Head(p));
    assert Slice(p, 0, 0) == Single(Head(p));
    var index := 1;
    var pairs := PairsFromHead(p);
    for k := 0 to |pairs|
      invariant index == k + 1 && builder.Live?
      invariant start < index ==> builder.content == Slice(p, start, if end < index then end else index - 1)
      invariant index <= start ==> builder.content == Single(Head(p))
    {
      var edge, node := pairs[k].0, pairs[k].1;
      if index == start {
        assert Slice(p, index, index) == Single(node);
        builder := Reset(builder, node);
      } else if index > start && index <= end {
        SliceStep(p, start, k);
        builder := PushBack(builder, edge, node);
      }
      index := index + 1;
    }
    var size := index;
    if end >= size {
      return Failure(RangeBeyondPath(start, end, size));
    }
    var built := Build(builder);
    return Success(built.0);
  }

  /** `sub` occurs in `p` with its head at node index `i`. */
  ghost predicate MatchesAt<N, E>(p: Path<N, E>, sub: Path<N, E>, i: int)
    requires p.Valid() && sub.Valid()
  {
    0 <= i && i + |sub.nodes| <= |p.nodes| && Slice(p, i, i + |sub.nodes| - 1) == sub
  }

  lemma MatchesWhole<N, E>(p: Path<N, E>)
    requires p.Valid()
    ensures MatchesAt(p, p, 0)
    ensures forall i :: MatchesAt(p, p, i) ==> i == 0
  {
    assert p.nodes[0..|p.nodes|] == p.nodes;
    assert p.edges[0..|p.edges|] == p.edges;
  }

  /** firstIndexOfSubPath: try every start from the head; the first match wins, else -1. */
  method FirstIndexOfSubPath<N(==), E(==)>(p: Path<N, E>, sub: Path<N, E>) returns (index: int)
    requires p.Valid() && sub.Valid()
    ensures -1 <= index
    ensures index == -1 <==> forall i :: !MatchesAt(p, sub, i)
    ensures index >= 0 ==> MatchesAt(p, sub, index) && forall i :: 0 <= i < index ==> !MatchesAt(p, sub, i)
    ensures |sub.nodes| > |p.nodes| ==> index == -1
    ensures sub == p ==> index == 0
  {
    var size := CountNodes(p);
    var subSize := CountNodes(sub);
    var i := 0;
    while i <= size - subSize
      invariant 0 <= i
      invariant forall j :: 0 <= j < i ==> !MatchesAt(p, sub, j)
    {
      var candidate := SubPath(p, i, i + subSize - 1);
      if ComparablePaths.Equals(candidate.value, ComparablePaths.PathValue(sub)) {
        assert MatchesAt(p, sub, i);
        MatchesWhole(p);
        return i;
      }
      i := i + 1;
    }
    MatchesWhole(p);
    return -1;
  }

  /** lastIndexOfSubPath: try every start from the furthest one back; the first match wins, else -1. */
  method LastIndexOfSubPath<N(==), E(==)>(p: Path<N, E>, sub: Path<N, E>) returns (index: int)
    requires p.Valid() && sub.Valid()
    ensures -1 <= index
    ensures index == -1 <==> forall i :: !MatchesAt(p, sub, i)
    ensures index >= 0 ==> MatchesAt(p, sub, index) && forall i :: index < i ==> !MatchesAt(p, sub, i)
    ensures |sub.nodes| > |p.nodes| ==> index == -1
    ensures sub == p ==> index == 0
  {
    var size := CountNodes(p);
    var subSize := CountNodes(sub);
    var i := size - subSize;
    while i >= 0
      invariant i <= size - subSize
      invariant forall j :: i < j ==> !MatchesAt(p, sub, j)
    {
      var candidate := SubPath(p, i, i + subSize - 1);
      if ComparablePaths.Equals(candidate.value, ComparablePaths.PathValue(sub)) {
        assert MatchesAt(p, sub, i);
        MatchesWhole(p);
        return i;
      }
      i := i - 1;
    }
    MatchesWhole(p);
    return -1;
  }

  method ContainsSubPath<N(==), E(==)>(p: Path<N, E>, sub: Path<N, E>) returns (b: bool)
    requires p.Valid() && sub.Valid()
    ensures b <==> exists i :: MatchesAt(p, sub, i)
  {
    var index := FirstIndexOfSubPath(p, sub);
    b := index != -1;
  }

  /** startsWith: too long a candidate is refused without cutting; otherwise compare the leading slice. */
  method StartsWith<N(==), E(==)>(p: Path<N, E>, sub: Path<N, E>) returns (b: bool)
    requires p.Valid() && sub.Valid()
    ensures b <==> MatchesAt(p, sub, 0)
  {
    var size := CountNodes(p);
    var subSize := CountNodes(sub);
    if subSize > size {
      return false;
    }
    var candidate := SubPath(p, 0, subSize - 1);
    b := ComparablePaths.Equals(candidate.value, ComparablePaths.PathValue(sub));
  }

  /** endsWith: as startsWith, on the trailing slice. */
  method EndsWith<N(==), E(==)>(p: Path<N, E>, sub: Path<N, E>) returns (b: bool)
    requires p.Valid() && sub.Valid()
    ensures b <==> MatchesAt(p, sub, |p.nodes| - |sub.nodes|)
  {
    var size := CountNodes(p);
    var subSize := CountNodes(sub);
    if subSize > size {
      return false;
    }
    var candidate := SubPath(p, size - subSize, size - 1);
    b := ComparablePaths.Equals(candidate.value, ComparablePaths.PathValue(sub));
  }

  // ---------------------------------------------------------------------
  // Grouped traversal
  // ---------------------------------------------------------------------

  /**
   * What a grouped traversal hands its visitors: the groups in the order
   * they are finished, and the boundary edge emitted before each group but
   * the first.
   */
  datatype Grouping<N, E> = Grouping(groups: seq<Path<N, E>>, boundaries: seq<E>) {
    predicate Valid() {
      |groups| == |boundaries| + 1 && forall i :: 0 <= i < |groups| ==> groups[i].Valid()
    }
  }

  /**
   * The groups (the last one still open) after the traversal from the head
   * has handled the first k pairs: a node joins the open group when it tests
   * equal to the group's tail, the node just before it.
   */
  function GroupedPrefix<N, E>(p: Path<N, E>, same: (N, N) -> bool, k: nat): (g: Grouping<N, E>)
    requires p.Valid() && k <= |p.edges|
    ensures g.Valid()
  {
    if k == 0 then Grouping([Single(Head(p))], [])
    else
      var prev := GroupedPrefix(p, same, k - 1);
      var last := |prev.groups| - 1;
      var open := prev.groups[last];
      var e, n := p.edges[k - 1], p.nodes[k];
      if same(Tail(open), n) then Grouping(prev.groups[..last] + [Append(open, e, n)], prev.boundaries)
      else Grouping(prev.groups + [Single(n)], prev.boundaries + [e])
  }

  /**
   * The groups (the last one still open) after the traversal from the tail
   * has handled the pairs down to node k: the group grows at its head, but a
   * node is tested against the group's tail, the node the group began with.
   */
  function GroupedSuffix<N, E>(p: Path<N, E>, same: (N, N) -> bool, k: nat): (g: Grouping<N, E>)
    requires p.Valid() && k <= |p.edges|
    ensures g.Valid()
    decreases |p.edges| - k
  {
    if k == |p.edges| then Grouping([Single(Tail(p))], [])
    else
      var prev := GroupedSuffix(p, same, k + 1);
      var last := |prev.groups| - 1;
      var open := prev.groups[last];
      var e, n := p.edges[k], p.nodes[k];
      if same(Tail(open), n) then Grouping(prev.groups[..last] + [Prepend(n, e, open)], prev.boundaries)
      else Grouping(prev.groups + [Single(n)], prev.boundaries + [e])
  }

  function GroupsFromHead<N, E>(p: Path<N, E>, same: (N, N) -> bool): Grouping<N, E>
    requires p.Valid()
  {
    GroupedPrefix(p, same, |p.edges|)
  }

  function GroupsFromTail<N, E>(p: Path<N, E>, same: (N, N) -> bool): Grouping<N, E>
    requires p.Valid()
  {
    GroupedSuffix(p, same, 0)
  }

  /** The grouping with its last group and last boundary removed. */
  function Init<N, E>(g: Grouping<N, E>): (r: Grouping<N, E>)
    requires g.Valid() && |g.groups| > 1
    ensures r.Valid() && |r.groups| == |g.groups| - 1
  {
    Grouping(g.groups[..|g.groups| - 1], g.boundaries[..|g.boundaries| - 1])
  }

  /** Groups listed head first, rejoined through their boundary edges. */
  function JoinedFromHead<N, E>(g: Grouping<N, E>): Path<N, E>
    requires g.Valid()
    decreases |g.groups|
  {
    if |g.groups| == 1 then g.groups[0]
    else Join(JoinedFromHead(Init(g)), g.boundaries[|g.boundaries| - 1], g.groups[|g.groups| - 1])
  }

  /** Groups listed tail first, rejoined through their boundary edges. */
  function JoinedFromTail<N, E>(g: Grouping<N, E>): Path<N, E>
    requires g.Valid()
    decreases |g.groups|
  {
    if |g.groups| == 1 then g.groups[0]
    else Join(g.groups[|g.groups| - 1], g.boundaries[|g.boundaries| - 1], JoinedFromTail(Init(g)))
  }

  /** Every node of `g` but the head tests equal to the node before it. */
  ghost predicate Chained<N, E>(g: Path<N, E>, same: (N, N) -> bool)
    requires g.Valid()
  {
    forall j :: 0 <= j < |g.edges| ==> same(g.nodes[j], g.nodes[j + 1])
  }

  /** Every node of `g` but the tail tests equal to the tail. */
  ghost predicate Anchored<N, E>(g: Path<N, E>, same: (N, N) -> bool)
    requires g.Valid()
  {
    forall j :: 0 <= j < |g.edges| ==> same(Tail(g), g.nodes[j])
  }

  /** Growing the last group by one pair grows the rejoined path by the same pair. */
  lemma {:induction false} JoinedFromHeadGrow<N, E>(g: Grouping<N, E>, e: E, n: N)
    requires g.Valid()
    ensures var last := |g.groups| - 1;
      var h := Grouping(g.groups[..last] + [Append(g.groups[last], e, n)], g.boundaries);
      h.Valid() && JoinedFromHead(h) == Append(JoinedFromHead(g), e, n)
  {
    var last := |g.groups| - 1;
    var h := Grouping(g.groups[..last] + [Append(g.groups[last], e, n)], g.boundaries);
    if last > 0 {
      assert Init(h) == Init(g);
      JoinAppend(JoinedFromHead(Init(g)), g.boundaries[last - 1], g.groups[last], e, n);
    }
  }

  /** Opening a new group after a boundary edge grows the rejoined path by that edge and node. */
  lemma JoinedFromHeadSplit<N, E>(g: Grouping<N, E>, e: E, n: N)
    requires g.Valid()
    ensures var h := Grouping(g.groups + [Single(n)], g.boundaries + [e]);
      h.Valid() && JoinedFromHead(h) == Append(JoinedFromHead(g), e, n)
  {
    var h := Grouping(g.groups + [Single(n)], g.boundaries + [e]);
    assert Init(h) == g;
    JoinSingle(JoinedFromHead(g), e, n);
  }

  /** From the head: the groups, rejoined through the boundary edges, are the prefix visited so far. */
  lemma {:induction false} GroupedPrefixJoins<N, E>(p: Path<N, E>, same: (N, N) -> bool, k: nat)
    requires p.Valid() && k <= |p.edges|
    ensures JoinedFromHead(GroupedPrefix(p, same, k)) == Prefix(p, k)
  {
    if k == 0 {
      assert Prefix(p, 0) == Single(Head(p));
    } else {
      var prev := GroupedPrefix(p, same, k - 1);
      GroupedPrefixJoins(p, same, k - 1);
      PrefixStep(p, k - 1);
      JoinedFromHeadGrow(prev, p.edges[k - 1], p.nodes[k]);
      JoinedFromHeadSplit(prev, p.edges[k - 1], p.nodes[k]);
    }
  }

  /** From the head: inside every group, each node tests equal to the node before it. */
  lemma {:induction false} GroupedPrefixChained<N, E>(p: Path<N, E>, same: (N, N) -> bool, k: nat)
    requires p.Valid() && k <= |p.edges|
    ensures forall i :: 0 <= i < |GroupedPrefix(p, same, k).groups| ==>
      Chained(GroupedPrefix(p, same, k).groups[i], same)
  {
    if k > 0 {
      var g, prev := GroupedPrefix(p, same, k), GroupedPrefix(p, same, k - 1);
      GroupedPrefixChained(p, same, k - 1);
      var last := |prev.groups| - 1;
      var open := prev.groups[last];
      var e, n := p.edges[k - 1], p.nodes[k];
      forall i | 0 <= i < |g.groups| ensures Chained(g.groups[i], same) {
        if i < last {
          assert g.groups[i] == prev.groups[i];
        } else if i == last && same(Tail(open), n) {
          var grown := g.groups[i];
          assert grown == Append(open, e, n) && Chained(open, same);
          forall j | 0 <= j < |grown.edges| ensures same(grown.nodes[j], grown.nodes[j + 1]) {
            if j < |open.edges| {
              assert same(open.nodes[j], open.nodes[j + 1]);
            }
          }
        } else if i == last {
          assert g.groups[i] == open;
        } else {
          assert g.groups[i] == Single(n);
        }
      }
    }
  }

  /** From the head: at every boundary, the head of the next group fails the test against the tail of the group before. */
  lemma {:induction false} GroupedPrefixSplits<N, E>(p: Path<N, E>, same: (N, N) -> bool, k: nat)
    requires p.Valid() && k <= |p.edges|
    ensures forall i :: 0 <= i < |GroupedPrefix(p, same, k).boundaries| ==>
      !same(Tail(GroupedPrefix(p, same, k).groups[i]), Head(GroupedPrefix(p, same, k).groups[i + 1]))
  {
    if k > 0 {
      var g, prev := GroupedPrefix(p, same, k), GroupedPrefix(p, same, k - 1);
      GroupedPrefixSplits(p, same, k - 1);
      var last := |prev.groups| - 1;
      var open := prev.groups[last];
      var e, n := p.edges[k - 1], p.nodes[k];
      forall i | 0 <= i < |g.boundaries| ensures !same(Tail(g.groups[i]), Head(g.groups[i + 1])) {
        assert g.groups[i] == prev.groups[i];
        if i + 1 <= last {
          assert Head(g.groups[i + 1]) == Head(prev.groups[i + 1]);
        }
      }
    }
  }

  /** Growing the last group at its head by one pair grows the rejoined path at its head. */
  lemma {:induction false} JoinedFromTailGrow<N, E>(g: Grouping<N, E>, n: N, e: E)
    requires g.Valid()
    ensures var last := |g.groups| - 1;
      var h := Grouping(g.groups[..last] + [Prepend(n, e, g.groups[last])], g.boundaries);
      h.Valid() && JoinedFromTail(h) == Prepend(n, e, JoinedFromTail(g))
  {
    var last := |g.groups| - 1;
    var h := Grouping(g.groups[..last] + [Prepend(n, e, g.groups[last])], g.boundaries);
    if last > 0 {
      assert Init(h) == Init(g);
      PrependJoin(n, e, g.groups[last], g.boundaries[last - 1], JoinedFromTail(Init(g)));
    }
  }

  /** Opening a new group before a boundary edge grows the rejoined path at its head. */
  lemma JoinedFromTailSplit<N, E>(g: Grouping<N, E>, n: N, e: E)
    requires g.Valid()
    ensures var h := Grouping(g.groups + [Single(n)], g.boundaries + [e]);
      h.Valid() && JoinedFromTail(h) == Prepend(n, e, JoinedFromTail(g))
  {
    var h := Grouping(g.groups + [Single(n)], g.boundaries + [e]);
    assert Init(h) == g;
    JoinSingle(JoinedFromTail(g), e, n);
  }

  /** From the tail: the groups, rejoined through the boundary edges, are the suffix visited so far. */
  lemma {:induction false} GroupedSuffixJoins<N, E>(p: Path<N, E>, same: (N, N) -> bool, k: nat)
    requires p.Valid() && k <= |p.edges|
    ensures JoinedFromTail(GroupedSuffix(p, same, k)) == Suffix(p, k)
    decreases |p.edges| - k
  {
    if k == |p.edges| {
      assert Suffix(p, k) == Single(Tail(p));
    } else {
      var prev := GroupedSuffix(p, same, k + 1);
      GroupedSuffixJoins(p, same, k + 1);
      SuffixStep(p, k + 1);
      JoinedFromTailGrow(prev, p.nodes[k], p.edges[k]);
      JoinedFromTailSplit(prev, p.nodes[k], p.edges[k]);
    }
  }

  /** From the tail: every node of a group tests equal to that group's tail, the node it began with. */
  lemma {:induction false} GroupedSuffixAnchored<N, E>(p: Path<N, E>, same: (N, N) -> bool, k: nat)
    requires p.Valid() && k <= |p.edges|
    ensures forall i :: 0 <= i < |GroupedSuffix(p, same, k).groups| ==>
      Anchored(GroupedSuffix(p, same, k).groups[i], same)
    decreases |p.edges| - k
  {
    if k < |p.edges| {
      var g, prev := GroupedSuffix(p, same, k), GroupedSuffix(p, same, k + 1);
      GroupedSuffixAnchored(p, same, k + 1);
      var last := |prev.groups| - 1;
      var open := prev.groups[last];
      var e, n := p.edges[k], p.nodes[k];
      forall i | 0 <= i < |g.groups| ensures Anchored(g.groups[i], same) {
        if i < last {
          assert g.groups[i] == prev.groups[i];
        } else if i == last && same(Tail(open), n) {
          var grown := g.groups[i];
          assert grown == Prepend(n, e, open) && Anchored(open, same);
          forall j | 0 <= j < |grown.edges| ensures same(Tail(grown), grown.nodes[j]) {
            if j > 0 {
              assert same(Tail(open), open.nodes[j - 1]);
            }
          }
        } else if i == last {
          assert g.groups[i] == open;
        } else {
          assert g.groups[i] == Single(n);
        }
      }
    }
  }

  /**
   * From the tail: at every boundary, the tail of the open group failed the
   * test against the next node, which became the tail of the next group.
   */
  lemma {:induction false} GroupedSuffixSplits<N, E>(p: Path<N, E>, same: (N, N) -> bool, k: nat)
    requires p.Valid() && k <= |p.edges|
    ensures forall i :: 0 <= i < |GroupedSuffix(p, same, k).boundaries| ==>
      !same(Tail(GroupedSuffix(p, same, k).groups[i]), Tail(GroupedSuffix(p, same, k).groups[i + 1]))
    decreases |p.edges| - k
  {
    if k < |p.edges| {
      var g, prev := GroupedSuffix(p, same, k), GroupedSuffix(p, same, k + 1);
      GroupedSuffixSplits(p, same, k + 1);
      var last := |prev.groups| - 1;
      var open := prev.groups[last];
      var e, n := p.edges[k], p.nodes[k];
      forall i | 0 <= i < |g.boundaries| ensures !same(Tail(g.groups[i]), Tail(g.groups[i + 1])) {
        assert Tail(g.groups[i]) == Tail(prev.groups[i]);
        if i + 1 <= last {
          assert Tail(g.groups[i + 1]) == Tail(prev.groups[i + 1]);
        }
      }
    }
  }

  /**
   * The whole grouping from the head: one more group than boundary edges;
   * the groups rejoin to the path; each group is chained; each boundary is
   * where the test fails.
   */
  lemma GroupsFromHeadSound<N, E>(p: Path<N, E>, same: (N, N) -> bool)
    requires p.Valid()
    ensures var g := GroupsFromHead(p, same);
      && |g.groups| == |g.boundaries| + 1
      && JoinedFromHead(g) == p
      && (forall i :: 0 <= i < |g.groups| ==> g.groups[i].Valid() && Chained(g.groups[i], same))
      && (forall i :: 0 <= i < |g.boundaries| ==> !same(Tail(g.groups[i]), Head(g.groups[i + 1])))
  {
    GroupedPrefixJoins(p, same, |p.edges|);
    GroupedPrefixChained(p, same, |p.edges|);
    GroupedPrefixSplits(p, same, |p.edges|);
    PrefixWhole(p);
  }

  /**
   * The whole grouping from the tail: one more group than boundary edges;
   * the groups, listed tail first, rejoin to the path; each group is
   * anchored at its tail; each boundary is where the test fails against it.
   */
  lemma GroupsFromTailSound<N, E>(p: Path<N, E>, same: (N, N) -> bool)
    requires p.Valid()
    ensures var g := GroupsFromTail(p, same);
      && |g.groups| == |g.boundaries| + 1
      && JoinedFromTail(g) == p
      && (forall i :: 0 <= i < |g.groups| ==> g.groups[i].Valid() && Anchored(g.groups[i], same))
      && (forall i :: 0 <= i < |g.boundaries| ==> !same(Tail(g.groups[i]), Tail(g.groups[i + 1])))
  {
    GroupedSuffixJoins(p, same, 0);
    GroupedSuffixAnchored(p, same, 0);
    GroupedSuffixSplits(p, same, 0);
    PrefixWhole(p);
  }

  /**
   * visitGroupedFromHead: one builder collects the open group; a node that
   * fails the test against the builder's tail closes the group (build), the
   * edge before it is emitted, and the builder is reset to that node.
   */
  method VisitGroupedFromHead<N, E>(p: Path<N, E>, same: (N, N) -> bool)
    returns (groups: seq<Path<N, E>>, boundaries: seq<E>)
    requires p.Valid()
    ensures Grouping(groups, boundaries) == GroupsFromHead(p, same)
    ensures |groups| == |boundaries| + 1
    ensures JoinedFromHead(Grouping(groups, boundaries)) == p
    ensures forall i :: 0 <= i < |groups| ==> groups[i].Valid() && Chained(groups[i], same)
    ensures forall i :: 0 <= i < |boundaries| ==> !same(Tail(groups[i]), Head(groups[i + 1]))
  {
    var groupBuilder := New(Head(p));
    groups, boundaries := [], [];
    var pairs := PairsFromHead(p);
    for k := 0 to |pairs|
      invariant groupBuilder.Live?
      invariant Grouping(groups + [groupBuilder.content], boundaries) == GroupedPrefix(p, same, k)
    {
      var edge, node := pairs[k].0, pairs[k].1;
      assert (groups + [groupBuilder.content])[|groups|] == groupBuilder.content;
      var lastNode := GetTail(groupBuilder);
      if same(lastNode, node) {
        groupBuilder := PushBack(groupBuilder, edge, node);
      } else {
        var built := Build(groupBuilder);
        groups := groups + [built.0];
        boundaries := boundaries + [edge];
        groupBuilder := Reset(built.1, node);
      }
    }
    var built := Build(groupBuilder);
    groups := groups + [built.0];
    GroupsFromHeadSound(p, same);
  }

  /**
   * visitGroupedFromTail: as from the head, but the open group grows at its
   * head (pushFront) while every new node is still tested against the
   * builder's tail.
   */
  method VisitGroupedFromTail<N, E>(p: Path<N, E>, same: (N, N) -> bool)
    returns (groups: seq<Path<N, E>>, boundaries: seq<E>)
    requires p.Valid()
    ensures Grouping(groups, boundaries) == GroupsFromTail(p, same)
    ensures |groups| == |boundaries| + 1
    ensures JoinedFromTail(Grouping(groups, boundaries)) == p
    ensures forall i :: 0 <= i < |groups| ==> groups[i].Valid() && Anchored(groups[i], same)
    ensures forall i :: 0 <= i < |boundaries| ==> !same(Tail(groups[i]), Tail(groups[i + 1]))
  {
    var groupBuilder := New(Tail(p));
    groups, boundaries := [], [];
    var pairs := PairsFromTail(p);
    var last := |p.edges|;
    for i := 0 to |pairs|
      invariant groupBuilder.Live?
      invariant Grouping(groups + [groupBuilder.content], boundaries) == GroupedSuffix(p, same, last - i)
    {
      var edge, node := pairs[i].0, pairs[i].1;
      assert edge == p.edges[last - i - 1] && node == p.nodes[last - i - 1];
      assert (groups + [groupBuilder.content])[|groups|] == groupBuilder.content;
      var lastNode := GetTail(groupBuilder);
      if same(lastNode, node) {
        groupBuilder := PushFront(groupBuilder, node, edge);
      } else {
        var built := Build(groupBuilder);
        groups := groups + [built.0];
        boundaries := boundaries + [edge];
        groupBuilder := Reset(built.1, node);
      }
    }
    var built := Build(groupBuilder);
    groups := groups + [built.0];
    GroupsFromTailSound(p, same);
  }

  /** A test that is not transitive: 0 is near 1 and 1 is near 2, but 0 is not near 2. */
  predicate Near(a: int, b: int) {
    -1 <= a - b <= 1
  }

  /** The path 0 -10- 1 -20- 2. */
  function Steps(): Path<int, int> {
    Path([0, 1, 2], [10, 20])
  }

  /** From the head, 1 is compared with 0 and 2 with 1: one group. */
  lemma NearFromHead()
    ensures GroupsFromHead(Steps(), Near) == Grouping([Steps()], [])
  {
    var p := Steps();
    var h0 := GroupedPrefix(p, Near, 0);
    assert h0 == Grouping([Single(0)], []);
    assert [0] + [1] == [0, 1] && [0, 1] + [2] == [0, 1, 2];
    assert [] + [10] == [10] && [10] + [20] == [10, 20];
    var h1 := GroupedPrefix(p, Near, 1);
    assert h1.groups == h0.groups[..0] + [Append(Single(0), 10, 1)] == [Path([0, 1], [10])];
    assert GroupedPrefix(p, Near, 2).groups == h1.groups[..0] + [Append(Path([0, 1], [10]), 20, 2)] == [p];
  }

  /** From the tail, 1 is compared with 2, and 0 with 2 as well: two groups. */
  lemma NearFromTail()
    ensures GroupsFromTail(Steps(), Near) == Grouping([Path([1, 2], [20]), Single(0)], [10])
  {
    var p := Steps();
    var t2 := GroupedSuffix(p, Near, 2);
    assert t2 == Grouping([Single(2)], []);
    assert [1] + [2] == [1, 2] && [20] + [] == [20];
    var t1 := GroupedSuffix(p, Near, 1);
    assert t1.groups == t2.groups[..0] + [Prepend(1, 20, Single(2))] == [Path([1, 2], [20])];
    assert GroupedSuffix(p, Near, 0) == Grouping(t1.groups + [Single(0)], [10]);
  }

  /**
   * The two grouped traversals are not mirror images of each other: for a
   * test that is not transitive they can group the same path differently.
   */
  lemma GroupingDirectionMatters()
    ensures exists p: Path<int, int>, same: (int, int) -> bool ::
      p.Valid() && |GroupsFromHead(p, same).groups| != |GroupsFromTail(p, same).groups|
  {
    NearFromHead();
    NearFromTail();
    assert |GroupsFromHead(Steps(), Near).groups| != |GroupsFromTail(Steps(), Near).groups|;
  }
}
