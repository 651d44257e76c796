/**
 * The abstract value every path representation and every builder refines:
 * nodes n0 .. nk and edges e0 .. e(k-1), where edge i joins node i to node
 * i + 1. A path always holds exactly one more node than it holds edges.
 *
 * The primitive operations of the path contract (head, tail and pair
 * traversal from either end) are specified here as functions of that value,
 * and so are the full traversals that the contract derives from them.
 */
module Paths {

  datatype Option<T> = None | Some(value: T)

  /** The exceptions the library throws, each with the values its message reports. */
  datatype PathError =
    | InvalidRange(start: int, end: int)                // IndexOutOfBoundsException, range checked up front
    | RangeBeyondPath(start: int, end: int, size: int)  // IndexOutOfBoundsException, after counting the nodes
    | MismatchedArity(nodeCount: int, edgeCount: int)   // IllegalArgumentException when assembling a path

  datatype Result<T> = Success(value: T) | Failure(error: PathError)

  /** One visitor call of a full traversal: a node visit or an edge visit. */
  datatype Item<N, E> = NodeItem(node: N) | EdgeItem(edge: E)

  datatype Path<N, E> = Path(nodes: seq<N>, edges: seq<E>) {
    predicate Valid() {
      |nodes| == |edges| + 1
    }
  }

  function Single<N, E>(n: N): Path<N, E> {
    Path([n], [])
  }

  function Head<N, E>(p: Path<N, E>): N
    requires p.Valid()
  {
    p.nodes[0]
  }

  function Tail<N, E>(p: Path<N, E>): N
    requires p.Valid()
  {
    p.nodes[|p.nodes| - 1]
  }

  /** `p` followed by edge `e` and node `n`. */
  function Append<N, E>(p: Path<N, E>, e: E, n: N): Path<N, E> {
    Path(p.nodes + [n], p.edges + [e])
  }

  /** Node `n` and edge `e` followed by `p`. */
  function Prepend<N, E>(n: N, e: E, p: Path<N, E>): Path<N, E> {
    Path([n] + p.nodes, [e] + p.edges)
  }

  /** `p`, then the joining edge `e`, then `q`. */
  function Join<N, E>(p: Path<N, E>, e: E, q: Path<N, E>): Path<N, E> {
    Path(p.nodes + q.nodes, p.edges + [e] + q.edges)
  }

  /** The nodes `start` .. `end` (both inclusive) and the edges between them. */
  function Slice<N, E>(p: Path<N, E>, start: nat, end: nat): Path<N, E>
    requires p.Valid() && start <= end < |p.nodes|
  {
    Path(p.nodes[start..end + 1], p.edges[start..end])
  }

  /** The first `k + 1` nodes and the `k` edges between them. */
  function Prefix<N, E>(p: Path<N, E>, k: nat): Path<N, E>
    requires p.Valid() && k < |p.nodes|
  {
    Slice(p, 0, k)
  }

  /** The nodes from index `k` to the tail and the edges between them. */
  function Suffix<N, E>(p: Path<N, E>, k: nat): Path<N, E>
    requires p.Valid() && k < |p.nodes|
  {
    Slice(p, k, |p.nodes| - 1)
  }

  /** What pair traversal from the head emits: (edge, node) for every node but the head. */
  function PairsFromHead<N, E>(p: Path<N, E>): seq<(E, N)>
    requires p.Valid()
  {
    seq(|p.edges|, i requires 0 <= i < |p.edges| => (p.edges[i], p.nodes[i + 1]))
  }

  /** What pair traversal from the tail emits: (edge, node) for every node but the tail, tail first. */
  function PairsFromTail<N, E>(p: Path<N, E>): seq<(E, N)>
    requires p.Valid()
  {
    seq(|p.edges|, i requires 0 <= i < |p.edges| =>
      (p.edges[|p.edges| - 1 - i], p.nodes[|p.edges| - 1 - i]))
  }

  /** The visitor calls made for a run of pairs: the edge, then the node, pair by pair. */
  function Emit<N, E>(pairs: seq<(E, N)>): seq<Item<N, E>> {
    if pairs == [] then []
    else [EdgeItem(pairs[0].0), NodeItem(pairs[0].1)] + Emit(pairs[1..])
  }

  /** visitFromHead: visit the head, then every pair of the head pair traversal. */
  function TraceFromHead<N, E>(p: Path<N, E>): seq<Item<N, E>>
    requires p.Valid()
  {
    [NodeItem(Head(p))] + Emit(PairsFromHead(p))
  }

  /** visitFromTail: visit the tail, then every pair of the tail pair traversal. */
  function TraceFromTail<N, E>(p: Path<N, E>): seq<Item<N, E>>
    requires p.Valid()
  {
    [NodeItem(Tail(p))] + Emit(PairsFromTail(p))
  }

  /** The node visits of a trace, in order. */
  function NodesOf<N, E>(trace: seq<Item<N, E>>): seq<N> {
    if trace == [] then []
    else
      var last := trace[|trace| - 1];
      NodesOf(trace[..|trace| - 1]) + (if last.NodeItem? then [last.node] else [])
  }

  /** The edge visits of a trace, in order. */
  function EdgesOf<N, E>(trace: seq<Item<N, E>>): seq<E> {
    if trace == [] then []
    else
      var last := trace[|trace| - 1];
      EdgesOf(trace[..|trace| - 1]) + (if last.EdgeItem? then [last.edge] else [])
  }

  function Reverse<T>(s: seq<T>): (r: seq<T>)
    ensures |r| == |s|
  {
    seq(|s|, i requires 0 <= i < |s| => s[|s| - 1 - i])
  }

  function Seconds<A, B>(pairs: seq<(A, B)>): seq<B> {
    seq(|pairs|, i requires 0 <= i < |pairs| => pairs[i].1)
  }

  function Firsts<A, B>(pairs: seq<(A, B)>): seq<A> {
    seq(|pairs|, i requires 0 <= i < |pairs| => pairs[i].0)
  }

  // ---------------------------------------------------------------------
  // Traces: shape, and the tail traversal as the reverse of the head one
  // ---------------------------------------------------------------------

  lemma {:induction false} EmitAt<N, E>(pairs: seq<(E, N)>)
    ensures |Emit(pairs)| == 2 * |pairs|
    ensures forall j :: 0 <= j < |pairs| ==>
      Emit(pairs)[2 * j] == EdgeItem(pairs[j].0) && Emit(pairs)[2 * j + 1] == NodeItem(pairs[j].1)
  {
    if pairs != [] {
      EmitAt(pairs[1..]);
      var rest := Emit(pairs[1..]);
      assert Emit(pairs) == [EdgeItem(pairs[0].0), NodeItem(pairs[0].1)] + rest;
      forall j | 1 <= j < |pairs|
        ensures Emit(pairs)[2 * j] == EdgeItem(pairs[j].0) && Emit(pairs)[2 * j + 1] == NodeItem(pairs[j].1)
      {
        assert Emit(pairs)[2 * j] == rest[2 * (j - 1)];
        assert Emit(pairs)[2 * j + 1] == rest[2 * (j - 1) + 1];
      }
    }
  }

  /**
   * The head traversal starts and ends with a node visit and alternates in
   * between: node j at position 2j, edge j at position 2j + 1.
   */
  lemma TraceFromHeadShape<N, E>(p: Path<N, E>)
    requires p.Valid()
    ensures |TraceFromHead(p)| == 2 * |p.nodes| - 1
    ensures forall j :: 0 <= j < |p.nodes| ==> TraceFromHead(p)[2 * j] == NodeItem(p.nodes[j])
    ensures forall j :: 0 <= j < |p.edges| ==> TraceFromHead(p)[2 * j + 1] == EdgeItem(p.edges[j])
  {
    var pairs := PairsFromHead(p);
    EmitAt(pairs);
    forall j | 1 <= j < |p.nodes| ensures TraceFromHead(p)[2 * j] == NodeItem(p.nodes[j]) {
      assert TraceFromHead(p)[2 * j] == Emit(pairs)[2 * (j - 1) + 1];
      assert pairs[j - 1] == (p.edges[j - 1], p.nodes[j]);
    }
    forall j | 0 <= j < |p.edges| ensures TraceFromHead(p)[2 * j + 1] == EdgeItem(p.edges[j]) {
      assert TraceFromHead(p)[2 * j + 1] == Emit(pairs)[2 * j];
    }
  }

  /** The same statement as a parity test: position i is a node visit exactly when i is even. */
  lemma TraceFromHeadAlternates<N, E>(p: Path<N, E>)
    requires p.Valid()
    ensures TraceFromHead(p)[0].NodeItem? && TraceFromHead(p)[|TraceFromHead(p)| - 1].NodeItem?
    ensures forall i :: 0 <= i < |TraceFromHead(p)| ==> (TraceFromHead(p)[i].NodeItem? <==> i % 2 == 0)
  {
    TraceFromHeadShape(p);
    var t := TraceFromHead(p);
    forall i | 0 <= i < |t| ensures t[i].NodeItem? <==> i % 2 == 0 {
      var j := i / 2;
      if i % 2 == 0 {
        assert i == 2 * j && j < |p.nodes|;
        assert t[i] == NodeItem(p.nodes[j]);
      } else {
        assert i == 2 * j + 1 && j < |p.edges|;
        assert t[i] == EdgeItem(p.edges[j]);
      }
    }
    assert |t| - 1 == 2 * (|p.nodes| - 1);
  }

  /** The tail traversal: tail node first, then edge, node, ... back to the head. */
  lemma TraceFromTailShape<N, E>(p: Path<N, E>)
    requires p.Valid()
    ensures |TraceFromTail(p)| == 2 * |p.nodes| - 1
    ensures forall j :: 0 <= j < |p.nodes| ==>
      TraceFromTail(p)[2 * j] == NodeItem(p.nodes[|p.nodes| - 1 - j])
    ensures forall j :: 0 <= j < |p.edges| ==>
      TraceFromTail(p)[2 * j + 1] == EdgeItem(p.edges[|p.edges| - 1 - j])
  {
    var pairs := PairsFromTail(p);
    EmitAt(pairs);
    forall j | 1 <= j < |p.nodes|
      ensures TraceFromTail(p)[2 * j] == NodeItem(p.nodes[|p.nodes| - 1 - j])
    {
      assert TraceFromTail(p)[2 * j] == Emit(pairs)[2 * (j - 1) + 1];
      assert pairs[j - 1].1 == p.nodes[|p.nodes| - 1 - j];
    }
    forall j | 0 <= j < |p.edges|
      ensures TraceFromTail(p)[2 * j + 1] == EdgeItem(p.edges[|p.edges| - 1 - j])
    {
      assert TraceFromTail(p)[2 * j + 1] == Emit(pairs)[2 * j];
    }
  }

  /** visitFromTail makes exactly the calls of visitFromHead, in the opposite order. */
  lemma TraceFromTailIsReverse<N, E>(p: Path<N, E>)
    requires p.Valid()
    ensures TraceFromTail(p) == Reverse(TraceFromHead(p))
  {
    TraceFromHeadShape(p);
    TraceFromTailShape(p);
    var h, t := TraceFromHead(p), TraceFromTail(p);
    var len := |h|;
    forall i | 0 <= i < len ensures t[i] == Reverse(h)[i] {
      var j := i / 2;
      if i % 2 == 0 {
        assert i == 2 * j && len - 1 - i == 2 * (|p.nodes| - 1 - j);
      } else {
        assert i == 2 * j + 1 && len - 1 - i == 2 * (|p.edges| - 1 - j) + 1;
      }
    }
  }

  /** Growing a path at its tail adds one edge visit and one node visit at the end of its trace. */
  lemma TraceFromHeadAppend<N, E>(p: Path<N, E>, e: E, n: N)
    requires p.Valid()
    ensures Append(p, e, n).Valid()
    ensures TraceFromHead(Append(p, e, n)) == TraceFromHead(p) + [EdgeItem(e), NodeItem(n)]
  {
    var q := Append(p, e, n);
    TraceFromHeadShape(p);
    TraceFromHeadShape(q);
    var t, u := TraceFromHead(p), TraceFromHead(q);
    var v := t + [EdgeItem(e), NodeItem(n)];
    forall i | 0 <= i < |u| ensures u[i] == v[i] {
      var j := i / 2;
      if i % 2 == 0 {
        assert i == 2 * j && j < |q.nodes|;
        assert u[i] == NodeItem(q.nodes[j]);
        if j < |p.nodes| {
          assert q.nodes[j] == p.nodes[j];
          assert u[i] == NodeItem(p.nodes[j]) == t[i];
        } else {
          assert i == |t| + 1 && q.nodes[j] == n;
        }
      } else {
        assert i == 2 * j + 1 && j < |q.edges|;
        assert u[i] == EdgeItem(q.edges[j]);
        if j < |p.edges| {
          assert q.edges[j] == p.edges[j];
          assert u[i] == EdgeItem(p.edges[j]) == t[i];
        } else {
          assert i == |t| && q.edges[j] == e;
        }
      }
    }
  }

  // ---------------------------------------------------------------------
  // Node and edge visits of the traversals
  // ---------------------------------------------------------------------

  lemma {:induction false} NodesOfConcat<N, E>(a: seq<Item<N, E>>, b: seq<Item<N, E>>)
    ensures NodesOf(a + b) == NodesOf(a) + NodesOf(b)
    ensures EdgesOf(a + b) == EdgesOf(a) + EdgesOf(b)
  {
    if b != [] {
      var b' := b[..|b| - 1];
      assert (a + b)[..|a + b| - 1] == a + b';
      NodesOfConcat(a, b');
    } else {
      assert a + b == a;
    }
  }

  lemma {:induction false} NodesOfEmit<N, E>(pairs: seq<(E, N)>)
    ensures NodesOf(Emit(pairs)) == Seconds(pairs)
    ensures EdgesOf(Emit(pairs)) == Firsts(pairs)
  {
    if pairs != [] {
      var first: seq<Item<N, E>> := [EdgeItem(pairs[0].0), NodeItem(pairs[0].1)];
      NodesOfEmit(pairs[1..]);
      NodesOfConcat(first, Emit(pairs[1..]));
      var edgeOnly: seq<Item<N, E>> := [EdgeItem(pairs[0].0)];
      assert first[..1] == edgeOnly;
      assert edgeOnly[..0] == [];
      assert NodesOf(edgeOnly) == [] && EdgesOf(edgeOnly) == [pairs[0].0];
      assert NodesOf(first) == [pairs[0].1] && EdgesOf(first) == [pairs[0].0];
      assert Seconds(pairs) == [pairs[0].1] + Seconds(pairs[1..]);
      assert Firsts(pairs) == [pairs[0].0] + Firsts(pairs[1..]);
    }
  }

  lemma NodesOfSingle<N, E>(n: N)
    ensures NodesOf<N, E>([NodeItem(n)]) == [n]
    ensures EdgesOf<N, E>([NodeItem(n)]) == []
  {
    var t: seq<Item<N, E>> := [NodeItem(n)];
    assert t[..0] == [];
  }

  /** The node visits of visitFromHead are the nodes; its edge visits are the edges. */
  lemma NodesOfTraceFromHead<N, E>(p: Path<N, E>)
    requires p.Valid()
    ensures NodesOf(TraceFromHead(p)) == p.nodes
    ensures EdgesOf(TraceFromHead(p)) == p.edges
  {
    var pairs := PairsFromHead(p);
    NodesOfSingle<N, E>(Head(p));
    NodesOfEmit(pairs);
    NodesOfConcat([NodeItem(Head(p))], Emit(pairs));
    assert Seconds(pairs) == p.nodes[1..];
    assert Firsts(pairs) == p.edges;
    assert [Head(p)] + p.nodes[1..] == p.nodes;
  }

  /** The node and edge visits of visitFromTail are the nodes and edges, reversed. */
  lemma NodesOfTraceFromTail<N, E>(p: Path<N, E>)
    requires p.Valid()
    ensures NodesOf(TraceFromTail(p)) == Reverse(p.nodes)
    ensures EdgesOf(TraceFromTail(p)) == Reverse(p.edges)
  {
    var pairs := PairsFromTail(p);
    NodesOfSingle<N, E>(Tail(p));
    NodesOfEmit(pairs);
    NodesOfConcat([NodeItem(Tail(p))], Emit(pairs));
    assert Seconds(pairs) == Reverse(p.nodes)[1..];
    assert Firsts(pairs) == Reverse(p.edges);
    assert [Tail(p)] + Reverse(p.nodes)[1..] == Reverse(p.nodes);
  }

  // ---------------------------------------------------------------------
  // Splicing paths together
  // ---------------------------------------------------------------------

  /** Pushing the next edge and node of `p` behind a slice of `p` extends the slice by one node. */
  lemma SliceStep<N, E>(p: Path<N, E>, start: nat, end: nat)
    requires p.Valid() && start <= end < |p.edges|
    ensures Append(Slice(p, start, end), p.edges[end], p.nodes[end + 1]) == Slice(p, start, end + 1)
  {
    assert p.nodes[start..end + 1] + [p.nodes[end + 1]] == p.nodes[start..end + 2];
    assert p.edges[start..end] + [p.edges[end]] == p.edges[start..end + 1];
  }

  lemma PrefixStep<N, E>(p: Path<N, E>, k: nat)
    requires p.Valid() && k < |p.edges|
    ensures Append(Prefix(p, k), p.edges[k], p.nodes[k + 1]) == Prefix(p, k + 1)
  {
    assert p.nodes[..k + 1] + [p.nodes[k + 1]] == p.nodes[..k + 2];
    assert p.edges[..k] + [p.edges[k]] == p.edges[..k + 1];
  }

  lemma SuffixStep<N, E>(p: Path<N, E>, k: nat)
    requires p.Valid() && 0 < k < |p.nodes|
    ensures Prepend(p.nodes[k - 1], p.edges[k - 1], Suffix(p, k)) == Suffix(p, k - 1)
  {
    assert [p.nodes[k - 1]] + p.nodes[k..] == p.nodes[k - 1..];
    assert [p.edges[k - 1]] + p.edges[k..] == p.edges[k - 1..];
  }

  lemma PrefixWhole<N, E>(p: Path<N, E>)
    requires p.Valid()
    ensures Prefix(p, |p.edges|) == p && Suffix(p, 0) == p
  {
    assert p.nodes[..|p.edges| + 1] == p.nodes;
    assert p.edges[..|p.edges|] == p.edges;
  }

  lemma JoinSingle<N, E>(p: Path<N, E>, e: E, n: N)
    ensures Join(p, e, Single(n)) == Append(p, e, n)
    ensures Join(Single(n), e, p) == Prepend(n, e, p)
  {
    assert p.edges + [e] + [] == p.edges + [e];
    assert [] + [e] + p.edges == [e] + p.edges;
  }

  lemma JoinAppend<N, E>(p: Path<N, E>, e: E, q: Path<N, E>, e': E, n: N)
    ensures Join(p, e, Append(q, e', n)) == Append(Join(p, e, q), e', n)
  {
    assert p.nodes + (q.nodes + [n]) == (p.nodes + q.nodes) + [n];
    assert p.edges + [e] + (q.edges + [e']) == (p.edges + [e] + q.edges) + [e'];
  }

  /** Splicing a path from its head starts with its head node behind the joining edge. */
  lemma SpliceStart<N, E>(start: Path<N, E>, edge: E, path: Path<N, E>)
    requires path.Valid()
    ensures Join(start, edge, Prefix(path, 0)) == Append(start, edge, Head(path))
    ensures Join(Suffix(path, |path.edges|), edge, start) == Prepend(Tail(path), edge, start)
  {
    assert Prefix(path, 0) == Single(Head(path));
    assert Suffix(path, |path.edges|) == Single(Tail(path));
    JoinSingle(start, edge, Head(path));
    JoinSingle(start, edge, Tail(path));
  }

  /** Pushing the next pair of the head traversal of `path` extends a splice at the back by one node. */
  lemma SpliceBackStep<N, E>(start: Path<N, E>, edge: E, path: Path<N, E>, i: nat)
    requires path.Valid() && i < |path.edges|
    ensures var (e, n) := PairsFromHead(path)[i];
      Append(Join(start, edge, Prefix(path, i)), e, n) == Join(start, edge, Prefix(path, i + 1))
  {
    PrefixStep(path, i);
    JoinAppend(start, edge, Prefix(path, i), path.edges[i], path.nodes[i + 1]);
  }

  /** Pushing the next pair of the tail traversal of `path` extends a splice at the front by one node. */
  lemma SpliceFrontStep<N, E>(start: Path<N, E>, edge: E, path: Path<N, E>, i: nat)
    requires path.Valid() && i < |path.edges|
    ensures var (e, n) := PairsFromTail(path)[i];
      Prepend(n, e, Join(Suffix(path, |path.edges| - i), edge, start))
        == Join(Suffix(path, |path.edges| - i - 1), edge, start)
  {
    var k := |path.edges| - i;
    SuffixStep(path, k);
    PrependJoin(path.nodes[k - 1], path.edges[k - 1], Suffix(path, k), edge, start);
  }

  lemma PrependJoin<N, E>(n: N, e': E, q: Path<N, E>, e: E, p: Path<N, E>)
    ensures Prepend(n, e', Join(q, e, p)) == Join(Prepend(n, e', q), e, p)
  {
    assert [n] + (q.nodes + p.nodes) == ([n] + q.nodes) + p.nodes;
    assert [e'] + (q.edges + [e] + p.edges) == ([e'] + q.edges) + [e] + p.edges;
  }
}
