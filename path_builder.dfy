/**
 * The builder contract. A builder is either live, holding the content built
 * so far, or built: `build()` hands the content over and leaves the builder
 * unusable until `reset` seeds it again. Every operation but `reset` needs a
 * live builder. On a built one the implementations' pushes and getters
 * dereference a null field, and a second `build()` hands out a path over
 * null fields that fails when first used; neither is modelled.
 *
 * The generic algorithms of the path contract run on this value; the array
 * and linked builders are proved to refine it.
 */
module PathBuilders {
  import opened Paths

  datatype Builder<N, E> = Live(content: Path<N, E>) | Built {
    predicate Valid() {
      Live? ==> content.Valid()
    }
  }

  /** builderFromNode: a fresh builder holding the single node `n`. */
  function New<N, E>(n: N): Builder<N, E> {
    Live(Single(n))
  }

  function GetHead<N, E>(b: Builder<N, E>): N
    requires b.Live? && b.Valid()
  {
    Head(b.content)
  }

  function GetTail<N, E>(b: Builder<N, E>): N
    requires b.Live? && b.Valid()
  {
    Tail(b.content)
  }

  function PushBack<N, E>(b: Builder<N, E>, e: E, n: N): Builder<N, E>
    requires b.Live?
  {
    Live(Append(b.content, e, n))
  }

  function PushFront<N, E>(b: Builder<N, E>, n: N, e: E): Builder<N, E>
    requires b.Live?
  {
    Live(Prepend(n, e, b.content))
  }

  /** Allowed in either state: discards whatever the builder held. */
  function Reset<N, E>(b: Builder<N, E>, n: N): Builder<N, E> {
    Live(Single(n))
  }

  /** The finished path, and the builder left behind. */
  function Build<N, E>(b: Builder<N, E>): (Path<N, E>, Builder<N, E>)
    requires b.Live?
  {
    (b.content, Built)
  }

  /**
   * The primitive pushes: pushBack adds one edge and one node and makes the
   * node the tail; pushFront makes the node the head, with the edge between
   * it and the old head. Neither disturbs the other end.
   */
  lemma PrimitivePushes<N, E>(b: Builder<N, E>, e: E, n: N)
    requires b.Live? && b.Valid()
    ensures PushBack(b, e, n).Valid() && PushFront(b, n, e).Valid()
    ensures GetHead(PushBack(b, e, n)) == GetHead(b) && GetTail(PushBack(b, e, n)) == n
    ensures PushBack(b, e, n).content.edges[|b.content.edges|] == e
    ensures GetHead(PushFront(b, n, e)) == n && GetTail(PushFront(b, n, e)) == GetTail(b)
    ensures PushFront(b, n, e).content.edges[0] == e && PushFront(b, n, e).content.nodes[1] == GetHead(b)
    ensures |PushBack(b, e, n).content.nodes| == |PushFront(b, n, e).content.nodes| == |b.content.nodes| + 1
  {
  }

  /**
   * The default pushBack(edge, path): push the path's head behind the joining
   * edge, then every pair of the path from its head.
   */
  method PushBackPath<N, E>(b: Builder<N, E>, edge: E, path: Path<N, E>) returns (r: Builder<N, E>)
    requires b.Live? && b.Valid() && path.Valid()
    ensures r == Live(Join(b.content, edge, path)) && r.Valid()
    ensures GetHead(r) == GetHead(b) && GetTail(r) == Tail(path)
    ensures |r.content.nodes| == |b.content.nodes| + |path.nodes|
    ensures |r.content.edges| == |b.content.edges| + |path.nodes|
  {
    r := PushBack(b, edge, Head(path));
    SpliceStart(b.content, edge, path);
    var pairs := PairsFromHead(path);
    for i := 0 to |pairs|
      invariant r == Live(Join(b.content, edge, Prefix(path, i)))
    {
      SpliceBackStep(b.content, edge, path, i);
      r := PushBack(r, pairs[i].0, pairs[i].1);
    }
    PrefixWhole(path);
  }

  /**
   * The default pushFront(path, edge): push the path's tail in front of the
   * joining edge, then every pair of the path from its tail, so that the
   * path keeps its own order rather than being reversed.
   */
  method PushFrontPath<N, E>(b: Builder<N, E>, path: Path<N, E>, edge: E) returns (r: Builder<N, E>)
    requires b.Live? && b.Valid() && path.Valid()
    ensures r == Live(Join(path, edge, b.content)) && r.Valid()
    ensures GetHead(r) == Head(path) && GetTail(r) == GetTail(b)
    ensures |r.content.nodes| == |b.content.nodes| + |path.nodes|
    ensures |r.content.edges| == |b.content.edges| + |path.nodes|
  {
    var last := |path.edges|;
    r := PushFront(b, Tail(path), edge);
    SpliceStart(b.content, edge, path);
    var pairs := PairsFromTail(path);
    for i := 0 to |pairs|
      invariant r == Live(Join(Suffix(path, last - i), edge, b.content))
    {
      SpliceFrontStep(b.content, edge, path, i);
      r := PushFront(r, pairs[i].1, pairs[i].0);
    }
    PrefixWhole(path);
    assert r == Live(Join(Suffix(path, 0), edge, b.content));
  }
}
