/**
 * The linked representation: a doubly linked chain of wrappers that
 * alternates node wrapper, edge wrapper, node wrapper, ..., node wrapper.
 * A path holds the wrappers at the two ends; the builder moves its ends and
 * rewires the links of the end it grows.
 *
 * The chain is tracked by a ghost sequence of its wrappers, head first, and
 * the set of those wrappers is the footprint of whoever owns the chain.
 */
module LinkedPaths {
  import opened Paths
  import opened PathBuilders

  /** A node wrapper or an edge wrapper: its payload, and its two links. */
  class Wrapper<N, E> {
    const item: Item<N, E>
    var prev: Wrapper?<N, E>
    var next: Wrapper?<N, E>

    constructor (item: Item<N, E>)
      ensures this.item == item && prev == null && next == null
    {
      this.item := item;
      prev := null;
      next := null;
    }
  }

  /**
   * link(first, second): makes the two neighbours. Only a node wrapper and
   * an edge wrapper can be linked, in either order; no other link changes.
   */
  method Link<N, E>(first: Wrapper<N, E>, second: Wrapper<N, E>)
    requires first.item.NodeItem? != second.item.NodeItem?
    modifies first, second
    ensures first.next == second && second.prev == first
    ensures first.prev == old(first.prev) && second.next == old(second.next)
  {
    first.next := second;
    second.prev := first;
  }

  /** Node wrappers at the even positions, edge wrappers at the odd ones, a node wrapper at each end. */
  ghost predicate Alternates<N, E>(links: seq<Wrapper<N, E>>) {
    && |links| % 2 == 1
    && forall i :: 0 <= i < |links| ==> (links[i].item.NodeItem? <==> i % 2 == 0)
  }

  /** `links` is a whole chain: alternating, without repeats, linked both ways between neighbours and open at both ends. */
  ghost predicate Chain<N, E>(links: seq<Wrapper<N, E>>)
    reads links
  {
    && Alternates(links)
    && (forall i, j :: 0 <= i < j < |links| ==> links[i] != links[j])
    && links[0].prev == null
    && links[|links| - 1].next == null
    && (forall i :: 0 <= i < |links| - 1 ==> links[i].next == links[i + 1])
    && (forall i :: 0 <= i < |links| - 1 ==> links[i + 1].prev == links[i])
  }

  /** The payloads of the chain, head first. */
  function Items<N, E>(links: seq<Wrapper<N, E>>): (r: seq<Item<N, E>>)
    ensures |r| == |links|
  {
    seq(|links|, i requires 0 <= i < |links| => links[i].item)
  }

  /** The path a chain stands for. */
  ghost function ChainPath<N, E>(links: seq<Wrapper<N, E>>): (p: Path<N, E>)
    requires Alternates(links)
    ensures p.Valid() && |p.nodes| == |links| / 2 + 1
    ensures forall j :: 0 <= j < |p.nodes| ==> NodeItem(p.nodes[j]) == links[2 * j].item
    ensures forall j :: 0 <= j < |p.edges| ==> EdgeItem(p.edges[j]) == links[2 * j + 1].item
  {
    Path(seq(|links| / 2 + 1, j requires 0 <= j < |links| / 2 + 1 => links[2 * j].item.node),
         seq(|links| / 2, j requires 0 <= j < |links| / 2 => links[2 * j + 1].item.edge))
  }

  /** Where a walk of `links` stands after `i` steps, from the head or from the tail. */
  function Cursor<N, E>(links: seq<Wrapper<N, E>>, forward: bool, i: nat): Wrapper<N, E>
    requires i < |links|
  {
    if forward then links[i] else links[|links| - 1 - i]
  }

  /** The link a walk follows out of a wrapper: `next` from the head, `prev` from the tail. */
  function Advance<N, E>(w: Wrapper<N, E>, forward: bool): Wrapper?<N, E>
    reads w
  {
    if forward then w.next else w.prev
  }

  /** The payloads a walk meets, in the order it meets them. */
  function Walk<N, E>(links: seq<Wrapper<N, E>>, forward: bool): (r: seq<Item<N, E>>)
    ensures |r| == |links|
  {
    seq(|links|, i requires 0 <= i < |links| => Cursor(links, forward, i).item)
  }

  /** Following the walk's link out of every wrapper reaches the next one; out of the last, nothing. */
  ghost predicate Walkable<N, E>(links: seq<Wrapper<N, E>>, forward: bool)
    reads links
  {
    forall i :: 0 <= i < |links| ==>
      Advance(Cursor(links, forward, i), forward) == if i + 1 < |links| then Cursor(links, forward, i + 1) else null
  }

  /** A chain can be walked from either end. */
  lemma ChainWalkable<N, E>(links: seq<Wrapper<N, E>>, forward: bool)
    requires Chain(links)
    ensures Walkable(links, forward)
  {
    forall i | 0 <= i < |links|
      ensures Advance(Cursor(links, forward, i), forward) == if i + 1 < |links| then Cursor(links, forward, i + 1) else null
    {
      if !forward && i + 1 < |links| {
        assert links[|links| - 1 - i].prev == links[|links| - 1 - i - 1];
      }
    }
  }

  /** What pair traversal from one end emits. */
  function PairsFrom<N, E>(p: Path<N, E>, forward: bool): seq<(E, N)>
    requires p.Valid()
  {
    if forward then PairsFromHead(p) else PairsFromTail(p)
  }

  /**
   * The walk along `next` from the head meets the payloads of the path's
   * traversal from the head; the walk along `prev` from the tail meets those
   * of the traversal from the tail, and the two are each other's reverse.
   */
  lemma ChainTraces<N, E>(links: seq<Wrapper<N, E>>)
    requires Alternates(links)
    ensures TraceFromHead(ChainPath(links)) == Walk(links, true)
    ensures TraceFromTail(ChainPath(links)) == Walk(links, false)
    ensures Walk(links, false) == Reverse(Walk(links, true))
  {
    var p := ChainPath(links);
    TraceFromHeadShape(p);
    var t := TraceFromHead(p);
    forall i | 0 <= i < |links| ensures t[i] == links[i].item {
      var j := i / 2;
      if i % 2 == 0 {
        assert t[2 * j] == NodeItem(p.nodes[j]);
      } else {
        assert t[2 * j + 1] == EdgeItem(p.edges[j]);
      }
    }
    assert t == Walk(links, true);
    TraceFromTailIsReverse(p);
    assert Walk(links, false) == Reverse(Walk(links, true));
  }

  /** The pairs a walk from either end emits, read off the chain. */
  lemma ChainPairs<N, E>(links: seq<Wrapper<N, E>>, forward: bool)
    requires Alternates(links)
    ensures |PairsFrom(ChainPath(links), forward)| == |links| / 2
    ensures forall k :: 0 <= k < |links| / 2 ==>
      && EdgeItem(PairsFrom(ChainPath(links), forward)[k].0) == Cursor(links, forward, 2 * k + 1).item
      && NodeItem(PairsFrom(ChainPath(links), forward)[k].1) == Cursor(links, forward, 2 * k + 2).item
  {
    var p := ChainPath(links);
    var pairs := PairsFrom(p, forward);
    var last := |p.edges|;
    forall k | 0 <= k < |pairs|
      ensures EdgeItem(pairs[k].0) == Cursor(links, forward, 2 * k + 1).item
      ensures NodeItem(pairs[k].1) == Cursor(links, forward, 2 * k + 2).item
    {
      if forward {
        assert pairs[k] == (p.edges[k], p.nodes[k + 1]);
        assert 2 * (k + 1) == 2 * k + 2;
      } else {
        var m := last - 1 - k;
        assert pairs[k] == (p.edges[m], p.nodes[m]);
        assert |links| - 1 - (2 * k + 1) == 2 * m + 1;
        assert |links| - 1 - (2 * k + 2) == 2 * m;
      }
    }
  }

  /**
   * visitPairsSkipFirst: from one end, step to the next edge wrapper; if
   * there is none, stop; otherwise step on to the node wrapper behind it
   * and emit the pair. The starting node itself is never emitted.
   */
  method VisitPairsSkipFirst<N, E>(begin: Wrapper<N, E>, forward: bool, ghost links: seq<Wrapper<N, E>>)
    returns (pairs: seq<(E, N)>)
    requires Alternates(links) && Walkable(links, forward) && begin == Cursor(links, forward, 0)
    ensures pairs == PairsFrom(ChainPath(links), forward)
    ensures |pairs| == |links| / 2
  {
    ghost var expected := PairsFrom(ChainPath(links), forward);
    ChainPairs(links, forward);
    var nodeCursor := begin;
    pairs := [];
    ghost var k := 0;
    while true
      invariant 0 <= k <= |links| / 2
      invariant nodeCursor == Cursor(links, forward, 2 * k)
      invariant pairs == expected[..k]
      decreases |links| / 2 - k
    {
      var edgeCursor := Advance(nodeCursor, forward);
      assert Advance(Cursor(links, forward, 2 * k), forward) ==
        if 2 * k + 1 < |links| then Cursor(links, forward, 2 * k + 1) else null;
      if edgeCursor == null {
        assert k == |links| / 2;
        assert expected[..k] == expected;
        return;
      }
      assert edgeCursor == Cursor(links, forward, 2 * k + 1);
      nodeCursor := Advance(edgeCursor, forward);
      assert nodeCursor == Cursor(links, forward, 2 * k + 2);
      pairs := pairs + [(edgeCursor.item.edge, nodeCursor.item.node)];
      k := k + 1;
    }
  }

  /**
   * visit: from one end, visit the node, step to the next edge wrapper,
   * stop if there is none, otherwise visit the edge and step on to the next
   * node wrapper.
   */
  method VisitChain<N, E>(begin: Wrapper<N, E>, forward: bool, ghost links: seq<Wrapper<N, E>>)
    returns (trace: seq<Item<N, E>>)
    requires Alternates(links) && Walkable(links, forward) && begin == Cursor(links, forward, 0)
    ensures trace == Walk(links, forward)
  {
    ghost var walk := Walk(links, forward);
    var nodeCursor := begin;
    trace := [];
    ghost var k := 0;
    while true
      invariant 0 <= k <= |links| / 2
      invariant nodeCursor == Cursor(links, forward, 2 * k)
      invariant trace == walk[..2 * k]
      decreases |links| / 2 - k
    {
      trace := trace + [NodeItem(nodeCursor.item.node)];
      var edgeCursor := Advance(nodeCursor, forward);
      assert Advance(Cursor(links, forward, 2 * k), forward) ==
        if 2 * k + 1 < |links| then Cursor(links, forward, 2 * k + 1) else null;
      if edgeCursor == null {
        assert k == |links| / 2;
        assert trace == walk;
        return;
      }
      assert edgeCursor == Cursor(links, forward, 2 * k + 1);
      trace := trace + [EdgeItem(edgeCursor.item.edge)];
      nodeCursor := Advance(edgeCursor, forward);
      k := k + 1;
      assert trace == walk[..2 * k];
    }
  }

  lemma ChainPathAppend<N, E>(links: seq<Wrapper<N, E>>, edge: Wrapper<N, E>, node: Wrapper<N, E>)
    requires Alternates(links) && edge.item.EdgeItem? && node.item.NodeItem?
    ensures Alternates(links + [edge, node])
    ensures ChainPath(links + [edge, node]) == Append(ChainPath(links), edge.item.edge, node.item.node)
  {
    var longer := links + [edge, node];
    assert Alternates(longer);
    var p, q := ChainPath(links), ChainPath(longer);
    assert q.nodes == p.nodes + [node.item.node];
    assert q.edges == p.edges + [edge.item.edge];
  }

  lemma ChainPathPrepend<N, E>(node: Wrapper<N, E>, edge: Wrapper<N, E>, links: seq<Wrapper<N, E>>)
    requires Alternates(links) && edge.item.EdgeItem? && node.item.NodeItem?
    ensures Alternates([node, edge] + links)
    ensures ChainPath([node, edge] + links) == Prepend(node.item.node, edge.item.edge, ChainPath(links))
  {
    var longer := [node, edge] + links;
    assert Alternates(longer);
    var p, q := ChainPath(links), ChainPath(longer);
    assert q.nodes == [node.item.node] + p.nodes;
    assert q.edges == [edge.item.edge] + p.edges;
  }

  /** A built path: the two end wrappers of a chain that nothing changes any more. */
  class LinkedPath<N, E> {
    const head: Wrapper<N, E>
    const tail: Wrapper<N, E>
    ghost const links: seq<Wrapper<N, E>>
    ghost const Repr: set<Wrapper<N, E>>

    ghost predicate Valid()
      reads this, Repr
    {
      && Repr == (set w | w in links)
      && Chain(links)
      && head == links[0]
      && tail == links[|links| - 1]
    }

    ghost function Abs(): Path<N, E>
      reads this, Repr
      requires Valid()
    {
      ChainPath(links)
    }

    /** The single-node constructor: one node wrapper that is both head and tail. */
    constructor OfNode(n: N)
      ensures Valid() && fresh(Repr) && Abs() == Single(n)
    {
      var w := new Wrapper(NodeItem(n));
      head, tail := w, w;
      links := [w];
      Repr := {w};
      new;
      assert ChainPath(links).nodes == [n];
    }

    /** The constructor build uses: the ends of the builder's chain. */
    constructor Over(head: Wrapper<N, E>, tail: Wrapper<N, E>, ghost links: seq<Wrapper<N, E>>)
      requires Chain(links) && head == links[0] && tail == links[|links| - 1]
      ensures Valid() && this.links == links
    {
      this.head, this.tail := head, tail;
      this.links := links;
      Repr := set w | w in links;
    }

    function GetHead(): (n: N)
      reads this, Repr
      requires Valid()
      ensures n == Head(Abs())
    {
      head.item.node
    }

    function GetTail(): (n: N)
      reads this, Repr
      requires Valid()
      ensures n == Tail(Abs())
    {
      tail.item.node
    }

    method VisitPairsFromHead() returns (pairs: seq<(E, N)>)
      requires Valid()
      ensures pairs == PairsFromHead(Abs())
    {
      ChainWalkable(links, true);
      pairs := VisitPairsSkipFirst(head, true, links);
    }

    method VisitPairsFromTail() returns (pairs: seq<(E, N)>)
      requires Valid()
      ensures pairs == PairsFromTail(Abs())
    {
      ChainWalkable(links, false);
      pairs := VisitPairsSkipFirst(tail, false, links);
    }

    /** The override of visitFromHead: the walk along `next` from the head. */
    method VisitFromHead() returns (trace: seq<Item<N, E>>)
      requires Valid()
      ensures trace == TraceFromHead(Abs())
    {
      ChainWalkable(links, true);
      trace := VisitChain(head, true, links);
      ChainTraces(links);
    }

    /** The override of visitFromTail: the walk along `prev` from the tail, the head walk reversed. */
    method VisitFromTail() returns (trace: seq<Item<N, E>>)
      requires Valid()
      ensures trace == TraceFromTail(Abs())
      ensures trace == Reverse(TraceFromHead(Abs()))
    {
      ChainWalkable(links, false);
      trace := VisitChain(tail, false, links);
      ChainTraces(links);
    }
  }

  /**
   * The linked builder: the two ends of the chain under construction, or
   * none once the chain has been handed to a built path.
   */
  class LinkedPathBuilder<N, E> {
    var head: Wrapper?<N, E>
    var tail: Wrapper?<N, E>
    ghost var links: seq<Wrapper<N, E>>
    ghost var Repr: set<Wrapper<N, E>>

    ghost predicate Valid()
      reads this, Repr
    {
      && Repr == (set w | w in links)
      && (head == null <==> tail == null)
      && (head == null ==> links == [])
      && (head != null ==> Chain(links) && head == links[0] && tail == links[|links| - 1])
    }

    /** The builder contract state this builder stands for. */
    ghost function State(): Builder<N, E>
      reads this, Repr
      requires Valid()
    {
      if head == null then Built else Live(ChainPath(links))
    }

    /** builder(node): a builder reset to the given node. */
    constructor FromNode(n: N)
      ensures Valid() && fresh(Repr) && State() == New(n)
      ensures head != null && fresh(head) && fresh(tail)
    {
      head, tail := null, null;
      links, Repr := [], {};
      new;
      Reset(n);
    }

    /** builder(basePath): fresh wrappers for the head and then for every pair of the base path. */
    constructor FromPath(basePath: Path<N, E>)
      requires basePath.Valid()
      ensures Valid() && fresh(Repr) && State() == Live(basePath)
      ensures head != null && fresh(head) && fresh(tail)
    {
      head, tail := null, null;
      links, Repr := [], {};
      new;
      Reset(Head(basePath));
      assert Prefix(basePath, 0) == Single(Head(basePath));
      var pairs := PairsFromHead(basePath);
      for i := 0 to |pairs|
        invariant Valid() && head != null && fresh(Repr) && fresh(head) && fresh(tail)
        invariant State() == Live(Prefix(basePath, i))
      {
        PrefixStep(basePath, i);
        PushBack(pairs[i].0, pairs[i].1);
      }
      PrefixWhole(basePath);
    }

    function GetHead(): (n: N)
      reads this, Repr
      requires Valid() && head != null
      ensures n == PathBuilders.GetHead(State())
    {
      head.item.node
    }

    function GetTail(): (n: N)
      reads this, Repr
      requires Valid() && head != null
      ensures n == PathBuilders.GetTail(State())
    {
      tail.item.node
    }

    /**
     * pushBack(edge, node): link a fresh edge wrapper to a fresh node
     * wrapper, link the old tail to the edge wrapper, and make the node
     * wrapper the tail. Of the old chain only the old tail changes.
     */
    method PushBack(e: E, n: N)
      modifies this, tail
      requires Valid() && head != null
      ensures Valid() && fresh(Repr - old(Repr))
      ensures |links| == |old(links)| + 2 && links[..|old(links)|] == old(links)
      ensures head == old(head) && tail != null && fresh(tail) && tail.item == NodeItem(n)
      ensures State() == PathBuilders.PushBack(old(State()), e, n)
    {
      ghost var before := links;
      ghost var m := |before|;
      var edgeWrapper := new Wrapper(EdgeItem(e));
      var nodeWrapper := new Wrapper(NodeItem(n));
      Link(edgeWrapper, nodeWrapper);
      Link(tail, edgeWrapper);
      ChainPathAppend(links, edgeWrapper, nodeWrapper);
      links := links + [edgeWrapper, nodeWrapper];
      Repr := Repr + {edgeWrapper, nodeWrapper};
      tail := nodeWrapper;
      forall i, j | 0 <= i < j < |links| ensures links[i] != links[j] {
        if j < m {
          assert links[i] == before[i] && links[j] == before[j];
        }
      }
      forall i | 0 <= i < |links| - 1 ensures links[i].next == links[i + 1] && links[i + 1].prev == links[i] {
        if i < m - 1 {
          assert links[i] == before[i] != before[m - 1];
        }
      }
      assert links[0].prev == null;
      assert Chain(links);
    }

    /**
     * pushFront(node, edge): link a fresh node wrapper to a fresh edge
     * wrapper, link the edge wrapper to the old head, and make the node
     * wrapper the head. Of the old chain only the old head changes.
     */
    method PushFront(n: N, e: E)
      modifies this, head
      requires Valid() && head != null
      ensures Valid() && fresh(Repr - old(Repr))
      ensures |links| == |old(links)| + 2 && links[2..] == old(links)
      ensures tail == old(tail) && head != null && fresh(head) && head.item == NodeItem(n)
      ensures State() == PathBuilders.PushFront(old(State()), n, e)
    {
      ghost var before := links;
      ghost var m := |before|;
      var edgeWrapper := new Wrapper(EdgeItem(e));
      var nodeWrapper := new Wrapper(NodeItem(n));
      Link(nodeWrapper, edgeWrapper);
      Link(edgeWrapper, head);
      ChainPathPrepend(nodeWrapper, edgeWrapper, links);
      links := [nodeWrapper, edgeWrapper] + links;
      Repr := Repr + {edgeWrapper, nodeWrapper};
      head := nodeWrapper;
      forall i, j | 0 <= i < j < |links| ensures links[i] != links[j] {
        if 2 <= i {
          assert links[i] == before[i - 2] && links[j] == before[j - 2];
        }
      }
      forall i | 0 <= i < |links| - 1 ensures links[i].next == links[i + 1] && links[i + 1].prev == links[i] {
        if 2 <= i {
          assert links[i + 1] == before[i - 1] != before[0];
        }
      }
      assert links[|links| - 1].next == null;
      assert Chain(links);
    }

    /** reset(node): one fresh node wrapper as head and tail; the old chain is let go. */
    method Reset(n: N)
      modifies this
      requires Valid()
      ensures Valid() && fresh(Repr) && head != null && head == tail && fresh(head)
      ensures State() == PathBuilders.Reset(old(State()), n)
    {
      var nodeWrapper := new Wrapper(NodeItem(n));
      head, tail := nodeWrapper, nodeWrapper;
      links, Repr := [nodeWrapper], {nodeWrapper};
      assert ChainPath(links).nodes == [n];
    }

    /** build(): a path over the current chain; the builder drops both ends. */
    method Build() returns (path: LinkedPath<N, E>)
      modifies this
      requires Valid() && head != null
      ensures head == null && tail == null && Valid() && State() == Built
      ensures fresh(path) && path.Valid() && path.Repr == old(Repr)
      ensures path.head == old(head) && path.tail == old(tail)
      ensures (path.Abs(), State()) == PathBuilders.Build(old(State()))
    {
      path := new LinkedPath.Over(head, tail, links);
      head, tail := null, null;
      links, Repr := [], {};
    }

    /** The default pushBack(edge, path), run on this builder. */
    method PushBackPath(edge: E, path: Path<N, E>)
      modifies this, tail
      requires Valid() && head != null && path.Valid()
      ensures Valid() && fresh(Repr - old(Repr))
      ensures State() == Live(Join(old(State()).content, edge, path))
    {
      ghost var start := State().content;
      PushBack(edge, Head(path));
      SpliceStart(start, edge, path);
      var pairs := PairsFromHead(path);
      for i := 0 to |pairs|
        invariant Valid() && head != null && fresh(Repr - old(Repr)) && fresh(tail)
        invariant State() == Live(Join(start, edge, Prefix(path, i)))
      {
        SpliceBackStep(start, edge, path, i);
        PushBack(pairs[i].0, pairs[i].1);
      }
      PrefixWhole(path);
    }

    /** The default pushFront(path, edge), run on this builder. */
    method PushFrontPath(path: Path<N, E>, edge: E)
      modifies this, head
      requires Valid() && head != null && path.Valid()
      ensures Valid() && fresh(Repr - old(Repr))
      ensures State() == Live(Join(path, edge, old(State()).content))
    {
      ghost var start := State().content;
      ghost var R0 := Repr;
      var last := |path.edges|;
      PushFront(Tail(path), edge);
      SpliceStart(start, edge, path);
      var pairs := PairsFromTail(path);
      for i := 0 to |pairs|
        invariant Valid()
        invariant head != null
        invariant fresh(head)
        invariant fresh(Repr - R0)
        invariant State() == Live(Join(Suffix(path, last - i), edge, start))
      {
        var e, n := pairs[i].0, pairs[i].1;
        SpliceFrontStep(start, edge, path, i);
        ghost var R1 := Repr;
        PushFront(n, e);
        assert Repr - R0 <= (R1 - R0) + (Repr - R1);
      }
      PrefixWhole(path);
      assert State() == Live(Join(Suffix(path, 0), edge, start));
    }
  }

  /** concatenate: copy the first path into a new builder, splice on the joiner and the second, build. */
  method Concatenate<N, E>(path1: Path<N, E>, joiner: E, path2: Path<N, E>) returns (r: LinkedPath<N, E>)
    requires path1.Valid() && path2.Valid()
    ensures r.Valid() && fresh(r.Repr) && r.Abs() == Join(path1, joiner, path2)
  {
    var b := new LinkedPathBuilder.FromPath(path1);
    b.PushBackPath(joiner, path2);
    r := b.Build();
  }

  /** Copying a path into a builder and building again gives the same path over wrappers of its own. */
  method CopyBuild<N, E>(basePath: Path<N, E>) returns (r: LinkedPath<N, E>)
    requires basePath.Valid()
    ensures r.Valid() && fresh(r.Repr) && r.Abs() == basePath
  {
    var b := new LinkedPathBuilder.FromPath(basePath);
    r := b.Build();
  }
}
