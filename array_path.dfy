/**
 * The array-backed representation: one list of cells, each holding a node
 * and the edge that leads into it. The first cell has no incoming edge; its
 * edge slot holds a null sentinel (None here). The path is the node of every
 * cell, and the edge of every cell but the first.
 */
module ArrayPaths {
  import opened Paths
  import opened PathBuilders

  datatype Cell<N, E> = Cell(edge: Option<E>, node: N)

  /** A cell list that stands for a path: non-empty, and only the first cell lacks an edge. */
  ghost predicate WellFormed<N, E>(cells: seq<Cell<N, E>>) {
    && |cells| >= 1
    && cells[0].edge == None
    && forall i :: 1 <= i < |cells| ==> cells[i].edge.Some?
  }

  /** The path a well-formed cell list stands for. */
  function CellsPath<N, E>(cells: seq<Cell<N, E>>): (p: Path<N, E>)
    requires WellFormed(cells)
    ensures p.Valid() && |p.nodes| == |cells|
    ensures forall i :: 0 <= i < |cells| ==> p.nodes[i] == cells[i].node
    ensures forall i :: 1 <= i < |cells| ==> Some(p.edges[i - 1]) == cells[i].edge
  {
    Path(seq(|cells|, i requires 0 <= i < |cells| => cells[i].node),
         seq(|cells| - 1, i requires 0 <= i < |cells| - 1 => cells[i + 1].edge.value))
  }

  /** Appending a cell appends its edge and node to the path. */
  lemma CellsPushBack<N, E>(cells: seq<Cell<N, E>>, e: E, n: N)
    requires WellFormed(cells)
    ensures WellFormed(cells + [Cell(Some(e), n)])
    ensures CellsPath(cells + [Cell(Some(e), n)]) == Append(CellsPath(cells), e, n)
  {
    var longer := cells + [Cell(Some(e), n)];
    assert WellFormed(longer);
    var p, q := CellsPath(cells), CellsPath(longer);
    assert q.nodes == p.nodes + [n];
    assert q.edges == p.edges + [e];
  }

  /**
   * Writing the edge into the old first cell and inserting a sentinel cell
   * in front prepends the node and edge to the path.
   */
  lemma CellsPushFront<N, E>(cells: seq<Cell<N, E>>, n: N, e: E)
    requires WellFormed(cells)
    ensures WellFormed([Cell(None, n)] + cells[0 := Cell(Some(e), cells[0].node)])
    ensures CellsPath([Cell(None, n)] + cells[0 := Cell(Some(e), cells[0].node)]) == Prepend(n, e, CellsPath(cells))
  {
    var longer := [Cell(None, n)] + cells[0 := Cell(Some(e), cells[0].node)];
    assert WellFormed(longer);
    var p, q := CellsPath(cells), CellsPath(longer);
    assert q.nodes == [n] + p.nodes;
    assert q.edges == [e] + p.edges;
  }

  /** A built path: the cell list it was handed, never changed afterwards. */
  datatype ArrayPath<N, E> = ArrayPath(items: seq<Cell<N, E>>) {
    ghost predicate Valid() {
      WellFormed(items)
    }

    function Abs(): Path<N, E>
      requires Valid()
    {
      CellsPath(items)
    }

    /** The single-node constructor: one sentinel cell. */
    static function OfNode(n: N): (r: ArrayPath<N, E>)
      ensures r.Valid() && r.Abs() == Single(n)
    {
      var r := ArrayPath([Cell(None, n)]);
      assert r.Abs().nodes == [n];
      r
    }

    function GetHead(): (n: N)
      requires Valid()
      ensures n == Head(Abs())
    {
      items[0].node
    }

    function GetTail(): (n: N)
      requires Valid()
      ensures n == Tail(Abs())
    {
      items[|items| - 1].node
    }

    /** visitPairsFromHead: every cell after the sentinel, as (edge, node). */
    method VisitPairsFromHead() returns (pairs: seq<(E, N)>)
      requires Valid()
      ensures pairs == PairsFromHead(Abs())
      ensures |pairs| == |items| - 1
    {
      pairs := [];
      for i := 1 to |items|
        invariant pairs == PairsFromHead(Abs())[..i - 1]
      {
        pairs := pairs + [(items[i].edge.value, items[i].node)];
      }
    }

    /**
     * visitPairsFromTail: from the last cell back to the second, the edge of
     * a cell with the node of the cell before it.
     */
    method VisitPairsFromTail() returns (pairs: seq<(E, N)>)
      requires Valid()
      ensures pairs == PairsFromTail(Abs())
      ensures |pairs| == |items| - 1
    {
      pairs := [];
      ghost var all := PairsFromTail(Abs());
      var i := |items|;
      while i > 1
        invariant 1 <= i <= |items|
        invariant pairs == all[..|items| - i]
      {
        i := i - 1;
        assert all[|items| - 1 - i] == (items[i].edge.value, items[i - 1].node);
        assert all[..|items| - i] == all[..|items| - 1 - i] + [all[|items| - 1 - i]];
        pairs := pairs + [(items[i].edge.value, items[i - 1].node)];
      }
      assert all[..|items| - 1] == all;
    }

    /** The override of countNodes: the list size, which is what the traversal would count. */
    function CountNodes(): (count: int)
      requires Valid()
      ensures count == |Abs().nodes| && count == |Abs().edges| + 1
    {
      |items|
    }
  }

  /**
   * The array builder. It owns its cell list until build hands the list to
   * the new path; from then on the list is gone (None) until reset.
   */
  class ArrayPathBuilder<N, E> {
    var items: Option<seq<Cell<N, E>>>

    ghost predicate Valid()
      reads this
    {
      items.Some? ==> WellFormed(items.value)
    }

    /** The builder contract state this builder stands for. */
    ghost function State(): Builder<N, E>
      reads this
      requires Valid()
    {
      if items.Some? then Live(CellsPath(items.value)) else Built
    }

    /** builder(node): a builder reset to the given node. */
    constructor FromNode(n: N)
      ensures Valid() && State() == New(n)
      ensures items == Some([Cell(None, n)])
    {
      items := None;
      new;
      Reset(n);
    }

    /** builder(basePath): seeded with the head, then every pair of the base path from its head. */
    constructor FromPath(basePath: Path<N, E>)
      requires basePath.Valid()
      ensures Valid() && State() == Live(basePath)
    {
      items := None;
      new;
      Reset(Head(basePath));
      assert Prefix(basePath, 0) == Single(Head(basePath));
      var pairs := PairsFromHead(basePath);
      for i := 0 to |pairs|
        invariant Valid() && State() == Live(Prefix(basePath, i))
      {
        PrefixStep(basePath, i);
        PushBack(pairs[i].0, pairs[i].1);
      }
      PrefixWhole(basePath);
    }

    function GetHead(): (n: N)
      reads this
      requires Valid() && items.Some?
      ensures n == PathBuilders.GetHead(State())
    {
      items.value[0].node
    }

    function GetTail(): (n: N)
      reads this
      requires Valid() && items.Some?
      ensures n == PathBuilders.GetTail(State())
    {
      items.value[|items.value| - 1].node
    }

    /** pushBack(edge, node): one new cell at the end; the other cells are untouched. */
    method PushBack(e: E, n: N)
      modifies this
      requires Valid() && items.Some?
      ensures Valid() && items == Some(old(items.value) + [Cell(Some(e), n)])
      ensures State() == PathBuilders.PushBack(old(State()), e, n)
    {
      CellsPushBack(items.value, e, n);
      items := Some(items.value + [Cell(Some(e), n)]);
    }

    /**
     * pushFront(node, edge): the old first cell takes the edge in place of
     * its sentinel, and a new sentinel cell holding the node goes in front.
     */
    method PushFront(n: N, e: E)
      modifies this
      requires Valid() && items.Some?
      ensures Valid()
      ensures items == Some([Cell(None, n)] + old(items.value)[0 := Cell(Some(e), old(items.value)[0].node)])
      ensures State() == PathBuilders.PushFront(old(State()), n, e)
    {
      var cells := items.value;
      CellsPushFront(cells, n, e);
      cells := cells[0 := Cell(Some(e), cells[0].node)];
      items := Some([Cell(None, n)] + cells);
    }

    /** reset(node): a fresh one-cell list, whatever the builder held or whether it was built. */
    method Reset(n: N)
      modifies this
      requires Valid()
      ensures Valid() && items == Some([Cell(None, n)])
      ensures State() == PathBuilders.Reset(old(State()), n)
    {
      items := Some([Cell(None, n)]);
      assert CellsPath(items.value).nodes == [n];
    }

    /** build(): the path takes over the cell list and the builder drops it. */
    method Build() returns (path: ArrayPath<N, E>)
      modifies this
      requires Valid() && items.Some?
      ensures items == None && Valid() && State() == Built
      ensures path == ArrayPath(old(items.value)) && path.Valid()
      ensures (path.Abs(), State()) == PathBuilders.Build(old(State()))
    {
      path := ArrayPath(items.value);
      items := None;
    }

    /** The default pushBack(edge, path), run on this builder. */
    method PushBackPath(edge: E, path: Path<N, E>)
      modifies this
      requires Valid() && items.Some? && path.Valid()
      ensures Valid() && State() == Live(Join(old(State()).content, edge, path))
    {
      ghost var start := State().content;
      PushBack(edge, Head(path));
      SpliceStart(start, edge, path);
      var pairs := PairsFromHead(path);
      for i := 0 to |pairs|
        invariant Valid() && State() == Live(Join(start, edge, Prefix(path, i)))
      {
        SpliceBackStep(start, edge, path, i);
        PushBack(pairs[i].0, pairs[i].1);
      }
      PrefixWhole(path);
    }

    /** The default pushFront(path, edge), run on this builder. */
    method PushFrontPath(path: Path<N, E>, edge: E)
      modifies this
      requires Valid() && items.Some? && path.Valid()
      ensures Valid() && State() == Live(Join(path, edge, old(State()).content))
    {
      ghost var start := State().content;
      var last := |path.edges|;
      PushFront(Tail(path), edge);
      SpliceStart(start, edge, path);
      var pairs := PairsFromTail(path);
      for i := 0 to |pairs|
        invariant Valid()
        invariant items.Some?
        invariant State() == Live(Join(Suffix(path, last - i), edge, start))
      {
        var e, n := pairs[i].0, pairs[i].1;
        SpliceFrontStep(start, edge, path, i);
        PushFront(n, e);
      }
      PrefixWhole(path);
      assert State() == Live(Join(Suffix(path, 0), edge, start));
    }
  }

  /** concatenate: copy the first path into a new builder, splice on the joiner and the second, build. */
  method Concatenate<N, E>(path1: Path<N, E>, joiner: E, path2: Path<N, E>) returns (r: ArrayPath<N, E>)
    requires path1.Valid() && path2.Valid()
    ensures r.Valid() && r.Abs() == Join(path1, joiner, path2)
  {
    var b := new ArrayPathBuilder.FromPath(path1);
    b.PushBackPath(joiner, path2);
    r := b.Build();
  }

  /** Copying a path into a builder and building again gives back the same path. */
  method CopyBuild<N, E>(basePath: Path<N, E>) returns (r: ArrayPath<N, E>)
    requires basePath.Valid()
    ensures r.Valid() && r.Abs() == basePath
  {
    var b := new ArrayPathBuilder.FromPath(basePath);
    r := b.Build();
  }
}
