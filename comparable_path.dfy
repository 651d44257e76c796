/**
 * Value semantics shared by both path representations: structural equality
 * over the head-to-tail node and edge lists, a hash of those same lists, and
 * the comma-separated string form.
 */
module ComparablePaths {
  import opened Paths

  /** What `equals` may be handed: a path of either representation, or any other object. */
  datatype Value<N, E> = PathValue(path: Path<N, E>) | OtherValue

  /**
   * equals: another path is equal when its node list and edge list from the
   * head are equal to ours; any other object is not. As both lists are read
   * through the traversal, the answer does not depend on the representation.
   * (The identity shortcut of the source agrees with this by reflexivity.)
   */
  function Equals<N(==), E(==)>(p: Path<N, E>, o: Value<N, E>): (b: bool)
    requires p.Valid() && (o.PathValue? ==> o.path.Valid())
    ensures b <==> o == PathValue(p)
  {
    match o
    case OtherValue => false
    case PathValue(q) =>
      NodesOfTraceFromHead(p);
      NodesOfTraceFromHead(q);
      && NodesOf(TraceFromHead(p)) == NodesOf(TraceFromHead(q))
      && EdgesOf(TraceFromHead(p)) == EdgesOf(TraceFromHead(q))
  }

  /** hashCode: the caller-supplied hash of the node list and the edge list. */
  function HashCode<N, E>(p: Path<N, E>, hash: (seq<N>, seq<E>) -> int): (h: int)
    requires p.Valid()
    ensures h == hash(p.nodes, p.edges)
  {
    NodesOfTraceFromHead(p);
    hash(NodesOf(TraceFromHead(p)), EdgesOf(TraceFromHead(p)))
  }

  /**
   * Equal paths have equal hashes, whichever hash of the two lists is used.
   * The hash depends on nothing but the two lists, so this holds by the
   * definition of HashCode and needs no proof steps.
   */
  lemma EqualPathsHashEqually<N, E>(p: Path<N, E>, q: Path<N, E>, hash: (seq<N>, seq<E>) -> int)
    requires p.Valid() && q.Valid() && Equals(p, PathValue(q))
    ensures HashCode(p, hash) == HashCode(q, hash)
  {
  }

  /** The string of each visitor call. */
  function ItemString<N, E>(item: Item<N, E>, nodeString: N -> string, edgeString: E -> string): string {
    match item
    case NodeItem(n) => nodeString(n)
    case EdgeItem(e) => edgeString(e)
  }

  function Strings<N, E>(trace: seq<Item<N, E>>, nodeString: N -> string, edgeString: E -> string): (r: seq<string>)
    ensures |r| == |trace|
  {
    seq(|trace|, i requires 0 <= i < |trace| => ItemString(trace[i], nodeString, edgeString))
  }

  /** A non-empty list of strings separated by ", ", with no separator after the last. */
  function Separated(parts: seq<string>): string
    requires |parts| > 0
  {
    if |parts| == 1 then parts[0]
    else Separated(parts[..|parts| - 1]) + ", " + parts[|parts| - 1]
  }

  /** The string form: node, edge, node, ... from the head, separated by ", ". */
  function Rendered<N, E>(p: Path<N, E>, nodeString: N -> string, edgeString: E -> string): string
    requires p.Valid()
  {
    Separated(Strings(TraceFromHead(p), nodeString, edgeString))
  }

  /**
   * toString: append every visited value followed by ", ", then drop the
   * last two characters. The head is always visited, so there are always
   * at least two characters to drop.
   */
  method ToString<N, E>(p: Path<N, E>, nodeString: N -> string, edgeString: E -> string) returns (s: string)
    requires p.Valid()
    ensures s == Rendered(p, nodeString, edgeString)
  {
    var trace := TraceFromHead(p);
    ghost var parts := Strings(trace, nodeString, edgeString);
    var builder := "";
    for i := 0 to |trace|
      invariant builder == if i == 0 then "" else Separated(parts[..i]) + ", "
    {
      if i > 0 {
        assert parts[..i + 1][..i] == parts[..i];
      }
      builder := builder + ItemString(trace[i], nodeString, edgeString) + ", ";
    }
    assert parts[..|trace|] == parts;
    builder := builder[..|builder| - 2];
    s := builder;
  }

  /** A single-node path prints as just its node. */
  lemma RenderedSingle<N, E>(n: N, nodeString: N -> string, edgeString: E -> string)
    ensures Rendered(Single<N, E>(n), nodeString, edgeString) == nodeString(n)
  {
    assert TraceFromHead(Single<N, E>(n)) == [NodeItem(n)];
  }

  /** Each further edge and node adds ", edge, node" at the end of the string. */
  lemma RenderedAppend<N, E>(p: Path<N, E>, e: E, n: N, nodeString: N -> string, edgeString: E -> string)
    requires p.Valid()
    ensures Append(p, e, n).Valid()
    ensures Rendered(Append(p, e, n), nodeString, edgeString)
         == Rendered(p, nodeString, edgeString) + ", " + edgeString(e) + ", " + nodeString(n)
  {
    TraceFromHeadAppend(p, e, n);
    var t := TraceFromHead(p);
    var u := t + [EdgeItem(e), NodeItem(n)];
    var ps := Strings(t, nodeString, edgeString);
    var us := Strings(u, nodeString, edgeString);
    assert |us| == |ps| + 2 && |ps| >= 1;
    assert us[..|us| - 1][..|us| - 2] == ps;
    assert us[|us| - 1] == nodeString(n);
    assert us[..|us| - 1][|us| - 2] == edgeString(e);
    assert Separated(us[..|us| - 1]) == Separated(ps) + ", " + edgeString(e);
  }
}
