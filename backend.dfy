/**
 * The backend as the queries see it: one read-only snapshot of the graph,
 * held as a value.  A vertex carries its string attributes `attr0..attrN-1`
 * (by index) and its outgoing edges in the order the backend enumerates
 * them; an edge carries its label handle, the vertex it points to and its
 * `timestamp` property.  The attribute index maps (attribute index, value) to
 * the vertices that the backend's exact-match lookup returns, in the order it
 * enumerates them.
 */
module Backend {

  /** Java `int` and `long`. */
  type Int32 = x: int | -0x8000_0000 <= x < 0x8000_0000
  type Int64 = x: int | -0x8000_0000_0000_0000 <= x < 0x8000_0000_0000_0000

  /** Two's-complement wrap-around of Java `int` arithmetic. */
  function WrapInt32(x: int): (r: Int32)
    ensures -0x8000_0000 <= x < 0x8000_0000 ==> r == x
    ensures 0x8000_0000 <= x < 0x1_0000_0000 ==> r == x - 0x1_0000_0000
  {
    (x + 0x8000_0000) % 0x1_0000_0000 - 0x8000_0000
  }

  /** Two's-complement wrap-around of Java `long` arithmetic. */
  function WrapInt64(x: int): (r: Int64)
    ensures -0x8000_0000_0000_0000 <= x < 0x8000_0000_0000_0000 ==> r == x
    ensures 0x8000_0000_0000_0000 <= x < 0x1_0000_0000_0000_0000 ==> r == x - 0x1_0000_0000_0000_0000
  {
    (x + 0x8000_0000_0000_0000) % 0x1_0000_0000_0000_0000 - 0x8000_0000_0000_0000
  }

  function Min(a: int, b: int): int
  {
    if a <= b then a else b
  }

  datatype Option<T> = None | Some(value: T)

  /** The exceptions the queries let escape, as values. */
  datatype Failure =
    | NotFound         // the id resolves to no vertex: a NullPointerException in `Graph`
    | IllegalArgument  // `subList` with an end index below its start index
    | IndexOutOfBounds // an association type outside the `intToAtype` table

  datatype Result<T> = Ok(value: T) | Err(failure: Failure)

  /** The backend's own vertex id and edge-label handle. */
  type VertexId = int
  type Label = int

  datatype Edge = Edge(edgeLabel: Label, dst: VertexId, timestamp: Int64)

  datatype Vertex = Vertex(attrs: map<int, string>, out: seq<Edge>)

  datatype Snapshot = Snapshot(vertices: map<VertexId, Vertex>, index: map<(int, string), seq<VertexId>>)

  /** `vertex.getProperty("attr" + p)`: absent is `None`. */
  function Attr(v: Vertex, p: int): Option<string>
  {
    if p in v.attrs then Some(v.attrs[p]) else None
  }

  /** Attribute `p` of the vertex an edge leads to. */
  function AttrOfVertex(snap: Snapshot, id: VertexId, p: int): Option<string>
  {
    if id in snap.vertices then Attr(snap.vertices[id], p) else None
  }

  /**
   * `txn.getVertices("attr" + p, value)`: the attribute index lookup, in the
   * order the backend enumerates the hits.
   */
  function IndexLookup(snap: Snapshot, p: int, value: string): seq<VertexId>
  {
    if (p, value) in snap.index then snap.index[(p, value)] else []
  }

  /** The index returns exactly the vertices whose attribute `p` is `value`. */
  ghost predicate IndexConsistent(snap: Snapshot)
  {
    forall p, value, id :: id in IndexLookup(snap, p, value) <==> AttrOfVertex(snap, id, p) == Some(value)
  }

  /**
   * `vertex.getTitanEdges(Direction.OUT, label)`: the outgoing edges that
   * carry the label handle `wanted`, in enumeration order.
   */
  function EdgesLabelled(es: seq<Edge>, wanted: Label): (r: seq<Edge>)
    ensures |r| <= |es|
    ensures forall e :: e in r <==> e in es && e.edgeLabel == wanted
    ensures forall e :: multiset(r)[e] == if e.edgeLabel == wanted then multiset(es)[e] else 0
    ensures IsSubsequence(r, es)
  {
    if es == [] then []
    else
      var init, last := es[..|es| - 1], es[|es| - 1];
      assert es == init + [last];
      var kept := EdgesLabelled(init, wanted);
      if last.edgeLabel == wanted then
        SubsequenceSnoc(kept, init, last);
        kept + [last]
      else
        SubsequenceSkip(kept, init, last);
        kept
  }

  /**
   * `a` is `b` with some elements left out and the others in their order in
   * `b` (each element of `b` used at most once).
   */
  ghost predicate IsSubsequence<T>(a: seq<T>, b: seq<T>)
    decreases |b|
  {
    || a == []
    || (b != [] && a[|a| - 1] == b[|b| - 1] && IsSubsequence(a[..|a| - 1], b[..|b| - 1]))
    || (b != [] && IsSubsequence(a, b[..|b| - 1]))
  }

  /** Keeping the next element of `b` extends a subsequence. */
  lemma SubsequenceSnoc<T>(a: seq<T>, b: seq<T>, x: T)
    requires IsSubsequence(a, b)
    ensures IsSubsequence(a + [x], b + [x])
  {
    assert (a + [x])[..|a|] == a && (b + [x])[..|b|] == b;
  }

  /** Leaving out the next element of `b` keeps a subsequence. */
  lemma SubsequenceSkip<T>(a: seq<T>, b: seq<T>, x: T)
    requires IsSubsequence(a, b)
    ensures IsSubsequence(a, b + [x])
  {
    assert (b + [x])[..|b|] == b;
  }
}
