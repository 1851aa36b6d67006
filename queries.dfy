/**
 * Reference definitions of what each query of `Graph` computes from one
 * vertex's outgoing edges, and the properties the queries promise: which
 * edges survive each filter, in what order, and what the windows keep.
 * The imperative queries in module GraphModel are proved equal to these.
 */
module Queries {
  import opened Backend
  import opened Sorting

  /** A neighbour id together with the timestamp of the edge that leads to it. */
  datatype TimestampedId = TimestampedId(timestamp: Int64, id: Int64)
  {
    /** Negative when `this` sorts first: larger timestamp comes first. */
    function CompareTo(that: TimestampedId): (c: int)
      ensures c < 0 <==> timestamp > that.timestamp
      ensures c == 0 <==> timestamp == that.timestamp
      ensures c > 0 <==> timestamp < that.timestamp
    {
      LongCompare(that.timestamp, timestamp)
    }
  }

  /** `Long.compare`. */
  function LongCompare(x: Int64, y: Int64): int
  {
    if x < y then -1 else if x == y then 0 else 1
  }

  /** The key that `CompareTo` sorts by, largest first. */
  function Stamp(t: TimestampedId): int
  {
    t.timestamp
  }

  /**
   * An association as the queries return it: built from one edge, with
   * `fromVertexId` of its destination (no offset is taken off).
   */
  datatype Assoc = Assoc(atype: Label, dstId: Int64, timestamp: Int64)

  function AssocOf(e: Edge, fromVertexId: VertexId -> Int64): (a: Assoc)
    ensures a.atype == e.edgeLabel && a.timestamp == e.timestamp
    ensures a.dstId == fromVertexId(e.dst)
  {
    Assoc(e.edgeLabel, fromVertexId(e.dst), e.timestamp)
  }

  /** An association's own timestamp, as a sort key. */
  function AssocTimestamp(a: Assoc): int
  {
    a.timestamp
  }

  /** `fromVertexId` of every edge's destination, one per edge. */
  function Destinations(es: seq<Edge>, fromVertexId: VertexId -> Int64): (r: seq<Int64>)
    ensures |r| == |es|
    ensures forall i :: 0 <= i < |es| ==> r[i] == fromVertexId(es[i].dst)
  {
    if es == [] then []
    else Destinations(es[..|es| - 1], fromVertexId) + [fromVertexId(es[|es| - 1].dst)]
  }

  /** The edges whose destination has attribute `p` equal to `search`, in order. */
  function EdgesToMatching(snap: Snapshot, es: seq<Edge>, p: int, search: string): (r: seq<Edge>)
    ensures |r| <= |es|
    ensures forall e :: multiset(r)[e] == if AttrOfVertex(snap, e.dst, p) == Some(search) then multiset(es)[e] else 0
    ensures IsSubsequence(r, es)
  {
    if es == [] then []
    else
      var init, last := es[..|es| - 1], es[|es| - 1];
      assert es == init + [last];
      var kept := EdgesToMatching(snap, init, p, search);
      if AttrOfVertex(snap, last.dst, p) == Some(search) then
        SubsequenceSnoc(kept, init, last);
        kept + [last]
      else
        SubsequenceSkip(kept, init, last);
        kept
  }

  /** One `TimestampedId` per edge: the edge's own timestamp and its destination's id. */
  function Stamped(es: seq<Edge>, fromVertexId: VertexId -> Int64): (r: seq<TimestampedId>)
    ensures |r| == |es|
    ensures forall i :: 0 <= i < |es| ==> r[i] == TimestampedId(es[i].timestamp, fromVertexId(es[i].dst))
  {
    if es == [] then []
    else Stamped(es[..|es| - 1], fromVertexId) + [TimestampedId(es[|es| - 1].timestamp, fromVertexId(es[|es| - 1].dst))]
  }

  /** The ids of a list of `TimestampedId`, in the same order. */
  function Ids(ts: seq<TimestampedId>): (r: seq<Int64>)
    ensures |r| == |ts|
    ensures forall i :: 0 <= i < |ts| ==> r[i] == ts[i].id
  {
    if ts == [] then [] else [ts[0].id] + Ids(ts[1..])
  }

  /**
   * `getNeighborAtype` on the edges of the requested label: one id per edge,
   * a permutation of the edges' destination ids.
   */
  function NeighborsByTime(es: seq<Edge>, fromVertexId: VertexId -> Int64): (r: seq<Int64>)
    ensures |r| == |es|
    ensures multiset(r) == multiset(Destinations(es, fromVertexId))
  {
    IdsOfSort(Stamped(es, fromVertexId));
    IdsOfStamped(es, fromVertexId);
    Ids(SortDesc(Stamped(es, fromVertexId), Stamp))
  }

  /** One association per edge, in enumeration order. */
  function AssocsOf(es: seq<Edge>, fromVertexId: VertexId -> Int64): (r: seq<Assoc>)
    ensures |r| == |es|
    ensures forall i :: 0 <= i < |es| ==> r[i] == AssocOf(es[i], fromVertexId)
  {
    if es == [] then []
    else AssocsOf(es[..|es| - 1], fromVertexId) + [AssocOf(es[|es| - 1], fromVertexId)]
  }

  /** The associations whose destination is in `dstIds` and whose timestamp is in [low, high]. */
  function Selected(assocs: seq<Assoc>, dstIds: set<Int64>, low: Int64, high: Int64): (r: seq<Assoc>)
    ensures |r| <= |assocs|
    ensures forall a :: a in r <==> a in assocs && a.dstId in dstIds && low <= a.timestamp <= high
    ensures forall a :: multiset(r)[a] == if a.dstId in dstIds && low <= a.timestamp <= high then multiset(assocs)[a] else 0
    ensures IsSubsequence(r, assocs)
  {
    if assocs == [] then []
    else
      var init, last := assocs[..|assocs| - 1], assocs[|assocs| - 1];
      assert assocs == init + [last];
      var kept := Selected(init, dstIds, low, high);
      if last.dstId in dstIds && low <= last.timestamp <= high then
        SubsequenceSnoc(kept, init, last);
        kept + [last]
      else
        SubsequenceSkip(kept, init, last);
        kept
  }

  /** The associations whose timestamp is in [low, high]. */
  function InTimeRange(assocs: seq<Assoc>, low: Int64, high: Int64): (r: seq<Assoc>)
    ensures |r| <= |assocs|
    ensures forall a :: a in r <==> a in assocs && low <= a.timestamp <= high
    ensures forall a :: multiset(r)[a] == if low <= a.timestamp <= high then multiset(assocs)[a] else 0
    ensures IsSubsequence(r, assocs)
  {
    if assocs == [] then []
    else
      var init, last := assocs[..|assocs| - 1], assocs[|assocs| - 1];
      assert assocs == init + [last];
      var kept := InTimeRange(init, low, high);
      if low <= last.timestamp <= high then
        SubsequenceSnoc(kept, init, last);
        kept + [last]
      else
        SubsequenceSkip(kept, init, last);
        kept
  }

  /**
   * `assocRange` on the associations `assocs` of one vertex and type: the window
   * [offset, min(n, offset + length)) of the sorted list, with `offset + length`
   * computed in `int` arithmetic.
   */
  function AssocRange(assocs: seq<Assoc>, key: Assoc -> int, offset: Int32, length: Int32): (r: Result<seq<Assoc>>)
    ensures offset < 0 || offset >= |assocs| ==> r == Ok([])
    ensures r.Err? <==> 0 <= offset < |assocs| && (length < 0 || offset + length >= 0x8000_0000)
    ensures r.Err? ==> r.failure == IllegalArgument
    ensures r.Ok? ==> SortedDesc(r.value, key)
    ensures r.Ok? && 0 <= offset < |assocs| ==>
      && |r.value| == Min(|assocs|, offset + length) - offset
      && forall i :: 0 <= i < |r.value| ==> r.value[i] == SortDesc(assocs, key)[offset + i]
  {
    if offset < 0 || offset >= |assocs| then Ok([])
    else
      var sorted := SortDesc(assocs, key);
      var to := Min(|sorted|, WrapInt32(offset + length));
      if to < offset then Err(IllegalArgument) else Ok(sorted[offset..to])
  }

  /** `assocTimeRange`'s window: the first min(limit, n) of the sorted list. */
  function FirstSorted(assocs: seq<Assoc>, key: Assoc -> int, limit: Int32): (r: Result<seq<Assoc>>)
    ensures r.Err? <==> limit < 0
    ensures r.Err? ==> r.failure == IllegalArgument
    ensures r.Ok? ==> |r.value| == Min(limit, |assocs|) && |r.value| <= limit
    ensures r.Ok? ==> r.value == SortDesc(assocs, key)[..|r.value|] && SortedDesc(r.value, key)
  {
    var sorted := SortDesc(assocs, key);
    var to := Min(limit, |sorted|);
    if to < 0 then Err(IllegalArgument) else Ok(sorted[..to])
  }

  /** Appending an edge appends its destination's id. */
  lemma {:induction false} DestinationsSnoc(es: seq<Edge>, e: Edge, fromVertexId: VertexId -> Int64)
    ensures Destinations(es + [e], fromVertexId) == Destinations(es, fromVertexId) + [fromVertexId(e.dst)]
  {
    assert (es + [e])[..|es|] == es;
  }

  lemma {:induction false} IdsOfInsert(r: seq<TimestampedId>, x: TimestampedId)
    ensures multiset(Ids(InsertBefore(r, x, Stamp))) == multiset(Ids(r)) + multiset{x.id}
  {
    if r != [] && Stamp(r[0]) > Stamp(x) {
      IdsOfInsert(r[1..], x);
      var t := InsertBefore(r[1..], x, Stamp);
      assert InsertBefore(r, x, Stamp) == [r[0]] + t;
      assert ([r[0]] + t)[1..] == t;
    } else {
      assert ([x] + r)[1..] == r;
    }
  }

  /** Sorting a list of `TimestampedId` permutes its ids. */
  lemma {:induction false} IdsOfSort(s: seq<TimestampedId>)
    ensures multiset(Ids(SortDesc(s, Stamp))) == multiset(Ids(s))
  {
    if s != [] {
      IdsOfSort(s[1..]);
      IdsOfInsert(SortDesc(s[1..], Stamp), s[0]);
    }
  }

  lemma IdsOfStamped(es: seq<Edge>, fromVertexId: VertexId -> Int64)
    ensures Ids(Stamped(es, fromVertexId)) == Destinations(es, fromVertexId)
  {
  }

  /** A list sorted by `Stamp` is in `CompareTo` order. */
  lemma SortedByCompareTo(s: seq<TimestampedId>)
    requires SortedDesc(s, Stamp)
    ensures forall i, j :: 0 <= i < j < |s| ==> s[i].CompareTo(s[j]) <= 0
  {
    forall i, j | 0 <= i < j < |s| ensures s[i].CompareTo(s[j]) <= 0 {
      assert Stamp(s[i]) >= Stamp(s[j]);
    }
  }

  /**
   * `getNeighborAtype` returns the destination ids of the edges, each once per
   * edge, ordered by the edge timestamp, largest first; edges with equal
   * timestamps keep their enumeration order.
   */
  lemma NeighborsByTimeOrder(es: seq<Edge>, fromVertexId: VertexId -> Int64)
    ensures var sorted := SortDesc(Stamped(es, fromVertexId), Stamp);
      && NeighborsByTime(es, fromVertexId) == Ids(sorted)
      && multiset(NeighborsByTime(es, fromVertexId)) == multiset(Destinations(es, fromVertexId))
      && (forall i, j :: 0 <= i < j < |sorted| ==> sorted[i].CompareTo(sorted[j]) <= 0)
      && (forall t :: WithKey(sorted, Stamp, t) == WithKey(Stamped(es, fromVertexId), Stamp, t))
  {
    var stamped := Stamped(es, fromVertexId);
    IdsOfSort(stamped);
    IdsOfStamped(es, fromVertexId);
    SortedByCompareTo(SortDesc(stamped, Stamp));
    forall t ensures WithKey(SortDesc(stamped, Stamp), Stamp, t) == WithKey(stamped, Stamp, t) {
      SortIsStable(stamped, Stamp, t);
    }
  }

  /** With low > high no association is in the time range. */
  lemma {:induction false} EmptyInterval(assocs: seq<Assoc>, dstIds: set<Int64>, low: Int64, high: Int64)
    requires low > high
    ensures Selected(assocs, dstIds, low, high) == [] && InTimeRange(assocs, low, high) == []
  {
    if assocs != [] {
      EmptyInterval(assocs[..|assocs| - 1], dstIds, low, high);
    }
  }

  /**
   * `assocGet` returns exactly the associations of the selected destinations
   * and time interval, as a sorted permutation, and nothing when low > high.
   */
  lemma AssocGetResult(assocs: seq<Assoc>, dstIds: set<Int64>, low: Int64, high: Int64, key: Assoc -> int)
    ensures var r := SortDesc(Selected(assocs, dstIds, low, high), key);
      && multiset(r) == multiset(Selected(assocs, dstIds, low, high))
      && SortedDesc(r, key)
      && (forall a :: a in r <==> a in assocs && a.dstId in dstIds && low <= a.timestamp <= high)
      && (low > high ==> r == [])
  {
    var sel := Selected(assocs, dstIds, low, high);
    var r := SortDesc(sel, key);
    forall a ensures a in r <==> a in sel {
      assert a in r <==> a in multiset(r);
    }
    if low > high {
      EmptyInterval(assocs, dstIds, low, high);
    }
  }

  /**
   * `assocCount` is the length of the list `assocRange` sorts: the window
   * [0, count) of `assocRange` is the whole sorted list.
   */
  lemma CountIsRangeLength(es: seq<Edge>, fromVertexId: VertexId -> Int64, key: Assoc -> int)
    requires |es| < 0x8000_0000
    ensures |AssocsOf(es, fromVertexId)| == |es|
    ensures AssocRange(AssocsOf(es, fromVertexId), key, 0, |es|)
      == Ok(if es == [] then [] else SortDesc(AssocsOf(es, fromVertexId), key))
  {
    var assocs := AssocsOf(es, fromVertexId);
    if es != [] {
      assert SortDesc(assocs, key)[0..|es|] == SortDesc(assocs, key);
    }
  }

  /** `getNodes(p, search)`: `fromVertexId` of every index hit, and nothing else. */
  function NodeIdsMatching(snap: Snapshot, p: int, search: string, fromVertexId: VertexId -> Int64): (r: set<Int64>)
    ensures forall v :: v in IndexLookup(snap, p, search) ==> fromVertexId(v) in r
    ensures forall x :: x in r ==> exists v :: v in IndexLookup(snap, p, search) && fromVertexId(v) == x
  {
    set v | v in IndexLookup(snap, p, search) :: fromVertexId(v)
  }

  /**
   * With an index that agrees with the attributes, `getNodes` returns the ids
   * of exactly the vertices whose attribute `p` is `search`.
   */
  lemma NodesMatchAttribute(snap: Snapshot, p: int, search: string, fromVertexId: VertexId -> Int64, x: Int64)
    requires IndexConsistent(snap)
    ensures x in NodeIdsMatching(snap, p, search, fromVertexId)
      <==> exists v :: fromVertexId(v) == x && AttrOfVertex(snap, v, p) == Some(search)
  {
    if exists v :: fromVertexId(v) == x && AttrOfVertex(snap, v, p) == Some(search) {
      var v :| fromVertexId(v) == x && AttrOfVertex(snap, v, p) == Some(search);
      assert v in IndexLookup(snap, p, search);
    }
  }

  /**
   * When distinct vertices of the snapshot have distinct `fromVertexId` values, the
   * two-predicate `getNodes` returns the ids of exactly the vertices that
   * satisfy both predicates.
   */
  lemma NodesMatchBoth(snap: Snapshot, p1: int, s1: string, p2: int, s2: string,
                       fromVertexId: VertexId -> Int64, x: Int64)
    requires IndexConsistent(snap)
    requires forall u, v :: u in snap.vertices && v in snap.vertices && fromVertexId(u) == fromVertexId(v) ==> u == v
    ensures x in NodeIdsMatching(snap, p1, s1, fromVertexId) * NodeIdsMatching(snap, p2, s2, fromVertexId)
      <==> exists v :: fromVertexId(v) == x && AttrOfVertex(snap, v, p1) == Some(s1) && AttrOfVertex(snap, v, p2) == Some(s2)
  {
    NodesMatchAttribute(snap, p1, s1, fromVertexId, x);
    NodesMatchAttribute(snap, p2, s2, fromVertexId, x);
    if exists v :: fromVertexId(v) == x && AttrOfVertex(snap, v, p1) == Some(s1) && AttrOfVertex(snap, v, p2) == Some(s2) {
      var v :| fromVertexId(v) == x && AttrOfVertex(snap, v, p1) == Some(s1) && AttrOfVertex(snap, v, p2) == Some(s2);
      assert v in IndexLookup(snap, p1, s1) && v in IndexLookup(snap, p2, s2);
    }
  }

  /** An edge survives the attribute filter exactly when its destination matches. */
  lemma {:induction false} EdgesToMatchingMembers(snap: Snapshot, es: seq<Edge>, p: int, search: string)
    ensures forall e :: e in EdgesToMatching(snap, es, p, search) <==> e in es && AttrOfVertex(snap, e.dst, p) == Some(search)
  {
    if es != [] {
      var init, last := es[..|es| - 1], es[|es| - 1];
      assert es == init + [last];
      EdgesToMatchingMembers(snap, init, p, search);
    }
  }

  /**
   * `getNeighborNode` returns, for every edge whose destination has attribute
   * `p` equal to `search`, that destination's id, in enumeration order: the ids
   * are exactly those of the matching destinations, and there are no more of
   * them than `getNeighbors` returns.
   */
  lemma NeighborNodeMembers(snap: Snapshot, es: seq<Edge>, p: int, search: string,
                            fromVertexId: VertexId -> Int64, x: Int64)
    ensures |Destinations(EdgesToMatching(snap, es, p, search), fromVertexId)| <= |Destinations(es, fromVertexId)|
    ensures x in Destinations(EdgesToMatching(snap, es, p, search), fromVertexId)
      <==> exists e :: e in es && AttrOfVertex(snap, e.dst, p) == Some(search) && fromVertexId(e.dst) == x
  {
    var matching := EdgesToMatching(snap, es, p, search);
    InDestinations(matching, fromVertexId, x);
    if exists e :: e in matching && fromVertexId(e.dst) == x {
      var e :| e in matching && fromVertexId(e.dst) == x;
      EdgeMatches(snap, es, p, search, e);
    }
    if exists e :: e in es && AttrOfVertex(snap, e.dst, p) == Some(search) && fromVertexId(e.dst) == x {
      var e :| e in es && AttrOfVertex(snap, e.dst, p) == Some(search) && fromVertexId(e.dst) == x;
      EdgeMatches(snap, es, p, search, e);
    }
  }

  lemma EdgeMatches(snap: Snapshot, es: seq<Edge>, p: int, search: string, e: Edge)
    ensures e in EdgesToMatching(snap, es, p, search) <==> e in es && AttrOfVertex(snap, e.dst, p) == Some(search)
  {
    EdgesToMatchingMembers(snap, es, p, search);
  }

  /** An id is a destination id exactly when some edge leads to a vertex with that id. */
  lemma InDestinations(es: seq<Edge>, fromVertexId: VertexId -> Int64, x: Int64)
    ensures x in Destinations(es, fromVertexId) <==> exists e :: e in es && fromVertexId(e.dst) == x
  {
    var r := Destinations(es, fromVertexId);
    if x in r {
      var i :| 0 <= i < |r| && r[i] == x;
      assert es[i] in es;
    }
    if exists e :: e in es && fromVertexId(e.dst) == x {
      var e :| e in es && fromVertexId(e.dst) == x;
      var i :| 0 <= i < |es| && es[i] == e;
      assert r[i] == x;
    }
  }

  lemma {:induction false} EdgesToMatchingSnoc(snap: Snapshot, es: seq<Edge>, e: Edge, p: int, search: string)
    ensures EdgesToMatching(snap, es + [e], p, search)
      == EdgesToMatching(snap, es, p, search) + (if AttrOfVertex(snap, e.dst, p) == Some(search) then [e] else [])
  {
    assert (es + [e])[..|es|] == es;
  }

  lemma {:induction false} SelectedSnoc(assocs: seq<Assoc>, a: Assoc, dstIds: set<Int64>, low: Int64, high: Int64)
    ensures Selected(assocs + [a], dstIds, low, high)
      == Selected(assocs, dstIds, low, high) + (if a.dstId in dstIds && low <= a.timestamp <= high then [a] else [])
  {
    assert (assocs + [a])[..|assocs|] == assocs;
  }

  lemma {:induction false} InTimeRangeSnoc(assocs: seq<Assoc>, a: Assoc, low: Int64, high: Int64)
    ensures InTimeRange(assocs + [a], low, high)
      == InTimeRange(assocs, low, high) + (if low <= a.timestamp <= high then [a] else [])
  {
    assert (assocs + [a])[..|assocs|] == assocs;
  }

  /** One more edge: `getNeighborNode` appends its destination when it matches. */
  lemma NeighborNodeStep(snap: Snapshot, es: seq<Edge>, i: nat, p: int, search: string, fromVertexId: VertexId -> Int64)
    requires i < |es|
    ensures Destinations(EdgesToMatching(snap, es[..i + 1], p, search), fromVertexId)
      == Destinations(EdgesToMatching(snap, es[..i], p, search), fromVertexId)
        + (if AttrOfVertex(snap, es[i].dst, p) == Some(search) then [fromVertexId(es[i].dst)] else [])
  {
    assert es[..i + 1] == es[..i] + [es[i]];
    EdgesToMatchingSnoc(snap, es[..i], es[i], p, search);
    DestinationsSnoc(EdgesToMatching(snap, es[..i], p, search), es[i], fromVertexId);
  }

  lemma AssocsOfStep(es: seq<Edge>, i: nat, fromVertexId: VertexId -> Int64)
    requires i < |es|
    ensures AssocsOf(es[..i + 1], fromVertexId) == AssocsOf(es[..i], fromVertexId) + [AssocOf(es[i], fromVertexId)]
  {
    assert es[..i + 1][..i] == es[..i];
  }

  /** One more edge: `assocGet` appends its association when it is selected. */
  lemma SelectedStep(es: seq<Edge>, i: nat, fromVertexId: VertexId -> Int64, dstIds: set<Int64>, low: Int64, high: Int64)
    requires i < |es|
    ensures Selected(AssocsOf(es[..i + 1], fromVertexId), dstIds, low, high)
      == Selected(AssocsOf(es[..i], fromVertexId), dstIds, low, high)
        + (if fromVertexId(es[i].dst) in dstIds && low <= es[i].timestamp <= high then [AssocOf(es[i], fromVertexId)] else [])
  {
    AssocsOfStep(es, i, fromVertexId);
    SelectedSnoc(AssocsOf(es[..i], fromVertexId), AssocOf(es[i], fromVertexId), dstIds, low, high);
  }

  /** One more edge: `assocTimeRange` appends its association when it is in range. */
  lemma InTimeRangeStep(es: seq<Edge>, i: nat, fromVertexId: VertexId -> Int64, low: Int64, high: Int64)
    requires i < |es|
    ensures InTimeRange(AssocsOf(es[..i + 1], fromVertexId), low, high)
      == InTimeRange(AssocsOf(es[..i], fromVertexId), low, high)
        + (if low <= es[i].timestamp <= high then [AssocOf(es[i], fromVertexId)] else [])
  {
    AssocsOfStep(es, i, fromVertexId);
    InTimeRangeSnoc(AssocsOf(es[..i], fromVertexId), AssocOf(es[i], fromVertexId), low, high);
  }

  /** One more index hit: `getNodes` adds its id. */
  lemma NodeIdsStep(hits: seq<VertexId>, i: nat, fromVertexId: VertexId -> Int64)
    requires i < |hits|
    ensures (set v | v in hits[..i + 1] :: fromVertexId(v))
      == (set v | v in hits[..i] :: fromVertexId(v)) + {fromVertexId(hits[i])}
  {
    assert hits[..i + 1] == hits[..i] + [hits[i]];
    var bigger := set v | v in hits[..i + 1] :: fromVertexId(v);
    var smaller := set v | v in hits[..i] :: fromVertexId(v);
    forall x | x in bigger ensures x in smaller + {fromVertexId(hits[i])} {
      var v :| v in hits[..i + 1] && fromVertexId(v) == x;
      assert v in hits[..i] || v == hits[i];
    }
    forall x | x in smaller + {fromVertexId(hits[i])} ensures x in bigger {
      if x in smaller {
        var v :| v in hits[..i] && fromVertexId(v) == x;
        assert v in hits[..i + 1];
      } else {
        assert hits[..i + 1][i] == hits[i];
        assert x == fromVertexId(hits[i]);
      }
    }
  }

  /**
   * `getNeighborNode` returns a subsequence of what `getNeighbors` returns:
   * some of its ids left out, the others in their order.
   */
  lemma NeighborNodeIsSubsequence(snap: Snapshot, es: seq<Edge>, p: int, search: string, fromVertexId: VertexId -> Int64)
    ensures IsSubsequence(Destinations(EdgesToMatching(snap, es, p, search), fromVertexId), Destinations(es, fromVertexId))
  {
    DestinationsOfSubsequence(EdgesToMatching(snap, es, p, search), es, fromVertexId);
  }

  /** Taking destinations keeps a subsequence a subsequence. */
  lemma {:induction false} DestinationsOfSubsequence(a: seq<Edge>, b: seq<Edge>, fromVertexId: VertexId -> Int64)
    requires IsSubsequence(a, b)
    ensures IsSubsequence(Destinations(a, fromVertexId), Destinations(b, fromVertexId))
    decreases |b|
  {
    if a == [] {
    } else if b != [] && a[|a| - 1] == b[|b| - 1] && IsSubsequence(a[..|a| - 1], b[..|b| - 1]) {
      DestinationsOfSubsequence(a[..|a| - 1], b[..|b| - 1], fromVertexId);
      SubsequenceSnoc(Destinations(a[..|a| - 1], fromVertexId), Destinations(b[..|b| - 1], fromVertexId), fromVertexId(b[|b| - 1].dst));
    } else {
      DestinationsOfSubsequence(a, b[..|b| - 1], fromVertexId);
      SubsequenceSkip(Destinations(a, fromVertexId), Destinations(b[..|b| - 1], fromVertexId), fromVertexId(b[|b| - 1].dst));
    }
  }

  /**
   * With associations ordered by their own timestamp, `assocRange` returns
   * its window latest first, and `assocTimeRange` its prefix likewise.
   */
  lemma TimestampOrderWindows(assocs: seq<Assoc>, offset: Int32, length: Int32, limit: Int32)
    ensures var r := AssocRange(assocs, AssocTimestamp, offset, length);
      r.Ok? ==> forall i, j :: 0 <= i < j < |r.value| ==> r.value[i].timestamp >= r.value[j].timestamp
    ensures var r := FirstSorted(assocs, AssocTimestamp, limit);
      r.Ok? ==> forall i, j :: 0 <= i < j < |r.value| ==> r.value[i].timestamp >= r.value[j].timestamp
  {
    var r := AssocRange(assocs, AssocTimestamp, offset, length);
    if r.Ok? {
      forall i, j | 0 <= i < j < |r.value| ensures r.value[i].timestamp >= r.value[j].timestamp {
        assert AssocTimestamp(r.value[i]) >= AssocTimestamp(r.value[j]);
      }
    }
    var t := FirstSorted(assocs, AssocTimestamp, limit);
    if t.Ok? {
      forall i, j | 0 <= i < j < |t.value| ensures t.value[i].timestamp >= t.value[j].timestamp {
        assert AssocTimestamp(t.value[i]) >= AssocTimestamp(t.value[j]);
      }
    }
  }
}
