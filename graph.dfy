/**
 * `Graph`: one client of the benchmark graph.  It holds the snapshot of the
 * backend its current transaction reads (`txn`), the configuration it was
 * built with and the table `intToAtype` from association type number to the
 * backend's edge-label handle.  Every query is a loop over one vertex's
 * outgoing edges that appends to a list, sometimes followed by a stable sort
 * and a window; each is proved equal to its reference definition in module
 * Queries, where the properties of those definitions are proved.
 */
module GraphModel {
  import opened Backend
  import opened Sorting
  import opened Queries

  class Graph {
    /** The snapshot the current transaction reads. */
    var txn: Snapshot

    const numAtypes: nat
    const numProperties: Int32
    /** 1 when application ids start at 0 (`zero_indexed`), else 0. */
    const offset: int
    const intToAtype: array<Label>
    /**
     * `TitanId.toVertexId` and `TitanId.fromVertexID`, left uninterpreted;
     * the queries return `fromVertexId` of a vertex with no offset taken off.
     */
    const toVertexId: Int64 -> VertexId
    const fromVertexId: VertexId -> Int64
    /** The order `Collections.sort` puts associations in: largest key first. */
    const assocKey: Assoc -> int

    ghost predicate Valid()
    {
      intToAtype.Length == numAtypes && (offset == 0 || offset == 1)
    }

    /**
     * Builds the client: `edgeLabel(i)` is the handle the backend has for the
     * label named by the decimal digits of `i`.
     */
    constructor (snap: Snapshot, numAtypes: nat, numProperties: Int32, zeroIndexed: bool,
                 edgeLabel: int -> Label, toVertexId: Int64 -> VertexId,
                 fromVertexId: VertexId -> Int64, assocKey: Assoc -> int)
      ensures Valid()
      ensures txn == snap
      ensures this.numAtypes == numAtypes && this.numProperties == numProperties
      ensures offset == (if zeroIndexed then 1 else 0)
      ensures forall i :: 0 <= i < numAtypes ==> intToAtype[i] == edgeLabel(i)
      ensures this.toVertexId == toVertexId && this.fromVertexId == fromVertexId && this.assocKey == assocKey
      ensures fresh(intToAtype)
    {
      var table := new Label[numAtypes];
      for i := 0 to numAtypes
        invariant forall j :: 0 <= j < i ==> table[j] == edgeLabel(j)
      {
        table[i] := edgeLabel(i);
      }
      this.numAtypes := numAtypes;
      this.numProperties := numProperties;
      offset := if zeroIndexed then 1 else 0;
      intToAtype := table;
      this.toVertexId := toVertexId;
      this.fromVertexId := fromVertexId;
      this.assocKey := assocKey;
      txn := snap;
    }

    /** Starts a new transaction, which reads `next`. */
    method RestartTransaction(next: Snapshot)
      modifies this
      ensures txn == next
    {
      txn := next;
    }

    /** The backend key of application id `id`: `id + offset` in `long` arithmetic. */
    function BackendKey(id: Int64): (key: Int64)
      reads this
      ensures offset == 0 ==> key == id
      ensures offset == 1 && id < 0x7FFF_FFFF_FFFF_FFFF ==> key == id + 1
      ensures offset == 1 && id == 0x7FFF_FFFF_FFFF_FFFF ==> key == -0x8000_0000_0000_0000
    {
      WrapInt64(id + offset)
    }

    /** `getNode`: the vertex of application id `id`, if the snapshot has one. */
    function GetNode(id: Int64): (r: Option<Vertex>)
      reads this
      ensures r.None? <==> toVertexId(BackendKey(id)) !in txn.vertices
      ensures r.Some? ==> r.value == txn.vertices[toVertexId(BackendKey(id))]
      ensures r.Some? ==> r.value in txn.vertices.Values
    {
      var v := toVertexId(BackendKey(id));
      if v in txn.vertices then Some(txn.vertices[v]) else None
    }

    /**
     * The backend key is `id + offset`, except that with ids starting at 0 the
     * largest `long` id wraps to the smallest; distinct ids get distinct keys.
     */
    lemma BackendKeyShift(id: Int64, other: Int64)
      requires Valid()
      ensures BackendKey(id) == (if id + offset < 0x8000_0000_0000_0000 then id + offset else -0x8000_0000_0000_0000)
      ensures id != other ==> BackendKey(id) != BackendKey(other)
    {
    }

    /** `getNeighbors`: the id of every edge's destination, one per edge, in order. */
    method GetNeighbors(id: Int64) returns (r: Result<seq<Int64>>)
      ensures GetNode(id).None? ==> r == Err(NotFound)
      ensures GetNode(id).Some? ==> r == Ok(Destinations(GetNode(id).value.out, fromVertexId))
    {
      var node := GetNode(id);
      if node.None? {
        return Err(NotFound);
      }
      var edges := node.value.out;
      var neighbors: seq<Int64> := [];
      for i := 0 to |edges|
        invariant |neighbors| == i
        invariant forall j :: 0 <= j < i ==> neighbors[j] == fromVertexId(edges[j].dst)
      {
        neighbors := neighbors + [fromVertexId(edges[i].dst)];
      }
      assert neighbors == Destinations(edges, fromVertexId);
      return Ok(neighbors);
    }

    /** `getNodes(propIdx, search)`: the ids the attribute index returns. */
    method GetNodes(propIdx: Int32, search: string) returns (nodeIds: set<Int64>)
      ensures nodeIds == NodeIdsMatching(txn, propIdx, search, fromVertexId)
    {
      nodeIds := {};
      var hits := IndexLookup(txn, propIdx, search);
      for i := 0 to |hits|
        invariant nodeIds == set v | v in hits[..i] :: fromVertexId(v)
      {
        NodeIdsStep(hits, i, fromVertexId);
        nodeIds := nodeIds + {fromVertexId(hits[i])};
      }
      assert hits[..|hits|] == hits;
    }

    /** `ids1.retainAll(ids2)`: keeps the elements of `ids1` that `ids2` holds. */
    method RetainAll(ids1: set<Int64>, ids2: set<Int64>) returns (r: set<Int64>)
      ensures r == ids1 * ids2
    {
      r := {};
      var rest := ids1;
      while rest != {}
        invariant rest <= ids1
        invariant r == (ids1 - rest) * ids2
        decreases |rest|
      {
        var x :| x in rest;
        if x in ids2 {
          r := r + {x};
        }
        rest := rest - {x};
      }
    }

    /** The two-predicate `getNodes`: the ids that both lookups return. */
    method GetNodesBoth(propIdx1: Int32, search1: string, propIdx2: Int32, search2: string)
      returns (r: set<Int64>)
      ensures r == NodeIdsMatching(txn, propIdx1, search1, fromVertexId) * NodeIdsMatching(txn, propIdx2, search2, fromVertexId)
    {
      var ids1 := GetNodes(propIdx1, search1);
      var ids2 := GetNodes(propIdx2, search2);
      r := RetainAll(ids1, ids2);
    }

    /** The destination ids of the edges whose destination has attribute `propIdx` equal to `search`. */
    method CollectMatching(snap: Snapshot, edges: seq<Edge>, propIdx: Int32, search: string) returns (result: seq<Int64>)
      ensures result == Destinations(EdgesToMatching(snap, edges, propIdx, search), fromVertexId)
    {
      result := [];
      for i := 0 to |edges|
        invariant result == Destinations(EdgesToMatching(snap, edges[..i], propIdx, search), fromVertexId)
      {
        NeighborNodeStep(snap, edges, i, propIdx, search, fromVertexId);
        var neighbor := edges[i].dst;
        if AttrOfVertex(snap, neighbor, propIdx) == Some(search) {
          result := result + [fromVertexId(neighbor)];
        }
      }
      assert edges[..|edges|] == edges;
    }

    /** `getNeighborNode`: the destinations whose attribute `propIdx` is `search`. */
    method GetNeighborNode(id: Int64, propIdx: Int32, search: string) returns (r: Result<seq<Int64>>)
      ensures GetNode(id).None? ==> r == Err(NotFound)
      ensures GetNode(id).Some? ==>
        r == Ok(Destinations(EdgesToMatching(txn, GetNode(id).value.out, propIdx, search), fromVertexId))
    {
      var node := GetNode(id);
      if node.None? {
        return Err(NotFound);
      }
      var result := CollectMatching(txn, node.value.out, propIdx, search);
      return Ok(result);
    }

    /** The outgoing edges of the vertex that carry association type `atype`. */
    function EdgesOfType(node: Vertex, atype: Int32): (r: seq<Edge>)
      requires 0 <= atype < intToAtype.Length
      reads this, intToAtype
      ensures forall e :: e in r <==> e in node.out && e.edgeLabel == intToAtype[atype]
      ensures forall e :: multiset(r)[e] == if e.edgeLabel == intToAtype[atype] then multiset(node.out)[e] else 0
      ensures IsSubsequence(r, node.out)
    {
      EdgesLabelled(node.out, intToAtype[atype])
    }

    /** One `TimestampedId` per edge: the edge's timestamp and its destination's id. */
    method CollectStamped(edges: seq<Edge>) returns (neighbors: seq<TimestampedId>)
      ensures neighbors == Stamped(edges, fromVertexId)
    {
      neighbors := [];
      for i := 0 to |edges|
        invariant |neighbors| == i
        invariant forall j :: 0 <= j < i ==> neighbors[j] == TimestampedId(edges[j].timestamp, fromVertexId(edges[j].dst))
      {
        neighbors := neighbors + [TimestampedId(edges[i].timestamp, fromVertexId(edges[i].dst))];
      }
    }

    /** The ids of the sorted neighbours, in order. */
    method CollectIds(neighbors: seq<TimestampedId>) returns (result: seq<Int64>)
      ensures result == Ids(neighbors)
    {
      result := [];
      for i := 0 to |neighbors|
        invariant |result| == i
        invariant forall j :: 0 <= j < i ==> result[j] == neighbors[j].id
      {
        result := result + [neighbors[i].id];
      }
    }

    /**
     * `getNeighborAtype`: the destinations of the edges of type `atypeIdx`,
     * latest edge timestamp first.
     */
    method GetNeighborAtype(id: Int64, atypeIdx: Int32) returns (r: Result<seq<Int64>>)
      requires Valid()
      ensures !(0 <= atypeIdx < numAtypes) ==> r == Err(IndexOutOfBounds)
      ensures 0 <= atypeIdx < numAtypes && GetNode(id).None? ==> r == Err(NotFound)
      ensures 0 <= atypeIdx < numAtypes && GetNode(id).Some? ==>
        r == Ok(NeighborsByTime(EdgesOfType(GetNode(id).value, atypeIdx), fromVertexId))
    {
      if !(0 <= atypeIdx < intToAtype.Length) {
        return Err(IndexOutOfBounds);
      }
      var node := GetNode(id);
      if node.None? {
        return Err(NotFound);
      }
      var edges := EdgesLabelled(node.value.out, intToAtype[atypeIdx]);
      var neighbors := CollectStamped(edges);
      neighbors := InsertionSort(neighbors, Stamp);
      var result := CollectIds(neighbors);
      return Ok(result);
    }

    /**
     * `objGet`: attributes `attr0 .. attr(numProperties - 1)` of the vertex,
     * `None` where the vertex has no such attribute.  The vertex is only
     * dereferenced inside the loop, so with no properties configured a
     * missing vertex is not an error.
     */
    method ObjGet(id: Int64) returns (r: Result<seq<Option<string>>>)
      ensures r.Err? <==> numProperties > 0 && GetNode(id).None?
      ensures r.Err? ==> r.failure == NotFound
      ensures r.Ok? ==> |r.value| == (if numProperties < 0 then 0 else numProperties)
      ensures r.Ok? ==> forall i :: 0 <= i < |r.value| ==> r.value[i] == Attr(GetNode(id).value, i)
    {
      var node := GetNode(id);
      var results: seq<Option<string>> := [];
      var propIdx := 0;
      while propIdx < numProperties
        invariant 0 <= propIdx && (numProperties >= 0 ==> propIdx <= numProperties)
        invariant numProperties < 0 ==> propIdx == 0
        invariant propIdx > 0 ==> node.Some?
        invariant |results| == propIdx
        invariant forall i :: 0 <= i < propIdx ==> results[i] == Attr(node.value, i)
      {
        if node.None? {
          return Err(NotFound);
        }
        results := results + [Attr(node.value, propIdx)];
        propIdx := propIdx + 1;
      }
      return Ok(results);
    }

    /** One association per edge of type `atype`, in enumeration order. */
    method CollectAssocs(edges: seq<Edge>) returns (assocs: seq<Assoc>)
      ensures assocs == AssocsOf(edges, fromVertexId)
    {
      assocs := [];
      for i := 0 to |edges|
        invariant |assocs| == i
        invariant forall j :: 0 <= j < i ==> assocs[j] == AssocOf(edges[j], fromVertexId)
      {
        assocs := assocs + [AssocOf(edges[i], fromVertexId)];
      }
    }

    /**
     * `assocRange`: the associations of type `atype` in sorted order, from
     * position `offset`, at most `length` of them.
     */
    method AssocRange(id: Int64, atype: Int32, offset: Int32, length: Int32) returns (r: Result<seq<Assoc>>)
      requires Valid()
      ensures !(0 <= atype < numAtypes) ==> r == Err(IndexOutOfBounds)
      ensures 0 <= atype < numAtypes && GetNode(id).None? ==> r == Err(NotFound)
      ensures 0 <= atype < numAtypes && GetNode(id).Some? ==>
        r == Queries.AssocRange(AssocsOf(EdgesOfType(GetNode(id).value, atype), fromVertexId), assocKey, offset, length)
    {
      if !(0 <= atype < intToAtype.Length) {
        return Err(IndexOutOfBounds);
      }
      var node := GetNode(id);
      if node.None? {
        return Err(NotFound);
      }
      var assocs := CollectAssocs(EdgesLabelled(node.value.out, intToAtype[atype]));
      r := SortedWindow(assocs, offset, length);
    }

    /**
     * The window of `assocRange`: nothing for an offset outside the list
     * (checked before sorting), else `subList(offset, min(n, offset + length))`
     * of the sorted list.
     */
    method SortedWindow(assocs: seq<Assoc>, offset: Int32, length: Int32) returns (r: Result<seq<Assoc>>)
      ensures r == Queries.AssocRange(assocs, assocKey, offset, length)
    {
      if offset < 0 || offset >= |assocs| {
        return Ok([]);
      }
      var sorted := InsertionSort(assocs, assocKey);
      var to := Min(|sorted|, WrapInt32(offset + length));
      if to < offset {
        return Err(IllegalArgument);
      }
      return Ok(sorted[offset..to]);
    }

    /**
     * `assocGet`: the associations of type `atype` whose destination is in
     * `dstIdSet` and whose timestamp is in [low, high], sorted.
     */
    method AssocGet(id: Int64, atype: Int32, dstIdSet: set<Int64>, low: Int64, high: Int64)
      returns (r: Result<seq<Assoc>>)
      requires Valid()
      ensures !(0 <= atype < numAtypes) ==> r == Err(IndexOutOfBounds)
      ensures 0 <= atype < numAtypes && GetNode(id).None? ==> r == Err(NotFound)
      ensures 0 <= atype < numAtypes && GetNode(id).Some? ==>
        r == Ok(SortDesc(Selected(AssocsOf(EdgesOfType(GetNode(id).value, atype), fromVertexId), dstIdSet, low, high), assocKey))
    {
      if !(0 <= atype < intToAtype.Length) {
        return Err(IndexOutOfBounds);
      }
      var node := GetNode(id);
      if node.None? {
        return Err(NotFound);
      }
      var edges := EdgesLabelled(node.value.out, intToAtype[atype]);
      var assocs: seq<Assoc> := [];
      for i := 0 to |edges|
        invariant assocs == Selected(AssocsOf(edges[..i], fromVertexId), dstIdSet, low, high)
      {
        SelectedStep(edges, i, fromVertexId, dstIdSet, low, high);
        if fromVertexId(edges[i].dst) in dstIdSet {
          var assoc := AssocOf(edges[i], fromVertexId);
          if assoc.timestamp >= low && assoc.timestamp <= high {
            assocs := assocs + [assoc];
          }
        }
      }
      assert edges[..|edges|] == edges;
      assocs := InsertionSort(assocs, assocKey);
      return Ok(assocs);
    }

    /** `assocCount`: the number of edges of type `atype`. */
    method AssocCount(id: Int64, atype: Int32) returns (r: Result<nat>)
      requires Valid()
      ensures !(0 <= atype < numAtypes) ==> r == Err(IndexOutOfBounds)
      ensures 0 <= atype < numAtypes && GetNode(id).None? ==> r == Err(NotFound)
      ensures 0 <= atype < numAtypes && GetNode(id).Some? ==>
        r == Ok(|AssocsOf(EdgesOfType(GetNode(id).value, atype), fromVertexId)|)
    {
      if !(0 <= atype < intToAtype.Length) {
        return Err(IndexOutOfBounds);
      }
      var node := GetNode(id);
      if node.None? {
        return Err(NotFound);
      }
      var edges := EdgesLabelled(node.value.out, intToAtype[atype]);
      var count := 0;
      for i := 0 to |edges|
        invariant count == i
      {
        count := count + 1;
      }
      return Ok(count);
    }

    /**
     * `assocTimeRange`: the first `limit` associations of type `atype` whose
     * timestamp is in [low, high], in sorted order.
     */
    method AssocTimeRange(id: Int64, atype: Int32, low: Int64, high: Int64, limit: Int32)
      returns (r: Result<seq<Assoc>>)
      requires Valid()
      ensures !(0 <= atype < numAtypes) ==> r == Err(IndexOutOfBounds)
      ensures 0 <= atype < numAtypes && GetNode(id).None? ==> r == Err(NotFound)
      ensures 0 <= atype < numAtypes && GetNode(id).Some? ==>
        r == FirstSorted(InTimeRange(AssocsOf(EdgesOfType(GetNode(id).value, atype), fromVertexId), low, high), assocKey, limit)
    {
      if !(0 <= atype < intToAtype.Length) {
        return Err(IndexOutOfBounds);
      }
      var node := GetNode(id);
      if node.None? {
        return Err(NotFound);
      }
      var edges := EdgesLabelled(node.value.out, intToAtype[atype]);
      var assocs: seq<Assoc> := [];
      for i := 0 to |edges|
        invariant assocs == InTimeRange(AssocsOf(edges[..i], fromVertexId), low, high)
      {
        InTimeRangeStep(edges, i, fromVertexId, low, high);
        var assoc := AssocOf(edges[i], fromVertexId);
        if assoc.timestamp >= low && assoc.timestamp <= high {
          assocs := assocs + [assoc];
        }
      }
      assert edges[..|edges|] == edges;
      assocs := InsertionSort(assocs, assocKey);
      var to := Min(limit, |assocs|);
      if to < 0 {
        return Err(IllegalArgument);
      }
      return Ok(assocs[..to]);
    }
  }
}
