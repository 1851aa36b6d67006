# Graph queries of the Titan benchmark client

`Graph` is the client that the titan-benchmark drives. It answers TAO-style
read queries against a Titan graph. Each query works on one node's outgoing
edges:

- list the neighbours;
- list the neighbours whose attribute matches a value;
- list the neighbours of one association type, latest edge first;
- read a node's attributes;
- range, filter, count and time-window the associations of one type.

It also offers a lookup of the nodes whose attribute has a given value, for
one attribute or for two attributes at once.

The model splits this into four modules:

- `Backend` (backend.dfy): the backend as one read-only snapshot value.
  - A snapshot has vertices with attributes and ordered outgoing edges, and an
    attribute index.
  - It defines Java `int` and `long`, with their two's-complement wrap-around.
  - It defines failures as values: a missing vertex, which is a
    `NullPointerException` in `Graph`; a `subList` with an end below its
    start; an association type outside the table.
- `Sorting` (sorting.dfy): the stable descending sort that every ordered query
  uses.
  - `SortDesc` is the reference definition. `InsertionSort` is the imperative
    sort, proved equal to it.
  - The lemmas prove that `SortDesc` is a permutation, is sorted, and is stable.
  - They also prove it is the only sequence with those properties, so it agrees
    with any stable sort, including `Collections.sort`.
- `Queries` (queries.dfy): reference definitions of what each query computes,
  and the properties the queries promise.
- `GraphModel` (graph.dfy): `class Graph`, which holds:
  - the transaction's snapshot `txn`;
  - the configuration;
  - the `intToAtype` array.

  Each query is a method whose loops append to a list or count, then sort and
  take a window. Each method is proved equal to its reference definition.

Association types are numbers `0 .. numAtypes - 1`, and `intToAtype[i]` is the
backend's label handle for type `i`. The application id `id` names the vertex
`toVertexId(id + offset)`. Here `offset` is 1 when application ids start at 0
and 0 otherwise, and the addition is `long` arithmetic. The ids the queries
return are `fromVertexId` of the vertex, with no offset correction: the
model does not relate them to the ids `getNode` accepts.

`getNeighborAtype` orders neighbours by the `timestamp` property of the edge
that leads to each one, not of the neighbour vertex. The model follows that
code.

## Model

| member | source | states |
|---|---|---|
| Backend.WrapInt32 | src/main/java/edu/berkeley/cs/titan/Graph.java:136 | `offset + length` in `int` arithmetic: unchanged inside the `int` range, reduced by 2^32 just above it |
| Backend.WrapInt64 | src/main/java/edu/berkeley/cs/titan/Graph.java:211 | `id + offset` in `long` arithmetic: unchanged inside the `long` range, reduced by 2^64 just above it |
| Backend.EdgesLabelled | src/main/java/edu/berkeley/cs/titan/Graph.java:98 | the outgoing edges of one label: every edge that carries that label, as often as it occurs, in enumeration order (a subsequence of the edges), and no other edge |
| Sorting.SortDesc | src/main/java/edu/berkeley/cs/titan/Graph.java:104 | the sorted list is a permutation of its input and no element is followed by one with a larger key |
| Sorting.SortIsStable | src/main/java/edu/berkeley/cs/titan/Graph.java:104 | sorting keeps the relative order of the elements of every key |
| Sorting.StableSortIsSortDesc | src/main/java/edu/berkeley/cs/titan/Graph.java:135 | any sequence that is sorted largest key first and keeps the order of each key's elements is `SortDesc` of its input, so `Collections.sort` and the model's sort return the same list |
| Sorting.InsertionSort | src/main/java/edu/berkeley/cs/titan/Graph.java:152 | the imperative insertion sort returns `SortDesc` of its input |
| Queries.TimestampedId.CompareTo | src/main/java/edu/berkeley/cs/titan/Graph.java:224-227 | negative exactly when this timestamp is larger, zero exactly when the timestamps are equal, positive exactly when it is smaller: larger timestamp comes first |
| Queries.SortedByCompareTo | src/main/java/edu/berkeley/cs/titan/Graph.java:104 | a list sorted by timestamp, largest first, is in `compareTo` order |
| Queries.Destinations | src/main/java/edu/berkeley/cs/titan/Graph.java:61-63 | one id per edge, the i-th being the id of the i-th edge's destination |
| Queries.Stamped | src/main/java/edu/berkeley/cs/titan/Graph.java:98-103 | one `TimestampedId` per edge, with that edge's timestamp and destination id |
| Queries.Ids | src/main/java/edu/berkeley/cs/titan/Graph.java:106-109 | the ids of the list, one per element, in order |
| Queries.AssocsOf | src/main/java/edu/berkeley/cs/titan/Graph.java:130-132 | one association per edge, in enumeration order |
| Queries.AssocOf | src/main/java/edu/berkeley/cs/titan/Graph.java:131 | the association of an edge carries the edge's label, its destination's `fromVertexId` and the edge's timestamp |
| Queries.Selected | src/main/java/edu/berkeley/cs/titan/Graph.java:144-151 | an association is kept, as often as it occurs and in order (a subsequence), exactly when its destination is in the set and its timestamp is in [low, high]; every other one is dropped |
| Queries.InTimeRange | src/main/java/edu/berkeley/cs/titan/Graph.java:170-175 | an association is kept, as often as it occurs and in order (a subsequence), exactly when its timestamp is in [low, high]; every other one is dropped |
| Queries.TimestampOrderWindows | src/main/java/edu/berkeley/cs/titan/Graph.java:134-136 | with associations ordered by their own timestamp, the windows of `assocRange` and `assocTimeRange` are latest first |
| Queries.AssocRange | src/main/java/edu/berkeley/cs/titan/Graph.java:134-136 | empty for an offset outside the list; an `IllegalArgument` error exactly when the offset is inside and `length` is negative or `offset + length` overflows `int`; otherwise elements [offset, min(n, offset + length)) of the sorted list, sorted |
| Queries.FirstSorted | src/main/java/edu/berkeley/cs/titan/Graph.java:176-177 | an `IllegalArgument` error exactly when `limit` is negative; otherwise the first min(limit, n) elements of the sorted list, at most `limit` of them |
| Queries.IdsOfSort | src/main/java/edu/berkeley/cs/titan/Graph.java:104-109 | sorting the neighbours permutes their ids |
| Queries.NeighborsByTime | src/main/java/edu/berkeley/cs/titan/Graph.java:95-111 | `getNeighborAtype` on the edges of the type: one id per edge, a permutation of the edges' destination ids |
| Queries.NeighborsByTimeOrder | src/main/java/edu/berkeley/cs/titan/Graph.java:95-111 | `getNeighborAtype` returns a permutation of the edges' destination ids, in `compareTo` order, with equal timestamps in enumeration order |
| Queries.EmptyInterval | src/main/java/edu/berkeley/cs/titan/Graph.java:147 | with low > high no association passes the time filter |
| Queries.AssocGetResult | src/main/java/edu/berkeley/cs/titan/Graph.java:140-154 | `assocGet` returns a sorted permutation of exactly the associations with a selected destination and a timestamp in [low, high], and nothing when low > high |
| Queries.CountIsRangeLength | src/main/java/edu/berkeley/cs/titan/Graph.java:156-163 | the count is the length of the list `assocRange` sorts, and the window [0, count) of `assocRange` is that whole sorted list |
| Queries.NodeIdsMatching | src/main/java/edu/berkeley/cs/titan/Graph.java:67-74 | `fromVertexId` of every vertex the index returns, and no other id |
| Queries.NodesMatchAttribute | src/main/java/edu/berkeley/cs/titan/Graph.java:67-74 | with an index that agrees with the attributes, `getNodes` returns the ids of exactly the vertices whose attribute equals the value |
| Queries.NodesMatchBoth | src/main/java/edu/berkeley/cs/titan/Graph.java:76-81 | when the snapshot's vertices have distinct `fromVertexId` values, the two-predicate `getNodes` returns the ids of exactly the vertices that satisfy both predicates |
| Queries.EdgesToMatching | src/main/java/edu/berkeley/cs/titan/Graph.java:86-90 | every edge whose destination's attribute equals `search`, as often as it occurs and in order (a subsequence of the edges), and no other edge |
| Queries.EdgesToMatchingMembers | src/main/java/edu/berkeley/cs/titan/Graph.java:86-90 | an edge is kept exactly when its destination's attribute equals `search` |
| Queries.NeighborNodeMembers | src/main/java/edu/berkeley/cs/titan/Graph.java:83-93 | `getNeighborNode` returns exactly the ids of matching destinations, no more of them than `getNeighbors` returns |
| Queries.NeighborNodeIsSubsequence | src/main/java/edu/berkeley/cs/titan/Graph.java:83-93 | `getNeighborNode` returns a subsequence of what `getNeighbors` returns: some ids left out, the rest in their order |
| Queries.InDestinations | src/main/java/edu/berkeley/cs/titan/Graph.java:61-63 | an id is among the destination ids exactly when some edge leads to a vertex with that id |
| GraphModel.Graph.constructor | src/main/java/edu/berkeley/cs/titan/Graph.java:41-47 | `intToAtype` has `numAtypes` entries, entry i being the label named i; `offset` is 1 for zero-indexed ids, else 0 |
| GraphModel.Graph.RestartTransaction | src/main/java/edu/berkeley/cs/titan/Graph.java:53-56 | the client reads the new transaction's snapshot |
| GraphModel.Graph.BackendKey | src/main/java/edu/berkeley/cs/titan/Graph.java:211 | `id + offset` in `long` arithmetic: `id` for offset 0, `id + 1` for offset 1, and the largest `long` wraps to the smallest |
| GraphModel.Graph.GetNode | src/main/java/edu/berkeley/cs/titan/Graph.java:210-212 | no vertex exactly when the snapshot has none under `toVertexId` of the backend key, else the vertex stored under that key |
| GraphModel.Graph.BackendKeyShift | src/main/java/edu/berkeley/cs/titan/Graph.java:210-212 | the backend key is `id + offset`, except that the largest `long` id wraps to the smallest when ids start at 0; distinct ids get distinct keys |
| GraphModel.Graph.GetNeighbors | src/main/java/edu/berkeley/cs/titan/Graph.java:58-65 | the id of every outgoing edge's destination, one per edge, in order; `NotFound` for a missing node |
| GraphModel.Graph.GetNodes | src/main/java/edu/berkeley/cs/titan/Graph.java:67-74 | the set of the ids of the vertices the index lookup returns |
| GraphModel.Graph.RetainAll | src/main/java/edu/berkeley/cs/titan/Graph.java:79 | the intersection of the two sets |
| GraphModel.Graph.GetNodesBoth | src/main/java/edu/berkeley/cs/titan/Graph.java:76-81 | the intersection of the two single-predicate results |
| GraphModel.Graph.CollectMatching | src/main/java/edu/berkeley/cs/titan/Graph.java:86-91 | the loop collects the destination ids of the matching edges, in order |
| GraphModel.Graph.GetNeighborNode | src/main/java/edu/berkeley/cs/titan/Graph.java:83-93 | the ids of the destinations whose attribute equals `search`, in edge order; `NotFound` for a missing node |
| GraphModel.Graph.EdgesOfType | src/main/java/edu/berkeley/cs/titan/Graph.java:98 | the node's outgoing edges that carry the label handle of type `atype`, each as often as in the node's list, in order, and no other edge |
| GraphModel.Graph.CollectStamped | src/main/java/edu/berkeley/cs/titan/Graph.java:98-103 | the loop builds one `TimestampedId` per edge of the type |
| GraphModel.Graph.CollectIds | src/main/java/edu/berkeley/cs/titan/Graph.java:106-109 | the loop copies the ids of the sorted list, in order |
| GraphModel.Graph.GetNeighborAtype | src/main/java/edu/berkeley/cs/titan/Graph.java:95-111 | `IndexOutOfBounds` for a type outside the table, then `NotFound` for a missing node, else the ids of the edges of the type sorted by edge timestamp |
| GraphModel.Graph.ObjGet | src/main/java/edu/berkeley/cs/titan/Graph.java:117-124 | exactly `numProperties` attribute values, the i-th being `attr<i>` (absent is `None`); `NotFound` only when the node is missing and at least one property is read |
| GraphModel.Graph.CollectAssocs | src/main/java/edu/berkeley/cs/titan/Graph.java:130-132 | the loop builds one association per edge of the type |
| GraphModel.Graph.SortedWindow | src/main/java/edu/berkeley/cs/titan/Graph.java:134-136 | the early empty return, the sort and the `subList` window agree with `Queries.AssocRange` |
| GraphModel.Graph.AssocRange | src/main/java/edu/berkeley/cs/titan/Graph.java:126-137 | `IndexOutOfBounds`, then `NotFound`, else `Queries.AssocRange` of the node's associations of the type |
| GraphModel.Graph.AssocGet | src/main/java/edu/berkeley/cs/titan/Graph.java:140-154 | `IndexOutOfBounds`, then `NotFound`, else the sorted selected associations |
| GraphModel.Graph.AssocCount | src/main/java/edu/berkeley/cs/titan/Graph.java:156-163 | `IndexOutOfBounds`, then `NotFound`, else the number of edges of the type |
| GraphModel.Graph.AssocTimeRange | src/main/java/edu/berkeley/cs/titan/Graph.java:165-178 | `IndexOutOfBounds`, then `NotFound`, else the first `limit` of the sorted associations with a timestamp in [low, high] |

## Left out

- The Titan/Cassandra backend is replaced by an immutable snapshot value. This covers opening the graph, transactions, `getTitanEdges`, `getVertices` and property reads.
- The constructor's configuration files and its process-wide shared graph are left out. `numAtypes`, `numProperties`, `zero_indexed` and the label lookup are constructor parameters.
- A negative `atype.total` is not modelled: the array allocation would throw. `numAtypes` is a `nat`.
- A label the backend does not know is not modelled. `Graph` would store `null` in `intToAtype`; the model's `edgeLabel` function is total.
- `TitanId.toVertexId` and `TitanId.fromVertexID` are uninterpreted functions, and nothing is assumed about them. `Queries.NodesMatchBoth` takes as a hypothesis that `fromVertexId` is injective on the snapshot's vertices.
- The model does not relate the two id spaces. `getNode` adds `offset` to the id it is given, and nothing takes it off the ids the queries return. So with `zero_indexed`, whether a returned id names the same vertex when passed back to `getNode` is not stated.
- `getNodes` calls `TitanId.fromVertexId(long)` on the vertex id; the other queries call `TitanId.fromVertexID(TitanVertex)` on the vertex. The model takes both to be the one function `fromVertexId`.
- `Assoc.java` is not part of this model. An association is modelled as its type, its destination's `fromVertexId` and its edge's timestamp.
- The order `Assoc.compareTo` imposes is the `assocKey` parameter (largest key first). Taking it to be the timestamp (`Queries.AssocTimestamp`, used by `Queries.TimestampOrderWindows`) is an assumption that this model cannot check.
- The iteration order of `HashSet` is not modelled; ids are a mathematical set.
- `Long.parseLong(String.valueOf(v.getId()))` in `getNodes` is taken to be the identity on vertex ids.
- Exceptions are results.
  - A missing node is `Err(NotFound)`.
  - An `atype` outside `intToAtype` is `Err(IndexOutOfBounds)`. It is reported before a missing node, because Java evaluates `intToAtype[atype]` before it calls a method on a null `node`.
  - A `subList` whose end is below its start is `Err(IllegalArgument)`.
- An edge without a `timestamp` property is not modelled: `Graph` would fail on the cast. Every model edge carries a `long` timestamp.
- A non-string attribute is not modelled: the `(String)` cast in `objGet` would throw `ClassCastException`. Every model attribute is a string.
- `GraphModel.Graph.AssocCount`: the `long` counter is unbounded, because it would need 2^63 edges to overflow.
- `Queries.NeighborNodeMembers` states membership and a length bound only. The order is stated by `Queries.NeighborNodeIsSubsequence`, and the exact list by `GraphModel.Graph.GetNeighborNode`'s equality with `Destinations(EdgesToMatching(...))`.
- `Collections.sort` (TimSort) is modelled as an insertion sort. `Sorting.StableSortIsSortDesc` shows every stable descending sort returns the same list.
- `warmup`, `shutdown` and the commit inside `restartTransaction` are left out. They only touch the backend and print progress.
