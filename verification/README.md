# DWGraph in Dafny

This project models `DWGraph<V>`, a directed weighted graph stored as an
adjacency list. In the Java class this is a `HashMap` from each vertex to an
`ArrayList` of `Edge(weight, nextVertex)` records. Here it is a class
`DWGraphs.DWGraph<V>` with one field, `adj: map<V, seq<Edge<V>>>`. Each method
follows the loops of the Java method it models, and each is proved against a
value-level function on the map:

- `adjacency.dfy` (module `Adjacency`) holds the `Edge` datatype and the graph
  invariant `WellFormed`. The invariant says every edge target is a vertex,
  no weight is negative, and there is at most one edge per (source, target).
  The module also holds the specification functions `WithVertex`, `WithEdge`,
  `WithoutEdge`, `WithoutVertex` and `Cost`, and the lemmas about them.
- `division.dfy` (module `Division`) describes `divideGraph` exactly as its
  loops run. It gives the new graph after each subset member, the
  `vertsToRem` list, and the second removal pass. Its lemmas state which
  vertices leave the original graph and what the new graph can contain. It
  also works through two orderings of the same subset.
- `dwgraph.dfy` (module `DWGraphs`) holds the class. Its `Valid()` is
  `WellFormed(adj)`.

Points where the model follows the code rather than intuition:

- `removeEdge` moves its index forward even after a removal, so it skips the
  edge that slides into the removed slot (`Skim`). The model keeps this
  skipping loop. `SkimIsDrop` proves that, under the one-edge-per-pair
  invariant, it removes exactly the edge to the target.
- `edgeCost` and the overwrite in `createEdge` use the last matching edge in
  the list. Under the invariant that is the only matching edge.
- `divideGraph` does not split the graph the way its header comment suggests
  (dwgraph.java:361-372). Take the chain A→B(1), B→C(2), C→D(3) and the
  subset [A, B]. The edge A→B has both endpoints in the subset, yet it ends
  up in neither graph. B has no edge into the subset, so
  `retGraph.removeVertex(B)` runs, and that call also deletes the A→B edge
  just copied into the new graph. The new graph is {A} with no edges. The
  original loses A and keeps B. The result depends on the order of the
  subset: `DivideChainForward` and `DivideChainBackward` prove the two
  outcomes for one graph. The model follows the code.
- `getVertices` returns the map's live key view. The model returns the key
  set as a value.
- The order of `HashMap` keys is unspecified. Loops over the keys
  (`removeVertex`, `predecessorsOfVertex`) pick an arbitrary remaining key
  at each step (`var u :| u in todo`).

## Model

| member | source | states |
|---|---|---|
| `DWGraphs.DWGraph.constructor` | dwgraph.java:30-32 | a new graph has no vertices and satisfies the invariant |
| `DWGraphs.DWGraph.CreateVertex` | dwgraph.java:93-107 | returns true iff `v` was not a vertex; afterwards `v` is a vertex, a newly added `v` has an empty list, existing entries are unchanged, the invariant is kept (so a second call returns false and changes nothing) |
| `DWGraphs.DWGraph.IsVertex` | dwgraph.java:113-121 | true iff `v` is a key of the adjacency list |
| `DWGraphs.DWGraph.GetVertices` | dwgraph.java:125-127 | the returned set holds exactly the vertices of the graph |
| `DWGraphs.DWGraph.IsEdge` | dwgraph.java:185-194 | for a present source, true iff some edge of its list points to the target |
| `DWGraphs.DWGraph.CreateEdge` | dwgraph.java:138-181 | a negative weight returns false and changes nothing; otherwise returns true, both endpoints are vertices and edgeCost(s,t) is the new weight; the new list map is `WithEdge` of the old one (in-place overwrite or append, other lists unchanged, as `Adjacency.WithEdgeEffect` states); the invariant is kept; the self-call happens at most once (decreases) |
| `DWGraphs.DWGraph.EdgeCost` | dwgraph.java:199-223 | returns -1 iff the source is missing or has no edge to the target, otherwise the weight stored on that edge; reads only |
| `DWGraphs.DWGraph.RemoveEdge` | dwgraph.java:229-251 | returns true iff the source is present with an edge to the target; the source's list becomes what the skipping loop leaves, and on a valid graph that is the list minus the edge to the target, in order; all other lists and the vertex set are unchanged; the invariant is kept |
| `DWGraphs.DWGraph.RemoveVertex` | dwgraph.java:259-290 | returns true iff `v` was a vertex; afterwards `v` is not a vertex, no edge points to `v`, every other edge is kept in order, the invariant is kept; an absent `v` changes nothing |
| `DWGraphs.DWGraph.DropEdgesTo` | dwgraph.java:272-282 | the inner loop of removeVertex: calling removeEdge for each edge found into `v` leaves the list without its edges to `v`, other lists untouched |
| `DWGraphs.DWGraph.AdjacentVertices` | dwgraph.java:297-314 | None iff the vertex is missing; otherwise exactly `Targets` of its list: the targets of its edges, one per edge, in list order |
| `DWGraphs.DWGraph.PredecessorsOfVertex` | dwgraph.java:324-359 | None iff no edge points to `t`; otherwise each vertex occurs once per edge it has to `t`, which on a valid graph is exactly once for each predecessor and never for anything else |
| `DWGraphs.DWGraph.AddPredecessor` | dwgraph.java:344-355 | the inner loop of predecessorsOfVertex appends `u` once for every edge of `u` to `t` |
| `DWGraphs.DWGraph.CopyInternalEdges` | dwgraph.java:391-397 | the inner loop of divideGraph creates in the new graph each edge of `v` into the subset, in list order, and counts them (`tempCounter`) |
| `DWGraphs.DWGraph.DivideMember` | dwgraph.java:384-415 | one turn of divideGraph's outer loop: the new graph becomes `DivideStep` of the old one, and the member is reported for removal iff it is a vertex with an edge into the subset |
| `DWGraphs.DWGraph.RemoveVertices` | dwgraph.java:418-422 | the second loop of divideGraph removes the listed vertices one by one, keeping the invariant |
| `DWGraphs.DWGraph.DivideGraph` | dwgraph.java:373-426 | the new graph and the original end as the two loops dictate; exactly the subset members that are vertices with an edge into the subset leave the original, and every one of them is a vertex of the returned graph; remaining lists lose only edges into removed vertices; vertices outside the subset stay; every edge of the new graph is an original edge inside the subset with the same weight; both graphs keep the invariant |
| `Adjacency.Skim` | dwgraph.java:238-244 | definition: the list removeEdge's index loop leaves; a matching edge is removed and the edge that slides into its slot is kept without being tested |
| `Adjacency.Upsert` | dwgraph.java:147-165 | definition: createEdge on the source's list; when an edge to `t` exists its weight is overwritten, otherwise a new edge is appended |
| `Adjacency.Cost` | dwgraph.java:199-223 | definition: edgeCost; -1 for a missing source, otherwise the last-match scan `CostIn` of its list |
| `Adjacency.PredCount` | dwgraph.java:342-355 | definition: how many times predecessorsOfVertex lists `u` for `t` (once per edge of `u` to `t`; never for a non-vertex) |
| `Adjacency.WithVertex` | dwgraph.java:93-107 | definition: createVertex; `v` is added with an empty list only if it is not a key |
| `Adjacency.WithEdge` | dwgraph.java:138-181 | definition: createEdge; a negative weight leaves the graph unchanged, otherwise both endpoints are created if missing and the edge is upserted in the source's list |
| `Adjacency.WithoutEdge` | dwgraph.java:229-251 | definition: removeEdge; only a present source with an edge to `t` is touched, its list becoming `Skim` of it |
| `Adjacency.WithoutVertex` | dwgraph.java:259-290 | definition: removeVertex; a present vertex loses its key and every edge to it, an absent one changes nothing |
| `Adjacency.Targets` | dwgraph.java:308-310 | the successor list contains the target of every edge and nothing that is not the target of some edge |
| `Adjacency.Drop` | dwgraph.java:274-281 | the filtered list keeps exactly the edges whose target is outside the removed set, and is no longer |
| `Adjacency.CostIn` | dwgraph.java:204-222 | with non-negative weights the result is -1 iff no edge points to the target; with one edge per target it is that edge's weight |
| `Adjacency.CountTo` | dwgraph.java:348-354 | the number of edges to `t` is positive iff some edge points to `t`, and at most one when targets are unique |
| `Adjacency.Reweigh` | dwgraph.java:155-160 | keeps the list length; with one edge per target, setting the weight of the edges to `t` is the same as overwriting the one edge to `t` at its index |
| `Adjacency.Restrict` | dwgraph.java:265-282 | the remaining vertices are exactly those outside the removed set; no remaining edge points into the set; every remaining edge was an edge of the same vertex before, and every edge not into the set is kept |
| `Adjacency.Cleaned` | dwgraph.java:272-282 | partway through removeVertex's walk over the vertices, no list of an already visited vertex has an edge to the removed vertex |
| `Adjacency.SkimFrom` | dwgraph.java:238-244 | one step of removeEdge's loop: a match is dropped and the next edge is kept without being checked |
| `Adjacency.SkimAtStep` | dwgraph.java:238-244 | each iteration of removeEdge's loop (removal at `i` or passing `i`) keeps the list tied to what the whole loop leaves |
| `Adjacency.SkimAtEnd` | dwgraph.java:238-244 | when removeEdge's loop stops, the list is what the skipping loop leaves of the original |
| `Adjacency.SkimIsDrop` | dwgraph.java:238-244 | with one edge per target the skipping loop removes exactly the edges to the target |
| `Adjacency.UpsertAt` | dwgraph.java:154-160 | with one edge per target the overwrite changes exactly the one edge to the target, at its index |
| `Adjacency.OverwriteEffect` | dwgraph.java:154-160 | overwriting the one edge to the target keeps one edge per target, gives the target the new weight, and adds no other edge |
| `Adjacency.AppendEffect` | dwgraph.java:163-165 | appending an edge to a target not yet reached keeps one edge per target and gives the target the new weight |
| `Adjacency.UpsertEffect` | dwgraph.java:147-165 | after insert-or-overwrite the list has one edge per target, the cost of the target is the new weight, and only that edge is new; existing edge: same length, in place; otherwise appended at the end |
| `Adjacency.WithVertexEffect` | dwgraph.java:93-107 | createVertex keeps the invariant, adds `v` with an empty list if absent and changes no existing entry |
| `Adjacency.WithEdgeEffect` | dwgraph.java:138-181 | createEdge with a non-negative weight keeps the invariant, makes both endpoints vertices, sets the cost to the weight, overwrites in place or appends, and leaves every other list unchanged |
| `Adjacency.CostMeaning` | dwgraph.java:199-223 | edgeCost is -1 exactly when there is no such edge, otherwise the stored weight |
| `Adjacency.WithoutEdgeEffect` | dwgraph.java:229-251 | on a valid graph removeEdge removes only the source's edge to the target, keeps order, vertices and other lists, and keeps the invariant |
| `Adjacency.RestrictWellFormed` | dwgraph.java:259-290 | removing vertices together with their incoming edges keeps the invariant |
| `Adjacency.WithoutVertexEffect` | dwgraph.java:259-290 | removeVertex keeps the invariant, removes the key, and leaves every other vertex its edges not pointing to it; an absent vertex changes nothing |
| `Adjacency.PredecessorOnce` | dwgraph.java:324-359 | on a valid graph a vertex is listed once among the predecessors of `t` iff it has an edge to `t`, otherwise never |
| `Adjacency.SuccessorIffPredecessor` | dwgraph.java:297-359 | `t` is among the adjacent vertices of `u` iff `u` is among the predecessors of `t` |
| `Division.Moves` | dwgraph.java:384-411 | definition: a subset member goes into `vertsToRem` when it is a vertex and `tempCounter` ends positive |
| `Division.MovedSet` | dwgraph.java:384-411 | definition: the set of subset members that go into `vertsToRem` |
| `Division.CopyInternal` | dwgraph.java:391-397 | definition: the inner loop of divideGraph; createEdge in the new graph for each edge of the member into the subset, in list order |
| `Division.DivideStep` | dwgraph.java:384-415 | definition: one turn of the outer loop; the member is created and its internal edges copied when it is a vertex, then removed from the new graph again when it has no internal edge |
| `Division.NewGraph` | dwgraph.java:377-416 | definition: `retGraph` after the outer loop has handled a prefix of the subset, starting from an empty graph |
| `Division.MovedList` | dwgraph.java:380-415 | definition: `vertsToRem` after the outer loop has handled a prefix of the subset, in order |
| `Division.WithoutVertices` | dwgraph.java:418-422 | definition: the second loop; removeVertex for each entry of `vertsToRem`, in order |
| `Division.InternalCount` | dwgraph.java:391-396 | `tempCounter` is positive iff some edge of the member points into the subset |
| `Division.CopyInternalWithin` | dwgraph.java:391-397 | copying a member's internal edges keeps the new graph valid and made only of original edges inside the subset |
| `Division.WithoutVertexWithin` | dwgraph.java:408-409 | removing any vertex from the new graph keeps that property |
| `Division.NewGraphWithin` | dwgraph.java:384-416 | after every prefix of the subset the new graph is valid and contains only subset vertices of the original and original edges inside the subset |
| `Division.CopyInternalKeys` | dwgraph.java:391-397 | copying a member's edges into the new graph never removes a vertex of it |
| `Division.NewGraphHasMoved` | dwgraph.java:384-416 | after every prefix of the subset, every member seen so far with an edge into the subset is a vertex of the new graph |
| `Division.DivideNewGraph` | dwgraph.java:373-426 | the returned graph is valid; every vertex of it is an original vertex in the subset, and every edge an original edge (same weight) with both endpoints in the subset; every vertex that leaves the original is a vertex of it |
| `Division.MovedListMembers` | dwgraph.java:408-412 | `vertsToRem` holds exactly the members that are vertices with an edge into the subset |
| `Division.RestrictStep` | dwgraph.java:420-422 | removing one more present vertex equals removing the enlarged set at once |
| `Division.RestrictAbsent` | dwgraph.java:420-422 | removing a vertex that is not present and not targeted changes nothing |
| `Division.WithoutVerticesRestrict` | dwgraph.java:418-422 | the second pass of removeVertex calls equals removing all listed vertices and their incoming edges at once |
| `Division.DivideOriginal` | dwgraph.java:373-426 | the original after the division is valid, has lost exactly the subset members with an edge into the subset, keeps every vertex outside the subset, and each remaining list loses only its edges into removed vertices, in order |
| `Division.DivideChainForward` | dwgraph.java:384-416 | for 0→1(1), 1→2(2) and subset [0, 1] the new graph is {0} with no edges |
| `Division.ChainForwardMoved` | dwgraph.java:407-411 | for 0→1(1), 1→2(2) and subset [0, 1] only member 0 goes into `vertsToRem` |
| `Division.DivideChainForwardOriginal` | dwgraph.java:418-422 | for the same graph and subset the original keeps only 1→2(2) and vertex 2 |
| `Division.DivideChainBackward` | dwgraph.java:384-416 | for the same graph and subset [1, 0] the new graph is {0: [0→1(1)], 1: []}: the outcome depends on the order |

## Left out

- `toString` (dwgraph.java:66-87) is not modelled. Its output follows the unspecified `HashMap` key order and the generic `V.toString`.
- `nullCheck` and its `IllegalArgumentException` (dwgraph.java:52-58) are not modelled. Dafny values are never null, and `nullCheck(weight)` on an `int` cannot fail.
- The `Comparable` bound and hashing are not modelled. Vertices are compared only by equality, which is all the code uses.
- `Edge` is a value, not a mutable object. The code never shares an `Edge` between lists, so writing `edge.weight` in place is the same as replacing the list element at its index.
- `edges.remove(edges.get(i))` removes by object identity; the model removes at index `i`.
- Each removal and overwrite is stored back into the map at once. The model does not keep a separate mutable list object per vertex.
- `getVertices` returns a snapshot set, not a live view of the keys, so later changes are not reflected in it.
- Java `int` width is not modelled. Weights are only stored and compared, never added. `tempCounter` would only overflow with more than 2^31 edges from one vertex.
- DWGraphs.DWGraph.PredecessorsOfVertex: states only how many times each vertex occurs (a multiset), not the order, because the order is the unspecified `HashMap` key order.
- DWGraphs.DWGraph.RemoveEdge: states the exact filtered list only when the graph was valid before the call. On an invalid list with repeated targets the skipping loop can leave a duplicate, and the contract then gives only the `Skim` result.
- DWGraphs.DWGraph.DropEdgesTo and DWGraphs.DWGraph.AddPredecessor are the inner loops of `removeVertex` and `predecessorsOfVertex`, written as separate methods. The nesting of the loops is otherwise unchanged.
- DWGraphs.DWGraph.CopyInternalEdges: likewise the inner loop of `divideGraph`. The `contains` test is modelled as membership in the subset sequence.
- DWGraphs.DWGraph.DivideMember and DWGraphs.DWGraph.RemoveVertices: the body of `divideGraph`'s first loop and its second loop, written as separate methods; the statements and their order are unchanged. `removeVertex(vertsToRem.get(vertsToRem.indexOf(vertex)))` is modelled as `removeVertex(vertex)`, the element it looks up being equal to `vertex`.
- DWGraphs.DWGraph.CreateEdge: its contract ties the new state to `WithEdge` and states the cost and the vertex set; the in-place overwrite, the append and the unchanged other lists are stated once, about `WithEdge`, in `Adjacency.WithEdgeEffect`.
