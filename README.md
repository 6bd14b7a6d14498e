# Directed weighted multigraph (`gdwg::Graph`) in Dafny

This project models the core of `gdwg::Graph<N, E>` from `assignments/dg/graph.h`. It is a
directed multigraph with weighted edges. Its only state is `edge_map_`, an ordered map from
each node to the ordered set of that node's outgoing edges. Nodes are ordered by `NodeCmp`
and edges by `EdgeCmp`, which is lexicographic on (src, dst, weight). A bidirectional
`const_iterator` walks this two-level structure as one flat sequence of edges. It skips
nodes that have no outgoing edges.

Both `N` and `E` are `int`. An edge is the value triple `Edge(src, dst, weight)`.

The modules follow the header's structure:

- `Edges` (`edges.dfy`): the two comparators, and ascending edge sequences (the sets the
  map holds).
- `Tables` (`tables.dfy`): `edge_map_` as a sequence of `Entry(node, edges)`, ascending by
  node, with its validity invariant.
  - `Flat(t)` is the flattened edge order: what an iteration visits.
  - A valid map is canonical. It is determined by its nodes and its edges, which is what
    graph `operator==` relies on.
- `Cursors` (`cursors.dfy`): the iterator position `(outer_, inner_)` as a `Cursor`.
  - `Index` is the cursor's place in the flattened order.
  - `Succ` and `Pred` are the step functions of `operator++` and `operator--`.
  - The end position and the constructor are here too, with traversal lemmas.
- `Iterators` (`iterators.dfy`): the `const_iterator` class. Its `outer`/`inner` fields are
  updated by the same `while` loops as the source, and each method is proved equal to the
  step function.
- `Edits` (`edits.dfy`): node insertion, edge insertion and edge removal as functions from
  the old map to the new one.
- `Graphs` (`graph.dfy`): the `Graph` class holding `edge_map_` (`entries`), with `find`,
  both `erase` overloads, `Clear`, `IsEmpty`, `NumNodes`, `NumEdges`, `InsertNode`,
  `InsertEdge`, `IsNode`, `IsConnected`, `GetNodes` and `operator==`.
- `Scenario` (`scenario.dfy`): the sample graph of the tests. In any insertion order it is
  stored as one map, and iterating it visits the ten edges in ascending order.

## Model

| member | source | states |
|---|---|---|
| Edges.EdgeLess | assignments/dg/graph.h:53-69 | EdgeCmp orders edges of different sources as NodeCmp orders the sources, and no edge is below itself. |
| Edges.EdgeLessIsStrictTotalOrder | assignments/dg/graph.h:53-69 | EdgeCmp is irreflexive, asymmetric and transitive. Two edges are equivalent under it (neither is less) exactly when their (src, dst, weight) triples are equal, so a set keyed by EdgeCmp never holds two equal triples. |
| Edges.AscendingUnique | assignments/dg/graph.h:351 | Two strictly ascending edge sequences with the same elements are equal: a set ordered by EdgeCmp has exactly one listing. |
| Edges.AscendingRemove | assignments/dg/graph.h:270 | Erasing one element from an ordered edge set leaves it ordered. |
| Edges.RemoveIndexMembers | assignments/dg/graph.h:270 | Erasing the element at a position of an ordered set removes exactly that edge and keeps every other one. |
| Tables.FlatAscending | assignments/dg/graph.h:46-69 | In a valid map, the edges taken entry by entry in node order form one strictly ascending (src, dst, weight) sequence. |
| Tables.FlatMember | assignments/dg/graph.h:351 | An edge is in the flattened order exactly when some entry's set holds it. |
| Tables.EdgeHome | assignments/dg/graph.h:351 | Every stored edge is held in the entry of its own source node. |
| Tables.NodesAscending | assignments/dg/graph.h:46-50 | The node list comes back strictly ascending by NodeCmp, so without repeats. |
| Tables.NodeSetSize | assignments/dg/graph.h:337-339 | The number of map entries equals the number of distinct nodes. |
| Tables.LookupNode | assignments/dg/graph.h:256-259 | Finding a node key yields the index of the entry holding that node, or nothing exactly when the node is absent. |
| Tables.Canonical | assignments/dg/graph.h:314-316 | Two valid maps with the same nodes and the same edges are the same map. |
| Tables.SameContentsIffEqual | assignments/dg/graph.h:314-316 | Two valid maps are equal if and only if they hold the same nodes and the same edges. |
| Cursors.Index | assignments/dg/graph.h:202-205 | A resting position has a place in the flattened order, at most its length. It stands on an edge exactly when that place is below the length. |
| Cursors.Deref | assignments/dg/graph.h:137-143 | `operator*` yields the edge at the cursor's place in the flattened order. |
| Cursors.End | assignments/dg/graph.h:213-216 | cend() stands at outer_end_, one past the last entry, so it is on no edge. |
| Cursors.CursorEqualIffSameIndex | assignments/dg/graph.h:193-195 | Two resting iterators compare equal on (outer_, inner_) exactly when they stand at the same place of the edge order. |
| Cursors.PosOfEdgeUnique | assignments/dg/graph.h:137-143 | In a valid map, two positions that dereference to the same edge are the same position. |
| Cursors.PlaceOfEdge | assignments/dg/graph.h:137-143 | In a valid map, the position that dereferences to the k-th edge of the order has place k. |
| Cursors.SkipFrom | assignments/dg/graph.h:150-160 | The forward skip over empty entries stops on an edge or at the end position, at the place where that entry's edges begin. It never rests on an empty set. |
| Cursors.SkipFromStep | assignments/dg/graph.h:152-160 | One round of the skip loop: at the end it yields the end position, an empty entry passes to the next one, and a non-empty entry yields its first edge. |
| Cursors.Succ | assignments/dg/graph.h:147-163 | `++` moves from an edge to the next place of the order. That is the next edge, or the end position after the last edge. |
| Cursors.SuccOfLastIsEnd | assignments/dg/graph.h:152-157 | `++` on the last edge produces exactly the position the constructor builds for cend(), so a begin..end loop stops. |
| Cursors.BackFrom | assignments/dg/graph.h:177-183 | The backward walk over empty entries lands on the last edge of the nearest earlier non-empty entry, one place before where the entry begins. |
| Cursors.BackFromStep | assignments/dg/graph.h:179-182 | One round of the backward loop: an empty entry passes to the one before, and a non-empty one yields its last edge. |
| Cursors.Pred | assignments/dg/graph.h:171-186 | On every position past the first edge, including the end position, `--` moves to the previous edge of the order. |
| Cursors.PredSucc | assignments/dg/graph.h:171-186 | `--` undoes `++` on every edge. |
| Cursors.SuccPred | assignments/dg/graph.h:147-163 | `++` undoes `--` on every position other than the first edge. |
| Cursors.PredOfEndIsLastEdge | assignments/dg/graph.h:173-184 | `--` on the end position lands on the last edge of the order. That edge sits in the last non-empty entry: every later entry is empty. |
| Cursors.Begin | assignments/dg/graph.h:217-219 | The corrected begin position: the first edge of the order, skipping empty entries, or the end position when there is no edge. |
| Cursors.EmptyBeginIsEnd | assignments/dg/graph.h:211-216 | On a graph with no edges, the corrected begin (`Begin`) equals end. The begin as written does not when the graph has a node; see Findings. |
| Cursors.AsWrittenBeginAgrees | assignments/dg/graph.h:217-219 | The constructor's begin branch as written agrees with the corrected begin when the map is empty or its first node has an edge. |
| Cursors.AsWrittenBegin | assignments/dg/graph.h:217-219 | The constructor called for cbegin gives the end position on an empty map, through its first branch, and the first edge when the smallest node has an edge. When the smallest node has no edge, it gives a position that is neither on an edge nor the end, even if the graph has no edges at all. |
| Cursors.AsWrittenBeginRestsOnEmptyEntry | assignments/dg/graph.h:217-219 | On the valid map {1: {}, 2: {(2,1,5)}}, the begin branch as written is not a resting position. The corrected begin stands on (2,1,5). |
| Cursors.ForwardIsFlat | assignments/dg/graph.h:147-163 | Repeating `++` from any position until end visits exactly the rest of the flattened order. |
| Cursors.BackwardIsReversed | assignments/dg/graph.h:171-186 | Repeating `--` from any position until the first edge visits exactly the earlier edges, in reverse. |
| Cursors.ForwardTraversal | assignments/dg/graph.h:147-163 | Iterating from the corrected begin (`Begin`) to end visits every stored edge exactly once, in strictly ascending (src, dst, weight) order, and nothing else. |
| Cursors.BackwardTraversal | assignments/dg/graph.h:171-186 | Walking back from end visits the stored edges in exactly the reverse order. |
| Iterators.ConstIterator.constructor | assignments/dg/graph.h:209-221 | At the map's end, the constructor sets inner_ to the last entry's cend(). At the map's begin, it sets inner_ to the first entry's cbegin(). On an empty map it sets nothing. |
| Iterators.ConstIterator.Copy | assignments/dg/graph.h:166 | A copy stands where the original stands. |
| Iterators.ConstIterator.Get | assignments/dg/graph.h:137-143 | `operator*` on an edge position is the edge at its place in the order. |
| Iterators.ConstIterator.Equals | assignments/dg/graph.h:193-195 | `==` holds exactly when both outer_ and inner_ agree. For two resting iterators over one map, that is exactly when they stand at the same place of the edge order. |
| Iterators.ConstIterator.Increment | assignments/dg/graph.h:147-163 | The loop of prefix `++` leaves the iterator exactly at `Succ` of where it stood. |
| Iterators.ConstIterator.PostIncrement | assignments/dg/graph.h:165-169 | Postfix `++` returns the old position and advances by `Succ`. |
| Iterators.ConstIterator.Decrement | assignments/dg/graph.h:171-186 | The loop of prefix `--` leaves the iterator exactly at `Pred` of where it stood. |
| Iterators.ConstIterator.PostDecrement | assignments/dg/graph.h:187-191 | Postfix `--` returns the old position and steps back by `Pred`. |
| Edits.AddNode | assignments/dg/graph.h:225 | InsertNode keeps the map valid and keeps every edge, so every edge still leads to a node. The node set gains exactly the new value. A value that is already a node leaves the map unchanged. |
| Edits.InsertSorted | assignments/dg/graph.h:351 | Inserting into an ordered edge set keeps it ordered and adds exactly the new edge. An equal triple already present leaves the set unchanged, and the size grows by one exactly when the edge is new. |
| Edits.AddEdge | assignments/dg/graph.h:226 | InsertEdge between two existing nodes keeps the map valid and the nodes unchanged, and every edge still leads to a node. The edge set gains exactly the new edge. An identical triple leaves the map unchanged, and the edge count grows by one exactly when the edge is new. |
| Edits.InsertEdgeTwice | assignments/dg/graph_test.cpp:34-39 | After an insertion the edge is stored and its endpoints are connected. Inserting the identical triple again changes nothing. |
| Edits.IndexIn | assignments/dg/graph.h:262-265 | The linear search over one edge set finds an index holding the edge, or nothing exactly when the edge is absent. |
| Edits.Locate | assignments/dg/graph.h:256-267 | Looking up the source entry and then the edge within it finds a position dereferencing to the edge, or nothing exactly when the edge is not stored. |
| Edits.RemoveAt | assignments/dg/graph.h:270 | Erasing at a position removes exactly that element of the flattened order and keeps the nodes. |
| Edits.RemoveAtValid | assignments/dg/graph.h:270 | Erasing at a position keeps the map valid. |
| Edits.RemoveAtShifts | assignments/dg/graph.h:289-299 | After erasing the edge at place k, the map is valid, holds one edge fewer, and its edge at place k is the one that followed the erased edge. |
| Edits.RemoveEdge | assignments/dg/graph.h:254-272 | Erasing by key keeps the map valid and the nodes unchanged, and removes exactly that edge, so every remaining edge still leads to a node. The edge count drops by one if the edge was stored and is unchanged otherwise. |
| Edits.RemoveEdgeAt | assignments/dg/graph.h:289-299 | Erasing by the key read at a position is the same as erasing at that position. |
| Edits.EraseDisconnects | assignments/dg/graph_test.cpp:117-121 | After erasing src→dst with weight w, src and dst remain connected if and only if another weight links them. |
| Edits.ConnectedInHomeEntry | assignments/dg/graph.h:229 | src and dst are connected exactly when src's own edge set holds an edge to dst. |
| Edits.HasEdgeTo | assignments/dg/graph.h:229 | The search of one edge set for dst finds an edge to dst exactly when one is there. |
| Edits.EraseOnlyEdgeOfFirstNode | assignments/dg/graph.h:289-299 | Erasing the only edge of the smallest node empties the map's first edge set, where the begin branch as written is not a resting position. |
| Graphs.Graph.constructor | assignments/dg/graph.h:72 | A default-constructed graph is valid and has no nodes. Validity includes that every stored edge leads to a node, which every graph method below preserves. |
| Graphs.Graph.InsertNode | assignments/dg/graph.h:225 | InsertNode returns true exactly when the value was not a node, and the new map is `AddNode` of the old. |
| Graphs.Graph.InsertEdge | assignments/dg/graph.h:226 | InsertEdge reports NodeNotFound, with no change, exactly when an endpoint is missing. Otherwise it returns true exactly when the triple was not stored, and the new map is `AddEdge` of the old. |
| Graphs.Graph.Clear | assignments/dg/graph.h:239-241 | Clear leaves a valid graph with an empty map. |
| Graphs.Graph.IsNode | assignments/dg/graph.h:228 | IsNode holds exactly when the value is a node. |
| Graphs.Graph.IsConnected | assignments/dg/graph.h:229 | IsConnected reports NodeNotFound exactly when src or dst is not a node. Otherwise it is true exactly when some edge src→dst, of any weight, is stored. |
| Graphs.Graph.GetNodes | assignments/dg/graph.h:230 | GetNodes yields as many values as there are distinct nodes, each a node, strictly ascending by NodeCmp: every node exactly once, in order. |
| Graphs.Graph.IsEmpty | assignments/dg/graph.h:333-335 | IsEmpty holds exactly when the graph has no nodes. In that case it has no edges, and the corrected begin equals end, as the begin as written does on an empty map. |
| Graphs.Graph.NumNodes | assignments/dg/graph.h:337-339 | NumNodes is the number of distinct nodes. |
| Graphs.Graph.NumEdges | assignments/dg/graph.h:341-346 | The loop summing the set sizes yields the length of the flattened order: the number of edges an iteration visits. |
| Graphs.Graph.Find | assignments/dg/graph.h:244-251 | The scan from the corrected begin (`Begin`) returns a resting position that stands on an edge exactly when (src, dst, w) is stored, and then dereferences to it. Otherwise it returns the end position. |
| Graphs.Graph.Erase | assignments/dg/graph.h:254-280 | erase(src, dst, w) returns true exactly when the edge was stored, and the new map is `RemoveEdge` of the old. |
| Graphs.Graph.EraseAt | assignments/dg/graph.h:282-300 | erase(it) on the end position changes nothing and returns it. Otherwise it removes exactly the edge under the iterator and returns a position at the same place. That position stands on the edge that followed, or is the end position when the erased edge was the last. |
| Graphs.Graph.Equals | assignments/dg/graph.h:314-316 | Two graphs compare equal exactly when they have the same nodes and the same edges. |
| Scenario.InsertNodes | assignments/dg/graph_test.cpp:50-55 | Inserting nodes one by one keeps the map valid and the edges unchanged. The node set gains exactly the inserted values. |
| Scenario.InsertEdges | assignments/dg/graph_test.cpp:56-65 | Inserting edges one by one, each between two existing nodes, keeps the map valid and the nodes unchanged, and every edge still leads to a node. The edge set gains exactly the inserted edges. |
| Scenario.InsertTuple | assignments/dg/graph.h:86-89 | One tuple of the range constructor makes both endpoints nodes and then stores the edge. The map stays valid, and every edge still leads to a node. |
| Scenario.InsertTuples | assignments/dg/graph.h:78-91 | The tuple range constructor stores exactly the given edges, and its nodes are exactly the given endpoints. Every stored edge leads to a node. |
| Scenario.Build | assignments/dg/graph_test.cpp:49-65 | A graph built from nodes and then edges between those nodes is valid, with exactly those nodes and those edges, and every edge leads to a node. |
| Scenario.AnyOrderGivesSampleTable | assignments/dg/graph_test.cpp:49-65 | Nodes 1..6 and the ten sample edges, inserted in any order, are stored as the same map. |
| Scenario.SampleTraversal | assignments/dg/graph_test.cpp:94-95 | For the sample graph, GetNodes is [1..6]. A forward iteration yields (1,5,-1), (2,1,1), (2,4,2), (3,2,2), (3,6,-8), (4,1,-4), (4,5,3), (5,2,7), (6,2,5), (6,3,10). |
| Scenario.TestsInsertSample | assignments/dg/graph_test.cpp:50-65 | The tests' own insertion order uses nodes 1..6, every edge runs between two of them, and the edges are exactly the ten sample edges. |
| Scenario.SampleBegin | assignments/dg/graph_test.cpp:49-65 | On the sample graph, begin stands on (1,5,-1), the only edge of node 1, and the next edge is (2,1,1). |
| Scenario.EraseBeginOfSample | assignments/dg/graph.h:289-299 | `erase(begin())` on the sample graph erases (1,5,-1) and leaves node 1 with no edge. The begin branch as written, from which the re-find of (2,1,1) starts, is then not a resting position. |

## Left out

- The bodies of `InsertNode`, `InsertEdge`, `DeleteNode`, `IsNode`, `IsConnected`, `GetNodes`, `GetConnected`, `GetWeights`, `Replace`, `MergeReplace`, `cbegin` and `cend` are in `assignments/dg/graph.tpp`, which is not part of this model.
  - `InsertNode` and `InsertEdge` are modelled from their declarations and the behaviour the tests rely on. Values stay sorted, and a duplicate is not inserted.
  - `InsertEdge` reports a missing endpoint as the result `Failure(NodeNotFound)` rather than by throwing.
  - `IsNode`, `IsConnected` and `GetNodes` are modelled from their declarations and the documented behaviour. `IsConnected` reports a missing node as `Failure(NodeNotFound)`.
  - `DeleteNode`, `Replace`, `MergeReplace`, `GetConnected` and `GetWeights` are not modelled.
- `cbegin()` and `cend()` are taken to construct the iterator at the map's first entry and one past its last entry, as the constructor's own comments say.
- `operator<<` (stream output), `operator->` (it returns the address of a temporary), and the `std::reverse_iterator` adapters (reverse traversal is stated through `--` instead). `client.cpp` is a console driver and is not modelled.
- The tuple range constructor is modelled on the map, by `Scenario.InsertTuples`. The node range and initializer-list constructors insert their values one by one, as `Scenario.InsertNodes` does. These constructors are not methods of `Graphs.Graph`. The copy and move constructors and the assignments are not modelled.
- `shared_ptr`/`weak_ptr` ownership. Nodes, destinations and weights are plain `int` values. A `weak_ptr` that has not expired is modelled by the invariant `Tables.Closed`: every stored edge's destination is a node. `Graphs.Graph.Valid` includes that invariant. Generic `N` and `E` are instantiated as `int` with its usual order.
- `Graphs.Graph.NumNodes`, `Graphs.Graph.NumEdges`: counts are unbounded `nat`. The width of `size_t` is not modelled.
- `Iterators.ConstIterator`: the iterator holds a snapshot of the map it walks (`table`). Invalidation of iterators by later changes to the graph is not modelled.
  - `Graphs.Graph.EraseAt` therefore takes and returns a position rather than an iterator object.
- `Iterators.ConstIterator.Decrement`: decrementing the first edge is undefined in the source. The method still follows the source's loop and stops on the first entry, but nothing is promised about that position.
- `Iterators.ConstIterator.Increment`: requires the iterator to stand on an edge, since `++` on the end position is undefined in the source.
- `Iterators.ConstIterator.constructor`: on an empty map the source leaves `inner_` unset. The model sets it to 0, which is the end position.
- `Graphs.Graph.Find` starts from the corrected begin position (see Findings). So does `Graphs.Graph.EraseAt`, which re-finds the next edge through `Find`, as in `erase(begin())` on the tests' sample graph. The as-written begin can stand on an empty set, where `*it` is undefined.
- The following test assertions do not hold for the code and are not used:
  - the destination `"node2"` at `assignments/dg/graph_test.cpp:41`;
  - the weights of 3→6 at `assignments/dg/graph_test.cpp:98-99`;
  - `GetConnected(4)` equal to `{2}` at `assignments/dg/graph_test.cpp:96-97`: node 4's only edges go to 1 and 5 (`assignments/dg/graph_test.cpp:57-58`);
  - `g.GetNodes.size()` at `assignments/dg/graph_test.cpp:113`, which does not compile.

## Findings

| source | as written | input that shows it | evidently intended | confidence | as-written member | corrected member |
|---|---|---|---|---|---|---|
| assignments/dg/graph.h:217-219 | For the map's begin, the constructor sets `inner_` to the first entry's `cbegin()`, even when that entry's edge set is empty. | The map {1: {}, 2: {(2,1,5)}}: node 1 has no edges. Begin then rests on the empty set of node 1. Begin differs from end, and `*begin()` reads past an empty set. `operator++` never produces such a position. A graph with nodes but no edges has the same defect: begin differs from end. On the tests' sample graph, `erase(begin())` erases (1,5,-1) and leaves node 1 with no edge. The `find` for (2,1,1) that `erase(it)` then makes (graph.h:299) starts from that bad begin and dereferences node 1's empty set. | Begin skips empty entries the way `operator++` does. It stands on the first edge of the order, (2,1,5) here, or equals end when there is no edge. | not executed | Cursors.AsWrittenBeginRestsOnEmptyEntry | Cursors.Begin |
