# A verified model of the Graph container and its breadth-first search

This project models two parts of a C++ code base in Dafny:

- **The graph container (`Graph.hpp`).** It is a mutable undirected graph with two dense, index-aligned vectors:
  - `nodes_` holds a (position, value) pair per node id.
  - `adjacency_` holds, per node id, a list of (neighbour id, edge value) slots.

  Every logical edge appears once in each endpoint's list. The model covers:
  - node and edge handles, with their equality and orders, and `dual`;
  - the mutations `add_node`, `add_edge`, `remove_edge` (all overloads), `remove_node` (both overloads) and `clear`;
  - the queries `has_node`, `node`, `degree`, `has_edge`, `num_edges` and `edge(i)`;
  - the node, edge and incident iterators.
- **`shortest_path_lengths` (`shortest_path.cpp`).** This is a FIFO breadth-first search. It writes hop distances from a root into the node values and returns the largest one.

Modules:

- `SeqSets`: cardinality facts for sequences without repeats.
- `Adjacency`: the table `seq<seq<(nat, E)>>` and its invariant:
  - ids are in range;
  - there are no self-loops;
  - there are no repeated neighbours in a list;
  - every slot a→b has a partner slot b→a.

  For every mutation the module defines a pure function: the table it produces. The lemmas prove what those tables satisfy: the invariant is kept, the new `has_edge` relation, and the edge count.
- `Handles`: `Node` and `Edge` handles.
  - A handle is a container token `gid` plus indices. The token stands for the `Graph*` the handles compare and order. The three iterators' `==` compare tokens too.
  - Distinct containers are assumed to carry distinct tokens. Nothing enforces this: two graphs built with one token would accept each other's handles.
  - Also here: `Node2Id`, `==`, `<`, `dual`, and the edge value.
- `EdgeWalk`: the position arithmetic of `EdgeIterator`.
  - `FixPos` specifies `fix`.
  - `Walk` is a reference list of the canonical slots, those whose neighbour id exceeds the owner's. `Walk` is ordered lexicographically.
  - The lemmas connect repeated `++` to `Walk` and to `num_edges`.
- `Graphs`: the class `Graph` and the three iterator classes. Their methods update the fields in place.
  - The container's methods are proved against the table functions of `Adjacency` that specify them.
  - The edge iterator's methods, `edge_begin` and `edge(i)` are proved against `FixPos`, `Step`, `Iterate` and `Walk` of `EdgeWalk`.
- `ShortestPath`: the search as methods over a `Graph<P, int, E>`. It is proved against the predicate `BfsState`, which holds between loop steps. A final lemma turns the labelling into hop distances.

Positions and both payloads are type parameters. The defaults `node_value_type()` and `edge_value_type()` are constructor arguments of `Graph`. The root of the search is a parameter.

## Model

| member | source | states |
|---|---|---|
| Adjacency.Find | Graph.hpp:489-491 | the scan stops at the first slot at or after `from` holding `b`, or at the end, and no earlier slot holds `b` |
| Adjacency.FindIn | Graph.hpp:482-493 | the scan finds a slot exactly when `b` is among the neighbour ids (has_edge) |
| Adjacency.HasEdge | Graph.hpp:482-493 | has_edge read on the table: b is among a's neighbour ids; FindIn ties the source's scan to it and HasEdgeSymmetric makes it symmetric |
| Adjacency.NumEdges | Graph.hpp:458-464 | num_edges: half the total list length; EdgeCount proves this is the number of unordered adjacent pairs |
| Adjacency.HasEdgeSymmetric | Graph.hpp:482-493 | on a well-formed table has_edge(a, b) iff has_edge(b, a), and never for a == b |
| Adjacency.SwapPop | Graph.hpp:544-546 | one hit of the removal scan: the slot at k is overwritten by the last slot and the last slot is dropped; RemoveEntryFacts states the effect |
| Adjacency.RemoveEntry | Graph.hpp:542-547 | the removal scan over one list: swap-pop at the first slot pointing at x, if any; RemoveEntryFacts and RemoveEntryKeepsSlot state what it keeps and drops |
| Adjacency.Rename | Graph.hpp:325-329 | the inner retarget loop over one list: every slot naming `from` is renamed to `to`, values kept; RenameFacts states the effect on ids |
| Adjacency.AddNodeState | Graph.hpp:236-268 | the table after add_node: one empty list appended; AddNodeStateFacts states its properties |
| Adjacency.AddEdgeState | Graph.hpp:507-529 | the table after add_edge of an absent edge: (b, value) appended to a's list and (a, value) to b's; AddEdgeStateFacts and AddEdgeStateCount state its properties |
| Adjacency.RemoveEdgeState | Graph.hpp:539-556 | the table after remove_edge of a present edge: RemoveEntry on a's list for b and on b's list for a; RemoveEdgeStateFacts, RemoveEdgeStateCount and RemoveEdgeStateEdgeSet state its properties |
| Adjacency.StripAll | Graph.hpp:312-320 | the table after remove_node's strip pass: x's entry removed from every list; PartialStripEnds ties the loop to it |
| Adjacency.MoveLast | Graph.hpp:309-310 | the record move and pop of remove_node on either vector: the last entry moves into x, the last position goes; MoveLastFacts states it through Origin |
| Adjacency.RenameAll | Graph.hpp:323-330 | the table after the retarget pass: every list with `from` renamed to `to`; PartialRenameEnds ties the loop to it |
| Adjacency.PartialStrip | Graph.hpp:312-320 | the table after the strip loop has visited the first i slots of x's list; PartialStripAt and PartialStripEnds state what it holds |
| Adjacency.PartialRename | Graph.hpp:323-330 | the table after the retarget loop has visited the first k slots of the moved list; PartialRenameEnds states what it ends at |
| Adjacency.RemoveNodeState | Graph.hpp:305-332 | the table after remove_node (corrected): RenameAll of MoveLast of StripAll; RemoveNodeStateFacts, RemoveNodeStateCount and RemoveNodeKeepsValues state its properties |
| Adjacency.RemoveNodeAsWritten | Graph.hpp:305-332 | remove_node as written: None where line 323 reads past the table; RemoveNodeAsWrittenOnLast and RemoveNodeAsWrittenAgrees state when |
| Adjacency.AddNodeStateFacts | Graph.hpp:236-268 | add_node keeps the invariant, appends one empty list, and changes neither has_edge among old nodes nor num_edges |
| Adjacency.AddEdgeStateFacts | Graph.hpp:507-529 | appending (b, default) to a's list and (a, default) to b's keeps the invariant, and has_edge gains exactly a–b in both directions |
| Adjacency.AddEdgeStateCount | Graph.hpp:520-526 | the new edge adds two slots and exactly one to num_edges |
| Adjacency.RemoveEntryFacts | Graph.hpp:542-547 | one swap-pop scan drops the slot for x if present (length - 1) and keeps every other neighbour and distinctness |
| Adjacency.RemoveEntryKeepsSlot | Graph.hpp:542-547 | the swap-pop scan keeps every slot that does not point at x, with its edge value |
| Adjacency.RenameFacts | Graph.hpp:325-329 | renaming `from` to an absent `to` substitutes that id and keeps the list distinct |
| Adjacency.RemoveEdgeStateFacts | Graph.hpp:539-556 | removing a present edge keeps the invariant, leaves every other list unchanged, and has_edge loses exactly a–b in both directions |
| Adjacency.RemoveEdgeStateCount | Graph.hpp:531-556 | removing a present edge drops two slots and exactly one from num_edges |
| Adjacency.RemoveEdgeStateEdgeSet | Graph.hpp:531-556 | the set of unordered adjacent pairs loses exactly {a, b} |
| Adjacency.EdgeCount | Graph.hpp:458-464 | on a well-formed table the total list length is twice the canonical slots, and num_edges (total / 2) is the number of unordered adjacent pairs |
| Adjacency.OccurrencesIsDegree | Graph.hpp:312-320 | the number of lists holding x equals x's degree, so the strip pass removes degree(x) slots |
| Adjacency.MoveLastFacts | Graph.hpp:309-310 | after moving the last record into x and popping, node y holds the record of its origin: the old last node at x, itself elsewhere |
| Adjacency.RemoveNodeStateFacts | Graph.hpp:305-332 | remove_node shrinks the table by one, keeps the invariant (symmetry, no self-loops, no duplicates) and relabels edges: y–z exist afterwards iff their origins were linked |
| Adjacency.RemoveNodeStateCount | Graph.hpp:295-332 | remove_node drops 2·degree(n) slots and degree(n) edges |
| Adjacency.RemoveNodeWellFormed | Graph.hpp:305-332 | the table remove_node leaves has one list fewer and is again well-formed: ids in range, no self-loops, no duplicates, symmetric |
| Adjacency.RenameRemoveValues | Graph.hpp:312-330 | one list through the strip and the retarget pass: every kept slot is an old slot with the old last id renamed to x, and every old slot not pointing at x is kept under its new id, value included |
| Adjacency.RemoveNodeKeepsValues | Graph.hpp:305-332 | after remove_node each slot of a surviving node's list carries the same edge value as the slot in its origin's list that pointed at the neighbour's origin, and each old slot not pointing at n reappears under the neighbour's new id |
| Adjacency.RetargetPrecondition | Graph.hpp:321-330 | after the strip and move, the moved list is distinct and in range, and lists the moved node does not neighbour hold no slot for the old last id |
| Adjacency.PartialStripEnds | Graph.hpp:312-320 | the strip loop run over all of x's slots yields StripAll |
| Adjacency.PartialRenameEnds | Graph.hpp:323-330 | the retarget loop run over all of the moved list's slots yields RenameAll |
| Adjacency.RemoveNodeAsWrittenOnLast | Graph.hpp:321-323 | the code as written reads past the table when the removed node is the last one (one-node graph) |
| Adjacency.RemoveNodeAsWrittenAgrees | Graph.hpp:305-332 | away from the last id the code as written computes RemoveNodeState; on the last id only RemoveNodeState is defined, and it is the stripped table without its last list |
| Handles.NodeOrder | Graph.hpp:131-154 | Node `<` is irreflexive, asymmetric, transitive and trichotomous with handle equality |
| Handles.NodeLess | Graph.hpp:149-154 | node `<`: id order within one container, otherwise container order; NodeOrder proves it a strict total order consistent with handle equality |
| Handles.Node2Id | Graph.hpp:357-360 | Edge::Node2Id: the neighbour id held in the handle's slot; Dual, DualFacts and IncidentEdges state what it names on a well-formed table |
| Handles.EdgeValue | Graph.hpp:407-420 | the edge value read through a handle is that slot's own copy; WithEdgeValueFacts states that a write changes this copy only |
| Handles.Node1 | Graph.hpp:363-367 | Edge::node1: the handle of the edge's own node |
| Handles.Node2 | Graph.hpp:369-374 | Edge::node2: the handle of the neighbour its slot names; DualFacts shows the dual swaps node1 and node2 |
| Handles.WithEdgeValue | Graph.hpp:410-413 | Edge::value as an lvalue: the table with that one slot's value replaced; WithEdgeValueFacts states what it keeps |
| Handles.EdgeEq | Graph.hpp:380-386 | edge `==`: same container and the same endpoints in either order; EdgeEqIsKeyEq proves it is equality of the unordered endpoint pair |
| Handles.EdgeLess | Graph.hpp:393-405 | edge `<`: container order, then (min, max) endpoint ids lexicographically; EdgeOrderInOneGraph and EdgeOrderAcrossGraphs prove its order laws |
| Handles.EdgeEqIsKeyEq | Graph.hpp:376-386 | in one container edge equality is equality of the unordered endpoint pair |
| Handles.EdgeOrderInOneGraph | Graph.hpp:388-405 | in one container Edge `<` (by min then max endpoint) is irreflexive, asymmetric, transitive and trichotomous with `==` |
| Handles.EdgeOrderAcrossGraphs | Graph.hpp:388-405 | edges of different containers are never equal and are ordered by container alone |
| Handles.Dual | Graph.hpp:427-436 | dual finds a slot exactly when node2's list holds node1, and that slot lies in node2's list and points back at node1 |
| Handles.DualFacts | Graph.hpp:427-436 | on a well-formed table every edge has a dual, equal to it (e == e.dual()) in the other list, and dual of dual is the edge |
| Handles.WithEdgeValueFacts | Graph.hpp:407-413 | writing an edge value changes that slot's value only: structure, invariant and the dual's copy are untouched |
| Handles.IncidentEdges | Graph.hpp:184-198 | the incident handles (c, 0) .. (c, degree - 1) all have node1 c, reach distinct neighbours, and reach every neighbour |
| EdgeWalk.FixPos | Graph.hpp:685-697 | fix only advances, stops on a canonical slot or at (size, 0), skips no canonical slot, and does nothing past the end |
| EdgeWalk.Deref | Graph.hpp:671-673 | EdgeIterator::operator*: the edge handle at a position |
| EdgeWalk.Step | Graph.hpp:675-679 | EdgeIterator::operator++: one slot on, then fix; IterateStep and IterateWalk state where repeated steps go |
| EdgeWalk.EdgeBegin | Graph.hpp:714-717 | edge_begin corrected: fix applied to (0, 0); EdgeIteration states the traversal from it |
| EdgeWalk.EdgeEnd | Graph.hpp:719-723 | edge_end: position (size, 0) |
| EdgeWalk.EdgeBeginAsWritten | Graph.hpp:714-717 | edge_begin as written: (0, 0) without fix; EdgeBeginAsWrittenAgrees and EdgeBeginAsWrittenUnfixed state when it differs |
| EdgeWalk.SameIterAsWritten | Graph.hpp:681-683 | EdgeIterator::operator== as written: same container and center, the outid comparison vacuous; SameIterAsWrittenConflates exhibits it |
| EdgeWalk.SameIter | Graph.hpp:681-683 | EdgeIterator::operator== as intended: same container and position; SameIterIsEdgeEq relates it to edge equality |
| EdgeWalk.IterateStep | Graph.hpp:675-679 | k + 1 increments are k increments followed by one `++` |
| EdgeWalk.WalkMembers | Graph.hpp:685-697 | the reference walk holds exactly the canonical positions at or after its start |
| EdgeWalk.WalkSorted | Graph.hpp:685-697 | the reference walk is strictly increasing in position order |
| EdgeWalk.IterateWalk | Graph.hpp:675-697 | k increments from a fixed start reach the k-th walk position, and the end after the whole walk |
| EdgeWalk.WalkTail | Graph.hpp:675-697 | the walk past its first position is the walk started one slot after that position |
| EdgeWalk.WalkIsEdgeCount | Graph.hpp:454-464 | the walk has num_edges positions |
| EdgeWalk.CanonicalKeys | Graph.hpp:376-386 | two canonical slots are equal edges exactly when they are the same slot |
| EdgeWalk.WalkEdges | Graph.hpp:675-697 | the walk yields canonical slots, no logical edge twice, and every logical edge a < b once |
| EdgeWalk.EdgeIteration | Graph.hpp:714-723 | from the fixed begin, repeated `++` visits the walk in order and reaches edge_end after exactly num_edges steps |
| EdgeWalk.SameIterAsWrittenConflates | Graph.hpp:681-683 | `==` as written calls two different positions on one center equal |
| EdgeWalk.SameIterAsWrittenAtEnd | Graph.hpp:681-683 | from the fixed begin, comparing with edge_end as written still stops a loop exactly after num_edges increments |
| EdgeWalk.SameIterIsEdgeEq | Graph.hpp:681-683 | the corrected `==` on canonical positions is equality of the edges they denote |
| EdgeWalk.EdgeBeginAsWrittenAgrees | Graph.hpp:714-717 | the unfixed begin equals the fixed begin iff the graph is empty or node 0 has a slot |
| EdgeWalk.EdgeBeginAsWrittenUnfixed | Graph.hpp:714-717 | with node 0 isolated, the unfixed begin is not canonical while the fixed begin is |
| EdgeWalk.EdgeIndexAsWrittenShifted | Graph.hpp:466-474 | `edge(i)` as written, advanced from the unfixed begin with node 0 isolated: `edge(0)` is no slot, `edge(i)` for i > 0 is walk position i - 1, and no index below num_edges reaches the last walk position |
| EdgeWalk.EdgeLoopAsWritten | Graph.hpp:714-723 | with node 0 isolated, a loop from the unfixed begin that stops on the as-written `==` with edge_end stops exactly after num_edges + 1 increments |
| Graphs.Graph.constructor | Graph.hpp:73-79 | an empty, valid graph |
| Graphs.Graph.Size | Graph.hpp:219-226 | size() and num_nodes(): the number of node records, equal to the number of lists under Valid() |
| Graphs.Graph.HasNode | Graph.hpp:275-281 | has_node: the handle names this container and an id below size() |
| Graphs.Graph.NodeAt | Graph.hpp:289-292 | node(i): the handle (this container, i), for i below size() |
| Graphs.Graph.Degree | Graph.hpp:175-177 | degree(): the length of the node's list; OccurrencesIsDegree shows it equals the number of lists holding the node |
| Graphs.Graph.Value | Graph.hpp:159-170 | value() read side: the value half of the node's record; SetValue is the write side |
| Graphs.Graph.Position | Graph.hpp:106-115 | position() read side: the position half of the node's record; SetPosition is the write side |
| Graphs.Graph.AddNodeWithValue | Graph.hpp:249-268 | appends (position, value) and an empty list; the node's id is the old size, its degree 0 and its value the given one; num_edges and has_edge among old nodes unchanged |
| Graphs.Graph.AddNode | Graph.hpp:228-247 | as above with the value node_value_type() |
| Graphs.Graph.SetValue | Graph.hpp:156-162 | writes one node's value, keeping its position and the table |
| Graphs.Graph.SetPosition | Graph.hpp:105-109 | writes one node's position, keeping its value and the table |
| Graphs.Graph.SetEdgeValue | Graph.hpp:407-413 | writes one slot's value (WithEdgeValue) and keeps the invariant |
| Graphs.Graph.AreAdjacent | Graph.hpp:476-493 | has_edge: true iff b is in a's list, equivalently a in b's |
| Graphs.Graph.CountEdges | Graph.hpp:454-464 | num_edges: half the total list length, equal to the number of unordered adjacent pairs |
| Graphs.Graph.EdgeByIndex | Graph.hpp:466-474 | edge(i) is the i-th walk position (fixed begin), a valid slot with node1 < node2 |
| Graphs.Graph.AddEdge | Graph.hpp:495-529 | an existing a→b slot is returned with nothing changed; otherwise both slots are appended, num_edges grows by one; the result has node1 a and node2 b and has_edge holds both ways |
| Graphs.Graph.StripEntry | Graph.hpp:542-547 | one swap-pop scan of a list, equal to RemoveEntry of it; nothing else changes |
| Graphs.Graph.RemoveEdge | Graph.hpp:531-556 | returns whether the edge existed; without it nothing changes; with it both slots go, num_edges drops by one; afterwards no edge either way and other lists unchanged |
| Graphs.Graph.RemoveEdgeHandle | Graph.hpp:558-562 | removes the edge between the handle's endpoints, which exists, and returns true |
| Graphs.Graph.RemoveEdgeAt | Graph.hpp:564-572 | removes the edge under the iterator and returns a copy of the position fixed against the new table |
| Graphs.Graph.StripNeighbours | Graph.hpp:312-320 | the first loop of remove_node: equal to StripAll |
| Graphs.Graph.RetargetEntries | Graph.hpp:325-329 | one list with every `from` renamed to `to` |
| Graphs.Graph.RetargetNeighbours | Graph.hpp:323-330 | the second loop of remove_node: equal to RenameAll from the old last id |
| Graphs.Graph.RemoveNode | Graph.hpp:295-332 | nodes and table become MoveLast(nodes, n) and RemoveNodeState, keeping the invariant |
| Graphs.Graph.RemoveNodeAt | Graph.hpp:334-339 | remove_node under the iterator, returning an iterator at the same index |
| Graphs.Graph.Clear | Graph.hpp:574-583 | no nodes and no edges |
| Graphs.Graph.NodeBegin | Graph.hpp:635-639 | a node iterator at index 0 |
| Graphs.Graph.NodeEnd | Graph.hpp:641-645 | a node iterator at index size() |
| Graphs.Graph.EdgeBegin | Graph.hpp:713-717 | an edge iterator at the fixed begin |
| Graphs.Graph.EdgeEnd | Graph.hpp:719-723 | an edge iterator at (size, 0) |
| Graphs.Graph.IncidentBegin | Graph.hpp:179-187 | an incident iterator at slot 0 of the node's list |
| Graphs.Graph.IncidentEnd | Graph.hpp:189-198 | an incident iterator at slot degree() |
| Graphs.NodeIterator.Next | Graph.hpp:613-616 | advances the index by one |
| Graphs.NodeIterator.Current | Graph.hpp:609-611 | operator*: the node handle at the iterator's index |
| Graphs.NodeIterator.Equals | Graph.hpp:618-620 | operator==: same container and same index |
| Graphs.EdgeIterator.Fix | Graph.hpp:685-697 | the nested loop ends at FixPos of the old position |
| Graphs.EdgeIterator.Next | Graph.hpp:675-679 | one slot on, then fix |
| Graphs.EdgeIterator.Current | Graph.hpp:671-673 | operator*: the edge handle at (center, outid); EdgeWalk.WalkEdges shows every position the traversal visits is a canonical slot |
| Graphs.EdgeIterator.EqualsAsWritten | Graph.hpp:681-683 | operator== as written, through SameIterAsWritten; the outid comparison is vacuous (see Findings) |
| Graphs.EdgeIterator.Equals | Graph.hpp:681-683 | operator== as intended, through SameIter: same container and same position |
| Graphs.IncidentIterator.Next | Graph.hpp:755-758 | advances the slot by one |
| Graphs.IncidentIterator.Current | Graph.hpp:751-753 | operator*: the edge handle (center, outid), whose node1 is the center |
| Graphs.IncidentIterator.Equals | Graph.hpp:760-762 | operator==: same container, same center and same slot |
| SeqSets.NoRepeatsBounded | shortest_path.cpp:78-95 | distinct ids below n number at most n, which bounds the queue |
| ShortestPath.ValuesUpdate | shortest_path.cpp:85 | writing a node value changes that value and no position |
| ShortestPath.SetLabel | shortest_path.cpp:85 | `node2().value() = cur + 1` through the graph: one value becomes the new label, every other value, every position and the table stay |
| ShortestPath.ResetValues | shortest_path.cpp:63-67 | every value becomes -1 and the root's 0; table and positions unchanged |
| ShortestPath.BfsInit | shortest_path.cpp:63-77 | after initialisation with the root queued, the search state holds |
| ShortestPath.VisitedBound | shortest_path.cpp:78-95 | every visited node's value lies between 0 and the head's value + 1 |
| ShortestPath.BfsVisit | shortest_path.cpp:84-88 | labelling an unvisited neighbour cur + 1 and queueing it keeps the search state and extends the scan |
| ShortestPath.BfsSkip | shortest_path.cpp:89-92 | an already visited neighbour has value at most cur + 1, so the relabelling test never holds |
| ShortestPath.BfsPop | shortest_path.cpp:94 | dequeuing the fully scanned head keeps the search state, with the head settled |
| ShortestPath.VisitSlot | shortest_path.cpp:83-93 | one pass of the inner loop keeps the search state, extends the scanned prefix of the head by one slot and keeps `max` the largest value, attained by some node |
| ShortestPath.BfsBound | shortest_path.cpp:78-95 | each node is queued at most once, so dequeued plus queued nodes never exceed size() |
| ShortestPath.BfsFinish | shortest_path.cpp:78-95 | with the queue empty, every labelled node's neighbours are labelled at most one further |
| ShortestPath.PathToLabel | shortest_path.cpp:84-88 | following parents from a node with value k gives a path of k hops from the root |
| ShortestPath.PathBound | shortest_path.cpp:84-92 | no path of k hops from the root ends at a node with value -1 or above k |
| ShortestPath.LabelsAreDistances | shortest_path.cpp:39-53 | the final labelling is the hop distance for reachable nodes and -1 exactly for unreachable ones |
| ShortestPath.BfsResult | shortest_path.cpp:39-53 | on exit: root 0, -1 iff unreachable, otherwise the shortest hop distance, a neighbour one closer for every positive value, each visited node dequeued once |
| ShortestPath.ExpandHead | shortest_path.cpp:79-93 | expanding the head scans its whole list, keeps the search state and keeps `max` the largest value |
| ShortestPath.ShortestPathLengths | shortest_path.cpp:54-97 | only values change; root 0; -1 iff unreachable; otherwise the shortest hop distance; a neighbour one closer for every positive value; returns the maximum value, which is ≥ 0; at most size() dequeues |

## Left out

- Point geometry is not modelled: `Point`, `Edge::length()` and `norm`. A position is an opaque type parameter. The `Point*` that `add_node` allocates and never frees is not modelled.
- Root selection, `MyComparator` and `std::min_element` (shortest_path.cpp:22-36, 55-61), compares floating-point distances. The root is a parameter instead, and the graph is required to be non-empty: the source dereferences `min_element` of an empty range.
- `size_type` is 32-bit unsigned and `int` is 32-bit. The model uses unbounded integers. Wrap-around needs more than about 2³¹ nodes or slots, and so does a distance overflowing `cur + 1`.
- The other source files are not part of this model: `mass_spring.cpp`, `poisson.cpp`, `mtl_test.cpp` and `subgraph.cpp`. They contain floating-point physics, solvers, viewers, file I/O and a `rand()` filter.
- `assert` calls on handles (`graph_ != NULL`, matching containers) are preconditions, not modelled failures.
- Container identity is a token chosen by the caller of the constructor, not an address. The model assumes distinct containers get distinct tokens and does not enforce it.
- Invalidation of outstanding handles after `remove_node`/`remove_edge` is not tracked. Handles are values resolved against the current table.
- Graphs.Graph.RemoveNode: its `ensures` name the new state through `MoveLast` and `RemoveNodeState`. The following are proved about those functions, not repeated in the method's contract:
  - the size and the relabelled edges, in `Adjacency.RemoveNodeStateFacts`;
  - the edge count, in `Adjacency.RemoveNodeStateCount`;
  - the per-node records, in `Adjacency.MoveLastFacts`;
  - the edge values of the surviving slots, in `Adjacency.RemoveNodeKeepsValues`.
- Graphs.Graph.StripEntry: it requires the scanned list to be distinct. The source scan continues after a swap without rechecking the moved slot, so it removes every occurrence only when there is at most one.
- ShortestPath.ExpandHead: the relabelling branch of shortest_path.cpp:89-92 is not a branch in the model. It is an assertion that its test never holds, because in FIFO order no visited node is more than one level past the head.

## Findings

| source | as written | input that shows it | evidently intended | confidence | as-written member | corrected member |
|---|---|---|---|---|---|---|
| Graph.hpp:321-323 | after `adjacency_.pop_back()` the retarget loop indexes `adjacency_[nid]`, which is past the end when `nid` was the last id | removing node 0 from a one-node graph (table `[[]]`) | skip the retarget pass when the removed node is the last one | not executed | Adjacency.RemoveNodeAsWritten, Adjacency.RemoveNodeAsWrittenOnLast | Adjacency.RemoveNodeState, Adjacency.RemoveNodeStateFacts, Graphs.Graph.RemoveNode |
| Graph.hpp:682 | `outid_ == outid_` compares the field with itself, so two edge iterators on one center are equal whatever their slots | table `[[(1,0),(2,0)],[(0,0)],[(0,0)]]`: positions (0,0) and (0,1) are distinct edges yet compare equal | compare `outid_ == ei.outid_` | not executed | EdgeWalk.SameIterAsWritten, EdgeWalk.SameIterAsWrittenConflates | EdgeWalk.SameIter, EdgeWalk.SameIterIsEdgeEq |
| Graph.hpp:714-717 | `edge_begin` returns position (0, 0) without `fix()`, so with node 0 isolated it denotes a non-existent slot. `edge(i)` (Graph.hpp:471-474) inherits this: it returns walk position i - 1, so `edge(0)` is no slot and the last edge is never returned. A traversal loop from `edge_begin` runs num_edges + 1 times | table `[[],[(2,0)],[(1,0)]]`: begin (0,0) is not a slot, the first edge is at (1,0), and `edge(0)` names (0,0) | call `fix()` on the new iterator | not executed | EdgeWalk.EdgeBeginAsWritten, EdgeWalk.EdgeBeginAsWrittenUnfixed, EdgeWalk.EdgeIndexAsWrittenShifted, EdgeWalk.EdgeLoopAsWritten | EdgeWalk.EdgeBegin, EdgeWalk.EdgeIteration, Graphs.Graph.EdgeBegin, Graphs.Graph.EdgeByIndex |
