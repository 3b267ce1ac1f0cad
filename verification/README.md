# Linear containers, an adjacency-map graph and searches over it

This Dafny project models the core of a small Python teaching repository.

- **Linear aggregates** (`aggregate.dfy`, module `LinearAggregates`). One
  container class `Aggregate` owns a sequence of elements; its `policy` selects
  the variant. The variants are:
  - the ordered list (`ListaOrdenada`);
  - the ordered list without repetition (`ListaOrdenadaSinRepeticion`);
  - the queue (`Cola`);
  - the stack (`Pila`);
  - the bounded queue (`ColaConLimite`).

  Removal always takes the front element. The class also has the query
  operations `contains`, `find` and `filter`.
- **Ordered insertion** (`ordering.dfy`, module `Ordering`). The rule shared by
  the ordered list and the priority queue: a new item goes before the first
  item whose key is strictly greater. Sortedness, stability and contents
  lemmas are proved about it.
- **Priority queue** (`priority_queue.dfy`, module `PriorityQueues`). Two
  parallel sequences, elements and integer priorities, kept in lock-step and
  sorted by priority. The operations are `add`, `remove`, `remove_all` and
  `decrease_priority`.
- **Graph** (`graph.dfy`, module `Graphs`). A directed or undirected graph
  stored as a map from each vertex to the map from its successors to edge
  labels. Its class invariant is twofold:
  - every neighbour is a vertex;
  - an undirected graph stores each edge both ways with one label.

  The operations are `add_vertex`, `add_edge`, the queries, `predecessors`,
  `subgraph` and `inverse_graph`.
- **Searches** (`traversal.dfy`, module `Traversals`). Breadth-first and
  depth-first search with a predecessor map, and path reconstruction. BFS is
  proved to return a shortest walk. Both searches are proved to find the goal
  exactly when it is reachable.
- **Gene network** (`gene_network.dfy`, module `GeneNetworks`). The validating
  gene factory, the network class, its `subgraph`, and the recursive
  depth-first search that extends a shared path and visited set.
- `wrappers.dfy` holds `Option`, `Result`, `Outcome` and the error kinds that
  stand for the source's exceptions.

Exceptions become results:

| Python exception | Where it is raised | Modelled as |
|---|---|---|
| `EmptyContainerError` | `remove` | `Failure(EmptyContainer)` |
| `OverflowError` | bounded `add` | `Fail(Overflow)` |
| `ValueError` | bounded constructor | `InvalidCapacity` |
| `ValueError` | `inverse_graph` | `NotDirected` |
| `ValueError` | `Gen.of` | `NegativeMutations` |

In each case the state is left as the source leaves it.

The test scripts in the sources are modelled as example lemmas and as
scenario methods. The scenario methods state no results of their own, so
they are not in the table below:
- `OrderedListScenario`, `DrainOrderedList`, `NoRepeatScenario`,
  `QueueStackScenario`, `BoundedScenario`, `FillBoundedQueue` and `MakeRoom`
  in `LinearAggregates`;
- `PatientsScenario` and `ServePatients` in `PriorityQueues`.

The two copies of `AgregadoLineal` and `ListaOrdenada` are one model:
- src/Estructuras/Estructuras.py;
- src/Estructuras/examen2.py, which adds `contains`/`find`/`filter` and `ColaConLimite`.

## Model

| member | source | states |
|---|---|---|
| `Ordering.FirstGreater` | src/Estructuras/Estructuras.py:52-56 | the index is in `[0, len]`, every earlier key is `<=` the given key, and the key at the index (if any) is strictly greater |
| `Ordering.FirstGreaterUnique` | src/Estructuras/Estructuras.py:111-115 | any index with that characteristic property is the insertion index, so the scanning loops compute exactly it |
| `Ordering.InsertAt` | src/Estructuras/Estructuras.py:58-60 | `list.insert`: one longer, the item at the index, prefix kept, suffix shifted by one |
| `Ordering.RemoveAt` | src/Estructuras/Estructuras.py:133-134 | `list.pop(index)`: one shorter, prefix kept, suffix shifted back by one |
| `Ordering.InsertAtContents` | src/Estructuras/Estructuras.py:58-60 | an insertion adds exactly the inserted item to the multiset of items |
| `Ordering.RemoveAtContents` | src/Estructuras/Estructuras.py:133-134 | a pop removes exactly the item at that index from the multiset |
| `Ordering.RemoveKeepsSorted` | src/Estructuras/Estructuras.py:129-135 | removing any position from a sorted sequence leaves it sorted |
| `Ordering.InsertKeepsSorted` | src/Estructuras/Estructuras.py:58-60 | the ordered insertion keeps a sorted sequence sorted |
| `Ordering.InsertIsStable` | src/Estructuras/Estructuras.py:52-60 | the new item lands at the insertion index, after every item with a key `<=` its own and before every item with a greater key (equal keys keep arrival order); the items before it and after it are the old ones in their old order |
| `Ordering.OrderedInsert` | src/Estructuras/Estructuras.py:58-60 | the ordered insertion is one item longer and holds exactly the old items plus the new one |
| `LinearAggregates.AddStep` | src/Estructuras/Estructuras.py:58-84 | one `add` of any variant: only the bounded queue (src/Estructuras/examen2.py:98-101) can fail, and then with an overflow; a success adds exactly one `e` to the elements, except on the no-repetition list when `e` is already there |
| `LinearAggregates.AddAllSteps` | src/Estructuras/Estructuras.py:28-30 | `add_all` loses no element and adds at most the given ones (as multisets); it stops with a failure only on a bounded queue, and that failure is an overflow |
| `LinearAggregates.AddStepKeepsInv` | src/Estructuras/Estructuras.py:58-73 | every variant's `add` keeps its invariant: ordered lists stay sorted, the no-repetition list also stays duplicate-free, the bounded queue stays within capacity |
| `LinearAggregates.AddStepFailsExactlyWhenFull` | src/Estructuras/examen2.py:98-101 | `add` fails if and only if the aggregate is a bounded queue at or over capacity, and the failure is an overflow |
| `LinearAggregates.QueueAndStackPlacement` | src/Estructuras/Estructuras.py:83-84 | the queue appends `e` at the back and the stack (lines 146-147) puts it at the front; either way size grows by one and the old elements keep their order |
| `LinearAggregates.OrderedAddContents` | src/Estructuras/Estructuras.py:70-73 | the no-repetition list is unchanged when `e` is present; otherwise the ordered lists gain exactly one `e` |
| `LinearAggregates.AddAllOrdered` | src/Estructuras/examen2.py:27-29 | `add_all` on an ordered list never fails, leaves it sorted, and adds exactly the given elements (the test at 144-156) |
| `LinearAggregates.AddAllKeepsInv` | src/Estructuras/Estructuras.py:28-30 | `add_all` keeps the variant's invariant, including when a bounded queue overflows part way |
| `LinearAggregates.Filtered` | src/Estructuras/examen2.py:59-63 | the result is no longer than the input and every element in it satisfies the predicate |
| `LinearAggregates.FilteredContents` | src/Estructuras/examen2.py:59-63 | each value occurs in the result as often as in the aggregate when it satisfies the predicate, and never otherwise |
| `LinearAggregates.FilteredAppend` | src/Estructuras/examen2.py:59-63 | filtering preserves order: filtering a concatenation concatenates the filtered parts |
| `LinearAggregates.Aggregate.Size` | src/Estructuras/Estructuras.py:12-14 | zero exactly when there are no elements; a valid bounded queue never holds more than its capacity |
| `LinearAggregates.Aggregate.IsEmpty` | src/Estructuras/Estructuras.py:16-18 | true exactly when the size is zero, that is, when there are no elements |
| `LinearAggregates.Aggregate.IsFull` | src/Estructuras/examen2.py:103-105 | under the invariant, the test `len >= capacity` holds exactly when the size equals the capacity |
| `LinearAggregates.Aggregate.Filter` | src/Estructuras/examen2.py:59-63 | `filter` changes nothing and returns no more than the aggregate holds: every returned element satisfies the predicate and is in the aggregate, and each satisfying value occurs as often as in the aggregate |
| `LinearAggregates.Aggregate.constructor` | src/Estructuras/Estructuras.py:9-10 | a new aggregate is empty and valid for its variant |
| `LinearAggregates.Aggregate.NewBounded` | src/Estructuras/examen2.py:88-92 | a capacity `<= 0` is refused with an invalid-capacity error; otherwise a fresh empty bounded queue of that capacity |
| `LinearAggregates.Aggregate.IndexOrder` | src/Estructuras/Estructuras.py:52-56 | the scanning loop returns exactly the first index whose key is strictly greater than `e`'s |
| `LinearAggregates.Aggregate.Add` | src/Estructuras/Estructuras.py:58-73 | the new elements are the variant's `add` step; on overflow the elements are unchanged and the outcome is the failure; the invariant is kept |
| `LinearAggregates.Aggregate.AddAll` | src/Estructuras/Estructuras.py:28-30 | the loop ends in the state and outcome of adding each element in turn, stopping at the first failure |
| `LinearAggregates.Aggregate.Remove` | src/Estructuras/Estructuras.py:32-35 | an empty aggregate fails with `EmptyContainer` and is unchanged; otherwise it returns the old front and keeps the old tail |
| `LinearAggregates.Aggregate.RemoveAll` | src/Estructuras/Estructuras.py:37-41 | the drain returns exactly the old elements in order and leaves the aggregate empty |
| `LinearAggregates.Aggregate.Contains` | src/Estructuras/examen2.py:43-47 | true if and only if `e` occurs among the elements |
| `LinearAggregates.Aggregate.Find` | src/Estructuras/examen2.py:49-57 | `None` exactly when no element satisfies the predicate; otherwise the first one that does, which is the head of `filter`'s result |
| `LinearAggregates.InsertOneBeforeThree` | src/Estructuras/Estructuras.py:157-167 | the script's second add: inserting 1 into `[3]` gives `[1, 3]` |
| `LinearAggregates.InsertTwoBetween` | src/Estructuras/Estructuras.py:157-167 | the script's third add: inserting 2 into `[1, 3]` gives `[1, 2, 3]` |
| `LinearAggregates.AddTwoBetween` | src/Estructuras/Estructuras.py:157-167 | the same third add on the aggregate itself: `[1, 3]` becomes `[1, 2, 3]` and stays valid |
| `PriorityQueues.IndexOf` | src/Estructuras/Estructuras.py:131 | `list.index`: a position holding `e` with no earlier occurrence |
| `PriorityQueues.Enqueued` | src/Estructuras/Estructuras.py:106-109 | `add` makes both lists one longer; the elements gain exactly `e` and the priorities exactly `p` |
| `PriorityQueues.EnqueueKeepsInv` | src/Estructuras/Estructuras.py:106-109 | `add` keeps the two lists the same length and sorted by priority, adds one entry, and places `e` with priority `p` at the same position of both lists |
| `PriorityQueues.EnqueuePairs` | src/Estructuras/Estructuras.py:106-115 | `add` inserts the entry `(e, p)` into the sequence of (element, priority) entries at the first strictly greater priority, after every entry of equal priority, and every other entry keeps its priority and its order |
| `PriorityQueues.FrontIsMinimum` | src/Estructuras/Estructuras.py:117-121 | in a sorted queue the front priority is `<=` every priority, so `remove` returns a minimum-priority element |
| `PriorityQueues.DecreaseKeepsInv` | src/Estructuras/Estructuras.py:129-135 | `decrease_priority` keeps the lists in lock-step and sorted, keeps the size, and keeps the same elements |
| `PriorityQueues.DecreaseMovesForward` | src/Estructuras/Estructuras.py:129-135 | after a real decrease, the entry sits at the new priority's sorted position with the new priority, no later than before |
| `PriorityQueues.DecreasePairs` | src/Estructuras/Estructuras.py:129-135 | a real decrease removes the entry of the first occurrence of `e` and inserts `(e, p)` at the new priority's sorted position, and every other entry keeps its priority and its relative order |
| `PriorityQueues.Decreased` | src/Estructuras/Estructuras.py:129-135 | `decrease_priority` keeps both lengths and the multiset of elements; nothing changes when `e` is absent or `p` is not strictly below the priority of its first occurrence |
| `PriorityQueues.PriorityQueue.constructor` | src/Estructuras/Estructuras.py:90-92 | an empty queue: both lists empty |
| `PriorityQueues.PriorityQueue.Size` | src/Estructuras/Estructuras.py:94-96 | zero exactly when there are no elements; under the invariant, also the number of priorities |
| `PriorityQueues.PriorityQueue.IsEmpty` | src/Estructuras/Estructuras.py:98-100 | true exactly when the size is zero; under the invariant, exactly when there are no priorities either |
| `PriorityQueues.PriorityQueue.IndexOrder` | src/Estructuras/Estructuras.py:111-115 | the scanning loop returns the first index holding a strictly greater priority |
| `PriorityQueues.PriorityQueue.Add` | src/Estructuras/Estructuras.py:106-109 | both lists become the enqueued pair and the invariant is kept |
| `PriorityQueues.PriorityQueue.Remove` | src/Estructuras/Estructuras.py:117-121 | an empty queue fails and is unchanged; otherwise it returns the front element, whose priority is minimal, and both lists lose their head |
| `PriorityQueues.PriorityQueue.RemoveAll` | src/Estructuras/Estructuras.py:123-127 | returns the old elements in priority order and leaves both lists empty |
| `PriorityQueues.PriorityQueue.DecreasePriority` | src/Estructuras/Estructuras.py:129-135 | nothing changes when `e` is absent or the new priority is not strictly lower; otherwise the first occurrence is taken out of both lists and re-added at the new priority |
| `PriorityQueues.PatientBBeforeA` | src/Estructuras/Estructuras.py:253-263 | the test's second add: B (priority 2) goes before A (priority 3) |
| `PriorityQueues.PatientCFirst` | src/Estructuras/Estructuras.py:253-263 | the test's third add: C (priority 1) goes to the front, giving C, B, A |
| `PriorityQueues.AdmitLaterPatients` | src/Estructuras/Estructuras.py:253-263 | admitting B with priority 2 and then C with priority 1 after A leaves the queue valid with C, B, A |
| `Graphs.WeightOf` | src/defensa_3/grafo.py:79-87 | the nested `.get`: a label is returned only for a stored edge, and it is the stored label; in a map where every neighbour is a vertex the target is a vertex; in a symmetric map the reverse edge carries the same label |
| `Graphs.WithVertex` | src/defensa_3/grafo.py:29-36 | `add_vertex`: the vertex set gains exactly `v`, and a new `v` has no neighbours |
| `Graphs.WithEdge` | src/defensa_3/grafo.py:38-55 | `add_edge`: the vertex set gains exactly the two endpoints, `o -> d` is labelled `a`, and so is `d -> o` when undirected |
| `Graphs.AddVertexIdempotent` | src/defensa_3/grafo.py:29-36 | adding a vertex twice equals adding it once; adding a present vertex changes nothing; no label changes |
| `Graphs.SetLabel` | src/defensa_3/grafo.py:52-55 | the label assignment on an existing origin changes that one label and no other |
| `Graphs.WithEdgeLabels` | src/defensa_3/grafo.py:38-55 | `add_edge` labels `o -> d` (and `d -> o` when undirected) with `a`, and leaves every other label as it was |
| `Graphs.WithEdgeKeepsInvariant` | src/defensa_3/grafo.py:38-55 | `add_edge` keeps every neighbour a vertex and keeps an undirected graph symmetric |
| `Graphs.EdgelessIsSound` | src/defensa_3/grafo.py:195-196 | the subgraph after the vertex loop, which has no edges, has only edges between members of `S` with the original labels |
| `Graphs.CopyEdgeStep` | src/defensa_3/grafo.py:198-200 | copying the original edge `o -> d` sets every label it changes to that label in the original |
| `Graphs.CopiedEdgeSound` | src/defensa_3/grafo.py:198-200 | after copying an original edge between members of `S`, any one edge of the subgraph joins members of `S` and carries its original label |
| `Graphs.WithEdgeKeepsSound` | src/defensa_3/grafo.py:198-200 | copying an original edge between members of `S` keeps every edge of the subgraph between members of `S` with its original label |
| `Graphs.Graph.constructor` | src/defensa_3/grafo.py:15-17 | a new graph of the given kind with no vertices |
| `Graphs.Graph.AddVertex` | src/defensa_3/grafo.py:29-36 | the new map is the old one with an empty neighbour map for `v` if it was absent; the invariant is kept |
| `Graphs.Graph.AddEdge` | src/defensa_3/grafo.py:38-55 | the new map is the old one with the edge added as `add_edge` does; the invariant is kept |
| `Graphs.Graph.Vertices` | src/defensa_3/grafo.py:89-95 | in a valid graph both endpoints of every edge are among the vertices |
| `Graphs.Graph.Successors` | src/defensa_3/grafo.py:57-64 | successors are vertices, and a vertex the graph lacks has none |
| `Graphs.Graph.EdgeWeight` | src/defensa_3/grafo.py:79-87 | `None` exactly when `d` is not a successor of `o`; otherwise the stored label |
| `Graphs.Graph.EdgeExists` | src/defensa_3/grafo.py:97-105 | true exactly when `d` is a successor of `o`, and exactly when `edge_weight` is not `None` |
| `Graphs.Graph.Predecessors` | src/defensa_3/grafo.py:66-77 | `u` is a predecessor of `v` if and only if `v` is a successor of `u` |
| `Graphs.Graph.AddVertices` | src/defensa_3/grafo.py:195-196 | the vertex loop of `subgraph`: the vertex set gains exactly `S` and no label changes |
| `Graphs.Graph.CopyEdge` | src/defensa_3/grafo.py:199-200 | one `add_edge` of `subgraph`: the copied edge gets the original's label, every other label is unchanged or the original's, the vertices stay `S`, and the copy stays sound |
| `Graphs.Graph.CopyEdgesFrom` | src/defensa_3/grafo.py:197-200 | the inner loop for origin `o`: afterwards every label from `o` to a member of `S` is the original's, labels that already agreed with the original still do, the vertices stay `S`, and the copy stays sound |
| `Graphs.Graph.Subgraph` | src/defensa_3/grafo.py:187-201 | a fresh graph of the same kind whose vertex set is exactly `S` and whose labels are the original's between members of `S`, and `None` elsewhere |
| `Graphs.Graph.InverseGraph` | src/defensa_3/grafo.py:123-137 | an undirected graph is refused with `NotDirected`; otherwise a fresh directed graph with every edge reversed and its label kept, whose vertices are exactly the endpoints of the original's edges |
| `Graphs.Graph.AddReversedEdges` | src/defensa_3/grafo.py:133-135 | every edge leaving `o` is added reversed with its label and no other label changes; the vertex set gains `o` (when it has an edge) and its successors; the invariant is kept |
| `Graphs.Graph.AddReversedEdge` | src/defensa_3/grafo.py:134-135 | one more `add_edge(destino, origen, arista)`: the reversed edges into `o` now cover one more successor `d`, with vertices and labels to match |
| `Graphs.ReversedStep` | src/defensa_3/grafo.py:134-135 | adding `d -> o` with the label of `o -> d` extends the reversed edges into `o` by `d` and changes no other label |
| `Graphs.UndirectedQueriesAgree` | src/defensa_3/grafo.py:79-105 | in an undirected graph `edge_exists` and `edge_weight` give the same answer for `(u, v)` and `(v, u)` |
| `Traversals.Chain` | src/grafos/recorridos.py:77-92 | following predecessor links back from `v` ends at `v` and is never empty |
| `Traversals.Get` | src/grafos/recorridos.py:90 | `.get`: a link is returned only for a key of the map, and a missing key reads as `None` |
| `Traversals.ReconstructPath` | src/grafos/recorridos.py:77-92 | the prepending loop returns exactly the chain of links from the root to the goal |
| `Traversals.UndiscoveredGoalPath` | src/grafos/recorridos.py:85-92 | a goal with no predecessor entry comes back as `[goal]`, not as an empty path |
| `Traversals.UndiscoveredGoalExample` | src/grafos/recorridos.py:85-92 | with only the start `1` discovered, the path to `2` is `[2]` |
| `Traversals.ReconstructPathOrEmpty` | src/grafos/recorridos.py:77-92 | the documented behaviour: empty exactly when the goal has no entry, the chain otherwise |
| `Traversals.TreeIsRanked` | src/grafos/recorridos.py:19-38 | the search tree's depths make the links acyclic, so reconstruction stops |
| `Traversals.TreeChain` | src/grafos/recorridos.py:77-92 | in the search tree, the chain to any discovered vertex is a walk from the start along graph edges with exactly one vertex per depth |
| `Traversals.ChainIsSimple` | src/grafos/recorridos.py:77-92 | such a chain repeats no vertex |
| `Traversals.ClosedSetHoldsWalk` | src/grafos/recorridos.py:26-38 | a vertex set closed under successors that contains a walk's first vertex contains the whole walk |
| `Traversals.DiscoverKeepsTree` | src/grafos/recorridos.py:36-38 | recording a new vertex found from a discovered vertex along an edge keeps the predecessor map a tree rooted at the start |
| `Traversals.DiscoverKeepsFrontier` | src/grafos/recorridos.py:36-38 | appending a newly discovered vertex keeps the frontier duplicate-free and disjoint from the visited set |
| `Traversals.VisitFrontier` | src/grafos/recorridos.py:27-33 | the vertex taken from the frontier is not yet visited, and visiting it keeps the discovered set as visited plus frontier |
| `Traversals.ExpandKeepsDiscovered` | src/grafos/recorridos.py:32-38 | once the successors of `v` are discovered, `v` can join the visited vertices |
| `Traversals.UndiscoveredIsFarther` | src/grafos/recorridos.py:26-38 | any walk from the start to an undiscovered vertex has more edges than the depth of the queue's head |
| `Traversals.UndiscoveredBeyondHead` | src/grafos/recorridos.py:26-38 | the same for every undiscovered vertex and every walk to it at once |
| `Traversals.LevelsBehindHead` | src/grafos/recorridos.py:27 | after `popleft`, the rest of the queue is ordered by depth within the level of the removed head and the next |
| `Traversals.Discover` | src/grafos/recorridos.py:36-38 | one neighbour of `v` (also src/grafos/recorridos.py:70-72): a new one joins the end of the frontier with `v` as its predecessor, one level deeper; a visited or waiting one changes nothing; the tree and frontier facts are kept and the neighbour is discovered afterwards |
| `Traversals.DiscoverKeepsDepthBound` | src/grafos/recorridos.py:36-38 | a vertex discovered at depth `r` keeps every depth a lower bound on walk lengths, given that no walk reaches it in fewer than `r` steps |
| `Traversals.AppendKeepsBand` | src/grafos/recorridos.py:37 | appending a new vertex one level below `v` keeps the queue ordered by depth within the level of `v` and the next |
| `Traversals.DiscoverDeeper` | src/grafos/recorridos.py:35-38 | one successor in `bfs`: as `Discover`, also keeping the depth bounds and the queue's depth order |
| `Traversals.BfsVisit` | src/grafos/recorridos.py:27-38 | one round for a head that is not the goal: the head was not yet visited and now is; the tree, frontier, depth-order and depth-bound facts are kept |
| `Traversals.EnqueueSuccessors` | src/grafos/recorridos.py:35-38 | the successors of `v` are all discovered afterwards; new ones are one level deeper than `v` at the back of the queue, and the tree, frontier and level facts are kept |
| `Traversals.BfsTree` | src/grafos/recorridos.py:19-38 | the loop ends with a predecessor tree rooted at the start whose depths are shortest distances, containing the goal exactly when it is reachable |
| `Traversals.Bfs` | src/grafos/recorridos.py:10-41 | a reachable goal yields a shortest walk from start to goal that repeats no vertex; an unreachable goal yields `[goal]`; `start == goal` yields `[start]` |
| `Traversals.BfsOrEmpty` | src/grafos/recorridos.py:10-41 | the documented result: a shortest walk when reachable, and `[]` exactly when unreachable |
| `Traversals.Enumerate` | src/grafos/recorridos.py:69 | the neighbours as a list: each member of the set exactly once |
| `Traversals.PushNeighbours` | src/grafos/recorridos.py:69-72 | every successor of `v` is discovered afterwards; new ones are pushed with `v` as predecessor, and the tree and frontier facts are kept |
| `Traversals.DfsTree` | src/grafos/recorridos.py:52-72 | the stack loop ends with a predecessor tree rooted at the start containing the goal exactly when it is reachable |
| `Traversals.Dfs` | src/grafos/recorridos.py:43-75 | a reachable goal yields a walk from start to goal that repeats no vertex; an unreachable goal yields `[goal]`; `start == goal` yields `[start]` |
| `Traversals.DfsOrEmpty` | src/grafos/recorridos.py:43-75 | the documented result: such a walk when reachable, and `[]` exactly when unreachable |
| `GeneNetworks.MakeGene` | src/defensa_3/defensa_3.py:14-18 | a negative mutation count is refused with `NegativeMutations`; otherwise the gene carries exactly the given fields |
| `GeneNetworks.GeneNetwork.constructor` | src/defensa_3/defensa_3.py:37-39 | a new network: an empty graph of the given kind and an empty name table |
| `GeneNetworks.GeneNetwork.FromGraph` | src/defensa_3/defensa_3.py:85 | a network around a given graph with an empty name table |
| `GeneNetworks.GeneNetwork.Subgraph` | src/defensa_3/defensa_3.py:84-92 | a fresh network of the same kind whose genes are exactly `S` and whose relations are the original's between members of `S` |
| `GeneNetworks.ReachableAvoidingNothing` | src/defensa_3/defensa_3.py:95-108 | with an empty visited set, reachability while avoiding it is plain reachability |
| `GeneNetworks.GiveUpMeansUnreachable` | src/defensa_3/defensa_3.py:102-108 | if the newly visited vertices are closed under successors and do not include the goal, no walk from the start avoiding the old visited set reaches the goal |
| `GeneNetworks.ExtendAvoidingWalk` | src/defensa_3/defensa_3.py:102-105 | a step to an unvisited successor followed by a successful recursive walk is a walk from the start with no repeated vertex that avoids the caller's visited set |
| `GeneNetworks.Dfs` | src/defensa_3/defensa_3.py:95-108 | the visited set only grows and gains `start`; on success the path is its entry value plus a walk from `start` to `end` that repeats no vertex and, past `start`, avoids the entry visited set; on failure the path is back to its entry value; success holds exactly when such a walk exists |

## Left out

- Drawing and printing are not modelled: `draw`, `draw_simple`, every
  `__str__`, and the print-based test scripts. They are output through
  foreign plotting libraries and the console.
- `RedGenica.parse`, `Red_social.parse` and the `Relacion` counter are not
  modelled: file input with string, float and date parsing, plus global
  mutable state.
- `RelacionGenAGen.of` is not modelled: its range check is on a float. The
  gene network's edge label is left as a type parameter.
- `main()` of src/defensa_3/defensa_3.py, src/funciones/ and src/lecturas/ are
  not modelled: they are console and file input and floating-point numerics.
- Order keys and priorities are integers. The source accepts any comparable
  key, and the model fixes one total order on integers.
- Set iteration order is open. The source iterates Python sets and dicts in
  their internal order; the model picks members in an unspecified order.
  This affects which shortest path BFS picks and which walk DFS finds, not
  the proved properties.
- `Traversals.DfsTree`: src/grafos/recorridos.py:5 imports `Grafo` from a
  module `grafo` that is not part of this model. The only `Grafo` here,
  src/defensa_3/grafo.py, has no `neighbors` method. With it, `dfs` would
  raise `AttributeError` at src/grafos/recorridos.py:69. Also, `reversed` of
  the set that its `successors` returns would raise `TypeError`. The model
  replaces `neighbors` with the successors listed in some order
  (`Traversals.Enumerate`), taken in reverse.
- `Traversals.ReconstructPath`: on a predecessor map with a cycle,
  `reconstruir_camino` loops forever. The requirement `Ranked` excludes such
  maps. The maps that `bfs` and `dfs` build are trees rooted at the start,
  so they always meet it (`Traversals.TreeIsRanked`).
- `GeneNetworks.Dfs`: the source updates the caller's `visited` set and
  `path` list in place. The model passes them in and hands the updated
  values back, so aliasing of those objects is not captured.
- `GeneNetworks.GeneNetwork`: `RedGenica` inherits from `Grafo`. The model
  holds a `Graph` instead, so graph operations are reached through `graph`.
- `GeneNetworks.GeneNetwork.Subgraph` builds the new graph by delegating to
  `Graphs.Graph.Subgraph`. The source's loops go through `successors(gen1)`
  and `adyacencias[gen1][gen2]`, which visits the same pairs as
  `Grafo.subgraph`'s `.items()`.
- `Graphs.Graph.Subgraph`: `subgraph` is defined twice, identically, at
  src/defensa_3/grafo.py:107-121 and 187-201. The later definition is the
  one in effect, and it is the one modelled.
- `EmptyContainerError` is raised by `remove` but never defined in the
  source, so the Python program would fail with a `NameError` there. The
  model reads it as the intended empty-container error.

## Findings

| source | as written | input that shows it | evidently intended | confidence | as-written member | corrected member |
|---|---|---|---|---|---|---|
| src/grafos/recorridos.py:85-92 | when the goal never received a predecessor entry, `reconstruir_camino` still prepends it once before `.get` returns `None`, so `bfs` and `dfs` return `[destino]` for an unreachable goal | a graph with vertices 1 and 2 and no edges, searching from 1 to 2: the predecessor map is `{1: None}` and the result is `[2]` | `[]` when there is no path, as the doc-comments at src/grafos/recorridos.py:17 and :50 state | high; not executed | `Traversals.ReconstructPath` with `Traversals.UndiscoveredGoalExample` (also `Traversals.Bfs`, `Traversals.Dfs`) | `Traversals.ReconstructPathOrEmpty` (used by `Traversals.BfsOrEmpty`, `Traversals.DfsOrEmpty`) |
