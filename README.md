# Pipeline DAG check, modelled in Dafny

This project models the pipeline parse endpoint of the VectorShift backend. The endpoint receives a pipeline as a list of nodes and a list of directed edges. It answers with the number of nodes, the number of edges, and whether the edges form a directed acyclic graph.

The verdict comes from `is_dag`, an implementation of Kahn's algorithm that runs in two phases:

- **Build phase.** One pass over the edges fills an adjacency map (for each source, the targets of its edges in edge order) and an indegree map. Both maps get a key for every endpoint.
- **Drain phase.** A first-in-first-out worklist is seeded with the nodes of indegree 0. Each dequeued node is counted in `seen` and pays off its outgoing edges. A successor whose indegree drops to exactly 0 is appended to the queue. The answer is `seen == len(indegree)`.

The project has three modules:

- `Digraph` (`digraph.dfy`) defines the edge multigraph. It holds edges, endpoints, ordered successor lists, and pending-edge counts. It defines walks, cycles and `HasCycle`. It also holds the graph theory behind the verdict: a ranking (a topological order) rules out cycles, and a non-empty node set in which every node has a predecessor inside the set contains a cycle, by a pigeonhole argument.
- `Pipeline` (`pipeline.dfy`) models `is_dag` imperatively: maps reassigned in place, a `seq` used as the queue, and a counter, with loop invariants. Ghost state records the set of dequeued nodes and the step at which each one left the queue. `IsDag` is proved to return true exactly when the edge multigraph has no directed cycle. `parse_pipeline` becomes `ParsePipeline`.
- `DagExamples` (`examples_dag.dfy`) gives the verdicts for concrete pipelines: the empty list, a chain, a triangle, a duplicated back edge, and two components of which one is cyclic.

## Model

| member | source | states |
|---|---|---|
| `Digraph.EndpointsAreEdgeEnds` | main.py:49-55 | A node id becomes a key of the maps exactly when some edge starts or ends at it. |
| `Digraph.SuccessorsAreArcs` | main.py:52 | `v` appears in the adjacency list of `u` if and only if there is an edge from `u` to `v`. |
| `Digraph.SuccessorIsEndpoint` | main.py:52-53 | Every entry of an adjacency list is itself a key, so the lookups `indegree[nxt]` in the drain never miss. |
| `Digraph.PrefixStep` | main.py:49-55 | Taking one more edge adds its two endpoints, appends the target to the source's successor list and adds 1 to the target's indegree; nothing else changes. |
| `Digraph.Untouched` | main.py:52-55 | A node that no earlier edge touches starts with an empty successor list and indegree 0, which are the `setdefault` defaults. |
| `Digraph.PendingZero` | main.py:64-65 | A node's outstanding indegree is 0 exactly when every edge into it comes from a node already dequeued. |
| `Digraph.PendingAfterRemoval` | main.py:63-64 | Dequeuing `u` pays off one unit of indegree at `v` per edge from `u` to `v`, parallel edges counted separately. |
| `Digraph.RankIncreasesAlongWalk` | main.py:60-66 | If every edge goes from a lower rank to a higher rank, the rank strictly increases along any walk. |
| `Digraph.RankedIsAcyclic` | main.py:68 | A graph whose edges all respect a ranking (a dequeue order) has no directed cycle. |
| `Digraph.BackwardWalk` | main.py:60-68 | In a node set where every node has a predecessor inside the set, a walk of any length can be built backwards, staying inside the set. |
| `Digraph.Pigeonhole` | main.py:68 | A sequence longer than the set it draws from repeats an element. |
| `Digraph.ClosedSetHasCycle` | main.py:60-68 | A non-empty node set closed under predecessors contains a directed cycle, so nodes that are never dequeued prove that the graph is cyclic. |
| `Digraph.SelfLoopIsCycle` | main.py:55-68 | A self-loop `A -> A` is a cycle, so `is_dag` answers false for it. |
| `Digraph.SameArcsSameVerdict` | main.py:45-68 | The verdict depends only on which source/target pairs occur, not on edge order, multiplicity or ids. |
| `Digraph.DuplicateEdgeSameVerdict` | main.py:52-55 | Repeating an edge that is already listed, under any id, never changes the verdict, even though it raises the indegree. |
| `Digraph.CycleSurvivesMoreEdges` | main.py:45-68 | Adding edges never removes a cycle: a cycle in any component makes the whole pipeline non-acyclic. |
| `Pipeline.SubsetSize` | main.py:68 | Because the dequeued nodes are a subset of the keys, `seen == len(indegree)` holds exactly when every node has been dequeued. |
| `Pipeline.AddEdge` | main.py:50-55 | One loop step of the build phase: the key set grows by exactly the two endpoints, only the source's list changes (gaining the target at its end), and only the target's indegree changes (by +1). |
| `Pipeline.BuildStep` | main.py:49-55 | Recording edge `i` turns the maps the build loop yields for the first `i` edges into those for the first `i + 1` edges. |
| `Pipeline.BuildGraph` | main.py:49-55 | After the build loop, both maps have the endpoints as their key set. `graph[u]` is the targets of the edges from `u` in edge order. `indegree[v]` counts the edges into `v`, duplicates included. |
| `Pipeline.ZeroInDegreeNodes` | main.py:57 | The initial queue holds every node of indegree 0, and each of them once. |
| `Pipeline.OwesOne` | main.py:64 | Before a decrement, the successor's indegree is positive, so indegrees never go negative. After it, the successor is owed one edge fewer. |
| `Pipeline.ReleaseOne` | main.py:64-66 | A decremented node was neither dequeued nor queued. The worklist discipline is kept with the node appended exactly when its indegree reaches 0. |
| `Pipeline.Appended` | main.py:65-66 | The nodes the queue gained at its back are exactly those whose indegree went from positive to 0. |
| `Pipeline.PayOff` | main.py:63-66 | The inner loop lowers each indegree by the node's multiplicity in the dequeued node's successor list. Afterwards every indegree counts the edges from not-yet-dequeued sources. The old queue is kept as a prefix, and exactly the newly released nodes are appended. |
| `Pipeline.PopFrontier` | main.py:61 | The dequeued head was queued, not yet dequeued, and is a key. Moving it to the dequeued set keeps the worklist discipline. |
| `Pipeline.ExtendRanking` | main.py:60-62 | A node whose incoming edges all come from dequeued nodes can be ranked after all of them. |
| `Pipeline.Dequeue` | main.py:60-66 | One outer-loop step keeps every invariant: the worklist discipline, indegree equal to the pending edges plus the successors still to pay off, and the ranking of dequeued nodes. |
| `Pipeline.Verdict` | main.py:68 | Once the queue is empty, every node has been dequeued exactly when the graph has no cycle. |
| `Pipeline.IsDag` | main.py:45-68 | `is_dag` returns true if and only if the edge multigraph has no directed cycle. This holds for every order of the initial queue. The loop invariants keep every indegree equal to the count of edges from sources not yet dequeued, so it never goes negative. They also keep the queue free of repeats and of nodes already dequeued, so each node is enqueued at most once and `seen` never exceeds `len(indegree)`. |
| `Pipeline.ParsePipeline` | main.py:34-42 | The response carries the length of the node list as submitted, the length of the edge list, and the verdict computed from the edges alone. |
| `DagExamples.NoEdgesNoCycle` | main.py:45-68 | An empty edge list has no cycle, so `is_dag([])` is true. |
| `DagExamples.ChainIsAcyclic` | main.py:45-68 | The chain `A -> B -> C -> D` is acyclic. |
| `DagExamples.TriangleIsCyclic` | main.py:45-68 | The triangle `A -> B -> C -> A` is cyclic. |
| `DagExamples.DuplicatedBackEdgeIsCyclic` | main.py:45-68 | `A -> B` listed twice beside `B -> A` is still cyclic. |
| `DagExamples.CyclicComponentIsEnough` | main.py:45-68 | `A -> B` alone is acyclic, but adding the separate component `C <-> D` makes the graph cyclic. |

## Left out

- The web application is not modelled: the FastAPI app, the `GET /` liveness route, the route decorators and the CORS middleware configuration. None of it holds logic.
- Validation of the request body is left to the request layer, so edges are assumed well-formed. This covers the Pydantic model, the `TypedDict` edge schema, and the client error for a missing field.
- The node list's contents are typed as arbitrary values and only its length is used, so `ParsePipeline` takes a `seq<T>` for any `T`.
- `Edge.id` is carried in the `Edge` datatype but never consulted, as in the source.
- `ParsePipeline` is a method rather than a function only because it calls the `IsDag` method. It changes no state.
- The response dictionary with string keys becomes the record `ParseResponse`.
- The initial queue order is not modelled. Python seeds the queue in dict insertion order, while `ZeroInDegreeNodes` picks the zero-indegree keys in an unspecified order. The verdict is proved for every order.
- The dequeue order itself is not returned as a topological order, because the source returns only the boolean. The proof records it as the ghost `rank` map.
- Python integers are unbounded, so there is no overflow to model.
