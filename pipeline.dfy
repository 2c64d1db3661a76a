/**
 * The pipeline parse endpoint: it reports how many nodes and edges were
 * submitted and whether the edges form a directed acyclic graph, decided by
 * Kahn's algorithm (repeatedly remove a node whose indegree is zero).
 */
module Pipeline {
  import opened Digraph

  /** The three facts the parse endpoint reports. */
  datatype ParseResponse = ParseResponse(numNodes: nat, numEdges: nat, isDag: bool)

  /** No node id occurs twice. */
  predicate Distinct(q: seq<string>)
  {
    forall i, j :: 0 <= i < j < |q| ==> q[i] != q[j]
  }

  /** A subset is no larger than its superset, and equally large only when equal. */
  lemma SubsetSize(a: set<string>, b: set<string>)
    requires a <= b
    ensures |a| <= |b|
    ensures |a| == |b| ==> a == b
  {
    assert b == a + (b - a);
    if |a| == |b| {
      assert |b - a| == 0;
    }
  }

  /**
   * One step of the build phase: record the edge `u -> v`. `u` gets `v`
   * appended to its successor list, `v` gets a (possibly empty) list, `u` an
   * indegree entry if it had none, and the indegree of `v` goes up by one.
   */
  method AddEdge(graph0: map<string, seq<string>>, indegree0: map<string, int>, u: string, v: string)
    returns (graph: map<string, seq<string>>, indegree: map<string, int>)
    ensures graph.Keys == graph0.Keys + {u, v} && indegree.Keys == indegree0.Keys + {u, v}
    ensures forall x :: x in graph ==> graph[x] == (if x in graph0 then graph0[x] else []) + (if x == u then [v] else [])
    ensures forall x :: x in indegree ==> indegree[x] == (if x in indegree0 then indegree0[x] else 0) + (if x == v then 1 else 0)
  {
    graph, indegree := graph0, indegree0;
    graph := graph[u := (if u in graph then graph[u] else []) + [v]];
    if v !in graph {
      graph := graph[v := []];
    }
    if u !in indegree {
      indegree := indegree[u := 0];
    }
    indegree := indegree[v := (if v in indegree then indegree[v] else 0) + 1];
  }

  /**
   * The maps the build phase produces for `edges`: a key for every endpoint,
   * the ordered successor list of each node and the number of edges into it.
   */
  ghost predicate Built(edges: seq<Edge>, graph: map<string, seq<string>>, indegree: map<string, int>)
  {
    && graph.Keys == indegree.Keys == Endpoints(edges)
    && (forall x :: x in graph ==> graph[x] == Successors(edges, x))
    && (forall x :: x in indegree ==> indegree[x] == InDegree(edges, x))
  }

  /** Recording one more edge turns the maps built for a prefix into those built for the longer prefix. */
  lemma BuildStep(edges: seq<Edge>, i: nat,
                  graph0: map<string, seq<string>>, indegree0: map<string, int>,
                  graph: map<string, seq<string>>, indegree: map<string, int>)
    requires i < |edges| && Built(edges[..i], graph0, indegree0)
    requires graph.Keys == graph0.Keys + {edges[i].source, edges[i].target}
    requires indegree.Keys == indegree0.Keys + {edges[i].source, edges[i].target}
    requires forall x :: x in graph ==>
               graph[x] == (if x in graph0 then graph0[x] else []) + (if x == edges[i].source then [edges[i].target] else [])
    requires forall x :: x in indegree ==>
               indegree[x] == (if x in indegree0 then indegree0[x] else 0) + (if x == edges[i].target then 1 else 0)
    ensures Built(edges[..i + 1], graph, indegree)
  {
    PrefixStep(edges, i, edges[i].source);
    forall x | x in graph
      ensures graph[x] == Successors(edges[..i + 1], x) && indegree[x] == InDegree(edges[..i + 1], x)
    {
      PrefixStep(edges, i, x);
      if x !in graph0 {
        Untouched(edges[..i], x);
      }
    }
  }

  /**
   * The build phase: one pass over the edges fills the adjacency map (the
   * targets of each source, in edge order) and the indegree map, with a key
   * in both for every endpoint, a target-only node getting an empty list and
   * a source-only node an indegree of 0.
   */
  method BuildGraph(edges: seq<Edge>) returns (graph: map<string, seq<string>>, indegree: map<string, int>)
    ensures graph.Keys == indegree.Keys == Endpoints(edges)
    ensures forall u :: u in graph ==> graph[u] == Successors(edges, u)
    ensures forall v :: v in indegree ==> indegree[v] == InDegree(edges, v)
  {
    graph, indegree := map[], map[];
    for i := 0 to |edges|
      invariant Built(edges[..i], graph, indegree)
    {
      var graph', indegree' := AddEdge(graph, indegree, edges[i].source, edges[i].target);
      BuildStep(edges, i, graph, indegree, graph', indegree');
      graph, indegree := graph', indegree';
    }
    assert edges[..|edges|] == edges;
  }

  /**
   * The initial worklist: every node whose indegree is 0, each once. The
   * order is left open; the verdict of IsDag holds for every order.
   */
  method ZeroInDegreeNodes(indegree: map<string, int>) returns (q: seq<string>)
    ensures Distinct(q)
    ensures forall x :: x in q <==> x in indegree && indegree[x] == 0
  {
    q := [];
    var unvisited := indegree.Keys;
    while unvisited != {}
      invariant unvisited <= indegree.Keys
      invariant Distinct(q)
      invariant forall x :: x in q <==> x in indegree && x !in unvisited && indegree[x] == 0
      decreases unvisited
    {
      var x :| x in unvisited;
      if indegree[x] == 0 {
        q := q + [x];
      }
      unvisited := unvisited - {x};
    }
  }

  /**
   * The worklist discipline of the drain loop over the node ids `keys`:
   * removed and queued nodes have indegree 0 and are kept apart, the queue
   * holds no node twice, and every other node still has a positive indegree.
   */
  ghost predicate Frontier(keys: set<string>, indegree: map<string, int>, q: seq<string>, removed: set<string>)
  {
    && indegree.Keys == keys
    && removed <= keys
    && Distinct(q)
    && (forall i :: 0 <= i < |q| ==> q[i] in keys && q[i] !in removed && indegree[q[i]] == 0)
    && (forall x :: x in removed ==> indegree[x] == 0)
    && (forall x :: x in keys && x !in removed && x !in q ==> indegree[x] > 0)
  }

  /** Each indegree counts the edges into its node whose source has not been removed. */
  ghost predicate Accounted(edges: seq<Edge>, indegree: map<string, int>, removed: set<string>)
  {
    forall x :: x in indegree ==> indegree[x] == Pending(edges, removed, x)
  }

  /**
   * What each node is still owed: its pending edges plus one per occurrence
   * among the successors `rest` not yet paid off.
   */
  ghost predicate Owes(edges: seq<Edge>, removed: set<string>, indegree: map<string, int>, rest: seq<string>)
  {
    forall x :: x in indegree ==> indegree[x] == Pending(edges, removed, x) + multiset(rest)[x]
  }

  /** Paying off the first of the outstanding successors lowers its indegree by one. */
  lemma OwesOne(edges: seq<Edge>, removed: set<string>, indegree: map<string, int>, next: string, rest: seq<string>)
    requires next in indegree && Owes(edges, removed, indegree, [next] + rest)
    ensures indegree[next] > 0
    ensures Owes(edges, removed, indegree[next := indegree[next] - 1], rest)
  {
    assert multiset([next] + rest) == multiset{next} + multiset(rest);
  }

  /**
   * Paying off one edge into a node with positive indegree keeps the worklist
   * discipline, the node joining the queue exactly when its indegree drops to 0.
   */
  lemma ReleaseOne(keys: set<string>, indegree: map<string, int>, q: seq<string>, removed: set<string>, next: string)
    requires Frontier(keys, indegree, q, removed)
    requires next in keys && indegree[next] > 0
    ensures next !in removed && next !in q
    ensures indegree[next] == 1 ==> Frontier(keys, indegree[next := 0], q + [next], removed)
    ensures indegree[next] > 1 ==> Frontier(keys, indegree[next := indegree[next] - 1], q, removed)
  {
  }

  /**
   * When the queue only grew at its back, the nodes it gained are exactly
   * those whose indegree went from positive to 0.
   */
  lemma Appended(keys: set<string>, indegree0: map<string, int>, q0: seq<string>,
                 indegree: map<string, int>, q: seq<string>, removed: set<string>)
    requires Frontier(keys, indegree0, q0, removed) && Frontier(keys, indegree, q, removed)
    requires |q0| <= |q| && q[..|q0|] == q0
    ensures forall x :: x in q[|q0|..] <==> x in keys && indegree0[x] > 0 && indegree[x] == 0
  {
    forall x ensures x in q[|q0|..] <==> x in q && x !in q0 {
      if x in q[|q0|..] {
        var k :| 0 <= k < |q[|q0|..]| && q[|q0|..][k] == x;
        assert q[|q0| + k] == x;
        assert forall i :: 0 <= i < |q0| ==> q0[i] == q[i] && q[i] != q[|q0| + k];
      }
      if x in q && x !in q0 {
        var k :| 0 <= k < |q| && q[k] == x;
        assert q[|q0|..][k - |q0|] == x;
      }
    }
  }

  /**
   * The inner loop of the drain: each successor of the node just removed
   * loses one unit of indegree per edge, and a successor whose indegree
   * drops to exactly 0 joins the back of the queue.
   */
  method PayOff(ghost edges: seq<Edge>, ghost keys: set<string>, ghost removed: set<string>,
                succ: seq<string>, indegree0: map<string, int>, q0: seq<string>)
    returns (indegree: map<string, int>, q: seq<string>)
    requires forall x :: x in succ ==> x in keys
    requires Frontier(keys, indegree0, q0, removed)
    requires Owes(edges, removed, indegree0, succ)
    ensures Frontier(keys, indegree, q, removed)
    ensures Accounted(edges, indegree, removed)
    ensures forall x :: x in indegree ==> indegree[x] == indegree0[x] - multiset(succ)[x]
    ensures |q0| <= |q| && q[..|q0|] == q0
    ensures forall x :: x in q[|q0|..] <==> x in keys && indegree0[x] > 0 && indegree[x] == 0
  {
    indegree, q := indegree0, q0;
    for j := 0 to |succ|
      invariant Frontier(keys, indegree, q, removed)
      invariant Owes(edges, removed, indegree, succ[j..])
      invariant |q0| <= |q| && q[..|q0|] == q0
    {
      var next := succ[j];
      assert succ[j..] == [next] + succ[j + 1..];
      OwesOne(edges, removed, indegree, next, succ[j + 1..]);
      ReleaseOne(keys, indegree, q, removed, next);
      indegree := indegree[next := indegree[next] - 1];
      if indegree[next] == 0 {
        q := q + [next];
      }
    }
    assert succ[|succ|..] == [];
    Appended(keys, indegree0, q0, indegree, q, removed);
  }

  /**
   * The dequeued nodes, each ranked by the step at which it left the queue:
   * every edge into a dequeued node comes from a node dequeued earlier.
   */
  ghost predicate RankedPrefix(edges: seq<Edge>, removed: set<string>, rank: map<string, nat>)
  {
    && rank.Keys == removed
    && (forall x :: x in rank ==> rank[x] < |removed|)
    && (forall e :: e in edges && e.target in removed ==> e.source in removed && rank[e.source] < rank[e.target])
  }

  /** Moving the head of the queue to the removed nodes keeps the worklist discipline. */
  lemma PopFrontier(keys: set<string>, indegree: map<string, int>, q: seq<string>, removed: set<string>)
    requires q != [] && Frontier(keys, indegree, q, removed)
    ensures q[0] in keys && q[0] !in removed
    ensures Frontier(keys, indegree, q[1..], removed + {q[0]})
  {
    assert forall i :: 0 <= i < |q[1..]| ==> q[1..][i] == q[i + 1];
  }

  /**
   * A node whose incoming edges all come from dequeued nodes may be ranked
   * after all of them.
   */
  lemma ExtendRanking(edges: seq<Edge>, removed: set<string>, rank: map<string, nat>, node: string)
    requires RankedPrefix(edges, removed, rank)
    requires node !in removed && Pending(edges, removed, node) == 0
    ensures RankedPrefix(edges, removed + {node}, rank[node := |removed|])
  {
    PendingZero(edges, removed, node);
    var removed', rank' := removed + {node}, rank[node := |removed|];
    assert |removed'| == |removed| + 1;
    assert rank'.Keys == removed';
    forall x | x in rank' ensures rank'[x] < |removed'| {
      if x != node {
        assert rank'[x] == rank[x];
      }
    }
    forall e | e in edges && e.target in removed'
      ensures e.source in removed' && rank'[e.source] < rank'[e.target]
    {
      if e.target == node {
        assert e.source in removed;
      } else {
        assert e.target in removed;
      }
    }
  }

  /**
   * Dequeuing the head of the queue keeps the worklist discipline, owes each
   * node exactly the edges from the head on top of what is still pending, and
   * extends the ranking, because every edge into the head comes from a node
   * dequeued before it.
   */
  lemma Dequeue(edges: seq<Edge>, indegree: map<string, int>, q: seq<string>, removed: set<string>, rank: map<string, nat>)
    requires q != []
    requires Frontier(Endpoints(edges), indegree, q, removed)
    requires Accounted(edges, indegree, removed)
    requires RankedPrefix(edges, removed, rank)
    ensures q[0] !in removed && q[0] in Endpoints(edges)
    ensures Frontier(Endpoints(edges), indegree, q[1..], removed + {q[0]})
    ensures forall x :: x in indegree ==>
              indegree[x] == Pending(edges, removed + {q[0]}, x) + multiset(Successors(edges, q[0]))[x]
    ensures forall x :: x in Successors(edges, q[0]) ==> x in Endpoints(edges)
    ensures RankedPrefix(edges, removed + {q[0]}, rank[q[0] := |removed|])
  {
    var node := q[0];
    PopFrontier(Endpoints(edges), indegree, q, removed);
    forall x | x in indegree
      ensures indegree[x] == Pending(edges, removed + {node}, x) + multiset(Successors(edges, node))[x]
    {
      PendingAfterRemoval(edges, removed, node, x);
    }
    forall x | x in Successors(edges, node) ensures x in Endpoints(edges) {
      SuccessorIsEndpoint(edges, node, x);
    }
    ExtendRanking(edges, removed, rank, node);
  }

  /**
   * Once the queue is empty, every node has been dequeued exactly when the
   * graph has no cycle: the ranking then orders every edge, while the nodes
   * left over each keep an unpaid edge from another leftover node.
   */
  lemma Verdict(edges: seq<Edge>, indegree: map<string, int>, removed: set<string>, rank: map<string, nat>)
    requires Frontier(Endpoints(edges), indegree, [], removed)
    requires Accounted(edges, indegree, removed)
    requires RankedPrefix(edges, removed, rank)
    ensures removed == Endpoints(edges) <==> !HasCycle(edges)
  {
    var keys := Endpoints(edges);
    if removed == keys {
      forall e | e in edges ensures e.source in rank && e.target in rank && rank[e.source] < rank[e.target] {
        EndpointsAreEdgeEnds(edges, e.target);
      }
      RankedIsAcyclic(edges, rank);
    } else {
      var stuck := keys - removed;
      assert removed <= keys;
      assert exists y :: y in keys && y !in removed;
      var x :| x in keys && x !in removed;
      forall y | y in stuck ensures HasPredecessorIn(edges, stuck, y) {
        PendingZero(edges, removed, y);
        var e :| e in edges && e.target == y && e.source !in removed;
        EndpointsAreEdgeEnds(edges, e.source);
      }
      ClosedSetHasCycle(edges, stuck, x);
    }
  }

  /**
   * The acyclicity check: build the maps, seed the queue with the nodes of
   * indegree 0, remove queued nodes first in first out while paying off their
   * outgoing edges, and report whether every node was removed. The answer is
   * true exactly when the edge multigraph has no directed cycle; along the
   * way `seen` never exceeds the number of nodes.
   */
  method IsDag(edges: seq<Edge>) returns (r: bool)
    ensures r <==> !HasCycle(edges)
  {
    var graph, indegree := BuildGraph(edges);
    ghost var keys := Endpoints(edges);
    var q := ZeroInDegreeNodes(indegree);
    var seen := 0;
    // removed: the nodes dequeued so far; rank: the step at which each was dequeued
    ghost var removed: set<string> := {};
    ghost var rank: map<string, nat> := map[];
    while q != []
      invariant Frontier(keys, indegree, q, removed)
      invariant Accounted(edges, indegree, removed)
      invariant RankedPrefix(edges, removed, rank)
      invariant seen == |removed| <= |indegree|
      decreases keys - removed
    {
      Dequeue(edges, indegree, q, removed, rank);
      var node := q[0];
      q := q[1..];
      seen := seen + 1;
      rank := rank[node := |removed|];
      removed := removed + {node};
      SubsetSize(removed, keys);
      indegree, q := PayOff(edges, keys, removed, graph[node], indegree, q);
    }
    Verdict(edges, indegree, removed, rank);
    SubsetSize(removed, keys);
    r := seen == |indegree|;
  }

  /**
   * The parse endpoint: the node count is the length of the submitted node
   * list as it is (neither deduplicated nor checked against the edges), the
   * edge count the length of the edge list, and the verdict comes from the
   * edges alone.
   */
  method ParsePipeline<T>(nodes: seq<T>, edges: seq<Edge>) returns (response: ParseResponse)
    ensures response.numNodes == |nodes| && response.numEdges == |edges|
    ensures response.isDag <==> !HasCycle(edges)
  {
    var dag := IsDag(edges);
    response := ParseResponse(|nodes|, |edges|, dag);
  }
}
