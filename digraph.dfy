/**
 * The directed multigraph that a pipeline's edge list describes, and the
 * facts about it that the acyclicity check relies on: which node ids occur,
 * the ordered successor list of a node, how many edges into a node are still
 * unpaid once some sources have been removed, and what a directed cycle is.
 */
module Digraph {

  /** One edge of a pipeline, directed from `source` to `target`; `id` is never consulted. */
  datatype Edge = Edge(id: string, source: string, target: string)

  /** Every node id that occurs as the source or the target of some edge. */
  function Endpoints(edges: seq<Edge>): set<string>
  {
    if edges == [] then {}
    else
      var e := edges[|edges| - 1];
      Endpoints(edges[..|edges| - 1]) + {e.source, e.target}
  }

  /** A node id is an endpoint exactly when some edge starts or ends there. */
  lemma {:induction false} EndpointsAreEdgeEnds(edges: seq<Edge>, x: string)
    ensures x in Endpoints(edges) <==> exists e :: e in edges && (e.source == x || e.target == x)
  {
    if edges != [] {
      var init, e := edges[..|edges| - 1], edges[|edges| - 1];
      assert edges == init + [e];
      EndpointsAreEdgeEnds(init, x);
    }
  }

  /** There is at least one edge from `u` to `v`. */
  ghost predicate IsArc(edges: seq<Edge>, u: string, v: string)
  {
    exists e :: e in edges && e.source == u && e.target == v
  }

  /**
   * The targets of the edges leaving `u`, in the order the edges are listed,
   * one entry per edge (parallel edges give repeated entries).
   */
  function Successors(edges: seq<Edge>, u: string): seq<string>
  {
    if edges == [] then []
    else
      var e := edges[|edges| - 1];
      Successors(edges[..|edges| - 1], u) + (if e.source == u then [e.target] else [])
  }

  /** `v` is listed among the successors of `u` exactly when there is an edge from `u` to `v`. */
  lemma {:induction false} SuccessorsAreArcs(edges: seq<Edge>, u: string, v: string)
    ensures v in Successors(edges, u) <==> IsArc(edges, u, v)
  {
    if edges != [] {
      var init, e := edges[..|edges| - 1], edges[|edges| - 1];
      assert edges == init + [e];
      SuccessorsAreArcs(init, u, v);
      if IsArc(edges, u, v) && !IsArc(init, u, v) {
        var f :| f in edges && f.source == u && f.target == v;
        assert f == e;
      }
      if IsArc(init, u, v) {
        var f :| f in init && f.source == u && f.target == v;
        assert f in edges;
      }
    }
  }

  /** Every successor of a node is an endpoint. */
  lemma SuccessorIsEndpoint(edges: seq<Edge>, u: string, v: string)
    requires v in Successors(edges, u)
    ensures v in Endpoints(edges)
  {
    SuccessorsAreArcs(edges, u, v);
    var e :| e in edges && e.source == u && e.target == v;
    EndpointsAreEdgeEnds(edges, v);
  }

  /**
   * The number of edges into `v`, parallel edges counted separately, whose
   * source has not been removed.
   */
  function Pending(edges: seq<Edge>, removed: set<string>, v: string): nat
  {
    if edges == [] then 0
    else
      var e := edges[|edges| - 1];
      Pending(edges[..|edges| - 1], removed, v) + (if e.target == v && e.source !in removed then 1 else 0)
  }

  /** Nothing is pending into `v` exactly when every edge into `v` comes from a removed node. */
  lemma {:induction false} PendingZero(edges: seq<Edge>, removed: set<string>, v: string)
    ensures Pending(edges, removed, v) == 0 <==> forall e :: e in edges && e.target == v ==> e.source in removed
  {
    if edges != [] {
      var init, e := edges[..|edges| - 1], edges[|edges| - 1];
      assert edges == init + [e];
      PendingZero(init, removed, v);
    }
  }

  /** The number of edges into `v`, parallel edges counted separately. */
  function InDegree(edges: seq<Edge>, v: string): nat
  {
    Pending(edges, {}, v)
  }

  /** What one more edge adds to the endpoints, the successor lists and the indegrees. */
  lemma PrefixStep(edges: seq<Edge>, i: nat, x: string)
    requires i < |edges|
    ensures Endpoints(edges[..i + 1]) == Endpoints(edges[..i]) + {edges[i].source, edges[i].target}
    ensures Successors(edges[..i + 1], x)
         == Successors(edges[..i], x) + (if edges[i].source == x then [edges[i].target] else [])
    ensures InDegree(edges[..i + 1], x) == InDegree(edges[..i], x) + (if edges[i].target == x then 1 else 0)
  {
    assert edges[..i + 1][..i] == edges[..i];
  }

  /** A node that no edge touches has no successors and no incoming edge. */
  lemma {:induction false} Untouched(edges: seq<Edge>, x: string)
    requires x !in Endpoints(edges)
    ensures Successors(edges, x) == [] && InDegree(edges, x) == 0
  {
    if edges != [] {
      Untouched(edges[..|edges| - 1], x);
    }
  }

  /**
   * Removing a source `u` pays off exactly one pending edge into `v` per
   * occurrence of `v` among the successors of `u`.
   */
  lemma {:induction false} PendingAfterRemoval(edges: seq<Edge>, removed: set<string>, u: string, v: string)
    requires u !in removed
    ensures Pending(edges, removed, v) == Pending(edges, removed + {u}, v) + multiset(Successors(edges, u))[v]
  {
    if edges != [] {
      var init, e := edges[..|edges| - 1], edges[|edges| - 1];
      PendingAfterRemoval(init, removed, u, v);
      var tail := if e.source == u then [e.target] else [];
      assert multiset(Successors(edges, u)) == multiset(Successors(init, u)) + multiset(tail);
    }
  }

  /** A walk of length at least one: consecutive nodes are joined by an edge. */
  ghost predicate IsWalk(edges: seq<Edge>, p: seq<string>)
  {
    |p| >= 2 && forall i :: 0 <= i < |p| - 1 ==> IsArc(edges, p[i], p[i + 1])
  }

  /** A walk of length at least one that ends where it starts. */
  ghost predicate IsCycle(edges: seq<Edge>, p: seq<string>)
  {
    IsWalk(edges, p) && p[0] == p[|p| - 1]
  }

  /** The edge multigraph has a directed cycle (a self-loop is one). */
  ghost predicate HasCycle(edges: seq<Edge>)
  {
    exists p :: IsCycle(edges, p)
  }

  /** Every edge leads from a node of strictly smaller rank to one of strictly larger rank. */
  ghost predicate RankedBy(edges: seq<Edge>, rank: map<string, nat>)
  {
    forall e :: e in edges ==> e.source in rank && e.target in rank && rank[e.source] < rank[e.target]
  }

  /** Along a walk of a ranked graph the rank strictly increases. */
  lemma {:induction false} RankIncreasesAlongWalk(edges: seq<Edge>, rank: map<string, nat>, p: seq<string>)
    requires RankedBy(edges, rank)
    requires IsWalk(edges, p)
    ensures p[0] in rank && p[|p| - 1] in rank && rank[p[0]] < rank[p[|p| - 1]]
  {
    assert IsArc(edges, p[0], p[1]);
    var e :| e in edges && e.source == p[0] && e.target == p[1];
    if |p| > 2 {
      var rest := p[1..];
      forall i | 0 <= i < |rest| - 1 ensures IsArc(edges, rest[i], rest[i + 1]) {
        assert rest[i] == p[i + 1] && rest[i + 1] == p[i + 2];
      }
      RankIncreasesAlongWalk(edges, rank, rest);
    }
  }

  /** A graph that admits a ranking (a topological order) has no cycle. */
  lemma RankedIsAcyclic(edges: seq<Edge>, rank: map<string, nat>)
    requires RankedBy(edges, rank)
    ensures !HasCycle(edges)
  {
    if HasCycle(edges) {
      var p :| IsCycle(edges, p);
      RankIncreasesAlongWalk(edges, rank, p);
    }
  }

  /** Some edge into `y` comes from a node of `s`. */
  ghost predicate HasPredecessorIn(edges: seq<Edge>, s: set<string>, y: string)
  {
    exists e :: e in edges && e.target == y && e.source in s
  }

  /** Every node of `s` has an incoming edge whose source lies in `s` again. */
  ghost predicate ClosedUnderPredecessor(edges: seq<Edge>, s: set<string>)
  {
    forall y {:trigger HasPredecessorIn(edges, s, y)} :: y in s ==> HasPredecessorIn(edges, s, y)
  }

  /** Following incoming edges backwards from `x` stays in `s` for as long as wanted. */
  lemma {:induction false} BackwardWalk(edges: seq<Edge>, s: set<string>, x: string, n: nat) returns (p: seq<string>)
    requires x in s && ClosedUnderPredecessor(edges, s)
    ensures |p| == n + 1 && p[n] == x
    ensures forall i :: 0 <= i < |p| ==> p[i] in s
    ensures forall i :: 0 <= i < n ==> IsArc(edges, p[i], p[i + 1])
  {
    if n == 0 {
      p := [x];
    } else {
      var q := BackwardWalk(edges, s, x, n - 1);
      assert HasPredecessorIn(edges, s, q[0]);
      var e :| e in edges && e.target == q[0] && e.source in s;
      p := [e.source] + q;
      forall i | 0 <= i < n ensures IsArc(edges, p[i], p[i + 1]) {
        if i == 0 {
          assert e.source == p[0] && e.target == p[1];
        } else {
          assert p[i] == q[i - 1] && p[i + 1] == q[i];
        }
      }
    }
  }

  /** A sequence longer than the set it draws from repeats an element. */
  lemma {:induction false} Pigeonhole(p: seq<string>, s: set<string>) returns (i: nat, j: nat)
    requires forall k :: 0 <= k < |p| ==> p[k] in s
    requires |p| > |s|
    ensures i < j < |p| && p[i] == p[j]
  {
    if p[0] in p[1..] {
      var k :| 0 <= k < |p[1..]| && p[1..][k] == p[0];
      i, j := 0, k + 1;
    } else {
      var rest := s - {p[0]};
      assert s == rest + {p[0]};
      assert forall k :: 0 <= k < |p[1..]| ==> p[1..][k] in rest;
      var i', j' := Pigeonhole(p[1..], rest);
      i, j := i' + 1, j' + 1;
    }
  }

  /** A non-empty set of nodes closed under predecessors contains a cycle. */
  lemma ClosedSetHasCycle(edges: seq<Edge>, s: set<string>, x: string)
    requires x in s && ClosedUnderPredecessor(edges, s)
    ensures HasCycle(edges)
  {
    var p := BackwardWalk(edges, s, x, |s|);
    var i, j := Pigeonhole(p, s);
    var c := p[i..j + 1];
    forall k | 0 <= k < |c| - 1 ensures IsArc(edges, c[k], c[k + 1]) {
      assert c[k] == p[i + k] && c[k + 1] == p[i + k + 1];
    }
    assert IsCycle(edges, c);
  }

  /** A self-loop is a cycle. */
  lemma SelfLoopIsCycle(edges: seq<Edge>, e: Edge)
    requires e in edges && e.source == e.target
    ensures HasCycle(edges)
  {
    assert IsArc(edges, e.source, e.target);
    assert IsCycle(edges, [e.source, e.source]);
  }

  /** Whether there is a cycle depends only on which arcs exist, not on multiplicities or order. */
  lemma SameArcsSameVerdict(a: seq<Edge>, b: seq<Edge>)
    requires forall u, v :: IsArc(a, u, v) <==> IsArc(b, u, v)
    ensures HasCycle(a) <==> HasCycle(b)
  {
    if HasCycle(a) {
      var p :| IsCycle(a, p);
      assert IsCycle(b, p);
    }
    if HasCycle(b) {
      var p :| IsCycle(b, p);
      assert IsCycle(a, p);
    }
  }

  /** Repeating an edge that is already listed (under any id) never changes the verdict. */
  lemma DuplicateEdgeSameVerdict(edges: seq<Edge>, d: Edge, e: Edge)
    requires d in edges && e.source == d.source && e.target == d.target
    ensures HasCycle(edges + [e]) <==> HasCycle(edges)
  {
    forall u, v ensures IsArc(edges + [e], u, v) <==> IsArc(edges, u, v) {
      if IsArc(edges + [e], u, v) {
        var f :| f in edges + [e] && f.source == u && f.target == v;
        if f == e {
          assert d in edges && d.source == u && d.target == v;
        }
      }
      if IsArc(edges, u, v) {
        var f :| f in edges && f.source == u && f.target == v;
        assert f in edges + [e];
      }
    }
    SameArcsSameVerdict(edges + [e], edges);
  }

  /** Appending edges never removes a cycle: any cycle anywhere makes the whole graph cyclic. */
  lemma CycleSurvivesMoreEdges(edges: seq<Edge>, more: seq<Edge>)
    requires HasCycle(edges)
    ensures HasCycle(edges + more)
  {
    var p :| IsCycle(edges, p);
    forall i | 0 <= i < |p| - 1 ensures IsArc(edges + more, p[i], p[i + 1]) {
      assert IsArc(edges, p[i], p[i + 1]);
      var f :| f in edges && f.source == p[i] && f.target == p[i + 1];
      assert f in edges + more;
    }
    assert IsCycle(edges + more, p);
  }
}
