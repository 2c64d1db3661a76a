/**
 * Concrete pipelines and their verdicts. Together with the contract of
 * `Pipeline.IsDag` (true exactly when there is no cycle) each lemma fixes
 * what the parse endpoint answers for that edge list.
 */
module DagExamples {
  import opened Digraph

  /** An empty edge list describes a graph without any cycle. */
  lemma NoEdgesNoCycle()
    ensures !HasCycle([])
  {
    RankedIsAcyclic([], map[]);
  }

  /** The chain A -> B -> C -> D is acyclic. */
  lemma ChainIsAcyclic()
    ensures !HasCycle([Edge("e1", "A", "B"), Edge("e2", "B", "C"), Edge("e3", "C", "D")])
  {
    var edges := [Edge("e1", "A", "B"), Edge("e2", "B", "C"), Edge("e3", "C", "D")];
    RankedIsAcyclic(edges, map["A" := 0, "B" := 1, "C" := 2, "D" := 3]);
  }

  /** The triangle A -> B -> C -> A is a cycle. */
  lemma TriangleIsCyclic()
    ensures HasCycle([Edge("e1", "A", "B"), Edge("e2", "B", "C"), Edge("e3", "C", "A")])
  {
    var edges := [Edge("e1", "A", "B"), Edge("e2", "B", "C"), Edge("e3", "C", "A")];
    assert IsArc(edges, "A", "B") by { assert edges[0] in edges; }
    assert IsArc(edges, "B", "C") by { assert edges[1] in edges; }
    assert IsArc(edges, "C", "A") by { assert edges[2] in edges; }
    assert IsCycle(edges, ["A", "B", "C", "A"]);
  }

  /** A -> B listed twice next to B -> A is still a cycle. */
  lemma DuplicatedBackEdgeIsCyclic()
    ensures HasCycle([Edge("e1", "A", "B"), Edge("e2", "A", "B"), Edge("e3", "B", "A")])
  {
    var edges := [Edge("e1", "A", "B"), Edge("e2", "A", "B"), Edge("e3", "B", "A")];
    assert IsArc(edges, "A", "B") by { assert edges[0] in edges; }
    assert IsArc(edges, "B", "A") by { assert edges[2] in edges; }
    assert IsCycle(edges, ["A", "B", "A"]);
  }

  /** An acyclic component A -> B beside a cyclic one C <-> D makes the whole graph cyclic. */
  lemma CyclicComponentIsEnough()
    ensures !HasCycle([Edge("e1", "A", "B")])
    ensures HasCycle([Edge("e1", "A", "B"), Edge("e2", "C", "D"), Edge("e3", "D", "C")])
  {
    RankedIsAcyclic([Edge("e1", "A", "B")], map["A" := 0, "B" := 1]);
    var edges := [Edge("e1", "A", "B"), Edge("e2", "C", "D"), Edge("e3", "D", "C")];
    assert IsArc(edges, "C", "D") by { assert edges[1] in edges; }
    assert IsArc(edges, "D", "C") by { assert edges[2] in edges; }
    assert IsCycle(edges, ["C", "D", "C"]);
  }
}
