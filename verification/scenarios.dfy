/** Two small graphs worked through the pipeline by hand: one shows that the
    row order is not a topological order, the other that an edge to an
    unknown id can mask a cycle and reach the layout. */
module Scenarios {
  import opened Wrappers
  import opened Seqs
  import opened Types
  import opened GraphMaps
  import opened Algorithm
  import opened TopoProofs
  import opened Validation
  import opened Layout
  import opened GraphLayoutHook

  // A diamond: A has children C and B, and B has child C.
  const E1 := Edge("e1", "A", "C")
  const E2 := Edge("e2", "A", "B")
  const E3 := Edge("e3", "B", "C")

  /** One more edge extends the source and target lists of its endpoints. */
  lemma ListsSnoc(es: seq<Edge>, e: Edge, x: string)
    ensures Targets(es + [e], x) == Targets(es, x) + (if e.source == x then [e.target] else [])
    ensures Sources(es + [e], x) == Sources(es, x) + (if e.target == x then [e.source] else [])
  {
    assert (es + [e])[..|es|] == es;
  }

  lemma DiamondUnfold(x: string)
    ensures Targets([E1, E2, E3], x) == (if x == "A" then ["C", "B"] else []) + (if x == "B" then ["C"] else [])
    ensures Sources([E1, E2, E3], x) == (if x == "C" then ["A"] else []) + (if x == "B" then ["A"] else []) + (if x == "C" then ["B"] else [])
  {
    assert [E1] == [] + [E1];
    assert [E1, E2] == [E1] + [E2];
    assert [E1, E2, E3] == [E1, E2] + [E3];
    ListsSnoc([], E1, x);
    ListsSnoc([E1], E2, x);
    ListsSnoc([E1, E2], E3, x);
  }

  lemma DiamondLists()
    ensures Targets([E1, E2, E3], "A") == ["C", "B"] && Targets([E1, E2, E3], "B") == ["C"] && Targets([E1, E2, E3], "C") == []
    ensures |Sources([E1, E2, E3], "A")| == 0 && |Sources([E1, E2, E3], "B")| == 1 && |Sources([E1, E2, E3], "C")| == 2
  {
    DiamondUnfold("A");
    DiamondUnfold("B");
    DiamondUnfold("C");
  }

  lemma DiamondBfs(cm: map<string, seq<string>>)
    requires "A" in cm && "B" in cm && "C" in cm
    requires cm["A"] == ["C", "B"] && cm["B"] == ["C"] && cm["C"] == []
    ensures Bfs(cm, ["A"], 0, {"A"}, []) == (["A", "C", "B"], {"A", "B", "C"})
  {
    var all: set<string> := {"A", "B", "C"};
    assert ["C", "B"][1..] == ["B"] && ["B"][1..] == [] && ["C"][1..] == [];
    assert "A" != "B" && "A" != "C" && "B" != "C";
    assert ["A"] + ["C"] == ["A", "C"] && ["A", "C"] + ["B"] == ["A", "C", "B"];
    assert {"A"} + {"C"} == {"A", "C"} && {"A", "C"} + {"B"} == all;
    assert Enqueue(["B"], ["A", "C"], {"A", "C"}) == Enqueue([], ["A", "C", "B"], all);
    assert Enqueue(["C", "B"], ["A"], {"A"}) == Enqueue(["B"], ["A", "C"], {"A", "C"});
    assert Enqueue(["C", "B"], ["A"], {"A"}) == (["A", "C", "B"], all);
    assert Enqueue(["C"], ["A", "C", "B"], all) == (["A", "C", "B"], all);
    var q := ["A", "C", "B"];
    assert Bfs(cm, q, 3, all, q) == (q, all);
    assert Bfs(cm, q, 2, all, ["A", "C"]) == Bfs(cm, q, 3, all, q);
    assert ListAt(cm, "A") == ["C", "B"] && ListAt(cm, "B") == ["C"] && ListAt(cm, "C") == [];
    assert q[1] == "C" && q[2] == "B" && ["A", "C"] + ["B"] == q && ["A"] + ["C"] == ["A", "C"];
    assert Bfs(cm, q, 1, all, ["A"]) == Bfs(cm, q, 2, all, ["A", "C"]);
    assert [] + ["A"] == ["A"];
    assert Bfs(cm, ["A"], 0, {"A"}, []) == Bfs(cm, q, 1, all, ["A"]);
  }

  lemma DiamondWalk(cm: map<string, seq<string>>, deg: map<string, int>)
    requires "A" in cm && "B" in cm && "C" in cm
    requires cm["A"] == ["C", "B"] && cm["B"] == ["C"] && cm["C"] == []
    requires "A" in deg && deg["A"] == 0
    ensures Walk(["A", "B", "C"], 0, cm, deg, [], {}) == ["A", "C", "B"]
  {
    var all: set<string> := {"A", "B", "C"};
    var ids := ["A", "B", "C"];
    DiamondBfs(cm);
    assert ids[1] == "B" && ids[2] == "C" && "B" in all && "C" in all;
    assert Walk(ids, 3, cm, deg, ["A", "C", "B"], all) == ["A", "C", "B"];
    assert Walk(ids, 2, cm, deg, ["A", "C", "B"], all) == ["A", "C", "B"];
    assert Walk(ids, 1, cm, deg, ["A", "C", "B"], all) == ["A", "C", "B"];
    assert ids[0] == "A" && ids[1] == "B" && ids[2] == "C" && "B" in all && "C" in all;
    var none: set<string> := {};
    assert none + {"A"} == {"A"};
    assert Walk(ids, 0, cm, deg, [], {}) == Walk(ids, 1, cm, deg, ["A", "C", "B"], all);
  }

  const DiamondNodes := [Node("A", Some("main")), Node("B", None), Node("C", Some("main"))]

  lemma DiamondIndex(g: GraphIndex)
    requires g == BuildGraphMaps(DiamondNodes, [E1, E2, E3])
    ensures "A" in g.childMap && "B" in g.childMap && "C" in g.childMap
    ensures g.childMap["A"] == ["C", "B"] && g.childMap["B"] == ["C"] && g.childMap["C"] == []
    ensures "A" in g.inDegree && g.inDegree["A"] == 0
  {
    var ids := Ids(DiamondNodes);
    assert ids[0] == "A" && ids[1] == "B" && ids[2] == "C";
    assert "A" in Elems(ids) && "B" in Elems(ids) && "C" in Elems(ids);
    DiamondLists();
  }

  lemma DiamondIds()
    ensures Ids(DiamondNodes) == ["A", "B", "C"]
  {
  }

  /** The rows of the diamond are A, C, B: C is emitted as soon as A is
      processed, before its other parent B. */
  lemma WalkNotTopological()
    ensures Sorted(DiamondNodes, [E1, E2, E3]) == ["A", "C", "B"]
  {
    var g := BuildGraphMaps(DiamondNodes, [E1, E2, E3]);
    DiamondIndex(g);
    DiamondIds();
    DiamondWalk(g.childMap, g.inDegree);
  }

  // A dangling edge from A to an id with no node, and a self-loop at B.
  const D1 := Edge("d1", "A", "X")
  const D2 := Edge("d2", "B", "B")
  const Pair := [Node("A", None), Node("B", None)]

  lemma DanglingUnfold(x: string)
    ensures Targets([D1, D2], x) == (if x == "A" then ["X"] else []) + (if x == "B" then ["B"] else [])
    ensures Sources([D1, D2], x) == (if x == "X" then ["A"] else []) + (if x == "B" then ["B"] else [])
  {
    assert [D1] == [] + [D1];
    assert [D1, D2] == [D1] + [D2];
    ListsSnoc([], D1, x);
    ListsSnoc([D1], D2, x);
  }

  lemma PairIds()
    ensures Ids(Pair) == ["A", "B"]
  {
  }

  lemma PairKeys()
    ensures Elems(Ids(Pair)) == {"A", "B"}
  {
    PairIds();
    assert Elems(["A", "B"]) == {"A", "B"};
  }

  lemma DanglingIndex(g: GraphIndex)
    requires g == BuildGraphMaps(Pair, [D1, D2])
    ensures g.nodeMap.Keys == {"A", "B"} && g.childMap.Keys == {"A", "B"} && g.parentMap.Keys == {"A", "B"}
    ensures g.childMap["A"] == ["X"] && g.childMap["B"] == ["B"]
    ensures g.parentMap["A"] == [] && g.parentMap["B"] == ["B"]
    ensures "A" in g.inDegree && "B" in g.inDegree && "X" in g.inDegree
    ensures g.inDegree["A"] == 0 && g.inDegree["B"] == 1 && g.inDegree["X"] == 1
  {
    PairKeys();
    DanglingUnfold("A");
    DanglingUnfold("B");
    DanglingUnfold("X");
    assert D1 in [D1, D2];
  }

  lemma DanglingKahn(cm: map<string, seq<string>>, deg: map<string, int>)
    requires cm.Keys == {"A", "B"} && cm["A"] == ["X"] && cm["B"] == ["B"]
    requires "A" in deg && "B" in deg && "X" in deg && deg["A"] == 0 && deg["B"] == 1 && deg["X"] == 1
    ensures |Kahn(cm, KahnState(["A"], deg, [])).visited| == 2
  {
    var t := deg["X" := 0];
    assert ["X"][1..] == [];
    assert Relax(deg, [], ["X"]) == (t, ["X"]);
    assert ListAt(cm, "A") == ["X"] && ListAt(cm, "X") == [];
    var s1 := KahnStep(cm, KahnState(["A"], deg, []));
    assert s1 == KahnState(["X"], t, ["A"]);
    var s2 := KahnStep(cm, s1);
    assert s2 == KahnState([], t, ["A", "X"]);
    assert Kahn(cm, s2) == s2;
    assert Kahn(cm, KahnState(["A"], deg, [])) == Kahn(cm, s1) == Kahn(cm, s2);
  }

  lemma DanglingWalk(cm: map<string, seq<string>>, deg: map<string, int>)
    requires cm.Keys == {"A", "B"} && cm["A"] == ["X"] && cm["B"] == ["B"]
    requires "A" in deg && deg["A"] == 0 && "B" in deg && deg["B"] == 1
    ensures Walk(["A", "B"], 0, cm, deg, [], {}) == ["A", "X"]
  {
    var all: set<string> := {"A", "X"};
    var none: set<string> := {};
    assert none + {"A"} == {"A"} && {"A"} + {"X"} == all;
    assert ["X"][1..] == [] && ["A"] + ["X"] == ["A", "X"] && [] + ["A"] == ["A"];
    assert ListAt(cm, "A") == ["X"] && ListAt(cm, "X") == [];
    assert Enqueue(["X"], ["A"], {"A"}) == Enqueue([], ["A", "X"], all);
    var q := ["A", "X"];
    assert Bfs(cm, q, 2, all, q) == (q, all);
    assert Bfs(cm, q, 1, all, ["A"]) == Bfs(cm, q, 2, all, q);
    assert Bfs(cm, ["A"], 0, {"A"}, []) == Bfs(cm, q, 1, all, ["A"]);
    var ids := ["A", "B"];
    assert Walk(ids, 2, cm, deg, q, all) == q;
    assert Walk(ids, 1, cm, deg, q, all) == q;
    assert Walk(ids, 0, cm, deg, [], {}) == Walk(ids, 1, cm, deg, q, all);
  }

  lemma DanglingRules(g: GraphIndex, keys: seq<string>)
    requires forall k :: k in keys ==> k == "A" || k == "B"
    requires "A" in g.childMap && "B" in g.childMap && g.childMap["A"] == ["X"] && g.childMap["B"] == ["B"]
    requires "A" in g.parentMap && "B" in g.parentMap && g.parentMap["A"] == [] && g.parentMap["B"] == ["B"]
    ensures ValidateGraph(g, keys).Pass?
  {
    assert ListAt(g.parentMap, "A") == [] && ListAt(g.parentMap, "B") == ["B"];
    assert ListAt(g.childMap, "A") == ["X"] && ListAt(g.childMap, "B") == ["B"];
  }

  lemma DanglingRoots(deg: map<string, int>)
    requires "A" in deg && "B" in deg && deg["A"] == 0 && deg["B"] == 1
    ensures ZeroInDegree(["A", "B"], deg) == ["A"]
  {
    assert ["A", "B"][..1] == ["A"] && ["A"][..0] == [];
    assert ZeroInDegree([], deg) == [];
    assert ZeroInDegree(["A"], deg) == ["A"];
  }

  lemma PairMapKeys()
    ensures forall k :: k in MapKeys(Pair) ==> k == "A" || k == "B"
  {
    PairIds();
  }

  lemma DanglingStages(cm: map<string, seq<string>>, deg: map<string, int>)
    requires cm.Keys == {"A", "B"} && cm["A"] == ["X"] && cm["B"] == ["B"]
    requires "A" in deg && "B" in deg && "X" in deg && deg["A"] == 0 && deg["B"] == 1 && deg["X"] == 1
    ensures !DetectCycles(Pair, cm, deg)
    ensures TopologicalSort(Pair, cm, deg) == ["A", "X"]
  {
    PairIds();
    DanglingRoots(deg);
    DanglingKahn(cm, deg);
    DanglingWalk(cm, deg);
  }

  lemma DanglingAccepted(g: GraphIndex)
    requires g == BuildGraphMaps(Pair, [D1, D2])
    ensures ValidateAndSort(Pair, [D1, D2]) == Success(["A", "X"])
  {
    DanglingIndex(g);
    PairMapKeys();
    DanglingRules(g, MapKeys(Pair));
    DanglingStages(g.childMap, g.inDegree);
  }

  lemma HookMissesX(nodes: seq<Node>, edges: seq<Edge>)
    requires ValidateAndSort(nodes, edges) == Success(["A", "X"])
    requires "X" !in BuildGraphMaps(nodes, edges).nodeMap
    ensures UseGraphLayout(nodes, edges, []) == LayoutData(EmptyLayout, Some(MissingNode))
  {
    UnknownRowFails(nodes, edges, [], DefaultColors, "X");
  }

  lemma DanglingFacts()
    ensures ValidateAndSort(Pair, [D1, D2]) == Success(["A", "X"])
    ensures "X" !in BuildGraphMaps(Pair, [D1, D2]).nodeMap
  {
    var g := BuildGraphMaps(Pair, [D1, D2]);
    DanglingAccepted(g);
    DanglingIndex(g);
  }

  /** Nodes A and B with edges A to X (no such node) and B to itself. The
      graph has a cycle, yet the cycle check passes: the unknown X is
      processed in B's place, so the count of processed ids matches the node
      count. The walk then hands the layout the row X, which has no node. */
  lemma DanglingEdgeHidesCycle()
    ensures HasCycle([D1, D2])
    ensures ValidateAndSort(Pair, [D1, D2]) == Success(["A", "X"])
    ensures UseGraphLayout(Pair, [D1, D2], []) == LayoutData(EmptyLayout, Some(MissingNode))
  {
    assert D2 in [D1, D2] && Link([D1, D2], "B", "B");
    assert IsCycle([D1, D2], ["B", "B"]);
    DanglingFacts();
    HookMissesX(Pair, [D1, D2]);
  }
}
