/** The graph index built by `buildGraphMaps` (src/layout.ts): node map,
    parent and child lists in edge order, and in-degree counts. */
module GraphMaps {
  import opened Seqs
  import opened Types

  datatype GraphIndex = GraphIndex(
    nodeMap: map<string, Node>,
    parentMap: map<string, seq<string>>,
    childMap: map<string, seq<string>>,
    inDegree: map<string, int>)

  /** Sources of the edges that end at `v`, in edge order. */
  function Sources(edges: seq<Edge>, v: string): seq<string> {
    if |edges| == 0 then []
    else
      var e := edges[|edges| - 1];
      Sources(edges[..|edges| - 1], v) + (if e.target == v then [e.source] else [])
  }

  /** Targets of the edges that start at `u`, in edge order. */
  function Targets(edges: seq<Edge>, u: string): seq<string> {
    if |edges| == 0 then []
    else
      var e := edges[|edges| - 1];
      Targets(edges[..|edges| - 1], u) + (if e.source == u then [e.target] else [])
  }

  /** `x` is listed among the sources into `v` exactly when an edge runs from `x` to `v`. */
  lemma {:induction false} InSources(edges: seq<Edge>, v: string, x: string)
    ensures x in Sources(edges, v) <==> exists e :: e in edges && e.source == x && e.target == v
  {
    if |edges| > 0 {
      var init := edges[..|edges| - 1];
      var e := edges[|edges| - 1];
      InSources(init, v, x);
      assert forall e' :: e' in edges <==> e' in init || e' == e;
    }
  }

  /** `x` is listed among the targets of `u` exactly when an edge runs from `u` to `x`. */
  lemma {:induction false} InTargets(edges: seq<Edge>, u: string, x: string)
    ensures x in Targets(edges, u) <==> exists e :: e in edges && e.source == u && e.target == x
  {
    if |edges| > 0 {
      var init := edges[..|edges| - 1];
      var e := edges[|edges| - 1];
      InTargets(init, u, x);
      assert forall e' :: e' in edges <==> e' in init || e' == e;
    }
  }

  function TargetIds(edges: seq<Edge>): set<string> {
    set e | e in edges :: e.target
  }

  /** `new Map(nodes.map(n => [n.id, n]))`: a later node with the same id wins. */
  function NodeMap(nodes: seq<Node>): (m: map<string, Node>)
    ensures m.Keys == Elems(Ids(nodes))
    ensures forall id :: id in m ==> m[id].id == id
  {
    if |nodes| == 0 then map[]
    else
      var init := nodes[..|nodes| - 1];
      assert Ids(nodes) == Ids(init) + [nodes[|nodes| - 1].id];
      NodeMap(init)[nodes[|nodes| - 1].id := nodes[|nodes| - 1]]
  }

  /** With unique ids the node map returns each node under its own id. */
  lemma {:induction false} NodeMapFindsNode(nodes: seq<Node>, i: nat)
    requires UniqueIds(nodes)
    requires i < |nodes|
    ensures NodeMap(nodes)[nodes[i].id] == nodes[i]
  {
    var n := |nodes|;
    var init := nodes[..n - 1];
    assert Ids(init) == Ids(nodes)[..n - 1];
    if i < n - 1 {
      assert nodes[n - 1].id != nodes[i].id by {
        assert Ids(nodes)[n - 1] != Ids(nodes)[i];
      }
      assert init[i] == nodes[i];
      NodeMapFindsNode(init, i);
    }
  }

  /** The index before any edge: every node has in-degree 0 and no neighbours. */
  function EmptyIndex(nodes: seq<Node>): GraphIndex {
    GraphIndex(
      NodeMap(nodes),
      map id | id in Ids(nodes) :: [],
      map id | id in Ids(nodes) :: [],
      map id | id in Ids(nodes) :: 0)
  }

  lemma EmptyIndexKeys(nodes: seq<Node>)
    ensures EmptyIndex(nodes).nodeMap.Keys == Elems(Ids(nodes))
    ensures EmptyIndex(nodes).parentMap.Keys == Elems(Ids(nodes))
    ensures EmptyIndex(nodes).childMap.Keys == Elems(Ids(nodes))
    ensures EmptyIndex(nodes).inDegree.Keys == Elems(Ids(nodes))
    ensures forall v :: v in EmptyIndex(nodes).parentMap ==> EmptyIndex(nodes).parentMap[v] == []
    ensures forall v :: v in EmptyIndex(nodes).childMap ==> EmptyIndex(nodes).childMap[v] == []
    ensures forall v :: v in EmptyIndex(nodes).inDegree ==> EmptyIndex(nodes).inDegree[v] == 0
  {
  }

  /** One edge: bump the target's count (starting from 0 when the target is
      unknown) and append to the lists of endpoints that are known nodes. */
  function AddEdge(g: GraphIndex, e: Edge): GraphIndex {
    g.(inDegree := g.inDegree[e.target := (if e.target in g.inDegree then g.inDegree[e.target] else 0) + 1],
       parentMap := if e.target in g.parentMap then g.parentMap[e.target := g.parentMap[e.target] + [e.source]] else g.parentMap,
       childMap := if e.source in g.childMap then g.childMap[e.source := g.childMap[e.source] + [e.target]] else g.childMap)
  }

  /** The edges folded into `g` in array order. */
  function AddEdges(g: GraphIndex, edges: seq<Edge>): (r: GraphIndex)
    ensures r.nodeMap == g.nodeMap
    ensures r.parentMap.Keys == g.parentMap.Keys && r.childMap.Keys == g.childMap.Keys
    ensures r.inDegree.Keys == g.inDegree.Keys + TargetIds(edges)
  {
    if |edges| == 0 then g
    else
      var init := edges[..|edges| - 1];
      assert TargetIds(edges) == TargetIds(init) + {edges[|edges| - 1].target};
      AddEdge(AddEdges(g, init), edges[|edges| - 1])
  }

  lemma {:induction false} AddEdgesParents(g: GraphIndex, edges: seq<Edge>, v: string)
    requires v in g.parentMap
    ensures AddEdges(g, edges).parentMap[v] == g.parentMap[v] + Sources(edges, v)
  {
    if |edges| > 0 {
      AddEdgesParents(g, edges[..|edges| - 1], v);
    }
  }

  lemma {:induction false} AddEdgesChildren(g: GraphIndex, edges: seq<Edge>, u: string)
    requires u in g.childMap
    ensures AddEdges(g, edges).childMap[u] == g.childMap[u] + Targets(edges, u)
  {
    if |edges| > 0 {
      AddEdgesChildren(g, edges[..|edges| - 1], u);
    }
  }

  lemma {:induction false} SourcesOfNonTarget(edges: seq<Edge>, v: string)
    requires v !in TargetIds(edges)
    ensures Sources(edges, v) == []
  {
    if |edges| > 0 {
      var init := edges[..|edges| - 1];
      assert TargetIds(init) <= TargetIds(edges);
      SourcesOfNonTarget(init, v);
    }
  }

  lemma {:induction false} AddEdgesInDegree(g: GraphIndex, edges: seq<Edge>, v: string)
    requires v in AddEdges(g, edges).inDegree
    ensures AddEdges(g, edges).inDegree[v]
              == (if v in g.inDegree then g.inDegree[v] else 0) + |Sources(edges, v)|
  {
    if |edges| > 0 {
      var init := edges[..|edges| - 1];
      if v in AddEdges(g, init).inDegree {
        AddEdgesInDegree(g, init, v);
      } else {
        assert v !in g.inDegree;
        assert v !in TargetIds(init);
        SourcesOfNonTarget(init, v);
      }
    }
  }

  /** The three per-key facts of `AddEdges`, for every key at once. */
  lemma AddEdgesLists(g: GraphIndex, edges: seq<Edge>)
    ensures forall v :: v in g.parentMap ==> AddEdges(g, edges).parentMap[v] == g.parentMap[v] + Sources(edges, v)
    ensures forall u :: u in g.childMap ==> AddEdges(g, edges).childMap[u] == g.childMap[u] + Targets(edges, u)
    ensures forall v :: v in AddEdges(g, edges).inDegree ==>
              AddEdges(g, edges).inDegree[v] == (if v in g.inDegree then g.inDegree[v] else 0) + |Sources(edges, v)|
  {
    forall v | v in g.parentMap {
      AddEdgesParents(g, edges, v);
    }
    forall u | u in g.childMap {
      AddEdgesChildren(g, edges, u);
    }
    forall v | v in AddEdges(g, edges).inDegree {
      AddEdgesInDegree(g, edges, v);
    }
  }

  /** `buildGraphMaps`: parent and child lists hold exactly the edges'
      endpoints in edge order, and every in-degree counts the edges into its key
      (an unknown target gets a count but no parent list). */
  function BuildGraphMaps(nodes: seq<Node>, edges: seq<Edge>): (g: GraphIndex)
    ensures g.nodeMap.Keys == Elems(Ids(nodes))
    ensures g.parentMap.Keys == Elems(Ids(nodes)) && g.childMap.Keys == Elems(Ids(nodes))
    ensures g.inDegree.Keys == Elems(Ids(nodes)) + TargetIds(edges)
    ensures forall v :: v in g.parentMap ==> g.parentMap[v] == Sources(edges, v)
    ensures forall u :: u in g.childMap ==> g.childMap[u] == Targets(edges, u)
    ensures forall v :: v in g.inDegree ==> g.inDegree[v] == |Sources(edges, v)|
  {
    var g0 := EmptyIndex(nodes);
    EmptyIndexKeys(nodes);
    var g := AddEdges(g0, edges);
    forall v | v in g.parentMap
      ensures g.parentMap[v] == Sources(edges, v)
    {
      AddEdgesParents(g0, edges, v);
    }
    forall u | u in g.childMap
      ensures g.childMap[u] == Targets(edges, u)
    {
      AddEdgesChildren(g0, edges, u);
    }
    forall v | v in g.inDegree
      ensures g.inDegree[v] == |Sources(edges, v)|
    {
      AddEdgesInDegree(g0, edges, v);
    }
    g
  }

  /** `m.get(k) || []` on a parent or child map. */
  function ListAt(m: map<string, seq<string>>, k: string): seq<string> {
    if k in m then m[k] else []
  }

  /** With valid endpoints the counts are keyed by the node ids alone, and
      each node's count is the length of its parent list. */
  lemma InDegreeMatchesParents(nodes: seq<Node>, edges: seq<Edge>)
    requires ValidEndpoints(nodes, edges)
    ensures BuildGraphMaps(nodes, edges).inDegree.Keys == Elems(Ids(nodes))
    ensures forall v :: v in Ids(nodes) ==>
              BuildGraphMaps(nodes, edges).inDegree[v] == |BuildGraphMaps(nodes, edges).parentMap[v]|
  {
    var g := BuildGraphMaps(nodes, edges);
    assert TargetIds(edges) <= Elems(Ids(nodes));
  }

  /** A listed child always has a positive count, so a node with count 0 is
      never anyone's child. */
  lemma ChildrenHavePositiveInDegree(nodes: seq<Node>, edges: seq<Edge>, u: string, c: string)
    requires u in BuildGraphMaps(nodes, edges).childMap
    requires c in BuildGraphMaps(nodes, edges).childMap[u]
    ensures c in BuildGraphMaps(nodes, edges).inDegree
    ensures BuildGraphMaps(nodes, edges).inDegree[c] >= 1
  {
    var g := BuildGraphMaps(nodes, edges);
    InTargets(edges, u, c);
    var e :| e in edges && e.source == u && e.target == c;
    assert c in TargetIds(edges);
    InSources(edges, c, u);
  }
}
