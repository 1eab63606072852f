/** The branching rules of `validateGraph` stated over the node list and the
    edges instead of the index maps, and what `validateAndSort` returns on a
    graph with unique ids and valid endpoints. */
module ValidationProofs {
  import opened Wrappers
  import opened Seqs
  import opened Types
  import opened GraphMaps
  import opened Algorithm
  import opened KahnProofs
  import opened TopoProofs
  import opened Validation

  /** Some node with id `c` declares a branch. */
  ghost predicate DeclaredId(nodes: seq<Node>, c: string) {
    exists j :: 0 <= j < |nodes| && nodes[j].id == c && Declares(nodes[j])
  }

  /** How many of `cs`, with repetitions, name no node that declares a branch. */
  ghost function UndeclaredCount(nodes: seq<Node>, cs: seq<string>): nat {
    if |cs| == 0 then 0
    else UndeclaredCount(nodes, cs[..|cs| - 1]) + (if DeclaredId(nodes, cs[|cs| - 1]) then 0 else 1)
  }

  /** The three branching rules, node by node:
      a node with several incoming edges declares a branch;
      a node with several outgoing edges and no incoming one declares a branch;
      of the targets of a node with several outgoing edges, at most one
      lacks a declared branch. */
  ghost predicate BranchRules(nodes: seq<Node>, edges: seq<Edge>) {
    forall i :: 0 <= i < |nodes| ==>
      && (|Sources(edges, nodes[i].id)| > 1 ==> Declares(nodes[i]))
      && (|Targets(edges, nodes[i].id)| > 1 && |Sources(edges, nodes[i].id)| == 0 ==> Declares(nodes[i]))
      && (|Targets(edges, nodes[i].id)| > 1 ==> UndeclaredCount(nodes, Targets(edges, nodes[i].id)) <= 1)
  }

  /** With unique ids, the node-map lookup of the rules finds a branch
      exactly when the node with that id declares one. */
  lemma BranchlessIff(nodes: seq<Node>, c: string)
    requires UniqueIds(nodes)
    ensures Branchless(NodeMap(nodes), c) <==> !DeclaredId(nodes, c)
  {
    if DeclaredId(nodes, c) {
      var j :| 0 <= j < |nodes| && nodes[j].id == c && Declares(nodes[j]);
      NodeMapFindsNode(nodes, j);
    }
    if c in NodeMap(nodes) {
      var j :| 0 <= j < |Ids(nodes)| && Ids(nodes)[j] == c;
      NodeMapFindsNode(nodes, j);
    }
  }

  lemma {:induction false} CountFront(nodes: seq<Node>, cs: seq<string>)
    requires |cs| > 0
    ensures UndeclaredCount(nodes, cs) == (if DeclaredId(nodes, cs[0]) then 0 else 1) + UndeclaredCount(nodes, cs[1..])
  {
    if |cs| > 1 {
      var n := |cs| - 1;
      CountFront(nodes, cs[..n]);
      assert cs[..n][1..] == cs[1..][..|cs[1..]| - 1];
      assert cs[..n][0] == cs[0];
    }
  }

  /** With unique ids the count of branchless children is the count of
      targets naming no declaring node. */
  lemma {:induction false} BranchlessCountIff(nodes: seq<Node>, cs: seq<string>)
    requires UniqueIds(nodes)
    ensures BranchlessCount(NodeMap(nodes), cs) == UndeclaredCount(nodes, cs)
  {
    if |cs| > 0 {
      BranchlessIff(nodes, cs[0]);
      BranchlessCountIff(nodes, cs[1..]);
      CountFront(nodes, cs);
    }
  }

  /** The rules at one node, as `validateGraph` reads them off the index,
      are the rules at that node over the edges. */
  lemma RulesAtNode(nodes: seq<Node>, edges: seq<Edge>, i: nat)
    requires UniqueIds(nodes) && i < |nodes|
    ensures var g := BuildGraphMaps(nodes, edges);
            var id := nodes[i].id;
            && (!MergeViolation(g, id) <==> (|Sources(edges, id)| > 1 ==> Declares(nodes[i])))
            && (BranchPointError(g, id).None? <==>
                  && (|Targets(edges, id)| > 1 && |Sources(edges, id)| == 0 ==> Declares(nodes[i]))
                  && (|Targets(edges, id)| > 1 ==> UndeclaredCount(nodes, Targets(edges, id)) <= 1))
  {
    var g := BuildGraphMaps(nodes, edges);
    var id := nodes[i].id;
    assert id == Ids(nodes)[i];
    NodeMapFindsNode(nodes, i);
    assert ListAt(g.parentMap, id) == Sources(edges, id);
    assert ListAt(g.childMap, id) == Targets(edges, id);
    BranchlessCountIff(nodes, Targets(edges, id));
    RulesOfLists(g, nodes[i], Sources(edges, id), Targets(edges, id));
  }

  /** The rules at a node's id, given its parent and child lists. */
  lemma RulesOfLists(g: GraphIndex, n: Node, sources: seq<string>, targets: seq<string>)
    requires n.id in g.nodeMap && g.nodeMap[n.id] == n
    requires ListAt(g.parentMap, n.id) == sources && ListAt(g.childMap, n.id) == targets
    ensures !MergeViolation(g, n.id) <==> (|sources| > 1 ==> Declares(n))
    ensures BranchPointError(g, n.id).None? <==>
              && (|targets| > 1 && |sources| == 0 ==> Declares(n))
              && (|targets| > 1 ==> BranchlessCount(g.nodeMap, targets) <= 1)
  {
  }

  /** With unique ids, `validateGraph` passes exactly when every node
      satisfies the three branching rules. */
  lemma ValidateGraphIff(nodes: seq<Node>, edges: seq<Edge>)
    requires UniqueIds(nodes)
    ensures ValidateGraph(BuildGraphMaps(nodes, edges), MapKeys(nodes)).Pass? <==> BranchRules(nodes, edges)
  {
    if ValidateGraph(BuildGraphMaps(nodes, edges), MapKeys(nodes)).Pass? {
      RulesFromPass(nodes, edges);
    }
    if BranchRules(nodes, edges) {
      PassFromRules(nodes, edges);
    }
  }

  lemma RulesFromPass(nodes: seq<Node>, edges: seq<Edge>)
    requires UniqueIds(nodes)
    requires forall k :: k in MapKeys(nodes) ==>
               !MergeViolation(BuildGraphMaps(nodes, edges), k) && BranchPointError(BuildGraphMaps(nodes, edges), k).None?
    ensures BranchRules(nodes, edges)
  {
    forall i | 0 <= i < |nodes|
      ensures && (|Sources(edges, nodes[i].id)| > 1 ==> Declares(nodes[i]))
              && (|Targets(edges, nodes[i].id)| > 1 && |Sources(edges, nodes[i].id)| == 0 ==> Declares(nodes[i]))
              && (|Targets(edges, nodes[i].id)| > 1 ==> UndeclaredCount(nodes, Targets(edges, nodes[i].id)) <= 1)
    {
      assert nodes[i].id == Ids(nodes)[i];
      assert nodes[i].id in MapKeys(nodes);
      RulesAtNode(nodes, edges, i);
    }
  }

  lemma PassFromRules(nodes: seq<Node>, edges: seq<Edge>)
    requires UniqueIds(nodes) && BranchRules(nodes, edges)
    ensures forall k :: k in MapKeys(nodes) ==>
              !MergeViolation(BuildGraphMaps(nodes, edges), k) && BranchPointError(BuildGraphMaps(nodes, edges), k).None?
  {
    forall k | k in MapKeys(nodes)
      ensures !MergeViolation(BuildGraphMaps(nodes, edges), k) && BranchPointError(BuildGraphMaps(nodes, edges), k).None?
    {
      var i :| 0 <= i < |Ids(nodes)| && Ids(nodes)[i] == k;
      RulesAtNode(nodes, edges, i);
    }
  }

  /** An empty node list is accepted with no rows, whatever the edges. */
  lemma ValidateAndSortEmpty(nodes: seq<Node>, edges: seq<Edge>)
    requires |nodes| == 0
    ensures ValidateAndSort(nodes, edges) == Success([])
  {
  }

  /** The outcomes of `validateAndSort` on a non-empty node list in terms of
      its three stages. */
  lemma ValidateAndSortStages(nodes: seq<Node>, edges: seq<Edge>)
    requires |nodes| > 0
    ensures var g := BuildGraphMaps(nodes, edges);
            var pass := ValidateGraph(g, MapKeys(nodes)).Pass?;
            var cyclic := DetectCycles(nodes, g.childMap, g.inDegree);
            var r := ValidateAndSort(nodes, edges);
            && (r.Success? <==> pass && !cyclic)
            && (r == Failure(CycleDetected) <==> pass && cyclic)
            && (r.Success? ==> r.value == Sorted(nodes, edges))
  {
  }

  /** What `validateAndSort` returns on a graph with unique ids and valid
      endpoints: rows exactly when the node list is empty or the rules hold
      and there is no cycle; the cycle error exactly when the rules hold and
      there is a cycle; and on success the walk's rows, a permutation of the
      ids. */
  lemma ValidateAndSortSpec(nodes: seq<Node>, edges: seq<Edge>)
    requires UniqueIds(nodes) && ValidEndpoints(nodes, edges)
    ensures var r := ValidateAndSort(nodes, edges);
            && (r.Success? <==> |nodes| == 0 || (BranchRules(nodes, edges) && !HasCycle(edges)))
            && (r == Failure(CycleDetected) <==> |nodes| > 0 && BranchRules(nodes, edges) && HasCycle(edges))
            && (r.Success? ==> r.value == Sorted(nodes, edges))
            && (r.Success? ==> multiset(r.value) == multiset(Ids(nodes)))
  {
    if |nodes| > 0 {
      ValidateAndSortStages(nodes, edges);
      ValidateGraphIff(nodes, edges);
      DetectCyclesIffCycle(nodes, edges);
      if ValidateAndSort(nodes, edges).Success? {
        SortedIsPermutation(nodes, edges);
      }
    }
  }
}
