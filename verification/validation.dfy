/** The branching rules of `validateGraph` and the `validateAndSort` stage
    (src/validation.ts). The rules are checked over the map keys in insertion
    order, which is the order of first occurrence of the node ids; every merge
    check comes before every branch-point check. */
module Validation {
  import opened Wrappers
  import opened Seqs
  import opened Types
  import opened GraphMaps
  import opened Algorithm

  /** `!nodeMap.get(id)?.branch`: an id with no node counts as branchless. */
  predicate Branchless(nodeMap: map<string, Node>, id: string) {
    id !in nodeMap || !Declares(nodeMap[id])
  }

  /** `children.filter(c => !nodeMap.get(c)?.branch).length`. */
  function BranchlessCount(nodeMap: map<string, Node>, children: seq<string>): nat {
    if |children| == 0 then 0
    else (if Branchless(nodeMap, children[0]) then 1 else 0) + BranchlessCount(nodeMap, children[1..])
  }

  /** The merge rule fails at `id`: more than one parent, no branch. */
  predicate MergeViolation(g: GraphIndex, id: string) {
    |ListAt(g.parentMap, id)| > 1 && Branchless(g.nodeMap, id)
  }

  /** The branch-point rules at `id`, for a node with more than one child:
      a root needs a branch, and at most one child may lack one. */
  function BranchPointError(g: GraphIndex, id: string): Option<LayoutError> {
    var children := ListAt(g.childMap, id);
    if |children| <= 1 then None
    else if |ListAt(g.parentMap, id)| == 0 && Branchless(g.nodeMap, id) then Some(RootBranchPointMissingBranch(id))
    else if BranchlessCount(g.nodeMap, children) > 1 then Some(AmbiguousBranchChildren(id, BranchlessCount(g.nodeMap, children)))
    else None
  }

  /** The first loop: the first key, in order, that breaks the merge rule. */
  function CheckMerges(g: GraphIndex, keys: seq<string>): (r: Outcome<LayoutError>)
    ensures r.Pass? <==> forall k :: k in keys ==> !MergeViolation(g, k)
    ensures r.Fail? ==> exists i :: 0 <= i < |keys| && r.error == MissingBranchOnMerge(keys[i]) && MergeViolation(g, keys[i])
                                    && forall j :: 0 <= j < i ==> !MergeViolation(g, keys[j])
  {
    if |keys| == 0 then Pass
    else if MergeViolation(g, keys[0]) then Fail(MissingBranchOnMerge(keys[0]))
    else
      var r := CheckMerges(g, keys[1..]);
      assert forall k :: k in keys <==> k == keys[0] || k in keys[1..];
      if r.Fail? then
        MergeFailShift(g, keys, r.error);
        r
      else r
  }

  /** A merge failure first found in the tail is the first one overall
      when the head passes. */
  lemma MergeFailShift(g: GraphIndex, keys: seq<string>, e: LayoutError)
    requires |keys| > 0 && !MergeViolation(g, keys[0])
    requires exists i :: 0 <= i < |keys[1..]| && e == MissingBranchOnMerge(keys[1..][i]) && MergeViolation(g, keys[1..][i])
                         && forall j :: 0 <= j < i ==> !MergeViolation(g, keys[1..][j])
    ensures exists i :: 0 <= i < |keys| && e == MissingBranchOnMerge(keys[i]) && MergeViolation(g, keys[i])
                        && forall j :: 0 <= j < i ==> !MergeViolation(g, keys[j])
  {
    var i :| 0 <= i < |keys[1..]| && e == MissingBranchOnMerge(keys[1..][i]) && MergeViolation(g, keys[1..][i])
             && forall j :: 0 <= j < i ==> !MergeViolation(g, keys[1..][j]);
    assert keys[i + 1] == keys[1..][i];
    forall j | 0 <= j < i + 1
      ensures !MergeViolation(g, keys[j])
    {
      if j > 0 {
        assert keys[j] == keys[1..][j - 1];
      }
    }
  }

  /** The second loop: the first key, in order, that breaks a branch-point rule. */
  function CheckBranchPoints(g: GraphIndex, keys: seq<string>): (r: Outcome<LayoutError>)
    ensures r.Pass? <==> forall k :: k in keys ==> BranchPointError(g, k).None?
    ensures r.Fail? ==> exists i :: 0 <= i < |keys| && Some(r.error) == BranchPointError(g, keys[i])
                                    && forall j :: 0 <= j < i ==> BranchPointError(g, keys[j]).None?
  {
    if |keys| == 0 then Pass
    else if BranchPointError(g, keys[0]).Some? then Fail(BranchPointError(g, keys[0]).value)
    else
      var r := CheckBranchPoints(g, keys[1..]);
      assert forall k :: k in keys <==> k == keys[0] || k in keys[1..];
      if r.Fail? then
        BranchPointFailShift(g, keys, r.error);
        r
      else r
  }

  /** A branch-point failure first found in the tail is the first one
      overall when the head passes. */
  lemma BranchPointFailShift(g: GraphIndex, keys: seq<string>, e: LayoutError)
    requires |keys| > 0 && BranchPointError(g, keys[0]).None?
    requires exists i :: 0 <= i < |keys[1..]| && Some(e) == BranchPointError(g, keys[1..][i])
                         && forall j :: 0 <= j < i ==> BranchPointError(g, keys[1..][j]).None?
    ensures exists i :: 0 <= i < |keys| && Some(e) == BranchPointError(g, keys[i])
                        && forall j :: 0 <= j < i ==> BranchPointError(g, keys[j]).None?
  {
    var i :| 0 <= i < |keys[1..]| && Some(e) == BranchPointError(g, keys[1..][i])
             && forall j :: 0 <= j < i ==> BranchPointError(g, keys[1..][j]).None?;
    assert keys[i + 1] == keys[1..][i];
    forall j | 0 <= j < i + 1
      ensures BranchPointError(g, keys[j]).None?
    {
      if j > 0 {
        assert keys[j] == keys[1..][j - 1];
      }
    }
  }

  /** `validateGraph`: passes when no key breaks a rule; a merge failure
      anywhere wins over any branch-point failure. */
  function ValidateGraph(g: GraphIndex, keys: seq<string>): (r: Outcome<LayoutError>)
    ensures r.Pass? <==> (forall k :: k in keys ==> !MergeViolation(g, k))
                         && (forall k :: k in keys ==> BranchPointError(g, k).None?)
    ensures (exists k :: k in keys && MergeViolation(g, k)) ==> r.Fail? && r.error.MissingBranchOnMerge?
    ensures r.Fail? && !r.error.MissingBranchOnMerge? ==> forall k :: k in keys ==> !MergeViolation(g, k)
    ensures r.Fail? ==> !r.error.CycleDetected?
  {
    var m := CheckMerges(g, keys);
    if m.Fail? then m else CheckBranchPoints(g, keys)
  }

  /** The keys of the parent and child maps in iteration order. */
  function MapKeys(nodes: seq<Node>): seq<string> {
    Distinct(Ids(nodes))
  }

  /** `validateAndSort`: nothing is checked for an empty node list; otherwise
      the rules, then the cycle check, then the walk. */
  function ValidateAndSort(nodes: seq<Node>, edges: seq<Edge>): Result<seq<string>, LayoutError> {
    if |nodes| == 0 then Success([])
    else
      var g := BuildGraphMaps(nodes, edges);
      var v := ValidateGraph(g, MapKeys(nodes));
      if v.Fail? then Failure(v.error)
      else if DetectCycles(nodes, g.childMap, g.inDegree) then Failure(CycleDetected)
      else Success(TopologicalSort(nodes, g.childMap, g.inDegree))
  }
}
