/** `useGraphLayout` (src/hooks/useGraphLayout.ts): validation, sorting and
    layout in one call, with every exception turned into an empty layout and
    an error. */
module GraphLayoutHook {
  import opened Wrappers
  import opened Seqs
  import opened Types
  import opened GraphMaps
  import opened Validation
  import opened TopoProofs
  import opened ValidationProofs
  import opened Layout

  /** The default palette, which the hook always uses. */
  const DefaultColors: seq<string> :=
    ["#4ECDC4", "#FF6B6B", "#FED766", "#45B7D1", "#7CFFCB", "#F7B267", "#F4A261", "#E76F51"]

  /** What the hook's `catch` receives: a rejection from `validateAndSort`,
      or the `TypeError` of `assignBranches` reading a row with no node
      (possible only when an edge targets an unknown id). */
  datatype LayoutFailure = Invalid(reason: LayoutError) | MissingNode

  /** `LayoutData`: the layout maps and the error, if any. */
  datatype LayoutData = LayoutData(layout: Layout, error: Option<LayoutFailure>)

  /** Every row returned by the walk has a node. */
  predicate RowsHaveNodes(sorted: seq<string>, nodeMap: map<string, Node>) {
    forall v :: v in sorted ==> v in nodeMap
  }

  /** The rows `validateAndSort` accepts are in an order the branch loop can
      use whenever each of them has a node. */
  lemma AcceptedRowsRenderable(nodes: seq<Node>, edges: seq<Edge>)
    requires ValidateAndSort(nodes, edges).Success?
    requires RowsHaveNodes(ValidateAndSort(nodes, edges).value, BuildGraphMaps(nodes, edges).nodeMap)
    ensures RenderOrder(ValidateAndSort(nodes, edges).value, BuildGraphMaps(nodes, edges).nodeMap,
                        BuildGraphMaps(nodes, edges).parentMap)
  {
    if |nodes| > 0 {
      ValidateAndSortStages(nodes, edges);
      SortedParentsFirst(nodes, edges);
    }
  }

  /** The body of the hook's `try`/`catch` over a palette: validate and
      sort, then lay out, with any failure giving the empty layout. */
  function LayoutOrError(nodes: seq<Node>, edges: seq<Edge>, order: seq<string>, colors: seq<string>): (d: LayoutData)
    ensures d.error.Some? ==> d.layout == EmptyLayout
    ensures d.error.None? ==> ValidateAndSort(nodes, edges).Success?
    ensures ValidateAndSort(nodes, edges).Failure? ==> d.error == Some(Invalid(ValidateAndSort(nodes, edges).error))
  {
    match ValidateAndSort(nodes, edges)
    case Failure(e) => LayoutData(EmptyLayout, Some(Invalid(e)))
    case Success(sorted) =>
      var g := BuildGraphMaps(nodes, edges);
      if RowsHaveNodes(sorted, g.nodeMap) then
        AcceptedRowsRenderable(nodes, edges);
        LayoutData(CalculateLayout(nodes, edges, sorted, colors, order), None)
      else
        LayoutData(EmptyLayout, Some(MissingNode))
  }

  /** When the accepted rows include an id with no node, the layout throws
      and the hook reports the missing node with the empty layout. */
  lemma UnknownRowFails(nodes: seq<Node>, edges: seq<Edge>, order: seq<string>, colors: seq<string>, x: string)
    requires ValidateAndSort(nodes, edges).Success?
    requires x in ValidateAndSort(nodes, edges).value && x !in BuildGraphMaps(nodes, edges).nodeMap
    ensures LayoutOrError(nodes, edges, order, colors) == LayoutData(EmptyLayout, Some(MissingNode))
  {
  }

  /** `useGraphLayout`: always the default palette. */
  function UseGraphLayout(nodes: seq<Node>, edges: seq<Edge>, order: seq<string>): LayoutData {
    LayoutOrError(nodes, edges, order, DefaultColors)
  }

  /** On a graph with unique ids and valid endpoints the hook never fails by
      reading a missing node; it succeeds exactly when the node list is empty
      or the branch rules hold with no cycle, and reports the cycle exactly
      when the rules hold on a cyclic graph. */
  lemma UseGraphLayoutOutcome(nodes: seq<Node>, edges: seq<Edge>, order: seq<string>)
    requires UniqueIds(nodes) && ValidEndpoints(nodes, edges)
    ensures UseGraphLayout(nodes, edges, order).error != Some(MissingNode)
    ensures UseGraphLayout(nodes, edges, order).error.None?
            <==> |nodes| == 0 || (BranchRules(nodes, edges) && !HasCycle(edges))
    ensures UseGraphLayout(nodes, edges, order).error == Some(Invalid(CycleDetected))
            <==> |nodes| > 0 && BranchRules(nodes, edges) && HasCycle(edges)
  {
    ValidateAndSortSpec(nodes, edges);
    AcceptedRowsHaveNodes(nodes, edges);
  }

  /** With valid endpoints every accepted row has a node. */
  lemma AcceptedRowsHaveNodes(nodes: seq<Node>, edges: seq<Edge>)
    requires ValidEndpoints(nodes, edges)
    ensures ValidateAndSort(nodes, edges).Success? ==>
              RowsHaveNodes(ValidateAndSort(nodes, edges).value, BuildGraphMaps(nodes, edges).nodeMap)
  {
    if ValidateAndSort(nodes, edges).Success? && |nodes| > 0 {
      ValidateAndSortStages(nodes, edges);
      SortedInIds(nodes, edges);
    }
  }

  /** On success with unique ids and valid endpoints, every node gets a
      column, and it is the lane of its branch. */
  lemma UseGraphLayoutPlacesAll(nodes: seq<Node>, edges: seq<Edge>, order: seq<string>)
    requires UniqueIds(nodes) && ValidEndpoints(nodes, edges)
    requires UseGraphLayout(nodes, edges, order).error.None?
    ensures UseGraphLayout(nodes, edges, order).layout.nodeColumnMap.Keys == Elems(Ids(nodes))
    ensures ColumnsFollowLanes(Elems(Ids(nodes)), UseGraphLayout(nodes, edges, order).layout.nodeBranchMap,
                               UseGraphLayout(nodes, edges, order).layout.nodeColumnMap,
                               UseGraphLayout(nodes, edges, order).layout.branchLaneMap)
  {
    var r := ValidateAndSort(nodes, edges);
    var g := BuildGraphMaps(nodes, edges);
    AcceptedRowsRenderable(nodes, edges);
    var l := CalculateLayout(nodes, edges, r.value, DefaultColors, order);
    assert UseGraphLayout(nodes, edges, order).layout == l;
    LayoutColumns(g, r.value, DefaultColors, order, l);
    SameRows(nodes, edges);
  }

  /** With unique ids and valid endpoints the accepted rows are the node ids. */
  lemma SameRows(nodes: seq<Node>, edges: seq<Edge>)
    requires UniqueIds(nodes) && ValidEndpoints(nodes, edges)
    requires ValidateAndSort(nodes, edges).Success?
    ensures Elems(ValidateAndSort(nodes, edges).value) == Elems(Ids(nodes))
  {
    ValidateAndSortSpec(nodes, edges);
    var rows := ValidateAndSort(nodes, edges).value;
    forall x
      ensures x in rows <==> x in Ids(nodes)
    {
      assert x in multiset(rows) <==> x in multiset(Ids(nodes));
    }
  }
}
