/** The pure parts of the `DagGrid` component (src/DagGrid.tsx), which
    carries its own copy of the pipeline. Its `validateAndSort` runs the same
    stages in the same order as src/validation.ts and is modelled by the
    same function; its layout fuses branch and lane assignment into one
    loop, builds the parent lists on their own, draws edges by skipping
    those it cannot place, and sizes the header by rules of its own. Each is
    modelled as written and related to the library's version. */
module DagGrid {
  import opened Wrappers
  import opened Seqs
  import opened Types
  import opened GraphMaps
  import opened Validation
  import opened Layout
  import opened Edges
  import opened Utils
  import opened GraphLayoutHook

  // ---------------------------------------------------------------------------
  // Parent lists
  // ---------------------------------------------------------------------------

  /** An empty parent list per node, then each edge's source appended to the
      list of its target when the target is a node. */
  function GridParents(nodes: seq<Node>, edges: seq<Edge>): (m: map<string, seq<string>>)
    ensures m.Keys == Elems(Ids(nodes))
  {
    if |edges| == 0 then map id | id in Ids(nodes) :: []
    else
      var m := GridParents(nodes, edges[..|edges| - 1]);
      var e := edges[|edges| - 1];
      if e.target in m then m[e.target := m[e.target] + [e.source]] else m
  }

  lemma {:induction false} GridParentsAreSources(nodes: seq<Node>, edges: seq<Edge>)
    ensures forall v :: v in GridParents(nodes, edges) ==> GridParents(nodes, edges)[v] == Sources(edges, v)
  {
    if |edges| > 0 {
      GridParentsAreSources(nodes, edges[..|edges| - 1]);
    }
  }

  /** The component's parent lists are those of `buildGraphMaps`. */
  lemma GridParentsAgree(nodes: seq<Node>, edges: seq<Edge>)
    ensures GridParents(nodes, edges) == BuildGraphMaps(nodes, edges).parentMap
  {
    GridParentsAreSources(nodes, edges);
  }

  // ---------------------------------------------------------------------------
  // The fused branch and lane loop
  // ---------------------------------------------------------------------------

  /** One pass over the rows that sets each row's branch by the branch rule
      and, in the same turn, its column from the branch's lane, opening the
      next lane for a branch not met before. Returns the branch, column and
      lane maps. */
  function FusedAssign(sorted: seq<string>, nodeMap: map<string, Node>, parentMap: map<string, seq<string>>)
    : (r: (map<string, string>, map<string, int>, map<string, int>))
    requires RenderOrder(sorted, nodeMap, parentMap)
    ensures r.0.Keys == Elems(sorted)
  {
    if |sorted| == 0 then (map[], map[], map[])
    else
      var n := |sorted| - 1;
      var v := sorted[n];
      RenderOrderPrefix(sorted, nodeMap, parentMap, n);
      var prev := FusedAssign(sorted[..n], nodeMap, parentMap);
      assert sorted == sorted[..n] + [v];
      var b := BranchRule(v, nodeMap[v], ListAt(parentMap, v), prev.0);
      var lanes := if b in prev.2 then prev.2 else prev.2[b := |prev.2|];
      (prev.0[v := b], prev.1[v := lanes[b]], lanes)
  }

  /** The lanes depend only on the branches of the rows. */
  lemma {:induction false} AssignLanesLocal(sorted: seq<string>, nb1: map<string, string>, nb2: map<string, string>)
    requires forall v :: v in sorted ==> v in nb1 && v in nb2 && nb1[v] == nb2[v]
    ensures AssignLanes(sorted, nb1) == AssignLanes(sorted, nb2)
  {
    if |sorted| > 0 {
      AssignLanesLocal(sorted[..|sorted| - 1], nb1, nb2);
    }
  }

  /** A row listed again keeps the branch it was first given, so the branches
      of a prefix are those of the whole run. */
  lemma BranchesExtend(sorted: seq<string>, nodeMap: map<string, Node>, parentMap: map<string, seq<string>>)
    requires RenderOrder(sorted, nodeMap, parentMap) && |sorted| > 0
    ensures RenderOrder(sorted[..|sorted| - 1], nodeMap, parentMap)
    ensures forall w :: w in sorted[..|sorted| - 1] ==>
              AssignBranches(sorted, nodeMap, parentMap)[w] == AssignBranches(sorted[..|sorted| - 1], nodeMap, parentMap)[w]
  {
    var n := |sorted| - 1;
    RenderOrderPrefix(sorted, nodeMap, parentMap, n);
    AssignBranchesConsistent(sorted[..n], nodeMap, parentMap);
  }

  /** The fused loop computes exactly the branch map of `assignBranches` and
      the column and lane maps of `assignLanes` run on it. */
  lemma {:induction false} FusedAgrees(sorted: seq<string>, nodeMap: map<string, Node>, parentMap: map<string, seq<string>>)
    requires RenderOrder(sorted, nodeMap, parentMap)
    ensures FusedAssign(sorted, nodeMap, parentMap).0 == AssignBranches(sorted, nodeMap, parentMap)
    ensures FusedAssign(sorted, nodeMap, parentMap).1 == AssignLanes(sorted, AssignBranches(sorted, nodeMap, parentMap)).0
    ensures FusedAssign(sorted, nodeMap, parentMap).2 == AssignLanes(sorted, AssignBranches(sorted, nodeMap, parentMap)).1
  {
    if |sorted| > 0 {
      var n := |sorted| - 1;
      var pre := sorted[..n];
      BranchesExtend(sorted, nodeMap, parentMap);
      FusedAgrees(pre, nodeMap, parentMap);
      var v := sorted[n];
      var nb := AssignBranches(sorted, nodeMap, parentMap);
      var nbp := AssignBranches(pre, nodeMap, parentMap);
      var b := BranchRule(v, nodeMap[v], ListAt(parentMap, v), nbp);
      assert nb == nbp[v := b];
      AssignLanesLocal(pre, nb, nbp);
      var prev := FusedAssign(pre, nodeMap, parentMap);
      var lp := AssignLanes(pre, nbp);
      assert prev == (nbp, lp.0, lp.1);
      var lanes := if b in lp.1 then lp.1 else lp.1[b := |lp.1|];
      assert FusedAssign(sorted, nodeMap, parentMap) == (nb, lp.0[v := lanes[b]], lanes);
      assert AssignLanes(sorted, nb) == (lp.0[v := lanes[b]], lanes);
    }
  }

  /** The fused loop followed by the same reordering as `applyBranchOrder`,
      over a node map and parent lists. Returns the column, branch and lane
      maps. */
  function FusedLayoutMaps(nodeMap: map<string, Node>, parentMap: map<string, seq<string>>, sorted: seq<string>, order: seq<string>)
    : (r: (map<string, int>, map<string, string>, map<string, int>))
    requires RenderOrder(sorted, nodeMap, parentMap)
    ensures r.0.Keys == Elems(sorted) && r.1.Keys == Elems(sorted)
  {
    var f := FusedAssign(sorted, nodeMap, parentMap);
    FusedAgrees(sorted, nodeMap, parentMap);
    LanesReady(sorted, f.0);
    var ro := ApplyBranchOrder(order, f.2, FirstSeen(sorted, f.0), f.1, f.0);
    (ro.1, f.0, ro.0)
  }

  /** The component's `calculateLayout`, with its own node map and parent
      lists. */
  function GridLayoutMaps(nodes: seq<Node>, edges: seq<Edge>, sorted: seq<string>, order: seq<string>)
    : (r: (map<string, int>, map<string, string>, map<string, int>))
    requires RenderOrder(sorted, NodeMap(nodes), GridParents(nodes, edges))
    ensures r.0.Keys == Elems(sorted) && r.1.Keys == Elems(sorted)
  {
    FusedLayoutMaps(NodeMap(nodes), GridParents(nodes, edges), sorted, order)
  }

  /** `nodeColumnMap.size > 0 ? Math.max(0, ...values) : 0`. */
  function GridMaxColumn(sorted: seq<string>, cols: map<string, int>): int
    requires forall k :: k in sorted ==> k in cols
  {
    if |sorted| == 0 then 0
    else
      var m := MaxColumn(sorted, cols);
      if m > 0 then m else 0
  }

  /** The component's layout memo over the palette `colors`: the same error
      handling as the hook, and on success the component's own layout. */
  function GridLayout(nodes: seq<Node>, edges: seq<Edge>, order: seq<string>, colors: seq<string>): (d: LayoutData)
    ensures d.error.Some? ==> d.layout == EmptyLayout
  {
    match ValidateAndSort(nodes, edges)
    case Failure(e) => LayoutData(EmptyLayout, Some(Invalid(e)))
    case Success(sorted) =>
      if RowsHaveNodes(sorted, NodeMap(nodes)) then
        AcceptedRowsRenderableHere(nodes, edges);
        var m := GridLayoutMaps(nodes, edges, sorted, order);
        var l := Layout(m.0, m.1, m.2, GridMaxColumn(sorted, m.0),
                        CreateColorMap(BranchValues(sorted, m.1), colors), RenderIndex(sorted));
        LayoutData(l, None)
      else
        LayoutData(EmptyLayout, Some(MissingNode))
  }

  /** The node map and parent lists the component uses are the graph
      index's, so the accepted rows are in render order for them too. */
  lemma AcceptedRowsRenderableHere(nodes: seq<Node>, edges: seq<Edge>)
    requires ValidateAndSort(nodes, edges).Success?
    requires RowsHaveNodes(ValidateAndSort(nodes, edges).value, NodeMap(nodes))
    ensures RenderOrder(ValidateAndSort(nodes, edges).value, NodeMap(nodes), GridParents(nodes, edges))
  {
    assert BuildGraphMaps(nodes, edges).nodeMap == NodeMap(nodes);
    GridParentsAgree(nodes, edges);
    AcceptedRowsRenderable(nodes, edges);
  }

  /** The component's layout agrees with the library's on every input and
      palette: the same error, and on success the same maps, with the
      component's `Math.max(0, ...)` changing nothing since no column is
      negative. With the default palette it is the hook's result. */
  lemma GridLayoutAgrees(nodes: seq<Node>, edges: seq<Edge>, order: seq<string>, colors: seq<string>)
    ensures GridLayout(nodes, edges, order, colors) == LayoutOrError(nodes, edges, order, colors)
    ensures GridLayout(nodes, edges, order, DefaultColors) == UseGraphLayout(nodes, edges, order)
  {
    GridLayoutAgreesWith(nodes, edges, order, colors);
    GridLayoutAgreesWith(nodes, edges, order, DefaultColors);
  }

  lemma GridLayoutAgreesWith(nodes: seq<Node>, edges: seq<Edge>, order: seq<string>, colors: seq<string>)
    ensures GridLayout(nodes, edges, order, colors) == LayoutOrError(nodes, edges, order, colors)
  {
    var g := BuildGraphMaps(nodes, edges);
    assert g.nodeMap == NodeMap(nodes);
    if ValidateAndSort(nodes, edges).Success? && RowsHaveNodes(ValidateAndSort(nodes, edges).value, NodeMap(nodes)) {
      var sorted := ValidateAndSort(nodes, edges).value;
      AcceptedRowsRenderableHere(nodes, edges);
      GridParentsAgree(nodes, edges);
      GridSuccessAgrees(g, sorted, order, colors);
    }
  }

  /** On accepted rows the component's maps, maximum, colours and render
      index are those of the library's layout. */
  lemma GridSuccessAgrees(g: GraphIndex, sorted: seq<string>, order: seq<string>, colors: seq<string>)
    requires RenderOrder(sorted, g.nodeMap, g.parentMap)
    ensures forall k :: k in sorted ==> k in FusedLayoutMaps(g.nodeMap, g.parentMap, sorted, order).0
    ensures forall v :: v in sorted ==> v in FusedLayoutMaps(g.nodeMap, g.parentMap, sorted, order).1
    ensures var m := FusedLayoutMaps(g.nodeMap, g.parentMap, sorted, order);
            Layout(m.0, m.1, m.2, GridMaxColumn(sorted, m.0), CreateColorMap(BranchValues(sorted, m.1), colors), RenderIndex(sorted))
            == LayoutOf(g, sorted, colors, order)
  {
    FusedAgrees(sorted, g.nodeMap, g.parentMap);
    var l := LayoutOf(g, sorted, colors, order);
    LayoutColumns(g, sorted, colors, order, l);
    if |sorted| > 0 {
      var w :| w in sorted && l.nodeColumnMap[w] == l.maxCol;
      assert l.nodeColumnMap[w] == l.branchLaneMap[l.nodeBranchMap[w]];
    }
  }

  // ---------------------------------------------------------------------------
  // Edges
  // ---------------------------------------------------------------------------

  /** The component's path rule: straight when the columns match, else
      straight when the rows match, else the same rounded L as
      `calculateEdgePath`. */
  function GridPath(s: Point, t: Point, radius: real, isMerge: bool): seq<Command> {
    var dx := t.x - s.x;
    var dy := t.y - s.y;
    if dx == 0.0 then [MoveTo(s), LineTo(t)]
    else if dy == 0.0 then [MoveTo(s), LineTo(t)]
    else if isMerge then
      [MoveTo(s), LineTo(Point(s.x, t.y - Offset(dy, radius))), QuadTo(Point(s.x, t.y), Point(s.x + Offset(dx, radius), t.y)), LineTo(t)]
    else
      [MoveTo(s), LineTo(Point(t.x - Offset(dx, radius), s.y)), QuadTo(Point(t.x, s.y), Point(t.x, s.y + Offset(dy, radius))), LineTo(t)]
  }

  /** The component's edge loop: an edge with an endpoint that has no
      element is skipped; every other edge is drawn and coloured by the
      merge rule. */
  function GridDraw(edges: seq<Edge>, pos: map<string, Point>, nb: map<string, string>, colors: map<string, string>,
                    parentMap: map<string, seq<string>>, radius: real): seq<EdgeDrawing>
  {
    if |edges| == 0 then []
    else
      var e := edges[0];
      var rest := GridDraw(edges[1..], pos, nb, colors, parentMap, radius);
      if e.source !in pos || e.target !in pos then rest
      else
        var isMerge := IsMergeEdge(parentMap, e);
        [EdgeDrawing(e.id, GridPath(pos[e.source], pos[e.target], radius, isMerge), EdgeColor(e, isMerge, nb, colors))] + rest
  }

  /** The component's edge effect: with a layout error or no container it
      returns before setting anything (`None`: the previous paths stay);
      otherwise it sets the drawn edges, using its own parent lists. */
  function GridEdgePaths(layoutFailed: bool, hasContainer: bool, nodes: seq<Node>, edges: seq<Edge>, pos: map<string, Point>,
                         nb: map<string, string>, colors: map<string, string>, radius: real): Option<seq<EdgeDrawing>>
  {
    if layoutFailed || !hasContainer then None
    else Some(GridDraw(edges, pos, nb, colors, GridParents(nodes, edges), radius))
  }

  /** The drawings whose path is not empty, in order. */
  function Placed(ds: seq<EdgeDrawing>): (r: seq<EdgeDrawing>)
    ensures forall d :: d in r <==> d in ds && d.path != []
  {
    if |ds| == 0 then []
    else
      assert forall d :: d in ds <==> d == ds[0] || d in ds[1..];
      (if ds[0].path != [] then [ds[0]] else []) + Placed(ds[1..])
  }

  /** The component's path rule is `calculateEdgePath`. */
  lemma GridPathAgrees(s: Point, t: Point, radius: real, isMerge: bool)
    ensures GridPath(s, t, radius, isMerge) == EdgePath(s, t, radius, isMerge)
  {
  }

  lemma EdgePathsCons(edges: seq<Edge>, pos: map<string, Point>, nb: map<string, string>, colors: map<string, string>,
                      parentMap: map<string, seq<string>>, radius: real)
    requires |edges| > 0
    ensures EdgePaths(edges, pos, true, nb, colors, parentMap, radius)
            == [DrawEdge(edges[0], pos, nb, colors, parentMap, radius)] + EdgePaths(edges[1..], pos, true, nb, colors, parentMap, radius)
  {
  }

  /** The component draws exactly the library's drawings with a non-empty
      path, in edge order: it skips an edge that `calculateEdgePaths` would
      draw as an empty grey path, and draws every other edge the same way. */
  lemma {:induction false} GridDrawAgrees(edges: seq<Edge>, pos: map<string, Point>, nb: map<string, string>,
                                          colors: map<string, string>, parentMap: map<string, seq<string>>, radius: real)
    ensures GridDraw(edges, pos, nb, colors, parentMap, radius) == Placed(EdgePaths(edges, pos, true, nb, colors, parentMap, radius))
  {
    if |edges| > 0 {
      var e := edges[0];
      EdgePathsCons(edges, pos, nb, colors, parentMap, radius);
      GridDrawAgrees(edges[1..], pos, nb, colors, parentMap, radius);
      var ds := EdgePaths(edges, pos, true, nb, colors, parentMap, radius);
      assert ds[1..] == EdgePaths(edges[1..], pos, true, nb, colors, parentMap, radius);
      if e.source in pos && e.target in pos {
        GridPathAgrees(pos[e.source], pos[e.target], radius, IsMergeEdge(parentMap, e));
      }
    }
  }

  /** When the component sets its edges at all, it sets the library's
      drawings for the same parent lists without the unplaced ones. */
  lemma GridEdgePathsAgree(nodes: seq<Node>, edges: seq<Edge>, pos: map<string, Point>,
                           nb: map<string, string>, colors: map<string, string>, radius: real)
    ensures GridEdgePaths(false, true, nodes, edges, pos, nb, colors, radius)
            == Some(Placed(EdgePaths(edges, pos, true, nb, colors, BuildGraphMaps(nodes, edges).parentMap, radius)))
  {
    GridParentsAgree(nodes, edges);
    GridDrawAgrees(edges, pos, nb, colors, GridParents(nodes, edges), radius);
  }

  // ---------------------------------------------------------------------------
  // Header height
  // ---------------------------------------------------------------------------

  /** A header height: the configured CSS text, or a pixel count. */
  datatype HeaderSize = Given(css: string) | Pixels(px: int)

  /** The component's header rule: a configured non-empty height wins;
      otherwise, if dots or names are shown, vertical names get room for the
      longest lane name plus 32, horizontal names 96 and dots alone 12;
      with neither, 0. */
  function GridHeaderHeight(configured: Option<string>, showDots: bool, showNames: bool, vertical: bool,
                            laneNames: seq<string>): HeaderSize
  {
    if configured.Some? && configured.value != "" then Given(configured.value)
    else if showDots || showNames then
      if vertical && showNames then Pixels(NamesHeight(laneNames, 32))
      else if showNames then Pixels(96)
      else Pixels(12)
    else Pixels(0)
  }

  /** A configured non-empty height is used as given; otherwise the height
      is a pixel count that is 0 exactly when neither dots nor names are
      shown, and with vertical names it is `Math.max(8 * L + 32, 48)` for
      the longest `.length` L among the lane names: at least 48, at least 8
      pixels per UTF-16 unit of every lane name plus 32, and attained by some
      name when there are any. */
  lemma GridHeaderSpec(configured: Option<string>, showDots: bool, showNames: bool, vertical: bool,
                       laneNames: seq<string>)
    ensures configured.Some? && configured.value != "" ==>
              GridHeaderHeight(configured, showDots, showNames, vertical, laneNames) == Given(configured.value)
    ensures configured.None? || configured.value == "" ==>
              && GridHeaderHeight(configured, showDots, showNames, vertical, laneNames).Pixels?
              && (GridHeaderHeight(configured, showDots, showNames, vertical, laneNames).px == 0 <==> !showDots && !showNames)
    ensures (configured.None? || configured.value == "") && showNames && vertical ==>
              && GridHeaderHeight(configured, showDots, showNames, vertical, laneNames).px >= 48
              && (forall n :: n in laneNames ==>
                    GridHeaderHeight(configured, showDots, showNames, vertical, laneNames).px >= Utf16Length(n) * 8 + 32)
              && (laneNames != [] ==>
                    exists n :: n in laneNames && GridHeaderHeight(configured, showDots, showNames, vertical, laneNames).px
                                                  == if Utf16Length(n) > 2 then Utf16Length(n) * 8 + 32 else 48)
  {
  }

  /** Against `computeHeaderHeight`, with no configured height: the two agree
      when nothing or only dots are shown; horizontal names get 96 pixels
      instead of 36; vertical names get between 0 and 16 pixels more, and the
      same height exactly when no lane name is longer than 2 UTF-16 units. */
  lemma GridHeaderVersusUtils(configured: Option<string>, showDots: bool, showNames: bool, vertical: bool,
                              laneNames: seq<string>)
    requires configured.None? || configured.value == ""
    ensures !showNames ==> GridHeaderHeight(configured, showDots, showNames, vertical, laneNames)
                           == Pixels(HeaderHeight(showDots, showNames, vertical, laneNames))
    ensures showNames && !vertical ==> GridHeaderHeight(configured, showDots, showNames, vertical, laneNames) == Pixels(96)
                                       && HeaderHeight(showDots, showNames, vertical, laneNames) == 36
    ensures showNames && vertical ==>
              var grid := GridHeaderHeight(configured, showDots, showNames, vertical, laneNames).px;
              var lib := HeaderHeight(showDots, showNames, vertical, laneNames);
              && lib <= grid <= lib + 16
              && (grid == lib <==> forall n :: n in laneNames ==> Utf16Length(n) <= 2)
  {
    if showNames && vertical && laneNames != [] {
      var m := MaxNameLength(laneNames);
      var w :| w in laneNames && Utf16Length(w) == m.value;
      if forall n :: n in laneNames ==> Utf16Length(n) <= 2 {
        assert m.value <= 2;
      }
    }
  }

  /** A lane name of three U+1F33F characters has `.length` 6, so vertical
      names get 6 * 8 + 32 pixels, 16 more than the library's helper. */
  lemma AstralNameGridHeight()
    ensures GridHeaderHeight(None, true, true, true, ["\U{1F33F}\U{1F33F}\U{1F33F}"]) == Pixels(80)
  {
    AstralNameHeight();
  }
}
