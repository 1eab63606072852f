# Graph layout pipeline: a Dafny model

The library lays out a directed acyclic graph of commits or tasks on a grid.
Each node gets a row, a branch, a lane (column) and a colour, and each edge
gets a path drawn with rounded corners. The pipeline is sequential and
deterministic:

1. `buildGraphMaps` indexes the edges. It builds the node map, parent lists,
   child lists and in-degree counts.
2. `validateGraph` checks three branching rules.
3. `detectCycles` runs Kahn's algorithm on a copy of the in-degree counts.
4. `topologicalSort` orders the rows. It is a breadth-first walk from each
   root, with roots taken in input order.
5. `assignBranches` gives each node its declared branch, else its single
   parent's branch, else its own id.
6. `assignLanes` hands out lanes to branches in first-seen order.
7. `applyBranchOrder` applies the caller's branch order.
8. `createColorMap` cycles through the palette.
9. `calculateEdgePath` and `calculateEdgePaths` route each edge and pick its
   colour.

`useGraphLayout` composes stages 1 to 8 and turns any exception into an
empty layout with an error. `src/DagGrid.tsx` is an older component that
inlines the same pipeline. Its pure parts are modelled as a second
implementation and proved equal to the modular one, or shown to differ.

## How the model is organised

One module per source file:
- `GraphMaps`, `Algorithm`, `Validation` and `Layout` model the library files.
- `Edges` and `Utils` model the edge geometry and the pixel helpers.
- `GraphLayoutHook` models the hook, and `DagGrid` models the component.
- `KahnProofs`, `TopoProofs` and `ValidationProofs` hold the proofs about
  the two graph walks and the validation stage.
- `Cycles` relates "some node is never processed" to a directed cycle.
- `Scenarios` works two small graphs through the pipeline by hand.

Modelling choices:
- **Ordered maps.** JavaScript `Map` iteration order is insertion order.
  Where that order matters, it is passed explicitly:
  - the rule loops iterate the node ids in order (`MapKeys`);
  - the unlisted branches of a reordering come in first-seen order (`FirstSeen`);
  - the colour map takes the branch values in row order (`BranchValues`).
- **Truthiness.** A node declares a branch when the optional field is
  present and non-empty (`Types.Declares`), matching the source's
  truthiness test.
- **Errors.**
  - Errors are kinds (`Types.LayoutError`), not messages.
  - The hook's `catch` receives either a rejection from `validateAndSort` or
    the `TypeError` thrown when a row has no node (`MissingNode`).
  - A row without a node can occur only when an edge names an unknown id.
- **String lengths.** A name's `.length` counts UTF-16 code units
  (`Utils.Utf16Length`). A character above U+FFFF counts twice.
- **Geometry.**
  - Points are exact reals.
  - A path is a list of SVG path commands (move, line, quadratic curve, as in
    section 8.3 of SVG 1.1), not a string.
  - Node positions are inputs.
- **The component's own validate-and-sort.** The component's copy of
  `validateAndSort` (`src/DagGrid.tsx:86-176`) builds the same index, checks
  the same rules in the same order, and runs the same cycle check and walk.
  The `Validation` functions therefore model it too.
- **Graph preconditions.** Unique ids and valid endpoints are not checked by
  the code. They are preconditions of the theorems that need them, never of
  the functions.

## Where the code and its documentation disagree

The model follows the code in each case.
- **Dangling edges.** There is no unknown-node check, so
  `UnknownNodeReference` is never raised. Some consequences:
  - An edge from an unknown id keeps its target's count positive, so it is
    reported as a cycle.
  - An edge to an unknown id can hide a real cycle. `Scenarios.DanglingEdgeHidesCycle`
    works through nodes A and B with edges A→X and B→B:
    - the cycle check passes, because X is processed in B's place;
    - the rows are A, X;
    - the layout then fails on the missing node.
- **The row order is not a topological order.** Each row comes after
  *some* parent: the one whose step discovered it.
  `Scenarios.WalkNotTopological` shows that the edges A→C, A→B, B→C give
  the rows A, C, B.
- **Components can be interleaved.** `src/DagGrid.tsx:39` says components
  are never interleaved. That holds only for single-root components: a
  component with two roots listed apart is split around the nodes between them.
- **The fallback branch is the node's own id.** The comment at
  `src/types.ts:7` says it is `'main'`.
- **Reordering does not compact lanes.** Listed branches take their index
  in the order list. Unlisted branches continue from the order's length, so
  lanes stay distinct but can have gaps.
- **The hook ignores the caller's palette.** It always uses the default
  colours.
- **The component's header differs.** Horizontal names get 96 pixels
  instead of 36, and vertical names get 32 extra pixels instead of 16.
- **The component skips unplaced edges.** An edge with an unmounted
  endpoint is skipped instead of producing an empty grey path.

## Model

| member | source | states |
|---|---|---|
| GraphMaps.BuildGraphMaps | src/layout.ts:5-24 | node map, parent lists and child lists are keyed by exactly the node ids; each parent list is the sources of the edges into that id, each child list the targets out of it, in edge order; every in-degree counts the edges into its key, and an unknown target gets a count but no lists |
| GraphMaps.NodeMap | src/layout.ts:6 | keyed by exactly the node ids, each mapped to a node with that id |
| GraphMaps.NodeMapFindsNode | src/layout.ts:6 | with unique ids, looking up a node's id returns that node |
| GraphMaps.InSources | src/layout.ts:17-21 | an id is in the parent list of v exactly when some edge runs from it to v |
| GraphMaps.InTargets | src/layout.ts:17-21 | an id is in the child list of u exactly when some edge runs from u to it |
| GraphMaps.AddEdges | src/layout.ts:17-21 | folding the edges in keeps the node map and list keys, and adds every target to the counts |
| GraphMaps.AddEdgesLists | src/layout.ts:17-21 | folding in the edges appends to each list exactly the matching endpoints, in edge order, and raises each count by the number of edges into it |
| GraphMaps.InDegreeMatchesParents | src/layout.ts:11-21 | with valid endpoints the counts are keyed by the node ids and each count equals the length of the parent list |
| GraphMaps.ChildrenHavePositiveInDegree | src/layout.ts:18-20 | anything listed as a child has a count of at least 1 |
| Algorithm.Relax | src/algorithm.ts:16-21 | the count keys are kept, the queue only grows at its end, and each enqueue uses up one positive count |
| Algorithm.ZeroInDegree | src/algorithm.ts:9 | the initial queue holds exactly the ids whose copied count is 0, and holds no id twice when the ids are unique |
| Algorithm.Kahn | src/algorithm.ts:12-22 | the loop always ends with an empty queue |
| Algorithm.Enqueue | src/algorithm.ts:45-50 | the queue only grows at its end; the added ids are exactly the unvisited children, without repeats, and they become visited |
| KahnProofs.RelaxCounts | src/algorithm.ts:16-17 | after the child loop, each count has dropped by the number of times the id is a child |
| KahnProofs.RelaxEnqueues | src/algorithm.ts:17-20 | the child loop enqueues, once each, exactly the ids whose count reaches 0 in it |
| KahnProofs.KahnFinalInv | src/algorithm.ts:8-22 | at the end of the loop: each count is the number of edges into the id from unprocessed sources; processed and queued ids are distinct node ids, and they are exactly the ids whose count reached 0; each processed id had all its parents processed before it |
| KahnProofs.KahnOrderIsTopological | src/algorithm.ts:12-22 | every parent of a processed id was processed before it |
| KahnProofs.DetectCyclesIffCycle | src/algorithm.ts:3-25 | with unique ids and valid endpoints, the result is true exactly when the edges contain a directed cycle |
| KahnProofs.CycleUnprocessed | src/algorithm.ts:24 | on a cyclic graph some node is never processed |
| KahnProofs.StuckHasCycle | src/algorithm.ts:24 | a node left unprocessed when the queue runs dry lies on a cycle |
| Cycles.ParentClosedHasCycle | src/algorithm.ts:24 | a non-empty set in which every member has a parent in the set contains a cycle |
| Cycles.CycleIsParentClosed | src/algorithm.ts:24 | the nodes of a cycle form a non-empty set in which every member has a parent in the set |
| TopoProofs.SortedNoDup | src/algorithm.ts:33-49 | no id is emitted twice |
| TopoProofs.SortedAfterSomeParent | src/algorithm.ts:45-49 | every row is a root or comes after a row with an edge into it |
| TopoProofs.SortedStartsAtFirstRoot | src/algorithm.ts:35-43 | the rows are empty exactly when no node has count 0; otherwise the first row is the first root in input order |
| TopoProofs.SortedRootsInOrder | src/algorithm.ts:35-39 | with unique ids, the roots appear among the rows in input order |
| TopoProofs.SortedInIds | src/algorithm.ts:45-49 | with valid endpoints every row is a node id |
| TopoProofs.SortedComplete | src/algorithm.ts:35-55 | on an acyclic graph with valid endpoints, every node id is a row |
| TopoProofs.SortedIsPermutation | src/algorithm.ts:35-55 | on an acyclic graph with unique ids and valid endpoints, the rows are a permutation of the node ids |
| TopoProofs.SortedParentsFirst | src/algorithm.ts:45-49 | a row with exactly one parent comes after that parent, so branch assignment never reads an unassigned parent |
| TopoProofs.RootsAppend | src/algorithm.ts:35-36 | the roots of a concatenation are the roots of each part, in order |
| Validation.CheckMerges | src/validation.ts:10-14 | passes exactly when no key is a branchless node with several parents; otherwise reports the first such key |
| Validation.CheckBranchPoints | src/validation.ts:16-33 | passes exactly when no key breaks a branch-point rule; otherwise reports the first key that does, with that key's error |
| Validation.ValidateGraph | src/validation.ts:5-34 | passes exactly when both rule loops pass; any merge violation is reported before any branch-point error; the stage never reports a cycle |
| ValidationProofs.BranchlessIff | src/validation.ts:11 | with unique ids, the map lookup finds no branch exactly when the node with that id declares none, an empty name counting as none |
| ValidationProofs.BranchlessCountIff | src/validation.ts:25 | the branchless-children count equals the number of children that declare no branch |
| ValidationProofs.RulesAtNode | src/validation.ts:10-31 | at each node, the merge check and the branch-point checks pass exactly when the node satisfies the three branching rules stated over the edges |
| ValidationProofs.ValidateGraphIff | src/validation.ts:5-34 | with unique ids, validation passes exactly when every node satisfies the three branching rules |
| ValidationProofs.ValidateAndSortEmpty | src/validation.ts:37 | an empty node list is accepted with no rows, whatever the edges |
| ValidationProofs.ValidateAndSortStages | src/validation.ts:36-48 | for a non-empty list: success exactly when the rules pass and no cycle is found; a cycle is reported exactly when the rules pass and the cycle check fails; on success the rows are the walk's rows |
| ValidationProofs.ValidateAndSortSpec | src/validation.ts:36-48 | with unique ids and valid endpoints: success exactly when the list is empty or the rules hold on an acyclic graph; the cycle error exactly when the rules hold on a cyclic non-empty graph; on success the rows are a permutation of the ids |
| Layout.RenderOrderPrefix | src/layout.ts:33-47 | every prefix of a usable row order is itself usable |
| Layout.AssignBranches | src/layout.ts:26-50 | every row gets exactly one branch, and nothing else does |
| Layout.AssignBranchesConsistent | src/layout.ts:33-47 | every assigned branch obeys the rule: the declared branch, else the single parent's branch, which is already assigned, else the id itself |
| Layout.BranchSeq | src/layout.ts:61-62 | the i-th entry is the branch of the i-th row |
| Layout.AssignLanes | src/layout.ts:52-70 | every row gets a column |
| Layout.AssignLanesSpec | src/layout.ts:57-67 | lanes are 0, 1, 2, … in first-seen branch order, so the lane map is a bijection from the distinct branches onto [0, k); every row's column is its branch's lane |
| Layout.AssignLanesNumbering | src/layout.ts:60-65 | the k-th branch seen gets lane k, and every lane names the branch seen at that position |
| Layout.AssignLanesColumns | src/layout.ts:61-67 | every row's column is the lane of its branch |
| Layout.LanesReady | src/layout.ts:57-67 | the first-seen branches are exactly the lane keys, without repeats, and every column's branch has a lane |
| Layout.PlaceListed | src/layout.ts:85-89 | the listed names that have a lane are exactly the ones placed |
| Layout.PlaceListedSpec | src/layout.ts:85-89 | each placed name gets its last index in the order list |
| Layout.PlaceRest | src/layout.ts:91-96 | after the second pass every branch is placed |
| Layout.PlaceRestKeeps | src/layout.ts:92-95 | the second pass never moves a listed branch |
| Layout.PlaceRestNumbers | src/layout.ts:91-96 | the unlisted branches get consecutive lanes from the starting number, in first-seen order |
| Layout.Unlisted | src/layout.ts:92-93 | exactly the branches not named in the order |
| Layout.ApplyBranchOrder | src/layout.ts:72-105 | the lane map keeps its branches and the column map keeps its rows |
| Layout.ApplyBranchOrderSpec | src/layout.ts:82-104 | for a non-empty order: a listed branch gets its last index in the list, unlisted branches get the order's length, its length plus 1, … in first-seen order, all lanes are distinct, and every column is its branch's new lane |
| Layout.MaxColumn | src/layout.ts:129-131 | 0 with no rows; otherwise a column some row has, and no row's column is larger |
| Layout.RenderIndex | src/layout.ts:133 | exactly the rows are indexed |
| Layout.RenderIndexSpec | src/layout.ts:133 | each row maps to its last position, which is its position when rows are distinct |
| Layout.PaintFrom | src/layout.ts:152-154 | every distinct branch gets a colour |
| Layout.PaintFromSpec | src/layout.ts:152-154 | the i-th distinct branch gets colour i modulo the palette size |
| Layout.CreateColorMapSpec | src/layout.ts:145-157 | with an empty palette no branch is coloured; otherwise exactly the branches present are coloured, and the i-th in first-seen order gets colour i modulo the palette size |
| Layout.DistinctBranchValues | src/layout.ts:149 | the distinct branch values, in map order, are the branches in first-seen row order |
| Layout.LayoutBranches | src/layout.ts:107-143 | the layout's branch map covers exactly the rows and obeys the branch rule everywhere |
| Layout.LayoutColumns | src/layout.ts:114-131 | every row has a column, and it is its branch's lane, before or after reordering; lanes are distinct and non-negative; with no order they are 0..k-1 in first-seen order; the maximum column is attained, or 0 with no rows |
| Layout.LayoutColours | src/layout.ts:129-142 | every row has a branch; with an empty palette no branch is coloured; otherwise exactly the branches present are coloured, and the i-th in first-seen row order has a colour, namely colour i modulo the palette size |
| Layout.ColourFollowsOriginalLane | src/layout.ts:115-140 | reordering changes only the lanes and columns: branches, colours and render index are those of the unordered layout, and a branch's colour is indexed by its original lane |
| GraphLayoutHook.AcceptedRowsRenderable | src/hooks/useGraphLayout.ts:14-15 | rows that are accepted, and that all have nodes, are in an order branch assignment can use |
| GraphLayoutHook.AcceptedRowsHaveNodes | src/hooks/useGraphLayout.ts:14-15 | with valid endpoints every accepted row has a node |
| GraphLayoutHook.LayoutOrError | src/hooks/useGraphLayout.ts:12-28 | any failure gives the all-empty layout with maximum 0; no error means validation succeeded; a validation failure is reported as that failure |
| GraphLayoutHook.UnknownRowFails | src/hooks/useGraphLayout.ts:13-27 | an accepted row with no node makes the layout throw, and the hook reports the missing node with the empty layout |
| GraphLayoutHook.UseGraphLayoutOutcome | src/hooks/useGraphLayout.ts:7-30 | with unique ids and valid endpoints, the hook never fails on a missing node, succeeds exactly when the list is empty or the rules hold on an acyclic graph, and reports the cycle exactly when the rules hold on a cyclic non-empty graph |
| GraphLayoutHook.UseGraphLayoutPlacesAll | src/hooks/useGraphLayout.ts:14-16 | on success every node gets a column, and it is the lane of its branch |
| GraphLayoutHook.SameRows | src/hooks/useGraphLayout.ts:14 | with unique ids and valid endpoints the accepted rows are exactly the node ids |
| Utils.LaneXSpacing | src/utils.ts:3-12 | lane 0 is centred half a padding plus half a node from the edge; lane centres are one column width apart; with a positive width a larger lane lies further right |
| Utils.MaxNameLength | src/utils.ts:23-25 | no length for no names; otherwise the `.length` (UTF-16 units) of some name, and no name is longer |
| Utils.Utf16LengthBounds | src/utils.ts:24 | a name's `.length` is between its number of characters and twice that, and equals the number of characters exactly when no character is above U+FFFF |
| Utils.AstralNameHeight | src/utils.ts:21-26 | a name of three U+1F33F characters has `.length` 6, so its vertical header is 64 pixels |
| Utils.HeaderHeightSpec | src/utils.ts:14-27 | with vertical names: at least 48, even with no branches; at least 8 per UTF-16 unit plus 16 for every name longer than 4 units; attained by some name; and a function of the set of names alone |
| Utils.SameNamesSameMax | src/utils.ts:23-25 | two name lists with the same names have the same longest length |
| Utils.MaxBelow | src/utils.ts:23-25 | the longest name of a sub-collection is no longer than the longest of the whole |
| Edges.EdgePath | src/edges.ts:4-31 | the path starts at the source and ends at the target, and is a single straight segment exactly when they share a column or a row |
| Edges.OffsetIsSignTimes | src/edges.ts:19-29 | the corner offset used in the paths is `Math.sign(d) * radius`, and it flips sign with the direction |
| Edges.EdgePathCorner | src/edges.ts:19-30 | a bent path is line, curve, line; the curve's control point is the corner of the L (source column and target row for a merge edge, source row and target column otherwise); the curve starts on the source's leg and ends on the target's leg, each one radius from the corner, on the sides facing the two endpoints |
| Edges.EdgePathSymmetry | src/edges.ts:15-30 | a bent merge edge drawn backwards is the non-merge edge between the swapped endpoints, and vice versa; a straight edge drawn backwards is the straight edge back; every line segment runs along a row or a column |
| Edges.Reverse | src/edges.ts:15-30 | the reversed path has as many commands as the path |
| Edges.EdgePaths | src/edges.ts:44-75 | no container gives no drawings; otherwise one drawing per edge |
| Edges.EdgePathsSpec | src/edges.ts:53-74 | the i-th drawing has the i-th edge's id; its path is empty exactly when an endpoint has no element, and then it is grey; otherwise the path runs between the two centres, and its colour is the source branch's for an edge into a merge node and the target branch's otherwise, grey when uncoloured |
| DagGrid.GridParents | src/DagGrid.tsx:187-188 | keyed by exactly the node ids |
| DagGrid.GridParentsAreSources | src/DagGrid.tsx:187-188 | each list is the sources of the edges into that id, in edge order |
| DagGrid.GridParentsAgree | src/DagGrid.tsx:186-188 | the component's parent lists are the library index's |
| DagGrid.FusedAssign | src/DagGrid.tsx:197-221 | every row gets a branch |
| DagGrid.AssignLanesLocal | src/DagGrid.tsx:211-220 | lane allocation reads only the branches of the rows |
| DagGrid.BranchesExtend | src/DagGrid.tsx:197-209 | one more row never changes the branches already assigned |
| DagGrid.FusedAgrees | src/DagGrid.tsx:197-221 | the fused branch-and-lane loop gives the same branches, columns and lanes as the library's two separate passes |
| DagGrid.FusedLayoutMaps | src/DagGrid.tsx:190-258 | every row gets a column and a branch |
| DagGrid.GridLayoutMaps | src/DagGrid.tsx:180-258 | every row gets a column and a branch |
| DagGrid.GridLayout | src/DagGrid.tsx:669-709 | any failure gives the all-empty layout |
| DagGrid.AcceptedRowsRenderableHere | src/DagGrid.tsx:671-677 | the component's node map and parent lists accept the same row order |
| DagGrid.GridLayoutAgrees | src/DagGrid.tsx:669-709 | on every input and palette the component's memo gives the library's result, the same error or the same maps, its extra `Math.max(0, …)` changing nothing; with the default palette it is the hook's result |
| DagGrid.GridLayoutAgreesWith | src/DagGrid.tsx:669-709 | for one palette, the component's memo equals the library's composition |
| DagGrid.GridSuccessAgrees | src/DagGrid.tsx:678-687 | on accepted rows the component's maps, maximum, colours and render index are the library layout's |
| DagGrid.Placed | src/DagGrid.tsx:750 | exactly the drawings with a path remain |
| DagGrid.GridPathAgrees | src/DagGrid.tsx:758-779 | the component's path for an edge is the library's |
| DagGrid.EdgePathsCons | src/edges.ts:55-74 | the drawings of a non-empty edge list are the first edge's drawing followed by the rest |
| DagGrid.GridDrawAgrees | src/DagGrid.tsx:747-792 | the component's edge loop yields the library's drawings with the unplaced edges dropped, in the same order and with the same colours |
| DagGrid.GridEdgePathsAgree | src/DagGrid.tsx:738-793 | with a container and no layout error, the component's edge effect publishes the library's drawings minus the unplaced ones |
| DagGrid.GridHeaderSpec | src/DagGrid.tsx:816-835 | a configured height wins; otherwise it is 0 exactly when nothing is shown, and vertical names get `max(8L + 32, 48)` for the longest `.length` L: at least 48, at least 8 per UTF-16 unit plus 32 for every name, and attained by some name |
| DagGrid.GridHeaderVersusUtils | src/DagGrid.tsx:816-835 | against the library's helper: the same when names are hidden; 96 against 36 for horizontal names; for vertical names up to 16 more, and equal exactly when no name exceeds 2 UTF-16 units |
| DagGrid.AstralNameGridHeight | src/DagGrid.tsx:819-826 | a lane name of three U+1F33F characters gets an 80-pixel header with vertical names |
| Scenarios.WalkNotTopological | src/algorithm.ts:41-50 | with edges A→C, A→B, B→C the rows are A, C, B: C comes before its parent B |
| Scenarios.DanglingEdgeHidesCycle | src/algorithm.ts:9-24 | nodes A and B with edges A→X and B→B form a cyclic graph that is accepted with rows A, X, after which the hook reports the missing node |

## Left out

- The node label: an opaque payload that the layout never reads.
- Auto-naming mode. Only its configuration type is declared, and no
  algorithm is implemented.
- Rendering, React composition and the component's JSX.
- DOM measurement: `getNodePosition`, `getBoundingClientRect` and the
  `useEdgePaths` hook. Node centres are inputs.
- Drag-to-reorder. It is mouse events, timers and rounding; a branch order
  is simply an input.
- The timer that re-runs the component's edge effect after a reorder, and
  the memoisation dependency lists. Neither changes what is computed.
- `console.error`, and the error message text. Errors are kinds.
- SVG path strings and pixel strings. Paths are command lists and heights
  are integers.
- The component's total width and height arithmetic, which is outside the
  modelled functions.
- In-place mutation. `detectCycles` copies the counts, and `applyBranchOrder`
  rewrites the column map in place. In a value model the caller's counts
  cannot change, and the rewritten column map is the returned one.
- Unique ids and valid endpoints: the code never checks them. The theorems
  that need them say so in their preconditions.
- Algorithm.Kahn: its contract says only that the queue ends empty. What
  the loop computes is stated by `KahnProofs.KahnFinalInv` and
  `KahnProofs.DetectCyclesIffCycle`.
- Layout.CreateColorMap: with an empty palette the source stores an
  undefined colour for each branch; the model stores none. Both read back
  as the grey fallback.
- Layout.AssignLanes: the contract says only that every row gets a column.
  The lane numbering is stated by `Layout.AssignLanesSpec`.
- DagGrid.GridLayout: the contract says only that failures are empty. The
  full equality with the library is `DagGrid.GridLayoutAgrees`.
- Edges.EdgePath: coordinates are exact reals, so floating-point rounding of
  the corner points is not modelled.
- Layout.AssignBranches: requires `RenderOrder`: each row has a node, and
  a row with a single parent comes after it. The exported `assignBranches`
  and `calculateLayout` accept any rows. Out of order, a single-parent row
  gets the parent's `undefined` branch, which then gets a lane and a colour.
  A row with no node throws a TypeError. Neither case is modelled. Both
  callers meet the precondition: `TopoProofs.SortedParentsFirst` and
  `GraphLayoutHook.AcceptedRowsRenderable`.
- Utils.HeaderHeightSpec: the empty-name case uses `Math.max` of no values
  (`-Infinity`), modelled as "no length", which gives 48 as in the source.
