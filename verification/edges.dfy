/** Edge geometry and colouring of src/edges.ts. A path is kept as its list
    of SVG commands rather than as text. */
module Edges {
  import opened Types
  import opened GraphMaps

  /** A node centre relative to the container, in pixels. */
  datatype Point = Point(x: real, y: real)

  /** The three SVG path commands the edges use. */
  datatype Command = MoveTo(to: Point) | LineTo(to: Point) | QuadTo(control: Point, to: Point)

  /** `Math.sign`. */
  function Sign(d: real): real {
    if d > 0.0 then 1.0 else if d < 0.0 then -1.0 else 0.0
  }

  /** `Math.sign(d) * r`: the distance `r` taken in the direction of `d`,
      written without a product. */
  function Offset(d: real, r: real): real {
    if d > 0.0 then r else if d < 0.0 then -r else 0.0
  }

  lemma OffsetIsSignTimes(d: real, r: real)
    ensures Offset(d, r) == Sign(d) * r
    ensures Offset(-d, r) == -Offset(d, r)
  {
  }

  /** `calculateEdgePath`: a straight line when source and target share a
      column or a row; otherwise an L with one rounded corner, which a merge
      edge turns in the target's row and any other edge turns in the
      source's row. */
  function EdgePath(s: Point, t: Point, radius: real, isMerge: bool): (p: seq<Command>)
    ensures |p| >= 2 && p[0] == MoveTo(s) && p[|p| - 1] == LineTo(t)
    ensures |p| == 2 <==> s.x == t.x || s.y == t.y
  {
    var dx := t.x - s.x;
    var dy := t.y - s.y;
    if dx == 0.0 || dy == 0.0 then [MoveTo(s), LineTo(t)]
    else
      var h := Offset(dx, radius);
      var v := Offset(dy, radius);
      if isMerge then
        [MoveTo(s), LineTo(Point(s.x, t.y - v)), QuadTo(Point(s.x, t.y), Point(s.x + h, t.y)), LineTo(t)]
      else
        [MoveTo(s), LineTo(Point(t.x - h, s.y)), QuadTo(Point(t.x, s.y), Point(t.x, s.y + v)), LineTo(t)]
  }

  /** Where a command leaves the pen. */
  function EndOf(c: Command): Point {
    c.to
  }

  /** The same path drawn from its end back to its start: the points in
      reverse order, each command keeping its kind and control point. */
  function Reverse(p: seq<Command>): (r: seq<Command>)
    requires |p| > 0
    ensures |r| == |p|
  {
    [MoveTo(EndOf(p[|p| - 1]))] + Retrace(p)
  }

  /** The commands after the move of the reversed path. */
  function Retrace(p: seq<Command>): (r: seq<Command>)
    requires |p| > 0
    ensures |r| == |p| - 1
    decreases |p|
  {
    if |p| == 1 then []
    else
      var last := p[|p| - 1];
      var back := EndOf(p[|p| - 2]);
      [match last case QuadTo(c, _) => QuadTo(c, back) case _ => LineTo(back)] + Retrace(p[..|p| - 1])
  }

  /** Every segment of the path runs along a row or a column, except the
      corner curve, whose control point is the corner of the L. */
  ghost predicate AxisAligned(p: seq<Command>) {
    forall i :: 0 < i < |p| && p[i].LineTo? ==> EndOf(p[i - 1]).x == p[i].to.x || EndOf(p[i - 1]).y == p[i].to.y
  }

  /** A merge edge drawn backwards is the other kind of edge between the
      swapped endpoints, and a straight edge drawn backwards is the straight
      edge between them: the two corner rules are mirror images. Every
      straight run is horizontal or vertical. */
  lemma EdgePathSymmetry(s: Point, t: Point, radius: real, isMerge: bool)
    ensures s.x != t.x && s.y != t.y ==> Reverse(EdgePath(s, t, radius, isMerge)) == EdgePath(t, s, radius, !isMerge)
    ensures s.x == t.x || s.y == t.y ==> Reverse(EdgePath(s, t, radius, isMerge)) == EdgePath(t, s, radius, isMerge)
    ensures AxisAligned(EdgePath(s, t, radius, isMerge))
  {
    var p := EdgePath(s, t, radius, isMerge);
    assert Retrace(p[..1]) == [];
    if |p| == 2 {
      assert Retrace(p) == [LineTo(s)];
    } else {
      assert Offset(s.x - t.x, radius) == -Offset(t.x - s.x, radius);
      assert Offset(s.y - t.y, radius) == -Offset(t.y - s.y, radius);
      assert Retrace(p[..2]) == [LineTo(s)];
      assert Retrace(p[..3]) == [QuadTo(p[2].control, EndOf(p[1]))] + Retrace(p[..2]);
      assert Retrace(p) == [LineTo(EndOf(p[2]))] + Retrace(p[..3]);
    }
  }

  function Abs(d: real): real {
    if d < 0.0 then -d else d
  }

  /** A bent path is a line, one corner curve and a line. The curve's
      control point is the corner of the L: the point in the source's column
      and the target's row for a merge edge, in the source's row and the
      target's column otherwise. The curve starts on the leg from the source
      and ends on the leg to the target, each `radius` from the corner, and
      with a positive radius it starts on the source's side of the corner
      and ends on the target's side. */
  lemma EdgePathCorner(s: Point, t: Point, radius: real, isMerge: bool)
    requires s.x != t.x && s.y != t.y
    ensures var p := EdgePath(s, t, radius, isMerge);
            && |p| == 4 && p[1].LineTo? && p[2].QuadTo?
            && p[2].control == (if isMerge then Point(s.x, t.y) else Point(t.x, s.y))
            && (if isMerge then p[1].to.x == s.x && p[2].to.y == t.y else p[1].to.y == s.y && p[2].to.x == t.x)
            && Abs(p[1].to.x - p[2].control.x) + Abs(p[1].to.y - p[2].control.y) == Abs(radius)
            && Abs(p[2].to.x - p[2].control.x) + Abs(p[2].to.y - p[2].control.y) == Abs(radius)
            && (radius > 0.0 ==>
                  && Sign(p[2].control.x - p[1].to.x) == Sign(p[2].control.x - s.x)
                  && Sign(p[2].control.y - p[1].to.y) == Sign(p[2].control.y - s.y)
                  && Sign(p[2].to.x - p[2].control.x) == Sign(t.x - p[2].control.x)
                  && Sign(p[2].to.y - p[2].control.y) == Sign(t.y - p[2].control.y))
  {
  }

  /** Default colour for an edge with nothing to colour it. */
  const Fallback := "#ccc"

  /** One element of the result of `calculateEdgePaths`; `path == []` stands
      for the empty path string. */
  datatype EdgeDrawing = EdgeDrawing(id: string, path: seq<Command>, color: string)

  /** `(parentMap.get(target) || []).length > 1`. */
  predicate IsMergeEdge(parentMap: map<string, seq<string>>, e: Edge) {
    |ListAt(parentMap, e.target)| > 1
  }

  /** The colour of the branch the edge belongs to: the source's for a merge
      edge, the target's otherwise; the fallback when that branch is unknown
      or has no colour. */
  function EdgeColor(e: Edge, isMerge: bool, nb: map<string, string>, colors: map<string, string>): string {
    var owner := if isMerge then e.source else e.target;
    if owner in nb && nb[owner] in colors then colors[nb[owner]] else Fallback
  }

  /** The drawing of one edge, from the node positions of the mounted
      elements (`getNodePosition` of each `nodeRefs` entry). */
  function DrawEdge(e: Edge, pos: map<string, Point>, nb: map<string, string>, colors: map<string, string>,
                    parentMap: map<string, seq<string>>, radius: real): EdgeDrawing
  {
    if e.source !in pos || e.target !in pos then EdgeDrawing(e.id, [], Fallback)
    else
      var isMerge := IsMergeEdge(parentMap, e);
      EdgeDrawing(e.id, EdgePath(pos[e.source], pos[e.target], radius, isMerge), EdgeColor(e, isMerge, nb, colors))
  }

  /** `calculateEdgePaths`: nothing without a container, otherwise one
      drawing per edge in edge order. */
  function EdgePaths(edges: seq<Edge>, pos: map<string, Point>, hasContainer: bool, nb: map<string, string>,
                     colors: map<string, string>, parentMap: map<string, seq<string>>, radius: real)
    : (r: seq<EdgeDrawing>)
    ensures !hasContainer ==> r == []
    ensures hasContainer ==> |r| == |edges|
  {
    if !hasContainer then []
    else seq(|edges|, i requires 0 <= i < |edges| => DrawEdge(edges[i], pos, nb, colors, parentMap, radius))
  }

  /** With a container, the i-th drawing carries the i-th edge's id; its path
      is empty exactly when an endpoint has no element, and then it is grey;
      otherwise the path runs from the source's centre to the target's, and
      its colour is that of the source's branch for an edge into a merge
      node and of the target's branch for any other edge. */
  lemma EdgePathsSpec(edges: seq<Edge>, pos: map<string, Point>, nb: map<string, string>,
                      colors: map<string, string>, parentMap: map<string, seq<string>>, radius: real, i: int)
    requires 0 <= i < |edges|
    ensures var d := EdgePaths(edges, pos, true, nb, colors, parentMap, radius)[i];
            var e := edges[i];
            && d.id == e.id
            && (d.path == [] <==> e.source !in pos || e.target !in pos)
            && (d.path == [] ==> d.color == Fallback)
            && (d.path != [] ==> d.path[0] == MoveTo(pos[e.source]) && d.path[|d.path| - 1] == LineTo(pos[e.target]))
            && (d.path != [] && IsMergeEdge(parentMap, e) ==>
                  d.color == if e.source in nb && nb[e.source] in colors then colors[nb[e.source]] else Fallback)
            && (d.path != [] && !IsMergeEdge(parentMap, e) ==>
                  d.color == if e.target in nb && nb[e.target] in colors then colors[nb[e.target]] else Fallback)
  {
  }
}
