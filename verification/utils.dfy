/** Pixel helpers of src/utils.ts: the x position of a lane's centre and the
    height of the branch header. */
module Utils {
  import opened Wrappers
  import opened Seqs

  /** The metrics `getLaneXPosition` reads from the configuration. */
  datatype Metrics = Metrics(columnWidth: real, padding: real, nodeDiameter: real)

  /** The default metrics. */
  const DefaultMetrics := Metrics(18.0, 20.0, 13.0)

  /** `getLaneXPosition`: the centre of lane `col`. */
  function LaneX(col: int, m: Metrics): real {
    col as real * m.columnWidth + m.padding / 2.0 + m.nodeDiameter / 2.0
  }

  /** Lane 0 is centred half a padding and half a node in from the left edge,
      and lane centres are exactly one column width apart, so with a positive
      width a larger lane is always further right. */
  lemma LaneXSpacing(a: int, b: int, m: Metrics)
    ensures LaneX(0, m) == m.padding / 2.0 + m.nodeDiameter / 2.0
    ensures LaneX(b, m) - LaneX(a, m) == (b - a) as real * m.columnWidth
    ensures m.columnWidth > 0.0 && a < b ==> LaneX(a, m) < LaneX(b, m)
  {
    assert LaneX(b, m) - LaneX(a, m) == b as real * m.columnWidth - a as real * m.columnWidth;
    if m.columnWidth > 0.0 && a < b {
      assert (b - a) as real > 0.0;
    }
  }

  /** A string's `.length`: the number of UTF-16 code units, one for a
      character of the Basic Multilingual Plane and two (a surrogate pair)
      for any character above U+FFFF. */
  function Utf16Length(s: string): nat {
    if |s| == 0 then 0 else (if s[0] as int >= 0x10000 then 2 else 1) + Utf16Length(s[1..])
  }

  /** The UTF-16 length lies between the number of characters and twice
      that, and equals the number of characters exactly when every character
      is in the Basic Multilingual Plane. */
  lemma {:induction false} Utf16LengthBounds(s: string)
    ensures |s| <= Utf16Length(s) <= 2 * |s|
    ensures Utf16Length(s) == |s| <==> forall i :: 0 <= i < |s| ==> s[i] as int < 0x10000
  {
    if |s| > 0 {
      Utf16LengthBounds(s[1..]);
      assert forall i :: 0 < i < |s| ==> s[i] == s[1..][i - 1];
    }
  }

  /** `Math.max` of the names' `.length`; `None` stands for the `-Infinity`
      of an empty list. */
  function MaxNameLength(names: seq<string>): (r: Option<nat>)
    ensures r.None? <==> names == []
    ensures r.Some? ==> (exists n :: n in names && Utf16Length(n) == r.value)
                        && forall n :: n in names ==> Utf16Length(n) <= r.value
  {
    if |names| == 0 then None
    else
      var rest := MaxNameLength(names[1..]);
      assert forall n :: n in names <==> n == names[0] || n in names[1..];
      if rest.None? || Utf16Length(names[0]) > rest.value then Some(Utf16Length(names[0])) else rest
  }

  /** `Math.max(len * 8 + extra, 48)`, where an empty list of names gives 48. */
  function NamesHeight(names: seq<string>, extra: int): int {
    match MaxNameLength(names)
    case None => 48
    case Some(len) => if len * 8 + extra > 48 then len * 8 + extra else 48
  }

  /** `computeHeaderHeight` in pixels: nothing shown gives 0, dots alone 12,
      horizontal names 36, vertical names room for the longest name. */
  function HeaderHeight(showDots: bool, showNames: bool, vertical: bool, laneNames: seq<string>): int {
    if !showDots && !showNames then 0
    else if !showNames then 12
    else if !vertical then 36
    else NamesHeight(laneNames, 16)
  }

  /** With vertical names the header is at least 48 pixels and grows by 8 per
      UTF-16 unit of the longest name once that passes 4 units; it depends
      only on which names there are, not their order or repetition. */
  lemma HeaderHeightSpec(showDots: bool, showNames: bool, vertical: bool, laneNames: seq<string>, others: seq<string>)
    requires showNames && vertical
    ensures HeaderHeight(showDots, showNames, vertical, laneNames) >= 48
    ensures forall n :: n in laneNames && Utf16Length(n) > 4 ==>
              HeaderHeight(showDots, showNames, vertical, laneNames) >= Utf16Length(n) * 8 + 16
    ensures laneNames != [] ==>
              exists n :: n in laneNames && HeaderHeight(showDots, showNames, vertical, laneNames)
                                           == if Utf16Length(n) > 4 then Utf16Length(n) * 8 + 16 else 48
    ensures Elems(laneNames) == Elems(others) ==>
              HeaderHeight(showDots, showNames, vertical, laneNames) == HeaderHeight(showDots, showNames, vertical, others)
  {
    if Elems(laneNames) == Elems(others) {
      SameNamesSameMax(laneNames, others);
    }
  }

  lemma SameNamesSameMax(a: seq<string>, b: seq<string>)
    requires Elems(a) == Elems(b)
    ensures MaxNameLength(a) == MaxNameLength(b)
  {
    if a != [] {
      assert a[0] in Elems(a);
      MaxBelow(a, b);
      MaxBelow(b, a);
    } else {
      FirstInElems(b);
    }
  }

  lemma FirstInElems(b: seq<string>)
    ensures b != [] ==> b[0] in Elems(b)
  {
  }

  /** Every name of `a` is a name of `b`, so the longest of `a` is no longer
      than the longest of `b`. */
  lemma MaxBelow(a: seq<string>, b: seq<string>)
    requires a != [] && Elems(a) <= Elems(b)
    ensures b != [] && MaxNameLength(a).value <= MaxNameLength(b).value
  {
    var ma := MaxNameLength(a);
    var na :| na in a && Utf16Length(na) == ma.value;
    assert na in Elems(b);
    assert na in b;
  }

  /** A name of three U+1F33F characters is six code units long, so the
      vertical header is 6 * 8 + 16 pixels. */
  lemma AstralNameHeight()
    ensures Utf16Length("\U{1F33F}\U{1F33F}\U{1F33F}") == 6
    ensures HeaderHeight(true, true, true, ["\U{1F33F}\U{1F33F}\U{1F33F}"]) == 64
  {
    var s := "\U{1F33F}\U{1F33F}\U{1F33F}";
    assert s[1..][1..][1..] == [];
  }
}
