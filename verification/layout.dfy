/** The grid layout of `calculateLayout` (src/layout.ts): a branch per node,
    a permanent lane per branch in first-seen order, an optional reordering of
    the lanes, a colour per branch and a render index per node. Every JS map
    the source iterates is iterated in insertion order; where that order
    matters it is passed or computed explicitly. */
module Layout {
  import opened Seqs
  import opened Types
  import opened GraphMaps

  // ---------------------------------------------------------------------------
  // assignBranches
  // ---------------------------------------------------------------------------

  /** What the branch loop needs of its input order: every id has a node,
      and an id with exactly one parent comes after that parent, so the
      parent's branch is set when it is read. */
  predicate RenderOrder(sorted: seq<string>, nodeMap: map<string, Node>, parentMap: map<string, seq<string>>) {
    && (forall v :: v in sorted ==> v in nodeMap)
    && (forall i :: 0 <= i < |sorted| && |ListAt(parentMap, sorted[i])| == 1 ==>
          ListAt(parentMap, sorted[i])[0] in sorted[..i])
  }

  lemma RenderOrderPrefix(sorted: seq<string>, nodeMap: map<string, Node>, parentMap: map<string, seq<string>>, n: nat)
    requires RenderOrder(sorted, nodeMap, parentMap) && n <= |sorted|
    ensures RenderOrder(sorted[..n], nodeMap, parentMap)
  {
    forall i | 0 <= i < n
      ensures sorted[..n][..i] == sorted[..i]
    {
    }
  }

  /** The branch of node `id`: its own non-empty branch, else the branch
      already given to its single parent, else its own id. */
  function BranchRule(id: string, node: Node, parents: seq<string>, nb: map<string, string>): string
    requires |parents| == 1 && !Declares(node) ==> parents[0] in nb
  {
    if Declares(node) then node.branch.value
    else if |parents| == 1 then nb[parents[0]]
    else id
  }

  /** `assignBranches`: the rule applied to each id of `sorted` in turn. */
  function AssignBranches(sorted: seq<string>, nodeMap: map<string, Node>, parentMap: map<string, seq<string>>)
    : (nb: map<string, string>)
    requires RenderOrder(sorted, nodeMap, parentMap)
    ensures nb.Keys == Elems(sorted)
  {
    if |sorted| == 0 then map[]
    else
      var n := |sorted| - 1;
      var v := sorted[n];
      RenderOrderPrefix(sorted, nodeMap, parentMap, n);
      var prev := AssignBranches(sorted[..n], nodeMap, parentMap);
      assert sorted == sorted[..n] + [v];
      prev[v := BranchRule(v, nodeMap[v], ListAt(parentMap, v), prev)]
  }

  /** Every assigned id obeys the rule against the finished map. */
  ghost predicate Consistent(nodeMap: map<string, Node>, parentMap: map<string, seq<string>>, nb: map<string, string>) {
    forall v :: v in nb ==>
      && v in nodeMap
      && (|ListAt(parentMap, v)| == 1 && !Declares(nodeMap[v]) ==> ListAt(parentMap, v)[0] in nb)
      && nb[v] == BranchRule(v, nodeMap[v], ListAt(parentMap, v), nb)
  }

  /** The branch map `assignBranches` returns satisfies the rule at every
      id: declared branch, else the single parent's branch, else the id. An
      id listed twice is given the same branch both times. */
  lemma {:induction false} AssignBranchesConsistent(sorted: seq<string>, nodeMap: map<string, Node>,
                                                    parentMap: map<string, seq<string>>)
    requires RenderOrder(sorted, nodeMap, parentMap)
    ensures Consistent(nodeMap, parentMap, AssignBranches(sorted, nodeMap, parentMap))
  {
    if |sorted| > 0 {
      var n := |sorted| - 1;
      var v := sorted[n];
      AssignBranchesSnoc(sorted, nodeMap, parentMap);
      AssignBranchesConsistent(sorted[..n], nodeMap, parentMap);
      ConsistentStep(nodeMap, parentMap, AssignBranches(sorted[..n], nodeMap, parentMap), v);
    }
  }

  /** The last id of the order is given its branch against the map built
      for the ids before it, where its single parent already has one. */
  lemma AssignBranchesSnoc(sorted: seq<string>, nodeMap: map<string, Node>, parentMap: map<string, seq<string>>)
    requires RenderOrder(sorted, nodeMap, parentMap) && |sorted| > 0
    ensures RenderOrder(sorted[..|sorted| - 1], nodeMap, parentMap)
    ensures var v := sorted[|sorted| - 1];
            var prev := AssignBranches(sorted[..|sorted| - 1], nodeMap, parentMap);
            && v in nodeMap
            && (|ListAt(parentMap, v)| == 1 && !Declares(nodeMap[v]) ==> ListAt(parentMap, v)[0] in prev)
            && AssignBranches(sorted, nodeMap, parentMap) == prev[v := BranchRule(v, nodeMap[v], ListAt(parentMap, v), prev)]
  {
    var n := |sorted| - 1;
    var v := sorted[n];
    RenderOrderPrefix(sorted, nodeMap, parentMap, n);
    var ps := ListAt(parentMap, v);
    if |ps| == 1 && !Declares(nodeMap[v]) {
      assert ps[0] in sorted[..n];
    }
  }

  /** Giving one more id its branch keeps a consistent map consistent. */
  lemma ConsistentStep(nodeMap: map<string, Node>, parentMap: map<string, seq<string>>, prev: map<string, string>, v: string)
    requires Consistent(nodeMap, parentMap, prev)
    requires v in nodeMap
    requires |ListAt(parentMap, v)| == 1 && !Declares(nodeMap[v]) ==> ListAt(parentMap, v)[0] in prev
    ensures Consistent(nodeMap, parentMap, prev[v := BranchRule(v, nodeMap[v], ListAt(parentMap, v), prev)])
  {
    var nb := prev[v := BranchRule(v, nodeMap[v], ListAt(parentMap, v), prev)];
    if v in prev {
      assert nb == prev;
    } else {
      forall w | w in nb
        ensures BranchRule(w, nodeMap[w], ListAt(parentMap, w), nb) == nb[w]
      {
        RuleUnchanged(nodeMap, parentMap, prev, v, nb[v], w);
      }
    }
  }

  /** Adding a fresh id does not change the rule at an id whose parent was
      already assigned. */
  lemma RuleUnchanged(nodeMap: map<string, Node>, parentMap: map<string, seq<string>>, prev: map<string, string>,
                      v: string, b: string, w: string)
    requires v !in prev && (w in prev || w == v) && w in nodeMap
    requires |ListAt(parentMap, w)| == 1 && !Declares(nodeMap[w]) ==> ListAt(parentMap, w)[0] in prev
    ensures BranchRule(w, nodeMap[w], ListAt(parentMap, w), prev[v := b])
         == BranchRule(w, nodeMap[w], ListAt(parentMap, w), prev)
  {
  }

  // ---------------------------------------------------------------------------
  // assignLanes
  // ---------------------------------------------------------------------------

  /** The branches of `sorted` in row order, repetitions included. */
  function BranchSeq(sorted: seq<string>, nb: map<string, string>): (bs: seq<string>)
    requires forall v :: v in sorted ==> v in nb
    ensures |bs| == |sorted| && forall i :: 0 <= i < |sorted| ==> bs[i] == nb[sorted[i]]
  {
    seq(|sorted|, i requires 0 <= i < |sorted| => nb[sorted[i]])
  }

  lemma BranchSeqSnoc(sorted: seq<string>, nb: map<string, string>)
    requires |sorted| > 0 && forall v :: v in sorted ==> v in nb
    ensures BranchSeq(sorted, nb) == BranchSeq(sorted[..|sorted| - 1], nb) + [nb[sorted[|sorted| - 1]]]
  {
  }

  /** `assignLanes`: the first time a branch is met it gets the next lane,
      and each node's column is its branch's lane. The next lane is always
      the number of lanes handed out so far. Returns the column map and the
      lane map. */
  function AssignLanes(sorted: seq<string>, nb: map<string, string>): (r: (map<string, int>, map<string, int>))
    requires forall v :: v in sorted ==> v in nb
    ensures r.0.Keys == Elems(sorted)
  {
    if |sorted| == 0 then (map[], map[])
    else
      var n := |sorted| - 1;
      var v := sorted[n];
      var prev := AssignLanes(sorted[..n], nb);
      var b := nb[v];
      var lanes := if b in prev.1 then prev.1 else prev.1[b := |prev.1|];
      assert sorted == sorted[..n] + [v];
      (prev.0[v := lanes[b]], lanes)
  }

  /** The branches in first-seen order: the key order of the lane map. */
  function FirstSeen(sorted: seq<string>, nb: map<string, string>): seq<string>
    requires forall v :: v in sorted ==> v in nb
  {
    Distinct(BranchSeq(sorted, nb))
  }

  /** `lanes` numbers the branches of `fs` 0, 1, 2, ... in that order and
      holds nothing else. */
  predicate LanesInOrder(fs: seq<string>, lanes: map<string, int>) {
    && |lanes| == |fs|
    && (forall i :: 0 <= i < |fs| ==> fs[i] in lanes && lanes[fs[i]] == i)
    && (forall b :: b in lanes ==> 0 <= lanes[b] < |fs| && fs[lanes[b]] == b)
  }

  /** Every id of `ids` has a column, and it is the lane of its branch. */
  predicate ColumnsFollowLanes(ids: set<string>, nb: map<string, string>, cols: map<string, int>, lanes: map<string, int>) {
    forall v :: v in ids ==> v in cols && v in nb && nb[v] in lanes && cols[v] == lanes[nb[v]]
  }

  /** Lanes are 0, 1, 2, ... in first-seen order, so the lane map is a
      bijection from the distinct branches onto [0, k), and every node's
      column is its branch's lane. */
  lemma AssignLanesSpec(sorted: seq<string>, nb: map<string, string>)
    requires forall v :: v in sorted ==> v in nb
    ensures LanesInOrder(FirstSeen(sorted, nb), AssignLanes(sorted, nb).1)
    ensures ColumnsFollowLanes(Elems(sorted), nb, AssignLanes(sorted, nb).0, AssignLanes(sorted, nb).1)
  {
    AssignLanesNumbering(sorted, nb);
    AssignLanesColumns(sorted, nb);
  }

  lemma {:induction false} AssignLanesNumbering(sorted: seq<string>, nb: map<string, string>)
    requires forall v :: v in sorted ==> v in nb
    ensures LanesInOrder(FirstSeen(sorted, nb), AssignLanes(sorted, nb).1)
  {
    if |sorted| > 0 {
      var n := |sorted| - 1;
      var b := nb[sorted[n]];
      AssignLanesNumbering(sorted[..n], nb);
      var prev := AssignLanes(sorted[..n], nb).1;
      var pfs := FirstSeen(sorted[..n], nb);
      var fs := FirstSeen(sorted, nb);
      BranchSeqSnoc(sorted, nb);
      var bs := BranchSeq(sorted, nb);
      assert bs[..|bs| - 1] == BranchSeq(sorted[..n], nb);
      if b in prev {
        assert b in pfs;
        assert fs == pfs;
      } else {
        assert b !in pfs;
        assert fs == pfs + [b];
        assert |prev| == |pfs|;
        LanesSnoc(pfs, prev, b);
      }
    }
  }

  lemma {:induction false} AssignLanesColumns(sorted: seq<string>, nb: map<string, string>)
    requires forall v :: v in sorted ==> v in nb
    ensures ColumnsFollowLanes(Elems(sorted), nb, AssignLanes(sorted, nb).0, AssignLanes(sorted, nb).1)
  {
    if |sorted| > 0 {
      var n := |sorted| - 1;
      var v := sorted[n];
      AssignLanesColumns(sorted[..n], nb);
      var prev := AssignLanes(sorted[..n], nb);
      var r := AssignLanes(sorted, nb);
      var b := nb[v];
      assert r.1 == (if b in prev.1 then prev.1 else prev.1[b := |prev.1|]);
      assert r.0 == prev.0[v := r.1[b]];
      assert forall w :: w in Elems(sorted) ==> w == v || w in Elems(sorted[..n]) by {
        assert sorted == sorted[..n] + [v];
      }
      forall w | w in Elems(sorted[..n]) && w != v
        ensures w in r.0 && nb[w] in r.1 && r.0[w] == r.1[nb[w]]
      {
        assert nb[w] in prev.1 && prev.1[nb[w]] == r.1[nb[w]];
      }
    }
  }

  /** What `applyBranchOrder` needs of the lanes: the key list names exactly
      the lanes, and every column's branch has one. */
  lemma LanesReady(sorted: seq<string>, nb: map<string, string>)
    requires forall v :: v in sorted ==> v in nb
    ensures Elems(FirstSeen(sorted, nb)) == AssignLanes(sorted, nb).1.Keys && NoDup(FirstSeen(sorted, nb))
    ensures forall v :: v in AssignLanes(sorted, nb).0 ==> v in nb && nb[v] in AssignLanes(sorted, nb).1
  {
    AssignLanesSpec(sorted, nb);
    var fs := FirstSeen(sorted, nb);
    var lanes := AssignLanes(sorted, nb).1;
    forall b | b in lanes
      ensures b in Elems(fs)
    {
      assert fs[lanes[b]] == b;
    }
  }

  lemma LanesSnoc(fs: seq<string>, lanes: map<string, int>, b: string)
    requires LanesInOrder(fs, lanes) && b !in lanes
    ensures LanesInOrder(fs + [b], lanes[b := |fs|])
  {
    var fs' := fs + [b];
    var lanes' := lanes[b := |fs|];
    forall i | 0 <= i < |fs'|
      ensures fs'[i] in lanes' && lanes'[fs'[i]] == i
    {
      if i < |fs| {
        assert fs'[i] == fs[i] && fs[i] in lanes;
      }
    }
  }

  // ---------------------------------------------------------------------------
  // applyBranchOrder
  // ---------------------------------------------------------------------------

  /** The first loop of `applyBranchOrder`: every listed name that has a lane
      is placed at its index in the order; a later index overwrites. */
  function PlaceListed(order: seq<string>, lanes: map<string, int>): (r: map<string, int>)
    ensures r.Keys == Elems(order) * lanes.Keys
  {
    if |order| == 0 then map[]
    else
      var n := |order| - 1;
      var prev := PlaceListed(order[..n], lanes);
      assert order == order[..n] + [order[n]];
      if order[n] in lanes then prev[order[n] := n] else prev
  }

  /** The second loop: each key not yet placed gets `next`, then `next + 1`, ... */
  function PlaceRest(keys: seq<string>, placed: map<string, int>, next: int): (r: map<string, int>)
    ensures r.Keys == placed.Keys + Elems(keys)
  {
    if |keys| == 0 then placed
    else
      assert Elems(keys) == {keys[0]} + Elems(keys[1..]);
      if keys[0] !in placed then PlaceRest(keys[1..], placed[keys[0] := next], next + 1)
      else PlaceRest(keys[1..], placed, next)
  }

  /** The keys of `keys` not listed in `order`, in key order. */
  function Unlisted(keys: seq<string>, order: seq<string>): (u: seq<string>)
    ensures forall x :: x in u <==> x in keys && x !in order
  {
    if |keys| == 0 then []
    else
      assert forall x :: x in keys <==> x == keys[0] || x in keys[1..];
      (if keys[0] in order then [] else [keys[0]]) + Unlisted(keys[1..], order)
  }

  /** `applyBranchOrder` over the lane map, its keys in insertion order, the
      column map and the branch map. An empty order (or none) changes
      nothing. Otherwise the listed branches that have a lane are placed at
      their index in the order, the others follow from `|order|` in key
      order, and every column is set to its branch's new lane. Returns the
      new lane map and the new column map. */
  function ApplyBranchOrder(order: seq<string>, lanes: map<string, int>, keys: seq<string>,
                            cols: map<string, int>, nb: map<string, string>): (r: (map<string, int>, map<string, int>))
    requires Elems(keys) == lanes.Keys
    requires forall v :: v in cols ==> v in nb && nb[v] in lanes
    ensures r.0.Keys == lanes.Keys && r.1.Keys == cols.Keys
  {
    if |order| == 0 then (lanes, cols)
    else
      var re := PlaceRest(keys, PlaceListed(order, lanes), |order|);
      (re, map v | v in cols :: re[nb[v]])
  }

  /** `i` is the last position at which `s` holds `x`. */
  predicate LastAt(s: seq<string>, x: string, i: int) {
    0 <= i < |s| && s[i] == x && forall j :: i < j < |s| ==> s[j] != x
  }

  /** Every key of `m` is mapped to its last position in `s`. */
  predicate LastPositions(s: seq<string>, m: map<string, int>) {
    forall x :: x in m ==> LastAt(s, x, m[x])
  }

  /** `u[j]` is mapped to `next + j` for every `j`. */
  predicate NumberedFrom(u: seq<string>, m: map<string, int>, next: int) {
    forall j :: 0 <= j < |u| ==> u[j] in m && m[u[j]] == next + j
  }

  predicate Injective(m: map<string, int>) {
    forall a, b :: a in m && b in m && a != b ==> m[a] != m[b]
  }

  lemma {:induction false} PlaceListedSpec(order: seq<string>, lanes: map<string, int>)
    ensures LastPositions(order, PlaceListed(order, lanes))
  {
    if |order| > 0 {
      var n := |order| - 1;
      var pre := order[..n];
      PlaceListedSpec(pre, lanes);
      var prev := PlaceListed(pre, lanes);
      var r := PlaceListed(order, lanes);
      forall b | b in r
        ensures LastAt(order, b, r[b])
      {
        if b == order[n] && order[n] in lanes {
          assert r[b] == n;
        } else {
          assert b in prev && r[b] == prev[b] && b != order[n];
          assert LastAt(pre, b, prev[b]);
          assert forall j :: prev[b] < j < n ==> pre[j] == order[j];
        }
      }
    }
  }

  lemma TailNoDup(keys: seq<string>)
    requires |keys| > 0 && NoDup(keys)
    ensures NoDup(keys[1..]) && keys[0] !in keys[1..]
  {
    var rest := keys[1..];
    forall i, j | 0 <= i < j < |rest|
      ensures rest[i] != rest[j]
    {
      assert rest[i] == keys[i + 1] && rest[j] == keys[j + 1];
    }
    forall i | 0 <= i < |rest|
      ensures rest[i] != keys[0]
    {
      assert rest[i] == keys[i + 1];
    }
  }

  lemma {:induction false} PlaceRestKeeps(keys: seq<string>, placed: map<string, int>, next: int)
    ensures forall b :: b in placed ==> PlaceRest(keys, placed, next)[b] == placed[b]
  {
    if |keys| > 0 {
      if keys[0] !in placed {
        PlaceRestKeeps(keys[1..], placed[keys[0] := next], next + 1);
      } else {
        PlaceRestKeeps(keys[1..], placed, next);
      }
    }
  }

  /** Numbering a name `next` in front of a run numbered from `next + 1`. */
  lemma NumberedCons(k: string, u: seq<string>, m: map<string, int>, next: int)
    requires k in m && m[k] == next && NumberedFrom(u, m, next + 1)
    ensures NumberedFrom([k] + u, m, next)
  {
    forall j | 0 < j < |u| + 1
      ensures ([k] + u)[j] in m && m[([k] + u)[j]] == next + j
    {
      assert ([k] + u)[j] == u[j - 1];
    }
  }

  lemma {:induction false} PlaceRestNumbers(keys: seq<string>, placed: map<string, int>, next: int, order: seq<string>)
    requires NoDup(keys)
    requires forall k :: k in keys ==> (k in placed <==> k in order)
    ensures NumberedFrom(Unlisted(keys, order), PlaceRest(keys, placed, next), next)
  {
    if |keys| > 0 {
      var k := keys[0];
      var rest := keys[1..];
      assert k in keys;
      TailNoDup(keys);
      if k !in placed {
        var p' := placed[k := next];
        forall x | x in rest
          ensures x in p' <==> x in order
        {
          assert x in keys && x != k;
        }
        PlaceRestNumbers(rest, p', next + 1, order);
        FreshFirst(keys, placed, next, order);
      } else {
        forall x | x in rest
          ensures x in placed <==> x in order
        {
          assert x in keys;
        }
        PlaceRestNumbers(rest, placed, next, order);
        PlacedFirst(keys, placed, next, order);
      }
    }
  }

  /** An unplaced first key takes `next`, ahead of the numbering of the rest. */
  lemma FreshFirst(keys: seq<string>, placed: map<string, int>, next: int, order: seq<string>)
    requires |keys| > 0 && keys[0] !in placed && keys[0] !in order
    requires NumberedFrom(Unlisted(keys[1..], order), PlaceRest(keys[1..], placed[keys[0] := next], next + 1), next + 1)
    ensures NumberedFrom(Unlisted(keys, order), PlaceRest(keys, placed, next), next)
  {
    var k := keys[0];
    var p' := placed[k := next];
    var m := PlaceRest(keys[1..], p', next + 1);
    PlaceRestKeeps(keys[1..], p', next + 1);
    assert PlaceRest(keys, placed, next) == m;
    assert Unlisted(keys, order) == [k] + Unlisted(keys[1..], order);
    NumberedCons(k, Unlisted(keys[1..], order), m, next);
  }

  /** A placed first key changes nothing. */
  lemma PlacedFirst(keys: seq<string>, placed: map<string, int>, next: int, order: seq<string>)
    requires |keys| > 0 && keys[0] in placed && keys[0] in order
    requires NumberedFrom(Unlisted(keys[1..], order), PlaceRest(keys[1..], placed, next), next)
    ensures NumberedFrom(Unlisted(keys, order), PlaceRest(keys, placed, next), next)
  {
    assert PlaceRest(keys, placed, next) == PlaceRest(keys[1..], placed, next);
    assert Unlisted(keys, order) == Unlisted(keys[1..], order);
  }

  lemma {:induction false} UnlistedNoDup(keys: seq<string>, order: seq<string>)
    requires NoDup(keys)
    ensures NoDup(Unlisted(keys, order))
  {
    if |keys| > 0 {
      TailNoDup(keys);
      UnlistedNoDup(keys[1..], order);
      NoDupConcat(if keys[0] in order then [] else [keys[0]], Unlisted(keys[1..], order));
    }
  }

  /** With a non-empty order: a listed branch gets the last index at which
      the order lists it, the unlisted ones get `|order|`, `|order| + 1`, ...
      in key order, the new lanes are pairwise distinct, and every column is
      its branch's new lane. */
  lemma ApplyBranchOrderSpec(order: seq<string>, lanes: map<string, int>, keys: seq<string>,
                             cols: map<string, int>, nb: map<string, string>)
    requires Elems(keys) == lanes.Keys && NoDup(keys)
    requires forall v :: v in cols ==> v in nb && nb[v] in lanes
    requires |order| > 0
    ensures forall b :: b in lanes && b in order ==>
              LastAt(order, b, ApplyBranchOrder(order, lanes, keys, cols, nb).0[b])
    ensures NumberedFrom(Unlisted(keys, order), ApplyBranchOrder(order, lanes, keys, cols, nb).0, |order|)
    ensures Injective(ApplyBranchOrder(order, lanes, keys, cols, nb).0)
    ensures ColumnsFollowLanes(cols.Keys, nb, ApplyBranchOrder(order, lanes, keys, cols, nb).1,
                               ApplyBranchOrder(order, lanes, keys, cols, nb).0)
  {
    var listed := PlaceListed(order, lanes);
    PlaceListedSpec(order, lanes);
    PlaceRestKeeps(keys, listed, |order|);
    PlaceRestNumbers(keys, listed, |order|, order);
    UnlistedNoDup(keys, order);
    var r := ApplyBranchOrder(order, lanes, keys, cols, nb).0;
    var u := Unlisted(keys, order);
    forall a, b | a in r && b in r && a != b
      ensures r[a] != r[b]
    {
      RankDistinct(order, lanes, u, r, a, b);
    }
  }

  /** Two branches never share a new lane: listed ones sit below `|order|`
      at their own last index, unlisted ones at or above it at their own rank. */
  lemma RankDistinct(order: seq<string>, lanes: map<string, int>, u: seq<string>, r: map<string, int>, a: string, b: string)
    requires NoDup(u) && NumberedFrom(u, r, |order|)
    requires forall x :: x in r ==> x in order || x in u
    requires forall x :: x in r && x in order ==> LastAt(order, x, r[x])
    requires a in r && b in r && a != b
    ensures r[a] != r[b]
  {
    if a !in order && b !in order {
      var ja :| 0 <= ja < |u| && u[ja] == a;
      var jb :| 0 <= jb < |u| && u[jb] == b;
    } else if a !in order {
      var ja :| 0 <= ja < |u| && u[ja] == a;
    } else if b !in order {
      var jb :| 0 <= jb < |u| && u[jb] == b;
    }
  }

  // ---------------------------------------------------------------------------
  // maxCol, nodeRenderIndex, createColorMap
  // ---------------------------------------------------------------------------

  /** `Math.max` over the columns of `keys`, or 0 when there are none. */
  function MaxColumn(keys: seq<string>, cols: map<string, int>): (m: int)
    requires forall k :: k in keys ==> k in cols
    ensures keys == [] ==> m == 0
    ensures keys != [] ==> (exists k :: k in keys && cols[k] == m) && forall k :: k in keys ==> cols[k] <= m
  {
    if |keys| == 0 then 0
    else if |keys| == 1 then cols[keys[0]]
    else
      var rest := MaxColumn(keys[1..], cols);
      assert forall k :: k in keys <==> k == keys[0] || k in keys[1..];
      if cols[keys[0]] > rest then cols[keys[0]] else rest
  }

  /** `new Map(sorted.map((id, index) => [id, index]))`: an id listed twice
      keeps its last index. */
  function RenderIndex(sorted: seq<string>): (r: map<string, int>)
    ensures r.Keys == Elems(sorted)
  {
    if |sorted| == 0 then map[]
    else
      var n := |sorted| - 1;
      assert sorted == sorted[..n] + [sorted[n]];
      RenderIndex(sorted[..n])[sorted[n] := n]
  }

  /** Every id is mapped to the position of its last occurrence; with no
      repetitions, to its own position. */
  lemma {:induction false} RenderIndexSpec(sorted: seq<string>)
    ensures LastPositions(sorted, RenderIndex(sorted))
    ensures NoDup(sorted) ==> forall i :: 0 <= i < |sorted| ==> RenderIndex(sorted)[sorted[i]] == i
  {
    if |sorted| > 0 {
      var n := |sorted| - 1;
      var pre := sorted[..n];
      RenderIndexSpec(pre);
      var prev := RenderIndex(pre);
      var r := RenderIndex(sorted);
      forall x | x in r
        ensures LastAt(sorted, x, r[x])
      {
        if x != sorted[n] {
          assert x in prev && r[x] == prev[x];
          assert LastAt(pre, x, prev[x]);
          assert forall j :: prev[x] < j < n ==> pre[j] == sorted[j];
        }
      }
      if NoDup(sorted) {
        assert NoDup(pre);
        forall i | 0 <= i < |sorted|
          ensures r[sorted[i]] == i
        {
          if i < n {
            assert sorted[i] != sorted[n];
            assert pre[i] == sorted[i];
          }
        }
      }
    }
  }

  /** `createColorMap` over the branch values in order: the i-th distinct
      value gets `colors[i % |colors|]`. With an empty palette the source
      stores `undefined` under every branch, which every reader treats as a
      missing entry; the model stores nothing. */
  function CreateColorMap(values: seq<string>, colors: seq<string>): map<string, string> {
    if |colors| == 0 then map[] else PaintFrom(Distinct(values), colors)
  }

  /** The `forEach` that sets each distinct value's colour. */
  function PaintFrom(uniq: seq<string>, colors: seq<string>): (r: map<string, string>)
    requires |colors| > 0
    ensures r.Keys == Elems(uniq)
  {
    if |uniq| == 0 then map[]
    else
      var n := |uniq| - 1;
      assert uniq == uniq[..n] + [uniq[n]];
      PaintFrom(uniq[..n], colors)[uniq[n] := colors[n % |colors|]]
  }

  lemma {:induction false} PaintFromSpec(uniq: seq<string>, colors: seq<string>)
    requires |colors| > 0 && NoDup(uniq)
    ensures forall i :: 0 <= i < |uniq| ==> PaintFrom(uniq, colors)[uniq[i]] == colors[i % |colors|]
  {
    if |uniq| > 0 {
      var n := |uniq| - 1;
      PaintFromSpec(uniq[..n], colors);
      forall i | 0 <= i < n
        ensures uniq[i] != uniq[n]
      {
      }
    }
  }

  /** With a palette, the i-th distinct value in first-seen order gets
      `colors[i % |colors|]` and nothing else gets a colour; with none, no
      branch gets a colour. */
  lemma CreateColorMapSpec(values: seq<string>, colors: seq<string>)
    ensures |colors| == 0 ==> CreateColorMap(values, colors) == map[]
    ensures |colors| > 0 ==> CreateColorMap(values, colors).Keys == Elems(values)
    ensures |colors| > 0 ==> forall i :: 0 <= i < |Distinct(values)| ==>
              CreateColorMap(values, colors)[Distinct(values)[i]] == colors[i % |colors|]
  {
    if |colors| > 0 {
      PaintFromSpec(Distinct(values), colors);
    }
  }

  // ---------------------------------------------------------------------------
  // calculateLayout
  // ---------------------------------------------------------------------------

  /** The layout maps, as `LayoutData` without the error. */
  datatype Layout = Layout(
    nodeColumnMap: map<string, int>,
    nodeBranchMap: map<string, string>,
    branchLaneMap: map<string, int>,
    maxCol: int,
    branchColorMap: map<string, string>,
    nodeRenderIndex: map<string, int>)

  /** The layout with every map empty, used when there is an error. */
  const EmptyLayout := Layout(map[], map[], map[], 0, map[], map[])

  /** The branch values in the order `nodeBranchMap.values()` yields them:
      keys in order of first insertion, each with its final branch. */
  function BranchValues(sorted: seq<string>, nb: map<string, string>): seq<string>
    requires forall v :: v in sorted ==> v in nb
  {
    BranchSeq(Distinct(sorted), nb)
  }

  lemma DistinctSnoc(a: seq<string>, x: string)
    ensures Distinct(a + [x]) == if x in Distinct(a) then Distinct(a) else Distinct(a) + [x]
  {
    assert (a + [x])[..|a|] == a;
  }

  /** Reading the branches off the distinct ids and reading them off every
      row give the same distinct branches in the same order. */
  lemma {:induction false} DistinctBranchValues(sorted: seq<string>, nb: map<string, string>)
    requires forall v :: v in sorted ==> v in nb
    ensures Distinct(BranchValues(sorted, nb)) == FirstSeen(sorted, nb)
  {
    if |sorted| > 0 {
      var n := |sorted| - 1;
      var p := sorted[..n];
      var x := sorted[n];
      assert sorted == p + [x];
      var bp := BranchSeq(p, nb);
      var dp := Distinct(p);
      DistinctBranchValues(p, nb);
      assert Distinct(BranchSeq(dp, nb)) == Distinct(bp);
      BranchSeqSnoc(sorted, nb);
      DistinctSnoc(bp, nb[x]);
      assert FirstSeen(sorted, nb) == if nb[x] in Distinct(bp) then Distinct(bp) else Distinct(bp) + [nb[x]];
      DistinctSnoc(p, x);
      if x !in dp {
        assert Distinct(sorted) == dp + [x];
        assert (dp + [x])[..|dp|] == dp;
        BranchSeqSnoc(dp + [x], nb);
        assert BranchValues(sorted, nb) == BranchSeq(dp, nb) + [nb[x]];
        DistinctSnoc(BranchSeq(dp, nb), nb[x]);
      } else {
        assert Distinct(sorted) == dp;
        assert nb[x] in bp by {
          var k :| 0 <= k < |p| && p[k] == x;
          assert bp[k] == nb[x];
        }
        assert nb[x] in Distinct(bp);
      }
    }
  }

  /** `calculateLayout` after its `buildGraphMaps` call, over the index `g`. */
  function LayoutOf(g: GraphIndex, sorted: seq<string>, colors: seq<string>, order: seq<string>): Layout
    requires RenderOrder(sorted, g.nodeMap, g.parentMap)
  {
    var nb := AssignBranches(sorted, g.nodeMap, g.parentMap);
    var ln := AssignLanes(sorted, nb);
    var keys := FirstSeen(sorted, nb);
    LanesReady(sorted, nb);
    var ro := ApplyBranchOrder(order, ln.1, keys, ln.0, nb);
    Layout(ro.1, nb, ro.0, MaxColumn(sorted, ro.1), CreateColorMap(BranchValues(sorted, nb), colors), RenderIndex(sorted))
  }

  /** `calculateLayout`. */
  function CalculateLayout(nodes: seq<Node>, edges: seq<Edge>, sorted: seq<string>, colors: seq<string>, order: seq<string>)
    : Layout
    requires RenderOrder(sorted, BuildGraphMaps(nodes, edges).nodeMap, BuildGraphMaps(nodes, edges).parentMap)
  {
    LayoutOf(BuildGraphMaps(nodes, edges), sorted, colors, order)
  }

  /** Every row gets a branch by the rule: declared branch, else its single
      parent's branch, else its own id. */
  lemma LayoutBranches(g: GraphIndex, sorted: seq<string>, colors: seq<string>, order: seq<string>, l: Layout)
    requires RenderOrder(sorted, g.nodeMap, g.parentMap)
    requires l == LayoutOf(g, sorted, colors, order)
    ensures l.nodeBranchMap.Keys == Elems(sorted)
    ensures Consistent(g.nodeMap, g.parentMap, l.nodeBranchMap)
  {
    AssignBranchesConsistent(sorted, g.nodeMap, g.parentMap);
  }

  /** Every row's column is its branch's lane, whatever the order; lanes are
      never negative and no two branches share one; without an order the
      lanes are 0, 1, 2, ... in first-seen order; `maxCol` is the largest
      column, or 0 with no rows. */
  lemma LayoutColumns(g: GraphIndex, sorted: seq<string>, colors: seq<string>, order: seq<string>, l: Layout)
    requires RenderOrder(sorted, g.nodeMap, g.parentMap)
    requires l == LayoutOf(g, sorted, colors, order)
    ensures l.nodeColumnMap.Keys == Elems(sorted)
    ensures ColumnsFollowLanes(Elems(sorted), l.nodeBranchMap, l.nodeColumnMap, l.branchLaneMap)
    ensures Injective(l.branchLaneMap)
    ensures forall b :: b in l.branchLaneMap ==> 0 <= l.branchLaneMap[b]
    ensures order == [] ==> LanesInOrder(FirstSeen(sorted, l.nodeBranchMap), l.branchLaneMap)
    ensures sorted == [] ==> l.maxCol == 0
    ensures sorted != [] ==> (exists v :: v in sorted && l.nodeColumnMap[v] == l.maxCol)
                             && forall v :: v in sorted ==> l.nodeColumnMap[v] <= l.maxCol
  {
    var nb := l.nodeBranchMap;
    var ln := AssignLanes(sorted, nb);
    var keys := FirstSeen(sorted, nb);
    AssignLanesSpec(sorted, nb);
    LanesReady(sorted, nb);
    ColumnsOfLanes(sorted, nb, order, ln.1, ln.0, keys, (l.branchLaneMap, l.nodeColumnMap), l.maxCol);
  }

  /** The facts of `LayoutColumns`, over the first-seen lanes `lanes`, the
      columns `cols` they give, and the lanes and columns `ro` after the
      order. */
  lemma ColumnsOfLanes(sorted: seq<string>, nb: map<string, string>, order: seq<string>, lanes: map<string, int>,
                       cols: map<string, int>, keys: seq<string>, ro: (map<string, int>, map<string, int>), m: int)
    requires forall v :: v in sorted ==> v in nb
    requires keys == FirstSeen(sorted, nb) && NoDup(keys) && Elems(keys) == lanes.Keys
    requires LanesInOrder(keys, lanes)
    requires cols.Keys == Elems(sorted) && ColumnsFollowLanes(Elems(sorted), nb, cols, lanes)
    requires forall v :: v in cols ==> v in nb && nb[v] in lanes
    requires ro == ApplyBranchOrder(order, lanes, keys, cols, nb)
    requires m == MaxColumn(sorted, ro.1)
    ensures ro.1.Keys == Elems(sorted)
    ensures ColumnsFollowLanes(Elems(sorted), nb, ro.1, ro.0)
    ensures Injective(ro.0)
    ensures forall b :: b in ro.0 ==> 0 <= ro.0[b]
    ensures order == [] ==> LanesInOrder(keys, ro.0)
    ensures sorted == [] ==> m == 0
    ensures sorted != [] ==> (exists v :: v in sorted && ro.1[v] == m) && forall v :: v in sorted ==> ro.1[v] <= m
  {
    if |order| > 0 {
      OrderedLanes(order, lanes, keys, cols, nb);
    } else {
      PlainLanes(keys, lanes);
    }
  }

  /** With an order, every column is its branch's new lane, and the new
      lanes are distinct and never negative. */
  lemma OrderedLanes(order: seq<string>, lanes: map<string, int>, keys: seq<string>,
                     cols: map<string, int>, nb: map<string, string>)
    requires Elems(keys) == lanes.Keys && NoDup(keys)
    requires forall v :: v in cols ==> v in nb && nb[v] in lanes
    requires |order| > 0
    ensures var ro := ApplyBranchOrder(order, lanes, keys, cols, nb);
            && ColumnsFollowLanes(cols.Keys, nb, ro.1, ro.0)
            && Injective(ro.0)
            && forall b :: b in ro.0 ==> 0 <= ro.0[b]
  {
    ApplyBranchOrderSpec(order, lanes, keys, cols, nb);
    var re := ApplyBranchOrder(order, lanes, keys, cols, nb).0;
    var u := Unlisted(keys, order);
    forall b | b in re
      ensures 0 <= re[b]
    {
      if b !in order {
        assert b in u;
        var j :| 0 <= j < |u| && u[j] == b;
      }
    }
  }

  /** First-seen lanes are distinct and never negative. */
  lemma PlainLanes(keys: seq<string>, lanes: map<string, int>)
    requires LanesInOrder(keys, lanes)
    ensures Injective(lanes)
    ensures forall b :: b in lanes ==> 0 <= lanes[b]
  {
    forall a, b | a in lanes && b in lanes && a != b
      ensures lanes[a] != lanes[b]
    {
      assert keys[lanes[a]] == a && keys[lanes[b]] == b;
    }
  }

  /** With a palette, the i-th distinct branch in first-seen order gets
      `colors[i % |colors|]`, whatever the order, and only the branches in use
      get a colour; with none, no branch gets one. */
  lemma LayoutColours(g: GraphIndex, sorted: seq<string>, colors: seq<string>, order: seq<string>, l: Layout)
    requires RenderOrder(sorted, g.nodeMap, g.parentMap)
    requires l == LayoutOf(g, sorted, colors, order)
    ensures l.nodeBranchMap.Keys == Elems(sorted)
    ensures |colors| == 0 ==> l.branchColorMap == map[]
    ensures |colors| > 0 ==> l.branchColorMap.Keys == Elems(FirstSeen(sorted, l.nodeBranchMap))
    ensures |colors| > 0 ==> forall i :: 0 <= i < |FirstSeen(sorted, l.nodeBranchMap)| ==>
              && FirstSeen(sorted, l.nodeBranchMap)[i] in l.branchColorMap
              && l.branchColorMap[FirstSeen(sorted, l.nodeBranchMap)[i]] == colors[i % |colors|]
  {
    var nb := AssignBranches(sorted, g.nodeMap, g.parentMap);
    var values := BranchValues(sorted, nb);
    var fs := FirstSeen(sorted, nb);
    assert l.nodeBranchMap == nb && l.branchColorMap == CreateColorMap(values, colors);
    CreateColorMapSpec(values, colors);
    DistinctBranchValues(sorted, nb);
    if |colors| > 0 {
      assert Elems(values) == Elems(fs);
      forall i | 0 <= i < |fs|
        ensures fs[i] in l.branchColorMap && l.branchColorMap[fs[i]] == colors[i % |colors|]
      {
        assert fs[i] in values;
      }
    }
  }

  /** The colour of a branch depends on its first-seen lane, not on where a
      custom order put it: with no order, colour and lane agree modulo the
      palette, so a reordering moves columns but never recolours. */
  lemma ColourFollowsOriginalLane(g: GraphIndex, sorted: seq<string>, colors: seq<string>,
                                  order: seq<string>, l: Layout, plain: Layout)
    requires RenderOrder(sorted, g.nodeMap, g.parentMap)
    requires l == LayoutOf(g, sorted, colors, order)
    requires plain == LayoutOf(g, sorted, colors, [])
    requires |colors| > 0
    ensures l.branchColorMap == plain.branchColorMap && l.nodeBranchMap == plain.nodeBranchMap
    ensures l.nodeRenderIndex == plain.nodeRenderIndex
    ensures forall b :: b in plain.branchLaneMap ==>
              b in l.branchColorMap && l.branchColorMap[b] == colors[plain.branchLaneMap[b] % |colors|]
  {
    OrderKeepsBranchesAndColours(g, sorted, colors, order, l, plain);
    PlainLanesInOrder(g, sorted, colors, plain);
    LayoutColours(g, sorted, colors, [], plain);
    ColourByLane(FirstSeen(sorted, plain.nodeBranchMap), plain.branchLaneMap, plain.branchColorMap, colors);
  }

  /** The order moves lanes only: branches, colours and row indices are
      those of the layout without an order. */
  lemma OrderKeepsBranchesAndColours(g: GraphIndex, sorted: seq<string>, colors: seq<string>,
                                     order: seq<string>, l: Layout, plain: Layout)
    requires RenderOrder(sorted, g.nodeMap, g.parentMap)
    requires l == LayoutOf(g, sorted, colors, order)
    requires plain == LayoutOf(g, sorted, colors, [])
    ensures l.branchColorMap == plain.branchColorMap && l.nodeBranchMap == plain.nodeBranchMap
    ensures l.nodeRenderIndex == plain.nodeRenderIndex
  {
  }

  /** Without an order the lanes number the branches in first-seen order. */
  lemma PlainLanesInOrder(g: GraphIndex, sorted: seq<string>, colors: seq<string>, plain: Layout)
    requires RenderOrder(sorted, g.nodeMap, g.parentMap)
    requires plain == LayoutOf(g, sorted, colors, [])
    ensures plain.nodeBranchMap.Keys == Elems(sorted)
    ensures LanesInOrder(FirstSeen(sorted, plain.nodeBranchMap), plain.branchLaneMap)
  {
    LayoutBranches(g, sorted, colors, [], plain);
    LayoutColumns(g, sorted, colors, [], plain);
  }

  /** Numbering and colouring the same branch list makes a branch's colour
      the palette entry at its lane. */
  lemma ColourByLane(fs: seq<string>, lanes: map<string, int>, cm: map<string, string>, colors: seq<string>)
    requires |colors| > 0 && LanesInOrder(fs, lanes)
    requires forall i :: 0 <= i < |fs| ==> fs[i] in cm && cm[fs[i]] == colors[i % |colors|]
    ensures forall b :: b in lanes ==> b in cm && cm[b] == colors[lanes[b] % |colors|]
  {
    forall b | b in lanes
      ensures b in cm && cm[b] == colors[lanes[b] % |colors|]
    {
      assert fs[lanes[b]] == b;
    }
  }
}
