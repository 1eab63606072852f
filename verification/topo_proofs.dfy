/** What `topologicalSort` computes. It is a breadth-first walk, not Kahn's
    algorithm, so its output is weaker than a topological order: each id
    comes once, blocks start at the count-0 ids in input order, every other id
    comes after the parent that discovered it, and on an acyclic graph with
    valid endpoints every node is emitted. */
module TopoProofs {
  import opened Seqs
  import opened Types
  import opened GraphMaps
  import opened Cycles
  import opened Algorithm

  /** An id whose count is 0: the walk may start a block there. */
  predicate IsRoot(inDegree: map<string, int>, x: string) {
    x in inDegree && inDegree[x] == 0
  }

  /** The ids of `s` that are roots, in order. */
  function Roots(inDegree: map<string, int>, s: seq<string>): seq<string> {
    if |s| == 0 then []
    else Roots(inDegree, s[..|s| - 1]) + (if IsRoot(inDegree, s[|s| - 1]) then [s[|s| - 1]] else [])
  }

  /** Every id of `w` is a root or the child of an id before it. */
  ghost predicate Discovered(childMap: map<string, seq<string>>, inDegree: map<string, int>, w: seq<string>) {
    forall i :: 0 <= i < |w| ==>
      IsRoot(inDegree, w[i]) || exists j :: 0 <= j < i && w[i] in ListAt(childMap, w[j])
  }

  /** The children of every emitted id are marked visited. */
  ghost predicate Closed(childMap: map<string, seq<string>>, result: seq<string>, visited: set<string>) {
    forall u, c :: u in result && c in ListAt(childMap, u) ==> c in visited
  }

  /** No child is a root: a listed child always has a positive count. */
  ghost predicate ChildrenNotRoots(childMap: map<string, seq<string>>, inDegree: map<string, int>) {
    forall u, c :: c in ListAt(childMap, u) ==> !IsRoot(inDegree, c)
  }

  lemma {:induction false} RootsAppend(inDegree: map<string, int>, a: seq<string>, b: seq<string>)
    ensures Roots(inDegree, a + b) == Roots(inDegree, a) + Roots(inDegree, b)
    decreases |b|
  {
    if |b| > 0 {
      var n := |b| - 1;
      assert (a + b)[..|a + b| - 1] == a + b[..n];
      assert (a + b)[|a + b| - 1] == b[n];
      RootsAppend(inDegree, a, b[..n]);
    } else {
      assert a + b == a;
    }
  }

  lemma {:induction false} RootsOfNonRoots(inDegree: map<string, int>, s: seq<string>)
    requires forall x :: x in s ==> !IsRoot(inDegree, x)
    ensures Roots(inDegree, s) == []
  {
    if |s| > 0 {
      assert s[|s| - 1] in s;
      RootsOfNonRoots(inDegree, s[..|s| - 1]);
    }
  }

  lemma {:induction false} RootsAreRoots(inDegree: map<string, int>, s: seq<string>)
    ensures forall x :: x in Roots(inDegree, s) ==> x in s && IsRoot(inDegree, x)
  {
    if |s| > 0 {
      RootsAreRoots(inDegree, s[..|s| - 1]);
    }
  }

  lemma {:induction false} RootsHasRoots(inDegree: map<string, int>, s: seq<string>, x: string)
    requires x in s && IsRoot(inDegree, x)
    ensures x in Roots(inDegree, s)
  {
    if s[|s| - 1] != x {
      RootsHasRoots(inDegree, s[..|s| - 1], x);
    }
  }

  /** The state of one block's walk. `result + queue[head..]` is everything
      emitted or waiting; it is duplicate-free and exactly the visited set. */
  ghost predicate BfsInv(childMap: map<string, seq<string>>, inDegree: map<string, int>,
                         queue: seq<string>, head: nat, visited: set<string>, result: seq<string>) {
    && head <= |queue|
    && NoDup(result + queue[head..])
    && visited == Elems(result + queue[head..])
    && Discovered(childMap, inDegree, result + queue[head..])
    && Closed(childMap, result, visited)
  }

  /** Appending children of an id already in the list keeps every id
      discovered. */
  lemma DiscoveredAppend(childMap: map<string, seq<string>>, inDegree: map<string, int>,
                         w: seq<string>, k: nat, added: seq<string>)
    requires Discovered(childMap, inDegree, w) && k < |w|
    requires forall x :: x in added ==> x in ListAt(childMap, w[k])
    ensures Discovered(childMap, inDegree, w + added)
  {
    var w' := w + added;
    forall i | 0 <= i < |w'|
      ensures IsRoot(inDegree, w'[i]) || exists j :: 0 <= j < i && w'[i] in ListAt(childMap, w'[j])
    {
      if i < |w| {
        assert w'[i] == w[i];
        if !IsRoot(inDegree, w[i]) {
          var j :| 0 <= j < i && w[i] in ListAt(childMap, w[j]);
          assert w'[j] == w[j];
        }
      } else {
        assert w'[i] == added[i - |w|];
        assert w'[k] == w[k];
      }
    }
  }

  /** The emitted-or-waiting list after one step is the one before followed
      by the newly queued children. */
  lemma BfsStepShape(childMap: map<string, seq<string>>, queue: seq<string>, head: nat,
                     visited: set<string>, result: seq<string>)
    requires head < |queue|
    ensures var e := Enqueue(ListAt(childMap, queue[head]), queue, visited);
            (result + [queue[head]]) + e.0[head + 1..] == (result + queue[head..]) + e.0[|queue|..]
  {
    var u := queue[head];
    var e := Enqueue(ListAt(childMap, u), queue, visited);
    var added := e.0[|queue|..];
    assert e.0 == queue + added;
    assert queue[head..] == [u] + queue[head + 1..];
    assert e.0[head + 1..] == queue[head + 1..] + added;
  }

  /** One step of a block's walk keeps the invariant. */
  lemma BfsStep(childMap: map<string, seq<string>>, inDegree: map<string, int>,
                queue: seq<string>, head: nat, visited: set<string>, result: seq<string>)
    requires BfsInv(childMap, inDegree, queue, head, visited, result) && head < |queue|
    ensures var u := queue[head];
            var e := Enqueue(ListAt(childMap, u), queue, visited);
            BfsInv(childMap, inDegree, e.0, head + 1, e.1, result + [u])
  {
    var u := queue[head];
    var cs := ListAt(childMap, u);
    var e := Enqueue(cs, queue, visited);
    var added := e.0[|queue|..];
    var w := result + queue[head..];
    var w' := (result + [u]) + e.0[head + 1..];
    BfsStepShape(childMap, queue, head, visited, result);
    assert w' == w + added;
    assert w[|result|] == u;
    NoDupConcat(w, added);
    assert e.1 == Elems(w');
    DiscoveredAppend(childMap, inDegree, w, |result|, added);
    forall v, c | v in result + [u] && c in ListAt(childMap, v)
      ensures c in e.1
    {
      if v != u {
        assert v in result;
      }
    }
  }

  /** A block's walk keeps the invariant to the end, and the roots among the
      emitted-or-waiting ids do not change, since every queued id is a child. */
  lemma {:induction false} BfsRun(childMap: map<string, seq<string>>, inDegree: map<string, int>,
                                  queue: seq<string>, head: nat, visited: set<string>, result: seq<string>)
    requires BfsInv(childMap, inDegree, queue, head, visited, result)
    requires ChildrenNotRoots(childMap, inDegree)
    ensures var r := Bfs(childMap, queue, head, visited, result);
            && BfsInv(childMap, inDegree, [], 0, r.1, r.0)
            && Roots(inDegree, r.0) == Roots(inDegree, result + queue[head..])
    decreases |ChildIds(childMap) - visited| + |queue| - head
  {
    if head == |queue| {
      assert result + queue[head..] == result;
      assert result + [][0..] == result;
    } else {
      var u := queue[head];
      var e := Enqueue(ListAt(childMap, u), queue, visited);
      EnqueueMeasure(ChildIds(childMap), visited, e.0[|queue|..]);
      BfsStep(childMap, inDegree, queue, head, visited, result);
      BfsRun(childMap, inDegree, e.0, head + 1, e.1, result + [u]);
      BfsStepShape(childMap, queue, head, visited, result);
      var added := e.0[|queue|..];
      RootsAppend(inDegree, result + queue[head..], added);
      forall x | x in added
        ensures !IsRoot(inDegree, x)
      {
      }
      RootsOfNonRoots(inDegree, added);
    }
  }

  /** The state of the loop over the nodes, before position `i`. */
  ghost predicate WalkInv(ids: seq<string>, i: nat, childMap: map<string, seq<string>>, inDegree: map<string, int>,
                          result: seq<string>, visited: set<string>) {
    && i <= |ids|
    && NoDup(result)
    && visited == Elems(result)
    && Discovered(childMap, inDegree, result)
    && Closed(childMap, result, visited)
    && (forall k :: 0 <= k < i && IsRoot(inDegree, ids[k]) ==> ids[k] in visited)
    && (NoDup(ids) ==> Roots(inDegree, result) == Roots(inDegree, ids[..i]))
  }

  /** Starting a block at an unvisited root sets up the block's invariant. */
  lemma BlockStart(childMap: map<string, seq<string>>, inDegree: map<string, int>, result: seq<string>, id: string)
    requires NoDup(result) && Discovered(childMap, inDegree, result) && Closed(childMap, result, Elems(result))
    requires id !in result && IsRoot(inDegree, id)
    ensures BfsInv(childMap, inDegree, [id], 0, Elems(result) + {id}, result)
  {
    var w := result + [id];
    assert [id][0..] == [id];
    NoDupConcat(result, [id]);
    DiscoveredAppendRoot(childMap, inDegree, result, id);
  }

  lemma DiscoveredAppendRoot(childMap: map<string, seq<string>>, inDegree: map<string, int>, w: seq<string>, id: string)
    requires Discovered(childMap, inDegree, w) && IsRoot(inDegree, id)
    ensures Discovered(childMap, inDegree, w + [id])
  {
    var w' := w + [id];
    forall k | 0 <= k < |w'|
      ensures IsRoot(inDegree, w'[k]) || exists j :: 0 <= j < k && w'[k] in ListAt(childMap, w'[j])
    {
      if k < |w| && !IsRoot(inDegree, w[k]) {
        var j :| 0 <= j < k && w[k] in ListAt(childMap, w[j]);
        assert w'[j] == w[j];
      }
    }
  }

  /** A root of the node list that the loop reaches is never already
      visited: only roots start blocks and the ids are unique. */
  lemma RootNotVisited(ids: seq<string>, i: nat, inDegree: map<string, int>, result: seq<string>)
    requires NoDup(ids) && i < |ids| && IsRoot(inDegree, ids[i])
    requires Roots(inDegree, result) == Roots(inDegree, ids[..i])
    ensures ids[i] !in result
  {
    if ids[i] in result {
      RootsAreRoots(inDegree, ids[..i]);
      RootsHasRoots(inDegree, result, ids[i]);
    }
  }

  /** The roots up to position `i + 1` are those up to `i`, plus `ids[i]`
      when it is a root. */
  lemma RootsPrefixStep(ids: seq<string>, i: nat, inDegree: map<string, int>)
    requires i < |ids|
    ensures Roots(inDegree, ids[..i + 1]) ==
            Roots(inDegree, ids[..i]) + (if IsRoot(inDegree, ids[i]) then [ids[i]] else [])
  {
    assert ids[..i + 1] == ids[..i] + [ids[i]];
    RootsAppend(inDegree, ids[..i], [ids[i]]);
    assert [ids[i]][..0] == [];
  }

  /** One turn of the loop over the nodes at an unvisited root: its block
      is walked. */
  lemma WalkBlock(ids: seq<string>, i: nat, childMap: map<string, seq<string>>, inDegree: map<string, int>,
                  result: seq<string>, visited: set<string>)
    requires ChildrenNotRoots(childMap, inDegree)
    requires WalkInv(ids, i, childMap, inDegree, result, visited)
    requires i < |ids| && IsRoot(inDegree, ids[i]) && ids[i] !in visited
    ensures var b := Bfs(childMap, [ids[i]], 0, visited + {ids[i]}, result);
            WalkInv(ids, i + 1, childMap, inDegree, b.0, b.1)
  {
    var id := ids[i];
    RootsPrefixStep(ids, i, inDegree);
    BlockStart(childMap, inDegree, result, id);
    BfsRun(childMap, inDegree, [id], 0, visited + {id}, result);
    var b := Bfs(childMap, [id], 0, visited + {id}, result);
    RootsAppend(inDegree, result, [id]);
    assert [id][0..] == [id];
    assert b.0 + [][0..] == b.0;
    assert result + [id] <= b.0 by {
      BfsExtends(childMap, [id], 0, visited + {id}, result);
    }
    assert id in b.1;
  }

  /** A block's walk only appends to the result. */
  lemma {:induction false} BfsExtends(childMap: map<string, seq<string>>, queue: seq<string>, head: nat,
                                      visited: set<string>, result: seq<string>)
    requires head <= |queue|
    ensures result + queue[head..] <= Bfs(childMap, queue, head, visited, result).0
    decreases |ChildIds(childMap) - visited| + |queue| - head
  {
    if head < |queue| {
      var u := queue[head];
      var e := Enqueue(ListAt(childMap, u), queue, visited);
      EnqueueMeasure(ChildIds(childMap), visited, e.0[|queue|..]);
      BfsExtends(childMap, e.0, head + 1, e.1, result + [u]);
      BfsStepShape(childMap, queue, head, visited, result);
    }
  }

  /** One turn of the loop over the nodes where nothing is walked. */
  lemma WalkSkip(ids: seq<string>, i: nat, childMap: map<string, seq<string>>, inDegree: map<string, int>,
                 result: seq<string>, visited: set<string>)
    requires WalkInv(ids, i, childMap, inDegree, result, visited)
    requires i < |ids| && !(IsRoot(inDegree, ids[i]) && ids[i] !in visited)
    ensures WalkInv(ids, i + 1, childMap, inDegree, result, visited)
  {
    RootsPrefixStep(ids, i, inDegree);
    if NoDup(ids) && IsRoot(inDegree, ids[i]) {
      RootNotVisited(ids, i, inDegree, result);
    }
  }

  lemma {:induction false} WalkRun(ids: seq<string>, i: nat, childMap: map<string, seq<string>>, inDegree: map<string, int>,
                                   result: seq<string>, visited: set<string>)
    requires ChildrenNotRoots(childMap, inDegree)
    requires WalkInv(ids, i, childMap, inDegree, result, visited)
    ensures WalkInv(ids, |ids|, childMap, inDegree, Walk(ids, i, childMap, inDegree, result, visited),
                    Elems(Walk(ids, i, childMap, inDegree, result, visited)))
    decreases |ids| - i
  {
    if i < |ids| {
      var id := ids[i];
      if id !in visited && IsRoot(inDegree, id) {
        WalkBlock(ids, i, childMap, inDegree, result, visited);
        var b := Bfs(childMap, [id], 0, visited + {id}, result);
        WalkRun(ids, i + 1, childMap, inDegree, b.0, b.1);
      } else {
        WalkSkip(ids, i, childMap, inDegree, result, visited);
        WalkRun(ids, i + 1, childMap, inDegree, result, visited);
      }
    }
  }

  /** The walk over the nodes only appends to the result. */
  lemma {:induction false} WalkExtends(ids: seq<string>, i: nat, childMap: map<string, seq<string>>, inDegree: map<string, int>,
                                       result: seq<string>, visited: set<string>)
    requires i <= |ids|
    ensures result <= Walk(ids, i, childMap, inDegree, result, visited)
    decreases |ids| - i
  {
    if i < |ids| {
      var id := ids[i];
      if id !in visited && id in inDegree && inDegree[id] == 0 {
        var b := Bfs(childMap, [id], 0, visited + {id}, result);
        BfsExtends(childMap, [id], 0, visited + {id}, result);
        WalkExtends(ids, i + 1, childMap, inDegree, b.0, b.1);
      } else {
        WalkExtends(ids, i + 1, childMap, inDegree, result, visited);
      }
    }
  }

  /** From an empty start the walk emits something exactly when a root is
      left, and its first row is the first such root. */
  lemma {:induction false} WalkFromEmpty(ids: seq<string>, i: nat, childMap: map<string, seq<string>>, inDegree: map<string, int>)
    requires i <= |ids|
    ensures var r := Walk(ids, i, childMap, inDegree, [], {});
            && (r != [] <==> Roots(inDegree, ids[i..]) != [])
            && (r != [] ==> r[0] == Roots(inDegree, ids[i..])[0])
    decreases |ids| - i
  {
    if i < |ids| {
      var id := ids[i];
      assert ids[i..] == [id] + ids[i + 1..];
      RootsAppend(inDegree, [id], ids[i + 1..]);
      assert [id][..0] == [];
      if IsRoot(inDegree, id) {
        var b := Bfs(childMap, [id], 0, {id}, []);
        BfsExtends(childMap, [id], 0, {} + {id}, []);
        assert {} + {id} == {id};
        assert [] + [id][0..] == [id];
        WalkExtends(ids, i + 1, childMap, inDegree, b.0, b.1);
      } else {
        WalkFromEmpty(ids, i + 1, childMap, inDegree);
      }
    }
  }

  // ---------------------------------------------------------------------------
  // The walk over the index of a graph
  // ---------------------------------------------------------------------------

  /** The row order `topologicalSort` produces for a graph. */
  function Sorted(nodes: seq<Node>, edges: seq<Edge>): seq<string> {
    var g := BuildGraphMaps(nodes, edges);
    TopologicalSort(nodes, g.childMap, g.inDegree)
  }

  lemma GraphChildrenNotRoots(nodes: seq<Node>, edges: seq<Edge>)
    ensures ChildrenNotRoots(BuildGraphMaps(nodes, edges).childMap, BuildGraphMaps(nodes, edges).inDegree)
  {
    var g := BuildGraphMaps(nodes, edges);
    forall u, c | c in ListAt(g.childMap, u)
      ensures !IsRoot(g.inDegree, c)
    {
      ChildrenHavePositiveInDegree(nodes, edges, u, c);
    }
  }

  lemma SortedInv(nodes: seq<Node>, edges: seq<Edge>)
    ensures WalkInv(Ids(nodes), |nodes|, BuildGraphMaps(nodes, edges).childMap, BuildGraphMaps(nodes, edges).inDegree,
                    Sorted(nodes, edges), Elems(Sorted(nodes, edges)))
  {
    var g := BuildGraphMaps(nodes, edges);
    GraphChildrenNotRoots(nodes, edges);
    assert Ids(nodes)[..0] == [];
    WalkRun(Ids(nodes), 0, g.childMap, g.inDegree, [], {});
  }

  /** Every id appears at most once in the row order. */
  lemma SortedNoDup(nodes: seq<Node>, edges: seq<Edge>)
    ensures NoDup(Sorted(nodes, edges))
  {
    SortedInv(nodes, edges);
  }

  /** Every row is a root or comes after one of its parents, the one whose
      turn queued it. */
  lemma SortedAfterSomeParent(nodes: seq<Node>, edges: seq<Edge>)
    ensures var r := Sorted(nodes, edges);
            forall i :: 0 <= i < |r| ==>
              IsRoot(BuildGraphMaps(nodes, edges).inDegree, r[i]) || exists j :: 0 <= j < i && Link(edges, r[j], r[i])
  {
    var g := BuildGraphMaps(nodes, edges);
    SortedInv(nodes, edges);
    DiscoveredByLinks(edges, g.childMap, g.inDegree, Sorted(nodes, edges));
  }

  /** When the child lists are read off the edges, an id discovered through
      an earlier id's child list has an edge from it. */
  lemma DiscoveredByLinks(edges: seq<Edge>, childMap: map<string, seq<string>>, inDegree: map<string, int>,
                          r: seq<string>)
    requires forall u :: u in childMap ==> childMap[u] == Targets(edges, u)
    requires Discovered(childMap, inDegree, r)
    ensures forall i :: 0 <= i < |r| ==> IsRoot(inDegree, r[i]) || exists j :: 0 <= j < i && Link(edges, r[j], r[i])
  {
    forall i | 0 <= i < |r| && !IsRoot(inDegree, r[i])
      ensures exists j :: 0 <= j < i && Link(edges, r[j], r[i])
    {
      var j :| 0 <= j < i && r[i] in ListAt(childMap, r[j]);
      InTargets(edges, r[j], r[i]);
    }
  }

  /** The first row is the first root in input order, and there are rows
      exactly when some node is a root. */
  lemma SortedStartsAtFirstRoot(nodes: seq<Node>, edges: seq<Edge>)
    ensures var g := BuildGraphMaps(nodes, edges);
            var r := Sorted(nodes, edges);
            && (r != [] <==> Roots(g.inDegree, Ids(nodes)) != [])
            && (r != [] ==> r[0] == Roots(g.inDegree, Ids(nodes))[0])
  {
    var g := BuildGraphMaps(nodes, edges);
    WalkFromEmpty(Ids(nodes), 0, g.childMap, g.inDegree);
    assert Ids(nodes)[0..] == Ids(nodes);
  }

  /** With unique ids, blocks start at every root, in input order: the roots
      among the rows are the roots among the nodes, in the same order. */
  lemma SortedRootsInOrder(nodes: seq<Node>, edges: seq<Edge>)
    requires UniqueIds(nodes)
    ensures Roots(BuildGraphMaps(nodes, edges).inDegree, Sorted(nodes, edges))
            == Roots(BuildGraphMaps(nodes, edges).inDegree, Ids(nodes))
  {
    SortedInv(nodes, edges);
    var g := BuildGraphMaps(nodes, edges);
    var r := Sorted(nodes, edges);
    WalkRootsAll(Ids(nodes), g.childMap, g.inDegree, r, Elems(r));
  }

  /** A finished walk over distinct ids has the roots of the ids, in order. */
  lemma WalkRootsAll(ids: seq<string>, childMap: map<string, seq<string>>, inDegree: map<string, int>,
                     r: seq<string>, visited: set<string>)
    requires NoDup(ids) && WalkInv(ids, |ids|, childMap, inDegree, r, visited)
    ensures Roots(inDegree, r) == Roots(inDegree, ids)
  {
    assert ids[..|ids|] == ids;
  }

  /** With valid endpoints every row is a node id. */
  lemma SortedInIds(nodes: seq<Node>, edges: seq<Edge>)
    requires ValidEndpoints(nodes, edges)
    ensures forall x :: x in Sorted(nodes, edges) ==> x in Ids(nodes)
  {
    var g := BuildGraphMaps(nodes, edges);
    SortedAfterSomeParent(nodes, edges);
    LinkedRowsInIds(Ids(nodes), edges, g.inDegree, Sorted(nodes, edges));
  }

  /** When every edge ends at a known id and the in-degrees are kept for the
      known ids and the edge targets, a row that is a root or is reached by
      an edge is a known id. */
  lemma LinkedRowsInIds(ids: seq<string>, edges: seq<Edge>, inDegree: map<string, int>, r: seq<string>)
    requires forall e :: e in edges ==> e.target in ids
    requires inDegree.Keys == Elems(ids) + TargetIds(edges)
    requires forall i :: 0 <= i < |r| ==> IsRoot(inDegree, r[i]) || exists j :: 0 <= j < i && Link(edges, r[j], r[i])
    ensures forall x :: x in r ==> x in ids
  {
    forall x | x in r
      ensures x in ids
    {
      var i :| 0 <= i < |r| && r[i] == x;
      if !IsRoot(inDegree, x) {
        var j :| 0 <= j < i && Link(edges, r[j], r[i]);
        var e :| e in edges && e.source == r[j] && e.target == r[i];
      }
    }
  }

  /** A node that is not a row is not a root, and none of its parents is a
      row either, since a row's children are all visited. */
  lemma UnsortedHasParent(ids: seq<string>, edges: seq<Edge>, childMap: map<string, seq<string>>,
                          inDegree: map<string, int>, r: seq<string>, x: string)
    requires forall e :: e in edges ==> e.source in ids && e.target in ids
    requires forall k :: 0 <= k < |ids| && IsRoot(inDegree, ids[k]) ==> ids[k] in Elems(r)
    requires Closed(childMap, r, Elems(r))
    requires forall v :: v in ids ==> v in inDegree && inDegree[v] == |Sources(edges, v)|
    requires forall u :: u in ids ==> ListAt(childMap, u) == Targets(edges, u)
    requires x in ids && x !in r
    ensures exists y :: y in ids && y !in r && Link(edges, y, x)
  {
    var k :| 0 <= k < |ids| && ids[k] == x;
    assert !IsRoot(inDegree, x);
    var y := Sources(edges, x)[0];
    InSources(edges, x, y);
    var e :| e in edges && e.source == y && e.target == x;
    assert Link(edges, y, x);
    if y in r {
      InTargets(edges, y, x);
    }
  }

  /** The facts of the index the walk proofs use, stated for the node ids. */
  lemma IndexFacts(nodes: seq<Node>, edges: seq<Edge>)
    requires ValidEndpoints(nodes, edges)
    ensures var g := BuildGraphMaps(nodes, edges);
            && (forall v :: v in Ids(nodes) ==> v in g.inDegree && g.inDegree[v] == |Sources(edges, v)|)
            && (forall u :: u in Ids(nodes) ==> ListAt(g.childMap, u) == Targets(edges, u))
            && (forall v :: v in Ids(nodes) ==> ListAt(g.parentMap, v) == Sources(edges, v))
  {
    InDegreeMatchesParents(nodes, edges);
  }

  /** On an acyclic graph with valid endpoints every node is a row: the nodes
      left out would form a set where each has a parent, hence a cycle. */
  lemma SortedComplete(nodes: seq<Node>, edges: seq<Edge>)
    requires ValidEndpoints(nodes, edges) && !HasCycle(edges)
    ensures forall x :: x in Ids(nodes) <==> x in Sorted(nodes, edges)
  {
    var g := BuildGraphMaps(nodes, edges);
    var r := Sorted(nodes, edges);
    var ids := Ids(nodes);
    SortedInv(nodes, edges);
    SortedInIds(nodes, edges);
    IndexFacts(nodes, edges);
    var left := Elems(ids) - Elems(r);
    forall x | x in left
      ensures HasParentIn(edges, left, x)
    {
      UnsortedHasParent(ids, edges, g.childMap, g.inDegree, r, x);
    }
    if left != {} {
      ParentClosedHasCycle(edges, left);
    }
    forall x | x in ids
      ensures x in r
    {
      assert x in Elems(ids) && x !in left;
    }
  }

  /** With unique ids as well, the row order is a permutation of the ids. */
  lemma SortedIsPermutation(nodes: seq<Node>, edges: seq<Edge>)
    requires UniqueIds(nodes) && ValidEndpoints(nodes, edges) && !HasCycle(edges)
    ensures multiset(Sorted(nodes, edges)) == multiset(Ids(nodes))
  {
    SortedNoDup(nodes, edges);
    SortedComplete(nodes, edges);
    SameElementsPermutation(Sorted(nodes, edges), Ids(nodes));
  }

  /** A row that is not a root and has a single parent comes after it. */
  lemma SingleParentFirst(edges: seq<Edge>, inDegree: map<string, int>, r: seq<string>, i: nat)
    requires i < |r| && |Sources(edges, r[i])| == 1
    requires r[i] in inDegree && inDegree[r[i]] == |Sources(edges, r[i])|
    requires IsRoot(inDegree, r[i]) || exists j :: 0 <= j < i && Link(edges, r[j], r[i])
    ensures Sources(edges, r[i])[0] in r[..i]
  {
    var v := r[i];
    var j :| 0 <= j < i && Link(edges, r[j], v);
    var e :| e in edges && e.source == r[j] && e.target == v;
    InSources(edges, v, r[j]);
    assert r[j] == Sources(edges, v)[0];
    assert r[..i][j] == r[j];
  }

  /** A row with exactly one parent comes after that parent, so the branch
      assignment always finds the parent's branch already set. */
  lemma SortedParentsFirst(nodes: seq<Node>, edges: seq<Edge>)
    ensures var g := BuildGraphMaps(nodes, edges);
            var r := Sorted(nodes, edges);
            forall i :: 0 <= i < |r| && |ListAt(g.parentMap, r[i])| == 1 ==> ListAt(g.parentMap, r[i])[0] in r[..i]
  {
    var g := BuildGraphMaps(nodes, edges);
    var r := Sorted(nodes, edges);
    SortedAfterSomeParent(nodes, edges);
    forall i | 0 <= i < |r| && |ListAt(g.parentMap, r[i])| == 1
      ensures ListAt(g.parentMap, r[i])[0] in r[..i]
    {
      assert r[i] in g.parentMap && r[i] in g.inDegree;
      SingleParentFirst(edges, g.inDegree, r, i);
    }
  }
}
