/** What `detectCycles` computes: on a graph whose edges name existing,
    uniquely identified nodes, it reports a cycle exactly when the graph has a
    directed cycle. The proof carries an invariant of the Kahn loop over the
    count of not-yet-processed parents of each node. */
module KahnProofs {
  import opened Seqs
  import opened Types
  import opened GraphMaps
  import opened Cycles
  import opened Algorithm

  /** Edges into `v` whose source is not in `done`. */
  function Pending(edges: seq<Edge>, v: string, done: set<string>): nat {
    if |edges| == 0 then 0
    else
      var e := edges[|edges| - 1];
      Pending(edges[..|edges| - 1], v, done) + (if e.target == v && e.source !in done then 1 else 0)
  }

  lemma {:induction false} PendingNone(edges: seq<Edge>, v: string)
    ensures Pending(edges, v, {}) == |Sources(edges, v)|
  {
    if |edges| > 0 {
      PendingNone(edges[..|edges| - 1], v);
    }
  }

  /** Processing `u` removes exactly the edges from `u` into `v`. */
  lemma {:induction false} PendingStep(edges: seq<Edge>, v: string, done: set<string>, u: string)
    requires u !in done
    ensures Pending(edges, v, done) == Pending(edges, v, done + {u}) + Count(Targets(edges, u), v)
  {
    if |edges| > 0 {
      var init := edges[..|edges| - 1];
      var e := edges[|edges| - 1];
      PendingStep(init, v, done, u);
      var last := if e.source == u then [e.target] else [];
      CountAppend(Targets(init, u), last, v);
    }
  }

  lemma {:induction false} PendingZero(edges: seq<Edge>, v: string, done: set<string>, e: Edge)
    requires Pending(edges, v, done) == 0
    requires e in edges && e.target == v
    ensures e.source in done
  {
    var init := edges[..|edges| - 1];
    if e != edges[|edges| - 1] {
      assert e in init;
      PendingZero(init, v, done, e);
    }
  }

  lemma {:induction false} PendingPositive(edges: seq<Edge>, v: string, done: set<string>)
    requires Pending(edges, v, done) > 0
    ensures exists e :: e in edges && e.target == v && e.source !in done
  {
    var init := edges[..|edges| - 1];
    var e := edges[|edges| - 1];
    if !(e.target == v && e.source !in done) {
      PendingPositive(init, v, done);
      var e' :| e' in init && e'.target == v && e'.source !in done;
      assert e' in edges;
    }
  }

  /** The inner loop of `detectCycles` lowers every count by the number of
      times the id occurs among the children. */
  lemma {:induction false} RelaxCounts(temp: map<string, int>, queue: seq<string>, cs: seq<string>, v: string)
    requires forall c :: c in cs ==> c in temp
    requires v in temp
    ensures Relax(temp, queue, cs).0[v] == temp[v] - Count(cs, v)
    decreases |cs|
  {
    if |cs| > 0 {
      var c := cs[0];
      var t1 := temp[c := temp[c] - 1];
      var q1 := if t1[c] == 0 then queue + [c] else queue;
      assert Relax(temp, queue, cs) == Relax(t1, q1, cs[1..]);
      RelaxCounts(t1, q1, cs[1..], v);
    }
  }

  /** When no child occurs more often than its count, the ids the inner loop
      appends to the queue are, once each, the children whose count went from
      positive to 0. */
  lemma {:induction false} RelaxEnqueues(temp: map<string, int>, queue: seq<string>, cs: seq<string>)
    requires forall c :: c in cs ==> c in temp && Count(cs, c) <= temp[c]
    ensures NoDup(Relax(temp, queue, cs).1[|queue|..])
    ensures forall x :: x in Relax(temp, queue, cs).1[|queue|..] <==>
              x in temp && temp[x] >= 1 && temp[x] - Count(cs, x) == 0
    decreases |cs|
  {
    var r := Relax(temp, queue, cs);
    if |cs| == 0 {
      assert r.1[|queue|..] == [];
    } else {
      var c := cs[0];
      assert c in cs;
      var t1 := temp[c := temp[c] - 1];
      var q1 := if t1[c] == 0 then queue + [c] else queue;
      assert r == Relax(t1, q1, cs[1..]);
      RelaxRestFits(temp, cs);
      RelaxEnqueues(t1, q1, cs[1..]);
      RelaxCombine(temp, queue, cs, r.1);
    }
  }

  /** After the first child is relaxed, the remaining children still fit
      within the counts. */
  lemma RelaxRestFits(temp: map<string, int>, cs: seq<string>)
    requires |cs| > 0
    requires forall c :: c in cs ==> c in temp && Count(cs, c) <= temp[c]
    ensures var t1 := temp[cs[0] := temp[cs[0]] - 1];
            forall x :: x in cs[1..] ==> x in t1 && Count(cs[1..], x) <= t1[x]
  {
    var c := cs[0];
    assert c in cs;
    var t1 := temp[c := temp[c] - 1];
    forall x | x in cs[1..]
      ensures x in t1 && Count(cs[1..], x) <= t1[x]
    {
      assert x in cs;
    }
  }

  /** What the first child adds in front of what the rest enqueue. */
  lemma RelaxCombine(temp: map<string, int>, queue: seq<string>, cs: seq<string>, out: seq<string>)
    requires |cs| > 0 && cs[0] in temp && Count(cs, cs[0]) <= temp[cs[0]]
    requires var t1 := temp[cs[0] := temp[cs[0]] - 1];
             var q1 := if t1[cs[0]] == 0 then queue + [cs[0]] else queue;
             && |out| >= |q1| && out[..|q1|] == q1
             && NoDup(out[|q1|..])
             && forall x :: x in out[|q1|..] <==> x in t1 && t1[x] >= 1 && t1[x] - Count(cs[1..], x) == 0
    ensures NoDup(out[|queue|..])
    ensures forall x :: x in out[|queue|..] <==> x in temp && temp[x] >= 1 && temp[x] - Count(cs, x) == 0
  {
    var c := cs[0];
    var rest := cs[1..];
    var t1 := temp[c := temp[c] - 1];
    var q1 := if t1[c] == 0 then queue + [c] else queue;
    var tail := out[|q1|..];
    var added := if t1[c] == 0 then [c] else [];
    assert out[|queue|..] == added + tail;
    if t1[c] == 0 {
      CountPositiveIffIn(rest, c);
      assert c !in tail;
      assert NoDup([c] + tail);
    }
    forall x
      ensures x in out[|queue|..] <==> x in temp && temp[x] >= 1 && temp[x] - Count(cs, x) == 0
    {
      assert Count(cs, x) == (if x == c then 1 else 0) + Count(rest, x);
      assert x in out[|queue|..] <==> x in added || x in tail;
      if x == c {
        CountPositiveIffIn(rest, c);
      } else {
        assert x !in added;
        assert x in t1 <==> x in temp;
        assert x in temp ==> t1[x] == temp[x];
      }
    }
  }

  /** Every edge joins two ids of `ids`. */
  ghost predicate Within(ids: set<string>, edges: seq<Edge>) {
    forall e :: e in edges ==> e.source in ids && e.target in ids
  }

  /** The child lists the loop reads are the targets of the edges. */
  ghost predicate ChildrenAre(ids: set<string>, edges: seq<Edge>, childMap: map<string, seq<string>>) {
    forall u :: u in ids ==> ListAt(childMap, u) == Targets(edges, u)
  }

  /** Each copied count is the number of edges into the id from sources not
      yet processed. */
  ghost predicate CountsInv(ids: set<string>, edges: seq<Edge>, s: KahnState) {
    && s.temp.Keys == ids
    && (forall v :: v in ids ==> s.temp[v] == Pending(edges, v, Elems(s.visited)))
  }

  /** Processed and queued ids are distinct ids, and they are exactly the ids
      whose count has reached 0. */
  ghost predicate SeenInv(ids: set<string>, s: KahnState) {
    && NoDup(s.visited + s.queue)
    && (forall x :: x in s.visited + s.queue ==> x in ids)
    && (forall v :: v in s.temp ==> (v in s.visited + s.queue <==> s.temp[v] == 0))
  }

  /** Every processed id had all its parents processed before it. */
  ghost predicate OrderInv(edges: seq<Edge>, visited: seq<string>) {
    forall i :: 0 <= i < |visited| ==> Pending(edges, visited[i], Elems(visited[..i])) == 0
  }

  /** The invariant of the Kahn loop. */
  ghost predicate KahnInv(ids: set<string>, edges: seq<Edge>, s: KahnState) {
    CountsInv(ids, edges, s) && SeenInv(ids, s) && OrderInv(edges, s.visited)
  }

  lemma KahnInvInit(nodes: seq<Node>, edges: seq<Edge>)
    requires UniqueIds(nodes) && ValidEndpoints(nodes, edges)
    ensures KahnInv(Elems(Ids(nodes)), edges, KahnStart(nodes, BuildGraphMaps(nodes, edges).inDegree))
  {
    var g := BuildGraphMaps(nodes, edges);
    InDegreeMatchesParents(nodes, edges);
    forall v | v in Elems(Ids(nodes))
      ensures g.inDegree[v] == Pending(edges, v, {})
    {
      PendingNone(edges, v);
    }
    StartInv(Elems(Ids(nodes)), edges, Ids(nodes), g.inDegree);
  }

  /** Before any id is processed, counts that equal the in-degrees satisfy
      the loop invariant. */
  lemma StartInv(ids: set<string>, edges: seq<Edge>, xs: seq<string>, temp: map<string, int>)
    requires ids == Elems(xs) && NoDup(xs) && temp.Keys == ids
    requires forall v :: v in ids ==> temp[v] == Pending(edges, v, {})
    ensures KahnInv(ids, edges, KahnState(ZeroInDegree(xs, temp), temp, []))
  {
    var s := KahnState(ZeroInDegree(xs, temp), temp, []);
    assert s.visited + s.queue == s.queue;
    assert Elems(s.visited) == {};
  }

  lemma KahnGraphFacts(nodes: seq<Node>, edges: seq<Edge>)
    requires ValidEndpoints(nodes, edges)
    ensures Within(Elems(Ids(nodes)), edges)
    ensures ChildrenAre(Elems(Ids(nodes)), edges, BuildGraphMaps(nodes, edges).childMap)
  {
  }

  /** The head of the queue has not been processed yet. */
  lemma HeadUnprocessed(ids: set<string>, s: KahnState)
    requires SeenInv(ids, s) && s.queue != []
    ensures s.queue[0] !in Elems(s.visited) && s.queue[0] in ids
  {
    var w := s.visited + s.queue;
    assert w[|s.visited|] == s.queue[0];
    assert s.queue[0] in w;
    assert forall k :: 0 <= k < |s.visited| ==> w[k] == s.visited[k];
  }

  /** The children of the processed id, with their multiplicities, never
      exceed the counts. */
  lemma ChildrenWithinCounts(ids: set<string>, edges: seq<Edge>, s: KahnState, u: string)
    requires Within(ids, edges) && CountsInv(ids, edges, s)
    requires u !in Elems(s.visited)
    ensures forall c :: c in Targets(edges, u) ==> c in s.temp && Count(Targets(edges, u), c) <= s.temp[c]
  {
    var cs := Targets(edges, u);
    forall c | c in cs
      ensures c in s.temp && Count(cs, c) <= s.temp[c]
    {
      InTargets(edges, u, c);
      var e :| e in edges && e.source == u && e.target == c;
      PendingStep(edges, c, Elems(s.visited), u);
    }
  }

  lemma CountsStep(ids: set<string>, edges: seq<Edge>, childMap: map<string, seq<string>>, s: KahnState)
    requires Within(ids, edges) && ChildrenAre(ids, edges, childMap)
    requires CountsInv(ids, edges, s) && SeenInv(ids, s) && s.queue != []
    ensures CountsInv(ids, edges, KahnStep(childMap, s))
  {
    var u := s.queue[0];
    HeadUnprocessed(ids, s);
    var D := Elems(s.visited);
    var cs := ListAt(childMap, u);
    ChildrenWithinCounts(ids, edges, s, u);
    var r := Relax(s.temp, s.queue[1..], cs);
    var s' := KahnStep(childMap, s);
    assert s' == KahnState(r.1, r.0, s.visited + [u]);
    assert Elems(s'.visited) == D + {u};
    forall v | v in ids
      ensures s'.temp[v] == Pending(edges, v, Elems(s'.visited))
    {
      RelaxCounts(s.temp, s.queue[1..], cs, v);
      PendingStep(edges, v, D, u);
    }
  }

  /** The ids one turn appends to the queue. */
  function Added(childMap: map<string, seq<string>>, s: KahnState): seq<string>
    requires s.queue != []
  {
    KahnStep(childMap, s).queue[|s.queue| - 1..]
  }

  /** After one turn, the processed and queued ids are the ones before,
      followed by the appended ones. */
  lemma AddedShape(childMap: map<string, seq<string>>, s: KahnState)
    requires s.queue != []
    ensures KahnStep(childMap, s).visited + KahnStep(childMap, s).queue == (s.visited + s.queue) + Added(childMap, s)
  {
    var u := s.queue[0];
    var q := s.queue[1..];
    var r := Relax(s.temp, q, ListAt(childMap, u));
    var added := Added(childMap, s);
    var s' := KahnStep(childMap, s);
    assert s' == KahnState(r.1, r.0, s.visited + [u]);
    assert |q| == |s.queue| - 1;
    assert added == r.1[|q|..];
    assert r.1 == r.1[..|q|] + r.1[|q|..];
    assert r.1 == q + added;
    assert s.queue == [u] + q;
  }

  /** The ids one turn appends are, once each, the ids not yet seen whose
      count has just reached 0. */
  lemma AddedSpec(ids: set<string>, edges: seq<Edge>, childMap: map<string, seq<string>>, s: KahnState)
    requires Within(ids, edges) && ChildrenAre(ids, edges, childMap)
    requires CountsInv(ids, edges, s) && SeenInv(ids, s) && s.queue != []
    ensures NoDup(Added(childMap, s))
    ensures forall x :: x in Added(childMap, s) <==>
              x in ids && x !in s.visited + s.queue && KahnStep(childMap, s).temp[x] == 0
  {
    var u := s.queue[0];
    HeadUnprocessed(ids, s);
    var cs := ListAt(childMap, u);
    ChildrenWithinCounts(ids, edges, s, u);
    var q := s.queue[1..];
    RelaxEnqueues(s.temp, q, cs);
    var r := Relax(s.temp, q, cs);
    var added := Added(childMap, s);
    assert |q| == |s.queue| - 1;
    assert added == r.1[|q|..];
    assert KahnStep(childMap, s).temp == r.0;
    forall x
      ensures x in added <==> x in ids && x !in s.visited + s.queue && r.0[x] == 0
    {
      if x in ids {
        RelaxCounts(s.temp, q, cs, x);
      }
    }
  }

  lemma SeenStep(ids: set<string>, edges: seq<Edge>, childMap: map<string, seq<string>>, s: KahnState)
    requires Within(ids, edges) && ChildrenAre(ids, edges, childMap)
    requires CountsInv(ids, edges, s) && SeenInv(ids, s) && s.queue != []
    ensures SeenInv(ids, KahnStep(childMap, s))
  {
    var w := s.visited + s.queue;
    var added := Added(childMap, s);
    var s' := KahnStep(childMap, s);
    var w' := s'.visited + s'.queue;
    AddedShape(childMap, s);
    AddedSpec(ids, edges, childMap, s);
    assert w' == w + added;
    NoDupConcat(w, added);
    forall v | v in ids
      ensures v in w' <==> s'.temp[v] == 0
    {
      if v in w {
        ZeroStaysZero(ids, edges, childMap, s, v);
      } else {
        assert v in w' <==> v in added;
      }
    }
  }

  /** A count that is 0 stays 0: the processed id is not one of its parents. */
  lemma ZeroStaysZero(ids: set<string>, edges: seq<Edge>, childMap: map<string, seq<string>>, s: KahnState, v: string)
    requires Within(ids, edges) && ChildrenAre(ids, edges, childMap)
    requires CountsInv(ids, edges, s) && SeenInv(ids, s) && s.queue != []
    requires v in ids && s.temp[v] == 0
    ensures KahnStep(childMap, s).temp[v] == 0
  {
    HeadUnprocessed(ids, s);
    PendingStep(edges, v, Elems(s.visited), s.queue[0]);
    CountsStep(ids, edges, childMap, s);
    assert Elems(KahnStep(childMap, s).visited) == Elems(s.visited) + {s.queue[0]};
  }

  lemma OrderStep(ids: set<string>, edges: seq<Edge>, childMap: map<string, seq<string>>, s: KahnState)
    requires CountsInv(ids, edges, s) && SeenInv(ids, s) && OrderInv(edges, s.visited) && s.queue != []
    ensures OrderInv(edges, KahnStep(childMap, s).visited)
  {
    var u := s.queue[0];
    HeadUnprocessed(ids, s);
    var vs := KahnStep(childMap, s).visited;
    assert vs == s.visited + [u];
    forall i | 0 <= i < |vs|
      ensures Pending(edges, vs[i], Elems(vs[..i])) == 0
    {
      if i < |s.visited| {
        assert vs[..i] == s.visited[..i];
      } else {
        assert vs[..i] == s.visited;
      }
    }
  }

  lemma {:induction false} KahnInvRun(ids: set<string>, edges: seq<Edge>, childMap: map<string, seq<string>>, s: KahnState)
    requires Within(ids, edges) && ChildrenAre(ids, edges, childMap)
    requires KahnInv(ids, edges, s)
    ensures KahnInv(ids, edges, Kahn(childMap, s))
    decreases |s.queue| + |Waiting(s.temp)|
  {
    if s.queue != [] {
      CountsStep(ids, edges, childMap, s);
      SeenStep(ids, edges, childMap, s);
      OrderStep(ids, edges, childMap, s);
      KahnInvRun(ids, edges, childMap, KahnStep(childMap, s));
    }
  }

  /** The state Kahn's loop ends in, for the index of the graph. */
  function KahnFinal(nodes: seq<Node>, edges: seq<Edge>): KahnState {
    var g := BuildGraphMaps(nodes, edges);
    Kahn(g.childMap, KahnStart(nodes, g.inDegree))
  }

  lemma KahnFinalInv(nodes: seq<Node>, edges: seq<Edge>)
    requires UniqueIds(nodes) && ValidEndpoints(nodes, edges)
    ensures KahnInv(Elems(Ids(nodes)), edges, KahnFinal(nodes, edges))
    ensures KahnFinal(nodes, edges).queue == []
  {
    var g := BuildGraphMaps(nodes, edges);
    KahnInvInit(nodes, edges);
    KahnGraphFacts(nodes, edges);
    KahnInvRun(Elems(Ids(nodes)), edges, g.childMap, KahnStart(nodes, g.inDegree));
  }

  /** An order in which every id comes after all its parents never reaches
      a parent-closed set. */
  lemma {:induction false} ClosedNeverProcessed(edges: seq<Edge>, visited: seq<string>, p: set<string>)
    requires forall i :: 0 <= i < |visited| ==> Pending(edges, visited[i], Elems(visited[..i])) == 0
    requires ParentClosed(edges, p)
    ensures forall x :: x in visited ==> x !in p
  {
    if |visited| > 0 {
      var n := |visited| - 1;
      var init := visited[..n];
      forall i | 0 <= i < |init|
        ensures Pending(edges, init[i], Elems(init[..i])) == 0
      {
        assert init[..i] == visited[..i];
      }
      ClosedNeverProcessed(edges, init, p);
      var x := visited[n];
      if x in p {
        assert HasParentIn(edges, p, x);
        var y :| y in p && Link(edges, y, x);
        var e :| e in edges && e.source == y && e.target == x;
        PendingZero(edges, x, Elems(init), e);
      }
      assert visited == init + [x];
    }
  }

  /** `detectCycles` over the index of a graph with valid endpoints and
      unique ids returns true exactly when the graph has a directed cycle. */
  lemma DetectCyclesIffCycle(nodes: seq<Node>, edges: seq<Edge>)
    requires UniqueIds(nodes) && ValidEndpoints(nodes, edges)
    ensures DetectCycles(nodes, BuildGraphMaps(nodes, edges).childMap, BuildGraphMaps(nodes, edges).inDegree)
            <==> HasCycle(edges)
  {
    var ids := Elems(Ids(nodes));
    KahnFinalInv(nodes, edges);
    var s := KahnFinal(nodes, edges);
    assert s.visited + s.queue == s.visited;
    CoversWhenSameLength(s.visited, Ids(nodes));
    KahnGraphFacts(nodes, edges);
    if HasCycle(edges) {
      CycleUnprocessed(ids, edges, s);
    }
    if |s.visited| != |nodes| {
      var v :| v in Ids(nodes) && v !in s.visited;
      StuckHasCycle(ids, edges, s, v);
    }
  }

  /** A cycle keeps each of its ids out of the processed list. */
  lemma CycleUnprocessed(ids: set<string>, edges: seq<Edge>, s: KahnState)
    requires Within(ids, edges) && KahnInv(ids, edges, s)
    requires HasCycle(edges)
    ensures exists v :: v in ids && v !in s.visited
  {
    var p :| IsCycle(edges, p);
    CycleIsParentClosed(edges, p);
    ClosedNeverProcessed(edges, s.visited, Elems(p));
    assert Link(edges, p[0], p[1]);
    var e :| e in edges && e.source == p[0] && e.target == p[1];
    assert p[0] in ids && p[0] !in s.visited;
  }

  /** Once the queue is empty, the ids never processed form a parent-closed
      set, hence a cycle when there are any. */
  lemma StuckHasCycle(ids: set<string>, edges: seq<Edge>, s: KahnState, v: string)
    requires Within(ids, edges) && KahnInv(ids, edges, s) && s.queue == []
    requires v in ids && v !in s.visited
    ensures HasCycle(edges)
  {
    assert s.visited + s.queue == s.visited;
    var unprocessed := ids - Elems(s.visited);
    assert v in unprocessed;
    forall x | x in unprocessed
      ensures HasParentIn(edges, unprocessed, x)
    {
      assert s.temp[x] != 0;
      PendingPositive(edges, x, Elems(s.visited));
      var e :| e in edges && e.target == x && e.source !in Elems(s.visited);
      assert e.source in unprocessed;
      assert Link(edges, e.source, x);
    }
    ParentClosedHasCycle(edges, unprocessed);
  }

  /** Kahn's processing order is a topological order of what it processed:
      every edge into a processed id starts at an id processed earlier. */
  lemma KahnOrderIsTopological(nodes: seq<Node>, edges: seq<Edge>, i: nat, e: Edge)
    requires UniqueIds(nodes) && ValidEndpoints(nodes, edges)
    requires i < |KahnFinal(nodes, edges).visited|
    requires e in edges && e.target == KahnFinal(nodes, edges).visited[i]
    ensures e.source in KahnFinal(nodes, edges).visited[..i]
  {
    KahnFinalInv(nodes, edges);
    var s := KahnFinal(nodes, edges);
    PendingZero(edges, s.visited[i], Elems(s.visited[..i]), e);
  }
}
