/** The two walks of src/algorithm.ts: Kahn's cycle check (`detectCycles`)
    and the render-order walk (`topologicalSort`). Both are total functions
    over the maps `buildGraphMaps` returns; the facts about them are proved in
    the modules KahnProofs and TopoProofs. */
module Algorithm {
  import opened Seqs
  import opened Types
  import opened GraphMaps

  // ---------------------------------------------------------------------------
  // detectCycles
  // ---------------------------------------------------------------------------

  /** Keys whose count is still positive: the ids the Kahn loop may yet enqueue. */
  function Waiting(temp: map<string, int>): set<string> {
    set k | k in temp && temp[k] > 0
  }

  lemma DecrementWaiting(temp: map<string, int>, c: string)
    requires c in temp
    ensures |Waiting(temp[c := temp[c] - 1])| == |Waiting(temp)| - (if temp[c] == 1 then 1 else 0)
  {
    var t := temp[c := temp[c] - 1];
    if temp[c] == 1 {
      assert Waiting(t) == Waiting(temp) - {c};
    } else {
      assert Waiting(t) == Waiting(temp);
    }
  }

  /** The loop over one node's children: each child's count drops by one and
      the child is enqueued at the moment its count reaches 0. A child without a
      count is left alone (the source stores NaN there, which never equals 0).
      Each enqueue uses up one waiting key, so the queue length plus the number
      of waiting keys is unchanged. */
  function Relax(temp: map<string, int>, queue: seq<string>, children: seq<string>): (r: (map<string, int>, seq<string>))
    ensures r.0.Keys == temp.Keys
    ensures |r.1| >= |queue| && r.1[..|queue|] == queue
    ensures |r.1| + |Waiting(r.0)| == |queue| + |Waiting(temp)|
    decreases |children|
  {
    if |children| == 0 then (temp, queue)
    else
      var c := children[0];
      if c in temp then
        var t := temp[c := temp[c] - 1];
        DecrementWaiting(temp, c);
        Relax(t, if t[c] == 0 then queue + [c] else queue, children[1..])
      else
        Relax(temp, queue, children[1..])
  }

  /** The Kahn loop's variables: the queue, the copied counts, the processed ids. */
  datatype KahnState = KahnState(queue: seq<string>, temp: map<string, int>, visited: seq<string>)

  /** One turn of the loop: shift the head of the queue, record it, relax its children. */
  function KahnStep(childMap: map<string, seq<string>>, s: KahnState): KahnState
    requires s.queue != []
  {
    var u := s.queue[0];
    var r := Relax(s.temp, s.queue[1..], ListAt(childMap, u));
    KahnState(r.1, r.0, s.visited + [u])
  }

  /** The loop run until the queue is empty. */
  function Kahn(childMap: map<string, seq<string>>, s: KahnState): (r: KahnState)
    ensures r.queue == []
    decreases |s.queue| + |Waiting(s.temp)|
  {
    if s.queue == [] then s else Kahn(childMap, KahnStep(childMap, s))
  }

  /** Ids whose count is exactly 0, in input order (the initial queue). */
  function ZeroInDegree(ids: seq<string>, inDegree: map<string, int>): (r: seq<string>)
    ensures forall x :: x in r <==> x in ids && x in inDegree && inDegree[x] == 0
    ensures NoDup(ids) ==> NoDup(r)
  {
    if |ids| == 0 then []
    else
      var init := ids[..|ids| - 1];
      var x := ids[|ids| - 1];
      assert ids == init + [x];
      var r := ZeroInDegree(init, inDegree);
      if x in inDegree && inDegree[x] == 0 then r + [x] else r
  }

  /** The state the loop starts from: a copy of the caller's counts, so the
      caller's map is never changed. */
  function KahnStart(nodes: seq<Node>, inDegree: map<string, int>): KahnState {
    KahnState(ZeroInDegree(Ids(nodes), inDegree), inDegree, [])
  }

  /** `detectCycles`: true when the loop processes a different number of ids
      than there are nodes. */
  function DetectCycles(nodes: seq<Node>, childMap: map<string, seq<string>>, inDegree: map<string, int>): bool {
    |Kahn(childMap, KahnStart(nodes, inDegree)).visited| != |nodes|
  }

  // ---------------------------------------------------------------------------
  // topologicalSort
  // ---------------------------------------------------------------------------

  /** Every id listed as somebody's child. */
  function ChildIds(childMap: map<string, seq<string>>): set<string> {
    set k, c | k in childMap && c in childMap[k] :: c
  }

  /** The loop over one node's children in the walk: each child not yet
      visited is marked visited and queued, in child order. */
  function Enqueue(children: seq<string>, queue: seq<string>, visited: set<string>): (r: (seq<string>, set<string>))
    ensures |r.0| >= |queue| && r.0[..|queue|] == queue
    ensures NoDup(r.0[|queue|..])
    ensures forall x :: x in r.0[|queue|..] <==> x in children && x !in visited
    ensures r.1 == visited + Elems(r.0[|queue|..])
    decreases |children|
  {
    if |children| == 0 then (queue, visited)
    else
      var c := children[0];
      var rest := children[1..];
      assert forall x :: x in children <==> x == c || x in rest;
      if c !in visited then
        var r := Enqueue(rest, queue + [c], visited + {c});
        assert r.0[|queue|..] == [c] + r.0[|queue| + 1..];
        r
      else
        Enqueue(rest, queue, visited)
  }

  lemma EnqueueMeasure(u: set<string>, visited: set<string>, added: seq<string>)
    requires NoDup(added)
    requires forall x :: x in added ==> x in u && x !in visited
    ensures |u - (visited + Elems(added))| + |added| == |u - visited|
  {
    NoDupCardinality(added);
    assert u - visited == (u - (visited + Elems(added))) + Elems(added);
    assert (u - (visited + Elems(added))) !! Elems(added);
  }

  /** The breadth-first walk of one block: emit the head of the queue and
      queue its unvisited children, until the queue is used up. */
  function Bfs(childMap: map<string, seq<string>>, queue: seq<string>, head: nat, visited: set<string>, result: seq<string>)
    : (r: (seq<string>, set<string>))
    requires head <= |queue|
    decreases |ChildIds(childMap) - visited| + |queue| - head
  {
    if head == |queue| then (result, visited)
    else
      var u := queue[head];
      var e := Enqueue(ListAt(childMap, u), queue, visited);
      EnqueueMeasure(ChildIds(childMap), visited, e.0[|queue|..]);
      assert e.0 == queue + e.0[|queue|..];
      Bfs(childMap, e.0, head + 1, e.1, result + [u])
  }

  /** The loop over the nodes from position `i`: an unvisited node with count
      0 starts a new block. */
  function Walk(ids: seq<string>, i: nat, childMap: map<string, seq<string>>, inDegree: map<string, int>,
                result: seq<string>, visited: set<string>): seq<string>
    requires i <= |ids|
    decreases |ids| - i
  {
    if i == |ids| then result
    else
      var id := ids[i];
      if id !in visited && id in inDegree && inDegree[id] == 0 then
        var b := Bfs(childMap, [id], 0, visited + {id}, result);
        Walk(ids, i + 1, childMap, inDegree, b.0, b.1)
      else
        Walk(ids, i + 1, childMap, inDegree, result, visited)
  }

  /** `topologicalSort`. */
  function TopologicalSort(nodes: seq<Node>, childMap: map<string, seq<string>>, inDegree: map<string, int>): seq<string> {
    Walk(Ids(nodes), 0, childMap, inDegree, [], {})
  }
}
