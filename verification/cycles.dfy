/** Directed cycles through the lens the two graph walks need: a graph has a
    cycle exactly when some non-empty set of ids gives each member a parent
    inside the set. */
module Cycles {
  import opened Seqs
  import opened Types

  /** Some parent of `x` lies in `u`. */
  ghost predicate HasParentIn(edges: seq<Edge>, u: set<string>, x: string) {
    exists y :: y in u && Link(edges, y, x)
  }

  /** Every member of `u` has a parent that is also in `u`. */
  ghost predicate ParentClosed(edges: seq<Edge>, u: set<string>) {
    forall x {:trigger HasParentIn(edges, u, x)} :: x in u ==> HasParentIn(edges, u, x)
  }

  /** A parent of `x` inside the parent-closed set `u`. */
  ghost function ParentIn(edges: seq<Edge>, u: set<string>, x: string): (y: string)
    requires ParentClosed(edges, u) && x in u
    ensures y in u && Link(edges, y, x)
  {
    assert HasParentIn(edges, u, x);
    var y :| y in u && Link(edges, y, x); y
  }

  /** A walk of `n` steps backwards along edges, staying inside `u`. */
  ghost function BackWalk(edges: seq<Edge>, u: set<string>, start: string, n: nat): (w: seq<string>)
    requires ParentClosed(edges, u) && start in u
    ensures |w| == n + 1 && w[0] == start
    ensures forall k :: 0 <= k < |w| ==> w[k] in u
    ensures forall k :: 0 <= k < n ==> Link(edges, w[k + 1], w[k])
  {
    if n == 0 then [start]
    else
      var w := BackWalk(edges, u, start, n - 1);
      w + [ParentIn(edges, u, w[n - 1])]
  }

  /** A non-empty parent-closed set contains a cycle: walk backwards longer
      than the set is large and cut the walk at the first repeat. */
  lemma ParentClosedHasCycle(edges: seq<Edge>, u: set<string>)
    requires u != {} && ParentClosed(edges, u)
    ensures HasCycle(edges)
  {
    var x :| x in u;
    var w := BackWalk(edges, u, x, |u|);
    Pigeonhole(w, u);
    var i, j :| 0 <= i < j < |w| && w[i] == w[j];
    var p := seq(j - i + 1, k requires 0 <= k <= j - i => w[j - k]);
    forall k | 0 <= k < |p| - 1
      ensures Link(edges, p[k], p[k + 1])
    {
      assert p[k] == w[(j - k - 1) + 1] && p[k + 1] == w[j - k - 1];
    }
    assert IsCycle(edges, p);
  }

  /** The members of a cycle form a parent-closed set. */
  lemma CycleIsParentClosed(edges: seq<Edge>, p: seq<string>)
    requires IsCycle(edges, p)
    ensures Elems(p) != {}
    ensures ParentClosed(edges, Elems(p))
  {
    assert p[0] in Elems(p);
    forall x | x in Elems(p)
      ensures HasParentIn(edges, Elems(p), x)
    {
      var k :| 0 <= k < |p| && p[k] == x;
      if k == 0 {
        assert Link(edges, p[|p| - 2], p[|p| - 1]);
        assert p[|p| - 2] in Elems(p);
      } else {
        assert Link(edges, p[k - 1], p[k]);
        assert p[k - 1] in Elems(p);
      }
    }
  }
}
