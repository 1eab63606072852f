/** The caller-supplied graph: nodes with an optional declared branch, edges
    between node ids, and the error kinds the layout can report. */
module Types {
  import opened Wrappers
  import opened Seqs

  /** A node. The display label is an opaque payload the layout never reads,
      so it is not part of the model. */
  datatype Node = Node(id: string, branch: Option<string>)

  /** A directed edge from `source` to `target`, both node ids. */
  datatype Edge = Edge(id: string, source: string, target: string)

  /** The node carries a branch name that counts: the source tests the
      optional field for truthiness, so an empty name counts as no branch. */
  predicate Declares(n: Node) {
    n.branch.Some? && n.branch.value != ""
  }

  /** The node ids, in input order. */
  function Ids(nodes: seq<Node>): (ids: seq<string>)
    ensures |ids| == |nodes|
    ensures forall i :: 0 <= i < |nodes| ==> ids[i] == nodes[i].id
  {
    seq(|nodes|, i requires 0 <= i < |nodes| => nodes[i].id)
  }

  predicate UniqueIds(nodes: seq<Node>) {
    NoDup(Ids(nodes))
  }

  /** Every edge names two nodes of the list; the source never checks this. */
  predicate ValidEndpoints(nodes: seq<Node>, edges: seq<Edge>) {
    forall e :: e in edges ==> e.source in Ids(nodes) && e.target in Ids(nodes)
  }

  /** Some edge runs from `a` to `b`. */
  ghost predicate Link(edges: seq<Edge>, a: string, b: string) {
    exists e :: e in edges && e.source == a && e.target == b
  }

  /** A closed directed walk: at least one edge, ending where it starts. */
  ghost predicate IsCycle(edges: seq<Edge>, p: seq<string>) {
    && |p| >= 2
    && p[0] == p[|p| - 1]
    && forall k :: 0 <= k < |p| - 1 ==> Link(edges, p[k], p[k + 1])
  }

  ghost predicate HasCycle(edges: seq<Edge>) {
    exists p :: IsCycle(edges, p)
  }

  /** The errors the layout can end in, one per `throw` of the source
      (the message text is not modelled, the ids it names are). */
  datatype LayoutError =
    | MissingBranchOnMerge(node: string)
    | RootBranchPointMissingBranch(node: string)
    | AmbiguousBranchChildren(node: string, found: nat)
    | CycleDetected
}
