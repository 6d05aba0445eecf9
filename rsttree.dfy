/**
  The discourse tree (rsttace/core/rsttree.py). The Python program links node objects to
  each other and to relation objects by reference; here every object lives at an index of
  a sequence (an arena) and a reference is that index:
  - `nodes` holds the `RstNode` objects;
  - `monoNucs` and `multiNucs` hold every `MonoNucRelation` and `MultiNucRelation` object
    (the Python program appends each one there when it creates it);
  - `spans` holds the `Span` objects, which the Python program keeps nowhere else.
*/
module RstTreeModel {
  import opened Wrappers
  import opened Sequences

  /** The relation kinds with their Python values MONO_NUCLEAR = 0, MULTI_NUCLEAR = 1, SPAN = 2. */
  datatype RstType = MonoNuclear | MultiNuclear | StructuralSpan

  /** What `toParent` and `toChildren` point to: a `Span` or a `MultiNucRelation`. */
  datatype Container = SpanRef(span: nat) | MultiNucRef(multiNuc: nat)

  /**
    A tree node. `toSibling` is the index of the mono-nuclear relation that the node takes
    part in (as satellite or as nucleus); `segmentID` is `[n]` for segment n, or the
    `[min, max]` range of a node with children.
  */
  datatype RstNode = RstNode(
    toParent: Option<Container>,
    toSibling: Option<nat>,
    toChildren: Option<Container>,
    text: Option<string>,
    segmentID: Option<seq<int>>)

  /** `RstNode()`: every field None. */
  const FreshNode := RstNode(None, None, None, None, None)

  /** A satellite `start` attached to the node `end`. */
  datatype MonoNucRelation = MonoNucRelation(relation: string, start: nat, end: nat)

  datatype MultiNucRelation = MultiNucRelation(relation: string, parent: nat, children: seq<nat>)

  datatype Span = Span(parent: nat, children: seq<nat>)

  /** `RstTree` with the arena its references point into. */
  datatype RstTree = RstTree(
    relations: map<string, RstType>,
    root: Option<nat>,
    monoNucs: seq<MonoNucRelation>,
    multiNucs: seq<MultiNucRelation>,
    nodes: seq<RstNode>,
    spans: seq<Span>)

  predicate HasSegmentID(n: RstNode)
  {
    n.segmentID.Some? && |n.segmentID.value| > 0
  }

  /** `min(node.segmentID)` */
  function MinSegmentID(n: RstNode): int
    requires HasSegmentID(n)
  {
    SeqMin(n.segmentID.value)
  }

  /** `max(node.segmentID)` */
  function MaxSegmentID(n: RstNode): int
    requires HasSegmentID(n)
  {
    SeqMax(n.segmentID.value)
  }

  predicate ContainerInRange(c: Container, spanCount: nat, multiNucCount: nat)
  {
    match c
    case SpanRef(p) => p < spanCount
    case MultiNucRef(q) => q < multiNucCount
  }

  predicate NodeLinksInRange(n: RstNode, spanCount: nat, monoNucCount: nat, multiNucCount: nat)
  {
    (n.toParent.Some? ==> ContainerInRange(n.toParent.value, spanCount, multiNucCount))
    && (n.toChildren.Some? ==> ContainerInRange(n.toChildren.value, spanCount, multiNucCount))
    && (n.toSibling.Some? ==> n.toSibling.value < monoNucCount)
  }

  predicate AllBelow(s: seq<nat>, bound: nat)
  {
    forall k :: 0 <= k < |s| ==> s[k] < bound
  }

  predicate AllAbove(s: seq<nat>, bound: nat)
  {
    forall k :: 0 <= k < |s| ==> s[k] > bound
  }

  /** The indices `first`, `first + 1`, ..., `first + count - 1`. */
  function Consecutive(first: nat, count: nat): (s: seq<nat>)
    ensures |s| == count && forall k :: 0 <= k < count ==> s[k] == first + k
  {
    if count == 0 then [] else Consecutive(first, count - 1) + [first + count - 1]
  }

  /** A span has at least one child: `children[0]` is read by the table generator. */
  predicate SpanInRange(sp: Span, nodeCount: nat)
  {
    sp.parent < nodeCount && |sp.children| > 0 && AllBelow(sp.children, nodeCount)
  }

  predicate MultiNucInRange(m: MultiNucRelation, nodeCount: nat)
  {
    m.parent < nodeCount && AllBelow(m.children, nodeCount)
  }

  predicate MonoNucInRange(m: MonoNucRelation, nodeCount: nat)
  {
    m.start < nodeCount && m.end < nodeCount
  }

  /** Every reference held by the arena points at an object of the arena. */
  predicate LinksInRange(nodes: seq<RstNode>, spans: seq<Span>,
                         monoNucs: seq<MonoNucRelation>, multiNucs: seq<MultiNucRelation>)
  {
    (forall i :: 0 <= i < |nodes| ==> NodeLinksInRange(nodes[i], |spans|, |monoNucs|, |multiNucs|))
    && (forall p :: 0 <= p < |spans| ==> SpanInRange(spans[p], |nodes|))
    && (forall q :: 0 <= q < |multiNucs| ==> MultiNucInRange(multiNucs[q], |nodes|))
    && (forall m :: 0 <= m < |monoNucs| ==> MonoNucInRange(monoNucs[m], |nodes|))
  }

  predicate AllHaveSegmentID(nodes: seq<RstNode>)
  {
    forall i :: 0 <= i < |nodes| ==> HasSegmentID(nodes[i])
  }

  /** No node has an empty `segmentID` list: each has a non-empty one or none at all. */
  predicate RangesNonEmpty(nodes: seq<RstNode>)
  {
    forall i :: 0 <= i < |nodes| ==> nodes[i].segmentID.None? || HasSegmentID(nodes[i])
  }

  /**
    A tree as the corrected builder makes it: references in range, a non-empty span child
    list, the root in the arena and a non-empty `segmentID` on every node. The relation-table
    generator reads the ranges only of the nodes its relations name, which is less.
  */
  predicate WellFormed(t: RstTree)
  {
    LinksInRange(t.nodes, t.spans, t.monoNucs, t.multiNucs)
    && (t.root.Some? ==> t.root.value < |t.nodes|)
    && AllHaveSegmentID(t.nodes)
  }

  /** The children of a container, in the arena `spans` / `multiNucs`. */
  function ContainerChildren(c: Container, spans: seq<Span>, multiNucs: seq<MultiNucRelation>): seq<nat>
    requires ContainerInRange(c, |spans|, |multiNucs|)
  {
    match c
    case SpanRef(p) => spans[p].children
    case MultiNucRef(q) => multiNucs[q].children
  }

  /** The children exist, carry a segment range and are ordered by their smallest segment. */
  predicate SortedBySegment(nodes: seq<RstNode>, children: seq<nat>)
  {
    (forall k :: 0 <= k < |children| ==> children[k] < |nodes| && HasSegmentID(nodes[children[k]]))
    && (forall a, b :: 0 <= a < b < |children| ==>
          MinSegmentID(nodes[children[a]]) <= MinSegmentID(nodes[children[b]]))
  }

  /**
    Node `n` has children, they are ordered by their smallest segment, and `n` covers the
    range from the smallest segment of the first child to the largest segment of the last.
  */
  predicate RangeOverChildren(nodes: seq<RstNode>, spans: seq<Span>, multiNucs: seq<MultiNucRelation>, n: nat)
  {
    n < |nodes| && nodes[n].toChildren.Some?
    && ContainerInRange(nodes[n].toChildren.value, |spans|, |multiNucs|)
    && var ch := ContainerChildren(nodes[n].toChildren.value, spans, multiNucs);
    |ch| > 0 && SortedBySegment(nodes, ch)
    && nodes[n].segmentID == Some([MinSegmentID(nodes[ch[0]]), MaxSegmentID(nodes[ch[|ch| - 1]])])
  }

  /** The tree `run` returns when no entry is a root. */
  function EmptyTree(relations: map<string, RstType>): (t: RstTree)
    ensures WellFormed(t) && t.root.None? && t.monoNucs == [] && t.multiNucs == []
    ensures t.relations == relations
  {
    RstTree(relations, None, [], [], [], [])
  }
}
