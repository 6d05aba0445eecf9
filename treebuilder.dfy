/**
  `TreeGenerator` and `RstTreeParser.read` of rsttace/input/parser.py. The generator owns the
  node and span objects it creates; they live in the `nodes` and `spans` fields, and a
  reference to one of them is its index there.
*/
module TreeBuilder {
  import opened Wrappers
  import opened Sequences
  import opened RstTreeModel
  import opened RstParser
  import opened TreeGeneration

  /** Every object a generator has created, at one moment. */
  datatype Arena = Arena(
    nodes: seq<RstNode>,
    spans: seq<Span>,
    monoNucs: seq<MonoNucRelation>,
    multiNucs: seq<MultiNucRelation>)

  /** A span only gains children, created after the moment when it had `bound` nodes. */
  predicate SpanGrows(a: Span, b: Span, bound: nat)
  {
    b.parent == a.parent && a.children <= b.children
    && forall k :: |a.children| <= k < |b.children| ==> b.children[k] >= bound
  }

  /**
    `b` is a state that `a` can reach while node `n` is processed: objects are only added,
    no earlier node except `n` changes, earlier spans keep their parent and gain only new
    children, and the relation lists grow only at the end.
  */
  ghost predicate Grows(a: Arena, b: Arena, n: nat)
  {
    |a.nodes| <= |b.nodes| && |a.spans| <= |b.spans|
    && (forall i :: 0 <= i < |a.nodes| && i != n ==> b.nodes[i] == a.nodes[i])
    && (forall p :: 0 <= p < |a.spans| ==> SpanGrows(a.spans[p], b.spans[p], |a.nodes|))
    && a.monoNucs <= b.monoNucs && a.multiNucs <= b.multiNucs
  }

  /** Like `Grows`, with every node from `lo` to `hi` (exclusive) free to change. */
  ghost predicate GrowsExcept(a: Arena, b: Arena, lo: nat, hi: nat)
  {
    |a.nodes| <= |b.nodes| && |a.spans| <= |b.spans|
    && (forall i :: 0 <= i < |a.nodes| && !(lo <= i < hi) ==> b.nodes[i] == a.nodes[i])
    && (forall p :: 0 <= p < |a.spans| ==> SpanGrows(a.spans[p], b.spans[p], |a.nodes|))
    && a.monoNucs <= b.monoNucs && a.multiNucs <= b.multiNucs
  }

  /** Processing node `hi` after the nodes from `lo` on extends the range of nodes that changed. */
  lemma GrowsExceptStep(a: Arena, b: Arena, c: Arena, lo: nat, hi: nat, top: nat)
    requires GrowsExcept(a, b, lo, hi) && Grows(b, c, hi) && lo <= hi < top && hi < |a.nodes|
    ensures GrowsExcept(a, c, lo, hi + 1) && GrowsExcept(a, c, lo, top)
  {
    forall p | 0 <= p < |a.spans| ensures SpanGrows(a.spans[p], c.spans[p], |a.nodes|) {
      SpanGrowsTrans(a.spans[p], b.spans[p], c.spans[p], |a.nodes|, |b.nodes|);
    }
  }

  /**
    `b` is `a` with the children of container `c` rearranged and the `segmentID` of node `n`
    replaced; nothing else differs.
  */
  ghost predicate Reordered(a: Arena, b: Arena, n: nat, c: Container)
  {
    |b.nodes| == |a.nodes| && |b.spans| == |a.spans| && |b.multiNucs| == |a.multiNucs|
    && b.monoNucs == a.monoNucs
    && n < |a.nodes| && b.nodes[n] == a.nodes[n].(segmentID := b.nodes[n].segmentID)
    && (forall i :: 0 <= i < |a.nodes| && i != n ==> b.nodes[i] == a.nodes[i])
    && (forall p :: 0 <= p < |a.spans| && c != SpanRef(p) ==> b.spans[p] == a.spans[p])
    && (forall q :: 0 <= q < |a.multiNucs| && c != MultiNucRef(q) ==> b.multiNucs[q] == a.multiNucs[q])
    && (c.SpanRef? && c.span < |a.spans| ==>
          b.spans[c.span] == a.spans[c.span].(children := b.spans[c.span].children))
    && (c.MultiNucRef? && c.multiNuc < |a.multiNucs| ==>
          b.multiNucs[c.multiNuc] == a.multiNucs[c.multiNuc].(children := b.multiNucs[c.multiNuc].children))
  }

  lemma ReorderedRefl(a: Arena, n: nat, c: Container)
    requires n < |a.nodes|
    ensures Reordered(a, a, n, c)
  {
  }

  lemma ReorderedTrans(a: Arena, b: Arena, d: Arena, n: nat, c: Container)
    requires Reordered(a, b, n, c) && Reordered(b, d, n, c)
    ensures Reordered(a, d, n, c)
  {
  }

  /** Processing the new children of `n` keeps the growth from before they existed. */
  lemma GrowsThroughChildren(s0: Arena, s1: Arena, s2: Arena, n: nat)
    requires Grows(s0, s1, n) && GrowsExcept(s1, s2, |s0.nodes|, |s1.nodes|)
    ensures Grows(s0, s2, n)
  {
    forall p | 0 <= p < |s0.spans| ensures SpanGrows(s0.spans[p], s2.spans[p], |s0.nodes|) {
      SpanGrowsTrans(s0.spans[p], s1.spans[p], s2.spans[p], |s0.nodes|, |s1.nodes|);
    }
  }

  /** Rearranging a container created after `s0` keeps the growth from `s0`. */
  lemma GrowsThroughReorder(s0: Arena, s2: Arena, s3: Arena, n: nat, c: Container)
    requires Grows(s0, s2, n) && Reordered(s2, s3, n, c)
    requires c == SpanRef(|s0.spans|) || c == MultiNucRef(|s0.multiNucs|)
    ensures Grows(s0, s3, n)
  {
    assert s3.multiNucs[..|s0.multiNucs|] == s2.multiNucs[..|s0.multiNucs|];
  }

  lemma SpanGrowsTrans(a: Span, b: Span, c: Span, x: nat, y: nat)
    requires SpanGrows(a, b, x) && SpanGrows(b, c, y) && x <= y
    ensures SpanGrows(a, c, x)
  {
    forall k | |a.children| <= k < |c.children| ensures c.children[k] >= x {
      if k < |b.children| { assert c.children[k] == b.children[k]; }
    }
  }

  lemma GrowsTrans(a: Arena, b: Arena, c: Arena, n: nat, m: nat)
    requires Grows(a, b, n) && Grows(b, c, m) && (m == n || m >= |a.nodes|)
    ensures Grows(a, c, n)
  {
    forall p | 0 <= p < |a.spans| ensures SpanGrows(a.spans[p], c.spans[p], |a.nodes|) {
      SpanGrowsTrans(a.spans[p], b.spans[p], c.spans[p], |a.nodes|, |b.nodes|);
    }
  }

  /** The satellite's node shares the nucleus's parent only when that parent is a span. */
  function SpanParent(nd: RstNode): Option<Container>
  {
    if nd.toParent.Some? && nd.toParent.value.SpanRef? then nd.toParent else None
  }

  function AppendToSpan(spans: seq<Span>, parent: Option<Container>, s: nat): seq<Span>
    requires parent.Some? ==> parent.value.SpanRef? && parent.value.span < |spans|
  {
    match parent
    case Some(SpanRef(p)) => spans[p := spans[p].(children := spans[p].children + [s])]
    case _ => spans
  }

  /** Attaching a satellite to node `n` keeps every reference in range and the old spans growing. */
  lemma SatelliteLinks(nodes: seq<RstNode>, spans: seq<Span>, monoNucs: seq<MonoNucRelation>,
                       multiNucs: seq<MultiNucRelation>, n: nat, sat: RstNode, rel: string)
    requires LinksInRange(nodes, spans, monoNucs, multiNucs) && n < |nodes|
    requires sat.toParent == SpanParent(nodes[n]) && sat.toSibling == Some(|monoNucs|) && sat.toChildren.None?
    ensures var nodes' := nodes[n := nodes[n].(toSibling := Some(|monoNucs|))] + [sat];
      var spans' := AppendToSpan(spans, SpanParent(nodes[n]), |nodes|);
      LinksInRange(nodes', spans', monoNucs + [MonoNucRelation(rel, |nodes|, n)], multiNucs)
      && |spans'| == |spans|
      && forall p :: 0 <= p < |spans| ==> SpanGrows(spans[p], spans'[p], |nodes|)
  {
    var nodes' := nodes[n := nodes[n].(toSibling := Some(|monoNucs|))] + [sat];
    var spans' := AppendToSpan(spans, SpanParent(nodes[n]), |nodes|);
    var monoNucs' := monoNucs + [MonoNucRelation(rel, |nodes|, n)];
    assert NodeLinksInRange(nodes[n], |spans|, |monoNucs|, |multiNucs|);
    forall i | 0 <= i < |nodes'| ensures NodeLinksInRange(nodes'[i], |spans'|, |monoNucs'|, |multiNucs|) {
      if i < |nodes| && i != n { assert NodeLinksInRange(nodes[i], |spans|, |monoNucs|, |multiNucs|); }
    }
    forall p | 0 <= p < |spans'| ensures SpanInRange(spans'[p], |nodes'|) && SpanGrows(spans[p], spans'[p], |nodes|) {
      assert SpanInRange(spans[p], |nodes|);
    }
    forall q | 0 <= q < |multiNucs| ensures MultiNucInRange(multiNucs[q], |nodes'|) {
      assert MultiNucInRange(multiNucs[q], |nodes|);
    }
    forall m | 0 <= m < |monoNucs'| ensures MonoNucInRange(monoNucs'[m], |nodes'|) {
      if m < |monoNucs| { assert MonoNucInRange(monoNucs[m], |nodes|); }
    }
  }

  /** The children relation names agree (`""` counting as not yet seen), as the child loop checks. */
  function ChildrenRelname(d: map<string, BodyEntry>, ids: seq<string>, relname: string): Result<string, ParseError>
    decreases |ids|
  {
    if ids == [] then Ok(relname)
    else if ids[0] !in d then Err(RuntimeFailure(KeyError))
    else if d[ids[0]].relname.None? then Err(RuntimeFailure(AttributeError))
    else if relname == "" then ChildrenRelname(d, ids[1..], d[ids[0]].relname.value)
    else if relname != d[ids[0]].relname.value then Err(InvalidRstFile(DifferentRelationNames))
    else ChildrenRelname(d, ids[1..], relname)
  }

  /**
    When the check passes, every child has a relation name, each one is the returned name or
    the empty string, and the returned name is the starting one or that of some child.
  */
  lemma {:induction false} SharedRelname(d: map<string, BodyEntry>, ids: seq<string>, relname: string)
    requires ChildrenRelname(d, ids, relname).Ok?
    ensures var name := ChildrenRelname(d, ids, relname).value;
      (forall j :: 0 <= j < |ids| ==>
         ids[j] in d && d[ids[j]].relname.Some?
         && (d[ids[j]].relname.value == name || d[ids[j]].relname.value == ""))
      && (name == relname || exists j :: 0 <= j < |ids| && d[ids[j]].relname == Some(name))
      && (relname != "" ==> name == relname)
    decreases |ids|
  {
    if ids != [] {
      var next := if relname == "" then d[ids[0]].relname.value else relname;
      SharedRelname(d, ids[1..], next);
      assert forall j :: 1 <= j < |ids| ==> ids[j] == ids[1..][j - 1];
      var name := ChildrenRelname(d, ids, relname).value;
      if name != relname && name != next {
        var j :| 0 <= j < |ids[1..]| && d[ids[1..][j]].relname == Some(name);
        assert ids[j + 1] == ids[1..][j];
      }
    }
  }

  /** The kind check at the end of `__appendDependencies`. */
  predicate KindMatches(entry: BodyEntry, children: Option<Container>)
  {
    match children
    case Some(SpanRef(_)) => entry.Group? && entry.groupType == "span"
    case Some(MultiNucRef(_)) => entry.Group? && entry.groupType == "multinuc"
    case None => entry.Segment?
  }

  /** The sort key `min(child.segmentID)`, for the children that have one. */
  function SegmentKey(nodes: seq<RstNode>): nat -> int
  {
    (c: nat) => if c < |nodes| && HasSegmentID(nodes[c]) then MinSegmentID(nodes[c]) else 0
  }

  /** Every child has a segment range: `min(child.segmentID)` raises otherwise. */
  predicate AllSegmented(nodes: seq<RstNode>, children: seq<nat>)
    requires AllBelow(children, |nodes|)
  {
    forall k :: 0 <= k < |children| ==> HasSegmentID(nodes[children[k]])
  }

  /** The sorted children are the same children, in range, ordered by their smallest segment. */
  lemma SortedChildren(nodes: seq<RstNode>, children: seq<nat>, n: nat)
    requires forall k :: 0 <= k < |children| ==> n < children[k] < |nodes| && HasSegmentID(nodes[children[k]])
    ensures var sorted := StableSort(children, SegmentKey(nodes));
      |sorted| == |children| && AllBelow(sorted, |nodes|) && AllAbove(sorted, n) && SortedBySegment(nodes, sorted)
  {
    var key := SegmentKey(nodes);
    var sorted := StableSort(children, key);
    StableSortPermutes(children, key);
    StableSortSorted(children, key);
    forall k | 0 <= k < |sorted|
      ensures n < sorted[k] < |nodes| && HasSegmentID(nodes[sorted[k]])
    {
      assert sorted[k] in multiset(sorted);
      assert sorted[k] in children;
    }
    forall a, b | 0 <= a < b < |sorted|
      ensures MinSegmentID(nodes[sorted[a]]) <= MinSegmentID(nodes[sorted[b]])
    {
      assert key(sorted[a]) <= key(sorted[b]);
    }
  }

  lemma ContainerChildrenInRange(nodes: seq<RstNode>, spans: seq<Span>,
                                 monoNucs: seq<MonoNucRelation>, multiNucs: seq<MultiNucRelation>, c: Container)
    requires LinksInRange(nodes, spans, monoNucs, multiNucs) && ContainerInRange(c, |spans|, |multiNucs|)
    ensures AllBelow(ContainerChildren(c, spans, multiNucs), |nodes|)
    ensures c.SpanRef? ==> |ContainerChildren(c, spans, multiNucs)| > 0
  {
    match c {
      case SpanRef(p) => assert SpanInRange(spans[p], |nodes|);
      case MultiNucRef(q) => assert MultiNucInRange(multiNucs[q], |nodes|);
    }
  }

  /** Giving node `n` the range of its sorted children establishes `RangeOverChildren`. */
  lemma RangeAfterSort(nodes: seq<RstNode>, spans: seq<Span>, multiNucs: seq<MultiNucRelation>,
                       n: nat, c: Container, ch: seq<nat>, range: seq<int>)
    requires n < |nodes| && nodes[n].toChildren == Some(c) && ContainerInRange(c, |spans|, |multiNucs|)
    requires ch == ContainerChildren(c, spans, multiNucs)
    requires |ch| > 0 && AllAbove(ch, n) && SortedBySegment(nodes, ch)
    requires range == [MinSegmentID(nodes[ch[0]]), MaxSegmentID(nodes[ch[|ch| - 1]])]
    ensures RangeOverChildren(nodes[n := nodes[n].(segmentID := Some(range))], spans, multiNucs, n)
  {
    var nd := nodes[n].(segmentID := Some(range));
    SortedBySegmentUpdate(nodes, ch, n, nd);
    assert nodes[n := nd][ch[0]] == nodes[ch[0]];
    assert nodes[n := nd][ch[|ch| - 1]] == nodes[ch[|ch| - 1]];
  }

  /** Changing a node that is not among the children keeps them sorted. */
  lemma SortedBySegmentUpdate(nodes: seq<RstNode>, ch: seq<nat>, n: nat, nd: RstNode)
    requires n < |nodes| && AllAbove(ch, n) && SortedBySegment(nodes, ch)
    ensures SortedBySegment(nodes[n := nd], ch)
  {
    assert forall k :: 0 <= k < |ch| ==> nodes[n := nd][ch[k]] == nodes[ch[k]];
  }

  /** Container `c` exists and links parent `n` (under relation name `rel` for a multi-nuclear relation). */
  ghost predicate ContainerKind(c: Container, spans: seq<Span>, multiNucs: seq<MultiNucRelation>, n: nat, rel: string)
  {
    match c
    case SpanRef(p) => p < |spans| && spans[p].parent == n
    case MultiNucRef(q) => q < |multiNucs| && multiNucs[q].parent == n && multiNucs[q].relation == rel
  }

  /** Every node created between state `a` and state `b` has a segment range. */
  ghost predicate NewNodesSegmented(a: Arena, b: Arena)
  {
    forall i :: |a.nodes| <= i < |b.nodes| ==> HasSegmentID(b.nodes[i])
  }

  lemma SegmentedTrans(a: Arena, b: Arena, c: Arena, n: nat)
    requires NewNodesSegmented(a, b) && Grows(b, c, n) && n < |a.nodes| && NewNodesSegmented(b, c)
    ensures NewNodesSegmented(a, c)
  {
    forall i | |a.nodes| <= i < |c.nodes| ensures HasSegmentID(c.nodes[i]) {
      if i < |b.nodes| { assert c.nodes[i] == b.nodes[i]; }
    }
  }

  /**
    What the satellite part leaves behind for entry `nodeID` at node `n`, from state `a` to
    state `b`: with a satellite, the satellite's node is the first node created and the first
    relation appended to `monoNucs` links it to `n`; without one, `toSibling` stays as it was.
  */
  ghost predicate SatelliteLinked(siblingDict: map<string, string>, segmentDict: map<string, BodyEntry>,
                                  nodeID: string, n: nat, a: Arena, b: Arena)
  {
    n < |a.nodes| && n < |b.nodes|
    && if nodeID in siblingDict then
         var sat := siblingDict[nodeID];
         sat in segmentDict && segmentDict[sat].relname.Some?
         && |a.nodes| < |b.nodes| && |a.monoNucs| < |b.monoNucs|
         && b.nodes[n].toSibling == Some(|a.monoNucs|)
         && b.monoNucs[|a.monoNucs|] == MonoNucRelation(segmentDict[sat].relname.value, |a.nodes|, n)
         && b.nodes[|a.nodes|].toParent == SpanParent(a.nodes[n])
       else b.nodes[n].toSibling == a.nodes[n].toSibling
  }

  /** Later growth that leaves `toSibling` of `n` alone keeps the satellite link. */
  lemma SatelliteKept(siblingDict: map<string, string>, segmentDict: map<string, BodyEntry>,
                      nodeID: string, n: nat, a: Arena, b: Arena, c: Arena)
    requires SatelliteLinked(siblingDict, segmentDict, nodeID, n, a, b) && Grows(b, c, n)
    requires c.nodes[n].toSibling == b.nodes[n].toSibling
    ensures SatelliteLinked(siblingDict, segmentDict, nodeID, n, a, c)
  {
    if nodeID in siblingDict {
      assert c.nodes[|a.nodes|] == b.nodes[|a.nodes|];
      assert c.monoNucs[|a.monoNucs|] == b.monoNucs[|a.monoNucs|];
    }
  }

  /**
    The link `c` from a node to its children matches the kind of the shared relation name
    `rel`: a new span (index `spanCount`) or a new multi-nuclear relation (index `multiNucCount`).
  */
  predicate Linked(relations: map<string, RstType>, rel: Result<string, ParseError>, c: Container,
                   spanCount: nat, multiNucCount: nat)
  {
    rel.Ok? && rel.value in relations
    && (relations[rel.value] == StructuralSpan || relations[rel.value] == MultiNuclear)
    && (relations[rel.value] == StructuralSpan ==> c == SpanRef(spanCount))
    && (relations[rel.value] == MultiNuclear ==> c == MultiNucRef(multiNucCount))
  }

  /**
    What the children part and the final check leave behind for entry `nodeID` at node `n`
    in state `b`: node `n` has children exactly when the entry has, its kind matches the
    entry's, and it carries its children's range (its segment number from state `a` when it
    has none).
  */
  ghost predicate ChildrenLinked(segmentDict: map<string, BodyEntry>, childrenDict: map<string, seq<string>>,
                                 nodeID: string, n: nat, a: Arena, b: Arena)
  {
    n < |a.nodes| && n < |b.nodes| && nodeID in segmentDict
    && KindMatches(segmentDict[nodeID], b.nodes[n].toChildren)
    && (b.nodes[n].toChildren.Some? <==> ChildrenOf(childrenDict, nodeID) != [])
    && (b.nodes[n].toChildren.None? ==> b.nodes[n].segmentID == a.nodes[n].segmentID)
    && (b.nodes[n].toChildren.Some? ==> RangeOverChildren(b.nodes, b.spans, b.multiNucs, n))
  }

  /**
    The children part only reads the `segmentID` of node `n` in its start state, which the
    satellite part (from `a` to `b`) leaves as it was.
  */
  lemma ChildrenLinkedAfterSatellite(segmentDict: map<string, BodyEntry>, childrenDict: map<string, seq<string>>,
                                     nodeID: string, n: nat, a: Arena, b: Arena, c: Arena)
    requires n < |a.nodes| && n < |b.nodes|
    requires b.nodes[n].segmentID == a.nodes[n].segmentID
    requires ChildrenLinked(segmentDict, childrenDict, nodeID, n, b, c)
    ensures ChildrenLinked(segmentDict, childrenDict, nodeID, n, a, c)
  {
  }

  /**
    One step of processing the new children `first`, `first + 1`, ...: child `child` was
    processed from state `b` to state `c`, after the children before it from `a` to `b`.
  */
  lemma EachStep(a: Arena, b: Arena, c: Arena, first: nat, child: nat, top: nat)
    requires GrowsExcept(a, b, first, child) && Grows(b, c, child) && first <= child < top <= |a.nodes|
    requires forall i :: first <= i < child ==> b.nodes[i].toParent == a.nodes[i].toParent
    requires forall i :: first <= i < child ==> HasSegmentID(b.nodes[i])
    requires c.nodes[child].toParent == b.nodes[child].toParent && b.nodes[child] == a.nodes[child]
    requires HasSegmentID(c.nodes[child])
    requires NewNodesSegmented(a, b) && NewNodesSegmented(b, c)
    ensures GrowsExcept(a, c, first, child + 1) && GrowsExcept(a, c, first, top)
    ensures forall i :: first <= i < child + 1 ==> c.nodes[i].toParent == a.nodes[i].toParent
    ensures forall i :: first <= i < child + 1 ==> HasSegmentID(c.nodes[i])
    ensures NewNodesSegmented(a, c)
  {
    GrowsExceptStep(a, b, c, first, child, top);
    forall i | |a.nodes| <= i < |c.nodes| ensures HasSegmentID(c.nodes[i]) {
      if i < |b.nodes| { assert c.nodes[i] == b.nodes[i]; }
    }
  }

  /** Nodes `first`, `first + 1`, ... are the new nodes of the entries `ids`. */
  ghost predicate Unprocessed(nodes: seq<RstNode>, segmentDict: map<string, BodyEntry>, ids: seq<string>, first: nat)
  {
    first + |ids| <= |nodes|
    && forall i :: first <= i < first + |ids| ==>
         ids[i - first] in segmentDict && nodes[i].toChildren.None?
         && nodes[i].segmentID == NewNode(segmentDict[ids[i - first]]).segmentID
  }

  /** Setting the parent of the new nodes of the entries `ids` leaves them unprocessed. */
  lemma ParentsKeepNewNodes(created: seq<RstNode>, linked: seq<RstNode>, segmentDict: map<string, BodyEntry>,
                            ids: seq<string>, first: nat, c: Container)
    requires first + |ids| == |created| == |linked|
    requires forall j :: 0 <= j < |ids| ==> ids[j] in segmentDict && created[first + j] == NewNode(segmentDict[ids[j]])
    requires forall i :: first <= i < |linked| ==> linked[i] == created[i].(toParent := Some(c))
    ensures Unprocessed(linked, segmentDict, ids, first)
  {
    forall i | first <= i < first + |ids|
      ensures ids[i - first] in segmentDict && linked[i].toChildren.None?
      ensures linked[i].segmentID == NewNode(segmentDict[ids[i - first]]).segmentID
    {
      var j := i - first;
      assert ids[j] in segmentDict && created[first + j] == NewNode(segmentDict[ids[j]]);
    }
  }

  class TreeGenerator {
    const relations: map<string, RstType>
    var monoNucs: seq<MonoNucRelation>
    var multiNucs: seq<MultiNucRelation>
    var segmentDict: map<string, BodyEntry>
    var siblingDict: map<string, string>
    var childrenDict: map<string, seq<string>>
    /** The `RstNode` and `Span` objects created so far. */
    var nodes: seq<RstNode>
    var spans: seq<Span>

    /** Every reference between the created objects points at a created object. */
    ghost predicate Valid()
      reads this
    {
      LinksInRange(nodes, spans, monoNucs, multiNucs)
    }

    ghost function State(): Arena
      reads this
    {
      Arena(nodes, spans, monoNucs, multiNucs)
    }

    constructor (relations: map<string, RstType>)
      ensures Valid() && this.relations == relations
      ensures monoNucs == [] && multiNucs == [] && nodes == [] && spans == []
    {
      this.relations := relations;
      monoNucs := [];
      multiNucs := [];
      segmentDict := map[];
      siblingDict := map[];
      childrenDict := map[];
      nodes := [];
      spans := [];
    }

    /** `__createDictionaries`: fills the three dictionaries and returns the root's id. */
    method CreateDictionaries(segments: seq<BodyEntry>) returns (r: Result<Option<string>, ParseError>)
      modifies this`segmentDict, this`siblingDict, this`childrenDict
      ensures var spec := IndexEntries(relations, NoIndex, segments);
        (spec.Err? ==> r == Err(spec.error))
        && (spec.Ok? ==> r == Ok(spec.value.rootID) && segmentDict == spec.value.segmentDict
                         && siblingDict == spec.value.siblingDict && childrenDict == spec.value.childrenDict)
    {
      var rootID: Option<string> := None;
      segmentDict := map[];
      siblingDict := map[];
      childrenDict := map[];
      var i := 0;
      assert segments[0..] == segments;
      while i < |segments|
        invariant 0 <= i <= |segments|
        invariant IndexEntries(relations, NoIndex, segments)
               == IndexEntries(relations, Index(segmentDict, siblingDict, childrenDict, rootID), segments[i..])
      {
        var entry := segments[i];
        assert segments[i..][0] == entry && segments[i..][1..] == segments[i + 1..];
        segmentDict := segmentDict[entry.entryID := entry];
        if entry.parent.Some? {
          if entry.relname.None? {
            return Err(RuntimeFailure(AttributeError));
          }
          if entry.relname.value !in relations {
            return Err(RuntimeFailure(KeyError));
          }
          if relations[entry.relname.value] == MonoNuclear {
            if entry.parent.value !in siblingDict {
              siblingDict := siblingDict[entry.parent.value := entry.entryID];
            } else {
              return Err(InvalidRstFile(MultipleSatellites));
            }
          } else {
            childrenDict := childrenDict[entry.parent.value :=
                                           ChildrenOf(childrenDict, entry.parent.value) + [entry.entryID]];
          }
        } else {
          if rootID.None? {
            rootID := Some(entry.entryID);
          } else {
            return Err(InvalidRstFile(MultipleRoots));
          }
        }
        i := i + 1;
      }
      return Ok(rootID);
    }

    /** A new node object. */
    method AddNode(nd: RstNode) returns (i: nat)
      requires Valid() && NodeLinksInRange(nd, |spans|, |monoNucs|, |multiNucs|)
      modifies this`nodes
      ensures Valid() && nodes == old(nodes) + [nd] && i == old(|nodes|)
    {
      i := |nodes|;
      nodes := nodes + [nd];
    }

    /**
      The satellite part of `__appendDependencies`: the satellite's node, the mono-nuclear
      relation from it to node `n` set as `toSibling` of both, and the satellite added to the
      span `n` sits in.
    */
    method AttachSatellite(n: nat, siblingXML: BodyEntry) returns (r: Result<nat, ParseError>)
      requires Valid() && n < |nodes|
      modifies this`nodes, this`spans, this`monoNucs
      ensures Valid() && Grows(old(State()), State(), n) && multiNucs == old(multiNucs)
      ensures r.Err? <==> siblingXML.relname.None?
      ensures r.Err? ==> nodes == old(nodes)
      ensures r.Ok? ==>
        var s := old(|nodes|);
        var m := old(|monoNucs|);
        r.value == s && |nodes| == s + 1
        && monoNucs == old(monoNucs) + [MonoNucRelation(siblingXML.relname.value, s, n)]
        && nodes[n] == old(nodes[n]).(toSibling := Some(m))
        && nodes[s] == NewNode(siblingXML).(toSibling := Some(m), toParent := SpanParent(old(nodes[n])))
        && spans == AppendToSpan(old(spans), SpanParent(old(nodes[n])), s)
    {
      if siblingXML.relname.None? {
        return Err(RuntimeFailure(AttributeError));
      }
      var m := |monoNucs|;
      var s := |nodes|;
      var parent := SpanParent(nodes[n]);
      var siblingNode := NewNode(siblingXML).(toSibling := Some(m), toParent := parent);
      SatelliteLinks(nodes, spans, monoNucs, multiNucs, n, siblingNode, siblingXML.relname.value);
      monoNucs := monoNucs + [MonoNucRelation(siblingXML.relname.value, s, n)];
      nodes := nodes[n := nodes[n].(toSibling := Some(m))] + [siblingNode];
      spans := AppendToSpan(spans, parent, s);
      return Ok(s);
    }

    /** The first loop of the children part: one new node per child id, and the shared relation name. */
    method CreateChildren(childrenIDs: seq<string>) returns (r: Result<string, ParseError>)
      requires Valid()
      modifies this`nodes
      ensures Valid() && |nodes| >= old(|nodes|) && nodes[..old(|nodes|)] == old(nodes)
      ensures r == ChildrenRelname(segmentDict, childrenIDs, "")
      ensures r.Ok? ==>
        |nodes| == old(|nodes|) + |childrenIDs|
        && forall j :: 0 <= j < |childrenIDs| ==>
             childrenIDs[j] in segmentDict && nodes[old(|nodes|) + j] == NewNode(segmentDict[childrenIDs[j]])
    {
      var relname := "";
      var j := 0;
      assert childrenIDs[0..] == childrenIDs;
      while j < |childrenIDs|
        invariant 0 <= j <= |childrenIDs|
        invariant Valid() && |nodes| == old(|nodes|) + j && nodes[..old(|nodes|)] == old(nodes)
        invariant forall k :: 0 <= k < j ==>
          childrenIDs[k] in segmentDict && nodes[old(|nodes|) + k] == NewNode(segmentDict[childrenIDs[k]])
        invariant ChildrenRelname(segmentDict, childrenIDs, "") == ChildrenRelname(segmentDict, childrenIDs[j..], relname)
      {
        assert childrenIDs[j..][0] == childrenIDs[j] && childrenIDs[j..][1..] == childrenIDs[j + 1..];
        if childrenIDs[j] !in segmentDict {
          return Err(RuntimeFailure(KeyError));
        }
        var childXML := segmentDict[childrenIDs[j]];
        var childNode := AddNode(NewNode(childXML));
        if childXML.relname.None? {
          return Err(RuntimeFailure(AttributeError));
        }
        if relname == "" {
          relname := childXML.relname.value;
        } else if relname != childXML.relname.value {
          return Err(InvalidRstFile(DifferentRelationNames));
        }
        j := j + 1;
      }
      return Ok(relname);
    }

    /** `childNode.toParent = ...` for every node from `first` on. */
    method SetParents(first: nat, c: Container)
      requires Valid() && first <= |nodes| && ContainerInRange(c, |spans|, |multiNucs|)
      modifies this`nodes
      ensures Valid() && |nodes| == old(|nodes|)
      ensures forall i :: 0 <= i < first ==> nodes[i] == old(nodes[i])
      ensures forall i :: first <= i < |nodes| ==> nodes[i] == old(nodes[i]).(toParent := Some(c))
    {
      var i := first;
      while i < |nodes|
        invariant first <= i <= |nodes| == old(|nodes|)
        invariant Valid()
        invariant forall k :: 0 <= k < first || i <= k < |nodes| ==> nodes[k] == old(nodes[k])
        invariant forall k :: first <= k < i ==> nodes[k] == old(nodes[k]).(toParent := Some(c))
      {
        nodes := nodes[i := nodes[i].(toParent := Some(c))];
        i := i + 1;
      }
    }

    /**
      The kind of the shared relation name decides what links node `n` to its children (the
      nodes from `first` on): a new `Span`, or a new `MultiNucRelation` appended to `multiNucs`.
    */
    method LinkChildren(n: nat, first: nat, relname: string) returns (r: Outcome<ParseError>)
      requires Valid() && n < first < |nodes| && nodes[n].toChildren.None?
      modifies this`nodes, this`spans, this`multiNucs
      ensures Valid() && |nodes| == old(|nodes|) && monoNucs == old(monoNucs)
      ensures r.Pass? <==> relname in relations && relations[relname] != MonoNuclear
      ensures r.Fail? ==>
        nodes == old(nodes) && spans == old(spans) && multiNucs == old(multiNucs)
        && r.error == (if relname in relations then InvalidRstFile(UnspecifiedRelationType) else RuntimeFailure(KeyError))
      ensures r.Pass? ==>
        var kids := Consecutive(first, old(|nodes|) - first);
        var c := if relations[relname] == StructuralSpan then SpanRef(old(|spans|)) else MultiNucRef(old(|multiNucs|));
        nodes[n] == old(nodes[n]).(toChildren := Some(c))
        && (forall i :: 0 <= i < first && i != n ==> nodes[i] == old(nodes[i]))
        && (forall i :: first <= i < |nodes| ==> nodes[i] == old(nodes[i]).(toParent := Some(c)))
        && (relations[relname] == StructuralSpan ==>
              spans == old(spans) + [Span(n, kids)] && multiNucs == old(multiNucs))
        && (relations[relname] == MultiNuclear ==>
              multiNucs == old(multiNucs) + [MultiNucRelation(relname, n, kids)] && spans == old(spans))
    {
      if relname !in relations {
        return Fail(RuntimeFailure(KeyError));
      }
      var kids := Consecutive(first, |nodes| - first);
      if relations[relname] == StructuralSpan {
        var c := SpanRef(|spans|);
        spans := spans + [Span(n, kids)];
        nodes := nodes[n := nodes[n].(toChildren := Some(c))];
        SetParents(first, c);
      } else if relations[relname] == MultiNuclear {
        var c := MultiNucRef(|multiNucs|);
        multiNucs := multiNucs + [MultiNucRelation(relname, n, kids)];
        nodes := nodes[n := nodes[n].(toChildren := Some(c))];
        SetParents(first, c);
      } else {
        return Fail(InvalidRstFile(UnspecifiedRelationType));
      }
      return Pass;
    }

    /** The children of container `c` replaced by `sorted`. */
    method Reorder(c: Container, sorted: seq<nat>, n: nat)
      requires Valid() && ContainerInRange(c, |spans|, |multiNucs|) && n < |nodes|
      requires AllBelow(sorted, |nodes|) && (c.SpanRef? ==> |sorted| > 0)
      modifies this`spans, this`multiNucs
      ensures Valid() && Reordered(old(State()), State(), n, c)
      ensures ContainerChildren(c, spans, multiNucs) == sorted
    {
      match c {
        case SpanRef(p) =>
          spans := spans[p := spans[p].(children := sorted)];
        case MultiNucRef(q) =>
          multiNucs := multiNucs[q := multiNucs[q].(children := sorted)];
      }
    }

    /** `rstNode.segmentID = range` */
    method SetRange(n: nat, range: seq<int>, c: Container)
      requires Valid() && n < |nodes|
      modifies this`nodes
      ensures Valid() && nodes == old(nodes)[n := old(nodes[n]).(segmentID := Some(range))]
      ensures Reordered(old(State()), State(), n, c)
    {
      nodes := nodes[n := nodes[n].(segmentID := Some(range))];
    }

    /**
      Sorting the children of node `n` by their smallest segment and giving `n` the range
      from the first child's smallest to the last child's largest segment.
    */
    method SortChildren(n: nat) returns (r: Outcome<ParseError>)
      requires Valid() && n < |nodes| && nodes[n].toChildren.Some?
      requires AllAbove(ContainerChildren(nodes[n].toChildren.value, spans, multiNucs), n)
      modifies this`nodes, this`spans, this`multiNucs
      ensures Valid() && Reordered(old(State()), State(), n, old(nodes[n].toChildren.value))
      ensures r.Fail? ==> r.error == RuntimeFailure(TypeError) || r.error == RuntimeFailure(IndexError)
      ensures r.Pass? ==>
        var c := old(nodes[n].toChildren.value);
        ContainerChildren(c, spans, multiNucs)
          == StableSort(old(ContainerChildren(c, spans, multiNucs)), SegmentKey(old(nodes)))
        && RangeOverChildren(nodes, spans, multiNucs, n)
    {
      var c := nodes[n].toChildren.value;
      var children := ContainerChildren(c, spans, multiNucs);
      ContainerChildrenInRange(nodes, spans, monoNucs, multiNucs, c);
      if !AllSegmented(nodes, children) {
        ReorderedRefl(State(), n, c);
        return Fail(RuntimeFailure(TypeError));
      }
      var sorted := StableSort(children, SegmentKey(nodes));
      SortedChildren(nodes, children, n);
      assert c.SpanRef? ==> |children| > 0;
      ghost var s0 := State();
      Reorder(c, sorted, n);
      if |sorted| == 0 {
        return Fail(RuntimeFailure(IndexError));
      }
      ghost var s1 := State();
      var range := [MinSegmentID(nodes[sorted[0]]), MaxSegmentID(nodes[sorted[|sorted| - 1]])];
      RangeAfterSort(nodes, spans, multiNucs, n, c, sorted, range);
      SetRange(n, range, c);
      ReorderedTrans(s0, s1, State(), n, c);
      return Pass;
    }

    /**
      The satellite part of `__appendDependencies` for node `n` of entry `nodeID`: the
      satellite is attached and then processed in turn.
    */
    method ProcessSatellite(nodeID: string, n: nat, fuel: nat) returns (r: Outcome<ParseError>)
      requires Valid() && n < |nodes| && nodeID in siblingDict && fuel >= 1
      modifies this`nodes, this`spans, this`monoNucs, this`multiNucs
      decreases fuel, 1
      ensures Valid() && Grows(old(State()), State(), n)
      ensures nodes[n] == old(nodes[n]).(toSibling := nodes[n].toSibling)
      ensures r.Pass? ==>
        SatelliteLinked(siblingDict, segmentDict, nodeID, n, old(State()), State())
        && NewNodesSegmented(old(State()), State())
    {
      var siblingID := siblingDict[nodeID];
      if siblingID !in segmentDict {
        return Fail(RuntimeFailure(KeyError));
      }
      ghost var s0 := State();
      var attached := AttachSatellite(n, segmentDict[siblingID]);
      if attached.Err? {
        return Fail(attached.error);
      }
      var s := attached.value;
      ghost var s1 := State();
      ghost var m := old(|monoNucs|);
      assert nodes[s].segmentID == NewNode(segmentDict[siblingID]).segmentID;
      r := AppendDependencies(siblingID, s, fuel - 1);
      GrowsTrans(s0, s1, State(), n, s);
      assert nodes[n] == s1.nodes[n];
      assert monoNucs[m] == s1.monoNucs[m];
    }

    /**
      `__appendDependencies` called on every child in turn: `ids[j]` for node `first + j`.
      Only those nodes and nodes created meanwhile change; a span only gains new nodes.
    */
    method ProcessEach(ids: seq<string>, first: nat, fuel: nat) returns (r: Outcome<ParseError>)
      requires Valid() && fuel >= 1 && first + |ids| <= |nodes|
      requires Unprocessed(nodes, segmentDict, ids, first)
      modifies this`nodes, this`spans, this`monoNucs, this`multiNucs
      decreases fuel, 0
      ensures Valid() && GrowsExcept(old(State()), State(), first, first + |ids|)
      ensures forall i :: first <= i < first + |ids| ==> nodes[i].toParent == old(nodes[i].toParent)
      ensures r.Pass? ==>
        (forall i :: first <= i < first + |ids| ==> HasSegmentID(nodes[i]))
        && NewNodesSegmented(old(State()), State())
    {
      ghost var s1 := State();
      var j := 0;
      while j < |ids|
        invariant 0 <= j <= |ids|
        invariant Valid() && GrowsExcept(s1, State(), first, first + j)
        invariant forall i :: first <= i < first + j ==> nodes[i].toParent == s1.nodes[i].toParent
        invariant forall i :: first <= i < first + j ==> HasSegmentID(nodes[i])
        invariant NewNodesSegmented(s1, State())
      {
        ghost var before := State();
        var child := first + j;
        assert nodes[child] == s1.nodes[child];
        var res := AppendDependencies(ids[j], child, fuel - 1);
        if res.Fail? {
          GrowsExceptStep(s1, before, State(), first, child, first + |ids|);
          return res;
        }
        EachStep(s1, before, State(), first, child, first + |ids|);
        j := j + 1;
      }
      return Pass;
    }

    /**
      The first half of the children part of `__appendDependencies`: the child nodes, and
      the span or multi-nuclear relation from node `n` to them, are created.
    */
    method LinkNewChildren(ids: seq<string>, n: nat) returns (r: Result<Container, ParseError>)
      requires Valid() && n < |nodes| && nodes[n].toChildren.None? && ids != []
      modifies this`nodes, this`spans, this`multiNucs
      ensures Valid() && Grows(old(State()), State(), n) && monoNucs == old(monoNucs)
      ensures nodes[n] == old(nodes[n]).(toChildren := nodes[n].toChildren)
      ensures r.Ok? ==>
        var rel := ChildrenRelname(segmentDict, ids, "");
        var c := r.value;
        rel.Ok? && rel.value in relations
        && (relations[rel.value] == StructuralSpan || relations[rel.value] == MultiNuclear)
        && nodes[n].toChildren == Some(c)
        && |nodes| == old(|nodes|) + |ids| && Unprocessed(nodes, segmentDict, ids, old(|nodes|))
        && (relations[rel.value] == StructuralSpan ==>
              c == SpanRef(old(|spans|)) && spans[c.span].parent == n && multiNucs == old(multiNucs))
        && (relations[rel.value] == MultiNuclear ==>
              c == MultiNucRef(old(|multiNucs|)) && |spans| == old(|spans|)
              && multiNucs[c.multiNuc].parent == n && multiNucs[c.multiNuc].relation == rel.value)
        && ContainerInRange(c, |spans|, |multiNucs|)
        && ContainerChildren(c, spans, multiNucs) == Consecutive(old(|nodes|), |ids|)
    {
      ghost var s0 := State();
      var first := |nodes|;
      var rel := CreateChildren(ids);
      if rel.Err? {
        return Err(rel.error);
      }
      ghost var s1 := State();
      var linked := LinkChildren(n, first, rel.value);
      if linked.Fail? {
        return Err(linked.error);
      }
      var c := nodes[n].toChildren.value;
      ParentsKeepNewNodes(s1.nodes, nodes, segmentDict, ids, first, c);
      assert multiNucs[..|s0.multiNucs|] == s0.multiNucs;
      return Ok(c);
    }

    /**
      The children part of `__appendDependencies` up to the sorting step: the children and
      their link to node `n` are created, and each child is processed. Container `c` then
      holds only nodes created after `n`.
    */
    method BuildChildren(ids: seq<string>, n: nat, fuel: nat) returns (r: Outcome<ParseError>, c: Container)
      requires Valid() && n < |nodes| && nodes[n].toChildren.None? && fuel >= 1 && ids != []
      modifies this`nodes, this`spans, this`monoNucs, this`multiNucs
      decreases fuel, 1
      ensures Valid() && Grows(old(State()), State(), n)
      ensures nodes[n] == old(nodes[n]).(toChildren := nodes[n].toChildren)
      ensures r.Pass? ==>
        var rel := ChildrenRelname(segmentDict, ids, "");
        Linked(relations, rel, c, old(|spans|), old(|multiNucs|))
        && nodes[n].toChildren == Some(c) && ContainerKind(c, spans, multiNucs, n, rel.value)
        && AllAbove(ContainerChildren(c, spans, multiNucs), n)
        && NewNodesSegmented(old(State()), State())
    {
      ghost var s0 := State();
      var first := |nodes|;
      var linked := LinkNewChildren(ids, n);
      if linked.Err? {
        return Fail(linked.error), SpanRef(0);
      }
      c := linked.value;
      ghost var rel := ChildrenRelname(segmentDict, ids, "").value;
      assert ContainerKind(c, spans, multiNucs, n, rel);
      ghost var s1 := State();
      r := ProcessEach(ids, first, fuel);
      assert nodes[n] == s1.nodes[n];
      GrowsThroughChildren(s0, s1, State(), n);
      if r.Fail? {
        return;
      }
      assert ContainerKind(c, spans, multiNucs, n, rel) by {
        if c.SpanRef? { assert SpanGrows(s1.spans[c.span], spans[c.span], |s1.nodes|); }
        else { assert multiNucs[c.multiNuc] == s1.multiNucs[c.multiNuc]; }
      }
      assert AllAbove(ContainerChildren(c, spans, multiNucs), n) by {
        match c {
          case SpanRef(p) =>
            assert SpanGrows(s1.spans[p], spans[p], |s1.nodes|);
            forall k | 0 <= k < |spans[p].children| ensures spans[p].children[k] > n {
              if k < |s1.spans[p].children| {
                assert spans[p].children[k] == s1.spans[p].children[k];
              }
            }
          case MultiNucRef(q) =>
        }
      }
    }

    /**
      The children part of `__appendDependencies` for node `n` of entry `nodeID`, with the
      sorting step: node `n` gets a new span or multi-nuclear relation over its children,
      each child is processed, and `n` covers the segments of its sorted children.
    */
    method ProcessChildren(nodeID: string, n: nat, fuel: nat) returns (r: Outcome<ParseError>)
      requires Valid() && n < |nodes| && nodes[n].toChildren.None? && fuel >= 1
      requires ChildrenOf(childrenDict, nodeID) != []
      modifies this`nodes, this`spans, this`monoNucs, this`multiNucs
      decreases fuel, 2
      ensures Valid() && Grows(old(State()), State(), n)
      ensures nodes[n] == old(nodes[n]).(toChildren := nodes[n].toChildren, segmentID := nodes[n].segmentID)
      ensures r.Pass? ==>
        var rel := ChildrenRelname(segmentDict, ChildrenOf(childrenDict, nodeID), "");
        nodes[n].toChildren.Some?
        && Linked(relations, rel, nodes[n].toChildren.value, old(|spans|), old(|multiNucs|))
        && ContainerKind(nodes[n].toChildren.value, spans, multiNucs, n, rel.value)
        && RangeOverChildren(nodes, spans, multiNucs, n)
        && NewNodesSegmented(old(State()), State())
    {
      ghost var s0 := State();
      var c;
      r, c := BuildChildren(ChildrenOf(childrenDict, nodeID), n, fuel);
      if r.Fail? {
        return;
      }
      ghost var s2 := State();
      r := SortChildren(n);
      GrowsThroughReorder(s0, s2, State(), n, c);
      assert ContainerKind(c, spans, multiNucs, n, ChildrenRelname(segmentDict, ChildrenOf(childrenDict, nodeID), "").value);
      assert NewNodesSegmented(s0, State()) by {
        assert forall i :: |s0.nodes| <= i < |nodes| ==> nodes[i] == s2.nodes[i];
      }
    }

    /**
      The second half of `__appendDependencies` for node `n` of entry `nodeID`: the children
      part, then the check that the kind of the entry matches the kind of its children.
    */
    method FinishNode(nodeID: string, n: nat, fuel: nat) returns (r: Outcome<ParseError>)
      requires Valid() && n < |nodes| && nodes[n].toChildren.None? && fuel >= 1 && nodeID in segmentDict
      modifies this`nodes, this`spans, this`monoNucs, this`multiNucs
      decreases fuel, 3
      ensures Valid() && Grows(old(State()), State(), n)
      ensures nodes[n] == old(nodes[n]).(toChildren := nodes[n].toChildren, segmentID := nodes[n].segmentID)
      ensures r.Pass? ==>
        ChildrenLinked(segmentDict, childrenDict, nodeID, n, old(State()), State())
        && NewNodesSegmented(old(State()), State())
    {
      if ChildrenOf(childrenDict, nodeID) != [] {
        r := ProcessChildren(nodeID, n, fuel);
        if r.Fail? {
          return r;
        }
      }
      if !KindMatches(segmentDict[nodeID], nodes[n].toChildren) {
        return Fail(InvalidRstFile(WrongEntryType));
      }
      return Pass;
    }

    /**
      `__appendDependencies(nodeID, rstNode)` for node `n`, which is new and has no children
      yet. Python bounds the depth of the recursion by its interpreter limit and a cyclic
      parent chain recurses without end; here `fuel` bounds it and running out is a
      `RecursionError`.
    */
    method AppendDependencies(nodeID: string, n: nat, fuel: nat) returns (r: Outcome<ParseError>)
      requires Valid() && n < |nodes| && nodes[n].toChildren.None?
      modifies this`nodes, this`spans, this`monoNucs, this`multiNucs
      decreases fuel, 4
      ensures Valid() && Grows(old(State()), State(), n)
      ensures nodes[n].toParent == old(nodes[n].toParent) && nodes[n].text == old(nodes[n].text)
      ensures fuel == 0 ==> r == Fail(RuntimeFailure(RecursionError))
      ensures r.Pass? ==>
        ChildrenLinked(segmentDict, childrenDict, nodeID, n, old(State()), State())
        && SatelliteLinked(siblingDict, segmentDict, nodeID, n, old(State()), State())
        && NewNodesSegmented(old(State()), State())
        && (old(nodes[n].segmentID) == NewNode(segmentDict[nodeID]).segmentID ==> HasSegmentID(nodes[n]))
    {
      if fuel == 0 {
        return Fail(RuntimeFailure(RecursionError));
      }
      if nodeID !in segmentDict {
        return Fail(RuntimeFailure(KeyError));
      }
      ghost var s0 := State();
      if nodeID in siblingDict {
        r := ProcessSatellite(nodeID, n, fuel);
        if r.Fail? {
          return r;
        }
      }
      ghost var s1 := State();
      assert SatelliteLinked(siblingDict, segmentDict, nodeID, n, s0, s1);
      assert NewNodesSegmented(s0, s1);
      r := FinishNode(nodeID, n, fuel);
      GrowsTrans(s0, s1, State(), n, n);
      if r.Fail? {
        return r;
      }
      SatelliteKept(siblingDict, segmentDict, nodeID, n, s0, s1, State());
      SegmentedTrans(s0, s1, State(), n);
      ChildrenLinkedAfterSatellite(segmentDict, childrenDict, nodeID, n, s0, s1, State());
      return Pass;
    }

    /**
      `run` with the root node made by `createNewNode`, as for every other node: the
      dictionary errors, an empty tree when no entry is a root, and otherwise the tree
      below the root, well formed when every node created before had a segment range.
    */
    method Run(segments: seq<BodyEntry>) returns (r: Result<RstTree, ParseError>)
      requires Valid()
      modifies this
      ensures Valid()
      ensures var spec := IndexEntries(relations, NoIndex, segments);
        (spec.Err? ==> r == Err(spec.error))
        && (spec.Ok? ==> segmentDict == spec.value.segmentDict)
        && (spec.Ok? && spec.value.rootID.None? ==> r == Ok(EmptyTree(relations)))
        && (spec.Ok? && spec.value.rootID.Some? && r.Ok? ==>
              var rootID := spec.value.rootID.value;
              r.value.root == Some(old(|nodes|)) && old(|nodes|) < |r.value.nodes| && rootID in segmentDict
              && var root := r.value.nodes[old(|nodes|)];
              root.toParent.None? && root.text == NewNode(segmentDict[rootID]).text
              && KindMatches(segmentDict[rootID], root.toChildren))
      ensures r.Ok? ==>
        r.value.relations == relations && LinksInRange(r.value.nodes, r.value.spans, r.value.monoNucs, r.value.multiNucs)
        && (old(AllHaveSegmentID(nodes)) ==> WellFormed(r.value))
    {
      var index := CreateDictionaries(segments);
      if index.Err? {
        return Err(index.error);
      }
      if index.value.None? {
        return Ok(EmptyTree(relations));
      }
      var rootID := index.value.value;
      if rootID !in segmentDict {
        return Err(RuntimeFailure(KeyError));
      }
      ghost var before := nodes;
      var root := AddNode(NewNode(segmentDict[rootID]));
      var res := AppendDependencies(rootID, root, |segments|);
      if res.Fail? {
        return Err(res.error);
      }
      assert forall i :: 0 <= i < |before| ==> nodes[i] == before[i];
      return Ok(RstTree(relations, Some(root), monoNucs, multiNucs, nodes, spans));
    }

    /**
      `run` as the Python program has it: the root node is a bare `RstNode()`. A root that is
      a group gets the same node as from `createNewNode`, so its tree is the one `Run` builds;
      a root that is a segment ends up without text and without segment number, and its tree
      is not well formed.
    */
    method RunAsWritten(segments: seq<BodyEntry>) returns (r: Result<RstTree, ParseError>)
      requires Valid()
      modifies this
      ensures Valid()
      ensures var spec := IndexEntries(relations, NoIndex, segments);
        (spec.Err? ==> r == Err(spec.error))
        && (spec.Ok? ==> segmentDict == spec.value.segmentDict)
        && (spec.Ok? && spec.value.rootID.None? ==> r == Ok(EmptyTree(relations)))
        && (spec.Ok? && spec.value.rootID.Some? && r.Ok? ==>
              var rootID := spec.value.rootID.value;
              r.value.root == Some(old(|nodes|)) && old(|nodes|) < |r.value.nodes| && rootID in segmentDict
              && var root := r.value.nodes[old(|nodes|)];
              root.toParent.None? && root.text.None?
              && (segmentDict[rootID].Group? ==> KindMatches(segmentDict[rootID], root.toChildren))
              && (segmentDict[rootID].Segment? ==> root.segmentID.None? && !WellFormed(r.value)))
      ensures r.Ok? ==>
        r.value.relations == relations && LinksInRange(r.value.nodes, r.value.spans, r.value.monoNucs, r.value.multiNucs)
      ensures var spec := IndexEntries(relations, NoIndex, segments);
        r.Ok? && old(AllHaveSegmentID(nodes))
        && (spec.Ok? && spec.value.rootID.Some? && spec.value.rootID.value in segmentDict ==>
              segmentDict[spec.value.rootID.value].Group?)
        ==> WellFormed(r.value)
      ensures r.Ok? && old(AllHaveSegmentID(nodes)) ==>
        RangesNonEmpty(r.value.nodes)
        && forall i :: 0 <= i < |r.value.nodes| && r.value.root != Some(i) ==> HasSegmentID(r.value.nodes[i])
    {
      var index := CreateDictionaries(segments);
      if index.Err? {
        return Err(index.error);
      }
      if index.value.None? {
        return Ok(EmptyTree(relations));
      }
      var rootID := index.value.value;
      if rootID !in segmentDict {
        return Err(RuntimeFailure(KeyError));
      }
      ghost var before := nodes;
      var root := AddNode(FreshNode);
      var res := AppendDependencies(rootID, root, |segments|);
      if res.Fail? {
        return Err(res.error);
      }
      assert forall i :: 0 <= i < |before| ==> nodes[i] == before[i];
      return Ok(RstTree(relations, Some(root), monoNucs, multiNucs, nodes, spans));
    }
  }

  /** For a group entry, `createNewNode` and `RstNode()` give the same node. */
  lemma GroupRootUnaffected(e: BodyEntry)
    requires e.Group?
    ensures NewNode(e) == FreshNode
  {
  }

  /**
    The first part of `RstTreeParser.read` on the parsed document: the root element must be
    `<rst>`; then the header and the body, each stage's error passed on.
  */
  method ParseDocument(xmlData: XmlElement) returns (r: Result<(map<string, RstType>, seq<BodyEntry>), ParseError>)
    ensures xmlData.tag != "rst" ==> r == Err(InvalidRstFile(UnexpectedRoot))
    ensures xmlData.tag == "rst" && HeaderOf(xmlData).Err? ==> r == Err(HeaderOf(xmlData).error)
    ensures xmlData.tag == "rst" && HeaderOf(xmlData).Ok? && BodyOf(xmlData).Err? ==> r == Err(BodyOf(xmlData).error)
    ensures r.Ok? <==> xmlData.tag == "rst" && HeaderOf(xmlData).Ok? && BodyOf(xmlData).Ok?
    ensures r.Ok? ==> r.value == (HeaderOf(xmlData).value, BodyOf(xmlData).value)
  {
    if xmlData.tag != "rst" {
      return Err(InvalidRstFile(UnexpectedRoot));
    }
    var relations := ParseHeader(xmlData);
    if relations.Err? {
      return Err(relations.error);
    }
    var segments := ParseBody(xmlData);
    if segments.Err? {
      return Err(segments.error);
    }
    return Ok((relations.value, segments.value));
  }

  /** The root entry of a successful index: the entry of its root id, when there is one. */
  function RootEntry(ix: Index): (e: Option<BodyEntry>)
    ensures e.Some? <==> ix.rootID.Some? && ix.rootID.value in ix.segmentDict
    ensures e.Some? ==> e.value == ix.segmentDict[ix.rootID.value]
  {
    if ix.rootID.Some? && ix.rootID.value in ix.segmentDict then Some(ix.segmentDict[ix.rootID.value]) else None
  }

  /**
    `RstTreeParser.read` as the Python program has it: the document's stages, then `run`
    with its bare root node. A tree comes out well formed exactly when its root entry is a
    group or there is no root.
  */
  method Read(xmlData: XmlElement) returns (r: Result<RstTree, ParseError>)
    ensures xmlData.tag != "rst" ==> r == Err(InvalidRstFile(UnexpectedRoot))
    ensures xmlData.tag == "rst" && HeaderOf(xmlData).Err? ==> r == Err(HeaderOf(xmlData).error)
    ensures xmlData.tag == "rst" && HeaderOf(xmlData).Ok? && BodyOf(xmlData).Err? ==> r == Err(BodyOf(xmlData).error)
    ensures xmlData.tag == "rst" && HeaderOf(xmlData).Ok? && BodyOf(xmlData).Ok? ==>
      (var spec := IndexEntries(HeaderOf(xmlData).value, NoIndex, BodyOf(xmlData).value);
       (spec.Err? ==> r == Err(spec.error))
       && (spec.Ok? && spec.value.rootID.None? ==> r == Ok(EmptyTree(HeaderOf(xmlData).value))))
    ensures r.Ok? ==>
      xmlData.tag == "rst" && HeaderOf(xmlData).Ok? && BodyOf(xmlData).Ok?
      && r.value.relations == HeaderOf(xmlData).value
      && var spec := IndexEntries(HeaderOf(xmlData).value, NoIndex, BodyOf(xmlData).value);
         spec.Ok?
         && (WellFormed(r.value) <==> RootEntry(spec.value).None? || RootEntry(spec.value).value.Group?)
    ensures r.Ok? ==>
      LinksInRange(r.value.nodes, r.value.spans, r.value.monoNucs, r.value.multiNucs)
      && RangesNonEmpty(r.value.nodes)
      && forall i :: 0 <= i < |r.value.nodes| && r.value.root != Some(i) ==> HasSegmentID(r.value.nodes[i])
  {
    var document := ParseDocument(xmlData);
    if document.Err? {
      return Err(document.error);
    }
    var generator := new TreeGenerator(document.value.0);
    r := generator.RunAsWritten(document.value.1);
  }

  /**
    `RstTreeParser.read` with the corrected `run`, whose root is made by `createNewNode`:
    every tree it returns is well formed.
  */
  method ReadCorrected(xmlData: XmlElement) returns (r: Result<RstTree, ParseError>)
    ensures xmlData.tag != "rst" ==> r == Err(InvalidRstFile(UnexpectedRoot))
    ensures xmlData.tag == "rst" && HeaderOf(xmlData).Err? ==> r == Err(HeaderOf(xmlData).error)
    ensures xmlData.tag == "rst" && HeaderOf(xmlData).Ok? && BodyOf(xmlData).Err? ==> r == Err(BodyOf(xmlData).error)
    ensures xmlData.tag == "rst" && HeaderOf(xmlData).Ok? && BodyOf(xmlData).Ok? ==>
      (var spec := IndexEntries(HeaderOf(xmlData).value, NoIndex, BodyOf(xmlData).value);
       (spec.Err? ==> r == Err(spec.error))
       && (spec.Ok? && spec.value.rootID.None? ==> r == Ok(EmptyTree(HeaderOf(xmlData).value))))
    ensures r.Ok? ==> xmlData.tag == "rst" && HeaderOf(xmlData).Ok? && BodyOf(xmlData).Ok?
                      && r.value.relations == HeaderOf(xmlData).value && WellFormed(r.value)
  {
    var document := ParseDocument(xmlData);
    if document.Err? {
      return Err(document.error);
    }
    var generator := new TreeGenerator(document.value.0);
    r := generator.Run(document.value.1);
  }
}
