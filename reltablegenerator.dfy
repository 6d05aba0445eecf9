/**
  The relation-table generator (rsttace/core/reltablegenerator.py). The pure helpers become
  functions. The loops of `run`, `createPseudoNode` and `extractCentralSubconstituent`
  become methods, each proved against a specification function:
  - `Anchors` and `PseudoNode` describe a run `ns[lo..hi]` of nodes;
  - `MonoRecord` and `GroupRecord` describe one record;
  - `MonoRecords`, `GroupRecords` and `MultiRecords` list the records in the order they
    are generated;
  - `RelationTable` is the sorted result.
  The lemmas at the end state what the source promises about the table.
*/
module RelTableGeneration {
  import opened Wrappers
  import opened Sequences
  import opened RstTreeModel
  import opened RelationsTable
  import opened RstParser

  /** Every node of the list `ns` exists and has a segment range. */
  predicate Ranged(nodes: seq<RstNode>, ns: seq<nat>)
  {
    forall k :: 0 <= k < |ns| ==> ns[k] < |nodes| && HasSegmentID(nodes[ns[k]])
  }

  /**
    The tree holds a segment range wherever `run` reads one: on both nodes of every
    mono-nuclear relation, and on every child of a multi-nuclear relation with two children
    or more (the `while` loop skips a group of one). Anchors read only such nodes.
  */
  predicate TableReady(t: RstTree)
  {
    LinksInRange(t.nodes, t.spans, t.monoNucs, t.multiNucs)
    && (forall m :: 0 <= m < |t.monoNucs| ==>
          HasSegmentID(t.nodes[t.monoNucs[m].start]) && HasSegmentID(t.nodes[t.monoNucs[m].end]))
    && (forall q :: 0 <= q < |t.multiNucs| ==> GroupRanged(t, q))
  }

  /** Group `q` of two children or more has a segment range on each of them. */
  predicate GroupRanged(t: RstTree, q: nat)
    requires q < |t.multiNucs|
  {
    |t.multiNucs[q].children| > 1 ==> Ranged(t.nodes, t.multiNucs[q].children)
  }

  /** A well-formed tree has every range `run` reads. */
  lemma WellFormedTableReady(t: RstTree)
    requires WellFormed(t)
    ensures TableReady(t) && RangesNonEmpty(t.nodes)
  {
  }

  /** The `segmentID` list of a node that has one. */
  function Segments(node: RstNode): seq<int>
    requires HasSegmentID(node)
  {
    node.segmentID.value
  }

  /**
    `extractRelElement`: the smallest and the largest segment of the node, the nuclearity
    it is given, and whether it is a leaf, meaning it has text.
  */
  function ExtractRelElement(node: RstNode, isNuclear: bool): RelElement
    requires HasSegmentID(node)
  {
    RelElement(MinSegmentID(node), MaxSegmentID(node), isNuclear, node.text.Some?)
  }

  /**
    The element of a node spans its segments. Its bounds are two of them, and every segment
    lies between them. It is a leaf exactly when the node has text, and its nuclearity is
    the one given.
  */
  lemma ExtractRelElementRange(node: RstNode, isNuclear: bool)
    requires HasSegmentID(node)
    ensures var e := ExtractRelElement(node, isNuclear);
            e.minID in Segments(node) && e.maxID in Segments(node)
            && (forall k :: 0 <= k < |Segments(node)| ==> e.minID <= Segments(node)[k] <= e.maxID)
            && (e.isLeaf <==> node.text.Some?) && e.isNuclear == isNuclear
  {
  }

  /**
    `extractMonoNuclearRelation`: for a node with a span below, the mono-nuclear relation
    that the first child of the span takes part in (if any); otherwise none.
  */
  function ExtractMonoNuclearRelation(t: RstTree, n: nat): (r: Option<nat>)
    requires TableReady(t) && n < |t.nodes|
    ensures r.Some? ==> r.value < |t.monoNucs|
    ensures r.Some? ==> t.nodes[n].toChildren.Some? && t.nodes[n].toChildren.value.SpanRef?
    ensures (t.nodes[n].toChildren.Some? && t.nodes[n].toChildren.value.SpanRef?) ==>
              r == t.nodes[t.spans[t.nodes[n].toChildren.value.span].children[0]].toSibling
  {
    match t.nodes[n].toChildren
    case Some(SpanRef(p)) => t.nodes[t.spans[p].children[0]].toSibling
    case _ => None
  }

  /**
    The element `extractCentralSubconstituent` records for one node (its anchor). It is
    the nucleus of the relation found by `ExtractMonoNuclearRelation`, marked nuclear, when
    there is one. Otherwise it is the node itself with the nuclearity given.
  */
  function Anchor(t: RstTree, n: nat, isNuclear: bool): RelElement
    requires TableReady(t) && n < |t.nodes| && HasSegmentID(t.nodes[n])
  {
    match ExtractMonoNuclearRelation(t, n)
    case Some(m) => ExtractRelElement(t.nodes[t.monoNucs[m].end], true)
    case None => ExtractRelElement(t.nodes[n], isNuclear)
  }

  /** The anchors of the nodes `ns[lo]`, ..., `ns[hi - 1]`, in order. */
  function Anchors(t: RstTree, ns: seq<nat>, lo: nat, hi: nat, isNuclear: bool): (cs: seq<RelElement>)
    requires TableReady(t) && Ranged(t.nodes, ns) && lo <= hi <= |ns|
    ensures |cs| == hi - lo
    decreases hi
  {
    if hi == lo then [] else Anchors(t, ns, lo, hi - 1, isNuclear) + [Anchor(t, ns[hi - 1], isNuclear)]
  }

  /** Element `k - lo` of `Anchors(t, ns, lo, hi, _)` is the anchor of node `ns[k]`. */
  lemma {:induction false} AnchorsAt(t: RstTree, ns: seq<nat>, lo: nat, hi: nat, isNuclear: bool)
    requires TableReady(t) && Ranged(t.nodes, ns) && lo <= hi <= |ns|
    ensures forall k :: lo <= k < hi ==> Anchors(t, ns, lo, hi, isNuclear)[k - lo] == Anchor(t, ns[k], isNuclear)
    decreases hi
  {
    if hi > lo {
      AnchorsAt(t, ns, lo, hi - 1, isNuclear);
    }
  }

  /** The anchors of a run do not depend on where the list of nodes starts. */
  lemma {:induction false} AnchorsShift(t: RstTree, ns: seq<nat>, d: nat, lo: nat, hi: nat, isNuclear: bool)
    requires TableReady(t) && Ranged(t.nodes, ns) && d <= |ns| && lo <= hi <= |ns| - d
    ensures Ranged(t.nodes, ns[d..])
    ensures Anchors(t, ns[d..], lo, hi, isNuclear) == Anchors(t, ns, lo + d, hi + d, isNuclear)
    decreases hi
  {
    assert forall k :: 0 <= k < |ns| - d ==> ns[d..][k] == ns[d + k];
    if hi > lo {
      AnchorsShift(t, ns, d, lo, hi - 1, isNuclear);
    }
  }

  /** The anchors of a suffix of the list are the last anchors of the list. */
  lemma AnchorsSuffix(t: RstTree, ns: seq<nat>, d: nat, isNuclear: bool)
    requires TableReady(t) && Ranged(t.nodes, ns) && d <= |ns|
    ensures Ranged(t.nodes, ns[d..])
    ensures Anchors(t, ns[d..], 0, |ns[d..]|, isNuclear) == Anchors(t, ns, d, |ns|, isNuclear)
  {
    AnchorsShift(t, ns, d, 0, |ns| - d, isNuclear);
  }

  /** `extractCentralSubconstituent(nodes, isNuclear)` */
  method ExtractCentralSubconstituent(t: RstTree, ns: seq<nat>, isNuclear: bool) returns (cs: seq<RelElement>)
    requires TableReady(t) && Ranged(t.nodes, ns)
    ensures cs == Anchors(t, ns, 0, |ns|, isNuclear)
  {
    cs := [];
    for k := 0 to |ns|
      invariant cs == Anchors(t, ns, 0, k, isNuclear)
    {
      var relElem: RelElement;
      var monoNucRel := ExtractMonoNuclearRelation(t, ns[k]);
      if monoNucRel.Some? {
        relElem := ExtractRelElement(t.nodes[t.monoNucs[monoNucRel.value].end], true);
      } else {
        relElem := ExtractRelElement(t.nodes[ns[k]], isNuclear);
      }
      cs := cs + [relElem];
    }
  }

  /** Every segment number of the nodes `ns[lo]`, ..., `ns[hi - 1]`, node by node. */
  function SegmentsOf(t: RstTree, ns: seq<nat>, lo: nat, hi: nat): (ids: seq<int>)
    requires TableReady(t) && Ranged(t.nodes, ns) && lo <= hi <= |ns|
    ensures |ids| >= hi - lo
    decreases hi
  {
    if hi == lo then [] else SegmentsOf(t, ns, lo, hi - 1) + Segments(t.nodes[ns[hi - 1]])
  }

  /** `SegmentsOf` holds the segments of every node of the run. */
  lemma {:induction false} SegmentsOfContains(t: RstTree, ns: seq<nat>, lo: nat, hi: nat)
    requires TableReady(t) && Ranged(t.nodes, ns) && lo <= hi <= |ns|
    ensures forall k, j :: lo <= k < hi && 0 <= j < |Segments(t.nodes[ns[k]])| ==>
              Segments(t.nodes[ns[k]])[j] in SegmentsOf(t, ns, lo, hi)
    decreases hi
  {
    if hi > lo {
      SegmentsOfContains(t, ns, lo, hi - 1);
    }
  }

  /** Every number in `SegmentsOf` is a segment of a node of the run. */
  lemma {:induction false} SegmentsOfFrom(t: RstTree, ns: seq<nat>, lo: nat, hi: nat)
    requires TableReady(t) && Ranged(t.nodes, ns) && lo <= hi <= |ns|
    ensures forall x :: x in SegmentsOf(t, ns, lo, hi) ==>
              exists k :: lo <= k < hi && x in Segments(t.nodes[ns[k]])
    decreases hi
  {
    if hi > lo {
      SegmentsOfFrom(t, ns, lo, hi - 1);
    }
  }

  lemma {:induction false} SegmentsOfShift(t: RstTree, ns: seq<nat>, d: nat, lo: nat, hi: nat)
    requires TableReady(t) && Ranged(t.nodes, ns) && d <= |ns| && lo <= hi <= |ns| - d
    ensures Ranged(t.nodes, ns[d..])
    ensures SegmentsOf(t, ns[d..], lo, hi) == SegmentsOf(t, ns, lo + d, hi + d)
    decreases hi
  {
    assert forall k :: 0 <= k < |ns| - d ==> ns[d..][k] == ns[d + k];
    if hi > lo {
      SegmentsOfShift(t, ns, d, lo, hi - 1);
    }
  }

  /**
    What `createPseudoNode` returns for the nodes `ns[lo..hi]`. For several nodes it is a
    fresh node whose `segmentID` is `[min, max]` of all their segments; for one node it is
    that node.
  */
  function PseudoNode(t: RstTree, ns: seq<nat>, lo: nat, hi: nat): (r: RstNode)
    requires TableReady(t) && Ranged(t.nodes, ns) && lo < hi <= |ns|
    ensures HasSegmentID(r)
  {
    if hi - lo > 1 then
      var ids := SegmentsOf(t, ns, lo, hi);
      FreshNode.(segmentID := Some([SeqMin(ids), SeqMax(ids)]))
    else t.nodes[ns[lo]]
  }

  /** The pseudo node of a suffix of the list is that of the last nodes of the list. */
  lemma PseudoNodeSuffix(t: RstTree, ns: seq<nat>, d: nat)
    requires TableReady(t) && Ranged(t.nodes, ns) && d < |ns|
    ensures Ranged(t.nodes, ns[d..])
    ensures PseudoNode(t, ns[d..], 0, |ns[d..]|) == PseudoNode(t, ns, d, |ns|)
  {
    var n := |ns| - d;
    assert |ns[d..]| == n && n + d == |ns|;
    if n > 1 {
      SegmentsOfShift(t, ns, d, 0, n);
      assert SegmentsOf(t, ns[d..], 0, n) == SegmentsOf(t, ns, d, |ns|);
    } else {
      assert ns[d..][0] == ns[d];
    }
  }

  /** `createPseudoNode(nodes)` */
  method CreatePseudoNode(t: RstTree, ns: seq<nat>) returns (pseudo: RstNode)
    requires TableReady(t) && Ranged(t.nodes, ns) && |ns| > 0
    ensures pseudo == PseudoNode(t, ns, 0, |ns|)
  {
    if |ns| > 1 {
      var ids: seq<int> := [];
      for k := 0 to |ns|
        invariant ids == SegmentsOf(t, ns, 0, k)
      {
        var segs := t.nodes[ns[k]].segmentID.value;
        for j := 0 to |segs|
          invariant ids == SegmentsOf(t, ns, 0, k) + segs[..j]
        {
          assert segs[..j + 1] == segs[..j] + [segs[j]];
          ids := ids + [segs[j]];
        }
        assert segs[..|segs|] == segs;
      }
      pseudo := FreshNode.(segmentID := Some([SeqMin(ids), SeqMax(ids)]));
    } else {
      pseudo := t.nodes[ns[0]];
    }
  }

  /**
    A pseudo node covers exactly the nodes it stands for. Its smallest segment is the
    smallest segment of one of them and is not above any of theirs. The same holds for its
    largest segment, the other way round. For several nodes it has no text and no links;
    for one node it is that node.
  */
  lemma PseudoNodeCovers(t: RstTree, ns: seq<nat>, lo: nat, hi: nat)
    requires TableReady(t) && Ranged(t.nodes, ns) && lo < hi <= |ns|
    ensures var p := PseudoNode(t, ns, lo, hi);
            forall k :: lo <= k < hi ==>
              MinSegmentID(p) <= MinSegmentID(t.nodes[ns[k]]) && MaxSegmentID(t.nodes[ns[k]]) <= MaxSegmentID(p)
    ensures var p := PseudoNode(t, ns, lo, hi);
            exists k :: lo <= k < hi && MinSegmentID(p) == MinSegmentID(t.nodes[ns[k]])
    ensures var p := PseudoNode(t, ns, lo, hi);
            exists k :: lo <= k < hi && MaxSegmentID(p) == MaxSegmentID(t.nodes[ns[k]])
    ensures hi - lo == 1 ==> PseudoNode(t, ns, lo, hi) == t.nodes[ns[lo]]
    ensures var p := PseudoNode(t, ns, lo, hi);
            hi - lo > 1 ==> p.text.None? && p.toParent.None? && p.toSibling.None? && p.toChildren.None?
  {
    if hi - lo > 1 {
      PseudoNodeBounds(t, ns, lo, hi);
      PseudoNodeEnds(t, ns, lo, hi);
    } else {
      var p := PseudoNode(t, ns, lo, hi);
      assert MinSegmentID(p) == MinSegmentID(t.nodes[ns[lo]]);
      assert MaxSegmentID(p) == MaxSegmentID(t.nodes[ns[lo]]);
    }
  }

  /** The range of a pseudo node for several nodes contains the range of each of them. */
  lemma PseudoNodeBounds(t: RstTree, ns: seq<nat>, lo: nat, hi: nat)
    requires TableReady(t) && Ranged(t.nodes, ns) && lo + 1 < hi <= |ns|
    ensures var ids := SegmentsOf(t, ns, lo, hi);
            forall k :: lo <= k < hi ==>
              SeqMin(ids) <= MinSegmentID(t.nodes[ns[k]]) && MaxSegmentID(t.nodes[ns[k]]) <= SeqMax(ids)
  {
    var ids := SegmentsOf(t, ns, lo, hi);
    SegmentsOfContains(t, ns, lo, hi);
    forall k | lo <= k < hi
      ensures SeqMin(ids) <= MinSegmentID(t.nodes[ns[k]]) && MaxSegmentID(t.nodes[ns[k]]) <= SeqMax(ids)
    {
      var segs := Segments(t.nodes[ns[k]]);
      var a :| 0 <= a < |segs| && segs[a] == SeqMin(segs);
      var b :| 0 <= b < |segs| && segs[b] == SeqMax(segs);
      assert segs[a] in ids && segs[b] in ids;
    }
  }

  /** The ends of a pseudo node for several nodes are ends of some of them. */
  lemma PseudoNodeEnds(t: RstTree, ns: seq<nat>, lo: nat, hi: nat)
    requires TableReady(t) && Ranged(t.nodes, ns) && lo + 1 < hi <= |ns|
    ensures var ids := SegmentsOf(t, ns, lo, hi);
            exists k :: lo <= k < hi && SeqMin(ids) == MinSegmentID(t.nodes[ns[k]])
    ensures var ids := SegmentsOf(t, ns, lo, hi);
            exists k :: lo <= k < hi && SeqMax(ids) == MaxSegmentID(t.nodes[ns[k]])
  {
    var ids := SegmentsOf(t, ns, lo, hi);
    SegmentsOfFrom(t, ns, lo, hi);
    PseudoNodeBounds(t, ns, lo, hi);
    var small, large := SeqMin(ids), SeqMax(ids);
    var kl :| lo <= kl < hi && small in Segments(t.nodes[ns[kl]]);
    var kh :| lo <= kh < hi && large in Segments(t.nodes[ns[kh]]);
    assert MinSegmentID(t.nodes[ns[kl]]) <= small;
    assert MaxSegmentID(t.nodes[ns[kh]]) >= large;
  }

  /**
    `sortRels`. The Python key `0.99999 * cs[0].minID + 0.00001 * cs[-1].maxID` is scaled
    by 100000, which gives the same order. A record without anchors gets 0; the generator
    builds none.
  */
  function SortKey(r: Relation): int
  {
    var cs := r.centralSubconstituent;
    if |cs| == 0 then 0 else 99999 * cs[0].minID + cs[|cs| - 1].maxID
  }

  /** The record of mono-nuclear relation `m` (one pass of the first loop of `run`). */
  function MonoRecord(t: RstTree, m: nat): Relation
    requires TableReady(t) && m < |t.monoNucs|
  {
    var mn := t.monoNucs[m];
    Relation(mn.relation, false,
             ExtractRelElement(t.nodes[mn.start], false),
             ExtractRelElement(t.nodes[mn.end], true),
             Anchors(t, [mn.start], 0, 1, false))
  }

  /**
    A mono record is named after its relation and is not multi-nuclear. Its constituent is
    the satellite `start`, not nuclear. Its attachment point is the node `end`, nuclear.
    Its only anchor is the anchor of `start`.
  */
  lemma MonoRecordShape(t: RstTree, m: nat)
    requires TableReady(t) && m < |t.monoNucs|
    ensures var r := MonoRecord(t, m);
            r.name == t.monoNucs[m].relation && !r.isMultiNuclear
    ensures var r, start := MonoRecord(t, m), t.nodes[t.monoNucs[m].start];
            r.constituent.minID == MinSegmentID(start) && r.constituent.maxID == MaxSegmentID(start)
            && !r.constituent.isNuclear && (r.constituent.isLeaf <==> start.text.Some?)
    ensures var r, end := MonoRecord(t, m), t.nodes[t.monoNucs[m].end];
            r.attachmentPoint.minID == MinSegmentID(end) && r.attachmentPoint.maxID == MaxSegmentID(end)
            && r.attachmentPoint.isNuclear && (r.attachmentPoint.isLeaf <==> end.text.Some?)
    ensures MonoRecord(t, m).centralSubconstituent == [Anchor(t, t.monoNucs[m].start, false)]
  {
  }

  /** The records of the first `m` mono-nuclear relations, in order. */
  function MonoRecords(t: RstTree, m: nat): (rs: seq<Relation>)
    requires TableReady(t) && m <= |t.monoNucs|
  {
    seq(m, i requires 0 <= i < m => MonoRecord(t, i))
  }

  /**
    Record `i` of the multi-nuclear group `q`. It is made when the deque holds children
    `i` up to the last: child `i` against the children after it (made into one pseudo
    node), anchored by all of them.
  */
  function GroupRecord(t: RstTree, q: nat, i: nat): Relation
    requires TableReady(t) && q < |t.multiNucs| && GroupRanged(t, q) && i + 1 < |t.multiNucs[q].children|
  {
    var mn := t.multiNucs[q];
    var ch := mn.children;
    Relation(mn.relation, true,
             ExtractRelElement(t.nodes[ch[i]], true),
             ExtractRelElement(PseudoNode(t, ch, i + 1, |ch|), true),
             Anchors(t, ch, i, |ch|, true))
  }

  /**
    Record `i` of a group is named after the group and is multi-nuclear. Its constituent
    is child `i`, nuclear.
  */
  lemma GroupRecordConstituent(t: RstTree, q: nat, i: nat)
    requires TableReady(t) && q < |t.multiNucs| && GroupRanged(t, q) && i + 1 < |t.multiNucs[q].children|
    ensures var r := GroupRecord(t, q, i);
            r.name == t.multiNucs[q].relation && r.isMultiNuclear
    ensures var r, c := GroupRecord(t, q, i), t.nodes[t.multiNucs[q].children[i]];
            r.constituent.minID == MinSegmentID(c) && r.constituent.maxID == MaxSegmentID(c)
            && r.constituent.isNuclear && (r.constituent.isLeaf <==> c.text.Some?)
  {
  }

  /**
    The attachment point of record `i` is nuclear. When exactly one child follows child
    `i`, it is that child. Otherwise it is not a leaf and spans the children after `i`: its
    range contains theirs and its ends are ends of theirs.
  */
  lemma GroupRecordAttachment(t: RstTree, q: nat, i: nat)
    requires TableReady(t) && q < |t.multiNucs| && GroupRanged(t, q) && i + 1 < |t.multiNucs[q].children|
    ensures GroupRecord(t, q, i).attachmentPoint.isNuclear
    ensures var ch := t.multiNucs[q].children;
            i + 2 == |ch| ==>
              GroupRecord(t, q, i).attachmentPoint == ExtractRelElement(t.nodes[ch[i + 1]], true)
    ensures var a, ch := GroupRecord(t, q, i).attachmentPoint, t.multiNucs[q].children;
            i + 2 < |ch| ==>
              (!a.isLeaf
               && (forall k :: i < k < |ch| ==>
                     a.minID <= MinSegmentID(t.nodes[ch[k]]) && MaxSegmentID(t.nodes[ch[k]]) <= a.maxID)
               && (exists k :: i < k < |ch| && a.minID == MinSegmentID(t.nodes[ch[k]]))
               && (exists k :: i < k < |ch| && a.maxID == MaxSegmentID(t.nodes[ch[k]])))
  {
    var ch := t.multiNucs[q].children;
    var p := PseudoNode(t, ch, i + 1, |ch|);
    assert GroupRecord(t, q, i).attachmentPoint == ExtractRelElement(p, true);
    PseudoNodeCovers(t, ch, i + 1, |ch|);
  }

  /** The anchors of record `i` are those of children `i` up to the last, in order. */
  lemma GroupRecordAnchors(t: RstTree, q: nat, i: nat)
    requires TableReady(t) && q < |t.multiNucs| && GroupRanged(t, q) && i + 1 < |t.multiNucs[q].children|
    ensures var cs, ch := GroupRecord(t, q, i).centralSubconstituent, t.multiNucs[q].children;
            |cs| == |ch| - i && forall k :: i <= k < |ch| ==> cs[k - i] == Anchor(t, ch[k], true)
  {
    var ch := t.multiNucs[q].children;
    AnchorsAt(t, ch, i, |ch|, true);
  }

  /** How many records a group of `k` children gives: `k - 1`, and none for no child. */
  function GroupSize(m: MultiNucRelation): nat
  {
    if |m.children| == 0 then 0 else |m.children| - 1
  }

  /** The first `j` records of group `q`, in order. */
  function GroupRecords(t: RstTree, q: nat, j: nat): seq<Relation>
    requires TableReady(t) && q < |t.multiNucs| && j <= GroupSize(t.multiNucs[q])
  {
    seq(j, i requires 0 <= i < j => GroupRecord(t, q, i))
  }

  /** All records of the groups `ms`. */
  function PairCount(ms: seq<MultiNucRelation>): nat
  {
    if ms == [] then 0 else PairCount(ms[..|ms| - 1]) + GroupSize(ms[|ms| - 1])
  }

  /** The records of the first `q` multi-nuclear groups, group by group. */
  function MultiRecords(t: RstTree, q: nat): seq<Relation>
    requires TableReady(t) && q <= |t.multiNucs|
  {
    if q == 0 then []
    else MultiRecords(t, q - 1) + GroupRecords(t, q - 1, GroupSize(t.multiNucs[q - 1]))
  }

  /** What `run` returns: the sorted mono records followed by the sorted multi records. */
  function RelationTable(t: RstTree): seq<Relation>
    requires TableReady(t)
  {
    StableSort(MonoRecords(t, |t.monoNucs|), SortKey)
    + StableSort(MultiRecords(t, |t.multiNucs|), SortKey)
  }

  /**
    One pass of the `while` loop of `run`, when the deque holds the children of group `q`
    after the first `j`: the record of the first of them.
  */
  method NextGroupRecord(t: RstTree, q: nat, ghost j: nat, remainingNodes: seq<nat>) returns (relation: Relation)
    requires TableReady(t) && q < |t.multiNucs| && GroupRanged(t, q) && j + 1 < |t.multiNucs[q].children|
    requires remainingNodes == t.multiNucs[q].children[j..]
    ensures relation == GroupRecord(t, q, j)
  {
    RemainingNodesParts(t, q, j, remainingNodes);
    var multiNuc := t.multiNucs[q];
    var cs := ExtractCentralSubconstituent(t, remainingNodes, true);
    var currentNode := remainingNodes[0];
    var pseudoNode := CreatePseudoNode(t, remainingNodes[1..]);
    relation := Relation(multiNuc.relation, true,
                         ExtractRelElement(t.nodes[currentNode], true),
                         ExtractRelElement(pseudoNode, true),
                         cs);
  }

  /** The parts of `GroupRecord(t, q, j)`, computed from the deque `children[j..]`. */
  lemma RemainingNodesParts(t: RstTree, q: nat, j: nat, remainingNodes: seq<nat>)
    requires TableReady(t) && q < |t.multiNucs| && GroupRanged(t, q) && j + 1 < |t.multiNucs[q].children|
    requires remainingNodes == t.multiNucs[q].children[j..]
    ensures Ranged(t.nodes, remainingNodes) && |remainingNodes| > 1
    ensures remainingNodes[0] == t.multiNucs[q].children[j]
    ensures var ch := t.multiNucs[q].children;
            Anchors(t, remainingNodes, 0, |remainingNodes|, true) == Anchors(t, ch, j, |ch|, true)
    ensures var ch := t.multiNucs[q].children;
            Ranged(t.nodes, remainingNodes[1..])
            && PseudoNode(t, remainingNodes[1..], 0, |remainingNodes[1..]|) == PseudoNode(t, ch, j + 1, |ch|)
  {
    var ch := t.multiNucs[q].children;
    AnchorsSuffix(t, ch, j, true);
    assert remainingNodes[1..] == ch[j + 1..];
    PseudoNodeSuffix(t, ch, j + 1);
  }

  lemma GroupRecordsSnoc(t: RstTree, q: nat, j: nat)
    requires TableReady(t) && q < |t.multiNucs| && j < GroupSize(t.multiNucs[q])
    ensures GroupRecords(t, q, j + 1) == GroupRecords(t, q, j) + [GroupRecord(t, q, j)]
  {
    var longer, shorter := GroupRecords(t, q, j + 1), GroupRecords(t, q, j);
    assert |longer| == |shorter + [GroupRecord(t, q, j)]|;
    forall i | 0 <= i < j + 1 ensures longer[i] == (shorter + [GroupRecord(t, q, j)])[i] {
      if i < j {
        assert longer[i] == GroupRecord(t, q, i) == shorter[i];
      }
    }
  }

  /**
    The `while` loop of `run` for group `q`. It takes the children off the front of a copy
    of the child list and makes one record per child while more than one is left.
  */
  method AppendGroupRecords(t: RstTree, q: nat, table: RelTable)
    requires TableReady(t) && q < |t.multiNucs|
    modifies table
    ensures table.relations == old(table.relations) + GroupRecords(t, q, GroupSize(t.multiNucs[q]))
  {
    var multiNuc := t.multiNucs[q];
    var remainingNodes := multiNuc.children;
    ghost var taken := 0;
    while |remainingNodes| > 1
      invariant taken <= GroupSize(multiNuc) && remainingNodes == multiNuc.children[taken..]
      invariant table.relations == old(table.relations) + GroupRecords(t, q, taken)
      decreases |remainingNodes|
    {
      var relation := NextGroupRecord(t, q, taken, remainingNodes);
      remainingNodes := remainingNodes[1..];
      GroupRecordsSnoc(t, q, taken);
      table.Append(relation);
      taken := taken + 1;
    }
  }

  /**
    `TableGenerator.run(rstTree)`. A node that `run` reads without a segment range makes
    `min(None)` (or the loop over its segments) raise `TypeError`. The tables built up to
    that point are dropped with the exception, so the model tests for it before the loops.
  */
  method Run(t: RstTree) returns (r: Result<RelTable, ParseError>)
    requires LinksInRange(t.nodes, t.spans, t.monoNucs, t.multiNucs) && RangesNonEmpty(t.nodes)
    ensures r.Ok? <==> TableReady(t)
    ensures !TableReady(t) ==> r == Err(RuntimeFailure(TypeError))
    ensures r.Ok? ==> TableReady(t) && fresh(r.value) && r.value.relations == RelationTable(t)
  {
    if !TableReady(t) {
      return Err(RuntimeFailure(TypeError));
    }
    var monoRelTable := new RelTable();
    for m := 0 to |t.monoNucs|
      invariant fresh(monoRelTable)
      invariant monoRelTable.relations == MonoRecords(t, m)
    {
      var monoNuc := t.monoNucs[m];
      var cs := ExtractCentralSubconstituent(t, [monoNuc.start], false);
      var relation := Relation(monoNuc.relation, false,
                               ExtractRelElement(t.nodes[monoNuc.start], false),
                               ExtractRelElement(t.nodes[monoNuc.end], true),
                               cs);
      assert MonoRecords(t, m + 1) == MonoRecords(t, m) + [relation];
      monoRelTable.Append(relation);
    }

    var multiRelTable := new RelTable();
    for q := 0 to |t.multiNucs|
      invariant fresh(multiRelTable) && multiRelTable != monoRelTable
      invariant monoRelTable.relations == MonoRecords(t, |t.monoNucs|)
      invariant multiRelTable.relations == MultiRecords(t, q)
    {
      AppendGroupRecords(t, q, multiRelTable);
    }

    monoRelTable.Sort(SortKey);
    multiRelTable.Sort(SortKey);
    var table := monoRelTable.Add(multiRelTable);
    r := Ok(table);
  }

  /** Node `n` is read by `run`: it is in a mono-nuclear relation, or a child of a group of two or more. */
  predicate ReadsNode(t: RstTree, n: nat)
  {
    (exists m :: 0 <= m < |t.monoNucs| && (t.monoNucs[m].start == n || t.monoNucs[m].end == n))
    || (exists q, k :: 0 <= q < |t.multiNucs| && |t.multiNucs[q].children| > 1
                       && 0 <= k < |t.multiNucs[q].children| && t.multiNucs[q].children[k] == n)
  }

  /**
    In a tree whose only node that may lack a range is the root (the trees `read` builds),
    `run` succeeds exactly when the root has a range or `run` never reads the root.
  */
  lemma TableReadyBesidesRoot(t: RstTree, root: nat)
    requires LinksInRange(t.nodes, t.spans, t.monoNucs, t.multiNucs) && root < |t.nodes|
    requires forall i :: 0 <= i < |t.nodes| && i != root ==> HasSegmentID(t.nodes[i])
    ensures TableReady(t) <==> HasSegmentID(t.nodes[root]) || !ReadsNode(t, root)
  {
    if ReadsNode(t, root) && TableReady(t) {
      if exists m :: 0 <= m < |t.monoNucs| && (t.monoNucs[m].start == root || t.monoNucs[m].end == root) {
        var m :| 0 <= m < |t.monoNucs| && (t.monoNucs[m].start == root || t.monoNucs[m].end == root);
        assert HasSegmentID(t.nodes[t.monoNucs[m].start]) && HasSegmentID(t.nodes[t.monoNucs[m].end]);
      } else {
        var q, k :| 0 <= q < |t.multiNucs| && |t.multiNucs[q].children| > 1
                    && 0 <= k < |t.multiNucs[q].children| && t.multiNucs[q].children[k] == root;
        assert GroupRanged(t, q);
      }
    }
    if !ReadsNode(t, root) {
      forall m | 0 <= m < |t.monoNucs|
        ensures HasSegmentID(t.nodes[t.monoNucs[m].start]) && HasSegmentID(t.nodes[t.monoNucs[m].end])
      {
        assert t.monoNucs[m].start != root && t.monoNucs[m].end != root;
      }
      forall q | 0 <= q < |t.multiNucs| && |t.multiNucs[q].children| > 1
        ensures GroupRanged(t, q)
      {
        forall k | 0 <= k < |t.multiNucs[q].children|
          ensures HasSegmentID(t.nodes[t.multiNucs[q].children[k]])
        {
          assert t.multiNucs[q].children[k] != root;
        }
      }
    }
  }

  /**
    The tree `read` builds for a body of one segment without parent: a bare root and no
    relations. `run` reads nothing of it and returns the empty table.
  */
  lemma LoneSegmentTable(relations: map<string, RstType>)
    ensures var t := RstTree(relations, Some(0), [], [], [FreshNode], []);
            TableReady(t) && !HasSegmentID(t.nodes[0]) && RelationTable(t) == []
  {
    var t := RstTree(relations, Some(0), [], [], [FreshNode], []);
    RelationTableLength(t);
  }

  /**
    The tree `read` builds for a root segment 1 with satellite segment 2 under relation
    `rel`: the bare root is the nucleus of the relation, so `run` reads its missing range
    and raises `TypeError` (`min(None)` in `extractRelElement`).
  */
  lemma RootSatelliteNotReady(relations: map<string, RstType>, rel: string, text: string)
    ensures var root := FreshNode.(toSibling := Some(0));
            var satellite := FreshNode.(toSibling := Some(0), text := Some(text), segmentID := Some([2]));
            var t := RstTree(relations, Some(0), [MonoNucRelation(rel, 1, 0)], [], [root, satellite], []);
            LinksInRange(t.nodes, t.spans, t.monoNucs, t.multiNucs) && RangesNonEmpty(t.nodes)
            && ReadsNode(t, 0) && !TableReady(t)
  {
    var root := FreshNode.(toSibling := Some(0));
    var satellite := FreshNode.(toSibling := Some(0), text := Some(text), segmentID := Some([2]));
    var t := RstTree(relations, Some(0), [MonoNucRelation(rel, 1, 0)], [], [root, satellite], []);
    assert t.monoNucs[0].end == 0;
  }

  /** The multi records of the first `q` groups are `k - 1` per group of `k` children. */
  lemma {:induction false} MultiRecordsLength(t: RstTree, q: nat)
    requires TableReady(t) && q <= |t.multiNucs|
    ensures |MultiRecords(t, q)| == PairCount(t.multiNucs[..q])
  {
    if q > 0 {
      MultiRecordsLength(t, q - 1);
      assert t.multiNucs[..q][..q - 1] == t.multiNucs[..q - 1];
    }
  }

  /**
    Record `i` of group `q` sits in the generated multi records after the records of the
    groups before `q`.
  */
  lemma MultiRecordsAt(t: RstTree, n: nat, q: nat, i: nat)
    requires TableReady(t) && q < n <= |t.multiNucs| && i < GroupSize(t.multiNucs[q])
    ensures PairCount(t.multiNucs[..q]) + i < |MultiRecords(t, n)|
    ensures MultiRecords(t, n)[PairCount(t.multiNucs[..q]) + i] == GroupRecord(t, q, i)
  {
    MultiRecordsLength(t, q);
    MultiRecordsLast(t, q + 1, i);
    MultiRecordsPrefix(t, q + 1, n);
    var shorter, longer := MultiRecords(t, q + 1), MultiRecords(t, n);
    var k := PairCount(t.multiNucs[..q]) + i;
    assert k < |shorter| && longer[k] == shorter[k];
  }

  /** The records of the first `a` groups are the start of those of the first `b`. */
  lemma {:induction false} MultiRecordsPrefix(t: RstTree, a: nat, b: nat)
    requires TableReady(t) && a <= b <= |t.multiNucs|
    ensures MultiRecords(t, a) <= MultiRecords(t, b)
    decreases b
  {
    if a < b {
      MultiRecordsPrefix(t, a, b - 1);
      assert MultiRecords(t, b) == MultiRecords(t, b - 1) + GroupRecords(t, b - 1, GroupSize(t.multiNucs[b - 1]));
    }
  }

  /** Record `i` of group `n - 1` follows the records of the groups before it. */
  lemma MultiRecordsLast(t: RstTree, n: nat, i: nat)
    requires TableReady(t) && 0 < n <= |t.multiNucs| && i < GroupSize(t.multiNucs[n - 1])
    ensures |MultiRecords(t, n - 1)| + i < |MultiRecords(t, n)|
    ensures MultiRecords(t, n)[|MultiRecords(t, n - 1)| + i] == GroupRecord(t, n - 1, i)
  {
    var group := GroupRecords(t, n - 1, GroupSize(t.multiNucs[n - 1]));
    assert MultiRecords(t, n) == MultiRecords(t, n - 1) + group;
    assert group[i] == GroupRecord(t, n - 1, i);
  }

  /** The table has one record per mono-nuclear relation and `k - 1` per group of `k`. */
  lemma RelationTableLength(t: RstTree)
    requires TableReady(t)
    ensures |RelationTable(t)| == |t.monoNucs| + PairCount(t.multiNucs)
  {
    MultiRecordsLength(t, |t.multiNucs|);
    assert t.multiNucs[..|t.multiNucs|] == t.multiNucs;
  }

  /** A tree without relations gives an empty table. */
  lemma EmptyTreeTable(relations: map<string, RstType>)
    ensures RelationTable(EmptyTree(relations)) == []
  {
    RelationTableLength(EmptyTree(relations));
  }

  /** Every generated multi record is multi-nuclear. */
  lemma {:induction false} MultiRecordsAreMulti(t: RstTree, q: nat)
    requires TableReady(t) && q <= |t.multiNucs|
    ensures forall i :: 0 <= i < |MultiRecords(t, q)| ==> MultiRecords(t, q)[i].isMultiNuclear
  {
    if q > 0 {
      MultiRecordsAreMulti(t, q - 1);
    }
  }

  /** Sorting keeps exactly the records that were there. */
  lemma SortedMembers(s: seq<Relation>)
    ensures forall x :: x in StableSort(s, SortKey) <==> x in s
  {
    StableSortPermutes(s, SortKey);
    forall x ensures x in StableSort(s, SortKey) <==> x in s {
      assert x in multiset(StableSort(s, SortKey)) <==> x in multiset(s);
    }
  }

  /**
    The mono records come first and all of them do; the multi records follow. Record `i` of
    the table is multi-nuclear exactly when `i` is at least the number of mono-nuclear
    relations.
  */
  lemma MonoBeforeMulti(t: RstTree)
    requires TableReady(t)
    ensures forall i :: 0 <= i < |RelationTable(t)| ==>
              (RelationTable(t)[i].isMultiNuclear <==> i >= |t.monoNucs|)
  {
    var mono := MonoRecords(t, |t.monoNucs|);
    var multi := MultiRecords(t, |t.multiNucs|);
    var sm, su := StableSort(mono, SortKey), StableSort(multi, SortKey);
    SortedMembers(mono);
    SortedMembers(multi);
    MultiRecordsAreMulti(t, |t.multiNucs|);
    forall i | 0 <= i < |sm| ensures !sm[i].isMultiNuclear {
      assert sm[i] in mono;
    }
    forall i | 0 <= i < |su| ensures su[i].isMultiNuclear {
      assert su[i] in multi;
    }
    assert RelationTable(t) == sm + su;
  }

  /**
    The first `|monoNucs|` records of the table are the mono records in stable key order,
    and the rest are the multi records in stable key order.
  */
  lemma RelationTableGroupsSorted(t: RstTree)
    requires TableReady(t)
    ensures var r, m := RelationTable(t), |t.monoNucs|;
            multiset(r[..m]) == multiset(MonoRecords(t, m))
            && multiset(r[m..]) == multiset(MultiRecords(t, |t.multiNucs|))
            && SortedBy(r[..m], SortKey) && SortedBy(r[m..], SortKey)
    ensures var r, m := RelationTable(t), |t.monoNucs|;
            forall k :: WithKey(r[..m], SortKey, k) == WithKey(MonoRecords(t, m), SortKey, k)
                     && WithKey(r[m..], SortKey, k) == WithKey(MultiRecords(t, |t.multiNucs|), SortKey, k)
  {
    var mono := MonoRecords(t, |t.monoNucs|);
    var multi := MultiRecords(t, |t.multiNucs|);
    var r := RelationTable(t);
    assert r[..|t.monoNucs|] == StableSort(mono, SortKey);
    assert r[|t.monoNucs|..] == StableSort(multi, SortKey);
    StableSortPermutes(mono, SortKey);
    StableSortPermutes(multi, SortKey);
    StableSortSorted(mono, SortKey);
    StableSortSorted(multi, SortKey);
    forall k ensures WithKey(StableSort(mono, SortKey), SortKey, k) == WithKey(mono, SortKey, k)
                  && WithKey(StableSort(multi, SortKey), SortKey, k) == WithKey(multi, SortKey, k)
    {
      StableSortKeepsOrderOfEqualKeys(mono, SortKey, k);
      StableSortKeepsOrderOfEqualKeys(multi, SortKey, k);
    }
  }
}
