/**
  The tree builder of rsttace/input/parser.py. `TreeGenerator` first indexes the entry list
  (which entry is the root, which entry is the satellite of which, which entries are the
  structural children of which), then walks down from the root, creating a node per entry,
  linking it to its satellite and its children, sorting the children and giving each inner
  node the range of segment numbers below it.
*/
module TreeGeneration {
  import opened Wrappers
  import opened Sequences
  import opened RstTreeModel
  import opened RstParser

  /** `createNewNode`: only a segment's node receives a text and a segment number. */
  function NewNode(e: BodyEntry): (n: RstNode)
    ensures n.toParent.None? && n.toSibling.None? && n.toChildren.None?
    ensures e.Segment? ==> n.text == Some(e.text) && HasSegmentID(n)
                           && MinSegmentID(n) == e.segmentID == MaxSegmentID(n)
    ensures e.Group? ==> n.text.None? && n.segmentID.None?
  {
    if e.Segment? then FreshNode.(text := Some(e.text), segmentID := Some([e.segmentID]))
    else FreshNode
  }

  // ---------------------------------------------------------------------------------------
  // The dictionaries of `__createDictionaries`

  /** `segmentDict`, `siblingDict`, `childrenDict` and the root found so far. */
  datatype Index = Index(
    segmentDict: map<string, BodyEntry>,
    siblingDict: map<string, string>,
    childrenDict: map<string, seq<string>>,
    rootID: Option<string>)

  const NoIndex := Index(map[], map[], map[], None)

  /** `childrenDict[p]` of a `defaultdict(list)` */
  function ChildrenOf(d: map<string, seq<string>>, p: string): seq<string>
  {
    if p in d then d[p] else []
  }

  /** An entry is a root, or its relation name is a key of the relation table. */
  predicate Known(relations: map<string, RstType>, e: BodyEntry)
  {
    e.parent.None? || (e.relname.Some? && e.relname.value in relations)
  }

  /** An entry attached to its parent by a mono-nuclear relation. */
  predicate IsSatellite(relations: map<string, RstType>, e: BodyEntry)
  {
    e.parent.Some? && e.relname.Some? && e.relname.value in relations
    && relations[e.relname.value] == MonoNuclear
  }

  /** An entry below its parent in a span or a multi-nuclear relation. */
  predicate IsChild(relations: map<string, RstType>, e: BodyEntry)
  {
    e.parent.Some? && e.relname.Some? && e.relname.value in relations
    && relations[e.relname.value] != MonoNuclear
  }

  /** One iteration of the loop of `__createDictionaries`. */
  function IndexEntry(relations: map<string, RstType>, ix: Index, e: BodyEntry): Result<Index, ParseError>
  {
    var ix := ix.(segmentDict := ix.segmentDict[e.entryID := e]);
    if e.parent.None? then
      if ix.rootID.Some? then Err(InvalidRstFile(MultipleRoots))
      else Ok(ix.(rootID := Some(e.entryID)))
    else if e.relname.None? then Err(RuntimeFailure(AttributeError))
    else if e.relname.value !in relations then Err(RuntimeFailure(KeyError))
    else if relations[e.relname.value] == MonoNuclear then
      if e.parent.value in ix.siblingDict then Err(InvalidRstFile(MultipleSatellites))
      else Ok(ix.(siblingDict := ix.siblingDict[e.parent.value := e.entryID]))
    else
      Ok(ix.(childrenDict := ix.childrenDict[e.parent.value := ChildrenOf(ix.childrenDict, e.parent.value) + [e.entryID]]))
  }

  function IndexEntries(relations: map<string, RstType>, ix: Index, es: seq<BodyEntry>): Result<Index, ParseError>
    decreases |es|
  {
    if es == [] then Ok(ix)
    else
      var ix' :- IndexEntry(relations, ix, es[0]);
      IndexEntries(relations, ix', es[1..])
  }

  predicate AllKnown(relations: map<string, RstType>, es: seq<BodyEntry>)
  {
    forall i :: 0 <= i < |es| ==> Known(relations, es[i])
  }

  predicate AtMostOneRoot(es: seq<BodyEntry>)
  {
    forall i, j :: 0 <= i < j < |es| && es[i].parent.None? ==> es[j].parent.Some?
  }

  predicate AtMostOneSatelliteEach(relations: map<string, RstType>, es: seq<BodyEntry>)
  {
    forall i, j :: 0 <= i < j < |es| && IsSatellite(relations, es[i]) && IsSatellite(relations, es[j])
      ==> es[i].parent != es[j].parent
  }

  /** The entries still to come do not clash with the root and satellites indexed so far. */
  predicate Compatible(relations: map<string, RstType>, ix: Index, es: seq<BodyEntry>)
  {
    (ix.rootID.Some? ==> forall i :: 0 <= i < |es| ==> es[i].parent.Some?)
    && (forall i :: 0 <= i < |es| && IsSatellite(relations, es[i]) ==> es[i].parent.value !in ix.siblingDict)
  }

  /** The conditions on a list of entries split into those on its head and those on its tail. */
  lemma ConditionsOfCons(relations: map<string, RstType>, es: seq<BodyEntry>)
    requires es != []
    ensures AllKnown(relations, es) <==> Known(relations, es[0]) && AllKnown(relations, es[1..])
    ensures AtMostOneRoot(es) <==>
              (es[0].parent.None? ==> forall i :: 0 <= i < |es[1..]| ==> es[1..][i].parent.Some?)
              && AtMostOneRoot(es[1..])
    ensures AtMostOneSatelliteEach(relations, es) <==>
              (IsSatellite(relations, es[0]) ==>
                 forall i :: 0 <= i < |es[1..]| && IsSatellite(relations, es[1..][i]) ==> es[1..][i].parent != es[0].parent)
              && AtMostOneSatelliteEach(relations, es[1..])
  {
    assert forall i :: 1 <= i < |es| ==> es[i] == es[1..][i - 1];
  }

  /**
    Indexing the head entry succeeds and leaves an index compatible with the tail exactly
    when the head is known, it is compatible with the index and with the tail, and the tail
    is compatible with the index.
  */
  lemma IndexEntryCompatible(relations: map<string, RstType>, ix: Index, es: seq<BodyEntry>)
    requires es != []
    ensures var step := IndexEntry(relations, ix, es[0]);
            (step.Ok? && Compatible(relations, step.value, es[1..])) <==>
              Known(relations, es[0]) && Compatible(relations, ix, es)
              && (es[0].parent.None? ==> forall i :: 0 <= i < |es[1..]| ==> es[1..][i].parent.Some?)
              && (IsSatellite(relations, es[0]) ==>
                    forall i :: 0 <= i < |es[1..]| && IsSatellite(relations, es[1..][i]) ==> es[1..][i].parent != es[0].parent)
  {
    assert forall i :: 1 <= i < |es| ==> es[i] == es[1..][i - 1];
  }

  lemma {:induction false} IndexEntriesOk(relations: map<string, RstType>, ix: Index, es: seq<BodyEntry>)
    ensures IndexEntries(relations, ix, es).Ok? <==>
      AllKnown(relations, es) && AtMostOneRoot(es) && AtMostOneSatelliteEach(relations, es)
      && Compatible(relations, ix, es)
    decreases |es|
  {
    if es != [] {
      ConditionsOfCons(relations, es);
      IndexEntryCompatible(relations, ix, es);
      var step := IndexEntry(relations, ix, es[0]);
      if step.Ok? {
        IndexEntriesOk(relations, step.value, es[1..]);
      }
    }
  }

  /** The ids of the structural children of `p` among `es`, in list order. */
  function ChildIDs(relations: map<string, RstType>, es: seq<BodyEntry>, p: string): seq<string>
  {
    if es == [] then []
    else (if IsChild(relations, es[0]) && es[0].parent.value == p then [es[0].entryID] else [])
         + ChildIDs(relations, es[1..], p)
  }

  /** Indexing one entry appends its id to the children of `p` when it is a child of `p`. */
  lemma IndexEntryChildren(relations: map<string, RstType>, ix: Index, e: BodyEntry, p: string)
    requires IndexEntry(relations, ix, e).Ok?
    ensures ChildrenOf(IndexEntry(relations, ix, e).value.childrenDict, p)
         == ChildrenOf(ix.childrenDict, p) + (if IsChild(relations, e) && e.parent.value == p then [e.entryID] else [])
  {
    if !(IsChild(relations, e) && e.parent.value == p) {
      assert ChildrenOf(ix.childrenDict, p) + [] == ChildrenOf(ix.childrenDict, p);
    }
  }

  /** Indexing a non-empty list is indexing its head and then its tail. */
  lemma IndexEntriesCons(relations: map<string, RstType>, ix: Index, es: seq<BodyEntry>)
    requires es != [] && IndexEntries(relations, ix, es).Ok?
    ensures IndexEntry(relations, ix, es[0]).Ok?
    ensures IndexEntries(relations, ix, es) == IndexEntries(relations, IndexEntry(relations, ix, es[0]).value, es[1..])
  {
  }

  lemma {:induction false} IndexEntriesChildren(relations: map<string, RstType>, ix: Index, es: seq<BodyEntry>, p: string)
    requires IndexEntries(relations, ix, es).Ok?
    ensures ChildrenOf(IndexEntries(relations, ix, es).value.childrenDict, p)
         == ChildrenOf(ix.childrenDict, p) + ChildIDs(relations, es, p)
    decreases |es|
  {
    if es != [] {
      IndexEntriesCons(relations, ix, es);
      var step := IndexEntry(relations, ix, es[0]).value;
      IndexEntriesChildren(relations, step, es[1..], p);
      IndexEntryChildren(relations, ix, es[0], p);
      var head := if IsChild(relations, es[0]) && es[0].parent.value == p then [es[0].entryID] else [];
      assert ChildIDs(relations, es, p) == head + ChildIDs(relations, es[1..], p);
      assert ChildrenOf(ix.childrenDict, p) + head + ChildIDs(relations, es[1..], p)
          == ChildrenOf(ix.childrenDict, p) + (head + ChildIDs(relations, es[1..], p));
    } else {
      assert ChildrenOf(ix.childrenDict, p) + [] == ChildrenOf(ix.childrenDict, p);
    }
  }

  lemma {:induction false} IndexEntriesSiblings(relations: map<string, RstType>, ix: Index, es: seq<BodyEntry>, p: string)
    requires IndexEntries(relations, ix, es).Ok?
    ensures var d := IndexEntries(relations, ix, es).value.siblingDict;
      (p in d <==> p in ix.siblingDict
                   || exists i :: 0 <= i < |es| && IsSatellite(relations, es[i]) && es[i].parent.value == p)
      && (p in d && p !in ix.siblingDict ==>
            exists i :: 0 <= i < |es| && IsSatellite(relations, es[i]) && es[i].parent.value == p
                        && d[p] == es[i].entryID)
      && (p in ix.siblingDict ==> d[p] == ix.siblingDict[p])
    decreases |es|
  {
    if es != [] {
      var step := IndexEntry(relations, ix, es[0]).value;
      IndexEntriesSiblings(relations, step, es[1..], p);
      assert forall i :: 1 <= i < |es| ==> es[i] == es[1..][i - 1];
      var d := IndexEntries(relations, ix, es).value.siblingDict;
      if p in d && p !in ix.siblingDict {
        if p in step.siblingDict {
          assert IsSatellite(relations, es[0]) && es[0].parent.value == p && d[p] == es[0].entryID;
        } else {
          var i :| 0 <= i < |es[1..]| && IsSatellite(relations, es[1..][i]) && es[1..][i].parent.value == p
                   && d[p] == es[1..][i].entryID;
          assert es[i + 1] == es[1..][i];
        }
      }
    }
  }

  lemma {:induction false} IndexEntriesRoot(relations: map<string, RstType>, ix: Index, es: seq<BodyEntry>)
    requires IndexEntries(relations, ix, es).Ok?
    ensures var root := IndexEntries(relations, ix, es).value.rootID;
      (root.Some? <==> ix.rootID.Some? || exists i :: 0 <= i < |es| && es[i].parent.None?)
      && (ix.rootID.None? && root.Some? ==>
            exists i :: 0 <= i < |es| && es[i].parent.None? && es[i].entryID == root.value)
      && (ix.rootID.Some? ==> root == ix.rootID)
    decreases |es|
  {
    if es != [] {
      var step := IndexEntry(relations, ix, es[0]).value;
      IndexEntriesRoot(relations, step, es[1..]);
      assert forall i :: 1 <= i < |es| ==> es[i] == es[1..][i - 1];
      var root := IndexEntries(relations, ix, es).value.rootID;
      if ix.rootID.None? && root.Some? && step.rootID.None? {
        var i :| 0 <= i < |es[1..]| && es[1..][i].parent.None? && es[1..][i].entryID == root.value;
        assert es[i + 1] == es[1..][i];
      }
    }
  }

  lemma {:induction false} IndexEntriesSegmentKeys(relations: map<string, RstType>, ix: Index, es: seq<BodyEntry>, k: string)
    requires IndexEntries(relations, ix, es).Ok?
    ensures k in IndexEntries(relations, ix, es).value.segmentDict
        <==> k in ix.segmentDict || exists i :: 0 <= i < |es| && es[i].entryID == k
    ensures (forall i :: 0 <= i < |es| ==> es[i].entryID != k) && k in ix.segmentDict
        ==> IndexEntries(relations, ix, es).value.segmentDict[k] == ix.segmentDict[k]
    decreases |es|
  {
    if es != [] {
      var step := IndexEntry(relations, ix, es[0]).value;
      IndexEntriesSegmentKeys(relations, step, es[1..], k);
      assert forall i :: 1 <= i < |es| ==> es[i] == es[1..][i - 1];
      if k !in step.segmentDict && exists i :: 0 <= i < |es[1..]| && es[1..][i].entryID == k {
        var i :| 0 <= i < |es[1..]| && es[1..][i].entryID == k;
        assert es[i + 1].entryID == k;
      }
    }
  }

  lemma {:induction false} IndexEntriesLastEntry(relations: map<string, RstType>, ix: Index, es: seq<BodyEntry>, i: nat)
    requires IndexEntries(relations, ix, es).Ok?
    requires i < |es| && forall j :: i < j < |es| ==> es[j].entryID != es[i].entryID
    ensures es[i].entryID in IndexEntries(relations, ix, es).value.segmentDict
         && IndexEntries(relations, ix, es).value.segmentDict[es[i].entryID] == es[i]
    decreases |es|
  {
    var step := IndexEntry(relations, ix, es[0]).value;
    var rest := es[1..];
    if i > 0 {
      assert es[i] == rest[i - 1];
      assert forall j :: i - 1 < j < |rest| ==> rest[j] == es[j + 1];
      IndexEntriesLastEntry(relations, step, rest, i - 1);
    } else {
      assert forall j :: 0 <= j < |rest| ==> rest[j] == es[j + 1];
      IndexEntriesSegmentKeys(relations, step, rest, es[0].entryID);
    }
  }

  /**
    What `__createDictionaries` computes from an entry list when it does not raise, and when it
    raises: it succeeds exactly when every non-root entry's relation name is in the relation
    table, at most one entry has no parent and no parent has two mono-nuclear satellites; then
    the root is the entry without a parent (None when there is none), `siblingDict[p]` is the
    id of the satellite of `p`, `childrenDict[p]` lists the structural children of `p` in list
    order, and `segmentDict` maps every id to the last entry carrying it.
  */
  lemma Dictionaries(relations: map<string, RstType>, es: seq<BodyEntry>, p: string)
    ensures IndexEntries(relations, NoIndex, es).Ok? <==>
      AllKnown(relations, es) && AtMostOneRoot(es) && AtMostOneSatelliteEach(relations, es)
    ensures IndexEntries(relations, NoIndex, es).Ok? ==>
      var ix := IndexEntries(relations, NoIndex, es).value;
      (ix.rootID.None? <==> forall i :: 0 <= i < |es| ==> es[i].parent.Some?)
      && (ix.rootID.Some? ==> exists i :: 0 <= i < |es| && es[i].parent.None? && es[i].entryID == ix.rootID.value)
      && ChildrenOf(ix.childrenDict, p) == ChildIDs(relations, es, p)
      && (p in ix.siblingDict <==> exists i :: 0 <= i < |es| && IsSatellite(relations, es[i]) && es[i].parent.value == p)
      && (p in ix.siblingDict ==>
            exists i :: 0 <= i < |es| && IsSatellite(relations, es[i]) && es[i].parent.value == p
                        && ix.siblingDict[p] == es[i].entryID)
      && (forall k :: k in ix.segmentDict <==> exists i :: 0 <= i < |es| && es[i].entryID == k)
      && (forall i :: 0 <= i < |es| && (forall j :: i < j < |es| ==> es[j].entryID != es[i].entryID)
            ==> ix.segmentDict[es[i].entryID] == es[i])
  {
    IndexEntriesOk(relations, NoIndex, es);
    if IndexEntries(relations, NoIndex, es).Ok? {
      IndexEntriesRoot(relations, NoIndex, es);
      IndexEntriesChildren(relations, NoIndex, es, p);
      assert ChildrenOf(NoIndex.childrenDict, p) == [];
      assert [] + ChildIDs(relations, es, p) == ChildIDs(relations, es, p);
      IndexEntriesSiblings(relations, NoIndex, es, p);
      forall k ensures k in IndexEntries(relations, NoIndex, es).value.segmentDict
                       <==> exists i :: 0 <= i < |es| && es[i].entryID == k {
        IndexEntriesSegmentKeys(relations, NoIndex, es, k);
      }
      forall i | 0 <= i < |es| && (forall j :: i < j < |es| ==> es[j].entryID != es[i].entryID)
        ensures IndexEntries(relations, NoIndex, es).value.segmentDict[es[i].entryID] == es[i]
      {
        IndexEntriesLastEntry(relations, NoIndex, es, i);
      }
    }
  }
}
