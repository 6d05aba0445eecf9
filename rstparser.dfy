/**
  Reading an rs3 document (rsttace/input/parser.py): the relation-kind table built from the
  `<header>` and the flat list of entries built from the `<body>`. The XML document is given
  as an element tree; reading the file and the XML syntax are outside the model.
*/
module RstParser {
  import opened Wrappers
  import opened Strings
  import opened RstTreeModel

  /** An element of the XML tree: its tag, attributes, text (None when absent) and children. */
  datatype XmlElement = XmlElement(
    tag: string,
    attributes: map<string, string>,
    text: Option<string>,
    children: seq<XmlElement>)

  /** `element.get(name)` */
  function Attribute(e: XmlElement, name: string): Option<string>
  {
    if name in e.attributes then Some(e.attributes[name]) else None
  }

  /** The messages of `InvalidRstFile`. */
  datatype InvalidReason =
    | UnexpectedRoot | NoHeaderSection | NoBodySection
    | InvalidHeaderTag | InvalidRelationEncoding | InvalidBodyTag
    | IdMissing | TextMissing | TypeMissing
    | MultipleSatellites | MultipleRoots
    | DifferentRelationNames | UnspecifiedRelationType | WrongEntryType

  /** Python exceptions the parser lets escape without wrapping them. */
  datatype RuntimeKind = KeyError | AttributeError | TypeError | IndexError | RecursionError

  datatype ParseError = InvalidRstFile(reason: InvalidReason) | RuntimeFailure(kind: RuntimeKind)

  /**
    A body entry. `relname` is None when the element has no `relname` attribute (the Python
    object then has no `relname` attribute at all); otherwise it is lower-cased.
  */
  datatype BodyEntry =
    | Segment(entryID: string, parent: Option<string>, relname: Option<string>, text: string, segmentID: int)
    | Group(entryID: string, parent: Option<string>, relname: Option<string>, groupType: string)

  /** `rstTypeLUT` */
  const RstTypeLUT: map<string, RstType> :=
    map["rst" := MonoNuclear, "multinuc" := MultiNuclear, "span" := StructuralSpan]

  // ---------------------------------------------------------------------------------------
  // Blocks of the root element

  /** The first child with the given tag, as the `for ... if tag: return` loops find it. */
  function FirstWithTag(blocks: seq<XmlElement>, tag: string): (r: Option<XmlElement>)
    ensures r.None? <==> forall i :: 0 <= i < |blocks| ==> blocks[i].tag != tag
    ensures r.Some? ==> exists i :: 0 <= i < |blocks| && blocks[i] == r.value && blocks[i].tag == tag
                          && forall j :: 0 <= j < i ==> blocks[j].tag != tag
  {
    if blocks == [] then None
    else if blocks[0].tag == tag then Some(blocks[0])
    else
      var r := FirstWithTag(blocks[1..], tag);
      assert r.Some? ==> exists i :: 1 <= i < |blocks| && blocks[i] == r.value && blocks[i].tag == tag
                            && forall j :: 0 <= j < i ==> blocks[j].tag != tag by {
        if r.Some? {
          var i :| 0 <= i < |blocks[1..]| && blocks[1..][i] == r.value && blocks[1..][i].tag == tag
                   && forall j :: 0 <= j < i ==> blocks[1..][j].tag != tag;
          assert blocks[i + 1] == r.value;
          forall j | 0 <= j < i + 1 ensures blocks[j].tag != tag {
            if j > 0 { assert blocks[j] == blocks[1..][j - 1]; }
          }
        }
      }
      r
  }

  // ---------------------------------------------------------------------------------------
  // Header: the relation-kind table

  /** One entry of a `<relations>` block added to the table. */
  function AddRelation(relations: map<string, RstType>, e: XmlElement): Result<map<string, RstType>, ParseError>
  {
    if e.tag != "rel" then Err(InvalidRstFile(InvalidHeaderTag))
    else if "name" !in e.attributes then Err(RuntimeFailure(AttributeError))
    else if "type" !in e.attributes || e.attributes["type"] !in RstTypeLUT then
      Err(InvalidRstFile(InvalidRelationEncoding))
    else Ok(relations[ToLower(e.attributes["name"]) := RstTypeLUT[e.attributes["type"]]])
  }

  /** The entries of one `<relations>` block added in order. */
  function AddRelations(relations: map<string, RstType>, entries: seq<XmlElement>): Result<map<string, RstType>, ParseError>
    decreases |entries|
  {
    if entries == [] then Ok(relations)
    else
      var r :- AddRelation(relations, entries[0]);
      AddRelations(r, entries[1..])
  }

  /** Every `<relations>` block of the header added in order; other blocks are skipped. */
  function AddRelationBlocks(relations: map<string, RstType>, metas: seq<XmlElement>): Result<map<string, RstType>, ParseError>
    decreases |metas|
  {
    if metas == [] then Ok(relations)
    else if metas[0].tag == "relations" then
      var r :- AddRelations(relations, metas[0].children);
      AddRelationBlocks(r, metas[1..])
    else AddRelationBlocks(relations, metas[1..])
  }

  /** The table `parseRelations` returns for a header block. */
  function RelationsOf(header: XmlElement): Result<map<string, RstType>, ParseError>
  {
    AddRelationBlocks(map["span" := StructuralSpan], header.children)
  }

  /** `parseRelations` */
  method ParseRelations(xmlBlock: XmlElement) returns (r: Result<map<string, RstType>, ParseError>)
    ensures r == RelationsOf(xmlBlock)
  {
    var relations := map["span" := StructuralSpan];
    var i := 0;
    while i < |xmlBlock.children|
      invariant 0 <= i <= |xmlBlock.children|
      invariant RelationsOf(xmlBlock) == AddRelationBlocks(relations, xmlBlock.children[i..])
    {
      var xmlMeta := xmlBlock.children[i];
      assert xmlBlock.children[i..][0] == xmlMeta && xmlBlock.children[i..][1..] == xmlBlock.children[i + 1..];
      if xmlMeta.tag == "relations" {
        ghost var before := relations;
        var j := 0;
        while j < |xmlMeta.children|
          invariant 0 <= j <= |xmlMeta.children|
          invariant AddRelations(before, xmlMeta.children) == AddRelations(relations, xmlMeta.children[j..])
        {
          var xmlEntry := xmlMeta.children[j];
          assert xmlMeta.children[j..][0] == xmlEntry && xmlMeta.children[j..][1..] == xmlMeta.children[j + 1..];
          if xmlEntry.tag != "rel" {
            return Err(InvalidRstFile(InvalidHeaderTag));
          }
          if "name" !in xmlEntry.attributes {
            return Err(RuntimeFailure(AttributeError));
          }
          var relName := ToLower(xmlEntry.attributes["name"]);
          if "type" !in xmlEntry.attributes || xmlEntry.attributes["type"] !in RstTypeLUT {
            return Err(InvalidRstFile(InvalidRelationEncoding));
          }
          relations := relations[relName := RstTypeLUT[xmlEntry.attributes["type"]]];
          j := j + 1;
        }
      }
      i := i + 1;
    }
    return Ok(relations);
  }

  /** The lower-cased `name` of every entry of a `<relations>` block that has one. */
  function EntryNames(entries: seq<XmlElement>): set<string>
  {
    if entries == [] then {}
    else (if "name" in entries[0].attributes then {ToLower(entries[0].attributes["name"])} else {})
         + EntryNames(entries[1..])
  }

  /** The names declared by all `<relations>` blocks. */
  function DeclaredNames(metas: seq<XmlElement>): set<string>
  {
    if metas == [] then {}
    else (if metas[0].tag == "relations" then EntryNames(metas[0].children) else {})
         + DeclaredNames(metas[1..])
  }

  /** A `<rel>` entry that `parseRelations` accepts. */
  predicate ValidRelEntry(e: XmlElement)
  {
    e.tag == "rel" && "name" in e.attributes && "type" in e.attributes && e.attributes["type"] in RstTypeLUT
  }

  predicate ValidRelationBlocks(metas: seq<XmlElement>)
  {
    forall i, j :: 0 <= i < |metas| && metas[i].tag == "relations" && 0 <= j < |metas[i].children|
      ==> ValidRelEntry(metas[i].children[j])
  }

  predicate LowerCaseKeys(m: map<string, RstType>)
  {
    forall k :: k in m ==> ToLower(k) == k
  }

  lemma {:induction false} AddRelationsKeys(m: map<string, RstType>, entries: seq<XmlElement>)
    requires AddRelations(m, entries).Ok?
    ensures AddRelations(m, entries).value.Keys == m.Keys + EntryNames(entries)
    ensures forall k :: k in m && k !in EntryNames(entries) ==> AddRelations(m, entries).value[k] == m[k]
    decreases |entries|
  {
    if entries != [] {
      AddRelationsKeys(AddRelation(m, entries[0]).value, entries[1..]);
    }
  }

  lemma {:induction false} AddRelationBlocksKeys(m: map<string, RstType>, metas: seq<XmlElement>)
    requires AddRelationBlocks(m, metas).Ok?
    ensures AddRelationBlocks(m, metas).value.Keys == m.Keys + DeclaredNames(metas)
    ensures forall k :: k in m && k !in DeclaredNames(metas) ==> AddRelationBlocks(m, metas).value[k] == m[k]
    decreases |metas|
  {
    if metas != [] {
      if metas[0].tag == "relations" {
        AddRelationsKeys(m, metas[0].children);
        AddRelationBlocksKeys(AddRelations(m, metas[0].children).value, metas[1..]);
      } else {
        AddRelationBlocksKeys(m, metas[1..]);
      }
    }
  }

  lemma {:induction false} EntryNamesLowerCase(entries: seq<XmlElement>)
    ensures forall k :: k in EntryNames(entries) ==> ToLower(k) == k
  {
    if entries != [] {
      EntryNamesLowerCase(entries[1..]);
      if "name" in entries[0].attributes {
        ToLowerIdempotent(entries[0].attributes["name"]);
      }
    }
  }

  lemma {:induction false} DeclaredNamesLowerCase(metas: seq<XmlElement>)
    ensures forall k :: k in DeclaredNames(metas) ==> ToLower(k) == k
  {
    if metas != [] {
      DeclaredNamesLowerCase(metas[1..]);
      EntryNamesLowerCase(metas[0].children);
    }
  }

  /**
    The table holds "span" and exactly the declared names, all lower-case, and "span" stays
    SPAN unless a `<rel>` entry declares it again.
  */
  lemma RelationsOfKeys(header: XmlElement)
    requires RelationsOf(header).Ok?
    ensures RelationsOf(header).value.Keys == {"span"} + DeclaredNames(header.children)
    ensures LowerCaseKeys(RelationsOf(header).value)
    ensures "span" !in DeclaredNames(header.children) ==> RelationsOf(header).value["span"] == StructuralSpan
  {
    AddRelationBlocksKeys(map["span" := StructuralSpan], header.children);
    DeclaredNamesLowerCase(header.children);
    assert ToLower("span") == "span";
  }

  /**
    The `type` of the last entry of a `<relations>` block whose lower-cased `name` is `n`:
    the declaration that a later one would overwrite, and so the one that stays.
  */
  function LastEntryType(entries: seq<XmlElement>, n: string): Option<string>
  {
    if entries == [] then None
    else
      var later := LastEntryType(entries[1..], n);
      if later.Some? then later
      else if "name" in entries[0].attributes && ToLower(entries[0].attributes["name"]) == n
              && "type" in entries[0].attributes then Some(entries[0].attributes["type"])
      else None
  }

  /** The `type` of the last `<rel>` across all `<relations>` blocks whose lower-cased `name` is `n`. */
  function LastDeclaredType(metas: seq<XmlElement>, n: string): Option<string>
  {
    if metas == [] then None
    else
      var later := LastDeclaredType(metas[1..], n);
      if later.Some? then later
      else if metas[0].tag == "relations" then LastEntryType(metas[0].children, n)
      else None
  }

  lemma {:induction false} AddRelationsValue(m: map<string, RstType>, entries: seq<XmlElement>, n: string)
    requires AddRelations(m, entries).Ok?
    ensures n !in EntryNames(entries) ==> LastEntryType(entries, n).None?
    ensures n in EntryNames(entries) ==>
      LastEntryType(entries, n).Some? && LastEntryType(entries, n).value in RstTypeLUT
      && n in AddRelations(m, entries).value && AddRelations(m, entries).value[n] == RstTypeLUT[LastEntryType(entries, n).value]
    decreases |entries|
  {
    if entries != [] {
      var r := AddRelation(m, entries[0]).value;
      AddRelationsValue(r, entries[1..], n);
      AddRelationsKeys(r, entries[1..]);
    }
  }

  lemma {:induction false} AddRelationBlocksValue(m: map<string, RstType>, metas: seq<XmlElement>, n: string)
    requires AddRelationBlocks(m, metas).Ok?
    ensures n !in DeclaredNames(metas) ==> LastDeclaredType(metas, n).None?
    ensures n in DeclaredNames(metas) ==>
      LastDeclaredType(metas, n).Some? && LastDeclaredType(metas, n).value in RstTypeLUT
      && n in AddRelationBlocks(m, metas).value && AddRelationBlocks(m, metas).value[n] == RstTypeLUT[LastDeclaredType(metas, n).value]
    decreases |metas|
  {
    if metas != [] {
      if metas[0].tag == "relations" {
        var r := AddRelations(m, metas[0].children).value;
        AddRelationBlocksValue(r, metas[1..], n);
        AddRelationsValue(m, metas[0].children, n);
        AddRelationsKeys(m, metas[0].children);
        AddRelationBlocksKeys(r, metas[1..]);
      } else {
        AddRelationBlocksValue(m, metas[1..], n);
      }
    }
  }

  /**
    A declared name is mapped to the kind of the `type` of its last declaration; "span",
    when no entry declares it, keeps SPAN.
  */
  lemma RelationsOfValues(header: XmlElement, n: string)
    requires RelationsOf(header).Ok?
    ensures n in DeclaredNames(header.children) ==>
      LastDeclaredType(header.children, n).Some? && LastDeclaredType(header.children, n).value in RstTypeLUT
      && n in RelationsOf(header).value && RelationsOf(header).value[n] == RstTypeLUT[LastDeclaredType(header.children, n).value]
    ensures n !in DeclaredNames(header.children) ==> LastDeclaredType(header.children, n).None?
  {
    AddRelationBlocksValue(map["span" := StructuralSpan], header.children, n);
  }

  lemma {:induction false} AddRelationsOk(m: map<string, RstType>, entries: seq<XmlElement>)
    ensures AddRelations(m, entries).Ok? <==> forall j :: 0 <= j < |entries| ==> ValidRelEntry(entries[j])
    decreases |entries|
  {
    if entries != [] {
      if AddRelation(m, entries[0]).Ok? {
        AddRelationsOk(AddRelation(m, entries[0]).value, entries[1..]);
        assert forall j :: 1 <= j < |entries| ==> entries[j] == entries[1..][j - 1];
      }
    }
  }

  lemma {:induction false} AddRelationBlocksOk(m: map<string, RstType>, metas: seq<XmlElement>)
    ensures AddRelationBlocks(m, metas).Ok? <==> ValidRelationBlocks(metas)
    decreases |metas|
  {
    if metas != [] {
      assert forall i :: 1 <= i < |metas| ==> metas[i] == metas[1..][i - 1];
      if metas[0].tag == "relations" {
        AddRelationsOk(m, metas[0].children);
        if AddRelations(m, metas[0].children).Ok? {
          AddRelationBlocksOk(AddRelations(m, metas[0].children).value, metas[1..]);
        }
      } else {
        AddRelationBlocksOk(m, metas[1..]);
      }
    }
  }

  /** `parseRelations` succeeds exactly when every entry of every `<relations>` block is a valid `<rel>`. */
  lemma RelationsOfOk(header: XmlElement)
    ensures RelationsOf(header).Ok? <==> ValidRelationBlocks(header.children)
  {
    AddRelationBlocksOk(map["span" := StructuralSpan], header.children);
  }

  /** The table `parseHeader` returns: that of the first `<header>` block. */
  function HeaderOf(xmlData: XmlElement): Result<map<string, RstType>, ParseError>
  {
    match FirstWithTag(xmlData.children, "header")
    case None => Err(InvalidRstFile(NoHeaderSection))
    case Some(header) => RelationsOf(header)
  }

  /** `parseHeader` */
  method ParseHeader(xmlData: XmlElement) returns (r: Result<map<string, RstType>, ParseError>)
    ensures r == HeaderOf(xmlData)
  {
    var i := 0;
    while i < |xmlData.children|
      invariant 0 <= i <= |xmlData.children|
      invariant FirstWithTag(xmlData.children, "header") == FirstWithTag(xmlData.children[i..], "header")
    {
      assert xmlData.children[i..][0] == xmlData.children[i];
      assert xmlData.children[i..][1..] == xmlData.children[i + 1..];
      if xmlData.children[i].tag == "header" {
        r := ParseRelations(xmlData.children[i]);
        return;
      }
      i := i + 1;
    }
    return Err(InvalidRstFile(NoHeaderSection));
  }

  // ---------------------------------------------------------------------------------------
  // Body: the entry list

  predicate IsNewline(c: char) { c == '\n' }

  /** The lower-cased `relname` attribute, if present. */
  function RelnameOf(e: XmlElement): Option<string>
  {
    if "relname" in e.attributes then Some(ToLower(e.attributes["relname"])) else None
  }

  /** `Segment(entry, number)` */
  function MakeSegment(e: XmlElement, number: int): Result<BodyEntry, ParseError>
  {
    if "id" !in e.attributes then Err(InvalidRstFile(IdMissing))
    else if e.text.None? then Err(InvalidRstFile(TextMissing))
    else Ok(Segment(e.attributes["id"], Attribute(e, "parent"), RelnameOf(e),
                    Strip(e.text.value, IsNewline), number))
  }

  /** `Group(entry)` */
  function MakeGroup(e: XmlElement): Result<BodyEntry, ParseError>
  {
    if "id" !in e.attributes then Err(InvalidRstFile(IdMissing))
    else if "type" !in e.attributes then Err(InvalidRstFile(TypeMissing))
    else Ok(Group(e.attributes["id"], Attribute(e, "parent"), RelnameOf(e), e.attributes["type"]))
  }

  /** The entries of a body block when `count` segments came before them. */
  function BodyEntries(es: seq<XmlElement>, count: int): Result<seq<BodyEntry>, ParseError>
    decreases |es|
  {
    if es == [] then Ok([])
    else if es[0].tag == "segment" then
      var s :- MakeSegment(es[0], count + 1);
      var rest :- BodyEntries(es[1..], count + 1);
      Ok([s] + rest)
    else if es[0].tag == "group" then
      var g :- MakeGroup(es[0]);
      var rest :- BodyEntries(es[1..], count);
      Ok([g] + rest)
    else Err(InvalidRstFile(InvalidBodyTag))
  }

  /** The list `parseBody` returns: the entries of the first `<body>` block. */
  function BodyOf(xmlData: XmlElement): Result<seq<BodyEntry>, ParseError>
  {
    match FirstWithTag(xmlData.children, "body")
    case None => Err(InvalidRstFile(NoBodySection))
    case Some(body) => BodyEntries(body.children, 0)
  }

  /** `done` put in front of the entries of a successful result. */
  function Prefixed(done: seq<BodyEntry>, r: Result<seq<BodyEntry>, ParseError>): Result<seq<BodyEntry>, ParseError>
  {
    match r
    case Ok(rest) => Ok(done + rest)
    case Err(e) => Err(e)
  }

  lemma PrefixedStep(done: seq<BodyEntry>, b: BodyEntry, r: Result<seq<BodyEntry>, ParseError>)
    ensures Prefixed(done, if r.Ok? then Ok([b] + r.value) else Err(r.error)) == Prefixed(done + [b], r)
  {
    if r.Ok? {
      assert done + ([b] + r.value) == (done + [b]) + r.value;
    }
  }

  /** The loop of `parseBody` over the elements of the body block. */
  method ParseEntries(xmlBlock: XmlElement) returns (r: Result<seq<BodyEntry>, ParseError>)
    ensures r == BodyEntries(xmlBlock.children, 0)
  {
    var entryList: seq<BodyEntry> := [];
    var currentSegmentID := 0;
    var j := 0;
    assert xmlBlock.children[0..] == xmlBlock.children;
    assert BodyEntries(xmlBlock.children, 0).Ok? ==> [] + BodyEntries(xmlBlock.children, 0).value == BodyEntries(xmlBlock.children, 0).value;
    while j < |xmlBlock.children|
      invariant 0 <= j <= |xmlBlock.children|
      invariant BodyEntries(xmlBlock.children, 0)
             == Prefixed(entryList, BodyEntries(xmlBlock.children[j..], currentSegmentID))
    {
      var entry := xmlBlock.children[j];
      assert xmlBlock.children[j..][0] == entry;
      assert xmlBlock.children[j..][1..] == xmlBlock.children[j + 1..];
      if entry.tag == "segment" {
        currentSegmentID := currentSegmentID + 1;
        var s := MakeSegment(entry, currentSegmentID);
        if s.Err? {
          return Err(s.error);
        }
        PrefixedStep(entryList, s.value, BodyEntries(xmlBlock.children[j + 1..], currentSegmentID));
        entryList := entryList + [s.value];
      } else if entry.tag == "group" {
        var g := MakeGroup(entry);
        if g.Err? {
          return Err(g.error);
        }
        PrefixedStep(entryList, g.value, BodyEntries(xmlBlock.children[j + 1..], currentSegmentID));
        entryList := entryList + [g.value];
      } else {
        return Err(InvalidRstFile(InvalidBodyTag));
      }
      j := j + 1;
    }
    assert entryList + [] == entryList;
    return Ok(entryList);
  }

  /** `parseBody` */
  method ParseBody(xmlData: XmlElement) returns (r: Result<seq<BodyEntry>, ParseError>)
    ensures r == BodyOf(xmlData)
  {
    var i := 0;
    while i < |xmlData.children|
      invariant 0 <= i <= |xmlData.children|
      invariant FirstWithTag(xmlData.children, "body") == FirstWithTag(xmlData.children[i..], "body")
    {
      assert xmlData.children[i..][0] == xmlData.children[i];
      assert xmlData.children[i..][1..] == xmlData.children[i + 1..];
      if xmlData.children[i].tag == "body" {
        r := ParseEntries(xmlData.children[i]);
        return;
      }
      i := i + 1;
    }
    return Err(InvalidRstFile(NoBodySection));
  }

  /** The number of `<segment>` elements among `es`. */
  function SegmentCount(es: seq<XmlElement>): nat
  {
    if es == [] then 0 else (if es[0].tag == "segment" then 1 else 0) + SegmentCount(es[1..])
  }

  lemma {:induction false} SegmentCountAppend(a: seq<XmlElement>, b: seq<XmlElement>)
    ensures SegmentCount(a + b) == SegmentCount(a) + SegmentCount(b)
  {
    if a != [] {
      assert (a + b)[1..] == a[1..] + b;
      SegmentCountAppend(a[1..], b);
    } else {
      assert a + b == b;
    }
  }

  /** An element `parseBody` turns into an entry without raising. */
  predicate ValidBodyEntry(e: XmlElement)
  {
    "id" in e.attributes
    && ((e.tag == "segment" && e.text.Some?) || (e.tag == "group" && "type" in e.attributes))
  }

  /** The entry built from `e` carries its attributes. */
  predicate EntryFrom(b: BodyEntry, e: XmlElement)
  {
    "id" in e.attributes && b.entryID == e.attributes["id"]
    && b.parent == Attribute(e, "parent") && b.relname == RelnameOf(e)
    && (b.Segment? <==> e.tag == "segment")
    && (b.Segment? ==> e.text.Some? && b.text == Strip(e.text.value, IsNewline))
    && (b.Group? ==> "type" in e.attributes && b.groupType == e.attributes["type"])
  }

  /** One step of `BodyEntries`: the entry of the first element, then those of the rest. */
  lemma BodyEntriesStep(es: seq<XmlElement>, count: int)
    requires es != [] && BodyEntries(es, count).Ok?
    ensures var c := if es[0].tag == "segment" then count + 1 else count;
      var r := BodyEntries(es, count).value;
      BodyEntries(es[1..], c).Ok? && |r| > 0 && r[1..] == BodyEntries(es[1..], c).value
      && EntryFrom(r[0], es[0]) && (r[0].Segment? ==> r[0].segmentID == c)
  {
  }

  /** The segments among the first `i + 1` elements: the first element's, then those among the next `i`. */
  lemma SegmentCountStep(es: seq<XmlElement>, i: nat)
    requires i < |es|
    ensures SegmentCount(es[..i + 1]) == (if es[0].tag == "segment" then 1 else 0) + SegmentCount(es[1..][..i])
  {
    assert es[..i + 1] == [es[0]] + es[1..][..i];
    SegmentCountAppend([es[0]], es[1..][..i]);
  }

  lemma {:induction false} BodyEntriesShape(es: seq<XmlElement>, count: int)
    requires BodyEntries(es, count).Ok?
    ensures var r := BodyEntries(es, count).value;
      |r| == |es|
      && forall i :: 0 <= i < |es| ==>
           EntryFrom(r[i], es[i]) && (r[i].Segment? ==> r[i].segmentID == count + SegmentCount(es[..i + 1]))
    decreases |es|
  {
    if es != [] {
      var c := if es[0].tag == "segment" then count + 1 else count;
      BodyEntriesStep(es, count);
      BodyEntriesShape(es[1..], c);
      var r := BodyEntries(es, count).value;
      var rest := BodyEntries(es[1..], c).value;
      forall i | 0 <= i < |es|
        ensures EntryFrom(r[i], es[i]) && (r[i].Segment? ==> r[i].segmentID == count + SegmentCount(es[..i + 1]))
      {
        SegmentCountStep(es, i);
        if i > 0 {
          assert r[i] == rest[i - 1] && es[i] == es[1..][i - 1];
          assert es[1..][..i] == es[1..][..(i - 1) + 1];
        } else {
          assert es[1..][..0] == [];
        }
      }
    }
  }

  /**
    Segments are numbered 1, 2, 3, ... in body order (the k-th `<segment>` element gets k),
    groups get no number, and each entry keeps the id, parent, relname and text or type of
    its element.
  */
  lemma BodyNumbering(xmlData: XmlElement)
    requires BodyOf(xmlData).Ok?
    ensures var body := FirstWithTag(xmlData.children, "body").value.children;
      var entries := BodyOf(xmlData).value;
      |entries| == |body|
      && forall i :: 0 <= i < |body| ==>
           EntryFrom(entries[i], body[i])
           && (entries[i].Segment? ==> entries[i].segmentID == SegmentCount(body[..i + 1]))
  {
    BodyEntriesShape(FirstWithTag(xmlData.children, "body").value.children, 0);
  }

  /** The entries of a non-empty list are there exactly when its first element is valid and the rest are there. */
  lemma BodyEntriesHead(es: seq<XmlElement>, count: int)
    requires es != []
    ensures BodyEntries(es, count).Ok? <==>
      ValidBodyEntry(es[0]) && BodyEntries(es[1..], if es[0].tag == "segment" then count + 1 else count).Ok?
  {
  }

  lemma {:induction false} BodyEntriesOk(es: seq<XmlElement>, count: int)
    ensures BodyEntries(es, count).Ok? <==> forall i :: 0 <= i < |es| ==> ValidBodyEntry(es[i])
    decreases |es|
  {
    if es != [] {
      var rest := es[1..];
      BodyEntriesHead(es, count);
      BodyEntriesOk(rest, if es[0].tag == "segment" then count + 1 else count);
      assert (forall i :: 0 <= i < |es| ==> ValidBodyEntry(es[i]))
        <==> ValidBodyEntry(es[0]) && forall i :: 0 <= i < |rest| ==> ValidBodyEntry(rest[i]) by {
        assert forall i :: 1 <= i < |es| ==> es[i] == rest[i - 1];
      }
    }
  }

  /**
    `parseBody` succeeds exactly when there is a `<body>` block and each of its elements is a
    `<segment>` with an id and text or a `<group>` with an id and a type.
  */
  lemma BodyOfOk(xmlData: XmlElement)
    ensures BodyOf(xmlData).Ok? <==>
      FirstWithTag(xmlData.children, "body").Some?
      && forall i :: 0 <= i < |FirstWithTag(xmlData.children, "body").value.children| ==>
           ValidBodyEntry(FirstWithTag(xmlData.children, "body").value.children[i])
  {
    if FirstWithTag(xmlData.children, "body").Some? {
      BodyEntriesOk(FirstWithTag(xmlData.children, "body").value.children, 0);
    }
  }

  /** A segment's text has no newline at either end. */
  lemma SegmentTextTrimmed(e: XmlElement, number: int)
    requires MakeSegment(e, number).Ok?
    ensures var t := MakeSegment(e, number).value.text;
      t != [] ==> t[0] != '\n' && t[|t| - 1] != '\n'
  {
    StripEnds(e.text.value, IsNewline);
  }
}
