# RST-Tace core in Dafny

RST-Tace compares two annotations of one text in Rhetorical Structure Theory (RST). The
annotations are `.rs3` XML documents. The pipeline has five stages, and this project models
each one and proves what it computes:

1. **Parsing** (`rstparser.dfy`, module `RstParser`). The header yields the table of relation
   names and their kinds: mono-nuclear, multi-nuclear or structural span. The body yields a flat
   list of body entries. Segments are numbered 1, 2, 3, … in document order.
2. **Tree building** (`treegenerator.dfy`, `treebuilder.dfy`, modules `TreeGeneration` and
   `TreeBuilder`).
   - `TreeGenerator` indexes the entries into three dictionaries: segments, satellites and
     children.
   - It then grows the discourse tree from the root with `__appendDependencies`:
     - it attaches satellites through mono-nuclear relations;
     - it links children through a span or a multi-nuclear relation;
     - it processes children recursively, sorts them by their first segment and gives each
       inner node the range of its children.
   - The tree is an arena: nodes, spans and relations are addressed by index, just as the
     Python objects are addressed by reference. The generator is a class whose fields those
     methods update.
3. **Flattening** (`reltablegenerator.dfy`, `relationstable.dfy`). `TableGenerator.run` turns
   the tree into a `RelTable` of relation records:
   - one record per mono-nuclear relation;
   - `k - 1` records per multi-nuclear group of `k` nuclei, made with pseudo nodes and the
     central subconstituent (the "anchors");
   - each of the two parts is then sorted stably by its key.
4. **Comparison** (`comparisontable.dfy`, `comptablegenerator.dfy`).
   - Every pair of records gets a matching distance with five levels, collected in a matrix.
   - An assignment of the records of one table to those of the other yields a
     `ComparisonTable`.
   - Each `Comparison` computes its equivalency flags once, when it is made.
5. **Output** (`tableoutputs.dfy`, `csvloggers.dfy`). The CSV rows of both tables follow the
   9-column relation header and the 29-column comparison header:
   - a comparison without matching takes two rows;
   - row IDs run 1, 2, 3, …;
   - the loggers write nothing when their path is blank.

`wrappers.dfy`, `strings.dfy` and `sequences.dfy` hold what the Python code takes from the
language:
- `Option`, `Result` and `Outcome`;
- `str(n)`, `join`, `split`, `strip` and `lower`;
- `min`, `max` and the stable `list.sort(key=...)`.

Errors are values. `ParseError` distinguishes two kinds:
- `InvalidRstFile(reason)` is raised by the code on purpose.
- `RuntimeFailure(kind)` is a Python exception that the code does not guard against:
  `KeyError`, `AttributeError`, `TypeError`, `IndexError` or `RecursionError`.

Four facts about the code that the model keeps:
- No root. When no entry is a root, `run` returns an empty tree, not an error
  (rsttace/input/parser.py:166-168).
- Unknown relation name. When an entry names a relation the header does not declare, the
  lookup `self.relations[...]` fails with a `KeyError` (rsttace/input/parser.py:189, 242, 247);
  it is not turned into an `InvalidRstFile`.
- Central subconstituent. A multi-nuclear record's central subconstituent is made from the
  anchors of the remaining nuclei *including* the current one, which is taken off only after
  (rsttace/core/reltablegenerator.py:32-34).
- Ordering. A record has no position field; both parts of the table are sorted by the key
  `0.99999 * minID + 0.00001 * maxID` of its central subconstituent
  (rsttace/core/reltablegenerator.py:48-49, 54-56).

## Model

| member | source | states |
|---|---|---|
| RstParser.FirstWithTag | rsttace/input/parser.py:113-118 | the first child with the tag, and none exactly when no child has it |
| RstParser.ParseHeader | rsttace/input/parser.py:113-118 | the loop computes `HeaderOf`: the relations of the first `<header>` block, or `NoHeaderSection` without one |
| RstParser.ParseRelations | rsttace/input/parser.py:121-136 | the nested loops compute `RelationsOf`, whose keys, values and success are stated by the lemmas below |
| RstParser.RelationsOfKeys | rsttace/input/parser.py:121-136 | the table holds "span" and exactly the declared names, all lower case; "span" is SPAN unless redeclared |
| RstParser.RelationsOfOk | rsttace/input/parser.py:121-136 | parsing succeeds exactly when every entry is a `<rel>` with a name and a known type |
| RstParser.AddRelationsKeys | rsttace/input/parser.py:125-132 | one block adds exactly its entry names; other keys keep their kind |
| RstParser.AddRelationBlocksKeys | rsttace/input/parser.py:123-135 | all blocks add exactly the declared names; other keys keep their kind |
| RstParser.RelationsOfValues | rsttace/input/parser.py:123-135 | a declared name is mapped to `rstTypeLUT` of the `type` of its last declaration across all blocks (the later assignment overwrites) |
| RstParser.AddRelationsValue | rsttace/input/parser.py:125-130 | within one block, a name ends with the kind of its last entry; an undeclared name has no last entry |
| RstParser.AddRelationBlocksValue | rsttace/input/parser.py:123-130 | across blocks, a name ends with the kind of its last entry in the last block declaring it |
| RstParser.EntryNamesLowerCase | rsttace/input/parser.py:128 | every stored name is lower case |
| RstParser.DeclaredNamesLowerCase | rsttace/input/parser.py:123-130 | every name declared in any block is lower case |
| RstParser.AddRelationsOk | rsttace/input/parser.py:125-134 | one block is accepted exactly when each of its entries is valid |
| RstParser.AddRelationBlocksOk | rsttace/input/parser.py:123-135 | all blocks are accepted exactly when each of their entries is valid |
| RstParser.ParseEntries | rsttace/input/parser.py:142-154 | the counter loop computes `BodyEntries` from count 0 |
| RstParser.ParseBody | rsttace/input/parser.py:139-156 | `parseBody` computes `BodyOf`: the entries of the `<body>` block, or `NoBodySection` |
| RstParser.BodyEntriesShape | rsttace/input/parser.py:145-152 | one entry per element, made from it, with the segment number `count` plus the segments so far |
| RstParser.BodyNumbering | rsttace/input/parser.py:139-156 | segments are numbered 1, 2, 3 in body order, and each entry keeps its element's fields |
| RstParser.BodyEntriesOk | rsttace/input/parser.py:145-152 | the loop succeeds exactly when every element is a valid segment or group |
| RstParser.BodyOfOk | rsttace/input/parser.py:139-156 | `parseBody` succeeds exactly when there is a body block of valid elements |
| RstParser.SegmentTextTrimmed | rsttace/input/parser.py:62-70 | a segment's text has no newline at either end |
| RstTreeModel.EmptyTree | rsttace/core/rsttree.py:51-61 | a tree with no root and no relations is well formed and keeps its relation table |
| TreeGeneration.NewNode | rsttace/input/parser.py:282-287 | a new node is unlinked; a segment's node gets its text and the range [n, n]; a group's gets neither |
| TreeGeneration.IndexEntriesOk | rsttace/input/parser.py:186-204 | indexing succeeds exactly when names are known, there is at most one root and at most one satellite per parent |
| TreeGeneration.IndexEntryChildren | rsttace/input/parser.py:195-196 | one entry adds its id to its parent's children exactly when its relation is a known span or multi-nuclear one |
| TreeGeneration.IndexEntriesChildren | rsttace/input/parser.py:186-204 | the children of a parent are the ids of its child entries, in entry order |
| TreeGeneration.IndexEntriesSiblings | rsttace/input/parser.py:188-194 | a parent has a satellite entry exactly when some entry is its mono-nuclear satellite, and it is that entry |
| TreeGeneration.IndexEntriesRoot | rsttace/input/parser.py:197-202 | there is a root exactly when some entry has no parent, and it is that entry |
| TreeGeneration.IndexEntriesSegmentKeys | rsttace/input/parser.py:187 | the segment dictionary's keys are exactly the entry ids |
| TreeGeneration.IndexEntriesLastEntry | rsttace/input/parser.py:187 | an id maps to its last entry |
| TreeGeneration.Dictionaries | rsttace/input/parser.py:177-204 | all of the above from empty dictionaries: when indexing fails and, when not, what each dictionary and the root are |
| TreeBuilder.SatelliteLinks | rsttace/input/parser.py:209-222 | attaching a satellite keeps every index in range and every old span growing |
| TreeBuilder.SharedRelname | rsttace/input/parser.py:229-240 | the shared name is that of some child (or the start), and each child has it or the empty name |
| TreeBuilder.SortedChildren | rsttace/input/parser.py:259-262 | the sorted children are the same children, in range, ordered by first segment |
| TreeBuilder.RangeAfterSort | rsttace/input/parser.py:263-264 | the node gets the range from its first child's first to its last child's last segment |
| TreeBuilder.GroupRootUnaffected | rsttace/input/parser.py:282-287 | for a group, `createNewNode` and `RstNode()` give the same node |
| TreeBuilder.TreeGenerator.constructor | rsttace/input/parser.py:160-163 | a new generator keeps the relations and has no nodes, spans or relations |
| TreeBuilder.TreeGenerator.CreateDictionaries | rsttace/input/parser.py:177-204 | the loop fills the three dictionaries and the root as `IndexEntries` says, or returns its error |
| TreeBuilder.TreeGenerator.AddNode | rsttace/input/parser.py:283 | a node is appended at the end |
| TreeBuilder.TreeGenerator.AttachSatellite | rsttace/input/parser.py:209-222 | a new mono-nuclear relation links satellite and node both ways, and the satellite joins the node's span; a satellite without relname is an error |
| TreeBuilder.TreeGenerator.CreateChildren | rsttace/input/parser.py:227-240 | one new node per child id, and the shared relation name or its error |
| TreeBuilder.TreeGenerator.SetParents | rsttace/input/parser.py:245-251 | every child gets the container as parent; nothing else changes |
| TreeBuilder.TreeGenerator.LinkChildren | rsttace/input/parser.py:241-254 | a span for SPAN, a multi-nuclear relation for MULTI_NUCLEAR, an error for a mono-nuclear kind or unknown name |
| TreeBuilder.TreeGenerator.Reorder | rsttace/input/parser.py:261-262 | the container's children are replaced by the sorted list |
| TreeBuilder.TreeGenerator.SetRange | rsttace/input/parser.py:263-264 | only the node's range changes |
| TreeBuilder.TreeGenerator.SortChildren | rsttace/input/parser.py:259-264 | children are stably sorted by first segment and the node covers their range; a child without range is a `TypeError` |
| TreeBuilder.TreeGenerator.ProcessSatellite | rsttace/input/parser.py:208-224 | the satellite is attached and processed, and the node gains only that link |
| TreeBuilder.TreeGenerator.ProcessEach | rsttace/input/parser.py:255-257 | each child is processed in turn; only those and new nodes change, and each child gets a range |
| TreeBuilder.TreeGenerator.LinkNewChildren | rsttace/input/parser.py:226-254 | the children and their span or multi-nuclear relation are created, linked to the node |
| TreeBuilder.TreeGenerator.BuildChildren | rsttace/input/parser.py:226-257 | the children are linked and processed; the container holds only later nodes |
| TreeBuilder.TreeGenerator.ProcessChildren | rsttace/input/parser.py:226-264 | after linking, processing and sorting, the node covers the range of its children |
| TreeBuilder.TreeGenerator.FinishNode | rsttace/input/parser.py:226-279 | the children part, then a group whose kind differs from its children's is `WrongEntryType` |
| TreeBuilder.TreeGenerator.AppendDependencies | rsttace/input/parser.py:206-279 | satellite and children linked as the dictionaries say, new nodes get ranges, depth bound gives `RecursionError` |
| TreeBuilder.TreeGenerator.Run | rsttace/input/parser.py:165-175 | the dictionary errors, an empty tree without a root, else a tree from the root whose kind matches its children |
| TreeBuilder.TreeGenerator.RunAsWritten | rsttace/input/parser.py:165-175 | as above with the bare root node: a group root gets the node `Run` gives it (`GroupRootUnaffected`), and the tree is well formed; a segment root has no range and the tree is not well formed; every node but the root has a range and no node an empty one |
| TreeBuilder.ParseDocument | rsttace/input/parser.py:32-36 | `<rst>` root required, then the header's and the body's errors in order; success gives both parsed parts |
| TreeBuilder.Read | rsttace/input/parser.py:29-40 | `<rst>` root required, then header, body and index errors in order, an empty tree without root; a result has the header's relations and is well formed exactly when there is no root or the root entry is a group; its links are in range, only the root may lack a segment range and no node has an empty one, so `RelTableGeneration.Run` accepts it |
| TreeBuilder.ReadCorrected | rsttace/input/parser.py:29-40 | the same errors, with the corrected `run`: every result is a well-formed tree over the header's relations |
| RelationsTable.RelTable.constructor | rsttace/core/relationstable.py:23-24 | a new table is empty |
| RelationsTable.RelTable.Get | rsttace/core/relationstable.py:26-27 | the record in insertion position `index` |
| RelationsTable.RelTable.Append | rsttace/core/relationstable.py:29-30 | the record goes at the end and every earlier one keeps its place |
| RelationsTable.RelTable.Sort | rsttace/core/relationstable.py:32-33 | a permutation into key order that keeps the order of equal keys |
| RelationsTable.RelTable.Length | rsttace/core/relationstable.py:35-36 | the number of records |
| RelationsTable.RelTable.Elements | rsttace/core/relationstable.py:38-39 | the records in insertion order |
| RelationsTable.RelTable.Add | rsttace/core/relationstable.py:41-45 | a new table with both tables' records in order, neither operand changed |
| RelTableGeneration.ExtractRelElementRange | rsttace/core/reltablegenerator.py:59-65 | the element's bounds are segments of the node enclosing all of them; leaf exactly when it has text |
| RelTableGeneration.ExtractMonoNuclearRelation | rsttace/core/reltablegenerator.py:97-102 | the relation of the first child of the node's span, if there is a span; none otherwise |
| RelTableGeneration.AnchorsAt | rsttace/core/reltablegenerator.py:84-94 | the anchors of a run of nodes are their anchors in order |
| RelTableGeneration.ExtractCentralSubconstituent | rsttace/core/reltablegenerator.py:84-94 | the loop builds the list of anchors of the nodes, in order |
| RelTableGeneration.SegmentsOfContains | rsttace/core/reltablegenerator.py:72-75 | the collected segments contain every segment of every node |
| RelTableGeneration.SegmentsOfFrom | rsttace/core/reltablegenerator.py:72-75 | every collected segment is a segment of some node |
| RelTableGeneration.CreatePseudoNode | rsttace/core/reltablegenerator.py:68-81 | the loop builds `PseudoNode`, whose meaning `PseudoNodeCovers` states |
| RelTableGeneration.PseudoNodeCovers | rsttace/core/reltablegenerator.py:68-81 | the pseudo node's range encloses every node's and its ends are ends of some nodes; one node is itself |
| RelTableGeneration.PseudoNodeBounds | rsttace/core/reltablegenerator.py:71-78 | min and max of all segments enclose each node's range |
| RelTableGeneration.PseudoNodeEnds | rsttace/core/reltablegenerator.py:71-78 | min and max of all segments are ends of some node |
| RelTableGeneration.MonoRecordShape | rsttace/core/reltablegenerator.py:14-25 | name, kind, satellite constituent, nuclear attachment point and the single anchor of a mono record |
| RelTableGeneration.GroupRecordConstituent | rsttace/core/reltablegenerator.py:37-42 | record `i` of a group is named after it, multi-nuclear, with child `i` as nuclear constituent |
| RelTableGeneration.GroupRecordAttachment | rsttace/core/reltablegenerator.py:30-45 | the attachment point is the last child, or a non-leaf range exactly spanning the later children |
| RelTableGeneration.GroupRecordAnchors | rsttace/core/reltablegenerator.py:32-34 | record `i`'s anchors are those of children `i` to the last, in order |
| RelTableGeneration.NextGroupRecord | rsttace/core/reltablegenerator.py:31-45 | one pass of the deque loop makes the record of the front child |
| RelTableGeneration.AppendGroupRecords | rsttace/core/reltablegenerator.py:29-45 | the deque loop appends the records of the group in order |
| RelTableGeneration.Run | rsttace/core/reltablegenerator.py:11-51 | for a tree with links in range: a new table equal to `RelationTable(t)` exactly when every node `run` reads has a segment range (`TableReady`), otherwise `RuntimeFailure(TypeError)`, raised by the reads of lines 20-23 and 41-44 in `min` (line 61) or in the loop over the segments (line 74) |
| RelTableGeneration.WellFormedTableReady | rsttace/core/reltablegenerator.py:11-51 | a well-formed tree has every range `run` reads |
| RelTableGeneration.TableReadyBesidesRoot | rsttace/core/reltablegenerator.py:14-45 | when only the root may lack a range, `run` succeeds exactly when the root has one or is in no mono-nuclear relation and no group of two or more |
| RelTableGeneration.LoneSegmentTable | rsttace/core/reltablegenerator.py:11-51 | the bare-root tree of a one-segment body is accepted and gives the empty table |
| RelTableGeneration.RootSatelliteNotReady | rsttace/core/reltablegenerator.py:14-23 | a bare root with a satellite is read as the nucleus of its relation, so `run` raises `TypeError` |
| RelTableGeneration.MultiRecordsLength | rsttace/core/reltablegenerator.py:27-45 | `k - 1` multi records per group of `k` children |
| RelTableGeneration.MultiRecordsAt | rsttace/core/reltablegenerator.py:27-45 | record `i` of group `q` follows the records of the groups before it |
| RelTableGeneration.MultiRecordsPrefix | rsttace/core/reltablegenerator.py:27-45 | the records of the first groups stay the start of the records as more groups are processed |
| RelTableGeneration.MultiRecordsLast | rsttace/core/reltablegenerator.py:27-45 | record `i` of the newest group sits right after the records of all groups before it |
| RelTableGeneration.RelationTableLength | rsttace/core/reltablegenerator.py:11-51 | table length is the mono relations plus `k - 1` per group |
| RelTableGeneration.EmptyTreeTable | rsttace/core/reltablegenerator.py:11-51 | an empty tree gives an empty table |
| RelTableGeneration.MultiRecordsAreMulti | rsttace/core/reltablegenerator.py:39 | every generated group record is multi-nuclear |
| RelTableGeneration.SortedMembers | rsttace/core/reltablegenerator.py:48-49 | sorting keeps exactly the records that were there |
| RelTableGeneration.MonoBeforeMulti | rsttace/core/reltablegenerator.py:47-51 | record `i` is multi-nuclear exactly when `i` is at least the number of mono relations |
| RelTableGeneration.RelationTableGroupsSorted | rsttace/core/reltablegenerator.py:47-56 | each part is a permutation of its records, sorted by key and stable |
| ComparisonModel.DistanceValues | rsttace/core/comparisontable.py:5-10 | the values 0 to 4 in declaration order, and each value names its distance |
| ComparisonModel.DistanceOfValue | rsttace/core/comparisontable.py:5-10 | a distance exists exactly for the values 0 to 4 |
| ComparisonModel.CompareRelElemIgnoresLeaf | rsttace/core/comparisontable.py:62-66 | elements compare equal exactly when equal with the leaf flag ignored |
| ComparisonModel.NuclearityDirection | rsttace/core/comparisontable.py:78-86 | direction 1: C before A; 2: A before C; 0: the ranges share a segment |
| ComparisonModel.NewComparison | rsttace/core/comparisontable.py:32-44 | both records and the distance kept, and the equivalency computed from them |
| ComparisonModel.EquivalencySymmetric | rsttace/core/comparisontable.py:38-76 | swapping the records changes no flag |
| ComparisonModel.EquivalencyReflexive | rsttace/core/comparisontable.py:38-76 | a record agrees with itself in every dimension |
| ComparisonModel.NuclearityOfKinds | rsttace/core/comparisontable.py:68-86 | two multi records agree in both flags; a mono and a multi never agree in kind |
| ComparisonModel.ComparisonTable.constructor | rsttace/core/comparisontable.py:92-94 | a new table is empty |
| ComparisonModel.ComparisonTable.Get | rsttace/core/comparisontable.py:96-97 | the comparison in insertion position `index` |
| ComparisonModel.ComparisonTable.Append | rsttace/core/comparisontable.py:99-100 | the comparison goes at the end and every earlier one keeps its place |
| ComparisonModel.ComparisonTable.Length | rsttace/core/comparisontable.py:102-103 | the number of comparisons |
| ComparisonModel.ComparisonTable.Elements | rsttace/core/comparisontable.py:105-106 | the comparisons in insertion order |
| CompTableGeneration.CheckForEqualityIgnoresFlags | rsttace/core/comptablegenerator.py:138-141 | equality of range only, symmetric, implied by `Comparison` equality |
| CompTableGeneration.CheckForEqualACCompares | rsttace/core/comptablegenerator.py:134-135 | A of the first against C of the second |
| CompTableGeneration.AllHaveEqualRanges | rsttace/core/comptablegenerator.py:99-119 | every element has a match exactly when its ranges are among the other's |
| CompTableGeneration.NoneEqualRanges | rsttace/core/comptablegenerator.py:99-119 | no matches exactly when the ranges are disjoint |
| CompTableGeneration.EqualCSMeaning | rsttace/core/comptablegenerator.py:99-119 | allEqual: same range sets; noneEqual: disjoint; both exactly when both are empty |
| CompTableGeneration.NoneHaveEqualSymmetric | rsttace/core/comptablegenerator.py:99-119 | no element of either list has a match exactly when no pair of elements matches |
| CompTableGeneration.FindEqual | rsttace/core/comptablegenerator.py:105-107 | the inner loop finds whether some element has the same range |
| CompTableGeneration.CheckForEqualCS | rsttace/core/comptablegenerator.py:99-119 | the nested loops compute both flags as `AllEqualCS` and `NoneEqualCS` |
| CompTableGeneration.CalcDistance | rsttace/core/comptablegenerator.py:62-81 | the cascade computes `Distance`, characterised by `DistanceLevels` |
| CompTableGeneration.DistanceLevels | rsttace/core/comptablegenerator.py:62-81 | each level holds exactly when its condition does and no earlier one's |
| CompTableGeneration.DistanceSymmetric | rsttace/core/comptablegenerator.py:62-135 | the distance does not depend on the order of the records |
| CompTableGeneration.DistanceReflexive | rsttace/core/comptablegenerator.py:62-81 | a record is at distance `COMPLETE_SAME_CS` from itself |
| CompTableGeneration.MonoNeverPartial | rsttace/core/comptablegenerator.py:63-81 | two mono records never match partially |
| CompTableGeneration.GenerateDistMatrix | rsttace/core/comptablegenerator.py:50-59 | a fresh length1 × length2 matrix whose entry [i, j] is the distance of records i and j |
| CompTableGeneration.BuildComparisonTable | rsttace/core/comptablegenerator.py:25-44 | one comparison per assignment pair, in order, at its matrix entry |
| CompTableGeneration.Evaluate | rsttace/core/comptablegenerator.py:12-20 | one comparison per record of the smaller table, at its distance, no record used twice |
| CompTableGeneration.EmptyTablesAssignment | rsttace/core/comptablegenerator.py:12-20 | two empty tables have only the empty assignment |
| TableOutputs.RelCsvHeader | rsttace/output/tableoutputs.py:219-222 | the relation header has 9 columns |
| TableOutputs.CompCsvHeader | rsttace/output/tableoutputs.py:225-235 | the comparison header has 29 columns |
| TableOutputs.RelElementStringRoundTrip | rsttace/output/tableoutputs.py:258-271 | "m" or "m-n" reads back as the range; with nuclearity it ends in "N" exactly for a nucleus |
| TableOutputs.CreateStringForCentralSubconstituent | rsttace/output/tableoutputs.py:274-281 | the loop computes `CSString`, the ranges joined by a vertical bar |
| TableOutputs.CSStringRoundTrip | rsttace/output/tableoutputs.py:274-281 | splitting the string at the vertical bar gives back every range in order |
| TableOutputs.CSString | rsttace/output/tableoutputs.py:274-281 | an empty list gives the empty string |
| TableOutputs.NuclearityStringIsDirection | rsttace/output/tableoutputs.py:284-292 | the arrow is that of the direction class |
| TableOutputs.MatchingStringInjective | rsttace/output/tableoutputs.py:295-305 | different distances have different labels |
| TableOutputs.ElementColumnsReadBack | rsttace/output/tableoutputs.py:242-247 | the three columns give back range and nuclearity |
| TableOutputs.RelCsvEntry | rsttace/output/tableoutputs.py:238-251 | a relation entry has 9 fields, as the header |
| TableOutputs.RelCsvEntryReadsBack | rsttace/output/tableoutputs.py:238-251 | name, both ranges and both nuclearities read back column by column |
| TableOutputs.EmptyRelCsvEntry | rsttace/output/tableoutputs.py:254-255 | nine blanks |
| TableOutputs.EmptyEvaluation | rsttace/output/tableoutputs.py:308-309 | six blanks |
| TableOutputs.AgreementLetters | rsttace/output/tableoutputs.py:312-349 | a letter appears exactly when its dimension agrees, in the order N, R, C, A |
| TableOutputs.AgreementInOrder | rsttace/output/tableoutputs.py:318-346 | adjacent letters go up in the order N, R, C, A |
| TableOutputs.DisagreementCases | rsttace/output/tableoutputs.py:318-335 | "N/S" or "N/N-N/S" by kind when the direction differs, "≠R" after ", " when names differ |
| TableOutputs.DisagreementReports | rsttace/output/tableoutputs.py:312-349 | empty exactly when direction and name agree; ends in "≠R" exactly when names differ |
| TableOutputs.EvaluationStrings | rsttace/output/tableoutputs.py:312-349 | six evaluation items |
| TableOutputs.CreateEvaluationString | rsttace/output/tableoutputs.py:312-349 | the piecewise building computes `EvaluationStrings` |
| TableOutputs.FieldsLayout | rsttace/output/tableoutputs.py:225-235 | each group of a row sits under its header columns, 29 in all |
| TableOutputs.RowsFor | rsttace/output/tableoutputs.py:188-208 | two rows for no matching, one otherwise, with consecutive IDs |
| TableOutputs.RowsForColumns | rsttace/output/tableoutputs.py:188-208 | unmatched: record 1 with blanks, then blanks with record 2; else both with the evaluation |
| TableOutputs.RowsUpToShape | rsttace/output/tableoutputs.py:181-208 | rows so far: one per comparison plus one per unmatched, IDs 1, 2, 3 |
| TableOutputs.DataframeStep | rsttace/output/tableoutputs.py:181-208 | the `biasID` counter gives the next comparison the next free ID |
| TableOutputs.ComparisonRowsShape | rsttace/output/tableoutputs.py:177-210 | all rows: counted, numbered from 1 without gaps, as wide as the header |
| TableOutputs.CreateComparisonDataframe | rsttace/output/tableoutputs.py:177-210 | the loop renders `ComparisonRows` |
| TableOutputs.CreateComparisonCsvRows | rsttace/output/tableoutputs.py:183-208 | the loop body renders the rows of one comparison |
| TableOutputs.RelationRowsShape | rsttace/output/tableoutputs.py:169-174 | one header-wide row per record, in table order |
| TableOutputs.CreateRelationsDataframe | rsttace/output/tableoutputs.py:169-174 | the loop builds `RelationRows` |
| TableOutputs.IsNotEmpty | rsttace/output/tableoutputs.py:30-32 | true exactly when some character is not whitespace |
| CsvLoggers.CsvFile.constructor | rsttace/output/__init__.py:27-28 | a new file holds no rows |
| CsvLoggers.CsvFile.WriteRow | rsttace/output/__init__.py:29 | the row follows the rows before it |
| CsvLoggers.WriteStep | rsttace/output/__init__.py:66-93 | writing one comparison's rows extends the file to the next comparison, IDs carried on |
| CsvLoggers.RelTableLogger.constructor | rsttace/output/__init__.py:19-21 | the output path is kept |
| CsvLoggers.RelTableLogger.Write | rsttace/output/__init__.py:23-32 | no file for a blank path; else the header then one row per record |
| CsvLoggers.RelTableLogger.WriteRelations | rsttace/output/__init__.py:30-32 | the loop writes one row per record, in table order |
| CsvLoggers.CompTableLogger.constructor | rsttace/output/__init__.py:54-56 | the output path is kept |
| CsvLoggers.CompTableLogger.Write | rsttace/output/__init__.py:58-93 | no file for a blank path; else at path + ".csv" the header then the comparison rows |
| CsvLoggers.CompTableLogger.WriteComparisons | rsttace/output/__init__.py:66-93 | the loop writes the rows of every comparison, numbered from 1 |
| CsvLoggers.CompTableLogger.WriteComparison | rsttace/output/__init__.py:68-93 | one comparison's rows, two when unmatched |
| Strings.NatToString | rsttace/output/tableoutputs.py:242-246 | `str(n)` is a non-empty string of digits |
| Strings.NatToStringRoundTrip | rsttace/output/tableoutputs.py:242-246 | the digits read back as the number |
| Strings.NatToStringInjective | rsttace/output/tableoutputs.py:190 | different IDs are written differently |
| Strings.IntToString | rsttace/output/tableoutputs.py:258-263 | `str(i)` is non-empty, digits for a non-negative `i` |
| Strings.JoinSnoc | rsttace/output/tableoutputs.py:274-281 | one more item adds one separator |
| Strings.SplitJoin | rsttace/output/tableoutputs.py:274-281 | splitting what was joined gives back the items |
| Strings.StripEnds | rsttace/input/parser.py:66 | neither end of a stripped string is stripped |
| Strings.StripNonEmpty | rsttace/output/tableoutputs.py:30-32 | stripping leaves something exactly when some character is kept |
| Strings.ToLower | rsttace/input/parser.py:50 | each ASCII letter `A`-`Z` lower-cased, every other character kept, the length kept |
| Strings.ToLowerIdempotent | rsttace/input/parser.py:128 | no upper-case letter is left and lower-casing twice is once |
| Sequences.SeqMin | rsttace/core/reltablegenerator.py:61 | an element not above any other |
| Sequences.SeqMax | rsttace/core/reltablegenerator.py:62 | an element not below any other |
| Sequences.StableSortPermutes | rsttace/core/relationstable.py:32-33 | the sort is a permutation |
| Sequences.StableSortSorted | rsttace/core/relationstable.py:32-33 | the result is ordered by the key |
| Sequences.StableSortKeepsOrderOfEqualKeys | rsttace/core/relationstable.py:32-33 | equal keys keep their order |
| Sequences.StableSortOfSorted | rsttace/core/relationstable.py:32-33 | an ordered list stays as it is |

## Left out

- I/O: reading files and parsing XML, including `fileExists`, `readFile`, `et.parse` and the file check of `RstTreeParser` (rsttace/input/parser.py:21-27, 100-110). Parsing starts from an already parsed element tree.
- CSV details: the quoting and encoding of the CSV writer, and whether a file can be opened. A file is the list of rows written to it.
- pandas, tabulate and the console output. This covers the logger and printer classes of rsttace/output/tableoutputs.py:16-163, among them the evaluation file and `createEvaluationDataframe`. The loggers are modelled once, from rsttace/output/__init__.py.
- `RelTableCliOutput`, `CompTableCliOutput` (an unfinished stub in the source) and the dummy outputs only print or do nothing.
- The helpers of rsttace/output/__init__.py:131-242 repeat those of rsttace/output/tableoutputs.py:238-349 and are modelled once, in `TableOutputs`.
- `linear_sum_assignment` (rsttace/core/comptablegenerator.py:22-23) is a foreign library. `Evaluate` takes its result as parameters, constrained by `IsAssignment`: pairs in range, no index twice, one pair per record of the smaller table. Optimality is not modelled.
- `compTable.runStatAnalysis()` (rsttace/core/comptablegenerator.py:43) is not modelled. `ComparisonTable` (rsttace/core/comparisontable.py:89-106) defines no such method, so as written the call raises `AttributeError`; `BuildComparisonTable` and `Evaluate` return the table built before that call.
- RelTableGeneration.Run: requires that no node has an empty `segmentID` list, where `min([])` would raise `ValueError`; `TreeBuilder.Read` ensures its trees have none. The `TypeError` is decided before the loops instead of at the failing read; the result is the same, since the tables built so far are dropped with the exception.
- Strings.ToLower: lower-cases only the ASCII letters `A`-`Z`. Python's `str.lower()` also maps other Unicode letters, and some of them to more than one character, so the length changes it can make are not modelled.
- The distance matrix holds `MatchingDistance` values instead of numpy floats.
- The sort key of `sortRels` is the integer 99999 · min + max rather than the float 0.99999 · min + 0.00001 · max. The two order the same for segment numbers below 99999.
- Recursion depth: `TreeBuilder.TreeGenerator.AppendDependencies` recurses with a fuel bound of the number of entries. Running out is `RecursionError`, which stands in for Python's interpreter limit and the endless recursion on cyclic parent chains.
- RelationsTable.RelTable.Get: only indices in range; a negative index (counting from the end) and `IndexError` are not modelled.
- ComparisonModel.ComparisonTable.Get: only indices in range, as for `RelTable.Get`.
- TableOutputs.RelElementStringRoundTrip: stated for non-negative segment IDs only, which is every ID the parser produces.
- TableOutputs.CSStringRoundTrip: for non-empty lists with non-negative segment IDs; the empty list's string is stated by `CSString`.
- TableOutputs.RelCsvEntryReadsBack: for non-negative segment IDs; the first column (the CS string) is covered by `CSStringRoundTrip`.
- TableOutputs.ElementColumnsReadBack: for non-negative segment IDs.
- CompTableGeneration.BuildComparisonTable: requires in-range indices and no more first-table indices than second-table ones, where Python would raise `IndexError`.
- `Relation()` built with an empty central subconstituent and filled in field by field is not modelled; records are built whole.
- The superseded anytree-based revisions (rsttace/core/eval.py, rsttace/input/parser_old.py), the command line, the controller, the set and evaluation table generators, and setup.py are not part of this model.

## Findings

| source | as written | input that shows it | evidently intended | confidence | as-written member | corrected member |
|---|---|---|---|---|---|---|
| rsttace/input/parser.py:165-175 | `run` creates the root as a bare `RstNode()` (line 170), while every other node is made by `createNewNode` | a body whose root entry is a segment, e.g. a single `<segment id="1">` without parent: the root has no text and no segment range, so the tree is not well formed, and `TableGenerator` fails on `min(None)` when the root has a satellite (`RelTableGeneration.RootSatelliteNotReady`) | the root made by `createNewNode` like every other node | not executed | TreeBuilder.TreeGenerator.RunAsWritten | TreeBuilder.TreeGenerator.Run |
| rsttace/input/parser.py:29-40 | `read` returns what `run` builds (line 36), so its trees have the bare root of line 170 | `<rst><header><relations><rel name="elab" type="rst"/></relations></header><body><segment id="1">A</segment><segment id="2" parent="1" relname="elab">B</segment></body></rst>`: the root is segment 1, which gets no text and no segment range | every tree `read` returns well formed | not executed | TreeBuilder.Read | TreeBuilder.ReadCorrected |
