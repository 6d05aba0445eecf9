/**
  The rows that the output writes for the relation table and the comparison table
  (rsttace/output/tableoutputs.py, support functions). The same helpers appear, character
  for character, in rsttace/output/__init__.py; they are modelled once, here.
  - A relation record becomes a 9-field row under a 9-column header.
  - A comparison becomes one 29-field row, or two when it is `NO_MATCHING`, with row IDs
    1, 2, 3, ... and no gaps.
*/
module TableOutputs {
  import opened Wrappers
  import opened Strings
  import opened RelationsTable
  import opened ComparisonModel

  /** `createRelCsvHeader` */
  function RelCsvHeader(): (h: seq<string>)
    ensures |h| == 9
  {
    ["CS", "Relation", "Nuc", "C1", "C2", "CN", "A1", "A2", "AN"]
  }

  /** `createCompCsvHeader` */
  function CompCsvHeader(): (h: seq<string>)
    ensures |h| == 29
  {
    ["ID", "",
     "CS-A", "Relation-A", "Nuc-A", "C1-A", "C2-A", "CN-A", "A1-A", "A2-A", "AN-A",
     "",
     "CS-B", "Relation-B", "Nuc-B", "C1-B", "C2-B", "CN-B", "A1-B", "A2-B", "AN-B",
     "", "Matching",
     "N", "R", "C", "A", "Agreement", "Disagreement"]
  }

  /** `createStringForRelElement(relElem, writeNuclearity)` */
  function RelElementString(relElem: RelElement, writeNuclearity: bool): string
  {
    var numberStr :=
      if relElem.minID != relElem.maxID then IntToString(relElem.minID) + "-" + IntToString(relElem.maxID)
      else IntToString(relElem.minID);
    if writeNuclearity then
      if relElem.isNuclear then numberStr + "N" else numberStr + "S"
    else numberStr
  }

  /**
    Reading a range back: "m" is the range from m to m, "m-n" the range from m to n.
    Anything else is not a range.
  */
  function ReadRange(s: string): (r: Option<(int, int)>)
    ensures r.Some? ==> 0 <= r.value.0 && 0 <= r.value.1
  {
    var pieces := Split(s, '-');
    if |pieces| == 1 && pieces[0] != "" && AllDigits(pieces[0]) then
      Some((DigitsValue(pieces[0]), DigitsValue(pieces[0])))
    else if |pieces| == 2 && pieces[0] != "" && AllDigits(pieces[0]) && pieces[1] != "" && AllDigits(pieces[1]) then
      Some((DigitsValue(pieces[0]), DigitsValue(pieces[1])))
    else None
  }

  /** The decimal form of a segment ID never holds a separator. */
  lemma DigitsHaveNoSeparators(n: nat)
    ensures '-' !in NatToString(n) && '|' !in NatToString(n)
    ensures NatToString(n) != ""
  {
    var s := NatToString(n);
    forall i | 0 <= i < |s| ensures s[i] != '-' && s[i] != '|' {
      assert IsDigit(s[i]);
    }
  }

  /**
    For an element with non-negative IDs, its range written without nuclearity reads back
    as its range; written with nuclearity, it ends in "N" exactly for a nucleus and the rest
    is the form without nuclearity.
  */
  lemma RelElementStringRoundTrip(relElem: RelElement)
    requires 0 <= relElem.minID && 0 <= relElem.maxID
    ensures ReadRange(RelElementString(relElem, false)) == Some((relElem.minID, relElem.maxID))
    ensures var s := RelElementString(relElem, true);
            |s| > 0 && s[..|s| - 1] == RelElementString(relElem, false)
            && (s[|s| - 1] == 'N' <==> relElem.isNuclear)
            && (s[|s| - 1] == 'S' <==> !relElem.isNuclear)
  {
    var a, b := NatToString(relElem.minID), NatToString(relElem.maxID);
    DigitsHaveNoSeparators(relElem.minID);
    DigitsHaveNoSeparators(relElem.maxID);
    NatToStringRoundTrip(relElem.minID);
    NatToStringRoundTrip(relElem.maxID);
    if relElem.minID != relElem.maxID {
      assert Join([a, b], "-") == a + "-" + b by {
        assert [a, b][1..] == [b];
      }
      SplitJoin([a, b], '-');
    } else {
      assert Join([a], "-") == a;
      SplitJoin([a], '-');
    }
    var s := RelElementString(relElem, true);
    assert s[..|s| - 1] == RelElementString(relElem, false);
  }

  /** The range of each element, as the central-subconstituent string lists them. */
  function CSPieces(relElemList: seq<RelElement>): (pieces: seq<string>)
    ensures |pieces| == |relElemList|
  {
    seq(|relElemList|, k requires 0 <= k < |relElemList| => RelElementString(relElemList[k], false))
  }

  /** The central-subconstituent string: the ranges joined by "|". */
  function CSString(relElemList: seq<RelElement>): (s: string)
    ensures relElemList == [] ==> s == ""
  {
    Join(CSPieces(relElemList), "|")
  }

  /** `createStringForCentralSubconstituent(relElemList)` */
  method CreateStringForCentralSubconstituent(relElemList: seq<RelElement>) returns (s: string)
    ensures s == CSString(relElemList)
  {
    ghost var pieces := CSPieces(relElemList);
    s := "";
    for i := 0 to |relElemList|
      invariant i == 0 ==> s == ""
      invariant 0 < i ==> s == Join(pieces[..i], "|") + (if i < |relElemList| then "|" else "")
    {
      var relElem := relElemList[i];
      if i > 0 {
        JoinSnoc(pieces[..i], pieces[i], "|");
        assert pieces[..i + 1] == pieces[..i] + [pieces[i]];
      } else {
        assert pieces[..1] == [pieces[0]];
      }
      s := s + RelElementString(relElem, false);
      if i < |relElemList| - 1 {
        s := s + "|";
      }
    }
    assert pieces[..|relElemList|] == pieces;
  }

  /** The ranges of a list of elements, as `ReadRange` gives them back. */
  function RangesOf(relElemList: seq<RelElement>): (r: seq<Option<(int, int)>>)
    ensures |r| == |relElemList|
  {
    seq(|relElemList|, k requires 0 <= k < |relElemList| => Some((relElemList[k].minID, relElemList[k].maxID)))
  }

  /** Reading a central-subconstituent string back: split at "|" and read each range. */
  function ReadCS(s: string): (r: seq<Option<(int, int)>>)
    ensures |r| == |Split(s, '|')|
  {
    var pieces := Split(s, '|');
    seq(|pieces|, k requires 0 <= k < |pieces| => ReadRange(pieces[k]))
  }

  /**
    A non-empty list of elements with non-negative IDs reads back, range by range and in
    order, from its central-subconstituent string. The empty list gives the empty string.
  */
  lemma CSStringRoundTrip(relElemList: seq<RelElement>)
    requires relElemList != []
    requires forall k :: 0 <= k < |relElemList| ==> 0 <= relElemList[k].minID && 0 <= relElemList[k].maxID
    ensures ReadCS(CSString(relElemList)) == RangesOf(relElemList)
  {
    var pieces := CSPieces(relElemList);
    forall k | 0 <= k < |pieces| ensures '|' !in pieces[k] {
      var e := relElemList[k];
      DigitsHaveNoSeparators(e.minID);
      DigitsHaveNoSeparators(e.maxID);
      assert pieces[k] == RelElementString(e, false);
    }
    SplitJoin(pieces, '|');
    forall k | 0 <= k < |relElemList| ensures ReadCS(CSString(relElemList))[k] == RangesOf(relElemList)[k] {
      RelElementStringRoundTrip(relElemList[k]);
    }
  }

  /** `createNuclearityString(rel)` */
  function NuclearityString(rel: Relation): string
  {
    if rel.isMultiNuclear then "⟷"
    else if rel.constituent.maxID < rel.attachmentPoint.minID then "⟶"
    else if rel.constituent.minID > rel.attachmentPoint.maxID then "⟵"
    else "⟷"
  }

  /** The arrow for each direction class, in the order 0, 1, 2. */
  const Arrows: seq<string> := ["⟷", "⟶", "⟵"]

  /** The arrow follows the direction class of the comparison: ⟷ for 0, ⟶ for 1, ⟵ for 2. */
  lemma NuclearityStringIsDirection(rel: Relation)
    ensures NuclearityString(rel) == Arrows[CalculateNuclearity(rel)]
  {
  }

  /** `createMatchingString(dist)` */
  function MatchingString(dist: MatchingDistance): string
  {
    match dist
    case CompleteSameCS => "Completely identical CS"
    case PartiallySameCS => "Partially identical CS"
    case SameCSameA => "C1=C2 and A1=A2"
    case SwitchedCAndA => "C1=A2 and A1=C2"
    case NoMatching => "No matching"
  }

  /** Different distances get different labels, so the label names the distance. */
  lemma MatchingStringInjective(d1: MatchingDistance, d2: MatchingDistance)
    ensures MatchingString(d1) == MatchingString(d2) <==> d1 == d2
  {
  }

  /** A "N" or "S" column: "N" for a nucleus. */
  function NucLetter(isNuclear: bool): string
  {
    if isNuclear then "N" else "S"
  }

  /** The three columns of an element in a relation row: first ID, last ID, "N" or "S". */
  function ElementColumns(relElem: RelElement): (cols: seq<string>)
    ensures |cols| == 3
  {
    [IntToString(relElem.minID), IntToString(relElem.maxID), NucLetter(relElem.isNuclear)]
  }

  /** The columns of an element with non-negative IDs give back its range and its nuclearity. */
  lemma ElementColumnsReadBack(relElem: RelElement)
    requires 0 <= relElem.minID && 0 <= relElem.maxID
    ensures var cols := ElementColumns(relElem);
            AllDigits(cols[0]) && DigitsValue(cols[0]) == relElem.minID
            && AllDigits(cols[1]) && DigitsValue(cols[1]) == relElem.maxID
            && (cols[2] == "N" <==> relElem.isNuclear)
  {
    NatToStringRoundTrip(relElem.minID);
    NatToStringRoundTrip(relElem.maxID);
  }

  /**
    `createRelCsvEntry(rel)`: the central subconstituent, the name, the arrow, then the
    columns of the constituent and of the attachment point.
  */
  function RelCsvEntry(rel: Relation): (row: seq<string>)
    ensures |row| == 9
  {
    [CSString(rel.centralSubconstituent), rel.name, NuclearityString(rel)]
    + ElementColumns(rel.constituent) + ElementColumns(rel.attachmentPoint)
  }

  /**
    A relation row gives back what it was made from: the name, both ranges (for
    non-negative IDs) and both nuclearities, column by column as the header names them.
  */
  lemma RelCsvEntryReadsBack(rel: Relation)
    requires 0 <= rel.constituent.minID && 0 <= rel.constituent.maxID
    requires 0 <= rel.attachmentPoint.minID && 0 <= rel.attachmentPoint.maxID
    ensures var row := RelCsvEntry(rel);
            row[1] == rel.name
            && AllDigits(row[3]) && DigitsValue(row[3]) == rel.constituent.minID
            && AllDigits(row[4]) && DigitsValue(row[4]) == rel.constituent.maxID
            && (row[5] == "N" <==> rel.constituent.isNuclear)
            && AllDigits(row[6]) && DigitsValue(row[6]) == rel.attachmentPoint.minID
            && AllDigits(row[7]) && DigitsValue(row[7]) == rel.attachmentPoint.maxID
            && (row[8] == "N" <==> rel.attachmentPoint.isNuclear)
  {
    var row := RelCsvEntry(rel);
    ElementColumnsReadBack(rel.constituent);
    ElementColumnsReadBack(rel.attachmentPoint);
    assert row[3..6] == ElementColumns(rel.constituent);
    assert row[6..] == ElementColumns(rel.attachmentPoint);
  }

  /** `createEmptyRelCsvEntry` */
  function EmptyRelCsvEntry(): (row: seq<string>)
    ensures |row| == 9 && forall k :: 0 <= k < |row| ==> row[k] == ""
  {
    ["", "", "", "", "", "", "", "", ""]
  }

  /** `createEmptyEvaluation` */
  function EmptyEvaluation(): (row: seq<string>)
    ensures |row| == 6 && forall k :: 0 <= k < |row| ==> row[k] == ""
  {
    ["", "", "", "", "", ""]
  }

  /** The tick for an agreeing dimension, the cross for a disagreeing one. */
  function Mark(agrees: bool): string
  {
    if agrees then "✓" else "✗"
  }

  /** The position of an agreement letter in the order N, R, C, A. */
  function LetterRank(c: char): nat
  {
    if c == 'N' then 0 else if c == 'R' then 1 else if c == 'C' then 2 else 3
  }

  /** The agreement string: the letter of each agreeing dimension. */
  function Agreement(eval: Equivalency): string
  {
    (if eval.nuclearity.equalDirection then "N" else "")
    + (if eval.relation then "R" else "")
    + (if eval.constituent then "C" else "")
    + (if eval.attachmentPoint then "A" else "")
  }

  /**
    The agreement string holds the letter of a dimension exactly when the dimension agrees,
    in the order N, R, C, A, each at most once.
  */
  lemma AgreementLetters(eval: Equivalency)
    ensures var a := Agreement(eval);
            ('N' in a <==> eval.nuclearity.equalDirection) && ('R' in a <==> eval.relation)
            && ('C' in a <==> eval.constituent) && ('A' in a <==> eval.attachmentPoint)
    ensures var a := Agreement(eval);
            forall i, j :: 0 <= i < j < |a| ==> LetterRank(a[i]) < LetterRank(a[j])
  {
    AgreementInOrder(eval);
  }

  /** The letters of the agreement string come in the order N, R, C, A. */
  lemma AgreementInOrder(eval: Equivalency)
    ensures var a := Agreement(eval);
            forall i :: 0 <= i < |a| - 1 ==> LetterRank(a[i]) < LetterRank(a[i + 1])
  {
  }

  /** The parts of the disagreement string: the nuclearity kind, then the relation name. */
  function DisagreementParts(eval: Equivalency): seq<string>
  {
    (if eval.nuclearity.equalDirection then []
     else if eval.nuclearity.equalMonoMulti then ["N/S"] else ["N/N-N/S"])
    + (if eval.relation then [] else ["≠R"])
  }

  /** The disagreement string: its parts separated by ", ". */
  function Disagreement(eval: Equivalency): string
  {
    Join(DisagreementParts(eval), ", ")
  }

  /** The disagreement string in each of the four cases of direction and relation name. */
  lemma DisagreementCases(eval: Equivalency)
    ensures var kind := if eval.nuclearity.equalMonoMulti then "N/S" else "N/N-N/S";
            Disagreement(eval)
            == if eval.nuclearity.equalDirection then (if eval.relation then "" else "≠R")
               else if eval.relation then kind else kind + ", " + "≠R"
  {
    var kind := if eval.nuclearity.equalMonoMulti then "N/S" else "N/N-N/S";
    var parts := DisagreementParts(eval);
    if eval.nuclearity.equalDirection {
      assert parts == if eval.relation then [] else ["≠R"];
    } else if eval.relation {
      assert parts == [kind];
    } else {
      assert parts == [kind, "≠R"];
      assert parts[1..] == ["≠R"];
      assert Join(parts, ", ") == kind + ", " + Join(["≠R"], ", ");
    }
  }

  /**
    Only the direction and the relation name are reported as disagreements. The string is
    empty exactly when both agree, and it reports "≠R" exactly when the names differ.
  */
  lemma DisagreementReports(eval: Equivalency)
    ensures Disagreement(eval) == "" <==> eval.nuclearity.equalDirection && eval.relation
    ensures var d := Disagreement(eval);
            (!eval.relation <==> |d| >= 2 && d[|d| - 2..] == "≠R")
  {
    DisagreementCases(eval);
  }

  /** The six evaluation columns: the four marks, the agreement and the disagreement. */
  function EvaluationStrings(eval: Equivalency): (r: seq<string>)
    ensures |r| == 6
  {
    [Mark(eval.nuclearity.equalDirection), Mark(eval.relation), Mark(eval.constituent), Mark(eval.attachmentPoint),
     Agreement(eval), Disagreement(eval)]
  }

  /** `createEvaluationString(eval)`, which builds the two strings piece by piece. */
  method CreateEvaluationString(eval: Equivalency) returns (r: seq<string>)
    ensures r == EvaluationStrings(eval)
  {
    var tick, noTick := "✓", "✗";
    var agreement, disAgreement := "", "";
    var nStr, rStr, cStr, aStr;
    if eval.nuclearity.equalDirection {
      nStr := tick;
      agreement := agreement + "N";
    } else {
      nStr := noTick;
      if eval.nuclearity.equalMonoMulti {
        disAgreement := disAgreement + "N/S";
      } else {
        disAgreement := disAgreement + "N/N-N/S";
      }
    }
    if eval.relation {
      rStr := tick;
      agreement := agreement + "R";
    } else {
      rStr := noTick;
      if |disAgreement| > 0 {
        disAgreement := disAgreement + ", ";
      }
      disAgreement := disAgreement + "≠R";
    }
    if eval.constituent {
      cStr := tick;
      agreement := agreement + "C";
    } else {
      cStr := noTick;
    }
    if eval.attachmentPoint {
      aStr := tick;
      agreement := agreement + "A";
    } else {
      aStr := noTick;
    }
    DisagreementCases(eval);
    assert disAgreement == Disagreement(eval);
    assert agreement == Agreement(eval);
    r := [nStr, rStr, cStr, aStr, agreement, disAgreement];
  }

  /**
    A row of the comparison table by what it shows: its ID, the record in the first group of
    columns (or a blank group), the record in the second, the matching distance and the
    evaluation (or blank evaluation columns).
  */
  datatype CompCsvRow = CompCsvRow(
    id: nat,
    rel1: Option<Relation>,
    rel2: Option<Relation>,
    distance: MatchingDistance,
    evaluation: Option<Equivalency>)

  /** The nine columns of a record, or nine blanks. */
  function EntryColumns(rel: Option<Relation>): (cols: seq<string>)
    ensures |cols| == 9
  {
    match rel
    case None => EmptyRelCsvEntry()
    case Some(r) => RelCsvEntry(r)
  }

  /** The six evaluation columns, or six blanks. */
  function EvaluationColumns(eval: Option<Equivalency>): (cols: seq<string>)
    ensures |cols| == 6
  {
    match eval
    case None => EmptyEvaluation()
    case Some(e) => EvaluationStrings(e)
  }

  /**
    The fields of a row as the file holds them: the ID and a blank, the first group, a
    blank, the second group, a blank, the matching label and the evaluation.
  */
  function Fields(row: CompCsvRow): seq<string>
  {
    [NatToString(row.id), ""] + EntryColumns(row.rel1) + [""] + EntryColumns(row.rel2)
    + ["", MatchingString(row.distance)] + EvaluationColumns(row.evaluation)
  }

  /** Where each group of a 29-field row sits. */
  lemma RowLayout(id: string, left: seq<string>, right: seq<string>, matchStr: string, evaluation: seq<string>)
    requires |left| == 9 && |right| == 9 && |evaluation| == 6
    ensures var f := [id, ""] + left + [""] + right + ["", matchStr] + evaluation;
            |f| == 29 && f[0] == id && f[1] == "" && f[11] == "" && f[21] == ""
            && f[2..11] == left && f[12..21] == right && f[22] == matchStr && f[23..] == evaluation
  {
    var f := [id, ""] + left + [""] + right + ["", matchStr] + evaluation;
    assert f[2..11] == left && f[12..21] == right && f[23..] == evaluation;
  }

  /** Under the comparison header, each group of a row lands in its own columns. */
  lemma FieldsLayout(row: CompCsvRow)
    ensures var f := Fields(row);
            |f| == |CompCsvHeader()| && f[0] == NatToString(row.id) && f[1] == "" && f[11] == "" && f[21] == ""
            && f[2..11] == EntryColumns(row.rel1) && f[12..21] == EntryColumns(row.rel2)
            && f[22] == MatchingString(row.distance) && f[23..] == EvaluationColumns(row.evaluation)
  {
    RowLayout(NatToString(row.id), EntryColumns(row.rel1), EntryColumns(row.rel2),
              MatchingString(row.distance), EvaluationColumns(row.evaluation));
  }

  /** Each element of `s` mapped by `f`, in order. */
  function MapSeq<A, B>(f: A -> B, s: seq<A>): (r: seq<B>)
    ensures |r| == |s|
  {
    seq(|s|, k requires 0 <= k < |s| => f(s[k]))
  }

  /** Mapping two sequences one after the other maps each of them. */
  lemma MapSeqAppend<A, B>(f: A -> B, a: seq<A>, b: seq<A>)
    ensures MapSeq(f, a + b) == MapSeq(f, a) + MapSeq(f, b)
  {
    var both, parts := MapSeq(f, a + b), MapSeq(f, a) + MapSeq(f, b);
    forall k | 0 <= k < |both| ensures both[k] == parts[k] {
      if k < |a| {
        assert (a + b)[k] == a[k];
      } else {
        assert (a + b)[k] == b[k - |a|];
      }
    }
  }

  /** Element `k` of the mapped sequence is `f` of element `k`. */
  lemma MapSeqAt<A, B>(f: A -> B, s: seq<A>, k: nat)
    requires k < |s|
    ensures MapSeq(f, s)[k] == f(s[k])
  {
  }

  /** The text of a list of rows, row by row. */
  function Render(rows: seq<CompCsvRow>): (text: seq<seq<string>>)
    ensures |text| == |rows|
  {
    MapSeq(Fields, rows)
  }

  /** The rows of one comparison whose first row has ID `id`. */
  function RowsFor(comp: Comparison, id: nat): (rows: seq<CompCsvRow>)
    ensures |rows| == if comp.matchingDistance == NoMatching then 2 else 1
    ensures forall k :: 0 <= k < |rows| ==> rows[k].id == id + k && rows[k].distance == comp.matchingDistance
  {
    if comp.matchingDistance == NoMatching then
      [CompCsvRow(id, Some(comp.relation1), None, comp.matchingDistance, None),
       CompCsvRow(id + 1, None, Some(comp.relation2), comp.matchingDistance, None)]
    else
      [CompCsvRow(id, Some(comp.relation1), Some(comp.relation2), comp.matchingDistance, Some(comp.evaluation))]
  }

  /**
    What the rows of a comparison hold, column by column as the header names them. An
    unmatched comparison gives a row for the first record alone and then one for the second
    alone, both without evaluation; any other gives one row with both records and the
    evaluation. Every row states the matching label.
  */
  lemma RowsForColumns(comp: Comparison, id: nat)
    ensures var rows := RowsFor(comp, id);
            forall k :: 0 <= k < |rows| ==> Fields(rows[k])[22] == MatchingString(comp.matchingDistance)
    ensures var rows := RowsFor(comp, id);
            comp.matchingDistance == NoMatching ==>
              var f0, f1 := Fields(rows[0]), Fields(rows[1]);
              f0[2..11] == RelCsvEntry(comp.relation1) && f0[12..21] == EmptyRelCsvEntry()
              && f1[2..11] == EmptyRelCsvEntry() && f1[12..21] == RelCsvEntry(comp.relation2)
              && f0[23..] == EmptyEvaluation() && f1[23..] == EmptyEvaluation()
    ensures var rows := RowsFor(comp, id);
            comp.matchingDistance != NoMatching ==>
              var f0 := Fields(rows[0]);
              f0[2..11] == RelCsvEntry(comp.relation1) && f0[12..21] == RelCsvEntry(comp.relation2)
              && f0[23..] == EvaluationStrings(comp.evaluation)
  {
    var rows := RowsFor(comp, id);
    forall k | 0 <= k < |rows| ensures Fields(rows[k])[22] == MatchingString(comp.matchingDistance) {
      FieldsLayout(rows[k]);
    }
    FieldsLayout(rows[0]);
    if comp.matchingDistance == NoMatching {
      FieldsLayout(rows[1]);
    }
  }

  /** The rows of the first `n` comparisons: each one's rows, numbered on from the rows before. */
  function RowsUpTo(comps: seq<Comparison>, n: nat): seq<CompCsvRow>
    requires n <= |comps|
  {
    if n == 0 then []
    else
      var before := RowsUpTo(comps, n - 1);
      before + RowsFor(comps[n - 1], |before| + 1)
  }

  /** The rows of the comparison table. */
  function ComparisonRows(comps: seq<Comparison>): seq<CompCsvRow>
  {
    RowsUpTo(comps, |comps|)
  }

  /** The number of unmatched comparisons among the first `n`. */
  function NoMatchingUpTo(comps: seq<Comparison>, n: nat): nat
    requires n <= |comps|
  {
    if n == 0 then 0
    else NoMatchingUpTo(comps, n - 1) + (if comps[n - 1].matchingDistance == NoMatching then 1 else 0)
  }

  /** The number of unmatched comparisons. */
  function NoMatchingCount(comps: seq<Comparison>): nat
  {
    NoMatchingUpTo(comps, |comps|)
  }

  /** The rows of the first `n` comparisons, counted and numbered. */
  lemma {:induction false} RowsUpToShape(comps: seq<Comparison>, n: nat)
    requires n <= |comps|
    ensures |RowsUpTo(comps, n)| == n + NoMatchingUpTo(comps, n)
    ensures var rows := RowsUpTo(comps, n);
            forall k :: 0 <= k < |rows| ==> rows[k].id == k + 1
  {
    if n > 0 {
      RowsUpToShape(comps, n - 1);
      var before := RowsUpTo(comps, n - 1);
      var last := RowsFor(comps[n - 1], |before| + 1);
      var rows := RowsUpTo(comps, n);
      assert rows == before + last;
      forall k | 0 <= k < |rows| ensures rows[k].id == k + 1 {
        if k >= |before| {
          assert rows[k] == last[k - |before|];
        } else {
          assert rows[k] == before[k];
        }
      }
    }
  }

  /**
    The comparison rows: one per comparison and one more per unmatched comparison; row `k`
    has ID `k + 1` and as many fields as the header.
  */
  lemma ComparisonRowsShape(comps: seq<Comparison>)
    ensures |ComparisonRows(comps)| == |comps| + NoMatchingCount(comps)
    ensures var text := Render(ComparisonRows(comps));
            forall k :: 0 <= k < |text| ==> |text[k]| == |CompCsvHeader()| && text[k][0] == NatToString(k + 1)
  {
    RowsUpToShape(comps, |comps|);
    var rows := ComparisonRows(comps);
    var text := Render(rows);
    forall k | 0 <= k < |text| ensures |text[k]| == |CompCsvHeader()| && text[k][0] == NatToString(k + 1) {
      FieldsLayout(rows[k]);
      MapSeqAt(Fields, rows, k);
    }
  }

  /**
    The body of the loop in `createComparisonDataframe`: the text of the rows for one
    comparison, the first with ID `id`.
  */
  method CreateComparisonCsvRows(comp: Comparison, id: nat) returns (csvRows: seq<seq<string>>)
    ensures csvRows == Render(RowsFor(comp, id))
  {
    var rel1Entry := RelCsvEntry(comp.relation1);
    var rel2Entry := RelCsvEntry(comp.relation2);
    var matchStr := MatchingString(comp.matchingDistance);
    ghost var rows := RowsFor(comp, id);
    csvRows := [];
    if comp.matchingDistance == NoMatching {
      var csvRow := [NatToString(id), ""] + rel1Entry + [""] + EmptyRelCsvEntry() + ["", matchStr] + EmptyEvaluation();
      assert csvRow == Fields(rows[0]);
      csvRows := csvRows + [csvRow];
      csvRow := [NatToString(id + 1), ""] + EmptyRelCsvEntry() + [""] + rel2Entry + ["", matchStr] + EmptyEvaluation();
      assert csvRow == Fields(rows[1]);
      csvRows := csvRows + [csvRow];
    } else {
      var evalStrings := CreateEvaluationString(comp.evaluation);
      var csvRow := [NatToString(id), ""] + rel1Entry + [""] + rel2Entry + ["", matchStr] + evalStrings;
      assert csvRow == Fields(rows[0]);
      csvRows := csvRows + [csvRow];
    }
  }

  /**
    One step of the loop in `createComparisonDataframe`: with `biasID` one more than the
    unmatched comparisons so far, the next comparison's rows start at ID `i + biasID`, and
    the counter goes up by one for an unmatched comparison.
  */
  lemma DataframeStep(comps: seq<Comparison>, i: nat, text: seq<seq<string>>, biasID: nat, csvRows: seq<seq<string>>)
    requires i < |comps| && text == Render(RowsUpTo(comps, i)) && i + biasID == |text| + 1
    requires csvRows == Render(RowsFor(comps[i], i + biasID))
    ensures text + csvRows == Render(RowsUpTo(comps, i + 1))
    ensures var nextBias := if comps[i].matchingDistance == NoMatching then biasID + 1 else biasID;
            i + 1 + nextBias == |text + csvRows| + 1
  {
    MapSeqAppend(Fields, RowsUpTo(comps, i), RowsFor(comps[i], i + biasID));
  }

  /** `createComparisonDataframe(compTable)`: the text of the rows under the comparison header. */
  method CreateComparisonDataframe(compTable: ComparisonTable) returns (rows: seq<seq<string>>)
    ensures rows == Render(ComparisonRows(compTable.comparisons))
  {
    var comps := compTable.Elements();
    rows := [];
    var biasID := 1;
    for i := 0 to |comps|
      invariant rows == Render(RowsUpTo(comps, i))
      invariant i + biasID == |rows| + 1
    {
      var comp := comps[i];
      var csvRows := CreateComparisonCsvRows(comp, i + biasID);
      DataframeStep(comps, i, rows, biasID, csvRows);
      rows := rows + csvRows;
      if comp.matchingDistance == NoMatching {
        biasID := biasID + 1;
      }
    }
  }

  /** The rows of the relation table: one entry per record, in table order. */
  function RelationRows(rels: seq<Relation>): seq<seq<string>>
  {
    seq(|rels|, k requires 0 <= k < |rels| => RelCsvEntry(rels[k]))
  }

  /** One row per record, in table order, each as wide as the header. */
  lemma RelationRowsShape(rels: seq<Relation>)
    ensures |RelationRows(rels)| == |rels|
    ensures forall k :: 0 <= k < |rels| ==>
              |RelationRows(rels)[k]| == |RelCsvHeader()| && RelationRows(rels)[k][1] == rels[k].name
  {
  }

  /** `createRelationsDataframe(relTable)`: the rows under the relation header. */
  method CreateRelationsDataframe(relTable: RelTable) returns (rows: seq<seq<string>>)
    ensures rows == RelationRows(relTable.relations)
  {
    rows := [];
    var relations := relTable.Elements();
    for i := 0 to |relations|
      invariant |rows| == i && forall k :: 0 <= k < i ==> rows[k] == RelCsvEntry(relations[k])
    {
      rows := rows + [RelCsvEntry(relations[i])];
    }
  }

  /** `__isNotEmpty(s)`: `s` is neither empty nor empty once stripped. */
  function IsNotEmpty(s: string): (b: bool)
    ensures b <==> exists i :: 0 <= i < |s| && !IsWhitespace(s[i])
  {
    StripNonEmpty(s, IsWhitespace);
    s != "" && Strip(s, IsWhitespace) != ""
  }
}
