/**
  The comparison of two relation tables (rsttace/core/comptablegenerator.py).
  - `Distance` is the five-level distance that `calcDistance` computes. It is stated with
    `AllEqualCS` and `NoneEqualCS`, which say what `checkForEqualCS` computes with its
    nested loops.
  - `GenerateDistMatrix` fills the distance matrix.
  - `BuildComparisonTable` and `Evaluate` assemble the comparison table from an assignment
    of rows to columns. The assignment is given by the caller.
*/
module CompTableGeneration {
  import opened RelationsTable
  import opened ComparisonModel

  /** `checkForEquality`: equal range; nuclearity and the leaf flag are not compared. */
  function CheckForEquality(relElem1: RelElement, relElem2: RelElement): bool
  {
    relElem1.minID == relElem2.minID && relElem1.maxID == relElem2.maxID
  }

  /** The range of an element, the only part of it that `checkForEquality` looks at. */
  function RangeOf(e: RelElement): (int, int)
  {
    (e.minID, e.maxID)
  }

  /**
    Two elements are equal for `checkForEquality` exactly when they are equal once
    nuclearity and the leaf flag are ignored. Equality of elements that compare equal in
    `Comparison` implies it.
  */
  lemma CheckForEqualityIgnoresFlags(relElem1: RelElement, relElem2: RelElement)
    ensures CheckForEquality(relElem1, relElem2)
            <==> relElem1.(isNuclear := false, isLeaf := false) == relElem2.(isNuclear := false, isLeaf := false)
    ensures CompareRelElem(relElem1, relElem2) ==> CheckForEquality(relElem1, relElem2)
    ensures CheckForEquality(relElem1, relElem2) <==> CheckForEquality(relElem2, relElem1)
  {
  }

  /** `checkForEqualCC` */
  function CheckForEqualCC(rel1: Relation, rel2: Relation): bool
  {
    CheckForEquality(rel1.constituent, rel2.constituent)
  }

  /** `checkForEqualAA` */
  function CheckForEqualAA(rel1: Relation, rel2: Relation): bool
  {
    CheckForEquality(rel1.attachmentPoint, rel2.attachmentPoint)
  }

  /** `checkForEqualCA` */
  function CheckForEqualCA(rel1: Relation, rel2: Relation): bool
  {
    CheckForEquality(rel1.constituent, rel2.attachmentPoint)
  }

  /** `checkForEqualAC`, which is `checkForEqualCA` with the arguments swapped. */
  function CheckForEqualAC(rel1: Relation, rel2: Relation): bool
  {
    CheckForEqualCA(rel2, rel1)
  }

  /** `checkForEqualAC` compares the attachment point of the first with the constituent of the second. */
  lemma CheckForEqualACCompares(rel1: Relation, rel2: Relation)
    ensures CheckForEqualAC(rel1, rel2) <==> RangeOf(rel1.attachmentPoint) == RangeOf(rel2.constituent)
  {
  }

  /** Some element of `cs` is equal to `e` for `checkForEquality`. */
  predicate HasEqual(e: RelElement, cs: seq<RelElement>)
  {
    exists k :: 0 <= k < |cs| && CheckForEquality(e, cs[k])
  }

  /** Every element of `cs1` has an equal element in `cs2`. */
  predicate AllHaveEqual(cs1: seq<RelElement>, cs2: seq<RelElement>)
  {
    forall i :: 0 <= i < |cs1| ==> HasEqual(cs1[i], cs2)
  }

  /** The first flag of `checkForEqualCS`: every element on each side has a match on the other. */
  predicate AllEqualCS(cs1: seq<RelElement>, cs2: seq<RelElement>)
  {
    AllHaveEqual(cs1, cs2) && AllHaveEqual(cs2, cs1)
  }

  /** The second flag of `checkForEqualCS`: no element of one side matches one of the other. */
  predicate NoneEqualCS(cs1: seq<RelElement>, cs2: seq<RelElement>)
  {
    forall i, j :: 0 <= i < |cs1| && 0 <= j < |cs2| ==> !CheckForEquality(cs1[i], cs2[j])
  }

  /** The ranges that occur in a list of elements. */
  function Ranges(cs: seq<RelElement>): set<(int, int)>
  {
    set e | e in cs :: RangeOf(e)
  }

  /** `AllHaveEqual(cs1, cs2)` says that every range of `cs1` occurs in `cs2`. */
  lemma AllHaveEqualRanges(cs1: seq<RelElement>, cs2: seq<RelElement>)
    ensures AllHaveEqual(cs1, cs2) <==> Ranges(cs1) <= Ranges(cs2)
  {
    if AllHaveEqual(cs1, cs2) {
      forall r | r in Ranges(cs1) ensures r in Ranges(cs2) {
        var e :| e in cs1 && RangeOf(e) == r;
        var i :| 0 <= i < |cs1| && cs1[i] == e;
        var k :| 0 <= k < |cs2| && CheckForEquality(e, cs2[k]);
        assert RangeOf(cs2[k]) == r;
      }
    }
    if Ranges(cs1) <= Ranges(cs2) {
      forall i | 0 <= i < |cs1| ensures HasEqual(cs1[i], cs2) {
        assert RangeOf(cs1[i]) in Ranges(cs1);
        var e :| e in cs2 && RangeOf(e) == RangeOf(cs1[i]);
        var k :| 0 <= k < |cs2| && cs2[k] == e;
        assert CheckForEquality(cs1[i], cs2[k]);
      }
    }
  }

  /** No pair of `checkForEquality`-equal elements exactly when the lists share no range. */
  lemma NoneEqualRanges(cs1: seq<RelElement>, cs2: seq<RelElement>)
    ensures NoneEqualCS(cs1, cs2) <==> Ranges(cs1) !! Ranges(cs2)
  {
    if !(Ranges(cs1) !! Ranges(cs2)) {
      var r :| r in Ranges(cs1) && r in Ranges(cs2);
      var e1 :| e1 in cs1 && RangeOf(e1) == r;
      var i :| 0 <= i < |cs1| && cs1[i] == e1;
      var e2 :| e2 in cs2 && RangeOf(e2) == r;
      var j :| 0 <= j < |cs2| && cs2[j] == e2;
      assert CheckForEquality(cs1[i], cs2[j]);
    }
    if Ranges(cs1) !! Ranges(cs2) {
      forall i, j | 0 <= i < |cs1| && 0 <= j < |cs2| ensures !CheckForEquality(cs1[i], cs2[j]) {
        assert RangeOf(cs1[i]) in Ranges(cs1) && RangeOf(cs2[j]) in Ranges(cs2);
      }
    }
  }

  /** A list has no ranges exactly when it is empty. */
  lemma RangesEmpty(cs: seq<RelElement>)
    ensures Ranges(cs) == {} <==> cs == []
  {
    if cs != [] {
      assert RangeOf(cs[0]) in Ranges(cs);
    }
  }

  /**
    The meaning of the two flags of `checkForEqualCS`: the first holds exactly when both
    lists hold the same ranges and the second exactly when they share no range. Both hold
    exactly when both lists are empty.
  */
  lemma EqualCSMeaning(cs1: seq<RelElement>, cs2: seq<RelElement>)
    ensures AllEqualCS(cs1, cs2) <==> Ranges(cs1) == Ranges(cs2)
    ensures NoneEqualCS(cs1, cs2) <==> Ranges(cs1) !! Ranges(cs2)
    ensures AllEqualCS(cs1, cs2) && NoneEqualCS(cs1, cs2) <==> cs1 == [] && cs2 == []
  {
    AllHaveEqualRanges(cs1, cs2);
    AllHaveEqualRanges(cs2, cs1);
    NoneEqualRanges(cs1, cs2);
    RangesEmpty(cs1);
    RangesEmpty(cs2);
    assert Ranges(cs1) == Ranges(cs2) && Ranges(cs1) !! Ranges(cs2) ==> Ranges(cs1) == {};
  }

  /** The inner loop of `checkForEqualCS`: whether `elem` has an equal element in `cs`. */
  method FindEqual(elem: RelElement, cs: seq<RelElement>) returns (found: bool)
    ensures found == HasEqual(elem, cs)
  {
    found := false;
    for j := 0 to |cs|
      invariant found == exists k :: 0 <= k < j && CheckForEquality(elem, cs[k])
    {
      found := found || CheckForEquality(elem, cs[j]);
    }
  }

  /** No element of `cs1` has a match in `cs2` exactly when no element of `cs2` has one in `cs1`. */
  lemma NoneHaveEqualSymmetric(cs1: seq<RelElement>, cs2: seq<RelElement>)
    ensures (forall i :: 0 <= i < |cs1| ==> !HasEqual(cs1[i], cs2)) <==> NoneEqualCS(cs1, cs2)
    ensures (forall j :: 0 <= j < |cs2| ==> !HasEqual(cs2[j], cs1)) <==> NoneEqualCS(cs1, cs2)
  {
    if !NoneEqualCS(cs1, cs2) {
      var i, j :| 0 <= i < |cs1| && 0 <= j < |cs2| && CheckForEquality(cs1[i], cs2[j]);
      assert HasEqual(cs1[i], cs2);
      assert CheckForEquality(cs2[j], cs1[i]);
      assert HasEqual(cs2[j], cs1);
    }
  }

  /** `checkForEqualCS(rel1, rel2)` */
  method CheckForEqualCS(rel1: Relation, rel2: Relation) returns (allEqual: bool, noneEqual: bool)
    ensures allEqual == AllEqualCS(rel1.centralSubconstituent, rel2.centralSubconstituent)
    ensures noneEqual == NoneEqualCS(rel1.centralSubconstituent, rel2.centralSubconstituent)
  {
    var cs1, cs2 := rel1.centralSubconstituent, rel2.centralSubconstituent;
    allEqual := true;
    noneEqual := true;
    for i := 0 to |cs1|
      invariant allEqual == forall k :: 0 <= k < i ==> HasEqual(cs1[k], cs2)
      invariant noneEqual == forall k :: 0 <= k < i ==> !HasEqual(cs1[k], cs2)
    {
      var found := FindEqual(cs1[i], cs2);
      allEqual := allEqual && found;
      noneEqual := noneEqual && !found;
    }
    ghost var noneInFirst := noneEqual;
    for j := 0 to |cs2|
      invariant allEqual == (AllHaveEqual(cs1, cs2) && forall k :: 0 <= k < j ==> HasEqual(cs2[k], cs1))
      invariant noneEqual == (noneInFirst && forall k :: 0 <= k < j ==> !HasEqual(cs2[k], cs1))
    {
      var found := FindEqual(cs2[j], cs1);
      allEqual := allEqual && found;
      noneEqual := noneEqual && !found;
    }
    NoneHaveEqualSymmetric(cs1, cs2);
  }

  /**
    The distance `calcDistance` computes. The levels are tried in order: the same anchors,
    then equal constituents and equal attachment points, then the two switched; otherwise
    two mono-nuclear records, or records without a shared anchor, do not match, and the
    rest match partially.
  */
  function Distance(rel1: Relation, rel2: Relation): MatchingDistance
  {
    var noMultinuclearRelations := !rel1.isMultiNuclear && !rel2.isMultiNuclear;
    var cs1, cs2 := rel1.centralSubconstituent, rel2.centralSubconstituent;
    if AllEqualCS(cs1, cs2) then CompleteSameCS
    else if CheckForEqualCC(rel1, rel2) && CheckForEqualAA(rel1, rel2) then SameCSameA
    else if CheckForEqualCA(rel1, rel2) && CheckForEqualAC(rel1, rel2) then SwitchedCAndA
    else if noMultinuclearRelations then NoMatching
    else if NoneEqualCS(cs1, cs2) then NoMatching
    else PartiallySameCS
  }

  /** `calcDistance(rel1, rel2)` */
  method CalcDistance(rel1: Relation, rel2: Relation) returns (d: MatchingDistance)
    ensures d == Distance(rel1, rel2)
  {
    var noMultinuclearRelations := !rel1.isMultiNuclear && !rel2.isMultiNuclear;
    var allCsEqual, noCsEqual := CheckForEqualCS(rel1, rel2);
    if allCsEqual {
      return CompleteSameCS;
    } else if CheckForEqualCC(rel1, rel2) && CheckForEqualAA(rel1, rel2) {
      return SameCSameA;
    } else if CheckForEqualCA(rel1, rel2) && CheckForEqualAC(rel1, rel2) {
      return SwitchedCAndA;
    } else if noMultinuclearRelations {
      return NoMatching;
    } else if noCsEqual {
      return NoMatching;
    } else {
      return PartiallySameCS;
    }
  }

  /**
    What each distance means, stated with the ranges of the two records: the level is the
    first one, in the order of the distances, whose condition holds.
  */
  lemma DistanceLevels(rel1: Relation, rel2: Relation)
    ensures var r1, r2 := Ranges(rel1.centralSubconstituent), Ranges(rel2.centralSubconstituent);
            var c1, a1, c2, a2 := RangeOf(rel1.constituent), RangeOf(rel1.attachmentPoint),
                                  RangeOf(rel2.constituent), RangeOf(rel2.attachmentPoint);
            var d := Distance(rel1, rel2);
            (d == CompleteSameCS <==> r1 == r2)
            && (d == SameCSameA <==> r1 != r2 && c1 == c2 && a1 == a2)
            && (d == SwitchedCAndA <==> r1 != r2 && !(c1 == c2 && a1 == a2) && c1 == a2 && a1 == c2)
            && (d == PartiallySameCS <==>
                  r1 != r2 && !(c1 == c2 && a1 == a2) && !(c1 == a2 && a1 == c2)
                  && (rel1.isMultiNuclear || rel2.isMultiNuclear) && !(r1 !! r2))
  {
    EqualCSMeaning(rel1.centralSubconstituent, rel2.centralSubconstituent);
  }

  /** The distance does not depend on which record comes first. */
  lemma DistanceSymmetric(rel1: Relation, rel2: Relation)
    ensures Distance(rel1, rel2) == Distance(rel2, rel1)
  {
    EqualCSMeaning(rel1.centralSubconstituent, rel2.centralSubconstituent);
    EqualCSMeaning(rel2.centralSubconstituent, rel1.centralSubconstituent);
  }

  /** A record is completely identical to itself. */
  lemma DistanceReflexive(rel: Relation)
    ensures Distance(rel, rel) == CompleteSameCS
  {
    EqualCSMeaning(rel.centralSubconstituent, rel.centralSubconstituent);
  }

  /** Two mono-nuclear records never match partially. */
  lemma MonoNeverPartial(rel1: Relation, rel2: Relation)
    requires !rel1.isMultiNuclear && !rel2.isMultiNuclear
    ensures Distance(rel1, rel2) != PartiallySameCS
  {
  }

  /**
    `generateDistMatrix(relTable1, relTable2)`: a new `length1` by `length2` matrix whose
    entry `[i, j]` is the distance of record `i` of the first table and record `j` of the
    second.
  */
  method GenerateDistMatrix(relTable1: RelTable, relTable2: RelTable) returns (distMatrix: array2<MatchingDistance>)
    ensures fresh(distMatrix)
    ensures distMatrix.Length0 == relTable1.Length() && distMatrix.Length1 == relTable2.Length()
    ensures forall i, j :: 0 <= i < distMatrix.Length0 && 0 <= j < distMatrix.Length1 ==>
              distMatrix[i, j] == Distance(relTable1.relations[i], relTable2.relations[j])
  {
    var length1 := relTable1.Length();
    var length2 := relTable2.Length();
    distMatrix := new MatchingDistance[length1, length2]((_, _) => CompleteSameCS);
    for i := 0 to length1
      invariant forall a, b :: 0 <= a < i && 0 <= b < length2 ==>
                  distMatrix[a, b] == Distance(relTable1.relations[a], relTable2.relations[b])
    {
      for j := 0 to length2
        invariant forall a, b :: 0 <= a < i && 0 <= b < length2 ==>
                    distMatrix[a, b] == Distance(relTable1.relations[a], relTable2.relations[b])
        invariant forall b :: 0 <= b < j ==> distMatrix[i, b] == Distance(relTable1.relations[i], relTable2.relations[b])
      {
        var rel1 := relTable1.Get(i);
        var rel2 := relTable2.Get(j);
        distMatrix[i, j] := CalcDistance(rel1, rel2);
      }
    }
  }

  /**
    `__buildComparisonTable`: a new table with one comparison per pair of the assignment,
    in its order. Pair `i` compares record `relTable1_IDs[i]` of the first table with record
    `relTable2_IDs[i]` of the second, at their entry of the matrix.
  */
  method BuildComparisonTable(relTable1: RelTable, relTable2: RelTable,
                              relTable1_IDs: seq<nat>, relTable2_IDs: seq<nat>,
                              distanceMatrix: array2<MatchingDistance>) returns (compTable: ComparisonTable)
    requires |relTable1_IDs| <= |relTable2_IDs|
    requires forall i :: 0 <= i < |relTable1_IDs| ==>
               relTable1_IDs[i] < |relTable1.relations| && relTable1_IDs[i] < distanceMatrix.Length0
               && relTable2_IDs[i] < |relTable2.relations| && relTable2_IDs[i] < distanceMatrix.Length1
    ensures fresh(compTable)
    ensures |compTable.comparisons| == |relTable1_IDs|
    ensures forall i :: 0 <= i < |relTable1_IDs| ==>
              compTable.comparisons[i]
              == NewComparison(relTable1.relations[relTable1_IDs[i]], relTable2.relations[relTable2_IDs[i]],
                               distanceMatrix[relTable1_IDs[i], relTable2_IDs[i]])
  {
    compTable := new ComparisonTable();
    for i := 0 to |relTable1_IDs|
      invariant fresh(compTable) && |compTable.comparisons| == i
      invariant forall k :: 0 <= k < i ==>
                  compTable.comparisons[k]
                  == NewComparison(relTable1.relations[relTable1_IDs[k]], relTable2.relations[relTable2_IDs[k]],
                                   distanceMatrix[relTable1_IDs[k], relTable2_IDs[k]])
    {
      var rel1_ID := relTable1_IDs[i];
      var rel2_ID := relTable2_IDs[i];
      var rel1 := relTable1.Get(rel1_ID);
      var rel2 := relTable2.Get(rel2_ID);
      var matchingDist := distanceMatrix[rel1_ID, rel2_ID];
      compTable.Append(NewComparison(rel1, rel2, matchingDist));
    }
  }

  /**
    What `linear_sum_assignment` returns for an `n1` by `n2` matrix: `min(n1, n2)` pairs,
    the rows strictly increasing, the columns pairwise different, all in range.
  */
  predicate IsAssignment(rows: seq<nat>, cols: seq<nat>, n1: nat, n2: nat)
  {
    |rows| == |cols| == (if n1 < n2 then n1 else n2)
    && (forall i :: 0 <= i < |rows| ==> rows[i] < n1 && cols[i] < n2)
    && (forall i, j :: 0 <= i < j < |rows| ==> rows[i] < rows[j] && cols[i] != cols[j])
  }

  /**
    `TableEvaluator.run`, given the assignment of the records of the first table to those
    of the second. Each comparison pairs the assigned records at their distance. There is
    one comparison per record of the smaller table, and no record is compared twice.
  */
  method Evaluate(relTable1: RelTable, relTable2: RelTable, relTable1_IDs: seq<nat>, relTable2_IDs: seq<nat>)
    returns (compTable: ComparisonTable)
    requires IsAssignment(relTable1_IDs, relTable2_IDs, relTable1.Length(), relTable2.Length())
    ensures fresh(compTable)
    ensures |compTable.comparisons| == if relTable1.Length() < relTable2.Length() then relTable1.Length() else relTable2.Length()
    ensures forall i :: 0 <= i < |compTable.comparisons| ==>
              var rel1, rel2 := relTable1.relations[relTable1_IDs[i]], relTable2.relations[relTable2_IDs[i]];
              compTable.comparisons[i] == NewComparison(rel1, rel2, Distance(rel1, rel2))
    ensures forall i, j :: 0 <= i < j < |compTable.comparisons| ==>
              relTable1_IDs[i] != relTable1_IDs[j] && relTable2_IDs[i] != relTable2_IDs[j]
  {
    var distanceMatrix := GenerateDistMatrix(relTable1, relTable2);
    compTable := BuildComparisonTable(relTable1, relTable2, relTable1_IDs, relTable2_IDs, distanceMatrix);
  }

  /** For two empty tables the only assignment is empty, and so is the comparison table. */
  lemma EmptyTablesAssignment(rows: seq<nat>, cols: seq<nat>)
    requires IsAssignment(rows, cols, 0, 0)
    ensures rows == [] && cols == []
  {
  }
}
