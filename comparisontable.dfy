/**
  The comparison of two relation records (rsttace/core/comparisontable.py): the five-level
  matching distance, the equivalency flags a `Comparison` computes once when it is made,
  and `ComparisonTable`, a list of comparisons that only grows at the end.
*/
module ComparisonModel {
  import opened Wrappers
  import opened RelationsTable

  /** `MatchingDistance`, an `IntEnum` with the values 0 to 4 in this order. */
  datatype MatchingDistance = CompleteSameCS | SameCSameA | SwitchedCAndA | PartiallySameCS | NoMatching

  /** The integer value of a distance. */
  function DistanceValue(d: MatchingDistance): (v: nat)
    ensures v <= 4
  {
    match d
    case CompleteSameCS => 0
    case SameCSameA => 1
    case SwitchedCAndA => 2
    case PartiallySameCS => 3
    case NoMatching => 4
  }

  /** `MatchingDistance(v)`: the distance with value `v`, if there is one. */
  function DistanceOfValue(v: int): (d: Option<MatchingDistance>)
    ensures d.Some? <==> 0 <= v <= 4
  {
    if v == 0 then Some(CompleteSameCS)
    else if v == 1 then Some(SameCSameA)
    else if v == 2 then Some(SwitchedCAndA)
    else if v == 3 then Some(PartiallySameCS)
    else if v == 4 then Some(NoMatching)
    else None
  }

  /**
    The values are 0 < 1 < 2 < 3 < 4 in declaration order, and each distance is the one
    its value names.
  */
  lemma DistanceValues(d: MatchingDistance)
    ensures DistanceOfValue(DistanceValue(d)) == Some(d)
    ensures DistanceValue(CompleteSameCS) < DistanceValue(SameCSameA) < DistanceValue(SwitchedCAndA)
            < DistanceValue(PartiallySameCS) < DistanceValue(NoMatching)
  {
  }

  /** `NuclearityEquivalency` */
  datatype NuclearityEquivalency = NuclearityEquivalency(equalDirection: bool, equalMonoMulti: bool)

  /** `Equivalency`: one flag per dimension of the comparison. */
  datatype Equivalency = Equivalency(
    nuclearity: NuclearityEquivalency,
    relation: bool,
    constituent: bool,
    attachmentPoint: bool)

  /** `Comparison`: two relation records, their distance and their equivalency. */
  datatype Comparison = Comparison(
    relation1: Relation,
    relation2: Relation,
    matchingDistance: MatchingDistance,
    evaluation: Equivalency)

  /** `__compareRelations` */
  function CompareRelations(rel1: Relation, rel2: Relation): bool
  {
    rel1.name == rel2.name
  }

  /** `__compareRelElem`: equal range and equal nuclearity. */
  function CompareRelElem(elem1: RelElement, elem2: RelElement): bool
  {
    elem1.minID == elem2.minID && elem1.maxID == elem2.maxID && elem1.isNuclear == elem2.isNuclear
  }

  /** Two elements compare equal exactly when they are equal once the leaf flag is ignored. */
  lemma CompareRelElemIgnoresLeaf(elem1: RelElement, elem2: RelElement)
    ensures CompareRelElem(elem1, elem2) <==> elem1.(isLeaf := false) == elem2.(isLeaf := false)
  {
  }

  /**
    `__calculateNuclearity`: 0 for a multi-nuclear relation, 1 when the constituent lies
    before the attachment point, 2 when it lies after it, and 0 otherwise.
  */
  function CalculateNuclearity(rel: Relation): (d: nat)
    ensures d <= 2
  {
    if rel.isMultiNuclear then 0
    else if rel.constituent.maxID < rel.attachmentPoint.minID then 1
    else if rel.constituent.minID > rel.attachmentPoint.maxID then 2
    else 0
  }

  /** An element whose range is not reversed. */
  predicate Ordered(e: RelElement)
  {
    e.minID <= e.maxID
  }

  /** Segment `x` lies in the range of `e`. */
  predicate InRange(e: RelElement, x: int)
  {
    e.minID <= x <= e.maxID
  }

  /**
    For a mono-nuclear relation whose two ranges are not reversed, the direction is 1
    exactly when the constituent ends before the attachment point starts, 2 exactly when
    the attachment point ends before the constituent starts, and 0 exactly when the two
    ranges share a segment.
  */
  lemma NuclearityDirection(rel: Relation)
    requires !rel.isMultiNuclear && Ordered(rel.constituent) && Ordered(rel.attachmentPoint)
    ensures var c, a := rel.constituent, rel.attachmentPoint;
            (CalculateNuclearity(rel) == 1 <==> c.maxID < a.minID)
            && (CalculateNuclearity(rel) == 2 <==> a.maxID < c.minID)
            && (CalculateNuclearity(rel) == 0 <==> exists x :: InRange(c, x) && InRange(a, x))
  {
    var c, a := rel.constituent, rel.attachmentPoint;
    if c.minID <= a.maxID && a.minID <= c.maxID {
      var x := if c.minID < a.minID then a.minID else c.minID;
      assert InRange(c, x) && InRange(a, x);
    }
  }

  /** `__compareNuclearity` */
  function CompareNuclearity(rel1: Relation, rel2: Relation): NuclearityEquivalency
  {
    NuclearityEquivalency(CalculateNuclearity(rel1) == CalculateNuclearity(rel2),
                          rel1.isMultiNuclear == rel2.isMultiNuclear)
  }

  /** `__calcEquivalency` */
  function CalcEquivalency(rel1: Relation, rel2: Relation): Equivalency
  {
    Equivalency(CompareNuclearity(rel1, rel2),
                CompareRelations(rel1, rel2),
                CompareRelElem(rel1.constituent, rel2.constituent),
                CompareRelElem(rel1.attachmentPoint, rel2.attachmentPoint))
  }

  /** `Comparison(rel1, rel2, dist)`: both records and the distance kept, as well as their equivalency. */
  function NewComparison(rel1: Relation, rel2: Relation, dist: MatchingDistance): (c: Comparison)
    ensures c.relation1 == rel1 && c.relation2 == rel2 && c.matchingDistance == dist
    ensures c.evaluation == CalcEquivalency(rel1, rel2)
  {
    Comparison(rel1, rel2, dist, CalcEquivalency(rel1, rel2))
  }

  /** Which record is first does not change any flag. */
  lemma EquivalencySymmetric(rel1: Relation, rel2: Relation)
    ensures CalcEquivalency(rel1, rel2) == CalcEquivalency(rel2, rel1)
  {
  }

  /** A record agrees with itself in every dimension. */
  lemma EquivalencyReflexive(rel: Relation)
    ensures var e := CalcEquivalency(rel, rel);
            e.relation && e.constituent && e.attachmentPoint
            && e.nuclearity.equalDirection && e.nuclearity.equalMonoMulti
  {
  }

  /**
    Two multi-nuclear records always agree in direction and in kind. A mono-nuclear and a
    multi-nuclear record never agree in kind, and they agree in direction exactly when the
    mono-nuclear one has direction 0.
  */
  lemma NuclearityOfKinds(rel1: Relation, rel2: Relation)
    ensures rel1.isMultiNuclear && rel2.isMultiNuclear ==>
              CompareNuclearity(rel1, rel2) == NuclearityEquivalency(true, true)
    ensures rel1.isMultiNuclear && !rel2.isMultiNuclear ==>
              !CompareNuclearity(rel1, rel2).equalMonoMulti
              && (CompareNuclearity(rel1, rel2).equalDirection <==> CalculateNuclearity(rel2) == 0)
  {
  }

  /** `ComparisonTable`: the private list of comparisons is the field `comparisons`. */
  class ComparisonTable {
    var comparisons: seq<Comparison>

    /** A new table is empty. */
    constructor ()
      ensures comparisons == []
    {
      comparisons := [];
    }

    /** `get(index)` for an index in range: the comparison in insertion position `index`. */
    method Get(index: nat) returns (e: Comparison)
      requires index < |comparisons|
      ensures e == comparisons[index]
    {
      e := comparisons[index];
    }

    /** `append(e)`: `e` goes at the end and every earlier comparison keeps its position. */
    method Append(e: Comparison)
      modifies this
      ensures comparisons == old(comparisons) + [e]
      ensures |comparisons| == old(|comparisons|) + 1 && comparisons[old(|comparisons|)] == e
      ensures forall i :: 0 <= i < old(|comparisons|) ==> comparisons[i] == old(comparisons[i])
    {
      comparisons := comparisons + [e];
    }

    /** `length()` */
    function Length(): (n: nat)
      reads this
      ensures n == |comparisons|
    {
      |comparisons|
    }

    /** `__iter__`: the comparisons in insertion order. */
    function Elements(): (s: seq<Comparison>)
      reads this
      ensures |s| == Length() && forall i :: 0 <= i < |s| ==> s[i] == comparisons[i]
    {
      comparisons
    }
  }
}
