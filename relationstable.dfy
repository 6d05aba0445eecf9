/**
  The relation table (rsttace/core/relationstable.py): the records that the table generator
  extracts from a discourse tree, and `RelTable`, the list of records that only grows at
  the end, can be sorted by a key and can be concatenated with another table.
*/
module RelationsTable {
  import opened Sequences

  /**
    One side of a relation: the segment range it covers, whether it is a nucleus and whether
    it is a single segment (a node with text).
  */
  datatype RelElement = RelElement(minID: int, maxID: int, isNuclear: bool, isLeaf: bool)

  /**
    A relation record: its name, its kind, the constituent and the attachment point it joins,
    and the anchors ("central subconstituent") of the nodes it spans.
  */
  datatype Relation = Relation(
    name: string,
    isMultiNuclear: bool,
    constituent: RelElement,
    attachmentPoint: RelElement,
    centralSubconstituent: seq<RelElement>)

  /** `RelTable`: the private list of records is the field `relations`. */
  class RelTable {
    var relations: seq<Relation>

    /** A new table is empty. */
    constructor ()
      ensures relations == []
    {
      relations := [];
    }

    /** `get(index)` for an index in range: the record in insertion position `index`. */
    method Get(index: nat) returns (e: Relation)
      requires index < |relations|
      ensures e == relations[index]
    {
      e := relations[index];
    }

    /** `append(e)`: `e` goes at the end and every earlier record keeps its position. */
    method Append(e: Relation)
      modifies this
      ensures relations == old(relations) + [e]
      ensures |relations| == old(|relations|) + 1 && relations[old(|relations|)] == e
      ensures forall i :: 0 <= i < old(|relations|) ==> relations[i] == old(relations[i])
    {
      relations := relations + [e];
    }

    /**
      `sort(key)`: Python's in-place stable sort. The records are permuted into
      non-decreasing key order, and records with equal keys keep their order.
    */
    method Sort(key: Relation -> int)
      modifies this
      ensures relations == StableSort(old(relations), key)
      ensures multiset(relations) == multiset(old(relations))
      ensures SortedBy(relations, key)
      ensures forall k :: WithKey(relations, key, k) == WithKey(old(relations), key, k)
    {
      var before := relations;
      relations := StableSort(relations, key);
      StableSortPermutes(before, key);
      StableSortSorted(before, key);
      forall k ensures WithKey(relations, key, k) == WithKey(before, key, k) {
        StableSortKeepsOrderOfEqualKeys(before, key, k);
      }
    }

    /** `length()` */
    function Length(): (n: nat)
      reads this
      ensures n == |relations|
    {
      |relations|
    }

    /** `__iter__`: the records in insertion order. */
    function Elements(): (s: seq<Relation>)
      reads this
      ensures |s| == Length() && forall i :: 0 <= i < |s| ==> s[i] == relations[i]
    {
      relations
    }

    /**
      `self + other`: a new table holding this table's records followed by the other's;
      neither operand changes (the method modifies nothing that existed before it).
    */
    method Add(other: RelTable) returns (t: RelTable)
      ensures fresh(t)
      ensures t.relations == relations + other.relations
      ensures t.Length() == Length() + other.Length()
    {
      t := new RelTable();
      t.relations := t.relations + relations;
      t.relations := t.relations + other.relations;
    }
  }
}
