/**
  Sequence helpers shared by the model: the minimum and maximum of a non-empty list of
  integers (Python's `min`/`max`), and the stable key sort that Python's `list.sort(key=...)`
  performs, given here by a functional insertion sort together with its three promises:
  the result is ordered by the key, it is a permutation of the input, and elements with
  equal keys keep their relative order.
*/
module Sequences {

  /** Python's `min` over a non-empty list. */
  function SeqMin(s: seq<int>): (m: int)
    requires |s| > 0
    ensures m in s
    ensures forall k :: 0 <= k < |s| ==> m <= s[k]
  {
    if |s| == 1 then s[0]
    else
      var rest := SeqMin(s[1..]);
      if s[0] <= rest then s[0] else rest
  }

  /** Python's `max` over a non-empty list. */
  function SeqMax(s: seq<int>): (m: int)
    requires |s| > 0
    ensures m in s
    ensures forall k :: 0 <= k < |s| ==> s[k] <= m
  {
    if |s| == 1 then s[0]
    else
      var rest := SeqMax(s[1..]);
      if s[0] >= rest then s[0] else rest
  }

  /** The minimum of a concatenation is the smaller of the two minima. */
  lemma {:induction false} SeqMinAppend(a: seq<int>, b: seq<int>)
    requires |a| > 0 && |b| > 0
    ensures SeqMin(a + b) == if SeqMin(a) <= SeqMin(b) then SeqMin(a) else SeqMin(b)
  {
    var m := SeqMin(a + b);
    var k :| 0 <= k < |a + b| && (a + b)[k] == m;
    if k < |a| {
      assert a[k] == m;
    } else {
      assert b[k - |a|] == m;
    }
    forall i | 0 <= i < |a| ensures m <= a[i] { assert (a + b)[i] == a[i]; }
    forall i | 0 <= i < |b| ensures m <= b[i] { assert (a + b)[|a| + i] == b[i]; }
  }

  /** The maximum of a concatenation is the larger of the two maxima. */
  lemma {:induction false} SeqMaxAppend(a: seq<int>, b: seq<int>)
    requires |a| > 0 && |b| > 0
    ensures SeqMax(a + b) == if SeqMax(a) >= SeqMax(b) then SeqMax(a) else SeqMax(b)
  {
    var m := SeqMax(a + b);
    var k :| 0 <= k < |a + b| && (a + b)[k] == m;
    if k < |a| {
      assert a[k] == m;
    } else {
      assert b[k - |a|] == m;
    }
    forall i | 0 <= i < |a| ensures a[i] <= m { assert (a + b)[i] == a[i]; }
    forall i | 0 <= i < |b| ensures b[i] <= m { assert (a + b)[|a| + i] == b[i]; }
  }

  /** The elements of `s` are in non-decreasing key order. */
  ghost predicate SortedBy<T>(s: seq<T>, key: T -> int)
  {
    forall i, j :: 0 <= i < j < |s| ==> key(s[i]) <= key(s[j])
  }

  /** The elements of `s` whose key is `k`, in their order in `s`. */
  function WithKey<T>(s: seq<T>, key: T -> int, k: int): seq<T>
  {
    if s == [] then []
    else (if key(s[0]) == k then [s[0]] else []) + WithKey(s[1..], key, k)
  }

  /** Inserts `x` after every element whose key is not greater than that of `x`. */
  function Insert<T>(x: T, s: seq<T>, key: T -> int): (r: seq<T>)
    ensures |r| == |s| + 1
  {
    if s == [] then [x]
    else if key(x) < key(s[0]) then [x] + s
    else [s[0]] + Insert(x, s[1..], key)
  }

  /** The stable sort of Python's `list.sort(key=...)`. */
  function StableSort<T>(s: seq<T>, key: T -> int): (r: seq<T>)
    ensures |r| == |s|
  {
    if s == [] then []
    else Insert(s[|s| - 1], StableSort(s[..|s| - 1], key), key)
  }

  lemma {:induction false} InsertPermutes<T>(x: T, s: seq<T>, key: T -> int)
    ensures multiset(Insert(x, s, key)) == multiset(s) + multiset{x}
  {
    if s != [] && key(x) >= key(s[0]) {
      InsertPermutes(x, s[1..], key);
      assert s == [s[0]] + s[1..];
    }
  }

  /** Inserting an element whose key is at least `b` into a list whose keys all are keeps every key at least `b`. */
  lemma {:induction false} InsertKeyBound<T>(x: T, s: seq<T>, key: T -> int, b: int)
    requires b <= key(x) && forall j :: 0 <= j < |s| ==> b <= key(s[j])
    ensures forall j :: 0 <= j < |Insert(x, s, key)| ==> b <= key(Insert(x, s, key)[j])
  {
    if s != [] && key(x) >= key(s[0]) {
      InsertKeyBound(x, s[1..], key, b);
      var r := Insert(x, s, key);
      assert r == [s[0]] + Insert(x, s[1..], key);
      forall j | 0 <= j < |r| ensures b <= key(r[j]) {
        if j > 0 { assert r[j] == Insert(x, s[1..], key)[j - 1]; }
      }
    }
  }

  lemma {:induction false} InsertSorted<T>(x: T, s: seq<T>, key: T -> int)
    requires SortedBy(s, key)
    ensures SortedBy(Insert(x, s, key), key)
  {
    if s == [] {
    } else if key(x) < key(s[0]) {
      var r := [x] + s;
      forall i, j | 0 <= i < j < |r| ensures key(r[i]) <= key(r[j]) {
        if i > 0 { assert r[i] == s[i - 1] && r[j] == s[j - 1]; }
        else { assert r[j] == s[j - 1]; assert key(s[0]) <= key(s[j - 1]); }
      }
    } else {
      var rest := s[1..];
      var tail := Insert(x, rest, key);
      assert SortedBy(rest, key);
      InsertSorted(x, rest, key);
      assert forall j :: 0 <= j < |rest| ==> key(s[0]) <= key(rest[j]) by {
        forall j | 0 <= j < |rest| ensures key(s[0]) <= key(rest[j]) { assert rest[j] == s[j + 1]; }
      }
      InsertKeyBound(x, rest, key, key(s[0]));
      var r := [s[0]] + tail;
      forall i, j | 0 <= i < j < |r| ensures key(r[i]) <= key(r[j]) {
        if i > 0 { assert r[i] == tail[i - 1] && r[j] == tail[j - 1]; }
        else { assert r[j] == tail[j - 1]; }
      }
    }
  }

  /** The sort returns a permutation of its input. */
  lemma {:induction false} StableSortPermutes<T>(s: seq<T>, key: T -> int)
    ensures multiset(StableSort(s, key)) == multiset(s)
  {
    if s != [] {
      var init, last := s[..|s| - 1], s[|s| - 1];
      StableSortPermutes(init, key);
      InsertPermutes(last, StableSort(init, key), key);
      assert s == init + [last];
    }
  }

  /** The sort orders its result by the key. */
  lemma {:induction false} StableSortSorted<T>(s: seq<T>, key: T -> int)
    ensures SortedBy(StableSort(s, key), key)
  {
    if s != [] {
      var init, last := s[..|s| - 1], s[|s| - 1];
      StableSortSorted(init, key);
      InsertSorted(last, StableSort(init, key), key);
    }
  }

  lemma {:induction false} WithKeyAppend<T>(a: seq<T>, b: seq<T>, key: T -> int, k: int)
    ensures WithKey(a + b, key, k) == WithKey(a, key, k) + WithKey(b, key, k)
  {
    if a != [] {
      var h := if key(a[0]) == k then [a[0]] else [];
      assert (a + b)[0] == a[0];
      assert (a + b)[1..] == a[1..] + b;
      WithKeyAppend(a[1..], b, key, k);
      calc {
        WithKey(a + b, key, k);
        h + WithKey(a[1..] + b, key, k);
        h + (WithKey(a[1..], key, k) + WithKey(b, key, k));
        (h + WithKey(a[1..], key, k)) + WithKey(b, key, k);
      }
    } else {
      assert a + b == b;
    }
  }

  lemma {:induction false} WithKeyNone<T>(s: seq<T>, key: T -> int, k: int)
    requires forall j :: 0 <= j < |s| ==> key(s[j]) != k
    ensures WithKey(s, key, k) == []
  {
    if s != [] {
      WithKeyNone(s[1..], key, k);
    }
  }

  /** Inserting `x` into a sorted list appends `x` to the run of elements with its key. */
  lemma {:induction false} InsertWithKey<T>(x: T, s: seq<T>, key: T -> int, k: int)
    requires SortedBy(s, key)
    ensures WithKey(Insert(x, s, key), key, k)
         == WithKey(s, key, k) + (if key(x) == k then [x] else [])
  {
    if s == [] {
    } else if key(x) < key(s[0]) {
      if key(x) == k {
        WithKeyNone(s, key, k);
      }
      assert [x] + s == [x] + s;
      WithKeyAppend([x], s, key, k);
    } else {
      assert SortedBy(s[1..], key);
      InsertWithKey(x, s[1..], key, k);
      WithKeyAppend([s[0]], Insert(x, s[1..], key), key, k);
    }
  }

  /** Stability: for every key, the elements with that key keep their order. */
  lemma {:induction false} StableSortKeepsOrderOfEqualKeys<T>(s: seq<T>, key: T -> int, k: int)
    ensures WithKey(StableSort(s, key), key, k) == WithKey(s, key, k)
  {
    if s != [] {
      var init, last := s[..|s| - 1], s[|s| - 1];
      StableSortKeepsOrderOfEqualKeys(init, key, k);
      StableSortSorted(init, key);
      InsertWithKey(last, StableSort(init, key), key, k);
      assert s == init + [last];
      WithKeyAppend(init, [last], key, k);
    }
  }

  /** A list that is already ordered by the key is left as it is. */
  lemma {:induction false} StableSortOfSorted<T>(s: seq<T>, key: T -> int)
    requires SortedBy(s, key)
    ensures StableSort(s, key) == s
  {
    if s != [] {
      var init, last := s[..|s| - 1], s[|s| - 1];
      assert SortedBy(init, key);
      StableSortOfSorted(init, key);
      InsertAtEnd(last, init, key);
      assert s == init + [last];
    }
  }

  lemma {:induction false} InsertAtEnd<T>(x: T, s: seq<T>, key: T -> int)
    requires forall j :: 0 <= j < |s| ==> key(s[j]) <= key(x)
    ensures Insert(x, s, key) == s + [x]
  {
    if s != [] {
      InsertAtEnd(x, s[1..], key);
      assert s == [s[0]] + s[1..];
    }
  }

}
