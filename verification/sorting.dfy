/** Stable sorting by an integer key and filtering out one value: the two list
    operations behind the selector's toggle. */
module Sorting {

  /** Ordered by key, equal keys allowed. */
  predicate Sorted<T>(key: T -> int, s: seq<T>) {
    forall i, j :: 0 <= i < j < |s| ==> key(s[i]) <= key(s[j])
  }

  /** Strictly ordered by key; such a list holds no value twice. */
  predicate Strict<T>(key: T -> int, s: seq<T>) {
    forall i, j :: 0 <= i < j < |s| ==> key(s[i]) < key(s[j])
  }

  /** Where a stable sort puts `x` when it follows the elements of `s`:
      after every leading element whose key does not exceed its own. */
  function InsertPos<T>(key: T -> int, s: seq<T>, x: T): (k: nat)
    ensures k <= |s|
    ensures forall i :: 0 <= i < k ==> key(s[i]) <= key(x)
    ensures k < |s| ==> key(x) < key(s[k])
  {
    if |s| == 0 || key(x) < key(s[0]) then 0
    else 1 + InsertPos(key, s[1..], x)
  }

  /** In a sorted list, every element from the insertion position on has a larger key. */
  lemma InsertPosAfter<T>(key: T -> int, s: seq<T>, x: T)
    requires Sorted(key, s)
    ensures forall i :: InsertPos(key, s, x) <= i < |s| ==> key(x) < key(s[i])
  {
  }

  /** The insertion position is the only one with no larger key before it and
      a larger key right after it. */
  lemma {:induction false} InsertPosAt<T>(key: T -> int, s: seq<T>, x: T, k: int)
    requires 0 <= k <= |s|
    requires forall i :: 0 <= i < k ==> key(s[i]) <= key(x)
    requires k < |s| ==> key(x) < key(s[k])
    ensures InsertPos(key, s, x) == k
  {
    if k > 0 {
      InsertPosAt(key, s[1..], x, k - 1);
    }
  }

  /** `x` placed into `s` at its stable sort position. */
  function Insert<T>(key: T -> int, s: seq<T>, x: T): (r: seq<T>)
    ensures |r| == |s| + 1
    ensures multiset(r) == multiset(s) + multiset{x}
  {
    var k := InsertPos(key, s, x);
    assert s == s[..k] + s[k..];
    s[..k] + [x] + s[k..]
  }

  /** Where each element of `s` ends up after inserting `x`. */
  lemma InsertIndices<T>(key: T -> int, s: seq<T>, x: T)
    ensures var k := InsertPos(key, s, x);
      var r := Insert(key, s, x);
      && r[k] == x
      && (forall i :: 0 <= i < k ==> r[i] == s[i])
      && (forall i :: k < i < |r| ==> r[i] == s[i - 1])
  {
    var k := InsertPos(key, s, x);
    var r := Insert(key, s, x);
    var front, back := s[..k], s[k..];
    assert r == front + [x] + back;
    forall i | 0 <= i < k
      ensures r[i] == s[i]
    {
      assert r[i] == front[i];
    }
    forall i | k < i < |r|
      ensures r[i] == s[i - 1]
    {
      assert r[i] == back[i - k - 1];
    }
  }

  /** Inserting into a sorted list keeps it sorted. */
  lemma InsertSorted<T>(key: T -> int, s: seq<T>, x: T)
    requires Sorted(key, s)
    ensures Sorted(key, Insert(key, s, x))
  {
    var k := InsertPos(key, s, x);
    var r := Insert(key, s, x);
    InsertPosAfter(key, s, x);
    InsertIndices(key, s, x);
    forall i, j | 0 <= i < j < |r|
      ensures key(r[i]) <= key(r[j])
    {
      if j < k {
        assert r[i] == s[i] && r[j] == s[j];
      } else if k < i {
        assert r[i] == s[i - 1] && r[j] == s[j - 1];
      } else if j == k {
        assert r[i] == s[i];
      } else if i == k {
        assert r[j] == s[j - 1];
      } else {
        assert r[i] == s[i] && r[j] == s[j - 1];
      }
    }
  }

  /** The stable sort by key, as insertion sort: each element goes after the
      earlier ones with an equal key. */
  function SortByKey<T>(key: T -> int, s: seq<T>): (r: seq<T>)
    ensures Sorted(key, r)
    ensures multiset(r) == multiset(s)
  {
    if |s| == 0 then []
    else
      var init := SortByKey(key, s[..|s| - 1]);
      assert s == s[..|s| - 1] + [s[|s| - 1]];
      InsertSorted(key, init, s[|s| - 1]);
      Insert(key, init, s[|s| - 1])
  }

  /** The front of a sorted list is sorted and bounded by its last key. */
  lemma SortedSplit<T>(key: T -> int, s: seq<T>)
    requires Sorted(key, s) && |s| > 0
    ensures Sorted(key, s[..|s| - 1])
    ensures forall i :: 0 <= i < |s| - 1 ==> key(s[i]) <= key(s[|s| - 1])
  {
  }

  /** Sorting an already sorted list changes nothing. */
  lemma {:induction false} SortSorted<T>(key: T -> int, s: seq<T>)
    requires Sorted(key, s)
    ensures SortByKey(key, s) == s
  {
    if |s| > 0 {
      var init := s[..|s| - 1];
      var x := s[|s| - 1];
      SortedSplit(key, s);
      SortSorted(key, init);
      InsertAtEnd(key, init, x);
      assert init + [x] == s;
    }
  }

  /** A value with a key no smaller than any in the list is inserted at the end. */
  lemma InsertAtEnd<T>(key: T -> int, s: seq<T>, x: T)
    requires forall i :: 0 <= i < |s| ==> key(s[i]) <= key(x)
    ensures Insert(key, s, x) == s + [x]
  {
    InsertPosAt(key, s, x, |s|);
    assert s[..|s|] == s && s[|s|..] == [];
  }

  /** Sorting a sorted list with one value appended inserts that value. */
  lemma SortInsertsOne<T>(key: T -> int, s: seq<T>, x: T)
    requires Sorted(key, s)
    ensures SortByKey(key, s + [x]) == Insert(key, s, x)
  {
    SortSorted(key, s);
    assert (s + [x])[..|s|] == s;
  }

  /** `s` with every occurrence of `x` filtered out. */
  function Remove<T(==)>(s: seq<T>, x: T): (r: seq<T>)
    ensures x !in r
    ensures multiset(r) == multiset(s)[x := 0]
  {
    if |s| == 0 then []
    else
      assert s == [s[0]] + s[1..];
      if s[0] == x then Remove(s[1..], x) else [s[0]] + Remove(s[1..], x)
  }

  /** Filtering distributes over concatenation. */
  lemma {:induction false} RemoveAppend<T>(a: seq<T>, b: seq<T>, x: T)
    ensures Remove(a + b, x) == Remove(a, x) + Remove(b, x)
  {
    if |a| > 0 {
      assert (a + b)[0] == a[0];
      assert (a + b)[1..] == a[1..] + b;
      RemoveAppend(a[1..], b, x);
    } else {
      assert a + b == b;
    }
  }

  /** Filtering out an absent value changes nothing. */
  lemma {:induction false} RemoveAbsent<T>(s: seq<T>, x: T)
    requires x !in s
    ensures Remove(s, x) == s
  {
    if |s| > 0 {
      RemoveAbsent(s[1..], x);
      assert s == [s[0]] + s[1..];
    }
  }

  /** Filtering a value out of the one-element list holding it leaves nothing. */
  lemma RemoveSingle<T>(x: T)
    ensures Remove([x], x) == []
  {
    assert [x][1..] == [];
  }

  /** Filtering `x` out of `a + [x] + b`, where `a` and `b` lack it, gives `a + b`. */
  lemma RemoveMiddle<T>(a: seq<T>, x: T, b: seq<T>)
    requires x !in a && x !in b
    ensures Remove(a + [x] + b, x) == a + b
  {
    RemoveAppend(a + [x], b, x);
    RemoveAppend(a, [x], x);
    RemoveAbsent(a, x);
    RemoveAbsent(b, x);
    RemoveSingle(x);
    assert Remove(a + [x], x) == a + [];
    assert a + [] == a;
  }

  /** Filtering out a value just inserted into a list that lacked it restores the list. */
  lemma RemoveInserted<T>(key: T -> int, s: seq<T>, x: T)
    requires x !in s
    ensures x in Insert(key, s, x)
    ensures Remove(Insert(key, s, x), x) == s
  {
    var k := InsertPos(key, s, x);
    assert Insert(key, s, x)[k] == x;
    assert s[..k] + s[k..] == s;
    RemoveMiddle(s[..k], x, s[k..]);
  }

  /** In a list without duplicates, the value at position `k` occurs nowhere else. */
  lemma DistinctElsewhere<T>(s: seq<T>, k: int)
    requires 0 <= k < |s|
    requires forall i, j :: 0 <= i < j < |s| ==> s[i] != s[j]
    ensures s[k] !in s[..k] && s[k] !in s[k + 1..]
  {
    var a, b := s[..k], s[k + 1..];
    forall i | 0 <= i < |a|
      ensures a[i] != s[k]
    {
      assert a[i] == s[i];
    }
    forall i | 0 <= i < |b|
      ensures b[i] != s[k]
    {
      assert b[i] == s[k + 1 + i];
    }
  }

  /** Filtering out the value at position `k`, found nowhere else, deletes exactly that position. */
  lemma RemoveOnly<T>(s: seq<T>, k: int)
    requires 0 <= k < |s|
    requires s[k] !in s[..k] && s[k] !in s[k + 1..]
    ensures Remove(s, s[k]) == s[..k] + s[k + 1..]
  {
    var a, x, b := s[..k], s[k], s[k + 1..];
    assert |a + [x] + b| == |s|;
    forall i | 0 <= i < |s|
      ensures (a + [x] + b)[i] == s[i]
    {
      if i < k {
        assert (a + [x] + b)[i] == a[i];
      } else if i > k {
        assert (a + [x] + b)[i] == b[i - k - 1];
      }
    }
    assert a + [x] + b == s;
    RemoveMiddle(a, x, b);
  }

  /** In a list without duplicates, filtering out the value at position `k`
      deletes exactly that position. */
  lemma RemoveAt<T>(s: seq<T>, k: int)
    requires 0 <= k < |s|
    requires forall i, j :: 0 <= i < j < |s| ==> s[i] != s[j]
    ensures Remove(s, s[k]) == s[..k] + s[k + 1..]
  {
    DistinctElsewhere(s, k);
    RemoveOnly(s, k);
  }

  /** A strict list holds no value twice. */
  lemma StrictDistinct<T>(key: T -> int, s: seq<T>)
    requires Strict(key, s)
    ensures forall i, j :: 0 <= i < j < |s| ==> s[i] != s[j]
  {
  }

  /** Deleting one position keeps a strict list strict. */
  lemma StrictDelete<T>(key: T -> int, s: seq<T>, k: int)
    requires Strict(key, s) && 0 <= k < |s|
    ensures Strict(key, s[..k] + s[k + 1..])
  {
    var t := s[..k] + s[k + 1..];
    assert forall i :: 0 <= i < |t| ==> t[i] == s[if i < k then i else i + 1];
  }

  /** Inserting a value whose key differs from every key of a strict list keeps it strict. */
  lemma InsertStrict<T>(key: T -> int, s: seq<T>, x: T)
    requires Strict(key, s)
    requires forall i :: 0 <= i < |s| ==> key(s[i]) != key(x)
    ensures Strict(key, Insert(key, s, x))
  {
    var k := InsertPos(key, s, x);
    var r := Insert(key, s, x);
    InsertPosAfter(key, s, x);
    InsertIndices(key, s, x);
    forall i, j | 0 <= i < j < |r|
      ensures key(r[i]) < key(r[j])
    {
      if j < k {
        assert r[i] == s[i] && r[j] == s[j];
      } else if k < i {
        assert r[i] == s[i - 1] && r[j] == s[j - 1];
      } else if j == k {
        assert r[i] == s[i] && key(s[i]) != key(x);
      } else if i == k {
        assert r[j] == s[j - 1];
      } else {
        assert r[i] == s[i] && r[j] == s[j - 1];
      }
    }
  }

  /** A value deleted from a strict list is re-inserted at the same position. */
  lemma InsertDeleted<T>(key: T -> int, s: seq<T>, k: int)
    requires Strict(key, s) && 0 <= k < |s|
    ensures Insert(key, s[..k] + s[k + 1..], s[k]) == s
  {
    var t := s[..k] + s[k + 1..];
    var x := s[k];
    assert forall i :: 0 <= i < |t| ==> t[i] == s[if i < k then i else i + 1];
    StrictDelete(key, s, k);
    InsertPosAfter(key, t, x);
    assert k < |t| ==> t[k] == s[k + 1];
    InsertPosAt(key, t, x, k);
    assert t[..k] == s[..k];
    assert t[k..] == s[k + 1..];
    assert s == s[..k] + [x] + s[k + 1..];
  }
}
