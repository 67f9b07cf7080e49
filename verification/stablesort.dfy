/**
 A stable sort by an integer key, smallest key first. Both sorts of the scoring
 engine are of this kind: the store's `sort("timestamp", 1)` and Python's
 `sorted(..., key=..., reverse=True)`, which keeps equal elements in their
 original order.
 */
module StableSort {
  import opened Seqs

  /** s is ordered by key, smallest first. */
  ghost predicate SortedBy<T>(s: seq<T>, key: T -> int) {
    forall i, j :: 0 <= i < j < |s| ==> key(s[i]) <= key(s[j])
  }

  /** Every element of s has a key of at least k. */
  ghost predicate AllAtLeast<T>(s: seq<T>, key: T -> int, k: int) {
    forall i :: 0 <= i < |s| ==> k <= key(s[i])
  }

  /** The elements of s whose key is k, in the order s holds them. */
  function WithKey<T>(s: seq<T>, key: T -> int, k: int): seq<T> {
    if s == [] then []
    else (if key(s[0]) == k then [s[0]] else []) + WithKey(s[1..], key, k)
  }

  /** i is the first position holding the smallest key of s. */
  ghost predicate IsFirstMin<T>(s: seq<T>, key: T -> int, i: int) {
    && 0 <= i < |s|
    && (forall j :: 0 <= j < |s| ==> key(s[i]) <= key(s[j]))
    && (forall j :: 0 <= j < i ==> key(s[i]) < key(s[j]))
  }

  /** The first position holding the smallest key. */
  function FirstMin<T>(s: seq<T>, key: T -> int): (i: nat)
    requires |s| > 0
    ensures IsFirstMin(s, key, i)
  {
    if |s| == 1 then 0
    else
      var j := FirstMin(s[..|s| - 1], key);
      if key(s[|s| - 1]) < key(s[j]) then |s| - 1 else j
  }

  /** Places x before the first element whose key is not smaller than its own. */
  function Insert<T>(x: T, s: seq<T>, key: T -> int): (r: seq<T>)
    ensures multiset(r) == multiset(s) + multiset{x}
    ensures |r| == |s| + 1
  {
    if s == [] || key(x) <= key(s[0]) then [x] + s
    else
      assert s == [s[0]] + s[1..];
      [s[0]] + Insert(x, s[1..], key)
  }

  /** Insertion sort: sorts the tail, then inserts the head in front of its equals. */
  function SortBy<T>(s: seq<T>, key: T -> int): (r: seq<T>)
    ensures multiset(r) == multiset(s)
    ensures |r| == |s|
  {
    if s == [] then []
    else
      assert s == [s[0]] + s[1..];
      Insert(s[0], SortBy(s[1..], key), key)
  }

  lemma MultisetBound<T>(s: seq<T>, key: T -> int, k: int, r: seq<T>)
    requires AllAtLeast(s, key, k)
    requires multiset(r) <= multiset(s)
    ensures AllAtLeast(r, key, k)
  {
    forall i | 0 <= i < |r|
      ensures k <= key(r[i])
    {
      assert r[i] in multiset(s);
    }
  }

  lemma {:induction false} InsertSorted<T>(x: T, s: seq<T>, key: T -> int)
    requires SortedBy(s, key)
    ensures SortedBy(Insert(x, s, key), key)
  {
    if s != [] && key(s[0]) < key(x) {
      InsertSorted(x, s[1..], key);
      var rest := Insert(x, s[1..], key);
      assert AllAtLeast(s[1..] + [x], key, key(s[0]));
      assert multiset(rest) == multiset(s[1..] + [x]);
      MultisetBound(s[1..] + [x], key, key(s[0]), rest);
    }
  }

  /** The sort returns its input in non-decreasing key order. */
  lemma {:induction false} SortBySorted<T>(s: seq<T>, key: T -> int)
    ensures SortedBy(SortBy(s, key), key)
  {
    if s != [] {
      SortBySorted(s[1..], key);
      InsertSorted(s[0], SortBy(s[1..], key), key);
    }
  }

  lemma {:induction false} InsertWithKey<T>(x: T, s: seq<T>, key: T -> int, k: int)
    ensures WithKey(Insert(x, s, key), key, k) == (if key(x) == k then [x] else []) + WithKey(s, key, k)
  {
    if s != [] && key(s[0]) < key(x) {
      var rest := Insert(x, s[1..], key);
      InsertWithKey(x, s[1..], key, k);
      assert Insert(x, s, key) == [s[0]] + rest;
      assert ([s[0]] + rest)[1..] == rest;
      assert WithKey(Insert(x, s, key), key, k) == (if key(s[0]) == k then [s[0]] else []) + WithKey(rest, key, k);
    } else {
      assert ([x] + s)[1..] == s;
    }
  }

  /** Stability: among elements with equal keys the sort keeps the input order. */
  lemma {:induction false} SortByStable<T>(s: seq<T>, key: T -> int, k: int)
    ensures WithKey(SortBy(s, key), key, k) == WithKey(s, key, k)
  {
    if s != [] {
      SortByStable(s[1..], key, k);
      InsertWithKey(s[0], SortBy(s[1..], key), key, k);
    }
  }

  /** Stability for every key at once. */
  lemma SortByStableAll<T>(s: seq<T>, key: T -> int)
    ensures forall k :: WithKey(SortBy(s, key), key, k) == WithKey(s, key, k)
  {
    forall k
      ensures WithKey(SortBy(s, key), key, k) == WithKey(s, key, k)
    {
      SortByStable(s, key, k);
    }
  }

  /** An element no larger than any of t is inserted in front. */
  lemma InsertHeadMin<T>(x: T, t: seq<T>, key: T -> int)
    requires AllAtLeast(t, key, key(x))
    ensures Insert(x, t, key)[0] == x
  {
  }

  /** An element larger than the head of t is inserted behind it. */
  lemma InsertHeadSmaller<T>(x: T, t: seq<T>, key: T -> int)
    requires t != [] && key(t[0]) < key(x)
    ensures Insert(x, t, key)[0] == t[0]
  {
  }

  /** The first minimum at position 0: nothing behind it is smaller. */
  lemma FirstMinAtHead<T>(s: seq<T>, key: T -> int)
    requires IsFirstMin(s, key, 0)
    ensures AllAtLeast(s[1..], key, key(s[0]))
  {
    forall j | 0 <= j < |s[1..]|
      ensures key(s[0]) <= key(s[1..][j])
    {
      assert s[1..][j] == s[j + 1];
    }
  }

  /** The first minimum behind position 0 is the first minimum of the tail, and smaller than the head. */
  lemma FirstMinInTail<T>(s: seq<T>, key: T -> int, i: int)
    requires IsFirstMin(s, key, i) && i > 0
    ensures IsFirstMin(s[1..], key, i - 1) && key(s[i]) < key(s[0])
  {
    assert s[1..][i - 1] == s[i];
    forall j | 0 <= j < |s[1..]|
      ensures key(s[1..][i - 1]) <= key(s[1..][j])
    {
      assert s[1..][j] == s[j + 1];
    }
    forall j | 0 <= j < i - 1
      ensures key(s[1..][i - 1]) < key(s[1..][j])
    {
      assert s[1..][j] == s[j + 1];
    }
  }

  /** The head of the sorted sequence is the first element of the input that has the smallest key. */
  lemma {:induction false} SortByHead<T>(s: seq<T>, key: T -> int, i: int)
    requires IsFirstMin(s, key, i)
    ensures SortBy(s, key)[0] == s[i]
  {
    var t := SortBy(s[1..], key);
    if i == 0 {
      FirstMinAtHead(s, key);
      MultisetBound(s[1..], key, key(s[0]), t);
      InsertHeadMin(s[0], t, key);
    } else {
      FirstMinInTail(s, key, i);
      SortByHead(s[1..], key, i - 1);
      InsertHeadSmaller(s[0], t, key);
    }
  }

  lemma {:induction false} InsertDistinct<T, U>(x: T, s: seq<T>, key: T -> int, id: T -> U)
    requires DistinctBy(s, id)
    requires forall i :: 0 <= i < |s| ==> id(s[i]) != id(x)
    ensures DistinctBy(Insert(x, s, key), id)
  {
    if s != [] && key(s[0]) < key(x) {
      InsertDistinct(x, s[1..], key, id);
      var rest := Insert(x, s[1..], key);
      forall j | 0 <= j < |rest|
        ensures id(s[0]) != id(rest[j])
      {
        assert rest[j] in multiset(s[1..]) + multiset{x};
        if rest[j] != x {
          assert rest[j] in multiset(s[1..]);
          var m :| 0 <= m < |s[1..]| && s[1..][m] == rest[j];
          assert s[m + 1] == rest[j];
        }
      }
      assert Insert(x, s, key) == [s[0]] + rest;
    }
  }

  /** Sorting neither merges nor duplicates identities. */
  lemma {:induction false} SortByDistinct<T, U>(s: seq<T>, key: T -> int, id: T -> U)
    requires DistinctBy(s, id)
    ensures DistinctBy(SortBy(s, key), id)
  {
    if s != [] {
      SortByDistinct(s[1..], key, id);
      var t := SortBy(s[1..], key);
      forall j | 0 <= j < |t|
        ensures id(t[j]) != id(s[0])
      {
        assert t[j] in multiset(s[1..]);
        var m :| 0 <= m < |s[1..]| && s[1..][m] == t[j];
        assert s[m + 1] == t[j];
      }
      InsertDistinct(s[0], t, key, id);
    }
  }
}
