/**
 Generic facts about sequences that the ledger, the sort and the scoring share:
 distinctness of an identity, and sums that do not depend on order.
 */
module Seqs {

  /** No two elements of s share an identity. */
  predicate DistinctBy<T, U(==)>(s: seq<T>, id: T -> U) {
    forall i, j :: 0 <= i < j < |s| ==> id(s[i]) != id(s[j])
  }

  /** The sum of f over the elements of s, front to back. */
  ghost function Sum<T>(s: seq<T>, f: T -> int): int {
    if s == [] then 0 else f(s[0]) + Sum(s[1..], f)
  }

  lemma {:induction false} SumConcat<T>(a: seq<T>, b: seq<T>, f: T -> int)
    ensures Sum(a + b, f) == Sum(a, f) + Sum(b, f)
  {
    if a != [] {
      assert (a + b)[1..] == a[1..] + b;
      SumConcat(a[1..], b, f);
    } else {
      assert a + b == b;
    }
  }

  /** Taking out the element at position i takes exactly one copy of it out of the multiset. */
  lemma MultisetRemove<T>(b: seq<T>, i: nat)
    requires i < |b|
    ensures multiset(b[..i] + b[i + 1..]) == multiset(b) - multiset{b[i]}
  {
    assert b == b[..i] + [b[i]] + b[i + 1..];
  }

  /** Removing the element at position i removes exactly its term from the sum. */
  lemma SumRemove<T>(b: seq<T>, i: nat, f: T -> int)
    requires i < |b|
    ensures Sum(b, f) == Sum(b[..i] + b[i + 1..], f) + f(b[i])
  {
    var front, back := b[..i], b[i + 1..];
    assert b == front + ([b[i]] + back);
    SumConcat(front, [b[i]] + back, f);
    SumConcat([b[i]], back, f);
    SumConcat(front, back, f);
    assert [b[i]][1..] == [];
  }

  /** A sum does not depend on the order of its terms. */
  lemma {:induction false} SumPermutation<T>(a: seq<T>, b: seq<T>, f: T -> int)
    requires multiset(a) == multiset(b)
    ensures Sum(a, f) == Sum(b, f)
    decreases |a|
  {
    if a == [] {
      assert |b| == |multiset(b)| == 0;
    } else {
      var x := a[0];
      assert x in multiset(b);
      var i :| 0 <= i < |b| && b[i] == x;
      MultisetRemove(b, i);
      assert a == [x] + a[1..];
      assert multiset(a[1..]) == multiset(a) - multiset{x};
      SumPermutation(a[1..], b[..i] + b[i + 1..], f);
      SumRemove(b, i, f);
    }
  }
}
