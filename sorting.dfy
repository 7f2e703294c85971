/** A stable sort by a numeric key: pandas `sort_values`, the sorted column numpy's quantile
    interpolates over, and `sorted(unique(...))` all reduce to it. */
module Sorting {

  /** Keys never decrease from left to right. */
  ghost predicate SortedBy<T>(s: seq<T>, key: T -> real) {
    forall i, j :: 0 <= i < j < |s| ==> key(s[i]) <= key(s[j])
  }

  /** Inserts `x` into the sorted `s` after every element whose key is at most `x`'s. */
  function InsertBy<T(!new)>(x: T, s: seq<T>, key: T -> real): (r: seq<T>)
    requires SortedBy(s, key)
    ensures |r| == |s| + 1
    ensures multiset(r) == multiset(s) + multiset{x}
    ensures forall y :: y in r <==> y in s || y == x
    ensures SortedBy(r, key)
    decreases |s|
  {
    if |s| == 0 then [x]
    else if key(s[|s| - 1]) <= key(x) then s + [x]
    else
      var last := s[|s| - 1];
      var init := s[..|s| - 1];
      assert s == init + [last];
      var r' := InsertBy(x, init, key);
      assert forall y :: y in r' ==> key(y) <= key(last);
      r' + [last]
  }

  /** Insertion sort; equal keys keep their input order. */
  function SortBy<T(!new)>(s: seq<T>, key: T -> real): (r: seq<T>)
    ensures |r| == |s|
    ensures multiset(r) == multiset(s)
    ensures forall y :: y in r <==> y in s
    ensures SortedBy(r, key)
    decreases |s|
  {
    if |s| == 0 then []
    else
      assert s == s[..|s| - 1] + [s[|s| - 1]];
      InsertBy(s[|s| - 1], SortBy(s[..|s| - 1], key), key)
  }

  /** Two ascending sequences of numbers with the same elements are the same sequence: the
      sorted order of a collection of numbers is unique. */
  lemma {:induction false} SortedRealsUnique(a: seq<real>, b: seq<real>)
    requires SortedBy(a, RealKey) && SortedBy(b, RealKey) && multiset(a) == multiset(b)
    ensures a == b
    decreases |a|
  {
    assert |a| == |b| by {
      assert |a| == |multiset(a)| && |b| == |multiset(b)|;
    }
    if |a| > 0 {
      SameLast(a, b);
      var n := |a| - 1;
      DropLast(a);
      DropLast(b);
      SortedRealsUnique(a[..n], b[..n]);
      SameLastAndPrefix(a, b);
    }
  }

  /** Ascending sequences with the same elements end with the same element. */
  lemma SameLast(a: seq<real>, b: seq<real>)
    requires |a| == |b| > 0
    requires SortedBy(a, RealKey) && SortedBy(b, RealKey) && multiset(a) == multiset(b)
    ensures a[|a| - 1] == b[|b| - 1]
  {
    assert a[|a| - 1] in multiset(b) && b[|b| - 1] in multiset(a);
    LastIsMax(b, a[|a| - 1]);
    LastIsMax(a, b[|b| - 1]);
  }

  /** Every element of an ascending sequence is at most its last one. */
  lemma LastIsMax(a: seq<real>, x: real)
    requires SortedBy(a, RealKey) && x in multiset(a)
    ensures |a| > 0 && x <= a[|a| - 1]
  {
    var i :| 0 <= i < |a| && a[i] == x;
    if i < |a| - 1 {
      assert RealKey(a[i]) <= RealKey(a[|a| - 1]);
    }
  }

  /** Dropping the last element keeps a sequence ascending and removes one copy from its
      elements. */
  lemma DropLast(a: seq<real>)
    requires |a| > 0 && SortedBy(a, RealKey)
    ensures SortedBy(a[..|a| - 1], RealKey)
    ensures multiset(a[..|a| - 1]) == multiset(a) - multiset{a[|a| - 1]}
  {
    assert a == a[..|a| - 1] + [a[|a| - 1]];
  }

  /** Sequences agreeing on their prefix and their last element are equal. */
  lemma SameLastAndPrefix<T>(a: seq<T>, b: seq<T>)
    requires |a| == |b| > 0 && a[..|a| - 1] == b[..|b| - 1] && a[|a| - 1] == b[|b| - 1]
    ensures a == b
  {
    assert a == a[..|a| - 1] + [a[|a| - 1]];
    assert b == b[..|b| - 1] + [b[|b| - 1]];
  }

  /** The identity key, for sorting numbers. */
  function RealKey(x: real): real { x }

  /** Integers sort by their value. */
  function IntKey(x: int): real { x as real }
}
