/** Order-preserving sequence operations shared by the cleaning scripts and the dashboard:
    filtering (pandas boolean masks, `dropna`) and keep-first de-duplication
    (`drop_duplicates`, `duplicated`). */
module Seqs {

  /** `a` is obtained from `b` by deleting elements and keeping the order of the rest. */
  ghost predicate SubsequenceOf<T>(a: seq<T>, b: seq<T>)
    decreases |b|
  {
    |a| == 0 ||
    (|b| > 0 &&
     (SubsequenceOf(a, b[..|b| - 1]) ||
      (a[|a| - 1] == b[|b| - 1] && SubsequenceOf(a[..|a| - 1], b[..|b| - 1]))))
  }

  /** No element occurs twice. */
  ghost predicate Distinct<T>(s: seq<T>) {
    forall i, j :: 0 <= i < j < |s| ==> s[i] != s[j]
  }

  /** The elements of `s` that satisfy `p`, in their original order (a boolean mask). */
  function Filter<T(!new)>(s: seq<T>, p: T -> bool): (r: seq<T>)
    ensures |r| <= |s|
    ensures forall x :: x in r <==> x in s && p(x)
    ensures SubsequenceOf(r, s)
    decreases |s|
  {
    if |s| == 0 then []
    else
      var f := Filter(s[..|s| - 1], p);
      assert s == s[..|s| - 1] + [s[|s| - 1]];
      if p(s[|s| - 1]) then
        assert (f + [s[|s| - 1]])[..|f|] == f;
        f + [s[|s| - 1]]
      else f
  }

  /** Filtering keeps every copy of a passing element and no copy of any other. */
  lemma {:induction false} FilterMultiplicity<T(!new)>(s: seq<T>, p: T -> bool)
    ensures forall x :: multiset(Filter(s, p))[x] == if p(x) then multiset(s)[x] else 0
    decreases |s|
  {
    if |s| > 0 {
      var n := |s| - 1;
      var init := s[..n];
      FilterMultiplicity(init, p);
      FilterSnoc(init, s[n], p);
      assert s == init + [s[n]];
      assert multiset(s) == multiset(init) + multiset{s[n]};
    }
  }

  /** The length of a filtered sequence is the number of positions whose element passes: the
      row count of a boolean mask. */
  lemma {:induction false} FilterCount<T(!new)>(s: seq<T>, p: T -> bool)
    ensures |Filter(s, p)| == |Positions(s, p)|
    decreases |s|
  {
    if |s| > 0 {
      var n := |s| - 1;
      var init, x := s[..n], s[n];
      FilterCount(init, p);
      assert s == init + [x];
      FilterSnoc(init, x, p);
      PositionsSnoc(init, x, p);
      assert |init| !in Positions(init, p);
    }
  }

  /** Appending an element adds its position exactly when it passes. */
  lemma PositionsSnoc<T>(init: seq<T>, x: T, p: T -> bool)
    ensures Positions(init + [x], p) == if p(x) then Positions(init, p) + {|init|} else Positions(init, p)
  {
    var s := init + [x];
    assert forall i :: 0 <= i < |init| ==> s[i] == init[i];
  }

  /** The positions of `s` whose element passes `p`. */
  function Positions<T>(s: seq<T>, p: T -> bool): (r: set<int>)
    ensures forall i :: i in r <==> 0 <= i < |s| && p(s[i])
  {
    set i | 0 <= i < |s| && p(s[i])
  }

  /** Filtering the concatenation of a prefix and one more element. */
  lemma FilterSnoc<T(!new)>(s: seq<T>, x: T, p: T -> bool)
    ensures Filter(s + [x], p) == Filter(s, p) + (if p(x) then [x] else [])
  {
    assert (s + [x])[..|s|] == s;
  }

  /** Filtering by `p` and then by `q` is filtering once by a test that means `p` and `q`. */
  lemma {:induction false} FilterTwice<T(!new)>(s: seq<T>, p: T -> bool, q: T -> bool, both: T -> bool)
    requires forall x :: both(x) == (p(x) && q(x))
    ensures Filter(Filter(s, p), q) == Filter(s, both)
    decreases |s|
  {
    if |s| > 0 {
      var n := |s| - 1;
      var init, x := s[..n], s[n];
      FilterTwice(init, p, q, both);
      assert s == init + [x];
      FilterSnoc(init, x, p);
      FilterSnoc(init, x, both);
      if p(x) {
        FilterSnoc(Filter(init, p), x, q);
      }
    }
  }

  /** Nothing passes a test that no element meets. */
  lemma {:induction false} FilterNone<T(!new)>(s: seq<T>, p: T -> bool)
    requires forall i :: 0 <= i < |s| ==> !p(s[i])
    ensures Filter(s, p) == []
    decreases |s|
  {
    if |s| > 0 {
      FilterNone(s[..|s| - 1], p);
    }
  }

  /** Keep-first de-duplication: an element is kept exactly when it does not occur earlier. */
  function Dedup<T(==,!new)>(s: seq<T>): (r: seq<T>)
    ensures |r| <= |s|
    ensures forall x :: x in r <==> x in s
    ensures Distinct(r)
    ensures SubsequenceOf(r, s)
    decreases |s|
  {
    if |s| == 0 then []
    else
      var d := Dedup(s[..|s| - 1]);
      assert s == s[..|s| - 1] + [s[|s| - 1]];
      if s[|s| - 1] in d then d
      else
        assert (d + [s[|s| - 1]])[..|d|] == d;
        d + [s[|s| - 1]]
  }

  /** The number of elements equal to some strictly earlier element (pandas `duplicated().sum()`). */
  function DuplicateCount<T(==)>(s: seq<T>): nat
    decreases |s|
  {
    if |s| == 0 then 0
    else DuplicateCount(s[..|s| - 1]) + (if s[|s| - 1] in s[..|s| - 1] then 1 else 0)
  }

  /** The distinct elements of `s`. */
  function Elements<T>(s: seq<T>): set<T> {
    set x | x in s
  }

  /** Index of the first occurrence of `x` in `s`. */
  function FirstIndex<T(==)>(s: seq<T>, x: T): (k: nat)
    requires x in s
    ensures k < |s| && s[k] == x && x !in s[..k]
    decreases |s|
  {
    if s[0] == x then 0
    else
      var k := 1 + FirstIndex(s[1..], x);
      assert s[..k] == [s[0]] + s[1..][..k - 1];
      k
  }

  /** An index in a prefix keeps its first occurrence. */
  lemma FirstIndexPrefix<T(!new)>(s: seq<T>, n: nat, x: T)
    requires n <= |s| && x in s[..n]
    ensures FirstIndex(s, x) == FirstIndex(s[..n], x)
  {
    var b := FirstIndex(s[..n], x);
    assert s[..n][..b] == s[..b];
  }

  /** Every element that `Dedup` drops equals an earlier one, and what it keeps is ordered by
      first occurrence in the input: together with `Distinct` and equal element sets this pins
      down the result as "keep the first occurrence of each value, in input order". */
  lemma {:induction false} DedupKeepsFirstOccurrences<T(!new)>(s: seq<T>)
    ensures forall i, j :: 0 <= i < j < |Dedup(s)| ==>
              FirstIndex(s, Dedup(s)[i]) < FirstIndex(s, Dedup(s)[j])
    decreases |s|
  {
    if |s| > 0 {
      var n := |s| - 1;
      var p := s[..n];
      var d := Dedup(p);
      DedupKeepsFirstOccurrences(p);
      FirstOrderPrefix(s, n, d);
      if s[n] in d {
        assert Dedup(s) == d;
      } else {
        assert Dedup(s) == d + [s[n]];
        assert s[n] !in p;
        FirstIndexOfNew(s);
        FirstOrderSnoc(s, d, s[n]);
      }
    }
  }

  /** A last element that occurs nowhere before first occurs at the end. */
  lemma FirstIndexOfNew<T(!new)>(s: seq<T>)
    requires |s| > 0 && s[|s| - 1] !in s[..|s| - 1]
    ensures FirstIndex(s, s[|s| - 1]) == |s| - 1
  {
  }

  /** The order of first occurrence in a prefix is the order in the whole sequence. */
  lemma FirstOrderPrefix<T(!new)>(s: seq<T>, n: nat, d: seq<T>)
    requires n <= |s| && forall y :: y in d ==> y in s[..n]
    requires forall i, j :: 0 <= i < j < |d| ==> FirstIndex(s[..n], d[i]) < FirstIndex(s[..n], d[j])
    ensures forall y :: y in d ==> y in s
    ensures forall i :: 0 <= i < |d| ==> FirstIndex(s, d[i]) == FirstIndex(s[..n], d[i]) < n
    ensures forall i, j :: 0 <= i < j < |d| ==> FirstIndex(s, d[i]) < FirstIndex(s, d[j])
  {
    assert forall x :: x in s[..n] ==> x in s;
    forall i | 0 <= i < |d| ensures FirstIndex(s, d[i]) == FirstIndex(s[..n], d[i]) < n {
      FirstIndexPrefix(s, n, d[i]);
    }
  }

  /** An element first seen after all of `d` extends `d`'s order of first occurrence in `s`. */
  lemma FirstOrderSnoc<T(!new)>(s: seq<T>, d: seq<T>, x: T)
    requires x in s && forall y :: y in d ==> y in s
    requires forall i, j :: 0 <= i < j < |d| ==> FirstIndex(s, d[i]) < FirstIndex(s, d[j])
    requires forall i :: 0 <= i < |d| ==> FirstIndex(s, d[i]) < FirstIndex(s, x)
    ensures forall i, j :: 0 <= i < j < |d| + 1 ==> FirstIndex(s, (d + [x])[i]) < FirstIndex(s, (d + [x])[j])
  {
    var g := d + [x];
    forall i, j | 0 <= i < j < |g| ensures FirstIndex(s, g[i]) < FirstIndex(s, g[j]) {
      assert g[i] == d[i];
      if j < |d| {
        assert g[j] == d[j];
      }
    }
  }

  /** A sequence without repetitions is its own de-duplication. */
  lemma {:induction false} DedupOfDistinct<T(!new)>(s: seq<T>)
    requires Distinct(s)
    ensures Dedup(s) == s
    decreases |s|
  {
    if |s| > 0 {
      var p := s[..|s| - 1];
      assert Distinct(p);
      DedupOfDistinct(p);
      assert s[|s| - 1] !in p;
      assert s == p + [s[|s| - 1]];
    }
  }

  /** De-duplication is idempotent: applying it twice gives what applying it once gives. */
  lemma DedupIdempotent<T(!new)>(s: seq<T>)
    ensures Dedup(Dedup(s)) == Dedup(s)
  {
    DedupOfDistinct(Dedup(s));
  }

  /** The rows `Dedup` drops are exactly the ones `DuplicateCount` counts. */
  lemma {:induction false} DedupLengthPlusDuplicates<T(!new)>(s: seq<T>)
    ensures |Dedup(s)| + DuplicateCount(s) == |s|
    decreases |s|
  {
    if |s| > 0 {
      DedupLengthPlusDuplicates(s[..|s| - 1]);
    }
  }

  /** A sequence without repetitions has as many elements as its set of values. */
  lemma {:induction false} DistinctCardinality<T(!new)>(s: seq<T>)
    requires Distinct(s)
    ensures |Elements(s)| == |s|
    decreases |s|
  {
    if |s| > 0 {
      var p := s[..|s| - 1];
      assert Distinct(p);
      DistinctCardinality(p);
      assert s == p + [s[|s| - 1]];
      assert Elements(s) == Elements(p) + {s[|s| - 1]};
      assert s[|s| - 1] !in Elements(p);
    }
  }

  /** The duplicate count is the number of elements minus the number of distinct values. */
  lemma DuplicateCountIsSurplus<T(!new)>(s: seq<T>)
    ensures DuplicateCount(s) == |s| - |Elements(s)|
    ensures DuplicateCount(s) == |s| - |Dedup(s)|
  {
    DedupLengthPlusDuplicates(s);
    DistinctCardinality(Dedup(s));
    assert Elements(Dedup(s)) == Elements(s);
  }

  /** A value occurs at most once in a sequence without repetitions. */
  lemma {:induction false} DistinctMultiplicity<T>(s: seq<T>, x: T)
    requires Distinct(s)
    ensures multiset(s)[x] <= 1
    decreases |s|
  {
    if |s| > 0 {
      var n := |s| - 1;
      var p := s[..n];
      assert s == p + [s[n]];
      assert Distinct(p);
      DistinctMultiplicity(p, x);
      assert s[n] !in p;
      assert multiset(p)[s[n]] == 0;
    }
  }

  /** Two equal elements at different positions count twice. */
  lemma RepeatedCountsTwice<T>(s: seq<T>, i: nat, j: nat)
    requires i < j < |s|
    ensures s[i] == s[j] ==> multiset(s)[s[j]] >= 2
  {
    assert s == s[..j] + [s[j]] + s[j + 1..];
    assert s[i] in s[..j];
  }

  /** A rearrangement of a sequence without repetitions has none either. */
  lemma DistinctOfPermutation<T>(a: seq<T>, b: seq<T>)
    requires Distinct(a) && multiset(a) == multiset(b)
    ensures Distinct(b)
  {
    forall i, j | 0 <= i < j < |b| ensures b[i] != b[j] {
      RepeatedCountsTwice(b, i, j);
      DistinctMultiplicity(a, b[j]);
    }
  }
}
