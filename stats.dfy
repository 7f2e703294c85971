/** The numeric reductions pandas applies to a column: `mean()` and `quantile(q)`, both over the
    present values only, computed in exact real arithmetic. */
module Stats {
  import opened Options
  import opened Tables
  import opened Sorting

  /** Sum of reals, left to right. */
  function Sum(xs: seq<real>): real
    decreases |xs|
  {
    if |xs| == 0 then 0.0 else Sum(xs[..|xs| - 1]) + xs[|xs| - 1]
  }

  /** The numeric values of a column, in order; missing cells are skipped. */
  function PresentValues(col: seq<Cell>): (r: seq<real>)
    ensures |r| <= |col|
    ensures |r| == 0 <==> forall i :: 0 <= i < |col| ==> AsReal(col[i]).None?
    decreases |col|
  {
    if |col| == 0 then []
    else
      var n := |col| - 1;
      var init := PresentValues(col[..n]);
      assert forall i :: 0 <= i < n ==> col[..n][i] == col[i];
      match AsReal(col[n])
      case None => init
      case Some(x) => init + [x]
  }

  /** A column without missing cells keeps every value, in order. */
  lemma {:induction false} PresentValuesOfNumbers(col: seq<Cell>)
    requires forall i :: 0 <= i < |col| ==> AsReal(col[i]).Some?
    ensures PresentValues(col) == seq(|col|, i requires 0 <= i < |col| => AsReal(col[i]).value)
    decreases |col|
  {
    if |col| > 0 {
      PresentValuesOfNumbers(col[..|col| - 1]);
    }
  }

  /** `Series.mean()`, which skips missing values; `None` when there is none (pandas gives NaN). */
  function Mean(col: seq<Cell>): (r: Option<real>)
    ensures r.None? <==> forall i :: 0 <= i < |col| ==> AsReal(col[i]).None?
  {
    var xs := PresentValues(col);
    if |xs| == 0 then None else Some(Sum(xs) / (|xs| as real))
  }

  /** Every value `PresentValues` collects lies within bounds that hold for the column. */
  lemma {:induction false} PresentValuesWithin(col: seq<Cell>, lo: real, hi: real)
    requires forall i :: 0 <= i < |col| && AsReal(col[i]).Some? ==> lo <= AsReal(col[i]).value <= hi
    ensures forall x :: x in PresentValues(col) ==> lo <= x <= hi
    decreases |col|
  {
    if |col| > 0 {
      var n := |col| - 1;
      assert forall i :: 0 <= i < n ==> col[..n][i] == col[i];
      PresentValuesWithin(col[..n], lo, hi);
    }
  }

  /** A sum of values within `[lo, hi]` lies within `|xs|` times those bounds. */
  lemma {:induction false} SumWithin(xs: seq<real>, lo: real, hi: real)
    requires forall x :: x in xs ==> lo <= x <= hi
    ensures (|xs| as real) * lo <= Sum(xs) <= (|xs| as real) * hi
    decreases |xs|
  {
    if |xs| > 0 {
      var n := |xs| - 1;
      assert forall x :: x in xs[..n] ==> x in xs;
      SumWithin(xs[..n], lo, hi);
      assert xs[n] in xs;
      assert (|xs| as real) * lo == (n as real) * lo + lo;
      assert (|xs| as real) * hi == (n as real) * hi + hi;
    }
  }

  /** The mean lies between any bounds that hold for every present value. */
  lemma MeanWithin(col: seq<Cell>, lo: real, hi: real)
    requires forall i :: 0 <= i < |col| && AsReal(col[i]).Some? ==> lo <= AsReal(col[i]).value <= hi
    requires Mean(col).Some?
    ensures lo <= Mean(col).value <= hi
  {
    var xs := PresentValues(col);
    PresentValuesWithin(col, lo, hi);
    SumWithin(xs, lo, hi);
    DivisionWithin(Sum(xs), |xs| as real, lo, hi);
  }

  /** Dividing by a positive count keeps a value between the divided bounds. */
  lemma DivisionWithin(a: real, n: real, lo: real, hi: real)
    requires n > 0.0 && n * lo <= a <= n * hi
    ensures lo <= a / n <= hi
  {
    var q := a / n;
    assert q * n == a;
  }

  /** Linear interpolation between `a` and `b` at `t`. */
  function Lerp(a: real, b: real, t: real): real {
    a + t * (b - a)
  }

  /** Between its ends, interpolation stays between them and grows with `t`. */
  lemma LerpMonotone(a: real, b: real, t: real, u: real)
    requires a <= b && 0.0 <= t <= u <= 1.0
    ensures a <= Lerp(a, b, t) <= Lerp(a, b, u) <= b
  {
    var d := b - a;
    assert 0.0 <= t * d by {
      assert 0.0 <= d;
    }
    assert t * d <= u * d by {
      assert 0.0 <= (u - t) * d;
      assert u * d - t * d == (u - t) * d;
    }
    assert u * d <= d by {
      assert 0.0 <= (1.0 - u) * d;
      assert d - u * d == (1.0 - u) * d;
    }
  }

  /** The values in ascending order, as `quantile` sorts them. */
  function Ascending(xs: seq<real>): (r: seq<real>)
    ensures |r| == |xs| && multiset(r) == multiset(xs) && SortedBy(r, RealKey)
  {
    SortBy(xs, RealKey)
  }

  /** The value at the real position `pos` of a sorted sequence, interpolated between the
      neighbours `Floor(pos)` and `Floor(pos) + 1`. */
  function ValueAt(s: seq<real>, pos: real): (r: real)
    requires 0.0 <= pos <= (|s| - 1) as real && SortedBy(s, RealKey)
    ensures s[pos.Floor] <= r && (pos.Floor + 1 < |s| ==> r <= s[pos.Floor + 1])
  {
    var lo := pos.Floor;
    if lo + 1 < |s| then
      LerpMonotone(s[lo], s[lo + 1], 0.0, pos - lo as real);
      LerpMonotone(s[lo], s[lo + 1], pos - lo as real, 1.0);
      Lerp(s[lo], s[lo + 1], pos - lo as real)
    else s[lo]
  }

  /** Moving to a later position never gives a smaller value. */
  lemma ValueAtMonotone(s: seq<real>, x: real, y: real)
    requires 0.0 <= x <= y <= (|s| - 1) as real && SortedBy(s, RealKey)
    ensures ValueAt(s, x) <= ValueAt(s, y)
  {
    var lx, ly := x.Floor, y.Floor;
    assert lx <= ly;
    if lx < ly {
      assert ValueAt(s, x) <= s[lx + 1] <= s[ly];
    } else if lx + 1 < |s| {
      LerpMonotone(s[lx], s[lx + 1], x - lx as real, y - lx as real);
    }
  }

  /** The position `(n - 1) * q` lies within the sequence and grows with `q`. */
  lemma PositionMonotone(n: nat, p: real, q: real)
    requires 0.0 <= p <= q <= 1.0
    ensures 0.0 <= (n as real) * p <= (n as real) * q <= n as real
  {
    assert (n as real) * q <= (n as real) * 1.0;
  }

  /** numpy's default ("linear") quantile of a sorted sequence: the value at position
      `(n - 1) * q`. */
  function SortedQuantile(s: seq<real>, q: real): (r: real)
    requires |s| > 0 && 0.0 <= q <= 1.0 && SortedBy(s, RealKey)
    ensures s[0] <= r <= s[|s| - 1]
  {
    var last := |s| - 1;
    var pos := (last as real) * q;
    PositionMonotone(last, q, 1.0);
    assert 0.0 <= pos <= last as real;
    ValueAtMonotone(s, 0.0, pos);
    ValueAtMonotone(s, pos, last as real);
    assert (last as real).Floor == last;
    assert ValueAt(s, last as real) == s[last];
    ValueAt(s, pos)
  }

  /** The quantile never decreases as `q` grows; in particular the first quartile is at most the
      third, so the interquartile range is never negative. */
  lemma SortedQuantileMonotone(s: seq<real>, p: real, q: real)
    requires |s| > 0 && 0.0 <= p <= q <= 1.0 && SortedBy(s, RealKey)
    ensures SortedQuantile(s, p) <= SortedQuantile(s, q)
  {
    PositionMonotone(|s| - 1, p, q);
    ValueAtMonotone(s, ((|s| - 1) as real) * p, ((|s| - 1) as real) * q);
  }

  /** `Series.quantile(q)`: over the present values; `None` when there is none (pandas
      gives NaN). */
  function Quantile(col: seq<Cell>, q: real): (r: Option<real>)
    requires 0.0 <= q <= 1.0
    ensures r.None? <==> forall i :: 0 <= i < |col| ==> AsReal(col[i]).None?
  {
    var xs := PresentValues(col);
    if |xs| == 0 then None else Some(SortedQuantile(Ascending(xs), q))
  }

  /** On a column, as on a sorted sequence, the quantile grows with `q`. */
  lemma QuantileMonotone(col: seq<Cell>, p: real, q: real)
    requires 0.0 <= p <= q <= 1.0 && Quantile(col, p).Some?
    ensures Quantile(col, q).Some? && Quantile(col, p).value <= Quantile(col, q).value
  {
    SortedQuantileMonotone(Ascending(PresentValues(col)), p, q);
  }

  /** The quantile depends only on which values occur and how often, not on their order. */
  lemma QuantileIgnoresOrder(col: seq<Cell>, other: seq<Cell>, q: real)
    requires 0.0 <= q <= 1.0 && multiset(PresentValues(col)) == multiset(PresentValues(other))
    ensures Quantile(col, q) == Quantile(other, q)
  {
    var xs, ys := PresentValues(col), PresentValues(other);
    assert |xs| == |ys| by {
      assert |xs| == |multiset(xs)| && |ys| == |multiset(ys)|;
    }
    SortedRealsUnique(Ascending(xs), Ascending(ys));
  }
}
