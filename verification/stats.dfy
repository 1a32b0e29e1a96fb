/**
  The statistics pandas computes over one group's present durations, in exact
  real arithmetic: mean, median, linear-interpolation quantiles and the
  population variance (std with ddof=0, before the square root).
 */
module Stats {
  import opened Sequences

  predicate RealLe(a: real, b: real) {
    a <= b
  }

  /** The sample in ascending order. */
  function SortReals(xs: seq<real>): (v: seq<real>)
    ensures SortedBy(v, RealLe)
    ensures multiset(v) == multiset(xs)
    ensures |v| == |xs|
  {
    assert TotalPreorder(RealLe);
    var v := SortBy(xs, RealLe);
    assert |multiset(v)| == |multiset(xs)|;
    v
  }

  function Sum(xs: seq<real>): real {
    if |xs| == 0 then 0.0 else xs[0] + Sum(xs[1..])
  }

  /** The smallest element of a non-empty sample. */
  function Min(xs: seq<real>): (r: real)
    requires |xs| > 0
    ensures r in xs
    ensures forall i :: 0 <= i < |xs| ==> r <= xs[i]
  {
    if |xs| == 1 then xs[0]
    else
      var m := Min(xs[1..]);
      assert forall i :: 1 <= i < |xs| ==> xs[i] == xs[1..][i - 1];
      if xs[0] <= m then xs[0] else m
  }

  /** The largest element of a non-empty sample. */
  function Max(xs: seq<real>): (r: real)
    requires |xs| > 0
    ensures r in xs
    ensures forall i :: 0 <= i < |xs| ==> xs[i] <= r
  {
    if |xs| == 1 then xs[0]
    else
      var m := Max(xs[1..]);
      assert forall i :: 1 <= i < |xs| ==> xs[i] == xs[1..][i - 1];
      if m <= xs[0] then xs[0] else m
  }

  /** A lower bound on every element, scaled by the count, bounds the sum. */
  lemma {:induction false} SumAbove(xs: seq<real>, lo: real)
    requires forall i :: 0 <= i < |xs| ==> lo <= xs[i]
    ensures |xs| as real * lo <= Sum(xs)
  {
    if |xs| > 0 {
      assert forall i :: 0 <= i < |xs[1..]| ==> xs[1..][i] == xs[i + 1];
      SumAbove(xs[1..], lo);
    }
  }

  /** An upper bound on every element, scaled by the count, bounds the sum. */
  lemma {:induction false} SumBelow(xs: seq<real>, hi: real)
    requires forall i :: 0 <= i < |xs| ==> xs[i] <= hi
    ensures Sum(xs) <= |xs| as real * hi
  {
    if |xs| > 0 {
      assert forall i :: 0 <= i < |xs[1..]| ==> xs[1..][i] == xs[i + 1];
      SumBelow(xs[1..], hi);
    }
  }

  /** Dividing by a positive count keeps a lower bound the count scaled. */
  lemma DivideLower(s: real, n: real, lo: real)
    requires n > 0.0 && n * lo <= s
    ensures lo <= s / n
  {
    assert (s / n) * n == s;
  }

  /** Dividing by a positive count keeps an upper bound the count scaled. */
  lemma DivideUpper(s: real, n: real, hi: real)
    requires n > 0.0 && s <= n * hi
    ensures s / n <= hi
  {
    assert (s / n) * n == s;
  }

  /** Arithmetic mean (pandas `mean`); it lies between the extremes. */
  function Mean(xs: seq<real>): (r: real)
    requires |xs| > 0
    ensures Min(xs) <= r <= Max(xs)
  {
    AverageAbove(xs, Min(xs));
    AverageBelow(xs, Max(xs));
    Sum(xs) / |xs| as real
  }

  /** The average is at least any lower bound of the elements. */
  lemma AverageAbove(xs: seq<real>, lo: real)
    requires |xs| > 0
    requires forall i :: 0 <= i < |xs| ==> lo <= xs[i]
    ensures lo <= Sum(xs) / |xs| as real
  {
    SumAbove(xs, lo);
    DivideLower(Sum(xs), |xs| as real, lo);
  }

  /** The average is at most any upper bound of the elements. */
  lemma AverageBelow(xs: seq<real>, hi: real)
    requires |xs| > 0
    requires forall i :: 0 <= i < |xs| ==> xs[i] <= hi
    ensures Sum(xs) / |xs| as real <= hi
  {
    SumBelow(xs, hi);
    DivideUpper(Sum(xs), |xs| as real, hi);
  }

  /** The first and last elements of a sorted permutation of the sample are
      its extremes. */
  lemma SortedEnds(xs: seq<real>, v: seq<real>)
    requires |xs| > 0
    requires SortedBy(v, RealLe) && multiset(v) == multiset(xs)
    ensures |v| == |xs|
    ensures v[0] == Min(xs) && v[|v| - 1] == Max(xs)
  {
    assert |multiset(v)| == |multiset(xs)|;
    var lo, hi := Min(xs), Max(xs);
    assert v[0] in multiset(xs);
    assert v[|v| - 1] in multiset(xs);
    assert lo in multiset(v);
    assert hi in multiset(v);
    var i :| 0 <= i < |v| && v[i] == lo;
    var j :| 0 <= j < |v| && v[j] == hi;
    assert i == 0 || RealLe(v[0], v[i]);
    assert j == |v| - 1 || RealLe(v[j], v[|v| - 1]);
  }

  lemma FloorBounds(h: real)
    ensures h.Floor as real <= h < h.Floor as real + 1.0
  {}

  lemma ScaleBounds(t: real, d: real)
    requires 0.0 <= t <= 1.0 && d >= 0.0
    ensures 0.0 <= t * d <= d
  {}

  lemma ScaleMonotone(t1: real, t2: real, d: real)
    requires t1 <= t2 && d >= 0.0
    ensures t1 * d <= t2 * d
  {}

  /** The point a fraction `t` of the way from `a` to `b`. */
  function Lerp(a: real, b: real, t: real): real {
    a + t * (b - a)
  }

  lemma LerpBetween(a: real, b: real, t: real)
    requires a <= b && 0.0 <= t <= 1.0
    ensures a <= Lerp(a, b, t) <= b
  {
    var d := b - a;
    ScaleBounds(t, d);
    assert Lerp(a, b, t) == a + t * d;
  }

  lemma LerpMonotone(a: real, b: real, t1: real, t2: real)
    requires a <= b && t1 <= t2
    ensures Lerp(a, b, t1) <= Lerp(a, b, t2)
  {
    var d := b - a;
    ScaleMonotone(t1, t2, d);
    assert Lerp(a, b, t1) == a + t1 * d && Lerp(a, b, t2) == a + t2 * d;
  }

  /** Linear interpolation at fractional position `h` of the sorted sample
      `v`: between positions floor(h) and floor(h) + 1. */
  function Interpolate(v: seq<real>, h: real): real
    requires |v| > 0 && 0.0 <= h <= (|v| - 1) as real
  {
    var lo := h.Floor;
    if lo + 1 < |v| then Lerp(v[lo], v[lo + 1], h - lo as real) else v[lo]
  }

  /** At a whole position the interpolation is that order statistic, and in
      between it lies between its two neighbours. */
  lemma InterpolateBetween(v: seq<real>, h: real)
    requires SortedBy(v, RealLe)
    requires |v| > 0 && 0.0 <= h <= (|v| - 1) as real
    ensures 0 <= h.Floor < |v|
    ensures h == h.Floor as real ==> Interpolate(v, h) == v[h.Floor]
    ensures v[h.Floor] <= Interpolate(v, h)
    ensures h.Floor + 1 < |v| ==> Interpolate(v, h) <= v[h.Floor + 1]
    ensures h.Floor + 1 == |v| ==> Interpolate(v, h) == v[|v| - 1]
  {
    var lo := h.Floor;
    FloorBounds(h);
    if lo + 1 < |v| {
      assert RealLe(v[lo], v[lo + 1]);
      LerpBetween(v[lo], v[lo + 1], h - lo as real);
    }
  }

  /** At a whole position the interpolation is the order statistic there. */
  lemma InterpolateAtIndex(v: seq<real>, k: nat)
    requires k < |v|
    ensures Interpolate(v, k as real) == v[k]
  {
    FloorBounds(k as real);
    assert (k as real).Floor == k;
    if k + 1 < |v| {
      assert Lerp(v[k], v[k + 1], 0.0) == v[k];
    }
  }

  /** The interpolation is monotone in the position. */
  lemma InterpolateMonotone(v: seq<real>, h1: real, h2: real)
    requires SortedBy(v, RealLe)
    requires |v| > 0 && 0.0 <= h1 <= h2 <= (|v| - 1) as real
    ensures Interpolate(v, h1) <= Interpolate(v, h2)
  {
    var lo1, lo2 := h1.Floor, h2.Floor;
    FloorBounds(h1);
    FloorBounds(h2);
    InterpolateBetween(v, h1);
    InterpolateBetween(v, h2);
    if lo1 == lo2 {
      if lo1 + 1 < |v| {
        assert RealLe(v[lo1], v[lo1 + 1]);
        LerpMonotone(v[lo1], v[lo1 + 1], h1 - lo1 as real, h2 - lo1 as real);
      }
    } else {
      assert lo1 + 1 <= lo2 < |v|;
      assert lo1 + 1 == lo2 || RealLe(v[lo1 + 1], v[lo2]);
    }
  }

  /** The fractional position q * (n - 1) of quantile `q` in a sample of
      `n` values. */
  function Position(n: nat, q: real): (h: real)
    requires n > 0 && 0.0 <= q <= 1.0
    ensures 0.0 <= h <= (n - 1) as real
  {
    ScaleBounds(q, (n - 1) as real);
    (n - 1) as real * q
  }

  lemma PositionMonotone(n: nat, q1: real, q2: real)
    requires n > 0 && 0.0 <= q1 <= q2 <= 1.0
    ensures Position(n, q1) <= Position(n, q2)
  {
    ScaleMonotone(q1, q2, (n - 1) as real);
  }

  /** The q-quantile of a sorted sample by linear interpolation. */
  function SortedQuantile(v: seq<real>, q: real): real
    requires |v| > 0 && 0.0 <= q <= 1.0
  {
    Interpolate(v, Position(|v|, q))
  }

  /** pandas' linear-interpolation quantile: position q * (n - 1) of the
      sorted sample. */
  function Quantile(xs: seq<real>, q: real): (r: real)
    requires |xs| > 0 && 0.0 <= q <= 1.0
    ensures Min(xs) <= r <= Max(xs)
  {
    var v := SortReals(xs);
    QuantileOfSortedBounds(v, q);
    SortedEnds(xs, v);
    SortedQuantile(v, q)
  }

  /** A quantile of a sorted sample lies between its first and last elements. */
  lemma QuantileOfSortedBounds(v: seq<real>, q: real)
    requires SortedBy(v, RealLe)
    requires |v| > 0 && 0.0 <= q <= 1.0
    ensures v[0] <= SortedQuantile(v, q) <= v[|v| - 1]
  {
    var n := |v| - 1;
    var h := Position(|v|, q);
    InterpolateMonotone(v, 0 as real, h);
    InterpolateMonotone(v, h, n as real);
    InterpolateAtIndex(v, 0);
    InterpolateAtIndex(v, n);
  }

  lemma SortedQuantileMonotone(v: seq<real>, q1: real, q2: real)
    requires SortedBy(v, RealLe)
    requires |v| > 0 && 0.0 <= q1 <= q2 <= 1.0
    ensures SortedQuantile(v, q1) <= SortedQuantile(v, q2)
  {
    PositionMonotone(|v|, q1, q2);
    InterpolateMonotone(v, Position(|v|, q1), Position(|v|, q2));
  }

  /** A larger q never gives a smaller quantile. */
  lemma QuantileMonotone(xs: seq<real>, q1: real, q2: real)
    requires |xs| > 0 && 0.0 <= q1 <= q2 <= 1.0
    ensures Quantile(xs, q1) <= Quantile(xs, q2)
  {
    var v := SortReals(xs);
    SortedQuantileMonotone(v, q1, q2);
    assert Quantile(xs, q1) == SortedQuantile(v, q1);
    assert Quantile(xs, q2) == SortedQuantile(v, q2);
  }

  /** The 0 and 1 quantiles are the minimum and the maximum. */
  lemma QuantileEndpoints(xs: seq<real>)
    requires |xs| > 0
    ensures Quantile(xs, 0.0) == Min(xs)
    ensures Quantile(xs, 1.0) == Max(xs)
  {
    var v := SortReals(xs);
    var n := |v| - 1;
    assert Position(|v|, 0.0) == 0 as real && Position(|v|, 1.0) == n as real;
    InterpolateAtIndex(v, 0);
    InterpolateAtIndex(v, n);
    SortedEnds(xs, v);
  }

  /** pandas' median: the middle element, or the mean of the two middle
      elements of an even-sized sample. */
  function Median(xs: seq<real>): real
    requires |xs| > 0
  {
    var v := SortReals(xs);
    var n := |v|;
    if n % 2 == 1 then v[n / 2] else (v[n / 2 - 1] + v[n / 2]) / 2.0
  }

  /** The median of a sorted sample is its 0.5 quantile. */
  lemma SortedMedianIsHalfQuantile(v: seq<real>)
    requires |v| > 0
    ensures SortedQuantile(v, 0.5) ==
              if |v| % 2 == 1 then v[|v| / 2] else (v[|v| / 2 - 1] + v[|v| / 2]) / 2.0
  {
    var n := |v|;
    var h := Position(n, 0.5);
    if n % 2 == 1 {
      assert h == (n / 2) as real;
      InterpolateAtIndex(v, n / 2);
    } else {
      var k := n / 2 - 1;
      assert h == k as real + 0.5;
      FloorBounds(h);
      assert h.Floor == k;
      assert Lerp(v[k], v[k + 1], 0.5) == (v[k] + v[k + 1]) / 2.0;
    }
  }

  /** The median is the 0.5 quantile. */
  lemma MedianIsHalfQuantile(xs: seq<real>)
    requires |xs| > 0
    ensures Median(xs) == Quantile(xs, 0.5)
  {
    var v := SortReals(xs);
    SortedMedianIsHalfQuantile(v);
    assert Quantile(xs, 0.5) == SortedQuantile(v, 0.5);
  }

  function Square(x: real): real {
    x * x
  }

  lemma PositiveSquare(e: real)
    requires e > 0.0
    ensures Square(e) > 0.0
  {
    calc {
      Square(e);
      e * e;
    > { assert e * e > 0.0 * e; }
      0.0;
    }
  }

  lemma NonzeroSquare(d: real)
    requires d != 0.0
    ensures Square(d) > 0.0
  {
    if d > 0.0 {
      PositiveSquare(d);
    } else {
      PositiveSquare(0.0 - d);
      assert Square(d) == Square(0.0 - d);
    }
  }

  lemma SquareNonNegative(d: real)
    ensures Square(d) >= 0.0
  {
    if d != 0.0 {
      NonzeroSquare(d);
    }
  }

  /** Sum of squared deviations from `m`. */
  function SumSqDev(xs: seq<real>, m: real): (r: real)
    ensures r >= 0.0
  {
    if |xs| == 0 then 0.0
    else
      var d := xs[0] - m;
      SquareNonNegative(d);
      Square(d) + SumSqDev(xs[1..], m)
  }

  /** Deviations all zero give a zero sum. */
  lemma {:induction false} SumSqDevOfConstant(xs: seq<real>, m: real)
    requires forall i :: 0 <= i < |xs| ==> xs[i] == m
    ensures SumSqDev(xs, m) == 0.0
  {
    if |xs| > 0 {
      assert xs[0] - m == 0.0;
      assert forall i :: 0 <= i < |xs[1..]| ==> xs[1..][i] == xs[i + 1];
      SumSqDevOfConstant(xs[1..], m);
    }
  }

  /** One element away from `m` makes the sum strictly positive. */
  lemma {:induction false} SumSqDevPositive(xs: seq<real>, m: real, i: nat)
    requires i < |xs| && xs[i] != m
    ensures SumSqDev(xs, m) > 0.0
  {
    var d := xs[0] - m;
    var rest := SumSqDev(xs[1..], m);
    assert SumSqDev(xs, m) == Square(d) + rest;
    if i > 0 {
      assert xs[1..][i - 1] == xs[i];
      SumSqDevPositive(xs[1..], m, i - 1);
      SquareNonNegative(d);
    } else {
      NonzeroSquare(d);
    }
  }

  lemma DividePositive(s: real, n: real)
    requires s > 0.0 && n > 0.0
    ensures s / n > 0.0
  {}

  /** Population variance (divide by n): the square of pandas' `std(ddof=0)`. */
  function PopVariance(xs: seq<real>): (r: real)
    requires |xs| > 0
    ensures r >= 0.0
  {
    SumSqDev(xs, Mean(xs)) / |xs| as real
  }

  /** The variance vanishes exactly when every duration is the same. */
  lemma PopVarianceZeroIffConstant(xs: seq<real>)
    requires |xs| > 0
    ensures PopVariance(xs) == 0.0 <==> forall i :: 0 <= i < |xs| ==> xs[i] == xs[0]
  {
    var m := Mean(xs);
    var n := |xs| as real;
    if forall i :: 0 <= i < |xs| ==> xs[i] == xs[0] {
      assert Min(xs) == xs[0] && Max(xs) == xs[0];
      assert m == xs[0];
      SumSqDevOfConstant(xs, m);
    } else {
      var i :| 0 <= i < |xs| && xs[i] != xs[0];
      if xs[i] != m {
        SumSqDevPositive(xs, m, i);
      } else {
        SumSqDevPositive(xs, m, 0);
      }
      DividePositive(SumSqDev(xs, m), n);
    }
  }
}
