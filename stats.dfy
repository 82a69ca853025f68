/**
 * The statistics pandas computes for the cleaner and the analyzer, in exact
 * real arithmetic: sum, mean, sample variance (ddof = 1), and quantiles with
 * linear interpolation between the sorted values (pandas/numpy's default).
 */
module Stats {

  function Sum(xs: seq<real>): real
  {
    if xs == [] then 0.0 else xs[0] + Sum(xs[1..])
  }

  function Mean(xs: seq<real>): real
    requires |xs| > 0
  {
    Sum(xs) / |xs| as real
  }

  function SquaredDeviations(xs: seq<real>, m: real): real
  {
    if xs == [] then 0.0 else (xs[0] - m) * (xs[0] - m) + SquaredDeviations(xs[1..], m)
  }

  /** pandas var() with its default ddof = 1. */
  function SampleVariance(xs: seq<real>): real
    requires |xs| >= 2
  {
    SquaredDeviations(xs, Mean(xs)) / (|xs| - 1) as real
  }

  predicate Constant(xs: seq<real>, c: real)
  {
    forall i :: 0 <= i < |xs| ==> xs[i] == c
  }

  lemma {:induction false} SumOfConstant(xs: seq<real>, c: real)
    requires Constant(xs, c)
    ensures Sum(xs) == |xs| as real * c
  {
    if xs != [] {
      SumOfConstant(xs[1..], c);
    }
  }

  lemma {:induction false} DeviationsFromConstant(xs: seq<real>, c: real)
    requires Constant(xs, c)
    ensures SquaredDeviations(xs, c) == 0.0
  {
    if xs != [] {
      DeviationsFromConstant(xs[1..], c);
    }
  }

  /** A column whose values are all equal has mean equal to that value and variance zero. */
  lemma {:induction false} ConstantVariance(xs: seq<real>, c: real)
    requires |xs| >= 2 && Constant(xs, c)
    ensures Mean(xs) == c && SampleVariance(xs) == 0.0
  {
    SumOfConstant(xs, c);
    DeviationsFromConstant(xs, c);
  }

  predicate Ascending(s: seq<real>)
  {
    forall i, j :: 0 <= i < j < |s| ==> s[i] <= s[j]
  }

  function Insert(x: real, s: seq<real>): (r: seq<real>)
    requires Ascending(s)
    ensures Ascending(r)
    ensures multiset(r) == multiset(s) + multiset{x}
    ensures |r| == |s| + 1
    decreases |s|
  {
    if s == [] then [x]
    else if x <= s[0] then [x] + s
    else
      var t := Insert(x, s[1..]);
      assert s == [s[0]] + s[1..];
      LowerBoundKept(s[0], x, s[1..], t);
      [s[0]] + t
  }

  /** A lower bound of s and of x is a lower bound of anything with their values. */
  lemma LowerBoundKept(b: real, x: real, s: seq<real>, t: seq<real>)
    requires Ascending([b] + s) && b <= x
    requires multiset(t) == multiset(s) + multiset{x}
    requires Ascending(t)
    ensures Ascending([b] + t)
  {
    forall k | 0 <= k < |t| ensures b <= t[k] {
      assert t[k] in multiset(t);
      if t[k] != x {
        assert t[k] in multiset(s);
        var j :| 0 <= j < |s| && s[j] == t[k];
        assert ([b] + s)[0] == b && ([b] + s)[j + 1] == s[j];
      }
    }
    var u := [b] + t;
    forall i, j | 0 <= i < j < |u| ensures u[i] <= u[j] {
      if i == 0 {
        assert u[j] == t[j - 1];
      } else {
        assert u[i] == t[i - 1] && u[j] == t[j - 1];
      }
    }
  }

  /** The values of xs in ascending order. */
  function SortAsc(xs: seq<real>): (r: seq<real>)
    ensures Ascending(r)
    ensures multiset(r) == multiset(xs)
    ensures |r| == |xs|
  {
    if xs == [] then []
    else
      assert xs == [xs[0]] + xs[1..];
      Insert(xs[0], SortAsc(xs[1..]))
  }

  /** The value at virtual index h of an ascending sequence, interpolating linearly. */
  function Interpolate(s: seq<real>, h: real): real
    requires |s| > 0 && 0.0 <= h <= ((|s| - 1) as real)
  {
    var lo := h.Floor;
    var frac := h - lo as real;
    if lo + 1 < |s| then s[lo] + frac * (s[lo + 1] - s[lo]) else s[lo]
  }

  /** The virtual index (n - 1) * q into n sorted values. */
  function VirtualIndex(n: nat, q: real): (h: real)
    requires n > 0 && 0.0 <= q <= 1.0
    ensures 0.0 <= h <= (n - 1) as real
  {
    ScaleWithin((n - 1) as real, q);
    ((n - 1) as real) * q
  }

  lemma ScaleWithin(m: real, q: real)
    requires 0.0 <= m && 0.0 <= q <= 1.0
    ensures 0.0 <= m * q <= m
  {
    MulLeft(q, 1.0, m);
    MulLeft(0.0, q, m);
  }

  /** pandas Series.quantile(q) of the values xs (method 'linear'). */
  function Quantile(xs: seq<real>, q: real): real
    requires |xs| > 0 && 0.0 <= q <= 1.0
  {
    var s := SortAsc(xs);
    Interpolate(s, VirtualIndex(|s|, q))
  }

  /** pandas median(): the 0.5 quantile. */
  function Median(xs: seq<real>): real
    requires |xs| > 0
  {
    Quantile(xs, 0.5)
  }


  lemma {:induction false} InterpolateBetween(s: seq<real>, h: real)
    requires |s| > 0 && 0.0 <= h <= ((|s| - 1) as real)
    requires Ascending(s)
    ensures 0 <= h.Floor < |s|
    ensures s[h.Floor] <= Interpolate(s, h)
    ensures h.Floor + 1 < |s| ==> Interpolate(s, h) <= s[h.Floor + 1]
  {
    var lo := h.Floor;
    var frac: real := h - lo as real;
    assert 0.0 <= frac < 1.0;
    if lo + 1 < |s| {
      var d: real := s[lo + 1] - s[lo];
      assert 0.0 <= d;
      MulLeft(0.0, frac, d);
      MulLeft(frac, 1.0, d);
      assert Interpolate(s, h) == s[lo] + frac * d;
    }
  }

  lemma MulLeft(a: real, b: real, d: real)
    requires a <= b && 0.0 <= d
    ensures a * d <= b * d
  {
  }

  /** Interpolation is monotone in the virtual index. */
  lemma {:induction false} InterpolateMonotone(s: seq<real>, h1: real, h2: real)
    requires |s| > 0 && 0.0 <= h1 <= h2 <= (|s| - 1) as real
    requires Ascending(s)
    ensures Interpolate(s, h1) <= Interpolate(s, h2)
  {
    var lo1, lo2 := h1.Floor, h2.Floor;
    InterpolateBetween(s, h1);
    InterpolateBetween(s, h2);
    if lo1 == lo2 {
      if lo1 + 1 < |s| {
        var d := s[lo1 + 1] - s[lo1];
        var f1, f2 := h1 - (lo1 as real), h2 - (lo2 as real);
        MulLeft(f1, f2, d);
        assert Interpolate(s, h1) == s[lo1] + f1 * d;
        assert Interpolate(s, h2) == s[lo1] + f2 * d;
      }
    } else {
      assert lo1 < lo2;
      assert s[lo1 + 1] <= s[lo2];
    }
  }

  lemma VirtualIndexMonotone(n: nat, q1: real, q2: real)
    requires n > 0 && 0.0 <= q1 <= q2 <= 1.0
    ensures VirtualIndex(n, q1) <= VirtualIndex(n, q2)
  {
    MulLeft(q1, q2, (n - 1) as real);
  }

  lemma VirtualIndexEnds(n: nat)
    requires n > 0
    ensures VirtualIndex(n, 0.0) == 0.0 && VirtualIndex(n, 1.0) == (n - 1) as real
  {
  }

  /** The interpolated value at the first and the last virtual index is the least and the greatest value. */
  lemma InterpolateEnds(s: seq<real>)
    requires |s| > 0
    ensures Interpolate(s, 0.0) == s[0]
    ensures Interpolate(s, (|s| - 1) as real) == s[|s| - 1]
  {
    var n: real := (|s| - 1) as real;
    assert n.Floor == |s| - 1;
  }

  /** Quantile is monotone in q. */
  lemma {:induction false} QuantileMonotone(xs: seq<real>, q1: real, q2: real)
    requires |xs| > 0 && 0.0 <= q1 <= q2 <= 1.0
    ensures Quantile(xs, q1) <= Quantile(xs, q2)
  {
    var s := SortAsc(xs);
    VirtualIndexMonotone(|s|, q1, q2);
    InterpolateMonotone(s, VirtualIndex(|s|, q1), VirtualIndex(|s|, q2));
  }

  /** Every quantile lies between the least and the greatest value. */
  lemma {:induction false} QuantileBounds(xs: seq<real>, q: real)
    requires |xs| > 0 && 0.0 <= q <= 1.0
    ensures SortAsc(xs)[0] <= Quantile(xs, q) <= SortAsc(xs)[|xs| - 1]
  {
    var s := SortAsc(xs);
    var h := VirtualIndex(|s|, q);
    InterpolateMonotone(s, 0.0, h);
    InterpolateMonotone(s, h, (|s| - 1) as real);
    InterpolateEnds(s);
  }

  /** The least value (pandas min()). */
  function Minimum(xs: seq<real>): real
    requires |xs| > 0
  {
    SortAsc(xs)[0]
  }

  /** The greatest value (pandas max()). */
  function Maximum(xs: seq<real>): real
    requires |xs| > 0
  {
    SortAsc(xs)[|xs| - 1]
  }

  /** Minimum and Maximum are values of xs, and every value lies between them. */
  lemma MinMaxSpec(xs: seq<real>)
    requires |xs| > 0
    ensures Minimum(xs) in xs && Maximum(xs) in xs
    ensures forall i :: 0 <= i < |xs| ==> Minimum(xs) <= xs[i] <= Maximum(xs)
  {
    var s := SortAsc(xs);
    assert s[0] in multiset(xs) && s[|s| - 1] in multiset(xs);
    forall i | 0 <= i < |xs| ensures s[0] <= xs[i] <= s[|s| - 1] {
      assert xs[i] in multiset(s);
      var j :| 0 <= j < |s| && s[j] == xs[i];
    }
  }

  lemma {:induction false} SumBounds(xs: seq<real>, lo: real, hi: real)
    requires forall i :: 0 <= i < |xs| ==> lo <= xs[i] <= hi
    ensures |xs| as real * lo <= Sum(xs) <= |xs| as real * hi
  {
    if xs != [] {
      SumBounds(xs[1..], lo, hi);
    }
  }

  /** The mean lies between the least and the greatest value. */
  lemma MeanBounds(xs: seq<real>)
    requires |xs| > 0
    ensures Minimum(xs) <= Mean(xs) <= Maximum(xs)
  {
    MinMaxSpec(xs);
    MeanWithin(xs, Minimum(xs), Maximum(xs));
  }

  lemma MeanWithin(xs: seq<real>, lo: real, hi: real)
    requires |xs| > 0
    requires forall i :: 0 <= i < |xs| ==> lo <= xs[i] <= hi
    ensures lo <= Mean(xs) <= hi
  {
    SumBounds(xs, lo, hi);
    DivBounds(Sum(xs), |xs| as real, lo, hi);
  }

  lemma DivBounds(total: real, n: real, lo: real, hi: real)
    requires n > 0.0 && n * lo <= total <= n * hi
    ensures lo <= total / n <= hi
  {
    var m := total / n;
    assert m * n == total;
    if m < lo {
      MulStrict(m, lo, n);
    }
    if m > hi {
      MulStrict(hi, m, n);
    }
  }

  lemma MulStrict(a: real, b: real, n: real)
    requires a < b && n > 0.0
    ensures a * n < b * n
  {
  }

  /** describe()'s order: min <= 25% <= 50% <= 75% <= max. */
  lemma FiveNumberOrder(xs: seq<real>)
    requires |xs| > 0
    ensures Minimum(xs) <= Quantile(xs, 0.25) <= Median(xs) <= Quantile(xs, 0.75) <= Maximum(xs)
  {
    QuantileBounds(xs, 0.25);
    QuantileBounds(xs, 0.75);
    QuantileMonotone(xs, 0.25, 0.5);
    QuantileMonotone(xs, 0.5, 0.75);
  }
}
