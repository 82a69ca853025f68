/**
 * What DataAnalyzer computes, as functions of the frame: the dtype
 * partition of the columns, descriptive statistics, categorical summaries,
 * strong correlations, correlation strength labels, the size of the variance
 * table, normality-test gating, trend labels and the insight list. The class
 * in module Analyzer runs the source's loops and is proved equal to these.
 */
module Analysis {
  import opened Wrappers
  import opened Tables
  import opened Stats
  import opened Sorting
  import opened Selection
  import Cleaning

  // ---------------------------------------------------------------------
  // __init__: select_dtypes

  /** The columns of dtype kind k, in column order. */
  function OfKind(cols: seq<Column>, k: Kind): seq<Column>
  {
    Select(cols, Indices(|cols|, (i: nat) => i < |cols| && cols[i].kind == k))
  }

  /** Every column of the frame is selected under its own dtype and no other. */
  lemma OfKindPartition(cols: seq<Column>, c: Column, k: Kind)
    ensures c in OfKind(cols, k) <==> c in cols && c.kind == k
  {
    SelectMembers(cols, Indices(|cols|, (i: nat) => i < |cols| && cols[i].kind == k), c);
  }

  /** The selected columns keep their order, so their names are distinct too. */
  lemma OfKindDistinct(cols: seq<Column>, k: Kind)
    requires DistinctNames(cols)
    ensures DistinctNames(OfKind(cols, k))
  {
    var idx := Indices(|cols|, (i: nat) => i < |cols| && cols[i].kind == k);
    forall i, j | 0 <= i < j < |idx| ensures OfKind(cols, k)[i].name != OfKind(cols, k)[j].name {
      assert idx[i] < idx[j];
    }
  }

  lemma OfKindFitting(t: Table, k: Kind)
    requires WellFormed(t)
    ensures forall c :: c in OfKind(t.columns, k) ==> ColumnFits(c, t.rows) && c.kind == k
  {
    forall c | c in OfKind(t.columns, k) ensures ColumnFits(c, t.rows) && c.kind == k {
      OfKindPartition(t.columns, c, k);
    }
  }

  // ---------------------------------------------------------------------
  // descriptive_statistics

  datatype Summary = Summary(mean: real, min: real, q1: real, median: real, q3: real, max: real)

  /** One row of the table: count, missing, missing_pct, the describe() figures and the variance. */
  datatype DescRow = DescRow(
    name: string,
    count: nat,
    missing: nat,
    missingPct: Option<real>,   // None where len(df) is 0
    summary: Option<Summary>,   // None (NaN) for a column without values
    variance: Option<real>)     // None (NaN) with fewer than two values

  /** describe()'s mean, min, 25%, 50%, 75% and max. */
  function SummaryOf(xs: seq<real>): Summary
    requires xs != []
  {
    Summary(Mean(xs), Minimum(xs), Quantile(xs, 0.25), Median(xs), Quantile(xs, 0.75), Maximum(xs))
  }

  predicate Ordered(s: Summary)
  {
    s.min <= s.q1 <= s.median <= s.q3 <= s.max && s.min <= s.mean <= s.max
  }

  /** min <= 25% <= 50% <= 75% <= max, with the mean between min and max. */
  lemma SummaryOrdered(xs: seq<real>)
    requires xs != []
    ensures Ordered(SummaryOf(xs))
  {
    FiveNumberOrder(xs);
    MeanBounds(xs);
  }

  function Describe(c: Column, rows: nat): DescRow
  {
    var xs := NumValues(c.cells);
    var m := MissingCount(c.cells);
    DescRow(c.name, |xs|, m,
      if rows == 0 then None else Some(m as real / rows as real * 100.0),
      if xs == [] then None else Some(SummaryOf(xs)),
      if |xs| >= 2 then Some(SampleVariance(xs)) else None)
  }

  /** One row per numeric column, in column order; no rows without numeric columns. */
  function DescriptiveStatistics(t: Table): seq<DescRow>
  {
    var num := OfKind(t.columns, Numeric);
    seq(|num|, k requires 0 <= k < |num| => Describe(num[k], t.rows))
  }

  lemma {:induction false} NumericCellsCount(c: Column)
    requires Typed(c) && c.kind == Numeric
    ensures |NumValues(c.cells)| + MissingCount(c.cells) == |c.cells|
    decreases |c.cells|
  {
    if c.cells != [] {
      var rest := Column(c.name, c.kind, c.cells[1..]);
      assert Typed(rest) by {
        forall r | 0 <= r < |rest.cells| && rest.cells[r].Some? ensures Fits(rest.kind, rest.cells[r].value) {
          assert rest.cells[r] == c.cells[r + 1];
        }
      }
      NumericCellsCount(rest);
      assert c.cells == [c.cells[0]] + c.cells[1..];
    }
  }

  lemma {:induction false} SquaredDeviationsNonNegative(xs: seq<real>, m: real)
    ensures SquaredDeviations(xs, m) >= 0.0
  {
    if xs != [] {
      SquareNonNegative(xs[0] - m);
      SquaredDeviationsNonNegative(xs[1..], m);
    }
  }

  lemma SquareNonNegative(d: real)
    ensures d * d >= 0.0
  {
    if d >= 0.0 {
      MulLeft(0.0, d, d);
    } else {
      MulLeft(0.0, -d, -d);
      assert d * d == (-d) * (-d);
    }
  }

  lemma VarianceNonNegative(xs: seq<real>)
    requires |xs| >= 2
    ensures SampleVariance(xs) >= 0.0
  {
    var s := SquaredDeviations(xs, Mean(xs));
    var n := (|xs| - 1) as real;
    SquaredDeviationsNonNegative(xs, Mean(xs));
    var q := s / n;
    assert q * n == s;
    if q < 0.0 {
      MulStrict(q, 0.0, n);
    }
  }

  /**
   * One row of the table: count and missing add up to the rows, the
   * percentage lies in [0, 100], the summary is ordered and present iff the
   * column has a value, and the variance is non-negative and present iff it
   * has two.
   */
  lemma DescribeSpec(c: Column, rows: nat)
    requires ColumnFits(c, rows) && c.kind == Numeric
    ensures var d := Describe(c, rows);
      && d.count + d.missing == rows
      && (d.missingPct.Some? ==> 0.0 <= d.missingPct.value <= 100.0)
      && (d.summary.None? <==> d.count == 0)
      && (d.summary.Some? ==> Ordered(d.summary.value))
      && (d.variance.Some? <==> d.count >= 2)
      && (d.variance.Some? ==> d.variance.value >= 0.0)
  {
    var xs := NumValues(c.cells);
    var m := MissingCount(c.cells);
    NumericCellsCount(c);
    if xs != [] {
      SummaryOrdered(xs);
    }
    if |xs| >= 2 {
      VarianceNonNegative(xs);
    }
    if rows > 0 {
      Cleaning.PercentBound(m, rows);
      assert m as real / rows as real * 100.0 == Cleaning.Percent(m, rows);
    }
  }

  /** The table is empty exactly when there is no numeric column, and its rows follow the numeric columns. */
  lemma DescriptiveStatisticsSpec(t: Table)
    ensures |DescriptiveStatistics(t)| == |OfKind(t.columns, Numeric)|
    ensures DescriptiveStatistics(t) == [] <==> forall k :: 0 <= k < |t.columns| ==> t.columns[k].kind != Numeric
    ensures forall k :: 0 <= k < |DescriptiveStatistics(t)| ==>
              DescriptiveStatistics(t)[k].name == OfKind(t.columns, Numeric)[k].name
  {
    OfKindEmpty(t.columns, Numeric);
  }

  /** No column is selected exactly when no column has the dtype. */
  lemma OfKindEmpty(cols: seq<Column>, k: Kind)
    ensures OfKind(cols, k) == [] <==> forall i :: 0 <= i < |cols| ==> cols[i].kind != k
  {
    var sel := OfKind(cols, k);
    if exists i :: 0 <= i < |cols| && cols[i].kind == k {
      var i :| 0 <= i < |cols| && cols[i].kind == k;
      OfKindPartition(cols, cols[i], k);
    }
    if sel != [] {
      OfKindPartition(cols, sel[0], k);
    }
  }

  // ---------------------------------------------------------------------
  // categorical_analysis

  datatype ValueCount = ValueCount(value: Value, count: nat)

  function Tally(cells: seq<Cell>, vs: seq<Value>): seq<ValueCount>
  {
    seq(|vs|, i requires 0 <= i < |vs| => ValueCount(vs[i], Count(cells, vs[i])))
  }

  function CountKey(p: ValueCount): real
  {
    p.count as real
  }

  /** value_counts(): each distinct value with its count, most frequent first, ties in order of first occurrence. */
  function ValueCounts(cells: seq<Cell>): seq<ValueCount>
  {
    SortDesc(Tally(cells, Distinct(Present(cells))), CountKey)
  }

  datatype CategorySummary = CategorySummary(
    uniqueCount: nat,
    top5: seq<ValueCount>,
    mostCommon: Option<Value>,
    mostCommonCount: nat,
    concentration: real)

  lemma {:induction false} PresentNonEmpty(cells: seq<Cell>)
    requires Present(cells) != []
    ensures |cells| > 0
  {
  }

  function Summarize(c: Column, rows: nat): CategorySummary
    requires |c.cells| == rows
  {
    var vc := ValueCounts(c.cells);
    if vc == [] then CategorySummary(DistinctCount(c.cells), [], None, 0, 0.0)
    else
      assert Present(c.cells) != [] by {
        assert |Tally(c.cells, Distinct(Present(c.cells)))| == |vc|;
      }
      PresentNonEmpty(c.cells);
      CategorySummary(DistinctCount(c.cells), vc[..if |vc| < 5 then |vc| else 5], Some(vc[0].value), vc[0].count,
                      vc[0].count as real / rows as real * 100.0)
  }

  lemma TallyMembers(cells: seq<Cell>, w: Value)
    requires w in Present(cells)
    ensures ValueCount(w, Count(cells, w)) in ValueCounts(cells)
  {
    var vs := Distinct(Present(cells));
    var t := Tally(cells, vs);
    var i :| 0 <= i < |vs| && vs[i] == w;
    assert t[i] == ValueCount(w, Count(cells, w));
    assert t[i] in multiset(t);
  }

  lemma ValueCountsMembers(cells: seq<Cell>, e: ValueCount)
    requires e in ValueCounts(cells)
    ensures e.count == Count(cells, e.value) && e.value in Present(cells)
  {
    var vs := Distinct(Present(cells));
    var t := Tally(cells, vs);
    assert e in multiset(ValueCounts(cells));
    assert e in multiset(t);
    var i :| 0 <= i < |t| && t[i] == e;
  }

  lemma {:induction false} CountPositive(cells: seq<Cell>, v: Value)
    requires v in Present(cells)
    ensures Count(cells, v) > 0
  {
    PresentMembers(cells, v);
  }

  lemma ValueCountsLength(cells: seq<Cell>)
    ensures |ValueCounts(cells)| == DistinctCount(cells)
    ensures ValueCounts(cells) == [] <==> AllMissing(cells)
  {
    var vs := Distinct(Present(cells));
    assert |Tally(cells, vs)| == |vs|;
    PresentEmpty(cells);
  }

  /** The values of some value counts, in order. */
  function ValuesOf(vc: seq<ValueCount>): seq<Value>
  {
    seq(|vc|, i requires 0 <= i < |vc| => vc[i].value)
  }

  /**
   * The top five: at most five value counts of present values, and no value
   * left out is more frequent than one kept. The unique count is the number
   * of distinct values.
   */
  lemma TopFiveSpec(c: Column, rows: nat)
    requires |c.cells| == rows
    ensures var s := Summarize(c, rows);
      && |s.top5| <= 5
      && s.uniqueCount == |ValueCounts(c.cells)|
      && (forall e :: e in s.top5 ==> e.count == Count(c.cells, e.value) && e.value in Present(c.cells))
      && (forall e, w :: e in s.top5 && w in Present(c.cells) && w !in ValuesOf(s.top5) ==> Count(c.cells, w) <= e.count)
  {
    var vc := ValueCounts(c.cells);
    var top := Summarize(c, rows).top5;
    var n := if |vc| < 5 then |vc| else 5;
    assert top == vc[..n];
    ValueCountsLength(c.cells);
    forall e | e in top ensures e.count == Count(c.cells, e.value) && e.value in Present(c.cells) {
      ValueCountsMembers(c.cells, e);
    }
    forall e, w | e in top && w in Present(c.cells) && w !in ValuesOf(top)
      ensures Count(c.cells, w) <= e.count
    {
      PrefixDominates(c.cells, n, e, w);
    }
  }

  /** A value outside a prefix of the value counts is no more frequent than any value in it. */
  lemma PrefixDominates(cells: seq<Cell>, n: nat, e: ValueCount, w: Value)
    requires n <= |ValueCounts(cells)|
    requires e in ValueCounts(cells)[..n] && w in Present(cells) && w !in ValuesOf(ValueCounts(cells)[..n])
    ensures Count(cells, w) <= e.count
  {
    var vc := ValueCounts(cells);
    TallyMembers(cells, w);
    var j :| 0 <= j < |vc| && vc[j] == ValueCount(w, Count(cells, w));
    var i :| 0 <= i < n && vc[..n][i] == e;
    assert forall k :: 0 <= k < n ==> ValuesOf(vc[..n])[k] == vc[k].value;
    assert CountKey(vc[i]) >= CountKey(vc[j]);
  }

  lemma PercentPositive(count: nat, rows: nat)
    requires 0 < count <= rows
    ensures 0.0 < count as real / rows as real * 100.0 <= 100.0
  {
    Cleaning.PercentBound(count, rows);
    var q := count as real / rows as real;
    assert q * rows as real == count as real;
    if q <= 0.0 {
      MulLeft(q, 0.0, rows as real);
    }
    MulStrict(0.0, q, 100.0);
  }

  /**
   * The most common value has the greatest count, and the concentration is
   * its share of the rows; a column without a value has none, count 0 and
   * concentration 0.
   */
  lemma MostCommonSpec(c: Column, rows: nat)
    requires |c.cells| == rows
    ensures var s := Summarize(c, rows);
      && (s.mostCommon.None? <==> AllMissing(c.cells))
      && (s.mostCommon.None? ==> s.mostCommonCount == 0 && s.concentration == 0.0)
      && (s.mostCommon.Some? ==>
            s.mostCommonCount == Count(c.cells, s.mostCommon.value) > 0
            && (forall w :: w in Present(c.cells) ==> Count(c.cells, w) <= s.mostCommonCount)
            && 0.0 < s.concentration <= 100.0)
  {
    var vc := ValueCounts(c.cells);
    ValueCountsLength(c.cells);
    if vc != [] {
      var s := Summarize(c, rows);
      assert s.mostCommon == Some(vc[0].value) && s.mostCommonCount == vc[0].count;
      assert s.concentration == vc[0].count as real / rows as real * 100.0;
      ValueCountsMembers(c.cells, vc[0]);
      CountPositive(c.cells, vc[0].value);
      forall w | w in Present(c.cells) ensures Count(c.cells, w) <= vc[0].count {
        TallyMembers(c.cells, w);
        var j :| 0 <= j < |vc| && vc[j] == ValueCount(w, Count(c.cells, w));
        if j > 0 {
          assert CountKey(vc[0]) >= CountKey(vc[j]);
        }
      }
      MultisetCountBound(c.cells, vc[0].value);
      PercentPositive(vc[0].count, rows);
    }
  }

  lemma {:induction false} MultisetCountBound(cells: seq<Cell>, v: Value)
    ensures Count(cells, v) <= |cells|
  {
    if cells != [] {
      assert cells == [cells[0]] + cells[1..];
      MultisetCountBound(cells[1..], v);
    }
  }

  // ---------------------------------------------------------------------
  // _correlation_strength

  datatype Strength = VeryStrong | Strong | Moderate | Weak | VeryWeak

  /** Cuts at 0.9, 0.7, 0.5 and 0.3, each inclusive. */
  function CorrelationStrength(a: real): Strength
  {
    if a >= 0.9 then VeryStrong
    else if a >= 0.7 then Strong
    else if a >= 0.5 then Moderate
    else if a >= 0.3 then Weak
    else VeryWeak
  }

  /** The labels the report shows. */
  function StrengthLabel(s: Strength): string
  {
    match s
    case VeryStrong => "Çok Güçlü"
    case Strong => "Güçlü"
    case Moderate => "Orta"
    case Weak => "Zayıf"
    case VeryWeak => "Çok Zayıf"
  }

  function StrengthRank(s: Strength): nat
  {
    match s
    case VeryWeak => 0
    case Weak => 1
    case Moderate => 2
    case Strong => 3
    case VeryStrong => 4
  }

  /** A larger absolute correlation never gets a weaker label. */
  lemma StrengthMonotone(a: real, b: real)
    requires a <= b
    ensures StrengthRank(CorrelationStrength(a)) <= StrengthRank(CorrelationStrength(b))
  {
  }

  /** Distinct strengths have distinct labels. */
  lemma StrengthLabelsDistinct(s: Strength, t: Strength)
    requires s != t
    ensures StrengthLabel(s) != StrengthLabel(t)
  {
    var ls, lt := StrengthLabel(s), StrengthLabel(t);
    if |ls| == |lt| {
      assert ls[0] != lt[0] || ls[1] != lt[1] || ls[|ls| - 1] != lt[|lt| - 1];
    }
  }

  // ---------------------------------------------------------------------
  // correlation_analysis

  function Abs(x: real): real
  {
    if x < 0.0 then -x else x
  }

  /** A k-by-k correlation matrix; None marks NaN. */
  predicate SquareMatrix(corr: seq<seq<Option<real>>>, k: nat)
  {
    |corr| == k && forall i :: 0 <= i < k ==> |corr[i]| == k
  }

  datatype CorrPair = CorrPair(var1: string, var2: string, correlation: real, strength: Strength)

  function PairKey(p: CorrPair): real
  {
    Abs(p.correlation)
  }

  /** |r| >= threshold; NaN never is. */
  predicate IsStrong(corr: seq<seq<Option<real>>>, threshold: real, i: nat, j: nat)
    requires i < |corr| && j < |corr[i]|
  {
    corr[i][j].Some? && Abs(corr[i][j].value) >= threshold
  }

  function PairAt(names: seq<string>, corr: seq<seq<Option<real>>>, i: nat, j: nat): CorrPair
    requires i < |names| && j < |names| && i < |corr| && j < |corr[i]| && corr[i][j].Some?
  {
    CorrPair(names[i], names[j], corr[i][j].value, CorrelationStrength(Abs(corr[i][j].value)))
  }

  /** The strong pairs (i, j') with i < j' < j, in order of j'. */
  function RowPairs(names: seq<string>, corr: seq<seq<Option<real>>>, threshold: real, i: nat, j: nat): seq<CorrPair>
    requires |names| == |corr| && SquareMatrix(corr, |names|) && i < |names| && j <= |names|
    decreases j
  {
    if j <= i + 1 then []
    else RowPairs(names, corr, threshold, i, j - 1)
         + (if IsStrong(corr, threshold, i, j - 1) then [PairAt(names, corr, i, j - 1)] else [])
  }

  /** One more step of the inner loop adds the pair (i, j) exactly when it is strong. */
  lemma RowPairsStep(names: seq<string>, corr: seq<seq<Option<real>>>, threshold: real, i: nat, j: nat)
    requires |names| == |corr| && SquareMatrix(corr, |names|) && i < j < |names|
    ensures RowPairs(names, corr, threshold, i, j + 1) == RowPairs(names, corr, threshold, i, j)
              + (if IsStrong(corr, threshold, i, j) then [PairAt(names, corr, i, j)] else [])
  {
  }

  /** The strong pairs whose first index is below n, in the order of the nested loops. */
  function PairsBefore(names: seq<string>, corr: seq<seq<Option<real>>>, threshold: real, n: nat): seq<CorrPair>
    requires |names| == |corr| && SquareMatrix(corr, |names|) && n <= |names|
  {
    if n == 0 then []
    else PairsBefore(names, corr, threshold, n - 1) + RowPairs(names, corr, threshold, n - 1, |names|)
  }

  /** The strong correlations, sorted by descending |r| with ties in loop order; none with fewer than two columns. */
  function StrongCorrelations(names: seq<string>, corr: seq<seq<Option<real>>>, threshold: real): seq<CorrPair>
    requires |names| == |corr| && SquareMatrix(corr, |names|)
  {
    if |names| < 2 then [] else SortDesc(PairsBefore(names, corr, threshold, |names|), PairKey)
  }

  /** A pair the loops emit (i, j): i < j and a strong entry. */
  predicate Emitted(names: seq<string>, corr: seq<seq<Option<real>>>, threshold: real, p: CorrPair, n: nat)
    requires |names| == |corr| && SquareMatrix(corr, |names|)
  {
    exists i, j :: 0 <= i < n && i < j < |names| && IsStrong(corr, threshold, i, j) && p == PairAt(names, corr, i, j)
  }

  lemma {:induction false} RowPairsExact(names: seq<string>, corr: seq<seq<Option<real>>>, threshold: real, i: nat, j: nat)
    requires |names| == |corr| && SquareMatrix(corr, |names|) && i < |names| && j <= |names|
    ensures |RowPairs(names, corr, threshold, i, j)| <= if j <= i then 0 else j - i - 1
    ensures forall p :: p in RowPairs(names, corr, threshold, i, j) <==>
              exists j' :: i < j' < j && IsStrong(corr, threshold, i, j') && p == PairAt(names, corr, i, j')
    decreases j
  {
    if j > i + 1 {
      RowPairsExact(names, corr, threshold, i, j - 1);
    }
  }

  /** Tri(n, k): the number of pairs i < j < k with i < n. */
  function Tri(n: nat, k: nat): int
  {
    if n == 0 then 0 else Tri(n - 1, k) + (k - n)
  }

  lemma {:induction false} TriClosed(n: nat, k: nat)
    ensures 2 * Tri(n, k) == 2 * n * k - n * (n + 1)
  {
    if n > 0 {
      TriClosed(n - 1, k);
    }
  }

  /** The loops emit exactly the strong pairs (i, j) with i < j, at most one per pair of columns. */
  lemma {:induction false} PairsBeforeExact(names: seq<string>, corr: seq<seq<Option<real>>>, threshold: real, n: nat)
    requires |names| == |corr| && SquareMatrix(corr, |names|) && n <= |names|
    ensures |PairsBefore(names, corr, threshold, n)| <= Tri(n, |names|)
    ensures forall p :: p in PairsBefore(names, corr, threshold, n) <==> Emitted(names, corr, threshold, p, n)
  {
    if n > 0 {
      PairsBeforeExact(names, corr, threshold, n - 1);
      RowPairsExact(names, corr, threshold, n - 1, |names|);
      forall p ensures p in PairsBefore(names, corr, threshold, n) <==> Emitted(names, corr, threshold, p, n) {
        if Emitted(names, corr, threshold, p, n) {
          var i, j :| 0 <= i < n && i < j < |names| && IsStrong(corr, threshold, i, j) && p == PairAt(names, corr, i, j);
          if i < n - 1 {
            assert Emitted(names, corr, threshold, p, n - 1);
          }
        }
        if p in RowPairs(names, corr, threshold, n - 1, |names|) {
          var j :| n - 1 < j < |names| && IsStrong(corr, threshold, n - 1, j) && p == PairAt(names, corr, n - 1, j);
          assert Emitted(names, corr, threshold, p, n);
        }
        if p in PairsBefore(names, corr, threshold, n - 1) {
          var i, j :| 0 <= i < n - 1 && i < j < |names| && IsStrong(corr, threshold, i, j) && p == PairAt(names, corr, i, j);
          assert Emitted(names, corr, threshold, p, n);
        }
      }
    }
  }

  /** The strong correlations are exactly the pairs i < j whose |r| reaches the threshold (NaN never does). */
  lemma StrongCorrelationsMembers(names: seq<string>, corr: seq<seq<Option<real>>>, threshold: real)
    requires |names| == |corr| && SquareMatrix(corr, |names|)
    ensures forall p :: p in StrongCorrelations(names, corr, threshold) <==> Emitted(names, corr, threshold, p, |names|)
  {
    var k := |names|;
    if k >= 2 {
      PairsBeforeExact(names, corr, threshold, k);
      var loops := PairsBefore(names, corr, threshold, k);
      forall p ensures p in SortDesc(loops, PairKey) <==> p in loops {
        assert p in SortDesc(loops, PairKey) <==> p in multiset(SortDesc(loops, PairKey));
      }
    }
  }

  lemma TriSquare(k: nat)
    ensures 2 * Tri(k, k) == k * (k - 1)
  {
    TriClosed(k, k);
    assert 2 * k * k - k * (k + 1) == k * (k - 1);
  }

  /** There are at most k(k-1)/2 strong correlations among k columns. */
  lemma StrongCorrelationsCount(names: seq<string>, corr: seq<seq<Option<real>>>, threshold: real)
    requires |names| == |corr| && SquareMatrix(corr, |names|)
    ensures 2 * |StrongCorrelations(names, corr, threshold)| <= |names| * (|names| - 1)
  {
    StrongCorrelationsTri(names, corr, threshold);
    TriSquare(|names|);
  }

  lemma StrongCorrelationsTri(names: seq<string>, corr: seq<seq<Option<real>>>, threshold: real)
    requires |names| == |corr| && SquareMatrix(corr, |names|)
    ensures |StrongCorrelations(names, corr, threshold)| <= Tri(|names|, |names|)
  {
    if |names| >= 2 {
      PairsBeforeCount(names, corr, threshold, |names|);
    }
  }

  lemma {:induction false} RowPairsCount(names: seq<string>, corr: seq<seq<Option<real>>>, threshold: real, i: nat, j: nat)
    requires |names| == |corr| && SquareMatrix(corr, |names|) && i < |names| && j <= |names|
    ensures |RowPairs(names, corr, threshold, i, j)| <= if j <= i then 0 else j - i - 1
    decreases j
  {
    if j > i + 1 {
      RowPairsCount(names, corr, threshold, i, j - 1);
    }
  }

  lemma {:induction false} PairsBeforeCount(names: seq<string>, corr: seq<seq<Option<real>>>, threshold: real, n: nat)
    requires |names| == |corr| && SquareMatrix(corr, |names|) && n <= |names|
    ensures |PairsBefore(names, corr, threshold, n)| <= Tri(n, |names|)
  {
    if n > 0 {
      PairsBeforeCount(names, corr, threshold, n - 1);
      RowPairsCount(names, corr, threshold, n - 1, |names|);
    }
  }

  /**
   * The list is in descending |r|, it is a permutation of what the loops
   * emit, and pairs of equal |r| keep the loops' order.
   */
  lemma StrongCorrelationsOrder(names: seq<string>, corr: seq<seq<Option<real>>>, threshold: real)
    requires |names| == |corr| && SquareMatrix(corr, |names|) && |names| >= 2
    ensures Descending(StrongCorrelations(names, corr, threshold), PairKey)
    ensures multiset(StrongCorrelations(names, corr, threshold)) == multiset(PairsBefore(names, corr, threshold, |names|))
    ensures forall a :: WithKey(StrongCorrelations(names, corr, threshold), PairKey, a)
                     == WithKey(PairsBefore(names, corr, threshold, |names|), PairKey, a)
  {
    var loops := PairsBefore(names, corr, threshold, |names|);
    forall a ensures WithKey(SortDesc(loops, PairKey), PairKey, a) == WithKey(loops, PairKey, a) {
      SortDescStable(loops, PairKey, a);
    }
  }

  /** A pair is reported at the given threshold exactly when its |r| is at or above it (the threshold is inclusive). */
  lemma ReportedIffStrong(names: seq<string>, corr: seq<seq<Option<real>>>, threshold: real, i: nat, j: nat)
    requires |names| == |corr| && SquareMatrix(corr, |names|)
    requires i < j < |names| && corr[i][j].Some?
    requires DistinctStrings(names)
    ensures PairAt(names, corr, i, j) in StrongCorrelations(names, corr, threshold) <==> Abs(corr[i][j].value) >= threshold
  {
    StrongCorrelationsMembers(names, corr, threshold);
    var p := PairAt(names, corr, i, j);
    if IsStrong(corr, threshold, i, j) {
      assert Emitted(names, corr, threshold, p, |names|);
    }
    if p in StrongCorrelations(names, corr, threshold) {
      var i', j' :| 0 <= i' < |names| && i' < j' < |names| && IsStrong(corr, threshold, i', j') && p == PairAt(names, corr, i', j');
      assert names[i'] == names[i] && names[j'] == names[j];
    }
  }

  predicate DistinctStrings(names: seq<string>)
  {
    forall i, j :: 0 <= i < j < |names| ==> names[i] != names[j]
  }

  // ---------------------------------------------------------------------
  // variance_analysis

  /**
   * The number of rows variance_analysis(top_n) returns for k numeric columns:
   * head(top_n) keeps the first top_n rows, or for a negative top_n all but
   * the last -top_n.
   */
  function VarianceAnalysisSize(k: nat, topN: int): nat
  {
    if topN >= 0 then (if topN < k then topN else k)
    else if k + topN > 0 then k + topN else 0
  }

  lemma VarianceAnalysisSizeSpec(k: nat, topN: int)
    ensures VarianceAnalysisSize(k, topN) <= k
    ensures k == 0 ==> VarianceAnalysisSize(k, topN) == 0
    ensures k > 0 && topN > 0 ==> VarianceAnalysisSize(k, topN) > 0
  {
  }

  // ---------------------------------------------------------------------
  // distribution_tests

  /** What scipy's Shapiro-Wilk test gave for a column's sample; it is not modelled. */
  datatype ShapiroOutcome = Statistic(stat: real, p: real) | Raised

  datatype Normality = Tested(statistic: real, pValue: real, isNormal: bool) | TestFailed

  datatype NormalityEntry = NormalityEntry(name: string, result: Normality)

  /** At most 5000 values are tested. */
  function SampleSize(n: nat): nat
  {
    if n > 5000 then 5000 else n
  }

  function NormalityOf(c: Column, outcome: ShapiroOutcome): seq<NormalityEntry>
  {
    if SampleSize(|NumValues(c.cells)|) >= 3 then
      [NormalityEntry(c.name, match outcome
                                case Statistic(st, p) => Tested(st, p, p > 0.05)
                                case Raised => TestFailed)]
    else []
  }

  /** The entries for the numeric columns cols, tested with the outcomes in order. */
  function NormalityEntries(cols: seq<Column>, outcomes: seq<ShapiroOutcome>): seq<NormalityEntry>
    requires |outcomes| == |cols|
  {
    if cols == [] then []
    else NormalityEntries(cols[..|cols| - 1], outcomes[..|cols| - 1]) + NormalityOf(cols[|cols| - 1], outcomes[|cols| - 1])
  }

  /**
   * A column gets an entry exactly when it has at least three values; it is
   * judged normal exactly when p > 0.05; the sample has at most 5000 values.
   */
  lemma {:induction false} NormalityEntriesSpec(cols: seq<Column>, outcomes: seq<ShapiroOutcome>)
    requires |outcomes| == |cols|
    ensures |NormalityEntries(cols, outcomes)| <= |cols|
    ensures forall k :: 0 <= k < |cols| ==>
              (NormalityOf(cols[k], outcomes[k]) != [] <==> |NumValues(cols[k].cells)| >= 3)
    ensures forall k :: 0 <= k < |cols| && |NumValues(cols[k].cells)| >= 3 ==>
              NormalityOf(cols[k], outcomes[k])[0] in NormalityEntries(cols, outcomes)
    ensures forall e :: e in NormalityEntries(cols, outcomes) && e.result.Tested? ==>
              (e.result.isNormal <==> e.result.pValue > 0.05)
    ensures forall n: nat :: SampleSize(n) <= 5000 && (n <= 5000 ==> SampleSize(n) == n) && (SampleSize(n) >= 3 <==> n >= 3)
  {
    if cols != [] {
      var n := |cols| - 1;
      NormalityEntriesSpec(cols[..n], outcomes[..n]);
      forall k | 0 <= k < n ensures cols[..n][k] == cols[k] && outcomes[..n][k] == outcomes[k] { }
    }
  }

  // ---------------------------------------------------------------------
  // _detect_trend

  datatype Trend = Insufficient | Flat | Increasing | Decreasing

  function TrendLabel(t: Trend): string
  {
    match t
    case Insufficient => "Yetersiz veri"
    case Flat => "Sabit"
    case Increasing => "Artan"
    case Decreasing => "Azalan"
  }

  /** As written: a series is flat when |slope| is strictly below 1% of its standard deviation. */
  function DetectTrendAsWritten(n: nat, slope: real, std: real): Trend
  {
    if n < 2 then Insufficient
    else if Abs(slope) < std * 0.01 then Flat
    else if slope > 0.0 then Increasing
    else Decreasing
  }

  /** A constant series (standard deviation 0) is never labelled flat, whatever slope the fit returns. */
  lemma ConstantSeriesNotFlatAsWritten(n: nat, slope: real)
    requires n >= 2
    ensures DetectTrendAsWritten(n, slope, 0.0) != Flat
    ensures slope == 0.0 ==> DetectTrendAsWritten(n, slope, 0.0) == Decreasing
  {
  }

  /** The intended rule: flat when |slope| is at most 1% of the standard deviation. */
  function DetectTrend(n: nat, slope: real, std: real): Trend
  {
    if n < 2 then Insufficient
    else if Abs(slope) <= std * 0.01 then Flat
    else if slope > 0.0 then Increasing
    else Decreasing
  }

  /**
   * Fewer than two points are insufficient; otherwise a zero slope is flat,
   * an increasing label needs a positive slope and a decreasing one a negative slope.
   */
  lemma DetectTrendSpec(n: nat, slope: real, std: real)
    requires std >= 0.0
    ensures DetectTrend(n, slope, std) == Insufficient <==> n < 2
    ensures n >= 2 && slope == 0.0 ==> DetectTrend(n, slope, std) == Flat
    ensures DetectTrend(n, slope, std) == Increasing ==> slope > 0.0
    ensures DetectTrend(n, slope, std) == Decreasing ==> slope < 0.0
  {
  }

  // ---------------------------------------------------------------------
  // generate_insights

  datatype Insight =
    | SizeSummary(rows: nat, columns: nat)
    | MissingWarning(percentage: real)
    | HighCardinality(names: seq<string>)
    | StrongCorrelationCount(count: nat)
    | HighestVariance

  /** The position of each kind of insight in the list. */
  function InsightRank(i: Insight): nat
  {
    match i
    case SizeSummary(_, _) => 0
    case MissingWarning(_) => 1
    case HighCardinality(_) => 2
    case StrongCorrelationCount(_) => 3
    case HighestVariance => 4
  }

  /** The percentage of missing cells, or None (NaN) for a frame of size 0. */
  function MissingPercentage(t: Table): Option<real>
  {
    var size := t.rows * |t.columns|;
    if size == 0 then None else Some(Cleaning.TotalMissing(t.columns) as real / size as real * 100.0)
  }

  /** The categorical columns with more distinct values than 80% of the rows, in column order. */
  function HighCardinalityNames(cats: seq<Column>, rows: nat): seq<string>
  {
    if cats == [] then []
    else
      var c := cats[|cats| - 1];
      HighCardinalityNames(cats[..|cats| - 1], rows)
      + (if DistinctCount(c.cells) as real > rows as real * 0.8 then [c.name] else [])
  }

  /** The insights, in order: size; missing share above 5%; high-cardinality columns; strong correlations; highest variance. */
  function When(b: bool, x: Insight): seq<Insight>
  {
    if b then [x] else []
  }

  /** The list from its ingredients: the frame's size, the missing share, the high-cardinality names and the numbers of strong pairs and of numeric columns. */
  function InsightList(rows: nat, cols: nat, pct: Option<real>, high: seq<string>, strong: nat, numeric: nat): seq<Insight>
  {
    [SizeSummary(rows, cols)]
    + When(pct.Some? && pct.value > 5.0, MissingWarning(if pct.Some? then pct.value else 0.0))
    + When(high != [], HighCardinality(high))
    + When(numeric >= 2 && strong > 0, StrongCorrelationCount(strong))
    + When(numeric > 0 && VarianceAnalysisSize(numeric, 3) > 0, HighestVariance)
  }

  /** The insights, in order: size; missing share above 5%; high-cardinality columns; strong correlations; highest variance. */
  function Insights(t: Table, corr: seq<seq<Option<real>>>): seq<Insight>
    requires SquareMatrix(corr, |OfKind(t.columns, Numeric)|)
  {
    var num := Names(OfKind(t.columns, Numeric));
    InsightList(t.rows, |t.columns|, MissingPercentage(t), HighCardinalityNames(OfKind(t.columns, Object), t.rows),
                |StrongCorrelations(num, corr, 0.7)|, |num|)
  }

  /** The kinds of insight present in a list, by rank. */
  function Ranks(r: seq<Insight>): set<nat>
  {
    if r == [] then {} else Ranks(r[..|r| - 1]) + {InsightRank(r[|r| - 1])}
  }

  predicate RankOrdered(r: seq<Insight>)
  {
    forall i, j :: 0 <= i < j < |r| ==> InsightRank(r[i]) < InsightRank(r[j])
  }

  predicate RanksBelow(r: seq<Insight>, k: nat)
  {
    forall i :: 0 <= i < |r| ==> InsightRank(r[i]) < k
  }

  /** Appending an optional insight of a higher rank keeps the list in rank order. */
  lemma AppendWhenOrdered(r: seq<Insight>, b: bool, x: Insight)
    requires RankOrdered(r) && RanksBelow(r, InsightRank(x))
    ensures RankOrdered(r + When(b, x)) && RanksBelow(r + When(b, x), InsightRank(x) + 1)
    ensures |r + When(b, x)| == |r| + (if b then 1 else 0)
  {
  }

  /** Appending an optional insight adds exactly its rank when it is present. */
  lemma AppendWhenRanks(r: seq<Insight>, b: bool, x: Insight)
    ensures Ranks(r + When(b, x)) == Ranks(r) + (if b then {InsightRank(x)} else {})
  {
    if b {
      assert (r + [x])[..|r|] == r;
    } else {
      assert r + [] == r;
    }
  }

  /** The list starts with the size summary and holds one to five insights in rank order. */
  lemma InsightListOrdered(rows: nat, cols: nat, pct: Option<real>, high: seq<string>, strong: nat, numeric: nat)
    ensures var r := InsightList(rows, cols, pct, high, strong, numeric);
      && 1 <= |r| <= 5 && r[0] == SizeSummary(rows, cols) && RankOrdered(r)
  {
    var r0 := [SizeSummary(rows, cols)];
    var x1 := MissingWarning(if pct.Some? then pct.value else 0.0);
    var b1, b2, b3, b4 := pct.Some? && pct.value > 5.0, high != [], numeric >= 2 && strong > 0,
                          numeric > 0 && VarianceAnalysisSize(numeric, 3) > 0;
    AppendWhenOrdered(r0, b1, x1);
    var r1 := r0 + When(b1, x1);
    AppendWhenOrdered(r1, b2, HighCardinality(high));
    var r2 := r1 + When(b2, HighCardinality(high));
    AppendWhenOrdered(r2, b3, StrongCorrelationCount(strong));
    var r3 := r2 + When(b3, StrongCorrelationCount(strong));
    AppendWhenOrdered(r3, b4, HighestVariance);
    assert (r3 + When(b4, HighestVariance))[0] == SizeSummary(rows, cols);
  }

  /** Each insight after the first is present exactly when its condition holds. */
  lemma InsightListRanks(rows: nat, cols: nat, pct: Option<real>, high: seq<string>, strong: nat, numeric: nat)
    ensures Ranks(InsightList(rows, cols, pct, high, strong, numeric))
         == {0} + (if pct.Some? && pct.value > 5.0 then {1} else {}) + (if high != [] then {2} else {})
            + (if numeric >= 2 && strong > 0 then {3} else {}) + (if numeric > 0 then {4} else {})
  {
    VarianceAnalysisSizeSpec(numeric, 3);
    var r0 := [SizeSummary(rows, cols)];
    assert Ranks(r0) == {0} by {
      assert InsightRank(r0[0]) == 0;
    }
    var x1 := MissingWarning(if pct.Some? then pct.value else 0.0);
    var b1, b2, b3, b4 := pct.Some? && pct.value > 5.0, high != [], numeric >= 2 && strong > 0,
                          numeric > 0 && VarianceAnalysisSize(numeric, 3) > 0;
    AppendWhenRanks(r0, b1, x1);
    var r1 := r0 + When(b1, x1);
    AppendWhenRanks(r1, b2, HighCardinality(high));
    var r2 := r1 + When(b2, HighCardinality(high));
    AppendWhenRanks(r2, b3, StrongCorrelationCount(strong));
    var r3 := r2 + When(b3, StrongCorrelationCount(strong));
    AppendWhenRanks(r3, b4, HighestVariance);
    var r4 := r3 + When(b4, HighestVariance);
    assert b4 == (numeric > 0);
    var s1, s2, s3, s4 := (if b1 then {1} else {}), (if b2 then {2} else {}), (if b3 then {3} else {}), (if b4 then {4} else {});
    assert Ranks(r4) == {0} + s1 + s2 + s3 + s4;
    assert InsightList(rows, cols, pct, high, strong, numeric) == r4;
  }

  /**
   * The list starts with the size summary, has one to five entries in a fixed
   * order, and holds each later entry exactly when its condition holds.
   */
  lemma InsightsSpec(t: Table, corr: seq<seq<Option<real>>>)
    requires SquareMatrix(corr, |OfKind(t.columns, Numeric)|)
    ensures var r := Insights(t, corr);
            var num := Names(OfKind(t.columns, Numeric));
            var pct := MissingPercentage(t);
      && 1 <= |r| <= 5
      && r[0] == SizeSummary(t.rows, |t.columns|)
      && RankOrdered(r)
      && Ranks(r) == {0}
           + (if pct.Some? && pct.value > 5.0 then {1} else {})
           + (if HighCardinalityNames(OfKind(t.columns, Object), t.rows) != [] then {2} else {})
           + (if |num| >= 2 && StrongCorrelations(num, corr, 0.7) != [] then {3} else {})
           + (if |num| > 0 then {4} else {})
  {
    var num := Names(OfKind(t.columns, Numeric));
    var pct, high, strong := MissingPercentage(t), HighCardinalityNames(OfKind(t.columns, Object), t.rows),
                             StrongCorrelations(num, corr, 0.7);
    assert Insights(t, corr) == InsightList(t.rows, |t.columns|, pct, high, |strong|, |num|);
    InsightListOrdered(t.rows, |t.columns|, pct, high, |strong|, |num|);
    InsightListRanks(t.rows, |t.columns|, pct, high, |strong|, |num|);
  }
}
