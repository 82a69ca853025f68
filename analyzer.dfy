/**
 * DataAnalyzer: a frame and the names of its numeric, categorical and
 * datetime columns, fixed when the analyzer is built. The methods run the
 * source's loops and are proved to compute what module Analysis describes.
 */
module Analyzer {
  import opened Wrappers
  import opened Tables
  import opened Sorting
  import opened Analysis

  /** One entry of categorical_analysis, keyed by the column's name. */
  datatype CategoryEntry = CategoryEntry(name: string, summary: CategorySummary)

  /** categorical_analysis: one entry per categorical column, in column order. */
  function CategoricalAnalysisOf(t: Table): seq<CategoryEntry>
    requires WellFormed(t)
  {
    var cats := OfKind(t.columns, Object);
    OfKindFitting(t, Object);
    seq(|cats|, k requires 0 <= k < |cats| => CategoryEntry(cats[k].name, Summarize(cats[k], t.rows)))
  }

  class DataAnalyzer {
    const df: Table
    const numericCols: seq<string>
    const categoricalCols: seq<string>
    const datetimeCols: seq<string>

    predicate Valid()
    {
      && WellFormed(df)
      && numericCols == Names(OfKind(df.columns, Numeric))
      && categoricalCols == Names(OfKind(df.columns, Object))
      && datetimeCols == Names(OfKind(df.columns, Datetime))
    }

    /** The three name lists come from select_dtypes, in column order. */
    constructor (frame: Table)
      requires WellFormed(frame)
      ensures Valid() && df == frame
    {
      df := frame;
      numericCols := Names(OfKind(frame.columns, Numeric));
      categoricalCols := Names(OfKind(frame.columns, Object));
      datetimeCols := Names(OfKind(frame.columns, Datetime));
    }

    /** A column's name is in exactly the list of its dtype. */
    lemma ColumnListsPartition(c: Column)
      requires Valid()
      requires c in df.columns
      ensures c.name in numericCols <==> c.kind == Numeric
      ensures c.name in categoricalCols <==> c.kind == Object
      ensures c.name in datetimeCols <==> c.kind == Datetime
    {
      ListedIff(c, Numeric);
      ListedIff(c, Object);
      ListedIff(c, Datetime);
    }

    lemma ListedIff(c: Column, k: Kind)
      requires Valid()
      requires c in df.columns
      ensures c.name in Names(OfKind(df.columns, k)) <==> c.kind == k
    {
      if c.kind == k {
        KindListed(df.columns, c, k);
      }
      if c.name in Names(OfKind(df.columns, k)) {
        ListedKind(df.columns, c, k);
      }
    }

    /** categorical_analysis: the loop over the categorical columns. */
    method CategoricalAnalysis() returns (r: seq<CategoryEntry>)
      requires Valid()
      ensures r == CategoricalAnalysisOf(df)
      ensures EntryNames(r) == categoricalCols
    {
      var cats := OfKind(df.columns, Object);
      OfKindFitting(df, Object);
      ghost var all := CategoricalAnalysisOf(df);
      r := [];
      var i := 0;
      while i < |cats|
        invariant 0 <= i <= |cats| == |all|
        invariant r == all[..i]
      {
        var entry := CategoryEntry(cats[i].name, Summarize(cats[i], df.rows));
        assert all[i] == entry;
        assert all[..i + 1] == all[..i] + [entry];
        r := r + [entry];
        i := i + 1;
      }
      assert all[..i] == all;
      CategoricalNames(df);
    }

    /**
     * correlation_analysis: the nested loops over i < j collect the pairs
     * whose |r| reaches the threshold, then the list is sorted by descending
     * |r|. Fewer than two numeric columns give no pairs.
     */
    method CorrelationAnalysis(corr: seq<seq<Option<real>>>, threshold: real) returns (pairs: seq<CorrPair>)
      requires Valid()
      requires SquareMatrix(corr, |numericCols|)
      ensures pairs == StrongCorrelations(numericCols, corr, threshold)
    {
      if |numericCols| < 2 {
        return [];
      }
      pairs := CollectPairs(numericCols, corr, threshold);
      pairs := SortDesc(pairs, PairKey);
    }

    /**
     * distribution_tests: each numeric column with at least three values gets
     * the outcome of its test, in column order.
     */
    method DistributionTests(outcomes: seq<ShapiroOutcome>) returns (r: seq<NormalityEntry>)
      requires Valid()
      requires |outcomes| == |numericCols|
      ensures r == NormalityEntries(OfKind(df.columns, Numeric), outcomes)
    {
      r := TestColumns(OfKind(df.columns, Numeric), outcomes);
    }

    /** generate_insights: the list built step by step, the correlations at threshold 0.7. */
    method GenerateInsights(corr: seq<seq<Option<real>>>) returns (insights: seq<Insight>)
      requires Valid()
      requires SquareMatrix(corr, |numericCols|)
      ensures insights == Insights(df, corr)
    {
      ghost var high := HighCardinalityNames(OfKind(df.columns, Object), df.rows);
      ghost var strongAll := StrongCorrelations(numericCols, corr, 0.7);
      var pct := MissingPercentage(df);
      insights := [SizeSummary(df.rows, |df.columns|)];
      ghost var r0 := insights;
      if pct.Some? && pct.value > 5.0 {
        insights := insights + [MissingWarning(pct.value)];
      }
      ghost var r1 := insights;
      AppendWhen(r0, r1, pct.Some? && pct.value > 5.0, MissingWarning(if pct.Some? then pct.value else 0.0));
      if categoricalCols != [] {
        var highCardinality := HighCardinalityNames(OfKind(df.columns, Object), df.rows);
        if highCardinality != [] {
          insights := insights + [HighCardinality(highCardinality)];
        }
      }
      ghost var r2 := insights;
      AppendWhen(r1, r2, high != [], HighCardinality(high));
      if |numericCols| >= 2 {
        var strong := CorrelationAnalysis(corr, 0.7);
        if strong != [] {
          insights := insights + [StrongCorrelationCount(|strong|)];
        }
      }
      ghost var r3 := insights;
      AppendWhen(r2, r3, |numericCols| >= 2 && |strongAll| > 0, StrongCorrelationCount(|strongAll|));
      if numericCols != [] && VarianceAnalysisSize(|numericCols|, 3) > 0 {
        insights := insights + [HighestVariance];
      }
      AppendWhen(r3, insights, numericCols != [] && VarianceAnalysisSize(|numericCols|, 3) > 0, HighestVariance);
      assert Insights(df, corr) == InsightList(df.rows, |df.columns|, pct, high, |strongAll|, |numericCols|);
    }
  }

  /** The loop of distribution_tests over the numeric columns cols. */
  method TestColumns(cols: seq<Column>, outcomes: seq<ShapiroOutcome>) returns (r: seq<NormalityEntry>)
    requires |outcomes| == |cols|
    ensures r == NormalityEntries(cols, outcomes)
  {
    r := [];
    var i := 0;
    while i < |cols|
      invariant 0 <= i <= |cols|
      invariant r == NormalityEntries(cols[..i], outcomes[..i])
    {
      var sample := NumValues(cols[i].cells);
      var n := if |sample| > 5000 then 5000 else |sample|;
      if n >= 3 {
        var result := match outcomes[i]
                      case Statistic(st, p) => Tested(st, p, p > 0.05)
                      case Raised => TestFailed;
        r := r + [NormalityEntry(cols[i].name, result)];
      }
      assert cols[..i + 1][..i] == cols[..i] && outcomes[..i + 1][..i] == outcomes[..i];
      i := i + 1;
    }
    assert cols[..i] == cols && outcomes[..i] == outcomes;
  }

  /** The nested loops of correlation_analysis over i < j: the strong pairs in loop order. */
  method CollectPairs(names: seq<string>, corr: seq<seq<Option<real>>>, threshold: real) returns (pairs: seq<CorrPair>)
    requires |names| == |corr| && SquareMatrix(corr, |names|)
    ensures pairs == PairsBefore(names, corr, threshold, |names|)
  {
    pairs := [];
    var i := 0;
    while i < |names|
      invariant 0 <= i <= |names|
      invariant pairs == PairsBefore(names, corr, threshold, i)
    {
      var row := CollectRow(names, corr, threshold, i);
      pairs := pairs + row;
      i := i + 1;
    }
  }

  /** The inner loop for row i: the strong pairs (i, j) with i < j, in order of j. */
  method CollectRow(names: seq<string>, corr: seq<seq<Option<real>>>, threshold: real, i: nat) returns (row: seq<CorrPair>)
    requires |names| == |corr| && SquareMatrix(corr, |names|) && i < |names|
    ensures row == RowPairs(names, corr, threshold, i, |names|)
  {
    row := [];
    var j := i + 1;
    while j < |names|
      invariant i + 1 <= j <= |names|
      invariant row == RowPairs(names, corr, threshold, i, j)
    {
      var cell := corr[i][j];
      RowPairsStep(names, corr, threshold, i, j);
      if cell.Some? && Abs(cell.value) >= threshold {
        row := row + [PairAt(names, corr, i, j)];
      }
      j := j + 1;
    }
  }

  /** A column of dtype k has its name in the list for k. */
  lemma KindListed(cols: seq<Column>, c: Column, k: Kind)
    requires c in cols && c.kind == k
    ensures c.name in Names(OfKind(cols, k))
  {
    var sel := OfKind(cols, k);
    OfKindPartition(cols, c, k);
    var j :| 0 <= j < |sel| && sel[j] == c;
    assert Names(sel)[j] == c.name;
  }

  /** With distinct names, a column whose name is in the list for k has dtype k. */
  lemma ListedKind(cols: seq<Column>, c: Column, k: Kind)
    requires DistinctNames(cols)
    requires c in cols && c.name in Names(OfKind(cols, k))
    ensures c.kind == k
  {
    var sel := OfKind(cols, k);
    var j :| 0 <= j < |sel| && Names(sel)[j] == c.name;
    var d := sel[j];
    OfKindPartition(cols, d, k);
    var a :| 0 <= a < |cols| && cols[a] == c;
    var b :| 0 <= b < |cols| && cols[b] == d;
    assert cols[a].name == cols[b].name;
    assert a == b;
  }

  /** An append guarded by b is an append of When(b, x). */
  lemma AppendWhen(before: seq<Insight>, after: seq<Insight>, b: bool, x: Insight)
    requires after == if b then before + [x] else before
    ensures after == before + When(b, x)
  {
  }

  /** The entries of categorical_analysis are named after the categorical columns, in order. */
  lemma CategoricalNames(t: Table)
    requires WellFormed(t)
    ensures EntryNames(CategoricalAnalysisOf(t)) == Names(OfKind(t.columns, Object))
  {
  }

  function EntryNames(r: seq<CategoryEntry>): seq<string>
  {
    seq(|r|, k requires 0 <= k < |r| => r[k].name)
  }
}
