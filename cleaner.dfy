/**
 * DataCleaner: a working copy of a frame and the cleaning report, both
 * updated in place by the analysis and cleaning steps. Each method is proved
 * to leave exactly the state that module Cleaning describes.
 */
module Cleaner {
  import opened Wrappers
  import opened Tables
  import opened Cleaning

  /** The missing_handling entry of the report. */
  datatype Handling = Handling(
    strategy: string,
    threshold: real,
    droppedColumns: seq<string>,
    originalShape: (nat, nat),
    newShape: (nat, nat))

  /** cleaning_report: each key is present once the step that writes it has run. */
  datatype Report = Report(
    missingAnalysis: Option<MissingStats>,
    columnTypes: Option<TypeInfo>,
    missingHandling: Option<Handling>,
    outliers: Option<seq<OutlierInfo>>)

  /** DataFrame.shape. */
  function Shape(t: Table): (nat, nat)
  {
    (t.rows, |t.columns|)
  }

  class DataCleaner {
    var df: Table
    var report: Report

    predicate Valid()
      reads this
    {
      WellFormed(df)
    }

    /** Starts from a copy of the frame and an empty report. */
    constructor (frame: Table)
      requires WellFormed(frame)
      ensures Valid()
      ensures df == frame && report == Report(None, None, None, None)
    {
      df := frame;
      report := Report(None, None, None, None);
    }

    /** analyze_missing: the summary is recorded under missing_analysis and returned. */
    method AnalyzeMissing() returns (stats: MissingStats)
      requires Valid()
      modifies this
      ensures Valid() && df == old(df)
      ensures stats == MissingStatsOf(df)
      ensures report == old(report).(missingAnalysis := Some(stats))
    {
      WellFormedFitting(df);
      stats := ScanMissing(df);
      report := report.(missingAnalysis := Some(stats));
    }

    /** detect_column_types: each column's name goes to one of four lists, recorded under column_types. */
    method DetectColumnTypes() returns (info: TypeInfo)
      requires Valid()
      modifies this
      ensures Valid() && df == old(df)
      ensures info == TypeInfoOf(df.columns, df.rows)
      ensures report == old(report).(columnTypes := Some(info))
    {
      var cols, rows := df.columns, df.rows;
      var numeric, categorical, datetime, text := [], [], [], [];
      var i := 0;
      while i < |cols|
        invariant 0 <= i <= |cols|
        invariant TypeInfo(numeric, categorical, datetime, text) == TypeInfoOf(cols[..i], rows)
        invariant unchanged(this)
      {
        var c := cols[i];
        if c.kind == Datetime {
          datetime := datetime + [c.name];
        } else if c.kind == Numeric {
          numeric := numeric + [c.name];
        } else if DistinctCount(c.cells) as real < rows as real * 0.05 || DistinctCount(c.cells) < 20 {
          categorical := categorical + [c.name];
        } else {
          text := text + [c.name];
        }
        assert cols[..i + 1][..i] == cols[..i];
        i := i + 1;
      }
      assert cols[..i] == cols;
      info := TypeInfo(numeric, categorical, datetime, text);
      report := report.(columnTypes := Some(info));
    }

    /**
     * handle_missing: drop the columns whose missing ratio is above the
     * threshold, then apply the strategy. The mode strategy stops at the first
     * wholly missing column, with the columns before it already filled, and
     * writes no report; every other run records missing_handling.
     */
    method HandleMissing(strategy: string, threshold: real) returns (outcome: Outcome)
      requires Valid()
      modifies this
      ensures Valid()
      ensures Handled(df, outcome) == HandleSpec(old(df), strategy, threshold)
      ensures outcome == Completed ==>
        report == old(report).(missingHandling := Some(Handling(strategy, threshold,
          DroppedNames(old(df).columns, old(df).rows, threshold), Shape(old(df)), Shape(df))))
      ensures outcome.Failed? ==> report == old(report)
    {
      ghost var t := df;
      WellFormedFitting(df);
      HandleSpecWellFormed(t, strategy, threshold);
      var original := Shape(df);
      var dropped := DroppedNames(df.columns, df.rows, threshold);
      df := ThresholdDrop(df, threshold);
      var kept := df;
      KeptFitting(t, threshold);
      if strategy == "auto" {
        FillAuto();
      } else if strategy == "drop" {
        df := DropIncompleteRows(df);
      } else if strategy == "mean" || strategy == "median" {
        df := df.(columns := NumericFilled(df.columns, strategy == "mean"));
      } else if strategy == "mode" {
        var f := FillMode();
        if f < |kept.columns| {
          outcome := Failed(kept.columns[f].name);
          assert Handled(df, outcome) == HandleSpec(t, strategy, threshold);
          return;
        }
      } else if strategy == "forward_fill" {
        df := df.(columns := FFilled(df.columns));
      }
      assert df == HandleSpec(t, strategy, threshold).table;
      report := report.(missingHandling := Some(Handling(strategy, threshold, dropped, original, Shape(df))));
      outcome := Completed;
    }

    /** The auto strategy's loop: each column with a missing cell is filled in place. */
    method FillAuto()
      modifies this
      ensures df == old(df).(columns := AutoFilled(old(df).columns))
      ensures report == old(report)
    {
      ghost var before := df.columns;
      var i := 0;
      while i < |df.columns|
        invariant 0 <= i <= |before|
        invariant df == old(df).(columns := df.columns) && report == old(report)
        invariant |df.columns| == |before|
        invariant forall k :: 0 <= k < i ==> df.columns[k] == AutoFill(before[k])
        invariant forall k :: i <= k < |before| ==> df.columns[k] == before[k]
      {
        var c := df.columns[i];
        if HasMissing(c.cells) {
          df := df.(columns := df.columns[i := AutoFill(c)]);
        }
        i := i + 1;
      }
    }

    /**
     * The mode strategy's loop: each column with a missing cell is filled with
     * its first mode, until a column has no value at all; f is that
     * column's position (the point where fillna(None) raises), or the number
     * of columns.
     */
    method FillMode() returns (f: nat)
      modifies this
      ensures f == FirstModeFailure(old(df).columns)
      ensures df == old(df).(columns := ModeFilled(old(df).columns, f))
      ensures report == old(report)
    {
      ghost var before := df.columns;
      var i := 0;
      while i < |df.columns|
        invariant 0 <= i <= |before|
        invariant df == old(df).(columns := df.columns) && report == old(report)
        invariant |df.columns| == |before|
        invariant forall k :: 0 <= k < i ==> df.columns[k] == ModeFill(before[k]) && !ModeFails(before[k])
        invariant forall k :: i <= k < |before| ==> df.columns[k] == before[k]
      {
        var c := df.columns[i];
        if HasMissing(c.cells) {
          var m := Mode(c.cells);
          if m.None? {
            f := i;
            assert df.columns == ModeFilled(before, i);
            return;
          }
          df := df.(columns := df.columns[i := c.(cells := FillCells(c.cells, m.value))]);
        }
        i := i + 1;
      }
      f := i;
      assert df.columns == ModeFilled(before, i);
    }

    /**
     * detect_outliers: the numeric columns with flagged cells, recorded under
     * outliers. An unknown method raises once a numeric column is reached.
     */
    method DetectOutliers(rule: string) returns (r: Option<seq<OutlierInfo>>)
      requires Valid()
      modifies this
      ensures Valid() && df == old(df)
      ensures r == OutliersOf(df, rule)
      ensures r.Some? ==> report == old(report).(outliers := r)
      ensures r.None? ==> report == old(report)
    {
      WellFormedFitting(df);
      r := ScanOutliers(df, rule);
      if r.Some? {
        report := report.(outliers := r);
      }
    }

    /** get_cleaned_data. */
    method GetCleanedData() returns (t: Table)
      ensures t == df
    {
      t := df;
    }

    /** get_report. */
    method GetReport() returns (r: Report)
      ensures r == report
    {
      r := report;
    }
  }

  /** The loop of analyze_missing: one entry per column with a missing cell, then the totals. */
  method ScanMissing(t: Table) returns (stats: MissingStats)
    requires Fitting(t.columns, t.rows)
    ensures stats == MissingStatsOf(t)
  {
    var cols, rows := t.columns, t.rows;
    var withMissing: seq<ColumnMissing> := [];
    var i := 0;
    while i < |cols|
      invariant 0 <= i <= |cols|
      invariant Fitting(cols[..i], rows)
      invariant withMissing == ColumnsWithMissing(cols[..i], rows)
    {
      var c := cols[i];
      ColumnsWithMissingStep(cols, rows, i);
      withMissing := withMissing + MissingEntry(c, rows);
      i := i + 1;
    }
    assert cols[..i] == cols;
    var size := rows * |cols|;
    var missing := TotalMissing(cols);
    stats := MissingStats(size, missing, if size == 0 then None else Some(Percent(missing, size)), withMissing);
  }

  /** The loop of detect_outliers: None where an unknown method meets a numeric column and the source raises. */
  method ScanOutliers(t: Table, rule: string) returns (r: Option<seq<OutlierInfo>>)
    requires Fitting(t.columns, t.rows)
    ensures r == OutliersOf(t, rule)
  {
    var cols, rows := t.columns, t.rows;
    var entries: seq<OutlierInfo> := [];
    var i := 0;
    while i < |cols|
      invariant 0 <= i <= |cols|
      invariant Fitting(cols[..i], rows)
      invariant entries == OutlierEntries(cols[..i], rows, rule)
      invariant rule == "iqr" || rule == "zscore" || forall k :: 0 <= k < i ==> cols[k].kind != Numeric
    {
      var c := cols[i];
      OutlierEntriesStep(cols, rows, rule, i);
      if c.kind == Numeric {
        if rule != "iqr" && rule != "zscore" {
          assert HasNumericColumn(cols) by { assert cols[i].kind == Numeric; }
          return None;
        }
      }
      entries := entries + OutlierEntry(c, rows, rule);
      i := i + 1;
    }
    assert cols[..i] == cols;
    r := Some(entries);
  }
}
