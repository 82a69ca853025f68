/**
 * What DataCleaner computes, as functions of the frame: the missing-value
 * summary, the column-type classification, the result of each
 * missing-value strategy, and outlier counts. The class in module Cleaner
 * runs these steps in place and is proved equal to them.
 */
module Cleaning {
  import opened Wrappers
  import opened Tables
  import opened Stats
  import opened Selection

  /** Every column has one cell per row. */
  predicate Fitting(cols: seq<Column>, rows: nat)
  {
    forall k :: 0 <= k < |cols| ==> |cols[k].cells| == rows
  }

  lemma WellFormedFitting(t: Table)
    requires WellFormed(t)
    ensures Fitting(t.columns, t.rows)
  {
  }

  lemma {:induction false} MissingCountBound(cells: seq<Cell>)
    ensures MissingCount(cells) <= |cells|
  {
    if cells != [] {
      assert cells == [cells[0]] + cells[1..];
      MissingCountBound(cells[1..]);
    }
  }

  /** count / rows as a percentage. */
  function Percent(count: nat, rows: nat): real
    requires rows > 0
  {
    count as real / rows as real * 100.0
  }

  lemma PercentBound(count: nat, rows: nat)
    requires 0 < rows && count <= rows
    ensures 0.0 <= Percent(count, rows) <= 100.0
  {
  }

  // ---------------------------------------------------------------------
  // analyze_missing

  datatype ColumnMissing = ColumnMissing(name: string, count: nat, percentage: real)

  datatype MissingStats = MissingStats(
    totalCells: nat,
    missingCells: nat,
    missingPercentage: Option<real>,  // None where pandas divides 0 by 0 (a frame of size 0)
    columnsWithMissing: seq<ColumnMissing>)

  /** isna().sum().sum(): the missing cells of all columns. */
  function TotalMissing(cols: seq<Column>): nat
  {
    if cols == [] then 0
    else TotalMissing(cols[..|cols| - 1]) + MissingCount(cols[|cols| - 1].cells)
  }

  /** The entry analyze_missing records for one column, if it has missing cells. */
  function MissingEntry(c: Column, rows: nat): seq<ColumnMissing>
    requires |c.cells| == rows
  {
    var m := MissingCount(c.cells);
    MissingCountBound(c.cells);
    if m > 0 then [ColumnMissing(c.name, m, Percent(m, rows))] else []
  }

  /** The columns_with_missing entries of cols, in column order. */
  function ColumnsWithMissing(cols: seq<Column>, rows: nat): seq<ColumnMissing>
    requires Fitting(cols, rows)
  {
    if cols == [] then []
    else ColumnsWithMissing(cols[..|cols| - 1], rows) + MissingEntry(cols[|cols| - 1], rows)
  }

  /** One more column adds its own entry. */
  lemma ColumnsWithMissingStep(cols: seq<Column>, rows: nat, i: nat)
    requires Fitting(cols, rows) && i < |cols|
    ensures Fitting(cols[..i], rows) && Fitting(cols[..i + 1], rows)
    ensures ColumnsWithMissing(cols[..i + 1], rows) == ColumnsWithMissing(cols[..i], rows) + MissingEntry(cols[i], rows)
  {
    assert cols[..i + 1][..i] == cols[..i];
  }

  /** The summary analyze_missing returns for a frame. */
  function MissingStatsOf(t: Table): MissingStats
    requires Fitting(t.columns, t.rows)
  {
    var size := t.rows * |t.columns|;
    var missing := TotalMissing(t.columns);
    MissingStats(size, missing, if size == 0 then None else Some(Percent(missing, size)),
                 ColumnsWithMissing(t.columns, t.rows))
  }

  lemma {:induction false} TotalMissingBound(cols: seq<Column>, rows: nat)
    requires Fitting(cols, rows)
    ensures TotalMissing(cols) <= rows * |cols|
  {
    if cols != [] {
      var init := cols[..|cols| - 1];
      TotalMissingBound(init, rows);
      MissingCountBound(cols[|cols| - 1].cells);
      MulSucc(rows, |init|);
    }
  }

  lemma MulSucc(a: nat, n: nat)
    ensures a * (n + 1) == a * n + a
  {
  }

  /** The missing cell count is at most the frame's size, and its percentage lies in [0, 100]. */
  lemma MissingStatsBounds(t: Table)
    requires Fitting(t.columns, t.rows)
    ensures MissingStatsOf(t).missingCells <= MissingStatsOf(t).totalCells
    ensures MissingStatsOf(t).missingPercentage.Some? <==> t.rows > 0 && |t.columns| > 0
    ensures MissingStatsOf(t).missingPercentage.Some? ==> 0.0 <= MissingStatsOf(t).missingPercentage.value <= 100.0
  {
    TotalMissingBound(t.columns, t.rows);
    if t.rows * |t.columns| > 0 {
      PercentBound(TotalMissing(t.columns), t.rows * |t.columns|);
    }
  }

  function SumCounts(es: seq<ColumnMissing>): nat
  {
    if es == [] then 0 else SumCounts(es[..|es| - 1]) + es[|es| - 1].count
  }

  lemma {:induction false} SumCountsAppend(a: seq<ColumnMissing>, b: seq<ColumnMissing>)
    ensures SumCounts(a + b) == SumCounts(a) + SumCounts(b)
    decreases |b|
  {
    if b != [] {
      assert (a + b)[..|a + b| - 1] == a + b[..|b| - 1];
      SumCountsAppend(a, b[..|b| - 1]);
    } else {
      assert a + b == a;
    }
  }

  /** missing_cells is the sum of the per-column counts listed in columns_with_missing. */
  lemma {:induction false} MissingCellsAreListed(cols: seq<Column>, rows: nat)
    requires Fitting(cols, rows)
    ensures SumCounts(ColumnsWithMissing(cols, rows)) == TotalMissing(cols)
  {
    if cols != [] {
      var init := cols[..|cols| - 1];
      MissingCellsAreListed(init, rows);
      SumCountsAppend(ColumnsWithMissing(init, rows), MissingEntry(cols[|cols| - 1], rows));
      var e := MissingEntry(cols[|cols| - 1], rows);
      if e != [] {
        assert SumCounts(e) == SumCounts(e[..0]) + e[0].count;
      }
    }
  }

  /**
   * columns_with_missing lists exactly the columns that have a missing cell,
   * in column order, each with its count and its percentage of the rows.
   */
  lemma ColumnsWithMissingExact(cols: seq<Column>, rows: nat)
    requires Fitting(cols, rows)
    ensures |ColumnsWithMissing(cols, rows)| <= |cols|
    ensures forall e :: e in ColumnsWithMissing(cols, rows) ==>
              e.count > 0 && rows > 0 && e.percentage == Percent(e.count, rows)
              && (exists k :: 0 <= k < |cols| && e.name == cols[k].name && e.count == MissingCount(cols[k].cells))
    ensures forall k :: 0 <= k < |cols| && MissingCount(cols[k].cells) > 0 ==>
              MissingEntry(cols[k], rows)[0] in ColumnsWithMissing(cols, rows)
  {
    ColumnsWithMissingLength(cols, rows);
    forall e | e in ColumnsWithMissing(cols, rows)
      ensures e.count > 0 && rows > 0 && e.percentage == Percent(e.count, rows)
      ensures exists k :: 0 <= k < |cols| && e.name == cols[k].name && e.count == MissingCount(cols[k].cells)
    {
      MissingEntrySound(cols, rows, e);
    }
    forall k | 0 <= k < |cols| && MissingCount(cols[k].cells) > 0
      ensures MissingEntry(cols[k], rows)[0] in ColumnsWithMissing(cols, rows)
    {
      MissingEntryListed(cols, rows, k);
    }
  }

  lemma {:induction false} ColumnsWithMissingLength(cols: seq<Column>, rows: nat)
    requires Fitting(cols, rows)
    ensures |ColumnsWithMissing(cols, rows)| <= |cols|
  {
    if cols != [] {
      ColumnsWithMissingLength(cols[..|cols| - 1], rows);
    }
  }

  /** An entry comes from a column with that name and that many missing cells. */
  lemma {:induction false} MissingEntrySound(cols: seq<Column>, rows: nat, e: ColumnMissing)
    requires Fitting(cols, rows) && e in ColumnsWithMissing(cols, rows)
    ensures e.count > 0 && rows > 0 && e.percentage == Percent(e.count, rows)
    ensures exists k :: 0 <= k < |cols| && e.name == cols[k].name && e.count == MissingCount(cols[k].cells)
  {
    var init, c := cols[..|cols| - 1], cols[|cols| - 1];
    if e in MissingEntry(c, rows) {
      MissingCountBound(c.cells);
      assert e.name == cols[|cols| - 1].name;
    } else {
      MissingEntrySound(init, rows, e);
      var k :| 0 <= k < |init| && e.name == init[k].name && e.count == MissingCount(init[k].cells);
      assert init[k] == cols[k];
    }
  }

  /** A column with a missing cell has its entry in the list. */
  lemma {:induction false} MissingEntryListed(cols: seq<Column>, rows: nat, k: nat)
    requires Fitting(cols, rows) && k < |cols| && MissingCount(cols[k].cells) > 0
    ensures MissingEntry(cols[k], rows)[0] in ColumnsWithMissing(cols, rows)
  {
    var init := cols[..|cols| - 1];
    if k < |init| {
      assert init[k] == cols[k];
      MissingEntryListed(init, rows, k);
    }
  }

  // ---------------------------------------------------------------------
  // detect_column_types

  datatype ColumnType = DatetimeColumn | NumericColumn | CategoricalColumn | TextColumn

  /**
   * The first test that holds decides: a datetime dtype, a numeric dtype,
   * fewer distinct values than 5% of the rows or than 20, and otherwise text.
   */
  function ClassifyColumn(c: Column, rows: nat): ColumnType
  {
    if c.kind == Datetime then DatetimeColumn
    else if c.kind == Numeric then NumericColumn
    else if DistinctCount(c.cells) as real < rows as real * 0.05 || DistinctCount(c.cells) < 20 then CategoricalColumn
    else TextColumn
  }

  datatype TypeInfo = TypeInfo(numeric: seq<string>, categorical: seq<string>, datetime: seq<string>, text: seq<string>)

  function NamesOfType(info: TypeInfo, ty: ColumnType): seq<string>
  {
    match ty
    case NumericColumn => info.numeric
    case CategoricalColumn => info.categorical
    case DatetimeColumn => info.datetime
    case TextColumn => info.text
  }

  /** info with name appended to the list for ty. */
  function AddName(info: TypeInfo, ty: ColumnType, name: string): TypeInfo
  {
    match ty
    case NumericColumn => info.(numeric := info.numeric + [name])
    case CategoricalColumn => info.(categorical := info.categorical + [name])
    case DatetimeColumn => info.(datetime := info.datetime + [name])
    case TextColumn => info.(text := info.text + [name])
  }

  /** The lists detect_column_types builds, each in column order. */
  function TypeInfoOf(cols: seq<Column>, rows: nat): TypeInfo
  {
    if cols == [] then TypeInfo([], [], [], [])
    else
      var c := cols[|cols| - 1];
      AddName(TypeInfoOf(cols[..|cols| - 1], rows), ClassifyColumn(c, rows), c.name)
  }

  function TypeInfoSize(info: TypeInfo): nat
  {
    |info.numeric| + |info.categorical| + |info.datetime| + |info.text|
  }

  lemma AddNameSpec(info: TypeInfo, t: ColumnType, name: string, ty: ColumnType)
    ensures TypeInfoSize(AddName(info, t, name)) == TypeInfoSize(info) + 1
    ensures NamesOfType(AddName(info, t, name), ty) == NamesOfType(info, ty) + (if t == ty then [name] else [])
  {
  }

  /** Each column's name is listed under its own type and no other; the four lists together have one entry per column. */
  lemma TypeInfoExact(cols: seq<Column>, rows: nat, ty: ColumnType, name: string)
    ensures TypeInfoSize(TypeInfoOf(cols, rows)) == |cols|
    ensures name in NamesOfType(TypeInfoOf(cols, rows), ty)
        <==> exists k :: 0 <= k < |cols| && cols[k].name == name && ClassifyColumn(cols[k], rows) == ty
  {
    TypeInfoCount(cols, rows);
    if name in NamesOfType(TypeInfoOf(cols, rows), ty) {
      TypeInfoSound(cols, rows, ty, name);
    }
    if exists k :: 0 <= k < |cols| && cols[k].name == name && ClassifyColumn(cols[k], rows) == ty {
      var k :| 0 <= k < |cols| && cols[k].name == name && ClassifyColumn(cols[k], rows) == ty;
      TypeInfoListed(cols, rows, k);
    }
  }

  lemma {:induction false} TypeInfoCount(cols: seq<Column>, rows: nat)
    ensures TypeInfoSize(TypeInfoOf(cols, rows)) == |cols|
  {
    if cols != [] {
      var c := cols[|cols| - 1];
      TypeInfoCount(cols[..|cols| - 1], rows);
      AddNameSpec(TypeInfoOf(cols[..|cols| - 1], rows), ClassifyColumn(c, rows), c.name, NumericColumn);
    }
  }

  /** A listed name belongs to a column of that type. */
  lemma {:induction false} TypeInfoSound(cols: seq<Column>, rows: nat, ty: ColumnType, name: string)
    requires name in NamesOfType(TypeInfoOf(cols, rows), ty)
    ensures exists k :: 0 <= k < |cols| && cols[k].name == name && ClassifyColumn(cols[k], rows) == ty
  {
    var init, c := cols[..|cols| - 1], cols[|cols| - 1];
    var before := TypeInfoOf(init, rows);
    var t := ClassifyColumn(c, rows);
    assert TypeInfoOf(cols, rows) == AddName(before, t, c.name);
    AddNameSpec(before, t, c.name, ty);
    if name in NamesOfType(before, ty) {
      TypeInfoSound(init, rows, ty, name);
      var k :| 0 <= k < |init| && init[k].name == name && ClassifyColumn(init[k], rows) == ty;
      assert cols[k] == init[k];
    } else {
      assert cols[|cols| - 1] == c;
    }
  }

  /** Every column's name is listed under its type. */
  lemma {:induction false} TypeInfoListed(cols: seq<Column>, rows: nat, k: nat)
    requires k < |cols|
    ensures cols[k].name in NamesOfType(TypeInfoOf(cols, rows), ClassifyColumn(cols[k], rows))
  {
    var init, c := cols[..|cols| - 1], cols[|cols| - 1];
    var before := TypeInfoOf(init, rows);
    var t := ClassifyColumn(c, rows);
    var ty := ClassifyColumn(cols[k], rows);
    assert TypeInfoOf(cols, rows) == AddName(before, t, c.name);
    AddNameSpec(before, t, c.name, ty);
    if k < |init| {
      assert init[k] == cols[k];
      TypeInfoListed(init, rows, k);
    } else {
      assert cols[k] == c;
    }
  }

  lemma {:induction false} PresentLength(cells: seq<Cell>)
    ensures |Present(cells)| <= |cells|
  {
    if cells != [] {
      PresentLength(cells[1..]);
    }
  }

  /** In a frame of fewer than 20 rows, every column that is neither datetime nor numeric is categorical. */
  lemma SmallFrameIsCategorical(c: Column, rows: nat)
    requires |c.cells| == rows && rows < 20
    requires c.kind == Object
    ensures ClassifyColumn(c, rows) == CategoricalColumn
  {
    PresentLength(c.cells);
  }

  // ---------------------------------------------------------------------
  // handle_missing: dropping the columns whose missing ratio is above the threshold

  /** A column survives: its missing ratio is not above the threshold. With 0 rows the ratio is NaN, which is never above. */
  predicate KeepColumn(c: Column, rows: nat, threshold: real)
  {
    rows == 0 || MissingCount(c.cells) as real / rows as real <= threshold
  }

  function KeptIndices(cols: seq<Column>, rows: nat, threshold: real): seq<nat>
  {
    Indices(|cols|, (k: nat) => k < |cols| && KeepColumn(cols[k], rows, threshold))
  }

  function DroppedIndices(cols: seq<Column>, rows: nat, threshold: real): seq<nat>
  {
    Indices(|cols|, (k: nat) => k < |cols| && !KeepColumn(cols[k], rows, threshold))
  }

  /** The columns left after the threshold step, in their original order. */
  function KeptColumns(cols: seq<Column>, rows: nat, threshold: real): seq<Column>
  {
    Select(cols, KeptIndices(cols, rows, threshold))
  }

  /** The names recorded as dropped_columns, in column order. */
  function DroppedNames(cols: seq<Column>, rows: nat, threshold: real): seq<string>
  {
    Names(Select(cols, DroppedIndices(cols, rows, threshold)))
  }

  lemma {:induction false} IndicesSplit(n: nat, keep: nat -> bool, drop: nat -> bool)
    requires forall i: nat :: i < n ==> (drop(i) <==> !keep(i))
    ensures |Indices(n, keep)| + |Indices(n, drop)| == n
  {
    if n > 0 {
      IndicesSplit(n - 1, keep, drop);
    }
  }

  /**
   * A column is kept exactly when its missing ratio is at most the threshold,
   * and dropped (by name) exactly otherwise; the two together account for every column.
   */
  lemma KeptColumnsExact(cols: seq<Column>, rows: nat, threshold: real)
    requires DistinctNames(cols)
    ensures forall c :: c in KeptColumns(cols, rows, threshold) <==> c in cols && KeepColumn(c, rows, threshold)
    ensures forall k :: 0 <= k < |cols| ==>
              (cols[k].name in DroppedNames(cols, rows, threshold) <==> !KeepColumn(cols[k], rows, threshold))
    ensures |KeptColumns(cols, rows, threshold)| + |DroppedNames(cols, rows, threshold)| == |cols|
  {
    forall c ensures c in KeptColumns(cols, rows, threshold) <==> c in cols && KeepColumn(c, rows, threshold) {
      SelectMembers(cols, KeptIndices(cols, rows, threshold), c);
    }
    forall k | 0 <= k < |cols|
      ensures cols[k].name in DroppedNames(cols, rows, threshold) <==> !KeepColumn(cols[k], rows, threshold)
    {
      DroppedByName(cols, rows, threshold, k);
    }
    KeptDroppedCount(cols, rows, threshold);
  }

  lemma KeptDroppedCount(cols: seq<Column>, rows: nat, threshold: real)
    ensures |KeptColumns(cols, rows, threshold)| + |DroppedNames(cols, rows, threshold)| == |cols|
  {
    var keep := (k: nat) => k < |cols| && KeepColumn(cols[k], rows, threshold);
    var drop := (k: nat) => k < |cols| && !KeepColumn(cols[k], rows, threshold);
    IndicesSplit(|cols|, keep, drop);
  }

  /** With distinct names, a column's name is among the dropped names exactly when the column is dropped. */
  lemma DroppedByName(cols: seq<Column>, rows: nat, threshold: real, k: nat)
    requires DistinctNames(cols) && k < |cols|
    ensures cols[k].name in DroppedNames(cols, rows, threshold) <==> !KeepColumn(cols[k], rows, threshold)
  {
    var idx := DroppedIndices(cols, rows, threshold);
    var dropped := Select(cols, idx);
    if cols[k].name in DroppedNames(cols, rows, threshold) {
      var j :| 0 <= j < |dropped| && Names(dropped)[j] == cols[k].name;
      var i := idx[j];
      assert i in idx;
      assert cols[i].name == cols[k].name;
      assert i == k;
    }
    if !KeepColumn(cols[k], rows, threshold) {
      assert k in idx;
      var j :| 0 <= j < |dropped| && idx[j] == k;
      assert Names(dropped)[j] == cols[k].name;
    }
  }

  /** Keeping a subset of the columns, in order, keeps the frame well formed. */
  lemma KeptColumnsWellFormed(t: Table, threshold: real)
    requires WellFormed(t)
    ensures WellFormed(Table(t.rows, KeptColumns(t.columns, t.rows, threshold)))
  {
    var idx := KeptIndices(t.columns, t.rows, threshold);
    var kept := KeptColumns(t.columns, t.rows, threshold);
    forall i, j | 0 <= i < j < |kept| ensures kept[i].name != kept[j].name {
      assert idx[i] < idx[j];
    }
  }

  // ---------------------------------------------------------------------
  // handle_missing: the filling strategies

  /** fillna(v) on one column: every missing cell becomes v. */
  function FillCells(cells: seq<Cell>, v: Value): seq<Cell>
  {
    seq(|cells|, r requires 0 <= r < |cells| => if cells[r].None? then Some(v) else cells[r])
  }

  /** Filling keeps every present cell and leaves no cell missing. */
  lemma FillCellsSpec(cells: seq<Cell>, v: Value)
    ensures |FillCells(cells, v)| == |cells| && NoMissing(FillCells(cells, v))
    ensures forall r :: 0 <= r < |cells| && cells[r].Some? ==> FillCells(cells, v)[r] == cells[r]
    ensures forall r :: 0 <= r < |cells| && cells[r].None? ==> FillCells(cells, v)[r] == Some(v)
  {
  }

  /**
   * The auto strategy for one column: a numeric column is filled with its
   * median, any other with its first mode, or with 'Unknown' (which makes the
   * column an object column) when it has no value at all. A numeric column
   * with no value has a NaN median, and filling with NaN changes nothing.
   */
  function AutoFill(c: Column): Column
  {
    if !HasMissing(c.cells) then c
    else if c.kind == Numeric then
      var xs := NumValues(c.cells);
      if xs == [] then c else c.(cells := FillCells(c.cells, Num(Median(xs))))
    else
      match Mode(c.cells)
      case Some(m) => c.(cells := FillCells(c.cells, m))
      case None => Column(c.name, Object, FillCells(c.cells, Text("Unknown")))
  }

  /** The mean or median strategy for one column: only numeric columns are filled. */
  function NumericFill(c: Column, useMean: bool): Column
  {
    if c.kind != Numeric then c
    else
      var xs := NumValues(c.cells);
      if xs == [] then c else c.(cells := FillCells(c.cells, Num(if useMean then Mean(xs) else Median(xs))))
  }

  /** The mode strategy fails on a column with missing cells and no value: mode() is empty and fillna(None) raises. */
  predicate ModeFails(c: Column)
  {
    HasMissing(c.cells) && Mode(c.cells).None?
  }

  /** The mode strategy for one column that does not fail. */
  function ModeFill(c: Column): Column
  {
    if !HasMissing(c.cells) then c
    else match Mode(c.cells)
      case Some(m) => c.(cells := FillCells(c.cells, m))
      case None => c
  }

  /** The position of the first column the mode strategy fails on, or |cols| when there is none. */
  function FirstModeFailure(cols: seq<Column>): (f: nat)
    ensures f <= |cols|
    ensures forall k :: 0 <= k < f ==> !ModeFails(cols[k])
    ensures f < |cols| ==> ModeFails(cols[f])
  {
    if cols == [] then 0
    else if ModeFails(cols[0]) then 0
    else 1 + FirstModeFailure(cols[1..])
  }

  lemma ModeFailsIff(c: Column)
    ensures ModeFails(c) <==> |c.cells| > 0 && AllMissing(c.cells)
  {
    if |c.cells| > 0 && AllMissing(c.cells) {
      assert c.cells[0] == None;
    }
  }

  /** ffill from the front, carrying the last value seen (initially last). */
  function FFillFrom(cells: seq<Cell>, last: Cell): (r: seq<Cell>)
    ensures |r| == |cells|
  {
    if cells == [] then []
    else
      var cur := if cells[0].Some? then cells[0] else last;
      [cur] + FFillFrom(cells[1..], cur)
  }

  /** fillna(method='ffill') on one column. */
  function FFill(cells: seq<Cell>): (r: seq<Cell>)
    ensures |r| == |cells|
  {
    FFillFrom(cells, None)
  }

  /** The present cell that ffill copies into position r, or -1 when there is none and last is carried. */
  lemma {:induction false} FFillFromSource(cells: seq<Cell>, last: Cell, r: nat) returns (j: int)
    requires r < |cells|
    ensures -1 <= j <= r
    ensures j == -1 ==> FFillFrom(cells, last)[r] == last && forall i :: 0 <= i <= r ==> cells[i].None?
    ensures j >= 0 ==> cells[j].Some? && cells[j] == FFillFrom(cells, last)[r] && forall i :: j < i <= r ==> cells[i].None?
    decreases r
  {
    var cur := if cells[0].Some? then cells[0] else last;
    var rest := cells[1..];
    assert FFillFrom(cells, last) == [cur] + FFillFrom(rest, cur);
    if r == 0 {
      j := if cells[0].Some? then 0 else -1;
    } else {
      var j' := FFillFromSource(rest, cur, r - 1);
      assert FFillFrom(cells, last)[r] == FFillFrom(rest, cur)[r - 1];
      forall i | 0 < i <= r ensures cells[i] == rest[i - 1] { }
      if j' >= 0 {
        j := j' + 1;
      } else if cells[0].Some? {
        j := 0;
      } else {
        j := -1;
      }
    }
  }

  /**
   * ffill gives each cell the value of the nearest present cell at or before
   * it; a cell with no present cell at or before it stays missing.
   */
  lemma FFillNearest(cells: seq<Cell>, r: nat)
    requires r < |cells|
    ensures FFill(cells)[r].None? <==> forall j :: 0 <= j <= r ==> cells[j].None?
    ensures FFill(cells)[r].Some? ==>
              exists j :: 0 <= j <= r && cells[j] == FFill(cells)[r] && forall i :: j < i <= r ==> cells[i].None?
  {
    var j := FFillFromSource(cells, None, r);
  }

  // ---------------------------------------------------------------------
  // handle_missing: dropna

  /** Row r has a value in every column. */
  predicate RowComplete(cols: seq<Column>, r: nat)
  {
    forall k :: 0 <= k < |cols| ==> r < |cols[k].cells| && cols[k].cells[r].Some?
  }

  function CompleteRows(t: Table): seq<nat>
  {
    Indices(t.rows, (r: nat) => RowComplete(t.columns, r))
  }

  /** dropna(): keep the complete rows, in order. */
  function DropIncompleteRows(t: Table): Table
    requires Fitting(t.columns, t.rows)
  {
    var idx := CompleteRows(t);
    Table(|idx|, seq(|t.columns|, k requires 0 <= k < |t.columns| => t.columns[k].(cells := Select(t.columns[k].cells, idx))))
  }

  /**
   * dropna() keeps exactly the complete rows, in their order, and leaves no
   * missing cell; names and dtypes are unchanged.
   */
  lemma DropIncompleteRowsSpec(t: Table)
    requires Fitting(t.columns, t.rows)
    ensures var d := DropIncompleteRows(t);
      && d.rows == |CompleteRows(t)|
      && |d.columns| == |t.columns|
      && (forall k :: 0 <= k < |d.columns| ==>
            d.columns[k].name == t.columns[k].name && d.columns[k].kind == t.columns[k].kind
            && NoMissing(d.columns[k].cells)
            && forall j :: 0 <= j < d.rows ==> d.columns[k].cells[j] == t.columns[k].cells[CompleteRows(t)[j]])
    ensures forall r: nat :: r in CompleteRows(t) <==> r < t.rows && RowComplete(t.columns, r)
  {
    var idx := CompleteRows(t);
    var d := DropIncompleteRows(t);
    forall k, j | 0 <= k < |d.columns| && 0 <= j < d.rows ensures d.columns[k].cells[j].Some? {
      assert idx[j] in idx;
      assert RowComplete(t.columns, idx[j]);
    }
  }

  // ---------------------------------------------------------------------
  // handle_missing as a whole

  datatype Outcome = Completed | Failed(column: string)

  datatype Handled = Handled(table: Table, outcome: Outcome)

  /** The frame after the threshold step. */
  function ThresholdDrop(t: Table, threshold: real): Table
  {
    Table(t.rows, KeptColumns(t.columns, t.rows, threshold))
  }

  function AutoFilled(cols: seq<Column>): seq<Column>
  {
    seq(|cols|, k requires 0 <= k < |cols| => AutoFill(cols[k]))
  }

  function NumericFilled(cols: seq<Column>, useMean: bool): seq<Column>
  {
    seq(|cols|, k requires 0 <= k < |cols| => NumericFill(cols[k], useMean))
  }

  /** The first f columns mode-filled, the rest as they were. */
  function ModeFilled(cols: seq<Column>, f: nat): seq<Column>
  {
    seq(|cols|, k requires 0 <= k < |cols| => if k < f then ModeFill(cols[k]) else cols[k])
  }

  function FFilled(cols: seq<Column>): seq<Column>
  {
    seq(|cols|, k requires 0 <= k < |cols| => cols[k].(cells := FFill(cols[k].cells)))
  }

  lemma KeptFitting(t: Table, threshold: real)
    requires Fitting(t.columns, t.rows)
    ensures Fitting(ThresholdDrop(t, threshold).columns, t.rows)
  {
  }

  /**
   * The frame handle_missing leaves behind and whether it completed: the
   * threshold step, then the named strategy; any other strategy name fills nothing.
   */
  function HandleSpec(t: Table, strategy: string, threshold: real): Handled
    requires Fitting(t.columns, t.rows)
  {
    var d := ThresholdDrop(t, threshold);
    KeptFitting(t, threshold);
    if strategy == "auto" then Handled(d.(columns := AutoFilled(d.columns)), Completed)
    else if strategy == "drop" then Handled(DropIncompleteRows(d), Completed)
    else if strategy == "mean" || strategy == "median" then
      Handled(d.(columns := NumericFilled(d.columns, strategy == "mean")), Completed)
    else if strategy == "mode" then
      var f := FirstModeFailure(d.columns);
      Handled(d.(columns := ModeFilled(d.columns, f)), if f < |d.columns| then Failed(d.columns[f].name) else Completed)
    else if strategy == "forward_fill" then Handled(d.(columns := FFilled(d.columns)), Completed)
    else Handled(d, Completed)
  }

  // ---------------------------------------------------------------------
  // Properties of handle_missing

  /** Present cells are kept, and the column keeps its name and length. */
  predicate Refines(before: Column, after: Column)
  {
    after.name == before.name && |after.cells| == |before.cells|
    && forall r :: 0 <= r < |before.cells| && before.cells[r].Some? ==> after.cells[r] == before.cells[r]
  }

  /**
   * auto: numeric columns get their median, other columns their first mode,
   * or 'Unknown' when they hold no value; afterwards no cell is missing except
   * in a numeric column without any value.
   */
  lemma AutoFillSpec(c: Column)
    ensures Refines(c, AutoFill(c))
    ensures NoMissing(AutoFill(c).cells) <==> !(c.kind == Numeric && NumValues(c.cells) == [] && HasMissing(c.cells))
    ensures HasMissing(c.cells) && c.kind == Numeric && NumValues(c.cells) != [] ==>
              forall r :: 0 <= r < |c.cells| && c.cells[r].None? ==> AutoFill(c).cells[r] == Some(Num(Median(NumValues(c.cells))))
    ensures HasMissing(c.cells) && c.kind != Numeric && !AllMissing(c.cells) ==>
              AutoFill(c).kind == c.kind
              && forall r :: 0 <= r < |c.cells| && c.cells[r].None? ==>
                   AutoFill(c).cells[r].Some? && IsFirstMode(c.cells, AutoFill(c).cells[r].value)
    ensures HasMissing(c.cells) && c.kind != Numeric && AllMissing(c.cells) ==>
              AutoFill(c).kind == Object && forall r :: 0 <= r < |c.cells| ==> AutoFill(c).cells[r] == Some(Text("Unknown"))
  {
    if !HasMissing(c.cells) {
      assert NoMissing(c.cells) by {
        forall r | 0 <= r < |c.cells| ensures c.cells[r].Some? { assert c.cells[r] in c.cells; }
      }
    } else if c.kind == Numeric {
      var xs := NumValues(c.cells);
      if xs == [] {
        var r :| 0 <= r < |c.cells| && c.cells[r] == None;
      } else {
        FillCellsSpec(c.cells, Num(Median(xs)));
      }
    } else {
      var m := Mode(c.cells);
      if m.Some? {
        FillCellsSpec(c.cells, m.value);
      } else {
        FillCellsSpec(c.cells, Text("Unknown"));
      }
    }
  }

  /** mean / median: columns that are not numeric are left exactly as they were; numeric columns with a value lose every missing cell. */
  lemma NumericFillSpec(c: Column, useMean: bool)
    ensures Refines(c, NumericFill(c, useMean)) && NumericFill(c, useMean).kind == c.kind
    ensures c.kind != Numeric ==> NumericFill(c, useMean) == c
    ensures c.kind == Numeric && NumValues(c.cells) != [] ==>
              NoMissing(NumericFill(c, useMean).cells)
              && forall r :: 0 <= r < |c.cells| && c.cells[r].None? ==>
                   NumericFill(c, useMean).cells[r]
                   == Some(Num(if useMean then Mean(NumValues(c.cells)) else Median(NumValues(c.cells))))
  {
  }

  lemma ModeFillSpec(c: Column)
    requires !ModeFails(c)
    ensures Refines(c, ModeFill(c)) && ModeFill(c).kind == c.kind
    ensures NoMissing(ModeFill(c).cells)
    ensures forall r :: 0 <= r < |c.cells| && c.cells[r].None? ==>
              ModeFill(c).cells[r].Some? && IsFirstMode(c.cells, ModeFill(c).cells[r].value)
  {
    if !HasMissing(c.cells) {
      forall r | 0 <= r < |c.cells| ensures c.cells[r].Some? { assert c.cells[r] in c.cells; }
    }
  }

  // Well-formedness is kept by every step.

  lemma {:induction false} FFillTyped(c: Column)
    requires Typed(c)
    ensures Typed(c.(cells := FFill(c.cells)))
  {
    forall r | 0 <= r < |c.cells| && FFill(c.cells)[r].Some? ensures Fits(c.kind, FFill(c.cells)[r].value) {
      var j := FFillFromSource(c.cells, None, r);
    }
  }

  lemma AutoFillTyped(c: Column)
    requires Typed(c)
    ensures Typed(AutoFill(c))
  {
    if HasMissing(c.cells) && c.kind != Numeric && Mode(c.cells).Some? {
      FirstModeOccurs(c, Mode(c.cells).value);
    }
  }

  lemma ModeFillTyped(c: Column)
    requires Typed(c)
    ensures Typed(ModeFill(c))
  {
    if HasMissing(c.cells) && Mode(c.cells).Some? {
      FirstModeOccurs(c, Mode(c.cells).value);
    }
  }

  lemma DropIncompleteRowsWellFormed(t: Table)
    requires WellFormed(t)
    ensures WellFormed(DropIncompleteRows(t))
  {
    var d := DropIncompleteRows(t);
    var idx := CompleteRows(t);
    forall k | 0 <= k < |d.columns| ensures Typed(d.columns[k]) {
      forall j | 0 <= j < |idx| && d.columns[k].cells[j].Some? ensures Fits(d.columns[k].kind, d.columns[k].cells[j].value) {
        assert d.columns[k].cells[j] == t.columns[k].cells[idx[j]];
      }
    }
    assert Names(d.columns) == Names(t.columns);
  }

  /** Every strategy leaves a well-formed frame: equal-length, typed columns with distinct names. */
  lemma HandleSpecWellFormed(t: Table, strategy: string, threshold: real)
    requires WellFormed(t)
    ensures WellFormed(HandleSpec(t, strategy, threshold).table)
  {
    var d := ThresholdDrop(t, threshold);
    KeptColumnsWellFormed(t, threshold);
    assert WellFormed(d);
    if strategy == "drop" {
      DropIncompleteRowsWellFormed(d);
    } else if strategy == "auto" {
      AutoFilledWellFormed(d);
    } else if strategy == "mean" || strategy == "median" {
      NumericFilledWellFormed(d, strategy == "mean");
    } else if strategy == "mode" {
      ModeFilledWellFormed(d, FirstModeFailure(d.columns));
    } else if strategy == "forward_fill" {
      FFilledWellFormed(d);
    }
  }

  lemma AutoFilledWellFormed(d: Table)
    requires WellFormed(d)
    ensures WellFormed(d.(columns := AutoFilled(d.columns)))
  {
    forall k | 0 <= k < |d.columns| ensures Typed(AutoFilled(d.columns)[k]) {
      AutoFillTyped(d.columns[k]);
    }
    ReplacedWellFormed(d, AutoFilled(d.columns));
  }

  lemma NumericFilledWellFormed(d: Table, useMean: bool)
    requires WellFormed(d)
    ensures WellFormed(d.(columns := NumericFilled(d.columns, useMean)))
  {
    ReplacedWellFormed(d, NumericFilled(d.columns, useMean));
  }

  lemma ModeFilledWellFormed(d: Table, f: nat)
    requires WellFormed(d)
    ensures WellFormed(d.(columns := ModeFilled(d.columns, f)))
  {
    forall k | 0 <= k < |d.columns| ensures Typed(ModeFilled(d.columns, f)[k]) {
      ModeFillTyped(d.columns[k]);
    }
    ReplacedWellFormed(d, ModeFilled(d.columns, f));
  }

  lemma FFilledWellFormed(d: Table)
    requires WellFormed(d)
    ensures WellFormed(d.(columns := FFilled(d.columns)))
  {
    forall k | 0 <= k < |d.columns| ensures Typed(FFilled(d.columns)[k]) {
      FFillTyped(d.columns[k]);
    }
    ReplacedWellFormed(d, FFilled(d.columns));
  }

  /** Replacing each column by a typed column of the same name and length keeps a frame well formed. */
  lemma ReplacedWellFormed(d: Table, cols: seq<Column>)
    requires WellFormed(d) && |cols| == |d.columns|
    requires forall k :: 0 <= k < |cols| ==> cols[k].name == d.columns[k].name && |cols[k].cells| == |d.columns[k].cells|
    requires forall k :: 0 <= k < |cols| ==> Typed(cols[k])
    ensures WellFormed(d.(columns := cols))
  {
  }

  /** The strategy keeps the columns that survived the threshold step, by name and in order. */
  lemma HandleKeepsKeptColumns(t: Table, strategy: string, threshold: real)
    requires Fitting(t.columns, t.rows)
    ensures Names(HandleSpec(t, strategy, threshold).table.columns) == Names(KeptColumns(t.columns, t.rows, threshold))
  {
  }

  /** drop: no missing cell is left, and exactly the complete rows of the surviving columns remain, in order. */
  lemma HandleDropSpec(t: Table, threshold: real)
    requires Fitting(t.columns, t.rows)
    ensures var h := HandleSpec(t, "drop", threshold);
            var d := ThresholdDrop(t, threshold);
      && h.outcome == Completed
      && h.table.rows == |CompleteRows(d)|
      && (forall k :: 0 <= k < |h.table.columns| ==> NoMissing(h.table.columns[k].cells))
      && (forall r: nat :: r in CompleteRows(d) <==> r < t.rows && RowComplete(d.columns, r))
  {
    KeptFitting(t, threshold);
    DropIncompleteRowsSpec(ThresholdDrop(t, threshold));
  }

  /** mode: a run fails exactly when some surviving column is non-empty and wholly missing, and then names the first such column. */
  lemma HandleModeSpec(t: Table, threshold: real)
    requires Fitting(t.columns, t.rows)
    ensures var h := HandleSpec(t, "mode", threshold);
            var kept := ThresholdDrop(t, threshold).columns;
      && (h.outcome.Failed? <==> exists k :: 0 <= k < |kept| && |kept[k].cells| > 0 && AllMissing(kept[k].cells))
      && (h.outcome.Completed? ==> forall k :: 0 <= k < |kept| ==> NoMissing(h.table.columns[k].cells))
  {
    var kept := ThresholdDrop(t, threshold).columns;
    var f := FirstModeFailure(kept);
    var h := HandleSpec(t, "mode", threshold);
    if f < |kept| {
      ModeFailsIff(kept[f]);
    } else {
      forall k | 0 <= k < |kept| ensures !(|kept[k].cells| > 0 && AllMissing(kept[k].cells)) && NoMissing(h.table.columns[k].cells) {
        ModeFailsIff(kept[k]);
        ModeFillSpec(kept[k]);
      }
    }
  }

  /** A strategy name outside the six fills nothing: only the threshold step happens, and the run completes. */
  lemma HandleUnknownSpec(t: Table, strategy: string, threshold: real)
    requires Fitting(t.columns, t.rows)
    requires strategy !in ["auto", "drop", "mean", "median", "mode", "forward_fill"]
    ensures HandleSpec(t, strategy, threshold) == Handled(ThresholdDrop(t, threshold), Completed)
  {
  }

  // ---------------------------------------------------------------------
  // detect_outliers

  datatype OutlierInfo = OutlierInfo(name: string, count: nat, percentage: real)

  /** Tukey's fences: Q1 - 1.5 IQR and Q3 + 1.5 IQR. */
  function LowerFence(xs: seq<real>): real
    requires xs != []
  {
    Quantile(xs, 0.25) - 1.5 * (Quantile(xs, 0.75) - Quantile(xs, 0.25))
  }

  function UpperFence(xs: seq<real>): real
    requires xs != []
  {
    Quantile(xs, 0.75) + 1.5 * (Quantile(xs, 0.75) - Quantile(xs, 0.25))
  }

  /**
   * Whether the value x of a column whose values are xs is flagged by the
   * outlier method rule: under
   * "iqr", strictly outside the fences (a column without values has NaN
   * fences and flags nothing); under "zscore", |x - mean| / std > 3, which
   * for the sample standard deviation reads (x - mean)^2 > 9 var (with fewer
   * than two values std is NaN; a zero std makes every z-score NaN).
   */
  predicate IsOutlier(rule: string, xs: seq<real>, x: real)
  {
    if rule == "iqr" then xs != [] && (x < LowerFence(xs) || x > UpperFence(xs))
    else rule == "zscore" && |xs| >= 2 && (x - Mean(xs)) * (x - Mean(xs)) > 9.0 * SampleVariance(xs)
  }

  /** The number of cells holding a flagged number (the sum of the outlier mask). */
  function FlagCount(cells: seq<Cell>, rule: string, xs: seq<real>): nat
  {
    if cells == [] then 0
    else
      var last := cells[|cells| - 1];
      FlagCount(cells[..|cells| - 1], rule, xs)
      + (if last.Some? && last.value.Num? && IsOutlier(rule, xs, last.value.x) then 1 else 0)
  }

  function OutlierCount(c: Column, rule: string): nat
  {
    FlagCount(c.cells, rule, NumValues(c.cells))
  }

  /** The recorded entry for a numeric column with flagged cells. */
  function OutlierEntry(c: Column, rows: nat, rule: string): seq<OutlierInfo>
    requires |c.cells| == rows
  {
    var n := OutlierCount(c, rule);
    FlagCountBound(c.cells, rule, NumValues(c.cells));
    if c.kind == Numeric && n > 0 then [OutlierInfo(c.name, n, Percent(n, rows))] else []
  }

  function OutlierEntries(cols: seq<Column>, rows: nat, rule: string): seq<OutlierInfo>
    requires Fitting(cols, rows)
  {
    if cols == [] then []
    else OutlierEntries(cols[..|cols| - 1], rows, rule) + OutlierEntry(cols[|cols| - 1], rows, rule)
  }

  /** One more column adds its own entry. */
  lemma OutlierEntriesStep(cols: seq<Column>, rows: nat, rule: string, i: nat)
    requires Fitting(cols, rows) && i < |cols|
    ensures Fitting(cols[..i], rows) && Fitting(cols[..i + 1], rows)
    ensures OutlierEntries(cols[..i + 1], rows, rule) == OutlierEntries(cols[..i], rows, rule) + OutlierEntry(cols[i], rows, rule)
  {
    assert cols[..i + 1][..i] == cols[..i];
  }

  predicate HasNumericColumn(cols: seq<Column>)
  {
    exists k :: 0 <= k < |cols| && cols[k].kind == Numeric
  }

  /**
   * What detect_outliers returns: None when the method is neither "iqr" nor
   * "zscore" and there is a numeric column (the mask is never assigned and
   * the call raises); otherwise the entries, in column order.
   */
  function OutliersOf(t: Table, rule: string): Option<seq<OutlierInfo>>
    requires Fitting(t.columns, t.rows)
  {
    if rule != "iqr" && rule != "zscore" && HasNumericColumn(t.columns) then None
    else Some(OutlierEntries(t.columns, t.rows, rule))
  }

  lemma {:induction false} FlagCountBound(cells: seq<Cell>, rule: string, xs: seq<real>)
    ensures FlagCount(cells, rule, xs) <= |cells|
  {
    if cells != [] {
      FlagCountBound(cells[..|cells| - 1], rule, xs);
    }
  }

  lemma OutlierEntrySpec(c: Column, rows: nat, rule: string)
    requires |c.cells| == rows
    ensures forall e :: e in OutlierEntry(c, rows, rule) ==>
              e.name == c.name && c.kind == Numeric && e.count == OutlierCount(c, rule)
              && 0 < e.count <= rows && 0.0 <= e.percentage <= 100.0
  {
    FlagCountBound(c.cells, rule, NumValues(c.cells));
    if OutlierCount(c, rule) > 0 {
      PercentBound(OutlierCount(c, rule), rows);
    }
  }

  /** Every entry is a numeric column with at least one and at most all rows flagged. */
  lemma {:induction false} OutlierEntriesSound(cols: seq<Column>, rows: nat, rule: string)
    requires Fitting(cols, rows)
    ensures forall e :: e in OutlierEntries(cols, rows, rule) ==>
              0 < e.count <= rows && 0.0 <= e.percentage <= 100.0
              && (exists k :: 0 <= k < |cols| && cols[k].name == e.name && cols[k].kind == Numeric
                               && e.count == OutlierCount(cols[k], rule))
  {
    if cols != [] {
      var init, c := cols[..|cols| - 1], cols[|cols| - 1];
      OutlierEntriesSound(init, rows, rule);
      OutlierEntrySpec(c, rows, rule);
      forall e | e in OutlierEntries(init, rows, rule)
        ensures exists k :: 0 <= k < |cols| && cols[k].name == e.name && cols[k].kind == Numeric
                            && e.count == OutlierCount(cols[k], rule)
      {
        var k :| 0 <= k < |init| && init[k].name == e.name && init[k].kind == Numeric && e.count == OutlierCount(init[k], rule);
        assert cols[k] == init[k];
      }
    }
  }

  /** Every numeric column with a flagged cell has its entry. */
  lemma OutlierEntriesComplete(cols: seq<Column>, rows: nat, rule: string)
    requires Fitting(cols, rows)
    ensures forall k :: 0 <= k < |cols| && cols[k].kind == Numeric && OutlierCount(cols[k], rule) > 0 ==>
              OutlierEntry(cols[k], rows, rule)[0] in OutlierEntries(cols, rows, rule)
  {
    forall k | 0 <= k < |cols| && cols[k].kind == Numeric && OutlierCount(cols[k], rule) > 0
      ensures OutlierEntry(cols[k], rows, rule)[0] in OutlierEntries(cols, rows, rule)
    {
      OutlierEntryListed(cols, rows, rule, k);
    }
  }

  lemma {:induction false} OutlierEntryListed(cols: seq<Column>, rows: nat, rule: string, k: nat)
    requires Fitting(cols, rows) && k < |cols| && cols[k].kind == Numeric && OutlierCount(cols[k], rule) > 0
    ensures OutlierEntry(cols[k], rows, rule)[0] in OutlierEntries(cols, rows, rule)
  {
    var init, last := cols[..|cols| - 1], cols[|cols| - 1];
    var x := OutlierEntry(cols[k], rows, rule)[0];
    var before, entry := OutlierEntries(init, rows, rule), OutlierEntry(last, rows, rule);
    assert OutlierEntries(cols, rows, rule) == before + entry;
    if k < |init| {
      assert init[k] == cols[k];
      OutlierEntryListed(init, rows, rule, k);
      assert x in before;
    } else {
      assert cols[k] == last;
      assert x == entry[0];
    }
  }

  /** Values between Q1 and Q3 are never flagged by the IQR rule: both fences lie outside [Q1, Q3]. */
  lemma InterquartileNotFlagged(xs: seq<real>, x: real)
    requires xs != []
    requires Quantile(xs, 0.25) <= x <= Quantile(xs, 0.75)
    ensures !IsOutlier("iqr", xs, x)
  {
    QuantileMonotone(xs, 0.25, 0.75);
  }

  lemma {:induction false} NumValuesMembers(cells: seq<Cell>, r: nat)
    requires r < |cells| && cells[r].Some? && cells[r].value.Num?
    ensures cells[r].value.x in NumValues(cells)
  {
    if r > 0 {
      NumValuesMembers(cells[1..], r - 1);
    }
  }

  lemma {:induction false} FlagCountZero(cells: seq<Cell>, rule: string, xs: seq<real>)
    requires forall r :: 0 <= r < |cells| && cells[r].Some? && cells[r].value.Num? ==> !IsOutlier(rule, xs, cells[r].value.x)
    ensures FlagCount(cells, rule, xs) == 0
  {
    if cells != [] {
      FlagCountZero(cells[..|cells| - 1], rule, xs);
    }
  }

  lemma ConstantQuantile(xs: seq<real>, c: real, q: real)
    requires xs != [] && Constant(xs, c) && 0.0 <= q <= 1.0
    ensures Quantile(xs, q) == c
  {
    var s := SortAsc(xs);
    QuantileBounds(xs, q);
    assert s[0] in multiset(xs) && s[|s| - 1] in multiset(xs);
  }

  /** A column whose values are all equal has no outliers under either rule. */
  lemma ConstantColumnNoOutliers(col: Column, rule: string, c: real)
    requires Constant(NumValues(col.cells), c)
    ensures OutlierCount(col, rule) == 0
  {
    var xs := NumValues(col.cells);
    forall r | 0 <= r < |col.cells| && col.cells[r].Some? && col.cells[r].value.Num?
      ensures !IsOutlier(rule, xs, col.cells[r].value.x)
    {
      NumValuesMembers(col.cells, r);
      var x := col.cells[r].value.x;
      assert x == c;
      if rule == "iqr" {
        ConstantQuantile(xs, c, 0.25);
        ConstantQuantile(xs, c, 0.75);
      } else if rule == "zscore" && |xs| >= 2 {
        ConstantVariance(xs, c);
      }
    }
    FlagCountZero(col.cells, rule, xs);
  }
}
