/**
 * The data model of a pandas DataFrame as the cleaner and the analyzer see it:
 * an ordered sequence of named columns of equal length, each with a dtype kind,
 * whose cells are values or missing (NaN / None / NaT).
 */
module Tables {
  import opened Wrappers
  import opened Strings

  datatype Value = Num(x: real) | Time(t: int) | Text(s: string)

  /** datetime64, a numeric dtype, or anything else (object, category). */
  datatype Kind = Numeric | Datetime | Object

  type Cell = Option<Value>

  datatype Column = Column(name: string, kind: Kind, cells: seq<Cell>)

  /** A frame keeps its row count even when it has no columns left. */
  datatype Table = Table(rows: nat, columns: seq<Column>)

  predicate Fits(k: Kind, v: Value)
  {
    match k
    case Numeric => v.Num?
    case Datetime => v.Time?
    case Object => true
  }

  /** Every present cell has the column's dtype. */
  predicate Typed(c: Column)
  {
    forall r :: 0 <= r < |c.cells| && c.cells[r].Some? ==> Fits(c.kind, c.cells[r].value)
  }

  predicate DistinctNames(cols: seq<Column>)
  {
    forall i, j :: 0 <= i < j < |cols| ==> cols[i].name != cols[j].name
  }

  predicate ColumnFits(c: Column, rows: nat)
  {
    |c.cells| == rows && Typed(c)
  }

  predicate WellFormed(t: Table)
  {
    (forall k :: 0 <= k < |t.columns| ==> ColumnFits(t.columns[k], t.rows))
    && DistinctNames(t.columns)
  }

  function Names(cols: seq<Column>): seq<string>
  {
    seq(|cols|, k requires 0 <= k < |cols| => cols[k].name)
  }

  /** pandas isna().sum() of one column. */
  function MissingCount(cells: seq<Cell>): nat
  {
    multiset(cells)[None]
  }

  /** pandas isna().any() of one column. */
  predicate HasMissing(cells: seq<Cell>)
  {
    None in cells
  }

  lemma HasMissingCount(cells: seq<Cell>)
    ensures HasMissing(cells) <==> MissingCount(cells) > 0
  {
  }

  predicate AllMissing(cells: seq<Cell>)
  {
    forall r :: 0 <= r < |cells| ==> cells[r].None?
  }

  predicate NoMissing(cells: seq<Cell>)
  {
    forall r :: 0 <= r < |cells| ==> cells[r].Some?
  }

  /** The number of cells holding v. */
  function Count(cells: seq<Cell>, v: Value): nat
  {
    multiset(cells)[Some(v)]
  }

  /** The present values of a column, in row order (pandas dropna()). */
  function Present(cells: seq<Cell>): seq<Value>
  {
    if cells == [] then []
    else (if cells[0].Some? then [cells[0].value] else []) + Present(cells[1..])
  }

  lemma {:induction false} PresentMembers(cells: seq<Cell>, v: Value)
    ensures v in Present(cells) <==> Some(v) in cells
  {
    if cells != [] {
      PresentMembers(cells[1..], v);
      assert cells == [cells[0]] + cells[1..];
    }
  }

  lemma {:induction false} PresentEmpty(cells: seq<Cell>)
    ensures Present(cells) == [] <==> AllMissing(cells)
  {
    if cells != [] {
      PresentEmpty(cells[1..]);
      if AllMissing(cells) {
        assert AllMissing(cells[1..]) by {
          forall r | 0 <= r < |cells| - 1 ensures cells[1..][r].None? { assert cells[1..][r] == cells[r + 1]; }
        }
      } else if cells[0].None? {
        var r :| 0 <= r < |cells| && cells[r].Some?;
        assert cells[1..][r - 1] == cells[r];
      }
    }
  }

  /** Every present value has the column's dtype. */
  lemma {:induction false} PresentFits(c: Column, v: Value)
    requires Typed(c)
    requires v in Present(c.cells)
    ensures Fits(c.kind, v)
  {
    PresentMembers(c.cells, v);
    var r :| 0 <= r < |c.cells| && c.cells[r] == Some(v);
  }

  /** The present numeric values of a column, in row order. */
  function NumValues(cells: seq<Cell>): seq<real>
  {
    if cells == [] then []
    else (if cells[0].Some? && cells[0].value.Num? then [cells[0].value.x] else []) + NumValues(cells[1..])
  }

  lemma {:induction false} NumValuesEmpty(cells: seq<Cell>)
    requires NumValues(cells) == []
    ensures forall r :: 0 <= r < |cells| && cells[r].Some? ==> !cells[r].value.Num?
  {
    if cells != [] {
      NumValuesEmpty(cells[1..]);
      forall r | 1 <= r < |cells| ensures cells[r] == cells[1..][r - 1] { }
    }
  }

  predicate NoDuplicates(s: seq<Value>)
  {
    forall i, j :: 0 <= i < j < |s| ==> s[i] != s[j]
  }

  /** The distinct values of vs, in order of first occurrence. */
  function Distinct(vs: seq<Value>): (r: seq<Value>)
    ensures forall v :: v in r <==> v in vs
    ensures NoDuplicates(r)
    ensures |r| <= |vs|
    decreases |vs|
  {
    if vs == [] then []
    else
      var d := Distinct(vs[..|vs| - 1]);
      assert vs == vs[..|vs| - 1] + [vs[|vs| - 1]];
      if vs[|vs| - 1] in d then d else d + [vs[|vs| - 1]]
  }

  /** pandas nunique(): the number of distinct present values. */
  function DistinctCount(cells: seq<Cell>): nat
  {
    |Distinct(Present(cells))|
  }

  // ---------------------------------------------------------------------
  // The order pandas sorts values by (within one dtype); across dtypes the
  // model ranks numbers before times before text.

  function KindRank(v: Value): nat
  {
    match v
    case Num(_) => 0
    case Time(_) => 1
    case Text(_) => 2
  }

  predicate ValueLess(a: Value, b: Value)
  {
    if KindRank(a) != KindRank(b) then KindRank(a) < KindRank(b)
    else match a
      case Num(x) => x < b.x
      case Time(t) => t < b.t
      case Text(s) => StrLess(s, b.s)
  }

  lemma ValueLessIrreflexive(a: Value)
    ensures !ValueLess(a, a)
  {
    if a.Text? { StrLessIrreflexive(a.s); }
  }

  lemma ValueLessTransitive(a: Value, b: Value, c: Value)
    requires ValueLess(a, b) && ValueLess(b, c)
    ensures ValueLess(a, c)
  {
    if a.Text? && b.Text? && c.Text? { StrLessTransitive(a.s, b.s, c.s); }
  }

  lemma ValueLessTotal(a: Value, b: Value)
    ensures a == b || ValueLess(a, b) || ValueLess(b, a)
  {
    if a.Text? && b.Text? && a != b { StrLessTotal(a.s, b.s); }
  }

  // ---------------------------------------------------------------------
  // pandas Series.mode()[0]: among the most frequent present values, the least.

  /** v is at least as frequent as w, and comes first among equally frequent values. */
  predicate Dominates(cells: seq<Cell>, v: Value, w: Value)
  {
    Count(cells, w) < Count(cells, v)
    || (Count(cells, w) == Count(cells, v) && (v == w || ValueLess(v, w)))
  }

  /** v is the first entry of mode(): a most frequent value, the least of those. */
  predicate IsFirstMode(cells: seq<Cell>, v: Value)
  {
    v in Present(cells) && forall w :: w in Present(cells) ==> Dominates(cells, v, w)
  }

  lemma DominatesTransitive(cells: seq<Cell>, u: Value, v: Value, w: Value)
    requires Dominates(cells, u, v) && Dominates(cells, v, w)
    ensures Dominates(cells, u, w)
  {
    if Count(cells, w) == Count(cells, u) && u != w && v != u && v != w {
      ValueLessTransitive(u, v, w);
    }
  }

  function Better(cells: seq<Cell>, v: Value, w: Value): (r: Value)
    ensures Dominates(cells, r, v) && Dominates(cells, r, w)
    ensures r == v || r == w
  {
    if Count(cells, v) > Count(cells, w) || (Count(cells, v) == Count(cells, w) && ValueLess(v, w)) then v
    else
      ValueLessTotal(v, w);
      w
  }

  /** The best of best and vs, scanning vs left to right. */
  function BestOf(cells: seq<Cell>, vs: seq<Value>, best: Value): (r: Value)
    ensures r == best || r in vs
    ensures Dominates(cells, r, best)
    ensures forall w :: w in vs ==> Dominates(cells, r, w)
    decreases |vs|
  {
    if vs == [] then best
    else
      var b := Better(cells, vs[0], best);
      var r := BestOf(cells, vs[1..], b);
      DominatesTransitive(cells, r, b, best);
      DominatesTransitive(cells, r, b, vs[0]);
      assert forall w :: w in vs ==> w == vs[0] || w in vs[1..];
      r
  }

  /** pandas mode()[0], or None when mode() is empty (no present value). */
  function Mode(cells: seq<Cell>): (m: Option<Value>)
    ensures m.None? <==> AllMissing(cells)
    ensures m.Some? ==> IsFirstMode(cells, m.value)
  {
    PresentEmpty(cells);
    var p := Present(cells);
    if p == [] then None
    else
      var r := BestOf(cells, p[1..], p[0]);
      assert forall w :: w in p ==> w == p[0] || w in p[1..];
      Some(r)
  }

  /** There is only one first mode. */
  lemma {:induction false} FirstModeUnique(cells: seq<Cell>, v: Value, w: Value)
    requires IsFirstMode(cells, v) && IsFirstMode(cells, w)
    ensures v == w
  {
    assert Dominates(cells, v, w) && Dominates(cells, w, v);
    if v != w {
      assert ValueLess(v, w) && ValueLess(w, v);
      ValueLessTransitive(v, w, v);
      ValueLessIrreflexive(v);
    }
  }

  /** The first mode occurs in the column. */
  lemma FirstModeOccurs(c: Column, v: Value)
    requires Typed(c)
    requires IsFirstMode(c.cells, v)
    ensures Some(v) in c.cells && Fits(c.kind, v)
  {
    PresentMembers(c.cells, v);
    PresentFits(c, v);
  }
}
