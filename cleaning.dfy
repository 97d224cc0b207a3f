/**
 * The two cleaning actions (app.py lines 50-60): `drop_duplicates` and
 * `fillna` with the column means on the numeric columns.
 */
module Cleaning {
  import opened Wrappers
  import opened Tables

  // ---------------------------------------------------------------- duplicates

  /**
   * `drop_duplicates()` with its default `keep="first"`: a value is kept
   * where it occurs for the first time and dropped where it repeats.
   */
  function DropDuplicates<T(==)>(s: seq<T>): (r: seq<T>)
    ensures |r| <= |s|
  {
    if s == [] then []
    else
      var n := |s| - 1;
      if s[n] in s[..n] then DropDuplicates(s[..n]) else DropDuplicates(s[..n]) + [s[n]]
  }

  /** Every value of the input survives, and nothing else appears. */
  lemma {:induction false} DropDuplicatesSameValues<T>(s: seq<T>)
    ensures forall k :: 0 <= k < |DropDuplicates(s)| ==> DropDuplicates(s)[k] in s
    ensures forall i :: 0 <= i < |s| ==> s[i] in DropDuplicates(s)
  {
    if s != [] {
      var n := |s| - 1;
      DropDuplicatesSameValues(s[..n]);
      assert s == s[..n] + [s[n]];
      forall i | 0 <= i < n
        ensures s[i] in DropDuplicates(s)
      {
        assert s[..n][i] == s[i];
      }
    }
  }

  /** No value occurs twice in the result. */
  lemma {:induction false} DropDuplicatesDistinct<T>(s: seq<T>)
    ensures Distinct(DropDuplicates(s))
  {
    if s != [] {
      var n := |s| - 1;
      DropDuplicatesDistinct(s[..n]);
      DropDuplicatesSameValues(s[..n]);
    }
  }

  /** One more element: the step the in-place compaction takes. */
  lemma DropDuplicatesSnoc<T>(s: seq<T>, i: nat)
    requires i < |s|
    ensures s[i] in DropDuplicates(s[..i]) <==> s[i] in s[..i]
    ensures DropDuplicates(s[..i + 1]) ==
            if s[i] in s[..i] then DropDuplicates(s[..i]) else DropDuplicates(s[..i]) + [s[i]]
  {
    assert s[..i + 1][..i] == s[..i];
    DropDuplicatesSameValues(s[..i]);
    var d := DropDuplicates(s[..i]);
    if s[i] in d {
      var k :| 0 <= k < |d| && d[k] == s[i];
      assert d[k] in s[..i];
    }
    if s[i] in s[..i] {
      var k :| 0 <= k < i && s[..i][k] == s[i];
      assert s[..i][k] in d;
    }
  }

  /** Position `i` holds the first occurrence of its value. */
  predicate IsFirst<T(==)>(s: seq<T>, i: int) {
    0 <= i < |s| && forall m :: 0 <= m < i ==> s[m] != s[i]
  }

  /** The positions at which a value occurs for the first time, in order. */
  function FirstOccurrences<T(==)>(s: seq<T>): (r: seq<nat>)
    ensures forall k :: 0 <= k < |r| ==> IsFirst(s, r[k])
    ensures forall i :: IsFirst(s, i) ==> i in r
    ensures forall k1, k2 :: 0 <= k1 < k2 < |r| ==> r[k1] < r[k2]
  {
    if s == [] then []
    else
      var n := |s| - 1;
      var rest := FirstOccurrences(s[..n]);
      assert forall i :: 0 <= i < n ==> (IsFirst(s[..n], i) <==> IsFirst(s, i));
      assert IsFirst(s, n) <==> s[n] !in s[..n];
      rest + (if s[n] in s[..n] then [] else [n])
  }

  /**
   * Dropping duplicates keeps exactly the first occurrences, in their
   * original order.
   */
  lemma {:induction false} DropDuplicatesKeepsFirstOccurrences<T>(s: seq<T>)
    ensures |DropDuplicates(s)| == |FirstOccurrences(s)|
    ensures forall k :: 0 <= k < |FirstOccurrences(s)| ==> DropDuplicates(s)[k] == s[FirstOccurrences(s)[k]]
  {
    if s != [] {
      var n := |s| - 1;
      DropDuplicatesKeepsFirstOccurrences(s[..n]);
      var fo := FirstOccurrences(s[..n]);
      forall k | 0 <= k < |fo|
        ensures s[..n][fo[k]] == s[fo[k]]
      {
      }
    }
  }

  /** A sequence without repeats is left as it is. */
  lemma {:induction false} DropDuplicatesOfDistinct<T>(s: seq<T>)
    requires Distinct(s)
    ensures DropDuplicates(s) == s
  {
    if s != [] {
      var n := |s| - 1;
      assert Distinct(s[..n]);
      DropDuplicatesOfDistinct(s[..n]);
      assert s[n] !in s[..n];
      assert s == s[..n] + [s[n]];
    }
  }

  /** Removing duplicates twice is the same as removing them once. */
  lemma DropDuplicatesIdempotent<T>(s: seq<T>)
    ensures DropDuplicates(DropDuplicates(s)) == DropDuplicates(s)
  {
    DropDuplicatesDistinct(s);
    DropDuplicatesOfDistinct(DropDuplicates(s));
  }

  /** `df.drop_duplicates(inplace=True)`: rows compared across all columns. */
  function DropDuplicateRows(t: Table): (r: Table)
    requires WellFormed(t)
    ensures WellFormed(r)
    ensures r.columns == t.columns && r.numeric == t.numeric
    ensures forall k :: 0 <= k < |r.rows| ==> r.rows[k] in t.rows
    ensures forall i :: 0 <= i < |t.rows| ==> t.rows[i] in r.rows
    ensures Distinct(r.rows)
  {
    var r := t.(rows := DropDuplicates(t.rows));
    DropDuplicatesSameValues(t.rows);
    DropDuplicatesDistinct(t.rows);
    assert forall i :: 0 <= i < |r.rows| ==> r.rows[i] in t.rows;
    r
  }

  // ------------------------------------------------------------- missing values

  /**
   * `df[numeric_cols].mean()`: for each numeric column, the abstract `mean`
   * of that column's current cells (None where pandas yields NaN, that is
   * when the column holds no number); None for the other columns.
   */
  function ColumnMeans(t: Table, mean: seq<Cell> -> Option<real>): (m: seq<Option<real>>)
    requires WellFormed(t)
    ensures |m| == |t.columns|
    ensures forall j :: 0 <= j < |t.columns| && !t.numeric[j] ==> m[j] == None
  {
    seq(|t.columns|, j requires 0 <= j < |t.columns| =>
          if t.numeric[j] then mean(Column(t.rows, j)) else None)
  }

  /** One row after `fillna`: nulls of numeric columns take their column's mean. */
  function FillRow(row: Row, numeric: seq<bool>, means: seq<Option<real>>): (r: Row)
    requires |row| == |numeric| == |means|
    ensures |r| == |row|
    ensures forall j :: 0 <= j < |row| && r[j] != row[j] ==> numeric[j] && row[j].Null? && means[j].Some?
    ensures forall j :: 0 <= j < |row| && numeric[j] && row[j].Null? && means[j].Some? ==> r[j] == Num(means[j].value)
  {
    seq(|row|, j requires 0 <= j < |row| =>
          if numeric[j] && row[j].Null? && means[j].Some? then Num(means[j].value) else row[j])
  }

  /**
   * `df[numeric_cols] = df[numeric_cols].fillna(df[numeric_cols].mean())`.
   * Only null cells of numeric columns change; labels, dtypes, row count,
   * non-null cells and non-numeric columns stay as they were.
   */
  function FillMissing(t: Table, mean: seq<Cell> -> Option<real>): (r: Table)
    requires WellFormed(t)
    ensures WellFormed(r)
    ensures r.columns == t.columns && r.numeric == t.numeric && |r.rows| == |t.rows|
    ensures forall i, j :: 0 <= i < |t.rows| && 0 <= j < |t.columns| && (!t.numeric[j] || !t.rows[i][j].Null?) ==>
              r.rows[i][j] == t.rows[i][j]
    ensures forall i, j :: 0 <= i < |t.rows| && 0 <= j < |t.columns| && t.numeric[j] && t.rows[i][j].Null? ==>
              r.rows[i][j] == (match mean(Column(t.rows, j)) case Some(x) => Num(x) case None => Null)
  {
    var means := ColumnMeans(t, mean);
    t.(rows := seq(|t.rows|, i requires 0 <= i < |t.rows| => FillRow(t.rows[i], t.numeric, means)))
  }

  /**
   * After filling, a numeric column whose mean exists has no null left. (A
   * column without any number has no mean and keeps its nulls.)
   */
  lemma FilledColumnHasNoNull(t: Table, mean: seq<Cell> -> Option<real>, j: nat)
    requires WellFormed(t)
    requires j < |t.columns| && t.numeric[j] && mean(Column(t.rows, j)).Some?
    ensures forall i :: 0 <= i < |t.rows| ==> FillMissing(t, mean).rows[i][j] != Null
  {
  }

  /** Filling twice is the same as filling once. */
  lemma FillMissingIdempotent(t: Table, mean: seq<Cell> -> Option<real>)
    requires WellFormed(t)
    ensures FillMissing(FillMissing(t, mean), mean) == FillMissing(t, mean)
  {
    var r := FillMissing(t, mean);
    var rr := FillMissing(r, mean);
    forall i, j | 0 <= i < |t.rows| && 0 <= j < |t.columns|
      ensures rr.rows[i][j] == r.rows[i][j]
    {
      if t.numeric[j] && r.rows[i][j].Null? {
        assert t.rows[i][j].Null?;
        assert mean(Column(t.rows, j)).None?;
        assert Column(r.rows, j) == Column(t.rows, j) by {
          forall i' | 0 <= i' < |t.rows|
            ensures r.rows[i'][j] == t.rows[i'][j]
          {
          }
        }
      }
    }
    assert forall i :: 0 <= i < |t.rows| ==> rr.rows[i] == r.rows[i];
  }

  /** With no numeric column, `fillna` has nothing to change. */
  lemma FillWithoutNumericIsIdentity(t: Table, mean: seq<Cell> -> Option<real>)
    requires WellFormed(t)
    requires NoNumericColumn(t)
    ensures FillMissing(t, mean) == t
  {
    var r := FillMissing(t, mean);
    assert forall i :: 0 <= i < |t.rows| ==> r.rows[i] == t.rows[i];
  }

  /** What the fill action reported. */
  datatype FillOutcome = FillNotRequested | Filled | NoNumericColumns

  /**
   * The branch of lines 55-60: with no numeric column the table is left
   * unchanged and a warning is given; otherwise the nulls are filled.
   */
  function FillStep(t: Table, mean: seq<Cell> -> Option<real>): (r: (Table, FillOutcome))
    requires WellFormed(t)
    ensures r.1 == NoNumericColumns <==> NoNumericColumn(t)
    ensures r.1 != FillNotRequested
    ensures r.1 == NoNumericColumns ==> r.0 == t
    ensures r.0 == FillMissing(t, mean)
  {
    NoNumericIndices(t);
    if |NumericIndices(t.numeric)| == 0 then
      FillWithoutNumericIsIdentity(t, mean);
      (t, NoNumericColumns)
    else (FillMissing(t, mean), Filled)
  }

  const ScenarioRowA: Row := [Num(1.0), Num(10.0)]
  const ScenarioRowB: Row := [Num(2.0), Null]

  lemma ScenarioDropsRepeat()
    ensures DropDuplicates([ScenarioRowA, ScenarioRowB, ScenarioRowA]) == [ScenarioRowA, ScenarioRowB]
  {
    var a, b := ScenarioRowA, ScenarioRowB;
    assert [a][..0] == [];
    assert DropDuplicates([a]) == [a];
    assert [a, b][..1] == [a] && a != b;
    assert DropDuplicates([a, b]) == [a, b];
    assert [a, b, a][..2] == [a, b];
  }

  lemma ScenarioFillsMean(mean: seq<Cell> -> Option<real>)
    requires mean([Num(10.0), Null]) == Some(10.0)
    ensures FillMissing(Table(["id", "value"], [true, true], [ScenarioRowA, ScenarioRowB]), mean).rows
            == [ScenarioRowA, [Num(2.0), Num(10.0)]]
  {
    var d := Table(["id", "value"], [true, true], [ScenarioRowA, ScenarioRowB]);
    assert Column(d.rows, 1) == [Num(10.0), Null];
    var f := FillMissing(d, mean);
    assert f.rows[0][0] == Num(1.0) && f.rows[0][1] == Num(10.0);
    assert f.rows[0] == ScenarioRowA;
    assert f.rows[1][0] == Num(2.0) && f.rows[1][1] == Num(10.0);
    assert f.rows[1] == [Num(2.0), Num(10.0)];
  }

  /**
   * Scenario: columns `id,value` uploaded with rows (1,10), (2,null), (1,10).
   * A click reruns the script from the upload, so the two buttons act on the
   * same three rows: one click drops the repeated row, the other fills row 2
   * with the mean of all three `value` cells and keeps the repeat.
   */
  lemma SeparateClicksScenario(mean: seq<Cell> -> Option<real>)
    requires mean([Num(10.0), Null, Num(10.0)]) == Some(10.0)
    ensures var t := Table(["id", "value"], [true, true], [ScenarioRowA, ScenarioRowB, ScenarioRowA]);
            && DropDuplicateRows(t).rows == [ScenarioRowA, ScenarioRowB]
            && FillMissing(t, mean).rows == [ScenarioRowA, [Num(2.0), Num(10.0)], ScenarioRowA]
  {
    ScenarioDropsRepeat();
    var t := Table(["id", "value"], [true, true], [ScenarioRowA, ScenarioRowB, ScenarioRowA]);
    assert Column(t.rows, 1) == [Num(10.0), Null, Num(10.0)];
    var f := FillMissing(t, mean);
    assert f.rows[0][0] == Num(1.0) && f.rows[0][1] == Num(10.0);
    assert f.rows[1][0] == Num(2.0) && f.rows[1][1] == Num(10.0);
    assert f.rows[2][0] == Num(1.0) && f.rows[2][1] == Num(10.0);
    assert f.rows[0] == ScenarioRowA && f.rows[2] == ScenarioRowA;
    assert f.rows[1] == [Num(2.0), Num(10.0)];
  }
}
