/**
 * The visualization gate (app.py lines 65-69): a bar chart of the first two
 * numeric columns, or a warning when there are fewer than two.
 */
module Visualization {
  import opened Tables
  import opened Projection

  datatype ChartOutcome = ChartHidden | NotEnoughNumeric | BarChart(data: Table)

  /** Columns `i` and `j` are the first two numeric columns. */
  ghost predicate FirstTwoNumeric(numeric: seq<bool>, i: int, j: int) {
    && 0 <= i < j < |numeric| && numeric[i] && numeric[j]
    && forall k :: 0 <= k < j && k != i ==> !numeric[k]
  }

  /**
   * `numeric_df.iloc[:, :2]` when `numeric_df.shape[1] >= 2`. Reading the
   * table is all this does: the table is a value and is not changed.
   */
  function Visualize(t: Table): (r: ChartOutcome)
    requires WellFormed(t)
    ensures r != ChartHidden
    ensures r.BarChart? <==> exists i, j :: 0 <= i < j < |t.numeric| && t.numeric[i] && t.numeric[j]
  {
    var idx := NumericIndices(t.numeric);
    if |idx| >= 2 then
      BarChart(Project(t, [t.columns[idx[0]], t.columns[idx[1]]]))
    else NotEnoughNumeric
  }

  /** The chart shows exactly the first two numeric columns, all rows. */
  lemma ChartShowsFirstTwoNumeric(t: Table, i: int, j: int)
    requires WellFormed(t)
    requires FirstTwoNumeric(t.numeric, i, j)
    ensures Visualize(t) == BarChart(Project(t, [t.columns[i], t.columns[j]]))
  {
    var idx := NumericIndices(t.numeric);
    assert i in idx && j in idx;
    var ki :| 0 <= ki < |idx| && idx[ki] == i;
    var kj :| 0 <= kj < |idx| && idx[kj] == j;
    assert ki < kj;
  }
}
