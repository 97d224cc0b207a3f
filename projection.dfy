/**
 * Column projection (app.py lines 42-43):
 * `df = df[selected_columns] if selected_columns else df`.
 */
module Projection {
  import opened Tables

  /** The position of label `name` among `cols` (its first one). */
  function IndexOf(cols: seq<string>, name: string): (k: nat)
    requires name in cols
    ensures k < |cols| && cols[k] == name
    ensures name !in cols[..k]
  {
    if cols[0] == name then 0
    else
      assert name in cols[1..];
      var k := IndexOf(cols[1..], name);
      assert cols[1..][..k] == cols[1..k + 1];
      k + 1
  }

  /** A valid selection: distinct labels, each one a column of `t`. */
  predicate IsSelection(t: Table, sel: seq<string>) {
    && Distinct(sel)
    && forall n :: n in sel ==> n in t.columns
  }

  /**
   * A non-empty selection yields exactly the selected columns in selection
   * order, cell for cell and with the same rows; an empty selection keeps
   * the table as it is.
   */
  function Project(t: Table, sel: seq<string>): (r: Table)
    requires WellFormed(t)
    requires IsSelection(t, sel)
    ensures WellFormed(r)
    ensures sel == [] ==> r == t
    ensures sel != [] ==> r.columns == sel
    ensures |r.rows| == |t.rows|
    ensures |t.columns| > 0 ==> |r.columns| > 0
    ensures forall i, j, k ::
              0 <= i < |t.rows| && 0 <= j < |r.columns| && 0 <= k < |t.columns| && t.columns[k] == r.columns[j] ==>
              r.rows[i][j] == t.rows[i][k] && r.numeric[j] == t.numeric[k]
  {
    if sel == [] then t
    else
      var idx := seq(|sel|, j requires 0 <= j < |sel| => IndexOf(t.columns, sel[j]));
      assert forall j, k :: 0 <= j < |sel| && 0 <= k < |t.columns| && t.columns[k] == sel[j] ==> idx[j] == k;
      var r := Table(sel,
                     seq(|sel|, j requires 0 <= j < |sel| => t.numeric[idx[j]]),
                     seq(|t.rows|, i requires 0 <= i < |t.rows| =>
                           seq(|sel|, j requires 0 <= j < |sel| => t.rows[i][idx[j]])));
      assert forall i, j :: 0 <= i < |r.rows| && 0 <= j < |sel| ==> r.rows[i][j] == t.rows[i][idx[j]];
      r
  }
}
