/**
 * The abstract table the script works on: a pandas DataFrame reduced to its
 * column labels, a per-column "numeric dtype" flag (what
 * `select_dtypes(include="number")` sees) and its rows of cells.
 */
module Tables {

  /** A cell holds a number, a piece of text, or nothing (pandas' NaN/None). */
  datatype Cell = Null | Num(x: real) | Text(s: string)

  type Row = seq<Cell>

  datatype Table = Table(columns: seq<string>, numeric: seq<bool>, rows: seq<Row>)

  predicate Distinct<T(==)>(s: seq<T>) {
    forall i, j :: 0 <= i < j < |s| ==> s[i] != s[j]
  }

  /** A cell that may live in a column of numeric dtype. */
  predicate NumericCell(c: Cell) {
    c.Null? || c.Num?
  }

  /**
   * What parsing produces: one flag per column, unique column labels, every
   * row as wide as the header, and numeric columns holding numbers or nulls.
   */
  predicate WellFormed(t: Table) {
    && |t.numeric| == |t.columns|
    && Distinct(t.columns)
    && (forall i :: 0 <= i < |t.rows| ==> |t.rows[i]| == |t.columns|)
    && (forall i, j :: 0 <= i < |t.rows| && 0 <= j < |t.columns| && t.numeric[j] ==> NumericCell(t.rows[i][j]))
  }

  /** The cells of column `j`, top to bottom. */
  function Column(rows: seq<Row>, j: nat): (c: seq<Cell>)
    requires forall i :: 0 <= i < |rows| ==> j < |rows[i]|
    ensures |c| == |rows|
  {
    seq(|rows|, i requires 0 <= i < |rows| => rows[i][j])
  }

  /**
   * The positions of the numeric columns, in column order: the columns of
   * `select_dtypes(include="number")`.
   */
  function NumericIndices(numeric: seq<bool>): (r: seq<nat>)
    ensures forall k :: 0 <= k < |r| ==> r[k] < |numeric| && numeric[r[k]]
    ensures forall i :: 0 <= i < |numeric| && numeric[i] ==> i in r
    ensures forall k1, k2 :: 0 <= k1 < k2 < |r| ==> r[k1] < r[k2]
  {
    if numeric == [] then []
    else
      var n := |numeric| - 1;
      NumericIndices(numeric[..n]) + (if numeric[n] then [n] else [])
  }

  /** The table has no column of numeric dtype. */
  predicate NoNumericColumn(t: Table) {
    forall j :: 0 <= j < |t.numeric| ==> !t.numeric[j]
  }

  lemma NoNumericIndices(t: Table)
    ensures NumericIndices(t.numeric) == [] <==> NoNumericColumn(t)
  {
    var idx := NumericIndices(t.numeric);
    if idx != [] {
      assert t.numeric[idx[0]];
    }
  }
}
