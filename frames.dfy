/**
 * The DataFrame `df` that the script rebinds and then changes in place
 * (app.py lines 43, 51 and 57): labels and dtypes as fields, the rows in an
 * array of which the first `count` are in use.
 */
module Frames {
  import opened Wrappers
  import opened Tables
  import opened Cleaning

  class Frame {
    var columns: seq<string>
    var numeric: seq<bool>
    var data: array<Row>
    var count: nat

    ghost predicate Valid()
      reads this, data
    {
      count <= data.Length && WellFormed(Table(columns, numeric, data[..count]))
    }

    /** The table the frame currently holds. */
    function Contents(): (t: Table)
      reads this, data
      requires count <= data.Length
    {
      Table(columns, numeric, data[..count])
    }

    constructor (t: Table)
      requires WellFormed(t)
      ensures Valid() && fresh(data)
      ensures Contents() == t
    {
      columns := t.columns;
      numeric := t.numeric;
      data := new Row[|t.rows|](i requires 0 <= i < |t.rows| => t.rows[i]);
      count := |t.rows|;
      new;
      assert data[..count] == t.rows;
    }

    /**
     * `df.drop_duplicates(inplace=True)`: compacts the rows in place, keeping
     * each first occurrence.
     */
    method DropDuplicatesInPlace()
      requires Valid()
      modifies this`count, data
      ensures Valid()
      ensures Contents() == DropDuplicateRows(old(Contents()))
    {
      ghost var result := DropDuplicateRows(Contents());
      var w := CompactFirstOccurrences(data, count);
      count := w;
      assert Contents() == result;
    }

    /**
     * `df[numeric_cols] = df[numeric_cols].fillna(df[numeric_cols].mean())`:
     * the means are taken from the current rows, then every row is filled.
     */
    method FillMissingInPlace(mean: seq<Cell> -> Option<real>)
      requires Valid()
      modifies data
      ensures Valid()
      ensures Contents() == FillMissing(old(Contents()), mean)
    {
      ghost var t := Contents();
      ghost var r := FillMissing(t, mean);
      var means := ColumnMeans(Contents(), mean);
      var i := 0;
      while i < count
        invariant 0 <= i <= count
        invariant data[..i] == r.rows[..i]
        invariant data[i..count] == t.rows[i..]
      {
        assert data[i] == t.rows[i];
        data[i] := FillRow(data[i], numeric, means);
        i := i + 1;
      }
      assert data[..count] == r.rows;
    }
  }

  /**
   * Moves the first occurrence of every value among `a[..n]` to the front,
   * in order, and returns how many there are.
   */
  method CompactFirstOccurrences<T(==)>(a: array<T>, n: nat) returns (w: nat)
    requires n <= a.Length
    modifies a
    ensures w <= n
    ensures a[..w] == DropDuplicates(old(a[..n]))
    ensures forall k :: n <= k < a.Length ==> a[k] == old(a[k])
  {
    ghost var s := a[..n];
    w := 0;
    var i := 0;
    while i < n
      invariant 0 <= w <= i <= n
      invariant a[..w] == DropDuplicates(s[..i])
      invariant forall k :: i <= k < n ==> a[k] == s[k]
      invariant forall k :: n <= k < a.Length ==> a[k] == old(a[k])
    {
      DropDuplicatesSnoc(s, i);
      ghost var kept := a[..w];
      if a[i] !in a[..w] {
        a[w] := a[i];
        assert a[..w + 1] == kept + [s[i]];
        w := w + 1;
      }
      i := i + 1;
    }
    assert s[..n] == s;
  }
}
