/** The data frame the pipeline works on: named columns, rows of cell values
    aligned with them, and the column operations the pipeline uses
    (lookup, assignment `df[c] = values`, and `drop(columns=[c])`). */
module Frames {
  import opened Seqs

  /** A cell: a number, a string, or a missing value (NaN). */
  datatype Value = Num(x: real) | Str(s: string) | Null

  /** One record, positionally aligned with the table's column names. */
  type Row = seq<Value>

  /** A table: column names in order, and the rows in order. */
  datatype Table = Table(cols: seq<string>, rows: seq<Row>)

  /** The column names the pipeline knows about. */
  const TargetColumn: string := "y"
  const AgeColumn: string := "age"
  const GroupColumn: string := "age_group"

  /** The fatal errors the pipeline can raise once the input is loaded. */
  datatype Failure =
    | MissingTarget   // the table has no `y` column
    | InvalidTarget   // some `y` value is neither "yes" nor "no"
    | EmptyMatrix     // `get_dummies` or the scaler refuses a feature matrix without rows or columns

  datatype Result<T> = Ok(value: T) | Err(error: Failure)

  datatype Option<T> = None | Some(value: T)

  /** Every row has one cell per column. */
  predicate Rectangular(t: Table)
  {
    forall k :: 0 <= k < |t.rows| ==> |t.rows[k]| == |t.cols|
  }

  /** The shape a loaded CSV table has: rectangular, with distinct column names. */
  predicate WellFormed(t: Table)
  {
    Distinct(t.cols) && Rectangular(t)
  }

  /** The values of the column at position `j`, top to bottom. */
  function ColumnAt(t: Table, j: nat): (vs: seq<Value>)
    requires Rectangular(t) && j < |t.cols|
    ensures |vs| == |t.rows|
  {
    seq(|t.rows|, k requires 0 <= k < |t.rows| => t.rows[k][j])
  }

  /** The values of the column named `c`, `df[c]`. */
  function Column(t: Table, c: string): (vs: seq<Value>)
    requires Rectangular(t) && c in t.cols
    ensures |vs| == |t.rows|
  {
    ColumnAt(t, IndexOf(t.cols, c))
  }

  /** With distinct names, the column named after position `i` is the
      column at `i`. */
  lemma ColumnNamedAt(t: Table, i: nat)
    requires WellFormed(t) && i < |t.cols|
    ensures Column(t, t.cols[i]) == ColumnAt(t, i)
  {
    IndexOfDistinct(t.cols, i);
  }

  /** The table without the column at position `i`. */
  function DropAt(t: Table, i: nat): (r: Table)
    requires Rectangular(t) && i < |t.cols|
    ensures Rectangular(r) && |r.rows| == |t.rows|
  {
    Table(RemoveAt(t.cols, i), seq(|t.rows|, k requires 0 <= k < |t.rows| => RemoveAt(t.rows[k], i)))
  }

  /** A column other than the dropped one reads the same after the drop. */
  lemma DropAtColumn(t: Table, i: nat, d: string)
    requires WellFormed(t) && i < |t.cols| && d in DropAt(t, i).cols
    ensures Column(DropAt(t, i), d) == Column(t, d)
  {
    var r := DropAt(t, i);
    var p := IndexOf(r.cols, d);
    var q := if p < i then p else p + 1;
    IndexOfDistinct(t.cols, q);
    assert forall k :: 0 <= k < |t.rows| ==> r.rows[k][p] == t.rows[k][q];
  }

  lemma DropAtKeepsColumns(t: Table, i: nat)
    requires WellFormed(t) && i < |t.cols|
    ensures WellFormed(DropAt(t, i))
    ensures forall d :: d in DropAt(t, i).cols <==> d in t.cols && d != t.cols[i]
    ensures forall d :: d in DropAt(t, i).cols ==> Column(DropAt(t, i), d) == Column(t, d)
  {
    RemoveAtMembers(t.cols, i);
    forall d | d in DropAt(t, i).cols
      ensures Column(DropAt(t, i), d) == Column(t, d)
    {
      DropAtColumn(t, i, d);
    }
  }

  /** `df.drop(columns=[c])`: the table without column `c`, everything else in
      place. */
  function DropColumn(t: Table, c: string): (r: Table)
    requires WellFormed(t) && c in t.cols
    ensures WellFormed(r) && |r.rows| == |t.rows|
    ensures r.cols == RemoveAt(t.cols, IndexOf(t.cols, c))
    ensures c !in r.cols
    ensures forall d :: d in r.cols <==> d in t.cols && d != c
    ensures forall d :: d in r.cols ==> Column(r, d) == Column(t, d)
  {
    DropAtKeepsColumns(t, IndexOf(t.cols, c));
    DropAt(t, IndexOf(t.cols, c))
  }

  /** `df[c] = vs`: overwrite column `c` in place when it exists, otherwise
      append it as the last column. */
  function SetColumn(t: Table, c: string, vs: seq<Value>): (r: Table)
    requires WellFormed(t) && |vs| == |t.rows|
    ensures WellFormed(r) && |r.rows| == |t.rows|
    ensures r.cols == if c in t.cols then t.cols else t.cols + [c]
    ensures Column(r, c) == vs
    ensures forall d :: d in t.cols && d != c ==> Column(r, d) == Column(t, d)
  {
    if c in t.cols then
      var i := IndexOf(t.cols, c);
      var r := Table(t.cols, seq(|t.rows|, k requires 0 <= k < |t.rows| => t.rows[k][i := vs[k]]));
      assert forall d :: d in t.cols ==> IndexOf(r.cols, d) == IndexOf(t.cols, d);
      r
    else
      var r := Table(t.cols + [c], seq(|t.rows|, k requires 0 <= k < |t.rows| => t.rows[k] + [vs[k]]));
      assert Distinct(r.cols);
      assert IndexOf(r.cols, c) == |t.cols| by { IndexOfDistinct(r.cols, |t.cols|); }
      assert forall d :: d in t.cols ==> IndexOf(r.cols, d) == IndexOf(t.cols, d) by {
        forall d | d in t.cols { IndexOfPrefix(t.cols, [c], d); }
      }
      r
  }

  /** The rows of `t` selected by a mask, with the same columns. */
  function SelectRows(t: Table, keep: seq<bool>): (r: Table)
    requires Rectangular(t) && |keep| == |t.rows|
    ensures Rectangular(r) && r.cols == t.cols
  {
    var r := Table(t.cols, Pick(t.rows, keep));
    assert Rectangular(r) by {
      forall k | 0 <= k < |r.rows|
        ensures |r.rows[k]| == |t.cols|
      {
        PickMembers(t.rows, keep, r.rows[k]);
      }
    }
    r
  }

  /** Every column of `r` keeps values of the same column of `t`, in their
      original order, as a row filter leaves them. */
  predicate ThinsColumns(r: Table, t: Table)
    requires Rectangular(r) && Rectangular(t) && r.cols == t.cols
  {
    forall c :: c in t.cols ==> IsSubseq(Column(r, c), Column(t, c))
  }

  /** Selecting rows and then reading a column is selecting from the column:
      every column keeps its surviving values in their original order. */
  lemma {:induction false} SelectRowsColumn(t: Table, keep: seq<bool>, j: nat)
    requires Rectangular(t) && |keep| == |t.rows| && j < |t.cols|
    ensures ColumnAt(SelectRows(t, keep), j) == Pick(ColumnAt(t, j), keep)
    decreases |t.rows|
  {
    if |t.rows| > 0 {
      var n := |t.rows| - 1;
      var t' := Table(t.cols, t.rows[..n]);
      SelectRowsColumn(t', keep[..n], j);
      assert ColumnAt(t, j)[..n] == ColumnAt(t', j);
      var p := Pick(t'.rows, keep[..n]);
      if keep[n] {
        assert ColumnAt(SelectRows(t, keep), j) == ColumnAt(SelectRows(t', keep[..n]), j) + [t.rows[n][j]];
      } else {
        assert ColumnAt(SelectRows(t, keep), j) == ColumnAt(SelectRows(t', keep[..n]), j);
      }
    }
  }
}
