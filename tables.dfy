/**
 * Columns of a table of rows (`df[col]`) and how often a value occurs in
 * one, for any row type.
 */
module Tables {

  /** `df[col]`: the value `f` picks from each row, in row order. */
  function Column<R, V>(rows: seq<R>, f: R -> V): (r: seq<V>)
    ensures |r| == |rows| && forall i :: 0 <= i < |rows| ==> r[i] == f(rows[i])
  {
    if rows == [] then [] else [f(rows[0])] + Column(rows[1..], f)
  }

  /** The number of rows whose value in the column is `v`. */
  function RowsWith<R, V(==)>(rows: seq<R>, f: R -> V, v: V): nat
  {
    if rows == [] then 0 else (if f(rows[0]) == v then 1 else 0) + RowsWith(rows[1..], f, v)
  }

  /** A value occurs in the column as often as there are rows carrying it. */
  lemma {:induction false} ColumnCount<R, V>(rows: seq<R>, f: R -> V, v: V)
    ensures multiset(Column(rows, f))[v] == RowsWith(rows, f, v)
  {
    if rows != [] {
      ColumnCount(rows[1..], f, v);
      assert Column(rows, f) == [f(rows[0])] + Column(rows[1..], f);
    }
  }
}
