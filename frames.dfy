/**
 * Shared vocabulary of the model: ticker labels, table cells that may be
 * missing, column-oriented tables, and an optional value.
 */
module Frames {

  /** A column label of a price or return table, such as "TSLA". */
  type Ticker = string

  /** A table cell; `Missing` plays the role of pandas' NaN. */
  datatype Cell = Missing | Present(value: real)

  /** A value that may be absent (pandas' NaN result, or an index error). */
  datatype Option<T> = None | Some(value: T)

  /**
   * A column-oriented table: `columns[j]` is the column labelled `labels[j]`.
   * The row count is kept on its own because a table without columns still
   * has an index (and so a number of rows).
   */
  datatype Table<T> = Table(rows: nat, labels: seq<Ticker>, columns: seq<seq<T>>)
  {
    /** One column per label, every column `rows` long. */
    predicate WellFormed() {
      && |labels| == |columns|
      && forall j :: 0 <= j < |columns| ==> |columns[j]| == rows
    }
  }

  /** No element occurs twice. */
  predicate Distinct<T(==)>(s: seq<T>) {
    forall i, j :: 0 <= i < j < |s| ==> s[i] != s[j]
  }
}
