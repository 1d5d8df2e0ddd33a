/** A dataframe as column names and rows of cells. */
module Frames {
  import opened Cells

  datatype Frame = Frame(names: seq<string>, rows: seq<seq<Cell>>)

  /** Every row has one cell per column, as in a dataframe. */
  predicate Rectangular(f: Frame) {
    forall i :: 0 <= i < |f.rows| ==> |f.rows[i]| == |f.names|
  }

  /** The position of the first column called name, or |names| when there is none. */
  function ColumnIndex(names: seq<string>, name: string): (k: nat)
    ensures k <= |names|
    ensures k < |names| ==> names[k] == name
    ensures forall j :: 0 <= j < k ==> names[j] != name
  {
    if names == [] then 0 else if names[0] == name then 0 else 1 + ColumnIndex(names[1..], name)
  }
}
