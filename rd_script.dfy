/**
 * The stand-alone NSF chart script: it loads the table with the same
 * cleanup as the dashboard but without catching errors, charts the growth
 * of the last ten years and prints the figures of the latest year.
 */
module RdScript {
  import opened Wrappers
  import opened Cells
  import opened Frames
  import opened NsfLoader
  import opened Investment
  import Seqs

  /**
   * The script's load: the same steps as the dashboard's, and since there
   * is no try block the error ends the script instead of becoming None.
   */
  method LoadScript(raw: Frame) returns (r: Result<Frame, LoadError>)
    requires Rectangular(raw)
    ensures r == LoadSpec(raw, CellToFloat)
    ensures r.Ok? ==> Loaded(r.value.rows)
  {
    r := Load(raw);
    if r.Ok? {
      LoadedAfterLoad(raw, CellToFloat);
    }
  }

  /**
   * recent_df = df.tail(11), charted as recent_df[1:]: the last ten rows
   * (all but the first when there are fewer than eleven). The row before
   * each charted row, the one its growth rate is taken against, lies in
   * the 11-row window.
   */
  function GrowthWindow(rows: seq<seq<Cell>>): (w: seq<seq<Cell>>)
    ensures |w| == (if |rows| >= 11 then 10 else if rows == [] then 0 else |rows| - 1)
    ensures w == rows[|rows| - |w|..]
    ensures w != [] ==> |rows| - |w| - 1 >= 0 && |rows| - |w| - 1 >= |rows| - 11
  {
    var recent := Seqs.TakeLast(rows, 11);
    if recent == [] then [] else recent[1..]
  }

  /** The printed summary row: the first row of the latest year; None where .iloc[0] of an empty table raises. */
  function LatestRow(rows: seq<seq<Cell>>): (r: Option<seq<Cell>>)
    requires Loaded(rows)
    ensures r.Some? <==> rows != []
    ensures r.Some? ==> r.value in rows && forall i :: 0 <= i < |rows| ==> Year(rows[i]) <= Year(r.value)
  {
    if rows == [] then None else Some(rows[FirstWithYear(rows, MaxYear(rows))])
  }

  /** The summary row exists exactly for a non-empty table; it is the first row whose year is the largest. */
  lemma LatestRowIsFirstOfMaxYear(rows: seq<seq<Cell>>)
    requires Loaded(rows)
    ensures LatestRow(rows).Some? <==> rows != []
    ensures LatestRow(rows).Some? ==>
      exists k :: (0 <= k < |rows| && rows[k] == LatestRow(rows).value
        && (forall i :: 0 <= i < |rows| ==> Year(rows[i]) <= Year(rows[k]))
        && (forall j :: 0 <= j < k ==> Year(rows[j]) < Year(rows[k])))
  {
    if rows != [] {
      var m := MaxYear(rows);
      var i :| 0 <= i < |rows| && Year(rows[i]) == m;
      assert IsYear(rows[i], m);
      var k := FirstWithYear(rows, m);
      assert forall j :: 0 <= j < k ==> !IsYear(rows[j], m);
    }
  }
}
