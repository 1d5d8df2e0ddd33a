/**
 * hejin/drone.py: load_drone_data, which reads the drone table with its
 * Year column as the index and normalises it step by step, and the
 * selection of the application-market columns present in the table.
 */
module DroneData {
  import opened Wrappers
  import opened Cells
  import opened Frames
  import Seqs

  /** The column read_csv turns into the index. */
  const IndexName: string := "Year"

  /** A row while its index is still a cell: before the integer cast. */
  datatype IndexedRow = IndexedRow(index: Cell, cells: seq<Cell>)

  /** A row of the loaded table: the integer year index and the data cells. */
  datatype DroneRow = DroneRow(year: int, cells: seq<Cell>)

  datatype DroneFrame = DroneFrame(names: seq<string>, rows: seq<DroneRow>)

  /** read_csv(index_col='Year'): the Year cell of each row becomes its index. */
  function ReadIndexed(rows: seq<seq<Cell>>, k: nat): (r: seq<IndexedRow>)
    requires forall i :: 0 <= i < |rows| ==> k < |rows[i]|
    ensures |r| == |rows| && forall i :: 0 <= i < |r| ==> |r[i].cells| == |rows[i]| - 1
  {
    if rows == [] then [] else [IndexedRow(rows[0][k], Seqs.Without(rows[0], k))] + ReadIndexed(rows[1..], k)
  }

  /** Row i of the read table is raw row i split into its Year cell and the rest. */
  lemma {:induction false} ReadIndexedAt(rows: seq<seq<Cell>>, k: nat, i: nat)
    requires forall j :: 0 <= j < |rows| ==> k < |rows[j]|
    requires i < |rows|
    ensures ReadIndexed(rows, k)[i] == IndexedRow(rows[i][k], Seqs.Without(rows[i], k))
  {
    if i > 0 {
      ReadIndexedAt(rows[1..], k, i - 1);
    }
  }

  /** pd.to_numeric(data.index, errors='coerce') on one row. */
  function CoerceIndex(r: IndexedRow): IndexedRow {
    IndexedRow(Coerce(r.index), r.cells)
  }

  /** dropna(how='all') keeps a row with at least one present cell. */
  predicate HasValue(r: IndexedRow) {
    exists m :: 0 <= m < |r.cells| && !r.cells[m].Missing?
  }

  /** data.index.notna(). */
  predicate IndexPresent(r: IndexedRow) {
    !r.index.Missing?
  }

  /** An index value astype(int) accepts: an integer or a finite number. */
  predicate Castable(r: IndexedRow) {
    r.index.Whole? || (r.index.Float? && r.index.n.Finite?)
  }

  /**
   * The integer astype(int) gives a castable index value; it is only
   * applied to castable rows, the other cases give 0.
   */
  function IndexValue(c: Cell): int {
    match c
    case Whole(i) => i
    case Float(Finite(v)) => Trunc(v)
    case _ => 0
  }

  function ToDroneRow(r: IndexedRow): DroneRow {
    DroneRow(IndexValue(r.index), r.cells)
  }

  /** data.index.astype(int): raises, here None, when an index value is infinite. */
  function ToInts(rows: seq<IndexedRow>): Option<seq<DroneRow>> {
    if forall i :: 0 <= i < |rows| ==> Castable(rows[i]) then Some(Seqs.Map(rows, ToDroneRow)) else None
  }

  function YearKey(r: DroneRow): real { r.year as real }

  /** pd.to_numeric(..., errors='coerce') on every column of one row. */
  function CoerceRow(r: DroneRow): DroneRow {
    DroneRow(r.year, Seqs.Map(r.cells, Coerce))
  }

  /** A raw row that survives both row drops: a present cell and a numeric year. */
  predicate Kept(r: IndexedRow) {
    HasValue(r) && !Coerce(r.index).Missing?
  }

  /** What becomes of a kept row: the truncated numeric year and the coerced cells. */
  function Final(r: IndexedRow): DroneRow {
    DroneRow(IndexValue(Coerce(r.index)), Seqs.Map(r.cells, Coerce))
  }

  /**
   * The rows of the loaded table: None when a kept row has an infinite
   * year (astype(int) raises), otherwise the kept rows, each finished, in
   * ascending year order.
   */
  function RowsSpec(read: seq<IndexedRow>): Option<seq<DroneRow>> {
    var kept := Seqs.Filter(read, Kept);
    if exists j :: 0 <= j < |kept| && !Castable(CoerceIndex(kept[j])) then None
    else Some(Seqs.SortBy(Seqs.Map(kept, Final), YearKey, false))
  }

  /**
   * What load_drone_data returns: None for a missing file or a table
   * without a Year column (read_csv raises and the handler returns None),
   * otherwise the table without its Year column and with the rows of RowsSpec.
   */
  function DroneSpec(fileExists: bool, raw: Frame): Option<DroneFrame>
    requires Rectangular(raw)
  {
    if !fileExists then None
    else
      var k := ColumnIndex(raw.names, IndexName);
      if k == |raw.names| then None
      else
        match RowsSpec(ReadIndexed(raw.rows, k))
        case None => None
        case Some(rows) => Some(DroneFrame(Seqs.Without(raw.names, k), rows))
  }

  /**
   * The loop `for col in data.columns: data[col] = pd.to_numeric(data[col],
   * errors='coerce')`: column j is rewritten in every row at step j.
   */
  method CoerceColumns(rows: seq<DroneRow>, width: nat) returns (out: seq<DroneRow>)
    requires forall i :: 0 <= i < |rows| ==> |rows[i].cells| == width
    ensures out == Seqs.Map(rows, CoerceRow)
  {
    out := rows;
    for j := 0 to width
      invariant |out| == |rows|
      invariant forall i :: 0 <= i < |rows| ==> out[i].year == rows[i].year && |out[i].cells| == width
      invariant forall i, m :: 0 <= i < |rows| && 0 <= m < j ==> out[i].cells[m] == Coerce(rows[i].cells[m])
      invariant forall i, m :: 0 <= i < |rows| && j <= m < width ==> out[i].cells[m] == rows[i].cells[m]
    {
      out := seq(|out|, i requires 0 <= i < |out| => DroneRow(out[i].year, out[i].cells[j := Coerce(out[i].cells[j])]));
    }
    forall i | 0 <= i < |rows| ensures out[i] == CoerceRow(rows[i]) {
      assert out[i].cells == Seqs.Map(rows[i].cells, Coerce);
    }
  }

  /**
   * load_drone_data step by step, each step reassigning the table: read,
   * then the steps of NormaliseRows.
   */
  method LoadDroneData(fileExists: bool, raw: Frame) returns (r: Option<DroneFrame>)
    requires Rectangular(raw)
    ensures r == DroneSpec(fileExists, raw)
  {
    if !fileExists {
      return None;
    }
    var k := ColumnIndex(raw.names, IndexName);
    if k == |raw.names| {
      return None;
    }
    var names := Seqs.Without(raw.names, k);
    var read := ReadIndexed(raw.rows, k);
    var rows := NormaliseRows(read, |names|);
    if rows.None? {
      return None;
    }
    r := Some(DroneFrame(names, rows.value));
  }

  /**
   * Index coercion, the two row drops, the integer cast, the sort and the
   * column loop, in the order of load_drone_data, give RowsSpec.
   */
  method NormaliseRows(read: seq<IndexedRow>, width: nat) returns (rows: Option<seq<DroneRow>>)
    requires forall i :: 0 <= i < |read| ==> |read[i].cells| == width
    ensures rows == RowsSpec(read)
  {
    var data := Seqs.Map(read, CoerceIndex);
    data := Seqs.Filter(data, HasValue);
    data := Seqs.Filter(data, IndexPresent);
    var ints := ToInts(data);
    CleanedFails(read);
    if ints.None? {
      return None;
    }
    CleanedRows(read, width);
    var sorted := Seqs.SortBy(ints.value, YearKey, false);
    var cols := CoerceColumns(sorted, width);
    rows := Some(cols);
  }

  /** The index coercion and the two row drops of NormaliseRows. */
  function Cleaned(read: seq<IndexedRow>): seq<IndexedRow> {
    Seqs.Filter(Seqs.Filter(Seqs.Map(read, CoerceIndex), HasValue), IndexPresent)
  }

  /** The integer cast of the cleaned rows fails exactly when RowsSpec does. */
  lemma CleanedFails(read: seq<IndexedRow>)
    ensures ToInts(Cleaned(read)).None? <==> RowsSpec(read).None?
  {
    KeptRows(read);
    var kept := Seqs.Filter(read, Kept);
    assert Cleaned(read) == Seqs.Map(kept, CoerceIndex);
    CastFails(kept);
  }

  /** When the cast succeeds, sorting and coercing the columns of the cleaned rows gives RowsSpec. */
  lemma CleanedRows(read: seq<IndexedRow>, width: nat)
    requires forall i :: 0 <= i < |read| ==> |read[i].cells| == width
    requires ToInts(Cleaned(read)).Some?
    ensures var sorted := Seqs.SortBy(ToInts(Cleaned(read)).value, YearKey, false);
      && (forall i :: 0 <= i < |sorted| ==> |sorted[i].cells| == width)
      && RowsSpec(read) == Some(Seqs.Map(sorted, CoerceRow))
  {
    KeptRows(read);
    var kept := Seqs.Filter(read, Kept);
    assert Cleaned(read) == Seqs.Map(kept, CoerceIndex);
    CleanedFails(read);
    CastRows(read, kept, width);
  }

  /** The cast of the coerced rows fails exactly when one of them has an index that is not castable. */
  lemma CastFails(kept: seq<IndexedRow>)
    ensures ToInts(Seqs.Map(kept, CoerceIndex)).None? <==> exists j :: 0 <= j < |kept| && !Castable(CoerceIndex(kept[j]))
  {
    var data := Seqs.Map(kept, CoerceIndex);
    if ToInts(data).None? {
      var i :| 0 <= i < |data| && !Castable(data[i]);
      assert data[i] == CoerceIndex(kept[i]);
    } else {
      forall j | 0 <= j < |kept| ensures Castable(CoerceIndex(kept[j])) {
        assert data[j] == CoerceIndex(kept[j]);
      }
    }
  }

  lemma CastRows(read: seq<IndexedRow>, kept: seq<IndexedRow>, width: nat)
    requires forall i :: 0 <= i < |read| ==> |read[i].cells| == width
    requires kept == Seqs.Filter(read, Kept)
    requires ToInts(Seqs.Map(kept, CoerceIndex)).Some?
    ensures var sorted := Seqs.SortBy(ToInts(Seqs.Map(kept, CoerceIndex)).value, YearKey, false);
      && (forall i :: 0 <= i < |sorted| ==> |sorted[i].cells| == width)
      && RowsSpec(read) == Some(Seqs.Map(sorted, CoerceRow))
  {
    var ints := ToInts(Seqs.Map(kept, CoerceIndex));
    assert ints.value == Seqs.Map(Seqs.Map(kept, CoerceIndex), ToDroneRow);
    var sorted := Seqs.SortBy(ints.value, YearKey, false);
    KeptWidths(read, width);
    SortedWidths(kept, sorted, width);
    FinishAgrees(kept);
  }

  /** The kept rows have the width of the read rows. */
  lemma KeptWidths(read: seq<IndexedRow>, width: nat)
    requires forall i :: 0 <= i < |read| ==> |read[i].cells| == width
    ensures var kept := Seqs.Filter(read, Kept); forall i :: 0 <= i < |kept| ==> |kept[i].cells| == width
  {
    var kept := Seqs.Filter(read, Kept);
    forall i | 0 <= i < |kept| ensures |kept[i].cells| == width {
      var k :| 0 <= k < |read| && read[k] == kept[i];
    }
  }

  /** Casting and sorting rows keeps their width. */
  lemma SortedWidths(kept: seq<IndexedRow>, s: seq<DroneRow>, width: nat)
    requires forall i :: 0 <= i < |kept| ==> |kept[i].cells| == width
    requires s == Seqs.SortBy(Seqs.Map(Seqs.Map(kept, CoerceIndex), ToDroneRow), YearKey, false)
    ensures forall i :: 0 <= i < |s| ==> |s[i].cells| == width
  {
    var ints := Seqs.Map(Seqs.Map(kept, CoerceIndex), ToDroneRow);
    assert forall j :: 0 <= j < |ints| ==> ints[j].cells == kept[j].cells;
    PermutedWidths(ints, s, width);
  }

  /** Reordering rows keeps their width. */
  lemma PermutedWidths(a: seq<DroneRow>, b: seq<DroneRow>, width: nat)
    requires forall i :: 0 <= i < |a| ==> |a[i].cells| == width
    requires multiset(b) == multiset(a)
    ensures forall i :: 0 <= i < |b| ==> |b[i].cells| == width
  {
    Seqs.PermutationMembers(a, b);
    forall i | 0 <= i < |b| ensures |b[i].cells| == width {
      var j :| 0 <= j < |a| && a[j] == b[i];
    }
  }

  /** The two row drops after the index coercion keep exactly the coerced kept rows. */
  lemma KeptRows(read: seq<IndexedRow>)
    ensures Seqs.Filter(Seqs.Filter(Seqs.Map(read, CoerceIndex), HasValue), IndexPresent) == Seqs.Map(Seqs.Filter(read, Kept), CoerceIndex)
  {
    assert forall x :: Kept(x) == (HasValue(CoerceIndex(x)) && IndexPresent(CoerceIndex(x))) by {
      forall x ensures Kept(x) == (HasValue(CoerceIndex(x)) && IndexPresent(CoerceIndex(x))) {
        assert CoerceIndex(x).cells == x.cells;
      }
    }
    Seqs.FilterFilterMap(read, CoerceIndex, HasValue, IndexPresent, Kept);
  }

  /** Casting, sorting and coercing the columns of the kept rows is sorting their finished forms. */
  lemma FinishAgrees(kept: seq<IndexedRow>)
    ensures var ints := Seqs.Map(Seqs.Map(kept, CoerceIndex), ToDroneRow);
      Seqs.Map(Seqs.SortBy(ints, YearKey, false), CoerceRow) == Seqs.SortBy(Seqs.Map(kept, Final), YearKey, false)
  {
    var cast := (r: IndexedRow) => ToDroneRow(CoerceIndex(r));
    Seqs.MapMap(kept, CoerceIndex, ToDroneRow, cast);
    var ints := Seqs.Map(kept, cast);
    Seqs.SortByMap(ints, CoerceRow, YearKey, YearKey, false);
    Seqs.MapMap(kept, cast, CoerceRow, Final);
  }

  /** Some kept row has an infinite year exactly when some raw row that passes both drops does. */
  lemma KeptCastable(read: seq<IndexedRow>)
    ensures (forall j :: 0 <= j < |Seqs.Filter(read, Kept)| ==> Castable(CoerceIndex(Seqs.Filter(read, Kept)[j]))) <==>
      forall i :: 0 <= i < |read| && Kept(read[i]) ==> Castable(CoerceIndex(read[i]))
  {
    var kept := Seqs.Filter(read, Kept);
    forall i | 0 <= i < |read| && Kept(read[i]) && !Castable(CoerceIndex(read[i]))
      ensures exists j :: 0 <= j < |kept| && !Castable(CoerceIndex(kept[j]))
    {
      var j :| 0 <= j < |kept| && kept[j] == read[i];
    }
  }

  /**
   * The load fails exactly for a missing file, a missing Year column or a
   * kept row whose year is infinite.
   */
  lemma DroneFails(fileExists: bool, raw: Frame)
    requires Rectangular(raw)
    ensures DroneSpec(fileExists, raw).None? <==>
      !fileExists || IndexName !in raw.names ||
      var read := ReadIndexed(raw.rows, ColumnIndex(raw.names, IndexName));
      exists i :: 0 <= i < |read| && Kept(read[i]) && !Castable(CoerceIndex(read[i]))
  {
    var k := ColumnIndex(raw.names, IndexName);
    if fileExists && IndexName in raw.names {
      var read := ReadIndexed(raw.rows, k);
      KeptCastable(read);
      assert DroneSpec(fileExists, raw).None? <==> RowsSpec(read).None?;
    }
  }

  /**
   * The rows are sorted by ascending year, have one cell per remaining
   * column, and are the finished forms of the rows with a present value
   * and a numeric year and nothing else: rows that are entirely empty or
   * have a non-numeric year are gone.
   */
  lemma {:induction false} RowsOutput(read: seq<IndexedRow>, width: nat)
    requires forall i :: 0 <= i < |read| ==> |read[i].cells| == width
    ensures RowsSpec(read).Some? ==>
      var rows := RowsSpec(read).value;
      && Seqs.SortedBy(rows, YearKey, false)
      && (forall j :: 0 <= j < |rows| ==> |rows[j].cells| == width)
      && (forall j :: 0 <= j < |rows| ==> exists i :: 0 <= i < |read| && Kept(read[i]) && rows[j] == Final(read[i]))
      && (forall i :: 0 <= i < |read| && Kept(read[i]) ==> Final(read[i]) in rows)
  {
    var kept := Seqs.Filter(read, Kept);
    var rows := Seqs.SortBy(Seqs.Map(kept, Final), YearKey, false);
    FinalRows(read, rows, width);
    assert RowsSpec(read).Some? ==> RowsSpec(read).value == rows;
  }

  /** The sorted finished forms of the kept rows: sorted, of the right width, and exactly the kept rows finished. */
  lemma FinalRows(read: seq<IndexedRow>, rows: seq<DroneRow>, width: nat)
    requires forall i :: 0 <= i < |read| ==> |read[i].cells| == width
    requires rows == Seqs.SortBy(Seqs.Map(Seqs.Filter(read, Kept), Final), YearKey, false)
    ensures Seqs.SortedBy(rows, YearKey, false)
    ensures forall j :: 0 <= j < |rows| ==> |rows[j].cells| == width
    ensures forall j :: 0 <= j < |rows| ==> exists i :: 0 <= i < |read| && Kept(read[i]) && rows[j] == Final(read[i])
    ensures forall i :: 0 <= i < |read| && Kept(read[i]) ==> Final(read[i]) in rows
  {
    Seqs.SortedImages(read, Kept, Final, YearKey, false);
    FinalWidths(read, rows, width);
  }

  /** Finished forms of rows of one width have that width. */
  lemma FinalWidths(read: seq<IndexedRow>, rows: seq<DroneRow>, width: nat)
    requires forall i :: 0 <= i < |read| ==> |read[i].cells| == width
    requires forall j :: 0 <= j < |rows| ==> exists i :: 0 <= i < |read| && Kept(read[i]) && rows[j] == Final(read[i])
    ensures forall j :: 0 <= j < |rows| ==> |rows[j].cells| == width
  {
    forall j | 0 <= j < |rows| ensures |rows[j].cells| == width {
      var i :| 0 <= i < |read| && Kept(read[i]) && rows[j] == Final(read[i]);
    }
  }

  /** A loaded table has lost its Year column and its rows are those of RowsSpec. */
  lemma DroneShape(fileExists: bool, raw: Frame)
    requires Rectangular(raw)
    ensures DroneSpec(fileExists, raw).Some? ==>
      var k := ColumnIndex(raw.names, IndexName);
      var f := DroneSpec(fileExists, raw).value;
      && fileExists && k < |raw.names| && f.names == Seqs.Without(raw.names, k)
      && Some(f.rows) == RowsSpec(ReadIndexed(raw.rows, k))
      && (forall j :: 0 <= j < |f.rows| ==> |f.rows[j].cells| == |f.names|)
  {
    if DroneSpec(fileExists, raw).Some? {
      var k := ColumnIndex(raw.names, IndexName);
      RowsOutput(ReadIndexed(raw.rows, k), |raw.names| - 1);
    }
  }

  /** df.index.max() is the year of the last row of the sorted table. */
  lemma LatestIsLast(rows: seq<DroneRow>)
    requires rows != [] && Seqs.SortedBy(rows, YearKey, false)
    ensures forall i :: 0 <= i < |rows| ==> rows[i].year <= rows[|rows| - 1].year
  {
    forall i | 0 <= i < |rows| ensures rows[i].year <= rows[|rows| - 1].year {
      if i < |rows| - 1 {
        assert Seqs.Ordered(rows[i], rows[|rows| - 1], YearKey, false);
      }
    }
  }

  /** The application-market columns the chart looks for, in chart order. */
  const AppCols: seq<string> := ["App_Market_Agriculture", "App_Market_Surveying", "App_Market_Security", "App_Market_Logistics", "App_Market_Filming"]

  const AppLabels: map<string, string> := map[
    "App_Market_Agriculture" := "精准农业", "App_Market_Surveying" := "测绘勘探",
    "App_Market_Security" := "安防巡逻", "App_Market_Logistics" := "物流配送", "App_Market_Filming" := "影视航拍"]

  /** app_labels_map.get(col, col). */
  function Label(col: string): string {
    if col in AppLabels then AppLabels[col] else col
  }

  function InTable(names: seq<string>): string -> bool {
    (c: string) => c in names
  }

  /** [col for col in app_cols if col in df.columns]: the listed columns present, in list order. */
  function ExistingAppCols(names: seq<string>): (cols: seq<string>)
    ensures Seqs.IsSubseq(cols, AppCols)
    ensures forall c :: c in cols <==> c in AppCols && c in names
  {
    Seqs.FilterIsSubseq(AppCols, InTable(names));
    Seqs.Filter(AppCols, InTable(names))
  }

  /** The legend labels: one per present column, always taken from the map. */
  function PlotLabels(names: seq<string>): (labels: seq<string>)
    ensures var cols := ExistingAppCols(names);
      |labels| == |cols| && forall i :: 0 <= i < |cols| ==> cols[i] in AppLabels && labels[i] == AppLabels[cols[i]]
  {
    Seqs.Map(ExistingAppCols(names), Label)
  }
}
