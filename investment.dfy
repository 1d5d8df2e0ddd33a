/**
 * The R&D investment dashboard built on the loaded NSF table: the year
 * slider and the rows it selects, the latest-year summary with its
 * ten-year growth figure, the default years offered for the sector
 * comparison and the per-year pie charts of R&D performers.
 */
module Investment {
  import opened Wrappers
  import opened Cells
  import opened Frames
  import opened NsfLoader
  import Seqs

  /** Rows as load_data returns them: 14 cells each, the year an integer. */
  predicate Loaded(rows: seq<seq<Cell>>) {
    forall i :: 0 <= i < |rows| ==> |rows[i]| == |Columns| && rows[i][YearCol].Whole?
  }

  /** A successful load gives rows of this shape. */
  lemma LoadedAfterLoad(raw: Frame, conv: Cell -> Option<Cell>)
    requires Rectangular(raw) && LoadSpec(raw, conv).Ok?
    ensures Loaded(LoadSpec(raw, conv).value.rows)
  {
    LoadContents(raw, conv, LoadSpec(raw, conv).value);
  }

  /** The dashboard's load_data: any exception is reported and None returned. */
  method LoadOrNone(raw: Frame) returns (r: Option<Frame>)
    requires Rectangular(raw)
    ensures r.Some? <==> LoadSpec(raw, CellToFloat).Ok?
    ensures r.Some? ==> r.value == LoadSpec(raw, CellToFloat).value && Loaded(r.value.rows)
  {
    var loaded := Load(raw);
    match loaded
    case Ok(f) =>
      LoadedAfterLoad(raw, CellToFloat);
      r := Some(f);
    case Err(_) =>
      r := None;
  }

  function Year(row: seq<Cell>): int
    requires |row| > 0 && row[YearCol].Whole?
  {
    row[YearCol].i
  }

  /** The row's year is y. */
  predicate IsYear(row: seq<Cell>, y: int) {
    |row| > 0 && row[YearCol].Whole? && row[YearCol].i == y
  }

  /** df['Year'] as a list. */
  function Years(rows: seq<seq<Cell>>): (ys: seq<int>)
    requires Loaded(rows)
    ensures |ys| == |rows| && forall i :: 0 <= i < |rows| ==> ys[i] == Year(rows[i])
  {
    seq(|rows|, i requires 0 <= i < |rows| => Year(rows[i]))
  }

  /**
   * int(df['Year'].min()): the smallest year, one that some row has. On a
   * table without rows the minimum is NaN and int() raises; that is None.
   */
  function MinYear(rows: seq<seq<Cell>>): (m: Option<int>)
    requires Loaded(rows)
    ensures m.None? <==> rows == []
    ensures m.Some? ==> exists i :: 0 <= i < |rows| && Year(rows[i]) == m.value
    ensures m.Some? ==> forall i :: 0 <= i < |rows| ==> m.value <= Year(rows[i])
  {
    if rows == [] then None
    else
      var m := MinYear(rows[1..]);
      assert forall i :: 1 <= i < |rows| ==> rows[i] == rows[1..][i - 1];
      if m.None? || Year(rows[0]) <= m.value then Some(Year(rows[0])) else m
  }

  /** df['Year'].max(): the largest year, one that some row has. */
  function MaxYear(rows: seq<seq<Cell>>): (m: int)
    requires Loaded(rows) && rows != []
    ensures exists i :: 0 <= i < |rows| && Year(rows[i]) == m
    ensures forall i :: 0 <= i < |rows| ==> Year(rows[i]) <= m
  {
    if |rows| == 1 then Year(rows[0])
    else
      var m := MaxYear(rows[1..]);
      assert forall i :: 1 <= i < |rows| ==> rows[i] == rows[1..][i - 1];
      if Year(rows[0]) >= m then Year(rows[0]) else m
  }

  /** The mask (df['Year'] >= lo) & (df['Year'] <= hi). */
  function InRange(lo: int, hi: int): seq<Cell> -> bool {
    (row: seq<Cell>) => |row| > 0 && row[YearCol].Whole? && lo <= row[YearCol].i <= hi
  }

  /** The rows the year slider selects: exactly those with lo <= Year <= hi, in their original order. */
  function YearFilter(rows: seq<seq<Cell>>, lo: int, hi: int): (r: seq<seq<Cell>>)
    requires Loaded(rows)
    ensures Loaded(r)
    ensures Seqs.IsSubseq(r, rows)
    ensures forall i :: 0 <= i < |r| ==> lo <= Year(r[i]) <= hi && r[i] in rows
    ensures forall i :: 0 <= i < |rows| && lo <= Year(rows[i]) <= hi ==> rows[i] in r
  {
    Seqs.FilterIsSubseq(rows, InRange(lo, hi));
    Seqs.Filter(rows, InRange(lo, hi))
  }

  /** The position of the first row of year y (df[df['Year'] == y].values[0]), or |rows| when there is none. */
  function FirstWithYear(rows: seq<seq<Cell>>, y: int): (k: nat)
    ensures k <= |rows|
    ensures k < |rows| ==> IsYear(rows[k], y)
    ensures forall j :: 0 <= j < k ==> !IsYear(rows[j], y)
  {
    if rows == [] then 0 else if IsYear(rows[0], y) then 0 else 1 + FirstWithYear(rows[1..], y)
  }

  /** A filter that keeps every row of year y keeps the first of them. */
  lemma {:induction false} FirstWithYearFilter(rows: seq<seq<Cell>>, p: seq<Cell> -> bool, y: int)
    requires forall i :: 0 <= i < |rows| && IsYear(rows[i], y) ==> p(rows[i])
    ensures var s := Seqs.Filter(rows, p); var k := FirstWithYear(s, y); var k0 := FirstWithYear(rows, y);
      (k < |s| <==> k0 < |rows|) && (k < |s| ==> s[k] == rows[k0])
  {
    if rows != [] {
      var t := rows[1..];
      var s := Seqs.Filter(rows, p);
      var st := Seqs.Filter(t, p);
      if IsYear(rows[0], y) {
        assert p(rows[0]);
        assert s == [rows[0]] + st;
      } else {
        assert forall i :: 0 <= i < |t| ==> t[i] == rows[i + 1];
        FirstWithYearFilter(t, p, y);
        var k, k0 := FirstWithYear(st, y), FirstWithYear(t, y);
        assert FirstWithYear(rows, y) == 1 + k0;
        if k0 < |t| {
          assert rows[1 + k0] == t[k0];
        }
        if p(rows[0]) {
          assert s == [rows[0]] + st;
          assert FirstWithYear(s, y) == 1 + k;
          if k < |st| {
            assert s[1 + k] == st[k];
          }
        } else {
          assert s == st;
        }
      }
    }
  }

  // ---------------------------------------------------------------------
  // The latest-year summary

  /** What the three metric cards show: the latest year, its row, and the row ten years earlier that the growth is taken against (None shows N/A). */
  datatype Shown = Shown(latestYear: int, latest: seq<Cell>, base: Option<seq<Cell>>)

  /**
   * The exceptions that end the page: int() of the NaN minimum of a table
   * without rows, and .values[0] of an empty selection.
   */
  datatype SummaryError = ValueError | IndexError

  /**
   * The summary as written: the latest year and its first row come from
   * the filtered rows, but the growth guard compares latest_year - 10 with
   * min_year, the first year of the whole table, before the row of that
   * year is looked up in the filtered rows.
   */
  function SummaryAsWritten(minYear: int, filtered: seq<seq<Cell>>): (r: Result<Shown, SummaryError>)
    requires Loaded(filtered)
    ensures filtered == [] ==> r == Err(IndexError)
    ensures r.Ok? ==> r.value.latestYear == MaxYear(filtered) && r.value.latest in filtered
    ensures r.Ok? ==> Year(r.value.latest) == r.value.latestYear
    ensures r.Ok? ==> (r.value.base.Some? <==> r.value.latestYear - 10 >= minYear)
  {
    if filtered == [] then Err(IndexError)
    else
      var latest := MaxYear(filtered);
      var top := FirstWithYear(filtered, latest);
      if latest - 10 >= minYear then
        var b := FirstWithYear(filtered, latest - 10);
        if b == |filtered| then Err(IndexError)
        else Ok(Shown(latest, filtered[top], Some(filtered[b])))
      else Ok(Shown(latest, filtered[top], None))
  }

  /**
   * The summary as intended: the growth is shown when the filtered rows
   * hold the year ten years before the latest one, and N/A otherwise.
   */
  function Summary(filtered: seq<seq<Cell>>): (r: Result<Shown, SummaryError>)
    requires Loaded(filtered)
    ensures r.Err? <==> filtered == []
    ensures r.Ok? ==> r.value.latest in filtered && Year(r.value.latest) == r.value.latestYear
    ensures r.Ok? && r.value.base.Some? ==>
      r.value.base.value in filtered && Year(r.value.base.value) == r.value.latestYear - 10
  {
    if filtered == [] then Err(IndexError)
    else
      var latest := MaxYear(filtered);
      var top := FirstWithYear(filtered, latest);
      var b := FirstWithYear(filtered, latest - 10);
      Ok(Shown(latest, filtered[top], if b == |filtered| then None else Some(filtered[b])))
  }

  /**
   * The intended summary fails only on an empty selection. It shows the
   * first row of the latest year, and a growth base exactly when some
   * selected row is ten years older, namely the first such row.
   */
  lemma SummaryShows(filtered: seq<seq<Cell>>)
    requires Loaded(filtered)
    ensures Summary(filtered).Err? <==> filtered == []
    ensures Summary(filtered).Ok? ==>
      var s := Summary(filtered).value;
      && (forall i :: 0 <= i < |filtered| ==> Year(filtered[i]) <= s.latestYear)
      && (exists k :: 0 <= k < |filtered| && filtered[k] == s.latest && Year(s.latest) == s.latestYear
            && forall j :: 0 <= j < k ==> Year(filtered[j]) != s.latestYear)
      && (s.base.Some? <==> exists i :: 0 <= i < |filtered| && Year(filtered[i]) == s.latestYear - 10)
      && (s.base.Some? ==>
            exists k :: (0 <= k < |filtered| && filtered[k] == s.base.value
              && Year(s.base.value) == s.latestYear - 10
              && forall j :: 0 <= j < k ==> Year(filtered[j]) != s.latestYear - 10))
  {
    if filtered != [] {
      var latest := MaxYear(filtered);
      var top := FirstWithYear(filtered, latest);
      var b := FirstWithYear(filtered, latest - 10);
      var s := Summary(filtered).value;
      assert s == Shown(latest, filtered[top], if b == |filtered| then None else Some(filtered[b]));
      FirstOfYear(filtered, latest);
      FirstOfYear(filtered, latest - 10);
      assert filtered[top] == s.latest;
      if b < |filtered| {
        assert filtered[b] == s.base.value;
      }
    }
  }

  /** The first row of year y is found exactly when some row has year y. */
  lemma FirstOfYear(rows: seq<seq<Cell>>, y: int)
    requires Loaded(rows)
    ensures var k := FirstWithYear(rows, y);
      && (k < |rows| <==> exists i :: 0 <= i < |rows| && Year(rows[i]) == y)
      && (k < |rows| ==> Year(rows[k]) == y && forall j :: 0 <= j < k ==> Year(rows[j]) != y)
  {
    var k := FirstWithYear(rows, y);
    if exists i :: 0 <= i < |rows| && Year(rows[i]) == y {
      var i :| 0 <= i < |rows| && Year(rows[i]) == y;
      assert IsYear(rows[i], y);
    }
    forall j | 0 <= j < k ensures Year(rows[j]) != y {
      assert !IsYear(rows[j], y);
    }
  }

  /**
   * The page from the slider bounds on, as written: a table without rows
   * raises before the slider is drawn; otherwise the summary of the
   * selected rows is taken with the whole table's min_year as the guard.
   * What it shows is a selected row of the table.
   */
  function PageAsWritten(df: seq<seq<Cell>>, lo: int, hi: int): (r: Result<Shown, SummaryError>)
    requires Loaded(df)
    ensures r == Err(ValueError) <==> df == []
    ensures r.Ok? ==> lo <= r.value.latestYear <= hi && r.value.latest in df && Year(r.value.latest) == r.value.latestYear
    ensures r.Ok? ==> (r.value.base.Some? <==> r.value.latestYear - 10 >= MinYear(df).value)
  {
    match MinYear(df)
    case None => Err(ValueError)
    case Some(minYear) =>
      var filtered := YearFilter(df, lo, hi);
      SummaryAsWritten(minYear, filtered)
  }

  /**
   * Wherever the page as written shows a summary, the intended one shows
   * the same: a failed guard means no selected row can be ten years older
   * than the latest, since every selected year is at least min_year.
   */
  lemma SummaryAgrees(df: seq<seq<Cell>>, lo: int, hi: int)
    requires Loaded(df)
    requires PageAsWritten(df, lo, hi).Ok?
    ensures PageAsWritten(df, lo, hi) == Summary(YearFilter(df, lo, hi))
  {
    var filtered := YearFilter(df, lo, hi);
    var minYear := MinYear(df).value;
    forall i | 0 <= i < |filtered| ensures minYear <= Year(filtered[i]) {
      var j :| 0 <= j < |df| && df[j] == filtered[i];
    }
    SummaryAgreesAbove(minYear, filtered);
  }

  /** The same, for any rows whose years are all at least minYear. */
  lemma SummaryAgreesAbove(minYear: int, filtered: seq<seq<Cell>>)
    requires Loaded(filtered) && forall i :: 0 <= i < |filtered| ==> minYear <= Year(filtered[i])
    requires SummaryAsWritten(minYear, filtered).Ok?
    ensures SummaryAsWritten(minYear, filtered) == Summary(filtered)
  {
  }

  /** A loaded row with the given year and every other cell missing. */
  function RowOf(y: int): (row: seq<Cell>)
    ensures |row| == |Columns| && IsYear(row, y)
  {
    [Whole(y)] + seq(|Columns| - 1, _ => Missing)
  }

  /**
   * A table of 2000, 2010 and 2020 with the slider at 2015..2020: the guard
   * passes (2010 >= 2000), but 2010 is not selected, so the page raises;
   * the intended summary shows N/A instead.
   */
  lemma GuardIndexError()
    ensures var df := [RowOf(2000), RowOf(2010), RowOf(2020)];
      && Loaded(df)
      && PageAsWritten(df, 2015, 2020) == Err(IndexError)
      && Summary(YearFilter(df, 2015, 2020)) == Ok(Shown(2020, RowOf(2020), None))
  {
    var df := [RowOf(2000), RowOf(2010), RowOf(2020)];
    assert Loaded(df);
    var filtered := YearFilter(df, 2015, 2020);
    assert filtered == [RowOf(2020)] by {
      assert !InRange(2015, 2020)(RowOf(2000));
      assert !InRange(2015, 2020)(RowOf(2010));
      assert InRange(2015, 2020)(RowOf(2020));
      assert df[1..] == [RowOf(2010), RowOf(2020)];
      assert df[1..][1..] == [RowOf(2020)];
    }
    assert MinYear(df) == Some(2000) by {
      assert Year(df[0]) == 2000 && Year(df[1]) == 2010 && Year(df[2]) == 2020;
    }
    assert MaxYear(filtered) == 2020;
    assert !IsYear(RowOf(2020), 2010);
    assert FirstWithYear(filtered, 2010) == 1;
  }

  // ---------------------------------------------------------------------
  // Sector comparison

  /** sorted(filtered_df['Year'].unique()). */
  function AvailableYears(rows: seq<seq<Cell>>): (ys: seq<int>)
    requires Loaded(rows)
    ensures Seqs.StrictlySorted(ys, Seqs.IntLess)
    ensures forall i :: 0 <= i < |ys| ==> exists j :: 0 <= j < |rows| && Year(rows[j]) == ys[i]
    ensures forall j :: 0 <= j < |rows| ==> Year(rows[j]) in ys
  {
    Seqs.IntLessStrictTotal();
    var ys := Seqs.SortedDistinct(Years(rows), Seqs.IntLess);
    assert forall i :: 0 <= i < |ys| ==> ys[i] in Years(rows);
    assert forall j :: 0 <= j < |rows| ==> Years(rows)[j] in ys;
    ys
  }

  /** The years preselected for comparison: indices 0, n//3, 2n//3 and -1 when there are at least four, else all. */
  function DefaultComparisonYears(ys: seq<int>): (d: seq<int>)
    ensures |d| == (if |ys| >= 4 then 4 else |ys|)
    ensures |ys| >= 4 ==> d[0] == ys[0] && d[3] == ys[|ys| - 1]
    ensures forall i :: 0 <= i < |d| ==> d[i] in ys
  {
    var n := |ys|;
    if n >= 4 then [ys[0], ys[n / 3], ys[2 * n / 3], ys[n - 1]] else ys
  }

  /** From at least four increasing years the defaults are four increasing years, from the first to the last; fewer years are all offered. */
  lemma DefaultYearsSpread(ys: seq<int>)
    requires Seqs.StrictlySorted(ys, Seqs.IntLess)
    ensures var d := DefaultComparisonYears(ys);
      && (|ys| < 4 ==> d == ys)
      && (|ys| >= 4 ==>
            && |d| == 4 && d[0] == ys[0] && d[3] == ys[|ys| - 1]
            && Seqs.StrictlySorted(d, Seqs.IntLess)
            && forall i :: 0 <= i < 4 ==> d[i] in ys)
  {
    var n := |ys|;
    if n >= 4 {
      assert 0 < n / 3 < 2 * n / 3 < n - 1;
      assert Seqs.IntLess(ys[0], ys[n / 3]);
      assert Seqs.IntLess(ys[n / 3], ys[2 * n / 3]);
      assert Seqs.IntLess(ys[2 * n / 3], ys[n - 1]);
    }
  }

  /** One performer pie: the year and its business, federal, higher-education and other shares. */
  datatype Pie = Pie(year: int, values: seq<Cell>)

  const PerfCols: seq<nat> := [7, 8, 9, 10]

  /** The four RD_Perf_* cells of a row. */
  function PerfValues(row: seq<Cell>): (v: seq<Cell>)
    requires |row| == |Columns|
    ensures |v| == |PerfCols| && forall k :: 0 <= k < |PerfCols| ==> v[k] == row[PerfCols[k]]
  {
    [row[7], row[8], row[9], row[10]]
  }

  /** The year's key for sorted(): its value. */
  function YearKey(y: int): real { y as real }

  /** The year is one of the selected ones: df['Year'].isin(selected). */
  function InSelection(selected: seq<int>): seq<Cell> -> bool {
    (row: seq<Cell>) => |row| > 0 && row[YearCol].Whole? && row[YearCol].i in selected
  }

  /** The pies drawn for the years ys, in that order: one for each year that has a row, from its first row. */
  function PieSpec(rows: seq<seq<Cell>>, ys: seq<int>): seq<Pie>
    requires Loaded(rows)
  {
    if ys == [] then [] else PieSpec(rows, ys[..|ys| - 1]) + PieOf(rows, ys[|ys| - 1])
  }

  /** The pie of year y, if the year has a row. */
  function PieOf(rows: seq<seq<Cell>>, y: int): seq<Pie>
    requires Loaded(rows)
  {
    var k := FirstWithYear(rows, y);
    if k < |rows| then [Pie(y, PerfValues(rows[k]))] else []
  }

  /**
   * The pie loop: comp_df holds the selected years, and for each year of
   * sorted(selected) that has a row a pie is drawn from its first row.
   */
  method PieCharts(filtered: seq<seq<Cell>>, selected: seq<int>) returns (pies: seq<Pie>)
    requires Loaded(filtered)
    ensures pies == PieSpec(filtered, Seqs.SortBy(selected, YearKey, false))
  {
    var comp := Seqs.Filter(filtered, InSelection(selected));
    FilterLoaded(filtered, InSelection(selected));
    var years := Seqs.SortBy(selected, YearKey, false);
    pies := [];
    var k := 0;
    while k < |years|
      invariant 0 <= k <= |years|
      invariant pies == PieSpec(filtered, years[..k])
    {
      var y := years[k];
      assert y in multiset(years);
      PieStep(filtered, selected, years, k);
      var i := FirstWithYear(comp, y);
      if i < |comp| {
        pies := pies + [Pie(y, PerfValues(comp[i]))];
      }
      k := k + 1;
    }
    assert years[..k] == years;
  }

  /** The selected rows are loaded rows. */
  lemma FilterLoaded(rows: seq<seq<Cell>>, p: seq<Cell> -> bool)
    requires Loaded(rows)
    ensures Loaded(Seqs.Filter(rows, p))
  {
    var r: seq<seq<Cell>> := Seqs.Filter(rows, p);
    forall i: nat | i < |r| ensures |r[i]| == |Columns| && r[i][YearCol].Whole? {
      var j :| 0 <= j < |rows| && rows[j] == r[i];
    }
  }

  /** One step of the pie loop: the pie of a selected year comes from the first of its rows among the selected rows. */
  lemma PieStep(filtered: seq<seq<Cell>>, selected: seq<int>, years: seq<int>, k: nat)
    requires Loaded(filtered) && k < |years| && years[k] in selected
    requires Loaded(Seqs.Filter(filtered, InSelection(selected)))
    ensures var comp := Seqs.Filter(filtered, InSelection(selected));
      var i := FirstWithYear(comp, years[k]);
      PieSpec(filtered, years[..k + 1]) ==
        PieSpec(filtered, years[..k]) + (if i < |comp| then [Pie(years[k], PerfValues(comp[i]))] else [])
  {
    FirstWithYearFilter(filtered, InSelection(selected), years[k]);
    assert years[..k + 1][..k] == years[..k];
  }

  /** The pie is for a listed year that has a row, and holds the shares of its first row. */
  predicate DrawnFrom(rows: seq<seq<Cell>>, ys: seq<int>, p: Pie)
    requires Loaded(rows)
  {
    p.year in ys && FirstWithYear(rows, p.year) < |rows| && p.values == PerfValues(rows[FirstWithYear(rows, p.year)])
  }

  /** Each pie is for a listed year that has a row, and holds the shares of its first row. */
  lemma {:induction false} PieFromFirstRow(rows: seq<seq<Cell>>, ys: seq<int>)
    requires Loaded(rows)
    ensures forall i :: 0 <= i < |PieSpec(rows, ys)| ==> DrawnFrom(rows, ys, PieSpec(rows, ys)[i])
  {
    if ys != [] {
      var init := ys[..|ys| - 1];
      PieFromFirstRow(rows, init);
      var before := PieSpec(rows, init);
      var pies := PieSpec(rows, ys);
      assert pies == before + PieOf(rows, ys[|ys| - 1]);
      forall i | 0 <= i < |pies|
        ensures DrawnFrom(rows, ys, pies[i])
      {
        if i < |before| {
          assert pies[i] == before[i];
          assert DrawnFrom(rows, init, before[i]);
          var m :| 0 <= m < |init| && init[m] == before[i].year;
          assert ys[m] == init[m];
        } else {
          assert pies[i] == PieOf(rows, ys[|ys| - 1])[0];
        }
      }
    }
  }

  /** Over years in increasing order, the pies come in increasing year order. */
  lemma {:induction false} PieOrder(rows: seq<seq<Cell>>, ys: seq<int>)
    requires Loaded(rows) && Seqs.SortedBy(ys, YearKey, false)
    ensures forall i, j :: 0 <= i < j < |PieSpec(rows, ys)| ==> PieSpec(rows, ys)[i].year <= PieSpec(rows, ys)[j].year
  {
    if ys != [] {
      var init := ys[..|ys| - 1];
      var y := ys[|ys| - 1];
      assert Seqs.SortedBy(init, YearKey, false) by {
        forall i, j | 0 <= i < j < |init| ensures Seqs.Ordered(init[i], init[j], YearKey, false) {
          assert init[i] == ys[i] && init[j] == ys[j];
        }
      }
      PieOrder(rows, init);
      PieFromFirstRow(rows, init);
      var before := PieSpec(rows, init);
      var pies := PieSpec(rows, ys);
      assert pies == before + PieOf(rows, y);
      forall i | 0 <= i < |before| ensures before[i].year <= y {
        assert DrawnFrom(rows, init, before[i]);
        var m :| 0 <= m < |init| && init[m] == before[i].year;
        assert Seqs.Ordered(ys[m], ys[|ys| - 1], YearKey, false);
      }
      forall i, j | 0 <= i < j < |pies| ensures pies[i].year <= pies[j].year {
        assert pies[i] == before[i];
        if j < |before| { assert pies[j] == before[j]; } else { assert pies[j].year == y; }
      }
    }
  }

  predicate HasPie(pies: seq<Pie>, y: int) {
    exists i :: 0 <= i < |pies| && pies[i].year == y
  }

  /** Every listed year that has a row gets a pie. */
  lemma {:induction false} PieForEveryYear(rows: seq<seq<Cell>>, ys: seq<int>)
    requires Loaded(rows)
    ensures forall y :: y in ys && FirstWithYear(rows, y) < |rows| ==> HasPie(PieSpec(rows, ys), y)
  {
    if ys != [] {
      var init := ys[..|ys| - 1];
      PieForEveryYear(rows, init);
      var before := PieSpec(rows, init);
      var pies := PieSpec(rows, ys);
      assert pies == before + PieOf(rows, ys[|ys| - 1]);
      forall x | x in ys && FirstWithYear(rows, x) < |rows|
        ensures HasPie(pies, x)
      {
        var m :| 0 <= m < |ys| && ys[m] == x;
        if m < |ys| - 1 {
          assert init[m] == x;
          assert HasPie(before, x);
          var i :| 0 <= i < |before| && before[i].year == x;
          assert pies[i] == before[i];
        } else {
          assert pies[|before|].year == x;
        }
      }
    }
  }
}
