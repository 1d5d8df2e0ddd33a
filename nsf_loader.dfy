/**
 * load_data of the R&D dashboard and of the stand-alone chart script:
 * the NSF table (GDP and R&D spending by year) is renamed by position,
 * rows without a year are dropped, footnote letters are deleted from the
 * year before it is read as an integer, and every column except Year and
 * Deflator loses its thousands separators and is read as a float.
 */
module NsfLoader {
  import opened Wrappers
  import opened Text
  import opened Cells
  import opened Frames
  import Seqs

  /** The 14 names the columns receive, in order. */
  const Columns: seq<string> := [
    "Year", "GDP_Current", "GDP_Constant", "Deflator", "RD_Current", "RD_Constant",
    "RD_GDP_Total", "RD_Perf_Business", "RD_Perf_Federal", "RD_Perf_HigherEd", "RD_Perf_Other",
    "RD_Fund_Business", "RD_Fund_Federal", "RD_Fund_Other"]

  const YearCol: nat := 0
  const DeflatorCol: nat := 3

  /** Why a load fails: the exception pandas or Python raises. */
  datatype LoadError =
    | LengthMismatch(expected: nat, found: nat)  // df.columns = [...] with the wrong count
    | BadYear                                     // astype(int) on a year that is not an integer
    | BadNumber(column: string)                   // astype(float) on a cell that is not a number

  /** The columns whose cells stay as read. */
  predicate Skipped(name: string) {
    name == "Year" || name == "Deflator"
  }

  /** dropna(subset=['Year']). */
  predicate HasYear(row: seq<Cell>) {
    |row| > 0 && !row[0].Missing?
  }

  /** str.replace('[a-zA-Z]', '', regex=True) then astype(int), on one Year cell. */
  function YearOf(c: Cell): (r: Option<int>)
    ensures c.Str? ==> r == ParseInt(DeleteLetters(c.s))
    ensures !c.Str? ==> r == None
  {
    match c
    case Str(s) => ParseInt(DeleteLetters(s))
    case _ => None
  }

  /**
   * astype(str).str.replace(',', '').astype(float) on one cell. A missing
   * cell prints as "nan" and reads back as missing; a float prints as its
   * shortest repr, which reads back as the same float.
   */
  function CellToFloat(c: Cell): (r: Option<Cell>)
    ensures r.Some? ==> r.value.Missing? || r.value.Float?
    ensures c.Missing? ==> r == Some(Missing)
    ensures c.Str? ==> r == ParseFloat(StripCommas(c.s))
  {
    match c
    case Missing => Some(Missing)
    case Str(s) => ParseFloat(StripCommas(s))
    case Whole(i) => ParseFloat(StripCommas(IntToDecimal(i)))
    case Float(n) => Some(Float(n))
  }

  /** What the conversion step leaves in a cell of the named column, given that conv succeeds on it. */
  function Converted(name: string, c: Cell, conv: Cell -> Option<Cell>): Cell {
    if Skipped(name) then c
    else match conv(c)
      case Some(v) => v
      case None => c
  }

  /** Column j is skipped, or conv succeeds on every one of its cells. */
  predicate ColumnOk(names: seq<string>, rows: seq<seq<Cell>>, j: nat, conv: Cell -> Option<Cell>)
    requires j < |names| && forall i :: 0 <= i < |rows| ==> |rows[i]| == |names|
  {
    Skipped(names[j]) || forall i :: 0 <= i < |rows| ==> conv(rows[i][j]).Some?
  }

  /** The first column at or after j holding a cell conv fails on, or |names|. */
  function FirstBadColumn(names: seq<string>, rows: seq<seq<Cell>>, j: nat, conv: Cell -> Option<Cell>): (k: nat)
    requires j <= |names| && forall i :: 0 <= i < |rows| ==> |rows[i]| == |names|
    ensures j <= k <= |names|
    ensures forall m :: j <= m < k ==> ColumnOk(names, rows, m, conv)
    ensures k < |names| ==> !ColumnOk(names, rows, k, conv)
    decreases |names| - j
  {
    if j == |names| then j
    else if ColumnOk(names, rows, j, conv) then FirstBadColumn(names, rows, j + 1, conv)
    else j
  }

  /**
   * The column step stated cell by cell: BadNumber for the first column
   * holding a cell conv fails on, otherwise every cell of every column
   * that is not skipped replaced by its conversion.
   */
  function ConvertSpec(names: seq<string>, rows: seq<seq<Cell>>, conv: Cell -> Option<Cell>): (r: Result<seq<seq<Cell>>, LoadError>)
    requires forall i :: 0 <= i < |rows| ==> |rows[i]| == |names|
  {
    var k := FirstBadColumn(names, rows, 0, conv);
    if k < |names| then Err(BadNumber(names[k]))
    else Ok(seq(|rows|, i requires 0 <= i < |rows| =>
              seq(|names|, j requires 0 <= j < |names| => Converted(names[j], rows[i][j], conv))))
  }

  /** df holds rows with the columns before j converted and the others as they were. */
  predicate ConvertedUpTo(names: seq<string>, rows: seq<seq<Cell>>, df: seq<seq<Cell>>, j: nat, conv: Cell -> Option<Cell>) {
    && |df| == |rows|
    && (forall i :: 0 <= i < |rows| ==> |rows[i]| == |names| && |df[i]| == |names|)
    && (forall i, m :: 0 <= i < |rows| && 0 <= m < j && m < |names| ==> df[i][m] == Converted(names[m], rows[i][m], conv))
    && (forall i, m :: 0 <= i < |rows| && j <= m < |names| ==> df[i][m] == rows[i][m])
  }

  /** df[col] = conv applied to every cell of column j. */
  function ConvertColumn(df: seq<seq<Cell>>, j: nat, conv: Cell -> Option<Cell>): (r: seq<seq<Cell>>)
    requires forall i :: 0 <= i < |df| ==> j < |df[i]| && conv(df[i][j]).Some?
    ensures |r| == |df| && forall i :: 0 <= i < |df| ==> r[i] == df[i][j := conv(df[i][j]).value]
  {
    seq(|df|, i requires 0 <= i < |df| => df[i][j := conv(df[i][j]).value])
  }

  lemma {:induction false} ConvertStep(names: seq<string>, rows: seq<seq<Cell>>, df: seq<seq<Cell>>, j: nat, conv: Cell -> Option<Cell>)
    requires j < |names| && ConvertedUpTo(names, rows, df, j, conv)
    requires ColumnOk(names, rows, j, conv)
    ensures Skipped(names[j]) ==> ConvertedUpTo(names, rows, df, j + 1, conv)
    ensures !Skipped(names[j]) ==> ConvertedUpTo(names, rows, ConvertColumn(df, j, conv), j + 1, conv)
  {
    if !Skipped(names[j]) {
      var next := ConvertColumn(df, j, conv);
      forall i, m | 0 <= i < |rows| && 0 <= m < j + 1 && m < |names|
        ensures next[i][m] == Converted(names[m], rows[i][m], conv)
      {
        assert next[i] == df[i][j := conv(df[i][j]).value];
        if m == j {
          assert df[i][j] == rows[i][j];
          assert conv(rows[i][j]).Some?;
        }
      }
      forall i, m | 0 <= i < |rows| && j + 1 <= m < |names|
        ensures next[i][m] == rows[i][m]
      {
        assert next[i] == df[i][j := conv(df[i][j]).value];
      }
    } else {
      forall i | 0 <= i < |rows|
        ensures df[i][j] == Converted(names[j], rows[i][j], conv)
      {
        assert df[i][j] == rows[i][j];
      }
    }
  }

  /**
   * for col in df.columns: if col is not Year or Deflator, df[col] is
   * replaced by its conversion; the first column with a bad cell raises.
   */
  method ConvertColumns(names: seq<string>, rows: seq<seq<Cell>>, conv: Cell -> Option<Cell>)
    returns (r: Result<seq<seq<Cell>>, LoadError>)
    requires forall i :: 0 <= i < |rows| ==> |rows[i]| == |names|
    ensures r == ConvertSpec(names, rows, conv)
  {
    var df := rows;
    var j := 0;
    while j < |names|
      invariant 0 <= j <= |names|
      invariant ConvertedUpTo(names, rows, df, j, conv)
      invariant forall m :: 0 <= m < j ==> ColumnOk(names, rows, m, conv)
    {
      var col := names[j];
      if !Skipped(col) {
        if exists i :: 0 <= i < |df| && conv(df[i][j]).None? {
          FirstBadIs(names, rows, j, conv);
          assert ConvertSpec(names, rows, conv) == Err(BadNumber(col));
          return Err(BadNumber(col));
        }
      }
      assert ColumnOk(names, rows, j, conv);
      ConvertStep(names, rows, df, j, conv);
      if !Skipped(col) {
        df := ConvertColumn(df, j, conv);
      }
      j := j + 1;
    }
    FirstBadIs(names, rows, |names|, conv);
    var spec := seq(|rows|, i requires 0 <= i < |rows| =>
                  seq(|names|, m requires 0 <= m < |names| => Converted(names[m], rows[i][m], conv)));
    assert forall i :: 0 <= i < |rows| ==> df[i] == spec[i];
    assert df == spec;
    assert ConvertSpec(names, rows, conv) == Ok(spec);
    r := Ok(df);
  }

  /** The rows after the year step (df['Year'] = ...astype(int)): Year replaced by its integer, or None when astype(int) raises. */
  function ParseYears(rows: seq<seq<Cell>>, yearOf: Cell -> Option<int>): (r: Option<seq<seq<Cell>>>)
    requires forall i :: 0 <= i < |rows| ==> |rows[i]| > 0
    ensures r.Some? <==> forall i :: 0 <= i < |rows| ==> yearOf(rows[i][0]).Some?
    ensures r.Some? ==> |r.value| == |rows| && forall i :: 0 <= i < |rows| ==>
              r.value[i] == rows[i][0 := Whole(yearOf(rows[i][0]).value)]
  {
    if forall i :: 0 <= i < |rows| ==> yearOf(rows[i][0]).Some? then
      Some(seq(|rows|, i requires 0 <= i < |rows| => rows[i][0 := Whole(yearOf(rows[i][0]).value)]))
    else None
  }

  /**
   * What load_data computes: the error of the first step that fails, or
   * the renamed table with the rows that have a year, the year parsed and
   * the other columns but Deflator converted cell by cell with conv
   * (load_data converts with CellToFloat).
   */
  function LoadSpec(raw: Frame, conv: Cell -> Option<Cell>): (r: Result<Frame, LoadError>)
    requires Rectangular(raw)
  {
    if |raw.names| != |Columns| then Err(LengthMismatch(|Columns|, |raw.names|))
    else
      var kept := Seqs.Filter(raw.rows, HasYear);
      match ParseYears(kept, YearOf)
      case None => Err(BadYear)
      case Some(rows) =>
        match ConvertSpec(Columns, rows, conv)
        case Err(e) => Err(e)
        case Ok(converted) => Ok(Frame(Columns, converted))
  }

  /** load_data: rename, drop rows without a year, parse the year, convert the numeric columns. */
  method Load(raw: Frame) returns (r: Result<Frame, LoadError>)
    requires Rectangular(raw)
    ensures r == LoadSpec(raw, CellToFloat)
  {
    if |raw.names| != |Columns| {
      return Err(LengthMismatch(|Columns|, |raw.names|));
    }
    var df := Frame(Columns, raw.rows);
    df := df.(rows := Seqs.Filter(df.rows, HasYear));
    var years := ParseYears(df.rows, YearOf);
    if years.None? {
      return Err(BadYear);
    }
    df := df.(rows := years.value);
    var converted := ConvertColumns(df.names, df.rows, CellToFloat);
    if converted.Err? {
      return Err(converted.error);
    }
    df := df.(rows := converted.value);
    r := Ok(df);
  }

  /** When the columns before j all convert and column j does not (or j is the end), j is the first bad column. */
  lemma {:induction false} FirstBadIs(names: seq<string>, rows: seq<seq<Cell>>, j: nat, conv: Cell -> Option<Cell>)
    requires j <= |names| && forall i :: 0 <= i < |rows| ==> |rows[i]| == |names|
    requires forall m :: 0 <= m < j ==> ColumnOk(names, rows, m, conv)
    requires j < |names| ==> !ColumnOk(names, rows, j, conv)
    ensures FirstBadColumn(names, rows, 0, conv) == j
  {
    FirstBadFrom(names, rows, 0, j, conv);
  }

  lemma {:induction false} FirstBadFrom(names: seq<string>, rows: seq<seq<Cell>>, from: nat, j: nat, conv: Cell -> Option<Cell>)
    requires from <= j <= |names| && forall i :: 0 <= i < |rows| ==> |rows[i]| == |names|
    requires forall m :: from <= m < j ==> ColumnOk(names, rows, m, conv)
    requires j < |names| ==> !ColumnOk(names, rows, j, conv)
    ensures FirstBadColumn(names, rows, from, conv) == j
    decreases j - from
  {
    if from < j {
      FirstBadFrom(names, rows, from + 1, j, conv);
    }
  }

  /** The column step succeeds exactly when conv succeeds on every cell outside the skipped columns; it then holds every cell converted, and otherwise names the first column with a failing cell. */
  lemma {:induction false} ConvertSpecCases(names: seq<string>, rows: seq<seq<Cell>>, conv: Cell -> Option<Cell>)
    requires forall i :: 0 <= i < |rows| ==> |rows[i]| == |names|
    ensures ConvertSpec(names, rows, conv).Ok? <==>
              forall i, j :: 0 <= i < |rows| && 0 <= j < |names| && !Skipped(names[j]) ==> conv(rows[i][j]).Some?
    ensures ConvertSpec(names, rows, conv).Ok? ==>
              var out := ConvertSpec(names, rows, conv).value;
              && |out| == |rows|
              && (forall i :: 0 <= i < |rows| ==> |out[i]| == |names|)
              && (forall i, j :: 0 <= i < |rows| && 0 <= j < |names| ==> out[i][j] == Converted(names[j], rows[i][j], conv))
    ensures ConvertSpec(names, rows, conv).Err? ==>
              exists k, i :: 0 <= k < |names| && 0 <= i < |rows|
                && ConvertSpec(names, rows, conv).error == BadNumber(names[k])
                && !Skipped(names[k]) && conv(rows[i][k]).None?
                && forall m :: 0 <= m < k ==> ColumnOk(names, rows, m, conv)
  {
    var k := FirstBadColumn(names, rows, 0, conv);
    if k < |names| {
      assert !ColumnOk(names, rows, k, conv);
      var i :| 0 <= i < |rows| && conv(rows[i][k]).None?;
      assert !Skipped(names[k]);
    } else {
      forall i, j | 0 <= i < |rows| && 0 <= j < |names| && !Skipped(names[j])
        ensures conv(rows[i][j]).Some?
      {
        assert ColumnOk(names, rows, j, conv);
      }
    }
  }

  /** Every Year cell of the rows reads as an integer. */
  predicate YearsParse(rows: seq<seq<Cell>>)
    requires forall i :: 0 <= i < |rows| ==> |rows[i]| > 0
  {
    forall i :: 0 <= i < |rows| ==> YearOf(rows[i][YearCol]).Some?
  }

  /** Every cell outside Year and Deflator converts to a float. */
  predicate NumbersParse(rows: seq<seq<Cell>>, conv: Cell -> Option<Cell>)
    requires forall i :: 0 <= i < |rows| ==> |rows[i]| == |Columns|
  {
    forall i, j :: 0 <= i < |rows| && 0 <= j < |Columns| && !Skipped(Columns[j]) ==> conv(rows[i][j]).Some?
  }

  /** The rows load_data keeps: those with a year. */
  function Kept(raw: Frame): (kept: seq<seq<Cell>>)
    requires Rectangular(raw)
    ensures forall i :: 0 <= i < |kept| ==> HasYear(kept[i]) && |kept[i]| == |raw.names|
    ensures forall i :: 0 <= i < |raw.rows| && HasYear(raw.rows[i]) ==> raw.rows[i] in kept
    ensures Seqs.IsSubseq(kept, raw.rows)
  {
    Seqs.FilterIsSubseq(raw.rows, HasYear);
    Seqs.Filter(raw.rows, HasYear)
  }

  /**
   * load_data returns a table exactly when the file has 14 columns, every
   * kept row's year reads as an integer and conv succeeds on every kept
   * cell outside Year and Deflator.
   */
  lemma LoadSucceeds(raw: Frame, conv: Cell -> Option<Cell>)
    requires Rectangular(raw)
    ensures LoadSpec(raw, conv).Ok? <==>
              |raw.names| == |Columns| && YearsParse(Kept(raw)) && NumbersParse(Kept(raw), conv)
  {
    var kept := Kept(raw);
    if |raw.names| == |Columns| && YearsParse(kept) {
      var rows := ParseYears(kept, YearOf).value;
      ConvertSpecCases(Columns, rows, conv);
      forall i, j | 0 <= i < |rows| && 0 <= j < |Columns| && !Skipped(Columns[j])
        ensures rows[i][j] == kept[i][j]
      {
        assert j != YearCol;
      }
    }
  }

  /**
   * A loaded table has the 14 names and one row per kept row; the year is
   * the parsed integer, Deflator is as read, and every other cell is what
   * conv makes of the kept cell (for load_data, CellToFloat).
   */
  lemma LoadContents(raw: Frame, conv: Cell -> Option<Cell>, f: Frame)
    requires Rectangular(raw) && LoadSpec(raw, conv) == Ok(f)
    ensures |raw.names| == |Columns| && YearsParse(Kept(raw))
    ensures f.names == Columns && |f.rows| == |Kept(raw)| && Rectangular(f)
    ensures forall i :: 0 <= i < |Kept(raw)| ==> f.rows[i][YearCol] == Whole(YearOf(Kept(raw)[i][YearCol]).value)
    ensures forall i :: 0 <= i < |Kept(raw)| ==> f.rows[i][DeflatorCol] == Kept(raw)[i][DeflatorCol]
    ensures forall i, j :: 0 <= i < |Kept(raw)| && 0 <= j < |Columns| && !Skipped(Columns[j]) ==>
              conv(Kept(raw)[i][j]) == Some(f.rows[i][j])
  {
    var kept := Kept(raw);
    var rows := ParseYears(kept, YearOf).value;
    assert f.rows == ConvertSpec(Columns, rows, conv).value;
    ConvertSpecCases(Columns, rows, conv);
    ConvertedCells(kept, rows, f.rows, conv);
  }

  /** Converting the rows whose year was parsed: Year as parsed, Deflator as read, every other cell converted from the kept cell. */
  lemma ConvertedCells(kept: seq<seq<Cell>>, rows: seq<seq<Cell>>, out: seq<seq<Cell>>, conv: Cell -> Option<Cell>)
    requires forall i :: 0 <= i < |kept| ==> |kept[i]| == |Columns|
    requires |rows| == |kept|
    requires forall i :: 0 <= i < |kept| ==>
               YearOf(kept[i][YearCol]).Some? && rows[i] == kept[i][YearCol := Whole(YearOf(kept[i][YearCol]).value)]
    requires |out| == |rows| && forall i :: 0 <= i < |rows| ==> |out[i]| == |Columns|
    requires forall i, j :: 0 <= i < |rows| && 0 <= j < |Columns| ==> out[i][j] == Converted(Columns[j], rows[i][j], conv)
    requires forall i, j :: 0 <= i < |rows| && 0 <= j < |Columns| && !Skipped(Columns[j]) ==> conv(rows[i][j]).Some?
    ensures forall i :: 0 <= i < |kept| ==> out[i][YearCol] == Whole(YearOf(kept[i][YearCol]).value)
    ensures forall i :: 0 <= i < |kept| ==> out[i][DeflatorCol] == kept[i][DeflatorCol]
    ensures forall i, j :: 0 <= i < |kept| && 0 <= j < |Columns| && !Skipped(Columns[j]) ==> conv(kept[i][j]) == Some(out[i][j])
  {
    assert Skipped(Columns[YearCol]) && Skipped(Columns[DeflatorCol]);
    forall i, j | 0 <= i < |rows| && 0 <= j < |Columns| && !Skipped(Columns[j])
      ensures rows[i][j] == kept[i][j]
    {
      assert j != YearCol;
    }
  }

  /** A BadNumber failure names the first column, left to right, holding a kept cell that does not read as a float. */
  lemma LoadFailsOnFirstBadColumn(raw: Frame, conv: Cell -> Option<Cell>)
    requires Rectangular(raw) && LoadSpec(raw, conv).Err? && LoadSpec(raw, conv).error.BadNumber?
    ensures var kept := Kept(raw);
      exists k, i :: 0 <= k < |Columns| && 0 <= i < |kept|
        && LoadSpec(raw, conv).error.column == Columns[k] && !Skipped(Columns[k])
        && conv(kept[i][k]).None?
        && forall m, i2 :: 0 <= m < k && 0 <= i2 < |kept| && !Skipped(Columns[m]) ==> conv(kept[i2][m]).Some?
  {
    var kept := Kept(raw);
    var rows := ParseYears(kept, YearOf).value;
    assert Skipped(Columns[0]);
    forall i, m | 0 <= i < |rows| && 0 <= m < |Columns| && !Skipped(Columns[m])
      ensures rows[i][m] == kept[i][m]
    {
      assert m != 0;
    }
    BadColumnOfKept(Columns, rows, kept, conv);
  }

  /** The first failing column of rows that agree with kept outside the skipped columns fails in kept too. */
  lemma BadColumnOfKept(names: seq<string>, rows: seq<seq<Cell>>, kept: seq<seq<Cell>>, conv: Cell -> Option<Cell>)
    requires |rows| == |kept|
    requires forall i :: 0 <= i < |rows| ==> |rows[i]| == |names| && |kept[i]| == |names|
    requires forall i, m :: 0 <= i < |rows| && 0 <= m < |names| && !Skipped(names[m]) ==> rows[i][m] == kept[i][m]
    requires ConvertSpec(names, rows, conv).Err?
    ensures exists k, i ::
              && 0 <= k < |names| && 0 <= i < |kept|
              && ConvertSpec(names, rows, conv).error == BadNumber(names[k]) && !Skipped(names[k])
              && conv(kept[i][k]).None?
              && (forall m, i2 :: 0 <= m < k && 0 <= i2 < |kept| && !Skipped(names[m]) ==> conv(kept[i2][m]).Some?)
  {
    ConvertSpecCases(names, rows, conv);
    var k, i :| 0 <= k < |names| && 0 <= i < |rows|
                && ConvertSpec(names, rows, conv).error == BadNumber(names[k])
                && !Skipped(names[k]) && conv(rows[i][k]).None?
                && forall m :: 0 <= m < k ==> ColumnOk(names, rows, m, conv);
    forall m, i2 | 0 <= m < k && 0 <= i2 < |kept| && !Skipped(names[m])
      ensures conv(kept[i2][m]).Some?
    {
      assert ColumnOk(names, rows, m, conv);
    }
  }

  /** A numeric cell written with a thousands separator, "1,234", loads as the float of "1234", whose value is 1234. */
  lemma CellToFloatGrouped(n: nat, rest: nat)
    requires rest < 1000
    ensures var t := StripCommas(NatToDecimal(n) + "," + Group(rest));
      CellToFloat(Str(NatToDecimal(n) + "," + Group(rest))) == Some(Float(Finite(DigitsValue(t) as real)))
      && DigitsValue(t) == n * 1000 + rest
  {
    ParseFloatGrouped(n, rest);
  }
}
