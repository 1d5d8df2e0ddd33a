/**
 * patent_education_analysis.py: the wide-to-long melt of the education
 * funding table and the in-place conversion of its year and amount columns,
 * the correlation-strength and significance labels, format_number, and the
 * fixed-width lines of the yearly comparison report.
 */
module PatentReport {
  import opened Wrappers
  import opened Text
  import opened Cells
  import opened Frames
  import Seqs

  // ---------------------------------------------------------------------------
  // get_correlation_strength

  const Strong: string := "强相关"
  const Medium: string := "中等相关"
  const Weak: string := "弱相关"
  const VeryWeak: string := "极弱相关或无相关"

  function Abs(x: real): real {
    if x < 0.0 then -x else x
  }

  /** The label of a correlation coefficient, by its absolute value; every threshold is inclusive. */
  function CorrelationStrength(c: real): (r: string)
    ensures r in [Strong, Medium, Weak, VeryWeak]
  {
    var a := Abs(c);
    if a >= 0.8 then Strong
    else if a >= 0.5 then Medium
    else if a >= 0.3 then Weak
    else VeryWeak
  }

  /** How strong a label says the correlation is: 3 for the strongest label, 0 for the weakest. */
  function Rank(s: string): nat {
    if s == Strong then 3 else if s == Medium then 2 else if s == Weak then 1 else 0
  }

  /** The label depends only on |c|: a coefficient and its negation get the same label. */
  lemma StrengthSymmetric(c: real)
    ensures CorrelationStrength(-c) == CorrelationStrength(c)
  {
  }

  /** The four bands, each with both directions of its condition. */
  lemma StrengthBands(c: real)
    ensures CorrelationStrength(c) == Strong <==> Abs(c) >= 0.8
    ensures CorrelationStrength(c) == Medium <==> 0.5 <= Abs(c) < 0.8
    ensures CorrelationStrength(c) == Weak <==> 0.3 <= Abs(c) < 0.5
    ensures CorrelationStrength(c) == VeryWeak <==> Abs(c) < 0.3
  {
    assert Strong != Medium && Strong != Weak && Strong != VeryWeak;
    assert Medium != Weak && Medium != VeryWeak && Weak != VeryWeak;
  }

  /** A larger |c| never gets a weaker label. */
  lemma StrengthMonotone(c: real, d: real)
    requires Abs(c) <= Abs(d)
    ensures Rank(CorrelationStrength(c)) <= Rank(CorrelationStrength(d))
  {
    StrengthBands(c);
    StrengthBands(d);
  }

  // ---------------------------------------------------------------------------
  // The significance label

  const Significant: string := "显著"
  const NotSignificant: string := "不显著"

  /** '显著' if p_value < 0.05 else '不显著'. */
  function Significance(p: real): (r: string)
    ensures r == Significant <==> p < 0.05
    ensures r == NotSignificant <==> p >= 0.05
  {
    if p < 0.05 then Significant else NotSignificant
  }

  // ---------------------------------------------------------------------------
  // format_number: "{:,}".format(int(number))

  /** A run of digits with ',' inserted every three digits from the right. */
  function InsertCommas(d: string): (r: string)
    decreases |d|
  {
    if |d| <= 3 then d else InsertCommas(d[..|d| - 3]) + "," + d[|d| - 3..]
  }

  /** "{:,}" of an integer: the grouped digits of |n|, after a '-' when n is negative. */
  function FormatInt(n: int): string {
    if n < 0 then "-" + InsertCommas(NatToDecimal(-n)) else InsertCommas(NatToDecimal(n))
  }

  /**
   * int() of a cell: an integer stays, a finite float is truncated toward
   * zero, text goes through int(); None where int() raises, as it does on
   * NaN (ValueError) and on an infinity (OverflowError).
   */
  function IntOf(c: Cell): (r: Option<int>)
    ensures c.Missing? || (c.Float? && c.n.Infinite?) ==> r.None?
    ensures c.Whole? ==> r == Some(c.i)
    ensures c.Float? && c.n.Finite? ==> r == Some(Trunc(c.n.value))
  {
    match c
    case Missing => None
    case Str(s) => ParseInt(s)
    case Whole(i) => Some(i)
    case Float(n) => if n.Finite? then Some(Trunc(n.value)) else None
  }

  /** format_number: "{:,}" of int(number); None where int() raises. */
  function FormatNumber(c: Cell): Option<string> {
    match IntOf(c)
    case Some(n) => Some(FormatInt(n))
    case None => None
  }

  predicate AllDigits(s: string) {
    forall i :: 0 <= i < |s| ==> IsDigit(s[i])
  }

  /**
   * Comma-grouped digits: no comma at either end, a comma exactly at the
   * positions 4, 8, 12, ... counted from the right, a digit everywhere else.
   * So every group after the first has three digits and the first has one to three.
   */
  predicate Grouped(s: string) {
    && |s| % 4 != 0
    && forall i :: 0 <= i < |s| ==> (s[i] == ',' <==> (|s| - i) % 4 == 0) && (s[i] != ',' ==> IsDigit(s[i]))
  }

  /** Grouping nonempty digits gives a grouped string with one comma per full group of three beyond the first. */
  lemma {:induction false} GroupShape(d: string)
    requires d != [] && AllDigits(d)
    ensures Grouped(InsertCommas(d))
    ensures |InsertCommas(d)| == |d| + (|d| - 1) / 3
    decreases |d|
  {
    if |d| > 3 {
      var p := d[..|d| - 3];
      var t := d[|d| - 3..];
      assert AllDigits(p) && AllDigits(t);
      GroupShape(p);
      assert InsertCommas(d) == InsertCommas(p) + "," + t;
      GroupedAppend(InsertCommas(p), t);
    }
  }

  /** One more group of three digits after a comma keeps the digits grouped. */
  lemma GroupedAppend(g: string, t: string)
    requires Grouped(g) && |t| == 3 && AllDigits(t)
    ensures Grouped(g + "," + t)
  {
    var s := g + "," + t;
    assert |s| == |g| + 4;
    forall i | 0 <= i < |s|
      ensures (s[i] == ',' <==> (|s| - i) % 4 == 0) && (s[i] != ',' ==> IsDigit(s[i]))
    {
      if i < |g| {
        assert s[i] == g[i];
        assert |s| - i == (|g| - i) + 4;
      } else if i > |g| {
        assert s[i] == t[i - |g| - 1];
      }
    }
  }

  /** Removing the separators of grouped digits gives the digits back. */
  lemma {:induction false} GroupStrip(d: string)
    requires AllDigits(d)
    ensures StripCommas(InsertCommas(d)) == d
    decreases |d|
  {
    if |d| <= 3 {
      assert ',' !in d;
      StripCommasIdempotent(d);
    } else {
      var p := d[..|d| - 3];
      var t := d[|d| - 3..];
      GroupStrip(p);
      StripCommasSplice(InsertCommas(p), t);
      assert ',' !in t;
      StripCommasIdempotent(t);
      assert p + t == d;
    }
  }

  /** Removing the commas of "{:,}" gives str(). */
  lemma FormatIntStrip(n: int)
    ensures StripCommas(FormatInt(n)) == IntToDecimal(n)
  {
    var d := NatToDecimal(if n < 0 then -n else n);
    GroupStrip(d);
    if n < 0 {
      StripCommasConcat("-", InsertCommas(d));
      StripCommasIdempotent("-");
    }
  }

  /** Where int() converts the cell, removing the commas format_number inserts gives str(int(c)), which int() reads back. */
  lemma FormatNumberRoundTrip(c: Cell)
    requires IntOf(c).Some?
    ensures FormatNumber(c).Some?
    ensures StripCommas(FormatNumber(c).value) == IntToDecimal(IntOf(c).value)
    ensures ParseInt(StripCommas(FormatNumber(c).value)) == IntOf(c)
  {
    FormatIntStrip(IntOf(c).value);
    ParseIntDecimal(IntOf(c).value);
  }

  /** Where int() converts the cell, format_number gives a '-' for negative values, then grouped digits. */
  lemma FormatNumberGrouped(c: Cell)
    requires IntOf(c).Some?
    ensures FormatNumber(c).Some?
    ensures IntOf(c).value >= 0 ==> Grouped(FormatNumber(c).value)
    ensures IntOf(c).value < 0 ==> FormatNumber(c).value[0] == '-' && Grouped(FormatNumber(c).value[1..])
  {
    var n := IntOf(c).value;
    var f := FormatInt(n);
    assert FormatNumber(c) == Some(f);
    var d := NatToDecimal(if n < 0 then -n else n);
    GroupShape(d);
    if n < 0 {
      assert f[1..] == InsertCommas(d);
    }
  }

  // ---------------------------------------------------------------------------
  // pd.melt(education_funding, id_vars=['指标'], var_name='年份', value_name='经费')

  const IdName: string := "指标"

  /** One row of the long table: the indicator, the year label (a column name) and the value. */
  datatype MeltRow = MeltRow(id: Cell, variable: string, value: Cell)

  /** The block of the long table that value column c (counted without the id column) contributes. */
  function Block(f: Frame, k: nat, c: nat): (b: seq<MeltRow>)
    requires Rectangular(f) && k < |f.names| && c < |f.names| - 1
    ensures |b| == |f.rows|
  {
    seq(|f.rows|, i requires 0 <= i < |f.rows| => MeltRow(f.rows[i][k], Seqs.Without(f.names, k)[c], Seqs.Without(f.rows[i], k)[c]))
  }

  function Flatten<T>(ss: seq<seq<T>>): seq<T> {
    if ss == [] then [] else ss[0] + Flatten(ss[1..])
  }

  /** melt: one block per value column, in column order; a missing id column raises (None). */
  function Melt(f: Frame): Option<seq<MeltRow>>
    requires Rectangular(f)
  {
    var k := ColumnIndex(f.names, IdName);
    if k == |f.names| then None
    else Some(Flatten(Blocks(f, k)))
  }

  function Blocks(f: Frame, k: nat): (bs: seq<seq<MeltRow>>)
    requires Rectangular(f) && k < |f.names|
    ensures |bs| == |f.names| - 1 && forall c :: 0 <= c < |bs| ==> bs[c] == Block(f, k, c)
  {
    seq(|f.names| - 1, c requires 0 <= c < |f.names| - 1 => Block(f, k, c))
  }

  lemma MulSucc(a: nat, m: nat)
    ensures (a + 1) * m == a * m + m
  {
  }

  /** Flattening n blocks of m elements gives n * m elements. */
  lemma {:induction false} FlattenLength<T>(ss: seq<seq<T>>, m: nat)
    requires forall c :: 0 <= c < |ss| ==> |ss[c]| == m
    ensures |Flatten(ss)| == |ss| * m
    decreases |ss|
  {
    if ss != [] {
      FlattenLength(ss[1..], m);
      MulSucc(|ss| - 1, m);
    }
  }

  /** Element i of block c sits at c * m + i of the flattened sequence. */
  lemma {:induction false} FlattenAt<T>(ss: seq<seq<T>>, m: nat, c: nat, i: nat)
    requires forall c :: 0 <= c < |ss| ==> |ss[c]| == m
    requires c < |ss| && i < m
    ensures c * m + i < |Flatten(ss)| && Flatten(ss)[c * m + i] == ss[c][i]
    decreases c
  {
    FlattenLength(ss, m);
    if c > 0 {
      FlattenAt(ss[1..], m, c - 1, i);
      MulSucc(c - 1, m);
      assert Flatten(ss) == ss[0] + Flatten(ss[1..]);
    }
  }

  /** The long table has rows × (columns − 1) rows, and the melt fails exactly when there is no '指标' column. */
  lemma MeltShape(f: Frame)
    requires Rectangular(f)
    ensures Melt(f).None? <==> IdName !in f.names
    ensures Melt(f).Some? ==> |Melt(f).value| == |f.rows| * (|f.names| - 1)
  {
    var k := ColumnIndex(f.names, IdName);
    if k < |f.names| {
      FlattenLength(Blocks(f, k), |f.rows|);
    }
  }

  /**
   * The row of the long table for data row i and value column c (counted
   * without the id column) carries that row's indicator, the column's name
   * as the year label, and the cell.
   */
  lemma MeltAt(f: Frame, c: nat, i: nat)
    requires Rectangular(f) && IdName in f.names
    requires c < |f.names| - 1 && i < |f.rows|
    ensures
      var k := ColumnIndex(f.names, IdName);
      && Melt(f).Some? && c * |f.rows| + i < |Melt(f).value|
      && Melt(f).value[c * |f.rows| + i] == MeltRow(f.rows[i][k], Seqs.Without(f.names, k)[c], Seqs.Without(f.rows[i], k)[c])
  {
    var k := ColumnIndex(f.names, IdName);
    var blocks := Blocks(f, k);
    FlattenAt(blocks, |f.rows|, c, i);
    assert blocks[c] == Block(f, k, c);
  }

  // ---------------------------------------------------------------------------
  // The in-place conversion of '年份' and '经费'

  predicate IsNian(c: char) { c == '年' }

  /** str.replace('年', '') then astype(int) on one year label; None when int() raises. */
  function YearOfLabel(v: string): Option<int> {
    ParseInt(Delete(v, IsNian))
  }

  /** astype(float) on one melted cell: strings through float(), numbers kept, missing stays missing. */
  function AsFloat(c: Cell): (r: Option<Cell>)
    ensures r.Some? ==> r.value.Missing? || r.value.Float?
    ensures c.Whole? ==> r == Some(Float(Finite(c.i as real)))
  {
    match c
    case Missing => Some(Missing)
    case Str(s) => ParseFloat(s)
    case Whole(i) => Some(Float(Finite(i as real)))
    case Float(n) => Some(c)
  }

  /** A column labelled "2015年" gives the year 2015. */
  lemma {:induction false} YearLabelOfColumn(y: nat)
    ensures YearOfLabel(NatToDecimal(y) + "年") == Some(y)
  {
    var d := NatToDecimal(y);
    DeleteConcat(d, "年", IsNian);
    DeleteUnchanged(d, IsNian);
    DeleteNone("年", IsNian);
    assert d + [] == d;
    ParseIntDecimal(y);
  }

  /** A row of the prepared funding table: indicator, integer year and float amount. */
  datatype Funding = Funding(id: Cell, year: int, amount: Cell)

  function YearOfRow(r: MeltRow): Option<int> { YearOfLabel(r.variable) }

  function AmountOfRow(r: MeltRow): Option<Cell> { AsFloat(r.value) }

  /**
   * The two column overwrites: '年份' is replaced by its cleaned integers,
   * then '经费' by its floats; either conversion failing aborts the script (None).
   */
  method PrepareFunding(melted: seq<MeltRow>) returns (r: Option<seq<Funding>>)
    ensures r.None? <==> exists i :: 0 <= i < |melted| && (YearOfLabel(melted[i].variable).None? || AsFloat(melted[i].value).None?)
    ensures r.Some? ==> |r.value| == |melted| && forall i :: 0 <= i < |melted| ==>
      r.value[i] == Funding(melted[i].id, YearOfLabel(melted[i].variable).value, AsFloat(melted[i].value).value)
  {
    var years := Seqs.ConvertAll(melted, YearOfRow);
    if years.None? {
      var i :| 0 <= i < |melted| && YearOfRow(melted[i]).None?;
      return None;
    }
    var amounts := Seqs.ConvertAll(melted, AmountOfRow);
    if amounts.None? {
      var i :| 0 <= i < |melted| && AmountOfRow(melted[i]).None?;
      return None;
    }
    r := Some(seq(|melted|, i requires 0 <= i < |melted| => Funding(melted[i].id, years.value[i], amounts.value[i])));
  }

  // ---------------------------------------------------------------------------
  // The yearly comparison report

  /**
   * One row of merged_all: year, funding and model count as cells (the inner
   * merge keeps rows holding NaN), and the patent share already formatted
   * with ".1f".
   */
  datatype ReportRow = ReportRow(year: int, funding: Cell, models: Cell, patents: string)

  /** A cell int() converts without raising whatever its value: an integer or a finite float. */
  predicate Numeric(c: Cell) {
    c.Whole? || (c.Float? && c.n.Finite?)
  }

  function YearKey(r: ReportRow): real { r.year as real }

  /** f"   {year:4s}    {funding:>15s}    {models:>10s}    {patents:>12s}" with the four fields already as text. */
  function Layout(y: string, f: string, m: string, p: string): string {
    Joined(LeftJustify(y, 4), RightJustify(f, 15), RightJustify(m, 10), RightJustify(p, 12))
  }

  /** Three spaces, then the padded fields separated by four spaces each. */
  function Joined(yj: string, fj: string, mj: string, pj: string): string {
    "   " + yj + "    " + fj + "    " + mj + "    " + pj
  }

  /**
   * The report line of one row: str(year), format_number(funding),
   * str(int(models)) and the patent text; None where either int() raises.
   */
  function ReportLine(r: ReportRow): (line: Option<string>)
    ensures r.funding.Missing? || r.models.Missing? ==> line.None?
    ensures Numeric(r.funding) && Numeric(r.models) ==> line.Some?
  {
    if FormatNumber(r.funding).Some? && IntOf(r.models).Some? then
      Some(LineText(r.year, FormatNumber(r.funding).value, IntOf(r.models).value, r.patents))
    else
      None
  }

  /** The text of a report line once funding is formatted and the model count is an integer. */
  function LineText(year: int, funding: string, models: int, patents: string): string {
    Layout(IntToDecimal(year), funding, IntToDecimal(models), patents)
  }

  /**
   * Each field sits in a column at least as wide as its minimum width: the
   * year left-justified after three spaces, the other three right-justified
   * after four, and a field longer than its width is kept whole. A line
   * whose fields all fit is 56 characters long.
   */
  lemma LayoutFields(y: string, f: string, m: string, p: string)
    ensures
      var line := Layout(y, f, m, p);
      && |line| == 15 + Width(y, 4) + Width(f, 15) + Width(m, 10) + Width(p, 12)
      && FieldAt(line, y, 3)
      && FieldAt(line, f, 7 + Width(y, 4) + Width(f, 15) - |f|)
      && FieldAt(line, m, 11 + Width(y, 4) + Width(f, 15) + Width(m, 10) - |m|)
      && FieldAt(line, p, 15 + Width(y, 4) + Width(f, 15) + Width(m, 10) + Width(p, 12) - |p|)
      && (|y| <= 4 && |f| <= 15 && |m| <= 10 && |p| <= 12 ==> |line| == 56)
  {
    LayoutYear(y, f, m, p);
    LayoutFunding(y, f, m, p, 7 + Width(y, 4) + Width(f, 15) - |f|);
    LayoutModels(y, f, m, p, 11 + Width(y, 4) + Width(f, 15) + Width(m, 10) - |m|);
    LayoutPatents(y, f, m, p, 15 + Width(y, 4) + Width(f, 15) + Width(m, 10) + Width(p, 12) - |p|);
  }

  lemma LayoutYear(y: string, f: string, m: string, p: string)
    ensures |Layout(y, f, m, p)| == 15 + Width(y, 4) + Width(f, 15) + Width(m, 10) + Width(p, 12)
    ensures FieldAt(Layout(y, f, m, p), y, 3)
  {
    JustifyAt(y, 4);
    PieceYear(LeftJustify(y, 4), RightJustify(f, 15), RightJustify(m, 10), RightJustify(p, 12), y);
  }

  lemma LayoutFunding(y: string, f: string, m: string, p: string, off: nat)
    requires off == 7 + Width(y, 4) + Width(f, 15) - |f|
    ensures FieldAt(Layout(y, f, m, p), f, off)
  {
    JustifyAt(f, 15);
    PieceFunding(LeftJustify(y, 4), RightJustify(f, 15), RightJustify(m, 10), RightJustify(p, 12), f,
      Width(f, 15) - |f|, off);
  }

  lemma LayoutModels(y: string, f: string, m: string, p: string, off: nat)
    requires off == 11 + Width(y, 4) + Width(f, 15) + Width(m, 10) - |m|
    ensures FieldAt(Layout(y, f, m, p), m, off)
  {
    JustifyAt(m, 10);
    PieceModels(LeftJustify(y, 4), RightJustify(f, 15), RightJustify(m, 10), RightJustify(p, 12), m,
      Width(m, 10) - |m|, off);
  }

  lemma LayoutPatents(y: string, f: string, m: string, p: string, off: nat)
    requires off == 15 + Width(y, 4) + Width(f, 15) + Width(m, 10) + Width(p, 12) - |p|
    ensures FieldAt(Layout(y, f, m, p), p, off)
  {
    JustifyAt(p, 12);
    PiecePatents(LeftJustify(y, 4), RightJustify(f, 15), RightJustify(m, 10), RightJustify(p, 12), p,
      Width(p, 12) - |p|, off);
  }

  /**
   * Where each padded field lands once the four are joined with the
   * separators of the report line: a field found at k in its padded form is
   * found at off in the line.
   */
  lemma PieceYear(yj: string, fj: string, mj: string, pj: string, y: string)
    requires FieldAt(yj, y, 0)
    ensures |Joined(yj, fj, mj, pj)| == 15 + |yj| + |fj| + |mj| + |pj|
    ensures FieldAt(Joined(yj, fj, mj, pj), y, 3)
  {
    var p1 := "   " + yj;
    var rest := "    " + fj + "    " + mj + "    " + pj;
    assert Joined(yj, fj, mj, pj) == p1 + rest;
    FieldAtPrepend("   ", yj, y, 0);
    FieldAtAppend(p1, rest, y, 3);
  }

  lemma PieceFunding(yj: string, fj: string, mj: string, pj: string, f: string, k: nat, off: nat)
    requires FieldAt(fj, f, k)
    requires off == 7 + |yj| + k
    ensures FieldAt(Joined(yj, fj, mj, pj), f, off)
  {
    var p2 := "   " + yj + "    ";
    var rest := "    " + mj + "    " + pj;
    assert Joined(yj, fj, mj, pj) == p2 + fj + rest;
    FieldAtPrepend(p2, fj, f, k);
    FieldAtAppend(p2 + fj, rest, f, off);
  }

  lemma PieceModels(yj: string, fj: string, mj: string, pj: string, m: string, k: nat, off: nat)
    requires FieldAt(mj, m, k)
    requires off == 11 + |yj| + |fj| + k
    ensures FieldAt(Joined(yj, fj, mj, pj), m, off)
  {
    var p4 := "   " + yj + "    " + fj + "    ";
    var rest := "    " + pj;
    assert Joined(yj, fj, mj, pj) == p4 + mj + rest;
    FieldAtPrepend(p4, mj, m, k);
    FieldAtAppend(p4 + mj, rest, m, off);
  }

  lemma PiecePatents(yj: string, fj: string, mj: string, pj: string, p: string, k: nat, off: nat)
    requires FieldAt(pj, p, k)
    requires off == 15 + |yj| + |fj| + |mj| + k
    ensures FieldAt(Joined(yj, fj, mj, pj), p, off)
  {
    var p6 := "   " + yj + "    " + fj + "    " + mj + "    ";
    assert Joined(yj, fj, mj, pj) == p6 + pj;
    FieldAtPrepend(p6, pj, p, k);
  }

  /** The layout of a report line, in terms of its four formatted fields. */
  lemma ReportLineLayout(year: int, f: string, n: int, p: string)
    ensures
      var y := IntToDecimal(year);
      var m := IntToDecimal(n);
      var line := LineText(year, f, n, p);
      && |line| == 15 + Width(y, 4) + Width(f, 15) + Width(m, 10) + Width(p, 12)
      && FieldAt(line, y, 3)
      && FieldAt(line, f, 7 + Width(y, 4) + Width(f, 15) - |f|)
      && FieldAt(line, m, 11 + Width(y, 4) + Width(f, 15) + Width(m, 10) - |m|)
      && FieldAt(line, p, |line| - |p|)
  {
    LayoutFields(IntToDecimal(year), f, IntToDecimal(n), p);
  }

  /**
   * merged_all.sort_values('年份') and the loop over its rows: the lines of
   * the year-sorted rows are printed one by one until a row raises. raised
   * is true iff some row raises, and then the lines printed are those of the
   * rows before the first such row.
   */
  method ReportLines(rows: seq<ReportRow>) returns (lines: seq<string>, raised: bool)
    ensures
      var s := Seqs.SortBy(rows, YearKey, false);
      && Printed(s, lines)
      && (raised <==> exists i :: 0 <= i < |s| && ReportLine(s[i]).None?)
      && (raised ==> |lines| < |s| && ReportLine(s[|lines|]).None?)
      && (!raised ==> |lines| == |s|)
  {
    var sorted := Seqs.SortBy(rows, YearKey, false);
    lines := [];
    raised := false;
    var i := 0;
    while i < |sorted|
      invariant 0 <= i <= |sorted| && |lines| == i
      invariant Printed(sorted, lines)
    {
      var line := ReportLine(sorted[i]);
      if line.None? {
        raised := true;
        return;
      }
      PrintedSnoc(sorted, lines, line.value);
      lines := lines + [line.value];
      i := i + 1;
    }
  }

  /** Each printed line is the line of the row at its position. */
  predicate Printed(s: seq<ReportRow>, lines: seq<string>) {
    |lines| <= |s| && forall k :: 0 <= k < |lines| ==> ReportLine(s[k]) == Some(lines[k])
  }

  lemma PrintedSnoc(s: seq<ReportRow>, lines: seq<string>, line: string)
    requires Printed(s, lines) && |lines| < |s| && ReportLine(s[|lines|]) == Some(line)
    ensures Printed(s, lines + [line])
  {
    var next := lines + [line];
    forall k | 0 <= k < |next|
      ensures ReportLine(s[k]) == Some(next[k])
    {
      if k < |lines| {
        assert next[k] == lines[k];
        assert ReportLine(s[k]) == Some(lines[k]);
      } else {
        assert k == |lines| && next[k] == line;
      }
    }
  }

  /** The report lists the rows by non-decreasing year, each row exactly once. */
  lemma ReportOrder(rows: seq<ReportRow>)
    ensures
      var s := Seqs.SortBy(rows, YearKey, false);
      && multiset(s) == multiset(rows)
      && forall i, j :: 0 <= i < j < |s| ==> s[i].year <= s[j].year
  {
    var s := Seqs.SortBy(rows, YearKey, false);
    forall i, j | 0 <= i < j < |s|
      ensures s[i].year <= s[j].year
    {
      assert Seqs.Ordered(s[i], s[j], YearKey, false);
    }
  }
}
