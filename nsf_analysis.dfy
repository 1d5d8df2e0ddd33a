/**
 * The correlation and forecast script: the NSF table is cleaned (rows
 * without a first cell dropped, columns renamed, 'e' and 'f' deleted from
 * the year, years before 2010 dropped, Total coerced to numbers), the US
 * rows of the AI-model and AI-patent tables are left-joined to it on the
 * year, rows with a missing value are dropped, and three years are
 * forecast.
 */
module NsfAnalysis {
  import opened Wrappers
  import opened Text
  import opened Cells
  import opened Frames
  import NsfLoader
  import Seqs

  const AnalysisColumns: seq<string> := [
    "Year", "GDP_Current", "GDP_Constant", "Deflator", "RD_Current", "RD_Constant",
    "Total", "Business", "Federal", "Higher_edu", "Other", "Business_fund", "Federal_fund", "Other_fund"]

  const TotalCol: nat := 6

  /** The first year kept. */
  const FirstYear: int := 2010

  /** The region the AI tables are narrowed to. */
  const US: string := "美国"

  datatype PrepError =
    | NoColumns                              // iloc[:, 0] of a table without columns
    | LengthMismatch(expected: nat, found: nat)  // the positional rename
    | BadYear                                // astype(int) on a year that is not an integer

  /** nsf_data.iloc[:, 0].notna(). */
  predicate FirstPresent(row: seq<Cell>) {
    |row| > 0 && !row[0].Missing?
  }

  /** .str.replace('e', '').str.replace('f', ''): only these two letters are deleted. */
  function NarrowClean(s: string): (r: string)
    ensures forall c :: c in r <==> c in s && c != 'e' && c != 'f'
  {
    DeleteChar(DeleteChar(s, 'e'), 'f')
  }

  /** The year cleanup of this script, then astype(int); a cell that is not text has no .str value and fails. */
  function NarrowYear(c: Cell): Option<int> {
    match c
    case Str(s) => ParseInt(NarrowClean(s))
    case _ => None
  }

  /** A footnote 'e' or 'f' after a year is deleted: "2023e" reads as 2023. */
  lemma {:induction false} NarrowYearOfFootnote(y: nat, suffix: string)
    requires forall i :: 0 <= i < |suffix| ==> suffix[i] == 'e' || suffix[i] == 'f'
    ensures NarrowYear(Str(NatToDecimal(y) + suffix)) == Some(y)
  {
    var d := NatToDecimal(y);
    var p := (c: char) => c == 'e';
    var q := (c: char) => c == 'f';
    DeleteConcat(d, suffix, p);
    DeleteUnchanged(d, p);
    var s1 := Delete(suffix, p);
    DeleteConcat(d, s1, q);
    DeleteUnchanged(d, q);
    forall i | 0 <= i < |s1| ensures q(s1[i]) {
      assert s1[i] in s1;
    }
    DeleteNone(s1, q);
    assert d + [] == d;
    ParseIntDecimal(y);
  }

  /** Any other letter stays in the year, so astype(int) raises. */
  lemma NarrowYearKeepsOtherLetters(s: string, i: nat)
    requires i < |s| && IsAsciiLetter(s[i]) && s[i] != 'e' && s[i] != 'f'
    ensures NarrowYear(Str(s)) == None
  {
    var t := NarrowClean(s);
    assert s[i] in s;
    var k :| 0 <= k < |t| && t[k] == s[i];
    ParseIntRejects(t, k);
  }

  /** nsf_data[nsf_data['Year'] >= 2010]. */
  function SinceFirstYear(): seq<Cell> -> bool {
    (row: seq<Cell>) => |row| > 0 && row[0].Whole? && row[0].i >= FirstYear
  }

  /** pd.to_numeric(df[col], errors='coerce') written back into column j. */
  function CoerceColumn(rows: seq<seq<Cell>>, j: nat): (r: seq<seq<Cell>>)
    requires forall i :: 0 <= i < |rows| ==> j < |rows[i]|
    ensures |r| == |rows| && forall i :: 0 <= i < |rows| ==>
      |r[i]| == |rows[i]| && r[i][j] == Coerce(rows[i][j]) && !r[i][j].Str?
      && forall m :: 0 <= m < |rows[i]| && m != j ==> r[i][m] == rows[i][m]
  {
    seq(|rows|, i requires 0 <= i < |rows| => rows[i][j := Coerce(rows[i][j])])
  }

  /** The cleaned NSF rows as us_data holds them: the year and the R&D-to-GDP ratio (Total). */
  function PrepareSpec(raw: Frame): (r: Result<seq<seq<Cell>>, PrepError>)
    requires Rectangular(raw)
  {
    if |raw.names| == 0 then Err(NoColumns)
    else
      var present := Seqs.Filter(raw.rows, FirstPresent);
      if |raw.names| != |AnalysisColumns| then Err(LengthMismatch(|AnalysisColumns|, |raw.names|))
      else
        match NsfLoader.ParseYears(present, NarrowYear)
        case None => Err(BadYear)
        case Some(parsed) =>
          var recent := Seqs.Filter(parsed, SinceFirstYear());
          Ok(Project(CoerceColumn(recent, TotalCol)))
  }

  /** nsf_data[['Year', 'Total']]. */
  function Project(rows: seq<seq<Cell>>): (r: seq<seq<Cell>>)
    requires forall i :: 0 <= i < |rows| ==> |rows[i]| > TotalCol
    ensures |r| == |rows| && forall i :: 0 <= i < |r| ==> r[i] == [rows[i][0], rows[i][TotalCol]]
  {
    seq(|rows|, i requires 0 <= i < |rows| => [rows[i][0], rows[i][TotalCol]])
  }

  // ---------------------------------------------------------------------
  // The AI tables and the joins

  /** A row of an AI table: region, year and the value. */
  datatype RegionRow = RegionRow(region: string, year: Cell, value: Cell)

  predicate IsUS(r: RegionRow) { r.region == US }

  /** The US rows, year and value coerced to numbers: a [key, value] table. */
  function UsSeries(t: seq<RegionRow>): (r: seq<seq<Cell>>)
    ensures |r| <= |t|
    ensures forall i :: 0 <= i < |r| ==> |r[i]| == 2 && !r[i][0].Str? && !r[i][1].Str?
  {
    var us := Seqs.Filter(t, IsUS);
    seq(|us|, i requires 0 <= i < |us| => [Coerce(us[i].year), Coerce(us[i].value)])
  }

  /** The merge key test: an integer year on the left equals the numeric year on the right (NaN equals nothing). */
  predicate SameYear(y: int, key: Cell) {
    (key.Whole? && key.i == y) || (key.Float? && key.n.Finite? && key.n.value == y as real)
  }

  function MatchesYear(y: int): seq<Cell> -> bool {
    (r: seq<Cell>) => |r| > 0 && SameYear(y, r[0])
  }

  /** No right row has the key y: the left row is kept with NaN in the right columns. */
  predicate NoMatch(y: int, right: seq<seq<Cell>>) {
    forall j :: 0 <= j < |right| ==> !MatchesYear(y)(right[j])
  }

  /**
   * The rows one left row gives in a left merge: the left row followed by
   * each right row with its key, in the right table's order, or, when no
   * right row has that key, the left row padded with NaN.
   */
  function MergeRow(l: seq<Cell>, right: seq<seq<Cell>>): (out: seq<seq<Cell>>)
    requires |l| > 0 && l[0].Whole?
    requires forall i :: 0 <= i < |right| ==> |right[i]| == 2
    ensures |out| >= 1
    ensures forall k :: 0 <= k < |out| ==> |out[k]| == |l| + 2 && out[k][..|l|] == l && out[k][0] == l[0]
    ensures forall k :: 0 <= k < |out| ==>
      (out[k][|l|..] in right && MatchesYear(l[0].i)(out[k][|l|..])) ||
      (out[k][|l|..] == [Missing, Missing] && NoMatch(l[0].i, right))
    ensures !NoMatch(l[0].i, right) ==> |out| == |Seqs.Filter(right, MatchesYear(l[0].i))|
  {
    var m := Seqs.Filter(right, MatchesYear(l[0].i));
    var out := if m == [] then [l + [Missing, Missing]] else seq(|m|, k requires 0 <= k < |m| => l + m[k]);
    MergeRowFacts(l, right, m, out);
    out
  }

  /** Every right row with the left row's year is merged with it. */
  lemma MergeRowCovers(l: seq<Cell>, right: seq<seq<Cell>>)
    requires |l| > 0 && l[0].Whole?
    requires forall i :: 0 <= i < |right| ==> |right[i]| == 2
    ensures forall j :: 0 <= j < |right| && MatchesYear(l[0].i)(right[j]) ==> l + right[j] in MergeRow(l, right)
  {
    var m := Seqs.Filter(right, MatchesYear(l[0].i));
    var out := if m == [] then [l + [Missing, Missing]] else seq(|m|, k requires 0 <= k < |m| => l + m[k]);
    MergeRowFacts(l, right, m, out);
    assert MergeRow(l, right) == out;
  }

  lemma MergeRowFacts(l: seq<Cell>, right: seq<seq<Cell>>, m: seq<seq<Cell>>, out: seq<seq<Cell>>)
    requires |l| > 0 && l[0].Whole?
    requires forall i :: 0 <= i < |right| ==> |right[i]| == 2
    requires m == Seqs.Filter(right, MatchesYear(l[0].i))
    requires out == if m == [] then [l + [Missing, Missing]] else seq(|m|, k requires 0 <= k < |m| => l + m[k])
    ensures |out| >= 1
    ensures forall k :: 0 <= k < |out| ==> |out[k]| == |l| + 2 && out[k][..|l|] == l && out[k][0] == l[0]
    ensures forall k :: 0 <= k < |out| ==>
      (out[k][|l|..] in right && MatchesYear(l[0].i)(out[k][|l|..])) ||
      (out[k][|l|..] == [Missing, Missing] && NoMatch(l[0].i, right))
    ensures forall j :: 0 <= j < |right| && MatchesYear(l[0].i)(right[j]) ==> l + right[j] in out
    ensures !NoMatch(l[0].i, right) ==> |out| == |m|
  {
    var p := MatchesYear(l[0].i);
    if m == [] {
      assert out[0][..|l|] == l && out[0][|l|..] == [Missing, Missing];
    } else {
      forall k | 0 <= k < |out|
        ensures |out[k]| == |l| + 2 && out[k][..|l|] == l && out[k][0] == l[0]
        ensures out[k][|l|..] in right && p(out[k][|l|..])
      {
        assert out[k] == l + m[k];
        assert out[k][|l|..] == m[k];
        assert p(m[k]) && m[k] in right;
        assert |m[k]| == 2;
      }
      forall j | 0 <= j < |right| && p(right[j]) ensures l + right[j] in out {
        assert right[j] in m;
        var k :| 0 <= k < |m| && m[k] == right[j];
        assert out[k] == l + right[j];
      }
    }
  }

  /** df.merge(right, left_on='Year', right_on=key, how='left'): the rows of each left row in turn. */
  function LeftMerge(left: seq<seq<Cell>>, right: seq<seq<Cell>>, w: nat): (out: seq<seq<Cell>>)
    requires w > 0 && forall i :: 0 <= i < |left| ==> |left[i]| == w && left[i][0].Whole?
    requires forall i :: 0 <= i < |right| ==> |right[i]| == 2
    ensures |out| >= |left| && forall k :: 0 <= k < |out| ==> |out[k]| == w + 2 && out[k][0].Whole?
  {
    if left == [] then []
    else
      MergeRow(left[0], right) + LeftMerge(left[1..], right, w)
  }

  /** The first w cells of every row. */
  function Prefixes(rows: seq<seq<Cell>>, w: nat): (p: seq<seq<Cell>>)
    requires forall k :: 0 <= k < |rows| ==> |rows[k]| >= w
    ensures |p| == |rows| && forall k :: 0 <= k < |rows| ==> p[k] == rows[k][..w]
  {
    seq(|rows|, k requires 0 <= k < |rows| => rows[k][..w])
  }

  lemma PrefixesConcat(a: seq<seq<Cell>>, b: seq<seq<Cell>>, w: nat)
    requires forall k :: 0 <= k < |a| ==> |a[k]| >= w
    requires forall k :: 0 <= k < |b| ==> |b[k]| >= w
    ensures Prefixes(a + b, w) == Prefixes(a, w) + Prefixes(b, w)
  {
    assert forall k :: 0 <= k < |a| ==> (a + b)[k] == a[k];
    assert forall k :: 0 <= k < |b| ==> (a + b)[|a| + k] == b[k];
  }

  /** The k-th merged row starts with a left row: the one at index a. */
  lemma {:induction false} MergedRowFromLeft(left: seq<seq<Cell>>, right: seq<seq<Cell>>, w: nat, k: nat) returns (a: nat)
    requires w > 0 && forall i :: 0 <= i < |left| ==> |left[i]| == w && left[i][0].Whole?
    requires forall i :: 0 <= i < |right| ==> |right[i]| == 2
    ensures k < |LeftMerge(left, right, w)| ==> a < |left| && LeftMerge(left, right, w)[k][..w] == left[a]
    decreases |left|
  {
    a := 0;
    if left != [] && k < |LeftMerge(left, right, w)| {
      var head := MergeRow(left[0], right);
      var tail := LeftMerge(left[1..], right, w);
      assert LeftMerge(left, right, w) == head + tail;
      if k >= |head| {
        var b := MergedRowFromLeft(left[1..], right, w, k - |head|);
        assert LeftMerge(left, right, w)[k] == tail[k - |head|];
        a := b + 1;
      }
    }
  }

  /** The left rows appear in the merge in their order, each at least once. */
  lemma {:induction false} LeftMergeSubseq(left: seq<seq<Cell>>, right: seq<seq<Cell>>, w: nat)
    requires w > 0 && forall i :: 0 <= i < |left| ==> |left[i]| == w && left[i][0].Whole?
    requires forall i :: 0 <= i < |right| ==> |right[i]| == 2
    ensures Seqs.IsSubseq(left, Prefixes(LeftMerge(left, right, w), w))
  {
    if left != [] {
      var head := MergeRow(left[0], right);
      var tail := LeftMerge(left[1..], right, w);
      assert LeftMerge(left, right, w) == head + tail;
      LeftMergeSubseq(left[1..], right, w);
      PrefixesConcat(head, tail, w);
      SubseqCons(left, Prefixes(head, w), Prefixes(tail, w));
    }
  }

  /**
   * A left merge keeps the left table: every output row starts with a
   * left row, and the left rows appear in their order, each at least once.
   */
  lemma LeftMergeKeepsLeft(left: seq<seq<Cell>>, right: seq<seq<Cell>>, w: nat)
    requires w > 0 && forall i :: 0 <= i < |left| ==> |left[i]| == w && left[i][0].Whole?
    requires forall i :: 0 <= i < |right| ==> |right[i]| == 2
    ensures var p := Prefixes(LeftMerge(left, right, w), w);
      (forall k :: 0 <= k < |p| ==> p[k] in left) && Seqs.IsSubseq(left, p)
  {
    forall k | 0 <= k < |LeftMerge(left, right, w)| ensures LeftMerge(left, right, w)[k][..w] in left {
      var a := MergedRowFromLeft(left, right, w, k);
    }
    LeftMergeSubseq(left, right, w);
  }

  /** Every row that left row a gives is in the merge. */
  lemma {:induction false} MergeRowInMerge(left: seq<seq<Cell>>, right: seq<seq<Cell>>, w: nat, a: nat)
    requires w > 0 && forall i :: 0 <= i < |left| ==> |left[i]| == w && left[i][0].Whole?
    requires forall i :: 0 <= i < |right| ==> |right[i]| == 2
    requires a < |left|
    ensures forall x :: x in MergeRow(left[a], right) ==> x in LeftMerge(left, right, w)
    decreases a
  {
    var head := MergeRow(left[0], right);
    var tail := LeftMerge(left[1..], right, w);
    assert LeftMerge(left, right, w) == head + tail;
    if a > 0 {
      assert left[1..][a - 1] == left[a];
      MergeRowInMerge(left[1..], right, w, a - 1);
    }
  }

  /**
   * What a left merge appends to a left row: a right row with its key, or
   * NaN in both right columns when no right row has that key.
   */
  lemma LeftMergeAppends(left: seq<seq<Cell>>, right: seq<seq<Cell>>, w: nat)
    requires w > 0 && forall i :: 0 <= i < |left| ==> |left[i]| == w && left[i][0].Whole?
    requires forall i :: 0 <= i < |right| ==> |right[i]| == 2
    ensures var m := LeftMerge(left, right, w);
      forall k :: 0 <= k < |m| ==>
        (m[k][w..] in right && MatchesYear(m[k][0].i)(m[k][w..])) ||
        (m[k][w..] == [Missing, Missing] && NoMatch(m[k][0].i, right))
  {
    var m := LeftMerge(left, right, w);
    forall k | 0 <= k < |m|
      ensures (m[k][w..] in right && MatchesYear(m[k][0].i)(m[k][w..])) ||
              (m[k][w..] == [Missing, Missing] && NoMatch(m[k][0].i, right))
    {
      var a := MergedRowParts(left, right, w, k);
      assert m[k][0] == left[a][0];
    }
  }

  /**
   * A left merge drops no match: every left row is joined with every right
   * row that has its key, and a left row whose key no right row has is
   * kept with NaN.
   */
  lemma LeftMergeCovers(left: seq<seq<Cell>>, right: seq<seq<Cell>>, w: nat)
    requires w > 0 && forall i :: 0 <= i < |left| ==> |left[i]| == w && left[i][0].Whole?
    requires forall i :: 0 <= i < |right| ==> |right[i]| == 2
    ensures forall a, j :: 0 <= a < |left| && 0 <= j < |right| && MatchesYear(left[a][0].i)(right[j]) ==>
      left[a] + right[j] in LeftMerge(left, right, w)
    ensures forall a :: 0 <= a < |left| && NoMatch(left[a][0].i, right) ==>
      left[a] + [Missing, Missing] in LeftMerge(left, right, w)
  {
    forall a | 0 <= a < |left|
      ensures forall j :: 0 <= j < |right| && MatchesYear(left[a][0].i)(right[j]) ==>
        left[a] + right[j] in LeftMerge(left, right, w)
      ensures NoMatch(left[a][0].i, right) ==> left[a] + [Missing, Missing] in LeftMerge(left, right, w)
    {
      MergeRowInMerge(left, right, w, a);
      MergeRowCovers(left[a], right);
      var out := MergeRow(left[a], right);
      if NoMatch(left[a][0].i, right) {
        assert out[0][|left[a]|..] == [Missing, Missing];
        assert out[0] == out[0][..|left[a]|] + out[0][|left[a]|..];
      }
    }
  }

  /** A row in front of a subsequence: the left rows' head first, its tail later. */
  lemma SubseqCons(left: seq<seq<Cell>>, ph: seq<seq<Cell>>, pt: seq<seq<Cell>>)
    requires left != [] && ph != [] && ph[0] == left[0] && Seqs.IsSubseq(left[1..], pt)
    ensures Seqs.IsSubseq(left, ph + pt)
  {
    SubseqSkip(left[1..], pt, ph[1..]);
    assert (ph + pt)[1..] == ph[1..] + pt;
  }

  /** Rows may be skipped in front of a subsequence. */
  lemma {:induction false} SubseqSkip(a: seq<seq<Cell>>, b: seq<seq<Cell>>, c: seq<seq<Cell>>)
    requires Seqs.IsSubseq(a, b)
    ensures Seqs.IsSubseq(a, c + b)
    decreases |c|
  {
    if c != [] {
      SubseqSkip(a, b, c[1..]);
      assert (c + b)[1..] == c[1..] + b;
    } else {
      assert c + b == b;
    }
  }

  /** A row without a missing value: us_data.dropna() keeps it. */
  predicate Complete(row: seq<Cell>) {
    forall m :: 0 <= m < |row| ==> !row[m].Missing?
  }

  /** The row after the year-column drop: Year, ratio, model count, patent share. */
  function DropKeys(row: seq<Cell>): seq<Cell>
    requires |row| == 6
  {
    [row[0], row[1], row[3], row[5]]
  }

  /** The joined table: both merges, the two year columns of the AI tables dropped, then dropna. */
  function JoinSpec(us: seq<seq<Cell>>, models: seq<RegionRow>, patents: seq<RegionRow>): (r: seq<seq<Cell>>)
    requires forall i :: 0 <= i < |us| ==> |us[i]| == 2 && us[i][0].Whole?
  {
    var m1 := LeftMerge(us, UsSeries(models), 2);
    var m2 := LeftMerge(m1, UsSeries(patents), 4);
    Seqs.Filter(DropAll(m2), Complete)
  }

  /** df.drop(columns=[both year keys]) on every merged row. */
  function DropAll(rows: seq<seq<Cell>>): (r: seq<seq<Cell>>)
    requires forall k :: 0 <= k < |rows| ==> |rows[k]| == 6
    ensures |r| == |rows| && forall k :: 0 <= k < |r| ==> r[k] == DropKeys(rows[k])
  {
    seq(|rows|, k requires 0 <= k < |rows| => DropKeys(rows[k]))
  }

  /**
   * analysis.py from reading to dropna: each step reassigns the tables in
   * turn, and the first exception ends the script.
   */
  method Analyze(raw: Frame, models: seq<RegionRow>, patents: seq<RegionRow>) returns (r: Result<seq<seq<Cell>>, PrepError>)
    requires Rectangular(raw)
    ensures PrepareSpec(raw).Err? ==> r == Err(PrepareSpec(raw).error)
    ensures PrepareSpec(raw).Ok? ==> PreparedShape(PrepareSpec(raw).value) && r == Ok(JoinSpec(PrepareSpec(raw).value, models, patents))
  {
    if |raw.names| == 0 {
      return Err(NoColumns);
    }
    var nsf := Seqs.Filter(raw.rows, FirstPresent);
    if |raw.names| != |AnalysisColumns| {
      return Err(LengthMismatch(|AnalysisColumns|, |raw.names|));
    }
    var parsed := NsfLoader.ParseYears(nsf, NarrowYear);
    if parsed.None? {
      return Err(BadYear);
    }
    nsf := Seqs.Filter(parsed.value, SinceFirstYear());
    nsf := CoerceColumn(nsf, TotalCol);
    var us := Project(nsf);
    PreparedShapeHolds(raw);
    var modelsUs := UsSeries(models);
    var patentsUs := UsSeries(patents);
    var joined := LeftMerge(us, modelsUs, 2);
    joined := LeftMerge(joined, patentsUs, 4);
    joined := DropAll(joined);
    joined := Seqs.Filter(joined, Complete);
    r := Ok(joined);
  }

  /** The prepared rows: [Year, ratio], the year an integer from 2010 on and the ratio a number or missing. */
  predicate PreparedShape(us: seq<seq<Cell>>) {
    forall i :: 0 <= i < |us| ==> |us[i]| == 2 && us[i][0].Whole? && us[i][0].i >= FirstYear && !us[i][1].Str?
  }

  /**
   * Preparation fails only on a table without columns, a column count
   * other than 14 or a kept year that is not an integer once 'e' and 'f'
   * are gone; an unparseable Total never fails, it becomes missing.
   */
  lemma PreparedShapeHolds(raw: Frame)
    requires Rectangular(raw)
    ensures PrepareSpec(raw).Ok? <==>
      |raw.names| == |AnalysisColumns| &&
      forall i :: 0 <= i < |raw.rows| && FirstPresent(raw.rows[i]) ==> NarrowYear(raw.rows[i][0]).Some?
    ensures PrepareSpec(raw).Ok? ==> PreparedShape(PrepareSpec(raw).value)
  {
    PrepareOkCases(raw);
    if PrepareSpec(raw).Ok? {
      var present := Seqs.Filter(raw.rows, FirstPresent);
      var parsed := NsfLoader.ParseYears(present, NarrowYear).value;
      assert PrepareSpec(raw).value == Project(CoerceColumn(Seqs.Filter(parsed, SinceFirstYear()), TotalCol));
      RecentShape(parsed);
    }
  }

  lemma PrepareOkCases(raw: Frame)
    requires Rectangular(raw)
    ensures PrepareSpec(raw).Ok? <==>
      |raw.names| == |AnalysisColumns| &&
      forall i :: 0 <= i < |raw.rows| && FirstPresent(raw.rows[i]) ==> NarrowYear(raw.rows[i][0]).Some?
  {
    var present := Seqs.Filter(raw.rows, FirstPresent);
    if |raw.names| == |AnalysisColumns| {
      if forall i :: 0 <= i < |present| ==> NarrowYear(present[i][0]).Some? {
        forall i | 0 <= i < |raw.rows| && FirstPresent(raw.rows[i]) ensures NarrowYear(raw.rows[i][0]).Some? {
          assert raw.rows[i] in present;
        }
      } else {
        var i :| 0 <= i < |present| && NarrowYear(present[i][0]).None?;
        var j :| 0 <= j < |raw.rows| && raw.rows[j] == present[i];
      }
    }
  }

  /** The rows from 2010 on, Total coerced and projected, have the prepared shape. */
  lemma RecentShape(parsed: seq<seq<Cell>>)
    requires forall i :: 0 <= i < |parsed| ==> |parsed[i]| > TotalCol
    ensures PreparedShape(Project(CoerceColumn(Seqs.Filter(parsed, SinceFirstYear()), TotalCol)))
  {
    var recent := Seqs.Filter(parsed, SinceFirstYear());
    var coerced := CoerceColumn(recent, TotalCol);
    forall i | 0 <= i < |coerced| ensures coerced[i][0] == recent[i][0] {
      assert 0 != TotalCol;
    }
  }

  /**
   * Every joined row has no missing value and its year and ratio are
   * those of a prepared NSF row: a left join adds no year of its own.
   */
  lemma JoinedFromNsf(us: seq<seq<Cell>>, models: seq<RegionRow>, patents: seq<RegionRow>)
    requires PreparedShape(us)
    ensures var j := JoinSpec(us, models, patents);
      forall k :: 0 <= k < |j| ==>
        (|j[k]| == 4 && Complete(j[k]) && [j[k][0], j[k][1]] in us)
  {
    var mu := UsSeries(models);
    var pu := UsSeries(patents);
    var m2 := LeftMerge(LeftMerge(us, mu, 2), pu, 4);
    TwoMergesKeepKey(us, mu, pu);
    CompleteKeysIn(m2, us);
    var j: seq<seq<Cell>> := JoinSpec(us, models, patents);
    assert j == Seqs.Filter(DropAll(m2), Complete);
  }

  /**
   * The k-th merged row is left row a followed by a right row with its
   * year, or by two NaN when no right row has that year.
   */
  lemma {:induction false} MergedRowParts(left: seq<seq<Cell>>, right: seq<seq<Cell>>, w: nat, k: nat) returns (a: nat)
    requires w > 0 && forall i :: 0 <= i < |left| ==> |left[i]| == w && left[i][0].Whole?
    requires forall i :: 0 <= i < |right| ==> |right[i]| == 2
    requires k < |LeftMerge(left, right, w)|
    ensures a < |left| && LeftMerge(left, right, w)[k] == left[a] + LeftMerge(left, right, w)[k][w..]
    ensures var t := LeftMerge(left, right, w)[k][w..];
      (t in right && MatchesYear(left[a][0].i)(t)) || (t == [Missing, Missing] && NoMatch(left[a][0].i, right))
    decreases |left|
  {
    var head := MergeRow(left[0], right);
    var tail := LeftMerge(left[1..], right, w);
    assert LeftMerge(left, right, w) == head + tail;
    var x := LeftMerge(left, right, w)[k];
    if k < |head| {
      a := 0;
      assert x == head[k];
      assert x == x[..w] + x[w..];
    } else {
      var b := MergedRowParts(left[1..], right, w, k - |head|);
      assert x == tail[k - |head|];
      assert left[1..][b] == left[b + 1];
      a := b + 1;
    }
  }

  /** A left row and a matching right row give a merged row. */
  lemma MergedPair(left: seq<seq<Cell>>, right: seq<seq<Cell>>, w: nat, l: seq<Cell>, r: seq<Cell>)
    requires w > 0 && forall i :: 0 <= i < |left| ==> |left[i]| == w && left[i][0].Whole?
    requires forall i :: 0 <= i < |right| ==> |right[i]| == 2
    requires l in left && r in right && l[0].Whole? && MatchesYear(l[0].i)(r)
    ensures l + r in LeftMerge(left, right, w)
  {
    var a :| 0 <= a < |left| && left[a] == l;
    var j :| 0 <= j < |right| && right[j] == r;
    LeftMergeCovers(left, right, w);
  }

  /** The model and patent cells of a row of both merges, when present, come from matching US rows. */
  lemma MergedValues(us: seq<seq<Cell>>, mu: seq<seq<Cell>>, pu: seq<seq<Cell>>, d: nat)
    requires forall i :: 0 <= i < |us| ==> |us[i]| == 2 && us[i][0].Whole?
    requires forall i :: 0 <= i < |mu| ==> |mu[i]| == 2
    requires forall i :: 0 <= i < |pu| ==> |pu[i]| == 2
    requires d < |LeftMerge(LeftMerge(us, mu, 2), pu, 4)|
    ensures var row := LeftMerge(LeftMerge(us, mu, 2), pu, 4)[d];
      && (!row[3].Missing? ==> exists x :: x in mu && MatchesYear(row[0].i)(x) && x[1] == row[3])
      && (!row[5].Missing? ==> exists y :: y in pu && MatchesYear(row[0].i)(y) && y[1] == row[5])
  {
    var m1 := LeftMerge(us, mu, 2);
    var row := LeftMerge(m1, pu, 4)[d];
    var a := MergedRowParts(m1, pu, 4, d);
    var b := MergedRowParts(us, mu, 2, a);
    var x := m1[a][2..];
    var y := row[4..];
    assert row[0] == m1[a][0] == us[b][0];
    assert row[3] == m1[a][3] == x[1];
    assert row[5] == y[1];
    if !row[3].Missing? {
      assert x != [Missing, Missing];
    }
    if !row[5].Missing? {
      assert y != [Missing, Missing];
    }
  }

  /** The k-th row of the joined table, through the merged row it was dropped from. */
  lemma JoinedRowValues(us: seq<seq<Cell>>, mu: seq<seq<Cell>>, pu: seq<seq<Cell>>, j: seq<seq<Cell>>, k: nat)
    requires forall i :: 0 <= i < |us| ==> |us[i]| == 2 && us[i][0].Whole?
    requires forall i :: 0 <= i < |mu| ==> |mu[i]| == 2
    requires forall i :: 0 <= i < |pu| ==> |pu[i]| == 2
    requires j == Seqs.Filter(DropAll(LeftMerge(LeftMerge(us, mu, 2), pu, 4)), Complete)
    requires k < |j|
    ensures |j[k]| == 4 && j[k][0].Whole?
    ensures exists x :: x in mu && MatchesYear(j[k][0].i)(x) && x[1] == j[k][2]
    ensures exists y :: y in pu && MatchesYear(j[k][0].i)(y) && y[1] == j[k][3]
  {
    var m2 := LeftMerge(LeftMerge(us, mu, 2), pu, 4);
    var dropped := DropAll(m2);
    var d :| 0 <= d < |dropped| && dropped[d] == j[k];
    assert Complete(j[k]);
    assert j[k] == [m2[d][0], m2[d][1], m2[d][3], m2[d][5]];
    assert !j[k][2].Missing? && !j[k][3].Missing?;
    MergedValues(us, mu, pu, d);
  }

  /**
   * The model count and the patent share of a joined row are those of a
   * US row of the AI tables with the row's year.
   */
  lemma JoinedValues(us: seq<seq<Cell>>, models: seq<RegionRow>, patents: seq<RegionRow>)
    requires PreparedShape(us)
    ensures var j := JoinSpec(us, models, patents);
      forall k :: 0 <= k < |j| ==>
        && |j[k]| == 4 && j[k][0].Whole?
        && (exists x :: x in UsSeries(models) && MatchesYear(j[k][0].i)(x) && x[1] == j[k][2])
        && (exists y :: y in UsSeries(patents) && MatchesYear(j[k][0].i)(y) && y[1] == j[k][3])
  {
    var j: seq<seq<Cell>> := JoinSpec(us, models, patents);
    forall k | 0 <= k < |j|
      ensures |j[k]| == 4 && j[k][0].Whole?
      ensures exists x :: x in UsSeries(models) && MatchesYear(j[k][0].i)(x) && x[1] == j[k][2]
      ensures exists y :: y in UsSeries(patents) && MatchesYear(j[k][0].i)(y) && y[1] == j[k][3]
    {
      JoinedRowValues(us, UsSeries(models), UsSeries(patents), j, k);
    }
  }

  /** A prepared row and matching US rows of both AI tables give a row of both merges. */
  lemma MergedTriple(us: seq<seq<Cell>>, mu: seq<seq<Cell>>, pu: seq<seq<Cell>>, u: seq<Cell>, x: seq<Cell>, y: seq<Cell>)
    returns (d: nat)
    requires forall i :: 0 <= i < |us| ==> |us[i]| == 2 && us[i][0].Whole?
    requires forall i :: 0 <= i < |mu| ==> |mu[i]| == 2
    requires forall i :: 0 <= i < |pu| ==> |pu[i]| == 2
    requires u in us && x in mu && y in pu && u[0].Whole?
    requires MatchesYear(u[0].i)(x) && MatchesYear(u[0].i)(y)
    ensures |u| == 2 && |x| == 2 && |y| == 2
    ensures var m2 := LeftMerge(LeftMerge(us, mu, 2), pu, 4); d < |m2| && m2[d] == u + x + y
  {
    var m1 := LeftMerge(us, mu, 2);
    var m2 := LeftMerge(m1, pu, 4);
    MergedPair(us, mu, 2, u, x);
    assert (u + x)[0] == u[0];
    MergedPair(m1, pu, 4, u + x, y);
    d :| 0 <= d < |m2| && m2[d] == u + x + y;
    assert |u| == 2 && |x| == 2 && |y| == 2;
  }

  /** One joined row, from a prepared row and matching US rows with no value missing. */
  lemma JoinedTriple(us: seq<seq<Cell>>, mu: seq<seq<Cell>>, pu: seq<seq<Cell>>, u: seq<Cell>, x: seq<Cell>, y: seq<Cell>)
    requires forall i :: 0 <= i < |us| ==> |us[i]| == 2 && us[i][0].Whole?
    requires forall i :: 0 <= i < |mu| ==> |mu[i]| == 2
    requires forall i :: 0 <= i < |pu| ==> |pu[i]| == 2
    requires u in us && x in mu && y in pu && u[0].Whole?
    requires MatchesYear(u[0].i)(x) && MatchesYear(u[0].i)(y)
    requires !u[1].Missing? && !x[1].Missing? && !y[1].Missing?
    ensures [u[0], u[1], x[1], y[1]] in Seqs.Filter(DropAll(LeftMerge(LeftMerge(us, mu, 2), pu, 4)), Complete)
  {
    var d := MergedTriple(us, mu, pu, u, x, y);
    var m2 := LeftMerge(LeftMerge(us, mu, 2), pu, 4);
    var merged := u + x + y;
    assert merged[0] == u[0] && merged[1] == u[1] && merged[3] == x[1] && merged[5] == y[1];
    DroppedIn(m2, d);
  }

  /** A merged row whose kept cells are all present survives the drop and dropna. */
  lemma DroppedIn(m2: seq<seq<Cell>>, d: nat)
    requires forall k :: 0 <= k < |m2| ==> |m2[k]| == 6
    requires d < |m2|
    requires !m2[d][0].Missing? && !m2[d][1].Missing? && !m2[d][3].Missing? && !m2[d][5].Missing?
    ensures [m2[d][0], m2[d][1], m2[d][3], m2[d][5]] in Seqs.Filter(DropAll(m2), Complete)
  {
    assert DropAll(m2)[d] == DropKeys(m2[d]);
    assert Complete(DropKeys(m2[d]));
  }

  /**
   * Conversely, a prepared row and a US row of each AI table with its
   * year, none of the three values missing, give a joined row.
   */
  lemma JoinedIncludes(us: seq<seq<Cell>>, models: seq<RegionRow>, patents: seq<RegionRow>)
    requires PreparedShape(us)
    ensures forall u: seq<Cell>, x: seq<Cell>, y: seq<Cell> ::
      (&& u in us && x in UsSeries(models) && y in UsSeries(patents)
       && MatchesYear(u[0].i)(x) && MatchesYear(u[0].i)(y)
       && !u[1].Missing? && !x[1].Missing? && !y[1].Missing?) ==>
        [u[0], u[1], x[1], y[1]] in JoinSpec(us, models, patents)
  {
    forall u: seq<Cell>, x: seq<Cell>, y: seq<Cell> |
      && u in us && x in UsSeries(models) && y in UsSeries(patents)
      && MatchesYear(u[0].i)(x) && MatchesYear(u[0].i)(y)
      && !u[1].Missing? && !x[1].Missing? && !y[1].Missing?
      ensures [u[0], u[1], x[1], y[1]] in JoinSpec(us, models, patents)
    {
      JoinedTriple(us, UsSeries(models), UsSeries(patents), u, x, y);
    }
  }

  /** The complete rows after the drop keep the key pairs of the merged rows. */
  lemma CompleteKeysIn(m2: seq<seq<Cell>>, us: seq<seq<Cell>>)
    requires forall k :: 0 <= k < |m2| ==> |m2[k]| == 6
    requires KeysIn(m2, us)
    ensures var j := Seqs.Filter(DropAll(m2), Complete);
      forall k :: 0 <= k < |j| ==> (|j[k]| == 4 && Complete(j[k]) && [j[k][0], j[k][1]] in us)
  {
    var dropped := DropAll(m2);
    var j := Seqs.Filter(dropped, Complete);
    forall k | 0 <= k < |j|
      ensures |j[k]| == 4 && Complete(j[k]) && [j[k][0], j[k][1]] in us
    {
      var d :| 0 <= d < |dropped| && dropped[d] == j[k];
      assert [m2[d][0], m2[d][1]] in us;
    }
  }

  /** Every row starts with the [Year, ratio] pair of a row of us. */
  predicate KeysIn(rows: seq<seq<Cell>>, us: seq<seq<Cell>>) {
    forall i :: 0 <= i < |rows| ==> |rows[i]| >= 2 && [rows[i][0], rows[i][1]] in us
  }

  /** A left merge keeps the key pairs of its left rows. */
  lemma MergeKeepsKeys(left: seq<seq<Cell>>, right: seq<seq<Cell>>, w: nat, us: seq<seq<Cell>>)
    requires w >= 2 && forall i :: 0 <= i < |left| ==> |left[i]| == w && left[i][0].Whole?
    requires forall i :: 0 <= i < |right| ==> |right[i]| == 2
    requires KeysIn(left, us)
    ensures KeysIn(LeftMerge(left, right, w), us)
  {
    var m := LeftMerge(left, right, w);
    forall k | 0 <= k < |m| ensures [m[k][0], m[k][1]] in us {
      var a := MergedRowFromLeft(left, right, w, k);
      assert m[k][0] == m[k][..w][0] == left[a][0];
      assert m[k][1] == m[k][..w][1] == left[a][1];
    }
  }

  /** After two left merges a row still starts with the [Year, ratio] of a left row. */
  lemma TwoMergesKeepKey(us: seq<seq<Cell>>, r1: seq<seq<Cell>>, r2: seq<seq<Cell>>)
    requires forall i :: 0 <= i < |us| ==> |us[i]| == 2 && us[i][0].Whole?
    requires forall i :: 0 <= i < |r1| ==> |r1[i]| == 2
    requires forall i :: 0 <= i < |r2| ==> |r2[i]| == 2
    ensures KeysIn(LeftMerge(LeftMerge(us, r1, 2), r2, 4), us)
  {
    assert forall i :: 0 <= i < |us| ==> [us[i][0], us[i][1]] == us[i];
    MergeKeepsKeys(us, r1, 2, us);
    MergeKeepsKeys(LeftMerge(us, r1, 2), r2, 4, us);
  }

  /** range(2024, 2027): the years the three forecast periods stand for. */
  function ForecastYears(): (ys: seq<int>)
    ensures |ys| == Periods && forall k :: 0 <= k < |ys| ==> ys[k] == 2024 + k
  {
    seq(2027 - 2024, k requires 0 <= k < 2027 - 2024 => 2024 + k)
  }

  /** fit_arima_and_forecast(..., periods=3). */
  const Periods: nat := 3

  /** One forecast year per period, right after the last data year 2023. */
  lemma ForecastYearsAre()
    ensures ForecastYears() == [2024, 2025, 2026]
  {
  }
}
