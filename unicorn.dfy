/**
 * The global unicorn page: a table of unicorn counts with one row per
 * country and one column per year, the three metrics of the selected
 * year, its top ten countries and its pie of the top five plus the rest.
 */
module Unicorn {
  import opened Wrappers
  import opened Text
  import Seqs
  import Frames

  /** One row of the table: the location (the index) and one count per year column. */
  datatype Location = Location(country: string, counts: seq<int>)

  /** The table after set_index: the year column labels and the rows. */
  datatype Table = Table(labels: seq<string>, rows: seq<Location>)

  /** Every row has one count per year column. */
  predicate OneCountPerLabel(t: Table) {
    forall i :: 0 <= i < |t.rows| ==> |t.rows[i].counts| == |t.labels|
  }

  function LocationCountry(l: Location): string { l.country }

  /** One entry of the selected year's series: the index label and the count. */
  datatype Entry = Entry(country: string, count: int)

  function Count(e: Entry): real { e.count as real }

  function CountryOf(e: Entry): string { e.country }

  /** The label of the aggregated pie slice. */
  const OthersLabel: string := "其他"

  // ---------------------------------------------------------------------
  // The year selection

  /** df.columns.astype(int).tolist(): every label read by int(); None when one does not parse. */
  function Years(t: Table): (r: Option<seq<int>>)
    ensures r.Some? <==> forall i :: 0 <= i < |t.labels| ==> ParseInt(t.labels[i]).Some?
    ensures r.Some? ==> |r.value| == |t.labels|
    ensures r.Some? ==> forall i :: 0 <= i < |t.labels| ==> ParseInt(t.labels[i]) == Some(r.value[i])
  {
    Seqs.ConvertAll(t.labels, ParseInt)
  }

  /**
   * The selectbox preselects index len(years) - 2, the second-to-last
   * year; with fewer than two years that index is out of range and the
   * widget raises (None).
   */
  function DefaultYear(years: seq<int>): (r: Option<int>)
    ensures r.Some? <==> |years| >= 2
    ensures r.Some? ==> r.value in years && years[|years| - 2] == r.value
  {
    if |years| >= 2 then Some(years[|years| - 2]) else None
  }

  /** df[str(year)]: the column labelled with the year's decimal form; None is the KeyError. */
  function YearColumn(t: Table, year: int): (r: Option<seq<Entry>>)
    requires OneCountPerLabel(t)
    ensures r.Some? <==> IntToDecimal(year) in t.labels
    ensures r.Some? ==> |r.value| == |t.rows|
    ensures r.Some? ==> forall i :: 0 <= i < |t.rows| ==> r.value[i].country == t.rows[i].country
    ensures r.Some? ==> forall i :: 0 <= i < |t.rows| ==>
      r.value[i].count == t.rows[i].counts[Frames.ColumnIndex(t.labels, IntToDecimal(year))]
  {
    var k := Frames.ColumnIndex(t.labels, IntToDecimal(year));
    if k == |t.labels| then None
    else Some(seq(|t.rows|, i requires 0 <= i < |t.rows| => Entry(t.rows[i].country, t.rows[i].counts[k])))
  }

  /** Every label is the decimal form of the year int() reads from it. */
  predicate CanonicalLabels(labels: seq<string>) {
    forall i :: 0 <= i < |labels| ==> ParseInt(labels[i]).Some? && IntToDecimal(ParseInt(labels[i]).value) == labels[i]
  }

  /**
   * With labels written as plain decimals and no label twice, the default
   * year selects the second-to-last column of the table.
   */
  lemma DefaultYearColumn(t: Table)
    requires CanonicalLabels(t.labels) && Seqs.Distinct(t.labels) && |t.labels| >= 2
    ensures Years(t).Some? && DefaultYear(Years(t).value).Some?
    ensures Frames.ColumnIndex(t.labels, IntToDecimal(DefaultYear(Years(t).value).value)) == |t.labels| - 2
  {
    var years := Years(t).value;
    var k := |t.labels| - 2;
    assert IntToDecimal(years[k]) == t.labels[k];
    var j := Frames.ColumnIndex(t.labels, t.labels[k]);
    assert j <= k;
  }

  /** df[str(selected_year)].sort_values(ascending=False). */
  function YearData(t: Table, year: int): (r: Option<seq<Entry>>)
    requires OneCountPerLabel(t)
    ensures r.Some? <==> YearColumn(t, year).Some?
    ensures r.Some? ==> Seqs.SortedBy(r.value, Count, true)
    ensures r.Some? ==> multiset(r.value) == multiset(YearColumn(t, year).value)
  {
    match YearColumn(t, year)
    case None => None
    case Some(column) => Some(Seqs.SortBy(column, Count, true))
  }

  /** No two rows of the table share a location. */
  predicate DistinctCountries(t: Table) {
    Seqs.Distinct(Seqs.Map(t.rows, LocationCountry))
  }

  /** A sorted year keeps the table's distinct index labels distinct. */
  lemma YearDataDistinct(t: Table, year: int)
    requires OneCountPerLabel(t) && DistinctCountries(t) && YearData(t, year).Some?
    ensures Seqs.Distinct(Seqs.Map(YearData(t, year).value, CountryOf))
  {
    var column := YearColumn(t, year).value;
    assert Seqs.Map(column, CountryOf) == Seqs.Map(t.rows, LocationCountry);
    Seqs.DistinctKeysPermutation(column, YearData(t, year).value, CountryOf);
  }

  // ---------------------------------------------------------------------
  // The three metrics

  /** year_data.sum(). */
  function Total(s: seq<Entry>): int {
    if s == [] then 0 else s[0].count + Total(s[1..])
  }

  lemma {:induction false} TotalIsSum(s: seq<Entry>)
    ensures Total(s) as real == Seqs.SumBy(s, Count)
  {
    if s != [] {
      TotalIsSum(s[1..]);
    }
  }

  /** Sorting does not change the total: the metric is the sum over all countries of the year. */
  lemma TotalOfYear(t: Table, year: int)
    requires OneCountPerLabel(t) && YearData(t, year).Some?
    ensures Total(YearData(t, year).value) == Total(YearColumn(t, year).value)
  {
    var column := YearColumn(t, year).value;
    var sorted := YearData(t, year).value;
    TotalIsSum(column);
    TotalIsSum(sorted);
    Seqs.SumByPermutation(sorted, column, Count);
  }

  /** year_data.index[0] and year_data.iloc[0]; None is the IndexError of an empty year. */
  function TopCountry(yearData: seq<Entry>): (r: Option<Entry>)
    ensures r.Some? <==> yearData != []
    ensures r.Some? ==> r.value in yearData
  {
    if yearData == [] then None else Some(yearData[0])
  }

  /** The first entry of the sorted year is a country of the column with the largest count. */
  lemma TopCountryIsMaximum(column: seq<Entry>)
    requires column != []
    ensures var top := TopCountry(Seqs.SortBy(column, Count, true));
      && top.Some? && top.value in column
      && forall e :: e in column ==> e.count <= top.value.count
  {
    var sorted := Seqs.SortBy(column, Count, true);
    assert sorted[0] in multiset(column);
    forall e | e in column ensures e.count <= sorted[0].count {
      assert e in multiset(sorted);
      var j :| 0 <= j < |sorted| && sorted[j] == e;
      if j > 0 {
        assert Seqs.Ordered(sorted[0], sorted[j], Count, true);
      }
    }
  }

  predicate HasUnicorn(e: Entry) { e.count > 0 }

  /** len(year_data[year_data > 0]). */
  function WithUnicorns(yearData: seq<Entry>): (n: nat)
    ensures n <= |yearData|
  {
    Seqs.FilterIsSubseq(yearData, HasUnicorn);
    |Seqs.Filter(yearData, HasUnicorn)|
  }

  /** In the descending year the countries with unicorns are exactly a prefix. */
  lemma {:induction false} WithUnicornsPrefix(yearData: seq<Entry>)
    requires Seqs.SortedBy(yearData, Count, true)
    ensures var k := WithUnicorns(yearData);
      && (forall i :: 0 <= i < k ==> yearData[i].count > 0)
      && (forall i :: k <= i < |yearData| ==> yearData[i].count <= 0)
  {
    if yearData != [] {
      var rest := yearData[1..];
      assert Seqs.SortedBy(rest, Count, true) by {
        forall i, j | 0 <= i < j < |rest| ensures Seqs.Ordered(rest[i], rest[j], Count, true) {
          assert rest[i] == yearData[i + 1] && rest[j] == yearData[j + 1];
        }
      }
      if HasUnicorn(yearData[0]) {
        WithUnicornsPrefix(rest);
        assert WithUnicorns(yearData) == WithUnicorns(rest) + 1;
        forall i | 0 <= i < |yearData| - 1 ensures yearData[i + 1] == rest[i] {}
      } else {
        forall i | 0 <= i < |yearData| ensures yearData[i].count <= 0 {
          if i > 0 {
            assert Seqs.Ordered(yearData[0], yearData[i], Count, true);
          }
        }
        Seqs.FilterNone(yearData, HasUnicorn);
      }
    }
  }

  /** Sorting does not change how many countries have a unicorn. */
  lemma WithUnicornsOfColumn(column: seq<Entry>)
    ensures WithUnicorns(Seqs.SortBy(column, Count, true)) == |Seqs.Filter(column, HasUnicorn)|
  {
    var sorted := Seqs.SortBy(column, Count, true);
    var one := (e: Entry) => 1.0;
    Seqs.SumByFilterPermutation(sorted, column, HasUnicorn, one);
    Seqs.SumByOnes(Seqs.Filter(sorted, HasUnicorn), one);
    Seqs.SumByOnes(Seqs.Filter(column, HasUnicorn), one);
  }

  // ---------------------------------------------------------------------
  // The top ten and the pie

  /** year_data.nlargest(10). */
  function TopTen(yearData: seq<Entry>): seq<Entry> {
    Seqs.Largest(yearData, Count, 10)
  }

  /**
   * The bar chart shows at most ten countries of the year, in descending
   * order, and no country left out has more unicorns than one shown.
   */
  lemma TopTenDominates(yearData: seq<Entry>)
    ensures var top := TopTen(yearData);
      && |top| == (if |yearData| < 10 then |yearData| else 10)
      && Seqs.SortedBy(top, Count, true)
      && multiset(top) <= multiset(yearData)
      && forall x, y :: x in top && y in multiset(yearData) - multiset(top) ==> x.count >= y.count
  {
    var sorted := Seqs.SortBy(yearData, Count, true);
    var top := TopTen(yearData);
    Seqs.LargestDominates(yearData, Count, 10);
    LeftOutBelow(yearData, top, sorted[|top|..]);
  }

  /** Entries split into a kept part and a lower rest: whatever is not kept is the rest. */
  lemma LeftOutBelow(s: seq<Entry>, top: seq<Entry>, rest: seq<Entry>)
    requires multiset(top) + multiset(rest) == multiset(s)
    requires forall x, y :: x in top && y in rest ==> Count(x) >= Count(y)
    ensures multiset(top) <= multiset(s)
    ensures forall x, y :: x in top && y in multiset(s) - multiset(top) ==> x.count >= y.count
  {
    assert multiset(s) - multiset(top) == multiset(rest);
    forall x, y | x in top && y in multiset(s) - multiset(top) ensures x.count >= y.count {
      assert y in rest;
      assert Count(x) >= Count(y);
    }
  }

  /** ~year_data.index.isin(names). */
  function OutsideOf(names: seq<string>): Entry -> bool {
    (e: Entry) => e.country !in names
  }

  /** pd.concat([top5, Series({'其他': sum of the rest})]). */
  function PieData(yearData: seq<Entry>): (r: seq<Entry>)
    ensures |r| == (if |yearData| < 5 then |yearData| else 5) + 1
    ensures r[|r| - 1].country == OthersLabel
    ensures r[..|r| - 1] == Seqs.Largest(yearData, Count, 5)
  {
    Seqs.Largest(yearData, Count, 5) + [Entry(OthersLabel, Others(yearData))]
  }

  /** year_data[~year_data.index.isin(top5.index)].sum(). */
  function Others(yearData: seq<Entry>): int {
    Total(Seqs.Filter(yearData, OutsideOf(Seqs.Map(Seqs.Largest(yearData, Count, 5), CountryOf))))
  }

  /**
   * When no two entries of the year share a country, the pie covers every
   * unicorn of the year exactly once: its slices add up to the year's total.
   */
  lemma PieTotal(yearData: seq<Entry>)
    requires Seqs.Distinct(Seqs.Map(yearData, CountryOf))
    ensures Total(PieData(yearData)) == Total(yearData)
  {
    var sorted := Seqs.SortBy(yearData, Count, true);
    var top := Seqs.Largest(yearData, Count, 5);
    var rest := sorted[|top|..];
    assert sorted == top + rest;
    OthersIsRest(yearData);
    SlicesAddUp(yearData, sorted, top, rest, Entry(OthersLabel, Others(yearData)));
  }

  /** The "其他" slice is the total of the sorted year after its first five entries. */
  lemma OthersIsRest(yearData: seq<Entry>)
    requires Seqs.Distinct(Seqs.Map(yearData, CountryOf))
    ensures var sorted := Seqs.SortBy(yearData, Count, true);
      Others(yearData) == Total(sorted[|Seqs.Largest(yearData, Count, 5)|..])
  {
    var sorted := Seqs.SortBy(yearData, Count, true);
    var top := Seqs.Largest(yearData, Count, 5);
    Seqs.LargestPrefix(yearData, Count, 5);
    Seqs.DistinctKeysPermutation(yearData, sorted, CountryOf);
    RestTotal(yearData, sorted, top, sorted[|top|..]);
  }

  /** The rest after the top entries totals what lies outside the top countries. */
  lemma RestTotal(yearData: seq<Entry>, sorted: seq<Entry>, top: seq<Entry>, rest: seq<Entry>)
    requires multiset(yearData) == multiset(sorted) && sorted == top + rest
    requires Seqs.Distinct(Seqs.Map(sorted, CountryOf))
    ensures Total(Seqs.Filter(yearData, OutsideOf(Seqs.Map(top, CountryOf)))) == Total(rest)
  {
    var names := Seqs.Map(top, CountryOf);
    var outside := OutsideOf(names);
    OutsideTopIsRest(sorted, top, rest, names);
    Seqs.SumByFilterPermutation(yearData, sorted, outside, Count);
    TotalIsSum(rest);
    TotalIsSum(Seqs.Filter(yearData, outside));
  }

  /** Outside the top countries lies exactly the rest, when no country is listed twice. */
  lemma OutsideTopIsRest(sorted: seq<Entry>, top: seq<Entry>, rest: seq<Entry>, names: seq<string>)
    requires sorted == top + rest && names == Seqs.Map(top, CountryOf)
    requires Seqs.Distinct(Seqs.Map(sorted, CountryOf))
    ensures Seqs.Filter(sorted, OutsideOf(names)) == rest
  {
    var outside := OutsideOf(names);
    Seqs.FilterConcat(top, rest, outside);
    Seqs.FilterNone(top, outside);
    forall j | 0 <= j < |rest| ensures outside(rest[j]) {
      forall i | 0 <= i < |top| ensures names[i] != rest[j].country {
        assert Seqs.Map(sorted, CountryOf)[i] != Seqs.Map(sorted, CountryOf)[|top| + j];
      }
    }
    Seqs.FilterAll(rest, outside);
  }

  /** The top slices and one slice holding the rest's total add up to the whole. */
  lemma SlicesAddUp(s: seq<Entry>, sorted: seq<Entry>, top: seq<Entry>, rest: seq<Entry>, others: Entry)
    requires multiset(s) == multiset(sorted) && sorted == top + rest && others.count == Total(rest)
    ensures Total(top + [others]) == Total(s)
  {
    TotalIsSum(top + [others]);
    TotalIsSum(rest);
    TotalIsSum(s);
    TotalIsSum(sorted);
    TotalIsSum([others]);
    Seqs.SumByConcat(top, [others], Count);
    Seqs.SumByConcat(top, rest, Count);
    Seqs.SumByPermutation(s, sorted, Count);
  }
}
