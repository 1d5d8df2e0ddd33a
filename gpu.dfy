/**
 * The GPU ranking page: the manufacturer, series and generation read off a
 * card name, the sidebar filters, the top-20 view, the group sizes per
 * manufacturer or series and the strongest card of each manufacturer.
 */
module Gpu {
  import opened Wrappers
  import opened Text
  import Seqs

  /** One row of the ranking table: 显卡名称, 显卡数量, 显卡平均token and 排名. */
  datatype Card = Card(name: string, count: int, token: real, rank: int)

  function Token(c: Card): real { c.token }

  function NameOf(c: Card): string { c.name }

  // ---------------------------------------------------------------------
  // Manufacturer

  /**
   * `x.split()[0] if ' ' in x else x`. A name that holds a space but nothing
   * else than whitespace splits into no words, and indexing that raises:
   * None.
   */
  function Manufacturer(name: string): (r: Option<string>)
    ensures !Contains(name, " ") ==> r == Some(name)
    ensures Contains(name, " ") && r.Some? ==> r.value != [] && NoSpace(r.value)
  {
    if Contains(name, " ") then
      var parts := Split(name);
      if parts == [] then None else Some(parts[0])
    else Some(name)
  }

  /** A name whose first word is followed by a space has that word as manufacturer. */
  lemma ManufacturerFirstWord(w: string, rest: string)
    requires w != [] && NoSpace(w)
    requires rest != [] && rest[0] == ' '
    ensures Manufacturer(w + rest) == Some(w)
  {
    var name := w + rest;
    assert name[|w|..|w| + 1] == " ";
    assert OccursAt(name, " ", |w|);
    ContainsAt(name, " ");
    SplitFirstToken(w, rest);
  }

  /** A name made of spaces only raises an IndexError. */
  lemma ManufacturerBlank(name: string)
    requires name != [] && forall i :: 0 <= i < |name| ==> name[i] == ' '
    ensures Manufacturer(name) == None
  {
    assert StartsWith(name, " ");
    assert TrimStart(name) == [];
  }

  /**
   * sorted(df['显卡名称'].apply(manufacturer).unique()): every manufacturer
   * once, in increasing order; None when the apply raises.
   */
  function ManufacturerList(names: seq<string>): (r: Option<seq<string>>)
    ensures r.Some? <==> forall i :: 0 <= i < |names| ==> Manufacturer(names[i]).Some?
    ensures r.Some? ==> Seqs.StrictlySorted(r.value, StrLess)
    ensures r.Some? ==> forall i :: 0 <= i < |names| ==> Manufacturer(names[i]).value in r.value
    ensures r.Some? ==> forall k :: 0 <= k < |r.value| ==>
      exists i :: 0 <= i < |names| && Manufacturer(names[i]) == Some(r.value[k])
  {
    match Seqs.ConvertAll(names, Manufacturer)
    case None => None
    case Some(ms) =>
      StrLessStrictTotal();
      var r := Seqs.SortedDistinct(ms, StrLess);
      assert forall k :: 0 <= k < |r| ==> exists i :: 0 <= i < |names| && ms[i] == r[k];
      Some(r)
  }

  /** The manufacturer list holds no name twice. */
  lemma ManufacturerListDistinct(names: seq<string>)
    requires ManufacturerList(names).Some?
    ensures Seqs.Distinct(ManufacturerList(names).value)
  {
    StrLessStrictTotal();
    Seqs.StrictlySortedDistinct(ManufacturerList(names).value, StrLess);
  }

  // ---------------------------------------------------------------------
  // Sidebar filters

  /**
   * The sidebar selection: the chosen manufacturers and the slider ranges
   * for the average token rate, the card count and the rank.
   */
  datatype Query = Query(makers: seq<string>, tokenLo: real, tokenHi: real,
                         countLo: int, countHi: int, rankLo: int, rankHi: int)

  /** any(m in x for m in selected). */
  predicate MentionsAny(name: string, makers: seq<string>)
    decreases |makers|
  {
    makers != [] && (Contains(name, makers[0]) || MentionsAny(name, makers[1..]))
  }

  lemma {:induction false} MentionsAnyExists(name: string, makers: seq<string>)
    ensures MentionsAny(name, makers) <==> exists k :: 0 <= k < |makers| && Contains(name, makers[k])
    decreases |makers|
  {
    if makers != [] {
      MentionsAnyExists(name, makers[1..]);
      if exists k :: 0 <= k < |makers| && Contains(name, makers[k]) {
        var k :| 0 <= k < |makers| && Contains(name, makers[k]);
        if k > 0 {
          assert makers[1..][k - 1] == makers[k];
        }
      }
      if MentionsAny(name, makers[1..]) {
        var k :| 0 <= k < |makers[1..]| && Contains(name, makers[1..][k]);
        assert makers[k + 1] == makers[1..][k];
      }
    }
  }

  predicate ByMaker(q: Query, c: Card) { MentionsAny(c.name, q.makers) }

  predicate ByToken(q: Query, c: Card) { q.tokenLo <= c.token <= q.tokenHi }

  predicate ByCount(q: Query, c: Card) { q.countLo <= c.count <= q.countHi }

  predicate ByRank(q: Query, c: Card) { q.rankLo <= c.rank <= q.rankHi }

  /** Every condition of the page; the manufacturer test only for a non-empty selection. */
  predicate Keeps(q: Query, c: Card) {
    (q.makers == [] || ByMaker(q, c)) && ByToken(q, c) && ByCount(q, c) && ByRank(q, c)
  }

  /** The rows the sidebar keeps. */
  function Selection(df: seq<Card>, q: Query): seq<Card> {
    Seqs.Filter(df, c => Keeps(q, c))
  }

  /** The boolean masks of the page, one per widget. */
  function MakerMask(q: Query): Card -> bool { c => ByMaker(q, c) }

  function TokenMask(q: Query): Card -> bool { c => ByToken(q, c) }

  function CountMask(q: Query): Card -> bool { c => ByCount(q, c) }

  function RankMask(q: Query): Card -> bool { c => ByRank(q, c) }

  /**
   * filtered_df narrowed masks one after another: the manufacturer mask
   * when any manufacturer is selected, then the three inclusive ranges.
   */
  method ApplyFilters(df: seq<Card>, q: Query) returns (filtered: seq<Card>)
    ensures filtered == Selection(df, q)
  {
    filtered := df;
    if q.makers != [] {
      filtered := Seqs.Filter(filtered, MakerMask(q));
    }
    var afterMaker := filtered;
    filtered := Seqs.Filter(filtered, TokenMask(q));
    filtered := Seqs.Filter(filtered, CountMask(q));
    filtered := Seqs.Filter(filtered, RankMask(q));
    MasksInSequence(df, q, afterMaker);
  }

  /** Narrowing by the four masks in turn keeps exactly the selection. */
  lemma MasksInSequence(df: seq<Card>, q: Query, afterMaker: seq<Card>)
    requires afterMaker == if q.makers == [] then df else Seqs.Filter(df, MakerMask(q))
    ensures Seqs.Filter(Seqs.Filter(Seqs.Filter(afterMaker, TokenMask(q)), CountMask(q)), RankMask(q))
      == Selection(df, q)
  {
    var byMaker := (c: Card) => q.makers == [] || ByMaker(q, c);
    var upToToken := (c: Card) => byMaker(c) && ByToken(q, c);
    var upToCount := (c: Card) => upToToken(c) && ByCount(q, c);
    var upToRank := (c: Card) => upToCount(c) && ByRank(q, c);
    if q.makers != [] {
      Seqs.FilterCongruent(df, MakerMask(q), byMaker);
    } else {
      Seqs.FilterAll(df, byMaker);
    }
    Seqs.FilterFilter(df, byMaker, TokenMask(q), upToToken);
    Seqs.FilterFilter(df, upToToken, CountMask(q), upToCount);
    Seqs.FilterFilter(df, upToCount, RankMask(q), upToRank);
    Seqs.FilterCongruent(df, upToRank, c => Keeps(q, c));
  }

  /**
   * The selection keeps the table's order, keeps exactly the rows inside
   * all three ranges that mention a selected manufacturer, and ignores the
   * manufacturers when none is selected.
   */
  lemma SelectionSpec(df: seq<Card>, q: Query)
    ensures var r := Selection(df, q);
      && Seqs.IsSubseq(r, df)
      && (forall i :: 0 <= i < |r| ==>
            q.tokenLo <= r[i].token <= q.tokenHi && q.countLo <= r[i].count <= q.countHi
            && q.rankLo <= r[i].rank <= q.rankHi)
      && (forall i :: 0 <= i < |r| && q.makers != [] ==>
            exists k :: 0 <= k < |q.makers| && Contains(r[i].name, q.makers[k]))
      && (forall i :: 0 <= i < |df| && Keeps(q, df[i]) ==> df[i] in r)
  {
    var r := Selection(df, q);
    Seqs.FilterIsSubseq(df, c => Keeps(q, c));
    forall i | 0 <= i < |r| && q.makers != []
      ensures exists k :: 0 <= k < |q.makers| && Contains(r[i].name, q.makers[k])
    {
      MentionsAnyExists(r[i].name, q.makers);
    }
  }

  /** With no manufacturer selected only the ranges decide. */
  lemma SelectionWithoutMakers(df: seq<Card>, q: Query)
    requires q.makers == []
    ensures Selection(df, q) == Seqs.Filter(df, c => ByToken(q, c) && ByCount(q, c) && ByRank(q, c))
  {
    Seqs.FilterCongruent(df, c => Keeps(q, c), c => ByToken(q, c) && ByCount(q, c) && ByRank(q, c));
  }

  // ---------------------------------------------------------------------
  // Top 20

  /** sort_values('显卡平均token', ascending=False).head(20). */
  function Top20(filtered: seq<Card>): (r: seq<Card>)
    ensures |r| == if |filtered| < 20 then |filtered| else 20
    ensures Seqs.SortedBy(r, Token, true)
  {
    Seqs.Largest(filtered, Token, 20)
  }

  /** The top 20 and the rows left out split the table, and no row left out is faster than one kept. */
  lemma Top20Dominates(filtered: seq<Card>)
    ensures var top := Top20(filtered);
      var rest := Seqs.SortBy(filtered, Token, true)[|top|..];
      && multiset(top) + multiset(rest) == multiset(filtered)
      && forall x, y :: x in top && y in rest ==> x.token >= y.token
  {
    Seqs.LargestDominates(filtered, Token, 20);
  }

  // ---------------------------------------------------------------------
  // Group sizes

  /** One line of groupby(column).size(): a value and how many rows hold it. */
  datatype GroupSize = GroupSize(key: string, size: nat)

  function Same(s: string): string { s }

  function Sizes(column: seq<string>, keys: seq<string>): (r: seq<GroupSize>)
    ensures |r| == |keys|
    ensures forall k :: 0 <= k < |keys| ==> r[k] == GroupSize(keys[k], Seqs.CountKey(column, Same, keys[k]))
  {
    if keys == [] then [] else [GroupSize(keys[0], Seqs.CountKey(column, Same, keys[0]))] + Sizes(column, keys[1..])
  }

  /** groupby(column).size(): every distinct value, in increasing order, with its count. */
  function GroupSizes(column: seq<string>): (r: seq<GroupSize>) {
    StrLessStrictTotal();
    Sizes(column, Seqs.SortedDistinct(column, StrLess))
  }

  function TotalSize(gs: seq<GroupSize>): nat {
    if gs == [] then 0 else gs[0].size + TotalSize(gs[1..])
  }

  lemma {:induction false} TotalSizeCounts(column: seq<string>, keys: seq<string>)
    ensures TotalSize(Sizes(column, keys)) == Seqs.SumCounts(column, Same, keys)
  {
    if keys != [] {
      assert Sizes(column, keys)[1..] == Sizes(column, keys[1..]);
      TotalSizeCounts(column, keys[1..]);
    }
  }

  /** A value that occurs is counted at least once. */
  lemma {:induction false} CountOccurring(column: seq<string>, m: string)
    requires m in column
    ensures Seqs.CountKey(column, Same, m) >= 1
  {
    if column[0] != m {
      assert m in column[1..];
      CountOccurring(column[1..], m);
    }
  }

  /**
   * The groups are the distinct values, each at least once in the column,
   * and their sizes add up to the number of rows.
   */
  lemma GroupSizesSum(column: seq<string>)
    ensures var gs := GroupSizes(column);
      && TotalSize(gs) == |column|
      && (forall k :: 0 <= k < |gs| ==> gs[k].key in column && gs[k].size >= 1)
      && (forall i :: 0 <= i < |column| ==> exists k :: 0 <= k < |gs| && gs[k].key == column[i])
      && (forall j, k :: 0 <= j < k < |gs| ==> gs[j].key != gs[k].key)
  {
    StrLessStrictTotal();
    var keys := Seqs.SortedDistinct(column, StrLess);
    var gs := GroupSizes(column);
    Seqs.StrictlySortedDistinct(keys, StrLess);
    Seqs.GroupSizesSum(column, Same, keys);
    TotalSizeCounts(column, keys);
    forall k | 0 <= k < |gs| ensures gs[k].key in column && gs[k].size >= 1 {
      CountOccurring(column, keys[k]);
    }
    forall i | 0 <= i < |column| ensures exists k :: 0 <= k < |gs| && gs[k].key == column[i] {
      var k :| 0 <= k < |keys| && keys[k] == column[i];
      assert gs[k].key == column[i];
    }
  }

  // ---------------------------------------------------------------------
  // Series and generation

  /** The nine labels extract_series returns. */
  datatype SeriesName =
    GeForce | Tesla | Quadro | Titan | RtxProfessional | ASeries | HSeries | Jetson | OtherSeries

  /** The label as the page shows it. */
  function SeriesText(s: SeriesName): string {
    match s
    case GeForce => "GeForce"
    case Tesla => "Tesla"
    case Quadro => "Quadro"
    case Titan => "TITAN"
    case RtxProfessional => "RTX Professional"
    case ASeries => "A Series"
    case HSeries => "H Series"
    case Jetson => "Jetson"
    case OtherSeries => "Other"
  }

  /** The nine labels are nine different strings. */
  lemma SeriesTextInjective(a: SeriesName, b: SeriesName)
    ensures SeriesText(a) == SeriesText(b) ==> a == b
  {
    if a != b {
      var s, t := SeriesText(a), SeriesText(b);
      if |s| == |t| {
        assert s[0] != t[0] || s[1] != t[1];
      }
    }
  }

  /** extract_series: the product line named by the second word of the card name. */
  function Series(name: string): SeriesName {
    SeriesOfWords(name, Split(name))
  }

  /** extract_series on the words parts of name. */
  function SeriesOfWords(name: string, parts: seq<string>): SeriesName {
    if |parts| > 1 then
      if parts[1] == "GeForce" then GeForce
      else if parts[1] == "Tesla" then Tesla
      else if parts[1] == "Quadro" then Quadro
      else if parts[1] == "TITAN" then Titan
      else if parts[1] == "RTX" && !Contains(name, "Quadro") then RtxProfessional
      else if parts[1] == "A" && |parts[1]| <= 2 then ASeries
      else if parts[1] == "H" && |parts[1]| <= 2 then HSeries
      else if Contains(name, "Jetson") then Jetson
      else OtherSeries
    else OtherSeries
  }

  /**
   * Which names get which label: a name of fewer than two words is 'Other';
   * a second word naming one of the four product lines, or A, or H, gives
   * that label; RTX gives 'RTX Professional' exactly when the name does not
   * mention Quadro; every other name is 'Jetson' when it mentions Jetson and
   * 'Other' when it does not.
   */
  lemma SeriesRules(name: string, parts: seq<string>)
    ensures |parts| <= 1 ==> SeriesOfWords(name, parts) == OtherSeries
    ensures |parts| > 1 && parts[1] in ["GeForce", "Tesla", "Quadro", "TITAN"] ==>
      SeriesText(SeriesOfWords(name, parts)) == parts[1]
    ensures |parts| > 1 && parts[1] == "A" ==> SeriesOfWords(name, parts) == ASeries
    ensures |parts| > 1 && parts[1] == "H" ==> SeriesOfWords(name, parts) == HSeries
    ensures SeriesOfWords(name, parts) == RtxProfessional <==>
      |parts| > 1 && parts[1] == "RTX" && !Contains(name, "Quadro")
    ensures |parts| > 1 && parts[1] !in ["GeForce", "Tesla", "Quadro", "TITAN", "RTX", "A", "H"] ==>
      (SeriesOfWords(name, parts) == Jetson <==> Contains(name, "Jetson"))
  {
  }

  /** The words of "maker second rest": the first two are maker and second. */
  lemma SecondWord(maker: string, second: string, rest: string)
    requires maker != [] && NoSpace(maker) && second != [] && NoSpace(second)
    requires rest == [] || IsSpace(rest[0])
    ensures var parts := Split(maker + " " + second + rest);
      |parts| >= 2 && parts[0] == maker && parts[1] == second
  {
    var words := second + rest;
    var tail := " " + words;
    Seqs.Regroup(maker, " ", second, rest);
    SplitTwoTokens(maker, tail, words, second, rest);
  }

  /** A card whose second word is one of the four product lines belongs to it. */
  lemma SeriesOfProductLine(maker: string, second: string, rest: string)
    requires maker != [] && NoSpace(maker) && NoSpace(second)
    requires second in ["GeForce", "Tesla", "Quadro", "TITAN"]
    requires rest == [] || IsSpace(rest[0])
    ensures SeriesText(Series(maker + " " + second + rest)) == second
  {
    SecondWord(maker, second, rest);
    SeriesRules(maker + " " + second + rest, Split(maker + " " + second + rest));
  }

  /** A one-word name has no series. */
  lemma SeriesOneWord(name: string)
    requires name != [] && NoSpace(name)
    ensures Series(name) == OtherSeries
  {
    SplitNoSpace(name);
  }

  /** The generations extract_generation tells apart. */
  datatype GenerationName = Rtx5000 | Rtx4000 | Rtx3000 | Rtx2000 | Gtx1600 | Gtx1000 | OtherGeneration

  function GenerationText(g: GenerationName): string {
    match g
    case Rtx5000 => "RTX 5000"
    case Rtx4000 => "RTX 4000"
    case Rtx3000 => "RTX 3000"
    case Rtx2000 => "RTX 2000"
    case Gtx1600 => "GTX 1600"
    case Gtx1000 => "GTX 1000"
    case OtherGeneration => "Other"
  }

  /** The substrings extract_generation tests, in its order, and the generation each one names. */
  const GenerationKeys: seq<string> := ["RTX 5", "RTX 4", "RTX 3", "RTX 2", "GTX 16", "GTX 10"]

  const GenerationOrder: seq<GenerationName> := [Rtx5000, Rtx4000, Rtx3000, Rtx2000, Gtx1600, Gtx1000]

  /** extract_generation: the first of the six substrings the name holds names the generation. */
  function Generation(name: string): GenerationName {
    if Contains(name, "RTX 5") then Rtx5000
    else if Contains(name, "RTX 4") then Rtx4000
    else if Contains(name, "RTX 3") then Rtx3000
    else if Contains(name, "RTX 2") then Rtx2000
    else if Contains(name, "GTX 16") then Gtx1600
    else if Contains(name, "GTX 10") then Gtx1000
    else OtherGeneration
  }

  /**
   * The first substring wins: the generation is the one of key k exactly
   * when the name holds key k and none of the keys tested before it.
   */
  lemma GenerationFirstWins(name: string, k: nat)
    requires k < |GenerationKeys|
    ensures Generation(name) == GenerationOrder[k] <==>
      Contains(name, GenerationKeys[k]) && forall j :: 0 <= j < k ==> !Contains(name, GenerationKeys[j])
  {
    KeysInOrder();
  }

  /** 'Other' exactly when the name holds none of the six substrings. */
  lemma GenerationOther(name: string)
    ensures Generation(name) == OtherGeneration <==>
      forall j :: 0 <= j < |GenerationKeys| ==> !Contains(name, GenerationKeys[j])
  {
    KeysInOrder();
  }

  lemma KeysInOrder()
    ensures GenerationKeys[0] == "RTX 5" && GenerationKeys[1] == "RTX 4" && GenerationKeys[2] == "RTX 3"
    ensures GenerationKeys[3] == "RTX 2" && GenerationKeys[4] == "GTX 16" && GenerationKeys[5] == "GTX 10"
    ensures GenerationOrder[0] == Rtx5000 && GenerationOrder[1] == Rtx4000 && GenerationOrder[2] == Rtx3000
    ensures GenerationOrder[3] == Rtx2000 && GenerationOrder[4] == Gtx1600 && GenerationOrder[5] == Gtx1000
  {
  }

  /** str.contains('NVIDIA') on the card name. */
  predicate IsNvidia(c: Card) { Contains(c.name, "NVIDIA") }

  function SeriesLabelOf(c: Card): string { SeriesText(Series(c.name)) }

  /** nvidia_df with its 系列 column: the series label of every card whose name mentions NVIDIA. */
  function SeriesColumn(filtered: seq<Card>): (r: seq<string>)
    ensures |r| == |Seqs.Filter(filtered, IsNvidia)|
  {
    Seqs.Map(Seqs.Filter(filtered, IsNvidia), SeriesLabelOf)
  }

  /** The groups of a derived column are values the derivation takes, and their sizes add up to the rows. */
  lemma GroupsOfDerived<T>(s: seq<T>, f: T -> string, p: string -> bool)
    requires forall x :: p(f(x))
    ensures var gs := GroupSizes(Seqs.Map(s, f));
      && TotalSize(gs) == |s|
      && forall k :: 0 <= k < |gs| ==> p(gs[k].key)
  {
    GroupSizesSum(Seqs.Map(s, f));
  }

  /** One of the nine series labels. */
  ghost predicate IsSeriesLabel(t: string) {
    exists s :: SeriesText(s) == t
  }

  lemma SeriesLabelOfCard(c: Card)
    ensures IsSeriesLabel(SeriesLabelOf(c))
  {
    var s := Series(c.name);
    assert SeriesText(s) == SeriesLabelOf(c);
  }

  /** The series groups of the NVIDIA cards are series labels, and their sizes add up to the NVIDIA cards. */
  lemma SeriesGroups(filtered: seq<Card>)
    ensures var gs := GroupSizes(SeriesColumn(filtered));
      && TotalSize(gs) == |Seqs.Filter(filtered, IsNvidia)|
      && forall k :: 0 <= k < |gs| ==> IsSeriesLabel(gs[k].key)
  {
    forall c ensures IsSeriesLabel(SeriesLabelOf(c)) {
      SeriesLabelOfCard(c);
    }
    GroupsOfDerived(Seqs.Filter(filtered, IsNvidia), SeriesLabelOf, IsSeriesLabel);
  }

  // ---------------------------------------------------------------------
  // Strongest card per manufacturer

  /** A filtered row with the 制造商 column added. */
  datatype MakerCard = MakerCard(card: Card, maker: string)

  function MakerOf(x: MakerCard): string { x.maker }

  function TokenOf(x: MakerCard): real { x.card.token }

  /** filtered_df['制造商'] = ...apply(manufacturer): None when the apply raises. */
  function WithMakers(filtered: seq<Card>): (r: Option<seq<MakerCard>>)
    ensures r.Some? <==> forall i :: 0 <= i < |filtered| ==> Manufacturer(filtered[i].name).Some?
    ensures r.Some? ==> |r.value| == |filtered|
    ensures r.Some? ==> forall i :: 0 <= i < |filtered| ==>
      r.value[i] == MakerCard(filtered[i], Manufacturer(filtered[i].name).value)
  {
    var names := Seqs.Map(filtered, NameOf);
    match Seqs.ConvertAll(names, Manufacturer)
    case None => None
    case Some(ms) => Some(seq(|filtered|, i requires 0 <= i < |filtered| => MakerCard(filtered[i], ms[i])))
  }

  /**
   * idxmax within the rows of manufacturer m among the first n rows: the
   * first row holding the largest token rate, or None when m has no row.
   */
  function IdxMax(rows: seq<MakerCard>, m: string, n: nat): (r: Option<nat>)
    requires n <= |rows|
    ensures r.None? <==> forall j :: 0 <= j < n ==> rows[j].maker != m
    ensures r.Some? ==> r.value < n && rows[r.value].maker == m
    ensures r.Some? ==> forall j :: 0 <= j < n && rows[j].maker == m ==> rows[j].card.token <= rows[r.value].card.token
    ensures r.Some? ==> forall j :: 0 <= j < r.value && rows[j].maker == m ==> rows[j].card.token < rows[r.value].card.token
  {
    if n == 0 then None
    else
      var prev := IdxMax(rows, m, n - 1);
      if rows[n - 1].maker != m then prev
      else if prev.None? || rows[prev.value].card.token < rows[n - 1].card.token then Some(n - 1)
      else prev
  }

  predicate HasMaker(rows: seq<MakerCard>, m: string) {
    exists i :: 0 <= i < |rows| && rows[i].maker == m
  }

  /** The idxmax row of manufacturer m: one of its rows, and none of its rows is faster. */
  function Champion(rows: seq<MakerCard>, m: string): (x: MakerCard)
    requires HasMaker(rows, m)
    ensures x in rows && x.maker == m
    ensures forall y :: y in rows && y.maker == m ==> y.card.token <= x.card.token
  {
    var i :| 0 <= i < |rows| && rows[i].maker == m;
    var best := IdxMax(rows, m, |rows|);
    assert best.Some?;
    assert forall y :: y in rows ==> exists j :: 0 <= j < |rows| && rows[j] == y;
    rows[best.value]
  }

  /** The champion of each manufacturer in keys, in the order of keys. */
  function Champions(rows: seq<MakerCard>, keys: seq<string>): (r: seq<MakerCard>)
    requires forall k :: 0 <= k < |keys| ==> HasMaker(rows, keys[k])
    ensures |r| == |keys|
    ensures forall k :: 0 <= k < |keys| ==> r[k] == Champion(rows, keys[k])
  {
    seq(|keys|, k requires 0 <= k < |keys| => Champion(rows, keys[k]))
  }

  function MakerKeys(rows: seq<MakerCard>): (keys: seq<string>)
    ensures forall k :: 0 <= k < |keys| ==> HasMaker(rows, keys[k])
    ensures forall i :: 0 <= i < |rows| ==> rows[i].maker in keys
    ensures Seqs.Distinct(keys)
  {
    StrLessStrictTotal();
    var column := Seqs.Map(rows, MakerOf);
    var keys := Seqs.SortedDistinct(column, StrLess);
    Seqs.StrictlySortedDistinct(keys, StrLess);
    assert forall k :: 0 <= k < |keys| ==> exists i :: 0 <= i < |rows| && column[i] == keys[k];
    assert forall i :: 0 <= i < |rows| ==> column[i] == rows[i].maker;
    keys
  }

  /**
   * filtered_df.loc[groupby('制造商')['显卡平均token'].idxmax()] sorted by
   * decreasing token rate.
   */
  function TopByManufacturer(rows: seq<MakerCard>): (r: seq<MakerCard>)
    ensures Seqs.SortedBy(r, TokenOf, true)
    ensures |r| == |MakerKeys(rows)|
  {
    Seqs.SortBy(Champions(rows, MakerKeys(rows)), TokenOf, true)
  }

  /** A row of the champions of keys is the champion of its own manufacturer. */
  lemma ChampionOfOwnMaker(rows: seq<MakerCard>, keys: seq<string>, x: MakerCard)
    requires forall k :: 0 <= k < |keys| ==> HasMaker(rows, keys[k])
    requires x in multiset(Champions(rows, keys))
    ensures HasMaker(rows, x.maker) && x == Champion(rows, x.maker)
  {
    var champs := Champions(rows, keys);
    var k :| 0 <= k < |champs| && champs[k] == x;
    assert x.maker == keys[k];
  }

  /** Every row shown is the champion of its own manufacturer. */
  lemma ShownAreChampions(rows: seq<MakerCard>)
    ensures forall x :: x in TopByManufacturer(rows) ==> HasMaker(rows, x.maker) && x == Champion(rows, x.maker)
  {
    var keys := MakerKeys(rows);
    forall x | x in TopByManufacturer(rows)
      ensures HasMaker(rows, x.maker) && x == Champion(rows, x.maker)
    {
      assert x in multiset(TopByManufacturer(rows));
      ChampionOfOwnMaker(rows, keys, x);
    }
  }

  /** Every row shown is a row of its manufacturer with no faster row of the same manufacturer. */
  lemma TopByManufacturerBest(rows: seq<MakerCard>)
    ensures forall x :: x in TopByManufacturer(rows) ==>
      x in rows && forall y :: y in rows && y.maker == x.maker ==> y.card.token <= x.card.token
  {
    ShownAreChampions(rows);
  }

  /** Two rows shown for the same manufacturer are the same row. */
  lemma TopByManufacturerUnique(rows: seq<MakerCard>)
    ensures forall x, y :: x in TopByManufacturer(rows) && y in TopByManufacturer(rows) && x.maker == y.maker ==> x == y
  {
    ShownAreChampions(rows);
  }

  /** Every manufacturer with a row has its row shown. */
  lemma TopByManufacturerCovers(rows: seq<MakerCard>)
    ensures forall y :: y in rows ==> exists x :: x in TopByManufacturer(rows) && x.maker == y.maker
  {
    var keys := MakerKeys(rows);
    var champs := Champions(rows, keys);
    var r := TopByManufacturer(rows);
    assert multiset(r) == multiset(champs);
    forall y | y in rows ensures exists x :: x in r && x.maker == y.maker {
      var i :| 0 <= i < |rows| && rows[i] == y;
      var k :| 0 <= k < |keys| && keys[k] == y.maker;
      var x := champs[k];
      assert x.maker == y.maker;
      assert x in multiset(champs);
      assert x in r;
    }
  }
}
