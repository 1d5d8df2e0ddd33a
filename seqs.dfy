/**
 * Sequence operations the dataframe code is built from: boolean-mask
 * filters, sums, sorts by a numeric column, head(k)/nlargest(k), sorted
 * unique values and group sizes. A table is a sequence of rows and a
 * column is a key function on rows.
 */
module Seqs {
  import opened Wrappers

  // ---------------------------------------------------------------------
  // Filters

  /** df[mask]: the rows satisfying p, in their original order. */
  function Filter<T>(s: seq<T>, p: T -> bool): (r: seq<T>)
    ensures |r| <= |s|
    ensures forall i :: 0 <= i < |r| ==> p(r[i]) && r[i] in s
    ensures forall i :: 0 <= i < |s| && p(s[i]) ==> s[i] in r
  {
    if s == [] then [] else if p(s[0]) then [s[0]] + Filter(s[1..], p) else Filter(s[1..], p)
  }

  /** a can be obtained from b by deleting elements. */
  predicate IsSubseq<T(==)>(a: seq<T>, b: seq<T>)
    decreases |b|
  {
    a == [] || (b != [] && (IsSubseq(a, b[1..]) || (a[0] == b[0] && IsSubseq(a[1..], b[1..]))))
  }

  /** A filter keeps the order of the rows it keeps. */
  lemma {:induction false} FilterIsSubseq<T>(s: seq<T>, p: T -> bool)
    ensures IsSubseq(Filter(s, p), s)
  {
    if s != [] {
      FilterIsSubseq(s[1..], p);
      if p(s[0]) {
        var r := Filter(s, p);
        assert r[1..] == Filter(s[1..], p);
      }
    }
  }

  /** Filtering twice is filtering once by both conditions. */
  lemma {:induction false} FilterFilter<T>(s: seq<T>, p: T -> bool, q: T -> bool, pq: T -> bool)
    requires forall x :: pq(x) == (p(x) && q(x))
    ensures Filter(Filter(s, p), q) == Filter(s, pq)
  {
    if s != [] {
      FilterFilter(s[1..], p, q, pq);
      if p(s[0]) {
        assert Filter(s, p) == [s[0]] + Filter(s[1..], p);
        assert ([s[0]] + Filter(s[1..], p))[1..] == Filter(s[1..], p);
      }
    }
  }

  /** A condition every row meets keeps the whole table. */
  lemma {:induction false} FilterAll<T>(s: seq<T>, p: T -> bool)
    requires forall i :: 0 <= i < |s| ==> p(s[i])
    ensures Filter(s, p) == s
  {
    if s != [] {
      FilterAll(s[1..], p);
    }
  }

  /** Two conditions that agree on every row keep the same rows. */
  lemma {:induction false} FilterNone<T>(s: seq<T>, p: T -> bool)
    requires forall i :: 0 <= i < |s| ==> !p(s[i])
    ensures Filter(s, p) == []
  {
    if s != [] {
      FilterNone(s[1..], p);
    }
  }

  lemma {:induction false} FilterCongruent<T>(s: seq<T>, p: T -> bool, q: T -> bool)
    requires forall x :: p(x) == q(x)
    ensures Filter(s, p) == Filter(s, q)
  {
    if s != [] {
      FilterCongruent(s[1..], p, q);
    }
  }

  lemma {:induction false} FilterConcat<T>(a: seq<T>, b: seq<T>, p: T -> bool)
    ensures Filter(a + b, p) == Filter(a, p) + Filter(b, p)
  {
    if a != [] {
      var t := a[1..];
      assert (a + b)[0] == a[0] && (a + b)[1..] == t + b;
      FilterConcat(t, b, p);
      if p(a[0]) {
        assert [a[0]] + (Filter(t, p) + Filter(b, p)) == ([a[0]] + Filter(t, p)) + Filter(b, p);
      }
    } else {
      assert a + b == b;
    }
  }

  /** Concatenation regrouped to the right. */
  lemma Regroup<T>(a: seq<T>, b: seq<T>, c: seq<T>, d: seq<T>)
    ensures a + b + c + d == a + (b + (c + d))
  {
    assert a + b + c == a + (b + c);
  }

  /** A one-element prefix comes off again. */
  lemma DropFirst<T>(a: seq<T>, b: seq<T>)
    requires |a| == 1
    ensures (a + b)[0] == a[0] && (a + b)[1..] == b
  {
  }

  function Map<T, U>(s: seq<T>, f: T -> U): (r: seq<U>)
    ensures |r| == |s| && forall i :: 0 <= i < |s| ==> r[i] == f(s[i])
  {
    if s == [] then [] else [f(s[0])] + Map(s[1..], f)
  }

  /** Filtering mapped rows is mapping the rows whose image passes. */
  lemma {:induction false} MapFilter<T, U>(s: seq<T>, f: T -> U, p: U -> bool, pf: T -> bool)
    requires forall x :: pf(x) == p(f(x))
    ensures Filter(Map(s, f), p) == Map(Filter(s, pf), f)
  {
    if s != [] {
      MapFilter(s[1..], f, p, pf);
      assert Map(s, f)[1..] == Map(s[1..], f);
      if pf(s[0]) {
        var t := [s[0]] + Filter(s[1..], pf);
        assert t[1..] == Filter(s[1..], pf);
      }
    }
  }

  /** Two filters after a map are one filter before it. */
  lemma FilterFilterMap<T, U>(s: seq<T>, f: T -> U, p: U -> bool, q: U -> bool, pq: T -> bool)
    requires forall x :: pq(x) == (p(f(x)) && q(f(x)))
    ensures Filter(Filter(Map(s, f), p), q) == Map(Filter(s, pq), f)
  {
    var both := (y: U) => p(y) && q(y);
    FilterFilter(Map(s, f), p, q, both);
    MapFilter(s, f, both, pq);
  }

  /** The images of the kept elements, and only those. */
  lemma MapFilterMembers<T, U>(s: seq<T>, f: T -> U, p: T -> bool)
    ensures var r := Map(Filter(s, p), f);
      && (forall j :: 0 <= j < |r| ==> exists i :: 0 <= i < |s| && p(s[i]) && r[j] == f(s[i]))
      && (forall i :: 0 <= i < |s| && p(s[i]) ==> f(s[i]) in r)
  {
    var kept := Filter(s, p);
    var r := Map(kept, f);
    forall j | 0 <= j < |r| ensures exists i :: 0 <= i < |s| && p(s[i]) && r[j] == f(s[i]) {
      assert kept[j] in s;
    }
    forall i | 0 <= i < |s| && p(s[i]) ensures f(s[i]) in r {
      var j :| 0 <= j < |kept| && kept[j] == s[i];
      assert r[j] == f(s[i]);
    }
  }

  lemma MapMap<T, U, V>(s: seq<T>, f: T -> U, g: U -> V, fg: T -> V)
    requires forall x :: fg(x) == g(f(x))
    ensures Map(Map(s, f), g) == Map(s, fg)
  {
  }

  // ---------------------------------------------------------------------
  // Sums

  /** Series.sum() of the column f. */
  function SumBy<T>(s: seq<T>, f: T -> real): real {
    if s == [] then 0.0 else f(s[0]) + SumBy(s[1..], f)
  }

  lemma {:induction false} SumByConcat<T>(a: seq<T>, b: seq<T>, f: T -> real)
    ensures SumBy(a + b, f) == SumBy(a, f) + SumBy(b, f)
  {
    if a == [] {
      assert a + b == b;
    } else {
      assert (a + b)[1..] == a[1..] + b;
      SumByConcat(a[1..], b, f);
    }
  }

  /** Reordering the rows does not change a column's sum. */
  lemma {:induction false} SumByPermutation<T>(a: seq<T>, b: seq<T>, f: T -> real)
    requires multiset(a) == multiset(b)
    ensures SumBy(a, f) == SumBy(b, f)
    decreases |a|
  {
    if a == [] {
      assert |b| == |multiset(b)| == 0;
    } else {
      var x := a[0];
      assert x in multiset(b);
      var k :| 0 <= k < |b| && b[k] == x;
      var rest := b[..k] + b[k + 1..];
      RemoveAt(b, k);
      assert multiset(a[1..]) == multiset(a) - multiset{x} by {
        assert a == [x] + a[1..];
      }
      SumByPermutation(a[1..], rest, f);
      SumByRemove(b, k, f);
      assert SumBy(a, f) == f(x) + SumBy(a[1..], f);
    }
  }

  lemma RemoveAt<T>(b: seq<T>, k: nat)
    requires k < |b|
    ensures multiset(b[..k] + b[k + 1..]) == multiset(b) - multiset{b[k]}
  {
    assert b == b[..k] + [b[k]] + b[k + 1..];
  }

  lemma SumByRemove<T>(b: seq<T>, k: nat, f: T -> real)
    requires k < |b|
    ensures SumBy(b, f) == f(b[k]) + SumBy(b[..k] + b[k + 1..], f)
  {
    var pre, x, post := b[..k], b[k], b[k + 1..];
    var tail := [x] + post;
    assert b == pre + tail;
    SumByConcat(pre, tail, f);
    assert tail[1..] == post;
    assert SumBy(tail, f) == f(x) + SumBy(post, f);
    SumByConcat(pre, post, f);
  }

  /** Summing a column of ones counts the rows. */
  lemma {:induction false} SumByOnes<T>(s: seq<T>, one: T -> real)
    requires forall x :: one(x) == 1.0
    ensures SumBy(s, one) == |s| as real
  {
    if s != [] {
      SumByOnes(s[1..], one);
    }
  }

  /** Summing the kept rows is summing every row with the dropped ones counted as zero. */
  lemma {:induction false} SumByFilter<T>(s: seq<T>, p: T -> bool, f: T -> real, g: T -> real)
    requires forall x :: g(x) == if p(x) then f(x) else 0.0
    ensures SumBy(Filter(s, p), f) == SumBy(s, g)
  {
    if s != [] {
      SumByFilter(s[1..], p, f, g);
    }
  }

  /** The kept rows of two orderings of one table have the same sum. */
  lemma SumByFilterPermutation<T>(a: seq<T>, b: seq<T>, p: T -> bool, f: T -> real)
    requires multiset(a) == multiset(b)
    ensures SumBy(Filter(a, p), f) == SumBy(Filter(b, p), f)
  {
    var g := (x: T) => if p(x) then f(x) else 0.0;
    SumByFilter(a, p, f, g);
    SumByFilter(b, p, f, g);
    SumByPermutation(a, b, g);
  }

  // ---------------------------------------------------------------------
  // Sorting by a numeric column

  /** x may come before y in a sort by key (ascending, or descending when desc). */
  predicate Ordered<T>(x: T, y: T, key: T -> real, desc: bool) {
    if desc then key(x) >= key(y) else key(x) <= key(y)
  }

  predicate SortedBy<T>(s: seq<T>, key: T -> real, desc: bool) {
    forall i, j :: 0 <= i < j < |s| ==> Ordered(s[i], s[j], key, desc)
  }

  function Insert<T>(x: T, s: seq<T>, key: T -> real, desc: bool): (r: seq<T>)
    requires SortedBy(s, key, desc)
    ensures SortedBy(r, key, desc)
    ensures multiset(r) == multiset(s) + multiset{x}
    ensures |r| == |s| + 1
  {
    if s == [] then [x]
    else if Ordered(x, s[0], key, desc) then [x] + s
    else
      var t := Insert(x, s[1..], key, desc);
      assert s == [s[0]] + s[1..];
      HeadPrecedes(s[0], x, s[1..], t, key, desc);
      [s[0]] + t
  }

  lemma HeadPrecedes<T>(h: T, x: T, s: seq<T>, t: seq<T>, key: T -> real, desc: bool)
    requires SortedBy([h] + s, key, desc) && !Ordered(x, h, key, desc)
    requires multiset(t) == multiset(s) + multiset{x}
    requires SortedBy(t, key, desc)
    ensures SortedBy([h] + t, key, desc)
  {
    forall k | 0 <= k < |t|
      ensures Ordered(h, t[k], key, desc)
    {
      assert t[k] in multiset(t);
      if t[k] != x {
        assert t[k] in multiset(s);
        var j :| 0 <= j < |s| && s[j] == t[k];
        assert ([h] + s)[0] == h && ([h] + s)[j + 1] == s[j];
        assert Ordered(([h] + s)[0], ([h] + s)[j + 1], key, desc);
      }
    }
    var r := [h] + t;
    forall i, j | 0 <= i < j < |r|
      ensures Ordered(r[i], r[j], key, desc)
    {
      if i == 0 {
        assert r[j] == t[j - 1];
      } else {
        assert r[i] == t[i - 1] && r[j] == t[j - 1];
      }
    }
  }

  /** df.sort_values(key, ascending = !desc). */
  function SortBy<T>(s: seq<T>, key: T -> real, desc: bool): (r: seq<T>)
    ensures SortedBy(r, key, desc)
    ensures multiset(r) == multiset(s)
    ensures |r| == |s|
  {
    if s == [] then []
    else
      assert s == [s[0]] + s[1..];
      Insert(s[0], SortBy(s[1..], key, desc), key, desc)
  }

  /** A map that keeps the sort key keeps a sorted sequence sorted. */
  lemma MapSorted<T, U>(s: seq<T>, f: T -> U, key: T -> real, key2: U -> real, desc: bool)
    requires forall y :: key2(f(y)) == key(y)
    requires SortedBy(s, key, desc)
    ensures SortedBy(Map(s, f), key2, desc)
  {
    var m := Map(s, f);
    forall i, j | 0 <= i < j < |m| ensures Ordered(m[i], m[j], key2, desc) {
      assert Ordered(s[i], s[j], key, desc);
    }
  }

  /** A map that keeps the sort key commutes with insertion. */
  lemma {:induction false} InsertMap<T, U>(x: T, s: seq<T>, f: T -> U, key: T -> real, key2: U -> real, desc: bool)
    requires forall y :: key2(f(y)) == key(y)
    requires SortedBy(s, key, desc) && SortedBy(Map(s, f), key2, desc)
    ensures Insert(f(x), Map(s, f), key2, desc) == Map(Insert(x, s, key, desc), f)
  {
    if s != [] {
      var ms := Map(s, f);
      assert ms[0] == f(s[0]) && ms[1..] == Map(s[1..], f);
      if Ordered(x, s[0], key, desc) {
        assert Ordered(f(x), ms[0], key2, desc);
        assert Insert(f(x), ms, key2, desc) == [f(x)] + ms;
        assert Insert(x, s, key, desc) == [x] + s;
        assert ([x] + s)[1..] == s;
      } else {
        assert !Ordered(f(x), ms[0], key2, desc);
        MapSorted(s[1..], f, key, key2, desc);
        InsertMap(x, s[1..], f, key, key2, desc);
        var t := Insert(x, s[1..], key, desc);
        assert Insert(x, s, key, desc) == [s[0]] + t;
        assert Insert(f(x), ms, key2, desc) == [ms[0]] + Insert(f(x), ms[1..], key2, desc);
        assert ([s[0]] + t)[1..] == t;
      }
    }
  }

  /** Sorting mapped rows is mapping the sorted rows, when the map keeps the key. */
  lemma {:induction false} SortByMap<T, U>(s: seq<T>, f: T -> U, key: T -> real, key2: U -> real, desc: bool)
    requires forall y :: key2(f(y)) == key(y)
    ensures SortBy(Map(s, f), key2, desc) == Map(SortBy(s, key, desc), f)
  {
    if s != [] {
      SortByMap(s[1..], f, key, key2, desc);
      assert Map(s, f)[1..] == Map(s[1..], f);
      MapSorted(SortBy(s[1..], key, desc), f, key, key2, desc);
      InsertMap(s[0], SortBy(s[1..], key, desc), f, key, key2, desc);
    }
  }

  /** Sorting the images of the kept elements keeps them all, and only them. */
  lemma SortedImages<T, U>(s: seq<T>, p: T -> bool, f: T -> U, key: U -> real, desc: bool)
    ensures var r := SortBy(Map(Filter(s, p), f), key, desc);
      && (forall j :: 0 <= j < |r| ==> exists i :: 0 <= i < |s| && p(s[i]) && r[j] == f(s[i]))
      && (forall i :: 0 <= i < |s| && p(s[i]) ==> f(s[i]) in r)
  {
    var m := Map(Filter(s, p), f);
    MapFilterMembers(s, f, p);
    ImagesOfPermutation(s, p, f, m, SortBy(m, key, desc));
  }

  /** A permutation of the images of the kept elements holds the same images. */
  lemma ImagesOfPermutation<T, U>(s: seq<T>, p: T -> bool, f: T -> U, m: seq<U>, r: seq<U>)
    requires forall j :: 0 <= j < |m| ==> exists i :: 0 <= i < |s| && p(s[i]) && m[j] == f(s[i])
    requires forall i :: 0 <= i < |s| && p(s[i]) ==> f(s[i]) in m
    requires multiset(r) == multiset(m)
    ensures forall j :: 0 <= j < |r| ==> exists i :: 0 <= i < |s| && p(s[i]) && r[j] == f(s[i])
    ensures forall i :: 0 <= i < |s| && p(s[i]) ==> f(s[i]) in r
  {
    PermutationMembers(m, r);
    forall j | 0 <= j < |r| ensures exists i :: 0 <= i < |s| && p(s[i]) && r[j] == f(s[i]) {
      var k :| 0 <= k < |m| && m[k] == r[j];
    }
  }

  /** Two permutations of each other have the same elements. */
  lemma PermutationMembers<T>(m: seq<T>, r: seq<T>)
    requires multiset(r) == multiset(m)
    ensures forall j :: 0 <= j < |r| ==> exists k :: 0 <= k < |m| && m[k] == r[j]
    ensures forall x :: x in m ==> x in r
  {
    forall j | 0 <= j < |r| ensures exists k :: 0 <= k < |m| && m[k] == r[j] {
      assert r[j] in multiset(m);
    }
    forall x | x in m ensures x in r {
      assert x in multiset(r);
    }
  }

  /** head(k): the first k rows, or all of them when there are fewer. */
  function Take<T>(s: seq<T>, k: nat): (r: seq<T>)
    ensures |r| == if k < |s| then k else |s|
    ensures r == s[..|r|]
  {
    if k < |s| then s[..k] else s
  }

  /** tail(k): the last k rows, or all of them when there are fewer. */
  function TakeLast<T>(s: seq<T>, k: nat): (r: seq<T>)
    ensures |r| == if k < |s| then k else |s|
    ensures r == s[|s| - |r|..]
  {
    if k < |s| then s[|s| - k..] else s
  }

  /** nlargest(k): the rows sorted by decreasing key, cut to k. */
  function Largest<T>(s: seq<T>, key: T -> real, k: nat): (r: seq<T>)
    ensures |r| == if k < |s| then k else |s|
    ensures SortedBy(r, key, true)
    ensures multiset(r) <= multiset(s)
  {
    var sorted := SortBy(s, key, true);
    assert sorted == Take(sorted, k) + sorted[|Take(sorted, k)|..];
    Take(sorted, k)
  }

  /** nlargest(k) is the front of the sorted rows. */
  lemma LargestPrefix<T>(s: seq<T>, key: T -> real, k: nat)
    ensures SortBy(s, key, true) == Largest(s, key, k) + SortBy(s, key, true)[|Largest(s, key, k)|..]
  {
    var sorted := SortBy(s, key, true);
    assert sorted == Take(sorted, k) + sorted[|Take(sorted, k)|..];
  }

  /**
   * The top k and the rows left out are a split of the table, and no row
   * left out has a larger key than a row kept.
   */
  lemma LargestDominates<T>(s: seq<T>, key: T -> real, k: nat)
    ensures var r := SortBy(s, key, true);
            var top := Largest(s, key, k);
            var rest := r[|top|..];
            && multiset(top) + multiset(rest) == multiset(s)
            && forall x, y :: x in top && y in rest ==> key(x) >= key(y)
  {
    var r := SortBy(s, key, true);
    var top := Largest(s, key, k);
    assert r == top + r[|top|..];
    forall x, y | x in top && y in r[|top|..]
      ensures key(x) >= key(y)
    {
      var i :| 0 <= i < |top| && top[i] == x;
      var j :| 0 <= j < |r| - |top| && r[|top|..][j] == y;
      assert Ordered(r[i], r[|top| + j], key, true);
    }
  }

  // ---------------------------------------------------------------------
  // Sorted unique values

  /** less is irreflexive, transitive and total on distinct values. */
  ghost predicate IsStrictTotalOrder<T(!new)>(less: (T, T) -> bool) {
    && (forall a :: !less(a, a))
    && (forall a, b, c :: less(a, b) && less(b, c) ==> less(a, c))
    && (forall a, b :: a != b ==> less(a, b) || less(b, a))
  }

  predicate StrictlySorted<T>(s: seq<T>, less: (T, T) -> bool) {
    forall i, j :: 0 <= i < j < |s| ==> less(s[i], s[j])
  }

  function InsertUnique<T(!new,==)>(x: T, s: seq<T>, less: (T, T) -> bool): (r: seq<T>)
    requires IsStrictTotalOrder(less) && StrictlySorted(s, less)
    ensures StrictlySorted(r, less)
    ensures forall i :: 0 <= i < |r| ==> r[i] == x || r[i] in s
    ensures x in r && forall i :: 0 <= i < |s| ==> s[i] in r
  {
    if s == [] then [x]
    else if x == s[0] then s
    else if less(x, s[0]) then
      assert forall j :: 0 <= j < |s| ==> less(x, s[j]);
      [x] + s
    else
      var t := InsertUnique(x, s[1..], less);
      assert forall i :: 1 <= i < |s| ==> s[i] == s[1..][i - 1];
      [s[0]] + t
  }

  /** sorted(series.unique()): every value once, in increasing order. */
  function SortedDistinct<T(!new,==)>(s: seq<T>, less: (T, T) -> bool): (r: seq<T>)
    requires IsStrictTotalOrder(less)
    ensures StrictlySorted(r, less)
    ensures forall i :: 0 <= i < |r| ==> r[i] in s
    ensures forall i :: 0 <= i < |s| ==> s[i] in r
  {
    if s == [] then []
    else
      assert forall i :: 1 <= i < |s| ==> s[i] == s[1..][i - 1];
      InsertUnique(s[0], SortedDistinct(s[1..], less), less)
  }

  /** A strictly sorted sequence holds no value twice. */
  lemma StrictlySortedDistinct<T(!new)>(s: seq<T>, less: (T, T) -> bool)
    requires IsStrictTotalOrder(less) && StrictlySorted(s, less)
    ensures forall i, j :: 0 <= i < j < |s| ==> s[i] != s[j]
  {
    forall i, j | 0 <= i < j < |s|
      ensures s[i] != s[j]
    {
      assert less(s[i], s[j]);
    }
  }

  function IntLess(a: int, b: int): bool { a < b }

  lemma IntLessStrictTotal()
    ensures IsStrictTotalOrder(IntLess)
  {
  }

  // ---------------------------------------------------------------------
  // Group sizes

  /** groupby(key).size() for one group: how many rows have key value m. */
  function CountKey<T, U(==)>(s: seq<T>, key: T -> U, m: U): (n: nat)
    ensures n <= |s|
  {
    if s == [] then 0 else (if key(s[0]) == m then 1 else 0) + CountKey(s[1..], key, m)
  }

  function SumCounts<T, U(==)>(s: seq<T>, key: T -> U, ms: seq<U>): nat {
    if ms == [] then 0 else CountKey(s, key, ms[0]) + SumCounts(s, key, ms[1..])
  }

  predicate Distinct<U(==)>(ms: seq<U>) {
    forall i, j :: 0 <= i < j < |ms| ==> ms[i] != ms[j]
  }

  /** A value at two positions occurs at least twice. */
  lemma TwoPositions<T>(s: seq<T>, i: nat, j: nat)
    requires i < j < |s| && s[i] == s[j]
    ensures multiset(s)[s[i]] >= 2
  {
    assert s == s[..j] + s[j..];
    assert s[..j][i] == s[i];
    assert s[j..][0] == s[j];
  }

  /** A value that occurs at least twice sits at two positions. */
  lemma TwiceAtTwoPositions<T>(s: seq<T>, x: T)
    requires multiset(s)[x] >= 2
    ensures exists i, j :: 0 <= i < j < |s| && s[i] == x && s[j] == x
  {
    assert x in multiset(s);
    var p :| 0 <= p < |s| && s[p] == x;
    RemoveAt(s, p);
    var t := s[..p] + s[p + 1..];
    assert x in multiset(t);
    var r :| 0 <= r < |t| && t[r] == x;
    if r < p {
      assert s[r] == x;
    } else {
      assert s[r + 1] == x;
    }
  }

  /** Reordering keeps the keys pairwise distinct. */
  lemma DistinctKeysPermutation<T, U>(a: seq<T>, b: seq<T>, key: T -> U)
    requires multiset(a) == multiset(b)
    requires Distinct(Map(a, key))
    ensures Distinct(Map(b, key))
  {
    var mb := Map(b, key);
    forall i, j | 0 <= i < j < |mb| ensures mb[i] != mb[j] {
      if mb[i] == mb[j] {
        assert b[i] in multiset(a) && b[j] in multiset(a);
        var p :| 0 <= p < |a| && a[p] == b[i];
        var q :| 0 <= q < |a| && a[q] == b[j];
        assert Map(a, key)[p] == key(b[i]) && Map(a, key)[q] == key(b[j]);
        assert p == q;
        TwoPositions(b, i, j);
        TwiceAtTwoPositions(a, b[i]);
        assert false;
      }
    }
  }

  lemma {:induction false} SumCountsCons<T, U>(x: T, s: seq<T>, key: T -> U, ms: seq<U>)
    requires Distinct(ms)
    ensures SumCounts([x] + s, key, ms) == SumCounts(s, key, ms) + (if key(x) in ms then 1 else 0)
  {
    if ms != [] {
      assert ([x] + s)[1..] == s;
      SumCountsCons(x, s, key, ms[1..]);
      assert key(x) in ms <==> key(x) == ms[0] || key(x) in ms[1..];
      if key(x) == ms[0] {
        assert key(x) !in ms[1..] by {
          forall j | 0 <= j < |ms[1..]| ensures ms[1..][j] != ms[0] {
            assert ms[1..][j] == ms[j + 1];
          }
        }
      }
    }
  }

  /** The group sizes over all distinct keys add up to the number of rows. */
  lemma {:induction false} GroupSizesSum<T, U>(s: seq<T>, key: T -> U, ms: seq<U>)
    requires Distinct(ms)
    requires forall i :: 0 <= i < |s| ==> key(s[i]) in ms
    ensures SumCounts(s, key, ms) == |s|
  {
    if s == [] {
      ZeroCounts(key, ms);
    } else {
      assert s == [s[0]] + s[1..];
      SumCountsCons(s[0], s[1..], key, ms);
      GroupSizesSum(s[1..], key, ms);
    }
  }

  lemma {:induction false} ZeroCounts<T, U>(key: T -> U, ms: seq<U>)
    ensures SumCounts([], key, ms) == 0
  {
    if ms != [] {
      ZeroCounts(key, ms[1..]);
    }
  }

  /** s with the element at k removed, the others in order. */
  function Without<T>(s: seq<T>, k: nat): (r: seq<T>)
    requires k < |s|
    ensures |r| == |s| - 1
    ensures forall m :: 0 <= m < k ==> r[m] == s[m]
    ensures forall m :: k <= m < |r| ==> r[m] == s[m + 1]
  {
    s[..k] + s[k + 1..]
  }

  /** Mapping one more element of a prefix appends its image. */
  lemma MapSnoc<T, U>(s: seq<T>, i: nat, f: T -> U)
    requires i < |s|
    ensures Map(s[..i + 1], f) == Map(s[..i], f) + [f(s[i])]
  {
    var a := Map(s[..i + 1], f);
    var b := Map(s[..i], f) + [f(s[i])];
    assert |a| == |b|;
    forall j | 0 <= j < |a|
      ensures a[j] == b[j]
    {
      if j < i {
        assert s[..i + 1][j] == s[..i][j];
      }
    }
  }

  // ---------------------------------------------------------------------
  // Conversions

  /** Series.astype on a whole column: every value converted, or an exception (None) if any value cannot be. */
  function ConvertAll<T, U>(s: seq<T>, f: T -> Option<U>): (r: Option<seq<U>>)
    ensures r.Some? <==> forall i :: 0 <= i < |s| ==> f(s[i]).Some?
    ensures r.Some? ==> |r.value| == |s| && forall i :: 0 <= i < |s| ==> r.value[i] == f(s[i]).value
  {
    if s == [] then Some([])
    else
      match (f(s[0]), ConvertAll(s[1..], f))
      case (Some(x), Some(xs)) => Some([x] + xs)
      case (None, _) => None
      case (_, None) =>
        assert forall i :: 1 <= i < |s| ==> s[i] == s[1..][i - 1];
        None
  }
}
