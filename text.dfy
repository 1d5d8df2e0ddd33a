/**
 * The string operations of Python that the dashboards rely on: whitespace,
 * strip(), split(), the `in` test on strings, deleting characters
 * (str.replace with one character, re.sub with a character class),
 * str() and int() on integers, and the ordering of strings.
 */
module Text {
  import opened Wrappers
  import Seqs

  /** The characters for which Python's str.isspace() holds; strip(), split(), int() and float() use this set. */
  predicate IsSpace(c: char) {
    c == ' ' || ('\t' <= c <= '\r') || ('\U{1C}' <= c <= '\U{1F}') || c == '\U{85}' || c == '\U{A0}'
    || c == '\U{1680}' || ('\U{2000}' <= c <= '\U{200A}') || c == '\U{2028}' || c == '\U{2029}'
    || c == '\U{202F}' || c == '\U{205F}' || c == '\U{3000}'
  }

  predicate IsDigit(c: char) { '0' <= c <= '9' }

  /** The class [a-zA-Z] of a regular expression. */
  predicate IsAsciiLetter(c: char) { 'a' <= c <= 'z' || 'A' <= c <= 'Z' }

  predicate NoSpace(s: string) { forall i :: 0 <= i < |s| ==> !IsSpace(s[i]) }

  // ---------------------------------------------------------------------------
  // Deleting characters

  /** s with every character satisfying p removed, the others kept in order. */
  function Delete(s: string, p: char -> bool): (r: string)
    ensures |r| <= |s|
    ensures forall c :: c in r <==> c in s && !p(c)
    ensures Seqs.IsSubseq(r, s)
  {
    if s == [] then []
    else
      var rest := Delete(s[1..], p);
      assert s == [s[0]] + s[1..];
      if p(s[0]) then
        assert rest == [] || Seqs.IsSubseq(rest, s[1..]);
        rest
      else
        assert ([s[0]] + rest)[1..] == rest;
        [s[0]] + rest
  }

  /** Every character that is kept is kept as often as it occurs. */
  lemma {:induction false} DeleteCounts(s: string, p: char -> bool, c: char)
    requires !p(c)
    ensures multiset(Delete(s, p))[c] == multiset(s)[c]
  {
    if s != [] {
      DeleteCounts(s[1..], p, c);
      assert s == [s[0]] + s[1..];
      if !p(s[0]) {
        assert Delete(s, p) == [s[0]] + Delete(s[1..], p);
      }
    }
  }

  lemma {:induction false} DeleteConcat(a: string, b: string, p: char -> bool)
    ensures Delete(a + b, p) == Delete(a, p) + Delete(b, p)
  {
    if a != [] {
      assert (a + b)[1..] == a[1..] + b;
      DeleteConcat(a[1..], b, p);
    } else {
      assert a + b == b;
    }
  }

  /** Deleting leaves a string alone exactly when it holds no character to delete. */
  lemma {:induction false} DeleteUnchanged(s: string, p: char -> bool)
    ensures Delete(s, p) == s <==> forall i :: 0 <= i < |s| ==> !p(s[i])
  {
    if s != [] {
      DeleteUnchanged(s[1..], p);
      if p(s[0]) {
        assert |Delete(s, p)| < |s|;
      } else {
        assert Delete(s, p) == [s[0]] + Delete(s[1..], p);
        assert forall i :: 1 <= i < |s| ==> s[i] == s[1..][i - 1];
        if Delete(s, p) == s {
          assert Delete(s[1..], p) == s[1..];
        }
      }
    }
  }

  /** str.replace(',', ''): the thousands separators of a numeric cell removed. */
  function StripCommas(s: string): (r: string)
    ensures ',' !in r
    ensures forall c :: c != ',' ==> (c in r <==> c in s)
    ensures Seqs.IsSubseq(r, s)
  {
    Delete(s, c => c == ',')
  }

  /** A ',' between two pieces disappears and both pieces keep their order. */
  lemma StripCommasSplice(a: string, b: string)
    ensures StripCommas(a + "," + b) == StripCommas(a) + StripCommas(b)
  {
    DeleteConcat(a + ",", b, c => c == ',');
    DeleteConcat(a, ",", c => c == ',');
  }

  lemma StripCommasConcat(a: string, b: string)
    ensures StripCommas(a + b) == StripCommas(a) + StripCommas(b)
  {
    DeleteConcat(a, b, c => c == ',');
  }

  /** Removing commas changes nothing in a string without commas; so StripCommas is idempotent. */
  lemma StripCommasIdempotent(s: string)
    ensures ',' !in s ==> StripCommas(s) == s
    ensures StripCommas(StripCommas(s)) == StripCommas(s)
  {
    DeleteUnchanged(s, c => c == ',');
    DeleteUnchanged(StripCommas(s), c => c == ',');
  }

  /** str.replace('[a-zA-Z]', '', regex=True) on a year cell. */
  function DeleteLetters(s: string): (r: string)
    ensures forall i :: 0 <= i < |r| ==> !IsAsciiLetter(r[i])
    ensures forall c :: !IsAsciiLetter(c) ==> (c in r <==> c in s)
    ensures Seqs.IsSubseq(r, s)
  {
    Delete(s, IsAsciiLetter)
  }

  /** str.replace(ch, ''). */
  function DeleteChar(s: string, ch: char): (r: string)
    ensures ch !in r
    ensures forall c :: c != ch ==> (c in r <==> c in s)
    ensures Seqs.IsSubseq(r, s)
  {
    Delete(s, c => c == ch)
  }

  // ---------------------------------------------------------------------------
  // strip() and split()

  function TrimStart(s: string): (r: string)
    ensures |r| <= |s| && r == s[|s| - |r|..]
    ensures r == [] || !IsSpace(r[0])
    ensures forall i :: 0 <= i < |s| - |r| ==> IsSpace(s[i])
  {
    if s != [] && IsSpace(s[0]) then TrimStart(s[1..]) else s
  }

  function TrimEnd(s: string): (r: string)
    ensures |r| <= |s| && r == s[..|r|]
    ensures r == [] || !IsSpace(r[|r| - 1])
    ensures forall i :: |r| <= i < |s| ==> IsSpace(s[i])
  {
    if s != [] && IsSpace(s[|s| - 1]) then TrimEnd(s[..|s| - 1]) else s
  }

  /** Python's str.strip(). */
  function Strip(s: string): string {
    TrimEnd(TrimStart(s))
  }

  lemma StripNoSpaceEnds(s: string)
    requires s == [] || (!IsSpace(s[0]) && !IsSpace(s[|s| - 1]))
    ensures Strip(s) == s
  {
  }

  /** The longest prefix of s without whitespace. */
  function Word(s: string): (w: string)
    ensures |w| <= |s| && w == s[..|w|] && NoSpace(w)
    ensures |w| < |s| ==> IsSpace(s[|w|])
    ensures s != [] && !IsSpace(s[0]) ==> w != []
  {
    if s == [] || IsSpace(s[0]) then [] else [s[0]] + Word(s[1..])
  }

  predicate AllSpace(s: string) { forall i :: 0 <= i < |s| ==> IsSpace(s[i]) }

  /**
   * s is the words in order, each after optional whitespace, two words
   * always separated by whitespace, and only whitespace after the last.
   * With non-empty words without whitespace this fixes the words of s.
   */
  predicate Separated(s: string, words: seq<string>)
    decreases |words|
  {
    if words == [] then AllSpace(s)
    else
      exists d :: 0 <= d <= |s| - |words[0]| && AllSpace(s[..d]) && s[d..d + |words[0]|] == words[0]
        && (|words| > 1 ==> d + |words[0]| < |s| && IsSpace(s[d + |words[0]|]))
        && Separated(s[d + |words[0]|..], words[1..])
  }

  /** Python's str.split() without a separator: the maximal runs of non-whitespace. */
  function Split(s: string): (r: seq<string>)
    ensures forall k :: 0 <= k < |r| ==> r[k] != [] && NoSpace(r[k])
    ensures Separated(s, r)
    decreases |s|
  {
    var t := TrimStart(s);
    if t == [] then [] else
      var w := Word(t);
      var u := t[|w|..];
      var rest := Split(u);
      SplitCons(s, t, w, u, rest);
      [w] + rest
  }

  /** The split of s is its first word followed by the split of what follows it. */
  lemma SplitCons(s: string, t: string, w: string, u: string, rest: seq<string>)
    requires t == TrimStart(s) && t != [] && w == Word(t) && u == t[|w|..]
    requires forall k :: 0 <= k < |rest| ==> rest[k] != [] && NoSpace(rest[k])
    requires Separated(u, rest)
    ensures forall k :: 0 <= k < |[w] + rest| ==> ([w] + rest)[k] != [] && NoSpace(([w] + rest)[k])
    ensures Separated(s, [w] + rest)
  {
    WordsCons(w, rest);
    if rest != [] {
      NotAllSpace(u, rest);
    }
    SplitStep(s, |s| - |t|, t, w, u, rest);
  }

  /** The words of s from those of what follows its leading whitespace and first word. */
  lemma SplitStep(s: string, d: nat, t: string, w: string, u: string, rest: seq<string>)
    requires d <= |s| && t == s[d..] && forall i :: 0 <= i < d ==> IsSpace(s[i])
    requires |w| <= |t| && w == t[..|w|] && u == t[|w|..]
    requires |w| < |t| ==> IsSpace(t[|w|])
    requires Separated(u, rest) && (rest != [] ==> u != [])
    ensures Separated(s, [w] + rest)
  {
    forall i | 0 <= i < d ensures IsSpace(s[..d][i]) {
      assert s[..d][i] == s[i];
    }
    assert s[d..d + |w|] == w;
    assert s[d + |w|..] == u;
    if rest != [] {
      assert s[d + |w|] == t[|w|];
    }
    SeparatedCons(s, d, w, rest);
  }

  /** The step of Split: whitespace, a word, and the words of what follows. */
  lemma SeparatedCons(s: string, d: nat, w: string, rest: seq<string>)
    requires d + |w| <= |s| && AllSpace(s[..d]) && s[d..d + |w|] == w
    requires rest != [] ==> d + |w| < |s| && IsSpace(s[d + |w|])
    requires Separated(s[d + |w|..], rest)
    ensures Separated(s, [w] + rest)
  {
    var words := [w] + rest;
    assert words[0] == w && words[1..] == rest;
  }

  predicate Words(ws: seq<string>) { forall k :: 0 <= k < |ws| ==> ws[k] != [] && NoSpace(ws[k]) }

  /** Separated fixes the words: so Split(s) is the only list of words that s separates into. */
  lemma {:induction false} SeparatedUnique(s: string, a: seq<string>, b: seq<string>)
    requires Words(a) && Words(b) && Separated(s, a) && Separated(s, b)
    ensures a == b
    decreases |a|
  {
    if a == [] && b != [] {
      NotAllSpace(s, b);
    } else if a != [] && b == [] {
      NotAllSpace(s, a);
    } else if a != [] {
      var rest := FirstWordsAgree(s, a, b);
      SeparatedUnique(rest, a[1..], b[1..]);
      SameHeadTail(a, b);
    }
  }

  /** Two lists of words that s separates into start with the same word, with the same text after it. */
  lemma FirstWordsAgree(s: string, a: seq<string>, b: seq<string>) returns (rest: string)
    requires Words(a) && Words(b) && a != [] && b != [] && Separated(s, a) && Separated(s, b)
    ensures a[0] == b[0] && Words(a[1..]) && Words(b[1..])
    ensures Separated(rest, a[1..]) && Separated(rest, b[1..])
  {
    var da := FirstWordAt(s, a);
    var db := FirstWordAt(s, b);
    SameStart(s, da, db, a[0], b[0]);
    SameRun(s, da, a[0], b[0]);
    assert s[db + |b[0]|..] == s[da + |a[0]|..];
    WordsTail(a);
    WordsTail(b);
    rest := s[da + |a[0]|..];
  }

  lemma SameHeadTail(a: seq<string>, b: seq<string>)
    requires a != [] && b != [] && a[0] == b[0] && a[1..] == b[1..]
    ensures a == b
  {
    assert a == [a[0]] + a[1..] && b == [b[0]] + b[1..];
  }

  lemma WordsTail(ws: seq<string>)
    requires Words(ws) && ws != []
    ensures Words(ws[1..])
  {
    assert forall k :: 0 <= k < |ws| - 1 ==> ws[1..][k] == ws[k + 1];
  }

  /** Any list of words that s separates into is Split(s). */
  lemma SplitExactly(s: string, ws: seq<string>)
    requires Words(ws) && Separated(s, ws)
    ensures ws == Split(s)
  {
    SeparatedUnique(s, ws, Split(s));
  }

  /** A string that separates into some word is not all whitespace. */
  lemma NotAllSpace(s: string, ws: seq<string>)
    requires Words(ws) && ws != [] && Separated(s, ws)
    ensures !AllSpace(s)
  {
    var d := FirstWordAt(s, ws);
    assert s[d..d + |ws[0]|][0] == s[d];
  }

  /** Where the first word of a separation starts, and that it ends at whitespace or the end. */
  lemma FirstWordAt(s: string, ws: seq<string>) returns (d: nat)
    requires Words(ws) && ws != [] && Separated(s, ws)
    ensures d <= |s| - |ws[0]| && AllSpace(s[..d]) && s[d..d + |ws[0]|] == ws[0]
    ensures d + |ws[0]| < |s| ==> IsSpace(s[d + |ws[0]|])
    ensures Separated(s[d + |ws[0]|..], ws[1..])
  {
    d :| 0 <= d <= |s| - |ws[0]| && AllSpace(s[..d]) && s[d..d + |ws[0]|] == ws[0]
        && (|ws| > 1 ==> d + |ws[0]| < |s| && IsSpace(s[d + |ws[0]|]))
        && Separated(s[d + |ws[0]|..], ws[1..]);
    if |ws| == 1 && d + |ws[0]| < |s| {
      assert AllSpace(s[d + |ws[0]|..]);
      assert s[d + |ws[0]|..][0] == s[d + |ws[0]|];
    }
  }

  /** The characters before d are whitespace. */
  lemma SpaceBefore(s: string, d: nat)
    requires d <= |s| && AllSpace(s[..d])
    ensures forall i :: 0 <= i < d ==> IsSpace(s[i])
  {
    forall i | 0 <= i < d ensures IsSpace(s[i]) {
      assert s[..d][i] == s[i];
    }
  }

  /** The characters of a word found at d are not whitespace. */
  lemma WordChars(s: string, d: nat, w: string)
    requires NoSpace(w) && d + |w| <= |s| && s[d..d + |w|] == w
    ensures forall i :: d <= i < d + |w| ==> !IsSpace(s[i])
  {
    forall i | d <= i < d + |w| ensures !IsSpace(s[i]) {
      assert s[d..d + |w|][i - d] == s[i];
    }
  }

  /** Two words that each follow only whitespace start at the same place. */
  lemma SameStart(s: string, d: nat, e: nat, v: string, w: string)
    requires v != [] && NoSpace(v) && w != [] && NoSpace(w)
    requires d + |v| <= |s| && AllSpace(s[..d]) && s[d..d + |v|] == v
    requires e + |w| <= |s| && AllSpace(s[..e]) && s[e..e + |w|] == w
    ensures d == e
  {
    SpaceBefore(s, d);
    SpaceBefore(s, e);
    WordChars(s, d, v);
    WordChars(s, e, w);
    assert v[0] == s[d] && w[0] == s[e];
  }

  /** Two words starting at the same place and each ending at whitespace or the end are the same. */
  lemma SameRun(s: string, d: nat, v: string, w: string)
    requires NoSpace(v) && NoSpace(w)
    requires d + |v| <= |s| && s[d..d + |v|] == v && (d + |v| < |s| ==> IsSpace(s[d + |v|]))
    requires d + |w| <= |s| && s[d..d + |w|] == w && (d + |w| < |s| ==> IsSpace(s[d + |w|]))
    ensures v == w
  {
    WordChars(s, d, v);
    WordChars(s, d, w);
    assert |v| == |w|;
  }

  /** A word in front of words gives words. */
  lemma WordsCons(w: string, rest: seq<string>)
    requires w != [] && NoSpace(w)
    requires forall k :: 0 <= k < |rest| ==> rest[k] != [] && NoSpace(rest[k])
    ensures forall k :: 0 <= k < |[w] + rest| ==> ([w] + rest)[k] != [] && NoSpace(([w] + rest)[k])
  {
    var r := [w] + rest;
    forall k | 0 <= k < |r| ensures r[k] != [] && NoSpace(r[k]) {
      if k > 0 {
        assert r[k] == rest[k - 1];
      }
    }
  }

  lemma WordWhole(w: string)
    requires NoSpace(w)
    ensures Word(w) == w
  {
  }

  /** A run of non-whitespace followed by whitespace and more text is the first token. */
  lemma {:induction false} SplitFirstToken(w: string, rest: string)
    requires w != [] && NoSpace(w)
    requires rest == [] || IsSpace(rest[0])
    ensures Split(w + rest) == [w] + Split(rest)
  {
    WordPrefix(w, rest);
    assert TrimStart(w + rest) == w + rest;
    assert (w + rest)[|w|..] == rest;
  }

  lemma {:induction false} WordPrefix(w: string, rest: string)
    requires NoSpace(w)
    requires rest == [] || IsSpace(rest[0])
    ensures Word(w + rest) == w
  {
    if w == [] {
      assert w + rest == rest;
    } else {
      assert (w + rest)[1..] == w[1..] + rest;
      WordPrefix(w[1..], rest);
    }
  }

  /** Leading whitespace does not change the words. */
  lemma SplitAfterSpace(s: string)
    ensures Split(" " + s) == Split(s)
  {
    assert (" " + s)[1..] == s;
  }

  /** Two tokens separated by one space, then whitespace or nothing. */
  lemma SplitTwoTokens(first: string, tail: string, words: string, second: string, rest: string)
    requires first != [] && NoSpace(first) && second != [] && NoSpace(second)
    requires rest == [] || IsSpace(rest[0])
    requires tail == " " + words && words == second + rest
    ensures Split(first + tail) == [first] + ([second] + Split(rest))
  {
    SplitFirstToken(first, tail);
    SplitAfterSpace(words);
    SplitFirstToken(second, rest);
  }

  lemma SplitNoSpace(w: string)
    requires w != [] && NoSpace(w)
    ensures Split(w) == [w]
  {
    SplitFirstToken(w, []);
    assert w + [] == w;
  }

  // ---------------------------------------------------------------------------
  // Substring test

  predicate StartsWith(s: string, p: string) {
    |p| <= |s| && s[..|p|] == p
  }

  /** Python's `p in s` for strings (so the empty string is in every string). */
  predicate Contains(s: string, p: string)
    decreases |s|
  {
    StartsWith(s, p) || (s != [] && Contains(s[1..], p))
  }

  /** p occurs in s starting at position i. */
  predicate OccursAt(s: string, p: string, i: int) {
    0 <= i <= |s| - |p| && s[i..i + |p|] == p
  }

  /** p occurs in s at position i, one character at a time. */
  predicate FieldAt(s: string, p: string, i: nat)
    decreases |p|
  {
    if p == [] then i <= |s| else i < |s| && s[i] == p[0] && FieldAt(s, p[1..], i + 1)
  }

  /** The character-by-character form and the slice form of an occurrence agree. */
  lemma {:induction false} FieldAtOccurs(s: string, p: string, i: nat)
    ensures FieldAt(s, p, i) <==> OccursAt(s, p, i)
    decreases |p|
  {
    if p != [] {
      FieldAtOccurs(s, p[1..], i + 1);
      if i < |s| && i + |p| <= |s| {
        assert s[i..i + |p|] == [s[i]] + s[i + 1..i + 1 + |p[1..]|];
        assert p == [p[0]] + p[1..];
      }
    }
  }

  /** Every suffix of s occurs in s where it starts; in particular s occurs in itself at 0. */
  lemma {:induction false} FieldAtSuffix(s: string, i: nat)
    requires i <= |s|
    ensures FieldAt(s, s[i..], i)
    decreases |s| - i
  {
    if i < |s| {
      FieldAtSuffix(s, i + 1);
      assert s[i..][1..] == s[i + 1..];
    }
  }

  /** An occurrence stays where it is when text is appended. */
  lemma {:induction false} FieldAtAppend(s: string, t: string, p: string, i: nat)
    requires FieldAt(s, p, i)
    ensures FieldAt(s + t, p, i)
    decreases |p|
  {
    if p != [] {
      FieldAtAppend(s, t, p[1..], i + 1);
    }
  }

  /** An occurrence moves right by |a| when a is put in front. */
  lemma {:induction false} FieldAtPrepend(a: string, s: string, p: string, i: nat)
    requires FieldAt(s, p, i)
    ensures FieldAt(a + s, p, |a| + i)
    decreases |p|
  {
    if p != [] {
      FieldAtPrepend(a, s, p[1..], i + 1);
    }
  }

  /** p in s exactly when p occurs at some position of s. */
  lemma {:induction false} ContainsAt(s: string, p: string)
    ensures Contains(s, p) <==> exists i :: OccursAt(s, p, i)
    decreases |s|
  {
    if StartsWith(s, p) {
      assert OccursAt(s, p, 0);
    }
    if s != [] {
      ContainsAt(s[1..], p);
      if Contains(s[1..], p) {
        var i :| OccursAt(s[1..], p, i);
        assert s[i + 1..i + 1 + |p|] == s[1..][i..i + |p|];
        assert OccursAt(s, p, i + 1);
      }
      if exists i :: OccursAt(s, p, i) {
        var i :| OccursAt(s, p, i);
        if i > 0 {
          assert s[1..][i - 1..i - 1 + |p|] == s[i..i + |p|];
          assert OccursAt(s[1..], p, i - 1);
        }
      }
    } else {
      if exists i :: OccursAt(s, p, i) {
        var i :| OccursAt(s, p, i);
        assert |p| == 0;
      }
    }
  }

  lemma ContainsSelf(s: string, p: string)
    requires StartsWith(s, p)
    ensures Contains(s, p)
  {
  }

  // ---------------------------------------------------------------------------
  // Decimal digits, str() and int() on integers

  function DigitChar(d: nat): (c: char)
    requires d < 10
    ensures IsDigit(c)
  {
    (48 + d) as char
  }

  function DigitValue(c: char): (d: nat)
    requires IsDigit(c)
    ensures d < 10 && DigitChar(d) == c
  {
    c as int - 48
  }

  /** Python's str() of a natural number. */
  function NatToDecimal(n: nat): (r: string)
    ensures r != [] && forall i :: 0 <= i < |r| ==> IsDigit(r[i])
  {
    if n < 10 then [DigitChar(n)] else NatToDecimal(n / 10) + [DigitChar(n % 10)]
  }

  /** Python's str() of an integer: a leading '-' for negative numbers. */
  function IntToDecimal(n: int): string {
    if n < 0 then "-" + NatToDecimal(-n) else NatToDecimal(n)
  }

  /** Python's digitpart: digits, with single underscores allowed between two digits. */
  predicate IsDigitPart(t: string)
    decreases |t|
  {
    && t != [] && IsDigit(t[|t| - 1])
    && (|t| == 1 || IsDigitPart(t[..|t| - 1]) || (|t| >= 3 && t[|t| - 2] == '_' && IsDigitPart(t[..|t| - 2])))
  }

  /** A nonempty run of plain digits is a digitpart. */
  lemma {:induction false} AllDigitsPart(t: string)
    requires t != [] && forall i :: 0 <= i < |t| ==> IsDigit(t[i])
    ensures IsDigitPart(t)
    decreases |t|
  {
    if |t| > 1 {
      AllDigitsPart(t[..|t| - 1]);
    }
  }

  /** The number a digitpart denotes; underscores are ignored. */
  function DigitsValue(t: string): nat {
    if t == [] then 0
    else if IsDigit(t[|t| - 1]) then 10 * DigitsValue(t[..|t| - 1]) + DigitValue(t[|t| - 1])
    else DigitsValue(t[..|t| - 1])
  }

  /** How many digits (not underscores) a string holds. */
  function DigitCount(t: string): nat {
    if t == [] then 0 else (if IsDigit(t[|t| - 1]) then 1 else 0) + DigitCount(t[..|t| - 1])
  }

  /** Python's int() of a string: surrounding whitespace, an optional sign and a digitpart; anything else raises (None). */
  function ParseInt(s: string): Option<int> {
    var t := Strip(s);
    if |t| > 0 && (t[0] == '+' || t[0] == '-') then
      if IsDigitPart(t[1..]) then Some(if t[0] == '-' then -(DigitsValue(t[1..]) as int) else DigitsValue(t[1..]))
      else None
    else if IsDigitPart(t) then Some(DigitsValue(t))
    else None
  }

  lemma {:induction false} NatToDecimalValue(n: nat)
    ensures IsDigitPart(NatToDecimal(n))
    ensures DigitsValue(NatToDecimal(n)) == n
    ensures DigitCount(NatToDecimal(n)) == |NatToDecimal(n)|
  {
    var r := NatToDecimal(n);
    AllDigitsPart(r);
    if n >= 10 {
      NatToDecimalValue(n / 10);
      assert r[..|r| - 1] == NatToDecimal(n / 10);
    }
  }

  /** int(str(n)) == n: the decimal form of an integer parses back to it. */
  lemma ParseIntDecimal(n: int)
    ensures ParseInt(IntToDecimal(n)) == Some(n)
  {
    if n < 0 {
      ParseIntNegative(n);
    } else {
      ParseIntNatural(n);
    }
  }

  lemma ParseIntNatural(m: nat)
    ensures ParseInt(IntToDecimal(m)) == Some(m)
  {
    var d := NatToDecimal(m);
    assert IntToDecimal(m) == d;
    NatToDecimalValue(m);
    StripNoSpaceEnds(d);
    assert d[0] != '+' && d[0] != '-';
  }

  lemma ParseIntNegative(n: int)
    requires n < 0
    ensures ParseInt(IntToDecimal(n)) == Some(n)
  {
    var m: nat := -n;
    var d := NatToDecimal(m);
    var s := "-" + d;
    assert IntToDecimal(n) == s;
    NatToDecimalValue(m);
    Seqs.DropFirst("-", d);
    assert s[|s| - 1] == d[|d| - 1];
    StripNoSpaceEnds(s);
  }

  /** strip() removes whitespace only: every other character of s stays. */
  lemma StripKeeps(s: string, i: nat)
    requires i < |s| && !IsSpace(s[i])
    ensures s[i] in Strip(s)
  {
    var t := TrimStart(s);
    var off := |s| - |t|;
    assert t[i - off] == s[i];
    var u := TrimEnd(t);
    assert u[i - off] == t[i - off];
  }

  /** A digitpart holds only digits and underscores. */
  lemma {:induction false} DigitPartChars(t: string)
    requires IsDigitPart(t)
    ensures forall i :: 0 <= i < |t| ==> IsDigit(t[i]) || t[i] == '_'
    decreases |t|
  {
    if |t| > 1 {
      if IsDigitPart(t[..|t| - 1]) {
        DigitPartChars(t[..|t| - 1]);
        assert forall i :: 0 <= i < |t| - 1 ==> t[i] == t[..|t| - 1][i];
      } else {
        DigitPartChars(t[..|t| - 2]);
        assert forall i :: 0 <= i < |t| - 2 ==> t[i] == t[..|t| - 2][i];
      }
    }
  }

  /** int() raises on a string holding a character that is not whitespace, a digit, '_' or a sign. */
  lemma ParseIntRejects(s: string, i: nat)
    requires i < |s| && !IsSpace(s[i]) && !IsDigit(s[i]) && s[i] != '_' && s[i] != '+' && s[i] != '-'
    ensures ParseInt(s) == None
  {
    StripKeeps(s, i);
    var t := Strip(s);
    var k :| 0 <= k < |t| && t[k] == s[i];
    if |t| > 0 && (t[0] == '+' || t[0] == '-') {
      if IsDigitPart(t[1..]) {
        DigitPartChars(t[1..]);
      }
    } else if IsDigitPart(t) {
      DigitPartChars(t);
    }
  }

  /** A year with a footnote letter: deleting the letters of "2023e" leaves "2023". */
  lemma {:induction false} DeleteLettersOfYear(y: nat, suffix: string)
    requires forall i :: 0 <= i < |suffix| ==> IsAsciiLetter(suffix[i])
    ensures DeleteLetters(NatToDecimal(y) + suffix) == NatToDecimal(y)
    ensures ParseInt(DeleteLetters(NatToDecimal(y) + suffix)) == Some(y)
  {
    var d := NatToDecimal(y);
    DeleteConcat(d, suffix, IsAsciiLetter);
    DeleteUnchanged(d, IsAsciiLetter);
    DeleteNone(suffix, IsAsciiLetter);
    assert d + [] == d;
    ParseIntDecimal(y);
  }

  lemma {:induction false} DeleteNone(s: string, p: char -> bool)
    requires forall i :: 0 <= i < |s| ==> p(s[i])
    ensures Delete(s, p) == []
  {
    if s != [] {
      DeleteNone(s[1..], p);
    }
  }

  // ---------------------------------------------------------------------------
  // Padding, as in f"{s:4s}" and f"{s:>15s}"

  function Spaces(n: nat): (r: string)
    ensures |r| == n && forall i :: 0 <= i < n ==> r[i] == ' '
  {
    if n == 0 then [] else [' '] + Spaces(n - 1)
  }

  /** The length of s padded to at least the given width. */
  function Width(s: string, width: nat): nat {
    if |s| >= width then |s| else width
  }

  /** Left-justify in a field of the given width: s, then spaces; longer strings are kept whole. */
  function LeftJustify(s: string, width: nat): (r: string)
    ensures |r| == Width(s, width)
  {
    if |s| >= width then s else s + Spaces(width - |s|)
  }

  /** Right-justify in a field of the given width: spaces, then s; longer strings are kept whole. */
  function RightJustify(s: string, width: nat): (r: string)
    ensures |r| == Width(s, width)
  {
    if |s| >= width then s else Spaces(width - |s|) + s
  }

  /** The text stands at the start of its left-justified field and at the end of its right-justified one. */
  lemma JustifyAt(s: string, width: nat)
    ensures FieldAt(LeftJustify(s, width), s, 0)
    ensures FieldAt(RightJustify(s, width), s, Width(s, width) - |s|)
  {
    FieldAtSuffix(s, 0);
    assert s[0..] == s;
    if |s| < width {
      FieldAtAppend(s, Spaces(width - |s|), s, 0);
      FieldAtPrepend(Spaces(width - |s|), s, s, 0);
    }
  }

  /** The padding that justification adds is spaces only. */
  lemma JustifyPadding(s: string, width: nat)
    ensures forall k :: |s| <= k < |LeftJustify(s, width)| ==> LeftJustify(s, width)[k] == ' '
    ensures forall k :: 0 <= k < |RightJustify(s, width)| - |s| ==> RightJustify(s, width)[k] == ' '
  {
  }

  /** Python's s < t on strings: lexicographic by code point, a proper prefix first. */
  predicate StrLess(a: string, b: string) {
    if a == [] then b != []
    else if b == [] then false
    else if a[0] != b[0] then a[0] < b[0]
    else StrLess(a[1..], b[1..])
  }

  lemma {:induction false} StrLessIrreflexive(a: string)
    ensures !StrLess(a, a)
  {
    if a != [] {
      StrLessIrreflexive(a[1..]);
    }
  }

  lemma {:induction false} StrLessTransitive(a: string, b: string, c: string)
    requires StrLess(a, b) && StrLess(b, c)
    ensures StrLess(a, c)
  {
    if a != [] && b != [] && c != [] && a[0] == b[0] && b[0] == c[0] {
      StrLessTransitive(a[1..], b[1..], c[1..]);
    }
  }

  lemma {:induction false} StrLessTotal(a: string, b: string)
    requires a != b
    ensures StrLess(a, b) || StrLess(b, a)
  {
    if a != [] && b != [] && a[0] == b[0] {
      assert a == [a[0]] + a[1..] && b == [b[0]] + b[1..];
      StrLessTotal(a[1..], b[1..]);
    }
  }

  /** sorted() on a list of strings orders by StrLess, a strict total order. */
  lemma StrLessStrictTotal()
    ensures Seqs.IsStrictTotalOrder(StrLess)
  {
    forall a ensures !StrLess(a, a) {
      StrLessIrreflexive(a);
    }
    forall a, b, c | StrLess(a, b) && StrLess(b, c) ensures StrLess(a, c) {
      StrLessTransitive(a, b, c);
    }
    forall a, b | a != b ensures StrLess(a, b) || StrLess(b, a) {
      StrLessTotal(a, b);
    }
  }
}
