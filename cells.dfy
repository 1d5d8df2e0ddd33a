/**
 * Dataframe cells and the numeric conversions the loaders apply to them:
 * Python's float() on a string (astype(float)) and pandas' to_numeric with
 * errors='coerce'. Numbers are kept as exact decimals (`real`), not as
 * IEEE doubles.
 */
module Cells {
  import opened Wrappers
  import opened Text

  datatype Num = Finite(value: real) | Infinite(positive: bool)

  /** A cell: missing (NaN or None), text, an integer, or a float. */
  datatype Cell = Missing | Str(s: string) | Whole(i: int) | Float(n: Num)

  function Pow10(n: nat): (r: nat)
    ensures r >= 1
  {
    if n == 0 then 1 else 10 * Pow10(n - 1)
  }

  /** The first position whose character satisfies p, or |s| when there is none. */
  function FirstIndex(s: string, p: char -> bool): (k: nat)
    ensures k <= |s|
    ensures k < |s| ==> p(s[k])
    ensures forall i :: 0 <= i < k ==> !p(s[i])
  {
    if s == [] then 0 else if p(s[0]) then 0 else 1 + FirstIndex(s[1..], p)
  }

  function LowerChar(c: char): char {
    if 'A' <= c <= 'Z' then (c as int + 32) as char else c
  }

  /** ASCII lower-casing, as the case-insensitive match of "nan" and "inf" needs. */
  function Lower(s: string): (r: string)
    ensures |r| == |s| && forall i :: 0 <= i < |s| ==> r[i] == LowerChar(s[i])
  {
    if s == [] then [] else [LowerChar(s[0])] + Lower(s[1..])
  }

  predicate IsDot(c: char) { c == '.' }

  predicate IsExponentMark(c: char) { c == 'e' || c == 'E' }

  /** The part before an exponent: digits, digits '.', digits '.' digits, or '.' digits. */
  function ParseMantissa(m: string): Option<real> {
    var d := FirstIndex(m, IsDot);
    if d == |m| then
      if IsDigitPart(m) then Some(DigitsValue(m) as real) else None
    else
      var ip := m[..d];
      var fp := m[d + 1..];
      if (ip != [] || fp != []) && (ip == [] || IsDigitPart(ip)) && (fp == [] || IsDigitPart(fp)) then
        Some(DigitsValue(ip) as real + DigitsValue(fp) as real / Pow10(DigitCount(fp)) as real)
      else None
  }

  /** The part after 'e' or 'E': an optional sign and a digitpart. */
  function ParseExponent(x: string): Option<int> {
    if |x| > 0 && (x[0] == '+' || x[0] == '-') then
      if IsDigitPart(x[1..]) then Some(if x[0] == '-' then -(DigitsValue(x[1..]) as int) else DigitsValue(x[1..]))
      else None
    else if IsDigitPart(x) then Some(DigitsValue(x))
    else None
  }

  function Scale(v: real, e: int): real {
    if e >= 0 then v * Pow10(e) as real else v / Pow10(-e) as real
  }

  /** An unsigned decimal literal: a mantissa and an optional exponent. */
  function ParseDecimal(body: string): Option<real> {
    var e := FirstIndex(body, IsExponentMark);
    var m := ParseMantissa(body[..e]);
    var x := if e < |body| then ParseExponent(body[e + 1..]) else Some(0);
    if m.Some? && x.Some? then Some(Scale(m.value, x.value)) else None
  }

  /**
   * Python's float() on a string. Surrounding whitespace and a sign are
   * allowed; "nan" (any case) gives a missing cell, "inf"/"infinity" an
   * infinity; None stands for the ValueError float() raises.
   */
  function ParseFloat(s: string): (r: Option<Cell>)
    ensures r.Some? ==> r.value.Missing? || r.value.Float?
  {
    ParseSigned(Strip(s), false, true)
  }

  /**
   * float() after stripping: while signAllowed, one leading sign is taken
   * (neg records a minus); then the rest is the unsigned literal.
   */
  function ParseSigned(t: string, neg: bool, signAllowed: bool): (r: Option<Cell>)
    ensures r.Some? ==> r.value.Missing? || r.value.Float?
    decreases |t| + (if signAllowed then 1 else 0)
  {
    if !signAllowed then ParseUnsigned(t, neg)
    else if |t| > 0 && (t[0] == '+' || t[0] == '-') then ParseSigned(t[1..], t[0] == '-', false)
    else ParseSigned(t, false, false)
  }

  function ParseUnsigned(body: string, neg: bool): (r: Option<Cell>)
    ensures r.Some? ==> r.value.Missing? || r.value.Float?
  {
    var low := Lower(body);
    if low == "nan" then Some(Missing)
    else if low == "inf" || low == "infinity" then Some(Float(Infinite(!neg)))
    else
      match ParseDecimal(body)
      case Some(v) => Some(Float(Finite(if neg then -v else v)))
      case None => None
  }

  lemma {:induction false} DigitsNotKeyword(d: string)
    requires d != [] && forall i :: 0 <= i < |d| ==> IsDigit(d[i])
    ensures Lower(d) != "nan" && Lower(d) != "inf" && Lower(d) != "infinity"
    ensures FirstIndex(d, IsExponentMark) == |d|
    ensures FirstIndex(d, IsDot) == |d|
  {
    assert Lower(d)[0] == d[0];
  }

  lemma {:induction false} DigitsDecimal(d: string)
    requires IsDigitPart(d) && forall i :: 0 <= i < |d| ==> IsDigit(d[i])
    ensures ParseDecimal(d) == Some(DigitsValue(d) as real)
  {
    DigitsNotKeyword(d);
    assert d[..|d|] == d;
    assert ParseMantissa(d) == Some(DigitsValue(d) as real);
    assert Scale(DigitsValue(d) as real, 0) == DigitsValue(d) as real;
  }

  lemma {:induction false} UnsignedDigits(d: string, neg: bool)
    requires IsDigitPart(d) && forall i :: 0 <= i < |d| ==> IsDigit(d[i])
    ensures ParseUnsigned(d, neg) == Some(Float(Finite(if neg then -(DigitsValue(d) as real) else DigitsValue(d) as real)))
  {
    DigitsDecimal(d);
    DigitsNotKeyword(d);
  }

  /** float() of a digit string: its exact value. */
  lemma {:induction false} ParseFloatDigits(d: string)
    requires IsDigitPart(d) && forall i :: 0 <= i < |d| ==> IsDigit(d[i])
    ensures ParseFloat(d) == Some(Float(Finite(DigitsValue(d) as real)))
  {
    assert !IsSpace(d[0]) && !IsSpace(d[|d| - 1]);
    StripNoSpaceEnds(d);
    assert ParseSigned(d, false, true) == ParseSigned(d, false, false) == ParseUnsigned(d, false);
    UnsignedDigits(d, false);
  }

  lemma {:induction false} ParseFloatNegDigits(m: string, d: string)
    requires |m| > 1 && m[0] == '-' && m[1..] == d
    requires IsDigitPart(d) && forall i :: 0 <= i < |d| ==> IsDigit(d[i])
    ensures ParseFloat(m) == Some(Float(Finite(-(DigitsValue(d) as real))))
  {
    assert m[|m| - 1] == d[|d| - 1];
    UnsignedDigits(d, true);
    StripSigned(m, Some(Float(Finite(-(DigitsValue(d) as real)))));
  }

  /** Stripping is the identity on a literal without surrounding whitespace. */
  lemma StripSigned(m: string, v: Option<Cell>)
    requires m != [] && !IsSpace(m[0]) && !IsSpace(m[|m| - 1]) && ParseSigned(m, false, true) == v
    ensures ParseFloat(m) == v
  {
    StripNoSpaceEnds(m);
  }

  /** float(str(n)) == n for a natural number n: its decimal form parses to that exact value. */
  lemma {:induction false} ParseFloatNatDecimal(a: nat)
    ensures ParseFloat(NatToDecimal(a)) == Some(Float(Finite(a as real)))
  {
    NatToDecimalValue(a);
    ParseFloatDigits(NatToDecimal(a));
  }

  /** float() of '-' followed by a digit string: the negated value. */
  lemma {:induction false} ParseFloatMinus(d: string)
    requires IsDigitPart(d) && forall i :: 0 <= i < |d| ==> IsDigit(d[i])
    ensures ParseFloat("-" + d) == Some(Float(Finite(-(DigitsValue(d) as real))))
  {
    var m := "-" + d;
    assert m[1..] == d;
    ParseFloatNegDigits(m, d);
  }

  /** A cell with a thousands separator reads as the digits on both sides of it written together. */
  lemma ParseFloatAfterCommas(n: nat, rest: nat)
    requires rest < 1000
    ensures ParseFloat(StripCommas(NatToDecimal(n) + "," + NatToDecimal(rest))) ==
            ParseFloat(NatToDecimal(n) + NatToDecimal(rest))
  {
    StripCommasSplice(NatToDecimal(n), NatToDecimal(rest));
    StripCommasIdempotent(NatToDecimal(n));
    StripCommasIdempotent(NatToDecimal(rest));
  }

  /** Writing digits after a digit string shifts its value by their count. */
  lemma {:induction false} DigitsValueConcat(a: string, b: string)
    requires forall i :: 0 <= i < |b| ==> IsDigit(b[i])
    ensures DigitsValue(a + b) == DigitsValue(a) * Pow10(|b|) + DigitsValue(b)
    decreases |b|
  {
    if b == [] {
      assert a + b == a;
    } else {
      var b' := b[..|b| - 1];
      var d := DigitValue(b[|b| - 1]);
      assert (a + b)[..|a + b| - 1] == a + b';
      assert (a + b)[|a + b| - 1] == b[|b| - 1];
      DigitsValueConcat(a, b');
      assert DigitsValue(b) == 10 * DigitsValue(b') + d;
      var x, p := DigitsValue(a), Pow10(|b'|);
      assert DigitsValue(a + b) == 10 * (x * p + DigitsValue(b')) + d;
      assert Pow10(|b|) == 10 * p;
      MulShift(x, p);
    }
  }

  lemma MulShift(x: nat, p: nat)
    ensures 10 * (x * p) == x * (10 * p)
  {
  }

  /** A thousands group: the three digits of a number below 1000, zero-padded ("005"). */
  function Group(r: nat): (g: string)
    requires r < 1000
    ensures |g| == 3 && (forall i :: 0 <= i < |g| ==> IsDigit(g[i])) && DigitsValue(g) == r
  {
    var g := [DigitChar(r / 100), DigitChar(r / 10 % 10), DigitChar(r % 10)];
    assert g[..2] == [g[0], g[1]] && g[..2][..1] == [g[0]] && [g[0]][..0] == [];
    assert DigitsValue(g[..1]) == r / 100;
    assert DigitsValue(g[..2]) == r / 10 by {
      assert r / 10 == 10 * (r / 10 / 10) + r / 10 % 10 && r / 10 / 10 == r / 100;
    }
    assert r == 10 * (r / 10) + r % 10;
    g
  }

  /** Removing the separator of "1,234" (or "1,005") leaves the digits of 1234 (or 1005). */
  lemma {:induction false} GroupedDigits(n: nat, rest: nat)
    requires rest < 1000
    ensures var t := StripCommas(NatToDecimal(n) + "," + Group(rest));
      && t != [] && (forall i :: 0 <= i < |t| ==> IsDigit(t[i]))
      && IsDigitPart(t) && DigitsValue(t) == n * 1000 + rest
  {
    var a := NatToDecimal(n);
    var b := Group(rest);
    StripCommasSplice(a, b);
    StripCommasIdempotent(a);
    StripCommasIdempotent(b);
    NatToDecimalValue(n);
    DigitsValueConcat(a, b);
    assert Pow10(3) == 1000;
    var ab := a + b;
    forall i | 0 <= i < |ab| ensures IsDigit(ab[i]) {
      if i < |a| { assert ab[i] == a[i]; } else { assert ab[i] == b[i - |a|]; }
    }
    AllDigitsPart(ab);
  }

  /** "1,234" or "1,005" reads as 1234 or 1005: the separator is dropped and the digits keep their place value. */
  lemma {:induction false} ParseFloatGrouped(n: nat, rest: nat)
    requires rest < 1000
    ensures var t := StripCommas(NatToDecimal(n) + "," + Group(rest));
      ParseFloat(t) == Some(Float(Finite(DigitsValue(t) as real))) && DigitsValue(t) == n * 1000 + rest
  {
    var t := StripCommas(NatToDecimal(n) + "," + Group(rest));
    GroupedDigits(n, rest);
    ParseFloatDigits(t);
  }

  /**
   * pd.to_numeric(..., errors='coerce') on one cell: text is parsed as
   * float() would, and text that does not parse becomes missing instead of
   * raising.
   */
  function Coerce(c: Cell): (r: Cell)
    ensures !r.Str?
    ensures c.Str? ==> (r.Missing? <==> ParseFloat(c.s) == None || ParseFloat(c.s) == Some(Missing))
    ensures c.Str? && ParseFloat(c.s).Some? ==> r == ParseFloat(c.s).value
    ensures !c.Str? ==> r == c
  {
    match c
    case Str(s) => (match ParseFloat(s) case Some(v) => v case None => Missing)
    case _ => c
  }

  /** Coercion can only turn cells into numbers or missing values; a second coercion changes nothing. */
  lemma CoerceIdempotent(c: Cell)
    ensures Coerce(Coerce(c)) == Coerce(c)
  {
  }

  /** int() of a real: truncation toward zero. */
  function Trunc(v: real): int {
    if v >= 0.0 then v.Floor else -((-v).Floor)
  }

  /** Truncation drops the fraction and keeps the sign. */
  lemma TruncTowardZero(v: real)
    ensures v >= 0.0 ==> 0 <= Trunc(v) && Trunc(v) as real <= v < Trunc(v) as real + 1.0
    ensures v < 0.0 ==> Trunc(v) <= 0 && Trunc(v) as real - 1.0 < v <= Trunc(v) as real
    ensures Trunc(-v) == -Trunc(v)
  {
  }
}
