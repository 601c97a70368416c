/** What Python's int() and float() accept, and what str() prints for an int.
    Only acceptance is modelled for float(): the model keeps the accepted text
    as the number, never a floating-point value. */
module Numerals {
  import opened Wrappers
  import opened Text

  /** Python's "digitpart": digits, with single underscores allowed between
      two digits. */
  predicate IsDigitPart(s: string) {
    && |s| > 0 && IsDigit(s[0]) && IsDigit(s[|s| - 1])
    && (forall i | 0 <= i < |s| :: IsDigit(s[i]) || s[i] == '_')
    && (forall i | 0 <= i < |s| - 1 :: !(s[i] == '_' && s[i + 1] == '_'))
  }

  function DigitValue(c: char): nat
    requires IsDigit(c)
  {
    (c as int) - 48
  }

  function DigitChar(d: nat): (c: char)
    requires d < 10
    ensures IsDigit(c) && DigitValue(c) == d
  {
    (48 + d) as char
  }

  /** The base-10 value of a digit part, underscores skipped. */
  function DigitsValue(s: string): nat {
    if s == [] then 0
    else if IsDigit(s[|s| - 1]) then DigitsValue(s[..|s| - 1]) * 10 + DigitValue(s[|s| - 1])
    else DigitsValue(s[..|s| - 1])
  }

  /** int(s) in base 10: surrounding whitespace, one optional sign, then a
      digit part; anything else raises ValueError (None here). */
  function ParseInt(s: string): (r: Option<int>)
    ensures r.Some? ==> Strip(s) != [] && ',' !in Strip(s)
    ensures r.Some? && r.value < 0 ==> Strip(s)[0] == '-'
  {
    var t := Strip(s);
    if |t| > 0 && (t[0] == '+' || t[0] == '-') then
      if IsDigitPart(t[1..]) then
        var v: int := DigitsValue(t[1..]);
        Some(if t[0] == '-' then -v else v)
      else None
    else if IsDigitPart(t) then Some(DigitsValue(t))
    else None
  }

  /** str(n) for n >= 0 */
  function NatToString(n: nat): (r: string)
    ensures |r| > 0 && AllDigits(r)
  {
    if n < 10 then [DigitChar(n)] else NatToString(n / 10) + [DigitChar(n % 10)]
  }

  /** str(n) */
  function IntToString(n: int): (r: string)
    ensures |r| > 0 && (IsDigit(r[0]) || r[0] == '-')
  {
    if n < 0 then "-" + NatToString(-n) else NatToString(n)
  }

  lemma {:induction false} NatToStringValue(n: nat)
    ensures DigitsValue(NatToString(n)) == n
    decreases n
  {
    if n >= 10 {
      var r := NatToString(n);
      NatToStringValue(n / 10);
      assert r[..|r| - 1] == NatToString(n / 10);
    }
  }

  lemma AllDigitsIsDigitPart(s: string)
    requires |s| > 0 && AllDigits(s)
    ensures IsDigitPart(s)
  {
  }

  /** int() reads back a non-negative digit string it is given. */
  lemma ParseNatString(n: nat)
    ensures ParseInt(NatToString(n)) == Some(n)
  {
    var d := NatToString(n);
    NatToStringValue(n);
    AllDigitsIsDigitPart(d);
    assert !IsSpace(d[0]) && !IsSpace(d[|d| - 1]);
    StripUnchanged(d);
    assert d[0] != '+' && d[0] != '-';
  }

  /** A minus sign before digits is left alone by strip and read as the
      sign. */
  lemma SignedDigitsShape(d: string)
    requires |d| > 0 && AllDigits(d)
    ensures var r := "-" + d; Strip(r) == r && r[0] == '-' && r[1..] == d
  {
    var r := "-" + d;
    assert r[1..] == d;
    assert r[|r| - 1] == d[|d| - 1];
    StripUnchanged(r);
  }

  /** int() reads back a negative number's text. */
  lemma ParseNegString(m: nat)
    ensures ParseInt("-" + NatToString(m)) == Some(-(m as int))
  {
    var d := NatToString(m);
    NatToStringValue(m);
    AllDigitsIsDigitPart(d);
    SignedDigitsShape(d);
  }

  /** int(str(n)) == n for every integer n: reading back the row number a
      cell address was built from gives the same row. */
  lemma ParseIntRoundTrip(n: int)
    ensures ParseInt(IntToString(n)) == Some(n)
  {
    if n < 0 {
      assert IntToString(n) == "-" + NatToString(-n);
      ParseNegString(-n);
    } else {
      assert IntToString(n) == NatToString(n);
      ParseNatString(n);
    }
  }

  /** str is injective on integers. */
  lemma IntToStringInjective(a: int, b: int)
    requires IntToString(a) == IntToString(b)
    ensures a == b
  {
    ParseIntRoundTrip(a);
    ParseIntRoundTrip(b);
  }

  /** ASCII lower-casing, as float() compares "inf" and "nan". */
  function LowerAscii(s: string): (r: string)
    ensures |r| == |s|
  {
    if s == [] then []
    else [if 'A' <= s[0] <= 'Z' then ((s[0] as int) + 32) as char else s[0]] + LowerAscii(s[1..])
  }

  predicate IsInfOrNan(u: string) {
    var l := LowerAscii(u);
    l == "inf" || l == "infinity" || l == "nan"
  }

  /** digitpart "." [digitpart] | "." digitpart | digitpart */
  predicate IsMantissa(m: string) {
    var d := IndexOfAny(m, {'.'});
    if d == |m| then IsDigitPart(m)
    else
      var left := m[..d];
      var right := m[d + 1..];
      && (left == [] || IsDigitPart(left))
      && (right == [] || IsDigitPart(right))
      && (left != [] || right != [])
  }

  /** ["+" | "-"] digitpart, what follows "e" or "E" */
  predicate IsExponent(x: string) {
    if |x| > 0 && (x[0] == '+' || x[0] == '-') then IsDigitPart(x[1..]) else IsDigitPart(x)
  }

  /** mantissa ["e" exponent] */
  predicate IsDecimal(u: string) {
    var e := IndexOfAny(u, {'e', 'E'});
    IsMantissa(u[..e]) && (e == |u| || IsExponent(u[e + 1..]))
  }

  /** float(s) succeeds: surrounding whitespace, one optional sign, then a
      decimal literal or inf/infinity/nan in any letter case. */
  predicate IsFloatLiteral(s: string)
    ensures IsFloatLiteral(s) ==> Strip(s) != [] && ',' !in Strip(s)
  {
    var t := Strip(s);
    var u := if |t| > 0 && (t[0] == '+' || t[0] == '-') then t[1..] else t;
    LiteralWithoutComma(u);
    assert t != [] ==> t == [t[0]] + t[1..];
    IsInfOrNan(u) || IsDecimal(u)
  }

  lemma DigitPartWithoutComma(s: string)
    requires IsDigitPart(s)
    ensures ',' !in s
  {
  }

  lemma {:induction false} LowerAsciiAt(s: string, i: nat)
    requires i < |s|
    ensures LowerAscii(s)[i] == if 'A' <= s[i] <= 'Z' then ((s[i] as int) + 32) as char else s[i]
    decreases i
  {
    if i > 0 {
      LowerAsciiAt(s[1..], i - 1);
    }
  }

  lemma MantissaWithoutComma(m: string)
    requires IsMantissa(m)
    ensures ',' !in m
  {
    var d := IndexOfAny(m, {'.'});
    if d == |m| {
      DigitPartWithoutComma(m);
    } else {
      var left, right := m[..d], m[d + 1..];
      if left != [] { DigitPartWithoutComma(left); }
      if right != [] { DigitPartWithoutComma(right); }
      assert m == left + [m[d]] + right;
    }
  }

  lemma ExponentWithoutComma(x: string)
    requires IsExponent(x)
    ensures ',' !in x
  {
    if |x| > 0 && (x[0] == '+' || x[0] == '-') {
      DigitPartWithoutComma(x[1..]);
      assert x == [x[0]] + x[1..];
    } else {
      DigitPartWithoutComma(x);
    }
  }

  /** Neither a decimal literal nor inf or nan holds a comma: float() refuses
      "1,5", which is why the extractor turns commas into points first. */
  lemma LiteralWithoutComma(u: string)
    ensures IsInfOrNan(u) || IsDecimal(u) ==> ',' !in u
  {
    if IsDecimal(u) {
      var e := IndexOfAny(u, {'e', 'E'});
      MantissaWithoutComma(u[..e]);
      if e < |u| {
        ExponentWithoutComma(u[e + 1..]);
        assert u == u[..e] + [u[e]] + u[e + 1..];
      } else {
        assert u == u[..e];
      }
    } else if IsInfOrNan(u) && ',' in u {
      var i :| 0 <= i < |u| && u[i] == ',';
      LowerAsciiAt(u, i);
    }
  }

  /** A prefix without any character of cs shifts the first index by its
      length. */
  lemma {:induction false} IndexOfAnyAfter(x: string, y: string, cs: set<char>)
    requires forall i | 0 <= i < |x| :: x[i] !in cs
    ensures IndexOfAny(x + y, cs) == |x| + IndexOfAny(y, cs)
  {
    if x != [] {
      assert (x + y)[1..] == x[1..] + y;
      IndexOfAnyAfter(x[1..], y, cs);
    } else {
      assert x + y == y;
    }
  }

  /** Digits hold none of the characters float() treats specially. */
  lemma DigitsHaveNoMarks(a: string, cs: set<char>)
    requires AllDigits(a)
    requires forall c | c in cs :: !IsDigit(c)
    ensures IndexOfAny(a, cs) == |a|
    ensures forall i | 0 <= i < |a| :: a[i] !in cs
  {
    IndexOfAnyAfter(a, [], cs);
    assert a + [] == a;
  }

  lemma DigitsAreDecimal(a: string)
    requires |a| > 0 && AllDigits(a)
    ensures IsDecimal(a)
  {
    AllDigitsIsDigitPart(a);
    DigitsHaveNoMarks(a, {'e', 'E'});
    DigitsHaveNoMarks(a, {'.'});
    assert a[..|a|] == a;
  }

  lemma PointDecimalIsDecimal(a: string, b: string)
    requires |a| > 0 && AllDigits(a) && AllDigits(b)
    ensures IsDecimal(a + "." + b)
  {
    var m := a + "." + b;
    AllDigitsIsDigitPart(a);
    if b != [] {
      AllDigitsIsDigitPart(b);
    }
    DigitsHaveNoMarks(a, {'e', 'E'});
    DigitsHaveNoMarks(b, {'e', 'E'});
    DigitsHaveNoMarks(a, {'.'});
    assert m == a + ("." + b);
    IndexOfAnyAfter(a, "." + b, {'.'});
    assert IndexOfAny(m, {'.'}) == |a|;
    IndexOfAnyAfter(a + ".", b, {'e', 'E'});
    assert m == (a + ".") + b;
    IndexOfAnyAfter(b, [], {'e', 'E'});
    assert b + [] == b;
    assert IndexOfAny(m, {'e', 'E'}) == |m|;
    assert m[..|m|] == m;
    assert m[..|a|] == a;
    assert m[|a| + 1..] == b;
  }

  /** A decimal with no surrounding whitespace and no sign is a float
      literal. */
  lemma DecimalIsFloat(m: string)
    requires |m| > 0 && IsDigit(m[0]) && IsDigit(m[|m| - 1])
    requires IsDecimal(m)
    ensures IsFloatLiteral(m)
  {
    StripUnchanged(m);
  }

  /** Digits, optionally followed by a point and more digits, are accepted by
      float(): the text every matched amount becomes once its thousands
      commas are removed. */
  lemma PlainDecimalIsFloat(a: string, b: string)
    requires |a| > 0 && AllDigits(a) && AllDigits(b)
    ensures IsFloatLiteral(a)
    ensures b != [] ==> IsFloatLiteral(a + "." + b)
  {
    DigitsAreDecimal(a);
    DecimalIsFloat(a);
    if b != [] {
      var m := a + "." + b;
      PointDecimalIsDecimal(a, b);
      assert m[0] == a[0] && m[|m| - 1] == b[|b| - 1];
      DecimalIsFloat(m);
    }
  }
}
