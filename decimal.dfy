/**
 * The grade text parser. Java's `Float.parseFloat` is modelled by a plain
 * decimal reader: surrounding white space is ignored (as `parseFloat` trims
 * its argument), then an optional sign, then digits with at most one decimal
 * point and at least one digit ("5", "4.5", "5.", ".5", "+6.0", "-1").
 * Values are exact rationals.
 */
module Decimal {
  import opened Wrappers
  import Text

  predicate IsDigit(c: char) {
    '0' <= c <= '9'
  }

  predicate AllDigits(s: string) {
    forall i :: 0 <= i < |s| ==> IsDigit(s[i])
  }

  function DigitValue(c: char): (d: nat)
    requires IsDigit(c)
    ensures d < 10
  {
    c as int - '0' as int
  }

  /** The character of the decimal digit `d`. */
  function Digit(d: nat): (c: char)
    requires d < 10
    ensures IsDigit(c) && DigitValue(c) == d
  {
    ('0' as int + d) as char
  }

  /** The natural number the digits `s` denote (the empty string reads as 0). */
  function DigitsValue(s: string): (v: nat)
    requires AllDigits(s)
    decreases |s|
  {
    if s == [] then 0 else 10 * DigitsValue(s[..|s| - 1]) + DigitValue(s[|s| - 1])
  }

  /** The value of the digits `s` written after a decimal point: "25" reads as 0.25. */
  function FractionValue(s: string): (v: real)
    requires AllDigits(s)
    ensures 0.0 <= v < 1.0
  {
    if s == [] then 0.0 else (DigitValue(s[0]) as real + FractionValue(s[1..])) / 10.0
  }

  /** Position of the first '.' in `s`, or `|s|` when there is none. */
  function DotIndex(s: string): (k: nat)
    ensures k <= |s|
    ensures forall i :: 0 <= i < k ==> s[i] != '.'
    ensures k < |s| ==> s[k] == '.'
  {
    if s == [] || s[0] == '.' then 0 else 1 + DotIndex(s[1..])
  }

  /** An unsigned decimal: digits, then optionally '.' and digits; at least one digit in all. */
  function ParseUnsigned(s: string): (r: Option<real>)
    ensures r.Some? ==> 0.0 <= r.value
    ensures r.Some? ==> exists i :: 0 <= i < |s| && IsDigit(s[i])
  {
    var k := DotIndex(s);
    var whole := s[..k];
    var fraction := if k < |s| then s[k + 1..] else [];
    if AllDigits(whole) && AllDigits(fraction) && |whole| + |fraction| > 0 then
      assert |whole| > 0 ==> IsDigit(s[0]);
      assert |fraction| > 0 ==> IsDigit(s[k + 1]);
      Some(DigitsValue(whole) as real + FractionValue(fraction))
    else
      None
  }

  /** `Float.parseFloat(s)`, with `None` for a `NumberFormatException`. */
  function ParseGrade(s: string): (r: Option<real>)
    ensures Text.Trim(s) == [] ==> r.None?
  {
    ParseSigned(Text.Trim(s))
  }

  /** An unsigned decimal, optionally preceded by '+' or '-'. */
  function ParseSigned(t: string): (r: Option<real>)
    ensures t == [] ==> r.None?
  {
    if t != [] && t[0] == '-' then
      match ParseUnsigned(t[1..])
      case Some(v) => Some(-v)
      case None => None
    else if t != [] && t[0] == '+' then
      ParseUnsigned(t[1..])
    else
      ParseUnsigned(t)
  }

  /** Surrounding white space never changes what a grade text means. */
  lemma ParseGradeIgnoresPadding(s: string)
    ensures ParseGrade(Text.Trim(s)) == ParseGrade(s)
  {
    Text.TrimIdempotent(s);
  }

  /** A character that is no digit, point, sign or white space makes the text unparseable. */
  lemma {:induction false} UnsignedRejects(u: string, p: int)
    requires 0 <= p < |u| && !IsDigit(u[p]) && u[p] != '.'
    ensures ParseUnsigned(u) == None
  {
    var k := DotIndex(u);
    if p < k {
      assert u[..k][p] == u[p];
    } else {
      assert p > k;
      assert u[k + 1..][p - k - 1] == u[p];
    }
  }

  lemma NonNumericRejected(s: string, i: int)
    requires 0 <= i < |s|
    requires !IsDigit(s[i]) && s[i] != '.' && s[i] != '+' && s[i] != '-' && !Text.IsSpace(s[i])
    ensures ParseGrade(s) == None
  {
    Text.TrimKeeps(s, i);
    var t := Text.Trim(s);
    var j := i - Text.LeadingSpace(s);
    assert t[j] == s[i];
    if t[0] == '-' || t[0] == '+' {
      assert t[1..][j - 1] == s[i];
      UnsignedRejects(t[1..], j - 1);
    } else {
      UnsignedRejects(t, j);
    }
  }

  /**
   * Only well-formed decimals are accepted: a text that parses is, once
   * trimmed, an optional sign followed by digits, optionally a point and
   * more digits, with at least one digit in all. So "1.2.3", "5-", "+-5",
   * "+" and "." all give the format error.
   */
  lemma ParsedIsWellFormed(s: string) returns (sign: string, w: string, f: string, pointed: bool)
    requires ParseGrade(s).Some?
    ensures sign == "" || sign == "+" || sign == "-"
    ensures AllDigits(w) && AllDigits(f) && |w| + |f| > 0
    ensures if pointed then Text.Trim(s) == sign + w + "." + f else f == [] && Text.Trim(s) == sign + w
  {
    var t := Text.Trim(s);
    var u;
    if t[0] == '-' || t[0] == '+' {
      sign, u := [t[0]], t[1..];
    } else {
      sign, u := "", t;
    }
    assert t == sign + u;
    w, f, pointed := UnsignedIsWellFormed(u);
    if pointed {
      ConcatAssoc(sign, w, f);
    }
  }

  /** An unsigned text that parses is digits, optionally a point and digits, with at least one digit. */
  lemma UnsignedIsWellFormed(u: string) returns (w: string, f: string, pointed: bool)
    requires ParseUnsigned(u).Some?
    ensures AllDigits(w) && AllDigits(f) && |w| + |f| > 0
    ensures if pointed then u == w + "." + f else f == [] && u == w
  {
    var k := DotIndex(u);
    w := u[..k];
    pointed := k < |u|;
    if pointed {
      f := u[k + 1..];
      assert u == w + "." + f;
    } else {
      f := [];
      assert u == w;
    }
  }

  /** The decimal numeral of `n`, without leading zeros. */
  function NatToString(n: nat): (s: string)
    ensures s != [] && AllDigits(s)
    ensures n >= 10 ==> s[0] != '0'
    decreases n
  {
    if n < 10 then [Digit(n)] else NatToString(n / 10) + [Digit(n % 10)]
  }

  lemma {:induction false} NatToStringRoundTrip(n: nat)
    ensures DigitsValue(NatToString(n)) == n
    decreases n
  {
    if n >= 10 {
      NatToStringRoundTrip(n / 10);
      var s := NatToString(n);
      assert s[..|s| - 1] == NatToString(n / 10);
    }
  }

  /** `n` tenths written with one decimal place: 45 is "4.5". */
  function FormatTenths(n: nat): (s: string)
    ensures |s| >= 3 && AllDigits(s[..|s| - 2]) && s[|s| - 2] == '.' && IsDigit(s[|s| - 1])
  {
    NatToString(n / 10) + "." + [Digit(n % 10)]
  }

  /** Reading back a formatted grade gives its exact value. */
  lemma FormatTenthsRoundTrip(n: nat)
    ensures ParseGrade(FormatTenths(n)) == Some(n as real / 10.0)
  {
    var s := FormatTenths(n);
    var w := NatToString(n / 10);
    var d := Digit(n % 10);
    assert s == w + "." + [d];
    Text.TrimUnpadded(s);
    assert ParseGrade(s) == ParseUnsigned(s);
    UnsignedOfPointed(w, d);
    NatToStringRoundTrip(n / 10);
    assert n == 10 * (n / 10) + n % 10;
  }

  /** Digits, a point and digits (at least one digit in all) read as the whole part plus the fraction. */
  lemma {:induction false} UnsignedOfDecimal(w: string, f: string)
    requires AllDigits(w) && AllDigits(f) && |w| + |f| > 0
    ensures ParseUnsigned(w + "." + f) == Some(DigitsValue(w) as real + FractionValue(f))
  {
    var s := w + "." + f;
    DotAfterDigits(w, f);
    assert s[..|w|] == w;
    assert s[|w| + 1..] == f;
  }

  /** A non-empty run of digits reads as the natural number it denotes. */
  lemma UnsignedOfInteger(w: string)
    requires w != [] && AllDigits(w)
    ensures ParseUnsigned(w) == Some(DigitsValue(w) as real)
  {
    NoDot(w);
    assert w[..|w|] == w;
  }

  /** A run of digits holds no point. */
  lemma {:induction false} NoDot(w: string)
    requires AllDigits(w)
    ensures DotIndex(w) == |w|
    decreases |w|
  {
    if w != [] {
      NoDot(w[1..]);
    }
  }

  /** The value of an optional sign ("", "+" or "-") applied to `v`. */
  function Signed(sign: string, v: real): (r: real) {
    if sign == "-" then -v else v
  }

  /** A text with no outer white space is read without trimming. */
  lemma GradeOfUnpadded(t: string)
    requires t != [] && !Text.IsSpace(t[0]) && !Text.IsSpace(t[|t| - 1])
    ensures ParseGrade(t) == ParseSigned(t)
  {
    Text.TrimUnpadded(t);
  }

  /** `PointedDecimalParses` with the numeral after the sign named `u`. */
  lemma {:induction false} PointedText(t: string, sign: string, w: string, f: string, u: string)
    requires sign == "" || sign == "+" || sign == "-"
    requires AllDigits(w) && AllDigits(f) && |w| + |f| > 0
    requires u == w + "." + f && t == sign + u
    ensures ParseGrade(t) == Some(Signed(sign, DigitsValue(w) as real + FractionValue(f)))
  {
    PointedEnds(w, f);
    UnsignedOfDecimal(w, f);
    SignedNumeral(t, sign, u, DigitsValue(w) as real + FractionValue(f));
  }

  /** A sign before an unsigned numeral that starts and ends with a digit or point. */
  lemma {:induction false} SignedNumeral(t: string, sign: string, u: string, v: real)
    requires sign == "" || sign == "+" || sign == "-"
    requires u != [] && (IsDigit(u[0]) || u[0] == '.') && (IsDigit(u[|u| - 1]) || u[|u| - 1] == '.')
    requires ParseUnsigned(u) == Some(v) && t == sign + u
    ensures ParseGrade(t) == Some(Signed(sign, v))
  {
    SignedOf(sign, u, v);
    SignedUnpadded(sign, u);
  }

  /** A signed numeral that ends in a digit or point has no outer white space. */
  lemma {:induction false} SignedUnpadded(sign: string, u: string)
    requires sign == "" || sign == "+" || sign == "-"
    requires u != [] && (IsDigit(u[0]) || u[0] == '.') && (IsDigit(u[|u| - 1]) || u[|u| - 1] == '.')
    ensures ParseGrade(sign + u) == ParseSigned(sign + u)
  {
    var t := sign + u;
    assert t[|t| - 1] == u[|u| - 1];
    GradeOfUnpadded(t);
  }

  /** An optional sign before an unsigned numeral that starts with a digit or point. */
  lemma {:induction false} SignedOf(sign: string, u: string, v: real)
    requires sign == "" || sign == "+" || sign == "-"
    requires u != [] && (IsDigit(u[0]) || u[0] == '.')
    requires ParseUnsigned(u) == Some(v)
    ensures ParseSigned(sign + u) == Some(Signed(sign, v))
  {
    if sign != "" {
      assert (sign + u)[1..] == u;
    } else {
      assert sign + u == u;
    }
  }

  /**
   * Every well-formed decimal text is accepted, with its exact value: an
   * optional sign, digits, a point and digits, at least one digit in all
   * ("4.75", "+5.0", "-1.", ".5").
   */
  lemma {:induction false} PointedDecimalParses(t: string, sign: string, w: string, f: string)
    requires sign == "" || sign == "+" || sign == "-"
    requires AllDigits(w) && AllDigits(f) && |w| + |f| > 0
    requires t == sign + w + "." + f
    ensures ParseGrade(t) == Some(Signed(sign, DigitsValue(w) as real + FractionValue(f)))
  {
    ConcatAssoc(sign, w, f);
    PointedText(t, sign, w, f, w + "." + f);
  }

  lemma ConcatAssoc(sign: string, w: string, f: string)
    ensures sign + w + "." + f == sign + (w + "." + f)
  {
  }

  /** A pointed numeral starts and ends with a digit or its point. */
  lemma {:induction false} PointedEnds(w: string, f: string)
    requires AllDigits(w) && AllDigits(f)
    ensures var u := w + "." + f;
      (IsDigit(u[0]) || u[0] == '.') && (IsDigit(u[|u| - 1]) || u[|u| - 1] == '.')
  {
    var u := w + "." + f;
    if w != [] {
      assert u[0] == w[0];
    }
    if f != [] {
      assert u[|u| - 1] == f[|f| - 1];
    }
  }

  /** Every whole number text, with an optional sign, is accepted with its exact value ("5", "+6", "-1"). */
  lemma {:induction false} IntegerParses(sign: string, w: string)
    requires sign == "" || sign == "+" || sign == "-"
    requires w != [] && AllDigits(w)
    ensures ParseGrade(sign + w) == Some(Signed(sign, DigitsValue(w) as real))
  {
    UnsignedOfInteger(w);
    SignedOf(sign, w, DigitsValue(w) as real);
    SignedUnpadded(sign, w);
  }

  /** Digits, a point and one more digit read as the whole part plus that many tenths. */
  lemma {:induction false} UnsignedOfPointed(w: string, d: char)
    requires w != [] && AllDigits(w) && IsDigit(d)
    ensures ParseUnsigned(w + "." + [d]) == Some(DigitsValue(w) as real + DigitValue(d) as real / 10.0)
  {
    UnsignedOfDecimal(w, [d]);
    assert [d][1..] == [];
    assert FractionValue([d]) == DigitValue(d) as real / 10.0;
  }

  /** The first point after a run of digits is the one that ends the run. */
  lemma {:induction false} DotAfterDigits(w: string, rest: string)
    requires AllDigits(w)
    ensures DotIndex(w + "." + rest) == |w|
    decreases |w|
  {
    if w != [] {
      assert (w + "." + rest)[1..] == w[1..] + "." + rest;
      DotAfterDigits(w[1..], rest);
    }
  }

  /** The grade texts of the unit tests: "4.5", "7.0" and "0.5" read exactly, "abc" does not parse. */
  lemma GradeTextExamples()
    ensures ParseGrade("4.5") == Some(4.5)
    ensures ParseGrade("7.0") == Some(7.0)
    ensures ParseGrade("0.5") == Some(0.5)
    ensures ParseGrade("abc") == None
  {
    TenthsText(45, "4.5");
    TenthsText(70, "7.0");
    TenthsText(5, "0.5");
    NonNumericRejected("abc", 0);
  }

  /** `text` spells `n` tenths as a one-digit whole part, a point and a digit. */
  lemma TenthsText(n: nat, text: string)
    requires n < 100 && |text| == 3
    requires text[0] == Digit(n / 10) && text[1] == '.' && text[2] == Digit(n % 10)
    ensures ParseGrade(text) == Some(n as real / 10.0)
  {
    assert NatToString(n / 10) == [Digit(n / 10)];
    assert FormatTenths(n) == text;
    FormatTenthsRoundTrip(n);
  }
}
