/** Decimal text of an integer, as `Int32.ToString()` writes it in the
    invariant culture for the marker ID that fills the `{id}` placeholder: an
    optional `-`, then the digits of the magnitude without leading zeros. */
module Decimal {

  predicate IsDigit(c: char) {
    '0' <= c <= '9'
  }

  predicate AllDigits(s: string) {
    forall i :: 0 <= i < |s| ==> IsDigit(s[i])
  }

  function DigitChar(n: nat): (c: char)
    requires n < 10
    ensures IsDigit(c)
  {
    ('0' as int + n) as char
  }

  function DigitValue(c: char): (n: nat)
    requires IsDigit(c)
    ensures n < 10
  {
    c as int - '0' as int
  }

  /** The digits of `n`, most significant first, with no leading zero. */
  function NatToDigits(n: nat): (s: string)
    ensures |s| >= 1 && AllDigits(s)
    ensures |s| > 1 ==> s[0] != '0'
    ensures s[0] == '0' <==> n == 0
  {
    if n < 10 then [DigitChar(n)] else NatToDigits(n / 10) + [DigitChar(n % 10)]
  }

  /** An optional minus sign followed by at least one digit. */
  predicate IsDecimal(s: string) {
    && |s| >= 1
    && (s[0] == '-' ==> |s| >= 2 && AllDigits(s[1..]))
    && (s[0] != '-' ==> AllDigits(s))
  }

  /** The digits of a decimal, after its sign if it has one. */
  function Magnitude(s: string): (d: string)
    requires IsDecimal(s)
    ensures |d| >= 1 && AllDigits(d)
  {
    if s[0] == '-' then s[1..] else s
  }

  /** The shortest form: the only decimal whose digits start with `0` is
      `"0"` itself, so there are no leading zeros and no `"-0"`. */
  predicate IsCanonicalDecimal(s: string) {
    IsDecimal(s) && (Magnitude(s)[0] == '0' ==> s == "0")
  }

  /** `ToString()` of a (32-bit) integer, with the invariant culture's `-` sign. */
  function IntToString(v: int): (s: string)
    ensures IsDecimal(s)
    ensures v < 0 <==> s[0] == '-'
    ensures IsCanonicalDecimal(s)
  {
    if v < 0 then
      assert ("-" + NatToDigits(-v))[1..] == NatToDigits(-v);
      "-" + NatToDigits(-v)
    else NatToDigits(v)
  }

  /** The value of a string of digits, read most significant first. */
  function DigitsValue(s: string): nat
    requires AllDigits(s)
  {
    if |s| == 0 then 0 else DigitsValue(s[..|s| - 1]) * 10 + DigitValue(s[|s| - 1])
  }

  /** Reads back an optionally signed decimal. */
  function ParseInt(s: string): int
    requires IsDecimal(s)
  {
    if s[0] == '-' then -(DigitsValue(s[1..]) as int) else DigitsValue(s)
  }

  lemma {:induction false} NatToDigitsRoundTrip(n: nat)
    ensures DigitsValue(NatToDigits(n)) == n
  {
    if n >= 10 {
      var s := NatToDigits(n);
      assert s[..|s| - 1] == NatToDigits(n / 10);
      NatToDigitsRoundTrip(n / 10);
    }
  }

  /** The ID text reads back as the ID: `ToString` loses nothing. */
  lemma IntToStringRoundTrip(v: int)
    ensures ParseInt(IntToString(v)) == v
  {
    var s := IntToString(v);
    if v < 0 {
      assert s[1..] == NatToDigits(-v);
      NatToDigitsRoundTrip(-v);
    } else {
      NatToDigitsRoundTrip(v);
    }
  }

  /** Different IDs never print alike. */
  lemma IntToStringInjective(a: int, b: int)
    requires IntToString(a) == IntToString(b)
    ensures a == b
  {
    IntToStringRoundTrip(a);
    IntToStringRoundTrip(b);
  }

  /** The canonical text of a value is unique: every shortest-form decimal is
      exactly what `IntToString` writes for the value it reads as.  With
      `IntToStringRoundTrip`, this pins the ID's text down. */
  lemma CanonicalDecimalUnique(s: string)
    requires IsCanonicalDecimal(s)
    ensures IntToString(ParseInt(s)) == s
  {
    var d := Magnitude(s);
    if s[0] == '-' {
      LeadingDigitPositive(d);
      DigitsCanonical(d);
      assert s == "-" + d;
    } else {
      DigitsCanonical(d);
    }
  }

  /** A digit string without a leading zero (or the lone `"0"`) is the
      digits of its value. */
  lemma {:induction false} DigitsCanonical(d: string)
    requires |d| >= 1 && AllDigits(d) && (|d| > 1 ==> d[0] != '0')
    ensures NatToDigits(DigitsValue(d)) == d
  {
    var n := DigitsValue(d);
    var last := d[|d| - 1];
    if |d| == 1 {
      assert d[..0] == "";
      assert d == [DigitChar(DigitValue(last))];
    } else {
      var front := d[..|d| - 1];
      assert front[0] == d[0];
      LeadingDigitPositive(front);
      DigitsCanonical(front);
      assert n / 10 == DigitsValue(front) && n % 10 == DigitValue(last);
      assert d == front + [DigitChar(DigitValue(last))];
    }
  }

  /** Digits that do not start with `0` have a positive value. */
  lemma {:induction false} LeadingDigitPositive(d: string)
    requires |d| >= 1 && AllDigits(d) && d[0] != '0'
    ensures DigitsValue(d) >= 1
  {
    if |d| > 1 {
      var front := d[..|d| - 1];
      assert front[0] == d[0];
      LeadingDigitPositive(front);
    }
  }

  /** Forty-two is written `"42"`, never `"042"`; zero is never `"-0"`. */
  lemma ShortestFormExamples()
    ensures IntToString(42) == "42" && IntToString(-7) == "-7"
    ensures !IsCanonicalDecimal("042") && !IsCanonicalDecimal("-0") && ParseInt("042") == 42
  {
    assert "042"[..2] == "04" && "04"[..1] == "0" && "0"[..0] == "";
  }
}
