/**
  Decimal text of the numbers the storefront shows and edits: what
  `Number.prototype.toString` produces for integers and for the two-decimal
  values of the database's DECIMAL columns, and the parsers that read that
  text back.
*/
module Numerals {
  import opened Wrappers
  import opened Text

  predicate IsDigit(c: char) {
    '0' <= c <= '9'
  }

  predicate AllDigits(s: string) {
    forall i :: 0 <= i < |s| ==> IsDigit(s[i])
  }

  function DigitChar(d: nat): (c: char)
    requires d < 10
    ensures IsDigit(c)
  {
    (d + '0' as int) as char
  }

  /** The value of a decimal digit character; other characters count as 0. */
  function DigitValue(c: char): (d: nat)
    ensures IsDigit(c) ==> d < 10 && DigitChar(d) == c
  {
    if IsDigit(c) then c as int - '0' as int else 0
  }

  /** The decimal digits of `n`, without leading zeros. */
  function NatToString(n: nat): (r: string)
    ensures |r| >= 1 && AllDigits(r)
    ensures r[0] == '0' ==> n == 0
    decreases n
  {
    if n < 10 then [DigitChar(n)] else NatToString(n / 10) + [DigitChar(n % 10)]
  }

  /** The value of a string of decimal digits, read most significant digit first; callers check `AllDigits`. */
  function ParseNat(s: string): nat
    decreases |s|
  {
    if s == [] then 0 else ParseNat(s[..|s| - 1]) * 10 + DigitValue(s[|s| - 1])
  }

  /** Reading the digits of `n` gives back `n`. */
  lemma {:induction false} ParseNatToString(n: nat)
    ensures ParseNat(NatToString(n)) == n
    decreases n
  {
    if n >= 10 {
      ParseNatToString(n / 10);
      var s := NatToString(n);
      assert s[..|s| - 1] == NatToString(n / 10);
    }
  }

  /**
    `Number.prototype.toString` of an integer: an optional '-' and then
    digits with no leading zero, and no "-0".
  */
  function IntToString(n: int): (r: string)
    ensures |r| >= 1
    ensures r[0] == '-' <==> n < 0
    ensures n >= 0 ==> AllDigits(r) && (r[0] == '0' ==> r == "0")
    ensures n < 0 ==> |r| >= 2 && AllDigits(r[1..]) && r[1] != '0'
  {
    if n < 0 then "-" + NatToString(-n) else NatToString(n)
  }

  /**
    An optionally signed string of decimal digits. Leading zeros are accepted,
    as a database column reading the text would.
  */
  function ParseInt(s: string): (r: Option<int>)
  {
    if |s| > 1 && s[0] == '-' && AllDigits(s[1..]) then Some(0 - ParseNat(s[1..]))
    else if |s| > 0 && AllDigits(s) then Some(ParseNat(s))
    else None
  }

  /** Printing an integer and reading it back is the identity. */
  lemma IntRoundTrip(n: int)
    ensures ParseInt(IntToString(n)) == Some(n)
  {
    if n < 0 {
      var digits := NatToString(-n);
      var t := "-" + digits;
      assert t[1..] == digits;
      ParseNatToString(-n);
      assert ParseInt(t) == Some(0 - ParseNat(digits));
    } else {
      ParseNatToString(n);
    }
  }

  /** Different integers print differently. */
  lemma IntToStringInjective(a: int, b: int)
    requires IntToString(a) == IntToString(b)
    ensures a == b
  {
    IntRoundTrip(a);
    IntRoundTrip(b);
  }

  /** The one or two fractional digits of `f` hundredths, without a trailing zero. */
  function FractionDigits(f: nat): string
    requires 0 < f < 100
  {
    if f % 10 == 0 then [DigitChar(f / 10)] else [DigitChar(f / 10), DigitChar(f % 10)]
  }

  /** The fractional part `.d` or `.dd` of a two-decimal value with `f` hundredths; empty when `f` is 0. */
  function FractionText(f: nat): string
    requires f < 100
  {
    if f == 0 then "" else "." + FractionDigits(f)
  }

  /**
    `Number.prototype.toString` of the value `v / 100` (a DECIMAL(10,2) or
    DECIMAL(3,2) value): "1000", "4.5", "19.99", "-0.05".
  */
  function ShowHundredths(v: int): (r: string)
    ensures |r| >= 1
    ensures r[0] == '-' <==> v < 0
    ensures '.' in r <==> v % 100 != 0
    ensures var k := if v < 0 then 1 else 0;
      k < |r| && IsDigit(r[k]) && (r[k] == '0' ==> k + 1 == |r| || r[k + 1] == '.')
    ensures v % 100 != 0 ==> r[|r| - 1] != '0'
  {
    var a: nat := if v < 0 then -v else v;
    var w := NatToString(a / 100);
    var t := w + FractionText(a % 100);
    assert '.' !in w;
    assert '.' in t <==> a % 100 != 0;
    assert a % 100 != 0 <==> v % 100 != 0 by {
      WholeHundreds(v);
    }
    if v < 0 then "-" + t else t
  }

  /** Negation keeps a multiple of 100 a multiple of 100. */
  lemma WholeHundreds(v: int)
    ensures (-v) % 100 == 0 <==> v % 100 == 0
  {
    if v % 100 == 0 {
      assert -v == (-(v / 100)) * 100;
    }
    if (-v) % 100 == 0 {
      assert v == (-((-v) / 100)) * 100;
    }
  }

  /** The value in hundredths of the digits before and after a decimal point. */
  function ParseDecimalParts(whole: string, frac: string): (r: Option<nat>)
  {
    if |whole| > 0 && AllDigits(whole) && 1 <= |frac| <= 2 && AllDigits(frac) then
      Some(ParseNat(whole) * 100 + (if |frac| == 1 then ParseNat(frac) * 10 else ParseNat(frac)))
    else None
  }

  /** Reads unsigned decimal text with at most two fractional digits, as a number of hundredths. */
  function ParseUnsignedHundredths(t: string): (r: Option<nat>)
  {
    match IndexOf(t, '.')
    case None =>
      if |t| > 0 && AllDigits(t) then Some(ParseNat(t) * 100) else None
    case Some(k) =>
      ParseDecimalParts(t[..k], t[k + 1..])
  }

  /** Reads optionally signed decimal text with at most two fractional digits, as a number of hundredths. */
  function ParseHundredths(s: string): (r: Option<int>)
  {
    if |s| > 0 && s[0] == '-' then
      match ParseUnsignedHundredths(s[1..])
      case None => None
      case Some(a) => Some(0 - a)
    else
      match ParseUnsignedHundredths(s)
      case None => None
      case Some(a) => Some(a)
  }

  lemma ParseOneDigit(d: nat)
    requires d < 10
    ensures ParseNat([DigitChar(d)]) == d
  {
    assert [DigitChar(d)][..0] == [];
  }

  lemma ParseTwoDigits(d: nat, e: nat)
    requires d < 10 && e < 10
    ensures ParseNat([DigitChar(d), DigitChar(e)]) == d * 10 + e
  {
    assert [DigitChar(d), DigitChar(e)][..1] == [DigitChar(d)];
    ParseOneDigit(d);
  }

  lemma IndexOfAfterDigits(w: string, rest: string)
    requires AllDigits(w)
    ensures IndexOf(w + "." + rest, '.') == Some(|w|)
    decreases |w|
  {
    if w != [] {
      assert (w + "." + rest)[1..] == w[1..] + "." + rest;
      IndexOfAfterDigits(w[1..], rest);
    }
  }

  lemma ParseWholeAndFraction(w: string, ds: string)
    requires |w| > 0 && AllDigits(w) && AllDigits(ds) && 1 <= |ds| <= 2
    ensures ParseUnsignedHundredths(w + "." + ds) == ParseDecimalParts(w, ds)
  {
    var t := w + "." + ds;
    IndexOfAfterDigits(w, ds);
    assert t[..|w|] == w;
    assert t[|w| + 1..] == ds;
  }

  lemma WholeRoundTrip(q: nat)
    ensures ParseUnsignedHundredths(NatToString(q)) == Some(q * 100)
  {
    var w := NatToString(q);
    ParseNatToString(q);
    assert IndexOf(w, '.') == None;
  }

  lemma FractionDigitsValue(f: nat)
    requires 0 < f < 100
    ensures var ds := FractionDigits(f);
      && 1 <= |ds| <= 2 && AllDigits(ds)
      && (if |ds| == 1 then ParseNat(ds) * 10 else ParseNat(ds)) == f
  {
    if f % 10 == 0 {
      ParseOneDigit(f / 10);
    } else {
      ParseTwoDigits(f / 10, f % 10);
    }
  }

  lemma FractionRoundTrip(q: nat, f: nat)
    requires 0 < f < 100
    ensures ParseUnsignedHundredths(NatToString(q) + FractionText(f)) == Some(q * 100 + f)
  {
    var w := NatToString(q);
    var ds := FractionDigits(f);
    ParseNatToString(q);
    assert w + FractionText(f) == w + "." + ds;
    ParseWholeAndFraction(w, ds);
    FractionDigitsValue(f);
  }

  lemma WholeHundredsRoundTrip(a: nat)
    requires a % 100 == 0
    ensures ParseUnsignedHundredths(NatToString(a / 100) + FractionText(a % 100)) == Some(a)
  {
    var q := a / 100;
    assert FractionText(a % 100) == "";
    assert NatToString(q) + "" == NatToString(q);
    WholeRoundTrip(q);
    assert q * 100 == a;
  }

  lemma SplitHundreds(a: nat)
    ensures (a / 100) * 100 + a % 100 == a
  {
  }

  lemma UnsignedHundredthsRoundTrip(a: nat)
    ensures ParseUnsignedHundredths(NatToString(a / 100) + FractionText(a % 100)) == Some(a)
  {
    if a % 100 == 0 {
      WholeHundredsRoundTrip(a);
    } else {
      SplitHundreds(a);
      FractionRoundTrip(a / 100, a % 100);
    }
  }

  /** Printing a two-decimal value and reading it back is the identity. */
  lemma {:induction false} HundredthsRoundTrip(v: int)
    ensures ParseHundredths(ShowHundredths(v)) == Some(v)
  {
    var a: nat := if v < 0 then -v else v;
    var t := NatToString(a / 100) + FractionText(a % 100);
    UnsignedHundredthsRoundTrip(a);
    if v < 0 {
      assert ShowHundredths(v)[1..] == t;
    } else {
      assert t[0] != '-';
    }
  }
}
