/** Decimal numerals: Rust's `{}` and `{:03}` formatting of unsigned
    integers, `str::parse::<f64>` restricted to finite decimal literals
    (with values taken as exact reals), and `f64::ceil`. */
module Decimal {
  import opened Wrappers
  import Strings

  predicate IsDigit(c: char)
  {
    '0' <= c <= '9'
  }

  predicate AllDigits(s: string)
  {
    forall k :: 0 <= k < |s| ==> IsDigit(s[k])
  }

  function DigitChar(d: nat): (c: char)
    requires d < 10
    ensures IsDigit(c)
  {
    ('0' as int + d) as char
  }

  function DigitValue(c: char): (d: nat)
    requires IsDigit(c)
    ensures d < 10 && DigitChar(d) == c
  {
    c as int - '0' as int
  }

  /** Rust's `{}` for an unsigned integer: its shortest decimal numeral. */
  function NatToString(n: nat): (s: string)
    ensures |s| >= 1 && AllDigits(s)
    ensures |s| > 1 ==> s[0] != '0'
  {
    if n < 10 then [DigitChar(n)] else NatToString(n / 10) + [DigitChar(n % 10)]
  }

  /** The number a string of decimal digits denotes (most significant first). */
  function DigitsValue(s: string): nat
    requires AllDigits(s)
  {
    if s == [] then 0 else DigitsValue(s[..|s| - 1]) * 10 + DigitValue(s[|s| - 1])
  }

  /** Reading back the numeral of `n` gives `n`. */
  lemma {:induction false} NatToStringValue(n: nat)
    ensures DigitsValue(NatToString(n)) == n
  {
    if n >= 10 {
      NatToStringValue(n / 10);
      var s := NatToString(n);
      assert s[..|s| - 1] == NatToString(n / 10);
    }
  }

  /** `NatToString` is one-to-one. */
  lemma NatToStringInjective(n: nat, m: nat)
    requires NatToString(n) == NatToString(m)
    ensures n == m
  {
    NatToStringValue(n);
    NatToStringValue(m);
  }

  function Zeros(k: nat): (z: string)
    ensures |z| == k && AllDigits(z)
  {
    if k == 0 then "" else "0" + Zeros(k - 1)
  }

  /** Rust's `{:0w}`: the numeral of `n`, padded on the left with zeros to
      at least `width` characters. */
  function PaddedNat(n: nat, width: nat): (s: string)
    ensures AllDigits(s)
    ensures |s| == if |NatToString(n)| >= width then |NatToString(n)| else width
  {
    var digits := NatToString(n);
    if |digits| >= width then digits else Zeros(width - |digits|) + digits
  }

  /** Leading zeros do not change the value of a numeral. */
  lemma {:induction false} LeadingZeroValue(s: string)
    requires AllDigits(s)
    ensures DigitsValue("0" + s) == DigitsValue(s)
  {
    if s != [] {
      var t := "0" + s;
      assert t[..|t| - 1] == "0" + s[..|s| - 1];
      LeadingZeroValue(s[..|s| - 1]);
    }
  }

  lemma {:induction false} ZerosValue(k: nat, s: string)
    requires AllDigits(s)
    ensures DigitsValue(Zeros(k) + s) == DigitsValue(s)
  {
    if k > 0 {
      var t := Zeros(k - 1) + s;
      ZerosValue(k - 1, s);
      assert AllDigits(t);
      assert Zeros(k) + s == "0" + t;
      LeadingZeroValue(t);
      calc {
        DigitsValue(Zeros(k) + s);
        DigitsValue("0" + t);
        DigitsValue(t);
      }
    } else {
      assert Zeros(k) + s == s;
    }
  }

  /** A zero-padded numeral still denotes its number, so two different
      numbers never get the same padded numeral. */
  lemma PaddedNatValue(n: nat, width: nat)
    ensures DigitsValue(PaddedNat(n, width)) == n
  {
    var digits := NatToString(n);
    NatToStringValue(n);
    if |digits| < width {
      ZerosValue(width - |digits|, digits);
      assert PaddedNat(n, width) == Zeros(width - |digits|) + digits;
    } else {
      assert PaddedNat(n, width) == digits;
    }
  }

  lemma PaddedNatInjective(n: nat, m: nat, width: nat)
    requires PaddedNat(n, width) == PaddedNat(m, width)
    ensures n == m
  {
    PaddedNatValue(n, width);
    PaddedNatValue(m, width);
  }

  function Pow10(k: nat): (p: nat)
    ensures p >= 1
  {
    if k == 0 then 1 else 10 * Pow10(k - 1)
  }

  /** 10 raised to an integer power, as an exact real. */
  function Scale(e: int): (r: real)
    ensures r > 0.0
  {
    if e >= 0 then Pow10(e) as real else 1.0 / Pow10(-e) as real
  }

  /** Index of the first exponent marker `e`/`E`, or |s| when there is none. */
  function ExponentAt(s: string): (i: nat)
    ensures i <= |s|
    ensures forall k :: 0 <= k < i ==> s[k] != 'e' && s[k] != 'E'
    ensures i < |s| ==> s[i] == 'e' || s[i] == 'E'
  {
    if s == [] || s[0] == 'e' || s[0] == 'E' then 0 else 1 + ExponentAt(s[1..])
  }

  /** The exact value of the fixed-point numeral `whole.frac`. */
  function FixedValue(whole: string, frac: string): (v: real)
    requires AllDigits(whole) && AllDigits(frac)
    ensures v >= DigitsValue(whole) as real
  {
    DigitsValue(whole) as real + DigitsValue(frac) as real / Pow10(|frac|) as real
  }

  /** `Digit+ | Digit+ '.' Digit* | Digit* '.' Digit+`, valued exactly. */
  function ParseMantissa(m: string): Option<real>
  {
    var pieces := Strings.Split(m, '.');
    if |pieces| == 1 then
      if m != [] && AllDigits(m) then Some(DigitsValue(m) as real) else None
    else if |pieces| == 2 then
      var whole, frac := pieces[0], pieces[1];
      if AllDigits(whole) && AllDigits(frac) && |whole| + |frac| >= 1 then
        Some(FixedValue(whole, frac))
      else None
    else None
  }

  /** `Sign? Digit+` as an integer exponent. */
  function ParseExponent(x: string): Option<int>
  {
    if |x| > 0 && (x[0] == '+' || x[0] == '-') then
      var digits := x[1..];
      if digits != [] && AllDigits(digits) then
        Some(if x[0] == '-' then -(DigitsValue(digits) as int) else DigitsValue(digits))
      else None
    else if x != [] && AllDigits(x) then Some(DigitsValue(x))
    else None
  }

  function ParseUnsigned(s: string): Option<real>
  {
    var e := ExponentAt(s);
    match ParseMantissa(s[..e])
    case None => None
    case Some(m) =>
      if e == |s| then Some(m)
      else match ParseExponent(s[e + 1..])
        case None => None
        case Some(x) => Some(m * Scale(x))
  }

  /** Rust's `str::parse::<f64>` on a finite decimal literal
      `Sign? Mantissa Exponent?`, valued as an exact real. */
  function ParseFloat(s: string): Option<real>
  {
    if |s| > 0 && (s[0] == '+' || s[0] == '-') then
      match ParseUnsigned(s[1..])
      case None => None
      case Some(v) => Some(if s[0] == '-' then -v else v)
    else ParseUnsigned(s)
  }

  lemma NoExponentMarker(s: string)
    requires forall k :: 0 <= k < |s| ==> s[k] != 'e' && s[k] != 'E'
    ensures ExponentAt(s) == |s|
  {
  }

  /** Without an exponent marker, the whole literal is the mantissa. */
  lemma ParseWithoutExponent(s: string)
    requires forall k :: 0 <= k < |s| ==> s[k] != 'e' && s[k] != 'E'
    requires s == [] || (s[0] != '+' && s[0] != '-')
    ensures ParseFloat(s) == ParseMantissa(s)
  {
    NoExponentMarker(s);
    assert s[..|s|] == s;
  }

  /** A non-empty run of digits parses to the number it denotes. */
  lemma ParseDigits(s: string)
    requires s != [] && AllDigits(s)
    ensures ParseFloat(s) == Some(DigitsValue(s) as real)
  {
    assert forall k :: 0 <= k < |s| ==> IsDigit(s[k]);
    ParseWithoutExponent(s);
    assert '.' !in s by {
      forall k | 0 <= k < |s| ensures s[k] != '.' { assert IsDigit(s[k]); }
    }
    Strings.SplitNoSep(s, '.');
  }

  /** The numeral `NatToString` prints parses back to the same number. */
  lemma ParseNatToString(n: nat)
    ensures ParseFloat(NatToString(n)) == Some(n as real)
  {
    ParseDigits(NatToString(n));
    NatToStringValue(n);
  }

  /** `whole.frac` parses to whole + frac / 10^|frac|. */
  lemma ParseFixedPoint(whole: string, frac: string)
    requires AllDigits(whole) && AllDigits(frac) && |whole| + |frac| >= 1
    ensures ParseFloat(whole + "." + frac)
         == Some(FixedValue(whole, frac))
  {
    var s := whole + "." + frac;
    FixedPointHasNoMarker(whole, frac);
    ParseWithoutExponent(s);
    NoDotInDigits(whole);
    NoDotInDigits(frac);
    assert s == whole + ['.'] + frac;
    SplitAround(whole, frac, '.');
    MantissaOfTwoPieces(s, whole, frac);
  }

  lemma MantissaOfTwoPieces(m: string, whole: string, frac: string)
    requires Strings.Split(m, '.') == [whole, frac]
    requires AllDigits(whole) && AllDigits(frac) && |whole| + |frac| >= 1
    ensures ParseMantissa(m)
         == Some(FixedValue(whole, frac))
  {
    var pieces := Strings.Split(m, '.');
    assert |pieces| == 2 && pieces[0] == whole && pieces[1] == frac;
  }

  lemma NoDotInDigits(s: string)
    requires AllDigits(s)
    ensures '.' !in s
  {
    forall k | 0 <= k < |s| ensures s[k] != '.' { assert IsDigit(s[k]); }
  }

  lemma FixedPointHasNoMarker(whole: string, frac: string)
    requires AllDigits(whole) && AllDigits(frac)
    ensures var s := whole + "." + frac;
      (forall k :: 0 <= k < |s| ==> s[k] != 'e' && s[k] != 'E') && s[0] != '+' && s[0] != '-'
  {
    var s := whole + "." + frac;
    forall k | 0 <= k < |s| ensures s[k] != 'e' && s[k] != 'E' && s[k] != '+' && s[k] != '-' {
      if k < |whole| { assert s[k] == whole[k]; assert IsDigit(whole[k]); }
      else if k > |whole| { assert s[k] == frac[k - |whole| - 1]; assert IsDigit(frac[k - |whole| - 1]); }
    }
  }

  /** Splitting `a + [sep] + b`, where neither part holds `sep`, gives [a, b]. */
  lemma {:induction false} SplitAround(a: string, b: string, sep: char)
    requires sep !in a && sep !in b
    ensures Strings.Split(a + [sep] + b, sep) == [a, b]
  {
    if a == [] {
      assert a + [sep] + b == [sep] + b;
      assert ([sep] + b)[1..] == b;
      Strings.SplitNoSep(b, sep);
    } else {
      assert (a + [sep] + b)[1..] == a[1..] + [sep] + b;
      SplitAround(a[1..], b, sep);
      assert [a[0]] + a[1..] == a;
    }
  }

  /** Rust's `f64::ceil` on an exact real: the least integer not below `x`. */
  function Ceil(x: real): (c: int)
    ensures x <= c as real < x + 1.0
  {
    if x.Floor as real == x then x.Floor else x.Floor + 1
  }
}
