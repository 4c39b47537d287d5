/** The screenshot placeholders the model is asked to write, such as
    `[Screenshot: 00:14s]` or `[Screenshot: 123.45s]`: a recognizer for
    the pattern `\[Screenshot:\s*(\d{1,2}:\d{2}(?:\.\d+)?|\d+(?:\.\d+)?)\s*s\]`
    (with ASCII digits), the left-to-right search for all of them, and
    `parse_timestamp`, which turns the captured timestamp into seconds. */
module Placeholders {
  import opened Wrappers
  import Strings
  import Decimal

  const Opening: string := "[Screenshot:"
  const Closing: string := "s]"

  /** The characters a timestamp is made of. */
  predicate IsTimestampChar(c: char)
  {
    Decimal.IsDigit(c) || c == '.' || c == ':'
  }

  /** `\s*` from `i`: the first index at or after `i` that is not white
      space. */
  function SkipSpaces(s: string, i: nat): (j: nat)
    requires i <= |s|
    ensures i <= j <= |s|
    ensures forall k :: i <= k < j ==> Strings.IsWhiteSpace(s[k])
    ensures j < |s| ==> !Strings.IsWhiteSpace(s[j])
    decreases |s| - i
  {
    if i == |s| || !Strings.IsWhiteSpace(s[i]) then i else SkipSpaces(s, i + 1)
  }

  /** The end of the run of timestamp characters starting at `i`. */
  function RunEnd(s: string, i: nat): (j: nat)
    requires i <= |s|
    ensures i <= j <= |s|
    ensures forall k :: i <= k < j ==> IsTimestampChar(s[k])
    ensures j < |s| ==> !IsTimestampChar(s[j])
    decreases |s| - i
  {
    if i == |s| || !IsTimestampChar(s[i]) then i else RunEnd(s, i + 1)
  }

  /** `(?:\.\d+)?` */
  predicate OptionalFraction(r: string)
  {
    r == [] || (|r| >= 2 && r[0] == '.' && Decimal.AllDigits(r[1..]))
  }

  /** `\d{1,2}:\d{2}(?:\.\d+)?`, with `c` digits before the colon. */
  predicate MinutesSeconds(t: string, c: nat)
  {
    (c == 1 || c == 2) && |t| >= c + 3 && Decimal.AllDigits(t[..c]) && t[c] == ':' &&
    Decimal.AllDigits(t[c + 1..c + 3]) && OptionalFraction(t[c + 3..])
  }

  /** `\d+(?:\.\d+)?`, with `w` digits before the optional fraction. */
  predicate Seconds(t: string, w: nat)
  {
    1 <= w <= |t| && Decimal.AllDigits(t[..w]) && OptionalFraction(t[w..])
  }

  /** The timestamp group of the pattern. */
  predicate IsTimestamp(t: string)
  {
    MinutesSeconds(t, 1) || MinutesSeconds(t, 2) || exists w | 1 <= w <= |t| :: Seconds(t, w)
  }

  /** A timestamp starts with a digit, ends with a digit and holds only
      timestamp characters. */
  lemma TimestampShape(t: string)
    requires IsTimestamp(t)
    ensures |t| > 0 && Decimal.IsDigit(t[0]) && Decimal.IsDigit(t[|t| - 1])
    ensures forall k :: 0 <= k < |t| ==> IsTimestampChar(t[k])
  {
    if MinutesSeconds(t, 1) || MinutesSeconds(t, 2) {
      var c := if MinutesSeconds(t, 1) then 1 else 2;
      FractionShape(t, c + 3);
      forall k | 0 <= k < |t| ensures IsTimestampChar(t[k]) {
        if k < c { assert t[k] == t[..c][k]; }
        else if c < k < c + 3 { assert t[k] == t[c + 1..c + 3][k - c - 1]; }
      }
      assert t[0] == t[..c][0];
      if |t| == c + 3 { assert t[|t| - 1] == t[c + 1..c + 3][1]; }
    } else {
      var w :| 1 <= w <= |t| && Seconds(t, w);
      FractionShape(t, w);
      forall k | 0 <= k < w ensures IsTimestampChar(t[k]) { assert t[k] == t[..w][k]; }
      assert t[0] == t[..w][0];
      if |t| == w { assert t[|t| - 1] == t[..w][w - 1]; }
    }
  }

  /** The optional fraction from `at` on holds only timestamp characters
      and, when present, ends with a digit. */
  lemma FractionShape(t: string, at: nat)
    requires at <= |t| && OptionalFraction(t[at..])
    ensures forall k :: at <= k < |t| ==> IsTimestampChar(t[k])
    ensures |t| > at ==> Decimal.IsDigit(t[|t| - 1])
  {
    var r := t[at..];
    forall k | at <= k < |t| ensures IsTimestampChar(t[k]) {
      assert t[k] == r[k - at];
      if k > at { assert r[k - at] == r[1..][k - at - 1]; }
    }
    if |t| > at { assert t[|t| - 1] == r[1..][|r| - 2]; }
  }

  /** Where a placeholder's timestamp starts and ends, and where its
      closing `s]` stands. */
  datatype PlaceholderMatch = PlaceholderMatch(tsStart: nat, tsEnd: nat, closeAt: nat)

  /** One past the last character of a match. */
  function End(m: PlaceholderMatch): nat
  {
    m.closeAt + 2
  }

  /** The pattern matches `s[i..End(m)]`, with its timestamp group at
      `s[m.tsStart..m.tsEnd]`. */
  predicate Matches(s: string, i: nat, m: PlaceholderMatch)
  {
    i + |Opening| <= m.tsStart <= m.tsEnd <= m.closeAt && End(m) <= |s| &&
    Strings.OccursAt(s, Opening, i) &&
    (forall k :: i + |Opening| <= k < m.tsStart ==> Strings.IsWhiteSpace(s[k])) &&
    IsTimestamp(s[m.tsStart..m.tsEnd]) &&
    (forall k :: m.tsEnd <= k < m.closeAt ==> Strings.IsWhiteSpace(s[k])) &&
    Strings.OccursAt(s, Closing, m.closeAt)
  }

  /** The match of the pattern starting at `i`, if there is one. */
  function MatchAt(s: string, i: nat): (m: Option<PlaceholderMatch>)
    requires i <= |s|
    ensures m.Some? ==> Matches(s, i, m.value)
  {
    if !Strings.OccursAt(s, Opening, i) then None
    else
      var a := SkipSpaces(s, i + |Opening|);
      var b := RunEnd(s, a);
      var c := SkipSpaces(s, b);
      if IsTimestamp(s[a..b]) && Strings.OccursAt(s, Closing, c) then Some(PlaceholderMatch(a, b, c)) else None
  }

  /** The recognizer misses no match: wherever the pattern matches, it
      finds exactly that match. */
  lemma MatchAtComplete(s: string, i: nat, m: PlaceholderMatch)
    requires i <= |s| && Matches(s, i, m)
    ensures MatchAt(s, i) == Some(m)
  {
    var t := s[m.tsStart..m.tsEnd];
    TimestampShape(t);
    assert s[m.tsStart] == t[0];
    assert s[m.closeAt] == Closing[0];
    var a := SkipSpaces(s, i + |Opening|);
    assert a == m.tsStart;
    forall k | m.tsStart <= k < m.tsEnd ensures IsTimestampChar(s[k]) { assert s[k] == t[k - m.tsStart]; }
    var b := RunEnd(s, a);
    assert b == m.tsEnd by {
      if m.tsEnd < m.closeAt { assert Strings.IsWhiteSpace(s[m.tsEnd]); }
    }
    assert SkipSpaces(s, b) == m.closeAt;
  }

  /** All placeholders from `from` on, left to right and without overlap,
      each with the text of its timestamp. */
  function FindAll(s: string, from: nat): (found: seq<(string, string)>)
    requires from <= |s|
    ensures forall k :: 0 <= k < |found| ==> |found[k].0| > 0 && found[k].0[0] == '[' && IsTimestamp(found[k].1)
    decreases |s| - from
  {
    if from == |s| then []
    else match MatchAt(s, from)
      case Some(m) =>
        assert s[from..End(m)][0] == s[from] == Opening[0];
        [(s[from..End(m)], s[m.tsStart..m.tsEnd])] + FindAll(s, End(m))
      case None => FindAll(s, from + 1)
  }

  /** Text without `[` holds no placeholder. */
  lemma {:induction false} NoBracketNoPlaceholder(s: string, from: nat)
    requires from <= |s|
    requires forall k :: from <= k < |s| ==> s[k] != '['
    ensures FindAll(s, from) == []
    decreases |s| - from
  {
    if from < |s| {
      assert !Strings.OccursAt(s, Opening, from) by {
        if from + |Opening| <= |s| { assert s[from..from + |Opening|][0] == s[from]; }
      }
      NoBracketNoPlaceholder(s, from + 1);
    }
  }

  function OrZero(v: Option<real>): real
  {
    if v.Some? then v.value else 0.0
  }

  /** `parse_timestamp`: `M:S` is M·60 + S, `S` is S, where a half that
      does not parse counts as 0; more than one colon gives 0. */
  function ParseTimestamp(t: string): real
  {
    if ':' in t then
      var parts := Strings.Split(t, ':');
      if |parts| == 2 then OrZero(Decimal.ParseFloat(parts[0])) * 60.0 + OrZero(Decimal.ParseFloat(parts[1]))
      else 0.0
    else OrZero(Decimal.ParseFloat(t))
  }

  /** The value of `digits` followed by an optional fraction. */
  function FractionValue(digits: string, fraction: string): real
    requires Decimal.AllDigits(digits) && OptionalFraction(fraction)
  {
    if fraction == [] then Decimal.DigitsValue(digits) as real else Decimal.FixedValue(digits, fraction[1..])
  }

  /** `digits` with an optional fraction parses to its value. */
  lemma ParseFraction(digits: string, fraction: string)
    requires digits != [] && Decimal.AllDigits(digits) && OptionalFraction(fraction)
    ensures Decimal.ParseFloat(digits + fraction) == Some(FractionValue(digits, fraction))
    ensures ':' !in digits + fraction
  {
    var s := digits + fraction;
    if fraction == [] {
      assert s == digits;
      Decimal.ParseDigits(digits);
    } else {
      assert s == digits + "." + fraction[1..];
      Decimal.ParseFixedPoint(digits, fraction[1..]);
    }
    forall k | 0 <= k < |s| ensures s[k] != ':' {
      if k < |digits| { assert s[k] == digits[k]; assert Decimal.IsDigit(digits[k]); }
      else if k > |digits| { assert s[k] == fraction[1..][k - |digits| - 1]; assert Decimal.IsDigit(fraction[1..][k - |digits| - 1]); }
    }
  }

  /** A recognized `M:SS` timestamp is worth M·60 + SS seconds (with its
      fraction). */
  lemma ParseMinutesSeconds(t: string, c: nat)
    requires MinutesSeconds(t, c)
    ensures ParseTimestamp(t) == Decimal.DigitsValue(t[..c]) as real * 60.0 + FractionValue(t[c + 1..c + 3], t[c + 3..])
  {
    var minutes, secs, fraction := t[..c], t[c + 1..c + 3], t[c + 3..];
    ParseFraction(minutes, []);
    assert minutes + [] == minutes;
    ParseFraction(secs, fraction);
    var rest := secs + fraction;
    assert t == minutes + [':'] + rest;
    Decimal.SplitAround(minutes, rest, ':');
    assert t[c] == ':';
  }

  /** A recognized timestamp without a colon is worth its number of
      seconds. */
  lemma ParseSeconds(t: string, w: nat)
    requires Seconds(t, w)
    ensures ParseTimestamp(t) == FractionValue(t[..w], t[w..])
  {
    ParseFraction(t[..w], t[w..]);
    assert t == t[..w] + t[w..];
  }

  /** A string with no colon counts no colons. */
  lemma {:induction false} NoColonCount(t: string)
    requires ':' !in t
    ensures Strings.CountChar(t, ':') == 0
  {
    if t != [] {
      assert t[0] != ':';
      assert forall k :: 0 <= k < |t| - 1 ==> t[1..][k] == t[k + 1];
      NoColonCount(t[1..]);
    }
  }

  /** More than one colon gives 0. */
  lemma ParseManyColons(t: string)
    requires Strings.CountChar(t, ':') >= 2
    ensures ParseTimestamp(t) == 0.0
  {
    if ':' !in t { NoColonCount(t); }
    Strings.SplitPieces(t, ':');
  }

  /** The first example of the screenshot instruction is recognized, and
      its timestamp is 14 seconds. */
  lemma FirstExampleRecognized(s: string, i: nat)
    requires Strings.OccursAt(s, "[Screenshot: 00:14s]", i)
    ensures MatchAt(s, i) == Some(PlaceholderMatch(i + 13, i + 18, i + 18))
    ensures s[i + 13..i + 18] == "00:14" && ParseTimestamp("00:14") == 14.0
  {
    ClockExample(s, i, "00:14");
  }

  /** The second example of the screenshot instruction is recognized, and
      its timestamp is 83 seconds. */
  lemma SecondExampleRecognized(s: string, i: nat)
    requires Strings.OccursAt(s, "[Screenshot: 01:23s]", i)
    ensures MatchAt(s, i) == Some(PlaceholderMatch(i + 13, i + 18, i + 18))
    ensures s[i + 13..i + 18] == "01:23" && ParseTimestamp("01:23") == 83.0
  {
    ClockExample(s, i, "01:23");
  }

  /** A placeholder `[Screenshot: MM:SSs]` is recognized and its timestamp
      is MM minutes and SS seconds. */
  lemma ClockExample(s: string, i: nat, t: string)
    requires |t| == 5 && t[2] == ':' && Decimal.AllDigits(t[..2]) && Decimal.AllDigits(t[3..])
    requires Strings.OccursAt(s, "[Screenshot: " + t + "s]", i)
    ensures MatchAt(s, i) == Some(PlaceholderMatch(i + 13, i + 18, i + 18))
    ensures s[i + 13..i + 18] == t
    ensures ParseTimestamp(t) == (TwoDigits(t[0], t[1]) * 60 + TwoDigits(t[3], t[4])) as real
  {
    assert t[3..] == t[3..5] && t[5..] == [];
    assert MinutesSeconds(t, 2);
    ExampleRecognized(s, i, t, 2);
    ParseMinutesSeconds(t, 2);
    TwoDigitsValue(t[..2]);
    TwoDigitsValue(t[3..5]);
  }

  /** The value of two decimal digits. */
  function TwoDigits(a: char, b: char): nat
    requires Decimal.IsDigit(a) && Decimal.IsDigit(b)
  {
    Decimal.DigitValue(a) * 10 + Decimal.DigitValue(b)
  }

  lemma TwoDigitsValue(d: string)
    requires |d| == 2 && Decimal.AllDigits(d)
    ensures Decimal.DigitsValue(d) == TwoDigits(d[0], d[1])
  {
    var first := d[..1];
    assert d[..|d| - 1] == first && first[..|first| - 1] == [];
    assert Decimal.DigitsValue(first) == Decimal.DigitValue(d[0]);
  }

  /** A decimal-seconds placeholder such as `[Screenshot: 123.45s]` is
      recognized with its number of seconds. */
  lemma DecimalSecondsRecognized()
    ensures MatchAt("[Screenshot: 123.45s]", 0) == Some(PlaceholderMatch(13, 19, 19))
    ensures ParseTimestamp("123.45") == 123.45
  {
    var s := "[Screenshot: 123.45s]";
    var t := "123.45";
    DecimalSecondsShape();
    assert s == "[Screenshot: " + t + "s]";
    assert s[13..19] == t;
    assert Strings.OccursAt(s, Opening, 0) by { assert s[..12] == Opening; }
    assert Strings.OccursAt(s, Closing, 19) by { assert s[19..21] == Closing; }
    MatchAtComplete(s, 0, PlaceholderMatch(13, 19, 19));
    DecimalSecondsValue();
  }

  lemma DecimalSecondsShape()
    ensures Seconds("123.45", 3) && IsTimestamp("123.45")
  {
    var t := "123.45";
    assert t[..3] == "123" && t[3..] == ".45" && ".45"[1..] == "45";
    assert Decimal.AllDigits("123") by {
      forall k | 0 <= k < 3 ensures Decimal.IsDigit("123"[k]) { }
    }
    assert Decimal.AllDigits("45") by {
      forall k | 0 <= k < 2 ensures Decimal.IsDigit("45"[k]) { }
    }
    assert Seconds(t, 3);
  }

  lemma DecimalSecondsValue()
    ensures ParseTimestamp("123.45") == 123.45
  {
    var t := "123.45";
    DecimalSecondsShape();
    ParseSeconds(t, 3);
    assert t[..3] == "123" && t[3..] == ".45";
    FractionExample();
  }

  lemma FractionExample()
    ensures Decimal.AllDigits("123") && OptionalFraction(".45")
    ensures FractionValue("123", ".45") == 123.45
  {
    DecimalSecondsShape();
    assert ".45"[1..] == "45";
    assert Decimal.DigitsValue("123") == 123 by {
      assert "123"[..2] == "12" && "12"[..1] == "1";
    }
    assert Decimal.DigitsValue("45") == 45 by {
      assert "45"[..1] == "4";
    }
    assert Decimal.Pow10(2) == 100;
  }

  /** `[Screenshot: ` then the timestamp `t` (with `c` digits of minutes)
      then `s]` is recognized at `i`. */
  lemma ExampleRecognized(s: string, i: nat, t: string, c: nat)
    requires |t| == 5 && MinutesSeconds(t, c)
    requires Strings.OccursAt(s, "[Screenshot: " + t + "s]", i)
    ensures MatchAt(s, i) == Some(PlaceholderMatch(i + 13, i + 18, i + 18))
    ensures s[i + 13..i + 18] == t
  {
    var x := "[Screenshot: " + t + "s]";
    assert s[i..i + 20] == x;
    assert s[i..i + 12] == x[..12] == Opening;
    assert s[i + 12] == x[12] == ' ';
    assert s[i + 13..i + 18] == x[13..18] == t;
    assert s[i + 18..i + 20] == x[18..20] == Closing;
    MatchAtComplete(s, i, PlaceholderMatch(i + 13, i + 18, i + 18));
  }
}
