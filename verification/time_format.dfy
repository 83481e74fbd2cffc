/** The player's clock labels: whole seconds written as minutes and two-digit seconds. */
module TimeFormat {
  import opened JsNumber
  import opened Wrappers

  /** The whole seconds a label shows: the nearest integer, never below zero. */
  function ShownSeconds(s: real): (n: nat)
    ensures s < 0.5 ==> n == 0
    ensures s >= 0.5 ==> n as real - 0.5 <= s < n as real + 0.5
  {
    var r := Round(s);
    if r > 0 then r else 0
  }

  /** `fmt`: minutes, a colon, then the seconds within the minute padded to two
      digits. Every label it writes reads back as the seconds it shows. */
  function Fmt(s: real): (t: string)
    ensures IsClock(t)
    ensures ParseClock(t) == Some(ShownSeconds(s))
  {
    ClockTextParses(ShownSeconds(s));
    ClockText(ShownSeconds(s))
  }

  /** The label for a whole number of seconds. */
  function ClockText(n: nat): string
  {
    ToRadixString(n / 60, 10) + ":" + PadStart(ToRadixString(n % 60, 10), 2, '0')
  }

  /** The label for `n` seconds is a clock label that reads back as `n`. */
  lemma ClockTextParses(n: nat)
    ensures IsClock(ClockText(n))
    ensures ParseClock(ClockText(n)) == Some(n)
  {
    ClockTextShape(n);
    LabelParses(n / 60, n % 60);
  }

  /** Spelled out, the label is the minutes in decimal, a colon, and the two digits
      of the seconds within the minute. */
  lemma ClockTextShape(n: nat)
    ensures ClockText(n) == Digits(n / 60, 10) + ":" + [DigitChar(n % 60 / 10), DigitChar(n % 60 % 10)]
  {
    calc {
      ClockText(n);
      ToRadixString(n / 60, 10) + ":" + PadStart(ToRadixString(n % 60, 10), 2, '0');
      { PaddedSeconds(n % 60); }
      Digits(n / 60, 10) + ":" + [DigitChar(n % 60 / 10), DigitChar(n % 60 % 10)];
    }
  }

  /** The seconds field, spelled out: tens digit, then units digit. */
  lemma PaddedSeconds(k: nat)
    requires k < 60
    ensures PadStart(ToRadixString(k, 10), 2, '0') == [DigitChar(k / 10), DigitChar(k % 10)]
  {
    TwoDigits(k);
  }

  /** Minutes in decimal, a colon and two digits of a seconds value under 60 form a
      clock label that reads back as the total number of seconds. */
  lemma LabelParses(m: nat, k: nat)
    requires k < 60
    ensures var t := Digits(m, 10) + ":" + [DigitChar(k / 10), DigitChar(k % 10)];
      IsClock(t) && ParseClock(t) == Some(60 * m + k)
  {
    var a := Digits(m, 10);
    var p := [DigitChar(k / 10), DigitChar(k % 10)];
    DigitsValueOfDigits(m, 10);
    assert m == 0 ==> a == "0";
    ClockParts(a, p);
    var t := a + ":" + p;
    assert DigitsValue(t[..|t| - 3], 10) == m;
    assert 10 * CharValue(t[|t| - 2]) + CharValue(t[|t| - 1]) == k;
  }

  /** A clock label: the minutes as decimal digits without a leading zero (a lone
      `0` aside), a colon, then exactly two digits for seconds `00` to `59`. */
  predicate IsClock(t: string)
  {
    && |t| >= 4
    && t[|t| - 3] == ':'
    && (forall i :: 0 <= i < |t| - 3 ==> IsDigit(t[i], 10))
    && (|t| == 4 || t[0] != '0')
    && IsDigit(t[|t| - 2], 10) && CharValue(t[|t| - 2]) < 6
    && IsDigit(t[|t| - 1], 10)
  }

  /** Reads a clock label back as a number of seconds. */
  function ParseClock(t: string): (r: Option<nat>)
    ensures r.Some? <==> IsClock(t)
  {
    if IsClock(t) then
      Some(60 * DigitsValue(t[..|t| - 3], 10) + 10 * CharValue(t[|t| - 2]) + CharValue(t[|t| - 1]))
    else None
  }

  /** Every label `fmt` writes is a clock label, and reading it back gives the
      seconds shown: the label loses nothing beyond the rounding. Spelled out, the
      label is the minutes in decimal, a colon, and the two digits of the seconds
      within the minute. */
  lemma FmtRoundTrip(s: real)
    ensures IsClock(Fmt(s))
    ensures ParseClock(Fmt(s)) == Some(ShownSeconds(s))
    ensures var n := ShownSeconds(s);
      Fmt(s) == Digits(n / 60, 10) + ":" + [DigitChar(n % 60 / 10), DigitChar(n % 60 % 10)]
  {
    ClockTextShape(ShownSeconds(s));
  }

  /** The seconds field of a label: two digits whose value is the seconds within the minute. */
  lemma TwoDigits(k: nat)
    requires k < 60
    ensures var p := PadStart(ToRadixString(k, 10), 2, '0');
      |p| == 2 && IsDigit(p[0], 10) && IsDigit(p[1], 10) && 10 * CharValue(p[0]) + CharValue(p[1]) == k
    ensures PadStart(ToRadixString(k, 10), 2, '0') == [DigitChar(k / 10), DigitChar(k % 10)]
  {
    if k >= 10 {
      assert Digits(k, 10) == Digits(k / 10, 10) + [DigitChar(k % 10)];
    }
  }

  /** How a label splits around its colon. */
  lemma ClockParts(a: string, p: string)
    requires |a| >= 1 && forall i :: 0 <= i < |a| ==> IsDigit(a[i], 10)
    requires |a| == 1 || a[0] != '0'
    requires |p| == 2 && IsDigit(p[0], 10) && CharValue(p[0]) < 6 && IsDigit(p[1], 10)
    ensures var t := a + ":" + p;
      IsClock(t) && t[..|t| - 3] == a && t[|t| - 2] == p[0] && t[|t| - 1] == p[1]
  {
    var t := a + ":" + p;
    assert t[..|t| - 3] == a;
    forall i | 0 <= i < |t| - 3
      ensures IsDigit(t[i], 10)
    {
      assert t[i] == a[i];
    }
  }

  /** Seconds past 59 and padded minutes are not labels. */
  lemma NotClocks()
    ensures !IsClock("0:75") && !IsClock("01:15")
  {
  }

  /** Anything under half a second, negative times included, shows as "0:00". */
  lemma FmtUnderHalfSecond(s: real)
    requires s < 0.5
    ensures Fmt(s) == "0:00"
  {
  }

  /** Sixty-one seconds show as "1:01", and a long track's minutes keep counting
      past an hour rather than wrapping. */
  lemma FmtExamples()
    ensures Fmt(61.0) == "1:01"
    ensures Fmt(3599.6) == "60:00"
  {
    assert Round(61.0) == 61;
    assert ShownSeconds(61.0) == 61;
    assert ToRadixString(1, 10) == "1";
    assert PadStart(ToRadixString(1, 10), 2, '0') == "01";
    assert Round(3599.6) == 3600;
    assert ShownSeconds(3599.6) == 3600;
    assert Digits(60, 10) == Digits(6, 10) + [DigitChar(0)];
    assert ToRadixString(60, 10) == "60";
    assert PadStart(ToRadixString(0, 10), 2, '0') == "00";
  }
}
