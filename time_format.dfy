/**
 * The stopwatch's display formatter: a millisecond count rendered as
 * `MM:SS.CC` through the UTC getters of a JavaScript `Date`.
 */
module TimeFormat {
  import opened Optional

  /** The largest millisecond count a `Date` accepts; beyond it the date is invalid. */
  const MaxTimeValue: nat := 8_640_000_000_000_000
  const MsPerHour: nat := 3_600_000

  /** The text JavaScript prints for each field of an invalid date. */
  const InvalidDate: string := "NaN:NaN.NaN"

  function Digit(n: nat): (c: char)
    requires n < 10
    ensures '0' <= c <= '9' && c as int - '0' as int == n
  {
    (n + '0' as int) as char
  }

  predicate IsDigit(c: char) { '0' <= c <= '9' }

  function DigitValue(c: char): (n: nat)
    requires IsDigit(c)
    ensures n < 10 && Digit(n) == c
  {
    c as int - '0' as int
  }

  predicate AllDigits(s: string)
  {
    forall i :: 0 <= i < |s| ==> IsDigit(s[i])
  }

  /** The number a string of decimal digits denotes. */
  function DecimalValue(s: string): nat
    requires AllDigits(s)
  {
    if s == [] then 0 else 10 * DecimalValue(s[..|s| - 1]) + DigitValue(s[|s| - 1])
  }

  /**
   * `Number.prototype.toString()` on a non-negative integer below 10^21: the
   * decimal digits of n, with no leading zero.
   */
  function DecimalString(n: nat): (s: string)
    ensures 1 <= |s| && AllDigits(s)
    ensures DecimalValue(s) == n
    ensures 1 < |s| ==> s[0] != '0'
    ensures n < 10 <==> |s| == 1
  {
    if n < 10 then [Digit(n)]
    else
      var p := DecimalString(n / 10);
      assert (p + [Digit(n % 10)])[..|p|] == p;
      p + [Digit(n % 10)]
  }

  /** `String.prototype.padStart(2, "0")`. */
  function PadStart2(s: string): (r: string)
    ensures 2 <= |s| ==> r == s
    ensures |s| < 2 ==> |r| == 2 && r[2 - |s|..] == s
    ensures |s| < 2 ==> forall i :: 0 <= i < 2 - |s| ==> r[i] == '0'
  {
    if |s| >= 2 then s else if |s| == 1 then "0" + s else "00"
  }

  /** A field rendered as `n.toString().padStart(2, "0")`: at least two digits, denoting n. */
  function Pad2(n: nat): (r: string)
    ensures 2 <= |r| && AllDigits(r) && DecimalValue(r) == n
    ensures n < 100 ==> r == [Digit(n / 10), Digit(n % 10)]
  {
    var d := DecimalString(n);
    assert |d| == 1 ==> ("0" + d)[..1] == "0";
    assert 10 <= n < 100 ==> DecimalString(n / 10) == [Digit(n / 10)];
    PadStart2(d)
  }

  // The UTC getters of `new Date(ms)` for a valid, non-negative time value:
  // each is the whole count of its unit within the next larger unit.

  /** `getUTCMinutes()`: the whole minutes within the current hour. */
  function UtcMinutes(ms: nat): (m: nat)
    ensures m < 60 && 60_000 * m <= ms % MsPerHour < 60_000 * (m + 1)
  {
    MinutesWithinHour(ms);
    (ms / 60_000) % 60
  }

  /** `getUTCSeconds()`: the whole seconds within the current minute. */
  function UtcSeconds(ms: nat): (s: nat)
    ensures s < 60 && 1000 * s <= ms % 60_000 < 1000 * (s + 1)
  {
    SecondsWithinMinute(ms);
    (ms / 1000) % 60
  }

  /** `getUTCMilliseconds()`: the milliseconds within the current second. */
  function UtcMilliseconds(ms: nat): (r: nat)
    ensures r < 1000 && (ms - r) % 1000 == 0
  {
    DivModUnique(ms - ms % 1000, 1000, ms / 1000, 0);
    ms % 1000
  }

  /** `Math.floor(getUTCMilliseconds() / 10)`. */
  function Centiseconds(ms: nat): (c: nat)
    ensures c < 100 && 10 * c <= UtcMilliseconds(ms) < 10 * c + 10
  {
    UtcMilliseconds(ms) / 10
  }

  lemma MinutesWithinHour(ms: nat)
    ensures (ms / 60_000) % 60 < 60
    ensures 60_000 * ((ms / 60_000) % 60) <= ms % MsPerHour < 60_000 * ((ms / 60_000) % 60 + 1)
  {
    var h, rh := ms / MsPerHour, ms % MsPerHour;
    var m, rm := rh / 60_000, rh % 60_000;
    assert m < 60;
    assert ms == 60_000 * (60 * h + m) + rm;
    DivModUnique(ms, 60_000, 60 * h + m, rm);
    DivModUnique(60 * h + m, 60, h, m);
  }

  lemma SecondsWithinMinute(ms: nat)
    ensures (ms / 1000) % 60 < 60
    ensures 1000 * ((ms / 1000) % 60) <= ms % 60_000 < 1000 * ((ms / 1000) % 60 + 1)
  {
    var h, rh := ms / 60_000, ms % 60_000;
    var m, rm := rh / 1000, rh % 1000;
    assert m < 60;
    assert ms == 1000 * (60 * h + m) + rm;
    DivModUnique(ms, 1000, 60 * h + m, rm);
    DivModUnique(60 * h + m, 60, h, m);
  }

  /** The whole number of centiseconds within the current hour: what the display shows. */
  function HourCentis(ms: nat): (c: nat)
    ensures c < 360_000
  {
    (ms % MsPerHour) / 10
  }

  lemma Pad2TwoDigits(n: nat)
    requires n < 100
    ensures Pad2(n) == [Digit(n / 10), Digit(n % 10)]
  {
    if n >= 10 {
      assert DecimalString(n / 10) == [Digit(n / 10)];
    }
  }

  /** The display of three fields below 100, as FormatTime lays it out for a valid time. */
  function Render(mm: nat, ss: nat, cc: nat): (r: string)
    requires mm < 100 && ss < 100 && cc < 100
  {
    [Digit(mm / 10), Digit(mm % 10), ':', Digit(ss / 10), Digit(ss % 10), '.', Digit(cc / 10), Digit(cc % 10)]
  }

  /**
   * `formatTime`: a valid time shows the two digits of its UTC minutes, seconds
   * and centiseconds as `MM:SS.CC`; an invalid date shows `NaN` in every field.
   */
  function FormatTime(ms: nat): (r: string)
    ensures ms <= MaxTimeValue ==> |r| == 8 && r[2] == ':' && r[5] == '.'
    ensures ms <= MaxTimeValue ==> r == Render(UtcMinutes(ms), UtcSeconds(ms), Centiseconds(ms))
    ensures MaxTimeValue < ms ==> r == InvalidDate
  {
    if ms > MaxTimeValue then InvalidDate
    else
      var mm, ss, cc := UtcMinutes(ms), UtcSeconds(ms), Centiseconds(ms);
      Pad2TwoDigits(mm);
      Pad2TwoDigits(ss);
      Pad2TwoDigits(cc);
      assert Pad2(mm) + ":" + Pad2(ss) + "." + Pad2(cc) == Render(mm, ss, cc);
      Pad2(mm) + ":" + Pad2(ss) + "." + Pad2(cc)
  }

  /** Reads a two-digit field back. */
  function Field(a: char, b: char): nat
    requires IsDigit(a) && IsDigit(b)
  {
    10 * DigitValue(a) + DigitValue(b)
  }

  /**
   * Reads a `MM:SS.CC` display back as centiseconds within the hour; None for any
   * other text, the invalid-date rendering included.
   */
  function ParseClock(s: string): (r: Option<nat>)
    ensures r.Some? ==> |s| == 8 && s[2] == ':' && s[5] == '.'
  {
    if |s| == 8 && s[2] == ':' && s[5] == '.'
       && IsDigit(s[0]) && IsDigit(s[1]) && IsDigit(s[3])
       && IsDigit(s[4]) && IsDigit(s[6]) && IsDigit(s[7])
    then Some(Field(s[0], s[1]) * 6000 + Field(s[3], s[4]) * 100 + Field(s[6], s[7]))
    else None
  }

  lemma DivModUnique(a: nat, b: nat, q: nat, r: nat)
    requires 0 < b && r < b && a == b * q + r
    ensures a / b == q && a % b == r
  {
    var q', r' := a / b, a % b;
    assert a == b * q' + r';
    if q' > q {
      assert b * q' >= b * (q + 1) by { MulMonotone(b, q + 1, q'); }
      assert false;
    } else if q' < q {
      assert b * q >= b * (q' + 1) by { MulMonotone(b, q' + 1, q); }
      assert false;
    }
  }

  lemma MulMonotone(b: nat, x: nat, y: nat)
    requires x <= y
    ensures b * x <= b * y
  {
    assert b * y == b * x + b * (y - x);
  }

  /** The three displayed fields are the digits of HourCentis, in mixed radix 60/60/100. */
  lemma FieldsOfHourCentis(ms: nat)
    ensures UtcMinutes(ms) == HourCentis(ms) / 6000
    ensures UtcSeconds(ms) == (HourCentis(ms) / 100) % 60
    ensures Centiseconds(ms) == HourCentis(ms) % 100
  {
    var h, rh := ms / MsPerHour, ms % MsPerHour;
    var m, rm := rh / 60_000, rh % 60_000;
    var s, rs := rm / 1000, rm % 1000;
    var c, e := rs / 10, rs % 10;
    assert m < 60 && s < 60 && c < 100;
    // ms == 3600000 h + 60000 m + 1000 s + 10 c + e
    assert ms == 60_000 * (60 * h + m) + rm;
    DivModUnique(ms, 60_000, 60 * h + m, rm);
    DivModUnique(60 * h + m, 60, h, m);
    assert ms == 1000 * (3600 * h + 60 * m + s) + rs;
    DivModUnique(ms, 1000, 3600 * h + 60 * m + s, rs);
    assert 3600 * h + 60 * m + s == 60 * (60 * h + m) + s;
    DivModUnique(3600 * h + 60 * m + s, 60, 60 * h + m, s);
    DivModUnique(ms, 1000, ms / 1000, rs);
    assert rh == 10 * (6000 * m + 100 * s + c) + e;
    DivModUnique(rh, 10, 6000 * m + 100 * s + c, e);
    var hc := 6000 * m + 100 * s + c;
    assert HourCentis(ms) == hc;
    DivModUnique(hc, 6000, m, 100 * s + c);
    DivModUnique(hc, 100, 60 * m + s, c);
    DivModUnique(60 * m + s, 60, m, s);
  }

  lemma FieldOfDigits(n: nat)
    requires n < 100
    ensures Field(Digit(n / 10), Digit(n % 10)) == n
  {
  }

  /** The mixed-radix digits of a count of centiseconds within an hour recombine to it. */
  lemma HourCentisDigits(hc: nat)
    ensures hc == 6000 * (hc / 6000) + 100 * ((hc / 100) % 60) + hc % 100
  {
    DivModUnique(hc, 100, hc / 100, hc % 100);
    DivModUnique(hc / 100, 60, hc / 6000, (hc / 100) % 60);
  }

  lemma ParseRender(mm: nat, ss: nat, cc: nat)
    requires mm < 100 && ss < 100 && cc < 100
    ensures ParseClock(Render(mm, ss, cc)) == Some(mm * 6000 + ss * 100 + cc)
  {
    FieldOfDigits(mm);
    FieldOfDigits(ss);
    FieldOfDigits(cc);
  }

  /** Parsing the display gives back the centiseconds within the hour. */
  lemma ParseFormatRoundTrip(ms: nat)
    requires ms <= MaxTimeValue
    ensures ParseClock(FormatTime(ms)) == Some(HourCentis(ms))
  {
    ParseRender(UtcMinutes(ms), UtcSeconds(ms), Centiseconds(ms));
    FieldsRecombine(ms);
  }

  /** The displayed fields, read as minutes, seconds and centiseconds, add up to HourCentis. */
  lemma FieldsRecombine(ms: nat)
    ensures UtcMinutes(ms) * 6000 + UtcSeconds(ms) * 100 + Centiseconds(ms) == HourCentis(ms)
  {
    FieldsOfHourCentis(ms);
    HourCentisDigits(HourCentis(ms));
  }

  /** Two valid times display the same text exactly when they agree on the centiseconds within the hour. */
  lemma FormatTimeSameDisplay(a: nat, b: nat)
    requires a <= MaxTimeValue && b <= MaxTimeValue
    ensures FormatTime(a) == FormatTime(b) <==> HourCentis(a) == HourCentis(b)
  {
    FieldsOfHourCentis(a);
    FieldsOfHourCentis(b);
    if FormatTime(a) == FormatTime(b) {
      ParseFormatRoundTrip(a);
      ParseFormatRoundTrip(b);
    }
  }

  /** The minutes field wraps every hour: one hour later shows the same text. */
  lemma FormatTimeWrapsHourly(ms: nat)
    requires ms + MsPerHour <= MaxTimeValue
    ensures FormatTime(ms + MsPerHour) == FormatTime(ms)
  {
    DivModUnique(ms + MsPerHour, MsPerHour, ms / MsPerHour + 1, ms % MsPerHour);
    FormatTimeSameDisplay(ms + MsPerHour, ms);
  }

  lemma FormatTimeExample()
    ensures FormatTime(65432) == "01:05.43"
  {
    assert Render(1, 5, 43) == "01:05.43";
    assert UtcMinutes(65432) == 1 && UtcSeconds(65432) == 5 && Centiseconds(65432) == 43;
  }

  lemma FormatTimeZeroAndOneHour()
    ensures FormatTime(0) == "00:00.00"
    ensures FormatTime(3_600_000) == "00:00.00"
  {
    assert Render(0, 0, 0) == "00:00.00";
    assert UtcMinutes(0) == 0 && UtcSeconds(0) == 0 && Centiseconds(0) == 0;
    assert UtcMinutes(3_600_000) == 0 && UtcSeconds(3_600_000) == 0 && Centiseconds(3_600_000) == 0;
  }
}
