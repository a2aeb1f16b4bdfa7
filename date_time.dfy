/** Python's naive `datetime.datetime`, its text form (`isoformat`, and `str`,
    which is `isoformat` with a space as separator) and a parser that undoes it. */
module DateTime {
  import opened Wrappers

  datatype DateTime = DateTime(year: nat, month: nat, day: nat,
                               hour: nat, minute: nat, second: nat, microsecond: nat)

  predicate IsLeapYear(y: nat)
  {
    y % 4 == 0 && (y % 100 != 0 || y % 400 == 0)
  }

  function DaysInMonth(y: nat, m: nat): nat
  {
    if m == 2 then (if IsLeapYear(y) then 29 else 28)
    else if m == 4 || m == 6 || m == 9 || m == 11 then 30
    else 31
  }

  /** The values the `datetime` constructor accepts (MINYEAR = 1, MAXYEAR = 9999). */
  predicate Valid(d: DateTime)
  {
    && 1 <= d.year <= 9999
    && 1 <= d.month <= 12
    && 1 <= d.day <= DaysInMonth(d.year, d.month)
    && d.hour < 24 && d.minute < 60 && d.second < 60
    && d.microsecond < 1000000
  }

  function Pow10(n: nat): nat
  {
    if n == 0 then 1 else 10 * Pow10(n - 1)
  }

  predicate IsDigit(c: char)
  {
    '0' <= c <= '9'
  }

  function DigitChar(x: nat): (c: char)
    requires x < 10
    ensures IsDigit(c)
  {
    (x + '0' as int) as char
  }

  /** `'%0*d' % (width, x)` for an `x` with at most `width` digits. */
  function Digits(x: nat, width: nat): (s: string)
    ensures |s| == width
    ensures forall i | 0 <= i < |s| :: IsDigit(s[i])
  {
    if width == 0 then [] else Digits(x / 10, width - 1) + [DigitChar(x % 10)]
  }

  /** The number a string of decimal digits denotes. */
  function DigitsValue(s: string): nat
  {
    if s == [] then 0
    else
      var c := s[|s| - 1];
      DigitsValue(s[..|s| - 1]) * 10 + (if IsDigit(c) then c as int - '0' as int else 0)
  }

  lemma {:induction false} DigitsRoundTrip(x: nat, width: nat)
    requires x < Pow10(width)
    ensures DigitsValue(Digits(x, width)) == x
  {
    if width == 0 {
    } else {
      var s := Digits(x, width);
      assert s[..|s| - 1] == Digits(x / 10, width - 1);
      assert x / 10 < Pow10(width - 1);
      DigitsRoundTrip(x / 10, width - 1);
    }
  }

  /** `YYYY-MM-DD`. */
  function DatePart(d: DateTime): (s: string)
    ensures |s| == 10
  {
    Digits(d.year, 4) + "-" + Digits(d.month, 2) + "-" + Digits(d.day, 2)
  }

  /** `HH:MM:SS`. */
  function ClockPart(d: DateTime): (s: string)
    ensures |s| == 8
  {
    Digits(d.hour, 2) + ":" + Digits(d.minute, 2) + ":" + Digits(d.second, 2)
  }

  /** `.ffffff`, or nothing when the microsecond is zero. */
  function FractionPart(d: DateTime): (s: string)
    ensures |s| == if d.microsecond == 0 then 0 else 7
  {
    if d.microsecond == 0 then "" else "." + Digits(d.microsecond, 6)
  }

  /** `d.isoformat(sep)`: `YYYY-MM-DD<sep>HH:MM:SS`, followed by `.ffffff`
      only when the microsecond is not zero. */
  function IsoFormat(d: DateTime, sep: char): (s: string)
    ensures |s| == if d.microsecond == 0 then 19 else 26
  {
    DatePart(d) + [sep] + ClockPart(d) + FractionPart(d)
  }

  /** `str(d)`, the form `str(datetime.datetime.now())` takes. */
  function StrDateTime(d: DateTime): (s: string)
    ensures |s| == 19 || |s| == 26
  {
    IsoFormat(d, ' ')
  }

  predicate AllDigits(s: string)
  {
    forall i | 0 <= i < |s| :: IsDigit(s[i])
  }

  /** Reads `YYYY-MM-DD` back as (year, month, day). */
  function ParseDate(t: string): Option<(nat, nat, nat)>
  {
    if |t| == 10 && t[4] == '-' && t[7] == '-'
       && AllDigits(t[0..4]) && AllDigits(t[5..7]) && AllDigits(t[8..10])
    then Some((DigitsValue(t[0..4]), DigitsValue(t[5..7]), DigitsValue(t[8..10])))
    else None
  }

  /** Reads `HH:MM:SS` back as (hour, minute, second). */
  function ParseClock(t: string): Option<(nat, nat, nat)>
  {
    if |t| == 8 && t[2] == ':' && t[5] == ':'
       && AllDigits(t[0..2]) && AllDigits(t[3..5]) && AllDigits(t[6..8])
    then Some((DigitsValue(t[0..2]), DigitsValue(t[3..5]), DigitsValue(t[6..8])))
    else None
  }

  /** Reads an empty string as microsecond 0 and `.ffffff` as a non-zero microsecond. */
  function ParseFraction(t: string): Option<nat>
  {
    if t == [] then Some(0)
    else if |t| == 7 && t[0] == '.' && AllDigits(t[1..]) && DigitsValue(t[1..]) != 0 then Some(DigitsValue(t[1..]))
    else None
  }

  /** Reads back the text `IsoFormat` writes with separator `sep`; `None` for
      any other text and for a date or time out of range. */
  function ParseIsoFormat(s: string, sep: char): (r: Option<DateTime>)
    ensures r.Some? ==> Valid(r.value)
  {
    if |s| < 19 || s[10] != sep then None
    else
      match (ParseDate(s[..10]), ParseClock(s[11..19]), ParseFraction(s[19..]))
      case (Some((y, mo, dd)), Some((h, mi, se)), Some(us)) =>
        var d := DateTime(y, mo, dd, h, mi, se, us);
        if Valid(d) then Some(d) else None
      case _ => None
  }

  lemma DatePartRoundTrip(d: DateTime)
    requires Valid(d)
    ensures ParseDate(DatePart(d)) == Some((d.year, d.month, d.day))
  {
    var t := DatePart(d);
    assert t[0..4] == Digits(d.year, 4);
    assert t[5..7] == Digits(d.month, 2);
    assert t[8..10] == Digits(d.day, 2);
    DigitsRoundTrip(d.year, 4);
    DigitsRoundTrip(d.month, 2);
    DigitsRoundTrip(d.day, 2);
  }

  lemma ClockPartRoundTrip(d: DateTime)
    requires Valid(d)
    ensures ParseClock(ClockPart(d)) == Some((d.hour, d.minute, d.second))
  {
    var t := ClockPart(d);
    assert t[0..2] == Digits(d.hour, 2);
    assert t[3..5] == Digits(d.minute, 2);
    assert t[6..8] == Digits(d.second, 2);
    DigitsRoundTrip(d.hour, 2);
    DigitsRoundTrip(d.minute, 2);
    DigitsRoundTrip(d.second, 2);
  }

  lemma FractionPartRoundTrip(d: DateTime)
    requires Valid(d)
    ensures ParseFraction(FractionPart(d)) == Some(d.microsecond)
  {
    if d.microsecond != 0 {
      var t := FractionPart(d);
      assert t[1..] == Digits(d.microsecond, 6);
      DigitsRoundTrip(d.microsecond, 6);
    }
  }

  /** Parsing what `isoformat` wrote gives back the same moment. */
  lemma IsoFormatRoundTrip(d: DateTime, sep: char)
    requires Valid(d)
    ensures ParseIsoFormat(IsoFormat(d, sep), sep) == Some(d)
  {
    var s := IsoFormat(d, sep);
    assert s[..10] == DatePart(d);
    assert s[11..19] == ClockPart(d);
    assert s[19..] == FractionPart(d);
    DatePartRoundTrip(d);
    ClockPartRoundTrip(d);
    FractionPartRoundTrip(d);
  }
}
