/**
 * Parsing of the timestamp text of an audit event.  The only accepted
 * form is the extended calendar date and time of day of ISO 8601
 * (section 4.3.2 of ISO 8601:2004), `YYYY-MM-DDThh:mm:ss`, without
 * fraction or zone.  A text that is not of that form, names a date or
 * time that does not exist, or lies outside the range of a 64-bit
 * nanosecond timestamp is rejected, as a coercing parser rejects it by
 * producing a missing value.
 */
module Timestamps {
  import opened Results
  import opened Calendar

  /** The fields of a date and time of day as written in the text. */
  datatype DateTime = DateTime(year: int, month: int, day: int, hour: int, minute: int, second: int)

  predicate ValidDateTime(dt: DateTime) {
    ValidDate(dt.year, dt.month, dt.day)
    && 0 <= dt.hour <= 23 && 0 <= dt.minute <= 59 && 0 <= dt.second <= 59
  }

  /** Seconds since 1970-01-01T00:00:00 of a valid date and time. */
  function ToSeconds(dt: DateTime): int
    requires ValidDateTime(dt)
  {
    Instant(dt.year, dt.month, dt.day, dt.hour, dt.minute, dt.second)
  }

  /**
   * Bounds of a signed 64-bit count of nanoseconds, in whole seconds:
   * -2^63 ns is -9223372036.854775808 s and 2^63 - 1 ns is 9223372036.854775807 s.
   */
  const MinSeconds: int := -9223372036
  const MaxSeconds: int := 9223372036

  predicate InTimestampRange(t: int) {
    MinSeconds <= t <= MaxSeconds
  }

  predicate IsDigit(c: char) {
    '0' <= c <= '9'
  }

  function DigitValue(c: char): (v: nat)
    requires IsDigit(c)
    ensures v < 10
  {
    c as int - '0' as int
  }

  function DigitChar(v: nat): (c: char)
    requires v < 10
    ensures IsDigit(c) && DigitValue(c) == v
  {
    ('0' as int + v) as char
  }

  predicate AllDigits(s: string) {
    forall i :: 0 <= i < |s| ==> IsDigit(s[i])
  }

  function Pow10(w: nat): (p: nat)
    ensures p >= 1
  {
    if w == 0 then 1 else 10 * Pow10(w - 1)
  }

  /** Value of a string of decimal digits, most significant first. */
  function DecimalValue(s: string): (v: nat)
    requires AllDigits(s)
    ensures v < Pow10(|s|)
  {
    if s == [] then 0 else 10 * DecimalValue(s[..|s| - 1]) + DigitValue(s[|s| - 1])
  }

  /** The `w` decimal digits of `n`, zero-padded on the left. */
  function Digits(n: nat, w: nat): (s: string)
    requires n < Pow10(w)
    ensures |s| == w && AllDigits(s)
  {
    if w == 0 then "" else Digits(n / 10, w - 1) + [DigitChar(n % 10)]
  }

  lemma {:induction false} DigitsRoundTrip(n: nat, w: nat)
    requires n < Pow10(w)
    ensures DecimalValue(Digits(n, w)) == n
  {
    if w > 0 {
      var s := Digits(n, w);
      DigitsRoundTrip(n / 10, w - 1);
    }
  }

  /** Positions of the separators in `YYYY-MM-DDThh:mm:ss`. */
  predicate IsSeparatorPosition(i: int) {
    i == 4 || i == 7 || i == 10 || i == 13 || i == 16
  }

  /** The text has the shape `YYYY-MM-DDThh:mm:ss`. */
  predicate WellFormed(s: string) {
    |s| == 19
    && s[4] == '-' && s[7] == '-' && s[10] == 'T' && s[13] == ':' && s[16] == ':'
    && forall i :: 0 <= i < 19 && !IsSeparatorPosition(i) ==> IsDigit(s[i])
  }

  /** The six numeric fields of a well-formed text. */
  function Fields(s: string): DateTime
    requires WellFormed(s)
  {
    DateTime(DecimalValue(s[0..4]), DecimalValue(s[5..7]), DecimalValue(s[8..10]),
             DecimalValue(s[11..13]), DecimalValue(s[14..16]), DecimalValue(s[17..19]))
  }

  /** The timestamp text of a valid date and time with a four-digit year. */
  function Format(dt: DateTime): (s: string)
    requires ValidDateTime(dt) && 0 <= dt.year <= 9999
    ensures |s| == 19
  {
    Digits(dt.year, 4) + "-" + Digits(dt.month, 2) + "-" + Digits(dt.day, 2) + "T"
      + Digits(dt.hour, 2) + ":" + Digits(dt.minute, 2) + ":" + Digits(dt.second, 2)
  }

  /**
   * Parse a timestamp text into seconds since the epoch, or None when the
   * text is not a valid in-range `YYYY-MM-DDThh:mm:ss`.
   */
  function ParseTimestamp(s: string): (r: Option<int>)
    ensures r.Some? ==> WellFormed(s) && ValidDateTime(Fields(s)) && r.value == ToSeconds(Fields(s))
    ensures r.Some? ==> InTimestampRange(r.value)
  {
    if !WellFormed(s) then None
    else
      var dt := Fields(s);
      if !ValidDateTime(dt) then None
      else
        var t := ToSeconds(dt);
        if InTimestampRange(t) then Some(t) else None
  }

  /** A text is rejected exactly when it is malformed, names no real instant, or is out of range. */
  lemma ParseRejects(s: string)
    ensures ParseTimestamp(s).None? <==>
      !WellFormed(s) || !ValidDateTime(Fields(s)) || !InTimestampRange(ToSeconds(Fields(s)))
  {
  }

  /** Formatting then parsing gives back the instant: the parser reads every field it is given. */
  lemma FormatThenParse(dt: DateTime)
    requires ValidDateTime(dt) && 0 <= dt.year <= 9999
    requires InTimestampRange(ToSeconds(dt))
    ensures WellFormed(Format(dt)) && Fields(Format(dt)) == dt
    ensures ParseTimestamp(Format(dt)) == Some(ToSeconds(dt))
  {
    var s := Format(dt);
    var y, mo, d := Digits(dt.year, 4), Digits(dt.month, 2), Digits(dt.day, 2);
    var h, mi, se := Digits(dt.hour, 2), Digits(dt.minute, 2), Digits(dt.second, 2);
    assert s == y + "-" + mo + "-" + d + "T" + h + ":" + mi + ":" + se;
    assert s[0..4] == y;
    assert s[5..7] == mo;
    assert s[8..10] == d;
    assert s[11..13] == h;
    assert s[14..16] == mi;
    assert s[17..19] == se;
    DigitsRoundTrip(dt.year, 4);
    DigitsRoundTrip(dt.month, 2);
    DigitsRoundTrip(dt.day, 2);
    DigitsRoundTrip(dt.hour, 2);
    DigitsRoundTrip(dt.minute, 2);
    DigitsRoundTrip(dt.second, 2);
  }

  /** Reading a digit string and writing it back at its own width gives the same text. */
  lemma {:induction false} DecimalRoundTrip(t: string)
    requires AllDigits(t)
    ensures Digits(DecimalValue(t), |t|) == t
  {
    if t != [] {
      var t', c := t[..|t| - 1], t[|t| - 1];
      DecimalRoundTrip(t');
      var n := DecimalValue(t);
      assert DigitChar(DigitValue(c)) == c;
      assert t == t' + [c];
    }
  }

  /** Every accepted text is the canonical text of the fields it names: the parser accepts no other spelling. */
  lemma ParseThenFormat(s: string)
    requires ParseTimestamp(s).Some?
    ensures WellFormed(s) && ValidDateTime(Fields(s)) && 0 <= Fields(s).year <= 9999
    ensures Format(Fields(s)) == s
  {
    FieldsThenFormat(s);
  }

  /** Two valid dates and times that name the same instant are the same fields. */
  lemma ToSecondsInjective(a: DateTime, b: DateTime)
    requires ValidDateTime(a) && ValidDateTime(b)
    requires ToSeconds(a) == ToSeconds(b)
    ensures a == b
  {
    InstantInjective(a.year, a.month, a.day, a.hour, a.minute, a.second,
                     b.year, b.month, b.day, b.hour, b.minute, b.second);
  }

  /** Two accepted texts that parse to the same instant are the same text. */
  lemma NoSecondSpelling(s1: string, s2: string)
    requires ParseTimestamp(s1).Some? && ParseTimestamp(s1) == ParseTimestamp(s2)
    ensures s1 == s2
  {
    ParseThenFormat(s1);
    ParseThenFormat(s2);
    ToSecondsInjective(Fields(s1), Fields(s2));
  }

  /** A well-formed text is the formatting of its own fields. */
  lemma FieldsThenFormat(s: string)
    requires WellFormed(s) && ValidDateTime(Fields(s))
    ensures 0 <= Fields(s).year <= 9999
    ensures Format(Fields(s)) == s
  {
    assert Pow10(4) == 10000;
    var dt := Fields(s);
    DecimalRoundTrip(s[0..4]);
    DecimalRoundTrip(s[5..7]);
    DecimalRoundTrip(s[8..10]);
    DecimalRoundTrip(s[11..13]);
    DecimalRoundTrip(s[14..16]);
    DecimalRoundTrip(s[17..19]);
    assert Digits(dt.year, 4) == s[0..4] && Digits(dt.month, 2) == s[5..7] && Digits(dt.day, 2) == s[8..10];
    assert Digits(dt.hour, 2) == s[11..13] && Digits(dt.minute, 2) == s[14..16] && Digits(dt.second, 2) == s[17..19];
    Reassemble(s);
  }

  /** A well-formed text is its six digit fields joined by its separators. */
  lemma Reassemble(s: string)
    requires WellFormed(s)
    ensures s == s[0..4] + "-" + s[5..7] + "-" + s[8..10] + "T" + s[11..13] + ":" + s[14..16] + ":" + s[17..19]
  {
    assert s[..5] == s[0..4] + "-";
    assert s[..8] == s[..5] + s[5..7] + "-";
    assert s[..11] == s[..8] + s[8..10] + "T";
    assert s[..14] == s[..11] + s[11..13] + ":";
    assert s[..17] == s[..14] + s[14..16] + ":";
    assert s == s[..17] + s[17..19];
  }

  /** The hour and weekday derived from a parsed timestamp are those its text names. */
  lemma ParsedHourAndWeekday(s: string)
    requires ParseTimestamp(s).Some?
    ensures HourOf(ParseTimestamp(s).value) == Fields(s).hour
    ensures WeekdayOf(ParseTimestamp(s).value)
         == (DaysFromCivil(Fields(s).year, Fields(s).month, Fields(s).day) + EpochWeekday) % 7
  {
    var dt := Fields(s);
    InstantFields(dt.year, dt.month, dt.day, dt.hour, dt.minute, dt.second);
  }

  /** The text of the example instant of the error message. */
  lemma ExampleText()
    ensures Format(DateTime(2025, 7, 14, 10, 22, 0)) == "2025-07-14T10:22:00"
  {
    ExampleDigits();
  }

  /** The zero-padded digit fields of the example instant. */
  lemma ExampleDigits()
    ensures Digits(2025, 4) == "2025" && Digits(7, 2) == "07" && Digits(14, 2) == "14"
    ensures Digits(10, 2) == "10" && Digits(22, 2) == "22" && Digits(0, 2) == "00"
  {
  }

  /** 2025-07-14 is day 20283 of the epoch, a Monday. */
  lemma ExampleInstant()
    ensures var t := ToSeconds(DateTime(2025, 7, 14, 10, 22, 0));
      InTimestampRange(t) && HourOf(t) == 10 && WeekdayOf(t) == 0
  {
    assert DaysFromCivil(2025, 7, 14) == 20283;
    InstantFields(2025, 7, 14, 10, 22, 0);
  }

  /** The example timestamp of the error message parses, at 10 o'clock on a Monday. */
  lemma ExampleTimestamp()
    ensures ParseTimestamp("2025-07-14T10:22:00") == Some(ToSeconds(DateTime(2025, 7, 14, 10, 22, 0)))
    ensures HourOf(ParseTimestamp("2025-07-14T10:22:00").value) == 10
    ensures WeekdayOf(ParseTimestamp("2025-07-14T10:22:00").value) == 0
  {
    ExampleInstant();
    ExampleText();
    FormatThenParse(DateTime(2025, 7, 14, 10, 22, 0));
  }
}
