/** Time values of prayer/prayer.go: `parseTime` and the `"15:04"` layout.

    A time is the number of minutes since midnight of January 1, year 0,
    the date `time.Parse` gives a clock-only layout. The zero `time.Time`
    that `parseTime` returns on failure is January 1, year 1: 366 days
    later, since year 0 is a leap year. */
module PrayerTime {
  import opened Wrappers
  import opened Decimal
  import Utils

  const MinutesPerDay: nat := 1440

  /** The fixed daylight-saving correction, in minutes. */
  const DstOffset: nat := 60

  /** The zero `time.Time`, returned when a string does not parse. */
  const ZeroTime: nat := 366 * MinutesPerDay

  /** `time.Parse("15:04", s)`: an hour of one or two digits in 0..23, a ':',
      a minute of exactly two digits in 00..59, and nothing after it. */
  function ParseClock(s: string): (r: Option<nat>)
    ensures r.Some? ==> r.value < MinutesPerDay
  {
    if |s| == 0 || !IsDigit(s[0]) then None
    else
      var hourLen := if |s| > 1 && IsDigit(s[1]) then 2 else 1;
      var hour := if hourLen == 2 then 10 * DigitValue(s[0]) + DigitValue(s[1]) else DigitValue(s[0]);
      var rest := s[hourLen..];
      // the separator, two minute digits, and no extra text
      if |rest| != 3 || rest[0] != ':' || !IsDigit(rest[1]) || !IsDigit(rest[2]) then None
      else
        var minute := 10 * DigitValue(rest[1]) + DigitValue(rest[2]);
        if hour >= 24 || minute >= 60 then None
        else Some(hour * 60 + minute)
  }

  /** parseTime: the parsed clock time, advanced by the correction when `dst`
      is set; the zero time, uncorrected, when the string does not parse. */
  function ParseTime(s: string, dst: bool): (t: nat)
    ensures t == ZeroTime <==> ParseClock(s).None?
    ensures t < ZeroTime ==> t < MinutesPerDay + DstOffset
    ensures ParseClock(s).Some? ==> t == ParseClock(s).value + (if dst then DstOffset else 0)
  {
    match ParseClock(s)
    case None => ZeroTime
    case Some(clock) => if dst then clock + DstOffset else clock
  }

  /** `t.Format("15:04")`: hour of day and minute, each zero-padded; whole
      days are dropped, so a time past midnight prints as an early hour. */
  function FormatClock(t: nat): (s: string)
    ensures |s| == 5 && s[2] == ':'
    ensures IsDigit(s[0]) && IsDigit(s[1]) && IsDigit(s[3]) && IsDigit(s[4])
    ensures 10 * DigitValue(s[0]) + DigitValue(s[1]) == (t / 60) % 24
    ensures 10 * DigitValue(s[3]) + DigitValue(s[4]) == t % 60
  {
    Pad2((t / 60) % 24) + ":" + Pad2(t % 60)
  }

  /** Formatting a time of day and parsing it back gives that time, with the
      hour written in two digits or, below ten o'clock, in one. */
  lemma FormatThenParse(t: nat)
    requires t < MinutesPerDay
    ensures ParseClock(FormatClock(t)) == Some(t)
    ensures t < 600 ==> ParseClock(FormatClock(t)[1..]) == Some(t)
  {
    var s := FormatClock(t);
    assert s[2..] == [':', s[3], s[4]];
    assert (t / 60) % 24 == t / 60;
    if t < 600 {
      var u := s[1..];
      assert u[0] == s[1] && u[1] == ':';
      assert u[1..] == [':', s[3], s[4]];
      assert DigitValue(s[0]) == 0;
    }
  }

  /** A string that parses to a time is one of that time's two renderings. */
  lemma ParsedIsRendering(s: string, t: nat)
    requires ParseClock(s) == Some(t)
    ensures s == FormatClock(t) || (t < 600 && s == FormatClock(t)[1..])
  {
    var hourLen := if |s| > 1 && IsDigit(s[1]) then 2 else 1;
    var hour := if hourLen == 2 then 10 * DigitValue(s[0]) + DigitValue(s[1]) else DigitValue(s[0]);
    var rest := s[hourLen..];
    var minute := 10 * DigitValue(rest[1]) + DigitValue(rest[2]);
    assert t == hour * 60 + minute && hour < 24 && minute < 60;
    assert t / 60 == hour && (t / 60) % 24 == hour && t % 60 == minute;
    Pad2OfDigits(rest[1], rest[2]);
    assert FormatClock(t) == Pad2(hour) + ":" + [rest[1], rest[2]];
    if hourLen == 2 {
      Pad2OfDigits(s[0], s[1]);
      assert s == [s[0], s[1]] + rest;
    } else {
      Pad2OfDigits('0', s[0]);
      assert Pad2(hour) == ['0', s[0]];
      assert s == [s[0]] + rest;
    }
  }

  /** The strings that parse to a time are exactly its two renderings. */
  lemma ParseClockExact(s: string, t: nat)
    ensures ParseClock(s) == Some(t) <==>
      t < MinutesPerDay && (s == FormatClock(t) || (t < 600 && s == FormatClock(t)[1..]))
  {
    if ParseClock(s) == Some(t) {
      ParsedIsRendering(s, t);
    }
    if t < MinutesPerDay {
      FormatThenParse(t);
    }
  }

  /** The rendering of a time of day parses to it, with and without the
      correction. */
  lemma ParsesTo(s: string, t: nat)
    requires t < MinutesPerDay && s == FormatClock(t)
    ensures ParseTime(s, false) == t && ParseTime(s, true) == t + DstOffset
  {
    FormatThenParse(t);
  }

  /** A one-digit hour is accepted: "5:30" is 05:30, and 06:30 corrected. */
  lemma OneDigitHourParses()
    ensures ParseTime("5:30", false) == 330 && ParseTime("5:30", true) == 390
  {
    FormatThenParse(330);
    assert FormatClock(330)[1..] == "5:30";
  }

  /** A well-formed zero-padded "HH:MM" string is given back by formatting
      the uncorrected time it parses to. */
  lemma ParseThenFormat(s: string)
    requires |s| == 5 && ParseClock(s).Some?
    ensures ParseTime(s, false) == ParseClock(s).value
    ensures FormatClock(ParseTime(s, false)) == s
  {
    ParseClockExact(s, ParseClock(s).value);
  }

  /** With the correction the parsed time is exactly one hour later, never
      wrapped at midnight. */
  lemma DstAddsOneHour(s: string)
    requires ParseClock(s).Some?
    ensures ParseTime(s, true) == ParseTime(s, false) + 60
    ensures ParseTime(s, false) < MinutesPerDay <= ParseTime(s, true) <==> ParseTime(s, false) >= 23 * 60
  {
  }

  /** A malformed string gives the zero time whether or not the correction is
      requested, and that is later than any parsed time. */
  lemma MalformedIgnoresDst(s: string)
    requires ParseClock(s).None?
    ensures ParseTime(s, true) == ParseTime(s, false) == ZeroTime
    ensures forall u: string, dst: bool :: ParseClock(u).Some? ==> ParseTime(u, dst) < ZeroTime
    ensures FormatClock(ZeroTime) == "00:00"
  {
  }

  /** "23:30" with the correction is 24:30 of the reference day: later than
      every uncorrected time, yet it prints as "00:30". */
  lemma LateCorrectionDoesNotWrap()
    ensures ParseTime("23:30", true) == 1470
    ensures forall u: string :: ParseClock(u).Some? ==> ParseTime(u, false) < ParseTime("23:30", true)
    ensures FormatClock(1470) == "00:30"
  {
    ParseClockExact("23:30", 1410);
  }

  /** GetCurrentTime's output is the zero-padded rendering of the clock
      minute, and parseTime without correction recovers that minute. */
  lemma CurrentTimeParses(hour: nat, minute: nat)
    requires hour < 24 && minute < 60
    ensures Utils.ClockString(hour, minute) == FormatClock(hour * 60 + minute)
    ensures ParseTime(Utils.ClockString(hour, minute), false) == hour * 60 + minute
  {
    var t := hour * 60 + minute;
    assert t / 60 == hour && t % 60 == minute;
    FormatThenParse(t);
  }
}
