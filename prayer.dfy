/** The prayer schedule of prayer/prayer.go: building the day's five prayers
    from a timing-provider response, and the two queries that classify the
    current time against them. */
module Prayer {
  import opened Wrappers
  import opened PrayerTime
  import Utils

  /** A prayer and its time (already corrected); the LED pin is not modelled. */
  datatype Prayer = Prayer(time: nat, name: string)

  /** The fields of the provider's response that the schedule reads. A
      timing the response does not carry decodes to the empty string. */
  datatype Timings = Timings(fajr: string, dhuhr: string, asr: string, maghrib: string, isha: string)
  datatype Response = Response(code: int, status: string, timings: Timings)

  /** How long, in minutes, a prayer counts as ongoing in the program's run. */
  const OngoingWindow: int := 60

  /** The raw timings in canonical order. */
  function RawTimes(timings: Timings): (raw: seq<string>)
    ensures |raw| == |Utils.MainPrayers|
  {
    [timings.fajr, timings.dhuhr, timings.asr, timings.maghrib, timings.isha]
  }

  predicate Sorted(prayers: seq<Prayer>) {
    forall i, j :: 0 <= i < j < |prayers| ==> prayers[i].time <= prayers[j].time
  }

  /** The code check and construction of GetPrayers: a status other than 200
      is an error; otherwise the five prayers in canonical order, each time
      parsed with the daylight-saving correction. */
  function BuildPrayers(response: Response): (r: Result<seq<Prayer>>)
    ensures r.Err? <==> response.code != 200
    ensures r.Err? ==> r.error == "unexpected API response status: " + response.status
    ensures r.Ok? ==> |r.value| == 5
    ensures r.Ok? ==> forall i :: 0 <= i < 5 ==>
      r.value[i].name == Utils.MainPrayers[i] &&
      r.value[i].time == ParseTime(RawTimes(response.timings)[i], true)
  {
    if response.code != 200 then
      Err("unexpected API response status: " + response.status)
    else
      var t := response.timings;
      Ok([ Prayer(ParseTime(t.fajr, true), "Fajr"),
           Prayer(ParseTime(t.dhuhr, true), "Dhuhr"),
           Prayer(ParseTime(t.asr, true), "Asr"),
           Prayer(ParseTime(t.maghrib, true), "Maghrib"),
           Prayer(ParseTime(t.isha, true), "Isha") ])
  }

  /** Provider times in non-decreasing order give a sorted prayer list, since
      every one is shifted by the same hour. */
  lemma BuildKeepsOrder(response: Response)
    requires response.code == 200
    requires forall i :: 0 <= i < 5 ==> ParseClock(RawTimes(response.timings)[i]).Some?
    requires forall i, j :: 0 <= i < j < 5 ==>
      ParseClock(RawTimes(response.timings)[i]).value <= ParseClock(RawTimes(response.timings)[j]).value
    ensures Sorted(BuildPrayers(response).value)
  {
    var p := BuildPrayers(response).value;
    var raw := RawTimes(response.timings);
    forall i, j | 0 <= i < j < 5 ensures p[i].time <= p[j].time {
      DstAddsOneHour(raw[i]);
      DstAddsOneHour(raw[j]);
    }
  }

  /** Every built time is a corrected clock time, below 25:00, or the zero
      time of a timing that did not parse. */
  lemma BuiltTimesBounded(response: Response)
    requires response.code == 200
    ensures forall i :: 0 <= i < 5 ==>
      var t := BuildPrayers(response).value[i].time;
      (DstOffset <= t < MinutesPerDay + DstOffset) != (t == ZeroTime)
  {
    var p := BuildPrayers(response).value;
    forall i | 0 <= i < 5
      ensures (DstOffset <= p[i].time < MinutesPerDay + DstOffset) != (p[i].time == ZeroTime)
    {
      var raw := RawTimes(response.timings)[i];
      if ParseClock(raw).Some? {
        DstAddsOneHour(raw);
      }
    }
  }

  // ---------------------------------------------------------------------
  // GetNextPrayer

  /** The position of the first prayer, in list order, strictly later than
      `current`. */
  function FirstAfter(prayers: seq<Prayer>, current: nat): (r: Option<nat>)
    ensures r.Some? ==> r.value < |prayers| && prayers[r.value].time > current
    ensures r.Some? ==> forall j :: 0 <= j < r.value ==> prayers[j].time <= current
    ensures r.None? <==> forall j :: 0 <= j < |prayers| ==> prayers[j].time <= current
  {
    if |prayers| == 0 then None
    else if prayers[0].time > current then Some(0)
    else
      match FirstAfter(prayers[1..], current)
      case None => None
      case Some(k) => Some(k + 1)
  }

  /** The name and formatted time GetNextPrayer reports: the first later
      prayer, or else the literal "Fajr" with the first prayer's time. */
  function NextPrayer(prayers: seq<Prayer>, current: nat): (r: (string, string))
    requires |prayers| > 0
  {
    match FirstAfter(prayers, current)
    case Some(i) => (prayers[i].name, FormatClock(prayers[i].time))
    case None => ("Fajr", FormatClock(prayers[0].time))
  }

  /** GetNextPrayer: scans the list in order for the first prayer strictly
      after the uncorrected current time; with none, wraps to the first
      prayer. An empty list is indexed out of range, so it is excluded. */
  method GetNextPrayer(prayers: seq<Prayer>, currentTime: string)
    returns (name: string, time: string, err: Option<string>)
    requires |prayers| > 0
    ensures err == None
    ensures (name, time) == NextPrayer(prayers, ParseTime(currentTime, false))
  {
    var current := ParseTime(currentTime, false);
    var i := 0;
    while i < |prayers|
      invariant 0 <= i <= |prayers|
      invariant forall j :: 0 <= j < i ==> prayers[j].time <= current
    {
      if prayers[i].time > current {
        return prayers[i].name, FormatClock(prayers[i].time), None;
      }
      i := i + 1;
    }
    return "Fajr", FormatClock(prayers[0].time), None;
  }

  /** The next prayer is the first strictly later one in list order,
      reported by its own name and time. */
  lemma NextPrayerFound(prayers: seq<Prayer>, current: nat, i: nat)
    requires i < |prayers| && prayers[i].time > current
    requires forall j :: 0 <= j < i ==> prayers[j].time <= current
    ensures NextPrayer(prayers, current) == (prayers[i].name, FormatClock(prayers[i].time))
  {
    var r := FirstAfter(prayers, current);
    assert r.Some?;
    assert !(r.value < i) && !(r.value > i);
  }

  /** A prayer at exactly the current time is passed over. */
  lemma EqualTimeNotNext(prayers: seq<Prayer>, current: nat, i: nat)
    requires i < |prayers| && prayers[i].time == current
    ensures FirstAfter(prayers, current) != Some(i)
  {
  }

  /** With no later prayer the answer is "Fajr" at the first prayer's time,
      whatever that prayer is called. */
  lemma NextPrayerWraps(prayers: seq<Prayer>, current: nat)
    requires |prayers| > 0
    requires forall j :: 0 <= j < |prayers| ==> prayers[j].time <= current
    ensures NextPrayer(prayers, current) == ("Fajr", FormatClock(prayers[0].time))
  {
  }

  /** The number of prayers at or before `current`. */
  function CountNotAfter(prayers: seq<Prayer>, current: nat): (n: nat)
    ensures n <= |prayers|
  {
    if |prayers| == 0 then 0
    else (if prayers[0].time <= current then 1 else 0) + CountNotAfter(prayers[1..], current)
  }

  /** On a sorted list, scanning in order finds the prayer whose position is
      the number of prayers already passed. */
  lemma {:induction false} SortedNextIsCount(prayers: seq<Prayer>, current: nat)
    requires Sorted(prayers)
    ensures FirstAfter(prayers, current) ==
      if CountNotAfter(prayers, current) < |prayers| then Some(CountNotAfter(prayers, current)) else None
  {
    if |prayers| > 0 {
      assert Sorted(prayers[1..]);
      SortedNextIsCount(prayers[1..], current);
      if prayers[0].time > current {
        if |prayers| > 1 {
          assert prayers[1..][0].time > current;
          CountAllLater(prayers[1..], current);
        }
      }
    }
  }

  lemma {:induction false} CountAllLater(prayers: seq<Prayer>, current: nat)
    requires forall j :: 0 <= j < |prayers| ==> prayers[j].time > current
    ensures CountNotAfter(prayers, current) == 0
  {
    if |prayers| > 0 {
      CountAllLater(prayers[1..], current);
    }
  }

  /** On a sorted list the next prayer is the earliest later one. */
  lemma SortedNextIsEarliest(prayers: seq<Prayer>, current: nat, i: nat)
    requires Sorted(prayers)
    requires FirstAfter(prayers, current) == Some(i)
    ensures forall j :: 0 <= j < |prayers| && prayers[j].time > current ==> prayers[i].time <= prayers[j].time
  {
  }

  /** Out of order, the scan picks the first later prayer in list order even
      when another later prayer comes sooner. */
  lemma UnsortedNextIsNotEarliest()
    ensures var p := [Prayer(600, "Fajr"), Prayer(500, "Dhuhr")];
      FirstAfter(p, 400) == Some(0) && p[1].time < p[0].time
  {
  }

  // ---------------------------------------------------------------------
  // GetCurrentPrayer

  /** The position of the first prayer, in list order, whose open window
      (time, time + window) contains `current`. */
  function FirstOngoing(prayers: seq<Prayer>, current: nat, window: int): (r: Option<nat>)
    ensures r.Some? ==> r.value < |prayers|
    ensures r.Some? ==> prayers[r.value].time < current < prayers[r.value].time + window
    ensures r.Some? ==> forall j :: 0 <= j < r.value ==>
      !(prayers[j].time < current < prayers[j].time + window)
    ensures r.None? <==> forall j :: 0 <= j < |prayers| ==>
      !(prayers[j].time < current < prayers[j].time + window)
  {
    if |prayers| == 0 then None
    else if prayers[0].time < current < prayers[0].time + window then Some(0)
    else
      match FirstOngoing(prayers[1..], current, window)
      case None => None
      case Some(k) => Some(k + 1)
  }

  /** The name and formatted start time GetCurrentPrayer reports, or two
      empty strings when no prayer is ongoing. */
  function CurrentPrayer(prayers: seq<Prayer>, current: nat, window: int): (r: (string, string)) {
    match FirstOngoing(prayers, current, window)
    case Some(i) => (prayers[i].name, FormatClock(prayers[i].time))
    case None => ("", "")
  }

  /** GetCurrentPrayer: scans the list in order for the first prayer whose
      window strictly contains the uncorrected current time. */
  method GetCurrentPrayer(prayers: seq<Prayer>, currentTime: string, window: int)
    returns (name: string, time: string, err: Option<string>)
    ensures err == None
    ensures (name, time) == CurrentPrayer(prayers, ParseTime(currentTime, false), window)
  {
    var current := ParseTime(currentTime, false);
    var i := 0;
    while i < |prayers|
      invariant 0 <= i <= |prayers|
      invariant forall j :: 0 <= j < i ==> !(prayers[j].time < current < prayers[j].time + window)
    {
      var windowEnd := prayers[i].time + window;
      if current > prayers[i].time && current < windowEnd {
        return prayers[i].name, FormatClock(prayers[i].time), None;
      }
      i := i + 1;
    }
    return "", "", None;
  }

  /** The ongoing prayer is the first whose window contains the current
      time, and it is reported with its start time, not its window's end. */
  lemma CurrentPrayerFound(prayers: seq<Prayer>, current: nat, window: int, i: nat)
    requires i < |prayers| && prayers[i].time < current < prayers[i].time + window
    requires forall j :: 0 <= j < i ==> !(prayers[j].time < current < prayers[j].time + window)
    ensures CurrentPrayer(prayers, current, window) == (prayers[i].name, FormatClock(prayers[i].time))
  {
    var r := FirstOngoing(prayers, current, window);
    assert r.Some?;
    assert !(r.value < i) && !(r.value > i);
  }

  /** Both ends of a window are open: at a prayer's start minute, or at the
      end of its window, that prayer is not ongoing. */
  lemma WindowBoundsExcluded(prayers: seq<Prayer>, current: nat, window: int, i: nat)
    requires i < |prayers|
    requires current == prayers[i].time || current == prayers[i].time + window
    ensures FirstOngoing(prayers, current, window) != Some(i)
  {
  }

  /** Outside every window, and always with a window of zero or less, the
      answer is two empty strings. */
  lemma NoWindowNoPrayer(prayers: seq<Prayer>, current: nat, window: int)
    requires window <= 0 ||
      forall j :: 0 <= j < |prayers| ==> current <= prayers[j].time || prayers[j].time + window <= current
    ensures CurrentPrayer(prayers, current, window) == ("", "")
  {
  }

  /** On a sorted list, an ongoing prayer lies before the next one. */
  lemma OngoingBeforeNext(prayers: seq<Prayer>, current: nat, window: int)
    requires Sorted(prayers)
    requires FirstOngoing(prayers, current, window).Some? && FirstAfter(prayers, current).Some?
    ensures FirstOngoing(prayers, current, window).value < FirstAfter(prayers, current).value
  {
  }

  // ---------------------------------------------------------------------
  // The queries on a built schedule

  /** A prayer whose timing did not parse sits at the zero time, later than
      every parsed current time, so the next-prayer scan stops there at the
      latest; it then reports that prayer at "00:00". */
  lemma MalformedPrayerIsAlwaysNext(response: Response, currentTime: string, i: nat)
    requires response.code == 200
    requires i < 5 && ParseClock(RawTimes(response.timings)[i]).None?
    requires ParseClock(currentTime).Some?
    ensures var p := BuildPrayers(response).value;
      var k := FirstAfter(p, ParseTime(currentTime, false));
      k.Some? && k.value <= i && (k.value == i ==> NextPrayer(p, ParseTime(currentTime, false)).1 == "00:00")
  {
    var p := BuildPrayers(response).value;
    var c := ParseTime(currentTime, false);
    assert p[i].time == ZeroTime > c;
    var k := FirstAfter(p, c);
    assert k.Some? && k.value <= i;
    MalformedIgnoresDst(RawTimes(response.timings)[i]);
  }

  /** A current time that does not parse is the zero time: no built prayer
      is later, so the next prayer wraps to "Fajr", and no window of the
      program's length contains it. */
  lemma MalformedCurrentTime(response: Response, currentTime: string)
    requires response.code == 200
    requires ParseClock(currentTime).None?
    ensures var p := BuildPrayers(response).value;
      NextPrayer(p, ParseTime(currentTime, false)) == ("Fajr", FormatClock(p[0].time)) &&
      CurrentPrayer(p, ParseTime(currentTime, false), OngoingWindow) == ("", "")
  {
    BuiltTimesBounded(response);
  }

  /** A provider time of 23:00 or later is corrected past midnight of the
      reference day, so with every parsed current time the next-prayer scan
      finds a later prayer and never wraps. */
  lemma LatePrayerPreventsWrap(response: Response, currentTime: string, i: nat)
    requires response.code == 200
    requires i < 5
    requires ParseClock(RawTimes(response.timings)[i]).Some?
    requires ParseClock(RawTimes(response.timings)[i]).value >= 23 * 60
    requires ParseClock(currentTime).Some?
    ensures FirstAfter(BuildPrayers(response).value, ParseTime(currentTime, false)).Some?
  {
    var p := BuildPrayers(response).value;
    DstAddsOneHour(RawTimes(response.timings)[i]);
    assert p[i].time > ParseTime(currentTime, false);
  }

  // ---------------------------------------------------------------------
  // A sample day

  /** Provider times one hour before 05:00, 12:15, 15:45, 18:20 and 19:45. */
  const SampleDay := Response(200, "OK", Timings("04:00", "11:15", "14:45", "17:20", "18:45"))

  /** SampleDay's prayers, corrected by one hour. */
  const SampleSchedule: seq<Prayer> :=
    [Prayer(300, "Fajr"), Prayer(735, "Dhuhr"), Prayer(945, "Asr"), Prayer(1100, "Maghrib"), Prayer(1185, "Isha")]

  lemma SampleDayTimes()
    ensures BuildPrayers(SampleDay) == Ok(SampleSchedule)
  {
    SampleFajr();
    SampleDhuhr();
    SampleAsr();
    SampleMaghrib();
    SampleIsha();
  }

  // One literal time per lemma keeps each evaluation small.
  lemma SampleFajr() ensures ParseTime("04:00", true) == 300 { ParsesTo("04:00", 240); }
  lemma SampleDhuhr() ensures ParseTime("11:15", true) == 735 { ParsesTo("11:15", 675); }
  lemma SampleAsr() ensures ParseTime("14:45", true) == 945 { ParsesTo("14:45", 885); }
  lemma SampleMaghrib() ensures ParseTime("17:20", true) == 1100 { ParsesTo("17:20", 1040); }
  lemma SampleIsha() ensures ParseTime("18:45", true) == 1185 { ParsesTo("18:45", 1125); }

  /** At 12:20, Dhuhr (12:15) is ongoing and Asr (15:45) is next. */
  lemma SampleDayMidday()
    ensures CurrentPrayer(SampleSchedule, ParseTime("12:20", false), OngoingWindow) == ("Dhuhr", "12:15")
    ensures NextPrayer(SampleSchedule, ParseTime("12:20", false)) == ("Asr", "15:45")
  {
    ParsesTo("12:20", 740);
    assert FormatClock(735) == "12:15" && FormatClock(945) == "15:45";
    CurrentPrayerFound(SampleSchedule, 740, OngoingWindow, 1);
    NextPrayerFound(SampleSchedule, 740, 2);
  }

  /** At 23:00 nothing is ongoing and the next prayer wraps to Fajr. */
  lemma SampleDayNight()
    ensures CurrentPrayer(SampleSchedule, ParseTime("23:00", false), OngoingWindow) == ("", "")
    ensures NextPrayer(SampleSchedule, ParseTime("23:00", false)) == ("Fajr", "05:00")
  {
    ParsesTo("23:00", 1380);
    assert FormatClock(300) == "05:00";
    NoWindowNoPrayer(SampleSchedule, 1380, OngoingWindow);
    NextPrayerWraps(SampleSchedule, 1380);
  }

  /** At exactly 05:00 Fajr is not yet ongoing, since the window's start is
      open, and the next prayer is Dhuhr. */
  lemma SampleDayFajrMinute()
    ensures CurrentPrayer(SampleSchedule, ParseTime("05:00", false), OngoingWindow) == ("", "")
    ensures NextPrayer(SampleSchedule, ParseTime("05:00", false)) == ("Dhuhr", "12:15")
  {
    ParsesTo("05:00", 300);
    assert FormatClock(735) == "12:15";
    NoWindowNoPrayer(SampleSchedule, 300, OngoingWindow);
    NextPrayerFound(SampleSchedule, 300, 1);
  }
}
