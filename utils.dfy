/** The pure helpers of utils/utils.go: the "HH:MM" rendering of the wall
    clock and the restriction of a provider's timings to the five daily
    prayers. */
module Utils {
  import opened Decimal

  /** The five daily prayers, in the order they occur each day. */
  const MainPrayers: seq<string> := ["Fajr", "Dhuhr", "Asr", "Maghrib", "Isha"]

  /** GetCurrentTime's `"%02d:%02d"` rendering of an hour and a minute; the
      clock read itself is an input here. */
  function ClockString(hour: nat, minute: nat): (s: string)
    requires hour < 24 && minute < 60
    ensures |s| == 5 && s[2] == ':'
    ensures IsDigit(s[0]) && IsDigit(s[1]) && IsDigit(s[3]) && IsDigit(s[4])
    ensures 10 * DigitValue(s[0]) + DigitValue(s[1]) == hour
    ensures 10 * DigitValue(s[3]) + DigitValue(s[4]) == minute
  {
    Pad2(hour) + ":" + Pad2(minute)
  }

  /** The timings restricted to the canonical prayer names. */
  function Filtered(timings: map<string, string>): (r: map<string, string>) {
    map name | name in timings && name in MainPrayers :: timings[name]
  }

  /** FilterPrayerTimes: builds a fresh map holding, for each canonical name
      present in the input, the input's value; nothing else is copied. */
  method FilterPrayerTimes(timings: map<string, string>) returns (filtered: map<string, string>)
    ensures forall name :: name in filtered <==> name in timings && name in MainPrayers
    ensures forall name :: name in filtered ==> filtered[name] == timings[name]
    ensures filtered == Filtered(timings)
  {
    filtered := map[];
    var i := 0;
    while i < |MainPrayers|
      invariant 0 <= i <= |MainPrayers|
      invariant forall name :: name in filtered <==> name in timings && name in MainPrayers[..i]
      invariant forall name :: name in filtered ==> filtered[name] == timings[name]
    {
      var prayer := MainPrayers[i];
      if prayer in timings {
        filtered := filtered[prayer := timings[prayer]];
      }
      i := i + 1;
    }
    assert MainPrayers[..i] == MainPrayers;
  }

  /** Filtering an already filtered map changes nothing. */
  lemma FilterIdempotent(timings: map<string, string>)
    ensures Filtered(Filtered(timings)) == Filtered(timings)
  {
  }

  /** The result never has more entries than there are canonical names. */
  lemma FilterAtMostFive(timings: map<string, string>)
    ensures Filtered(timings).Keys <= set name | name in MainPrayers
    ensures |Filtered(timings)| <= 5
  {
    var canon := set name | name in MainPrayers;
    assert canon == {"Fajr", "Dhuhr", "Asr", "Maghrib", "Isha"};
    SubsetCardinality(Filtered(timings).Keys, canon);
  }

  lemma {:induction false} SubsetCardinality<T>(a: set<T>, b: set<T>)
    requires a <= b
    ensures |a| <= |b|
  {
    if a != {} {
      var x :| x in a;
      SubsetCardinality(a - {x}, b - {x});
    }
  }
}
