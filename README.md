# prayers4deaf scheduling core, modelled in Dafny

prayers4deaf fetches the day's five prayer times (Fajr, Dhuhr, Asr, Maghrib,
Isha) from a timing provider. It then reports which prayer is ongoing and which
comes next at the current wall-clock time. This project models the part with
decision logic:

- `parseTime` and the `"15:04"` layout (module `PrayerTime`, `prayer_time.dfy`).
  A time is a count of minutes since midnight of January 1, year 0. That is the
  date Go's `time.Parse` gives a clock-only layout. The daylight-saving
  correction adds 60 minutes and never wraps. A string that does not parse
  gives Go's zero `time.Time`, which is January 1, year 1. The model writes it
  as `ZeroTime` = 366 × 1440 minutes, which is later than every parsed time.
  Formatting keeps the hour of day and the minute, so 1470 prints as `"00:30"`
  and `ZeroTime` prints as `"00:00"`.
- The response-code check and the five-prayer construction of `GetPrayers`.
  This is `Prayer.BuildPrayers`, which returns a `Result`.
- `GetNextPrayer` and `GetCurrentPrayer`. Each is a method with a loop that
  scans the list in order. Each is proved against a recursive specification:
  `FirstAfter` and `FirstOngoing` give the position of the first match.
  `NextPrayer` and `CurrentPrayer` give the reported pair.
- From `utils.go` (module `Utils`): `FilterPrayerTimes`, a method that builds
  the filtered map in a loop, with `Filtered` as its specification. Also the
  `"%02d:%02d"` rendering of `GetCurrentTime`, taking hour and minute as
  inputs (`ClockString`).

The parser follows Go's `time.Parse` with layout `"15:04"`:

- the hour is one or two digits in 0..23;
- then a `:`;
- then exactly two minute digits in 00..59;
- nothing may follow.

So `"5:30"` parses and `"05:3"` does not. `ParseClockExact` states this in
both directions. The strings that parse to a time `t` are exactly its two
renderings: `FormatClock(t)`, and, before 10:00, that string without its
leading zero.

Three consequences of the code that the model keeps:

- The correction does not wrap at midnight. `Add` gives 1470 for `"23:30"`,
  which is later than any uncorrected time (`LateCorrectionDoesNotWrap`,
  `LatePrayerPreventsWrap`).
- The ongoing window is open at both ends, because `After` and `Before` are
  strict (prayer/prayer.go:122). So a prayer is not ongoing at its own start
  minute (`WindowBoundsExcluded`, `SampleDayFajrMinute`).
- A missing timing is not an error. JSON decoding leaves `""`, which
  `parseTime` turns into the zero time. The only construction error is a
  response code other than 200 (`BuildPrayers`, `MalformedPrayerIsAlwaysNext`).

## Model

| member | source | states |
|---|---|---|
| `Utils.ClockString` | utils/utils.go:57-61 | for an hour below 24 and a minute below 60, the result is five characters: two digits spelling the hour, `:`, and two digits spelling the minute |
| `Utils.FilterPrayerTimes` | utils/utils.go:63-75 | a key is in the result iff it is in the input and is one of the five canonical names; every kept key has the input's value |
| `Utils.FilterIdempotent` | utils/utils.go:64-75 | filtering an already filtered map gives the same map |
| `Utils.FilterAtMostFive` | utils/utils.go:65-72 | every result key is a canonical name, so the result has at most five entries |
| `PrayerTime.ParseClock` | prayer/prayer.go:85-88 | a successful `"15:04"` parse is a minute of the day, below 1440 |
| `PrayerTime.ParseTime` | prayer/prayer.go:83-94 | the result is the zero time exactly when the string does not parse; otherwise it is the parsed clock minute, plus 60 when the correction is requested, and below 25:00 of the reference day |
| `PrayerTime.OneDigitHourParses` | prayer/prayer.go:85 | a one-digit hour is accepted: `"5:30"` is 330 uncorrected and 390 corrected |
| `PrayerTime.FormatClock` | prayer/prayer.go:102 | the `Format("15:04")` of lines 102, 106 and 123: five characters: two digits for the hour of day (whole days dropped), `:`, and two digits for the minute |
| `PrayerTime.FormatThenParse` | prayer/prayer.go:84-93 | every time of day, formatted, parses back to itself; before 10:00 this also holds with the hour written as one digit |
| `PrayerTime.ParsedIsRendering` | prayer/prayer.go:85-88 | a string that parses to `t` is `t`'s zero-padded rendering or, before 10:00, that rendering without its leading zero |
| `PrayerTime.ParseClockExact` | prayer/prayer.go:84-88 | a string parses to `t` if and only if `t` is a time of day and the string is one of `t`'s two renderings |
| `PrayerTime.ParseThenFormat` | prayer/prayer.go:84-93 | a five-character string that parses comes back unchanged when its uncorrected time is formatted |
| `PrayerTime.DstAddsOneHour` | prayer/prayer.go:90-91 | for a string that parses, the corrected time is exactly 60 minutes more than the uncorrected one; it passes midnight exactly when the clock time is 23:00 or later |
| `PrayerTime.MalformedIgnoresDst` | prayer/prayer.go:86-88 | a string that does not parse gives the zero time with or without the correction; every parsed time is earlier; the zero time prints as `"00:00"` |
| `PrayerTime.LateCorrectionDoesNotWrap` | prayer/prayer.go:90-91 | `"23:30"` corrected is 1470, later than every uncorrected time, and it prints as `"00:30"` |
| `PrayerTime.CurrentTimeParses` | utils/utils.go:58-60 | the current-time string is the `"15:04"` rendering of the clock minute, and parsing it without correction recovers hour × 60 + minute |
| `Prayer.BuildPrayers` | prayer/prayer.go:67-78 | it is an error, carrying the response status, exactly when the code is not 200; otherwise it gives five prayers named Fajr, Dhuhr, Asr, Maghrib, Isha in that order, each timed by `parseTime` of its field with the correction |
| `Prayer.BuildKeepsOrder` | prayer/prayer.go:72-78 | provider times that all parse and do not decrease give a prayer list sorted by time |
| `Prayer.BuiltTimesBounded` | prayer/prayer.go:72-78 | each built time is either a corrected clock time in [01:00, 25:00) or the zero time, and never both |
| `Prayer.FirstAfter` | prayer/prayer.go:100-104 | the position found holds a prayer strictly later than the current time and every earlier position is not later; no position is found exactly when no prayer is later |
| `Prayer.GetNextPrayer` | prayer/prayer.go:96-107 | on a non-empty list, it returns the pair `NextPrayer` gives for the uncorrected current time, and never an error |
| `Prayer.NextPrayerFound` | prayer/prayer.go:100-103 | when prayer `i` is later than the current time and all earlier ones are not, the next prayer is `i`'s name and formatted time |
| `Prayer.EqualTimeNotNext` | prayer/prayer.go:101 | a prayer at exactly the current time is never the one found as next |
| `Prayer.NextPrayerWraps` | prayer/prayer.go:106 | with no later prayer, the answer is the literal `"Fajr"` with the first prayer's formatted time, whatever that prayer is named |
| `Prayer.SortedNextIsCount` | prayer/prayer.go:100-104 | on a sorted list, the next prayer's position is the number of prayers at or before the current time; none is found when that number is the length |
| `Prayer.SortedNextIsEarliest` | prayer/prayer.go:100-104 | on a sorted list, the next prayer is the earliest of the later prayers |
| `Prayer.UnsortedNextIsNotEarliest` | prayer/prayer.go:100-104 | on an unsorted list, the scan can pick a later prayer that is not the earliest one |
| `Prayer.FirstOngoing` | prayer/prayer.go:119-125 | the position found has time < current < time + window, and no earlier position does; none is found exactly when no window contains the current time |
| `Prayer.GetCurrentPrayer` | prayer/prayer.go:115-128 | it returns the pair `CurrentPrayer` gives for the uncorrected current time, and never an error |
| `Prayer.CurrentPrayerFound` | prayer/prayer.go:119-124 | the first prayer whose open window contains the current time is reported with its name and its start time, not the window's end |
| `Prayer.WindowBoundsExcluded` | prayer/prayer.go:120-122 | a current time equal to a prayer's start, or to its window's end, does not make that prayer ongoing |
| `Prayer.NoWindowNoPrayer` | prayer/prayer.go:119-127 | with no window containing the current time, and always with a window of zero or less, the result is two empty strings |
| `Prayer.OngoingBeforeNext` | prayer/prayer.go:96-128 | on a sorted list, an ongoing prayer comes before the next prayer |
| `Prayer.MalformedPrayerIsAlwaysNext` | prayer/prayer.go:84-106 | a timing that does not parse is at the zero time, so for every parsed current time the next-prayer scan stops at it or earlier; if it stops there, the time reported is `"00:00"` |
| `Prayer.MalformedCurrentTime` | prayer/prayer.go:96-128 | a current time that does not parse makes the next prayer wrap to `"Fajr"`, and no prayer is ongoing with the 60-minute window |
| `Prayer.LatePrayerPreventsWrap` | prayer/prayer.go:90-106 | a provider time of 23:00 or later is corrected past midnight, so for every parsed current time the next-prayer scan finds a later prayer |
| `Prayer.SampleDayTimes` | prayer/prayer.go:67-78 | a sample response builds the five prayers at 05:00, 12:15, 15:45, 18:20, 19:45 |
| `Prayer.SampleDayMidday` | main.go:36-44 | with the 60-minute window and the same current time `"12:20"` for both queries, Dhuhr (`"12:15"`) is ongoing and Asr (`"15:45"`) is next |
| `Prayer.SampleDayNight` | main.go:36-44 | at `"23:00"` nothing is ongoing and the next prayer wraps to Fajr at `"05:00"` |
| `Prayer.SampleDayFajrMinute` | main.go:36-44 | at exactly `"05:00"` nothing is ongoing and the next prayer is Dhuhr at `"12:15"` |

## Left out

- HTTP and JSON: `CreateGetRequest`, `setParams` and `DecodeJsonResponse` (utils/utils.go:18-55), and the fetch half of `GetPrayers` (prayer/prayer.go:42-65). These are network I/O and library calls. The model starts from the decoded response.
- geolocation/geolocation.go, which reads an environment variable, makes an HTTP call and decodes JSON.
- main.go's orchestration, `.env` loading and logging. Two of its facts are kept: the 60-minute window (`OngoingWindow`), and one current time passed to both queries (the sample-day lemmas).
- The wall-clock reads (`time.Now`). The date is not modelled, and the current hour and minute are inputs.
- Logging calls, which only have side effects.
- `AssignLed` and the `LED` field, a hardware stub.
- Calendar and time-zone semantics of `time.Time` beyond minutes since the reference midnight.
- Overflow of `prayerDuration * time.Minute`. The window is an unbounded integer count of minutes.
- Prayer.GetNextPrayer: requires a non-empty list. On an empty list the Go code indexes `prayers[0]` and panics.
