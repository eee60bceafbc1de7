# laroueverte date utilities — a Dafny model of the builder and its queries

The library wraps a platform calendar in two classes:
- `DateConstant` answers questions about a date.
- `DateBuilder` extends it and changes the date in place.

This project models the integer logic of both classes. The centre is the daylight-saving logic:
- `isALocalNonUniqueTime` tells whether the local reading of an instant happens twice on the day the clocks go back.
- `moveToNextLocalUniqueTime` moves a builder to an instant whose reading is unique.

Around it, the project models:
- the day-of-week moves;
- the trims and setters on calendar fields;
- the absolute additions;
- the choice of ISO-8601 parser by the string's zone suffix;
- comparisons, min/max and age;
- the truncating "time to reach" chain;
- the forced-milliseconds form of the local ISO text.

Modules:
- `JavaInt`: Java's truncating division (`Quot`) and the narrowing cast `(int)` (`ToInt32`). These are written out because Dafny's integers are unbounded and its division is Euclidean.
- `DateConstant`: the queries, as functions and lemmas.
  - Instants are milliseconds since the epoch.
  - The ambient time zone is an offset rule: a function from instant to UTC offset in minutes.
  - Zone rules give the zone and daylight-saving offsets in milliseconds, as the platform calendar does. `OffsetRuleOf` turns them into an offset rule through `getTimeZoneOffset`'s truncating divisions.
  - A seasonal rule stands in for a real zone such as Europe/Paris: one hour in winter, two hours between a spring instant and a fall instant.
- `DateBuilder`: the builder as classes whose methods change their fields.
  - The source keeps a single platform calendar per builder. Without the Gregorian conversion between instant, day and fields, the model keeps three views of it:
    - `DateBuilder` holds the instant, for the additions and the unique-time search.
    - `DayBuilder` holds the local day counted from 1970-01-01, for the day-of-week moves.
    - `FieldsBuilder` (module `CalendarFields`) holds the calendar fields, for the setters, the trims and the constructors from fields.
  - The module also holds the parser choice of `iso8601`.
- `CalendarFields`: the `FieldsBuilder` class, and the trims as functions on a fields record.

How the unique-time search is specified:
- `moveToNextLocalUniqueTime` probes 60 minutes ahead, then 40, 10 and 5 minutes ahead or back. It then scans minute by minute, forward while the instant is ambiguous, or backward to the first ambiguous minute and one minute up again.
- The model proves:
  - the result is never ambiguous;
  - it is a whole number of minutes after an ambiguous start;
  - a start that is not ambiguous stays;
  - when the start lies in an ambiguous window [lo, hi), the result is `GridCeil(start, hi)`. A window is local: from `lo` until two hours past `hi`, an instant is ambiguous exactly when it is before `hi`. Other fall-backs elsewhere on the timeline do not matter.
  - `GridCeil(start, hi)` is the first instant at or after `hi` that is a whole number of minutes after the start.
- For a start on a whole minute of the hour (as in the tests), `GridCeil` is `hi` itself: 03:00 local on the day the clocks go back.
- For a start with seconds or milliseconds, the code lands after `hi`; see "## Findings".
- Concrete zones: one summer (`MoveInSeasonalZone`) and two summers, so two fall-backs (`MoveInTwoSummerZone`).

## Model

| member | source | states |
|---|---|---|
| JavaInt.QuotQuot | src/main/java/com/laroueverte/utils/DateConstant.java:260 | two truncating divisions in a row equal one truncating division by the product, for positive divisors |
| JavaInt.ToInt32 | src/main/java/com/laroueverte/utils/DateConstant.java:140 | the `(int)` cast yields a 32-bit value congruent to its argument modulo 2^32, and leaves a value that already fits unchanged |
| DateConstant.TimeZoneOffset | src/main/java/com/laroueverte/utils/DateConstant.java:259-261 | the offset in minutes is the zone plus daylight-saving milliseconds divided by 60000, truncated toward zero; exact for a whole number of minutes |
| DateConstant.SeasonalOffsetMinutes | src/main/java/com/laroueverte/utils/DateConstant.java:259-261 | under the seasonal rule the offset is 120 minutes in summer time and 60 otherwise |
| DateConstant.HumanMonth | src/main/java/com/laroueverte/utils/DateConstant.java:197-200 | the human month is the platform's 0-based month plus one, so it lies in 1..12 exactly when the platform month lies in 0..11 |
| DateConstant.DetectorSeesClockGoBack | src/main/java/com/laroueverte/utils/DateConstant.java:268-270 | an instant is reported non-unique exactly when the wall clock advances by less than an hour over the hour after it or over the hour before it |
| DateConstant.FallBackRepeatsReading | src/main/java/com/laroueverte/utils/DateConstant.java:268-270 | when the offset drops by exactly an hour over the next hour, the instant is flagged and its reading is reached again an hour later |
| DateConstant.FallBackWindow | src/main/java/com/laroueverte/utils/DateConstant.java:268-270 | under the seasonal rule the ambiguous instants are exactly the two hours around the fall instant, so nothing near the spring instant is ambiguous |
| DateConstant.TwoFallBackWindows | src/main/java/com/laroueverte/utils/DateConstant.java:268-270 | with two summers the ambiguous instants are exactly the two hours around each fall instant; each is a window, and no single interval holds all ambiguous instants |
| DateConstant.RepeatedHourPasses | src/main/java/com/laroueverte/utils/DateConstant.java:264-270 | under the seasonal rule, an instant u into the hour before the fall instant (summer time, first pass) reads the same as the instant u after it (winter time, second pass) |
| DateConstant.NonUniqueMeansRepeatedReading | src/main/java/com/laroueverte/utils/DateConstant.java:264-270 | under the seasonal rule an instant is reported ambiguous if and only if another instant has the same local reading |
| DateConstant.IsBetweenInclusive | src/main/java/com/laroueverte/utils/DateConstant.java:469-489 | isBetween holds exactly for start <= t <= end, both bounds included; same-or-after and same-or-before are converses |
| DateConstant.Min | src/main/java/com/laroueverte/utils/DateConstant.java:112-118 | min returns one of its arguments, and the result is the same as or before both |
| DateConstant.Max | src/main/java/com/laroueverte/utils/DateConstant.java:126-132 | max returns one of its arguments, and the result is the same as or after both |
| DateConstant.MinBeforeMax | src/main/java/com/laroueverte/utils/DateConstant.java:112-132 | min is the same as or before max, and both are symmetric in their arguments |
| DateConstant.SecondsToReach | src/main/java/com/laroueverte/utils/DateConstant.java:139-141 | the seconds to reach always fit in an `int`, and equal the truncated millisecond difference over 1000 whenever that fits |
| DateConstant.ReachChain | src/main/java/com/laroueverte/utils/DateConstant.java:94-166 | while the seconds fit in an `int` (a difference under about 68 years), minutes, hours and days to reach are one truncating division of the millisecond difference each; for a later date, the days counted are the whole days elapsed |
| DateConstant.DaysBetween | src/main/java/com/laroueverte/utils/DateConstant.java:159-166 | the number of days between two dates: the whole days elapsed toward the later one, counted toward zero |
| DateConstant.DaysToReachWrapsAfter68Years | src/main/java/com/laroueverte/utils/DateConstant.java:139-166 | seventy years of 365 days ahead are 25550 days between, but getDaysToReach gives -24160 after the seconds wrap in the `(int)` cast |
| DateConstant.AgeIsLastAnniversary | src/main/java/com/laroueverte/utils/DateConstant.java:456-463 | the age is the number of the last anniversary on or before now (the anniversary day itself counts): that one is reached, the next is not, and exactly the anniversaries up to the age are reached |
| DateConstant.DayOfWeek | src/main/java/com/laroueverte/utils/DateConstant.java:240-243 | the day of week is between 1 (Sunday) and 7 (Saturday) |
| DateConstant.WeekDayIsMondayToFriday | src/main/java/com/laroueverte/utils/DateConstant.java:437-440 | isWeekDay holds exactly for the five days Monday to Friday, and repeats every seven days |
| DateConstant.DayOfWeekNext | src/main/java/com/laroueverte/utils/DateConstant.java:240-243 | the day after a Saturday is a Sunday, and otherwise the next day's number is one more |
| DateConstant.DaysUntilReaches | src/main/java/com/laroueverte/utils/DateBuilder.java:504-509 | going forward 0 to 6 days reaches the wanted day of week, zero exactly when already on it, and no day passed on the way has it |
| DateConstant.DaysSinceReaches | src/main/java/com/laroueverte/utils/DateBuilder.java:517-522 | going back 0 to 6 days reaches the wanted day of week, zero exactly when already on it, and no day passed on the way has it |
| DateConstant.ToISO8601Local | src/main/java/com/laroueverte/utils/DateConstant.java:287-298 | unforced, or with a non-zero millisecond, the text is unchanged; forced with zero milliseconds it gains `.000`, and also `:00` first when the second is zero |
| DateConstant.ForcedMillisecondsAreFullWidth | src/main/java/com/laroueverte/utils/DateConstant.java:284-298 | forcing milliseconds on the platform's local time text always gives the fixed-width form HH:mm:ss.SSS |
| CalendarFields.MorningUnderTrims | src/main/java/com/laroueverte/utils/DateConstant.java:446-448 | isMorning depends on the hour alone: trims below the hour keep it, midnight trims make it true, and a new hour h gives morning exactly when h < 12 |
| CalendarFields.TrimsKeepCoarserFields | src/main/java/com/laroueverte/utils/DateBuilder.java:275-349 | trimToDay keeps year, month and day and clears the time of day; trimToMonth also sets day 1; trimToYear also sets January; trimToMinute clears only seconds and milliseconds; trimToTime moves to 1970-01-01 keeping hour, minute and second; every trim is idempotent |
| CalendarFields.DayAndTimeRecombine | src/main/java/com/laroueverte/utils/DateBuilder.java:60-63 | combining the day of a date with its own time of day gives back the date without its millisecond |
| CalendarFields.FieldsBuilder.Date | src/main/java/com/laroueverte/utils/DateBuilder.java:180-185 | date(y, m, d) holds midnight of that day, with the month given from 1 (getHumanMonth gives it back) |
| CalendarFields.FieldsBuilder.DateTime | src/main/java/com/laroueverte/utils/DateBuilder.java:197-202 | dateTime(y, m, d, h, mi) holds that day at that hour and minute, seconds and milliseconds zero |
| CalendarFields.FieldsBuilder.DateTimeSeconds | src/main/java/com/laroueverte/utils/DateBuilder.java:214-220 | dateTime(y, m, d, h, mi, s) holds that day and time, milliseconds zero |
| CalendarFields.FieldsBuilder.DateTimeMillis | src/main/java/com/laroueverte/utils/DateBuilder.java:233-237 | dateTime with milliseconds holds every field given |
| CalendarFields.FieldsBuilder.Time | src/main/java/com/laroueverte/utils/DateBuilder.java:73-83 | time(h, m, s) is that time of day on 1970-01-01 with zero milliseconds |
| CalendarFields.FieldsBuilder.DateAndTime | src/main/java/com/laroueverte/utils/DateBuilder.java:60-63 | dateTime(date, time) takes the hour, minute and second of `time` and everything else from `date` |
| CalendarFields.FieldsBuilder.TrimToTime | src/main/java/com/laroueverte/utils/DateBuilder.java:275-281 | the fields become their trimToTime form |
| CalendarFields.FieldsBuilder.TrimToYear | src/main/java/com/laroueverte/utils/DateBuilder.java:288-292 | the fields become their trimToYear form |
| CalendarFields.FieldsBuilder.TrimToMonth | src/main/java/com/laroueverte/utils/DateBuilder.java:299-303 | the fields become their trimToMonth form |
| CalendarFields.FieldsBuilder.TrimToDay | src/main/java/com/laroueverte/utils/DateBuilder.java:310-316 | the fields become their trimToDay form |
| CalendarFields.FieldsBuilder.TrimToHour | src/main/java/com/laroueverte/utils/DateBuilder.java:323-328 | the fields become their trimToHour form |
| CalendarFields.FieldsBuilder.TrimToMinute | src/main/java/com/laroueverte/utils/DateBuilder.java:335-339 | the fields become their trimToMinute form |
| CalendarFields.FieldsBuilder.TrimToSecond | src/main/java/com/laroueverte/utils/DateBuilder.java:346-349 | the fields become their trimToSecond form |
| CalendarFields.FieldsBuilder.SetHour | src/main/java/com/laroueverte/utils/DateBuilder.java:357-360 | only the hour changes, to the value given |
| CalendarFields.FieldsBuilder.SetMinute | src/main/java/com/laroueverte/utils/DateBuilder.java:368-371 | only the minute changes, to the value given |
| CalendarFields.FieldsBuilder.SetSecond | src/main/java/com/laroueverte/utils/DateBuilder.java:379-382 | only the second changes, to the value given |
| CalendarFields.FieldsBuilder.SetMillisecond | src/main/java/com/laroueverte/utils/DateBuilder.java:390-393 | only the millisecond changes, to the value given |
| CalendarFields.FieldsBuilder.SetDay | src/main/java/com/laroueverte/utils/DateBuilder.java:401-404 | only the day of month changes, to the value given |
| CalendarFields.FieldsBuilder.SetMonth | src/main/java/com/laroueverte/utils/DateBuilder.java:412-415 | only the (0-based) month changes, to the value given |
| CalendarFields.FieldsBuilder.SetYear | src/main/java/com/laroueverte/utils/DateBuilder.java:423-426 | only the year changes, to the value given |
| DateBuilder.Iso8601Dispatch | src/main/java/com/laroueverte/utils/DateBuilder.java:102-108 | the zoned parser is chosen only for a non-empty string ending in `Z` or a digit |
| DateBuilder.Iso8601DispatchMatchesPattern | src/main/java/com/laroueverte/utils/DateBuilder.java:102-108 | the zoned parser is chosen if and only if the whole string is a line-terminator-free prefix followed by `Z` or by a sign, two digits, a colon and two digits |
| DateBuilder.ZonedSuffixDispatch | src/main/java/com/laroueverte/utils/DateBuilder.java:102-104 | any text free of line terminators followed by a zone suffix goes to the zoned parser |
| DateBuilder.Iso8601DispatchZonedExamples | src/main/java/com/laroueverte/utils/DateBuilder.java:102-104 | after any text free of line terminators, the suffixes `Z`, `+01:00`, `-01:00` and `+02:00` send the string to the zoned parser |
| DateBuilder.Iso8601DispatchLocalExamples | src/main/java/com/laroueverte/utils/DateBuilder.java:102-107 | a string ending in `+0100` (no colon) goes to the local parser whatever precedes it, and so does a bare local date-time |
| DateBuilder.GridCeil | src/main/java/com/laroueverte/utils/DateBuilder.java:548-557 | the point where the minute scan meets the end hi of the ambiguous hour: at or after hi, less than a minute after it, and a whole number of minutes from the start |
| DateBuilder.CoarseProbeMinutes | src/main/java/com/laroueverte/utils/DateBuilder.java:532-547 | the four coarse steps move the start by 5, 15, 25, 35, 85, 95, 105 or 115 minutes |
| DateBuilder.WindowIsCrossed | src/main/java/com/laroueverte/utils/DateBuilder.java:548-551 | from any start in an ambiguous window, the forward scan meets an unambiguous minute, so the source's loop ends |
| DateBuilder.GridCeilOvershootsWindowEnd | src/main/java/com/laroueverte/utils/DateBuilder.java:548-557 | from 89 min 45 s or 29 min 45 s before the end of a window (the first or the second 02:30:15 local) the search lands 15 s after the end, though the end is already unambiguous |
| DateBuilder.WindowEndIsNextUniqueTime | src/main/java/com/laroueverte/utils/DateBuilder.java:524-529 | from a start in a window, every instant before the end is ambiguous and the end is not: the end is the next unique local time |
| DateBuilder.DateBuilder.Milliseconds | src/main/java/com/laroueverte/utils/DateBuilder.java:91-93 | milliseconds(ms) holds that instant |
| DateBuilder.DateBuilder.Builder | src/main/java/com/laroueverte/utils/DateConstant.java:56-58 | builder() is a new object on the same instant, so changing it leaves the original alone |
| DateBuilder.DateBuilder.DetectNonUniqueTime | src/main/java/com/laroueverte/utils/DateConstant.java:268-270 | comparing the offsets of two fresh copies moved an hour each way with the offset here gives exactly isALocalNonUniqueTime, and the receiver is not changed |
| DateBuilder.DateBuilder.AddHours | src/main/java/com/laroueverte/utils/DateBuilder.java:463-466 | the instant moves by count hours of elapsed time, whatever the offsets do |
| DateBuilder.DateBuilder.AddMinutes | src/main/java/com/laroueverte/utils/DateBuilder.java:473-476 | the instant moves by count minutes |
| DateBuilder.DateBuilder.AddSeconds | src/main/java/com/laroueverte/utils/DateBuilder.java:483-486 | the instant moves by count seconds |
| DateBuilder.DateBuilder.AddDuration | src/main/java/com/laroueverte/utils/DateBuilder.java:494-496 | the instant moves by the duration's whole seconds after the `(int)` cast; exactly by the duration when it fits in an `int` |
| DateBuilder.DateBuilder.ProbeCoarsely | src/main/java/com/laroueverte/utils/DateBuilder.java:532-547 | the coarse probe moves the instant by the minutes CoarseProbeMinutes names |
| DateBuilder.DateBuilder.ProbeStep | src/main/java/com/laroueverte/utils/DateBuilder.java:533-547 | one coarse step moves d minutes on from an ambiguous instant and d minutes back from an unambiguous one |
| DateBuilder.DateBuilder.ScanForward | src/main/java/com/laroueverte/utils/DateBuilder.java:548-551 | the forward scan stops on an unambiguous instant, a whole number of minutes after the start, and on the grid ceiling of any ambiguous window holding the start |
| DateBuilder.DateBuilder.ScanBackToAmbiguous | src/main/java/com/laroueverte/utils/DateBuilder.java:553-555 | the backward loop stops on an ambiguous instant, fewer minutes after the start than where it began, with the next minute unambiguous and no earlier than the grid ceiling of any ambiguous window holding the start |
| DateBuilder.DateBuilder.ScanBackward | src/main/java/com/laroueverte/utils/DateBuilder.java:552-557 | the backward scan and the final minute up end on an unambiguous instant, a whole number of minutes after the start, and on the grid ceiling of any ambiguous window holding the start |
| DateBuilder.DateBuilder.MoveToNextLocalUniqueTime | src/main/java/com/laroueverte/utils/DateBuilder.java:529-560 | an unambiguous instant stays; otherwise the builder moves strictly forward by whole minutes to an unambiguous instant, the grid ceiling of the end of any ambiguous window holding the start, even when the zone has other fall-backs |
| DateBuilder.StayOnUniqueTime | src/main/java/com/laroueverte/utils/DateBuilder.java:531 | a start that is not ambiguous stays where it is |
| DateBuilder.MoveAcrossWindow | src/main/java/com/laroueverte/utils/DateBuilder.java:529-560 | a start inside an ambiguous window [lo, hi) moves to its grid ceiling of hi, whatever the zone does elsewhere |
| DateBuilder.MoveInSeasonalZone | src/main/java/com/laroueverte/utils/DateBuilder.java:529-560 | on the day the clocks go back, a start in the repeated hours moves to the first instant of its minute grid at or after the end of the second 02:xx hour (03:00 local for a whole-minute start), and every other start, including those around the spring change, stays |
| DateBuilder.MoveInTwoSummerZone | src/main/java/com/laroueverte/utils/DateBuilder.java:529-560 | with two fall-backs, a start in either repeated hour moves to its grid ceiling of the end of that hour, and every other start stays |
| DateBuilder.DayBuilder.AddDays | src/main/java/com/laroueverte/utils/DateBuilder.java:453-456 | the day moves by count days |
| DateBuilder.DayBuilder.MoveToNextDayOfWeek | src/main/java/com/laroueverte/utils/DateBuilder.java:504-509 | the builder moves forward to the nearest day (possibly today) with the day of week asked for, skipping no such day |
| DateBuilder.DayBuilder.MoveToPreviousDayOfWeek | src/main/java/com/laroueverte/utils/DateBuilder.java:517-522 | the builder moves back to the nearest day (possibly today) with the day of week asked for, skipping no such day |

## Left out

- Gregorian conversion between the instant, the local day and the calendar fields is not modelled. This covers leap years, month lengths and the platform calendar's lenient normalisation of out-of-range fields (a 60th second rolls into the next minute). The three views of a builder are therefore not linked to each other.
- addYear and addMonth are not modelled. They depend on month lengths.
- DateBuilder.DayBuilder.AddDays: models addDays as whole days on the local day index. The platform's adjustment that keeps the wall-clock time across a daylight-saving change belongs to the instant view, which is not linked to the day view.
- Real zone tables and the ambient default zone are not modelled. The zone is a parameter: an abstract offset rule, or the seasonal rule for concrete cases.
- Termination of moveToNextLocalUniqueTime is a precondition (`ForwardScanEnds`): when the coarse probe ends on an ambiguous instant, an unambiguous minute of the start's grid must lie ahead of it, or the source's forward loop never ends. Every start in an ambiguous window meets it (WindowIsCrossed).
- DateConstant.MillisecondsToReach: instants and their differences are unbounded integers. Java's `long` subtraction wraps for instants near the ends of the `long` range; that is not modelled, nor is the same wrap in the builder's additions.
- DateBuilder.DayBuilder.MoveToNextDayOfWeek: requires a day of week from 1 to 7. For any other value the source loops forever.
- DateBuilder.DayBuilder.MoveToPreviousDayOfWeek: requires a day of week from 1 to 7, for the same reason.
- DateConstant.Min: a date is its instant here, so of two equal dates the model cannot tell which object is returned. The source returns the first argument.
- DateConstant.Max: as for Min, the source's choice of the first argument on a tie is not observable in the model.
- All formatting and parsing through the platform's formatters is not modelled. That covers the iso8601 parsers themselves, toString with patterns, the zoned and Zulu ISO text, and the French formats. Only the choice of parser and the forced-milliseconds suffix over a given base text are modelled.
- An ISO-8601 zone suffix in lower case (`z`) is accepted by section 5.6 of RFC 3339. The pattern the source uses does not match it, so such a string goes to the local parser, and the model does the same.
- getWeekOfYear is not modelled. It depends on the locale and is computed by the platform.
- now(), isFuture and toAge are not modelled. They read the wall clock.
- The java.sql.Time and Date conversions are not modelled; equals and hashCode are represented by equality of instants.
- getDayOfWeek, getHumanMonth and isMorning are read on the day index and on the fields record. Their link to the platform's calendar computation is part of the Gregorian conversion left out above.

## Findings

| source | as written | input that shows it | evidently intended | confidence | as-written member | corrected member |
|---|---|---|---|---|---|---|
| src/main/java/com/laroueverte/utils/DateBuilder.java:524-557 | the minute scan keeps the start's seconds and milliseconds, so it lands on `GridCeil(start, hi)`, up to a minute after the end `hi` of the repeated hour | a start 89 min 45 s or 29 min 45 s before `hi` (the first or the second 02:30:15 local) lands on `hi` + 15 s | the next unique local time, `hi` itself | low: the authors may want minute steps; not executed | DateBuilder.GridCeilOvershootsWindowEnd | DateBuilder.WindowEndIsNextUniqueTime |
| src/main/java/com/laroueverte/utils/DateConstant.java:139-166 | getDaysToReach divides the seconds after the `(int)` cast, which wraps once the difference passes 2^31 s (about 68 years); minutes and hours inherit the wrap | `getDaysToReach` from the epoch to 70 × 365 days later gives -24160 | the number of days between the two dates, 25550 | medium: the javadoc promises the days between; not executed | DateConstant.DaysToReachWrapsAfter68Years | DateConstant.DaysBetween |
