/** The read-only side of the library: a point in time is a count of milliseconds since
    the epoch, interpreted against zone rules that give the UTC offset in force at each instant.
    Calendar fields (year, month, ...) appear as a record wherever a query reads them. */
module DateConstant {
  import opened JavaInt

  const SECOND_MS: int := 1000
  const MINUTE_MS: int := 60_000
  const HOUR_MS: int := 3_600_000
  const DAY_MS: int := 86_400_000

  // ---------------------------------------------------------------------------
  // Calendar fields

  /** The fields of a calendar reading, with the month counted from 0 as the platform calendar does. */
  datatype Fields = Fields(year: int, month: int, day: int,
                           hour: int, minute: int, second: int, millisecond: int)

  /** getHumanMonth: the month counted from 1 (1 = January). */
  function HumanMonth(f: Fields): (m: int)
    ensures m - 1 == f.month
    ensures 1 <= m <= 12 <==> 0 <= f.month <= 11
  {
    f.month + 1
  }

  /** isMorning: the hour of day is before noon. */
  predicate IsMorning(f: Fields) {
    f.hour < 12
  }

  // ---------------------------------------------------------------------------
  // Zone offsets

  /** What the zone rules report for one instant: the standard offset and the
      daylight-saving correction, both in milliseconds. */
  datatype ZoneOffsets = ZoneOffsets(zoneMs: int, dstMs: int)

  /** The zone rules of the ambient time zone: the offsets in force at each instant. */
  type ZoneRules = int -> ZoneOffsets

  /** getTimeZoneOffset: the total offset in whole minutes, by two truncating divisions. */
  function TimeZoneOffset(o: ZoneOffsets): (minutes: int)
    ensures minutes == Quot(o.zoneMs + o.dstMs, MINUTE_MS)
    ensures (o.zoneMs + o.dstMs) % MINUTE_MS == 0 ==> minutes * MINUTE_MS == o.zoneMs + o.dstMs
  {
    QuotQuot(o.zoneMs + o.dstMs, 1000, 60);
    Quot(Quot(o.zoneMs + o.dstMs, 1000), 60)
  }

  /** The offset in minutes in force at each instant: getTimeZoneOffset of a date at that instant. */
  type OffsetRule = int -> int

  /** The offset rule that zone rules give, through getTimeZoneOffset. */
  function OffsetRuleOf(rules: ZoneRules): OffsetRule {
    t => TimeZoneOffset(rules(t))
  }

  /** The wall-clock reading of instant `t`, as milliseconds since the local epoch. */
  function LocalMillis(off: OffsetRule, t: int): int {
    t + off(t) * MINUTE_MS
  }

  /** isALocalNonUniqueTime: the offset one hour later is smaller, or the offset one hour
      earlier is larger, than the offset in force at `t`. The source evaluates both shifted
      instants on fresh copies, so the receiver is left as it was. */
  predicate IsALocalNonUniqueTime(off: OffsetRule, t: int) {
    off(t + HOUR_MS) < off(t) || off(t - HOUR_MS) > off(t)
  }

  /** What the detector reads off the wall clock: over the hour after `t`, or over the hour
      before it, the reading advances by less than an hour (the clock was set back). */
  lemma DetectorSeesClockGoBack(off: OffsetRule, t: int)
    ensures IsALocalNonUniqueTime(off, t)
        <==> (LocalMillis(off, t + HOUR_MS) - LocalMillis(off, t) < HOUR_MS
              || LocalMillis(off, t) - LocalMillis(off, t - HOUR_MS) < HOUR_MS)
  {
    var a, b, c := off(t + HOUR_MS), off(t), off(t - HOUR_MS);
    assert LocalMillis(off, t + HOUR_MS) - LocalMillis(off, t) == HOUR_MS + (a - b) * 60_000;
    assert LocalMillis(off, t) - LocalMillis(off, t - HOUR_MS) == HOUR_MS + (b - c) * 60_000;
    assert a < b <==> (a - b) * 60_000 < 0;
    assert c > b <==> (b - c) * 60_000 < 0;
  }

  /** The ambiguous instants of `off` are exactly those of [lo, hi). */
  ghost predicate AmbiguousExactly(off: OffsetRule, lo: int, hi: int) {
    forall t :: IsALocalNonUniqueTime(off, t) <==> lo <= t < hi
  }

  /** One ambiguous interval [lo, hi) seen locally: from `lo` until two hours past `hi`, an
      instant is ambiguous exactly when it lies before `hi`. Nothing is said about the rest
      of the timeline, which may hold other fall-backs. */
  ghost predicate AmbiguousWindow(off: OffsetRule, lo: int, hi: int) {
    forall t :: lo <= t < hi + 2 * HOUR_MS ==> (IsALocalNonUniqueTime(off, t) <==> t < hi)
  }

  /** A rule whose only ambiguous interval is [lo, hi) has that interval as a window. */
  lemma ExactlyGivesWindow(off: OffsetRule, lo: int, hi: int)
    requires AmbiguousExactly(off, lo, hi)
    ensures AmbiguousWindow(off, lo, hi)
  {
  }

  /** A one-hour fall-back seen from the earlier side: the reading at `t` comes back an hour later. */
  lemma FallBackRepeatsReading(off: OffsetRule, t: int)
    requires off(t + HOUR_MS) == off(t) - 60
    ensures IsALocalNonUniqueTime(off, t)
    ensures LocalMillis(off, t + HOUR_MS) == LocalMillis(off, t)
  {
  }

  // A zone with one summer period, standing in for Europe/Paris in a given year:
  // UTC+1 before `spring`, UTC+2 from `spring` until `fall`, UTC+1 from `fall` on.

  const WINTER: ZoneOffsets := ZoneOffsets(HOUR_MS, 0)
  const SUMMER: ZoneOffsets := ZoneOffsets(HOUR_MS, HOUR_MS)

  function SeasonalOffsets(spring: int, fall: int, t: int): ZoneOffsets {
    if spring <= t < fall then SUMMER else WINTER
  }

  function SeasonalRules(spring: int, fall: int): ZoneRules {
    t => SeasonalOffsets(spring, fall, t)
  }

  function SeasonalOffset(spring: int, fall: int): OffsetRule {
    OffsetRuleOf(SeasonalRules(spring, fall))
  }

  /** The offset is 60 minutes in winter and 120 minutes in summer. */
  lemma SeasonalOffsetMinutes(spring: int, fall: int, t: int)
    ensures SeasonalOffset(spring, fall)(t) == if spring <= t < fall then 120 else 60
  {
    assert TimeZoneOffset(WINTER) == 60;
    assert TimeZoneOffset(SUMMER) == 120;
  }

  /** Under one fall-back at `fall` (03:00 summer time becoming 02:00 winter time), the
      ambiguous instants are exactly the two hours [fall - 1h, fall + 1h): the first and the
      second run of local 02:00-02:59. The spring-forward gap makes no instant ambiguous. */
  lemma FallBackWindow(spring: int, fall: int)
    requires spring + 2 * HOUR_MS <= fall
    ensures AmbiguousExactly(SeasonalOffset(spring, fall), fall - HOUR_MS, fall + HOUR_MS)
  {
    var off := SeasonalOffset(spring, fall);
    forall t
      ensures IsALocalNonUniqueTime(off, t) <==> fall - HOUR_MS <= t < fall + HOUR_MS
    {
      SeasonalOffsetMinutes(spring, fall, t);
      SeasonalOffsetMinutes(spring, fall, t + HOUR_MS);
      SeasonalOffsetMinutes(spring, fall, t - HOUR_MS);
    }
  }

  // A zone with two summer periods, standing in for several years of Europe/Paris:
  // summer time over [spring1, fall1) and over [spring2, fall2), winter time elsewhere.

  function TwoSummersOffsets(spring1: int, fall1: int, spring2: int, fall2: int, t: int): ZoneOffsets {
    if spring1 <= t < fall1 || spring2 <= t < fall2 then SUMMER else WINTER
  }

  function TwoSummersOffset(spring1: int, fall1: int, spring2: int, fall2: int): OffsetRule {
    OffsetRuleOf(t => TwoSummersOffsets(spring1, fall1, spring2, fall2, t))
  }

  lemma TwoSummersOffsetMinutes(spring1: int, fall1: int, spring2: int, fall2: int, t: int)
    ensures TwoSummersOffset(spring1, fall1, spring2, fall2)(t)
         == if spring1 <= t < fall1 || spring2 <= t < fall2 then 120 else 60
  {
    assert TimeZoneOffset(WINTER) == 60;
    assert TimeZoneOffset(SUMMER) == 120;
  }

  /** Two summers far enough apart give two ambiguous intervals, one per fall-back; each is a
      window in the sense above, and no single interval covers the ambiguous instants. */
  lemma {:induction false} TwoFallBackWindows(spring1: int, fall1: int, spring2: int, fall2: int)
    requires spring1 + 2 * HOUR_MS <= fall1 && fall1 + 4 * HOUR_MS <= spring2 && spring2 + 2 * HOUR_MS <= fall2
    ensures forall t :: IsALocalNonUniqueTime(TwoSummersOffset(spring1, fall1, spring2, fall2), t)
                    <==> (fall1 - HOUR_MS <= t < fall1 + HOUR_MS || fall2 - HOUR_MS <= t < fall2 + HOUR_MS)
    ensures AmbiguousWindow(TwoSummersOffset(spring1, fall1, spring2, fall2), fall1 - HOUR_MS, fall1 + HOUR_MS)
    ensures AmbiguousWindow(TwoSummersOffset(spring1, fall1, spring2, fall2), fall2 - HOUR_MS, fall2 + HOUR_MS)
    ensures forall lo, hi :: !AmbiguousExactly(TwoSummersOffset(spring1, fall1, spring2, fall2), lo, hi)
  {
    var off := TwoSummersOffset(spring1, fall1, spring2, fall2);
    forall t
      ensures IsALocalNonUniqueTime(off, t)
          <==> (fall1 - HOUR_MS <= t < fall1 + HOUR_MS || fall2 - HOUR_MS <= t < fall2 + HOUR_MS)
    {
      TwoSummersOffsetMinutes(spring1, fall1, spring2, fall2, t);
      TwoSummersOffsetMinutes(spring1, fall1, spring2, fall2, t + HOUR_MS);
      TwoSummersOffsetMinutes(spring1, fall1, spring2, fall2, t - HOUR_MS);
    }
    forall lo, hi
      ensures !AmbiguousExactly(off, lo, hi)
    {
      // Either one of the two fall-backs is outside [lo, hi), or the unambiguous
      // instant between them is inside it.
      if fall1 - HOUR_MS < lo {
        assert IsALocalNonUniqueTime(off, fall1 - HOUR_MS);
      } else if hi <= fall2 - HOUR_MS {
        assert IsALocalNonUniqueTime(off, fall2 - HOUR_MS);
      } else {
        assert !IsALocalNonUniqueTime(off, fall1 + HOUR_MS);
      }
    }
  }

  /** Under the seasonal zone, `u` into the repeated hour reads the same on the first pass
      (summer time, `fall - 1h + u`) and on the second (winter time, `fall + u`). */
  lemma RepeatedHourPasses(spring: int, fall: int, u: int)
    requires spring + 2 * HOUR_MS <= fall && 0 <= u < HOUR_MS
    ensures SeasonalOffset(spring, fall)(fall - HOUR_MS + u) == 120
    ensures SeasonalOffset(spring, fall)(fall + u) == 60
    ensures LocalMillis(SeasonalOffset(spring, fall), fall - HOUR_MS + u)
         == LocalMillis(SeasonalOffset(spring, fall), fall + u)
  {
    SeasonalOffsetMinutes(spring, fall, fall - HOUR_MS + u);
    SeasonalOffsetMinutes(spring, fall, fall + u);
  }

  /** The detector agrees with the meaning of "non-unique": under the seasonal zone an instant
      is flagged exactly when some other instant shows the same wall-clock reading. */
  lemma {:induction false} NonUniqueMeansRepeatedReading(spring: int, fall: int, t: int)
    requires spring + 2 * HOUR_MS <= fall
    ensures IsALocalNonUniqueTime(SeasonalOffset(spring, fall), t)
        <==> exists u :: u != t && LocalMillis(SeasonalOffset(spring, fall), u) == LocalMillis(SeasonalOffset(spring, fall), t)
  {
    var off := SeasonalOffset(spring, fall);
    FallBackWindow(spring, fall);
    SeasonalOffsetMinutes(spring, fall, t);
    if IsALocalNonUniqueTime(off, t) {
      var u := if t < fall then t + HOUR_MS else t - HOUR_MS;
      SeasonalOffsetMinutes(spring, fall, u);
      assert u != t && LocalMillis(off, u) == LocalMillis(off, t);
    } else {
      assert !(fall - HOUR_MS <= t < fall + HOUR_MS);
      forall u | u != t
        ensures LocalMillis(off, u) != LocalMillis(off, t)
      {
        SeasonalOffsetMinutes(spring, fall, u);
      }
    }
  }

  // ---------------------------------------------------------------------------
  // Comparisons

  /** isSameOrAfter: equal to, or after, `date`. */
  predicate IsSameOrAfter(t: int, date: int) {
    t == date || t > date
  }

  /** isSameOrBefore: equal to, or before, `date`. */
  predicate IsSameOrBefore(t: int, date: int) {
    t == date || t < date
  }

  /** isBetween: both bounds are inclusive. */
  predicate IsBetween(t: int, start: int, end: int) {
    IsSameOrAfter(t, start) && IsSameOrBefore(t, end)
  }

  lemma IsBetweenInclusive(t: int, start: int, end: int)
    ensures IsBetween(t, start, end) <==> start <= t <= end
    ensures IsSameOrAfter(t, start) <==> IsSameOrBefore(start, t)
  {
  }

  /** min: the first argument when it is the same or before the second, else the second. */
  function Min(d1: int, d2: int): (r: int)
    ensures r == d1 || r == d2
    ensures IsSameOrBefore(r, d1) && IsSameOrBefore(r, d2)
  {
    if IsSameOrBefore(d1, d2) then d1 else d2
  }

  /** max: the first argument when it is the same or after the second, else the second. */
  function Max(d1: int, d2: int): (r: int)
    ensures r == d1 || r == d2
    ensures IsSameOrAfter(r, d1) && IsSameOrAfter(r, d2)
  {
    if IsSameOrAfter(d1, d2) then d1 else d2
  }

  lemma MinBeforeMax(d1: int, d2: int)
    ensures IsSameOrBefore(Min(d1, d2), Max(d1, d2))
    ensures Min(d1, d2) == Min(d2, d1) && Max(d1, d2) == Max(d2, d1)
  {
  }

  // ---------------------------------------------------------------------------
  // Durations to reach a later date

  /** getMillisecondsToReach */
  function MillisecondsToReach(from: int, future: int): int {
    future - from
  }

  /** getSecondsToReach: a truncating division, then the cast `(int)`. */
  function SecondsToReach(from: int, future: int): (r: int)
    ensures IsInt32(r)
    ensures IsInt32(Quot(future - from, SECOND_MS)) ==> r == Quot(future - from, SECOND_MS)
  {
    ToInt32(Quot(MillisecondsToReach(from, future), SECOND_MS))
  }

  /** getMinutesToReach */
  function MinutesToReach(from: int, future: int): int {
    Quot(SecondsToReach(from, future), 60)
  }

  /** getHoursToReach */
  function HoursToReach(from: int, future: int): int {
    Quot(MinutesToReach(from, future), 60)
  }

  /** getDaysToReach */
  function DaysToReach(from: int, future: int): int {
    Quot(HoursToReach(from, future), 24)
  }

  /** While the seconds fit in an `int`, each step of the chain is one truncating division of
      the millisecond difference; for a later date it counts the whole units elapsed. */
  lemma {:induction false} ReachChain(from: int, future: int)
    requires IsInt32(Quot(future - from, SECOND_MS))
    ensures MinutesToReach(from, future) == Quot(future - from, MINUTE_MS)
    ensures HoursToReach(from, future) == Quot(future - from, HOUR_MS)
    ensures DaysToReach(from, future) == Quot(future - from, DAY_MS)
    ensures future >= from ==>
      var d := DaysToReach(from, future);
      from + d * DAY_MS <= future < from + (d + 1) * DAY_MS
  {
    var ms := future - from;
    QuotQuot(ms, SECOND_MS, 60);
    QuotQuot(ms, MINUTE_MS, 60);
    QuotQuot(ms, HOUR_MS, 24);
  }

  /** The number of days between two dates that getDaysToReach describes: the whole days
      elapsed, counted toward zero, without any narrowing on the way. */
  function DaysBetween(from: int, future: int): (days: int)
    ensures future >= from ==> days >= 0 && from + days * DAY_MS <= future < from + (days + 1) * DAY_MS
    ensures future < from ==> days <= 0 && future <= from + days * DAY_MS < future + DAY_MS
  {
    Quot(future - from, DAY_MS)
  }

  /** As written, the cast of the seconds to `int` wraps once the difference passes 2^31
      seconds (about 68 years): seventy years of 365 days ahead give a negative day count. */
  lemma DaysToReachWrapsAfter68Years()
    ensures DaysBetween(0, 70 * 365 * DAY_MS) == 25_550
    ensures DaysToReach(0, 70 * 365 * DAY_MS) == -24_160
  {
    assert Quot(70 * 365 * DAY_MS, SECOND_MS) == 2_207_520_000;
    assert SecondsToReach(0, 70 * 365 * DAY_MS) == -2_087_447_296;
    assert MinutesToReach(0, 70 * 365 * DAY_MS) == -34_790_788;
    assert HoursToReach(0, 70 * 365 * DAY_MS) == -579_846;
  }

  // ---------------------------------------------------------------------------
  // Age

  /** The n-th anniversary of `event` is on or before `now`, comparing (year, month, day). */
  predicate AnniversaryReached(event: Fields, now: Fields, n: int) {
    var y := event.year + n;
    y < now.year
    || (y == now.year && HumanMonth(event) < HumanMonth(now))
    || (y == now.year && HumanMonth(event) == HumanMonth(now) && event.day <= now.day)
  }

  /** getAge: the difference of years, less one while the anniversary month and day are not yet reached. */
  function Age(event: Fields, now: Fields): int {
    var age := now.year - event.year;
    if HumanMonth(now) < HumanMonth(event)
       || (HumanMonth(now) == HumanMonth(event) && now.day < event.day)
    then age - 1
    else age
  }

  /** The age is the number of the last anniversary reached: that one is on or before
      `now`, the next one is after it. The anniversary day itself already counts. */
  lemma AgeIsLastAnniversary(event: Fields, now: Fields)
    ensures AnniversaryReached(event, now, Age(event, now))
    ensures !AnniversaryReached(event, now, Age(event, now) + 1)
    ensures forall n :: AnniversaryReached(event, now, n) <==> n <= Age(event, now)
  {
  }

  // ---------------------------------------------------------------------------
  // Days of the week

  /** getDayOfWeek of a day counted from 1970-01-01 (a Thursday): 1 = Sunday, ..., 7 = Saturday. */
  function DayOfWeek(day: int): (w: int)
    ensures 1 <= w <= 7
  {
    (day + 4) % 7 + 1
  }

  /** isWeekDay: neither Saturday nor Sunday. */
  predicate IsWeekDay(day: int) {
    var w := DayOfWeek(day);
    w != 7 && w != 1
  }

  /** Counting Monday as 0, a weekday is one of the first five days of the week. */
  lemma WeekDayIsMondayToFriday(day: int)
    ensures IsWeekDay(day) <==> (day + 3) % 7 < 5
    ensures DayOfWeek(day + 7) == DayOfWeek(day)
  {
  }

  /** The number of days to go forward from `day` to reach the day of week `w`. */
  function DaysUntil(day: int, w: int): int {
    (w - DayOfWeek(day)) % 7
  }

  /** The number of days to go back from `day` to reach the day of week `w`. */
  function DaysSince(day: int, w: int): int {
    (DayOfWeek(day) - w) % 7
  }

  lemma DayOfWeekNext(day: int)
    ensures DayOfWeek(day + 1) == DayOfWeek(day) % 7 + 1
  {
  }

  /** A day has day of week `w` exactly when it is a whole number of weeks from the
      `w`-day of the week of 1970-01-01. */
  lemma DayOfWeekIs(d: int, w: int)
    requires 1 <= w <= 7
    ensures DayOfWeek(d) == w <==> (d + 5 - w) % 7 == 0
  {
    var q := (d + 4) / 7;
    var r := (d + 4) % 7;
    assert d + 5 - w == 7 * q + (r + 1 - w);
    if r + 1 - w < 0 {
      ModOfShifted(q - 1, r + 8 - w);
    } else {
      ModOfShifted(q, r + 1 - w);
    }
  }

  lemma ModOfShifted(q: int, t: int)
    requires 0 <= t < 7
    ensures (7 * q + t) % 7 == t
  {
  }

  /** DaysUntil and DaysSince are residues of the day number. */
  lemma DaysUntilSinceResidues(day: int, w: int)
    requires 1 <= w <= 7
    ensures DaysUntil(day, w) == (w - day - 5) % 7
    ensures DaysSince(day, w) == (day + 5 - w) % 7
  {
    var q := (day + 4) / 7;
    var r := (day + 4) % 7;
    var q1 := (w - r - 1) / 7;
    var q2 := (r + 1 - w) / 7;
    assert w - day - 5 == 7 * (q1 - q) + (w - r - 1) % 7;
    ModOfShifted(q1 - q, (w - r - 1) % 7);
    assert day + 5 - w == 7 * (q + q2) + (r + 1 - w) % 7;
    ModOfShifted(q + q2, (r + 1 - w) % 7);
  }

  /** Going forward DaysUntil(day, w) days lands on day of week `w`, and is the least such move. */
  lemma DaysUntilReaches(day: int, w: int)
    requires 1 <= w <= 7
    ensures 0 <= DaysUntil(day, w) < 7
    ensures DayOfWeek(day + DaysUntil(day, w)) == w
    ensures DaysUntil(day, w) == 0 <==> DayOfWeek(day) == w
    ensures forall d :: day <= d < day + DaysUntil(day, w) ==> DayOfWeek(d) != w
  {
    var k := DaysUntil(day, w);
    var x := w - day - 5;
    DaysUntilSinceResidues(day, w);
    var q := x / 7;
    assert x == 7 * q + k;
    DayOfWeekIs(day + k, w);
    ModOfShifted(-q, 0);
    DayOfWeekIs(day, w);
    if k > 0 {
      ModOfShifted(-q - 1, 7 - k);
    }
    forall d | day <= d < day + k
      ensures DayOfWeek(d) != w
    {
      DayOfWeekIs(d, w);
      ModOfShifted(-q - 1, 7 - k + (d - day));
    }
  }

  /** Going back DaysSince(day, w) days lands on day of week `w`, and is the least such move. */
  lemma DaysSinceReaches(day: int, w: int)
    requires 1 <= w <= 7
    ensures 0 <= DaysSince(day, w) < 7
    ensures DayOfWeek(day - DaysSince(day, w)) == w
    ensures DaysSince(day, w) == 0 <==> DayOfWeek(day) == w
    ensures forall d :: day - DaysSince(day, w) < d <= day ==> DayOfWeek(d) != w
  {
    var k := DaysSince(day, w);
    var x := day + 5 - w;
    DaysUntilSinceResidues(day, w);
    var q := x / 7;
    assert x == 7 * q + k;
    DayOfWeekIs(day - k, w);
    ModOfShifted(q, 0);
    DayOfWeekIs(day, w);
    forall d | day - k < d <= day
      ensures DayOfWeek(d) != w
    {
      DayOfWeekIs(d, w);
      ModOfShifted(q, k - (day - d));
    }
  }

  // ---------------------------------------------------------------------------
  // Local ISO-8601 text

  /** toISO8601Local(forceMilliseconds): `base` is the platform's local date-time text, which
      leaves out zero seconds and zero milliseconds; when forced and the millisecond is zero,
      the missing parts are appended. */
  function ToISO8601Local(base: string, second: int, millisecond: int, forceMilliseconds: bool): (r: string)
    ensures !forceMilliseconds || millisecond != 0 ==> r == base
    ensures forceMilliseconds && millisecond == 0 && second != 0 ==> r == base + ".000"
    ensures forceMilliseconds && millisecond == 0 && second == 0 ==> r == base + ":00.000"
  {
    var result := base;
    if forceMilliseconds && millisecond == 0 then
      (if second == 0 then result + ":00" else result) + ".000"
    else
      result
  }

  function Digit(n: int): char
    requires 0 <= n < 10
  {
    "0123456789"[n]
  }

  function Pad2(n: int): (s: string)
    requires 0 <= n < 100
    ensures |s| == 2
  {
    [Digit(n / 10), Digit(n % 10)]
  }

  function Pad3(n: int): (s: string)
    requires 0 <= n < 1000
    ensures |s| == 3
  {
    [Digit(n / 100)] + Pad2(n % 100)
  }

  /** The platform's local time text at millisecond precision: HH:mm, then :ss unless the
      seconds and milliseconds are both zero, then .SSS unless the milliseconds are zero. */
  function LocalTimeText(hour: int, minute: int, second: int, millisecond: int): string
    requires 0 <= hour < 24 && 0 <= minute < 60 && 0 <= second < 60 && 0 <= millisecond < 1000
  {
    Pad2(hour) + ":" + Pad2(minute)
    + (if second == 0 && millisecond == 0 then ""
       else ":" + Pad2(second) + (if millisecond == 0 then "" else "." + Pad3(millisecond)))
  }

  /** The fixed-width text HH:mm:ss.SSS. */
  function FullTimeText(hour: int, minute: int, second: int, millisecond: int): (s: string)
    requires 0 <= hour < 24 && 0 <= minute < 60 && 0 <= second < 60 && 0 <= millisecond < 1000
    ensures |s| == 12
  {
    Pad2(hour) + ":" + Pad2(minute) + ":" + Pad2(second) + "." + Pad3(millisecond)
  }

  /** Forcing milliseconds always yields the fixed-width form, whatever fields were zero. */
  lemma ForcedMillisecondsAreFullWidth(date: string, hour: int, minute: int, second: int, millisecond: int)
    requires 0 <= hour < 24 && 0 <= minute < 60 && 0 <= second < 60 && 0 <= millisecond < 1000
    ensures ToISO8601Local(date + "T" + LocalTimeText(hour, minute, second, millisecond), second, millisecond, true)
         == date + "T" + FullTimeText(hour, minute, second, millisecond)
  {
    var hm := Pad2(hour) + ":" + Pad2(minute);
    if millisecond == 0 {
      assert Pad3(0) == "000";
      if second == 0 {
        assert Pad2(0) == "00";
        assert LocalTimeText(hour, minute, second, millisecond) == hm;
        assert FullTimeText(hour, minute, second, millisecond) == hm + ":00" + ".000";
      } else {
        assert LocalTimeText(hour, minute, second, millisecond) == hm + ":" + Pad2(second);
      }
    } else {
      assert LocalTimeText(hour, minute, second, millisecond) == hm + ":" + Pad2(second) + "." + Pad3(millisecond);
    }
  }
}
