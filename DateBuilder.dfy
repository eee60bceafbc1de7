/** The mutable side of the library. The source keeps one platform calendar per builder and
    edits it in place; this model keeps three views of that calendar, because the Gregorian
    conversion between them is not modelled:
    - DateBuilder: the instant (milliseconds since the epoch) under the zone rules, for the
      absolute additions and the search for a unique local time;
    - DayBuilder: the local day counted from 1970-01-01, for the day-of-week moves;
    - FieldsBuilder (module CalendarFields): the calendar fields, for the setters, the trims
      and the field constructors. */
module DateBuilder {
  import opened JavaInt
  import opened DateConstant

  // ---------------------------------------------------------------------------
  // Choosing the ISO-8601 parser

  datatype Iso8601Parser = WithTimeZone | InLocalDateTime

  predicate IsAsciiDigit(c: char) {
    '0' <= c <= '9'
  }

  /** The characters the regular-expression dot does not match. */
  predicate IsLineTerminator(c: char) {
    c == '\n' || c == '\r' || c == '\U{85}' || c == '\U{2028}' || c == '\U{2029}'
  }

  predicate NoLineTerminator(s: string) {
    forall i :: 0 <= i < |s| ==> !IsLineTerminator(s[i])
  }

  /** A zone suffix: `Z`, or a sign, two digits, a colon and two digits. */
  predicate IsZoneSuffix(s: string) {
    s == "Z"
    || (|s| == 6 && (s[0] == '+' || s[0] == '-') && IsAsciiDigit(s[1]) && IsAsciiDigit(s[2])
        && s[3] == ':' && IsAsciiDigit(s[4]) && IsAsciiDigit(s[5]))
  }

  /** The whole string matches `.*(([+-]\d\d:\d\d)|Z)$`: a prefix free of line terminators,
      then a zone suffix. */
  ghost predicate MatchesZonePattern(s: string) {
    exists i :: 0 <= i <= |s| && NoLineTerminator(s[..i]) && IsZoneSuffix(s[i..])
  }

  /** iso8601: the parser the string is handed to, chosen by its ending. */
  function Iso8601Dispatch(dateString: string): (parser: Iso8601Parser)
    ensures parser == WithTimeZone ==>
      |dateString| >= 1 && (dateString[|dateString| - 1] == 'Z' || IsAsciiDigit(dateString[|dateString| - 1]))
  {
    var n := |dateString|;
    if (n >= 1 && NoLineTerminator(dateString[..n - 1]) && IsZoneSuffix(dateString[n - 1..]))
       || (n >= 6 && NoLineTerminator(dateString[..n - 6]) && IsZoneSuffix(dateString[n - 6..]))
    then WithTimeZone
    else InLocalDateTime
  }

  /** The zoned parser is chosen exactly when the string matches the zone pattern. */
  lemma {:induction false} Iso8601DispatchMatchesPattern(dateString: string)
    ensures Iso8601Dispatch(dateString) == WithTimeZone <==> MatchesZonePattern(dateString)
  {
    var n := |dateString|;
    if MatchesZonePattern(dateString) {
      var i :| 0 <= i <= n && NoLineTerminator(dateString[..i]) && IsZoneSuffix(dateString[i..]);
      assert |dateString[i..]| == 1 || |dateString[i..]| == 6;
    }
    if Iso8601Dispatch(dateString) == WithTimeZone {
      if n >= 1 && NoLineTerminator(dateString[..n - 1]) && IsZoneSuffix(dateString[n - 1..]) {
        assert 0 <= n - 1 <= n;
      } else {
        assert 0 <= n - 6 <= n;
      }
    }
  }

  /** Any text free of line terminators followed by a zone suffix goes to the zoned parser. */
  lemma ZonedSuffixDispatch(date: string, suffix: string)
    requires NoLineTerminator(date) && IsZoneSuffix(suffix)
    ensures Iso8601Dispatch(date + suffix) == WithTimeZone
  {
    var s := date + suffix;
    assert s[..|date|] == date && s[|date|..] == suffix;
  }

  /** The suffixes the library's tests use: after any text free of line terminators, `Z`,
      `+01:00`, `-01:00` and `+02:00` take the zoned parser. */
  lemma Iso8601DispatchZonedExamples(date: string)
    requires NoLineTerminator(date)
    ensures Iso8601Dispatch(date + "Z") == WithTimeZone
    ensures Iso8601Dispatch(date + "+01:00") == WithTimeZone
    ensures Iso8601Dispatch(date + "-01:00") == WithTimeZone
    ensures Iso8601Dispatch(date + "+02:00") == WithTimeZone
  {
    ZonedSuffixDispatch(date, "Z");
    ZonedSuffixDispatch(date, "+01:00");
    ZonedSuffixDispatch(date, "-01:00");
    ZonedSuffixDispatch(date, "+02:00");
  }

  /** `+0100`, without the colon, is no zone suffix for the pattern, whatever precedes it;
      nor is the end of a bare local date-time. */
  lemma Iso8601DispatchLocalExamples(date: string)
    ensures Iso8601Dispatch(date + "+0100") == InLocalDateTime
    ensures Iso8601Dispatch("2017-02-13T09:08:43") == InLocalDateTime
  {
    var s := date + "+0100";
    var n := |s|;
    assert s[n - 1..] == "0";
    if n >= 6 {
      assert s[n - 6..][1] == '+';
    }
    assert !IsZoneSuffix("2017-02-13T09:08:43"[19 - 6..]);
    assert !IsZoneSuffix("2017-02-13T09:08:43"[19 - 1..]);
  }

  // ---------------------------------------------------------------------------
  // Moving to a unique local time

  /** The first instant at or after `hi` that lies on the minute grid of `s`
      (`s` plus a whole number of minutes); `hi` itself when `hi - s` is whole minutes. */
  function GridCeil(s: int, hi: int): (c: int)
    ensures hi <= c < hi + MINUTE_MS
    ensures (c - s) % MINUTE_MS == 0
  {
    hi + (s - hi) % MINUTE_MS
  }

  lemma WholeMinutesApart(s: int, j: int)
    ensures (s + j * MINUTE_MS - s) % MINUTE_MS == 0
  {
    assert s + j * MINUTE_MS - s == j * MINUTE_MS;
  }

  /** A point of the grid of `s` before `hi` is at least a minute before GridCeil(s, hi);
      one at or after `hi` is at or after GridCeil(s, hi). */
  lemma GridCeilBounds(s: int, hi: int, k: int)
    ensures s + k * MINUTE_MS < hi ==> s + k * MINUTE_MS + MINUTE_MS <= GridCeil(s, hi)
    ensures s + k * MINUTE_MS >= hi ==> s + k * MINUTE_MS >= GridCeil(s, hi)
  {
    var j := -((s - hi) / MINUTE_MS);
    assert GridCeil(s, hi) == s + j * MINUTE_MS;
    if s + k * MINUTE_MS < hi {
      assert k < j;
    } else {
      assert k > j - 1;
    }
  }

  /** Inside an ambiguous window [lo, hi) holding `s`, an ambiguous point of the grid of `s`
      at or after `s`, and less than two hours past `hi`, is at least a minute before
      GridCeil(s, hi). */
  lemma AmbiguousBeforeGridCeil(off: OffsetRule, lo: int, hi: int, s: int, j: int)
    requires AmbiguousWindow(off, lo, hi) && lo <= s < hi && 0 <= j
    requires s + j * MINUTE_MS < hi + 2 * HOUR_MS
    requires IsALocalNonUniqueTime(off, s + j * MINUTE_MS)
    ensures s + j * MINUTE_MS + MINUTE_MS <= GridCeil(s, hi)
  {
    GridCeilBounds(s, hi, j);
  }

  /** ... and an unambiguous one is at or after GridCeil(s, hi). */
  lemma UnambiguousFromGridCeil(off: OffsetRule, lo: int, hi: int, s: int, j: int)
    requires AmbiguousWindow(off, lo, hi) && lo <= s < hi && 0 <= j
    requires !IsALocalNonUniqueTime(off, s + j * MINUTE_MS)
    ensures s + j * MINUTE_MS >= GridCeil(s, hi)
  {
    GridCeilBounds(s, hi, j);
  }

  /** In every ambiguous window [lo, hi) that holds `s`, `x` is at most GridCeil(s, hi). */
  ghost predicate AtMostGridCeil(off: OffsetRule, s: int, x: int) {
    forall lo, hi :: AmbiguousWindow(off, lo, hi) && lo <= s < hi ==> x <= GridCeil(s, hi)
  }

  /** x is where every ambiguous window holding s hands over: its grid ceiling. */
  ghost predicate LandsOnGridCeil(off: OffsetRule, s: int, x: int) {
    forall lo, hi :: AmbiguousWindow(off, lo, hi) && lo <= s < hi ==> x == GridCeil(s, hi)
  }

  /** An ambiguous grid point, and the one a minute past it, are at most GridCeil, provided
      the point is within reach of the coarse probe or already known to be at most GridCeil. */
  lemma ForwardScanStep(off: OffsetRule, s: int, j: int)
    requires 0 <= j && IsALocalNonUniqueTime(off, s + j * MINUTE_MS)
    requires j <= 115 || AtMostGridCeil(off, s, s + j * MINUTE_MS)
    ensures AtMostGridCeil(off, s, s + j * MINUTE_MS)
    ensures AtMostGridCeil(off, s, s + (j + 1) * MINUTE_MS)
  {
    forall lo, hi | AmbiguousWindow(off, lo, hi) && lo <= s < hi
      ensures s + (j + 1) * MINUTE_MS <= GridCeil(s, hi)
    {
      AmbiguousBeforeGridCeil(off, lo, hi, s, j);
    }
  }

  /** The forward scan stops exactly at GridCeil. */
  lemma ForwardScanStop(off: OffsetRule, s: int, j: int)
    requires 0 <= j && AtMostGridCeil(off, s, s + j * MINUTE_MS)
    requires !IsALocalNonUniqueTime(off, s + j * MINUTE_MS)
    ensures LandsOnGridCeil(off, s, s + j * MINUTE_MS)
  {
    forall lo, hi | AmbiguousWindow(off, lo, hi) && lo <= s < hi
      ensures s + j * MINUTE_MS == GridCeil(s, hi)
    {
      UnambiguousFromGridCeil(off, lo, hi, s, j);
    }
  }

  /** The minutes the coarse probe of moveToNextLocalUniqueTime moves away from an ambiguous
      start `s`: 60 minutes, then 40, 10 and 5 minutes forward while still ambiguous, back otherwise. */
  function CoarseProbeMinutes(off: OffsetRule, s: int): (m: int)
    ensures m in {5, 15, 25, 35, 85, 95, 105, 115}
  {
    ProbeNext(off, s, ProbeNext(off, s, ProbeNext(off, s, 60, 40), 10), 5)
  }

  /** One coarse step: from `m` minutes after `s`, `d` minutes further while still ambiguous,
      `d` minutes back otherwise. */
  function ProbeNext(off: OffsetRule, s: int, m: int, d: int): int {
    if IsALocalNonUniqueTime(off, s + m * MINUTE_MS) then m + d else m - d
  }

  /** In every ambiguous window [lo, hi) that holds `s`, `x` is at least GridCeil(s, hi). */
  ghost predicate AtLeastGridCeil(off: OffsetRule, s: int, x: int) {
    forall lo, hi :: AmbiguousWindow(off, lo, hi) && lo <= s < hi ==> x >= GridCeil(s, hi)
  }

  lemma BackwardScanStep(off: OffsetRule, s: int, j: int)
    requires 0 <= j && !IsALocalNonUniqueTime(off, s + j * MINUTE_MS)
    ensures AtLeastGridCeil(off, s, s + j * MINUTE_MS)
    ensures AtLeastGridCeil(off, s, s + (j + 1) * MINUTE_MS)
  {
    forall lo, hi | AmbiguousWindow(off, lo, hi) && lo <= s < hi
      ensures s + j * MINUTE_MS >= GridCeil(s, hi)
    {
      UnambiguousFromGridCeil(off, lo, hi, s, j);
    }
  }

  lemma BackwardScanStop(off: OffsetRule, s: int, j: int)
    requires 0 <= j <= 115 && AtLeastGridCeil(off, s, s + (j + 1) * MINUTE_MS)
    requires IsALocalNonUniqueTime(off, s + j * MINUTE_MS)
    ensures LandsOnGridCeil(off, s, s + (j + 1) * MINUTE_MS)
  {
    forall lo, hi | AmbiguousWindow(off, lo, hi) && lo <= s < hi
      ensures s + (j + 1) * MINUTE_MS == GridCeil(s, hi)
    {
      AmbiguousBeforeGridCeil(off, lo, hi, s, j);
    }
  }

  /** The condition under which moveToNextLocalUniqueTime returns from an ambiguous start `s`:
      when the coarse probe ends on an ambiguous instant, the forward minute scan from there
      meets an unambiguous minute of the grid of `s`. */
  ghost predicate ForwardScanEnds(off: OffsetRule, s: int) {
    var k := CoarseProbeMinutes(off, s);
    IsALocalNonUniqueTime(off, s + k * MINUTE_MS) ==>
      exists n :: n >= k && !IsALocalNonUniqueTime(off, s + n * MINUTE_MS)
  }

  /** Names the unambiguous minute that ForwardScanEnds promises. */
  lemma ScanEndAfterProbe(off: OffsetRule, s: int) returns (n: int)
    requires ForwardScanEnds(off, s)
    requires IsALocalNonUniqueTime(off, s + CoarseProbeMinutes(off, s) * MINUTE_MS)
    ensures n >= CoarseProbeMinutes(off, s) && !IsALocalNonUniqueTime(off, s + n * MINUTE_MS)
  {
    n :| n >= CoarseProbeMinutes(off, s) && !IsALocalNonUniqueTime(off, s + n * MINUTE_MS);
  }

  /** A builder's instant, interpreted against the zone rules of the ambient time zone. */
  class DateBuilder {
    var millis: int
    const off: OffsetRule

    /** milliseconds(milliseconds) */
    constructor Milliseconds(off: OffsetRule, milliseconds: int)
      ensures this.off == off && millis == milliseconds
    {
      this.off := off;
      millis := milliseconds;
    }

    /** builder(): a fresh copy on the same instant. */
    method Builder() returns (copy: DateBuilder)
      ensures fresh(copy) && copy.off == off && copy.millis == millis
    {
      copy := new DateBuilder.Milliseconds(off, millis);
    }

    /** isALocalNonUniqueTime, computed as the source does: two fresh copies are moved one
        hour on and one hour back, and getTimeZoneOffset of each is compared with the offset
        here. The receiver is not changed. */
    method DetectNonUniqueTime() returns (nonUnique: bool)
      ensures nonUnique == IsALocalNonUniqueTime(off, millis)
    {
      var later := Builder();
      later.AddHours(1);
      var earlier := Builder();
      earlier.AddHours(-1);
      nonUnique := later.off(later.millis) < off(millis) || earlier.off(earlier.millis) > off(millis);
    }

    /** addHours: a whole number of hours of elapsed time, whatever the offsets do. */
    method AddHours(count: int)
      modifies this
      ensures millis == old(millis) + count * HOUR_MS
    {
      millis := millis + count * HOUR_MS;
    }

    /** addMinutes */
    method AddMinutes(count: int)
      modifies this
      ensures millis == old(millis) + count * MINUTE_MS
    {
      millis := millis + count * MINUTE_MS;
    }

    /** addSeconds */
    method AddSeconds(count: int)
      modifies this
      ensures millis == old(millis) + count * SECOND_MS
    {
      millis := millis + count * SECOND_MS;
    }

    /** addDuration: the whole seconds of the duration, cast to `int`; milliseconds dropped. */
    method AddDuration(durationSeconds: int)
      modifies this
      ensures millis == old(millis) + ToInt32(durationSeconds) * SECOND_MS
      ensures IsInt32(durationSeconds) ==> millis == old(millis) + durationSeconds * SECOND_MS
    {
      AddSeconds(ToInt32(durationSeconds));
    }

    /** moveToNextLocalUniqueTime: an unambiguous instant is left as it is; from an ambiguous
        one, a coarse probe followed by a minute-by-minute scan reaches an unambiguous instant
        later on the same minute grid. When the start lies in an ambiguous window [lo, hi)
        (the instants from lo until two hours past hi are ambiguous exactly before hi), the
        result is the first instant of the start's minute grid at or after hi: hi itself for a
        start a whole number of minutes before hi. */
    method MoveToNextLocalUniqueTime()
      requires IsALocalNonUniqueTime(off, millis) ==> ForwardScanEnds(off, millis)
      modifies this
      ensures !IsALocalNonUniqueTime(off, old(millis)) ==> millis == old(millis)
      ensures !IsALocalNonUniqueTime(off, millis)
      ensures IsALocalNonUniqueTime(off, old(millis)) ==> old(millis) < millis
      ensures (millis - old(millis)) % MINUTE_MS == 0
      ensures forall lo, hi :: AmbiguousWindow(off, lo, hi) && lo <= old(millis) < hi
                ==> millis == GridCeil(old(millis), hi)
    {
      if IsALocalNonUniqueTime(off, millis) {
        ghost var s := millis;
        ProbeCoarsely();
        ghost var k := CoarseProbeMinutes(off, s);
        if IsALocalNonUniqueTime(off, millis) {
          ghost var n := ScanEndAfterProbe(off, s);
          ScanForward(s, k, n);
        } else {
          ScanBackward(s, k);
        }
      }
    }

    /** The four coarse steps: 60 minutes on, then 40, 10 and 5 minutes on while the instant
        reached is still ambiguous, back otherwise. */
    method ProbeCoarsely()
      modifies this
      ensures millis == old(millis) + CoarseProbeMinutes(off, old(millis)) * MINUTE_MS
    {
      ghost var s := millis;
      AddMinutes(60);
      ProbeStep(s, 60, 40);
      ProbeStep(s, ProbeNext(off, s, 60, 40), 10);
      ProbeStep(s, ProbeNext(off, s, ProbeNext(off, s, 60, 40), 10), 5);
    }

    /** One coarse step, `m` minutes after `s`: `d` minutes on while the instant is ambiguous,
        `d` minutes back otherwise. */
    method ProbeStep(ghost s: int, ghost m: int, d: int)
      requires millis == s + m * MINUTE_MS
      modifies this
      ensures millis == s + ProbeNext(off, s, m, d) * MINUTE_MS
    {
      if IsALocalNonUniqueTime(off, millis) {
        AddMinutes(d);
      } else {
        AddMinutes(-d);
      }
    }

    /** The forward minute scan, from an ambiguous instant k minutes after the ambiguous start s. */
    method ScanForward(ghost s: int, ghost k: int, ghost n: int)
      requires IsALocalNonUniqueTime(off, s)
      requires 0 < k <= 115 && k <= n && !IsALocalNonUniqueTime(off, s + n * MINUTE_MS)
      requires millis == s + k * MINUTE_MS && IsALocalNonUniqueTime(off, millis)
      modifies this
      ensures !IsALocalNonUniqueTime(off, millis)
      ensures s < millis && (millis - s) % MINUTE_MS == 0
      ensures LandsOnGridCeil(off, s, millis)
    {
      ghost var j := k;
      ForwardScanStep(off, s, j);
      while IsALocalNonUniqueTime(off, millis)
        invariant millis == s + j * MINUTE_MS && k <= j <= n
        invariant AtMostGridCeil(off, s, millis)
        decreases n - j
      {
        ForwardScanStep(off, s, j);
        AddMinutes(1);
        j := j + 1;
      }
      ForwardScanStop(off, s, j);
      WholeMinutesApart(s, j);
    }

    /** The backward minute scan, from an unambiguous instant k minutes after the ambiguous
        start s, down to the first ambiguous minute, then one minute back up. */
    method ScanBackward(ghost s: int, ghost k: int)
      requires IsALocalNonUniqueTime(off, s)
      requires 0 < k <= 115 && millis == s + k * MINUTE_MS && !IsALocalNonUniqueTime(off, millis)
      modifies this
      ensures !IsALocalNonUniqueTime(off, millis)
      ensures s < millis && (millis - s) % MINUTE_MS == 0
      ensures LandsOnGridCeil(off, s, millis)
    {
      ghost var j := ScanBackToAmbiguous(s, k);
      BackwardScanStop(off, s, j);
      AddMinutes(1);
      WholeMinutesApart(s, j + 1);
    }

    /** The loop of the backward scan: one minute back at a time while unambiguous. It stops
        j minutes after s, on an ambiguous instant right before an unambiguous one. */
    method ScanBackToAmbiguous(ghost s: int, ghost k: int) returns (ghost j: int)
      requires IsALocalNonUniqueTime(off, s)
      requires 0 < k <= 115 && millis == s + k * MINUTE_MS && !IsALocalNonUniqueTime(off, millis)
      modifies this
      ensures 0 <= j < k && millis == s + j * MINUTE_MS && IsALocalNonUniqueTime(off, millis)
      ensures !IsALocalNonUniqueTime(off, s + (j + 1) * MINUTE_MS)
      ensures AtLeastGridCeil(off, s, s + (j + 1) * MINUTE_MS)
    {
      j := k;
      BackwardScanStep(off, s, j);
      while !IsALocalNonUniqueTime(off, millis)
        invariant millis == s + j * MINUTE_MS && 0 <= j <= k
        invariant j < k ==> !IsALocalNonUniqueTime(off, millis + MINUTE_MS)
        invariant AtLeastGridCeil(off, s, millis + MINUTE_MS)
        decreases j
      {
        BackwardScanStep(off, s, j);
        AddMinutes(-1);
        j := j - 1;
      }
    }
  }

  /** From any start in an ambiguous window the forward minute scan ends: the grid ceiling
      of the window's end is unambiguous and lies past the probe's last ambiguous instant. */
  lemma WindowIsCrossed(off: OffsetRule, lo: int, hi: int, t: int)
    requires AmbiguousWindow(off, lo, hi) && lo <= t < hi
    ensures ForwardScanEnds(off, t)
  {
    var k := CoarseProbeMinutes(off, t);
    if IsALocalNonUniqueTime(off, t + k * MINUTE_MS) {
      var n := -((t - hi) / MINUTE_MS);
      assert GridCeil(t, hi) == t + n * MINUTE_MS;
      AmbiguousBeforeGridCeil(off, lo, hi, t, k);
      assert n >= k && !IsALocalNonUniqueTime(off, t + n * MINUTE_MS);
    }
  }

  /** As written, the search keeps the start's seconds and milliseconds: from 89 min 45 s or
      29 min 45 s before the end `hi` of a window (around a one-hour fall-back, the first and
      the second 02:30:15 local) it lands 15 s past `hi`, though `hi` is already a unique
      local time. */
  lemma GridCeilOvershootsWindowEnd(off: OffsetRule, lo: int, hi: int)
    requires AmbiguousWindow(off, lo, hi) && lo <= hi - 90 * MINUTE_MS + 15_000
    ensures GridCeil(hi - 90 * MINUTE_MS + 15_000, hi) == hi + 15_000
    ensures GridCeil(hi - 30 * MINUTE_MS + 15_000, hi) == hi + 15_000
    ensures !IsALocalNonUniqueTime(off, hi)
  {
    assert hi - 90 * MINUTE_MS + 15_000 - hi == -90 * MINUTE_MS + 15_000;
    assert hi - 30 * MINUTE_MS + 15_000 - hi == -30 * MINUTE_MS + 15_000;
  }

  /** The next unique local time, as the description of moveToNextLocalUniqueTime promises it:
      from a start in a window [lo, hi), every instant before `hi` is ambiguous and `hi` is not. */
  lemma WindowEndIsNextUniqueTime(off: OffsetRule, lo: int, hi: int, s: int)
    requires AmbiguousWindow(off, lo, hi) && lo <= s < hi
    ensures !IsALocalNonUniqueTime(off, hi)
    ensures forall t :: s <= t < hi ==> IsALocalNonUniqueTime(off, t)
  {
  }

  /** moveToNextLocalUniqueTime from an unambiguous `start`: the instant stays. */
  method StayOnUniqueTime(off: OffsetRule, start: int) returns (r: int)
    requires !IsALocalNonUniqueTime(off, start)
    ensures r == start
  {
    var date := new DateBuilder.Milliseconds(off, start);
    date.MoveToNextLocalUniqueTime();
    r := date.millis;
  }

  /** moveToNextLocalUniqueTime from `start` inside an ambiguous window [lo, hi): the start
      moves to its grid ceiling of hi, whatever other fall-backs the zone has elsewhere. */
  method MoveAcrossWindow(off: OffsetRule, lo: int, hi: int, start: int) returns (r: int)
    requires AmbiguousWindow(off, lo, hi) && lo <= start < hi
    ensures r == GridCeil(start, hi)
  {
    WindowIsCrossed(off, lo, hi, start);
    var date := new DateBuilder.Milliseconds(off, start);
    date.MoveToNextLocalUniqueTime();
    r := date.millis;
  }

  /** moveToNextLocalUniqueTime in a zone with one summer-time period [spring, fall): an
      instant of the repeated hour on either side of the fall-back moves to the first instant of
      its minute grid from the end of the repeated hour on, the end itself when the start is a
      whole number of minutes before it, and every other instant stays. */
  method MoveInSeasonalZone(spring: int, fall: int, start: int) returns (r: int)
    requires spring + 2 * HOUR_MS <= fall
    ensures r == if fall - HOUR_MS <= start < fall + HOUR_MS then GridCeil(start, fall + HOUR_MS)
                 else start
    ensures fall - HOUR_MS <= start < fall + HOUR_MS && start % MINUTE_MS == fall % MINUTE_MS
            ==> r == fall + HOUR_MS
  {
    var off := SeasonalOffset(spring, fall);
    FallBackWindow(spring, fall);
    if fall - HOUR_MS <= start < fall + HOUR_MS {
      ExactlyGivesWindow(off, fall - HOUR_MS, fall + HOUR_MS);
      r := MoveAcrossWindow(off, fall - HOUR_MS, fall + HOUR_MS, start);
    } else {
      r := StayOnUniqueTime(off, start);
    }
  }

  /** moveToNextLocalUniqueTime in a zone with two summers, so two fall-backs: a start in
      either repeated hour moves to its grid ceiling of the end of that hour, and every other
      start stays. */
  method MoveInTwoSummerZone(spring1: int, fall1: int, spring2: int, fall2: int, start: int)
      returns (r: int)
    requires spring1 + 2 * HOUR_MS <= fall1 && fall1 + 4 * HOUR_MS <= spring2
    requires spring2 + 2 * HOUR_MS <= fall2
    ensures r == if fall1 - HOUR_MS <= start < fall1 + HOUR_MS then GridCeil(start, fall1 + HOUR_MS)
                 else if fall2 - HOUR_MS <= start < fall2 + HOUR_MS then GridCeil(start, fall2 + HOUR_MS)
                 else start
  {
    var off := TwoSummersOffset(spring1, fall1, spring2, fall2);
    TwoFallBackWindows(spring1, fall1, spring2, fall2);
    if fall1 - HOUR_MS <= start < fall1 + HOUR_MS {
      r := MoveAcrossWindow(off, fall1 - HOUR_MS, fall1 + HOUR_MS, start);
    } else if fall2 - HOUR_MS <= start < fall2 + HOUR_MS {
      r := MoveAcrossWindow(off, fall2 - HOUR_MS, fall2 + HOUR_MS, start);
    } else {
      r := StayOnUniqueTime(off, start);
    }
  }

  /** The day view of the builder: the calendar reduced to its day, counted in days since
      1970-01-01 in the builder's zone, which is all the day-of-week moves read and change. */
  class DayBuilder {
    var day: int

    constructor (day: int)
      ensures this.day == day
    {
      this.day := day;
    }

    /** addDays: a negative count goes back in time. */
    method AddDays(count: int)
      modifies this
      ensures day == old(day) + count
    {
      day := day + count;
    }

    /** Steps one day forward until the day of week is `dayOfWeek` (1 = Sunday ... 7 = Saturday),
        staying put when it already is. */
    method MoveToNextDayOfWeek(dayOfWeek: int)
      requires 1 <= dayOfWeek <= 7
      modifies this
      ensures day == old(day) + DaysUntil(old(day), dayOfWeek)
      ensures DayOfWeek(day) == dayOfWeek
      ensures forall d :: old(day) <= d < day ==> DayOfWeek(d) != dayOfWeek
    {
      ghost var start := day;
      DaysUntilReaches(start, dayOfWeek);
      while DayOfWeek(day) != dayOfWeek
        invariant start <= day <= start + DaysUntil(start, dayOfWeek)
        decreases start + DaysUntil(start, dayOfWeek) - day
      {
        AddDays(1);
      }
    }

    /** Steps one day back until the day of week is `dayOfWeek`, staying put when it already is. */
    method MoveToPreviousDayOfWeek(dayOfWeek: int)
      requires 1 <= dayOfWeek <= 7
      modifies this
      ensures day == old(day) - DaysSince(old(day), dayOfWeek)
      ensures DayOfWeek(day) == dayOfWeek
      ensures forall d :: day < d <= old(day) ==> DayOfWeek(d) != dayOfWeek
    {
      ghost var start := day;
      DaysSinceReaches(start, dayOfWeek);
      while DayOfWeek(day) != dayOfWeek
        invariant start - DaysSince(start, dayOfWeek) <= day <= start
        decreases day - (start - DaysSince(start, dayOfWeek))
      {
        AddDays(-1);
      }
    }
  }
}
