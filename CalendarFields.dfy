/** The calendar-field view of a builder (the setters, the trims and the constructors from
    fields), with the trims also given as functions on the fields they leave. */
module CalendarFields {
  import opened DateConstant

  // ---------------------------------------------------------------------------
  // Trims, as the calendar fields they leave

  /** Date from 1970-01-01, hour, minute and second kept, millisecond cleared. */
  function TrimmedToTime(f: Fields): Fields {
    f.(year := 1970, month := 0, day := 1, millisecond := 0)
  }

  /** Midnight on the first day of January of the same year. */
  function TrimmedToYear(f: Fields): Fields {
    Fields(f.year, 0, 1, 0, 0, 0, 0)
  }

  /** Midnight on the first day of the same month. */
  function TrimmedToMonth(f: Fields): Fields {
    Fields(f.year, f.month, 1, 0, 0, 0, 0)
  }

  /** Midnight of the same day. */
  function TrimmedToDay(f: Fields): Fields {
    Fields(f.year, f.month, f.day, 0, 0, 0, 0)
  }

  function TrimmedToHour(f: Fields): Fields {
    f.(minute := 0, second := 0, millisecond := 0)
  }

  function TrimmedToMinute(f: Fields): Fields {
    f.(second := 0, millisecond := 0)
  }

  function TrimmedToSecond(f: Fields): Fields {
    f.(millisecond := 0)
  }

  /** dateTime(date, time): the day of `date` with the hour, minute and second of `time`. */
  function CombineDateAndTime(date: Fields, time: Fields): Fields {
    date.(hour := time.hour, minute := time.minute, second := time.second)
  }

  /** Each trim keeps the fields coarser than its unit, clears the finer ones, and is idempotent. */
  lemma TrimsKeepCoarserFields(f: Fields)
    ensures var d := TrimmedToDay(f);
      d.year == f.year && HumanMonth(d) == HumanMonth(f) && d.day == f.day
      && d.hour == 0 && d.minute == 0 && d.second == 0 && d.millisecond == 0 && IsMorning(d)
    ensures TrimmedToMonth(f) == TrimmedToDay(f.(day := 1))
    ensures TrimmedToYear(f) == TrimmedToMonth(f).(month := 0) && HumanMonth(TrimmedToYear(f)) == 1
    ensures TrimmedToMinute(f) == f.(second := 0, millisecond := 0)
    ensures var t := TrimmedToTime(f);
      t.hour == f.hour && t.minute == f.minute && t.second == f.second && t.millisecond == 0
      && t.year == 1970 && t.month == 0 && t.day == 1
    ensures TrimmedToTime(TrimmedToTime(f)) == TrimmedToTime(f)
    ensures TrimmedToYear(TrimmedToYear(f)) == TrimmedToYear(f)
    ensures TrimmedToMonth(TrimmedToMonth(f)) == TrimmedToMonth(f)
    ensures TrimmedToDay(TrimmedToDay(f)) == TrimmedToDay(f)
    ensures TrimmedToHour(TrimmedToHour(f)) == TrimmedToHour(f)
    ensures TrimmedToMinute(TrimmedToMinute(f)) == TrimmedToMinute(f)
    ensures TrimmedToSecond(TrimmedToSecond(f)) == TrimmedToSecond(f)
  {
  }

  /** Splitting a reading into its day and its time of day and combining them again loses
      only the millisecond. */
  lemma DayAndTimeRecombine(f: Fields)
    ensures CombineDateAndTime(TrimmedToDay(f), TrimmedToTime(f)) == TrimmedToSecond(f)
  {
  }

  /** isMorning reads the hour alone: the trims below the hour keep it, the trims to the day,
      the month and the year (midnight) make it true, and a new hour decides it. */
  lemma MorningUnderTrims(f: Fields, hour: int)
    ensures IsMorning(TrimmedToHour(f)) == IsMorning(f)
    ensures IsMorning(TrimmedToMinute(f)) == IsMorning(f)
    ensures IsMorning(TrimmedToSecond(f)) == IsMorning(f)
    ensures IsMorning(TrimmedToTime(f)) == IsMorning(f)
    ensures IsMorning(TrimmedToDay(f)) && IsMorning(TrimmedToMonth(f)) && IsMorning(TrimmedToYear(f))
    ensures IsMorning(f.(hour := hour)) <==> hour < 12
  {
  }

  // ---------------------------------------------------------------------------
  // The builder over calendar fields

  /** The calendar fields of a builder. Setters store the value given; the platform calendar's
      lenient normalisation of out-of-range values is not modelled. */
  class FieldsBuilder {
    var fields: Fields

    /** date(year, month, dayOfMonth): the month is given from 1; time of day cleared. */
    constructor Date(year: int, month: int, dayOfMonth: int)
      ensures fields == Fields(year, month - 1, dayOfMonth, 0, 0, 0, 0)
      ensures HumanMonth(fields) == month
    {
      fields := Fields(year, month - 1, dayOfMonth, 0, 0, 0, 0);
      new;
      TrimToDay();
    }

    /** dateTime(year, month, dayOfMonth, hour, minute) */
    constructor DateTime(year: int, month: int, dayOfMonth: int, hour: int, minute: int)
      ensures fields == Fields(year, month - 1, dayOfMonth, hour, minute, 0, 0)
    {
      fields := Fields(year, month - 1, dayOfMonth, 0, 0, 0, 0);
      new;
      SetHour(hour);
      SetMinute(minute);
    }

    /** dateTime(year, month, dayOfMonth, hour, minute, second) */
    constructor DateTimeSeconds(year: int, month: int, dayOfMonth: int, hour: int, minute: int,
                                second: int)
      ensures fields == Fields(year, month - 1, dayOfMonth, hour, minute, second, 0)
    {
      fields := Fields(year, month - 1, dayOfMonth, 0, 0, 0, 0);
      new;
      SetHour(hour);
      SetMinute(minute);
      SetSecond(second);
    }

    /** dateTime(year, month, dayOfMonth, hour, minute, second, millisecond) */
    constructor DateTimeMillis(year: int, month: int, dayOfMonth: int, hour: int, minute: int,
                               second: int, millisecond: int)
      ensures fields == Fields(year, month - 1, dayOfMonth, hour, minute, second, millisecond)
    {
      fields := Fields(year, month - 1, dayOfMonth, 0, 0, 0, 0);
      new;
      SetHour(hour);
      SetMinute(minute);
      SetSecond(second);
      SetMillisecond(millisecond);
    }

    /** time(hours, minutes, seconds): a time of day on 1970-01-01. */
    constructor Time(hours: int, minutes: int, seconds: int)
      ensures fields == Fields(1970, 0, 1, hours, minutes, seconds, 0)
    {
      fields := Fields(1970, 0, 1, hours, minutes, seconds, 0);
    }

    /** dateTime(date, time): the day of `date` with the hour, minute and second of `time`. */
    constructor DateAndTime(date: Fields, time: Fields)
      ensures fields == CombineDateAndTime(date, time)
    {
      fields := date;
      new;
      SetHour(time.hour);
      SetMinute(time.minute);
      SetSecond(time.second);
    }

    method TrimToTime()
      modifies this
      ensures fields == TrimmedToTime(old(fields))
    {
      fields := fields.(year := 1970);
      fields := fields.(month := 0);
      fields := fields.(day := 1);
      fields := fields.(millisecond := 0);
    }

    method TrimToYear()
      modifies this
      ensures fields == TrimmedToYear(old(fields))
    {
      TrimToMonth();
      fields := fields.(month := 0);
    }

    method TrimToMonth()
      modifies this
      ensures fields == TrimmedToMonth(old(fields))
    {
      fields := fields.(day := 1);
      TrimToDay();
    }

    method TrimToDay()
      modifies this
      ensures fields == TrimmedToDay(old(fields))
    {
      fields := fields.(hour := 0);
      fields := fields.(minute := 0);
      fields := fields.(second := 0);
      fields := fields.(millisecond := 0);
    }

    method TrimToHour()
      modifies this
      ensures fields == TrimmedToHour(old(fields))
    {
      fields := fields.(minute := 0);
      fields := fields.(second := 0);
      fields := fields.(millisecond := 0);
    }

    method TrimToMinute()
      modifies this
      ensures fields == TrimmedToMinute(old(fields))
    {
      fields := fields.(second := 0);
      fields := fields.(millisecond := 0);
    }

    method TrimToSecond()
      modifies this
      ensures fields == TrimmedToSecond(old(fields))
    {
      fields := fields.(millisecond := 0);
    }

    method SetHour(hour: int)
      modifies this
      ensures fields == old(fields).(hour := hour)
    {
      fields := fields.(hour := hour);
    }

    method SetMinute(minute: int)
      modifies this
      ensures fields == old(fields).(minute := minute)
    {
      fields := fields.(minute := minute);
    }

    method SetSecond(second: int)
      modifies this
      ensures fields == old(fields).(second := second)
    {
      fields := fields.(second := second);
    }

    method SetMillisecond(millisecond: int)
      modifies this
      ensures fields == old(fields).(millisecond := millisecond)
    {
      fields := fields.(millisecond := millisecond);
    }

    method SetDay(day: int)
      modifies this
      ensures fields == old(fields).(day := day)
    {
      fields := fields.(day := day);
    }

    /** setMonth: the month is given from 0. */
    method SetMonth(month: int)
      modifies this
      ensures fields == old(fields).(month := month)
    {
      fields := fields.(month := month);
    }

    method SetYear(year: int)
      modifies this
      ensures fields == old(fields).(year := year)
    {
      fields := fields.(year := year);
    }
  }
}
