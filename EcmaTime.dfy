/** Time values as ECMA-262 (2024 edition) section 21.4.1 ("Time Values and Time Range")
    defines them: integer milliseconds since 1970-01-01T00:00:00Z on the
    proleptic Gregorian calendar. Local time is UTC plus a fixed offset in
    milliseconds, standing in for the host's LocalTZA. */
module EcmaTime {
  import opened JsText

  const MsPerSecond := 1000
  const MsPerMinute := 60_000
  const MsPerHour := 3_600_000
  const MsPerDay := 86_400_000
  /** The largest magnitude a time value may have (section 21.4.1.31, TimeClip). */
  const MaxTimeValue := 8_640_000_000_000_000

  predicate IsTimeValue(t: int)
  {
    -MaxTimeValue <= t <= MaxTimeValue
  }

  /** TimeClip: a value out of range becomes NaN, written None. */
  function TimeClip(t: int): Option<int>
  {
    if IsTimeValue(t) then Some(t) else None
  }

  /** Day(t) = floor(t / msPerDay); Dafny's `/` by a positive divisor floors. */
  function Day(t: int): int
  {
    t / MsPerDay
  }

  function TimeWithinDay(t: int): int
  {
    t % MsPerDay
  }

  function DaysInYear(y: int): int
  {
    if y % 4 != 0 then 365
    else if y % 100 != 0 then 366
    else if y % 400 != 0 then 365
    else 366
  }

  predicate InLeapYear(y: int)
  {
    DaysInYear(y) == 366
  }

  /** The day number of the first day of year `y`. */
  function DayFromYear(y: int): int
  {
    365 * (y - 1970) + (y - 1969) / 4 - (y - 1901) / 100 + (y - 1601) / 400
  }

  /** Consecutive years are DaysInYear apart. */
  lemma DayFromYearStep(y: int)
    ensures DayFromYear(y + 1) == DayFromYear(y) + DaysInYear(y)
  {
    FourYearStep(y);
    CenturyStep(y);
    FourCenturyStep(y);
    DivisibilityChain(y);
    assert DayFromYear(y + 1) - DayFromYear(y)
        == 365 + (if y % 4 == 0 then 1 else 0) - (if y % 100 == 0 then 1 else 0) + (if y % 400 == 0 then 1 else 0);
  }

  /** A multiple of 400 is a multiple of 100, which is a multiple of 4. */
  lemma DivisibilityChain(y: int)
    ensures y % 400 == 0 ==> y % 100 == 0
    ensures y % 100 == 0 ==> y % 4 == 0
  {
    if y % 400 == 0 {
      var k := y / 400;
      assert y == 400 * k;
      assert y / 100 == 4 * k;
    }
    if y % 100 == 0 {
      var k := y / 100;
      assert y == 100 * k;
      assert y / 4 == 25 * k;
    }
  }

  lemma FourYearStep(y: int)
    ensures (y - 1968) / 4 == (y - 1969) / 4 + (if y % 4 == 0 then 1 else 0)
  {
  }

  lemma CenturyStep(y: int)
    ensures (y - 1900) / 100 == (y - 1901) / 100 + (if y % 100 == 0 then 1 else 0)
  {
  }

  lemma FourCenturyStep(y: int)
    ensures (y - 1600) / 400 == (y - 1601) / 400 + (if y % 400 == 0 then 1 else 0)
  {
  }

  /** DayFromYear grows by at least 365 per year. */
  lemma {:induction false} DayFromYearMonotone(a: int, b: int)
    requires a <= b
    ensures DayFromYear(a) + 365 * (b - a) <= DayFromYear(b)
    decreases b - a
  {
    if a < b {
      DayFromYearStep(a);
      DayFromYearMonotone(a + 1, b);
    }
  }

  /** Days of the year before month `mn` (0-based), the table behind
      MonthFromTime and DateFromTime (sections 21.4.1.11 and 21.4.1.12). */
  function MonthStart(mn: int, leap: bool): int
    requires 0 <= mn <= 12
  {
    var common := [0, 31, 59, 90, 120, 151, 181, 212, 243, 273, 304, 334, 365][mn];
    if leap && mn >= 2 then common + 1 else common
  }

  lemma MonthStartStep(mn: int, leap: bool)
    requires 0 <= mn < 12
    ensures MonthStart(mn, leap) + 28 <= MonthStart(mn + 1, leap) <= MonthStart(mn, leap) + 31
  {
  }

  lemma {:induction false} MonthStartMonotone(a: int, b: int, leap: bool)
    requires 0 <= a <= b <= 12
    ensures MonthStart(a, leap) <= MonthStart(b, leap)
    decreases b - a
  {
    if a < b {
      MonthStartStep(a, leap);
      MonthStartMonotone(a + 1, b, leap);
    }
  }

  /** A calendar date; `month` is 1-based as written in YYYY-MM-DD. */
  datatype CalendarDate = CalendarDate(year: int, month: int, day: int)

  function DaysInMonth(y: int, month: int): int
    requires 1 <= month <= 12
  {
    MonthStart(month, InLeapYear(y)) - MonthStart(month - 1, InLeapYear(y))
  }

  predicate ValidDate(d: CalendarDate)
  {
    1 <= d.month <= 12 && 1 <= d.day <= DaysInMonth(d.year, d.month)
  }

  /** MakeDay (section 21.4.1.28): the month carries into the year by floor
      division, and the date is added to the first day of that month without
      any range check, so out-of-range fields roll over. */
  function MakeDay(year: int, month: int, date: int): int
  {
    var ym := year + month / 12;
    var mn := month % 12;
    DayFromYear(ym) + MonthStart(mn, InLeapYear(ym)) + date - 1
  }

  /** MakeTime (section 21.4.1.27). */
  function MakeTime(hour: int, min: int, sec: int, ms: int): int
  {
    hour * MsPerHour + min * MsPerMinute + sec * MsPerSecond + ms
  }

  /** MakeDate (section 21.4.1.29). */
  function MakeDate(day: int, time: int): int
  {
    day * MsPerDay + time
  }

  /** Within a year (month index 0 to 11) MakeDay is the table lookup. */
  lemma MakeDayInYear(year: int, mn: int, date: int)
    requires 0 <= mn < 12
    ensures MakeDay(year, mn, date) == DayFromYear(year) + MonthStart(mn, InLeapYear(year)) + date - 1
  {
    assert mn / 12 == 0 && mn % 12 == mn;
  }

  // ---------------------------------------------------------------------
  // YearFromTime, MonthFromTime and DateFromTime, computed by search

  /** The year containing `day`, searched upwards from a year that starts
      on or before it. */
  function YearUp(day: int, y: int): (r: int)
    requires DayFromYear(y) <= day
    ensures DayFromYear(r) <= day < DayFromYear(r + 1)
    decreases day - DayFromYear(y)
  {
    DayFromYearStep(y);
    if DayFromYear(y + 1) <= day then YearUp(day, y + 1) else y
  }

  /** The year containing `day`, searched downwards from a year that ends
      after it. */
  function YearDown(day: int, y: int): (r: int)
    requires day < DayFromYear(y + 1)
    ensures DayFromYear(r) <= day < DayFromYear(r + 1)
    decreases DayFromYear(y + 1) - day
  {
    DayFromYearStep(y);
    if DayFromYear(y) <= day then y else YearDown(day, y - 1)
  }

  /** YearFromTime on day numbers: the year whose first day is the last one
      not after `day`. */
  function YearFromDay(day: int): (y: int)
    ensures DayFromYear(y) <= day < DayFromYear(y + 1)
  {
    if day >= 0 then YearUp(day, 1970) else YearDown(day, 1969)
  }

  /** A day lies within the twelve months of its year. */
  lemma YearFromDayFits(day: int)
    ensures day - DayFromYear(YearFromDay(day)) < MonthStart(12, InLeapYear(YearFromDay(day)))
  {
    DayFromYearStep(YearFromDay(day));
    LeapYearLength(YearFromDay(day));
  }

  /** The year of a day is the only year whose span contains it. */
  lemma YearFromDayUnique(day: int, y: int)
    requires DayFromYear(y) <= day < DayFromYear(y + 1)
    ensures YearFromDay(day) == y
  {
    YearSpansDisjoint(day, YearFromDay(day), y);
  }

  /** Year spans do not overlap. */
  lemma YearSpansDisjoint(day: int, r: int, y: int)
    requires DayFromYear(r) <= day < DayFromYear(r + 1)
    requires DayFromYear(y) <= day < DayFromYear(y + 1)
    ensures r == y
  {
    if r < y {
      DayFromYearMonotone(r + 1, y);
    } else if y < r {
      DayFromYearMonotone(y + 1, r);
    }
  }

  /** MonthFromTime within a year: the month whose span contains the day. */
  function MonthInYear(inYear: int, leap: bool, mn: int): (r: int)
    requires 0 <= mn <= 11 && MonthStart(mn, leap) <= inYear < MonthStart(12, leap)
    ensures mn <= r <= 11 && MonthStart(r, leap) <= inYear < MonthStart(r + 1, leap)
    decreases 11 - mn
  {
    if inYear < MonthStart(mn + 1, leap) then mn else MonthInYear(inYear, leap, mn + 1)
  }

  lemma MonthInYearUnique(inYear: int, leap: bool, mn: int)
    requires 0 <= mn <= 11 && MonthStart(mn, leap) <= inYear < MonthStart(mn + 1, leap)
    ensures MonthInYear(inYear, leap, 0) == mn
  {
    MonthStartMonotone(mn + 1, 12, leap);
    var r := MonthInYear(inYear, leap, 0);
    if r < mn {
      MonthStartMonotone(r + 1, mn, leap);
    } else if mn < r {
      MonthStartMonotone(mn + 1, r, leap);
    }
  }

  /** The calendar date of a day number: YearFromTime, MonthFromTime + 1
      and DateFromTime together. */
  function DateOfDay(day: int): CalendarDate
  {
    YearFromDayFits(day);
    var y := YearFromDay(day);
    var leap := InLeapYear(y);
    var inYear := day - DayFromYear(y);
    var mn := MonthInYear(inYear, leap, 0);
    CalendarDate(y, mn + 1, inYear - MonthStart(mn, leap) + 1)
  }

  /** Every day number has a valid date, and MakeDay maps that date back to
      the same day. */
  lemma DateOfDayRoundTrip(day: int)
    ensures ValidDate(DateOfDay(day))
    ensures MakeDay(DateOfDay(day).year, DateOfDay(day).month - 1, DateOfDay(day).day) == day
  {
    YearFromDayFits(day);
    DateFromSpans(day, YearFromDay(day),
                  MonthInYear(day - DayFromYear(YearFromDay(day)), InLeapYear(YearFromDay(day)), 0), DateOfDay(day));
  }

  /** The date read off a day's year and month spans is valid and maps
      back to that day. */
  lemma DateFromSpans(day: int, y: int, mn: int, c: CalendarDate)
    requires 0 <= mn <= 11
    requires MonthStart(mn, InLeapYear(y)) <= day - DayFromYear(y) < MonthStart(mn + 1, InLeapYear(y))
    requires c == CalendarDate(y, mn + 1, day - DayFromYear(y) - MonthStart(mn, InLeapYear(y)) + 1)
    ensures ValidDate(c)
    ensures MakeDay(c.year, c.month - 1, c.day) == day
  {
    assert c.month - 1 == mn;
    MakeDayInYear(c.year, mn, c.day);
  }

  /** MakeDay on a valid date lands on a day whose date is that date. */
  lemma MakeDayRoundTrip(d: CalendarDate)
    requires ValidDate(d)
    ensures DateOfDay(MakeDay(d.year, d.month - 1, d.day)) == d
  {
    var day := MakeDay(d.year, d.month - 1, d.day);
    DateOfDayRoundTrip(day);
    MakeDayInjective(DateOfDay(day), d);
  }

  /** A valid date's day lies in its year, within its month's span. */
  lemma MakeDayInItsYear(d: CalendarDate)
    requires ValidDate(d)
    ensures var leap := InLeapYear(d.year);
            var inYear := MakeDay(d.year, d.month - 1, d.day) - DayFromYear(d.year);
            && MonthStart(d.month - 1, leap) <= inYear < MonthStart(d.month, leap)
            && DayFromYear(d.year) <= MakeDay(d.year, d.month - 1, d.day) < DayFromYear(d.year + 1)
  {
    var leap := InLeapYear(d.year);
    MakeDayInYear(d.year, d.month - 1, d.day);
    MonthStartMonotone(d.month, 12, leap);
    LeapYearLength(d.year);
    DayFromYearStep(d.year);
  }

  /** A year has MonthStart(12) days. */
  lemma LeapYearLength(y: int)
    ensures MonthStart(12, InLeapYear(y)) == DaysInYear(y)
  {
  }

  /** Distinct valid dates fall on distinct days. */
  lemma MakeDayInjective(a: CalendarDate, b: CalendarDate)
    requires ValidDate(a) && ValidDate(b)
    requires MakeDay(a.year, a.month - 1, a.day) == MakeDay(b.year, b.month - 1, b.day)
    ensures a == b
  {
    SameDaySameYear(a, b);
    MakeDayInYear(a.year, a.month - 1, a.day);
    MakeDayInYear(b.year, b.month - 1, b.day);
    SameOffsetSameDate(a, b);
  }

  lemma SameDaySameYear(a: CalendarDate, b: CalendarDate)
    requires ValidDate(a) && ValidDate(b)
    requires MakeDay(a.year, a.month - 1, a.day) == MakeDay(b.year, b.month - 1, b.day)
    ensures a.year == b.year
  {
    YearOfMakeDay(a);
    YearOfMakeDay(b);
  }

  lemma YearOfMakeDay(d: CalendarDate)
    requires ValidDate(d)
    ensures YearFromDay(MakeDay(d.year, d.month - 1, d.day)) == d.year
  {
    MakeDayInItsYear(d);
    YearFromDayUnique(MakeDay(d.year, d.month - 1, d.day), d.year);
  }

  /** Two valid dates of one year the same number of days into it are the
      same date. */
  lemma SameOffsetSameDate(a: CalendarDate, b: CalendarDate)
    requires ValidDate(a) && ValidDate(b) && a.year == b.year
    requires MonthStart(a.month - 1, InLeapYear(a.year)) + a.day == MonthStart(b.month - 1, InLeapYear(b.year)) + b.day
    ensures a == b
  {
    var leap := InLeapYear(a.year);
    var inYear := MonthStart(a.month - 1, leap) + a.day - 1;
    MonthSpanUnique(inYear, leap, a.month - 1, b.month - 1);
  }

  /** Month spans do not overlap. */
  lemma MonthSpanUnique(inYear: int, leap: bool, m: int, n: int)
    requires 0 <= m <= 11 && MonthStart(m, leap) <= inYear < MonthStart(m + 1, leap)
    requires 0 <= n <= 11 && MonthStart(n, leap) <= inYear < MonthStart(n + 1, leap)
    ensures m == n
  {
    MonthInYearUnique(inYear, leap, m);
    MonthInYearUnique(inYear, leap, n);
  }

  /** Distinct day numbers have distinct dates. */
  lemma DateOfDayInjective(a: int, b: int)
    requires DateOfDay(a) == DateOfDay(b)
    ensures a == b
  {
    DateOfDayRoundTrip(a);
    DateOfDayRoundTrip(b);
  }

  function HourFromTime(t: int): int
  {
    (t / MsPerHour) % 24
  }

  function MinFromTime(t: int): int
  {
    (t / MsPerMinute) % 60
  }

  /** A wall-clock reading: a date, an hour and a minute. */
  datatype DateTime = DateTime(date: CalendarDate, hour: int, minute: int)

  /** The wall-clock reading of a local time value. */
  function WallClock(lt: int): DateTime
  {
    DateTime(DateOfDay(Day(lt)), HourFromTime(lt), MinFromTime(lt))
  }

  /** The local wall-clock reading of time value `t`. */
  function LocalDateTime(t: int, offset: int): DateTime
  {
    WallClock(t + offset)
  }

  // ---------------------------------------------------------------------
  // The Date constructor and the date accessors used by the core

  /** `new Date(year, month, date, hours, minutes)` (section 21.4.2.1) with
      all five arguments supplied: any NaN argument (None) gives NaN; a year
      from 0 to 99 means 1900 to 1999; the fields go through MakeDay and
      MakeTime unchecked; the local result is converted to UTC with the
      offset and then clipped. */
  function ConstructDate(year: Option<int>, month: Option<int>, date: Option<int>,
                         hours: Option<int>, minutes: Option<int>, offset: int): (t: Option<int>)
    ensures t.Some? ==> IsTimeValue(t.value)
    ensures t.None? <==> year.None? || month.None? || date.None? || hours.None? || minutes.None?
                         || !IsTimeValue(MakeDate(MakeDay(if 0 <= year.value <= 99 then 1900 + year.value else year.value,
                                                          month.value, date.value),
                                                  MakeTime(hours.value, minutes.value, 0, 0)) - offset)
  {
    if year.None? || month.None? || date.None? || hours.None? || minutes.None? then None
    else
      var yr := if 0 <= year.value <= 99 then 1900 + year.value else year.value;
      TimeClip(MakeDate(MakeDay(yr, month.value, date.value), MakeTime(hours.value, minutes.value, 0, 0)) - offset)
  }

  /** A year from 0 to 99 is the year 1900 more. */
  lemma ConstructDateTwoDigitYear(d: CalendarDate, e: CalendarDate, hour: int, minute: int, offset: int)
    requires 0 <= d.year <= 99 && e == CalendarDate(1900 + d.year, d.month, d.day)
    ensures ConstructDate(Some(d.year), Some(d.month - 1), Some(d.day), Some(hour), Some(minute), offset)
            == ConstructDate(Some(e.year), Some(e.month - 1), Some(e.day), Some(hour), Some(minute), offset)
  {
  }

  lemma MakeDateNextHour(day: int, hour: int, minute: int)
    ensures MakeDate(day, MakeTime(hour + 1, minute, 0, 0)) == MakeDate(day, MakeTime(hour, minute, 0, 0)) + MsPerHour
  {
  }

  /** One hour more in the constructor's hours argument is one hour later,
      when both results are in range. */
  lemma ConstructDateNextHour(year: int, month: int, date: int, hour: int, minute: int, offset: int)
    requires ConstructDate(Some(year), Some(month), Some(date), Some(hour), Some(minute), offset).Some?
    requires ConstructDate(Some(year), Some(month), Some(date), Some(hour + 1), Some(minute), offset).Some?
    ensures ConstructDate(Some(year), Some(month), Some(date), Some(hour + 1), Some(minute), offset).value
            == ConstructDate(Some(year), Some(month), Some(date), Some(hour), Some(minute), offset).value + MsPerHour
  {
    var yr := if 0 <= year <= 99 then 1900 + year else year;
    MakeDateNextHour(MakeDay(yr, month, date), hour, minute);
  }

  /** The wall-clock fields of a local time built from a day, an hour and a minute. */
  lemma TimeFieldsReadBack(day: int, hour: int, minute: int)
    requires 0 <= hour < 24 && 0 <= minute < 60
    ensures Day(MakeDate(day, MakeTime(hour, minute, 0, 0))) == day
    ensures HourFromTime(MakeDate(day, MakeTime(hour, minute, 0, 0))) == hour
    ensures MinFromTime(MakeDate(day, MakeTime(hour, minute, 0, 0))) == minute
  {
    DaysOfBuilt(day, hour, minute);
    HoursOfBuilt(day, hour, minute);
    MinutesOfBuilt(day, hour, minute);
  }

  lemma DaysOfBuilt(day: int, hour: int, minute: int)
    requires 0 <= hour < 24 && 0 <= minute < 60
    ensures Day(MakeDate(day, MakeTime(hour, minute, 0, 0))) == day
  {
    var lt := MakeDate(day, MakeTime(hour, minute, 0, 0));
    assert lt == day * MsPerDay + (hour * MsPerHour + minute * MsPerMinute);
  }

  lemma HoursOfBuilt(day: int, hour: int, minute: int)
    requires 0 <= hour < 24 && 0 <= minute < 60
    ensures HourFromTime(MakeDate(day, MakeTime(hour, minute, 0, 0))) == hour
  {
    var lt := MakeDate(day, MakeTime(hour, minute, 0, 0));
    assert lt == (day * 24 + hour) * MsPerHour + minute * MsPerMinute;
    assert lt / MsPerHour == day * 24 + hour;
  }

  lemma MinutesOfBuilt(day: int, hour: int, minute: int)
    requires 0 <= hour < 24 && 0 <= minute < 60
    ensures MinFromTime(MakeDate(day, MakeTime(hour, minute, 0, 0))) == minute
  {
    var lt := MakeDate(day, MakeTime(hour, minute, 0, 0));
    var q := (day * 24 + hour) * 60 + minute;
    assert lt == q * MsPerMinute;
    assert lt / MsPerMinute == q;
    assert q % 60 == minute;
  }

  // A proof step only: the unfolding of LocalDateTime, stated on its own so
  // that callers need not unfold it next to heavier arithmetic terms.
  lemma LocalDateTimeIsWallClock(t: int, offset: int)
    ensures LocalDateTime(t, offset) == WallClock(t + offset)
  {
  }

  lemma WallClockFields(lt: int, day: int, hour: int, minute: int)
    requires Day(lt) == day && HourFromTime(lt) == hour && MinFromTime(lt) == minute
    ensures WallClock(lt) == DateTime(DateOfDay(day), hour, minute)
  {
  }

  /** A local time built from a day, an hour and a minute reads back as that
      day's date, that hour and that minute. */
  lemma WallClockOfBuilt(day: int, hour: int, minute: int)
    requires 0 <= hour < 24 && 0 <= minute < 60
    ensures WallClock(MakeDate(day, MakeTime(hour, minute, 0, 0))) == DateTime(DateOfDay(day), hour, minute)
  {
    TimeFieldsReadBack(day, hour, minute);
    WallClockFields(MakeDate(day, MakeTime(hour, minute, 0, 0)), day, hour, minute);
  }

  /** A time value built from an in-range date, hour and minute reads back,
      in the same local time, as exactly those fields. */
  lemma ConstructDateReadsBack(d: CalendarDate, hour: int, minute: int, offset: int)
    requires ValidDate(d) && !(0 <= d.year <= 99) && 0 <= hour < 24 && 0 <= minute < 60
    requires ConstructDate(Some(d.year), Some(d.month - 1), Some(d.day), Some(hour), Some(minute), offset).Some?
    ensures LocalDateTime(ConstructDate(Some(d.year), Some(d.month - 1), Some(d.day), Some(hour), Some(minute), offset).value, offset)
            == DateTime(d, hour, minute)
  {
    var day := MakeDay(d.year, d.month - 1, d.day);
    var t := ConstructDate(Some(d.year), Some(d.month - 1), Some(d.day), Some(hour), Some(minute), offset).value;
    ConstructDateValue(d.year, d.month - 1, d.day, hour, minute, offset);
    LocalDateTimeOfBuilt(t, offset, day, hour, minute);
    MakeDayRoundTrip(d);
  }

  /** Outside the two-digit years, a constructed value is the built local
      time less the offset. */
  lemma ConstructDateValue(year: int, month: int, date: int, hour: int, minute: int, offset: int)
    requires !(0 <= year <= 99)
    requires ConstructDate(Some(year), Some(month), Some(date), Some(hour), Some(minute), offset).Some?
    ensures ConstructDate(Some(year), Some(month), Some(date), Some(hour), Some(minute), offset).value + offset
            == MakeDate(MakeDay(year, month, date), MakeTime(hour, minute, 0, 0))
  {
  }

  /** An instant whose local time was built from a day, an hour and a
      minute reads back as those. */
  lemma LocalDateTimeOfBuilt(t: int, offset: int, day: int, hour: int, minute: int)
    requires 0 <= hour < 24 && 0 <= minute < 60
    requires t + offset == MakeDate(day, MakeTime(hour, minute, 0, 0))
    ensures LocalDateTime(t, offset) == DateTime(DateOfDay(day), hour, minute)
  {
    LocalDateTimeIsWallClock(t, offset);
    TimeFieldsOf(t + offset, day, hour, minute);
    WallClockFields(t + offset, day, hour, minute);
  }

  // A proof step only: TimeFieldsReadBack restated for a named local time,
  // so that the solver matches `lt` rather than the built expression.
  lemma TimeFieldsOf(lt: int, day: int, hour: int, minute: int)
    requires 0 <= hour < 24 && 0 <= minute < 60
    requires lt == MakeDate(day, MakeTime(hour, minute, 0, 0))
    ensures Day(lt) == day && HourFromTime(lt) == hour && MinFromTime(lt) == minute
  {
    TimeFieldsReadBack(day, hour, minute);
  }

  /** A month of 12 or more carries whole years: month 13 (index 12) of a
      year is January of the next. */
  lemma MakeDayMonthCarry(year: int, month: int, date: int)
    ensures MakeDay(year, month + 12, date) == MakeDay(year + 1, month, date)
  {
    assert (month + 12) / 12 == month / 12 + 1;
    assert (month + 12) % 12 == month % 12;
  }

  /** A month past December is that many months into the next year in the
      constructor, outside the two-digit years. */
  lemma ConstructDateMonthCarry(d: CalendarDate, e: CalendarDate, hour: int, minute: int, offset: int)
    requires e == CalendarDate(d.year + 1, d.month - 12, d.day)
    requires !(0 <= d.year <= 99) && !(0 <= e.year <= 99)
    ensures ConstructDate(Some(d.year), Some(d.month - 1), Some(d.day), Some(hour), Some(minute), offset)
            == ConstructDate(Some(e.year), Some(e.month - 1), Some(e.day), Some(hour), Some(minute), offset)
  {
    MakeDayMonthCarry(d.year, e.month - 1, d.day);
  }

  /** The date of the month is added unchecked: the 32nd of a month is the
      day after the 31st. */
  lemma MakeDayDateCarry(year: int, month: int, date: int, extra: int)
    ensures MakeDay(year, month, date + extra) == MakeDay(year, month, date) + extra
  {
  }

  /** `getDate()` (section 21.4.4.2): the local day of the month. */
  function GetDate(t: int, offset: int): int
  {
    DateOfDay(Day(t + offset)).day
  }

  /** `setDate(date)` (section 21.4.4.20): keep the local year, month and
      time of day, replace the day of the month, convert back and clip. */
  function SetDate(t: int, date: int, offset: int): Option<int>
  {
    TimeClip(LocalDateSet(t, date, offset))
  }

  /** The instant `setDate` computes, before clipping. */
  function LocalDateSet(t: int, date: int, offset: int): int
  {
    var lt := t + offset;
    var cd := DateOfDay(Day(lt));
    MakeDate(MakeDay(cd.year, cd.month - 1, date), TimeWithinDay(lt)) - offset
  }

  /** One more day of the month is one day later. */
  lemma LocalDateSetStep(t: int, date: int, offset: int)
    ensures LocalDateSet(t, date + 1, offset) == LocalDateSet(t, date, offset) + MsPerDay
  {
    var cd := DateOfDay(Day(t + offset));
    MakeDayDateCarry(cd.year, cd.month - 1, date, 1);
    MakeDateNextDay(MakeDay(cd.year, cd.month - 1, date), TimeWithinDay(t + offset));
  }

  /** Setting the day of the month to the one it already has changes
      nothing, whatever the offset. */
  lemma SetDateToOwnDate(t: int, offset: int)
    requires IsTimeValue(t)
    ensures SetDate(t, GetDate(t, offset), offset) == Some(t)
  {
    OwnDateUnchanged(t, offset);
  }

  lemma OwnDateUnchanged(t: int, offset: int)
    ensures LocalDateSet(t, GetDate(t, offset), offset) == t
  {
    MakeDayOfOwnDate(t, offset);
    LocalDateSetIn(t, offset, GetDate(t, offset), DateOfDay(Day(t + offset)), Day(t + offset));
    DayAndTimeWithinDay(t + offset);
  }

  lemma MakeDayOfOwnDate(t: int, offset: int)
    ensures MakeDay(DateOfDay(Day(t + offset)).year, DateOfDay(Day(t + offset)).month - 1, GetDate(t, offset))
            == Day(t + offset)
  {
    DateOfDayRoundTrip(Day(t + offset));
  }

  /** `setDate` in terms of the local date `cd` and the day `day` it moves to. */
  lemma LocalDateSetIn(t: int, offset: int, date: int, cd: CalendarDate, day: int)
    requires cd == DateOfDay(Day(t + offset))
    requires MakeDay(cd.year, cd.month - 1, date) == day
    ensures LocalDateSet(t, date, offset) == MakeDate(day, TimeWithinDay(t + offset)) - offset
  {
  }

  lemma DayAndTimeWithinDay(t: int)
    ensures MakeDate(Day(t), TimeWithinDay(t)) == t
  {
  }

  lemma NextDay(t: int)
    ensures Day(t + MsPerDay) == Day(t) + 1
  {
  }

  lemma MakeDateNextDay(day: int, time: int)
    ensures MakeDate(day + 1, time) == MakeDate(day, time) + MsPerDay
  {
  }

  /** Moving the local day of the month one up moves the instant by
      exactly one day, across month and year ends too. */
  lemma SetDateNextDay(t: int, offset: int)
    ensures SetDate(t, GetDate(t, offset) + 1, offset) == TimeClip(t + MsPerDay)
  {
    OwnDateUnchanged(t, offset);
    LocalDateSetStep(t, GetDate(t, offset), offset);
  }

  /** The year field of `toISOString()` (section 21.4.1.32): four digits
      from 0 to 9999, otherwise a sign and six digits. */
  function IsoYear(y: int): string
  {
    if 0 <= y <= 9999 then PadDigits(y, 4)
    else if y < 0 then "-" + PadDigits(-y, 6)
    else "+" + PadDigits(y, 6)
  }

  /** The YYYY-MM-DD head of `toISOString()`. */
  function IsoDate(d: CalendarDate): string
  {
    IsoYear(d.year) + "-" + PadDigits(if d.month < 0 then 0 else d.month, 2)
    + "-" + PadDigits(if d.day < 0 then 0 else d.day, 2)
  }

  /** `new Date(s)` for a string: the host's parser `parse` (implementation
      defined for anything but the Date Time String Format) gives a number of
      milliseconds or NaN (None), and the result is clipped. */
  function ParseDate(parse: string -> Option<int>, s: string): (t: Option<int>)
    ensures t.Some? ==> IsTimeValue(t.value)
    ensures t.Some? <==> parse(s).Some? && IsTimeValue(parse(s).value)
    ensures t.Some? ==> t.value == parse(s).value
  {
    var p := parse(s);
    if p.None? then None else TimeClip(p.value)
  }

  function SecFromTime(t: int): int
  {
    (t / MsPerSecond) % 60
  }

  function MsFromTime(t: int): int
  {
    t % MsPerSecond
  }

  /** The message of the RangeError `toISOString()` throws on NaN. */
  const InvalidTimeValue := "Invalid time value"

  /** `toISOString()` of a valid time value (section 21.4.4.36): the UTC
      date, `T`, the UTC time of day to the millisecond, and `Z`. */
  function IsoString(t: int): string
  {
    IsoFormat(DateOfDay(Day(t)), HourFromTime(t), MinFromTime(t), SecFromTime(t), MsFromTime(t))
  }

  /** The Date Time String Format in UTC (section 21.4.1.32). */
  function IsoFormat(d: CalendarDate, hour: nat, minute: nat, second: nat, ms: nat): string
  {
    IsoDate(d) + "T" + IsoTime(hour, minute, second, ms)
  }

  /** The `HH:mm:ss.sssZ` tail. */
  function IsoTime(hour: nat, minute: nat, second: nat, ms: nat): string
  {
    PadDigits(hour, 2) + ":" + PadDigits(minute, 2) + ":" + PadDigits(second, 2) + "." + PadDigits(ms, 3) + "Z"
  }

  /** The part of a formatted instant before its `T` is its date. */
  lemma IsoFormatDatePart(d: CalendarDate, hour: nat, minute: nat, second: nat, ms: nat)
    ensures Split(IsoFormat(d, hour, minute, second, ms), 'T')[0] == IsoDate(d)
  {
    IsoDateHasNoT(d);
    SplitAfterPiece(IsoDate(d), 'T', IsoTime(hour, minute, second, ms));
  }

  /** An ISO date with a four-digit year splits at its dashes into its
      three zero-padded fields. */
  lemma IsoDatePieces(d: CalendarDate)
    requires 0 <= d.year <= 9999 && 0 <= d.month && 0 <= d.day
    ensures Split(IsoDate(d), '-') == [PadDigits(d.year, 4), PadDigits(d.month, 2), PadDigits(d.day, 2)]
  {
    PadDigitsWithout('-', d.year, 4);
    PadDigitsWithout('-', d.month, 2);
    PadDigitsWithout('-', d.day, 2);
    SplitThree(PadDigits(d.year, 4), PadDigits(d.month, 2), PadDigits(d.day, 2), '-');
  }

  /** Dates with four-digit years have distinct ISO dates. */
  lemma IsoDateInjective(a: CalendarDate, b: CalendarDate)
    requires 0 <= a.year <= 9999 && 0 <= a.month && 0 <= a.day
    requires 0 <= b.year <= 9999 && 0 <= b.month && 0 <= b.day
    requires IsoDate(a) == IsoDate(b)
    ensures a == b
  {
    IsoDatePieces(a);
    IsoDatePieces(b);
    PadDigitsRoundTrip(a.year, 4);
    PadDigitsRoundTrip(a.month, 2);
    PadDigitsRoundTrip(a.day, 2);
    PadDigitsRoundTrip(b.year, 4);
    PadDigitsRoundTrip(b.month, 2);
    PadDigitsRoundTrip(b.day, 2);
  }

  /** An ISO date holds no `T`: it is digits, signs and dashes. */
  lemma IsoDateHasNoT(d: CalendarDate)
    ensures 'T' !in IsoDate(d)
  {
    assert 'T' !in IsoYear(d.year) by {
      PadDigitsWithout('T', if d.year < 0 then -d.year else d.year, if 0 <= d.year <= 9999 then 4 else 6);
    }
    PadDigitsWithout('T', if d.month < 0 then 0 else d.month, 2);
    PadDigitsWithout('T', if d.day < 0 then 0 else d.day, 2);
  }

  /** `toISOString().split("T")[0]` is the UTC date of the time value. */
  lemma IsoStringDatePart(t: int)
    ensures Split(IsoString(t), 'T')[0] == IsoDate(DateOfDay(Day(t)))
  {
    IsoFormatDatePart(DateOfDay(Day(t)), HourFromTime(t), MinFromTime(t), SecFromTime(t), MsFromTime(t));
  }
}
