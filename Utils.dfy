/** lib/utils.ts: composing the scheduled start from the form's date and
    time strings, and the two client calls that ask the server routes for a
    meeting link. `fetch` and `res.json()` are abstract outcomes. */
module Utils {
  import opened JsText
  import opened EcmaTime

  const InvalidDateOrTime := "Invalid date or time format"
  const DefaultScheduledTitle := "Team Sync-up"
  const FailedToCreatePrefix := "Failed to create scheduled meeting: "

  /** Element `i` of the split pieces as `Number` reads it; a missing element
      is undefined, which `Number` turns into NaN (None). */
  function NumberAt(parts: seq<string>, i: nat): Option<int>
  {
    if i < |parts| then StringToNumber(parts[i]) else None
  }

  /** The one-based month minus one, NaN staying NaN. */
  function MonthIndex(month: Option<int>): Option<int>
  {
    if month.None? then None else Some(month.value - 1)
  }

  // A proof step only: MonthIndex on a number, stated once so that the
  // composition lemmas need not unfold it.
  lemma MonthIndexOf(month: int)
    ensures MonthIndex(Some(month)) == Some(month - 1)
  {
  }

  /** combineDateAndTime: the date is split on '-' and read as year, month,
      day by position, the time split on ':' and read as hours, minutes;
      extra pieces are ignored. The fields go to the local-time Date
      constructor with the month made zero-based. Only a NaN result throws;
      out-of-range fields roll over. The returned ISO string is represented
      by the time value it encodes. */
  function CombineDateAndTime(dateStr: string, timeStr: string, offset: int): (r: Completion<int>)
    ensures r.Returned? ==> IsTimeValue(r.value)
    ensures r.Threw? ==> r.thrown == ErrorObject(InvalidDateOrTime)
  {
    var d := Split(dateStr, '-');
    var t := Split(timeStr, ':');
    var composed := ConstructDate(NumberAt(d, 0), MonthIndex(NumberAt(d, 1)), NumberAt(d, 2),
                                  NumberAt(t, 0), NumberAt(t, 1), offset);
    ValidatedDate(composed)
  }

  /** The NaN check after the constructor: a NaN date throws, any other is
      returned. */
  function ValidatedDate(composed: Option<int>): (r: Completion<int>)
    ensures r.Returned? <==> composed.Some?
    ensures r.Returned? ==> r.value == composed.value
    ensures r.Threw? ==> r.thrown == ErrorObject(InvalidDateOrTime)
  {
    if composed.None? then Threw(ErrorObject(InvalidDateOrTime)) else Returned(composed.value)
  }

  lemma DigitsHaveNoSeparator(s: string, sep: char)
    requires AllDigits(s) && !IsDigit(sep)
    ensures sep !in s
  {
  }

  /** The date is read as year-month-day and the time as hours:minutes,
      strictly by position: whatever the pieces hold, the first piece is the
      year, the second the month and the third the day. */
  lemma CombineReadsPositionally(ys: string, ms: string, ds: string, hs: string, mins: string, offset: int)
    requires '-' !in ys && '-' !in ms && '-' !in ds && ':' !in hs && ':' !in mins
    ensures CombineDateAndTime(ys + "-" + ms + "-" + ds, hs + ":" + mins, offset)
            == ValidatedDate(ConstructDate(StringToNumber(ys), MonthIndex(StringToNumber(ms)), StringToNumber(ds),
                                           StringToNumber(hs), StringToNumber(mins), offset))
  {
    SplitNoSeparator(ds, '-');
    SplitAfterPiece(ms, '-', ds);
    assert ys + "-" + ms + "-" + ds == ys + ['-'] + (ms + ['-'] + ds);
    SplitAfterPiece(ys, '-', ms + ['-'] + ds);
    assert Split(ys + "-" + ms + "-" + ds, '-') == [ys, ms, ds];
    SplitNoSeparator(mins, ':');
    assert hs + ":" + mins == hs + [':'] + mins;
    SplitAfterPiece(hs, ':', mins);
    assert Split(hs + ":" + mins, ':') == [hs, mins];
  }

  /** The `HH:MM` string a time input produces. */
  function TimeOfDay(hour: nat, minute: nat): string
  {
    PadDigits(hour, 2) + ":" + PadDigits(minute, 2)
  }

  /** The pieces of a `YYYY-MM-DD` date (four-digit year) and an `HH:MM`
      time are read back as the numbers they were written from. */
  lemma FormFieldsReadBack(d: CalendarDate, hour: nat, minute: nat, offset: int)
    requires 0 <= d.year <= 9999 && 0 <= d.month && 0 <= d.day
    ensures CombineDateAndTime(IsoDate(d), TimeOfDay(hour, minute), offset)
            == ValidatedDate(ConstructDate(Some(d.year), Some(d.month - 1), Some(d.day), Some(hour), Some(minute), offset))
  {
    var ys, ms, ds := PadDigits(d.year, 4), PadDigits(d.month, 2), PadDigits(d.day, 2);
    var hs, mins := PadDigits(hour, 2), PadDigits(minute, 2);
    FormPieces(d, hour, minute);
    CombineReadsPositionally(ys, ms, ds, hs, mins, offset);
  }

  /** The pieces of a form date and time: separator-free, and read back as
      the fields they were written from. */
  lemma FormPieces(d: CalendarDate, hour: nat, minute: nat)
    requires 0 <= d.year <= 9999 && 0 <= d.month && 0 <= d.day
    ensures var ys, ms, ds := PadDigits(d.year, 4), PadDigits(d.month, 2), PadDigits(d.day, 2);
            var hs, mins := PadDigits(hour, 2), PadDigits(minute, 2);
            && IsoDate(d) == ys + "-" + ms + "-" + ds && TimeOfDay(hour, minute) == hs + ":" + mins
            && '-' !in ys && '-' !in ms && '-' !in ds && ':' !in hs && ':' !in mins
            && StringToNumber(ys) == Some(d.year) && MonthIndex(StringToNumber(ms)) == Some(d.month - 1)
            && StringToNumber(ds) == Some(d.day) && StringToNumber(hs) == Some(hour)
            && StringToNumber(mins) == Some(minute)
  {
    PaddedPiece(d.year, 4, '-');
    PaddedPiece(d.month, 2, '-');
    PaddedPiece(d.day, 2, '-');
    PaddedPiece(hour, 2, ':');
    PaddedPiece(minute, 2, ':');
    IsoDateOf(d);
    MonthIndexOf(d.month);
  }

  /** A padded number holds no separator and reads back as itself. */
  lemma PaddedPiece(n: nat, width: nat, sep: char)
    requires !IsDigit(sep)
    ensures sep !in PadDigits(n, width) && StringToNumber(PadDigits(n, width)) == Some(n)
  {
    PadDigitsValue(n, width);
    DigitsHaveNoSeparator(PadDigits(n, width), sep);
    PadDigitsRoundTrip(n, width);
  }

  // A proof step only: the unfolding of IsoDate for four-digit years, which
  // the piece-by-piece reading lemmas match against.
  lemma IsoDateOf(d: CalendarDate)
    requires 0 <= d.year <= 9999 && 0 <= d.month && 0 <= d.day
    ensures IsoDate(d) == PadDigits(d.year, 4) + "-" + PadDigits(d.month, 2) + "-" + PadDigits(d.day, 2)
  {
  }

  /** In the supported years the form's strings compose to the constructed
      local date-time. */
  lemma CombineOfComposed(d: CalendarDate, hour: nat, minute: nat, offset: int)
    requires 100 <= d.year <= 9999 && ValidDate(d) && hour < 24 && minute < 60
    requires -MsPerDay <= offset <= MsPerDay
    ensures ConstructDate(Some(d.year), Some(d.month - 1), Some(d.day), Some(hour), Some(minute), offset).Some?
    ensures CombineDateAndTime(IsoDate(d), TimeOfDay(hour, minute), offset)
            == Returned(ConstructDate(Some(d.year), Some(d.month - 1), Some(d.day), Some(hour), Some(minute), offset).value)
  {
    FormFieldsReadBack(d, hour, minute, offset);
    ComposedInRange(d, hour, minute, offset);
  }

  /** In the supported years, an hour later composes to one hour more. */
  lemma ComposedNextHour(d: CalendarDate, hour: nat, minute: nat, offset: int)
    requires 100 <= d.year <= 9999 && ValidDate(d) && hour < 23 && minute < 60
    requires -MsPerDay <= offset <= MsPerDay
    ensures var now := ConstructDate(Some(d.year), Some(d.month - 1), Some(d.day), Some(hour), Some(minute), offset);
            var next := ConstructDate(Some(d.year), Some(d.month - 1), Some(d.day), Some(hour + 1), Some(minute), offset);
            now.Some? && next == Some(now.value + MsPerHour)
  {
    ComposedInRange(d, hour, minute, offset);
    ComposedInRange(d, hour + 1, minute, offset);
    ConstructDateNextHour(d.year, d.month - 1, d.day, hour, minute, offset);
  }

  /** For four-digit years from 0100 and a local offset of at most a day,
      every in-range date and time composes to a valid time value. */
  lemma ComposedInRange(d: CalendarDate, hour: nat, minute: nat, offset: int)
    requires 100 <= d.year <= 9999 && ValidDate(d) && hour < 24 && minute < 60
    requires -MsPerDay <= offset <= MsPerDay
    ensures ConstructDate(Some(d.year), Some(d.month - 1), Some(d.day), Some(hour), Some(minute), offset).Some?
  {
    DayOfSupportedYear(d);
    BuiltIsTimeValue(MakeDay(d.year, d.month - 1, d.day), hour, minute, offset);
  }

  /** A local time on a day of the supported years, less an offset of at
      most a day, is a time value. */
  lemma BuiltIsTimeValue(day: int, hour: nat, minute: nat, offset: int)
    requires -683003 <= day < 2932897 && hour < 24 && minute < 60
    requires -MsPerDay <= offset <= MsPerDay
    ensures IsTimeValue(MakeDate(day, MakeTime(hour, minute, 0, 0)) - offset)
  {
  }

  /** The day number of a date in the years 100 to 9999. */
  lemma DayOfSupportedYear(d: CalendarDate)
    requires 100 <= d.year <= 9999 && ValidDate(d)
    ensures -683003 <= MakeDay(d.year, d.month - 1, d.day) < 2932897
  {
    MakeDayInItsYear(d);
    DayFromYearMonotone(100, d.year);
    DayFromYearMonotone(d.year + 1, 10000);
    assert DayFromYear(100) == -683003;
    assert DayFromYear(10000) == 2932897;
  }

  /** The composition round-trips: a form date `YYYY-MM-DD` (year 0100 to
      9999) and time `HH:MM`, in range, give a time value whose local
      reading is that very date, hour and minute. */
  lemma CombineRoundTrip(d: CalendarDate, hour: nat, minute: nat, offset: int)
    requires 100 <= d.year <= 9999 && ValidDate(d) && hour < 24 && minute < 60
    requires -MsPerDay <= offset <= MsPerDay
    ensures CombineDateAndTime(IsoDate(d), TimeOfDay(hour, minute), offset).Returned?
    ensures LocalDateTime(CombineDateAndTime(IsoDate(d), TimeOfDay(hour, minute), offset).value, offset)
            == DateTime(d, hour, minute)
  {
    FormFieldsReadBack(d, hour, minute, offset);
    ComposedInRange(d, hour, minute, offset);
    ConstructDateReadsBack(d, hour, minute, offset);
  }

  /** A year written 0000 to 0099 is taken as 1900 to 1999 by the Date
      constructor, so such a form date lands in the twentieth century. */
  lemma CombineTwoDigitYear(d: CalendarDate, hour: nat, minute: nat, offset: int)
    requires 0 <= d.year <= 99 && 0 <= d.month && 0 <= d.day
    ensures CombineDateAndTime(IsoDate(d), TimeOfDay(hour, minute), offset)
            == CombineDateAndTime(IsoDate(CalendarDate(1900 + d.year, d.month, d.day)), TimeOfDay(hour, minute), offset)
  {
    FormFieldsReadBack(d, hour, minute, offset);
    FormFieldsReadBack(CalendarDate(1900 + d.year, d.month, d.day), hour, minute, offset);
    ConstructDateTwoDigitYear(d, CalendarDate(1900 + d.year, d.month, d.day), hour, minute, offset);
  }

  /** A month past December is read into the next year: month 13 is
      January of the following year, and so on; there is no range check. */
  lemma CombineMonthCarry(year: nat, month: nat, day: nat, hour: nat, minute: nat, offset: int)
    requires 100 <= year <= 9998 && 13 <= month
    ensures CombineDateAndTime(IsoDate(CalendarDate(year, month, day)), TimeOfDay(hour, minute), offset)
            == CombineDateAndTime(IsoDate(CalendarDate(year + 1, month - 12, day)), TimeOfDay(hour, minute), offset)
  {
    FormFieldsReadBack(CalendarDate(year, month, day), hour, minute, offset);
    FormFieldsReadBack(CalendarDate(year + 1, month - 12, day), hour, minute, offset);
    ConstructDateMonthCarry(CalendarDate(year, month, day), CalendarDate(year + 1, month - 12, day), hour, minute, offset);
  }

  /** A piece that is not a number, or a missing piece, makes the whole
      composition NaN, which throws. */
  lemma CombineRejectsNaN(dateStr: string, timeStr: string, offset: int)
    requires NumberAt(Split(dateStr, '-'), 2).None? || NumberAt(Split(timeStr, ':'), 1).None?
    ensures CombineDateAndTime(dateStr, timeStr, offset) == Threw(ErrorObject(InvalidDateOrTime))
  {
  }

  // ---------------------------------------------------------------------
  // The client calls

  /** The JSON body of a response as the client reads it: parsing throws, or
      it yields an object whose `link` may be undefined. */
  datatype ResponseBody = Unparsable(thrown: Thrown) | JsonLink(link: Option<string>)

  /** What `fetch` gives the client: a rejected promise, or a response with
      its `ok` flag, status text and body. */
  datatype FetchOutcome =
    | NetworkFailure(thrown: Thrown)
    | Responded(ok: bool, statusText: string, body: ResponseBody)

  /** The JSON body generateScheduleLink posts; the ISO strings are
      represented by their time values, and the description by the instant
      whose locale rendering it embeds. */
  datatype ScheduleRequest = ScheduleRequest(startTime: int, endTime: int, summary: string, describedStart: int)

  /** A client call: the request it sent (if it got that far) and how it
      completed. */
  datatype ScheduleCall = ScheduleCall(sent: Option<ScheduleRequest>, result: Completion<Option<string>>)

  /** generateMeetLink: POST to the instant route and return `data.link`
      whatever the status; only a network failure or an unparsable body
      throws. */
  function GenerateMeetLink(fetch: FetchOutcome): (r: Completion<Option<string>>)
    ensures r.Returned? <==> fetch.Responded? && fetch.body.JsonLink?
    ensures r.Returned? ==> r.value == fetch.body.link
    ensures fetch.NetworkFailure? ==> r == Threw(fetch.thrown)
    ensures fetch.Responded? && fetch.body.Unparsable? ==> r == Threw(fetch.body.thrown)
  {
    match fetch
    case NetworkFailure(e) => Threw(e)
    case Responded(_, _, Unparsable(e)) => Threw(e)
    case Responded(_, _, JsonLink(link)) => Returned(link)
  }

  /** generateScheduleLink: compose the start, ask for one hour, default the
      summary when the title is empty, and POST; a non-ok response throws
      with its status text, otherwise `data.link` is returned unchecked. */
  function GenerateScheduleLink(title: string, date: string, time: string, offset: int,
                                fetch: FetchOutcome): (c: ScheduleCall)
    ensures c.sent.Some? ==> c.sent.value.endTime - c.sent.value.startTime == MsPerHour
    ensures c.sent.Some? ==> CombineDateAndTime(date, time, offset) == Returned(c.sent.value.startTime)
    ensures c.sent.Some? ==> c.sent.value.summary == if title == "" then DefaultScheduledTitle else title
    ensures c.sent.None? ==> c.result.Threw?
    ensures c.sent.Some? <==> CombineDateAndTime(date, time, offset).Returned?
                              && IsTimeValue(CombineDateAndTime(date, time, offset).value + MsPerHour)
    // A start whose hour-later end is not a time value: the end's
    // `toISOString` throws a RangeError before anything is sent.
    ensures CombineDateAndTime(date, time, offset).Returned?
            && !IsTimeValue(CombineDateAndTime(date, time, offset).value + MsPerHour)
            ==> c == ScheduleCall(None, Threw(ErrorObject(InvalidTimeValue)))
    ensures c.result.Returned? <==> c.sent.Some? && fetch.Responded? && fetch.ok && fetch.body.JsonLink?
    ensures c.result.Returned? ==> c.result.value == fetch.body.link
    ensures c.sent.Some? && fetch.Responded? && !fetch.ok
            ==> c.result == Threw(ErrorObject(FailedToCreatePrefix + fetch.statusText))
    ensures c.sent.Some? && fetch.NetworkFailure? ==> c.result == Threw(fetch.thrown)
    ensures c.sent.Some? && fetch.Responded? && fetch.ok && fetch.body.Unparsable?
            ==> c.result == Threw(fetch.body.thrown)
  {
    match CombineDateAndTime(date, time, offset)
    case Threw(e) => ScheduleCall(None, Threw(e))
    case Returned(start) =>
      if !IsTimeValue(start + MsPerHour) then ScheduleCall(None, Threw(ErrorObject(InvalidTimeValue)))
      else
        var request := ScheduleRequest(start, start + MsPerHour,
                                       if title == "" then DefaultScheduledTitle else title, start);
        var result :=
          match fetch
          case NetworkFailure(e) => Threw(e)
          case Responded(ok, statusText, body) =>
            if !ok then Threw(ErrorObject(FailedToCreatePrefix + statusText))
            else if body.Unparsable? then Threw(body.thrown)
            else Returned(body.link);
        ScheduleCall(Some(request), result)
  }

  /** No request leaves the client when the date or time does not compose. */
  lemma ScheduleLinkNeedsComposedStart(title: string, date: string, time: string, offset: int, fetch: FetchOutcome)
    requires CombineDateAndTime(date, time, offset).Threw?
    ensures GenerateScheduleLink(title, date, time, offset, fetch)
            == ScheduleCall(None, Threw(ErrorObject(InvalidDateOrTime)))
  {
  }

  /** One hour later on the form's clock is one hour later in time. */
  lemma CombineNextHour(d: CalendarDate, hour: nat, minute: nat, offset: int)
    requires 100 <= d.year <= 9999 && ValidDate(d) && hour < 23 && minute < 60
    requires -MsPerDay <= offset <= MsPerDay
    ensures CombineDateAndTime(IsoDate(d), TimeOfDay(hour, minute), offset).Returned?
    ensures CombineDateAndTime(IsoDate(d), TimeOfDay(hour + 1, minute), offset).Returned?
    ensures CombineDateAndTime(IsoDate(d), TimeOfDay(hour + 1, minute), offset).value
            == CombineDateAndTime(IsoDate(d), TimeOfDay(hour, minute), offset).value + MsPerHour
  {
    CombineOfComposed(d, hour, minute, offset);
    CombineOfComposed(d, hour + 1, minute, offset);
    ComposedNextHour(d, hour, minute, offset);
  }

  /** The request for a form date and time (hour before 23) starts at that
      local date and time and ends at the next hour of the same local day. */
  lemma ScheduledIntervalReadsBack(title: string, d: CalendarDate, hour: nat, minute: nat, offset: int,
                                   fetch: FetchOutcome)
    requires 100 <= d.year <= 9999 && ValidDate(d) && hour < 23 && minute < 60
    requires -MsPerDay <= offset <= MsPerDay
    ensures var call := GenerateScheduleLink(title, IsoDate(d), TimeOfDay(hour, minute), offset, fetch);
            && call.sent.Some?
            && LocalDateTime(call.sent.value.startTime, offset) == DateTime(d, hour, minute)
            && LocalDateTime(call.sent.value.endTime, offset) == DateTime(d, hour + 1, minute)
  {
    var date, time, later := IsoDate(d), TimeOfDay(hour, minute), TimeOfDay(hour + 1, minute);
    CombineRoundTrip(d, hour, minute, offset);
    CombineRoundTrip(d, hour + 1, minute, offset);
    var start := CombineDateAndTime(date, time, offset).value;
    var end := CombineDateAndTime(date, later, offset).value;
    assert end == start + MsPerHour by {
      CombineNextHour(d, hour, minute, offset);
    }
    assert IsTimeValue(end);
    SentFromStart(title, date, time, offset, fetch, start);
  }

  /** A date-time that composes to `start`, with an end still representable,
      is sent as the hour from `start`. */
  lemma SentFromStart(title: string, date: string, time: string, offset: int, fetch: FetchOutcome, start: int)
    requires CombineDateAndTime(date, time, offset) == Returned(start) && IsTimeValue(start + MsPerHour)
    ensures GenerateScheduleLink(title, date, time, offset, fetch).sent.Some?
    ensures GenerateScheduleLink(title, date, time, offset, fetch).sent.value.startTime == start
    ensures GenerateScheduleLink(title, date, time, offset, fetch).sent.value.endTime == start + MsPerHour
  {
  }

  /** A meeting titled "Sprint Review" on 2099-01-01 at 10:00 asks for
      10:00 to 11:00 local time on that day, under its own title. */
  lemma SprintReviewScenario(offset: int, fetch: FetchOutcome)
    requires -MsPerDay <= offset <= MsPerDay
    ensures var call := GenerateScheduleLink("Sprint Review", "2099-01-01", "10:00", offset, fetch);
            && call.sent.Some?
            && call.sent.value.summary == "Sprint Review"
            && LocalDateTime(call.sent.value.startTime, offset) == DateTime(CalendarDate(2099, 1, 1), 10, 0)
            && LocalDateTime(call.sent.value.endTime, offset) == DateTime(CalendarDate(2099, 1, 1), 11, 0)
  {
    SprintReviewFields();
    ScheduledIntervalReadsBack("Sprint Review", CalendarDate(2099, 1, 1), 10, 0, offset, fetch);
  }

  /** The form strings of that meeting are the ones the inputs write. */
  lemma SprintReviewFields()
    ensures IsoDate(CalendarDate(2099, 1, 1)) == "2099-01-01"
    ensures TimeOfDay(10, 0) == "10:00"
  {
  }
}
