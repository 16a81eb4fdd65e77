/** components/scheduled-meeting.tsx: the form that schedules a meeting.
    `scheduleMeeting` checks the fields and the time synchronously, marks
    the form busy, awaits the link, appends one record to the history,
    shows the result and resets the form; a `finally` clears the busy flag.
    The handler is split at its first `await` into `Submit` and `Complete`.
    `getTomorrowDate` gives the minimum selectable date. */
module ScheduledMeeting {
  import opened JsText
  import opened EcmaTime
  import opened Utils
  import opened MeetingsSlice

  const ScheduledIdPrefix := "scheduled-"

  /** What the form shows after a success. */
  datatype ScheduledSummary = ScheduledSummary(id: string, title: string, link: Option<string>, scheduledFor: int)

  /** What the handler carries across its `await`: the field values it
      captured and the parsed `${date}T${time}` (None when NaN). */
  datatype PendingSchedule = PendingSchedule(title: string, date: string, time: string, scheduledAt: Option<int>)

  /** The synchronous guards: every field filled in, and the parsed local
      date-time not at or before now. A NaN date-time compares false and so
      passes. */
  predicate PassesGuards(title: string, date: string, time: string, scheduledAt: Option<int>, now: int)
  {
    title != "" && date != "" && time != "" && !(scheduledAt.Some? && scheduledAt.value <= now)
  }

  /** The record built after the link arrives: id from the `Date.now()` read
      before the await, the link as returned, `createdAt` from a clock read
      after it and `scheduledFor` the guard's parsed date-time. Building it
      throws when the link call threw, or when either `toISOString` meets an
      invalid date. */
  function ScheduledRecord(pending: PendingSchedule, idClock: int, createdClock: int, call: ScheduleCall)
    : (c: Completion<Meeting>)
    ensures c.Returned? <==> call.result.Returned? && IsTimeValue(createdClock) && pending.scheduledAt.Some?
    ensures c.Returned? ==>
              && c.value.kind == Scheduled
              && |ScheduledIdPrefix| < |c.value.id| && c.value.id[..|ScheduledIdPrefix|] == ScheduledIdPrefix
              && StringToNumber(c.value.id[|ScheduledIdPrefix|..]) == Some(idClock)
              && c.value.title == pending.title
              && c.value.link == call.result.value
              && c.value.createdAt == createdClock
              && c.value.scheduledFor == pending.scheduledAt
    ensures call.result.Threw? ==> c == Threw(call.result.thrown)
  {
    if call.result.Threw? then Threw(call.result.thrown)
    else if !IsTimeValue(createdClock) || pending.scheduledAt.None? then Threw(ErrorObject(InvalidTimeValue))
    else
      Returned(Meeting(StampedId(ScheduledIdPrefix, idClock), Scheduled, pending.title, call.result.value, createdClock, pending.scheduledAt))
  }

  /** The scheduling form's state, and the history it dispatches to. */
  class ScheduledMeetingForm {
    var title: string
    var date: string
    var time: string
    var isScheduling: bool
    var scheduledMeeting: Option<ScheduledSummary>
    const store: MeetingsState

    constructor (store: MeetingsState)
      ensures title == "" && date == "" && time == ""
      ensures !isScheduling && scheduledMeeting.None? && this.store == store
    {
      title, date, time := "", "", "";
      isScheduling := false;
      scheduledMeeting := None;
      this.store := store;
    }

    /** `scheduleMeeting` up to its first `await`: the guards, then the
        busy flag. `now` is the `new Date()` compared with and `parse` the
        host's date-string parser. */
    method Submit(now: int, parse: string -> Option<int>) returns (pending: Option<PendingSchedule>)
      modifies this
      ensures var scheduledAt := ParseDate(parse, old(date) + "T" + old(time));
              && (pending.Some? <==> PassesGuards(old(title), old(date), old(time), scheduledAt, now))
              && (pending.Some? ==> pending.value == PendingSchedule(old(title), old(date), old(time), scheduledAt))
      ensures isScheduling == (old(isScheduling) || pending.Some?)
      ensures title == old(title) && date == old(date) && time == old(time)
      ensures scheduledMeeting == old(scheduledMeeting)
    {
      if title == "" || date == "" || time == "" {
        return None;
      }
      var scheduledAt := ParseDate(parse, date + "T" + time);
      if scheduledAt.Some? && scheduledAt.value <= now {
        return None;
      }
      isScheduling := true;
      pending := Some(PendingSchedule(title, date, time, scheduledAt));
    }

    /** `scheduleMeeting` after its first `await`: ask for the link with the
        captured fields, build and append the record, show it and reset the
        form; on any throw nothing is appended and the form keeps its
        fields. The busy flag is cleared on every path. `idClock` and
        `createdClock` are the two clock reads, `offset` the local offset of
        the date-time composition and `fetch` the server's answer. */
    method Complete(pending: PendingSchedule, idClock: int, createdClock: int, offset: int, fetch: FetchOutcome)
      returns (call: ScheduleCall)
      modifies this, store
      ensures call == GenerateScheduleLink(pending.title, pending.date, pending.time, offset, fetch)
      ensures var record := ScheduledRecord(pending, idClock, createdClock, call);
              && (record.Returned? ==>
                    && store.meetings == old(store.meetings) + [record.value]
                    && scheduledMeeting == Some(ScheduledSummary(record.value.id, pending.title,
                                                                 record.value.link, pending.scheduledAt.value))
                    && title == "" && date == "" && time == "")
              && (record.Threw? ==>
                    && store.meetings == old(store.meetings)
                    && scheduledMeeting == old(scheduledMeeting)
                    && title == old(title) && date == old(date) && time == old(time))
      ensures !isScheduling
    {
      call := GenerateScheduleLink(pending.title, pending.date, pending.time, offset, fetch);
      var record := ScheduledRecord(pending, idClock, createdClock, call);
      if record.Returned? {
        store.AddMeeting(record.value);
        scheduledMeeting := Some(ScheduledSummary(record.value.id, pending.title,
                                                  record.value.link, pending.scheduledAt.value));
        title, date, time := "", "", "";
      }
      isScheduling := false;
    }

    /** The whole handler when no other event runs during its `await`. */
    method ScheduleMeeting(now: int, parse: string -> Option<int>, idClock: int, createdClock: int,
                           offset: int, fetch: FetchOutcome)
      returns (call: Option<ScheduleCall>)
      modifies this, store
      ensures var scheduledAt := ParseDate(parse, old(date) + "T" + old(time));
              !PassesGuards(old(title), old(date), old(time), scheduledAt, now) ==>
                && call.None?
                && store.meetings == old(store.meetings)
                && isScheduling == old(isScheduling)
                && title == old(title) && date == old(date) && time == old(time)
                && scheduledMeeting == old(scheduledMeeting)
      ensures var scheduledAt := ParseDate(parse, old(date) + "T" + old(time));
              var pending := PendingSchedule(old(title), old(date), old(time), scheduledAt);
              PassesGuards(old(title), old(date), old(time), scheduledAt, now) ==>
                && call == Some(GenerateScheduleLink(old(title), old(date), old(time), offset, fetch))
                && !isScheduling
                && var record := ScheduledRecord(pending, idClock, createdClock, call.value);
                   && store.meetings == old(store.meetings) + (if record.Returned? then [record.value] else [])
                   && (record.Returned? ==>
                         && scheduledMeeting == Some(ScheduledSummary(record.value.id, old(title),
                                                                      record.value.link, scheduledAt.value))
                         && title == "" && date == "" && time == "")
                   && (record.Threw? ==>
                         && scheduledMeeting == old(scheduledMeeting)
                         && title == old(title) && date == old(date) && time == old(time))
    {
      var pending := Submit(now, parse);
      if pending.None? {
        return None;
      }
      var c := Complete(pending.value, idClock, createdClock, offset, fetch);
      call := Some(c);
    }
  }

  /** At most one record per submission, and only when the server answered
      ok with a parsable body: a failed request never leaves a record. */
  lemma RecordOnlyAfterOkResponse(pending: PendingSchedule, idClock: int, createdClock: int,
                                  offset: int, fetch: FetchOutcome)
    requires ScheduledRecord(pending, idClock, createdClock,
                             GenerateScheduleLink(pending.title, pending.date, pending.time, offset, fetch)).Returned?
    ensures fetch.Responded? && fetch.ok && fetch.body.JsonLink?
    ensures CombineDateAndTime(pending.date, pending.time, offset).Returned?
  {
  }

  /** A date-time the host parser cannot read passes the future-time guard;
      the request is still sent and may create the event, yet building the
      record then throws, so nothing is appended. */
  lemma UnparsedDateTimeCreatesEventWithoutRecord(title: string, date: string, time: string, idClock: int,
                                                  createdClock: int, offset: int, link: Option<string>)
    requires title != "" && date != "" && time != ""
    requires CombineDateAndTime(date, time, offset).Returned?
    requires IsTimeValue(CombineDateAndTime(date, time, offset).value + MsPerHour)
    ensures PassesGuards(title, date, time, None, 0)
    ensures var call := GenerateScheduleLink(title, date, time, offset, Responded(true, "OK", JsonLink(link)));
            && call.sent.Some? && call.result == Returned(link)
            && ScheduledRecord(PendingSchedule(title, date, time, None), idClock, createdClock, call).Threw?
  {
  }

  /** A host parser that reads the local date-time form `YYYY-MM-DDTHH:mm`
      of the Date Time String Format as section 21.4.1.32 of ECMA-262 does
      (a date-time with no offset is local time), for four-digit years: the
      fields built by MakeDay and MakeTime, less the local offset, clipped. */
  ghost predicate ReadsLocalDateTimes(parse: string -> Option<int>, offset: int)
  {
    forall d: CalendarDate, hour: nat, minute: nat ::
      0 <= d.year <= 9999 && ValidDate(d) && hour < 24 && minute < 60 ==>
        parse(IsoDate(d) + "T" + TimeOfDay(hour, minute))
        == TimeClip(MakeDate(MakeDay(d.year, d.month - 1, d.day), MakeTime(hour, minute, 0, 0)) - offset)
  }

  /** What such a parser gives for one form date and time. */
  lemma LocalFormReading(parse: string -> Option<int>, offset: int, d: CalendarDate, hour: nat, minute: nat)
    requires ReadsLocalDateTimes(parse, offset)
    requires 0 <= d.year <= 9999 && ValidDate(d) && hour < 24 && minute < 60
    ensures ParseDate(parse, IsoDate(d) + "T" + TimeOfDay(hour, minute))
            == TimeClip(MakeDate(MakeDay(d.year, d.month - 1, d.day), MakeTime(hour, minute, 0, 0)) - offset)
  {
    assert parse(IsoDate(d) + "T" + TimeOfDay(hour, minute))
        == TimeClip(MakeDate(MakeDay(d.year, d.month - 1, d.day), MakeTime(hour, minute, 0, 0)) - offset);
  }

  /** For the form's own strings in the years 0100 to 9999, such a parser
      gives the future-time guard the very instant that `combineDateAndTime`
      sends, so the guard refuses exactly the starts at or before now. */
  lemma GuardInstantIsSentStart(title: string, d: CalendarDate, hour: nat, minute: nat, offset: int,
                                parse: string -> Option<int>, now: int)
    requires 100 <= d.year <= 9999 && ValidDate(d) && hour < 24 && minute < 60
    requires -MsPerDay <= offset <= MsPerDay
    requires ReadsLocalDateTimes(parse, offset)
    ensures var start := CombineDateAndTime(IsoDate(d), TimeOfDay(hour, minute), offset);
            var scheduledAt := ParseDate(parse, IsoDate(d) + "T" + TimeOfDay(hour, minute));
            && start.Returned?
            && scheduledAt == Some(start.value)
            && (PassesGuards(title, IsoDate(d), TimeOfDay(hour, minute), scheduledAt, now)
                <==> title != "" && start.value > now)
  {
    CombineOfComposed(d, hour, minute, offset);
    LocalFormReading(parse, offset, d, hour, minute);
    FormStringsNonEmpty(d, hour, minute);
  }

  /** Form strings are never empty, so they pass the filled-in guard. */
  lemma FormStringsNonEmpty(d: CalendarDate, hour: nat, minute: nat)
    ensures IsoDate(d) != "" && TimeOfDay(hour, minute) != ""
  {
    assert IsoDate(d)[|IsoYear(d.year)|] == '-';
    assert TimeOfDay(hour, minute)[|PadDigits(hour, 2)|] == ':';
  }

  /** In the years 0000 to 0099 the two readings part: the parser keeps the
      year while the constructor adds 1900, so the instant the guard checks
      is not the start that is sent. */
  lemma TwoDigitYearGuardInstantDiffers(d: CalendarDate, hour: nat, minute: nat, offset: int,
                                        parse: string -> Option<int>)
    requires 0 <= d.year <= 99 && ValidDate(d) && hour < 24 && minute < 60
    requires ReadsLocalDateTimes(parse, offset)
    ensures var start := CombineDateAndTime(IsoDate(d), TimeOfDay(hour, minute), offset);
            var scheduledAt := ParseDate(parse, IsoDate(d) + "T" + TimeOfDay(hour, minute));
            start.Returned? && scheduledAt.Some? ==> start.value != scheduledAt.value
  {
    FormFieldsReadBack(d, hour, minute, offset);
    LocalFormReading(parse, offset, d, hour, minute);
    TwoDigitYearDayLater(d);
  }

  /** The constructor's day for a two-digit year is later than the day the
      year itself names. */
  lemma TwoDigitYearDayLater(d: CalendarDate)
    requires 0 <= d.year <= 99 && ValidDate(d)
    ensures MakeDay(d.year, d.month - 1, d.day) < MakeDay(1900 + d.year, d.month - 1, d.day)
  {
    DayFromYearMonotone(d.year, 1900 + d.year);
  }

  /** `getTomorrowDate`: take now, set its local day of the month to the
      one it already has, and keep the date part of `toISOString()`. */
  function GetTomorrowDate(now: int, offset: int): (r: Completion<string>)
    ensures r.Returned? <==> SetDate(now, GetDate(now, offset), offset).Some?
  {
    match SetDate(now, GetDate(now, offset), offset)
    case None => Threw(ErrorObject(InvalidTimeValue))
    case Some(t) => Returned(Split(IsoString(t), 'T')[0])
  }

  /** `getTomorrowDate` returns today's UTC date, not tomorrow's: setting
      the day of the month to its own value changes nothing, whatever the
      local offset. */
  lemma TomorrowIsToday(now: int, offset: int)
    requires IsTimeValue(now)
    ensures GetTomorrowDate(now, offset) == Returned(IsoDate(DateOfDay(Day(now))))
  {
    SetDateToOwnDate(now, offset);
    IsoStringDatePart(now);
  }

  /** ... and that date is never the next day's, for four-digit years. */
  lemma TomorrowIsNotTomorrow(now: int, offset: int)
    requires IsTimeValue(now)
    requires 0 <= DateOfDay(Day(now)).year <= 9999 && 0 <= DateOfDay(Day(now) + 1).year <= 9999
    ensures GetTomorrowDate(now, offset) != Returned(IsoDate(DateOfDay(Day(now) + 1)))
  {
    TomorrowIsToday(now, offset);
    DateOfDayRoundTrip(Day(now));
    DateOfDayRoundTrip(Day(now) + 1);
    if IsoDate(DateOfDay(Day(now))) == IsoDate(DateOfDay(Day(now) + 1)) {
      IsoDateInjective(DateOfDay(Day(now)), DateOfDay(Day(now) + 1));
      DateOfDayInjective(Day(now), Day(now) + 1);
    }
  }

  /** The evidently intended `getTomorrowDate`: `setDate(getDate() + 1)`,
      one local day later, before taking the ISO date. */
  function GetTomorrowDateCorrected(now: int, offset: int): (r: Completion<string>)
    ensures r.Returned? <==> SetDate(now, GetDate(now, offset) + 1, offset).Some?
  {
    match SetDate(now, GetDate(now, offset) + 1, offset)
    case None => Threw(ErrorObject(InvalidTimeValue))
    case Some(t) => Returned(Split(IsoString(t), 'T')[0])
  }

  /** The corrected function gives the UTC date one day after now's. */
  lemma CorrectedTomorrowIsTomorrow(now: int, offset: int)
    requires IsTimeValue(now + MsPerDay)
    ensures GetTomorrowDateCorrected(now, offset) == Returned(IsoDate(DateOfDay(Day(now) + 1)))
  {
    CorrectedTomorrowIsOneDayLater(now, offset);
    IsoStringDatePart(now + MsPerDay);
    NextDay(now);
  }

  lemma CorrectedTomorrowIsOneDayLater(now: int, offset: int)
    requires IsTimeValue(now + MsPerDay)
    ensures GetTomorrowDateCorrected(now, offset) == Returned(Split(IsoString(now + MsPerDay), 'T')[0])
  {
    SetDateNextDay(now, offset);
  }
}
