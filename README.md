# Google Meet scheduler, modelled in Dafny

This project models the core of a small Next.js application that creates Google Meet links. The application has two kinds of meeting:

- an **instant meeting**: a half-hour "Quick Meet" starting now;
- a **scheduled meeting**: a one-hour event at a date and time picked in a form.

The model follows the application's own structure:

- Two server routes:
  - `POST /api/create-meet` (`CreateMeetRoute`);
  - `POST /api/create-scheduled-meet` (`CreateScheduledMeetRoute`).
  - Both build a Google Calendar insert request (`Gateway`). They validate the input, pick the defaults and the request id, and map calendar failures to HTTP statuses.
- The client helpers in `lib/utils.ts` (`Utils`):
  - `combineDateAndTime`, which builds a local `Date` from a `YYYY-MM-DD` string and an `HH:MM` string;
  - `generateMeetLink` and `generateScheduleLink`.
- The Redux slice holding the meeting history (`MeetingsSlice`). It is a class whose list the reducers replace.
- The history card's sorted, stable, newest-first view (`MeetingHistory`).
- The two client components, as classes whose event handlers change their state:
  - the scheduling form (`ScheduledMeeting`), including `getTomorrowDate`;
  - the instant-meeting panel (`InstantMeeting`).
  - Each handler is split at its first `await`: `Submit`/`Complete` and `Start`/`Finish`. A composite method runs the whole handler.
- The message table of the sign-in error page (`AuthErrorPage`).
- `EndToEnd` joins the two sides. A route's reply is read by the client's `fetch`. A scheduled request sent by the client is read back by the route.

Two support modules model the JavaScript built-ins the core relies on:

- `JsText`:
  - `String.prototype.includes`;
  - `split` on one character;
  - `Number()` on digit strings;
  - `String(n)` and zero padding;
  - the `Option` / `Completion` wrappers used for NaN and thrown exceptions.
- `EcmaTime` covers ECMA-262 time values:
  - Day, MakeDay, MakeTime, MakeDate and TimeClip (sections 21.4.1.x);
  - the calendar date of a day, found by search;
  - the `Date(y, m, d, h, min)` constructor (section 21.4.2.1), including its 0–99 → 1900–1999 year rule;
  - `getDate`/`setDate`;
  - `toISOString` (sections 21.4.4.36 and 21.4.1.32).

**Representation choices**

- **Time values and ISO strings.** A time value is an `int` number of milliseconds. NaN is `None`. An ISO string stored in a record or sent in JSON is represented by the time value it encodes. `getTomorrowDate` is the exception: it returns a string, built by the modelled `toISOString`.
- **Inputs from outside.** Each clock read is a parameter of the operation that reads it. So are the host's date-string parser and the local time-zone offset. The same holds for what the NextAuth token lookup returns, what the Calendar API answers and what `fetch` delivers.

## Model

| member | source | states |
|---|---|---|
| JsText.StampedId | components/instant-meeting.tsx:35 | an id written as a prefix followed by `Date.now()` starts with the prefix, and its remainder reads back as the clock |
| Gateway.RequestId | app/api/create-scheduled-meet/route.ts:77 | the conference request id is "fusion-flow-meeting-" followed by a suffix that reads back as the clock value it was built from |
| Gateway.RequestIdInjective | app/api/create-scheduled-meet/route.ts:77 | two clock readings give the same request id only if they are equal |
| CreateScheduledMeetRoute.Classify | app/api/create-scheduled-meet/route.ts:114-139 | a thrown Error whose message includes "insufficient permissions" is 403; otherwise one including "invalid_grant" is 401; anything else, non-Error throws included, is 500 with the message or "Unknown error" as details |
| CreateScheduledMeetRoute.Answer | app/api/create-scheduled-meet/route.ts:88-113 | a created event with a link answers 200 with link, event id and start; without a link, 500 "Failed to generate meeting link"; a throwing insert is classified |
| CreateScheduledMeetRoute.Post | app/api/create-scheduled-meet/route.ts:5-141 | the reply is always JSON (the try covers the token lookup); a throwing token lookup or body read is classified by the catch; no session is 401 with no insert; every 400 happens before the calendar call; an insert has the session's token, the defaults, the parsed future start, the computed end, "primary", "Asia/Kolkata", a request id from the insert clock and status confirmed; a valid future start with an explicit end that is not a time value is the classified RangeError 500 "Invalid time value"; the reply after an insert is the answer to the calendar's outcome |
| CreateScheduledMeetRoute.PostValidationOrder | app/api/create-scheduled-meet/route.ts:26-44 | a falsy start is 400 "Missing startTime", an unparsable one 400 "Invalid startTime format", one not after now 400 "Meeting must be scheduled for a future time", in that order |
| CreateScheduledMeetRoute.InsertIffValid | app/api/create-scheduled-meet/route.ts:7-86 | the calendar is called exactly when there is a session, a readable body, a truthy start parsing to an instant after now, and an end in range |
| CreateScheduledMeetRoute.DefaultEndIsOneHour | app/api/create-scheduled-meet/route.ts:46-48 | without endTime the inserted event lasts exactly one hour |
| CreateScheduledMeetRoute.ExplicitEndUnchecked | app/api/create-scheduled-meet/route.ts:46-47 | for every valid future start and every explicit endTime that parses, the insert carries exactly that end, with no check against the start |
| CreateScheduledMeetRoute.ExplicitEndBeforeStart | app/api/create-scheduled-meet/route.ts:46-47 | an explicit endTime one hour before the start is inserted unchanged |
| CreateScheduledMeetRoute.SessionWithoutAccessTokenInserts | app/api/create-scheduled-meet/route.ts:7-10 | only the session's presence is checked: a session without an access token still reaches the calendar, with no credential |
| CreateScheduledMeetRoute.SuccessCarriesLink | app/api/create-scheduled-meet/route.ts:88-113 | a 200 reply implies an insert that succeeded, a non-empty link, the event's id and scheduledFor equal to the parsed start |
| CreateScheduledMeetRoute.NoLinkIsFailure | app/api/create-scheduled-meet/route.ts:92-98 | an event with no usable link is answered 500 although it was created |
| CreateScheduledMeetRoute.PermissionBeforeGrant | app/api/create-scheduled-meet/route.ts:119-130 | a message containing both texts is classified 403 |
| CreateScheduledMeetRoute.ClassifyByOccurrence | app/api/create-scheduled-meet/route.ts:118-131 | 403 iff "insufficient permissions" occurs at some index; 401 iff "invalid_grant" occurs and the former does not |
| CreateScheduledMeetRoute.RangeErrorIs500 | app/api/create-scheduled-meet/route.ts:133-139 | the RangeError "Invalid time value" is answered 500 with its message as details |
| CreateScheduledMeetRoute.EndOutOfRangeIs500 | app/api/create-scheduled-meet/route.ts:46-72 | a default end past the last time value makes the route answer 500 "Invalid time value" without calling the calendar |
| CreateMeetRoute.Post | app/api/create-meet/route.ts:6-47 | only a throwing token lookup escapes; no session or a falsy access token is 401; the calendar is called exactly when the token is there and both instants are in range, with "Quick Meet", now to now+30 min, request id from now; success is 200 with the Hangout link as is; past the credential check, an out-of-range instant or a throwing insert is 500 "Failed to create event", and every other failure is that same 500 |
| CreateMeetRoute.InstantInterval | app/api/create-meet/route.ts:21-35 | the inserted interval is 1 800 000 ms starting at now, and the request id reads back as that now |
| CreateMeetRoute.MissingLinkStillSucceeds | app/api/create-meet/route.ts:42 | an event without a Hangout link still answers 200, with the link absent |
| CreateMeetRoute.FailureUnclassified | app/api/create-meet/route.ts:43-46 | the answer to a failed insert does not depend on what was thrown |
| Utils.CombineDateAndTime | lib/utils.ts:83-97 | the result, when returned, is a valid time value; the only error is "Invalid date or time format" |
| Utils.CombineReadsPositionally | lib/utils.ts:85-89 | the date pieces are read as year, month, day by position and the time as hours, minutes, the month made zero-based, all passed to the Date constructor |
| Utils.FormFieldsReadBack | lib/utils.ts:83-97 | a padded YYYY-MM-DD and HH:MM compose exactly as the constructor on those numbers |
| Utils.CombineRoundTrip | lib/utils.ts:83-97 | a form date (years 0100–9999) and time in range compose to an instant whose local wall clock reads that date, hour and minute |
| Utils.CombineTwoDigitYear | lib/utils.ts:89 | years 0000–0099 are composed as 1900–1999 |
| Utils.CombineMonthCarry | lib/utils.ts:89-94 | a month past December is not rejected: month 13 composes as January of the next year, month 14 as February, and so on |
| Utils.CombineRejectsNaN | lib/utils.ts:85-94 | a missing or non-numeric day or minute piece throws |
| Utils.GenerateMeetLink | lib/utils.ts:8-16 | returns the body's link whatever the status; throws only on a network failure or an unparsable body, and then throws exactly what they threw |
| Utils.GenerateScheduleLink | lib/utils.ts:50-81 | a request is sent exactly when the start composes and the hour-later end is a time value; a start whose end is not is the RangeError "Invalid time value", with nothing sent; the request spans exactly one hour; its summary is the title or "Team Sync-up"; a non-ok response throws "Failed to create scheduled meeting: " + status text; a network failure or an unparsable body rethrows what was thrown; otherwise the body's link is returned |
| Utils.ScheduleLinkNeedsComposedStart | lib/utils.ts:55 | when the composition throws, nothing is sent and the call throws the composition's error |
| Utils.CombineNextHour | lib/utils.ts:55-58 | the next hour on the form is exactly one hour later |
| Utils.ScheduledIntervalReadsBack | lib/utils.ts:50-73 | the request's start and end read locally as the form's date and time and one hour later |
| Utils.SprintReviewScenario | lib/utils.ts:50-73 | "Sprint Review" on 2099-01-01 at 10:00 asks for 10:00–11:00 local on that day under that title |
| EcmaTime.ConstructDate | lib/utils.ts:89 | NaN exactly when an argument is NaN or the result is out of range; otherwise a valid time value |
| EcmaTime.MakeDayRoundTrip | lib/utils.ts:89 | MakeDay on a valid calendar date lands on a day whose calendar date is that date |
| EcmaTime.DateOfDayRoundTrip | lib/utils.ts:89 | every day number has a valid date, and MakeDay maps it back |
| EcmaTime.ConstructDateReadsBack | lib/utils.ts:89 | a constructed in-range date reads back locally as the fields it was built from |
| EcmaTime.ParseDate | app/api/create-scheduled-meet/route.ts:30-31 | new Date(string) is the host parser's value when it is a valid time value, otherwise NaN |
| EcmaTime.SetDateToOwnDate | components/scheduled-meeting.tsx:116-117 | setting the day of the month to its own value changes nothing, whatever the offset |
| EcmaTime.SetDateNextDay | components/scheduled-meeting.tsx:116-117 | setting it one higher moves the instant exactly one day, across month and year ends |
| EcmaTime.IsoStringDatePart | components/scheduled-meeting.tsx:118 | the part of toISOString before "T" is the UTC calendar date |
| MeetingsSlice.Reduce | lib/store/meetingsSlice.ts:23-30 | addMeeting appends its payload and keeps every earlier entry in place, with no deduplication; clearMeetings empties the list |
| MeetingsSlice.ReplayKeepsAddsSinceLastClear | lib/store/meetingsSlice.ts:23-30 | after any action sequence the list is the initial list (if never cleared) or nothing, followed by exactly the payloads added since the last clear, in order |
| MeetingsSlice.MeetingsState.constructor | lib/store/meetingsSlice.ts:16-18 | the history starts empty |
| MeetingsSlice.MeetingsState.AddMeeting | lib/store/meetingsSlice.ts:24-26 | the new list is the reduction of the old one by an add |
| MeetingsSlice.MeetingsState.ClearMeetings | lib/store/meetingsSlice.ts:27-29 | the new list is empty |
| MeetingHistory.Insert | components/meeting-history.tsx:26 | inserting one record keeps the multiset, keeps newest-first order, and puts the record ahead of its own instant's records |
| MeetingHistory.SortedMeetings | components/meeting-history.tsx:26 | the sorted copy is a permutation of the stored list, newest first, and stable |
| MeetingHistory.StableOrderUnique | components/meeting-history.tsx:26 | two newest-first sequences that agree on each instant's order are equal |
| MeetingHistory.SortedMeetingsIsTheStableOrder | components/meeting-history.tsx:26 | any newest-first, stable rearrangement of the list is exactly the sorted copy |
| MeetingHistory.TwoMeetings | components/meeting-history.tsx:26 | a newer record is listed first; records of the same instant keep their stored order |
| MeetingHistory.RenderHistory | components/meeting-history.tsx:35-61 | the card shows the stored count and one entry per sorted record, with the "Scheduled" line exactly for records with a scheduled time |
| ScheduledMeeting.ScheduledRecord | components/scheduled-meeting.tsx:65-72 | a record is built exactly when the link call returned, the creation clock is valid and the date-time parsed; it has the scheduled kind, an id reading back as the clock, the title, the link as returned, and the two instants |
| ScheduledMeeting.ScheduledMeetingForm.constructor | components/scheduled-meeting.tsx:23-33 | the form starts empty, idle, with no result shown |
| ScheduledMeeting.ScheduledMeetingForm.Submit | components/scheduled-meeting.tsx:36-59 | it proceeds exactly when all fields are filled and the parsed date-time is not at or before now, NaN passing; it then marks the form busy; the fields are untouched |
| ScheduledMeeting.ScheduledMeetingForm.Complete | components/scheduled-meeting.tsx:61-100 | on success one record is appended, the result is shown and the fields are reset; on any throw nothing changes but the busy flag; the busy flag is always cleared |
| ScheduledMeeting.ScheduledMeetingForm.ScheduleMeeting | components/scheduled-meeting.tsx:36-101 | a refused submission changes nothing; an accepted one makes exactly one link call, appends at most its one record and ends idle; when the record is made the summary is shown with the old title and the fields are cleared, and when it throws the summary and fields are unchanged |
| ScheduledMeeting.RecordOnlyAfterOkResponse | components/scheduled-meeting.tsx:65-74 | a record implies an ok response with a JSON body and a composed start |
| ScheduledMeeting.UnparsedDateTimeCreatesEventWithoutRecord | components/scheduled-meeting.tsx:49-71 | a date-time the host cannot parse passes the guard, the request is sent, and the record then throws |
| ScheduledMeeting.GuardInstantIsSentStart | components/scheduled-meeting.tsx:49-57 | for a form date `YYYY-MM-DD` with a year from 0100 to 9999 and a time `HH:mm`, a host that reads the local date-time form as ECMA-262 prescribes gives the future-time guard exactly the start that `combineDateAndTime` sends, so the guard refuses exactly the starts at or before now |
| ScheduledMeeting.TwoDigitYearGuardInstantDiffers | components/scheduled-meeting.tsx:49-50 | for a year from 0000 to 0099 the guard's instant and the sent start are never equal, because the constructor reads the year as 19xx and the string parser does not |
| ScheduledMeeting.GetTomorrowDate | components/scheduled-meeting.tsx:115-119 | throws exactly when setDate's result is NaN |
| ScheduledMeeting.TomorrowIsToday | components/scheduled-meeting.tsx:115-119 | the result is today's UTC date |
| ScheduledMeeting.TomorrowIsNotTomorrow | components/scheduled-meeting.tsx:115-119 | the result is never the next day's date, for four-digit years |
| ScheduledMeeting.GetTomorrowDateCorrected | components/scheduled-meeting.tsx:115-119 | with setDate(getDate() + 1), throws exactly when that result is NaN |
| ScheduledMeeting.CorrectedTomorrowIsTomorrow | components/scheduled-meeting.tsx:115-119 | with setDate(getDate() + 1) the result is the next UTC day's date |
| InstantMeeting.InstantRecord | components/instant-meeting.tsx:34-41 | a record is built exactly when the link call returned and the clock is valid: instant kind, id reading back as the clock, "Instant Meeting", the link unchecked, no scheduled time |
| InstantMeeting.InstantMeetingPanel.constructor | components/instant-meeting.tsx:19-24 | the panel starts idle with no meeting shown |
| InstantMeeting.InstantMeetingPanel.Start | components/instant-meeting.tsx:29 | the panel is marked busy |
| InstantMeeting.InstantMeetingPanel.Finish | components/instant-meeting.tsx:32-49 | on success one record is appended, shown and the panel made idle; on a throw nothing changes, so the panel stays busy |
| InstantMeeting.InstantMeetingPanel.CreateInstantMeeting | components/instant-meeting.tsx:28-55 | the panel is left busy exactly when the handler threw; the history grows by the record only on success, which also sets the current meeting to its id, link and creation time; a throw leaves the current meeting unchanged |
| InstantMeeting.RecordWithoutLink | components/instant-meeting.tsx:38 | a reply without a link, whatever its status, still gives a record without a link |
| AuthErrorPage.GetErrorMessage | app/auth/error/page.tsx:13-24 | the three known codes map to their messages; absent and any other code give the generic message, and only they do |
| AuthErrorPage.KnownCodesDistinct | app/auth/error/page.tsx:14-20 | distinct known codes give distinct messages |
| EndToEnd.AsFetch | lib/utils.ts:60-79 | the client sees ok exactly for a 2xx JSON reply, and the body's link field |
| EndToEnd.SignedOutInstantMeetingHasNoLink | lib/utils.ts:8-16 | signed out, the instant button still appends a record, with no link |
| EndToEnd.ScheduledFailureAppendsNothing | lib/utils.ts:75-77 | any non-2xx reply from the scheduled route leaves no record |
| EndToEnd.NoLinkNoRecord | app/api/create-scheduled-meet/route.ts:92-98 | an event created without a link is reported as failure and leaves no record |
| EndToEnd.ScheduledRequestRoundTrip | lib/utils.ts:55-72 | a request the client sends reaches the calendar exactly when its start is after the server's now, with the client's start, an end one hour later and the client's summary |

## Left out

- The calendar, NextAuth and `fetch` are not called. Their results are parameters: `TokenLookup`, `InsertOutcome` and `FetchOutcome`.
- `conferenceDataVersion` and `conferenceSolutionKey` are constant parts of every insert and are not carried in `EventRequest`.
- `EndToEnd.ServerBody`: the description embeds `toLocaleString()` of the start. It is kept as an opaque string, since locale formatting is host-defined.
- `JsText.StringToNumber`: `Number()` is modelled only for an optional sign followed by digits, and for the empty string as 0. Whitespace, decimals, exponents and hex prefixes are not modelled, because the form inputs produce digit strings.
- `EcmaTime.ParseDate`: the host's `Date` string parser is a parameter, not a model of the parser of section 21.4.3.2 of ECMA-262. For years 0001 to 9999 the form's `${date}T${time}` is `YYYY-MM-DDTHH:mm`, which section 21.4.1.32 reads as local time. A date input with a longer year, such as `10000-01-01`, gives a string outside that format, since an expanded year needs a sign and six digits. Such a string is also outside the hypothesis below, so for it the guard's instant is whatever `parse` gives. The model states that reading as a hypothesis, `ScheduledMeeting.ReadsLocalDateTimes`, and only `GuardInstantIsSentStart` and `TwoDigitYearGuardInstantDiffers` rely on it. Elsewhere, in `Submit`, `ScheduleMeeting` and `UnparsedDateTimeCreatesEventWithoutRecord`, the guard's instant is whatever `parse` returns, so those members do not tie it to the start that `generateScheduleLink` sends. There, a past date-time is refused on the client only when `parse` says so. The server still refuses it (`CreateScheduledMeetRoute.PostValidationOrder`). `EndToEnd.ScheduledRequestRoundTrip` assumes only that the parser reads back ISO strings.
- `EcmaTime.LocalDateTime`: the local time zone is one fixed offset, so daylight-saving changes between two instants are not modelled.
- `EcmaTime.ConstructDate`: the constructor's arguments are integers. Fractional or infinite arguments cannot arise from the digit strings the form produces.
- Toasts, the simulated `setTimeout` delays, the clipboard, `window.open`, console logging and `cn()` are not modelled, because they do not affect state.
- The rendered JSX is modelled only through `MeetingHistory.RenderHistory`. `app/page.tsx`, `components/meeting-scheduler.tsx` and `app/providers.tsx` are not part of this model.
- The composite handlers assume that no other event runs during their `await`. Interleavings, such as a second click while busy, are left to `Submit`/`Complete` and `Start`/`Finish`, which can be composed in any order.
- JSON body fields that are not strings are not modelled. A field is absent, `null` or a string.
- When an exception escapes a route handler, the framework answers with its own error page. The model records only which value was thrown (`Unhandled`), not that page. Only the instant route's token lookup, which sits outside its try, can do this.
- `Utils.CombineMonthCarry`: the code passes month and hour to the `Date` constructor unchecked, so month 13 or hour 25 roll over rather than being rejected. The model follows the code.
- `MeetingHistory.SortedMeetings`: the comparator reads `createdAt` back through `new Date(...)`. Records always store a valid instant, so a NaN comparison cannot occur and is not modelled.

## Findings

| source | as written | input that shows it | evidently intended | confidence | as-written member | corrected member |
|---|---|---|---|---|---|---|
| components/scheduled-meeting.tsx:115-119 | `getTomorrowDate` sets the day of the month to its current value, so the earliest selectable date is today's UTC date | any clock reading, e.g. 0 ms (1970-01-01T00:00Z), gives "1970-01-01" rather than "1970-01-02" | `setDate(getDate() + 1)`: the next day's date | not executed; the function's name and variable say tomorrow | ScheduledMeeting.TomorrowIsNotTomorrow | ScheduledMeeting.CorrectedTomorrowIsTomorrow |
