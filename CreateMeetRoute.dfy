/** app/api/create-meet/route.ts: the POST handler that creates a
    half-hour "Quick Meet" starting now. The token lookup sits outside the
    try/catch; every failure inside it is one fixed 500 response. */
module CreateMeetRoute {
  import opened JsText
  import opened EcmaTime
  import opened Gateway

  const QuickMeetSummary := "Quick Meet"
  const QuickMeetDescription := "Generated via Fusion Flow App"
  const FailedToCreateEvent := "Failed to create event"
  /** Thirty minutes, the length of an instant meeting. */
  const InstantDuration := 30 * MsPerMinute

  /** POST /api/create-meet. `now` is the `new Date()` read inside the try
      block and `outcome` what the calendar answers if the event is
      inserted. */
  function Post(token: TokenLookup, now: int, outcome: InsertOutcome): (x: Exchange)
    // Only a throwing token lookup escapes the handler.
    ensures x.reply.Unhandled? <==> token.LookupThrew?
    ensures x.reply.Unhandled? ==> x == Exchange(None, Unhandled(token.thrown))
    // No session, or a session without an access token: 401, no calendar call.
    ensures (token.NoSession? || (token.Session? && !TruthyString(token.accessToken)))
            ==> x == Exchange(None, Json(401, ErrorOnly(NotAuthenticated)))
    // The calendar is called exactly when the credential is there and both
    // instants have an ISO form.
    ensures x.insert.Some? <==> token.Session? && TruthyString(token.accessToken)
                                && IsTimeValue(now) && IsTimeValue(now + InstantDuration)
    // The fixed half-hour request starting now.
    ensures x.insert.Some? ==>
              x.insert.value == EventRequest(token.accessToken, PrimaryCalendar,
                                             Text(QuickMeetSummary), Text(QuickMeetDescription),
                                             now, now + InstantDuration, EventTimeZone,
                                             RequestId(now), false)
    // A created event answers 200 with its Hangout link, whatever it is.
    ensures x.insert.Some? && outcome.Inserted? ==> x.reply == Json(200, MeetLink(outcome.hangoutLink))
    // Past the credential check, an instant out of range or a throwing
    // insert is the same unclassified 500.
    ensures token.Session? && TruthyString(token.accessToken) && !(x.insert.Some? && outcome.Inserted?)
            ==> x.reply == Json(500, ErrorOnly(FailedToCreateEvent))
    ensures x.reply.Json? && x.reply.status != 200 && x.reply.status != 401
            ==> x.reply == Json(500, ErrorOnly(FailedToCreateEvent))
  {
    match token
    case LookupThrew(e) => Exchange(None, Unhandled(e))
    case NoSession => Exchange(None, Json(401, ErrorOnly(NotAuthenticated)))
    case Session(accessToken) =>
      if !TruthyString(accessToken) then Exchange(None, Json(401, ErrorOnly(NotAuthenticated)))
      else if !IsTimeValue(now) || !IsTimeValue(now + InstantDuration) then
        // `toISOString` throws a RangeError inside the try.
        Exchange(None, Json(500, ErrorOnly(FailedToCreateEvent)))
      else
        var request := EventRequest(accessToken, PrimaryCalendar,
                                    Text(QuickMeetSummary), Text(QuickMeetDescription),
                                    now, now + InstantDuration, EventTimeZone, RequestId(now), false);
        match outcome
        case InsertThrew(_) => Exchange(Some(request), Json(500, ErrorOnly(FailedToCreateEvent)))
        case Inserted(_, hangoutLink, _) => Exchange(Some(request), Json(200, MeetLink(hangoutLink)))
  }

  /** The requested interval is thirty minutes from now, and the request id
      reads back as that same now. */
  lemma InstantInterval(token: TokenLookup, now: int, outcome: InsertOutcome)
    requires Post(token, now, outcome).insert.Some?
    ensures var r := Post(token, now, outcome).insert.value;
            && r.start == now && r.end - r.start == 1_800_000
            && r.requestId[..|RequestIdPrefix|] == RequestIdPrefix
            && StringToNumber(r.requestId[|RequestIdPrefix|..]) == Some(r.start)
  {
  }

  /** A successful insert without a Hangout link still answers 200, with
      the link absent. */
  lemma MissingLinkStillSucceeds(accessToken: string, now: int, id: Option<string>, uris: seq<Option<string>>)
    requires accessToken != "" && IsTimeValue(now) && IsTimeValue(now + InstantDuration)
    ensures Post(Session(Some(accessToken)), now, Inserted(id, None, uris)).reply == Json(200, MeetLink(None))
  {
  }

  /** No error text is inspected: whatever the calendar throws, the answer
      is the same 500. */
  lemma FailureUnclassified(token: TokenLookup, now: int, e1: Thrown, e2: Thrown)
    ensures Post(token, now, InsertThrew(e1)).reply == Post(token, now, InsertThrew(e2)).reply
  {
  }
}
