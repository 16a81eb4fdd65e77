/** app/api/create-scheduled-meet/route.ts: the POST handler that validates
    a requested start, defaults the end, inserts a calendar event with a
    Meet conference and answers with its link. The whole handler runs inside
    one try/catch, so every thrown value is classified into a response. */
module CreateScheduledMeetRoute {
  import opened JsText
  import opened EcmaTime
  import opened Gateway

  const DefaultSummary := "My Fusion Flow Meet"
  const DefaultDescription := "Created via UI"
  const MissingStartTime := "Missing startTime"
  const InvalidStartTime := "Invalid startTime format"
  const NotInFuture := "Meeting must be scheduled for a future time"
  const LinkGenerationFailed := "Failed to generate meeting link"
  const InsufficientPermissionsText := "insufficient permissions"
  const InvalidGrantText := "invalid_grant"
  const PermissionDenied := "Insufficient permissions to create calendar events"
  const AuthExpired := "Authentication token expired. Please sign in again."
  const UpstreamError := "Failed to create scheduled event"
  const UnknownError := "Unknown error"

  /** The destructured fields of the JSON request body. */
  datatype RequestBody = RequestBody(startTime: JsonText, endTime: JsonText, summary: JsonText, description: JsonText)

  /** What `req.json()` and the destructuring gave: the fields, or a thrown
      value (malformed JSON, or a `null` body). */
  datatype BodyRead = BodyParsed(body: RequestBody) | BodyThrew(thrown: Thrown)

  /** A destructuring default: it applies only when the field is absent,
      so an explicit `null` or `""` is kept. */
  function WithDefault(f: JsonText, default: string): (r: JsonText)
    ensures f.Missing? ==> r == Text(default)
    ensures !f.Missing? ==> r == f
  {
    if f.Missing? then Text(default) else f
  }

  /** The catch block: an Error whose message mentions insufficient
      permissions is 403, checked first; one mentioning `invalid_grant` is
      401; anything else is 500 with the message, or "Unknown error" for a
      thrown value that is not an Error, as details. */
  function Classify(e: Thrown): (r: Reply)
    ensures r.Json?
    ensures r.status == 403 <==> e.ErrorObject? && Includes(e.message, InsufficientPermissionsText)
    ensures r.status == 401 <==> e.ErrorObject? && !Includes(e.message, InsufficientPermissionsText)
                                 && Includes(e.message, InvalidGrantText)
    ensures r.status == 403 || r.status == 401 || r.status == 500
    ensures r.status == 403 ==> r.payload == ErrorOnly(PermissionDenied)
    ensures r.status == 401 ==> r.payload == ErrorOnly(AuthExpired)
    ensures r.status == 500 ==> r.payload == ErrorDetails(UpstreamError, if e.ErrorObject? then e.message else UnknownError)
  {
    if e.ErrorObject? && Includes(e.message, InsufficientPermissionsText) then
      Json(403, ErrorOnly(PermissionDenied))
    else if e.ErrorObject? && Includes(e.message, InvalidGrantText) then
      Json(401, ErrorOnly(AuthExpired))
    else
      Json(500, ErrorDetails(UpstreamError, if e.ErrorObject? then e.message else UnknownError))
  }

  /** `hangoutLink || conferenceData?.entryPoints?.[0]?.uri`: the Hangout
      link when it is a non-empty string, otherwise the first entry point's
      URI, which may be absent too. */
  function MeetLinkOf(hangoutLink: Option<string>, entryPointUris: seq<Option<string>>): (link: Option<string>)
    ensures TruthyString(hangoutLink) ==> link == hangoutLink
    ensures !TruthyString(hangoutLink) && |entryPointUris| > 0 ==> link == entryPointUris[0]
    ensures !TruthyString(hangoutLink) && |entryPointUris| == 0 ==> link.None?
  {
    if TruthyString(hangoutLink) then hangoutLink
    else if |entryPointUris| > 0 then entryPointUris[0]
    else None
  }

  /** The end of the event: `new Date(endTime)` when `endTime` is truthy,
      otherwise one hour after the start. */
  function EndOf(parse: string -> Option<int>, endTime: JsonText, start: int): (end: Option<int>)
    ensures end.Some? ==> IsTimeValue(end.value)
    ensures !Truthy(endTime) ==> end == TimeClip(start + MsPerHour)
    ensures Truthy(endTime) ==> end == ParseDate(parse, endTime.s)
  {
    if Truthy(endTime) then ParseDate(parse, endTime.s) else TimeClip(start + MsPerHour)
  }

  /** The answer to a completed insert for an event starting at `start`. */
  function Answer(outcome: InsertOutcome, start: int): (r: Reply)
    ensures r.Json?
    ensures r.status == 200 <==> outcome.Inserted? && TruthyString(MeetLinkOf(outcome.hangoutLink, outcome.entryPointUris))
    ensures r.status == 200 ==> r.payload == ScheduledLink(MeetLinkOf(outcome.hangoutLink, outcome.entryPointUris).value,
                                                           outcome.id, start)
    ensures outcome.Inserted? && r.status != 200 ==> r.payload == ErrorOnly(LinkGenerationFailed) && r.status == 500
    ensures outcome.InsertThrew? ==> r == Classify(outcome.thrown)
  {
    match outcome
    case InsertThrew(e) => Classify(e)
    case Inserted(id, hangoutLink, uris) =>
      var link := MeetLinkOf(hangoutLink, uris);
      if !TruthyString(link) then Json(500, ErrorOnly(LinkGenerationFailed))
      else Json(200, ScheduledLink(link.value, id, start))
  }

  /** POST /api/create-scheduled-meet. `now` is the `new Date()` the start is
      compared with, `insertClock` the `Date.now()` read for the request id,
      `parse` the host's date-string parser, and `outcome` what the calendar
      answers if the event is inserted. */
  function Post(token: TokenLookup, body: BodyRead, now: int, insertClock: int,
                parse: string -> Option<int>, outcome: InsertOutcome): (x: Exchange)
    // Nothing escapes the try/catch.
    ensures x.reply.Json?
    // A throwing token lookup is classified by the catch.
    ensures token.LookupThrew? ==> x == Exchange(None, Classify(token.thrown))
    // No session: 401 before the body is looked at.
    ensures token.NoSession? ==> x == Exchange(None, Json(401, ErrorOnly(NotAuthenticated)))
    // A body that cannot be read is classified by the catch.
    ensures token.Session? && body.BodyThrew? ==> x == Exchange(None, Classify(body.thrown))
    // A valid future start whose end is not a time value: `toISOString`
    // throws a RangeError, classified as a 500 with its message.
    ensures token.Session? && body.BodyParsed? && Truthy(body.body.startTime)
            && ParseDate(parse, body.body.startTime.s).Some?
            && ParseDate(parse, body.body.startTime.s).value > now
            && EndOf(parse, body.body.endTime, ParseDate(parse, body.body.startTime.s).value).None?
            ==> x == Exchange(None, Classify(ErrorObject(InvalidTimeValue)))
    // Every 400 comes before the calendar is called.
    ensures x.reply.status == 400 ==> x.insert.None?
    ensures x.reply == Json(401, ErrorOnly(NotAuthenticated)) ==> x.insert.None?
    // An insert is sent only for a parsed start strictly after now.
    ensures x.insert.Some? ==>
              token.Session? && body.BodyParsed? && Truthy(body.body.startTime)
              && ParseDate(parse, body.body.startTime.s) == Some(x.insert.value.start)
              && x.insert.value.start > now
              && EndOf(parse, body.body.endTime, x.insert.value.start) == Some(x.insert.value.end)
    // Text fields are defaulted only when absent; everything else is fixed.
    ensures x.insert.Some? ==>
              x.insert.value == EventRequest(token.accessToken, PrimaryCalendar,
                                             WithDefault(body.body.summary, DefaultSummary),
                                             WithDefault(body.body.description, DefaultDescription),
                                             x.insert.value.start, x.insert.value.end,
                                             EventTimeZone, RequestId(insertClock), true)
    // After the insert, the answer depends only on the calendar's outcome.
    ensures x.insert.Some? ==> x.reply == Answer(outcome, x.insert.value.start)
  {
    match token
    case LookupThrew(e) => Exchange(None, Classify(e))
    case NoSession => Exchange(None, Json(401, ErrorOnly(NotAuthenticated)))
    case Session(accessToken) =>
      match body
      case BodyThrew(e) => Exchange(None, Classify(e))
      case BodyParsed(b) =>
        if !Truthy(b.startTime) then Exchange(None, Json(400, ErrorOnly(MissingStartTime)))
        else
          var start := ParseDate(parse, b.startTime.s);
          if start.None? then Exchange(None, Json(400, ErrorOnly(InvalidStartTime)))
          else if start.value <= now then Exchange(None, Json(400, ErrorOnly(NotInFuture)))
          else
            var end := EndOf(parse, b.endTime, start.value);
            if end.None? then Exchange(None, Classify(ErrorObject(InvalidTimeValue)))
            else
              var request := EventRequest(accessToken, PrimaryCalendar,
                                          WithDefault(b.summary, DefaultSummary),
                                          WithDefault(b.description, DefaultDescription),
                                          start.value, end.value, EventTimeZone,
                                          RequestId(insertClock), true);
              Exchange(Some(request), Answer(outcome, start.value))
  }

  /** The validation chain in order: given a session and a readable body,
      a falsy start is 400 "Missing startTime", an unparseable one 400
      "Invalid startTime format", one not after now 400 "must be in the
      future", and only then is the end computed. */
  lemma PostValidationOrder(accessToken: Option<string>, b: RequestBody, now: int, insertClock: int,
                            parse: string -> Option<int>, outcome: InsertOutcome)
    ensures var x := Post(Session(accessToken), BodyParsed(b), now, insertClock, parse, outcome);
            && (!Truthy(b.startTime) ==> x.reply == Json(400, ErrorOnly(MissingStartTime)))
            && ((Truthy(b.startTime) && ParseDate(parse, b.startTime.s).None?)
                ==> x.reply == Json(400, ErrorOnly(InvalidStartTime)))
            && ((Truthy(b.startTime) && ParseDate(parse, b.startTime.s).Some?
                 && ParseDate(parse, b.startTime.s).value <= now)
                ==> x.reply == Json(400, ErrorOnly(NotInFuture)))
  {
  }

  /** Exactly when the calendar is called: a session, a readable body, a
      truthy start that parses to an instant after now, and an end that is
      a valid time value. */
  lemma InsertIffValid(token: TokenLookup, body: BodyRead, now: int, insertClock: int,
                       parse: string -> Option<int>, outcome: InsertOutcome)
    ensures Post(token, body, now, insertClock, parse, outcome).insert.Some?
            <==> token.Session? && body.BodyParsed? && Truthy(body.body.startTime)
                 && ParseDate(parse, body.body.startTime.s).Some?
                 && ParseDate(parse, body.body.startTime.s).value > now
                 && EndOf(parse, body.body.endTime, ParseDate(parse, body.body.startTime.s).value).Some?
  {
  }

  /** Without `endTime` the event lasts exactly one hour. */
  lemma DefaultEndIsOneHour(token: TokenLookup, body: BodyRead, now: int, insertClock: int,
                            parse: string -> Option<int>, outcome: InsertOutcome)
    requires body.BodyParsed? && !Truthy(body.body.endTime)
    requires Post(token, body, now, insertClock, parse, outcome).insert.Some?
    ensures var r := Post(token, body, now, insertClock, parse, outcome).insert.value;
            r.end - r.start == MsPerHour
  {
  }

  /** An explicit `endTime` is taken as it parses, with no check against
      the start: whenever the start passes validation and the end parses,
      the event is sent with exactly that end, even one before the start. */
  lemma ExplicitEndUnchecked(token: TokenLookup, b: RequestBody, now: int, insertClock: int,
                             parse: string -> Option<int>, outcome: InsertOutcome)
    requires token.Session? && Truthy(b.startTime) && Truthy(b.endTime)
    requires ParseDate(parse, b.startTime.s).Some? && ParseDate(parse, b.startTime.s).value > now
    requires ParseDate(parse, b.endTime.s).Some?
    ensures var x := Post(token, BodyParsed(b), now, insertClock, parse, outcome);
            && x.insert.Some?
            && x.insert.value.start == ParseDate(parse, b.startTime.s).value
            && x.insert.value.end == ParseDate(parse, b.endTime.s).value
  {
  }

  /** For instance, an end one hour before the start is sent as is. */
  lemma ExplicitEndBeforeStart()
    ensures var parse := (s: string) => if s == "start" then Some(2 * MsPerHour) else Some(MsPerHour);
            var x := Post(Session(None), BodyParsed(RequestBody(Text("start"), Text("end"), Missing, Missing)),
                          0, 0, parse, InsertThrew(NonError));
            x.insert.Some? && x.insert.value.end < x.insert.value.start
  {
    var parse := (s: string) => if s == "start" then Some(2 * MsPerHour) else Some(MsPerHour);
    assert ParseDate(parse, "start") == Some(2 * MsPerHour);
    assert ParseDate(parse, "end") == Some(MsPerHour);
  }

  /** The route checks only that a session exists: a session without an
      access token still reaches the calendar, with no credential set. */
  lemma SessionWithoutAccessTokenInserts(b: RequestBody, now: int, insertClock: int,
                                         parse: string -> Option<int>, outcome: InsertOutcome)
    requires Post(Session(Some("t")), BodyParsed(b), now, insertClock, parse, outcome).insert.Some?
    ensures Post(Session(None), BodyParsed(b), now, insertClock, parse, outcome).insert.Some?
    ensures Post(Session(None), BodyParsed(b), now, insertClock, parse, outcome).insert.value.accessToken.None?
  {
  }

  /** A successful reply always carries a non-empty link, the event's id
      and the start the client asked for. */
  lemma SuccessCarriesLink(token: TokenLookup, body: BodyRead, now: int, insertClock: int,
                           parse: string -> Option<int>, outcome: InsertOutcome)
    requires Post(token, body, now, insertClock, parse, outcome).reply.status == 200
    ensures var x := Post(token, body, now, insertClock, parse, outcome);
            && x.insert.Some? && outcome.Inserted?
            && x.reply.payload.ScheduledLink?
            && x.reply.payload.link != ""
            && x.reply.payload.eventId == outcome.id
            && x.reply.payload.scheduledFor == x.insert.value.start
            && Some(x.reply.payload.scheduledFor) == ParseDate(parse, body.body.startTime.s)
  {
  }

  /** A calendar answer with neither a Hangout link nor an entry-point URI
      is a 500 "Failed to generate meeting link", even though the event was
      created. */
  lemma NoLinkIsFailure(id: Option<string>, start: int)
    ensures Answer(Inserted(id, None, []), start) == Json(500, ErrorOnly(LinkGenerationFailed))
    ensures Answer(Inserted(id, Some(""), [Some("")]), start) == Json(500, ErrorOnly(LinkGenerationFailed))
  {
  }

  /** The permission check comes first: a message that mentions both
      insufficient permissions and `invalid_grant` is a 403. */
  lemma PermissionBeforeGrant(message: string, i: nat, j: nat)
    requires OccursAt(message, InsufficientPermissionsText, i)
    requires OccursAt(message, InvalidGrantText, j)
    ensures Classify(ErrorObject(message)) == Json(403, ErrorOnly(PermissionDenied))
  {
    IncludesIffOccurs(message, InsufficientPermissionsText);
  }

  /** The classification by where the texts occur: 403 exactly when the
      message contains "insufficient permissions" somewhere; 401 exactly
      when it contains `invalid_grant` but not the former. */
  lemma ClassifyByOccurrence(message: string)
    ensures Classify(ErrorObject(message)).status == 403
            <==> exists i: nat :: OccursAt(message, InsufficientPermissionsText, i)
    ensures Classify(ErrorObject(message)).status == 401
            <==> (exists j: nat :: OccursAt(message, InvalidGrantText, j))
                 && !(exists i: nat :: OccursAt(message, InsufficientPermissionsText, i))
  {
    IncludesIffOccurs(message, InsufficientPermissionsText);
    IncludesIffOccurs(message, InvalidGrantText);
  }

  /** The RangeError `toISOString` throws names neither permissions nor
      `invalid_grant`, so it is a 500 carrying its own message. */
  lemma RangeErrorIs500()
    ensures Classify(ErrorObject(InvalidTimeValue)) == Json(500, ErrorDetails(UpstreamError, InvalidTimeValue))
  {
    NotIncludedWithoutChar(InvalidTimeValue, InsufficientPermissionsText, 5);
    NotIncludedWithoutChar(InvalidTimeValue, InvalidGrantText, 7);
  }

  /** A default end past the last representable instant makes
      `toISOString` throw a RangeError inside the try; it is answered as a
      500 with its message, and nothing is inserted. */
  lemma EndOutOfRangeIs500(accessToken: Option<string>, b: RequestBody, now: int, insertClock: int,
                           parse: string -> Option<int>, outcome: InsertOutcome)
    requires Truthy(b.startTime) && !Truthy(b.endTime)
    requires ParseDate(parse, b.startTime.s) == Some(MaxTimeValue)
    requires now < MaxTimeValue
    ensures Post(Session(accessToken), BodyParsed(b), now, insertClock, parse, outcome)
            == Exchange(None, Json(500, ErrorDetails(UpstreamError, InvalidTimeValue)))
  {
    RangeErrorIs500();
    assert EndOf(parse, b.endTime, MaxTimeValue).None?;
  }
}
