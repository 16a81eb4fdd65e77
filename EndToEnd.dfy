/** The client and the server routes together: a route's reply, as the
    client's `fetch` sees it, and the scheduled request, as the route reads
    it. */
module EndToEnd {
  import opened JsText
  import opened EcmaTime
  import opened Utils
  import opened Gateway
  import opened MeetingsSlice
  import CreateScheduledMeetRoute
  import CreateMeetRoute
  import InstantMeeting
  import ScheduledMeeting

  /** The `link` field of a JSON reply, absent from error bodies. */
  function LinkField(p: Payload): (link: Option<string>)
    ensures p.ScheduledLink? ==> link == Some(p.link)
    ensures p.MeetLink? ==> link == p.instantLink
    ensures p.ErrorOnly? || p.ErrorDetails? ==> link.None?
  {
    match p
    case ScheduledLink(link, _, _) => Some(link)
    case MeetLink(link) => link
    case _ => None
  }

  /** A route's reply as `fetch` delivers it: `ok` for a 2xx status, the
      status text the server sent, and the JSON body. An exception that
      escapes a route becomes a 500 whose body is not JSON, so reading it
      throws `jsonError`. */
  function AsFetch(reply: Reply, statusText: string, jsonError: Thrown): (f: FetchOutcome)
    ensures f.Responded?
    ensures f.ok <==> reply.Json? && 200 <= reply.status < 300
    ensures reply.Json? ==> f.body == JsonLink(LinkField(reply.payload))
  {
    match reply
    case Json(status, payload) => Responded(200 <= status < 300, statusText, JsonLink(LinkField(payload)))
    case Unhandled(_) => Responded(false, statusText, Unparsable(jsonError))
  }

  /** Signed out, the instant button still records a meeting: the route
      answers 401 with an error body, `generateMeetLink` ignores the status
      and returns the absent link, and the record is appended without one. */
  lemma SignedOutInstantMeetingHasNoLink(now: int, outcome: InsertOutcome, statusText: string, jsonError: Thrown,
                                         idClock: int, createdClock: int)
    requires IsTimeValue(createdClock)
    ensures var fetch := AsFetch(CreateMeetRoute.Post(NoSession, now, outcome).reply, statusText, jsonError);
            && InstantMeeting.InstantRecord(idClock, createdClock, fetch).Returned?
            && InstantMeeting.InstantRecord(idClock, createdClock, fetch).value.link.None?
  {
  }

  /** Whenever the scheduled route does not answer with a 2xx status, the
      client throws and no record is built, whatever the form held. */
  lemma ScheduledFailureAppendsNothing(reply: Reply, statusText: string, jsonError: Thrown,
                                       pending: ScheduledMeeting.PendingSchedule, idClock: int, createdClock: int,
                                       offset: int)
    requires !(reply.Json? && 200 <= reply.status < 300)
    ensures var call := GenerateScheduleLink(pending.title, pending.date, pending.time, offset,
                                             AsFetch(reply, statusText, jsonError));
            ScheduledMeeting.ScheduledRecord(pending, idClock, createdClock, call).Threw?
  {
  }

  /** A calendar event with no link at all ends in no history record: the
      route answers 500 "Failed to generate meeting link" and the client
      throws. */
  lemma NoLinkNoRecord(token: TokenLookup, body: CreateScheduledMeetRoute.BodyRead, now: int, insertClock: int,
                       parse: string -> Option<int>, id: Option<string>, statusText: string, jsonError: Thrown,
                       pending: ScheduledMeeting.PendingSchedule, idClock: int, createdClock: int, offset: int)
    ensures var x := CreateScheduledMeetRoute.Post(token, body, now, insertClock, parse, Inserted(id, None, []));
            var call := GenerateScheduleLink(pending.title, pending.date, pending.time, offset,
                                             AsFetch(x.reply, statusText, jsonError));
            && x.reply.status != 200
            && ScheduledMeeting.ScheduledRecord(pending, idClock, createdClock, call).Threw?
  {
    var outcome := Inserted(id, None, []);
    var x := CreateScheduledMeetRoute.Post(token, body, now, insertClock, parse, outcome);
    assert x.reply.status != 200 by {
      if x.reply.status == 200 {
        CreateScheduledMeetRoute.SuccessCarriesLink(token, body, now, insertClock, parse, outcome);
        CreateScheduledMeetRoute.NoLinkIsFailure(id, x.insert.value.start);
        assert false;
      }
    }
    ScheduledFailureAppendsNothing(x.reply, statusText, jsonError, pending, idClock, createdClock, offset);
  }

  /** The JSON body the client posts for a scheduled request; the
      description embeds a locale rendering, which is not modelled. */
  function ServerBody(request: ScheduleRequest, description: string): (b: CreateScheduledMeetRoute.RequestBody)
    ensures b.startTime == Text(IsoString(request.startTime)) && b.endTime == Text(IsoString(request.endTime))
    ensures b.summary == Text(request.summary) && b.description == Text(description)
  {
    CreateScheduledMeetRoute.RequestBody(Text(IsoString(request.startTime)), Text(IsoString(request.endTime)),
                                         Text(request.summary), Text(description))
  }

  /** The host parser reads back every ISO string it writes, as
      `Date.parse(x.toISOString())` must. */
  ghost predicate ReadsIsoStrings(parse: string -> Option<int>)
  {
    forall t :: IsTimeValue(t) ==> parse(IsoString(t)) == Some(t)
  }

  lemma IsoStringTruthy(t: int)
    ensures Truthy(Text(IsoString(t)))
  {
  }

  /** A request the client sends reaches the calendar with the client's own
      start, an end one hour later and the client's summary, exactly when
      that start is after the server's now. */
  lemma ScheduledRequestRoundTrip(title: string, date: string, time: string, offset: int, fetch: FetchOutcome,
                                  accessToken: Option<string>, description: string, now: int, insertClock: int,
                                  parse: string -> Option<int>, outcome: InsertOutcome)
    requires ReadsIsoStrings(parse)
    requires GenerateScheduleLink(title, date, time, offset, fetch).sent.Some?
    ensures var sent := GenerateScheduleLink(title, date, time, offset, fetch).sent.value;
            var x := CreateScheduledMeetRoute.Post(Session(accessToken),
                                                   CreateScheduledMeetRoute.BodyParsed(ServerBody(sent, description)),
                                                   now, insertClock, parse, outcome);
            && (x.insert.Some? <==> sent.startTime > now)
            && (x.insert.Some? ==>
                  && x.insert.value.start == sent.startTime
                  && x.insert.value.end == sent.startTime + MsPerHour
                  && x.insert.value.summary == Text(if title == "" then DefaultScheduledTitle else title))
  {
    var sent := GenerateScheduleLink(title, date, time, offset, fetch).sent.value;
    IsoStringTruthy(sent.startTime);
    IsoStringTruthy(sent.endTime);
    assert IsTimeValue(sent.startTime) && IsTimeValue(sent.endTime);
    assert ParseDate(parse, IsoString(sent.startTime)) == Some(sent.startTime);
    assert ParseDate(parse, IsoString(sent.endTime)) == Some(sent.endTime);
    CreateScheduledMeetRoute.InsertIffValid(Session(accessToken),
                                            CreateScheduledMeetRoute.BodyParsed(ServerBody(sent, description)),
                                            now, insertClock, parse, outcome);
  }
}
