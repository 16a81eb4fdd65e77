/** The boundary the two server routes share: the session-token lookup, the
    Google Calendar `events.insert` call and the JSON response. The foreign
    calls are not modelled; their outcomes are values handed to the routes,
    and the request a route sends is recorded beside its reply. */
module Gateway {
  import opened JsText

  const PrimaryCalendar := "primary"
  const EventTimeZone := "Asia/Kolkata"
  const RequestIdPrefix := "fusion-flow-meeting-"
  const NotAuthenticated := "Not authenticated"

  /** What `getToken` gave: no session, a session token whose `accessToken`
      may be missing, or a thrown value. */
  datatype TokenLookup = NoSession | Session(accessToken: Option<string>) | LookupThrew(thrown: Thrown)

  /** The `events.insert` call as sent: the credential set on the OAuth
      client, the calendar, the request body's text fields, the start and
      end instants (their ISO strings are represented by the time values),
      the time zone, the conference `requestId` and whether the body asks
      for `status: "confirmed"`. The constant `conferenceDataVersion: 1`
      and the `hangoutsMeet` solution key are the same on every call and are
      not recorded. */
  datatype EventRequest = EventRequest(
    accessToken: Option<string>,
    calendarId: string,
    summary: JsonText,
    description: JsonText,
    start: int,
    end: int,
    timeZone: string,
    requestId: string,
    confirmed: bool)

  /** What `events.insert` gave: the created event's `id`, `hangoutLink`
      and the `uri` of each conference entry point (an empty sequence when
      `conferenceData` or `entryPoints` is absent), or a thrown value. */
  datatype InsertOutcome =
    | Inserted(id: Option<string>, hangoutLink: Option<string>, entryPointUris: seq<Option<string>>)
    | InsertThrew(thrown: Thrown)

  /** The JSON bodies the routes answer with. */
  datatype Payload =
    | ErrorOnly(error: string)
    | ErrorDetails(error: string, details: string)
    | ScheduledLink(link: string, eventId: Option<string>, scheduledFor: int)
    | MeetLink(instantLink: Option<string>)

  /** A route's answer: a JSON response with a status, or an exception that
      escapes the handler. */
  datatype Reply = Json(status: int, payload: Payload) | Unhandled(thrown: Thrown)

  /** One request handled by a route: the insert it sent, if any, and its reply. */
  datatype Exchange = Exchange(insert: Option<EventRequest>, reply: Reply)

  /** The conference `requestId`: the prefix followed by a millisecond clock. */
  function RequestId(clock: int): (id: string)
    ensures |RequestIdPrefix| < |id| && id[..|RequestIdPrefix|] == RequestIdPrefix
    ensures StringToNumber(id[|RequestIdPrefix|..]) == Some(clock)
  {
    StampedId(RequestIdPrefix, clock)
  }

  /** Two requests get the same `requestId` only when they read the same clock. */
  lemma RequestIdInjective(a: int, b: int)
    requires RequestId(a) == RequestId(b)
    ensures a == b
  {
  }
}
