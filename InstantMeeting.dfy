/** components/instant-meeting.tsx: the button that creates an instant
    meeting. `createInstantMeeting` marks the panel busy, awaits the link,
    appends one record, shows it and clears the busy flag. There is no
    try/finally: when the link call or the record's construction throws,
    the handler stops where it is. It is split at its first `await` into
    `Start` and `Finish`. */
module InstantMeeting {
  import opened JsText
  import opened EcmaTime
  import opened Utils
  import opened MeetingsSlice

  const InstantIdPrefix := "instant-"
  const InstantTitle := "Instant Meeting"

  /** What the panel shows after a success. */
  datatype CurrentMeeting = CurrentMeeting(id: string, link: Option<string>, createdAt: int)

  /** The record built after the link arrives: id from the `Date.now()` read
      before the await, the fixed title, the link exactly as returned (not
      checked), `createdAt` from a later clock read and no scheduled time.
      Building it throws when the link call threw, or when `toISOString`
      meets an invalid clock reading. */
  function InstantRecord(idClock: int, createdClock: int, fetch: FetchOutcome): (c: Completion<Meeting>)
    ensures c.Returned? <==> GenerateMeetLink(fetch).Returned? && IsTimeValue(createdClock)
    ensures c.Returned? ==>
              && c.value.kind == Instant
              && |InstantIdPrefix| < |c.value.id| && c.value.id[..|InstantIdPrefix|] == InstantIdPrefix
              && StringToNumber(c.value.id[|InstantIdPrefix|..]) == Some(idClock)
              && c.value.title == InstantTitle
              && c.value.link == GenerateMeetLink(fetch).value
              && c.value.createdAt == createdClock
              && c.value.scheduledFor.None?
    ensures GenerateMeetLink(fetch).Threw? ==> c == Threw(GenerateMeetLink(fetch).thrown)
  {
    var link := GenerateMeetLink(fetch);
    if link.Threw? then Threw(link.thrown)
    else if !IsTimeValue(createdClock) then Threw(ErrorObject(InvalidTimeValue))
    else
      Returned(Meeting(StampedId(InstantIdPrefix, idClock), Instant, InstantTitle, link.value, createdClock, None))
  }

  /** The instant panel's state, and the history it dispatches to. */
  class InstantMeetingPanel {
    var isGenerating: bool
    var currentMeeting: Option<CurrentMeeting>
    const store: MeetingsState

    constructor (store: MeetingsState)
      ensures !isGenerating && currentMeeting.None? && this.store == store
    {
      isGenerating := false;
      currentMeeting := None;
      this.store := store;
    }

    /** `createInstantMeeting` up to its first `await`. */
    method Start()
      modifies this
      ensures isGenerating && currentMeeting == old(currentMeeting)
    {
      isGenerating := true;
    }

    /** `createInstantMeeting` after its first `await`: on success append
        the record, show it and clear the busy flag; on a throw change
        nothing, so the busy flag stays as `Start` left it. */
    method Finish(idClock: int, createdClock: int, fetch: FetchOutcome) returns (record: Completion<Meeting>)
      modifies this, store
      ensures record == InstantRecord(idClock, createdClock, fetch)
      ensures record.Returned? ==>
                && store.meetings == old(store.meetings) + [record.value]
                && currentMeeting == Some(CurrentMeeting(record.value.id, record.value.link, createdClock))
                && !isGenerating
      ensures record.Threw? ==>
                && store.meetings == old(store.meetings)
                && currentMeeting == old(currentMeeting)
                && isGenerating == old(isGenerating)
    {
      record := InstantRecord(idClock, createdClock, fetch);
      if record.Returned? {
        store.AddMeeting(record.value);
        currentMeeting := Some(CurrentMeeting(record.value.id, record.value.link, createdClock));
        isGenerating := false;
      }
    }

    /** The whole handler when no other event runs during its `await`: the
        panel is left busy exactly when the handler threw. */
    method CreateInstantMeeting(idClock: int, createdClock: int, fetch: FetchOutcome)
      returns (record: Completion<Meeting>)
      modifies this, store
      ensures record == InstantRecord(idClock, createdClock, fetch)
      ensures isGenerating <==> record.Threw?
      ensures store.meetings == old(store.meetings) + (if record.Returned? then [record.value] else [])
      ensures record.Returned? ==> currentMeeting == Some(CurrentMeeting(record.value.id, record.value.link, createdClock))
      ensures record.Threw? ==> currentMeeting == old(currentMeeting)
    {
      Start();
      record := Finish(idClock, createdClock, fetch);
    }
  }

  /** The link is not checked: a server reply without a link, whatever its
      status, still gives a record, with no link. */
  lemma RecordWithoutLink(ok: bool, statusText: string, idClock: int, createdClock: int)
    requires IsTimeValue(createdClock)
    ensures InstantRecord(idClock, createdClock, Responded(ok, statusText, JsonLink(None))).Returned?
    ensures InstantRecord(idClock, createdClock, Responded(ok, statusText, JsonLink(None))).value.link.None?
  {
  }
}
