/** lib/store/meetingsSlice.ts: the client-side meeting history, an
    in-memory list with two reducers, append and clear. */
module MeetingsSlice {
  import opened JsText

  datatype MeetingType = Instant | Scheduled

  /** A history record. `createdAt` and `scheduledFor` are ISO strings in
      the store and are represented by the time values they encode. The link
      is declared a string but holds whatever link generation returned,
      which may be undefined. */
  datatype Meeting = Meeting(
    id: string,
    kind: MeetingType,
    title: string,
    link: Option<string>,
    createdAt: int,
    scheduledFor: Option<int>)

  /** The actions the slice accepts. */
  datatype Action = Add(payload: Meeting) | Clear

  /** The reducers on the meetings list: `addMeeting` pushes its payload at
      the end and keeps every earlier entry, with no deduplication;
      `clearMeetings` empties the list. */
  function Reduce(meetings: seq<Meeting>, action: Action): (r: seq<Meeting>)
    ensures action.Add? ==> |r| == |meetings| + 1 && r[..|meetings|] == meetings && r[|meetings|] == action.payload
    ensures action.Add? ==> multiset(r) == multiset(meetings) + multiset{action.payload}
    ensures action.Clear? ==> r == []
  {
    match action
    case Add(m) =>
      assert (meetings + [m])[..|meetings|] == meetings;
      meetings + [m]
    case Clear => []
  }

  /** The list after dispatching `actions` in order, starting from `meetings`. */
  function Replay(meetings: seq<Meeting>, actions: seq<Action>): seq<Meeting>
    decreases |actions|
  {
    if actions == [] then meetings
    else Reduce(Replay(meetings, actions[..|actions| - 1]), actions[|actions| - 1])
  }

  /** The payloads of the `Add` actions, in order. */
  function Payloads(actions: seq<Action>): seq<Meeting>
    decreases |actions|
  {
    if actions == [] then []
    else Payloads(actions[..|actions| - 1])
         + (if actions[|actions| - 1].Add? then [actions[|actions| - 1].payload] else [])
  }

  /** The position just after the last `Clear`, or 0 when there is none. */
  function SinceLastClear(actions: seq<Action>): (k: nat)
    ensures k <= |actions|
    ensures k > 0 ==> actions[k - 1].Clear?
    decreases |actions|
  {
    if actions == [] then 0
    else if actions[|actions| - 1].Clear? then |actions|
    else SinceLastClear(actions[..|actions| - 1])
  }

  /** No reducer removes or edits a single record: after any sequence of
      actions the list is the starting list (if nothing was cleared) or
      nothing, followed by exactly the payloads added since the last clear,
      in the order they were added. */
  lemma {:induction false} ReplayKeepsAddsSinceLastClear(meetings: seq<Meeting>, actions: seq<Action>)
    ensures Replay(meetings, actions)
            == (if SinceLastClear(actions) == 0 then meetings else []) + Payloads(actions[SinceLastClear(actions)..])
    decreases |actions|
  {
    if actions != [] {
      var n := |actions|;
      if actions[n - 1].Add? {
        ReplayKeepsAddsSinceLastClear(meetings, actions[..n - 1]);
        ReplayStepAdd(meetings, actions);
      } else {
        assert SinceLastClear(actions) == n;
        assert actions[n..] == [];
      }
    }
  }

  /** The inductive step of the lemma above for a final `Add`. */
  lemma ReplayStepAdd(meetings: seq<Meeting>, actions: seq<Action>)
    requires actions != [] && actions[|actions| - 1].Add?
    requires var prefix := actions[..|actions| - 1];
             Replay(meetings, prefix)
             == (if SinceLastClear(prefix) == 0 then meetings else []) + Payloads(prefix[SinceLastClear(prefix)..])
    ensures Replay(meetings, actions)
            == (if SinceLastClear(actions) == 0 then meetings else []) + Payloads(actions[SinceLastClear(actions)..])
  {
    var n := |actions|;
    var prefix := actions[..n - 1];
    var last := actions[n - 1];
    var k := SinceLastClear(prefix);
    var base := if k == 0 then meetings else [];
    assert SinceLastClear(actions) == k;
    PayloadsOfSuffix(actions, k);
    calc {
      Replay(meetings, actions);
      Reduce(Replay(meetings, prefix), last);
      Replay(meetings, prefix) + [last.payload];
      base + Payloads(prefix[k..]) + [last.payload];
      base + Payloads(actions[k..]);
    }
  }

  /** Extending the actions by an `Add` extends the payloads of a suffix. */
  lemma PayloadsOfSuffix(actions: seq<Action>, k: nat)
    requires k < |actions| && actions[|actions| - 1].Add?
    ensures Payloads(actions[k..]) == Payloads(actions[..|actions| - 1][k..]) + [actions[|actions| - 1].payload]
  {
    var suffix := actions[k..];
    assert suffix[..|suffix| - 1] == actions[..|actions| - 1][k..];
    assert suffix[|suffix| - 1] == actions[|actions| - 1];
  }

  /** The store's state: the `meetings` list of the slice. */
  class MeetingsState {
    var meetings: seq<Meeting>

    /** `initialState`: no meetings. */
    constructor ()
      ensures meetings == []
    {
      meetings := [];
    }

    /** `addMeeting`: push the payload in place. */
    method AddMeeting(m: Meeting)
      modifies this
      ensures meetings == Reduce(old(meetings), Add(m))
    {
      meetings := meetings + [m];
    }

    /** `clearMeetings`: replace the list with an empty one. */
    method ClearMeetings()
      modifies this
      ensures meetings == Reduce(old(meetings), Clear)
    {
      meetings := [];
    }
  }
}
