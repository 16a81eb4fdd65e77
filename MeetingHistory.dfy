/** components/meeting-history.tsx: the history card shows a sorted copy
    of the stored meetings, most recently created first. `Array.prototype.sort`
    is stable, so records created at the same instant keep their stored
    order. The copy is a new sequence; the stored list is not touched. */
module MeetingHistory {
  import opened JsText
  import opened MeetingsSlice

  /** Most recently created first. */
  predicate NewestFirst(s: seq<Meeting>)
  {
    forall i, j :: 0 <= i < j < |s| ==> s[i].createdAt >= s[j].createdAt
  }

  /** The records of `s` created at instant `k`, in their order in `s`. */
  function CreatedAt(s: seq<Meeting>, k: int): seq<Meeting>
    decreases |s|
  {
    if s == [] then []
    else (if s[0].createdAt == k then [s[0]] else []) + CreatedAt(s[1..], k)
  }

  /** Stable: the records of every creation instant appear in the same
      relative order in both sequences. */
  ghost predicate SameOrderPerInstant(a: seq<Meeting>, b: seq<Meeting>)
  {
    forall k :: CreatedAt(a, k) == CreatedAt(b, k)
  }

  lemma CreatedAtCons(m: Meeting, s: seq<Meeting>, k: int)
    ensures CreatedAt([m] + s, k) == (if m.createdAt == k then [m] else []) + CreatedAt(s, k)
  {
    assert ([m] + s)[1..] == s;
  }

  /** A record no older than any of `s` can head a newest-first `s`. */
  lemma ConsNewestFirst(m: Meeting, s: seq<Meeting>)
    requires NewestFirst(s)
    requires forall j :: 0 <= j < |s| ==> m.createdAt >= s[j].createdAt
    ensures NewestFirst([m] + s)
  {
    forall i, j | 0 <= i < j < |[m] + s| ensures ([m] + s)[i].createdAt >= ([m] + s)[j].createdAt {
      if i > 0 {
        assert ([m] + s)[i] == s[i - 1];
      }
      assert ([m] + s)[j] == s[j - 1];
    }
  }

  /** The head of a newest-first sequence is no older than anything that is
      in its tail or older than the head. */
  lemma HeadBoundsInsert(x: Meeting, r: seq<Meeting>, rest: seq<Meeting>)
    requires r != [] && NewestFirst(r) && r[0].createdAt > x.createdAt
    requires multiset(rest) == multiset(r[1..]) + multiset{x}
    ensures forall j :: 0 <= j < |rest| ==> r[0].createdAt >= rest[j].createdAt
  {
    forall j | 0 <= j < |rest| ensures r[0].createdAt >= rest[j].createdAt {
      assert rest[j] in multiset(rest);
      if rest[j] != x {
        assert rest[j] in multiset(r[1..]);
        var i :| 0 <= i < |r[1..]| && r[1..][i] == rest[j];
        assert r[i + 1] == rest[j];
      }
    }
  }

  /** One step of the insertion: `x` goes before the first record that is
      not newer than it, so it precedes every record of its own instant. */
  function Insert(x: Meeting, r: seq<Meeting>): (out: seq<Meeting>)
    ensures multiset(out) == multiset(r) + multiset{x}
    ensures NewestFirst(r) ==> NewestFirst(out)
    ensures forall k :: CreatedAt(out, k) == (if x.createdAt == k then [x] else []) + CreatedAt(r, k)
    decreases |r|
  {
    if r == [] || r[0].createdAt <= x.createdAt then
      InsertAtFront(x, r);
      [x] + r
    else
      var rest := Insert(x, r[1..]);
      InsertBehindHead(x, r, rest);
      [r[0]] + rest
  }

  /** The case where `x` goes first. */
  lemma InsertAtFront(x: Meeting, r: seq<Meeting>)
    requires r == [] || r[0].createdAt <= x.createdAt
    ensures multiset([x] + r) == multiset(r) + multiset{x}
    ensures NewestFirst(r) ==> NewestFirst([x] + r)
    ensures forall k :: CreatedAt([x] + r, k) == (if x.createdAt == k then [x] else []) + CreatedAt(r, k)
  {
    forall k ensures CreatedAt([x] + r, k) == (if x.createdAt == k then [x] else []) + CreatedAt(r, k) {
      CreatedAtCons(x, r, k);
    }
    if NewestFirst(r) {
      ConsNewestFirst(x, r);
    }
  }

  /** The case where `x` goes behind the head `r[0]`, which is newer. */
  lemma InsertBehindHead(x: Meeting, r: seq<Meeting>, rest: seq<Meeting>)
    requires r != [] && r[0].createdAt > x.createdAt
    requires multiset(rest) == multiset(r[1..]) + multiset{x}
    requires NewestFirst(r[1..]) ==> NewestFirst(rest)
    requires forall k :: CreatedAt(rest, k) == (if x.createdAt == k then [x] else []) + CreatedAt(r[1..], k)
    ensures multiset([r[0]] + rest) == multiset(r) + multiset{x}
    ensures NewestFirst(r) ==> NewestFirst([r[0]] + rest)
    ensures forall k :: CreatedAt([r[0]] + rest, k) == (if x.createdAt == k then [x] else []) + CreatedAt(r, k)
  {
    assert r == [r[0]] + r[1..];
    forall k ensures CreatedAt([r[0]] + rest, k) == (if x.createdAt == k then [x] else []) + CreatedAt(r, k) {
      InstantBehindHead(x, r[0], r[1..], rest, k);
    }
    if NewestFirst(r) {
      assert NewestFirst(r[1..]);
      HeadBoundsInsert(x, r, rest);
      ConsNewestFirst(r[0], rest);
    }
  }

  /** One instant's records when `x` goes behind a newer head `h`. */
  lemma InstantBehindHead(x: Meeting, h: Meeting, t: seq<Meeting>, rest: seq<Meeting>, k: int)
    requires h.createdAt > x.createdAt
    requires CreatedAt(rest, k) == (if x.createdAt == k then [x] else []) + CreatedAt(t, k)
    ensures CreatedAt([h] + rest, k) == (if x.createdAt == k then [x] else []) + CreatedAt([h] + t, k)
  {
    CreatedAtCons(h, rest, k);
    CreatedAtCons(h, t, k);
    if h.createdAt == k {
      assert x.createdAt != k;
    }
  }

  /** `[...meetings].sort((a, b) => b.createdAt - a.createdAt)`: a
      permutation of the stored records, newest first, stable. */
  function SortedMeetings(meetings: seq<Meeting>): (r: seq<Meeting>)
    ensures multiset(r) == multiset(meetings) && |r| == |meetings|
    ensures NewestFirst(r)
    ensures SameOrderPerInstant(r, meetings)
    decreases |meetings|
  {
    if meetings == [] then []
    else
      var tail := SortedMeetings(meetings[1..]);
      InsertHead(meetings, tail);
      Insert(meetings[0], tail)
  }

  /** The recursive step of the sort: inserting the head into the sorted
      tail keeps every record and each instant's order. */
  lemma InsertHead(meetings: seq<Meeting>, tail: seq<Meeting>)
    requires meetings != []
    requires multiset(tail) == multiset(meetings[1..])
    requires SameOrderPerInstant(tail, meetings[1..])
    ensures multiset(Insert(meetings[0], tail)) == multiset(meetings)
    ensures |Insert(meetings[0], tail)| == |meetings|
    ensures SameOrderPerInstant(Insert(meetings[0], tail), meetings)
  {
    var r := Insert(meetings[0], tail);
    assert meetings == [meetings[0]] + meetings[1..];
    forall k ensures CreatedAt(r, k) == CreatedAt(meetings, k) {
      CreatedAtCons(meetings[0], meetings[1..], k);
    }
    assert |r| == |multiset(r)| == |multiset(meetings)| == |meetings|;
  }

  /** The head's instant has a record: the head. */
  lemma HeadHasInstant(s: seq<Meeting>)
    requires s != []
    ensures CreatedAt(s, s[0].createdAt) != []
  {
  }

  /** An instant that has records in a newest-first sequence is no newer
      than its head. */
  lemma {:induction false} HeadIsNewest(s: seq<Meeting>, k: int)
    requires NewestFirst(s) && CreatedAt(s, k) != []
    ensures s != [] && s[0].createdAt >= k
    decreases |s|
  {
    if s[0].createdAt != k {
      assert NewestFirst(s[1..]);
      HeadIsNewest(s[1..], k);
      assert s[1..][0] == s[1];
    }
  }

  /** There is only one stable newest-first order: two sequences that are
      both newest first and agree on the order of every instant's records
      are equal. */
  lemma {:induction false} StableOrderUnique(a: seq<Meeting>, b: seq<Meeting>)
    requires NewestFirst(a) && NewestFirst(b) && SameOrderPerInstant(a, b)
    ensures a == b
    decreases |a|
  {
    if a == [] {
      if b != [] {
        HeadHasInstant(b);
      }
    } else if b == [] {
      HeadHasInstant(a);
    } else {
      assert a == [a[0]] + a[1..];
      assert b == [b[0]] + b[1..];
      var ka, kb := a[0].createdAt, b[0].createdAt;
      CreatedAtCons(a[0], a[1..], ka);
      CreatedAtCons(b[0], b[1..], kb);
      // Each head's instant has records in the other sequence, so neither
      // head is newer than the other.
      HeadIsNewest(a, kb);
      HeadIsNewest(b, ka);
      assert ka == kb;
      assert CreatedAt(a, ka) == CreatedAt(b, ka);
      assert a[0] == CreatedAt(a, ka)[0] == CreatedAt(b, ka)[0] == b[0];
      forall k ensures CreatedAt(a[1..], k) == CreatedAt(b[1..], k) {
        CreatedAtCons(a[0], a[1..], k);
        CreatedAtCons(b[0], b[1..], k);
        var head := if ka == k then [a[0]] else [];
        assert CreatedAt(a, k) == head + CreatedAt(a[1..], k);
        assert CreatedAt(b, k) == head + CreatedAt(b[1..], k);
        assert CreatedAt(a[1..], k) == CreatedAt(a, k)[|head|..];
      }
      StableOrderUnique(a[1..], b[1..]);
    }
  }

  /** The displayed order is the stable newest-first order: any sequence
      that is newest first and keeps each instant's records in stored order
      is exactly the sorted view. */
  lemma SortedMeetingsIsTheStableOrder(meetings: seq<Meeting>, r: seq<Meeting>)
    requires NewestFirst(r) && SameOrderPerInstant(r, meetings)
    ensures r == SortedMeetings(meetings)
  {
    StableOrderUnique(r, SortedMeetings(meetings));
  }

  /** A newer record is listed before an older one, whatever order they
      were stored in; records of the same instant keep their stored order. */
  lemma TwoMeetings(a: Meeting, b: Meeting)
    ensures b.createdAt > a.createdAt ==> SortedMeetings([a, b]) == [b, a]
    ensures b.createdAt == a.createdAt ==> SortedMeetings([a, b]) == [a, b]
  {
    assert [a, b][1..] == [b];
    assert [b][1..] == [];
  }

  /** One rendered history entry: the record, and whether its "Scheduled"
      line is shown. */
  datatype HistoryRow = HistoryRow(meeting: Meeting, showsScheduled: bool)

  /** The card: the total in its description and the entries in order. */
  datatype HistoryView = HistoryView(total: nat, rows: seq<HistoryRow>)

  /** The rendered card: the count of stored records, and one entry per
      record in the sorted order, with the "Scheduled" line exactly for the
      records that have a scheduled time. */
  function RenderHistory(meetings: seq<Meeting>): (v: HistoryView)
    ensures v.total == |meetings| && |v.rows| == |meetings|
    ensures forall i :: 0 <= i < |v.rows| ==> v.rows[i].meeting == SortedMeetings(meetings)[i]
    ensures forall i :: 0 <= i < |v.rows| ==> (v.rows[i].showsScheduled <==> v.rows[i].meeting.scheduledFor.Some?)
    ensures forall i, j :: 0 <= i < j < |v.rows| ==> v.rows[i].meeting.createdAt >= v.rows[j].meeting.createdAt
  {
    var sorted := SortedMeetings(meetings);
    HistoryView(|meetings|, seq(|sorted|, i requires 0 <= i < |sorted| =>
                                     HistoryRow(sorted[i], sorted[i].scheduledFor.Some?)))
  }
}
