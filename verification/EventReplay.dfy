// Replay after an event id: what a stream's cache holds of what has arrived on it.
module EventReplay {
  import opened Text
  import opened RecencyList

  // The cached events of one stream.
  function Events(l: Recency, stream: string): set<CachedEvent> {
    set x | x in l && x.stream == stream :: x.event
  }

  // Everything ever stored on a stream, in order of arrival.
  function Arrivals(run: seq<Op>, stream: string): seq<CachedEvent> {
    if run == [] then []
    else
      var op := run[|run| - 1];
      Arrivals(run[..|run| - 1], stream)
      + (if op.SetEvent? && op.entry.stream == stream then [op.entry.event] else [])
  }

  // Ids strictly increase and timestamps never decrease.
  ghost predicate InOrder(events: seq<CachedEvent>) {
    forall i, j :: 0 <= i < j < |events| ==>
      Less(events[i].eventId, events[j].eventId) && events[i].timestamp <= events[j].timestamp
  }

  // Every event of the stream is filed under its own id.
  ghost predicate Filed(run: seq<Op>, stream: string) {
    forall op :: op in run && op.SetEvent? && op.entry.stream == stream ==> op.entry.id == op.entry.event.eventId
  }

  ghost predicate FiledList(l: Recency, stream: string) {
    forall x :: x in l && x.stream == stream ==> x.id == x.event.eventId
  }

  // The cached events are the arrivals from position k on.
  ghost predicate IsSuffix(l: Recency, stream: string, arrivals: seq<CachedEvent>, k: nat) {
    k <= |arrivals| && forall v :: v in Events(l, stream) <==> v in arrivals[k..]
  }

  // What getEventsAfter answers for a cached id: the cached events with a greater
  // id, in order.
  ghost predicate IsReplay(l: Recency, stream: string, after: string, answer: seq<CachedEvent>) {
    && (forall i, j :: 0 <= i < j < |answer| ==> Less(answer[i].eventId, answer[j].eventId))
    && (forall v :: v in answer <==> v in Events(l, stream) && Less(after, v.eventId))
  }

  lemma InOrderPrefix(a: seq<CachedEvent>, b: seq<CachedEvent>)
    requires |a| <= |b| && a == b[..|a|] && InOrder(b)
    ensures InOrder(a)
  {
    assert forall i :: 0 <= i < |a| ==> a[i] == b[i];
  }

  // Storing an event, before the total limit is enforced, keeps its stream a suffix.
  lemma StoredKeepsSuffix(l: Recency, x: Entry, arrivals: seq<CachedEvent>, k: nat, limits: Limits) returns (k': nat)
    requires IsSuffix(l, x.stream, arrivals, k) && FiledList(l, x.stream)
    requires x.id == x.event.eventId && InOrder(arrivals + [x.event])
    ensures IsSuffix(Stored(l, x, limits), x.stream, arrivals + [x.event], k')
    ensures FiledList(Stored(l, x, limits), x.stream)
  {
    hide EvictOldest, InOrder;
    var a := EvictOldest(l, x.stream, limits);
    InOrderPrefix(arrivals, arrivals + [x.event]);
    k' := EvictKeepsSuffix(l, x.stream, arrivals, k, limits);
    PushKeepsSuffix(a, x, arrivals, k');
  }

  lemma EvictKeepsSuffix(l: Recency, s: string, arrivals: seq<CachedEvent>, k: nat, limits: Limits) returns (k': nat)
    requires IsSuffix(l, s, arrivals, k) && FiledList(l, s) && InOrder(arrivals)
    ensures IsSuffix(EvictOldest(l, s, limits), s, arrivals, k') && FiledList(EvictOldest(l, s, limits), s)
  {
    var ids, a := Ids(l, s), EvictOldest(l, s, limits);
    k' := k;
    if |ids| >= limits.perStream && ids != {} {
      OldestIsFirst(l, s, arrivals, k);
      KeepMembers(l, Except(s, Least(ids)));
      k' := k + 1;
      forall v ensures v in Events(a, s) <==> v in arrivals[k + 1..] {
        assert v in Events(l, s) <==> v in arrivals[k..];
        if v in arrivals[k + 1..] {
          var j :| 0 <= j < |arrivals[k + 1..]| && arrivals[k + 1..][j] == v;
          LessAsymmetric(arrivals[k].eventId, arrivals[k + 1 + j].eventId);
          assert arrivals[k..][j + 1] == v;
        }
        if v in Events(a, s) {
          var j :| 0 <= j < |arrivals[k..]| && arrivals[k..][j] == v;
          assert j != 0;
          assert arrivals[k + 1..][j - 1] == v;
        }
      }
    }
  }

  lemma PushKeepsSuffix(a: Recency, x: Entry, arrivals: seq<CachedEvent>, k: nat)
    requires IsSuffix(a, x.stream, arrivals, k) && FiledList(a, x.stream)
    requires x.id == x.event.eventId && InOrder(arrivals + [x.event])
    ensures Keep(a, Except(x.stream, x.id)) == a
    ensures IsSuffix(a + [x], x.stream, arrivals + [x.event], k) && FiledList(a + [x], x.stream)
  {
    var s := x.stream;
    forall y | y in a && y.stream == s
      ensures y.id != x.id
    {
      assert y.event in Events(a, s);
      var j :| 0 <= j < |arrivals[k..]| && arrivals[k..][j] == y.event;
      assert (arrivals + [x.event])[k + j] == y.event && (arrivals + [x.event])[|arrivals|] == x.event;
      LessAsymmetric(y.event.eventId, x.event.eventId);
    }
    KeepAll(a, Except(s, x.id));
    assert (arrivals + [x.event])[k..] == arrivals[k..] + [x.event];
    forall v ensures v in Events(a + [x], s) <==> v in arrivals[k..] + [x.event] {
      assert v in Events(a, s) <==> v in arrivals[k..];
      assert x in a + [x];
      if v in Events(a, s) {
        var y :| y in a && y.stream == s && y.event == v;
        assert y in a + [x];
      }
    }
  }

  lemma OldestIsFirst(l: Recency, stream: string, arrivals: seq<CachedEvent>, k: nat)
    requires IsSuffix(l, stream, arrivals, k) && FiledList(l, stream) && InOrder(arrivals)
    requires Ids(l, stream) != {}
    ensures k < |arrivals| && Least(Ids(l, stream)) == arrivals[k].eventId
  {
    var ids := Ids(l, stream);
    forall id | id in ids
      ensures exists j :: k <= j < |arrivals| && arrivals[j].eventId == id
    {
      var x :| x in l && x.stream == stream && x.id == id;
      assert x.event in Events(l, stream);
      var j :| 0 <= j < |arrivals[k..]| && arrivals[k..][j] == x.event;
      assert arrivals[k + j].eventId == id;
    }
    assert Least(ids) in ids;
    var first := arrivals[k].eventId;
    assert arrivals[k..][0] == arrivals[k];
    assert arrivals[k] in Events(l, stream);
    var x :| x in l && x.stream == stream && x.event == arrivals[k];
    assert first in ids;
    LeastUnique(ids, Least(ids), first);
  }

  lemma OtherStreamStored(l: Recency, x: Entry, stream: string, limits: Limits)
    requires x.stream != stream
    ensures Events(Stored(l, x, limits), stream) == Events(l, stream)
    ensures FiledList(l, stream) ==> FiledList(Stored(l, x, limits), stream)
  {
    var a := EvictOldest(l, x.stream, limits);
    if a != l {
      KeepMembers(l, Except(x.stream, Least(Ids(l, x.stream))));
    }
    KeepMembers(a, Except(x.stream, x.id));
    assert forall y: Entry :: y.stream == stream ==> (y in Stored(l, x, limits) <==> y in l);
  }

  lemma GetKeepsEvents(l: Recency, s: string, e: string, stream: string)
    requires Distinct(l)
    ensures FiledList(l, stream) ==> FiledList(Get(l, s, e), stream)
    ensures Events(Get(l, s, e), stream) == Events(l, stream)
  {
    KeepMembers(l, Except(s, e));
    if exists x :: x in l && x.stream == s && x.id == e {
      var f := Find(l, s, e);
      forall y ensures y in Get(l, s, e) <==> y in l {
        if y in l && y.stream == s && y.id == e {
          SameEntry(l, y, f);
        }
      }
    }
  }

  lemma ExpiryKeepsSuffix(
    l: Recency, stream: string, arrivals: seq<CachedEvent>, k: nat, now: int) returns (k': nat)
    requires IsSuffix(l, stream, arrivals, k) && InOrder(arrivals)
    ensures IsSuffix(Keep(l, FreshAt(now)), stream, arrivals, k')
    ensures FiledList(l, stream) ==> FiledList(Keep(l, FreshAt(now)), stream)
  {
    KeepMembers(l, FreshAt(now));
    k' := k;
    while k' < |arrivals| && now - arrivals[k'].timestamp > MAX_AGE
      invariant k <= k' <= |arrivals|
      invariant forall j :: k <= j < k' ==> now - arrivals[j].timestamp > MAX_AGE
    {
      k' := k' + 1;
    }
    forall v ensures v in Events(Keep(l, FreshAt(now)), stream) <==> v in arrivals[k'..] {
      assert v in Events(l, stream) <==> v in arrivals[k..];
      if v in Events(Keep(l, FreshAt(now)), stream) {
        assert v in Events(l, stream);
        var j :| 0 <= j < |arrivals[k..]| && arrivals[k..][j] == v;
        assert arrivals[k + j] == v;
        assert arrivals[k'..][k + j - k'] == v;
      }
      if v in arrivals[k'..] {
        var j :| 0 <= j < |arrivals[k'..]| && arrivals[k'..][j] == v;
        assert arrivals[k' + j] == v && arrivals[k..][k' - k + j] == v;
        var x :| x in l && x.stream == stream && x.event == v;
        assert x in Keep(l, FreshAt(now));
      }
    }
  }

  lemma SuffixReplay(
    l: Recency, stream: string, arrivals: seq<CachedEvent>, k: nat, after: string, answer: seq<CachedEvent>)
    returns (i: nat)
    requires InOrder(arrivals) && IsSuffix(l, stream, arrivals, k) && FiledList(l, stream)
    requires after in Ids(l, stream) && IsReplay(l, stream, after, answer)
    ensures i < |arrivals| && arrivals[i].eventId == after && answer == arrivals[i + 1..]
  {
    i := CachedArrival(l, stream, arrivals, k, after);
    hide Less, FiledList, InOrder, Ids;
    forall v
      ensures v in answer <==> v in arrivals[i + 1..]
    {
      LaterThan(arrivals, k, i, v);
    }
    TailInOrder(arrivals, i + 1);
    SortedUnique(answer, arrivals[i + 1..]);
  }

  lemma CachedArrival(l: Recency, stream: string, arrivals: seq<CachedEvent>, k: nat, id: string) returns (i: nat)
    requires IsSuffix(l, stream, arrivals, k) && FiledList(l, stream) && id in Ids(l, stream)
    ensures k <= i < |arrivals| && arrivals[i].eventId == id
  {
    var x :| x in l && x.stream == stream && x.id == id;
    assert x.event in Events(l, stream);
    var j :| 0 <= j < |arrivals[k..]| && arrivals[k..][j] == x.event;
    i := k + j;
  }

  lemma TailInOrder(arrivals: seq<CachedEvent>, i: nat)
    requires InOrder(arrivals) && i <= |arrivals|
    ensures var tail := arrivals[i..];
            forall a, b :: 0 <= a < b < |tail| ==> Less(tail[a].eventId, tail[b].eventId)
  {
  }

  lemma LaterThan(arrivals: seq<CachedEvent>, k: nat, i: nat, v: CachedEvent)
    requires InOrder(arrivals) && k <= i < |arrivals|
    ensures v in arrivals[k..] && Less(arrivals[i].eventId, v.eventId) <==> v in arrivals[i + 1..]
  {
    if v in arrivals[k..] && Less(arrivals[i].eventId, v.eventId) {
      var m :| 0 <= m < |arrivals[k..]| && arrivals[k..][m] == v;
      LessAsymmetric(arrivals[i].eventId, v.eventId);
      assert arrivals[k + m] == v && k + m > i;
      assert arrivals[i + 1..][k + m - i - 1] == v;
    }
    if v in arrivals[i + 1..] {
      var m :| 0 <= m < |arrivals[i + 1..]| && arrivals[i + 1..][m] == v;
      assert arrivals[i + 1 + m] == v && arrivals[k..][i + 1 + m - k] == v;
    }
  }

  lemma {:induction false} SortedUnique(a: seq<CachedEvent>, b: seq<CachedEvent>)
    requires forall i, j :: 0 <= i < j < |a| ==> Less(a[i].eventId, a[j].eventId)
    requires forall i, j :: 0 <= i < j < |b| ==> Less(b[i].eventId, b[j].eventId)
    requires forall v :: v in a <==> v in b
    ensures a == b
  {
    assert b != [] ==> b[0] in b;
    if a != [] {
      assert a[0] in b;
      assert b[0] in a;
      if a[0] != b[0] {
        var i :| 0 <= i < |b| && b[i] == a[0];
        var j :| 0 <= j < |a| && a[j] == b[0];
        LessAsymmetric(a[0].eventId, b[0].eventId);
      }
      TailMembers(a);
      TailMembers(b);
      SortedUnique(a[1..], b[1..]);
      assert a == [a[0]] + a[1..] && b == [b[0]] + b[1..];
    }
  }

  lemma TailMembers(a: seq<CachedEvent>)
    requires a != [] && forall i, j :: 0 <= i < j < |a| ==> Less(a[i].eventId, a[j].eventId)
    ensures forall v :: v in a[1..] <==> v in a && v != a[0]
  {
    forall v | v in a[1..]
      ensures v in a && v != a[0]
    {
      var i :| 0 <= i < |a[1..]| && a[1..][i] == v;
      LessAsymmetric(a[0].eventId, a[i + 1].eventId);
    }
  }
}
