// When replay has no gaps: exactly when the total limit never evicts, from a stream, a later
// event than one it keeps.
module EventGaps {
  import opened Text
  import opened RecencyList
  import opened EventReplay

  // How many entries the total limit drops from the old end.
  function Excess(l: Recency, total: nat): nat {
    if |l| > total then |l| - total else 0
  }

  // Of this stream, no entry that is dropped has a greater id than one that stays.
  predicate EvictsInOrder(l: Recency, cut: nat, stream: string) {
    forall i, j :: 0 <= i < cut <= j < |l| && l[i].stream == stream && l[j].stream == stream ==> !Less(l[j].id, l[i].id)
  }

  // The guard of one operation.
  predicate Guarded(l: Recency, op: Op, stream: string, limits: Limits) {
    op.SetEvent? ==>
      var stored := Stored(l, op.entry, limits);
      EvictsInOrder(stored, Excess(stored, limits.total), stream)
  }

  ghost predicate AlwaysInOrder(run: seq<Op>, stream: string, limits: Limits) {
    forall k :: 0 <= k < |run| ==> Guarded(After(run[..k], limits), run[k], stream, limits)
  }

  ghost predicate HasSuffix(l: Recency, stream: string, arrivals: seq<CachedEvent>) {
    exists k :: IsSuffix(l, stream, arrivals, k)
  }

  /* ---------- one eviction ---------- */

  lemma EventOf(l: Recency, stream: string, i: nat)
    requires i < |l| && l[i].stream == stream
    ensures l[i].event in Events(l, stream)
  {
    assert l[i] in l;
  }

  // Where a cached event stands among the arrivals.
  lemma PlaceOf(l: Recency, stream: string, arrivals: seq<CachedEvent>, k: nat, v: CachedEvent) returns (p: nat)
    requires IsSuffix(l, stream, arrivals, k) && v in Events(l, stream)
    ensures k <= p < |arrivals| && arrivals[p] == v
  {
    var q :| 0 <= q < |arrivals[k..]| && arrivals[k..][q] == v;
    p := k + q;
  }

  lemma KeptEvent(l: Recency, cut: nat, stream: string, v: CachedEvent) returns (j: nat)
    requires cut <= |l| && v in Events(l[cut..], stream)
    ensures cut <= j < |l| && l[j].stream == stream && l[j].event == v
  {
    var y :| y in l[cut..] && y.stream == stream && y.event == v;
    var m :| 0 <= m < |l[cut..]| && l[cut..][m] == y;
    j := cut + m;
  }

  lemma OrderOfPlaces(arrivals: seq<CachedEvent>, p: nat, q: nat)
    requires InOrder(arrivals) && p < |arrivals| && q < |arrivals|
    ensures p < q <==> Less(arrivals[p].eventId, arrivals[q].eventId)
  {
    if q < p {
      LessAsymmetric(arrivals[q].eventId, arrivals[p].eventId);
    } else if p == q && Less(arrivals[p].eventId, arrivals[q].eventId) {
      LessAsymmetric(arrivals[p].eventId, arrivals[q].eventId);
    }
  }

  // A suffix that remains shows that the eviction was in order.
  lemma SuffixLeftMeansInOrder(l: Recency, cut: nat, stream: string, arrivals: seq<CachedEvent>, k: nat, left: nat)
    requires IsSuffix(l, stream, arrivals, k) && FiledList(l, stream) && InOrder(arrivals) && Distinct(l)
    requires cut <= |l| && IsSuffix(l[cut..], stream, arrivals, left)
    ensures EvictsInOrder(l, cut, stream)
  {
    hide Less, InOrder;
    forall i, j | 0 <= i < cut <= j < |l| && l[i].stream == stream && l[j].stream == stream
      ensures !Less(l[j].id, l[i].id)
    {
      EventOf(l, stream, i);
      EventOf(l[cut..], stream, j - cut);
      assert l[i] in l && l[j] in l;
      var q := PlaceOf(l, stream, arrivals, k, l[i].event);
      var p := PlaceOf(l[cut..], stream, arrivals, left, l[j].event);
      OrderOfPlaces(arrivals, p, q);
      assert q >= left ==> arrivals[left..][q - left] == l[i].event;
      DroppedIsGone(l, cut, stream, i);
    }
  }

  lemma DroppedIsGone(l: Recency, cut: nat, stream: string, i: nat)
    requires Distinct(l) && FiledList(l, stream) && i < cut <= |l| && l[i].stream == stream
    ensures l[i].event !in Events(l[cut..], stream)
  {
    assert l[i] in l;
    forall y | y in l[cut..] && y.stream == stream
      ensures y.event != l[i].event
    {
      var m :| 0 <= m < |l[cut..]| && l[cut..][m] == y;
      assert l[cut + m] == y && y in l;
    }
  }

  // The first arrival, from k on, that stays cached.
  lemma FirstKept(l: Recency, stream: string, arrivals: seq<CachedEvent>, k: nat) returns (left: nat)
    requires k <= |arrivals|
    ensures k <= left <= |arrivals|
    ensures forall p :: k <= p < left ==> arrivals[p] !in Events(l, stream)
    ensures left < |arrivals| ==> arrivals[left] in Events(l, stream)
  {
    left := k;
    while left < |arrivals| && arrivals[left] !in Events(l, stream)
      invariant k <= left <= |arrivals|
      invariant forall p :: k <= p < left ==> arrivals[p] !in Events(l, stream)
    {
      left := left + 1;
    }
  }

  lemma InOrderLeavesSuffix(l: Recency, cut: nat, stream: string, arrivals: seq<CachedEvent>, k: nat) returns (left: nat)
    requires IsSuffix(l, stream, arrivals, k) && FiledList(l, stream) && InOrder(arrivals)
    requires cut <= |l| && EvictsInOrder(l, cut, stream)
    ensures IsSuffix(l[cut..], stream, arrivals, left)
  {
    hide Less, InOrder;
    var kept := l[cut..];
    left := FirstKept(kept, stream, arrivals, k);
    forall v | v in Events(kept, stream)
      ensures v in arrivals[left..]
    {
      var j := KeptEvent(l, cut, stream, v);
      EventOf(l, stream, j);
      var p := PlaceOf(l, stream, arrivals, k, v);
      assert arrivals[left..][p - left] == v;
    }
    forall v | v in arrivals[left..]
      ensures v in Events(kept, stream)
    {
      var m :| 0 <= m < |arrivals[left..]| && arrivals[left..][m] == v;
      LaterIsKept(l, cut, stream, arrivals, k, left, left + m);
    }
  }

  lemma LaterIsKept(l: Recency, cut: nat, stream: string, arrivals: seq<CachedEvent>, k: nat, left: nat, p: nat)
    requires IsSuffix(l, stream, arrivals, k) && FiledList(l, stream) && InOrder(arrivals)
    requires cut <= |l| && EvictsInOrder(l, cut, stream)
    requires k <= left <= p < |arrivals| && arrivals[left] in Events(l[cut..], stream)
    ensures arrivals[p] in Events(l[cut..], stream)
  {
    hide Less, InOrder;
    assert arrivals[k..][p - k] == arrivals[p];
    assert arrivals[p] in Events(l, stream);
    var y :| y in l && y.stream == stream && y.event == arrivals[p];
    var i :| 0 <= i < |l| && l[i] == y;
    var j := KeptEvent(l, cut, stream, arrivals[left]);
    assert l[j] in l;
    OrderOfPlaces(arrivals, left, p);
    if i < cut {
      assert left == p;
    } else {
      EventOf(l[cut..], stream, i - cut);
    }
  }

  // The exact condition of one eviction.
  lemma EvictionKeepsSuffixIff(l: Recency, cut: nat, stream: string, arrivals: seq<CachedEvent>, k: nat)
    requires IsSuffix(l, stream, arrivals, k) && FiledList(l, stream) && InOrder(arrivals) && Distinct(l)
    requires cut <= |l|
    ensures EvictsInOrder(l, cut, stream) <==> HasSuffix(l[cut..], stream, arrivals)
  {
    if EvictsInOrder(l, cut, stream) {
      var left := InOrderLeavesSuffix(l, cut, stream, arrivals, k);
    }
    if HasSuffix(l[cut..], stream, arrivals) {
      var left :| IsSuffix(l[cut..], stream, arrivals, left);
      SuffixLeftMeansInOrder(l, cut, stream, arrivals, k, left);
    }
  }

  /* ---------- one operation ---------- */

  lemma DroppedIsSlice(l: Recency, total: nat)
    ensures DropOldest(l, total) == l[Excess(l, total)..]
  {
  }

  lemma SetKeepsSuffixIff(l: Recency, x: Entry, stream: string, arrivals: seq<CachedEvent>, limits: Limits)
    requires HasSuffix(l, stream, arrivals) && FiledList(l, stream) && Distinct(l)
    requires x.stream == stream ==> x.id == x.event.eventId
    requires InOrder(arrivals + if x.stream == stream then [x.event] else [])
    ensures var more := arrivals + if x.stream == stream then [x.event] else [];
            Guarded(l, SetEvent(x), stream, limits) <==> HasSuffix(Set(l, x, limits), stream, more)
  {
    hide Stored, InOrder, EvictsInOrder;
    var k :| IsSuffix(l, stream, arrivals, k);
    var stored := Stored(l, x, limits);
    var more := arrivals + if x.stream == stream then [x.event] else [];
    if x.stream == stream {
      k := StoredKeepsSuffix(l, x, arrivals, k, limits);
    } else {
      OtherStreamStored(l, x, stream, limits);
      assert more == arrivals;
    }
    StoredDistinct(l, x, limits);
    DroppedIsSlice(stored, limits.total);
    EvictionKeepsSuffixIff(stored, Excess(stored, limits.total), stream, more, k);
  }

  lemma StoredDistinct(l: Recency, x: Entry, limits: Limits)
    requires Distinct(l)
    ensures Distinct(Stored(l, x, limits))
  {
    var a := EvictOldest(l, x.stream, limits);
    if a != l {
      KeepDistinct(l, Except(x.stream, Least(Ids(l, x.stream))));
    }
    KeepDistinct(a, Except(x.stream, x.id));
    KeepMembers(a, Except(x.stream, x.id));
    PushDistinct(Keep(a, Except(x.stream, x.id)), x);
  }

  lemma OtherOpsKeepSuffix(l: Recency, op: Op, stream: string, arrivals: seq<CachedEvent>, limits: Limits)
    requires HasSuffix(l, stream, arrivals) && Distinct(l) && InOrder(arrivals) && !op.SetEvent?
    ensures HasSuffix(Do(l, op, limits), stream, arrivals)
  {
    var k :| IsSuffix(l, stream, arrivals, k);
    match op {
      case GetEvent(s, e) =>
        GetKeepsEvents(l, s, e, stream);
        assert IsSuffix(Get(l, s, e), stream, arrivals, k);
      case CleanupStream(s) =>
        KeepMembers(l, ExceptStream(s));
        if s == stream {
          assert IsSuffix(Keep(l, ExceptStream(s)), stream, arrivals, |arrivals|);
        } else {
          assert Events(Keep(l, ExceptStream(s)), stream) == Events(l, stream);
          assert IsSuffix(Keep(l, ExceptStream(s)), stream, arrivals, k);
        }
      case CleanupExpired(now) =>
        var k' := ExpiryKeepsSuffix(l, stream, arrivals, k, now);
      case ClearAll =>
        assert IsSuffix([], stream, arrivals, |arrivals|);
    }
  }

  /* ---------- what holds without any condition ---------- */

  // Only events that arrived are cached, each under its own id.
  ghost predicate Arrived(l: Recency, stream: string, arrivals: seq<CachedEvent>) {
    FiledList(l, stream) && forall x :: x in l && x.stream == stream ==> x.event in arrivals
  }

  lemma StoredMembers(l: Recency, x: Entry, limits: Limits)
    ensures forall y :: y in Stored(l, x, limits) ==> y in l || y == x
  {
    var a := EvictOldest(l, x.stream, limits);
    if a != l {
      KeepMembers(l, Except(x.stream, Least(Ids(l, x.stream))));
    }
    KeepMembers(a, Except(x.stream, x.id));
  }

  lemma DoMembers(l: Recency, op: Op, limits: Limits)
    ensures forall y :: y in Do(l, op, limits) ==> y in l || (op.SetEvent? && y == op.entry)
  {
    match op {
      case SetEvent(x) =>
        StoredMembers(l, x, limits);
        assert forall y :: y in DropOldest(Stored(l, x, limits), limits.total) ==> y in Stored(l, x, limits);
      case GetEvent(s, e) => KeepMembers(l, Except(s, e));
      case CleanupStream(s) => KeepMembers(l, ExceptStream(s));
      case CleanupExpired(now) => KeepMembers(l, FreshAt(now));
      case ClearAll =>
    }
  }

  lemma {:induction false} AlwaysArrived(run: seq<Op>, stream: string, limits: Limits)
    requires Filed(run, stream)
    ensures Arrived(After(run, limits), stream, Arrivals(run, stream))
  {
    hide Do;
    if run != [] {
      var before, op := run[..|run| - 1], run[|run| - 1];
      FiledPrefix(run, |run| - 1);
      AlwaysArrived(before, stream, limits);
      DoMembers(After(before, limits), op, limits);
    }
  }

  lemma FiledPrefix(run: seq<Op>, k: nat)
    requires k <= |run|
    ensures forall stream :: Filed(run, stream) ==> Filed(run[..k], stream)
  {
    assert forall op :: op in run[..k] ==> op in run;
  }

  lemma {:induction false} ArrivalsPrefix(run: seq<Op>, stream: string, k: nat)
    requires k <= |run|
    ensures |Arrivals(run[..k], stream)| <= |Arrivals(run, stream)|
    ensures Arrivals(run[..k], stream) == Arrivals(run, stream)[..|Arrivals(run[..k], stream)|]
    decreases |run| - k
  {
    if k < |run| {
      ArrivalsPrefix(run, stream, k + 1);
      assert run[..k + 1][..k] == run[..k];
    } else {
      assert run[..k] == run;
    }
  }

  /* ---------- whole runs ---------- */

  ghost predicate AlwaysSuffix(run: seq<Op>, stream: string, limits: Limits) {
    forall k :: 0 <= k <= |run| ==> SuffixAfter(run[..k], stream, limits)
  }

  ghost predicate SuffixAfter(run: seq<Op>, stream: string, limits: Limits) {
    HasSuffix(After(run, limits), stream, Arrivals(run, stream))
  }

  // One more operation keeps the stream a suffix exactly when its guard holds.
  lemma StepIff(run: seq<Op>, stream: string, limits: Limits)
    requires run != [] && InOrder(Arrivals(run, stream)) && Filed(run, stream)
    requires SuffixAfter(run[..|run| - 1], stream, limits)
    ensures Guarded(After(run[..|run| - 1], limits), run[|run| - 1], stream, limits) <==> SuffixAfter(run, stream, limits)
  {
    hide InOrder, HasSuffix, Guarded, Set;
    var before, op := run[..|run| - 1], run[|run| - 1];
    var l, arrivals := After(before, limits), Arrivals(before, stream);
    InOrderPrefix(arrivals, Arrivals(run, stream));
    FiledPrefix(run, |run| - 1);
    AlwaysArrived(before, stream, limits);
    AlwaysDistinct(before, limits);
    if op.SetEvent? {
      assert op in run;
      SetKeepsSuffixIff(l, op.entry, stream, arrivals, limits);
    } else {
      assert Arrivals(run, stream) == arrivals;
      OtherOpsKeepSuffix(l, op, stream, arrivals, limits);
      NotSetIsGuarded(l, op, stream, limits);
    }
  }

  lemma NotSetIsGuarded(l: Recency, op: Op, stream: string, limits: Limits)
    requires !op.SetEvent?
    ensures Guarded(l, op, stream, limits)
  {
  }

  // The two properties of all prefixes, one operation at a time.
  lemma LastSplits(run: seq<Op>, stream: string, limits: Limits)
    requires run != []
    ensures var before := run[..|run| - 1];
            && (AlwaysSuffix(run, stream, limits) <==> AlwaysSuffix(before, stream, limits) && SuffixAfter(run, stream, limits))
            && (AlwaysInOrder(run, stream, limits) <==>
                AlwaysInOrder(before, stream, limits) && Guarded(After(before, limits), run[|run| - 1], stream, limits))
  {
    hide SuffixAfter, Guarded, After;
    var n := |run| - 1;
    var before := run[..n];
    forall k | 0 <= k <= n
      ensures before[..k] == run[..k]
    {
    }
    assert run[..n + 1] == run;
    if AlwaysSuffix(before, stream, limits) && SuffixAfter(run, stream, limits) {
      forall k | 0 <= k <= n + 1
        ensures SuffixAfter(run[..k], stream, limits)
      {
        if k <= n {
          assert SuffixAfter(before[..k], stream, limits);
        }
      }
    }
    if AlwaysSuffix(run, stream, limits) {
      assert SuffixAfter(run[..n + 1], stream, limits);
      forall k | 0 <= k <= n
        ensures SuffixAfter(before[..k], stream, limits)
      {
        assert SuffixAfter(run[..k], stream, limits);
      }
    }
  }

  // A stream's cache is always a suffix of what arrived if and only if no set evicts it out of order.
  lemma {:induction false} CacheIsSuffixIff(run: seq<Op>, stream: string, limits: Limits)
    requires InOrder(Arrivals(run, stream)) && Filed(run, stream)
    ensures AlwaysInOrder(run, stream, limits) <==> AlwaysSuffix(run, stream, limits)
  {
    hide InOrder, Filed, Guarded, SuffixAfter, Arrivals, After;
    if run == [] {
      EmptyRun(stream, limits);
      assert run[..0] == [];
    } else {
      ArrivalsPrefix(run, stream, |run| - 1);
      InOrderPrefix(Arrivals(run[..|run| - 1], stream), Arrivals(run, stream));
      FiledPrefix(run, |run| - 1);
      CacheIsSuffixIff(run[..|run| - 1], stream, limits);
      LastSplits(run, stream, limits);
      if AlwaysSuffix(run[..|run| - 1], stream, limits) {
        WholeIsPrefix(run[..|run| - 1], stream, limits);
        StepIff(run, stream, limits);
      }
    }
  }

  lemma EmptyRun(stream: string, limits: Limits)
    ensures SuffixAfter([], stream, limits)
  {
    assert IsSuffix([], stream, [], 0);
  }

  lemma WholeIsPrefix(run: seq<Op>, stream: string, limits: Limits)
    requires AlwaysSuffix(run, stream, limits)
    ensures SuffixAfter(run, stream, limits)
  {
    assert run[..|run|] == run;
  }

  /* ---------- replay ---------- */

  ghost predicate AnswersAll(arrivals: seq<CachedEvent>, after: string, answer: seq<CachedEvent>) {
    exists i :: 0 <= i < |arrivals| && arrivals[i].eventId == after && answer == arrivals[i + 1..]
  }

  // Replay after any cached id is everything that arrived later, in order.
  ghost predicate GapFree(l: Recency, stream: string, arrivals: seq<CachedEvent>) {
    forall after, answer ::
      after in Ids(l, stream) && IsReplay(l, stream, after, answer) ==> AnswersAll(arrivals, after, answer)
  }

  // There is an answer after every id: the later cached events, sorted.
  lemma AnswerExists(l: Recency, stream: string, after: string) returns (answer: seq<CachedEvent>)
    requires FiledList(l, stream) && Distinct(l)
    ensures IsReplay(l, stream, after, answer)
  {
    hide Less, Sorted, Find;
    var sorted := Sorted(LaterIds(l, stream, after));
    forall i | 0 <= i < |sorted|
      ensures sorted[i] in Ids(l, stream) && Less(after, sorted[i])
    {
      assert sorted[i] in LaterIds(l, stream, after);
    }
    answer := seq(|sorted|, i requires 0 <= i < |sorted| && sorted[i] in Ids(l, stream) => Find(l, stream, sorted[i]).event);
    forall i | 0 <= i < |sorted|
      ensures answer[i] in Events(l, stream) && answer[i].eventId == sorted[i]
    {
      FoundEvent(l, stream, sorted[i]);
    }
    forall v | v in Events(l, stream) && Less(after, v.eventId)
      ensures v in answer
    {
      LaterEvent(l, stream, after, v);
      var i :| 0 <= i < |sorted| && sorted[i] == v.eventId;
      assert answer[i] == v;
    }
  }

  function LaterIds(l: Recency, stream: string, after: string): set<string> {
    set id | id in Ids(l, stream) && Less(after, id)
  }

  lemma FoundEvent(l: Recency, stream: string, id: string)
    requires FiledList(l, stream) && id in Ids(l, stream)
    ensures Find(l, stream, id).event in Events(l, stream) && Find(l, stream, id).event.eventId == id
  {
    assert Find(l, stream, id) in l;
  }

  lemma LaterEvent(l: Recency, stream: string, after: string, v: CachedEvent)
    requires FiledList(l, stream) && Distinct(l) && v in Events(l, stream) && Less(after, v.eventId)
    ensures v.eventId in LaterIds(l, stream, after) && Find(l, stream, v.eventId).event == v
  {
    var x :| x in l && x.stream == stream && x.event == v;
    assert x.id in Ids(l, stream);
    SameEntry(l, Find(l, stream, x.id), x);
  }

  lemma SuffixIsGapFree(l: Recency, stream: string, arrivals: seq<CachedEvent>)
    requires InOrder(arrivals) && HasSuffix(l, stream, arrivals) && FiledList(l, stream)
    ensures GapFree(l, stream, arrivals)
  {
    hide InOrder, IsReplay, FiledList, IsSuffix, Ids;
    var k :| IsSuffix(l, stream, arrivals, k);
    forall after, answer | after in Ids(l, stream) && IsReplay(l, stream, after, answer)
      ensures AnswersAll(arrivals, after, answer)
    {
      var i := SuffixReplay(l, stream, arrivals, k, after, answer);
    }
  }

  lemma GapFreeIsSuffix(l: Recency, stream: string, arrivals: seq<CachedEvent>)
    requires InOrder(arrivals) && Arrived(l, stream, arrivals) && Distinct(l) && GapFree(l, stream, arrivals)
    ensures HasSuffix(l, stream, arrivals)
  {
    hide Less, InOrder;
    if Ids(l, stream) == {} {
      assert forall x :: x in l && x.stream == stream ==> x.id in Ids(l, stream);
      assert IsSuffix(l, stream, arrivals, |arrivals|);
    } else {
      var first := Least(Ids(l, stream));
      var answer := AnswerExists(l, stream, first);
      var i :| 0 <= i < |arrivals| && arrivals[i].eventId == first && answer == arrivals[i + 1..];
      FirstAndLater(l, stream, arrivals, i, answer);
    }
  }

  lemma FirstAndLater(l: Recency, stream: string, arrivals: seq<CachedEvent>, i: nat, answer: seq<CachedEvent>)
    requires InOrder(arrivals) && Arrived(l, stream, arrivals)
    requires i < |arrivals| && IsLeast(Ids(l, stream), arrivals[i].eventId)
    requires IsReplay(l, stream, arrivals[i].eventId, answer) && answer == arrivals[i + 1..]
    ensures IsSuffix(l, stream, arrivals, i)
  {
    hide Less, InOrder;
    assert arrivals[i..] == [arrivals[i]] + answer;
    forall v
      ensures v in Events(l, stream) <==> v in arrivals[i..]
    {
      if v in Events(l, stream) {
        assert v.eventId in Ids(l, stream);
        var p :| 0 <= p < |arrivals| && arrivals[p] == v;
        OrderOfPlaces(arrivals, i, p);
        OrderOfPlaces(arrivals, p, i);
      }
      if v == arrivals[i] {
        var x :| x in l && x.stream == stream && x.id == arrivals[i].eventId;
        var p :| 0 <= p < |arrivals| && arrivals[p] == x.event;
        SamePlace(arrivals, i, p);
      }
    }
  }

  lemma SamePlace(arrivals: seq<CachedEvent>, i: nat, p: nat)
    requires InOrder(arrivals) && i < |arrivals| && p < |arrivals| && arrivals[i].eventId == arrivals[p].eventId
    ensures i == p
  {
    OrderOfPlaces(arrivals, i, p);
    OrderOfPlaces(arrivals, p, i);
    OrderOfPlaces(arrivals, i, i);
  }

  ghost predicate AlwaysGapFree(run: seq<Op>, stream: string, limits: Limits) {
    forall k :: 0 <= k <= |run| ==> GapFreeAfter(run[..k], stream, limits)
  }

  ghost predicate GapFreeAfter(run: seq<Op>, stream: string, limits: Limits) {
    GapFree(After(run, limits), stream, Arrivals(run, stream))
  }

  lemma GapFreeIff(run: seq<Op>, stream: string, limits: Limits)
    requires InOrder(Arrivals(run, stream)) && Filed(run, stream)
    ensures GapFreeAfter(run, stream, limits) <==> SuffixAfter(run, stream, limits)
  {
    hide InOrder, GapFree, HasSuffix;
    AlwaysArrived(run, stream, limits);
    AlwaysDistinct(run, limits);
    if SuffixAfter(run, stream, limits) {
      SuffixIsGapFree(After(run, limits), stream, Arrivals(run, stream));
    }
    if GapFreeAfter(run, stream, limits) {
      GapFreeIsSuffix(After(run, limits), stream, Arrivals(run, stream));
    }
  }

  // The exact condition: with ids increasing and timestamps not decreasing, replay after every
  // cached id is gap-free throughout the run if and only if no set evicts the stream out of order.
  lemma ReplayHasNoGapsIff(run: seq<Op>, stream: string, limits: Limits)
    requires InOrder(Arrivals(run, stream)) && Filed(run, stream)
    ensures AlwaysGapFree(run, stream, limits) <==> AlwaysInOrder(run, stream, limits)
  {
    hide InOrder, Filed, GapFreeAfter, SuffixAfter, AlwaysInOrder, Arrivals;
    CacheIsSuffixIff(run, stream, limits);
    forall k | 0 <= k <= |run|
      ensures GapFreeAfter(run[..k], stream, limits) <==> SuffixAfter(run[..k], stream, limits)
    {
      ArrivalsPrefix(run, stream, k);
      InOrderPrefix(Arrivals(run[..k], stream), Arrivals(run, stream));
      FiledPrefix(run, k);
      GapFreeIff(run[..k], stream, limits);
    }
  }

  // Replay has no gaps: for a cached id the answer is exactly everything that arrived on the
  // stream after it, in order of arrival, despite per-stream eviction, expiry and evictions in
  // order by the total limit.
  lemma ReplayHasNoGaps(run: seq<Op>, stream: string, limits: Limits, after: string, answer: seq<CachedEvent>)
    requires InOrder(Arrivals(run, stream)) && Filed(run, stream) && AlwaysInOrder(run, stream, limits)
    requires after in Ids(After(run, limits), stream)
    requires IsReplay(After(run, limits), stream, after, answer)
    ensures AnswersAll(Arrivals(run, stream), after, answer)
  {
    hide InOrder, Filed, IsReplay, AlwaysInOrder, Arrivals, Ids;
    ReplayHasNoGapsIff(run, stream, limits);
    assert run[..|run|] == run;
    assert GapFreeAfter(run, stream, limits);
  }

  /* ---------- streams nobody reads ---------- */

  ghost predicate NeverRead(run: seq<Op>, stream: string) {
    forall op :: op in run && op.GetEvent? ==> op.stream != stream
  }

  // The stream's entries stand in the list in the order of their ids.
  ghost predicate Ascends(l: Recency, stream: string) {
    forall i, j :: 0 <= i < j < |l| && l[i].stream == stream && l[j].stream == stream ==> Less(l[i].id, l[j].id)
  }

  lemma AscendsTail(l: Recency, stream: string)
    requires l != [] && Ascends(l, stream)
    ensures Ascends(l[1..], stream)
    ensures l[0].stream == stream ==> forall y :: y in l[1..] && y.stream == stream ==> Less(l[0].id, y.id)
  {
    hide Less;
    forall y | y in l[1..] && y.stream == stream && l[0].stream == stream
      ensures Less(l[0].id, y.id)
    {
      var k :| 0 <= k < |l[1..]| && l[1..][k] == y;
      assert l[k + 1] == y;
    }
  }

  lemma AscendsCons(x: Entry, l: Recency, stream: string)
    requires Ascends(l, stream)
    requires x.stream == stream ==> forall y :: y in l && y.stream == stream ==> Less(x.id, y.id)
    ensures Ascends([x] + l, stream)
  {
    hide Less;
  }

  lemma {:induction false} KeepAscends(l: Recency, r: Rule, stream: string)
    requires Ascends(l, stream)
    ensures Ascends(Keep(l, r), stream)
  {
    hide Less, Keeps;
    if l != [] {
      AscendsTail(l, stream);
      KeepAscends(l[1..], r, stream);
      KeepMembers(l[1..], r);
      if Keeps(r, l[0]) {
        AscendsCons(l[0], Keep(l[1..], r), stream);
      }
    }
  }

  lemma PushAscends(l: Recency, x: Entry, stream: string)
    requires Ascends(l, stream)
    requires x.stream == stream ==> forall y :: y in l && y.stream == stream ==> Less(y.id, x.id)
    ensures Ascends(l + [x], stream)
  {
    hide Less;
  }

  lemma StoredAscends(l: Recency, x: Entry, stream: string, limits: Limits)
    requires Ascends(l, stream)
    requires x.stream == stream ==> forall y :: y in l && y.stream == stream ==> Less(y.id, x.id)
    ensures Ascends(Stored(l, x, limits), stream)
  {
    hide Less, Ascends;
    var a := EvictOldest(l, x.stream, limits);
    if a != l {
      KeepAscends(l, Except(x.stream, Least(Ids(l, x.stream))), stream);
      KeepMembers(l, Except(x.stream, Least(Ids(l, x.stream))));
    }
    KeepAscends(a, Except(x.stream, x.id), stream);
    KeepMembers(a, Except(x.stream, x.id));
    PushAscends(Keep(a, Except(x.stream, x.id)), x, stream);
  }

  lemma AscendingEvictsInOrder(l: Recency, cut: nat, stream: string)
    requires Ascends(l, stream)
    ensures EvictsInOrder(l, cut, stream)
  {
    hide Less;
    forall i, j | 0 <= i < cut <= j < |l| && l[i].stream == stream && l[j].stream == stream
      ensures !Less(l[j].id, l[i].id)
    {
      LessAsymmetric(l[i].id, l[j].id);
    }
  }

  lemma NewIdIsGreatest(l: Recency, x: Entry, arrivals: seq<CachedEvent>)
    requires Arrived(l, x.stream, arrivals) && InOrder(arrivals + [x.event]) && x.id == x.event.eventId
    ensures forall y :: y in l && y.stream == x.stream ==> Less(y.id, x.id)
  {
    hide Less;
    var all := arrivals + [x.event];
    forall y | y in l && y.stream == x.stream
      ensures Less(y.id, x.id)
    {
      var p :| 0 <= p < |arrivals| && arrivals[p] == y.event;
      assert all[p] == y.event && all[|arrivals|] == x.event;
    }
  }

  lemma OpKeepsAscending(l: Recency, op: Op, stream: string, limits: Limits)
    requires Ascends(l, stream) && (op.GetEvent? ==> op.stream != stream)
    requires op.SetEvent? && op.entry.stream == stream ==>
               forall y :: y in l && y.stream == stream ==> Less(y.id, op.entry.id)
    ensures Ascends(Do(l, op, limits), stream) && Guarded(l, op, stream, limits)
  {
    hide Less, Stored, EvictsInOrder;
    match op {
      case SetEvent(x) =>
        var stored := Stored(l, x, limits);
        StoredAscends(l, x, stream, limits);
        AscendingEvictsInOrder(stored, Excess(stored, limits.total), stream);
        DroppedIsSlice(stored, limits.total);
        SliceAscends(stored, Excess(stored, limits.total), stream);
      case GetEvent(s, e) =>
        KeepAscends(l, Except(s, e), stream);
        if exists x :: x in l && x.stream == s && x.id == e {
          PushAscends(Keep(l, Except(s, e)), Find(l, s, e), stream);
        }
      case CleanupStream(s) => KeepAscends(l, ExceptStream(s), stream);
      case CleanupExpired(now) => KeepAscends(l, FreshAt(now), stream);
      case ClearAll =>
    }
  }

  lemma SliceAscends(l: Recency, cut: nat, stream: string)
    requires Ascends(l, stream) && cut <= |l|
    ensures Ascends(l[cut..], stream)
  {
    hide Less;
  }

  // A stream that is only written evicts in order, however often the total limit strikes.
  lemma {:induction false} NeverReadEvictsInOrder(run: seq<Op>, stream: string, limits: Limits)
    requires InOrder(Arrivals(run, stream)) && Filed(run, stream) && NeverRead(run, stream)
    ensures AlwaysInOrder(run, stream, limits)
    ensures Ascends(After(run, limits), stream)
  {
    hide InOrder, Guarded, Do, Less;
    if run != [] {
      var n := |run| - 1;
      var before, op := run[..n], run[n];
      assert op in run && forall o :: o in before ==> o in run;
      InOrderPrefix(Arrivals(before, stream), Arrivals(run, stream));
      NeverReadEvictsInOrder(before, stream, limits);
      AlwaysArrived(before, stream, limits);
      if op.SetEvent? && op.entry.stream == stream {
        NewIdIsGreatest(After(before, limits), op.entry, Arrivals(before, stream));
      }
      OpKeepsAscending(After(before, limits), op, stream, limits);
      LastSplits(run, stream, limits);
    }
  }

  // So replay on a stream that is never read one event at a time never has gaps.
  lemma NeverReadHasNoGaps(run: seq<Op>, stream: string, limits: Limits)
    requires InOrder(Arrivals(run, stream)) && Filed(run, stream) && NeverRead(run, stream)
    ensures AlwaysGapFree(run, stream, limits)
  {
    hide InOrder, Filed, NeverRead, AlwaysGapFree, AlwaysInOrder;
    NeverReadEvictsInOrder(run, stream, limits);
    ReplayHasNoGapsIff(run, stream, limits);
  }

  // Neither does one while no set exceeds the total limit.
  ghost predicate NeverFull(run: seq<Op>, limits: Limits) {
    forall k :: 0 <= k < |run| && run[k].SetEvent? ==>
      |Stored(After(run[..k], limits), run[k].entry, limits)| <= limits.total
  }

  lemma NeverFullHasNoGaps(run: seq<Op>, stream: string, limits: Limits)
    requires InOrder(Arrivals(run, stream)) && Filed(run, stream) && NeverFull(run, limits)
    ensures AlwaysGapFree(run, stream, limits)
  {
    hide InOrder, Filed, AlwaysGapFree, After, Arrivals, Stored;
    ReplayHasNoGapsIff(run, stream, limits);
  }

  /* ---------- a gap ---------- */

  // Evicting out of order leaves a gap: a read refreshes an early event, the limit then
  // evicts a later one, and the replay after the early event skips it.
  lemma FullCacheLeavesGap() returns (run: seq<Op>, limits: Limits, answer: seq<CachedEvent>)
    ensures InOrder(Arrivals(run, "s")) && Filed(run, "s") && limits.perStream > |run|
    ensures "1" in Ids(After(run, limits), "s") && IsReplay(After(run, limits), "s", "1", answer)
    ensures Arrivals(run, "s") == [Numbered("1").event, Numbered("2").event, Numbered("3").event]
    ensures answer == [Numbered("3").event]
  {
    var a, b, c := Numbered("1"), Numbered("2"), Numbered("3");
    hide *;
    limits, answer := Limits(2, 10), [c.event];
    run := FourOps(a, b, c, limits);
    FourSteps(a, b, c, limits);
    GapIsThere(a, b, c);
  }

  lemma FourOps(a: Entry, b: Entry, c: Entry, limits: Limits) returns (run: seq<Op>)
    requires a == Numbered("1") && b == Numbered("2") && c == Numbered("3")
    ensures |run| == 4 && Arrivals(run, "s") == [a.event, b.event, c.event] && Filed(run, "s")
    ensures After(run, limits) == Set(Get(Set(Set([], a, limits), b, limits), "s", "1"), c, limits)
  {
    StartRun(limits);
    hide Arrivals, Filed, After, Set, Get;
    var r1 := AlsoSet([], a, limits);
    var r2 := AlsoSet(r1, b, limits);
    var r3 := AlsoGet(r2, "1", limits);
    run := AlsoSet(r3, c, limits);
    assert Arrivals(r1, "s") == [a.event];
    assert Arrivals(r2, "s") == [a.event, b.event];
  }

  lemma FourSteps(a: Entry, b: Entry, c: Entry, limits: Limits)
    requires a == Numbered("1") && b == Numbered("2") && c == Numbered("3") && limits == Limits(2, 10)
    ensures Set(Get(Set(Set([], a, limits), b, limits), "s", "1"), c, limits) == [a, c]
  {
    hide Set, Get;
    SetFresh([], a, limits, {});
    SetFresh([a], b, limits, {"1"});
    TouchFirst(a, b);
    SetFresh([b, a], c, limits, {"1", "2"});
    assert [] + [a] == [a] && [a] + [b] == [a, b] && ([b, a] + [c])[1..] == [a, c];
  }

  lemma GapIsThere(a: Entry, b: Entry, c: Entry)
    requires a == Numbered("1") && b == Numbered("2") && c == Numbered("3")
    ensures InOrder([a.event, b.event, c.event])
    ensures "1" in Ids([a, c], "s") && IsReplay([a, c], "s", "1", [c.event])
  {
    NumberedOrder();
    hide Less;
    assert a in [a, c] && c in [a, c];
    assert Events([a, c], "s") == {a.event, c.event};
  }

  lemma StartRun(limits: Limits)
    ensures After([], limits) == [] && Arrivals([], "s") == [] && Filed([], "s")
  {
  }

  lemma AlsoSet(run: seq<Op>, x: Entry, limits: Limits) returns (more: seq<Op>)
    ensures |more| == |run| + 1 && After(more, limits) == Set(After(run, limits), x, limits)
    ensures x.stream == "s" ==> Arrivals(more, "s") == Arrivals(run, "s") + [x.event]
    ensures Filed(run, "s") && x.id == x.event.eventId ==> Filed(more, "s")
  {
    more := run + [SetEvent(x)];
    assert more[..|more| - 1] == run;
  }

  lemma AlsoGet(run: seq<Op>, id: string, limits: Limits) returns (more: seq<Op>)
    ensures |more| == |run| + 1 && After(more, limits) == Get(After(run, limits), "s", id)
    ensures Arrivals(more, "s") == Arrivals(run, "s")
    ensures Filed(run, "s") ==> Filed(more, "s")
  {
    more := run + [GetEvent("s", id)];
    assert more[..|more| - 1] == run;
  }

  function Numbered(id: string): Entry {
    Entry("s", id, CachedEvent(id, "", 0, "s"))
  }

  lemma NumberedOrder()
    ensures Less("1", "2") && Less("2", "3") && Less("1", "3") && !Less("1", "1")
    ensures "1" != "2" && "1" != "3" && "2" != "3"
  {
    assert "1"[0] == '1' && "2"[0] == '2' && "3"[0] == '3';
    assert "1"[1..] == "";
  }

  lemma SetFresh(l: Recency, x: Entry, limits: Limits, ids: set<string>)
    requires Ids(l, x.stream) <= ids && |ids| < limits.perStream && |l| <= limits.total
    requires forall y :: y in l ==> y.stream != x.stream || y.id != x.id
    ensures Set(l, x, limits) == if |l| < limits.total then l + [x] else (l + [x])[1..]
  {
    assert ids == Ids(l, x.stream) + (ids - Ids(l, x.stream));
    KeepAll(l, Except(x.stream, x.id));
  }

  lemma TouchFirst(a: Entry, b: Entry)
    requires a.stream != b.stream || a.id != b.id
    ensures Get([a, b], a.stream, a.id) == [b, a]
  {
    assert a in [a, b];
    assert [a, b][1..] == [b] && [b][1..] == [];
    assert Keep([b], Except(a.stream, a.id)) == [b];
    assert Find([a, b], a.stream, a.id) == a;
  }
}
