// The simple specification of the event cache: one list of cached events, the
// least recently used first, and what each operation does to it.
module RecencyList {
  import opened Text

  datatype CachedEvent = CachedEvent(eventId: string, message: string, timestamp: int, streamId: string)

  datatype Entry = Entry(stream: string, id: string, event: CachedEvent)

  type Recency = seq<Entry>

  const MAX_AGE := 24 * 60 * 60 * 1000

  datatype Limits = Limits(total: nat, perStream: nat)

  // Which entries an operation keeps.
  datatype Rule =
    | Except(stream: string, id: string)
    | ExceptStream(stream: string)
    | FreshAt(now: int)
    | FreshOutside(streams: set<string>, now: int)   // expiry, with these streams still to come

  predicate Keeps(r: Rule, x: Entry) {
    match r
    case Except(s, e) => x.stream != s || x.id != e
    case ExceptStream(s) => x.stream != s
    case FreshAt(now) => now - x.event.timestamp <= MAX_AGE
    case FreshOutside(streams, now) => x.stream in streams || now - x.event.timestamp <= MAX_AGE
  }

  function Keep(l: Recency, r: Rule): Recency {
    if l == [] then []
    else if Keeps(r, l[0]) then [l[0]] + Keep(l[1..], r)
    else Keep(l[1..], r)
  }

  // The ids cached for one stream.
  function Ids(l: Recency, stream: string): set<string> {
    set x | x in l && x.stream == stream :: x.id
  }

  function EvictOldest(l: Recency, stream: string, limits: Limits): Recency {
    var ids := Ids(l, stream);
    if |ids| >= limits.perStream && ids != {} then Keep(l, Except(stream, Least(ids))) else l
  }

  // The list once the new entry is in, before the total limit is enforced.
  function Stored(l: Recency, x: Entry, limits: Limits): Recency {
    Keep(EvictOldest(l, x.stream, limits), Except(x.stream, x.id)) + [x]
  }

  function DropOldest(l: Recency, total: nat): Recency {
    if |l| > total then l[|l| - total..] else l
  }

  function Set(l: Recency, x: Entry, limits: Limits): Recency {
    DropOldest(Stored(l, x, limits), limits.total)
  }

  // A hit moves the entry to the most recent end; a miss changes nothing.
  function Get(l: Recency, stream: string, id: string): Recency {
    if exists x :: x in l && x.stream == stream && x.id == id
    then Keep(l, Except(stream, id)) + [Find(l, stream, id)]
    else l
  }

  function Find(l: Recency, stream: string, id: string): (x: Entry)
    requires exists y :: y in l && y.stream == stream && y.id == id
    ensures x in l && x.stream == stream && x.id == id
  {
    if l[0].stream == stream && l[0].id == id then l[0] else Find(l[1..], stream, id)
  }

  // No pair is cached twice.
  ghost predicate Distinct(l: Recency) {
    forall i, j :: 0 <= i < j < |l| ==> l[i].stream != l[j].stream || l[i].id != l[j].id
  }

  lemma {:induction false} KeepMembers(l: Recency, r: Rule)
    ensures forall x :: x in Keep(l, r) <==> x in l && Keeps(r, x)
  {
    if l != [] {
      KeepMembers(l[1..], r);
      assert forall x :: x in l <==> x == l[0] || x in l[1..];
    }
  }

  lemma {:induction false} KeepDistinct(l: Recency, r: Rule)
    requires Distinct(l)
    ensures Distinct(Keep(l, r)) && |Keep(l, r)| <= |l|
  {
    if l != [] {
      KeepDistinct(l[1..], r);
      KeepMembers(l[1..], r);
      forall y | y in l[1..]
        ensures y.stream != l[0].stream || y.id != l[0].id
      {
        var k :| 0 <= k < |l[1..]| && l[1..][k] == y;
        assert l[k + 1] == y;
      }
    }
  }

  lemma {:induction false} KeepAll(l: Recency, r: Rule)
    requires forall x :: x in l ==> Keeps(r, x)
    ensures Keep(l, r) == l
  {
    if l != [] {
      KeepAll(l[1..], r);
    }
  }

  lemma {:induction false} KeepTwice(l: Recency, r: Rule, r': Rule, both: Rule)
    requires forall x :: x in l ==> (Keeps(both, x) <==> Keeps(r, x) && Keeps(r', x))
    ensures Keep(Keep(l, r), r') == Keep(l, both)
  {
    if l != [] {
      assert l[0] in l;
      KeepTwice(l[1..], r, r', both);
    }
  }

  // What is cached once an entry is set, before the total limit is enforced: the new entry and the others,
  // except an older one of the same pair and, if its stream was full, the one with the stream's least id.
  lemma WhatIsStored(l: Recency, x: Entry, limits: Limits, y: Entry)
    ensures y in Stored(l, x, limits) <==>
            || y == x
            || (&& y in l && !(y.stream == x.stream && y.id == x.id)
                && !(&& y.stream == x.stream && |Ids(l, x.stream)| >= limits.perStream
                     && forall z :: z in l && z.stream == x.stream ==> z.id == y.id || Less(y.id, z.id)))
  {
    var ids, a := Ids(l, x.stream), EvictOldest(l, x.stream, limits);
    KeepMembers(a, Except(x.stream, x.id));
    if |ids| >= limits.perStream && ids != {} {
      KeepMembers(l, Except(x.stream, Least(ids)));
      assert IsLeast(ids, Least(ids));
      if y in l && y.stream == x.stream {
        assert y.id in ids;
        assert (forall z :: z in l && z.stream == x.stream ==> z.id == y.id || Less(y.id, z.id)) ==> IsLeast(ids, y.id);
        if IsLeast(ids, y.id) {
          LeastUnique(ids, y.id, Least(ids));
        }
      }
    } else if y in l && y.stream == x.stream {
      assert y.id in ids;
    }
  }

  // A read loses nothing and adds nothing; a hit puts its entry at the recent end.
  lemma WhatGetKeeps(l: Recency, stream: string, id: string, y: Entry)
    requires Distinct(l)
    ensures y in Get(l, stream, id) <==> y in l
    ensures y in l && y.stream == stream && y.id == id ==> Get(l, stream, id)[|Get(l, stream, id)| - 1] == y
    ensures (forall x :: x in l ==> x.stream != stream || x.id != id) ==> Get(l, stream, id) == l
  {
    KeepMembers(l, Except(stream, id));
    if exists x :: x in l && x.stream == stream && x.id == id {
      if y in l && y.stream == stream && y.id == id {
        SameEntry(l, y, Find(l, stream, id));
      }
    }
  }

  lemma SameEntry(l: Recency, x: Entry, y: Entry)
    requires Distinct(l) && x in l && y in l && x.stream == y.stream && x.id == y.id
    ensures x == y
  {
    var i :| 0 <= i < |l| && l[i] == x;
    var j :| 0 <= j < |l| && l[j] == y;
    if i < j || j < i {
      assert false;
    }
  }

  /* ---------- whole runs ---------- */

  datatype Op =
    | SetEvent(entry: Entry)
    | GetEvent(stream: string, id: string)
    | CleanupStream(stream: string)
    | CleanupExpired(now: int)
    | ClearAll

  function Do(l: Recency, op: Op, limits: Limits): Recency {
    match op
    case SetEvent(x) => Set(l, x, limits)
    case GetEvent(s, e) => Get(l, s, e)
    case CleanupStream(s) => Keep(l, ExceptStream(s))
    case CleanupExpired(now) => Keep(l, FreshAt(now))
    case ClearAll => []
  }

  function After(run: seq<Op>, limits: Limits): Recency {
    if run == [] then [] else Do(After(run[..|run| - 1], limits), run[|run| - 1], limits)
  }

  lemma {:induction false} AlwaysDistinct(run: seq<Op>, limits: Limits)
    ensures Distinct(After(run, limits))
  {
    if run != [] {
      AlwaysDistinct(run[..|run| - 1], limits);
      DistinctStep(After(run[..|run| - 1], limits), run[|run| - 1], limits);
    }
  }

  lemma DistinctStep(l: Recency, op: Op, limits: Limits)
    requires Distinct(l)
    ensures Distinct(Do(l, op, limits))
  {
    match op {
      case SetEvent(x) =>
        var a := EvictOldest(l, x.stream, limits);
        if a != l {
          KeepDistinct(l, Except(x.stream, Least(Ids(l, x.stream))));
        }
        KeepDistinct(a, Except(x.stream, x.id));
        KeepMembers(a, Except(x.stream, x.id));
        PushDistinct(Keep(a, Except(x.stream, x.id)), x);
      case GetEvent(s, e) =>
        KeepDistinct(l, Except(s, e));
        KeepMembers(l, Except(s, e));
        if exists x :: x in l && x.stream == s && x.id == e {
          PushDistinct(Keep(l, Except(s, e)), Find(l, s, e));
        }
      case CleanupStream(s) =>
        KeepDistinct(l, ExceptStream(s));
      case CleanupExpired(now) =>
        KeepDistinct(l, FreshAt(now));
      case ClearAll =>
    }
  }

  lemma PushDistinct(l: Recency, x: Entry)
    requires Distinct(l) && forall y :: y in l ==> y.stream != x.stream || y.id != x.id
    ensures Distinct(l + [x])
  {
  }

  // The moment of the last set or get of a pair, as a position in the run.
  function LastTouch(run: seq<Op>, stream: string, id: string): int {
    if run == [] then -1
    else
      var op := run[|run| - 1];
      if (op.SetEvent? && op.entry.stream == stream && op.entry.id == id)
         || (op.GetEvent? && op.stream == stream && op.id == id)
      then |run| - 1
      else LastTouch(run[..|run| - 1], stream, id)
  }

  ghost predicate ByLastTouch(l: Recency, run: seq<Op>) {
    && (forall x :: x in l ==> 0 <= LastTouch(run, x.stream, x.id) < |run|)
    && (forall i, j :: 0 <= i < j < |l| ==>
          LastTouch(run, l[i].stream, l[i].id) < LastTouch(run, l[j].stream, l[j].id))
  }

  // The list really is in order of last access, in every run.
  lemma {:induction false} OrderIsRecency(run: seq<Op>, limits: Limits)
    ensures ByLastTouch(After(run, limits), run)
  {
    if run != [] {
      OrderIsRecency(run[..|run| - 1], limits);
      OrderStep(After(run[..|run| - 1], limits), run, limits);
    }
  }

  lemma OrderStep(l: Recency, run: seq<Op>, limits: Limits)
    requires run != [] && ByLastTouch(l, run[..|run| - 1])
    ensures ByLastTouch(Do(l, run[|run| - 1], limits), run)
  {
    var before, op := run[..|run| - 1], run[|run| - 1];
    match op {
      case SetEvent(x) =>
        assert before + [SetEvent(x)] == run;
        StoredByTouch(l, x, limits, before);
      case GetEvent(s, e) =>
        KeepByTouch(l, Except(s, e), before);
        if exists x :: x in l && x.stream == s && x.id == e {
          PushByTouch(Keep(l, Except(s, e)), Find(l, s, e), before, run);
        } else {
          UntouchedByTouch(l, before, run);
        }
      case CleanupStream(s) =>
        KeepByTouch(l, ExceptStream(s), before);
        UntouchedByTouch(Keep(l, ExceptStream(s)), before, run);
      case CleanupExpired(now) =>
        KeepByTouch(l, FreshAt(now), before);
        UntouchedByTouch(Keep(l, FreshAt(now)), before, run);
      case ClearAll =>
    }
  }

  lemma UntouchedByTouch(l: Recency, before: seq<Op>, run: seq<Op>)
    requires ByLastTouch(l, before) && |run| == |before| + 1
    requires forall y :: y in l ==> LastTouch(run, y.stream, y.id) == LastTouch(before, y.stream, y.id)
    ensures ByLastTouch(l, run)
  {
  }

  lemma PushByTouch(l: Recency, x: Entry, before: seq<Op>, run: seq<Op>)
    requires ByLastTouch(l, before) && |run| == |before| + 1 && run[..|before|] == before
    requires LastTouch(run, x.stream, x.id) == |before|
    requires forall y :: y in l ==> LastTouch(run, y.stream, y.id) == LastTouch(before, y.stream, y.id)
    ensures ByLastTouch(l + [x], run)
  {
  }

  lemma {:induction false} KeepByTouch(l: Recency, r: Rule, run: seq<Op>)
    requires ByLastTouch(l, run)
    ensures ByLastTouch(Keep(l, r), run)
    ensures forall x :: x in Keep(l, r) <==> x in l && Keeps(r, x)
  {
    hide LastTouch;
    KeepMembers(l, r);
    if l != [] {
      TouchTail(l, run);
      KeepByTouch(l[1..], r, run);
      if Keeps(r, l[0]) {
        TouchCons(l[0], Keep(l[1..], r), run);
      }
    }
  }

  lemma TouchTail(l: Recency, run: seq<Op>)
    requires l != [] && ByLastTouch(l, run)
    ensures ByLastTouch(l[1..], run)
    ensures forall y :: y in l[1..] ==> LastTouch(run, l[0].stream, l[0].id) < LastTouch(run, y.stream, y.id)
  {
    hide LastTouch;
    forall y | y in l[1..]
      ensures LastTouch(run, l[0].stream, l[0].id) < LastTouch(run, y.stream, y.id)
    {
      var k :| 0 <= k < |l[1..]| && l[1..][k] == y;
      assert l[k + 1] == y;
    }
  }

  lemma TouchCons(x: Entry, l: Recency, run: seq<Op>)
    requires ByLastTouch(l, run) && 0 <= LastTouch(run, x.stream, x.id) < |run|
    requires forall y :: y in l ==> LastTouch(run, x.stream, x.id) < LastTouch(run, y.stream, y.id)
    ensures ByLastTouch([x] + l, run)
  {
    hide LastTouch;
  }

  // Enforcing the total limit removes exactly the excess, and every entry that
  // stays was accessed later than every entry that goes.
  lemma LruEvictsTheLeastRecent(run: seq<Op>, x: Entry, limits: Limits, victim: Entry, survivor: Entry)
    requires victim in Stored(After(run, limits), x, limits)
    requires victim !in After(run + [SetEvent(x)], limits)
    requires survivor in After(run + [SetEvent(x)], limits)
    ensures |After(run + [SetEvent(x)], limits)| == limits.total
    ensures |Stored(After(run, limits), x, limits)| > limits.total
    ensures var now := run + [SetEvent(x)];
            LastTouch(now, victim.stream, victim.id) < LastTouch(now, survivor.stream, survivor.id)
  {
    var now, stored := run + [SetEvent(x)], Stored(After(run, limits), x, limits);
    assert now[..|now| - 1] == run && After(now, limits) == DropOldest(stored, limits.total);
    OrderIsRecency(run, limits);
    StoredByTouch(After(run, limits), x, limits, run);
    CutByTouch(stored, now, limits.total, victim, survivor);
  }

  lemma CutByTouch(l: Recency, run: seq<Op>, total: nat, victim: Entry, survivor: Entry)
    requires ByLastTouch(l, run) && victim in l
    requires victim !in DropOldest(l, total) && survivor in DropOldest(l, total)
    ensures |l| > total == |DropOldest(l, total)|
    ensures LastTouch(run, victim.stream, victim.id) < LastTouch(run, survivor.stream, survivor.id)
  {
    hide LastTouch, ByLastTouch;
    var cut := |l| - total;
    var i :| 0 <= i < |l| && l[i] == victim;
    assert i < cut;
    var j :| 0 <= j < |l[cut..]| && l[cut..][j] == survivor;
    assert l[cut + j] == survivor;
    TouchedEarlier(l, run, i, cut + j);
  }

  lemma TouchedEarlier(l: Recency, run: seq<Op>, i: nat, j: nat)
    requires ByLastTouch(l, run) && i < j < |l|
    ensures LastTouch(run, l[i].stream, l[i].id) < LastTouch(run, l[j].stream, l[j].id)
  {
    hide LastTouch;
  }

  lemma StoredByTouch(l: Recency, x: Entry, limits: Limits, run: seq<Op>)
    requires ByLastTouch(l, run)
    ensures ByLastTouch(Stored(l, x, limits), run + [SetEvent(x)])
  {
    var now := run + [SetEvent(x)];
    assert now[..|now| - 1] == run;
    var a := EvictOldest(l, x.stream, limits);
    if a != l {
      KeepByTouch(l, Except(x.stream, Least(Ids(l, x.stream))), run);
    }
    KeepByTouch(a, Except(x.stream, x.id), run);
    PushByTouch(Keep(a, Except(x.stream, x.id)), x, run, now);
  }

  // The entry just set is cached, whenever the cache may hold anything at all.
  lemma JustSetSurvives(l: Recency, x: Entry, limits: Limits)
    requires limits.total >= 1
    ensures x in Set(l, x, limits) && Set(l, x, limits)[|Set(l, x, limits)| - 1] == x
    ensures |Set(l, x, limits)| <= limits.total
  {
  }
}
