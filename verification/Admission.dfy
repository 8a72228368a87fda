// Counters that decide when a result is worth caching: each attempt prolongs the counter's
// life, and an expired counter starts again.
module Admission {
  import opened ExpiringRows

  datatype Call =
    | RecordAttempt(key: string, windowSeconds: int)
    | GetCount(key: string)
    | ClearAdmission(key: string)
    | Cleanup(batchSize: nat, gone: set<string>)

  function CountAfter(rows: Table<int>, key: string, now: int): int {
    if key !in rows || rows[key].expiresAt < now then 1 else rows[key].value + 1
  }

  function VisibleCount(rows: Table<int>, key: string, now: int): int {
    if key in rows && rows[key].expiresAt > now then rows[key].value else 0
  }

  predicate Possible(rows: Table<int>, t: Timed<Call>) {
    t.call.Cleanup? ==> IsBatch(rows, t.now, t.call.batchSize, t.call.gone)
  }

  function Step(rows: Table<int>, t: Timed<Call>): Table<int> {
    match t.call
    case RecordAttempt(key, window) => rows[key := Row(CountAfter(rows, key, t.now), t.now + window * 1000)]
    case GetCount(_) => rows
    case ClearAdmission(key) => rows - {key}
    case Cleanup(_, gone) => rows - gone
  }

  // The number a call answers.
  function Answer(rows: Table<int>, t: Timed<Call>): int {
    match t.call
    case RecordAttempt(key, _) => CountAfter(rows, key, t.now)
    case GetCount(key) => VisibleCount(rows, key, t.now)
    case _ => 0
  }

  function Answers(rows: Table<int>, calls: seq<Timed<Call>>): seq<int>
    decreases |calls|
  {
    if calls == [] then []
    else
      var rest := Answers(Step(rows, calls[0]), calls[1..]);
      if calls[0].call.Cleanup? then rest else [Answer(rows, calls[0])] + rest
  }

  predicate Legal(rows: Table<int>, calls: seq<Timed<Call>>)
    decreases |calls|
  {
    calls == [] || (Possible(rows, calls[0]) && Legal(Step(rows, calls[0]), calls[1..]))
  }

  function WithoutCleanup(calls: seq<Timed<Call>>): seq<Timed<Call>> {
    if calls == [] then []
    else if calls[0].call.Cleanup? then WithoutCleanup(calls[1..])
    else [calls[0]] + WithoutCleanup(calls[1..])
  }

  // One call on two tables that differ in expired rows only: the same answer, and the
  // tables still differ in expired rows only.
  lemma StepHides(a: Table<int>, b: Table<int>, t: Timed<Call>)
    requires Hides(a, b, t.now) && Possible(a, t)
    ensures t.call.Cleanup? ==> Hides(Step(a, t), b, t.now)
    ensures !t.call.Cleanup? ==> Answer(a, t) == Answer(b, t) && Hides(Step(a, t), Step(b, t), t.now)
  {
    if t.call.Cleanup? {
      CleanupHides(a, b, t.now, t.call.batchSize, t.call.gone);
    }
  }

  // Cleaning up at any moments changes no answer, for every sequence of calls.
  lemma {:induction false} CleanupIsInvisible(a: Table<int>, b: Table<int>, now: int, calls: seq<Timed<Call>>)
    requires Hides(a, b, now) && ClockRuns(now, calls) && Legal(a, calls)
    ensures Answers(a, calls) == Answers(b, WithoutCleanup(calls))
    decreases |calls|
  {
    hide Answer, Hides;
    if calls != [] {
      var t := calls[0];
      HidesLater(a, b, now, t.now);
      StepHides(a, b, t);
      CleanupIsInvisible(Step(a, t), if t.call.Cleanup? then b else Step(b, t), t.now, calls[1..]);
      var rest := WithoutCleanup(calls[1..]);
      assert !t.call.Cleanup? ==> ([t] + rest)[0] == t && ([t] + rest)[1..] == rest;
    }
  }

  lemma CleanupChangesNoAnswer(rows: Table<int>, now: int, calls: seq<Timed<Call>>)
    requires ClockRuns(now, calls) && Legal(rows, calls)
    ensures Answers(rows, calls) == Answers(rows, WithoutCleanup(calls))
  {
    CleanupIsInvisible(rows, rows, now, calls);
  }

  // At the very moment of expiry a counter can no longer be read, but an attempt still counts on.
  lemma ExpiryInstant(rows: Table<int>, key: string)
    requires key in rows
    ensures VisibleCount(rows, key, rows[key].expiresAt) == 0
    ensures CountAfter(rows, key, rows[key].expiresAt) == rows[key].value + 1
    ensures key !in Expired(rows, rows[key].expiresAt)
  {
  }

  // A call changes at most the counter it names; a reading changes none, and a cleanup only removes.
  lemma OtherCountersUntouched(rows: Table<int>, t: Timed<Call>, key: string)
    requires match t.call {
               case RecordAttempt(k, _) => k != key
               case ClearAdmission(k) => k != key
               case Cleanup(_, gone) => key !in gone
               case GetCount(_) => true
             }
    ensures key in Step(rows, t) <==> key in rows
    ensures key in rows ==> Step(rows, t)[key] == rows[key]
  {
  }

  // A counter that is cleared, or has expired, reads 0 and starts again at 1.
  lemma ClearedStartsAgain(rows: Table<int>, key: string, window: int, cleared: int, now: int)
    requires window > 0
    ensures var u := Step(rows, Timed(cleared, ClearAdmission(key)));
            && key !in u && u.Keys == rows.Keys - {key} && (forall k :: k in u ==> u[k] == rows[k])
            && Answer(u, Timed(now, GetCount(key))) == 0
            && Answer(u, Timed(now, RecordAttempt(key, window))) == 1
            && Answer(Step(u, Timed(now, RecordAttempt(key, window))), Timed(now, GetCount(key))) == 1
  {
  }

  // Attempts no further apart than the window are all counted, however long they go on.
  predicate Steady(calls: seq<Timed<Call>>, key: string, window: int) {
    && (forall k :: 0 <= k < |calls| ==> calls[k].call == RecordAttempt(key, window))
    && (forall k :: 0 < k < |calls| ==> calls[k].now <= calls[k - 1].now + window * 1000)
  }

  function After(rows: Table<int>, calls: seq<Timed<Call>>): Table<int> {
    if calls == [] then rows else Step(After(rows, calls[..|calls| - 1]), calls[|calls| - 1])
  }

  lemma {:induction false} SteadyAttemptsAllCount(rows: Table<int>, calls: seq<Timed<Call>>, key: string, window: int)
    requires Steady(calls, key, window) && calls != []
    requires key !in rows || rows[key].expiresAt < calls[0].now
    ensures key in After(rows, calls)
    ensures After(rows, calls)[key] == Row(|calls|, calls[|calls| - 1].now + window * 1000)
  {
    var n := |calls| - 1;
    if n > 0 {
      SteadyAttemptsAllCount(rows, calls[..n], key, window);
      assert calls[n].now <= calls[n - 1].now + window * 1000;
    } else {
      assert calls[..0] == [];
    }
  }

  class ResultCacheAdmissionRepository {
    var rows: Table<int>

    constructor ()
      ensures rows == map[]
    {
      rows := map[];
    }

    method RecordAttempt(key: string, windowSeconds: int, now: int) returns (count: int)
      modifies this
      ensures count == Answer(old(rows), Timed(now, Call.RecordAttempt(key, windowSeconds)))
      ensures rows == Step(old(rows), Timed(now, Call.RecordAttempt(key, windowSeconds)))
      ensures count == old(if key in rows && now <= rows[key].expiresAt then rows[key].value + 1 else 1)
      ensures rows == old(rows)[key := Row(count, now + windowSeconds * 1000)]
    {
      var expiresAt := now + windowSeconds * 1000;
      if key !in rows {
        count := 1;
      } else if rows[key].expiresAt < now {
        count := 1;
      } else {
        count := rows[key].value + 1;
      }
      rows := rows[key := Row(count, expiresAt)];
    }

    method GetCount(key: string, now: int) returns (count: int)
      ensures count == Answer(rows, Timed(now, Call.GetCount(key)))
      ensures count == if key in rows && now < rows[key].expiresAt then rows[key].value else 0
    {
      count := 0;
      if key in rows && rows[key].expiresAt > now {
        count := rows[key].value;
      }
    }

    method ClearAdmission(key: string, now: int)
      modifies this
      ensures rows == Step(old(rows), Timed(now, Call.ClearAdmission(key)))
      ensures key !in rows && forall k :: k != key ==> (k in rows <==> k in old(rows)) && (k in rows ==> rows[k] == old(rows)[k])
    {
      rows := rows - {key};
    }

    method CleanupExpired(batchSize: nat, now: int) returns (count: nat, ghost gone: set<string>)
      modifies this
      ensures Possible(old(rows), Timed(now, Cleanup(batchSize, gone)))
      ensures forall g, k :: g in gone && k in rows && rows[k].expiresAt < now ==> old(rows)[g].expiresAt <= rows[k].expiresAt
      ensures rows == Step(old(rows), Timed(now, Cleanup(batchSize, gone)))
      ensures count == |gone| && count == if |Expired(old(rows), now)| <= batchSize then |Expired(old(rows), now)| else batchSize
    {
      var deleted;
      rows, deleted := DeleteExpired(rows, now, batchSize);
      gone := deleted;
      BatchSize(old(rows), now, batchSize, gone);
      count := |deleted|;
    }

    static lemma BatchSize(rows: Table<int>, now: int, batchSize: nat, gone: set<string>)
      requires IsBatch(rows, now, batchSize, gone)
      ensures |gone| == if |Expired(rows, now)| <= batchSize then |Expired(rows, now)| else batchSize
    {
      var all := Expired(rows, now);
      assert |all| == |gone| + |all - gone| by { assert all == gone + (all - gone); }
      if gone != all {
        var k :| k in all - gone;
        assert |all - gone| > 0;
      }
    }
  }
}
