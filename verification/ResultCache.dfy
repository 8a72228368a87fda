// Cached results with an expiry time: overwriting, reading while alive, deleting, and
// garbage collection nobody can notice.
module ResultCache {
  import opened Wrappers
  import opened ExpiringRows

  // What a reader sees of an entry besides its expiry time.
  datatype Payload = Payload(blob: seq<bv8>, encoding: string)

  datatype Call =
    | GetEntry(key: string)
    | UpsertEntry(key: string, payload: Payload, expiresAt: int)
    | DeleteEntry(key: string)
    | Cleanup(batchSize: nat, gone: set<string>)

  function Visible(rows: Table<Payload>, key: string, now: int): Option<Row<Payload>> {
    if key in rows && rows[key].expiresAt > now then Some(rows[key]) else None
  }

  predicate Possible(rows: Table<Payload>, t: Timed<Call>) {
    t.call.Cleanup? ==> IsBatch(rows, t.now, t.call.batchSize, t.call.gone)
  }

  function Step(rows: Table<Payload>, t: Timed<Call>): Table<Payload> {
    match t.call
    case GetEntry(_) => rows
    case UpsertEntry(key, payload, expiresAt) => rows[key := Row(payload, expiresAt)]
    case DeleteEntry(key) => rows - {key}
    case Cleanup(_, gone) => rows - gone
  }

  // The reads of a sequence of calls, in order.
  function Reads(rows: Table<Payload>, calls: seq<Timed<Call>>): seq<Option<Row<Payload>>>
    decreases |calls|
  {
    if calls == [] then []
    else
      var rest := Reads(Step(rows, calls[0]), calls[1..]);
      if calls[0].call.GetEntry? then [Visible(rows, calls[0].call.key, calls[0].now)] + rest else rest
  }

  predicate Legal(rows: Table<Payload>, calls: seq<Timed<Call>>)
    decreases |calls|
  {
    calls == [] || (Possible(rows, calls[0]) && Legal(Step(rows, calls[0]), calls[1..]))
  }

  function WithoutCleanup(calls: seq<Timed<Call>>): seq<Timed<Call>> {
    if calls == [] then []
    else if calls[0].call.Cleanup? then WithoutCleanup(calls[1..])
    else [calls[0]] + WithoutCleanup(calls[1..])
  }

  lemma StepHides(a: Table<Payload>, b: Table<Payload>, t: Timed<Call>)
    requires Hides(a, b, t.now) && Possible(a, t)
    ensures t.call.Cleanup? ==> Hides(Step(a, t), b, t.now)
    ensures !t.call.Cleanup? ==> Hides(Step(a, t), Step(b, t), t.now)
    ensures t.call.GetEntry? ==> Visible(a, t.call.key, t.now) == Visible(b, t.call.key, t.now)
  {
    if t.call.Cleanup? {
      CleanupHides(a, b, t.now, t.call.batchSize, t.call.gone);
    }
  }

  // Cleaning up at any moments changes no read.
  lemma {:induction false} CleanupIsInvisible(a: Table<Payload>, b: Table<Payload>, now: int, calls: seq<Timed<Call>>)
    requires Hides(a, b, now) && ClockRuns(now, calls) && Legal(a, calls)
    ensures Reads(a, calls) == Reads(b, WithoutCleanup(calls))
    decreases |calls|
  {
    hide Visible, Hides;
    if calls != [] {
      var t := calls[0];
      HidesLater(a, b, now, t.now);
      StepHides(a, b, t);
      CleanupIsInvisible(Step(a, t), if t.call.Cleanup? then b else Step(b, t), t.now, calls[1..]);
      var rest := WithoutCleanup(calls[1..]);
      assert !t.call.Cleanup? ==> ([t] + rest)[0] == t && ([t] + rest)[1..] == rest;
    }
  }

  lemma CleanupChangesNoRead(rows: Table<Payload>, now: int, calls: seq<Timed<Call>>)
    requires ClockRuns(now, calls) && Legal(rows, calls)
    ensures Reads(rows, calls) == Reads(rows, WithoutCleanup(calls))
  {
    CleanupIsInvisible(rows, rows, now, calls);
  }

  function After(rows: Table<Payload>, calls: seq<Timed<Call>>): Table<Payload> {
    if calls == [] then rows else Step(After(rows, calls[..|calls| - 1]), calls[|calls| - 1])
  }

  // A read returns the payload of the last write to its key, if that write has neither been
  // deleted nor expired: nothing older ever comes back.
  lemma ReadsLastWrite(rows: Table<Payload>, calls: seq<Timed<Call>>, key: string, now: int, w: nat)
    requires w < |calls| && calls[w].call.UpsertEntry? && calls[w].call.key == key
    requires forall k :: w < k < |calls| ==> !Touches(calls[k], key) && calls[k].now <= now
    requires forall k :: w < k < |calls| ==> Possible(After(rows, calls[..k]), calls[k])
    ensures Visible(After(rows, calls), key, now) ==
            if calls[w].call.expiresAt > now then Some(Row(calls[w].call.payload, calls[w].call.expiresAt)) else None
  {
    WriteSurvives(rows, calls, key, now, w);
  }

  // Whether a call writes or deletes the key on purpose.
  predicate Touches(t: Timed<Call>, key: string) {
    (t.call.UpsertEntry? || t.call.DeleteEntry?) && t.call.key == key
  }

  lemma {:induction false} WriteSurvives(rows: Table<Payload>, calls: seq<Timed<Call>>, key: string, now: int, w: nat)
    requires w < |calls| && calls[w].call.UpsertEntry? && calls[w].call.key == key
    requires forall k :: w < k < |calls| ==> !Touches(calls[k], key) && calls[k].now <= now
    requires forall k :: w < k < |calls| ==> Possible(After(rows, calls[..k]), calls[k])
    ensures key in After(rows, calls) ==> After(rows, calls)[key] == Row(calls[w].call.payload, calls[w].call.expiresAt)
    ensures calls[w].call.expiresAt >= now ==> key in After(rows, calls)
  {
    hide Possible, Touches, Step;
    var n := |calls| - 1;
    if w == n {
      WrittenRow(After(rows, calls[..n]), calls[n]);
    } else {
      var init := calls[..n];
      forall k | w < k < n
        ensures Possible(After(rows, init[..k]), init[k])
      {
        assert init[..k] == calls[..k];
      }
      WriteSurvives(rows, init, key, now, w);
      UntouchedRow(After(rows, init), calls[n], key);
    }
  }

  lemma WrittenRow(rows: Table<Payload>, t: Timed<Call>)
    requires t.call.UpsertEntry?
    ensures t.call.key in Step(rows, t) && Step(rows, t)[t.call.key] == Row(t.call.payload, t.call.expiresAt)
  {
  }

  lemma UntouchedRow(rows: Table<Payload>, t: Timed<Call>, key: string)
    requires Possible(rows, t) && !Touches(t, key)
    ensures key in Step(rows, t) ==> key in rows && Step(rows, t)[key] == rows[key]
    ensures key in rows && rows[key].expiresAt >= t.now ==> key in Step(rows, t)
  {
  }

  // A call changes at most the entry it names.
  lemma OtherEntriesUntouched(rows: Table<Payload>, t: Timed<Call>, key: string)
    requires match t.call {
               case UpsertEntry(k, _, _) => k != key
               case DeleteEntry(k) => k != key
               case Cleanup(_, gone) => key !in gone
               case GetEntry(_) => true
             }
    ensures key in Step(rows, t) <==> key in rows
    ensures key in rows ==> Step(rows, t)[key] == rows[key]
  {
  }

  // A deleted entry is not read again until it is written again.
  lemma {:induction false} DeletedStaysGone(rows: Table<Payload>, calls: seq<Timed<Call>>, key: string, now: int, d: nat)
    requires d < |calls| && calls[d].call == DeleteEntry(key)
    requires forall k :: d < k < |calls| ==> !calls[k].call.UpsertEntry? || calls[k].call.key != key
    ensures key !in After(rows, calls) && Visible(After(rows, calls), key, now) == None
  {
    if d < |calls| - 1 {
      DeletedStaysGone(rows, calls[..|calls| - 1], key, now, d);
    }
  }

  class ResultCacheRepository {
    var rows: Table<Payload>

    constructor ()
      ensures rows == map[]
    {
      rows := map[];
    }

    method GetEntry(key: string, now: int) returns (r: Option<Row<Payload>>)
      ensures r == Visible(rows, key, now)
      ensures r.Some? ==> r.value.expiresAt > now
    {
      if key in rows && rows[key].expiresAt > now {
        return Some(rows[key]);
      }
      return None;
    }

    method UpsertEntry(key: string, payload: Payload, expiresAt: int, now: int)
      modifies this
      ensures rows == Step(old(rows), Timed(now, Call.UpsertEntry(key, payload, expiresAt)))
    {
      rows := rows[key := Row(payload, expiresAt)];
    }

    method DeleteEntry(key: string, now: int)
      modifies this
      ensures rows == Step(old(rows), Timed(now, Call.DeleteEntry(key)))
    {
      rows := rows - {key};
    }

    method CleanupExpired(batchSize: nat, now: int) returns (count: nat, ghost gone: set<string>)
      modifies this
      ensures Possible(old(rows), Timed(now, Cleanup(batchSize, gone)))
      ensures forall g, k :: g in gone && k in rows && rows[k].expiresAt < now ==> old(rows)[g].expiresAt <= rows[k].expiresAt
      ensures rows == Step(old(rows), Timed(now, Cleanup(batchSize, gone)))
      ensures count == |gone|
    {
      var deleted;
      rows, deleted := DeleteExpired(rows, now, batchSize);
      gone := deleted;
      count := |deleted|;
    }
  }
}
