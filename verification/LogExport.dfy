// Export of the log table to a webhook: a cursor, batches of logs above it, and what
// happens between the awaits when requests fail, ticks overlap or the process dies.
module LogExport {
  const SYNC_BATCH_SIZE := 1000
  const RETRY_COUNT := 1

  datatype Phase =
    | Idle
    | Fetching
    | Posting(batch: seq<nat>, attempt: nat)
    | Persisting(batch: seq<nat>)   // acknowledged, the cursor write issued
    | Confirming(batch: seq<nat>)   // written, the write not yet confirmed

  // logs are the ids in the table, seen those that ever were, and nextId bounds every id handed
  // out; db is the stored cursor and stray holds cursor writes that were given up but may still
  // land. The process is up or down; while it is up it has its own cursor and a phase.
  datatype State = State(
    logs: set<nat>, seen: set<nat>, nextId: nat, db: nat, stray: multiset<nat>,
    up: bool, cursor: nat, configured: bool, closing: bool, phase: Phase,
    acked: seq<seq<nat>>)

  datatype Event =
    | Commit(id: nat)            // a row with a new highest id appears
    | LateCommit(id: nat)        // a row appears whose id was handed out earlier
    | DeleteAll
    | Configure(on: bool)
    | Tick
    | Fetched(batch: seq<nat>)
    | FetchFailed
    | PostOk
    | PostFailed
    | Written
    | Persisted
    | PersistFailed(pending: bool)   // pending: an issued cursor write may still land
    | Close
    | Crash(pending: bool)
    | Start
    | StrayLands(cursor: nat)

  predicate Ascending(xs: seq<nat>) {
    forall i, j :: 0 <= i < j < |xs| ==> xs[i] < xs[j]
  }

  function Last(xs: seq<nat>): nat
    requires xs != []
  {
    xs[|xs| - 1]
  }

  // findLogsFromId: the lowest ids from a given one on, in order, at most limit of them.
  predicate IsPage(logs: set<nat>, from: nat, limit: nat, page: seq<nat>) {
    && Ascending(page) && |page| <= limit
    && (forall k :: 0 <= k < |page| ==> page[k] in logs && from <= page[k])
    && (forall id :: id in logs && from <= id ==> id in page || (|page| == limit && page != [] && Last(page) < id))
  }

  predicate Possible(s: State, ev: Event) {
    match ev
    case Commit(id) => s.nextId <= id
    case LateCommit(id) => id < s.nextId && id !in s.seen
    case DeleteAll => true
    case Start => !s.up
    case Configure(_) => s.up
    case Tick => s.up
    case Fetched(batch) => s.up && s.phase.Fetching? && IsPage(s.logs, s.cursor + 1, SYNC_BATCH_SIZE, batch)
    case FetchFailed => s.up && s.phase.Fetching?
    case PostOk => s.up && s.phase.Posting?
    case PostFailed => s.up && s.phase.Posting?
    case Written => s.up && s.phase.Persisting? && s.phase.batch != []
    case Persisted => s.up && s.phase.Confirming? && s.phase.batch != []
    case PersistFailed(_) => s.up && (s.phase.Persisting? || s.phase.Confirming?)
    case Close => s.up
    case Crash(_) => s.up
    case StrayLands(cursor) => cursor in s.stray
  }

  // The cursor writes that may land after the process has given up on its present one.
  function StrayAfter(s: State, pending: bool): multiset<nat> {
    if pending && s.phase.Persisting? && s.phase.batch != [] then s.stray + multiset{Last(s.phase.batch)} else s.stray
  }

  function Step(s: State, ev: Event): State
    requires Possible(s, ev)
  {
    match ev
    case Commit(id) => s.(logs := s.logs + {id}, seen := s.seen + {id}, nextId := id + 1)
    case LateCommit(id) => s.(logs := s.logs + {id}, seen := s.seen + {id})
    case DeleteAll => s.(logs := {})
    case Start => s.(up := true, cursor := s.db, phase := Idle, closing := false)
    case Configure(on) => s.(configured := on)
    case Tick => if s.closing || s.phase != Idle || !s.configured then s else s.(phase := Fetching)
    case Fetched(batch) => s.(phase := if batch == [] || !s.configured then Idle else Posting(batch, 0))
    case FetchFailed => s.(phase := Idle)
    case PostOk => s.(phase := Persisting(s.phase.batch), acked := s.acked + [s.phase.batch])
    case PostFailed =>
      s.(phase := if s.phase.attempt < RETRY_COUNT then Posting(s.phase.batch, s.phase.attempt + 1) else Idle)
    case Written => s.(db := Last(s.phase.batch), phase := Confirming(s.phase.batch))
    case Persisted => s.(cursor := Last(s.phase.batch), phase := Idle)
    case PersistFailed(pending) => s.(phase := Idle, stray := StrayAfter(s, pending))
    case Close => s.(closing := true)
    case Crash(pending) => s.(up := false, stray := StrayAfter(s, pending))
    case StrayLands(cursor) => s.(db := cursor, stray := s.stray - multiset{cursor})
  }

  predicate Initial(s: State, init: nat) {
    && s.db == init && init < s.nextId && s.acked == [] && !s.up && s.stray == multiset{}
    && s.logs <= s.seen && forall id :: id in s.seen ==> id < s.nextId
  }

  predicate Acknowledged(s: State, id: nat) {
    exists k :: 0 <= k < |s.acked| && id in s.acked[k]
  }

  // Every log above init and up to a mark is in an acknowledged batch.
  predicate UpTo(s: State, init: nat, mark: nat) {
    forall id :: id in s.logs && init < id <= mark ==> Acknowledged(s, id)
  }

  // Every log between the initial and the stored cursor is in an acknowledged batch.
  predicate NoGaps(s: State, init: nat) {
    UpTo(s, init, s.db)
  }

  predicate GoodBatch(batch: seq<nat>) {
    batch != [] && |batch| <= SYNC_BATCH_SIZE && Ascending(batch)
  }

  predicate InFlight(s: State) {
    s.up && (s.phase.Posting? || s.phase.Persisting? || s.phase.Confirming?)
  }

  /* ---------- what holds in every run, late rows or not ---------- */

  predicate Known(s: State, batch: seq<nat>) {
    GoodBatch(batch) && forall id :: id in batch ==> id in s.seen
  }

  predicate Shape(s: State) {
    && s.logs <= s.seen && (forall id :: id in s.seen ==> id < s.nextId)
    && s.db < s.nextId && (forall w :: w in s.stray ==> w < s.nextId)
    && (forall k :: 0 <= k < |s.acked| ==> Known(s, s.acked[k]))
    && (s.up ==> s.cursor < s.nextId)
    && (InFlight(s) ==> Known(s, s.phase.batch) && s.cursor < s.phase.batch[0])
  }

  lemma AscendingBounds(xs: seq<nat>, k: nat)
    requires Ascending(xs) && k < |xs|
    ensures xs[0] <= xs[k] <= Last(xs)
  {
    assert 0 < k ==> xs[0] < xs[k];
    assert k < |xs| - 1 ==> xs[k] < xs[|xs| - 1];
  }

  lemma {:induction false} DistinctCount(xs: seq<nat>, ys: set<nat>)
    requires Ascending(xs) && forall k :: 0 <= k < |xs| ==> xs[k] in ys
    ensures |xs| <= |ys|
  {
    if xs != [] {
      var n := |xs| - 1;
      DistinctCount(xs[..n], ys - {xs[n]});
    }
  }

  function Elements(xs: seq<nat>): set<nat> {
    set x | x in xs
  }

  lemma {:induction false} ElementCount(xs: seq<nat>)
    ensures |Elements(xs)| <= |xs|
  {
    if xs == [] {
      assert Elements(xs) == {};
    } else {
      var n := |xs| - 1;
      ElementCount(xs[..n]);
      assert Elements(xs) == Elements(xs[..n]) + {xs[n]};
    }
  }

  lemma KnownMore(s: State, t: State)
    requires s.seen <= t.seen
    ensures forall b :: Known(s, b) ==> Known(t, b)
  {
  }

  lemma ShapeStep(s: State, ev: Event)
    requires Shape(s) && Possible(s, ev)
    ensures Shape(Step(s, ev))
  {
    KnownMore(s, Step(s, ev));
    if InFlight(s) {
      BatchIsBounded(s);
    }
    if ev.Fetched? && ev.batch != [] {
      PageIsKnown(s, ev.batch);
    }
    hide Known, IsPage;
  }

  lemma BatchIsBounded(s: State)
    requires Shape(s) && InFlight(s)
    ensures s.phase.batch != [] && s.cursor < Last(s.phase.batch) < s.nextId
  {
    var batch := s.phase.batch;
    assert batch[|batch| - 1] in batch;
    AscendingBounds(batch, |batch| - 1);
  }

  lemma PageIsKnown(s: State, page: seq<nat>)
    requires Shape(s) && page != [] && IsPage(s.logs, s.cursor + 1, SYNC_BATCH_SIZE, page)
    ensures Known(s, page) && s.cursor < page[0]
  {
  }

  /* ---------- the rows an export has overtaken ---------- */

  // A row with this id would be passed over: by the stored cursor, by a cursor write that may still
  // land, by the cursor of a process that will export again, or by the batch under way.
  predicate Overtaken(s: State, id: nat) {
    || id <= s.db
    || (exists w :: w in s.stray && id <= w)
    || (s.up && match s.phase {
          case Idle => !s.closing && id <= s.cursor
          case Fetching => id <= s.cursor
          case Posting(batch, _) => batch != [] && id <= Last(batch)
          case Persisting(batch) => batch != [] && id <= Last(batch)
          case Confirming(batch) => !s.closing && batch != [] && id <= Last(batch)
        })
  }

  // A late row does no harm if it lies before the start of the export or has not been overtaken.
  predicate Harmless(s: State, init: nat, ev: Event) {
    ev.LateCommit? ==> ev.id <= init || !Overtaken(s, ev.id)
  }

  // Every overtaken log is acknowledged, or in the batch being posted.
  ghost predicate Safe(s: State, init: nat) {
    && UpTo(s, init, s.db)
    && (forall w :: w in s.stray ==> UpTo(s, init, w))
    && (s.up ==> match s.phase
                 case Idle => !s.closing ==> UpTo(s, init, s.cursor)
                 case Fetching => UpTo(s, init, s.cursor)
                 case Posting(batch, _) => UpToBut(s, init, batch)
                 case Persisting(batch) => batch != [] && UpTo(s, init, Last(batch))
                 case Confirming(batch) => !s.closing ==> batch != [] && UpTo(s, init, Last(batch)))
  }

  predicate UpToBut(s: State, init: nat, batch: seq<nat>) {
    batch != [] && forall id :: id in s.logs && init < id <= Last(batch) ==> id in batch || Acknowledged(s, id)
  }

  lemma AckedGrows(s: State, t: State)
    requires t.acked == s.acked || exists b :: t.acked == s.acked + [b]
    ensures forall id :: Acknowledged(s, id) ==> Acknowledged(t, id)
  {
    forall id | Acknowledged(s, id)
      ensures Acknowledged(t, id)
    {
      var k :| 0 <= k < |s.acked| && id in s.acked[k];
      assert id in t.acked[k];
    }
  }

  // The same rows and acknowledgements, or fewer rows: every mark stays good.
  lemma UpToKept(s: State, t: State, init: nat)
    requires t.logs <= s.logs && t.acked == s.acked
    ensures forall m: nat :: UpTo(s, init, m) ==> UpTo(t, init, m)
    ensures forall b :: UpToBut(s, init, b) ==> UpToBut(t, init, b)
  {
    AckedGrows(s, t);
  }

  // A new row above a mark leaves the mark good.
  lemma UpToAbove(s: State, t: State, init: nat, id: nat, mark: nat)
    requires t.logs == s.logs + {id} && t.acked == s.acked && (mark < id || id <= init)
    ensures UpTo(s, init, mark) ==> UpTo(t, init, mark)
  {
    AckedGrows(s, t);
  }

  lemma NewRowKeepsSafe(s: State, init: nat, id: nat, t: State)
    requires Safe(s, init) && (id <= init || !Overtaken(s, id))
    requires t == s.(logs := s.logs + {id}, seen := t.seen, nextId := t.nextId)
    ensures Safe(t, init)
  {
    AckedGrows(s, t);
    UpToAbove(s, t, init, id, s.db);
    forall w | w in s.stray
      ensures UpTo(t, init, w)
    {
      UpToAbove(s, t, init, id, w);
    }
    if s.up {
      match s.phase
      case Idle =>
        if !s.closing {
          UpToAbove(s, t, init, id, s.cursor);
        }
      case Fetching => UpToAbove(s, t, init, id, s.cursor);
      case Posting(batch, _) =>
      case Persisting(batch) => UpToAbove(s, t, init, id, Last(batch));
      case Confirming(batch) =>
        if !s.closing {
          UpToAbove(s, t, init, id, Last(batch));
        }
    }
  }

  lemma NewestIsNotOvertaken(s: State, id: nat)
    requires Shape(s) && s.nextId <= id
    ensures !Overtaken(s, id)
  {
    if InFlight(s) {
      assert s.phase.batch[|s.phase.batch| - 1] in s.phase.batch;
    }
  }

  lemma PostOkKeepsSafe(s: State, init: nat)
    requires Safe(s, init) && Possible(s, PostOk)
    ensures Safe(Step(s, PostOk), init)
  {
    var t, batch := Step(s, PostOk), s.phase.batch;
    AckedGrows(s, t);
    assert t.acked[|s.acked|] == batch;
    assert forall id :: id in batch ==> Acknowledged(t, id);
  }

  lemma FetchedKeepsSafe(s: State, init: nat, batch: seq<nat>)
    requires Safe(s, init) && Possible(s, Fetched(batch))
    ensures Safe(Step(s, Fetched(batch)), init)
  {
    UpToKept(s, Step(s, Fetched(batch)), init);
  }

  // Giving up on a batch leaves the process at its own cursor, below the batch.
  lemma GivingUpIsSafe(s: State, init: nat)
    requires Safe(s, init) && Shape(s) && InFlight(s)
    ensures !s.closing || s.phase.Posting? || s.phase.Persisting? ==> UpTo(s, init, s.cursor)
  {
    var batch := s.phase.batch;
    AscendingBounds(batch, |batch| - 1);
    forall id | id in batch
      ensures s.cursor < id
    {
      var k :| 0 <= k < |batch| && batch[k] == id;
      AscendingBounds(batch, k);
    }
  }

  lemma StepKeepsSafe(s: State, init: nat, ev: Event)
    requires Shape(s) && Safe(s, init) && Possible(s, ev) && Harmless(s, init, ev)
    ensures Safe(Step(s, ev), init)
  {
    hide UpTo, UpToBut, IsPage, Known, Shape;
    var t := Step(s, ev);
    match ev
    case Commit(id) =>
      NewestIsNotOvertaken(s, id);
      NewRowKeepsSafe(s, init, id, t);
    case LateCommit(id) => NewRowKeepsSafe(s, init, id, t);
    case PostOk => PostOkKeepsSafe(s, init);
    case Fetched(batch) => FetchedKeepsSafe(s, init, batch);
    case PostFailed =>
      GivingUpIsSafe(s, init);
      UpToKept(s, t, init);
    case PersistFailed(_) =>
      GivingUpIsSafe(s, init);
      UpToKept(s, t, init);
    case _ => UpToKept(s, t, init);
  }

  /* ---------- runs ---------- */

  ghost predicate Run(states: seq<State>, events: seq<Event>) {
    && |states| == |events| + 1
    && forall k :: 0 <= k < |events| ==> Moves(states[k], events[k], states[k + 1])
  }

  ghost predicate Moves(s: State, ev: Event, t: State) {
    Possible(s, ev) && t == Step(s, ev)
  }

  // Every late row of the run is harmless at the moment it appears.
  ghost predicate AllHarmless(states: seq<State>, events: seq<Event>, init: nat)
    requires |states| == |events| + 1
  {
    forall k :: 0 <= k < |events| ==> Harmless(states[k], init, events[k])
  }

  lemma {:induction false} ShapeAlways(states: seq<State>, events: seq<Event>, k: nat)
    requires Run(states, events) && k < |states| && Shape(states[0])
    ensures Shape(states[k])
  {
    if k > 0 {
      ShapeAlways(states, events, k - 1);
      assert Moves(states[k - 1], events[k - 1], states[k]);
      ShapeStep(states[k - 1], events[k - 1]);
    }
  }

  lemma {:induction false} SafeAlways(states: seq<State>, events: seq<Event>, init: nat, k: nat)
    requires Run(states, events) && k < |states| && AllHarmless(states, events, init)
    requires Shape(states[0]) && Safe(states[0], init)
    ensures Safe(states[k], init)
  {
    hide Shape, Safe, Harmless;
    if k > 0 {
      SafeAlways(states, events, init, k - 1);
      ShapeAlways(states, events, k - 1);
      assert Moves(states[k - 1], events[k - 1], states[k]) && Harmless(states[k - 1], init, events[k - 1]);
      StepKeepsSafe(states[k - 1], init, events[k - 1]);
    }
  }

  lemma InitialIsSafe(s: State, init: nat)
    requires Initial(s, init)
    ensures Shape(s) && Safe(s, init)
  {
  }

  // At least once, no gaps: if every late row is harmless when it appears, then in every state
  // of the run every log between the initial and the stored cursor is in an acknowledged batch;
  // crashes, retries, overlapping ticks and cursor writes that land late included.
  lemma ExportHasNoGaps(states: seq<State>, events: seq<Event>, init: nat, k: nat)
    requires Run(states, events) && AllHarmless(states, events, init) && k < |states| && Initial(states[0], init)
    ensures NoGaps(states[k], init)
    ensures forall j :: 0 <= j < |states[k].acked| ==> GoodBatch(states[k].acked[j])
  {
    InitialIsSafe(states[0], init);
    SafeAlways(states, events, init, k);
    ShapeAlways(states, events, k);
  }

  // A continuation of s whose late rows are all harmless.
  ghost predicate Path(s: State, init: nat, states: seq<State>, events: seq<Event>) {
    Run(states, events) && AllHarmless(states, events, init) && states[0] == s
  }

  lemma PathEnds(s: State, init: nat, states: seq<State>, events: seq<Event>)
    requires Path(s, init, states, events)
    ensures |states| == |events| + 1
  {
  }

  lemma PathLater(s: State, init: nat, ev: Event, rest: seq<State>, more: seq<Event>)
    returns (states: seq<State>, events: seq<Event>)
    requires Possible(s, ev) && !ev.LateCommit? && Path(Step(s, ev), init, rest, more)
    ensures states == [s] + rest && events == [ev] + more && Path(s, init, states, events)
  {
    hide Possible, Step;
    states, events := [s] + rest, [ev] + more;
    forall k | 0 <= k < |events|
      ensures Moves(states[k], events[k], states[k + 1]) && Harmless(states[k], init, events[k])
    {
      if k > 0 {
        assert Moves(rest[k - 1], more[k - 1], rest[k]) && Harmless(rest[k - 1], init, more[k - 1]);
      }
    }
  }

  /* ---------- harmful late rows ---------- */

  // A log that is overtaken, not acknowledged and not in the batch under way.
  predicate Doomed(s: State, init: nat, id: nat) {
    id in s.logs && init < id && Overtaken(s, id) && !Acknowledged(s, id) && (InFlight(s) ==> id !in s.phase.batch)
  }

  ghost predicate ReachesGap(s: State, init: nat, states: seq<State>, events: seq<Event>) {
    Path(s, init, states, events) && !NoGaps(states[|events|], init)
  }

  lemma GapNow(s: State, init: nat, id: nat) returns (states: seq<State>, events: seq<Event>)
    requires id in s.logs && init < id <= s.db && !Acknowledged(s, id)
    ensures ReachesGap(s, init, states, events)
  {
    states, events := [s], [];
  }

  lemma GapLater(s: State, init: nat, ev: Event, rest: seq<State>, more: seq<Event>)
    returns (states: seq<State>, events: seq<Event>)
    requires Possible(s, ev) && !ev.LateCommit? && ReachesGap(Step(s, ev), init, rest, more)
    ensures ReachesGap(s, init, states, events)
  {
    hide NoGaps, Path;
    states, events := PathLater(s, init, ev, rest, more);
    PathEnds(Step(s, ev), init, rest, more);
    PathEnds(s, init, states, events);
  }

  lemma AckedMore(s: State, batch: seq<nat>, id: nat)
    requires !Acknowledged(s, id) && id !in batch
    ensures !Acknowledged(s.(phase := Persisting(batch), acked := s.acked + [batch]), id)
  {
  }

  // A batch under way above the row: acknowledged and written, it leaves the row behind.
  lemma GapFromBatch(s: State, init: nat, id: nat) returns (states: seq<State>, events: seq<Event>)
    requires s.up && (s.phase.Posting? || s.phase.Persisting?) && s.phase.batch != []
    requires id in s.logs && init < id <= Last(s.phase.batch) && id !in s.phase.batch && !Acknowledged(s, id)
    ensures ReachesGap(s, init, states, events)
    decreases s.phase.Posting?
  {
    hide ReachesGap;
    if s.phase.Posting? {
      AckedMore(s, s.phase.batch, id);
      states, events := GapFromBatch(Step(s, PostOk), init, id);
      states, events := GapLater(s, init, PostOk, states, events);
    } else {
      states, events := GapNow(Step(s, Written), init, id);
      states, events := GapLater(s, init, Written, states, events);
    }
  }

  // The lowest ids from a given one on.
  lemma {:induction false} PageExists(logs: set<nat>, from: nat, limit: nat) returns (page: seq<nat>)
    requires limit >= 1
    ensures IsPage(logs, from, limit, page)
    decreases limit
  {
    var above := set id | id in logs && from <= id;
    if above == {} {
      assert forall id :: id in logs && from <= id ==> id in above;
      page := [];
    } else {
      var least := Smallest(above);
      if limit == 1 {
        page := [least];
      } else {
        var rest := PageExists(logs, least + 1, limit - 1);
        page := [least] + rest;
      }
      assert forall id :: id in logs && from <= id ==> id in above;
    }
  }

  lemma {:induction false} Smallest(ids: set<nat>) returns (least: nat)
    requires ids != {}
    ensures least in ids && forall id :: id in ids ==> least <= id
  {
    var some :| some in ids;
    if ids == {some} {
      least := some;
    } else {
      var other := Smallest(ids - {some});
      least := if other < some then other else some;
      assert forall id :: id in ids ==> id == some || id in ids - {some};
    }
  }

  // A process that will read again above the row: its next batch leaves the row behind.
  lemma GapFromFetching(s: State, init: nat, id: nat) returns (states: seq<State>, events: seq<Event>)
    requires Shape(s) && s.up && s.phase.Fetching? && s.configured
    requires id in s.logs && init < id <= s.cursor && !Acknowledged(s, id)
    ensures ReachesGap(s, init, states, events)
  {
    hide ReachesGap;
    var n := s.nextId;
    var grown := Step(s, Commit(n));
    var page := PageExists(grown.logs, s.cursor + 1, SYNC_BATCH_SIZE);
    assert n in grown.logs;
    assert page != [];
    var posting := Step(grown, Fetched(page));
    assert forall k :: 0 <= k < |page| ==> page[k] > s.cursor;
    assert page[|page| - 1] > s.cursor;
    states, events := GapFromBatch(posting, init, id);
    states, events := GapLater(grown, init, Fetched(page), states, events);
    states, events := GapLater(s, init, Commit(n), states, events);
  }

  lemma GapFromIdle(s: State, init: nat, id: nat) returns (states: seq<State>, events: seq<Event>)
    requires Shape(s) && s.up && (s.phase.Fetching? || (s.phase.Idle? && !s.closing))
    requires id in s.logs && init < id <= s.cursor && !Acknowledged(s, id)
    ensures ReachesGap(s, init, states, events)
  {
    hide ReachesGap;
    var on := Step(s, Configure(true));
    ShapeStep(s, Configure(true));
    if s.phase.Fetching? {
      states, events := GapFromFetching(on, init, id);
    } else {
      ShapeStep(on, Tick);
      states, events := GapFromFetching(Step(on, Tick), init, id);
      states, events := GapLater(on, init, Tick, states, events);
    }
    states, events := GapLater(s, init, Configure(true), states, events);
  }

  // From a doomed log some continuation, without any further harmful row, reaches a gap.
  lemma DoomedReachesGap(s: State, init: nat, id: nat) returns (states: seq<State>, events: seq<Event>)
    requires Shape(s) && Doomed(s, init, id)
    ensures ReachesGap(s, init, states, events)
  {
    hide ReachesGap;
    if id <= s.db {
      states, events := GapNow(s, init, id);
    } else if w :| w in s.stray && id <= w {
      states, events := GapNow(Step(s, StrayLands(w)), init, id);
      states, events := GapLater(s, init, StrayLands(w), states, events);
    } else if s.phase.Posting? || s.phase.Persisting? {
      states, events := GapFromBatch(s, init, id);
    } else if s.phase.Confirming? {
      ShapeStep(s, Persisted);
      states, events := GapFromIdle(Step(s, Persisted), init, id);
      states, events := GapLater(s, init, Persisted, states, events);
    } else {
      states, events := GapFromIdle(s, init, id);
    }
  }

  lemma LateRowIsDoomed(s: State, init: nat, id: nat)
    requires Shape(s) && Possible(s, LateCommit(id)) && init < id && Overtaken(s, id)
    ensures Doomed(Step(s, LateCommit(id)), init, id)
  {
    var t := Step(s, LateCommit(id));
    assert forall k :: 0 <= k < |s.acked| ==> Known(s, s.acked[k]);
    assert t.acked == s.acked;
  }

  // The exact condition: a late row can lead to a gap, in some continuation free of further harmful
  // rows, if and only if it is harmful when it appears.
  lemma LateRowLeavesNoGapIff(s: State, init: nat, id: nat)
    requires Shape(s) && Safe(s, init) && Possible(s, LateCommit(id))
    ensures Harmless(s, init, LateCommit(id)) <==>
            forall states, events :: !ReachesGap(Step(s, LateCommit(id)), init, states, events)
  {
    hide Safe, Shape, Doomed, Overtaken, NoGaps, Acknowledged;
    var t := Step(s, LateCommit(id));
    ShapeStep(s, LateCommit(id));
    if Harmless(s, init, LateCommit(id)) {
      StepKeepsSafe(s, init, LateCommit(id));
      forall states, events
        ensures !ReachesGap(t, init, states, events)
      {
        if Path(t, init, states, events) {
          SafeAlways(states, events, init, |events|);
          SafeHasNoGaps(states[|events|], init);
        }
      }
    } else {
      LateRowIsDoomed(s, init, id);
      var states, events := DoomedReachesGap(t, init, id);
    }
  }

  lemma SafeHasNoGaps(s: State, init: nat)
    requires Safe(s, init)
    ensures NoGaps(s, init)
  {
  }

  // An id that every cursor has passed and no batch holds.
  predicate Passed(s: State, id: nat) {
    && !Acknowledged(s, id) && id <= s.db && (forall w :: w in s.stray ==> id <= w)
    && (s.up ==> id <= s.cursor)
    && (InFlight(s) ==> s.phase.batch != [] && id !in s.phase.batch && id < Last(s.phase.batch))
  }

  lemma PassedStaysPassed(s: State, id: nat, ev: Event)
    requires Passed(s, id) && Possible(s, ev)
    ensures Passed(Step(s, ev), id)
  {
    var t := Step(s, ev);
    if ev.Fetched? && ev.batch != [] {
      assert ev.batch[|ev.batch| - 1] >= s.cursor + 1;
    }
    if ev.PostOk? {
      assert forall k :: 0 <= k < |t.acked| ==> t.acked[k] == s.phase.batch || t.acked[k] == s.acked[k];
    }
  }

  // Such a log is never exported, whatever happens afterwards.
  lemma {:induction false} PassedIsNeverExported(states: seq<State>, events: seq<Event>, id: nat, k: nat)
    requires Run(states, events) && k < |states| && Passed(states[0], id)
    ensures !Acknowledged(states[k], id)
    ensures Passed(states[k], id)
  {
    if k > 0 {
      PassedIsNeverExported(states, events, id, k - 1);
      assert Moves(states[k - 1], events[k - 1], states[k]);
      PassedStaysPassed(states[k - 1], id, events[k - 1]);
    }
  }

  /* ---------- given-up cursor writes ---------- */

  // Whether an event gives up a cursor write of this value that may still land.
  predicate GivesUp(s: State, ev: Event, w: nat) {
    && ((ev.PersistFailed? && ev.pending) || (ev.Crash? && ev.pending))
    && s.phase.Persisting? && s.phase.batch != [] && Last(s.phase.batch) == w
  }

  function GivenUp(states: seq<State>, events: seq<Event>, w: nat): nat
    requires |states| == |events| + 1
  {
    var n := |events| - 1;
    if events == [] then 0
    else GivenUp(states[..n + 1], events[..n], w) + if GivesUp(states[n], events[n], w) then 1 else 0
  }

  function Landed(events: seq<Event>, w: nat): nat {
    if events == [] then 0
    else Landed(events[..|events| - 1], w) + if events[|events| - 1] == StrayLands(w) then 1 else 0
  }

  // Each given-up write lands at most once: those that may still land are exactly those given up and
  // not yet landed.
  lemma {:induction false} StraysAccountedFor(states: seq<State>, events: seq<Event>, init: nat, w: nat)
    requires Run(states, events) && Initial(states[0], init)
    ensures states[|events|].stray[w] + Landed(events, w) == GivenUp(states, events, w)
  {
    if events != [] {
      var n := |events| - 1;
      assert Run(states[..n + 1], events[..n]) by {
        forall k | 0 <= k < n
          ensures Moves(states[..n + 1][k], events[..n][k], states[..n + 1][k + 1])
        {
          assert Moves(states[k], events[k], states[k + 1]);
        }
      }
      StraysAccountedFor(states[..n + 1], events[..n], init, w);
      assert Moves(states[n], events[n], states[n + 1]);
      StrayStep(states[n], events[n], w);
    }
  }

  lemma StrayStep(s: State, ev: Event, w: nat)
    requires Possible(s, ev)
    ensures Step(s, ev).stray[w] + (if ev == StrayLands(w) then 1 else 0) == s.stray[w] + if GivesUp(s, ev, w) then 1 else 0
  {
  }

  /* ---------- the stored cursor ---------- */

  // Where the next export starts: at the process's cursor, or at the stored one while it is down.
  function Base(s: State): nat {
    if s.up then s.cursor else s.db
  }

  // Where the stored cursor is or may still be put.
  predicate IsMark(s: State, m: nat) {
    m == s.db || m in s.stray
  }

  // The logs between a base and a mark lie in one batch, which ends at the mark.
  predicate Spans(logs: set<nat>, base: nat, mark: nat, batch: seq<nat>) {
    && GoodBatch(batch) && Last(batch) == mark && base < batch[0]
    && (forall id :: id in logs && base < id <= mark ==> id in batch)
    && (mark in logs || forall id :: id in logs && base < id ==> mark < id)
  }

  // A mark is ahead of the base by one batch at most.
  ghost predicate Near(s: State, m: nat) {
    m <= Base(s) || exists b :: Spans(s.logs, Base(s), m, b)
  }

  // The batch holds every log between the process's cursor and its own last id, and no mark is beyond it.
  ghost predicate Covers(s: State, batch: seq<nat>) {
    batch != [] && Spans(s.logs, s.cursor, Last(batch), batch) && forall m: nat :: IsMark(s, m) ==> m <= Last(batch)
  }

  ghost predicate Rising(s: State, init: nat) {
    && init <= s.db && (forall m: nat :: IsMark(s, m) ==> Near(s, m))
    && (s.up ==> init <= s.cursor <= s.db)
    && (InFlight(s) ==> Covers(s, s.phase.batch))
    && (s.up && s.phase.Confirming? ==> s.db == Last(s.phase.batch))
  }

  // A page above the base never ends below a mark that is one batch ahead.
  lemma PageReachesMark(logs: set<nat>, base: nat, mark: nat, batch: seq<nat>, page: seq<nat>)
    requires Spans(logs, base, mark, batch) && page != [] && IsPage(logs, base + 1, SYNC_BATCH_SIZE, page)
    ensures mark <= Last(page)
  {
    if mark in logs {
      AscendingBounds(batch, |batch| - 1);
      if mark in page {
        var k :| 0 <= k < |page| && page[k] == mark;
        AscendingBounds(page, k);
      } else {
        assert Last(page) < mark;
        FullPageTooLong(logs, base, mark, batch, page);
      }
    } else {
      assert page[|page| - 1] in logs;
    }
  }

  lemma FullPageTooLong(logs: set<nat>, base: nat, mark: nat, batch: seq<nat>, page: seq<nat>)
    requires Spans(logs, base, mark, batch) && |page| == SYNC_BATCH_SIZE && IsPage(logs, base + 1, SYNC_BATCH_SIZE, page)
    ensures mark <= Last(page)
  {
    if Last(page) < mark {
      var members := Elements(batch);
      ElementCount(batch);
      forall k | 0 <= k < |page|
        ensures page[k] in members - {mark}
      {
        AscendingBounds(page, k);
      }
      assert mark in members && |members - {mark}| == |members| - 1;
      DistinctCount(page, members - {mark});
    }
  }

  lemma PageCovers(s: State, init: nat, page: seq<nat>)
    requires Rising(s, init) && s.up && page != [] && IsPage(s.logs, s.cursor + 1, SYNC_BATCH_SIZE, page)
    ensures Covers(s, page)
  {
    assert page[0] in s.logs && page[|page| - 1] in s.logs;
    forall m: nat | IsMark(s, m)
      ensures m <= Last(page)
    {
      assert Near(s, m);
      if m > s.cursor {
        var b :| Spans(s.logs, s.cursor, m, b);
        PageReachesMark(s.logs, s.cursor, m, b, page);
      }
    }
  }

  // Seen from further on, what is left of the batch still spans the rest.
  lemma {:induction false} SpansFrom(logs: set<nat>, base: nat, further: nat, mark: nat, batch: seq<nat>)
    returns (rest: seq<nat>)
    requires Spans(logs, base, mark, batch) && base <= further < mark
    ensures Spans(logs, further, mark, rest)
    decreases |batch|
  {
    if further < batch[0] {
      rest := batch;
    } else {
      assert |batch| > 1;
      rest := SpansFrom(logs, batch[0], further, mark, batch[1..]);
    }
  }

  // A mark stays near when the base moves on and new rows appear outside what lies between them.
  lemma StaysNear(s: State, t: State, m: nat)
    requires Near(s, m) && Base(s) <= Base(t)
    requires t.logs == {} || s.logs <= t.logs
    requires forall id :: id in t.logs ==> id in s.logs || id <= Base(t) || m < id
    ensures Near(t, m)
  {
    if m > Base(t) {
      var b :| Spans(s.logs, Base(s), m, b);
      var rest := SpansFrom(s.logs, Base(s), Base(t), m, b);
      assert Spans(t.logs, Base(t), m, rest);
    }
  }

  lemma StaysCovering(s: State, t: State, batch: seq<nat>)
    requires Covers(s, batch) && t.cursor == s.cursor && forall m: nat :: IsMark(t, m) ==> IsMark(s, m)
    requires t.logs == {} || s.logs <= t.logs
    requires forall id :: id in t.logs ==> id in s.logs || id <= t.cursor || Last(batch) < id
    ensures Covers(t, batch)
  {
  }

  lemma RowKeepsRising(s: State, init: nat, id: nat, t: State)
    requires Rising(s, init) && (id <= init || !Overtaken(s, id))
    requires t == s.(logs := s.logs + {id}, seen := t.seen, nextId := t.nextId)
    ensures Rising(t, init)
  {
    hide Spans;
    forall m: nat | IsMark(t, m)
      ensures Near(t, m)
    {
      assert IsMark(s, m);
      hide Near;
      StaysNear(s, t, m);
    }
    if InFlight(s) {
      hide Near;
      StaysCovering(s, t, s.phase.batch);
    }
  }

  lemma DeleteKeepsRising(s: State, init: nat)
    requires Rising(s, init)
    ensures Rising(Step(s, DeleteAll), init)
  {
    hide Spans;
    var t := Step(s, DeleteAll);
    forall m: nat | IsMark(t, m)
      ensures Near(t, m)
    {
      assert IsMark(s, m);
      StaysNear(s, t, m);
    }
    if InFlight(s) {
      StaysCovering(s, t, s.phase.batch);
    }
  }

  lemma FetchedKeepsRising(s: State, init: nat, page: seq<nat>)
    requires Rising(s, init) && Possible(s, Fetched(page))
    ensures Rising(Step(s, Fetched(page)), init)
  {
    if page != [] {
      PageCovers(s, init, page);
    }
    hide IsPage, Spans;
    SameRising(s, Step(s, Fetched(page)));
  }

  lemma WrittenKeepsRising(s: State, init: nat)
    requires Rising(s, init) && Possible(s, Written)
    ensures Rising(Step(s, Written), init) && s.db <= Step(s, Written).db
  {
    hide Spans;
    var t, batch := Step(s, Written), s.phase.batch;
    assert IsMark(s, s.db);
    assert Spans(t.logs, Base(t), Last(batch), batch);
    forall m: nat | IsMark(t, m)
      ensures Near(t, m) && m <= Last(batch)
    {
      if m != Last(batch) {
        assert IsMark(s, m);
        StaysNear(s, t, m);
      }
    }
  }

  lemma PersistedKeepsRising(s: State, init: nat)
    requires Rising(s, init) && Possible(s, Persisted)
    ensures Rising(Step(s, Persisted), init)
  {
    hide Spans;
    var t := Step(s, Persisted);
    assert IsMark(s, s.db);
    assert forall m: nat :: IsMark(t, m) ==> IsMark(s, m);
  }

  // A write given up is a mark at the end of the batch; after a crash the base is the stored cursor.
  lemma GivingUpKeepsRising(s: State, init: nat, ev: Event)
    requires Rising(s, init) && Possible(s, ev) && (ev.PersistFailed? || ev.Crash?)
    ensures Rising(Step(s, ev), init)
  {
    hide Spans;
    var t := Step(s, ev);
    forall m: nat | IsMark(t, m)
      ensures Near(t, m)
    {
      if IsMark(s, m) {
        StaysNear(s, t, m);
      } else {
        assert InFlight(s) && m == Last(s.phase.batch);
        assert Spans(s.logs, Base(s), m, s.phase.batch);
        assert Near(s, m);
        StaysNear(s, t, m);
      }
    }
  }

  lemma StrayKeepsRising(s: State, init: nat, w: nat)
    requires Rising(s, init) && Possible(s, StrayLands(w)) && s.db <= w
    ensures Rising(Step(s, StrayLands(w)), init)
  {
    hide Spans;
    var t := Step(s, StrayLands(w));
    forall m: nat | IsMark(t, m)
      ensures IsMark(s, m) && Near(t, m)
    {
      assert IsMark(s, m);
      StaysNear(s, t, m);
    }
    if InFlight(s) {
      StaysCovering(s, t, s.phase.batch);
    }
    assert IsMark(s, w);
  }

  lemma SameRising(s: State, t: State)
    requires t.logs == s.logs && t.db == s.db && t.stray == s.stray && t.up == s.up && t.cursor == s.cursor
    ensures forall m: nat :: IsMark(t, m) <==> IsMark(s, m)
    ensures forall m: nat :: Near(s, m) ==> Near(t, m)
    ensures forall b :: Covers(s, b) ==> Covers(t, b)
  {
    hide Spans;
  }

  // A cursor write that lands late does no harm if it lands at or above the stored cursor.
  predicate LandsAhead(s: State, ev: Event) {
    ev.StrayLands? ==> s.db <= ev.cursor
  }

  // No step lowers the stored cursor, except a harmful late row's and a late write's that lands below it.
  lemma StepKeepsRising(s: State, init: nat, ev: Event)
    requires Shape(s) && Rising(s, init) && Possible(s, ev) && Harmless(s, init, ev) && LandsAhead(s, ev)
    ensures Rising(Step(s, ev), init) && s.db <= Step(s, ev).db
  {
    hide IsPage, Spans, Near, Covers, Shape, Overtaken;
    var t := Step(s, ev);
    match ev
    case Commit(id) =>
      NewestIsNotOvertaken(s, id);
      RowKeepsRising(s, init, id, t);
    case LateCommit(id) => RowKeepsRising(s, init, id, t);
    case DeleteAll => DeleteKeepsRising(s, init);
    case Fetched(batch) => FetchedKeepsRising(s, init, batch);
    case Written => WrittenKeepsRising(s, init);
    case Persisted => PersistedKeepsRising(s, init);
    case Start => StartKeepsRising(s, init);
    case PersistFailed(_) => GivingUpKeepsRising(s, init, ev);
    case Crash(_) => GivingUpKeepsRising(s, init, ev);
    case StrayLands(w) => StrayKeepsRising(s, init, w);
    case _ => SameRising(s, t);
  }

  lemma StartKeepsRising(s: State, init: nat)
    requires Rising(s, init) && Possible(s, Start)
    ensures Rising(Step(s, Start), init)
  {
    hide Spans;
    var t := Step(s, Start);
    assert forall m: nat :: IsMark(t, m) ==> IsMark(s, m) && Near(s, m);
  }

  ghost predicate AllLandAhead(states: seq<State>, events: seq<Event>)
    requires |states| == |events| + 1
  {
    forall k :: 0 <= k < |events| ==> LandsAhead(states[k], events[k])
  }

  ghost predicate NeverFalls(states: seq<State>) {
    forall k :: 0 < k < |states| ==> states[k - 1].db <= states[k].db
  }

  lemma {:induction false} RisingAlways(states: seq<State>, events: seq<Event>, init: nat, k: nat)
    requires Run(states, events) && AllHarmless(states, events, init) && AllLandAhead(states, events)
    requires k < |states| && Initial(states[0], init)
    ensures Shape(states[k]) && Rising(states[k], init)
    ensures k > 0 ==> states[k - 1].db <= states[k].db
  {
    hide Rising, Shape, LandsAhead, Harmless, Possible, Step;
    InitialIsSafe(states[0], init);
    ShapeAlways(states, events, k);
    if k > 0 {
      RisingAlways(states, events, init, k - 1);
      assert Moves(states[k - 1], events[k - 1], states[k]);
      assert Harmless(states[k - 1], init, events[k - 1]) && LandsAhead(states[k - 1], events[k - 1]);
      StepKeepsRising(states[k - 1], init, events[k - 1]);
    } else {
      InitialIsRising(states[0], init);
    }
  }

  lemma InitialIsRising(s: State, init: nat)
    requires Initial(s, init)
    ensures Rising(s, init)
  {
  }

  // The exact condition: over a run with harmless late rows the stored cursor never falls if and only
  // if every given-up write that lands late lands at or above it.
  lemma CursorNeverFallsIff(states: seq<State>, events: seq<Event>, init: nat)
    requires Run(states, events) && AllHarmless(states, events, init) && Initial(states[0], init)
    ensures NeverFalls(states) <==> AllLandAhead(states, events)
  {
    hide Harmless, Initial;
    if AllLandAhead(states, events) {
      forall k | 0 < k < |states|
        ensures states[k - 1].db <= states[k].db
      {
        RisingAlways(states, events, init, k);
      }
    }
    if NeverFalls(states) {
      forall k | 0 <= k < |events|
        ensures LandsAhead(states[k], events[k])
      {
        assert Moves(states[k], events[k], states[k + 1]);
        assert states[k + 1 - 1].db <= states[k + 1].db;
      }
    }
  }

  // Then it is never behind the process's cursor either.
  lemma {:induction false} CursorNeverFalls(states: seq<State>, events: seq<Event>, init: nat, j: nat, k: nat)
    requires Run(states, events) && AllHarmless(states, events, init) && AllLandAhead(states, events)
    requires j <= k < |states| && Initial(states[0], init)
    ensures states[j].db <= states[k].db
    ensures states[k].up ==> states[k].cursor <= states[k].db
    decreases k
  {
    RisingAlways(states, events, init, k);
    if j < k {
      CursorNeverFalls(states, events, init, j, k - 1);
    }
  }

  // A write given up as failed, overtaken by a later one, lands last: the stored cursor falls from 2 to 1.
  lemma StrayLowersCursor() returns (states: seq<State>, events: seq<Event>)
    ensures Run(states, events) && AllHarmless(states, events, 0) && Initial(states[0], 0)
    ensures |events| == 13 && states[12].db == 2 && events[12] == StrayLands(1) && states[13].db == 1
  {
    var s := State({}, {}, 1, 0, multiset{}, false, 0, false, false, Idle, []);
    var m := State({1, 2}, {1, 2}, 3, 0, multiset{1}, true, 0, true, false, Idle, [[1]]);
    states, events := SecondExport(m);
    states, events := FirstExport(s, m, states, events);
  }

  // The first write is given up while it may still land.
  lemma FirstExport(s: State, m: State, rest: seq<State>, more: seq<Event>) returns (states: seq<State>, events: seq<Event>)
    requires s == State({}, {}, 1, 0, multiset{}, false, 0, false, false, Idle, [])
    requires m == State({1, 2}, {1, 2}, 3, 0, multiset{1}, true, 0, true, false, Idle, [[1]])
    requires Path(m, 0, rest, more)
    ensures |events| == 8 + |more| && events[8..] == more && |states| == 8 + |rest| && states[8..] == rest
    ensures Path(s, 0, states, events)
  {
    hide Path;
    var first := [1];
    var s1 := Step(s, Commit(1));
    var s2 := Step(s1, Start);
    var s3 := Step(s2, Configure(true));
    var s4 := Step(s3, Tick);
    assert IsPage(s4.logs, 1, SYNC_BATCH_SIZE, first);
    var s5 := Step(s4, Fetched(first));
    var s6 := Step(s5, PostOk);
    var s7 := Step(s6, PersistFailed(true));
    assert Step(s7, Commit(2)) == m;
    states, events := PathLater(s7, 0, Commit(2), rest, more);
    states, events := PathLater(s6, 0, PersistFailed(true), states, events);
    states, events := PathLater(s5, 0, PostOk, states, events);
    states, events := PathLater(s4, 0, Fetched(first), states, events);
    states, events := PathLater(s3, 0, Tick, states, events);
    states, events := PathLater(s2, 0, Configure(true), states, events);
    states, events := PathLater(s1, 0, Start, states, events);
    states, events := PathLater(s, 0, Commit(1), states, events);
  }

  lemma SecondExport(s: State) returns (states: seq<State>, events: seq<Event>)
    requires s == State({1, 2}, {1, 2}, 3, 0, multiset{1}, true, 0, true, false, Idle, [[1]])
    ensures Path(s, 0, states, events)
    ensures |states| == 6 && |events| == 5 && states[4].db == 2 && events[4] == StrayLands(1) && states[5].db == 1
  {
    var second := [1, 2];
    var s1 := Step(s, Tick);
    assert IsPage(s1.logs, 1, SYNC_BATCH_SIZE, second);
    var s2 := Step(s1, Fetched(second));
    var s3 := Step(s2, PostOk);
    var s4 := Step(s3, Written);
    var s5 := Step(s4, StrayLands(1));
    states, events := [s5], [];
    assert Path(s5, 0, states, events);
    hide Path;
    states, events := PathLater(s4, 0, StrayLands(1), states, events);
    states, events := PathLater(s3, 0, Written, states, events);
    states, events := PathLater(s2, 0, PostOk, states, events);
    states, events := PathLater(s1, 0, Fetched(second), states, events);
    states, events := PathLater(s, 0, Tick, states, events);
  }

  /* ---------- repetition ---------- */

  function Flat(batches: seq<seq<nat>>): seq<nat> {
    if batches == [] then [] else Flat(batches[..|batches| - 1]) + batches[|batches| - 1]
  }

  // An acknowledged batch whose cursor write is lost: to a crash before it, or given up on while the
  // process will export again.
  predicate Repeating(s: State, ev: Event) {
    match ev
    case Crash(_) => s.phase.Persisting?
    case PersistFailed(_) => s.phase.Persisting? || !s.closing
    case _ => false
  }

  ghost predicate AllSmooth(states: seq<State>, events: seq<Event>)
    requires |states| == |events| + 1
  {
    forall k :: 0 <= k < |events| ==> !Repeating(states[k], events[k])
  }

  predicate Twice(s: State) {
    exists i, j, id :: 0 <= i < j < |s.acked| && id in s.acked[i] && id in s.acked[j]
  }

  // Each acknowledged batch lies above those before it.
  predicate BatchesAscend(batches: seq<seq<nat>>) {
    && (forall k :: 0 <= k < |batches| ==> GoodBatch(batches[k]))
    && (forall i, j :: 0 <= i < j < |batches| ==> Last(batches[i]) < batches[j][0])
  }

  predicate Storing(s: State) {
    s.up && (s.phase.Persisting? || s.phase.Confirming?)
  }

  // Where the acknowledged logs end: at the cursor, or at the end of the batch whose cursor is
  // being written.
  function SentUpTo(s: State): nat {
    if Storing(s) && s.phase.batch != [] then Last(s.phase.batch) else s.db
  }

  predicate Once(s: State) {
    && s.stray == multiset{} && BatchesAscend(s.acked)
    && (forall k :: 0 <= k < |s.acked| ==> Last(s.acked[k]) <= SentUpTo(s))
    && (Storing(s) ==> s.acked != [] && s.acked[|s.acked| - 1] == s.phase.batch)
    && (s.up && !s.phase.Confirming? ==> s.cursor == s.db || (s.closing && s.phase.Idle?))
    && (s.up && s.phase.Confirming? && s.phase.batch != [] ==> s.db == Last(s.phase.batch))
  }

  lemma PostOkKeepsOnce(s: State)
    requires Shape(s) && Once(s) && Possible(s, PostOk)
    ensures Once(Step(s, PostOk))
  {
    var batch := s.phase.batch;
    AscendingBounds(batch, |batch| - 1);
  }

  lemma SmoothStepKeepsOnce(s: State, ev: Event)
    requires Shape(s) && Once(s) && Possible(s, ev) && !Repeating(s, ev)
    ensures Once(Step(s, ev))
  {
    hide BatchesAscend, IsPage;
    if ev.PostOk? {
      PostOkKeepsOnce(s);
    }
  }

  lemma {:induction false} FlatAscends(batches: seq<seq<nat>>)
    requires BatchesAscend(batches)
    ensures Ascending(Flat(batches))
    ensures batches != [] ==> forall k :: 0 <= k < |Flat(batches)| ==> Flat(batches)[k] <= Last(batches[|batches| - 1])
  {
    if batches != [] {
      var n := |batches| - 1;
      var sent, batch := Flat(batches[..n]), batches[n];
      FlatAscends(batches[..n]);
      assert n > 0 ==> batches[..n][n - 1] == batches[n - 1];
      forall k | 0 <= k < |batch|
        ensures batch[0] <= batch[k] <= Last(batch)
      {
        AscendingBounds(batch, k);
      }
      forall i, j | 0 <= i < j < |sent + batch|
        ensures (sent + batch)[i] < (sent + batch)[j]
      {
        if i < |sent| <= j {
          assert sent[i] < batch[0];
        }
      }
    }
  }

  lemma OnceIsNotTwice(s: State)
    requires Once(s)
    ensures !Twice(s)
  {
    forall i, j, id | 0 <= i < j < |s.acked| && id in s.acked[i]
      ensures id !in s.acked[j]
    {
      var p :| 0 <= p < |s.acked[i]| && s.acked[i][p] == id;
      AscendingBounds(s.acked[i], p);
      forall q | 0 <= q < |s.acked[j]|
        ensures id < s.acked[j][q]
      {
        AscendingBounds(s.acked[j], q);
      }
    }
  }

  lemma {:induction false} OnceAlways(states: seq<State>, events: seq<Event>, k: nat)
    requires Run(states, events) && k < |states| && Shape(states[0]) && Once(states[0]) && AllSmooth(states, events)
    ensures Once(states[k])
  {
    hide Once, Shape, Possible, Step;
    if k > 0 {
      OnceAlways(states, events, k - 1);
      ShapeAlways(states, events, k - 1);
      assert Moves(states[k - 1], events[k - 1], states[k]) && !Repeating(states[k - 1], events[k - 1]);
      SmoothStepKeepsOnce(states[k - 1], events[k - 1]);
    }
  }

  // Unless the cursor write of an acknowledged batch is lost, no log is acknowledged twice and the
  // acknowledged ids ascend; other crashes and failures, and late rows, included.
  lemma NoRepeatUnlessWriteLost(states: seq<State>, events: seq<Event>, init: nat, k: nat)
    requires Run(states, events) && k < |states| && Initial(states[0], init) && AllSmooth(states, events)
    ensures Ascending(Flat(states[k].acked)) && !Twice(states[k])
  {
    InitialIsSafe(states[0], init);
    OnceAlways(states, events, k);
    hide Twice;
    FlatAscends(states[k].acked);
    OnceIsNotTwice(states[k]);
  }

  ghost predicate ReachesRepeat(s: State, init: nat, states: seq<State>, events: seq<Event>) {
    Path(s, init, states, events) && AllSmooth(states, events) && Twice(states[|events|])
  }

  lemma RepeatLater(s: State, init: nat, ev: Event, rest: seq<State>, more: seq<Event>)
    returns (states: seq<State>, events: seq<Event>)
    requires Possible(s, ev) && !ev.LateCommit? && !Repeating(s, ev) && ReachesRepeat(Step(s, ev), init, rest, more)
    ensures ReachesRepeat(s, init, states, events)
  {
    hide Path, Possible, Step, Twice, Repeating;
    PathEnds(Step(s, ev), init, rest, more);
    states, events := PathLater(s, init, ev, rest, more);
    forall k | 0 <= k < |events|
      ensures !Repeating(states[k], events[k])
    {
      if k > 0 {
        assert !Repeating(rest[k - 1], more[k - 1]);
      }
    }
    assert states[|events|] == rest[|more|];
  }

  // The batch was acknowledged, and one of its rows is the next that will be exported.
  predicate SendsAgain(s: State, batch: seq<nat>, id: nat) {
    && s.acked != [] && s.acked[|s.acked| - 1] == batch && batch != []
    && id in s.logs && s.cursor < id <= Last(batch)
    && forall x :: x in s.logs && s.cursor < x <= Last(batch) ==> x in batch
  }

  lemma RepeatFromPosting(s: State, init: nat, batch: seq<nat>, id: nat)
    returns (states: seq<State>, events: seq<Event>)
    requires SendsAgain(s, batch, id) && s.up && s.phase.Posting?
    requires IsPage(s.logs, s.cursor + 1, SYNC_BATCH_SIZE, s.phase.batch) && s.phase.batch != []
    ensures ReachesRepeat(s, init, states, events)
  {
    var page, n, t := s.phase.batch, |s.acked|, Step(s, PostOk);
    assert page[0] in s.logs && page[0] <= id by {
      if id in page {
        var k :| 0 <= k < |page| && page[k] == id;
        AscendingBounds(page, k);
      } else {
        AscendingBounds(page, 0);
      }
    }
    assert page[0] in t.acked[n - 1] && page[0] in t.acked[n];
    states, events := [t], [];
    assert ReachesRepeat(t, init, states, events);
    hide ReachesRepeat;
    states, events := RepeatLater(s, init, PostOk, states, events);
  }

  lemma RepeatFromIdle(s: State, init: nat, batch: seq<nat>, id: nat) returns (states: seq<State>, events: seq<Event>)
    requires SendsAgain(s, batch, id) && s.up && s.phase.Idle? && !s.closing
    ensures ReachesRepeat(s, init, states, events)
  {
    hide ReachesRepeat, IsPage;
    var on := Step(s, Configure(true));
    var fetching := Step(on, Tick);
    var page := PageExists(s.logs, s.cursor + 1, SYNC_BATCH_SIZE);
    PageNotEmpty(s.logs, s.cursor + 1, page, id);
    states, events := RepeatFromPosting(Step(fetching, Fetched(page)), init, batch, id);
    states, events := RepeatLater(fetching, init, Fetched(page), states, events);
    states, events := RepeatLater(on, init, Tick, states, events);
    states, events := RepeatLater(s, init, Configure(true), states, events);
  }

  lemma PageNotEmpty(logs: set<nat>, from: nat, page: seq<nat>, id: nat)
    requires IsPage(logs, from, SYNC_BATCH_SIZE, page) && id in logs && from <= id
    ensures page != []
  {
  }

  // Restarted at the stored cursor, the process exports the batch again.
  lemma RepeatFromDown(s: State, init: nat, batch: seq<nat>, id: nat) returns (states: seq<State>, events: seq<Event>)
    requires SendsAgain(s, batch, id) && !s.up && s.cursor == s.db
    ensures ReachesRepeat(s, init, states, events)
  {
    hide ReachesRepeat;
    states, events := RepeatFromIdle(Step(s, Start), init, batch, id);
    states, events := RepeatLater(s, init, Start, states, events);
  }

  // Whenever such a write is lost while a row of the batch is still in the table, some continuation in
  // which nothing else goes wrong acknowledges a log twice.
  lemma LostWriteRepeats(s: State, init: nat, ev: Event, id: nat) returns (states: seq<State>, events: seq<Event>)
    requires Rising(s, init) && Once(s) && Possible(s, ev) && Repeating(s, ev)
    requires id in s.logs && id in s.phase.batch
    ensures ReachesRepeat(Step(s, ev), init, states, events)
  {
    var t, batch := Step(s, ev), s.phase.batch;
    var k :| 0 <= k < |batch| && batch[k] == id;
    AscendingBounds(batch, k);
    assert SendsAgain(t, batch, id);
    hide ReachesRepeat, Rising, SendsAgain;
    if !t.up {
      states, events := RepeatFromDown(t, init, batch, id);
    } else if t.closing {
      var down := Step(t, Crash(false));
      SendsAgainDown(t, down, batch, id);
      states, events := RepeatFromDown(down, init, batch, id);
      states, events := RepeatLater(t, init, Crash(false), states, events);
    } else {
      states, events := RepeatFromIdle(t, init, batch, id);
    }
  }

  lemma SendsAgainDown(s: State, t: State, batch: seq<nat>, id: nat)
    requires SendsAgain(s, batch, id) && t.logs == s.logs && t.acked == s.acked && t.cursor == s.cursor
    ensures SendsAgain(t, batch, id)
  {
  }

  // The exact condition: after a run in which no such write was lost, an event can lead to a log being
  // acknowledged twice, without a further loss, if and only if it loses one now.
  lemma LostWriteRepeatsIff(states: seq<State>, events: seq<Event>, init: nat, ev: Event)
    requires Run(states, events) && AllHarmless(states, events, init) && Initial(states[0], init) && AllSmooth(states, events)
    requires Possible(states[|events|], ev)
    requires Repeating(states[|events|], ev) ==> exists id :: id in states[|events|].logs && id in states[|events|].phase.batch
    ensures Repeating(states[|events|], ev) <==>
            exists after, more :: ReachesRepeat(Step(states[|events|], ev), init, after, more)
  {
    hide Once, Shape, Rising, Twice;
    var s := states[|events|];
    SmoothRunRises(states, events, init);
    if Repeating(s, ev) {
      var id :| id in s.logs && id in s.phase.batch;
      var after, more := LostWriteRepeats(s, init, ev, id);
    } else {
      var t := Step(s, ev);
      ShapeStep(s, ev);
      SmoothStepKeepsOnce(s, ev);
      forall after, more
        ensures !ReachesRepeat(t, init, after, more)
      {
        if ReachesRepeat(t, init, after, more) {
          OnceAlways(after, more, |more|);
          OnceIsNotTwice(after[|more|]);
        }
      }
    }
  }

  // In such a run no write is given up, so none lands late.
  lemma SmoothRunRises(states: seq<State>, events: seq<Event>, init: nat)
    requires Run(states, events) && AllHarmless(states, events, init) && Initial(states[0], init) && AllSmooth(states, events)
    ensures var s := states[|events|]; Shape(s) && Rising(s, init) && Once(s)
  {
    hide Shape, Rising, Step;
    InitialIsSafe(states[0], init);
    OnceAlways(states, events, |events|);
    forall k | 0 <= k < |events|
      ensures LandsAhead(states[k], events[k])
    {
      OnceAlways(states, events, k);
      assert Moves(states[k], events[k], states[k + 1]);
    }
    RisingAlways(states, events, init, |events|);
  }

  /* ---------- shutting down ---------- */

  // Once closing, an idle process starts no further export: there is no final flush.
  lemma {:induction false} ClosingExportsNothing(states: seq<State>, events: seq<Event>, k: nat)
    requires Run(states, events) && k < |states|
    requires states[0].up && states[0].closing && states[0].phase == Idle
    requires forall j :: 0 <= j < |events| ==> !events[j].Start?
    ensures states[k].acked == states[0].acked
    ensures states[k].db == states[0].db || states[k].db in states[0].stray
    ensures states[k].stray <= states[0].stray
    ensures states[k].up ==> states[k].closing && states[k].phase == Idle
  {
    if k > 0 {
      ClosingExportsNothing(states, events, k - 1);
      assert Moves(states[k - 1], events[k - 1], states[k]);
    }
  }
}
