// The in-memory log queue: entries are batched, written in parallel, and put back when a
// write fails. Several flushes can be under way at once; each step below is what runs between
// two awaits.
module LogQueue {
  const BATCH_SIZE := 100

  // A batch being written: marks says which entries have been saved so far.
  datatype Flight<E> = Flight(batch: seq<E>, marks: seq<bool>)

  // abandoned are the failed flights, whose other writes may still complete later; settled are the
  // entries of successful flights in the order the flights ended; enqueued are the entries
  // accepted into the queue in order; direct are those written during shutdown.
  datatype State<E> = State(
    queue: seq<E>, closing: bool, flights: seq<Flight<E>>, abandoned: seq<Flight<E>>,
    settled: seq<E>, enqueued: seq<E>, direct: seq<E>, saved: multiset<E>)

  datatype Event<E> =
    | Enqueue(entry: E, written: bool)
    | Tick
    | Saved(flight: nat, index: nat)
    | SavedLate(flight: nat, index: nat)
    | Succeed(flight: nat)
    | Fail(flight: nat)
    | Shutdown

  function Empty<E>(): State<E> {
    State([], false, [], [], [], [], [], multiset{})
  }

  predicate Fits<E>(f: Flight<E>) {
    |f.batch| == |f.marks|
  }

  predicate Complete<E>(f: Flight<E>) {
    forall i :: 0 <= i < |f.marks| ==> f.marks[i]
  }

  predicate Possible<E>(s: State<E>, ev: Event<E>) {
    match ev
    case Saved(k, i) => k < |s.flights| && i < |s.flights[k].marks| && i < |s.flights[k].batch| && !s.flights[k].marks[i]
    case SavedLate(k, i) => k < |s.abandoned| && i < |s.abandoned[k].marks| && i < |s.abandoned[k].batch| && !s.abandoned[k].marks[i]
    case Succeed(k) => k < |s.flights| && Complete(s.flights[k])
    case Fail(k) => k < |s.flights| && !Complete(s.flights[k])
    case Tick => !s.closing
    case _ => true
  }

  function Launched<E>(batch: seq<E>): Flight<E> {
    Flight(batch, seq(|batch|, i => false))
  }

  // flush, up to its await.
  function BeginFlush<E>(s: State<E>): State<E> {
    if s.queue == [] then s
    else s.(queue := [], flights := s.flights + [Launched(s.queue)])
  }

  function Pushed<E>(s: State<E>, e: E): State<E> {
    s.(queue := s.queue + [e], enqueued := s.enqueued + [e])
  }

  function Mark<E>(f: Flight<E>, i: nat): Flight<E>
    requires i < |f.marks|
  {
    f.(marks := f.marks[i := true])
  }

  function Without<T>(xs: seq<T>, k: nat): seq<T>
    requires k < |xs|
  {
    xs[..k] + xs[k + 1..]
  }

  ghost function Step<E>(s: State<E>, ev: Event<E>): State<E>
    requires Possible(s, ev)
  {
    match ev
    case Enqueue(e, written) =>
      if s.closing then
        if written then s.(direct := s.direct + [e], saved := s.saved + multiset{e}) else s
      else
        var t := Pushed(s, e);
        if |t.queue| >= BATCH_SIZE then BeginFlush(t) else t
    case Tick => BeginFlush(s)
    case Saved(k, i) =>
      s.(flights := s.flights[k := Mark(s.flights[k], i)], saved := s.saved + multiset{s.flights[k].batch[i]})
    case SavedLate(k, i) =>
      s.(abandoned := s.abandoned[k := Mark(s.abandoned[k], i)], saved := s.saved + multiset{s.abandoned[k].batch[i]})
    case Succeed(k) =>
      s.(flights := Without(s.flights, k), settled := s.settled + s.flights[k].batch)
    case Fail(k) =>
      s.(flights := Without(s.flights, k), abandoned := s.abandoned + [s.flights[k]], queue := s.flights[k].batch + s.queue)
    case Shutdown => BeginFlush(s.(closing := true))
  }

  predicate AllFit<E>(fs: seq<Flight<E>>) {
    forall k :: 0 <= k < |fs| ==> Fits(fs[k])
  }

  /* ---------- conservation ---------- */

  ghost function InFlight<E>(fs: seq<Flight<E>>): multiset<E> {
    if fs == [] then multiset{} else InFlight(fs[..|fs| - 1]) + multiset(fs[|fs| - 1].batch)
  }

  ghost function Done<E>(batch: seq<E>, marks: seq<bool>): multiset<E> {
    if batch == [] || |marks| != |batch| then multiset{}
    else
      var n := |batch| - 1;
      Done(batch[..n], marks[..n]) + if marks[n] then multiset{batch[n]} else multiset{}
  }

  ghost function AllDone<E>(fs: seq<Flight<E>>): multiset<E> {
    if fs == [] then multiset{} else AllDone(fs[..|fs| - 1]) + Done(fs[|fs| - 1].batch, fs[|fs| - 1].marks)
  }

  // Every accepted entry is settled, queued or in flight, counted exactly; and the writes that
  // reached the database are exactly those of settled flights, the completed ones of flights
  // under way and of failed flights, and the direct ones.
  ghost predicate Conserved<E>(s: State<E>) {
    && AllFit(s.flights) && AllFit(s.abandoned)
    && multiset(s.enqueued) == multiset(s.settled) + InFlight(s.flights) + multiset(s.queue)
    && s.saved == multiset(s.settled) + AllDone(s.flights) + AllDone(s.abandoned) + multiset(s.direct)
  }

  lemma {:induction false} DoneFresh<E>(batch: seq<E>, marks: seq<bool>)
    requires |batch| == |marks| && forall i :: 0 <= i < |marks| ==> !marks[i]
    ensures Done(batch, marks) == multiset{}
  {
    if batch != [] {
      var n := |batch| - 1;
      DoneFresh(batch[..n], marks[..n]);
    }
  }

  lemma {:induction false} DoneComplete<E>(batch: seq<E>, marks: seq<bool>)
    requires |batch| == |marks| && forall i :: 0 <= i < |marks| ==> marks[i]
    ensures Done(batch, marks) == multiset(batch)
  {
    if batch != [] {
      var n := |batch| - 1;
      DoneComplete(batch[..n], marks[..n]);
      assert batch == batch[..n] + [batch[n]];
    }
  }

  lemma {:induction false} DoneMarked<E>(batch: seq<E>, marks: seq<bool>, i: nat)
    requires |batch| == |marks| && i < |marks| && !marks[i]
    ensures Done(batch, marks[i := true]) == Done(batch, marks) + multiset{batch[i]}
  {
    var n := |batch| - 1;
    if i < n {
      DoneMarked(batch[..n], marks[..n], i);
      assert marks[i := true][..n] == marks[..n][i := true];
    } else {
      assert marks[i := true][..n] == marks[..n];
    }
  }

  lemma {:induction false} AllDoneMarked<E>(fs: seq<Flight<E>>, k: nat, i: nat)
    requires AllFit(fs) && k < |fs| && i < |fs[k].marks| && !fs[k].marks[i]
    ensures AllDone(fs[k := Mark(fs[k], i)]) == AllDone(fs) + multiset{fs[k].batch[i]}
  {
    hide Done;
    var n, gs := |fs| - 1, fs[k := Mark(fs[k], i)];
    if k < n {
      AllDoneMarked(fs[..n], k, i);
      assert gs[..n] == fs[..n][k := Mark(fs[k], i)];
    } else {
      DoneMarked(fs[k].batch, fs[k].marks, i);
      assert gs[..n] == fs[..n];
    }
  }

  lemma {:induction false} InFlightMarked<E>(fs: seq<Flight<E>>, k: nat, i: nat)
    requires AllFit(fs) && k < |fs| && i < |fs[k].marks|
    ensures AllFit(fs[k := Mark(fs[k], i)])
    ensures InFlight(fs[k := Mark(fs[k], i)]) == InFlight(fs)
  {
    var n, gs := |fs| - 1, fs[k := Mark(fs[k], i)];
    if k < n {
      InFlightMarked(fs[..n], k, i);
      assert gs[..n] == fs[..n][k := Mark(fs[k], i)];
    } else {
      assert gs[..n] == fs[..n];
    }
  }

  lemma WithoutLast<T>(xs: seq<T>, k: nat)
    requires k < |xs|
    ensures k == |xs| - 1 ==> Without(xs, k) == xs[..|xs| - 1]
    ensures k < |xs| - 1 ==>
      var rest := Without(xs, k);
      rest != [] && rest[..|rest| - 1] == Without(xs[..|xs| - 1], k) && rest[|rest| - 1] == xs[|xs| - 1]
  {
  }

  lemma {:induction false} InFlightRemoved<E>(fs: seq<Flight<E>>, k: nat)
    requires k < |fs|
    ensures InFlight(fs) == InFlight(Without(fs, k)) + multiset(fs[k].batch)
  {
    hide Without;
    WithoutLast(fs, k);
    if k < |fs| - 1 {
      InFlightRemoved(fs[..|fs| - 1], k);
    }
  }

  lemma {:induction false} AllDoneRemoved<E>(fs: seq<Flight<E>>, k: nat)
    requires k < |fs|
    ensures AllDone(fs) == AllDone(Without(fs, k)) + Done(fs[k].batch, fs[k].marks)
  {
    hide Without, Done;
    WithoutLast(fs, k);
    if k < |fs| - 1 {
      AllDoneRemoved(fs[..|fs| - 1], k);
    }
  }

  lemma Added<E>(fs: seq<Flight<E>>, f: Flight<E>)
    requires AllFit(fs) && Fits(f)
    ensures AllFit(fs + [f])
    ensures InFlight(fs + [f]) == InFlight(fs) + multiset(f.batch)
    ensures AllDone(fs + [f]) == AllDone(fs) + Done(f.batch, f.marks)
  {
    assert (fs + [f])[..|fs|] == fs;
  }

  lemma BeginFlushConserves<E>(s: State<E>)
    requires Conserved(s)
    ensures Conserved(BeginFlush(s))
  {
    hide InFlight, AllDone, Done;
    if s.queue != [] {
      var f := Launched(s.queue);
      Added(s.flights, f);
      DoneFresh(f.batch, f.marks);
    }
  }

  lemma SavedConserves<E>(s: State<E>, k: nat, i: nat)
    requires Conserved(s) && Possible(s, Saved(k, i))
    ensures Conserved(Step(s, Saved(k, i)))
  {
    hide InFlight, AllDone;
    AllDoneMarked(s.flights, k, i);
    InFlightMarked(s.flights, k, i);
  }

  lemma SavedLateConserves<E>(s: State<E>, k: nat, i: nat)
    requires Conserved(s) && Possible(s, SavedLate(k, i))
    ensures Conserved(Step(s, SavedLate(k, i)))
  {
    hide InFlight, AllDone;
    AllDoneMarked(s.abandoned, k, i);
    InFlightMarked(s.abandoned, k, i);
  }

  lemma SucceedConserves<E>(s: State<E>, k: nat)
    requires Conserved(s) && Possible(s, Succeed(k))
    ensures Conserved(Step(s, Succeed(k)))
  {
    hide InFlight, AllDone, Done;
    InFlightRemoved(s.flights, k);
    AllDoneRemoved(s.flights, k);
    DoneComplete(s.flights[k].batch, s.flights[k].marks);
  }

  lemma FailConserves<E>(s: State<E>, k: nat)
    requires Conserved(s) && Possible(s, Fail(k))
    ensures Conserved(Step(s, Fail(k)))
  {
    hide InFlight, AllDone, Done;
    InFlightRemoved(s.flights, k);
    AllDoneRemoved(s.flights, k);
    Added(s.abandoned, s.flights[k]);
  }

  lemma StepConserves<E>(s: State<E>, ev: Event<E>)
    requires Conserved(s) && Possible(s, ev)
    ensures Conserved(Step(s, ev))
  {
    match ev
    case Enqueue(e, written) => EnqueueConserves(s, e, written);
    case Tick => BeginFlushConserves(s);
    case Saved(k, i) => SavedConserves(s, k, i);
    case SavedLate(k, i) => SavedLateConserves(s, k, i);
    case Succeed(k) => SucceedConserves(s, k);
    case Fail(k) => FailConserves(s, k);
    case Shutdown => BeginFlushConserves(s.(closing := true));
  }

  lemma EnqueueConserves<E>(s: State<E>, e: E, written: bool)
    requires Conserved(s)
    ensures Conserved(Step(s, Enqueue(e, written)))
  {
    hide InFlight, AllDone, BeginFlush;
    if !s.closing {
      PushConserves(s, e);
      BeginFlushConserves(Pushed(s, e));
    }
  }

  lemma ClosingConserves<E>(s: State<E>)
    requires Conserved(s)
    ensures Conserved(s.(closing := true))
  {
  }

  lemma PushConserves<E>(s: State<E>, e: E)
    requires Conserved(s)
    ensures Conserved(Pushed(s, e))
  {
    hide InFlight, AllDone;
  }

  /* ---------- runs ---------- */

  ghost predicate Run<E>(states: seq<State<E>>, events: seq<Event<E>>) {
    && |states| == |events| + 1 && states[0] == Empty()
    && forall k :: 0 <= k < |events| ==> Next(states[k], events[k], states[k + 1])
  }

  ghost predicate Next<E>(s: State<E>, ev: Event<E>, t: State<E>) {
    Possible(s, ev) && t == Step(s, ev)
  }

  lemma {:induction false} ConservedAlways<E>(states: seq<State<E>>, events: seq<Event<E>>, k: nat)
    requires Run(states, events) && k < |states|
    ensures Conserved(states[k])
  {
    if k > 0 {
      ConservedAlways(states, events, k - 1);
      assert Next(states[k - 1], events[k - 1], states[k]);
      StepConserves(states[k - 1], events[k - 1]);
    }
  }

  // No accepted entry is ever lost: it is in the database, in the queue or in flight.
  lemma NothingIsLost<E>(states: seq<State<E>>, events: seq<Event<E>>, k: nat, e: E)
    requires Run(states, events) && k < |states| && e in states[k].enqueued
    ensures var s := states[k];
            e in s.saved || e in s.queue || exists j :: 0 <= j < |s.flights| && e in s.flights[j].batch
  {
    ConservedAlways(states, events, k);
    var s := states[k];
    assert e in multiset(s.enqueued);
    if e in InFlight(s.flights) {
      FlightOf(s.flights, e);
    }
  }

  lemma {:induction false} FlightOf<E>(fs: seq<Flight<E>>, e: E)
    requires e in InFlight(fs)
    ensures exists j :: 0 <= j < |fs| && e in fs[j].batch
  {
    var n := |fs| - 1;
    if e !in fs[n].batch {
      FlightOf(fs[..n], e);
      var j :| 0 <= j < n && e in fs[..n][j].batch;
      assert e in fs[j].batch;
    }
  }

  // When nothing is queued or in flight, the entries saved are those accepted, those written directly
  // during shutdown, and once more each entry whose write completed in a flight that failed.
  lemma DrainedMeansSaved<E>(states: seq<State<E>>, events: seq<Event<E>>, k: nat)
    requires Run(states, events) && k < |states| && states[k].queue == [] && states[k].flights == []
    ensures var s := states[k];
            s.saved == multiset(s.enqueued) + multiset(s.direct) + AllDone(s.abandoned)
  {
    ConservedAlways(states, events, k);
  }

  // So each is saved as often as it was accepted or written directly exactly if no write of a failed
  // flight completed.
  lemma SavedOnceIff<E>(states: seq<State<E>>, events: seq<Event<E>>, k: nat)
    requires Run(states, events) && k < |states| && states[k].queue == [] && states[k].flights == []
    ensures var s := states[k];
            s.saved == multiset(s.enqueued) + multiset(s.direct) <==>
            forall f :: f in s.abandoned ==> NothingSaved(f)
  {
    hide NothingSaved, AllDone, InFlight;
    var s := states[k];
    DrainedMeansSaved(states, events, k);
    ConservedAlways(states, events, k);
    NoneDoneIff(s.abandoned);
    var all := multiset(s.enqueued) + multiset(s.direct);
    assert all + multiset{} == all;
    if AllDone(s.abandoned) != multiset{} {
      assert |all + AllDone(s.abandoned)| == |all| + |AllDone(s.abandoned)|;
    }
  }

  lemma {:induction false} NoneDoneIff<E>(fs: seq<Flight<E>>)
    requires AllFit(fs)
    ensures AllDone(fs) == multiset{} <==> forall f :: f in fs ==> NothingSaved(f)
  {
    hide Done, NothingSaved;
    if fs != [] {
      var n := |fs| - 1;
      NoneDoneIff(fs[..n]);
      DoneIff(fs[n]);
      assert forall f :: f in fs <==> f in fs[..n] || f == fs[n];
    }
  }

  predicate NothingSaved<E>(f: Flight<E>) {
    forall i :: 0 <= i < |f.marks| ==> !f.marks[i]
  }

  lemma {:induction false} DoneIff<E>(f: Flight<E>)
    requires Fits(f)
    ensures Done(f.batch, f.marks) == multiset{} <==> NothingSaved(f)
    decreases |f.batch|
  {
    if f.batch != [] {
      var n := |f.batch| - 1;
      DoneIff(Flight(f.batch[..n], f.marks[..n]));
      if f.marks[n] {
        assert f.batch[n] in Done(f.batch, f.marks);
      }
    }
  }

  // An accepted entry leaves the queue short: a full queue is taken by a flush at once, and no other is.
  lemma QueueStaysShort<E>(s: State<E>, e: E, written: bool)
    requires !s.closing
    ensures |Step(s, Enqueue(e, written)).queue| < BATCH_SIZE
    ensures |Step(s, Enqueue(e, written)).queue| == if |s.queue| + 1 < BATCH_SIZE then |s.queue| + 1 else 0
    ensures |Step(s, Enqueue(e, written)).flights| == if |s.queue| + 1 < BATCH_SIZE then |s.flights| else |s.flights| + 1
  {
  }

  predicate FlightsNonEmpty<E(==)>(s: State<E>) {
    forall k :: 0 <= k < |s.flights| ==> s.flights[k].batch != []
  }

  lemma {:induction false} FlightsNeverEmpty<E>(states: seq<State<E>>, events: seq<Event<E>>, k: nat)
    requires Run(states, events) && k < |states|
    ensures FlightsNonEmpty(states[k])
  {
    if k > 0 {
      FlightsNeverEmpty(states, events, k - 1);
      assert Next(states[k - 1], events[k - 1], states[k]);
    }
  }

  // After shutdown nothing flushes again. From the last shutdown on the queue is empty exactly while
  // no flight has failed: what a failed flight puts back stays in memory.
  lemma {:induction false} StrandedIffFailed<E>(states: seq<State<E>>, events: seq<Event<E>>, j: nat, k: nat)
    requires Run(states, events) && j < k < |states| && events[j] == Shutdown
    requires forall i :: j < i < k ==> events[i] != Shutdown
    ensures states[k].closing
    ensures states[k].queue == [] <==> forall i :: j < i < k ==> !events[i].Fail?
    decreases k
  {
    assert Next(states[k - 1], events[k - 1], states[k]);
    if k > j + 1 {
      StrandedIffFailed(states, events, j, k - 1);
      FlightsNeverEmpty(states, events, k - 1);
    }
  }

  // So when all flights have ended, every accepted entry is saved if none failed since the shutdown.
  lemma ShutdownSavesAll<E>(states: seq<State<E>>, events: seq<Event<E>>, j: nat, k: nat)
    requires Run(states, events) && j < k < |states| && events[j] == Shutdown
    requires forall i :: j < i < k ==> events[i] != Shutdown && !events[i].Fail?
    requires states[k].flights == []
    ensures var s := states[k];
            s.saved == multiset(s.enqueued) + multiset(s.direct) + AllDone(s.abandoned)
  {
    StrandedIffFailed(states, events, j, k);
    DrainedMeansSaved(states, events, k);
  }

  /* ---------- order ---------- */

  function Flown<E>(fs: seq<Flight<E>>): seq<E> {
    if fs == [] then [] else fs[0].batch
  }

  // With at most one flush under way the entries are settled, in flight and queued in the
  // order in which they were accepted.
  ghost predicate InOrder<E>(s: State<E>) {
    |s.flights| <= 1 && s.enqueued == s.settled + Flown(s.flights) + s.queue
  }

  lemma BeginFlushKeepsOrder<E>(s: State<E>)
    requires InOrder(s) && |BeginFlush(s).flights| <= 1
    ensures InOrder(BeginFlush(s))
  {
    if s.queue != [] {
      assert s.flights == [];
      assert s.settled + [] + s.queue == s.settled + s.queue + [];
    }
  }

  lemma PushKeepsOrder<E>(s: State<E>, e: E)
    requires InOrder(s)
    ensures InOrder(Pushed(s, e))
  {
    var before := s.settled + Flown(s.flights);
    assert before + s.queue + [e] == before + (s.queue + [e]);
  }

  lemma EndKeepsOrder<E>(s: State<E>, k: nat)
    requires InOrder(s) && k < |s.flights|
    ensures Possible(s, Succeed(k)) ==> InOrder(Step(s, Succeed(k)))
    ensures Possible(s, Fail(k)) ==> InOrder(Step(s, Fail(k)))
  {
    var batch := s.flights[k].batch;
    assert Without(s.flights, k) == [];
    assert s.settled + batch + [] + s.queue == s.settled + batch + s.queue;
    assert s.settled + [] + (batch + s.queue) == s.settled + batch + s.queue;
  }

  lemma StepKeepsOrder<E>(s: State<E>, ev: Event<E>)
    requires Possible(s, ev) && InOrder(s) && |Step(s, ev).flights| <= 1
    ensures InOrder(Step(s, ev))
  {
    match ev
    case Enqueue(e, _) =>
      if !s.closing {
        PushKeepsOrder(s, e);
        if |s.queue| + 1 >= BATCH_SIZE {
          BeginFlushKeepsOrder(Pushed(s, e));
        }
      }
    case Tick => BeginFlushKeepsOrder(s);
    case Succeed(k) => EndKeepsOrder(s, k);
    case Fail(k) => EndKeepsOrder(s, k);
    case Shutdown => BeginFlushKeepsOrder(s.(closing := true));
    case _ =>
  }

  lemma {:induction false} OrderKept<E>(states: seq<State<E>>, events: seq<Event<E>>, k: nat)
    requires Run(states, events) && k < |states|
    requires forall j :: 0 <= j <= k ==> |states[j].flights| <= 1
    ensures InOrder(states[k])
  {
    if k > 0 {
      OrderKept(states, events, k - 1);
      assert Next(states[k - 1], events[k - 1], states[k]);
      StepKeepsOrder(states[k - 1], events[k - 1]);
    }
  }

  predicate Ascending(xs: seq<int>) {
    forall i, j :: 0 <= i < j < |xs| ==> xs[i] < xs[j]
  }

  // Entries are numbered in the order of acceptance. A failed batch goes back in order if it is
  // older than all that is queued by then.
  predicate FailInOrder(s: State<int>, k: nat)
    requires k < |s.flights|
  {
    var batch := s.flights[k].batch;
    batch == [] || s.queue == [] || batch[|batch| - 1] < s.queue[0]
  }

  predicate FlightsAscend(s: State<int>) {
    forall f :: f in s.flights ==> Ascending(f.batch)
  }

  lemma JoinAscendsIff(a: seq<int>, b: seq<int>)
    requires Ascending(a) && Ascending(b)
    ensures Ascending(a + b) <==> a == [] || b == [] || a[|a| - 1] < b[0]
  {
    var all := a + b;
    if a == [] {
      assert all == b;
    } else if b == [] {
      assert all == a;
    } else {
      assert all[|a| - 1] == a[|a| - 1] && all[|a|] == b[0];
      if a[|a| - 1] < b[0] {
        forall i, j | 0 <= i < j < |all|
          ensures all[i] < all[j]
        {
          if i < |a| <= j {
            assert a[i] <= a[|a| - 1] && b[0] <= b[j - |a|];
          }
        }
      }
    }
  }

  // A failure keeps the queue in order of acceptance exactly under that condition.
  lemma FailKeepsOrderIff(s: State<int>, k: nat)
    requires Possible(s, Fail(k)) && Ascending(s.queue) && FlightsAscend(s)
    ensures Ascending(Step(s, Fail(k)).queue) <==> FailInOrder(s, k)
  {
    JoinAscendsIff(s.flights[k].batch, s.queue);
  }

  lemma AcceptedIsNewest(s: State<int>, e: int)
    requires Conserved(s) && Ascending(s.queue) && Ascending(s.enqueued + [e])
    ensures Ascending(s.queue + [e])
  {
    hide InFlight;
    var all := s.enqueued + [e];
    forall q | q in s.queue
      ensures q < e
    {
      assert q in multiset(s.queue);
      assert q in multiset(s.enqueued);
      var i :| 0 <= i < |s.enqueued| && s.enqueued[i] == q;
      assert all[i] == q && all[|s.enqueued|] == e;
    }
    forall i, j | 0 <= i < j < |s.queue + [e]|
      ensures (s.queue + [e])[i] < (s.queue + [e])[j]
    {
      assert s.queue[i] in s.queue;
    }
  }

  lemma WithoutMembers<T>(xs: seq<T>, k: nat)
    requires k < |xs|
    ensures |Without(xs, k)| == |xs| - 1
    ensures forall x :: x in Without(xs, k) ==> x in xs
  {
    assert forall x :: x in xs[..k] || x in xs[k + 1..] ==> x in xs;
  }

  lemma StepOrderIff(s: State<int>, ev: Event<int>)
    requires Conserved(s) && Possible(s, ev) && Ascending(s.queue) && FlightsAscend(s)
    requires Ascending(Step(s, ev).enqueued)
    ensures Ascending(Step(s, ev).queue) <==> (ev.Fail? ==> FailInOrder(s, ev.flight))
    ensures FlightsAscend(Step(s, ev))
  {
    hide Conserved;
    match ev
    case Enqueue(e, _) =>
      if !s.closing {
        AcceptedIsNewest(s, e);
      }
    case Succeed(k) => WithoutMembers(s.flights, k);
    case Fail(k) =>
      FailKeepsOrderIff(s, k);
      WithoutMembers(s.flights, k);
    case _ =>
  }

  ghost predicate QueuesAscend(states: seq<State<int>>, k: nat)
    requires k < |states|
  {
    forall j :: 0 <= j <= k ==> Ascending(states[j].queue)
  }

  ghost predicate FailsInOrder(states: seq<State<int>>, events: seq<Event<int>>, k: nat)
    requires Run(states, events) && k < |states|
  {
    forall j :: 0 <= j < k && events[j].Fail? ==> FailsWell(states[j], events[j])
  }

  predicate FailsWell(s: State<int>, ev: Event<int>) {
    ev.Fail? && ev.flight < |s.flights| && FailInOrder(s, ev.flight)
  }

  lemma EnqueuedGrows<E>(s: State<E>, ev: Event<E>)
    requires Possible(s, ev)
    ensures |s.enqueued| <= |Step(s, ev).enqueued| && Step(s, ev).enqueued[..|s.enqueued|] == s.enqueued
  {
  }

  lemma PrefixAscends(a: seq<int>, b: seq<int>)
    requires |a| <= |b| && b[..|a|] == a && Ascending(b)
    ensures Ascending(a)
  {
    assert forall i :: 0 <= i < |a| ==> a[i] == b[i];
  }

  // In every run the queue stays in order of acceptance if and only if each failed batch is older
  // than all that is queued when it fails.
  lemma {:induction false} QueueAscendsIff(states: seq<State<int>>, events: seq<Event<int>>, k: nat)
    requires Run(states, events) && k < |states| && Ascending(states[k].enqueued)
    ensures QueuesAscend(states, k) <==> FailsInOrder(states, events, k)
    ensures QueuesAscend(states, k) ==> FlightsAscend(states[k])
  {
    hide Step, Conserved, FailInOrder;
    if k > 0 {
      var s, ev := states[k - 1], events[k - 1];
      assert Next(s, ev, states[k]);
      EnqueuedGrows(s, ev);
      PrefixAscends(s.enqueued, states[k].enqueued);
      QueueAscendsIff(states, events, k - 1);
      ConservedAlways(states, events, k - 1);
      if QueuesAscend(states, k - 1) {
        StepOrderIff(s, ev);
      }
    }
  }

  // Two overlapping flushes can turn the order round: the older batch fails first.
  lemma OverlapReverses()
    ensures exists states: seq<State<int>>, events: seq<Event<int>> ::
              Run(states, events) && states[|states| - 1].queue == [2, 1] && states[|states| - 1].enqueued == [1, 2]
  {
    hide Next;
    var events: seq<Event<int>> := [Enqueue(1, true), Tick, Enqueue(2, true), Tick, Fail(0), Fail(0)];
    var s0: State<int> := Empty();
    var s1 := PushOne(s0, 1);
    var s2 := LaunchOne(s1, 1);
    var s3 := PushOne(s2, 2);
    var s4 := LaunchOne(s3, 2);
    var s5 := FailFirst(s4, 1);
    var s6 := FailFirst(s5, 2);
    assert s6.queue == [2, 1] && s6.enqueued == [1, 2];
    assert Run([s0, s1, s2, s3, s4, s5, s6], events);
  }

  lemma PushOne(s: State<int>, e: int) returns (t: State<int>)
    requires s.queue == [] && !s.closing
    ensures Next(s, Enqueue(e, true), t)
    ensures t == s.(queue := [e], enqueued := s.enqueued + [e])
  {
    t := s.(queue := [e], enqueued := s.enqueued + [e]);
  }

  lemma LaunchOne(s: State<int>, e: int) returns (t: State<int>)
    requires s.queue == [e] && !s.closing
    ensures Next(s, Tick, t)
    ensures t == s.(queue := [], flights := s.flights + [Flight([e], [false])])
  {
    t := s.(queue := [], flights := s.flights + [Flight([e], [false])]);
    assert seq(1, i => false) == [false];
  }

  lemma FailFirst(s: State<int>, e: int) returns (t: State<int>)
    requires s.flights != [] && s.flights[0] == Flight([e], [false])
    ensures Next(s, Fail(0), t)
    ensures t == s.(flights := s.flights[1..], abandoned := s.abandoned + [s.flights[0]], queue := [e] + s.queue)
  {
    t := s.(flights := s.flights[1..], abandoned := s.abandoned + [s.flights[0]], queue := [e] + s.queue);
    assert !s.flights[0].marks[0];
    assert s.flights[..0] + s.flights[1..] == s.flights[1..];
  }

  /* ---------- the service ---------- */

  // The fields of the service are the queue and the closing flag; the rest of the state is what
  // happens around them.
  class LogService<E(==)> {
    var logQueue: seq<E>
    var isShuttingDown: bool
    ghost var state: State<E>

    ghost predicate Valid()
      reads this
    {
      && state.queue == logQueue && state.closing == isShuttingDown
      && Conserved(state)
    }

    constructor ()
      ensures Valid() && state == Empty()
    {
      logQueue, isShuttingDown := [], false;
      state := Empty();
    }

    // flush up to its await: the batch handed to the database, if any.
    method Flush() returns (batch: seq<E>)
      requires Valid()
      modifies `logQueue, `state
      ensures Valid()
      ensures batch == old(logQueue) && logQueue == []
      ensures state == BeginFlush(old(state))
    {
      BeginFlushConserves(state);
      state := BeginFlush(state);
      if |logQueue| == 0 {
        return [];
      }
      batch := logQueue;
      logQueue := [];
    }

    // enqueue: during shutdown the entry goes straight to the database, and written says
    // whether that succeeded.
    method Enqueue(entry: E, written: bool) returns (batch: seq<E>)
      requires Valid()
      modifies `logQueue, `state
      ensures Valid()
      ensures state == Step(old(state), Event.Enqueue(entry, written))
      ensures !isShuttingDown ==> |logQueue| < BATCH_SIZE && batch + logQueue == old(logQueue) + [entry]
      ensures !isShuttingDown ==> (batch == [] <==> |old(logQueue)| + 1 < BATCH_SIZE)
      ensures isShuttingDown ==> batch == [] && logQueue == old(logQueue)
      ensures isShuttingDown ==> state.saved == old(state.saved) + (if written then multiset{entry} else multiset{})
    {
      hide Conserved, BeginFlush;
      if isShuttingDown {
        EnqueueConserves(state, entry, written);
        state := Step(state, Event.Enqueue(entry, written));
        return [];
      }
      PushConserves(state, entry);
      logQueue := logQueue + [entry];
      state := Pushed(state, entry);
      batch := [];
      if |logQueue| >= BATCH_SIZE {
        batch := Flush();
      }
    }

    // The continuation of flush after its await.
    method FlushEnded(ghost k: nat, batch: seq<E>, ok: bool)
      requires Valid()
      requires k < |state.flights| && state.flights[k].batch == batch && (ok <==> Complete(state.flights[k]))
      modifies `logQueue, `state
      ensures Valid()
      ensures state == Step(old(state), if ok then Succeed(k) else Fail(k))
      ensures logQueue == if ok then old(logQueue) else batch + old(logQueue)
    {
      StepConserves(state, if ok then Succeed(k) else Fail(k));
      state := Step(state, if ok then Succeed(k) else Fail(k));
      if !ok {
        logQueue := batch + logQueue;
      }
    }

    method Shutdown() returns (batch: seq<E>)
      requires Valid()
      modifies this
      ensures Valid() && isShuttingDown
      ensures batch == old(logQueue) && logQueue == []
      ensures state == Step(old(state), Event.Shutdown)
    {
      hide Conserved, BeginFlush;
      ClosingConserves(state);
      isShuttingDown := true;
      state := state.(closing := true);
      batch := Flush();
    }
  }
}
