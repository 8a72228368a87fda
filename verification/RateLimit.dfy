// RateLimitService: a fixed window that starts at a user's first request, one
// record per user, and a clean-up that runs beside it.
module RateLimit {
  import opened Wrappers

  const WINDOW_SIZE := 60 * 1000

  datatype Count = Count(count: int, windowStart: int, lastRequestTime: int)

  datatype Answer = Answer(allowed: bool, remaining: int, resetTime: int, retryAfter: Option<int>)

  type Counts = map<string, Count>

  // Math.ceil(x / 1000)
  function CeilSeconds(x: int): int {
    -((-x) / 1000)
  }

  // One request against one user's record, and the record it leaves.
  function Check(record: Option<Count>, limit: int, now: int): (Answer, Count) {
    if record.None? || now - record.value.windowStart >= WINDOW_SIZE then
      (Answer(true, limit - 1, now + WINDOW_SIZE, None), Count(1, now, now))
    else
      var c := record.value;
      var reset := c.windowStart + WINDOW_SIZE;
      if c.count >= limit then
        (Answer(false, 0, reset, Some(CeilSeconds(reset - now))), c)
      else
        (Answer(true, limit - (c.count + 1), reset, None), Count(c.count + 1, c.windowStart, now))
  }

  function Record(counts: Counts, user: string): Option<Count> {
    if user in counts then Some(counts[user]) else None
  }

  predicate Forgotten(c: Count, now: int) {
    now - c.lastRequestTime > WINDOW_SIZE * 2
  }

  class RateLimitService {
    var userRequestCounts: Counts

    constructor ()
      ensures userRequestCounts == map[]
    {
      userRequestCounts := map[];
    }

    method CheckRateLimit(userId: string, rateLimit: int, now: int) returns (r: Answer)
      modifies this
      ensures r == Check(Record(old(userRequestCounts), userId), rateLimit, now).0
      ensures !r.allowed ==> r.remaining == 0
      ensures r.allowed <==> r.retryAfter.None?
      ensures userRequestCounts ==
                old(userRequestCounts)[userId := Check(Record(old(userRequestCounts), userId), rateLimit, now).1]
    {
      if userId !in userRequestCounts {
        userRequestCounts := userRequestCounts[userId := Count(1, now, now)];
        return Answer(true, rateLimit - 1, now + WINDOW_SIZE, None);
      }
      var userCount := userRequestCounts[userId];
      if now - userCount.windowStart >= WINDOW_SIZE {
        userRequestCounts := userRequestCounts[userId := Count(1, now, now)];
        return Answer(true, rateLimit - 1, now + WINDOW_SIZE, None);
      }
      if userCount.count >= rateLimit {
        var resetTime := userCount.windowStart + WINDOW_SIZE;
        assert userRequestCounts[userId := userCount] == userRequestCounts;
        return Answer(false, 0, resetTime, Some(CeilSeconds(resetTime - now)));
      }
      userCount := userCount.(count := userCount.count + 1, lastRequestTime := now);
      userRequestCounts := userRequestCounts[userId := userCount];
      return Answer(true, rateLimit - userCount.count, userCount.windowStart + WINDOW_SIZE, None);
    }

    method CleanupExpiredCounts(now: int)
      modifies this
      ensures userRequestCounts == Cleaned(old(userRequestCounts), now)
      ensures forall u :: u in userRequestCounts <==>
                u in old(userRequestCounts) && now - old(userRequestCounts)[u].lastRequestTime <= 2 * WINDOW_SIZE
      ensures forall u :: u in userRequestCounts ==> userRequestCounts[u] == old(userRequestCounts)[u]
    {
      var expired: set<string> := {};
      var users := userRequestCounts.Keys;
      while users != {}
        invariant users <= userRequestCounts.Keys && userRequestCounts == old(userRequestCounts)
        invariant expired == set u | u in userRequestCounts && u !in users && Forgotten(userRequestCounts[u], now)
        decreases users
      {
        var u :| u in users;
        if Forgotten(userRequestCounts[u], now) {
          expired := expired + {u};
        }
        users := users - {u};
      }
      var left := expired;
      while left != {}
        invariant left <= expired
        invariant userRequestCounts == old(userRequestCounts) - (expired - left)
        decreases left
      {
        var u :| u in left;
        userRequestCounts := userRequestCounts - {u};
        left := left - {u};
      }
    }
  }

  function Cleaned(counts: Counts, now: int): Counts {
    map u | u in counts && !Forgotten(counts[u], now) :: counts[u]
  }

  /* ---------- runs ---------- */

  datatype Event = Request(user: string, limit: int, now: int) | Cleanup(now: int)

  // The records after the first k events; `cleaning` says whether clean-ups act.
  function After(run: seq<Event>, k: nat, cleaning: bool): Counts
    requires k <= |run|
  {
    if k == 0 then map[]
    else
      var counts := After(run, k - 1, cleaning);
      match run[k - 1]
      case Request(u, limit, now) => counts[u := Check(Record(counts, u), limit, now).1]
      case Cleanup(now) => if cleaning then Cleaned(counts, now) else counts
  }

  // The answer to request number k of the run.
  function AnswerAt(run: seq<Event>, k: nat, cleaning: bool): Answer
    requires k < |run| && run[k].Request?
  {
    Check(Record(After(run, k, cleaning), run[k].user), run[k].limit, run[k].now).0
  }

  ghost predicate ClockRuns(run: seq<Event>) {
    forall i, j :: 0 <= i <= j < |run| ==> run[i].now <= run[j].now
  }

  // Every record was last touched within its window, and not after time t.
  ghost predicate Sound(counts: Counts, t: int) {
    forall u :: u in counts ==>
      counts[u].windowStart <= counts[u].lastRequestTime < counts[u].windowStart + WINDOW_SIZE && counts[u].lastRequestTime <= t
  }

  // The cleaned table misses only records whose window has passed.
  ghost predicate SameAnswers(cleaned: Counts, full: Counts, t: int) {
    && (forall u :: u in cleaned ==> u in full && full[u] == cleaned[u])
    && (forall u :: u in full && u !in cleaned ==> t - full[u].windowStart >= WINDOW_SIZE)
  }

  lemma {:induction false} Bisimilar(run: seq<Event>, k: nat)
    requires ClockRuns(run) && k <= |run|
    ensures forall t :: (k > 0 ==> run[k - 1].now <= t) ==> Sound(After(run, k, false), t)
    ensures forall t :: (k > 0 ==> run[k - 1].now <= t) ==> SameAnswers(After(run, k, true), After(run, k, false), t)
  {
    if k > 0 {
      Bisimilar(run, k - 1);
      assert k > 1 ==> run[k - 2].now <= run[k - 1].now;
      var now := run[k - 1].now;
      assert Sound(After(run, k - 1, false), now);
      assert SameAnswers(After(run, k - 1, true), After(run, k - 1, false), now);
    }
  }

  // Clean-up is invisible: at any moments, for any users and limits, it changes no answer.
  lemma CleanupIsInvisible(run: seq<Event>, k: nat)
    requires ClockRuns(run) && k < |run| && run[k].Request?
    ensures AnswerAt(run, k, true) == AnswerAt(run, k, false)
  {
    Bisimilar(run, k);
    assert k > 0 ==> run[k - 1].now <= run[k].now;
    assert SameAnswers(After(run, k, true), After(run, k, false), run[k].now);
  }

  /* ---------- how many requests an interval can admit ---------- */

  // The requests of one user admitted among the first k events at times in [a, b).
  function Admitted(run: seq<Event>, k: nat, user: string, a: int, b: int, cleaning: bool): nat
    requires k <= |run|
  {
    if k == 0 then 0
    else
      Admitted(run, k - 1, user, a, b, cleaning)
      + (if run[k - 1].Request? && run[k - 1].user == user && AnswerAt(run, k - 1, cleaning).allowed && a <= run[k - 1].now < b
         then 1 else 0)
  }

  lemma {:induction false} AdmittedSplits(run: seq<Event>, k: nat, user: string, a: int, m: int, b: int)
    requires k <= |run| && a <= m <= b
    ensures Admitted(run, k, user, a, b, false) == Admitted(run, k, user, a, m, false) + Admitted(run, k, user, m, b, false)
  {
    if k > 0 {
      AdmittedSplits(run, k - 1, user, a, m, b);
    }
  }

  ghost predicate ConstantLimit(run: seq<Event>, user: string, limit: int) {
    forall e :: e in run && e.Request? && e.user == user ==> e.limit == limit
  }

  // A limit below one still admits the first request of each window.
  function Effective(limit: int): nat {
    if limit < 1 then 1 else limit
  }

  ghost predicate Counted(run: seq<Event>, k: nat, user: string, limit: int)
    requires k <= |run|
  {
    var max := Effective(limit);
    match Record(After(run, k, false), user)
    case None => forall a, b :: Admitted(run, k, user, a, b, false) == 0
    case Some(c) =>
      && 1 <= c.count <= max
      && c.windowStart <= c.lastRequestTime < c.windowStart + WINDOW_SIZE
      && (forall a, b :: a > c.lastRequestTime ==> Admitted(run, k, user, a, b, false) == 0)
      && (forall a, b :: a >= c.windowStart ==> Admitted(run, k, user, a, b, false) <= c.count)
      && (forall a, b :: a > c.windowStart ==> Admitted(run, k, user, a, b, false) <= c.count - 1)
      && (forall a, b :: c.windowStart - WINDOW_SIZE < a && b <= c.windowStart ==> Admitted(run, k, user, a, b, false) <= max - 1)
      && (forall a, b :: b <= a + WINDOW_SIZE ==> Admitted(run, k, user, a, b, false) <= 2 * max - 1)
  }

  lemma {:induction false} AlwaysCounted(run: seq<Event>, k: nat, user: string, limit: int)
    requires ClockRuns(run) && ConstantLimit(run, user, limit) && k <= |run|
    ensures Counted(run, k, user, limit)
  {
    if k > 0 {
      AlwaysCounted(run, k - 1, user, limit);
      Bisimilar(run, k - 1);
      var e := run[k - 1];
      assert e in run && (k > 1 ==> run[k - 2].now <= e.now);
      assert Sound(After(run, k - 1, false), e.now);
      forall a, b
        ensures Admitted(run, k, user, a, b, false) == Admitted(run, k - 1, user, a, b, false)
          + (if e.Request? && e.user == user && AnswerAt(run, k - 1, false).allowed && a <= e.now < b then 1 else 0)
      {
      }
      if e.Request? && e.user == user {
        CountStep(run, k - 1, k, user, limit);
      }
    }
  }

  lemma CountStep(run: seq<Event>, k: nat, next: nat, user: string, limit: int)
    requires k < |run| && next == k + 1 && run[k].Request? && run[k].user == user && run[k].limit == limit
    requires Counted(run, k, user, limit) && Sound(After(run, k, false), run[k].now)
    requires forall a, b :: Admitted(run, next, user, a, b, false) == Admitted(run, k, user, a, b, false)
               + (if AnswerAt(run, k, false).allowed && a <= run[k].now < b then 1 else 0)
    ensures Counted(run, next, user, limit)
  {
    hide Admitted;
    var t, max := run[k].now, Effective(limit);
    var before := Record(After(run, k, false), user);
    assert Record(After(run, next, false), user) == Some(Check(before, limit, t).1);
    if before.Some? && t - before.value.windowStart < WINDOW_SIZE {
      var ws := before.value.windowStart;
      forall a, b | b <= a + WINDOW_SIZE
        ensures Admitted(run, next, user, a, b, false) <= 2 * max - 1
      {
        if a <= ws <= b {
          AdmittedSplits(run, k, user, a, ws, b);
        }
      }
    }
  }

  // In any half-open interval as long as the window, and whatever the clean-up does,
  // at most 2L - 1 requests of a user with constant limit L get through.
  lemma IntervalBound(run: seq<Event>, user: string, limit: int, a: int)
    requires ClockRuns(run) && ConstantLimit(run, user, limit)
    ensures Admitted(run, |run|, user, a, a + WINDOW_SIZE, true) <= 2 * Effective(limit) - 1
  {
    AlwaysCounted(run, |run|, user, limit);
    AdmittedBothWays(run, |run|, user, a, a + WINDOW_SIZE);
  }

  // The window now open has admitted at most L, and its record counts them.
  lemma WindowBound(run: seq<Event>, user: string, limit: int, b: int)
    requires ClockRuns(run) && ConstantLimit(run, user, limit) && user in After(run, |run|, true)
    ensures var c := After(run, |run|, true)[user];
            Admitted(run, |run|, user, c.windowStart, b, true) <= c.count <= Effective(limit)
  {
    AlwaysCounted(run, |run|, user, limit);
    Bisimilar(run, |run|);
    var t := if run == [] then 0 else run[|run| - 1].now;
    assert SameAnswers(After(run, |run|, true), After(run, |run|, false), t);
    AdmittedBothWays(run, |run|, user, After(run, |run|, true)[user].windowStart, b);
  }

  lemma {:induction false} AdmittedBothWays(run: seq<Event>, k: nat, user: string, a: int, b: int)
    requires ClockRuns(run) && k <= |run|
    ensures Admitted(run, k, user, a, b, true) == Admitted(run, k, user, a, b, false)
  {
    if k > 0 {
      AdmittedBothWays(run, k - 1, user, a, b);
      if run[k - 1].Request? {
        CleanupIsInvisible(run, k - 1);
      }
    }
  }

  // The bound is reached for every limit: one request at 0, the rest of the window
  // just before it closes, and a full next window right after.
  lemma IntervalBoundIsReached(user: string, limit: int) returns (run: seq<Event>)
    requires limit >= 1
    ensures ClockRuns(run) && ConstantLimit(run, user, limit)
    ensures Admitted(run, |run|, user, 1, 1 + WINDOW_SIZE, true) == 2 * limit - 1
  {
    run := [Request(user, limit, 0)];
    assert After(run, 0, false) == map[];
    assert Admitted(run, 1, user, 1, 1 + WINDOW_SIZE, false) == 0;
    run := Burst(run, user, limit, WINDOW_SIZE - 1, limit - 1, Count(1, 0, 0), 1);
    run := Fresh(run, user, limit, WINDOW_SIZE, 1);
    run := Burst(run, user, limit, WINDOW_SIZE, limit - 1, Count(1, WINDOW_SIZE, WINDOW_SIZE), 1);
    AdmittedBothWays(run, |run|, user, 1, 1 + WINDOW_SIZE);
  }

  lemma {:induction false} AfterPrefix(run: seq<Event>, more: seq<Event>, k: nat, user: string, a: int, b: int)
    requires k <= |run|
    ensures After(run + more, k, false) == After(run, k, false)
    ensures Admitted(run + more, k, user, a, b, false) == Admitted(run, k, user, a, b, false)
  {
    if k > 0 {
      AfterPrefix(run, more, k - 1, user, a, b);
    }
  }

  // The request that opens a new window.
  lemma Fresh(run: seq<Event>, user: string, limit: int, t: int, a: int) returns (run': seq<Event>)
    requires ClockRuns(run) && ConstantLimit(run, user, limit) && run != [] && run[|run| - 1].now <= t
    requires user in After(run, |run|, false) && t - After(run, |run|, false)[user].windowStart >= WINDOW_SIZE
    requires a <= t < a + WINDOW_SIZE
    ensures ClockRuns(run') && ConstantLimit(run', user, limit) && run' != [] && run'[|run'| - 1].now == t
    ensures user in After(run', |run'|, false) && After(run', |run'|, false)[user] == Count(1, t, t)
    ensures Admitted(run', |run'|, user, a, a + WINDOW_SIZE, false) == Admitted(run, |run|, user, a, a + WINDOW_SIZE, false) + 1
  {
    run' := run + [Request(user, limit, t)];
    AfterPrefix(run, [Request(user, limit, t)], |run|, user, a, a + WINDOW_SIZE);
  }

  // n more requests at time t, all inside the open window and under the limit.
  lemma {:induction false} Burst(run: seq<Event>, user: string, limit: int, t: int, n: nat, c: Count, a: int)
    returns (run': seq<Event>)
    requires ClockRuns(run) && ConstantLimit(run, user, limit) && run != [] && run[|run| - 1].now <= t
    requires user in After(run, |run|, false) && After(run, |run|, false)[user] == c
    requires t - c.windowStart < WINDOW_SIZE && c.count + n <= limit && a <= t < a + WINDOW_SIZE
    ensures ClockRuns(run') && ConstantLimit(run', user, limit) && run' != [] && run'[|run'| - 1].now <= t
    ensures user in After(run', |run'|, false) && After(run', |run'|, false)[user].windowStart == c.windowStart
    ensures Admitted(run', |run'|, user, a, a + WINDOW_SIZE, false) == Admitted(run, |run|, user, a, a + WINDOW_SIZE, false) + n
    decreases n
  {
    if n == 0 {
      run' := run;
    } else {
      var longer := run + [Request(user, limit, t)];
      AfterPrefix(run, [Request(user, limit, t)], |run|, user, a, a + WINDOW_SIZE);
      run' := Burst(longer, user, limit, t, n - 1, Count(c.count + 1, c.windowStart, t), a);
    }
  }

  /* ---------- what the answer promises ---------- */

  // The user's requests strictly between events k and j.
  function Between(run: seq<Event>, k: nat, j: nat, user: string): nat
    requires k < j <= |run|
  {
    if j == k + 1 then 0
    else Between(run, k, j - 1, user) + (if run[j - 1].Request? && run[j - 1].user == user then 1 else 0)
  }

  lemma {:induction false} RecordKept(run: seq<Event>, k: nat, j: nat, user: string)
    requires k < j <= |run| && Between(run, k, j, user) == 0
    ensures Record(After(run, j, false), user) == Record(After(run, k + 1, false), user)
  {
    if j > k + 1 {
      RecordKept(run, k, j - 1, user);
    }
  }

  // After a denial the user's next request gets through exactly from resetTime on;
  // waiting retryAfter seconds is always enough, and no smaller number of seconds is.
  lemma RetryAfterIsExact(run: seq<Event>, k: nat, j: nat)
    requires ClockRuns(run) && k < j < |run| && run[k].Request? && run[j].Request?
    requires run[j].user == run[k].user && run[j].limit == run[k].limit && Between(run, k, j, run[k].user) == 0
    requires !AnswerAt(run, k, true).allowed
    ensures var r := AnswerAt(run, k, true);
            && r.retryAfter.Some? && r.retryAfter.value >= 1
            && (AnswerAt(run, j, true).allowed <==> run[j].now >= r.resetTime)
            && (run[j].now >= run[k].now + 1000 * r.retryAfter.value ==> AnswerAt(run, j, true).allowed)
            && run[k].now + 1000 * (r.retryAfter.value - 1) < r.resetTime <= run[k].now + 1000 * r.retryAfter.value
  {
    CleanupIsInvisible(run, k);
    CleanupIsInvisible(run, j);
    RecordKept(run, k, j, run[k].user);
  }

  // `remaining` is exact: of the user's next requests before resetTime, precisely the
  // first `remaining` get through.
  lemma RemainingIsExact(run: seq<Event>, k: nat, j: nat)
    requires ClockRuns(run) && k < j < |run| && run[k].Request? && run[j].Request? && run[j].user == run[k].user
    requires forall i :: k < i <= j && run[i].Request? && run[i].user == run[k].user ==> run[i].limit == run[k].limit
    requires AnswerAt(run, k, true).allowed && run[j].now < AnswerAt(run, k, true).resetTime
    ensures AnswerAt(run, j, true).allowed <==> Between(run, k, j, run[k].user) < AnswerAt(run, k, true).remaining
  {
    CleanupIsInvisible(run, k);
    CleanupIsInvisible(run, j);
    CountTracksRequests(run, k, j);
  }

  lemma {:induction false} CountTracksRequests(run: seq<Event>, k: nat, j: nat)
    requires ClockRuns(run) && k < j < |run| && run[k].Request?
    requires forall i :: k < i < j && run[i].Request? && run[i].user == run[k].user ==> run[i].limit == run[k].limit
    requires AnswerAt(run, k, false).allowed && run[j].now < AnswerAt(run, k, false).resetTime
    ensures var r, n := AnswerAt(run, k, false), Between(run, k, j, run[k].user);
            && run[k].user in After(run, j, false)
            && After(run, j, false)[run[k].user].windowStart == r.resetTime - WINDOW_SIZE
            && After(run, j, false)[run[k].user].count ==
               run[k].limit - r.remaining + (if n <= r.remaining then n else if r.remaining < 0 then 0 else r.remaining)
  {
    if j > k + 1 {
      assert run[j - 1].now <= run[j].now;
      CountTracksRequests(run, k, j - 1);
    }
  }
}
