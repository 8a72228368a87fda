// The log sync service: its fields, its timer and one pass of syncLogs, which follows the
// steps of the export protocol.
module LogSync {
  import opened Wrappers
  import opened LogExport

  datatype Proxy = Proxy(id: int, logWebhookUrl: Option<string>, lastSyncedLogId: nat)

  ghost predicate Reaches(s: State, events: seq<Event>, t: State)
    decreases |events|
  {
    if events == [] then s == t else Possible(s, events[0]) && Reaches(Step(s, events[0]), events[1..], t)
  }

  lemma {:induction false} ReachesMore(s: State, events: seq<Event>, t: State, ev: Event)
    requires Reaches(s, events, t) && Possible(t, ev)
    ensures Reaches(s, events + [ev], Step(t, ev))
    decreases |events|
  {
    var all := events + [ev];
    if events == [] {
      assert all[1..] == [];
    } else {
      assert all[0] == events[0] && all[1..] == events[1..] + [ev];
      ReachesMore(Step(s, events[0]), events[1..], t, ev);
    }
  }

  lemma ReachesSelf(s: State)
    ensures Reaches(s, [], s)
  {
  }

  // The steps of the cursor update after a successful post.
  lemma StorePath(s: State, path: seq<Event>, m: State, stored: bool, wrote: bool, pending: bool)
    returns (events: seq<Event>, t: State)
    requires Reaches(s, path, m) && m.up && m.phase.Persisting? && m.phase.batch != [] && (stored ==> wrote)
    ensures Reaches(s, events, t)
    ensures var last := Last(m.phase.batch);
            t == m.(phase := Idle, db := if wrote then last else m.db, cursor := if stored then last else m.cursor,
                    stray := if !wrote && pending then m.stray + multiset{last} else m.stray)
  {
    hide Reaches;
    events, t := path, m;
    if wrote {
      ReachesMore(s, events, t, Written);
      events, t := events + [Written], Step(t, Written);
    }
    var end := if stored then Persisted else PersistFailed(pending);
    ReachesMore(s, events, t, end);
    events, t := events + [end], Step(t, end);
  }

  // A path of steps is a run, so everything proved of runs holds along it.
  lemma {:induction false} ReachesIsRun(s: State, events: seq<Event>, t: State) returns (states: seq<State>)
    requires Reaches(s, events, t)
    ensures Run(states, events) && states[0] == s && states[|states| - 1] == t
    decreases |events|
  {
    if events == [] {
      states := [s];
    } else {
      var rest := ReachesIsRun(Step(s, events[0]), events[1..], t);
      states := [s] + rest;
      forall k | 0 <= k < |events|
        ensures Moves(states[k], events[k], states[k + 1])
      {
        if k > 0 {
          assert Moves(rest[k - 1], events[1..][k - 1], rest[k]);
        }
      }
    }
  }

  class LogSyncService {
    var lastSyncedLogId: nat
    var proxyId: Option<int>
    var webhookUrl: Option<string>
    var timerRunning: bool
    var isSyncing: bool
    var isShuttingDown: bool

    constructor ()
      ensures lastSyncedLogId == 0 && proxyId == None && webhookUrl == None
      ensures !timerRunning && !isSyncing && !isShuttingDown
    {
      lastSyncedLogId, proxyId, webhookUrl := 0, None, None;
      timerRunning, isSyncing, isShuttingDown := false, false, false;
    }

    predicate HasWebhook()
      reads this
    {
      webhookUrl.Some? && webhookUrl.value != ""
    }

    predicate Configured()
      reads this
    {
      HasWebhook() && proxyId.Some? && proxyId.value != 0
    }

    // The process part of a protocol state.
    ghost predicate Shows(s: State)
      reads this
    {
      && s.up && s.cursor == lastSyncedLogId && s.configured == Configured()
      && s.closing == isShuttingDown && (s.phase == Idle <==> !isSyncing)
    }

    method StartSyncTimer()
      modifies `timerRunning
      ensures timerRunning == (old(timerRunning) || (webhookUrl.Some? && webhookUrl.value != ""))
    {
      if !HasWebhook() {
        return;
      }
      if timerRunning {
        return;
      }
      timerRunning := true;
    }

    method StopSyncTimer()
      modifies `timerRunning
      ensures !timerRunning
    {
      if timerRunning {
        timerRunning := false;
      }
    }

    // initialize: the query is a parameter. The stored cursor becomes the process's cursor.
    method Initialize(proxy: Result<Option<Proxy>, string>)
      modifies this
      ensures isSyncing == old(isSyncing) && isShuttingDown == old(isShuttingDown)
      ensures proxy.Err? || proxy.value.None? ==> unchanged(this)
      ensures proxy.Ok? && proxy.value.Some? ==>
                && lastSyncedLogId == proxy.value.value.lastSyncedLogId && proxyId == Some(proxy.value.value.id)
                && webhookUrl == proxy.value.value.logWebhookUrl
                && timerRunning == (old(timerRunning) || HasWebhook())
    {
      if proxy.Err? || proxy.value.None? {
        return;
      }
      var p := proxy.value.value;
      proxyId, webhookUrl, lastSyncedLogId := Some(p.id), p.logWebhookUrl, p.lastSyncedLogId;
      StartSyncTimer();
    }

    // sendLogsToWebhook: one post and at most RETRY_COUNT retries. responses says for each attempt
    // whether it was answered with a success status.
    method SendLogsToWebhook(responses: seq<bool>, ghost s: State, ghost batch: seq<nat>)
      returns (ok: bool, posts: nat, ghost events: seq<Event>, ghost t: State)
      requires |responses| == RETRY_COUNT + 1 && HasWebhook()
      requires s.up && s.phase == Posting(batch, 0)
      ensures ok <==> exists k :: 0 <= k < |responses| && responses[k]
      ensures 1 <= posts <= RETRY_COUNT + 1
      ensures ok ==> responses[posts - 1] && forall k :: 0 <= k < posts - 1 ==> !responses[k]
      ensures Reaches(s, events, t)
      ensures t == if ok then s.(phase := Persisting(batch), acked := s.acked + [batch]) else s.(phase := Idle)
    {
      posts, events, t := 0, [], s;
      while posts <= RETRY_COUNT
        invariant 0 <= posts <= RETRY_COUNT + 1
        invariant forall k :: 0 <= k < posts ==> !responses[k]
        invariant Reaches(s, events, t)
        invariant posts <= RETRY_COUNT ==> t == s.(phase := Posting(batch, posts))
        invariant posts > RETRY_COUNT ==> t == s.(phase := Idle)
      {
        var answered := responses[posts];
        posts := posts + 1;
        if answered {
          ReachesMore(s, events, t, PostOk);
          events, t := events + [PostOk], Step(t, PostOk);
          return true, posts, events, t;
        }
        ReachesMore(s, events, t, PostFailed);
        events, t := events + [PostFailed], Step(t, PostFailed);
      }
      return false, posts, events, t;
    }

    // syncLogs with nothing else in between: page is the answer of the log query, stored says
    // whether the cursor update succeeded, and wrote whether it reached the database. The path
    // taken is one of the export protocol.
    method SyncLogs(ghost s: State, page: Result<seq<nat>, string>, responses: seq<bool>, stored: bool,
                    ghost wrote: bool, ghost pending: bool)
      returns (posts: nat, ok: bool, ghost events: seq<Event>, ghost t: State)
      requires Shows(s) && |responses| == RETRY_COUNT + 1 && (stored ==> wrote)
      requires page.Ok? ==> IsPage(s.logs, lastSyncedLogId + 1, SYNC_BATCH_SIZE, page.value)
      modifies `isSyncing, `lastSyncedLogId
      ensures Reaches(s, events, t) && Shows(t)
      ensures isSyncing == old(isSyncing) && posts <= RETRY_COUNT + 1
      ensures old(isShuttingDown || isSyncing) || page.Err? || page.value == [] ==> posts == 0 && t == s
      ensures old(webhookUrl.None? || webhookUrl.value == "" || proxyId.None? || proxyId.value == 0) ==> posts == 0 && t == s
      ensures posts == 0 ==> t == s
      ensures ok <==> t.acked != s.acked
      ensures ok ==> page.Ok? && page.value != [] && t.acked == s.acked + [page.value] && exists k :: 0 <= k < |responses| && responses[k]
      ensures lastSyncedLogId == if ok && stored then Last(page.value) else old(lastSyncedLogId)
      ensures t.db == if ok && wrote then Last(page.value) else s.db
      ensures t.stray == if ok && !wrote && pending then s.stray + multiset{Last(page.value)} else s.stray
    {
      hide Reaches, IsPage;
      ReachesSelf(s);
      posts, ok, events, t := 0, false, [], s;
      if isShuttingDown {
        return;
      }
      if isSyncing {
        return;
      }
      if !Configured() {
        return;
      }
      isSyncing := true;
      ReachesMore(s, [], s, Tick);
      events, t := [Tick], Step(s, Tick);
      assert [] + [Tick] == [Tick];
      if page.Err? {
        ReachesMore(s, events, t, FetchFailed);
        events, t := events + [FetchFailed], Step(t, FetchFailed);
        isSyncing := false;
        return;
      }
      var logs := page.value;
      ReachesMore(s, events, t, Fetched(logs));
      events, t := events + [Fetched(logs)], Step(t, Fetched(logs));
      if |logs| == 0 {
        isSyncing := false;
        return;
      }
      ghost var posting := t;
      ghost var more;
      ok, posts, more, t := SendLogsToWebhook(responses, posting, logs);
      ReachesBoth(s, events, posting, more, t);
      events := events + more;
      if ok {
        events, t := StorePath(s, events, t, stored, wrote, pending);
        if stored {
          lastSyncedLogId := Last(logs);
        }
      }
      isSyncing := false;
    }

    // reloadWebhookUrl: the timer runs from the moment a webhook appears until it disappears.
    method ReloadWebhookUrl(first: Option<Proxy>, current: Option<Proxy>)
      modifies `proxyId, `webhookUrl, `timerRunning
      ensures var known := old(proxyId.Some? && proxyId.value != 0) || first.Some?;
              && proxyId == (if old(proxyId.Some? && proxyId.value != 0) || first.None? then old(proxyId) else Some(first.value.id))
              && webhookUrl == (if known && current.Some? then current.value.logWebhookUrl else old(webhookUrl))
      ensures timerRunning == if old(HasWebhook()) == HasWebhook() then old(timerRunning) else HasWebhook()
    {
      if proxyId.None? || proxyId.value == 0 {
        if first.None? {
          return;
        }
        proxyId := Some(first.value.id);
      }
      if current.None? {
        return;
      }
      var hadWebhook := HasWebhook();
      webhookUrl := current.value.logWebhookUrl;
      if !hadWebhook && HasWebhook() {
        StartSyncTimer();
      } else if hadWebhook && !HasWebhook() {
        StopSyncTimer();
      }
    }

    // shutdown: the flag is set first, so the last syncLogs returns without exporting anything.
    method Shutdown(ghost s: State, page: Result<seq<nat>, string>, responses: seq<bool>, stored: bool)
      returns (posts: nat, ghost t: State)
      requires Shows(s) && |responses| == RETRY_COUNT + 1
      requires page.Ok? ==> IsPage(s.logs, lastSyncedLogId + 1, SYNC_BATCH_SIZE, page.value)
      modifies this
      ensures isShuttingDown && !timerRunning && posts == 0
      ensures t == Step(s, Close) && Shows(t)
      ensures lastSyncedLogId == old(lastSyncedLogId)
    {
      isShuttingDown := true;
      StopSyncTimer();
      var ok;
      ghost var events;
      posts, ok, events, t := SyncLogs(Step(s, Close), page, responses, stored, stored, false);
    }
  }

  lemma {:induction false} ReachesBoth(s: State, a: seq<Event>, m: State, b: seq<Event>, t: State)
    requires Reaches(s, a, m) && Reaches(m, b, t)
    ensures Reaches(s, a + b, t)
    decreases |a|
  {
    if a == [] {
      assert a + b == b;
    } else {
      assert (a + b)[0] == a[0] && (a + b)[1..] == a[1..] + b;
      ReachesBoth(Step(s, a[0]), a[1..], m, b, t);
    }
  }

  // A successful pass leaves no log between the old and the new cursor unexported, and when the page
  // was not full, none above it either.
  lemma PageDrains(logs: set<nat>, cursor: nat, page: seq<nat>, id: nat)
    requires IsPage(logs, cursor + 1, SYNC_BATCH_SIZE, page) && page != [] && id in logs && cursor < id
    ensures id <= Last(page) <==> id in page
    ensures |page| < SYNC_BATCH_SIZE ==> id in page
  {
    if id in page {
      var k :| 0 <= k < |page| && page[k] == id;
      AscendingBounds(page, k);
    }
  }
}
