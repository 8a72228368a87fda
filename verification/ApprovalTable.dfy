// The approval_request table: its rows, and every SQL statement ApprovalRepository
// sends, as one atomic step on the table.
module ApprovalTable {
  import opened Wrappers

  datatype Status = Pending | Approved | Rejected | Expired | Executing | Executed | Failed

  // The WHERE clause of the partial unique index on request_hash.
  predicate Active(s: Status) {
    s.Pending? || s.Approved? || s.Executing?
  }

  // How far a request has come; the four final statuses are the furthest.
  function Rank(s: Status): nat {
    match s
    case Pending => 0
    case Approved => 1
    case Executing => 2
    case _ => 3
  }

  datatype Channel = AdminApi | Socket

  datatype Actor = Actor(userId: Option<string>, role: Option<int>, channel: Channel)

  // The columns an INSERT fills and no later statement mentions.
  datatype Request = Request(
    userId: string, serverId: Option<string>, toolName: string,
    canonicalArgs: string, redactedArgs: string, policyVersion: int,
    requestHash: string, expiresAt: int, uniformRequestId: Option<string>)

  // The audit columns a decision fills together.
  datatype Verdict = Verdict(decidedAt: int, reason: Option<string>, actor: Actor)

  datatype Row = Row(
    request: Request, status: Status, createdAt: int, updatedAt: int,
    verdict: Option<Verdict>, executedAt: Option<int>,
    executionResult: Option<string>, executionError: Option<string>)

  type Table = map<string, Row>

  datatype Decision = Approve | Reject

  const STALE_MESSAGE := "Stale EXECUTING approval recovered by sweeper timeout"

  // One constructor per SQL statement; `now` is the clock value the statement uses.
  datatype Statement =
    | Insert(id: string, request: Request, now: int)
    | Decide(id: string, decision: Decision, actor: Actor, reason: Option<string>, now: int)
    | ClaimByHash(hash: string, now: int)
    | ClaimById(id: string, now: int)
    | MarkExecuted(id: string, result: string, now: int)
    | MarkFailed(id: string, error: string, now: int)
    | Touch(id: string, now: int)
    | ExpireStale(now: int)
    | ExpireHash(hash: string, now: int)
    | RecoverStale(staleBefore: int, now: int)
    | ForceExpire(id: string, now: int)

  predicate Claimable(r: Row, now: int) {
    r.status.Approved? && now < r.request.expiresAt
  }

  predicate Overdue(r: Row, now: int) {
    (r.status.Pending? || r.status.Approved?) && r.request.expiresAt <= now
  }

  // The WHERE clause of an UPDATE.
  predicate Matches(s: Statement, id: string, r: Row) {
    match s
    case Insert(_, _, _) => false
    case Decide(i, _, _, _, now) => i == id && r.status.Pending? && now < r.request.expiresAt
    case ClaimByHash(h, now) => r.request.requestHash == h && Claimable(r, now)
    case ClaimById(i, now) => i == id && Claimable(r, now)
    case MarkExecuted(i, _, _) => i == id && r.status.Executing?
    case MarkFailed(i, _, _) => i == id && r.status.Executing?
    case Touch(i, _) => i == id && r.status.Executing?
    case ExpireStale(now) => Overdue(r, now)
    case ExpireHash(h, now) => r.request.requestHash == h && Overdue(r, now)
    case RecoverStale(staleBefore, _) => r.status.Executing? && r.updatedAt <= staleBefore
    case ForceExpire(i, _) => i == id && Active(r.status)
  }

  // The SET clause of an UPDATE.
  function Assigned(s: Statement, r: Row): Row {
    match s
    case Insert(_, _, _) => r
    case Decide(_, d, actor, reason, now) =>
      r.(status := if d.Approve? then Approved else Rejected,
         verdict := Some(Verdict(now, reason, actor)), updatedAt := now)
    case ClaimByHash(_, now) => r.(status := Executing, updatedAt := now)
    case ClaimById(_, now) => r.(status := Executing, updatedAt := now)
    case MarkExecuted(_, result, now) =>
      r.(status := Executed, executedAt := Some(now), executionResult := Some(result), updatedAt := now)
    case MarkFailed(_, error, now) =>
      r.(status := Failed, executionError := Some(error), updatedAt := now)
    case Touch(_, now) => r.(updatedAt := now)
    case ExpireStale(now) => r.(status := Expired, updatedAt := now)
    case ExpireHash(_, now) => r.(status := Expired, updatedAt := now)
    case RecoverStale(_, now) =>
      r.(status := Failed, executionError := Some(STALE_MESSAGE), updatedAt := now)
    case ForceExpire(_, now) => r.(status := Expired, updatedAt := now)
  }

  // ON CONFLICT (request_hash) WHERE status IN (...): some active row has this hash.
  predicate HashBusy(t: Table, hash: string) {
    exists id :: id in t && t[id].request.requestHash == hash && Active(t[id].status)
  }

  function NewRow(request: Request, now: int): Row {
    Row(request, Pending, now, now, None, None, None, None)
  }

  function Step(t: Table, s: Statement): Table {
    if s.Insert? then
      if HashBusy(t, s.request.requestHash) || s.id in t then t
      else t[s.id := NewRow(s.request, s.now)]
    else
      map id | id in t :: if Matches(s, id, t[id]) then Assigned(s, t[id]) else t[id]
  }

  // The rows RETURNING * reports.
  function Returned(t: Table, s: Statement): set<string> {
    set id | id in t && Matches(s, id, t[id])
  }

  /* ---------- one statement ---------- */

  ghost predicate UniqueActive(t: Table) {
    forall a, b |
      && a in t && b in t && Active(t[a].status) && Active(t[b].status)
      && t[a].request.requestHash == t[b].request.requestHash
      :: a == b
  }

  // Only the INSERT consults the index; no UPDATE can break it.
  lemma UniqueActiveStep(t: Table, s: Statement)
    requires UniqueActive(t)
    ensures UniqueActive(Step(t, s))
  {
    var u := Step(t, s);
    forall a, b | a in u && b in u && Active(u[a].status) && Active(u[b].status)
                  && u[a].request.requestHash == u[b].request.requestHash
      ensures a == b
    {
      if !s.Insert? {
        assert Active(t[a].status) && Active(t[b].status);
      }
    }
  }

  lemma ClaimMovesAtMostOne(t: Table, hash: string, now: int, a: string, b: string)
    requires UniqueActive(t)
    requires a in Returned(t, ClaimByHash(hash, now)) && b in Returned(t, ClaimByHash(hash, now))
    ensures a == b
  {
  }

  // The permitted edges of the life of one request, with the guard of each.
  predicate Edge(s: Statement, id: string, before: Row, after: Status) {
    match (before.status, after)
    case (Pending, Approved) =>
      s.Decide? && s.id == id && s.decision.Approve? && s.now < before.request.expiresAt
    case (Pending, Rejected) =>
      s.Decide? && s.id == id && s.decision.Reject? && s.now < before.request.expiresAt
    case (Approved, Executing) =>
      || (s.ClaimById? && s.id == id && s.now < before.request.expiresAt)
      || (s.ClaimByHash? && s.hash == before.request.requestHash && s.now < before.request.expiresAt)
    case (Executing, Executed) => s.MarkExecuted? && s.id == id
    case (Executing, Failed) =>
      (s.MarkFailed? && s.id == id) || (s.RecoverStale? && before.updatedAt <= s.staleBefore)
    case (Executing, Expired) => s.ForceExpire? && s.id == id
    case (Pending, Expired) => ExpiresOpen(s, id, before)
    case (Approved, Expired) => ExpiresOpen(s, id, before)
    case _ => false
  }

  predicate ExpiresOpen(s: Statement, id: string, before: Row) {
    || (s.ForceExpire? && s.id == id)
    || (s.ExpireStale? && before.request.expiresAt <= s.now)
    || (s.ExpireHash? && s.hash == before.request.requestHash && before.request.expiresAt <= s.now)
  }

  // A statement moves a row along an edge exactly when that edge's guard holds.
  lemma StatusMoves(t: Table, s: Statement, id: string, after: Status)
    requires id in t && after != t[id].status
    ensures id in Step(t, s)
    ensures Step(t, s)[id].status == after <==> Edge(s, id, t[id], after)
  {
  }

  // A row appears only by INSERT, as PENDING, when its hash is free; rows are never removed.
  lemma RowsAppear(t: Table, s: Statement, id: string)
    requires id !in t
    ensures id in Step(t, s) <==>
            s.Insert? && s.id == id && forall j :: j in t && Active(t[j].status) ==> t[j].request.requestHash != s.request.requestHash
    ensures id in Step(t, s) ==> Step(t, s)[id] == Row(s.request, Pending, s.now, s.now, None, None, None, None)
  {
  }

  // What a statement writes into a row it matches, column by column: a decision and an execution leave
  // their data, the sweeper its message, and every statement its time.
  lemma ColumnsWritten(t: Table, s: Statement, id: string)
    requires id in t && Matches(s, id, t[id])
    ensures var before, after := t[id], Step(t, s)[id];
            && after.updatedAt == s.now && after.request == before.request && after.createdAt == before.createdAt
            && after.verdict == (if s.Decide? then Some(Verdict(s.now, s.reason, s.actor)) else before.verdict)
            && after.executedAt == (if s.MarkExecuted? then Some(s.now) else before.executedAt)
            && after.executionResult == (if s.MarkExecuted? then Some(s.result) else before.executionResult)
            && after.executionError == (if s.MarkFailed? then Some(s.error)
                                        else if s.RecoverStale? then Some("Stale EXECUTING approval recovered by sweeper timeout")
                                        else before.executionError)
  {
  }

  // Statements that name one row leave every other row alone.
  lemma OtherRowsUntouched(t: Table, s: Statement, id: string)
    requires id in t
    requires s.Decide? || s.ClaimById? || s.MarkExecuted? || s.MarkFailed? || s.Touch? || s.ForceExpire?
    requires s.id != id
    ensures Step(t, s)[id] == t[id]
  {
  }

  lemma RankGrows(t: Table, s: Statement, id: string)
    requires id in t
    ensures id in Step(t, s)
    ensures Step(t, s)[id].status != t[id].status ==> Rank(t[id].status) < Rank(Step(t, s)[id].status)
    ensures Step(t, s)[id].request == t[id].request
    ensures Step(t, s)[id].createdAt == t[id].createdAt
  {
  }

  // What the optional columns say about the status, in every reachable row.
  predicate RowCoherent(r: Row) {
    && (r.executedAt.Some? <==> r.status.Executed?)
    && (r.executionResult.Some? <==> r.status.Executed?)
    && (r.executionError.Some? <==> r.status.Failed?)
    && (r.status.Pending? ==> r.verdict.None?)
    && (r.status in {Approved, Rejected, Executing, Executed, Failed} ==> r.verdict.Some?)
    && (r.verdict.Some? ==> r.verdict.value.decidedAt < r.request.expiresAt)
  }

  lemma CoherentStep(t: Table, s: Statement)
    requires forall id :: id in t ==> RowCoherent(t[id])
    ensures forall id :: id in Step(t, s) ==> RowCoherent(Step(t, s)[id])
  {
  }

  lemma VerdictStep(t: Table, s: Statement, id: string)
    requires id in t && RowCoherent(t[id]) && t[id].verdict.Some?
    ensures id in Step(t, s) && Step(t, s)[id].verdict == t[id].verdict
  {
  }

  lemma UpdatedAtStep(t: Table, s: Statement, id: string)
    requires id in t
    ensures id in Step(t, s) && Step(t, s)[id].updatedAt in {t[id].updatedAt, s.now}
    ensures Matches(s, id, t[id]) ==> Step(t, s)[id].updatedAt == s.now
  {
  }

  lemma NewRowStamp(t: Table, s: Statement, id: string)
    requires id !in t && id in Step(t, s)
    ensures Step(t, s)[id].updatedAt == s.now
  {
  }

  lemma NoMatchNoChange(t: Table, s: Statement, id: string)
    requires id in t && !Matches(s, id, t[id])
    ensures id in Step(t, s) && Step(t, s)[id] == t[id]
  {
  }
}
