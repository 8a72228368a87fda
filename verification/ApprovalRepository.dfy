// ApprovalRepository as a class over the table. Every method states its whole new
// table: through the statement it sends, and through the rows it reports.
module ApprovalRepository {
  import opened Wrappers
  import opened ApprovalTable

  // What one attempt of createOrGetPending draws from outside: a random id, the
  // client clock, and the database clock of the clean-up statement.
  datatype Attempt = Attempt(id: string, now: int, dbNow: int)

  datatype Outcome = Outcome(created: bool, id: string, row: Row)

  datatype Failure = DuplicateId | RetriesExhausted

  const MAX_RETRIES := 3

  // The rows findFirst selects from: open and not overdue, or executing.
  predicate Usable(r: Row, hash: string, now: int) {
    && r.request.requestHash == hash
    && (((r.status.Pending? || r.status.Approved?) && now < r.request.expiresAt) || r.status.Executing?)
  }

  class Repository {
    var rows: Table

    constructor ()
      ensures rows == map[]
    {
      rows := map[];
    }

    // INSERT ... ON CONFLICT ... DO NOTHING RETURNING *; a repeated primary key is an error.
    method InsertPending(id: string, request: Request, now: int) returns (r: Result<bool, Failure>)
      modifies this
      ensures rows == Step(old(rows), Insert(id, request, now))
      ensures r == Ok(true) <==> old(!HashBusy(rows, request.requestHash) && id !in rows)
      ensures r.Err? <==> old(!HashBusy(rows, request.requestHash) && id in rows)
      ensures r.Err? ==> r.error == DuplicateId
      ensures r == Ok(true) ==> rows == old(rows)[id := Row(request, Pending, now, now, None, None, None, None)]
      ensures r != Ok(true) ==> rows == old(rows)
    {
      if HashBusy(rows, request.requestHash) {
        return Ok(false);
      }
      if id in rows {
        return Err(DuplicateId);
      }
      rows := rows[id := NewRow(request, now)];
      return Ok(true);
    }

    // findFirst({ requestHash, active and not overdue }, orderBy createdAt desc).
    method FindUsable(hash: string, now: int) returns (r: Option<string>)
      ensures r.Some? ==> r.value in rows && Usable(rows[r.value], hash, now)
      ensures r.Some? ==> forall id :: id in rows && Usable(rows[id], hash, now) ==>
                                         rows[id].createdAt <= rows[r.value].createdAt
      ensures r.None? ==> forall id :: id in rows ==> !Usable(rows[id], hash, now)
    {
      var left := rows.Keys;
      r := None;
      while left != {}
        invariant left <= rows.Keys
        invariant r.Some? ==> r.value in rows && Usable(rows[r.value], hash, now)
        invariant r.Some? ==> forall id :: id in rows && id !in left && Usable(rows[id], hash, now) ==>
                                             rows[id].createdAt <= rows[r.value].createdAt
        invariant r.None? ==> forall id :: id in rows && id !in left ==> !Usable(rows[id], hash, now)
        decreases left
      {
        var id :| id in left;
        if Usable(rows[id], hash, now) && (r.None? || rows[r.value].createdAt < rows[id].createdAt) {
          r := Some(id);
        }
        left := left - {id};
      }
    }

    // One attempt of createOrGetPending: the INSERT, then the lookup.
    method TryOnce(request: Request, attempt: Attempt) returns (r: Result<Option<Outcome>, Failure>)
      modifies this
      ensures r.Err? <==> old(!HashBusy(rows, request.requestHash) && attempt.id in rows)
      ensures r.Err? ==> r.error == DuplicateId
      ensures r.Ok? && r.value.Some? && r.value.value.created <==>
              old(!HashBusy(rows, request.requestHash) && attempt.id !in rows)
      ensures r.Ok? && r.value.Some? && r.value.value.created ==>
                && rows == old(rows)[attempt.id := r.value.value.row] && r.value.value.id == attempt.id
                && r.value.value.row == Row(request, Pending, attempt.now, attempt.now, None, None, None, None)
      ensures r.Ok? && r.value.Some? && !r.value.value.created ==>
                && rows == old(rows) && r.value.value.id in rows && r.value.value.row == rows[r.value.value.id]
                && Usable(r.value.value.row, request.requestHash, attempt.now)
      ensures r.Err? || r.value.None? ==> rows == old(rows)
      ensures r.Ok? && r.value.None? ==> forall id :: id in rows ==> !Usable(rows[id], request.requestHash, attempt.now)
    {
      var inserted := InsertPending(attempt.id, request, attempt.now);
      if inserted.Err? {
        return Err(inserted.error);
      }
      if inserted.value {
        return Ok(Some(Outcome(true, attempt.id, rows[attempt.id])));
      }
      var existing := FindUsable(request.requestHash, attempt.now);
      if existing.Some? {
        return Ok(Some(Outcome(false, existing.value, rows[existing.value])));
      }
      return Ok(None);
    }

    // createOrGetPending, running alone. On a running clock and with fresh ids it
    // never throws and needs at most one retry, whatever the table holds.
    method CreateOrGetPending(request: Request, retryCount: nat, attempts: seq<Attempt>)
      returns (r: Result<Outcome, Failure>, ghost used: nat)
      requires retryCount <= MAX_RETRIES && |attempts| == MAX_RETRIES + 1 - retryCount
      modifies this
      ensures 1 <= used <= |attempts|
      ensures r.Ok? ==> r.value.id in rows && r.value.row == rows[r.value.id]
      ensures r.Ok? && r.value.created ==>
                && r.value.id == attempts[used - 1].id && r.value.id !in old(rows)
                && var now := attempts[used - 1].now;
                r.value.row == Row(request, Pending, now, now, None, None, None, None)
      ensures r.Ok? && !r.value.created ==>
                r.value.id in old(rows) && Usable(r.value.row, request.requestHash, attempts[used - 1].now)
      ensures forall id :: id in old(rows) ==>
                && id in rows
                && (rows[id] == old(rows)[id] || ExpiredBy(old(rows)[id], rows[id], request.requestHash, attempts))
      ensures old(!HashBusy(rows, request.requestHash)) && attempts[0].id !in old(rows) ==> r.Ok? && used == 1
      ensures Solo(attempts, retryCount, old(rows)) ==> r.Ok? && used <= 2
      ensures old(rows).Keys <= rows.Keys <= old(rows).Keys + {attempts[used - 1].id}
      decreases |attempts|
    {
      hide Usable, ExpiredBy, HashBusy, Step;
      var attempt := attempts[0];
      var first := TryOnce(request, attempt);
      if first.Err? {
        return Err(first.error), 1;
      }
      if first.value.Some? {
        return Ok(first.value.value), 1;
      }
      if retryCount >= MAX_RETRIES {
        return Err(RetriesExhausted), 1;
      }
      ExpireHash(request.requestHash, attempt.dbNow);
      CleanUpExpires(old(rows), request.requestHash, attempts);
      if attempt.now <= attempt.dbNow {
        HashFreed(old(rows), request.requestHash, attempt.now, attempt.dbNow);
      }
      ghost var expired := rows;
      ghost var more;
      r, more := CreateOrGetPending(request, retryCount + 1, attempts[1..]);
      used := more + 1;
      forall id | id in old(rows)
        ensures id in rows && (rows[id] == old(rows)[id] || ExpiredBy(old(rows)[id], rows[id], request.requestHash, attempts))
      {
        ExpiredTwice(old(rows)[id], expired[id], rows[id], request.requestHash, attempts);
      }
    }

    // UPDATE ... SET status = 'EXPIRED' WHERE request_hash = ... AND overdue.
    method ExpireHash(hash: string, now: int)
      modifies this
      ensures rows == Step(old(rows), ApprovalTable.ExpireHash(hash, now))
      ensures rows.Keys == old(rows).Keys
      ensures forall id :: id in old(rows) ==>
                var r := old(rows)[id];
                rows[id] == if r.request.requestHash == hash && r.status in {Pending, Approved} && r.request.expiresAt <= now
                            then r.(status := Expired, updatedAt := now) else r
    {
      rows := map id | id in rows ::
        if rows[id].request.requestHash == hash && Overdue(rows[id], now)
        then rows[id].(status := Expired, updatedAt := now) else rows[id];
    }

    method Decide(id: string, decision: Decision, actor: Actor, reason: Option<string>, now: int)
      returns (r: Option<Row>)
      modifies this
      ensures rows == Step(old(rows), ApprovalTable.Decide(id, decision, actor, reason, now))
      ensures r.Some? <==> id in old(rows) && old(rows)[id].status.Pending? && now < old(rows)[id].request.expiresAt
      ensures r.Some? ==>
                && rows == old(rows)[id := r.value] && r.value.request == old(rows)[id].request
                && r.value.status == (if decision.Approve? then Approved else Rejected)
                && r.value.verdict == Some(Verdict(now, reason, actor)) && r.value.updatedAt == now
      ensures r.None? ==> rows == old(rows)
    {
      if id !in rows || !rows[id].status.Pending? || rows[id].request.expiresAt <= now {
        assert rows == Step(rows, ApprovalTable.Decide(id, decision, actor, reason, now));
        return None;
      }
      var row := rows[id].(status := if decision.Approve? then Approved else Rejected,
                           verdict := Some(Verdict(now, reason, actor)), updatedAt := now);
      rows := rows[id := row];
      return Some(row);
    }

    // The first claimed row, if any.
    method ClaimApprovedForExecution(hash: string, now: int) returns (r: Option<Row>)
      modifies this
      ensures rows == Step(old(rows), ClaimByHash(hash, now))
      ensures r.None? <==> forall id :: id in old(rows) && old(rows)[id].request.requestHash == hash ==> !Claimable(old(rows)[id], now)
      ensures old(UniqueActive(rows)) && r.Some? ==>
                exists id :: id in old(rows) && rows == old(rows)[id := r.value] && Claimable(old(rows)[id], now)
                             && r.value == old(rows)[id].(status := Executing, updatedAt := now)
      ensures r.None? ==> rows == old(rows)
    {
      var claimed := set id | id in rows && rows[id].request.requestHash == hash && Claimable(rows[id], now);
      rows := map id | id in rows ::
        if id in claimed then rows[id].(status := Executing, updatedAt := now) else rows[id];
      if claimed == {} {
        assert forall id :: id in old(rows) ==> id !in claimed;
        return None;
      }
      var id :| id in claimed;
      assert id in old(rows) && old(rows)[id].request.requestHash == hash && Claimable(old(rows)[id], now);
      r := Some(rows[id]);
      if old(UniqueActive(rows)) {
        assert rows == old(rows)[id := r.value];
      }
    }

    method ClaimApprovedForExecutionById(id: string, now: int) returns (r: Option<Row>)
      modifies this
      ensures rows == Step(old(rows), ClaimById(id, now))
      ensures r.Some? <==> id in old(rows) && Claimable(old(rows)[id], now)
      ensures r.Some? ==> rows == old(rows)[id := r.value] && r.value == old(rows)[id].(status := Executing, updatedAt := now)
      ensures r.None? ==> rows == old(rows)
    {
      if id !in rows || !rows[id].status.Approved? || rows[id].request.expiresAt <= now {
        assert rows == Step(rows, ClaimById(id, now));
        return None;
      }
      var row := rows[id].(status := Executing, updatedAt := now);
      rows := rows[id := row];
      return Some(row);
    }

    method MarkExecuted(id: string, result: string, now: int) returns (r: Option<Row>)
      modifies this
      ensures rows == Step(old(rows), ApprovalTable.MarkExecuted(id, result, now))
      ensures r.Some? <==> id in old(rows) && old(rows)[id].status.Executing?
      ensures r.Some? ==>
                && rows == old(rows)[id := r.value] && r.value.request == old(rows)[id].request
                && r.value.status.Executed? && r.value.executionResult == Some(result) && r.value.executedAt == Some(now)
      ensures r.None? ==> rows == old(rows)
    {
      if id !in rows || !rows[id].status.Executing? {
        assert rows == Step(rows, ApprovalTable.MarkExecuted(id, result, now));
        return None;
      }
      var row := rows[id].(status := Executed, executedAt := Some(now), executionResult := Some(result), updatedAt := now);
      rows := rows[id := row];
      return Some(row);
    }

    method MarkFailed(id: string, error: string, now: int) returns (r: Option<Row>)
      modifies this
      ensures rows == Step(old(rows), ApprovalTable.MarkFailed(id, error, now))
      ensures r.Some? <==> id in old(rows) && old(rows)[id].status.Executing?
      ensures r.Some? ==>
                && rows == old(rows)[id := r.value] && r.value.request == old(rows)[id].request
                && r.value.status.Failed? && r.value.executionError == Some(error)
      ensures r.None? ==> rows == old(rows)
    {
      if id !in rows || !rows[id].status.Executing? {
        assert rows == Step(rows, ApprovalTable.MarkFailed(id, error, now));
        return None;
      }
      var row := rows[id].(status := Failed, executionError := Some(error), updatedAt := now);
      rows := rows[id := row];
      return Some(row);
    }

    method TouchExecuting(id: string, now: int) returns (r: Option<Row>)
      modifies this
      ensures rows == Step(old(rows), Touch(id, now))
      ensures r.Some? <==> id in old(rows) && old(rows)[id].status.Executing?
      ensures r.Some? ==> rows == old(rows)[id := r.value] && r.value == old(rows)[id].(updatedAt := now)
      ensures r.None? ==> rows == old(rows)
    {
      if id !in rows || !rows[id].status.Executing? {
        assert rows == Step(rows, Touch(id, now));
        return None;
      }
      var row := rows[id].(updatedAt := now);
      rows := rows[id := row];
      return Some(row);
    }

    method ExpireStale(now: int) returns (expired: map<string, Row>)
      modifies this
      ensures rows == Step(old(rows), ApprovalTable.ExpireStale(now))
      ensures expired.Keys == set id | id in old(rows) && Overdue(old(rows)[id], now)
      ensures forall id :: id in expired ==> expired[id] == rows[id] == old(rows)[id].(status := Expired, updatedAt := now)
    {
      expired := map id | id in rows && Overdue(rows[id], now) :: rows[id].(status := Expired, updatedAt := now);
      rows := rows + expired;
    }

    method RecoverStaleExecuting(staleBefore: int, now: int) returns (recovered: map<string, Row>)
      modifies this
      ensures rows == Step(old(rows), RecoverStale(staleBefore, now))
      ensures recovered.Keys == set id | id in old(rows) && old(rows)[id].status.Executing? && old(rows)[id].updatedAt <= staleBefore
      ensures forall id :: id in recovered ==>
                recovered[id] == rows[id] == old(rows)[id].(status := Failed, executionError := Some(STALE_MESSAGE), updatedAt := now)
    {
      recovered := map id | id in rows && rows[id].status.Executing? && rows[id].updatedAt <= staleBefore ::
        rows[id].(status := Failed, executionError := Some(STALE_MESSAGE), updatedAt := now);
      rows := rows + recovered;
    }

    method ForceExpire(id: string, now: int)
      modifies this
      ensures rows == Step(old(rows), ApprovalTable.ForceExpire(id, now))
      ensures id in old(rows) && Active(old(rows)[id].status) ==>
                rows == old(rows)[id := old(rows)[id].(status := Expired, updatedAt := now)]
      ensures id !in old(rows) || !Active(old(rows)[id].status) ==> rows == old(rows)
      ensures id in rows ==> !Active(rows[id].status)
    {
      if id in rows && Active(rows[id].status) {
        rows := rows[id := rows[id].(status := Expired, updatedAt := now)];
      } else {
        assert rows == Step(rows, ApprovalTable.ForceExpire(id, now));
      }
    }
  }

  // An overdue open row of this hash, expired by the clean-up of one of the attempts.
  predicate ExpiredBy(before: Row, after: Row, hash: string, attempts: seq<Attempt>) {
    && before.request.requestHash == hash
    && exists a :: a in attempts && Overdue(before, a.dbNow) && after == before.(status := Expired, updatedAt := a.dbNow)
  }

  lemma CleanUpExpires(t: Table, hash: string, attempts: seq<Attempt>)
    requires attempts != []
    ensures var u := Step(t, ExpireHash(hash, attempts[0].dbNow));
            && u.Keys == t.Keys
            && forall id :: id in t ==> u[id] == t[id] || ExpiredBy(t[id], u[id], hash, attempts)
  {
    assert attempts[0] in attempts;
  }

  lemma ExpiredTwice(a: Row, b: Row, c: Row, hash: string, attempts: seq<Attempt>)
    requires attempts != []
    requires b == a || ExpiredBy(a, b, hash, attempts)
    requires c == b || ExpiredBy(b, c, hash, attempts[1..])
    ensures c == a || ExpiredBy(a, c, hash, attempts)
  {
    assert forall x :: x in attempts[1..] ==> x in attempts;
  }

  // The conditions of a solo run: a first attempt or a later one with a retry left.
  predicate Solo(attempts: seq<Attempt>, retryCount: nat, rows: Table) {
    retryCount < MAX_RETRIES && forall a :: a in attempts ==> a.now <= a.dbNow && a.id !in rows
  }

  // Once the lookup has found nothing usable, the clean-up frees the hash.
  lemma HashFreed(t: Table, hash: string, now: int, dbNow: int)
    requires now <= dbNow
    requires forall id :: id in t ==> !Usable(t[id], hash, now)
    ensures !HashBusy(Step(t, ExpireHash(hash, dbNow)), hash)
  {
  }

  /* ---------- list(): pages of one ordered query result ---------- */

  datatype Page = Page(requests: seq<Row>, page: int, pageSize: int, hasMore: bool)

  function AtLeastOne(n: int): nat {
    if n < 1 then 1 else n
  }

  // findMany({ skip, take: size + 1 }) on the ordered matching rows, then slice.
  function ListPage(matching: seq<Row>, page: int, pageSize: int): Page {
    var p, size := AtLeastOne(page), AtLeastOne(pageSize);
    var fetched := Fetch(matching, (p - 1) * size, size + 1);
    Page(if |fetched| < size then fetched else fetched[..size], p, size, |fetched| > size)
  }

  function Fetch(all: seq<Row>, skip: nat, take: nat): seq<Row> {
    if skip >= |all| then []
    else if skip + take >= |all| then all[skip..]
    else all[skip..skip + take]
  }

  // The requests of pages 1..n, one after the other.
  function Pages(matching: seq<Row>, n: nat, pageSize: int): seq<Row> {
    if n == 0 then [] else Pages(matching, n - 1, pageSize) + ListPage(matching, n, pageSize).requests
  }

  // Reading pages in order yields every matching row once and in order, and hasMore
  // says exactly whether rows remain.
  lemma {:induction false} PagesListEverything(matching: seq<Row>, n: nat, pageSize: int)
    requires n >= 1
    ensures Pages(matching, n, pageSize) == FirstRows(matching, n * AtLeastOne(pageSize))
    ensures ListPage(matching, n, pageSize).hasMore <==> n * AtLeastOne(pageSize) < |matching|
    ensures ListPage(matching, n, pageSize).page == n
    ensures ListPage(matching, n, pageSize).pageSize == if pageSize >= 1 then pageSize else 1
  {
    var size := AtLeastOne(pageSize);
    var skip := (n - 1) * size;
    assert n * size == skip + size;
    OnePage(matching, skip, size);
    if n == 1 {
      assert skip == 0 && Pages(matching, 0, pageSize) == [];
    } else {
      PagesListEverything(matching, n - 1, pageSize);
    }
  }

  // The list at each of several reads: rows only arrive, at the front.
  ghost predicate Arriving(lists: seq<seq<Row>>) {
    forall k :: 0 < k < |lists| ==>
      |lists[k - 1]| <= |lists[k]| && lists[k][|lists[k]| - |lists[k - 1]|..] == lists[k - 1]
  }

  // Where a row of the first list stands at a later read.
  lemma {:induction false} StandsFurtherBack(lists: seq<seq<Row>>, k: nat, i: nat)
    requires Arriving(lists) && k < |lists| && i < |lists[0]|
    ensures |lists[0]| <= |lists[k]| && lists[k][i + |lists[k]| - |lists[0]|] == lists[0][i]
  {
    if k > 0 {
      StandsFurtherBack(lists, k - 1, i);
      var d := |lists[k]| - |lists[k - 1]|;
      assert lists[k][d..][i + |lists[k - 1]| - |lists[0]|] == lists[k][i + |lists[k]| - |lists[0]|];
    }
  }

  // Reading page after page until hasMore is false, while rows arrive in between, skips no row that was
  // there at the first read.
  lemma NoneSkipped(lists: seq<seq<Row>>, pageSize: int, i: nat) returns (k: nat)
    requires lists != [] && Arriving(lists) && i < |lists[0]|
    requires !ListPage(lists[|lists| - 1], |lists|, pageSize).hasMore
    ensures k < |lists| && lists[0][i] in ListPage(lists[k], k + 1, pageSize).requests
  {
    hide ListPage;
    LastPageEnds(lists[|lists| - 1], |lists|, pageSize);
    k := PageOnward(lists, pageSize, i, 0);
  }

  lemma LastPageEnds(all: seq<Row>, n: nat, pageSize: int)
    requires n >= 1 && !ListPage(all, n, pageSize).hasMore
    ensures |all| <= (n - 1) * AtLeastOne(pageSize) + AtLeastOne(pageSize)
  {
    OnePage(all, (n - 1) * AtLeastOne(pageSize), AtLeastOne(pageSize));
  }

  // From one read to the next a row never moves forward, and the pages move on by one.
  lemma {:induction false} PageOnward(lists: seq<seq<Row>>, pageSize: int, i: nat, from: nat) returns (k: nat)
    requires Arriving(lists) && from < |lists| && i < |lists[0]|
    requires |lists[0]| <= |lists[from]| && from * AtLeastOne(pageSize) <= i + |lists[from]| - |lists[0]|
    requires |lists[|lists| - 1]| <= (|lists| - 1) * AtLeastOne(pageSize) + AtLeastOne(pageSize)
    ensures k < |lists| && lists[0][i] in ListPage(lists[k], k + 1, pageSize).requests
    decreases |lists| - from
  {
    hide ListPage;
    var size, at := AtLeastOne(pageSize), i + |lists[from]| - |lists[0]|;
    StandsFurtherBack(lists, from, i);
    if at < from * size + size {
      k := from;
      InItsPage(lists[from], from + 1, pageSize, at);
    } else {
      assert (from + 1) * size == from * size + size;
      assert |lists[from]| <= |lists[from + 1]|;
      k := PageOnward(lists, pageSize, i, from + 1);
    }
  }

  lemma InItsPage(all: seq<Row>, page: nat, pageSize: int, at: nat)
    requires page >= 1 && at < |all|
    requires (page - 1) * AtLeastOne(pageSize) <= at < (page - 1) * AtLeastOne(pageSize) + AtLeastOne(pageSize)
    ensures all[at] in ListPage(all, page, pageSize).requests
  {
    var size := AtLeastOne(pageSize);
    var skip := (page - 1) * size;
    assert AtLeastOne(page) == page;
    assert ListPage(all, page, pageSize).requests[at - skip] == all[at];
  }

  // But a row can be listed twice: one arrival pushes it onto the next page.
  lemma OneListedTwice(earlier: Row, later: Row)
    ensures Arriving([[earlier], [later, earlier]])
    ensures earlier in ListPage([earlier], 1, 1).requests && earlier in ListPage([later, earlier], 2, 1).requests
  {
    assert [later, earlier][1..] == [earlier];
    InItsPage([earlier], 1, 1, 0);
    InItsPage([later, earlier], 2, 1, 1);
  }

  function FirstRows(all: seq<Row>, n: nat): seq<Row> {
    if n < |all| then all[..n] else all
  }

  lemma OnePage(all: seq<Row>, skip: nat, size: nat)
    requires size >= 1
    ensures var fetched := Fetch(all, skip, size + 1);
            && FirstRows(all, skip) + (if |fetched| < size then fetched else fetched[..size]) == FirstRows(all, skip + size)
            && (|fetched| > size <==> skip + size < |all|)
  {
  }
}
