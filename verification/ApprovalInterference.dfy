// createOrGetPending as a process: its three statements, one at a time, with any
// statements of other processes in between.
module ApprovalInterference {
  import opened Wrappers
  import opened ApprovalTable
  import opened ApprovalRepository

  // Where one call stands. A retry keeps the clock value its INSERT used.
  datatype Call =
    | Inserting(retry: nat)
    | Finding(retry: nat, now: int)
    | Expiring(retry: nat)
    | Returned(created: bool, id: string)
    | Threw(failure: Failure)

  datatype Move =
    | Own(id: string, now: int)      // the call's next statement; id is the random id drawn
    | Other(statement: Statement)    // any statement of any other process

  datatype World = World(table: Table, call: Call)

  predicate Done(c: Call) {
    c.Returned? || c.Threw?
  }

  ghost predicate OwnStep(w: World, v: World, request: Request, id: string, now: int) {
    match w.call
    case Inserting(retry) =>
      var busy := HashBusy(w.table, request.requestHash);
      && v.table == Step(w.table, Insert(id, request, now))
      && v.call == (if busy then Finding(retry, now)
                    else if id in w.table then Threw(DuplicateId)
                    else Returned(true, id))
    case Finding(retry, t) =>
      && v.table == w.table
      && (if exists i :: i in w.table && Usable(w.table[i], request.requestHash, t)
          then v.call.Returned? && !v.call.created && v.call.id in w.table
               && Usable(w.table[v.call.id], request.requestHash, t)
          else v.call == if retry >= MAX_RETRIES then Threw(RetriesExhausted) else Expiring(retry))
    case Expiring(retry) =>
      && v.table == Step(w.table, ExpireHash(request.requestHash, now))
      && v.call == Inserting(retry + 1)
    case _ => v == w
  }

  ghost predicate MoveStep(w: World, v: World, request: Request, m: Move) {
    match m
    case Own(id, now) => !Done(w.call) && OwnStep(w, v, request, id, now)
    case Other(s) => v.table == Step(w.table, s) && v.call == w.call
  }

  // A history of one call: it starts with its first INSERT still to come.
  ghost predicate History(ws: seq<World>, request: Request, moves: seq<Move>) {
    && |ws| == |moves| + 1
    && ws[0].call == Inserting(0)
    && forall k :: 0 <= k < |moves| ==> MoveStep(ws[k], ws[k + 1], request, moves[k])
  }

  function Count(moves: seq<Move>): nat {
    if moves == [] then 0 else Count(moves[..|moves| - 1]) + (if moves[|moves| - 1].Own? then 1 else 0)
  }

  // How many INSERTs the call has sent.
  function Inserts(ws: seq<World>, moves: seq<Move>): nat
    requires |ws| == |moves| + 1
  {
    var n := |moves| - 1;
    if moves == [] then 0
    else Inserts(ws[..n + 1], moves[..n]) + (if moves[n].Own? && ws[n].call.Inserting? then 1 else 0)
  }

  // An upper bound on the statements the call may still send.
  function Left(c: Call): int {
    match c
    case Inserting(retry) => 3 * (MAX_RETRIES - retry) + 2
    case Finding(retry, _) => 3 * (MAX_RETRIES - retry) + 1
    case Expiring(retry) => 3 * (MAX_RETRIES - retry)
    case _ => 0
  }

  function InsertsLeft(c: Call): int {
    match c
    case Inserting(retry) => MAX_RETRIES - retry + 1
    case Finding(retry, _) => MAX_RETRIES - retry
    case Expiring(retry) => MAX_RETRIES - retry
    case _ => 0
  }

  predicate RetryBound(c: Call) {
    match c
    case Inserting(retry) => retry <= MAX_RETRIES
    case Finding(retry, _) => retry <= MAX_RETRIES
    case Expiring(retry) => retry < MAX_RETRIES
    case _ => true
  }

  // Whatever the others do, the call sends at most four INSERTs and eleven
  // statements in all, and then it has returned or thrown.
  lemma {:induction false} AtMostFourAttempts(ws: seq<World>, request: Request, moves: seq<Move>)
    requires History(ws, request, moves)
    ensures RetryBound(ws[|moves|].call)
    ensures Inserts(ws, moves) + InsertsLeft(ws[|moves|].call) <= MAX_RETRIES + 1
    ensures Count(moves) + Left(ws[|moves|].call) <= 11
    ensures Count(moves) == 11 ==> Done(ws[|moves|].call)
    decreases |moves|
  {
    if moves != [] {
      var n := |moves| - 1;
      HistoryPrefix(ws, request, moves);
      AtMostFourAttempts(ws[..n + 1], request, moves[..n]);
      OneMove(ws[n], ws[n + 1], request, moves[n]);
    }
  }

  lemma HistoryPrefix(ws: seq<World>, request: Request, moves: seq<Move>)
    requires History(ws, request, moves) && moves != []
    ensures History(ws[..|moves|], request, moves[..|moves| - 1])
  {
  }

  lemma OneMove(w: World, v: World, request: Request, m: Move)
    requires MoveStep(w, v, request, m) && RetryBound(w.call)
    ensures RetryBound(v.call)
    ensures Left(v.call) + (if m.Own? then 1 else 0) <= Left(w.call)
    ensures InsertsLeft(v.call) + (if m.Own? && w.call.Inserting? then 1 else 0) <= InsertsLeft(w.call)
  {
  }

  // What the call knows while it looks for a row: its own INSERT found the hash busy at that clock.
  lemma {:induction false} LookupFollowsInsert(ws: seq<World>, request: Request, moves: seq<Move>) returns (j: nat)
    requires History(ws, request, moves) && ws[|moves|].call.Finding?
    ensures j < |moves| && moves[j].Own? && ws[j].call == Inserting(ws[|moves|].call.retry)
    ensures moves[j].now == ws[|moves|].call.now && HashBusy(ws[j].table, request.requestHash)
    decreases |moves|
  {
    var n := |moves| - 1;
    assert MoveStep(ws[n], ws[n + 1], request, moves[n]);
    if ws[n].call.Finding? {
      HistoryPrefix(ws, request, moves);
      j := LookupFollowsInsert(ws[..n + 1], request, moves[..n]);
    } else {
      j := n;
    }
  }

  // What a finished call hands back was right at one moment k of its history: either the row it
  // inserted then, on a free hash, or a row found then that was open and not overdue at the
  // clock of the call's last INSERT, or executing, after that INSERT had met a busy hash.
  lemma {:induction false} ReturnsTheRightRow(ws: seq<World>, request: Request, moves: seq<Move>) returns (k: nat, j: nat)
    requires History(ws, request, moves) && ws[|moves|].call.Returned?
    ensures var c := ws[|moves|].call;
            && j <= k < |moves| && moves[k].Own? && ws[k + 1].call == c && c.id in ws[k + 1].table
            && moves[j].Own? && ws[j].call.Inserting?
            && (c.created ==>
                  && j == k && !HashBusy(ws[k].table, request.requestHash) && c.id !in ws[k].table
                  && ws[k + 1].table == ws[k].table[c.id := Row(request, Pending, moves[k].now, moves[k].now, None, None, None, None)])
            && (!c.created ==>
                  && HashBusy(ws[j].table, request.requestHash)
                  && c.id in ws[k].table && Usable(ws[k].table[c.id], request.requestHash, moves[j].now))
    decreases |moves|
  {
    var n := |moves| - 1;
    assert MoveStep(ws[n], ws[n + 1], request, moves[n]);
    HistoryPrefix(ws, request, moves);
    if ws[n].call.Returned? {
      k, j := ReturnsTheRightRow(ws[..n + 1], request, moves[..n]);
    } else {
      k, j := n, n;
      if ws[n].call.Finding? {
        j := LookupFollowsInsert(ws[..n + 1], request, moves[..n]);
      }
    }
  }

  // It creates only when the hash was free, so the call itself keeps the index.
  lemma CreatesOnlyWhenFree(ws: seq<World>, request: Request, moves: seq<Move>, k: nat)
    requires History(ws, request, moves) && k < |moves| && UniqueActive(ws[k].table)
    ensures UniqueActive(ws[k + 1].table)
    ensures ws[k + 1].call.Returned? && ws[k + 1].call.created && !Done(ws[k].call) ==>
              !HashBusy(ws[k].table, request.requestHash)
  {
    assert MoveStep(ws[k], ws[k + 1], request, moves[k]);
    match moves[k] {
      case Other(s) =>
        UniqueActiveStep(ws[k].table, s);
      case Own(id, now) =>
        UniqueActiveStep(ws[k].table, Insert(id, request, now));
        UniqueActiveStep(ws[k].table, ExpireHash(request.requestHash, now));
    }
  }

  // Every active row of the hash is open and overdue at `now`.
  ghost predicate OnlyOverdue(t: Table, hash: string, now: int) {
    && HashBusy(t, hash)
    && forall id :: id in t && t[id].request.requestHash == hash && Active(t[id].status) ==> Overdue(t[id], now)
  }

  // Both bounds are reached: a rival that re-inserts an already overdue request
  // after each clean-up makes the call spend all its attempts and throw.
  lemma {:induction false} RivalExhaustsRetries(
    request: Request, rival: Request, w: World, rivals: seq<string>, now: int)
    returns (ws: seq<World>, moves: seq<Move>)
    requires w.call.Inserting? && w.call.retry <= MAX_RETRIES && |rivals| == MAX_RETRIES - w.call.retry
    requires OnlyOverdue(w.table, request.requestHash, now)
    requires rival.requestHash == request.requestHash && rival.expiresAt <= now
    requires forall i :: 0 <= i < |rivals| ==> rivals[i] !in w.table
    requires forall i, j :: 0 <= i < j < |rivals| ==> rivals[i] != rivals[j]
    ensures |ws| == |moves| + 1 && ws[0] == w
    ensures forall k :: 0 <= k < |moves| ==> MoveStep(ws[k], ws[k + 1], request, moves[k])
    ensures ws[|moves|].call == Threw(RetriesExhausted)
    ensures Count(moves) == Left(w.call) && Inserts(ws, moves) == InsertsLeft(w.call)
    decreases |rivals|
  {
    hide Count, Inserts;
    var retry := w.call.retry;
    var w1 := World(w.table, Finding(retry, now));
    var own := Own("", now);
    assert MoveStep(w, w1, request, own);
    CountOne(own);
    if retry == MAX_RETRIES {
      var w2 := World(w.table, Threw(RetriesExhausted));
      assert MoveStep(w1, w2, request, own);
      ws, moves := [w, w1, w2], [own, own];
      CountAppend([own], [own]);
      assert moves == [own] + [own];
      InsertsStart(w2);
      InsertsCons(w1, own, [w2], []);
      InsertsCons(w, own, [w1, w2], [own]);
      assert [w1] + [w2] == [w1, w2] && [w] + [w1, w2] == ws && [own] + [] == [own];
    } else {
      var w2 := World(w.table, Expiring(retry));
      var w3 := World(Step(w.table, ExpireHash(request.requestHash, now)), Inserting(retry + 1));
      var insert := Insert(rivals[0], rival, now);
      var w4 := World(Step(w3.table, insert), Inserting(retry + 1));
      assert MoveStep(w1, w2, request, own);
      assert MoveStep(w2, w3, request, own);
      assert MoveStep(w3, w4, request, Other(insert));
      assert rivals[0] in w4.table && Active(w4.table[rivals[0]].status);
      var ws', moves' := RivalExhaustsRetries(request, rival, w4, rivals[1..], now);
      var front := [own, own, own, Other(insert)];
      ws, moves := [w, w1, w2, w3] + ws', front + moves';
      RoundCounts(w, w1, w2, w3, ws', own, Other(insert), moves');
      forall k | 0 <= k < |moves|
        ensures MoveStep(ws[k], ws[k + 1], request, moves[k])
      {
        if k >= 4 {
          assert MoveStep(ws'[k - 4], ws'[k - 3], request, moves'[k - 4]);
        }
      }
    }
  }

  // One round of the rival: three statements of the call, one of them an INSERT.
  lemma RoundCounts(w: World, w1: World, w2: World, w3: World, ws: seq<World>, own: Move, other: Move, moves: seq<Move>)
    requires |ws| == |moves| + 1 && own.Own? && other.Other?
    requires w.call.Inserting? && w1.call.Finding? && w2.call.Expiring?
    ensures Count([own, own, own, other] + moves) == 3 + Count(moves)
    ensures Inserts([w, w1, w2, w3] + ws, [own, own, own, other] + moves) == 1 + Inserts(ws, moves)
  {
    hide Count, Inserts;
    var front := [own, own, own, other];
    CountAppend(front, moves);
    CountAppend([own, own, own], [other]);
    CountAppend([own, own], [own]);
    CountAppend([own], [own]);
    CountOne(own);
    CountOne(other);
    assert front == [own, own, own] + [other] && [own, own, own] == [own, own] + [own] && [own, own] == [own] + [own];
    var v3, m3 := [w3] + ws, [other] + moves;
    var v2, m2 := [w2] + v3, [own] + m3;
    var v1, m1 := [w1] + v2, [own] + m2;
    InsertsCons(w3, other, ws, moves);
    InsertsCons(w2, own, v3, m3);
    InsertsCons(w1, own, v2, m2);
    InsertsCons(w, own, v1, m1);
    assert [w, w1, w2, w3] + ws == [w] + v1 && front + moves == [own] + m1;
  }

  lemma InsertsStart(w: World)
    ensures Inserts([w], []) == 0
  {
  }

  // Counting from the front.
  lemma {:induction false} InsertsCons(w: World, m: Move, ws: seq<World>, moves: seq<Move>)
    requires |ws| == |moves| + 1
    ensures Inserts([w] + ws, [m] + moves) == (if m.Own? && w.call.Inserting? then 1 else 0) + Inserts(ws, moves)
    decreases |moves|
  {
    var n := |moves|;
    var us, ms := [w] + ws, [m] + moves;
    if n == 0 {
      assert us[..1] == [w] && ms[..0] == [];
      assert us[0] == w && ms[0] == m;
    } else {
      InsertsCons(w, m, ws[..n], moves[..n - 1]);
      assert us[..n + 1] == [w] + ws[..n] && ms[..n] == [m] + moves[..n - 1];
    }
  }

  lemma CountOne(m: Move)
    ensures Count([m]) == if m.Own? then 1 else 0
  {
    assert [m][..0] == [];
  }

  lemma {:induction false} CountAppend(a: seq<Move>, b: seq<Move>)
    ensures Count(a + b) == Count(a) + Count(b)
  {
    if b == [] {
      assert a + b == a;
    } else {
      var n := |b| - 1;
      CountAppend(a, b[..n]);
      assert (a + b)[..|a + b| - 1] == a + b[..n];
    }
  }
}
