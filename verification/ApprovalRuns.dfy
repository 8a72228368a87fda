// Runs: any interleaving, by any number of processes, of the statements of
// ApprovalTable on one table that starts empty.
module ApprovalRuns {
  import opened ApprovalTable

  // The table after the first k statements of a run.
  function After(run: seq<Statement>, k: nat): Table
    requires k <= |run|
  {
    if k == 0 then map[] else Step(After(run, k - 1), run[k - 1])
  }

  ghost predicate Has(run: seq<Statement>, k: nat, id: string, s: Status)
    requires k <= |run|
  {
    id in After(run, k) && After(run, k)[id].status == s
  }

  // Statement k of the run moves this request from some other state to s.
  ghost predicate Enters(run: seq<Statement>, k: nat, id: string, s: Status)
    requires k < |run|
  {
    Has(run, k + 1, id, s) && !Has(run, k, id, s)
  }

  ghost predicate Leaves(run: seq<Statement>, k: nat, id: string, s: Status)
    requires k < |run|
  {
    Has(run, k, id, s) && !Has(run, k + 1, id, s)
  }

  lemma {:induction false} UniqueActiveAlways(run: seq<Statement>, k: nat)
    requires k <= |run|
    ensures UniqueActive(After(run, k))
  {
    if k > 0 {
      UniqueActiveAlways(run, k - 1);
      UniqueActiveStep(After(run, k - 1), run[k - 1]);
    }
  }

  // claimApprovedForExecution returns rows[0] only; there is never a rows[1].
  lemma ClaimReturnsEveryClaimedRow(run: seq<Statement>, k: nat, hash: string, now: int, a: string, b: string)
    requires k <= |run|
    requires a in Returned(After(run, k), ClaimByHash(hash, now))
    requires b in Returned(After(run, k), ClaimByHash(hash, now))
    ensures a == b
  {
    UniqueActiveAlways(run, k);
    ClaimMovesAtMostOne(After(run, k), hash, now, a, b);
  }

  // Between any two moments the rank never falls, an unchanged rank means an
  // unchanged status, and the request itself and its creation time are constant.
  lemma {:induction false} RankNeverFalls(run: seq<Statement>, j: nat, k: nat, id: string)
    requires j <= k <= |run| && id in After(run, j)
    ensures id in After(run, k)
    ensures Rank(After(run, j)[id].status) <= Rank(After(run, k)[id].status)
    ensures Rank(After(run, j)[id].status) == Rank(After(run, k)[id].status) ==>
              After(run, j)[id].status == After(run, k)[id].status
    ensures After(run, j)[id].request == After(run, k)[id].request
    ensures After(run, j)[id].createdAt == After(run, k)[id].createdAt
    decreases k
  {
    if j < k {
      RankNeverFalls(run, j, k - 1, id);
      RankGrows(After(run, k - 1), run[k - 1], id);
    }
  }

  lemma FinalStatusIsForever(run: seq<Statement>, j: nat, k: nat, id: string)
    requires j <= k <= |run| && id in After(run, j) && !Active(After(run, j)[id].status)
    ensures id in After(run, k) && After(run, k)[id].status == After(run, j)[id].status
  {
    RankNeverFalls(run, j, k, id);
  }

  // A decision, once written, is never overwritten or erased.
  lemma {:induction false} VerdictIsWrittenOnce(run: seq<Statement>, j: nat, k: nat, id: string)
    requires j <= k <= |run| && id in After(run, j) && After(run, j)[id].verdict.Some?
    ensures id in After(run, k) && After(run, k)[id].verdict == After(run, j)[id].verdict
    decreases k
  {
    hide Step;
    if j < k {
      VerdictIsWrittenOnce(run, j, k - 1, id);
      CoherentAlways(run, k - 1);
      VerdictStep(After(run, k - 1), run[k - 1], id);
    }
  }

  lemma {:induction false} CoherentAlways(run: seq<Statement>, k: nat)
    requires k <= |run|
    ensures forall id :: id in After(run, k) ==> RowCoherent(After(run, k)[id])
  {
    if k > 0 {
      CoherentAlways(run, k - 1);
      CoherentStep(After(run, k - 1), run[k - 1]);
    }
  }

  lemma EntersOnce(run: seq<Statement>, j: nat, k: nat, id: string, s: Status)
    requires j < |run| && k < |run| && Enters(run, j, id, s) && Enters(run, k, id, s)
    ensures j == k
  {
    if j < k {
      EntersBefore(run, j, k, id, s);
    } else if k < j {
      EntersBefore(run, k, j, id, s);
    }
  }

  lemma EntersBefore(run: seq<Statement>, j: nat, k: nat, id: string, s: Status)
    requires j < k < |run| && Enters(run, j, id, s)
    ensures !Enters(run, k, id, s)
  {
    hide After;
    RankNeverFalls(run, j + 1, k, id);
    RankNeverFalls(run, k, k + 1, id);
  }

  lemma LeavesOnce(run: seq<Statement>, j: nat, k: nat, id: string, s: Status)
    requires j < |run| && k < |run| && Leaves(run, j, id, s) && Leaves(run, k, id, s)
    ensures j == k
  {
    hide After;
    if j < k {
      RankNeverFalls(run, j, j + 1, id);
      RankNeverFalls(run, j + 1, k, id);
    } else if k < j {
      RankNeverFalls(run, k, k + 1, id);
      RankNeverFalls(run, k + 1, j, id);
    }
  }

  // Statement j is a successful approval of this very row.
  ghost predicate ApprovedBy(run: seq<Statement>, j: nat, id: string)
    requires j < |run|
  {
    && run[j].Decide? && run[j].id == id && run[j].decision.Approve?
    && Has(run, j, id, Pending)
    && run[j].now < After(run, j)[id].request.expiresAt
  }

  // Every request that is approved, executing or has been executed was approved, earlier.
  lemma {:induction false} ApprovalPrecedes(run: seq<Statement>, k: nat, id: string) returns (j: nat)
    requires k <= |run| && id in After(run, k)
    requires After(run, k)[id].status in {Approved, Executing, Executed, Failed}
    ensures j < k && ApprovedBy(run, j, id)
    ensures Enters(run, j, id, Approved)
  {
    if id in After(run, k - 1) && After(run, k - 1)[id].status in {Approved, Executing, Executed, Failed} {
      j := ApprovalPrecedes(run, k - 1, id);
    } else {
      j := k - 1;
      if id in After(run, j) {
        StatusMoves(After(run, j), run[j], id, After(run, k)[id].status);
      }
    }
  }

  // The main safety property: a request starts executing at most once, by a claim
  // made before it expired, after exactly one approval, which came before it expired.
  lemma ExecutionNeedsOneApproval(run: seq<Statement>, k: nat, id: string) returns (j: nat)
    requires k < |run| && Enters(run, k, id, Executing)
    ensures id in After(run, k)
    ensures run[k].ClaimById? || run[k].ClaimByHash?
    ensures run[k].now < After(run, k)[id].request.expiresAt
    ensures j < k && ApprovedBy(run, j, id)
    ensures forall i :: 0 <= i < |run| && ApprovedBy(run, i, id) ==> i == j
    ensures forall i :: 0 <= i < |run| && Enters(run, i, id, Executing) ==> i == k
  {
    if id in After(run, k) {
      StatusMoves(After(run, k), run[k], id, Executing);
    }
    j := ApprovalPrecedes(run, k + 1, id);
    forall i | 0 <= i < |run| && ApprovedBy(run, i, id)
      ensures i == j
    {
      assert Enters(run, i, id, Approved);
      EntersOnce(run, i, j, id, Approved);
    }
    forall i | 0 <= i < |run| && Enters(run, i, id, Executing)
      ensures i == k
    {
      EntersOnce(run, i, k, id, Executing);
    }
  }

  // Execution ends at most once, by one of exactly four statements, and for good.
  lemma ExecutionEndsOnce(run: seq<Statement>, k: nat, id: string)
    requires k < |run| && Leaves(run, k, id, Executing)
    ensures id in After(run, k + 1)
    ensures || (run[k].MarkExecuted? && run[k].id == id && Has(run, k + 1, id, Executed))
            || (run[k].MarkFailed? && run[k].id == id && Has(run, k + 1, id, Failed))
            || (run[k].RecoverStale? && Has(run, k + 1, id, Failed))
            || (run[k].ForceExpire? && run[k].id == id && Has(run, k + 1, id, Expired))
    ensures forall i :: 0 <= i < |run| && Leaves(run, i, id, Executing) ==> i == k
    ensures forall i :: k < i <= |run| ==> id in After(run, i) && After(run, i)[id].status == After(run, k + 1)[id].status
  {
    RankNeverFalls(run, k, k + 1, id);
    StatusMoves(After(run, k), run[k], id, After(run, k + 1)[id].status);
    forall i | 0 <= i < |run| && Leaves(run, i, id, Executing)
      ensures i == k
    {
      LeavesOnce(run, i, k, id, Executing);
    }
    forall i | k < i <= |run|
      ensures id in After(run, i) && After(run, i)[id].status == After(run, k + 1)[id].status
    {
      FinalStatusIsForever(run, k + 1, i, id);
    }
  }

  /* ---------- heartbeats and the two sweepers, on one non-decreasing clock ---------- */

  ghost predicate ClockRuns(run: seq<Statement>) {
    forall i, j :: 0 <= i <= j < |run| ==> run[i].now <= run[j].now
  }

  lemma {:induction false} UpdatedAtGrows(run: seq<Statement>, j: nat, k: nat, id: string)
    requires ClockRuns(run) && j <= k <= |run| && id in After(run, j)
    ensures id in After(run, k) && After(run, j)[id].updatedAt <= After(run, k)[id].updatedAt
    ensures forall i :: 0 <= i < |run| && k <= i ==> After(run, k)[id].updatedAt <= run[i].now
    decreases k
  {
    hide Step;
    if j < k {
      UpdatedAtGrows(run, j, k - 1, id);
      UpdatedAtStep(After(run, k - 1), run[k - 1], id);
    }
    UpdatedBefore(run, k, id);
  }

  lemma {:induction false} UpdatedBefore(run: seq<Statement>, k: nat, id: string)
    requires ClockRuns(run) && k <= |run| && id in After(run, k)
    ensures forall i :: 0 <= i < |run| && k <= i ==> After(run, k)[id].updatedAt <= run[i].now
  {
    hide Step;
    if k > 0 {
      if id in After(run, k - 1) {
        UpdatedBefore(run, k - 1, id);
        UpdatedAtStep(After(run, k - 1), run[k - 1], id);
      } else {
        NewRowStamp(After(run, k - 1), run[k - 1], id);
      }
    }
  }

  // A claim or heartbeat at time h shields the execution from every later sweep
  // whose horizon lies before h.
  lemma HeartbeatShields(run: seq<Statement>, j: nat, k: nat, id: string)
    requires ClockRuns(run) && j < k < |run|
    requires run[j].Touch? || run[j].ClaimById? || run[j].ClaimByHash?
    requires id in After(run, j) && Matches(run[j], id, After(run, j)[id])
    requires run[k].RecoverStale? && run[k].staleBefore < run[j].now
    ensures id in After(run, k) && After(run, k + 1)[id] == After(run, k)[id]
  {
    hide Step;
    UpdatedAtStep(After(run, j), run[j], id);
    UpdatedAtGrows(run, j + 1, k, id);
    NoMatchNoChange(After(run, k), run[k], id);
  }

  // The other direction: an execution whose last sign of life is not after the
  // horizon is failed by the sweep.
  lemma SilentExecutionRecovered(run: seq<Statement>, k: nat, id: string)
    requires k < |run| && run[k].RecoverStale? && Has(run, k, id, Executing)
    ensures Has(run, k + 1, id, Failed) <==> After(run, k)[id].updatedAt <= run[k].staleBefore
  {
  }

  // After an expiry sweep no open request is overdue at the time of the sweep.
  lemma SweepExpiresAllOverdue(run: seq<Statement>, k: nat, id: string)
    requires k < |run| && run[k].ExpireStale? && id in After(run, k + 1)
    ensures !Overdue(After(run, k + 1)[id], run[k].now)
  {
  }
}
