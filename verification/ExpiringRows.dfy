// Tables whose rows expire, and the garbage collector that removes expired rows oldest first,
// a batch at a time.
module ExpiringRows {
  datatype Row<V> = Row(value: V, expiresAt: int)

  type Table<V> = map<string, Row<V>>

  // A call at a moment of the database clock, in milliseconds.
  datatype Timed<C> = Timed(now: int, call: C)

  predicate ClockRuns<C>(now: int, calls: seq<Timed<C>>)
    decreases |calls|
  {
    |calls| == 0 || (now <= calls[0].now && ClockRuns(calls[0].now, calls[1..]))
  }

  // What the collector may remove.
  function Expired<V>(rows: Table<V>, now: int): set<string> {
    set k | k in rows && rows[k].expiresAt < now
  }

  // The rows one cleanup removes: expired ones, as many as the batch allows, none of them
  // younger than an expired row that stays. Which of equally old rows go first is open.
  predicate IsBatch<V>(rows: Table<V>, now: int, batchSize: nat, gone: set<string>) {
    && gone <= Expired(rows, now)
    && |gone| <= batchSize
    && (gone == Expired(rows, now) || |gone| == batchSize)
    && (forall g, k :: g in gone && k in Expired(rows, now) - gone ==> rows[g].expiresAt <= rows[k].expiresAt)
  }

  // a is b without some rows that have expired.
  ghost predicate Hides<V>(a: Table<V>, b: Table<V>, now: int) {
    && (forall k :: k in a ==> k in b && a[k] == b[k])
    && (forall k :: k in b && k !in a ==> b[k].expiresAt < now)
  }

  lemma HidesLater<V>(a: Table<V>, b: Table<V>, now: int, later: int)
    requires Hides(a, b, now) && now <= later
    ensures Hides(a, b, later)
  {
  }

  lemma CleanupHides<V>(a: Table<V>, b: Table<V>, now: int, batchSize: nat, gone: set<string>)
    requires Hides(a, b, now) && IsBatch(a, now, batchSize, gone)
    ensures Hides(a - gone, b, now)
  {
  }

  // Each cleanup brings the number of expired rows down by a full batch, or to zero.
  lemma CleanupCounts<V>(rows: Table<V>, now: int, batchSize: nat, gone: set<string>)
    requires IsBatch(rows, now, batchSize, gone)
    ensures Expired(rows - gone, now) == Expired(rows, now) - gone
    ensures |Expired(rows - gone, now)| == if |Expired(rows, now)| <= batchSize then 0 else |Expired(rows, now)| - batchSize
  {
    var all := Expired(rows, now);
    assert Expired(rows - gone, now) == all - gone;
    assert all == gone + (all - gone);
    assert |all| == |gone| + |all - gone|;
  }

  // A chain of cleanups at one moment.
  ghost predicate Sweeps<V>(tables: seq<Table<V>>, now: int, batchSize: nat) {
    forall k :: 0 <= k < |tables| - 1 ==> Swept(tables[k], tables[k + 1], now, batchSize)
  }

  ghost predicate Swept<V>(a: Table<V>, b: Table<V>, now: int, batchSize: nat) {
    exists gone :: IsBatch(a, now, batchSize, gone) && b == a - gone
  }

  // Repeated cleanups leave no expired row, after as many batches as the rows fill, and
  // never touch a row that has not expired.
  lemma {:induction false} SweepsFinish<V>(tables: seq<Table<V>>, now: int, batchSize: nat, n: nat)
    requires Sweeps(tables, now, batchSize) && n < |tables|
    ensures |Expired(tables[n], now)| == if |Expired(tables[0], now)| <= n * batchSize then 0 else |Expired(tables[0], now)| - n * batchSize
    ensures forall k :: k in tables[0] && tables[0][k].expiresAt >= now ==> k in tables[n] && tables[n][k] == tables[0][k]
  {
    if n > 0 {
      SweepsFinish(tables, now, batchSize, n - 1);
      assert Swept(tables[n - 1], tables[n], now, batchSize);
      var gone :| IsBatch(tables[n - 1], now, batchSize, gone) && tables[n] == tables[n - 1] - gone;
      CleanupCounts(tables[n - 1], now, batchSize, gone);
      assert n * batchSize == (n - 1) * batchSize + batchSize;
      assert forall k :: k in tables[n - 1] && tables[n - 1][k].expiresAt >= now ==> k !in gone;
    }
  }

  // The delete statement: the oldest expired row, again and again up to the batch size.
  method DeleteExpired<V>(rows: Table<V>, now: int, batchSize: nat) returns (left: Table<V>, gone: set<string>)
    ensures IsBatch(rows, now, batchSize, gone) && left == rows - gone
    ensures forall g :: g in gone ==> g in rows && rows[g].expiresAt < now
    ensures forall g, k :: g in gone && k in left && rows[k].expiresAt < now ==> rows[g].expiresAt <= rows[k].expiresAt
  {
    left, gone := rows, {};
    while |gone| < batchSize && Expired(left, now) != {}
      invariant gone <= Expired(rows, now) && |gone| <= batchSize && left == rows - gone
      invariant forall g, k :: g in gone && k in Expired(rows, now) - gone ==> rows[g].expiresAt <= rows[k].expiresAt
      decreases batchSize - |gone|
    {
      var oldest := Oldest(left, Expired(left, now));
      assert Expired(left, now) == Expired(rows, now) - gone;
      left, gone := left - {oldest}, gone + {oldest};
    }
    assert Expired(left, now) == Expired(rows, now) - gone;
  }

  method Oldest<V>(rows: Table<V>, keys: set<string>) returns (oldest: string)
    requires keys != {} && forall k :: k in keys ==> k in rows
    ensures oldest in keys && forall k :: k in keys ==> rows[oldest].expiresAt <= rows[k].expiresAt
  {
    oldest :| oldest in keys;
    var rest := keys - {oldest};
    while rest != {}
      invariant rest <= keys && oldest in keys
      invariant forall k :: k in keys - rest ==> rows[oldest].expiresAt <= rows[k].expiresAt
      decreases |rest|
    {
      var k :| k in rest;
      if rows[k].expiresAt < rows[oldest].expiresAt {
        oldest := k;
      }
      rest := rest - {k};
    }
  }
}
