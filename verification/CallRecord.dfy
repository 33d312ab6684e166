/**
 A call told from its log: which key each attempt used, what was reported, when it went on
 to another attempt, and what the pool is left with, whatever other tasks do.
 */
module CallRecord {
  import opened Numbers
  import opened Results
  import opened PoolModel
  import opened Backoff
  import opened Retry

  /** What is worth another attempt: no response at all, or one of four statuses. */
  predicate Transient(o: Outcome) {
    o.Transport? || o.code in {429, 502, 503, 504}
  }

  lemma TransientIsNotFinal(o: Outcome)
    ensures Transient(o) <==> !Final(o)
  {
  }

  /** The pool after attempt number `n`, as its record says: one request counted, one report, and what others did. */
  function After(p: Pool, others: Others, a: Attempt, n: nat): Pool {
    var r := others(2 * n, Acquire(p).1);
    if !Transient(a.outcome) then ReportSuccess(r, a.key)
    else if a.sleep.Some? then others(2 * n + 1, ReportFailure(r, a.key))
    else ReportFailure(r, a.key)
  }

  /** The pool before entry `k` of the log, the first entry being attempt number `from`. */
  function PoolBefore(p: Pool, others: Others, log: seq<Attempt>, from: nat, k: nat): Pool
    requires k <= |log|
    decreases k
  {
    if k == 0 then p else PoolBefore(After(p, others, log[0], from), others, log[1..], from + 1, k - 1)
  }

  /** What makes the call go on after entry `k`. */
  predicate GoesOn(p: Pool, others: Others, maxRetries: u32, base: u64, draws: nat -> nat, from: nat, log: seq<Attempt>, k: nat)
    requires k < |log|
  {
    && Transient(log[k].outcome) && from + k < maxRetries
    && Delay(base, from + k, draws(from + k)).Some?
    && Acquire(PoolBefore(p, others, log, from, k + 1)).0.Some?
  }

  /** Entry `k` records what the pool and the downstream gave that attempt. */
  predicate Recorded(p: Pool, others: Others, maxRetries: u32, base: u64, server: Server, draws: nat -> nat,
                     from: nat, log: seq<Attempt>, k: nat)
    requires k < |log|
  {
    var q := PoolBefore(p, others, log, from, k);
    && Acquire(q).0.Some? && log[k].key == q.keys[Acquire(q).0.value].key
    && log[k].outcome == server(from + k, log[k].key)
    && log[k].sleep == (if Transient(log[k].outcome) && from + k < maxRetries then Delay(base, from + k, draws(from + k)) else None)
    && (k + 1 < |log| <==> GoesOn(p, others, maxRetries, base, draws, from, log, k))
  }

  /** The whole log, and the pool at the end. */
  ghost predicate Explains(p: Pool, others: Others, maxRetries: u32, base: u64, server: Server, draws: nat -> nat,
                           from: nat, f: Finish) {
    && (f.log != [] <==> from <= maxRetries && Acquire(p).0.Some?)
    && (forall k: nat | k < |f.log| :: Recorded(p, others, maxRetries, base, server, draws, from, f.log, k))
    && f.pool == PoolBefore(p, others, f.log, from, |f.log|)
  }

  /** One more attempt in front of a log that explains itself. */
  lemma RecordInFront(p: Pool, others: Others, maxRetries: u32, base: u64, server: Server, draws: nat -> nat,
                      from: nat, a: Attempt, rest: Finish)
    requires Acquire(p).0.Some? && from <= maxRetries
    requires a.key == p.keys[Acquire(p).0.value].key && a.outcome == server(from, a.key)
    requires a.sleep == if Transient(a.outcome) && from < maxRetries then Delay(base, from, draws(from)) else None
    requires Explains(After(p, others, a, from), others, maxRetries, base, server, draws, from + 1, rest)
    requires rest.log != [] <==>
      Transient(a.outcome) && from < maxRetries && Delay(base, from, draws(from)).Some? && Acquire(After(p, others, a, from)).0.Some?
    ensures Explains(p, others, maxRetries, base, server, draws, from, Resume([a], rest))
  {
    hide Acquire, Delay, Transient, After;
    var log := [a] + rest.log;
    var next := After(p, others, a, from);
    assert log[1..] == rest.log;
    forall k: nat | k < |log|
      ensures Recorded(p, others, maxRetries, base, server, draws, from, log, k)
    {
      if k == 0 {
        assert PoolBefore(next, others, rest.log, from + 1, 0) == next;
      } else {
        assert Recorded(next, others, maxRetries, base, server, draws, from + 1, rest.log, k - 1);
        assert log[k] == rest.log[k - 1] && from + k == from + 1 + (k - 1);
      }
    }
  }

  /** A call that ends with its first attempt. */
  lemma LastRecord(p: Pool, others: Others, maxRetries: u32, base: u64, server: Server, draws: nat -> nat,
                   from: nat, a: Attempt, reply: Reply)
    requires Acquire(p).0.Some? && from <= maxRetries
    requires a.key == p.keys[Acquire(p).0.value].key && a.outcome == server(from, a.key)
    requires a.sleep == if Transient(a.outcome) && from < maxRetries then Delay(base, from, draws(from)) else None
    requires !(Transient(a.outcome) && from < maxRetries && Delay(base, from, draws(from)).Some?)
    ensures Explains(p, others, maxRetries, base, server, draws, from, Finish(reply, [a], After(p, others, a, from)))
  {
    hide Acquire, Delay, Transient, After;
    assert PoolBefore(After(p, others, a, from), others, [a][1..], from + 1, 0) == After(p, others, a, from);
  }

  lemma {:induction false} AttemptsExplain(p: Pool, others: Others, maxRetries: u32, base: u64, server: Server, draws: nat -> nat,
                                           from: nat, last: Option<AppError>)
    requires from <= maxRetries + 1
    ensures Explains(p, others, maxRetries, base, server, draws, from,
      Attempts(p, others, maxRetries, base, server, draws, from, last))
    decreases maxRetries + 1 - from
  {
    hide Attempts, Acquire, ReportFailure, ReportSuccess, Delay, Final, Transient, Explains;
    if from == maxRetries + 1 || Acquire(p).0.None? {
      NothingTried(p, others, maxRetries, base, server, draws, from, last);
    } else {
      OneRound(p, others, maxRetries, base, server, draws, from, last);
      var key := p.keys[Acquire(p).0.value].key;
      var outcome := server(from, key);
      TransientIsNotFinal(outcome);
      var delay := Delay(base, from, draws(from));
      if Final(outcome) || delay.None? {
        LastRecord(p, others, maxRetries, base, server, draws, from, Attempt(key, outcome, None),
          Attempts(p, others, maxRetries, base, server, draws, from, last).reply);
      } else {
        var a := Attempt(key, outcome, if from < maxRetries then delay else None);
        var g := After(p, others, a, from);
        var next := Some(Downstream(outcome));
        AttemptsExplain(g, others, maxRetries, base, server, draws, from + 1, next);
        var rest := Attempts(g, others, maxRetries, base, server, draws, from + 1, next);
        TriedIff(g, others, maxRetries, base, server, draws, from + 1, rest);
        RecordInFront(p, others, maxRetries, base, server, draws, from, a, rest);
      }
    }
  }

  lemma TriedIff(p: Pool, others: Others, maxRetries: u32, base: u64, server: Server, draws: nat -> nat, from: nat, f: Finish)
    requires Explains(p, others, maxRetries, base, server, draws, from, f)
    ensures f.log != [] <==> from <= maxRetries && Acquire(p).0.Some?
  {
  }

  lemma NothingTried(p: Pool, others: Others, maxRetries: u32, base: u64, server: Server, draws: nat -> nat,
                     from: nat, last: Option<AppError>)
    requires from == maxRetries + 1 || (from <= maxRetries && Acquire(p).0.None?)
    ensures Explains(p, others, maxRetries, base, server, draws, from,
      Attempts(p, others, maxRetries, base, server, draws, from, last))
  {
    hide Acquire;
  }

  /**
   The exact course of every call, whatever other tasks do. Each attempt uses the key that
   the pool hands out at that time, with every earlier attempt counted and reported: as a
   failure if it was transient, as a success otherwise. Another attempt follows if and only
   if this one was transient, retries are left, the delay can be drawn, and the pool has a
   key; in between the call sleeps that delay. The pool at the end is the one after the
   last report.
   */
  lemma CallIsExact(p: Pool, others: Others, maxRetries: u32, base: u64, server: Server, draws: nat -> nat)
    ensures
      var f := Run(p, others, maxRetries, base, server, draws);
      && (f.log != [] <==> Acquire(p).0.Some?)
      && (forall k: nat | k < |f.log| :: Recorded(p, others, maxRetries, base, server, draws, 0, f.log, k))
      && f.pool == PoolBefore(p, others, f.log, 0, |f.log|)
  {
    hide Attempts, Acquire, Recorded;
    AttemptsExplain(p, others, maxRetries, base, server, draws, 0, None);
  }

  /**
   Which answers a call returns and which it retries: a returned response has none of the
   four statuses, and all attempts before the last, and all attempts of a call that returns
   no response, were transient.
   */
  lemma ReturnsNoTransient(p: Pool, others: Others, maxRetries: u32, base: u64, server: Server, draws: nat -> nat)
    ensures
      var f := Run(p, others, maxRetries, base, server, draws);
      && (f.reply.Returned? ==> f.reply.response.Status? && f.reply.response.code !in {429, 502, 503, 504})
      && forall k | 0 <= k < |f.log| :: (k < |f.log| - 1 || !f.reply.Returned?) ==>
           f.log[k].outcome.Transport? || f.log[k].outcome.code in {429, 502, 503, 504}
  {
    hide Run, Final;
    CallEndsWell(p, others, maxRetries, base, server, draws);
    var f := Run(p, others, maxRetries, base, server, draws);
    if f.reply.Returned? {
      TransientIsNotFinal(f.reply.response);
    }
    forall k | 0 <= k < |f.log|
      ensures Transient(f.log[k].outcome) <==> !Final(f.log[k].outcome)
    {
      TransientIsNotFinal(f.log[k].outcome);
    }
  }

  lemma {:induction false} PoolBeforeNext(p: Pool, others: Others, log: seq<Attempt>, from: nat, k: nat)
    requires k < |log|
    ensures PoolBefore(p, others, log, from, k + 1) == After(PoolBefore(p, others, log, from, k), others, log[k], from + k)
    decreases k
  {
    hide After;
    var next, rest := After(p, others, log[0], from), log[1..];
    if k == 0 {
      assert PoolBefore(next, others, rest, from + 1, 0) == next;
    } else {
      PoolBeforeNext(next, others, rest, from + 1, k - 1);
      assert PoolBefore(p, others, log, from, k) == PoolBefore(next, others, rest, from + 1, k - 1);
    }
  }

  /**
   A returned response clears its key: whatever other tasks do, the entry that carries the
   key when the call ends has no errors; and undisturbed there is such an entry.
   */
  lemma ReturnedKeyIsCleared(p: Pool, others: Others, maxRetries: u32, base: u64, server: Server, draws: nat -> nat)
    requires Run(p, others, maxRetries, base, server, draws).reply.Returned?
    ensures
      var f := Run(p, others, maxRetries, base, server, draws);
      var at := Find(f.pool.keys, f.reply.key);
      && (at.Some? ==> f.pool.keys[at.value].errors == 0)
      && (others == Undisturbed ==> at.Some?)
  {
    hide Run, Final, Acquire, ReportSuccess;
    CallEndsWell(p, others, maxRetries, base, server, draws);
    CallIsExact(p, others, maxRetries, base, server, draws);
    var f := Run(p, others, maxRetries, base, server, draws);
    var k := |f.log| - 1;
    assert Recorded(p, others, maxRetries, base, server, draws, 0, f.log, k);
    PoolBeforeNext(p, others, f.log, 0, k);
    TransientIsNotFinal(f.log[k].outcome);
    var q := PoolBefore(p, others, f.log, 0, k);
    ClearedKey(others(2 * k, Acquire(q).1), f.reply.key);
    if others == Undisturbed {
      AcquireKeepsKeys(q);
    }
  }

  /** report_success leaves the first entry with the key without errors. */
  lemma ClearedKey(p: Pool, key: string)
    ensures Find(ReportSuccess(p, key).keys, key) == Find(p.keys, key)
    ensures Find(p.keys, key).Some? ==> ReportSuccess(p, key).keys[Find(p.keys, key).value].errors == 0
  {
    if Find(p.keys, key).Some? {
      FoundAt(ReportSuccess(p, key).keys, key, Find(p.keys, key).value);
    }
  }

  lemma AcquireKeepsKeys(p: Pool)
    requires Acquire(p).0.Some?
    ensures Find(Acquire(p).1.keys, p.keys[Acquire(p).0.value].key).Some?
  {
    var i := Acquire(p).0.value;
    assert Acquire(p).1.keys[i].key == p.keys[i].key;
  }
}
