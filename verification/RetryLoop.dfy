/** The retry loop as the program runs it, over the pool object. */
module RetryLoop {
  import opened Numbers
  import opened Results
  import opened Backoff
  import M = PoolModel
  import R = Retry
  import K = KeyPoolClass

  /** base * 2^attempt as a release build computes it: every product wraps. */
  method Exponentiate(base: u64, attempt: u32) returns (exponential: u64)
    ensures exponential == Exponential(base, attempt)
  {
    var power: u64 := 1;
    for i := 0 to attempt
      invariant power == Wrap64(Pow2(i))
    {
      WrapFactor(2, Pow2(i));
      power := Wrap64(2 * power);
    }
    exponential := Wrap64(base * power);
  }

  /** calculate_delay: no value for the generator's panic on an empty range. */
  method CalculateDelay(base: u64, attempt: u32, draw: nat) returns (r: Option<u64>)
    ensures r == Delay(base, attempt, draw)
  {
    hide Exponential;
    var exponential: nat := Exponentiate(base, attempt);
    var jitter := exponential / 4;
    var low := if jitter <= exponential then exponential - jitter else 0;
    var high := Wrap64(exponential + jitter);
    if low > high {
      return None;
    }
    return Some(low + draw % (high - low + 1));
  }

  lemma ResumeAppend(log: seq<R.Attempt>, a: R.Attempt, rest: R.Finish)
    ensures R.Resume(log + [a], rest) == R.Resume(log, R.Resume([a], rest))
  {
    assert log + [a] + rest.log == log + ([a] + rest.log);
  }

  lemma ResumeStart(rest: R.Finish)
    ensures R.Resume([], rest) == rest
  {
  }

  lemma ResumeEnd(log: seq<R.Attempt>, reply: R.Reply, pool: M.Pool)
    ensures R.Resume(log, R.Finish(reply, [], pool)) == R.Finish(reply, log, pool)
  {
    assert log + [] == log;
  }

  /** Other tasks keep the cursor below 2^32, as every pool operation does. */
  ghost predicate Tame(others: R.Others) {
    forall when: nat, p: M.Pool | p.cursor < TWO32 :: others(when, p).cursor < TWO32
  }

  lemma StaysTame(pool: K.KeyPool, others: R.Others, when: nat)
    requires pool.Valid() && Tame(others)
    ensures others(when, pool.View()).cursor < TWO32
  {
  }

  /** What other tasks do to the pool while this one waits: it shows `p` afterwards. */
  method Interfere(pool: K.KeyPool, p: M.Pool)
    requires pool.Valid() && p.cursor < TWO32
    modifies pool
    ensures pool.Valid() && pool.View() == p
    ensures pool.keys == old(pool.keys) || fresh(pool.keys)
    ensures p == old(pool.View()) ==> pool.keys == old(pool.keys)
  {
    if pool.View() != p {
      var keys: seq<K.PooledKey> := [];
      for n := 0 to |p.keys|
        invariant |keys| == n && fresh(keys)
        invariant forall i | 0 <= i < n :: keys[i].View() == p.keys[i]
        invariant forall i, j | 0 <= i < j < n :: keys[i] != keys[j]
      {
        var k := new K.PooledKey(p.keys[n].key, p.keys[n].weight);
        k.healthy, k.consecutiveErrors, k.requestCount := p.keys[n].healthy, p.keys[n].errors, p.keys[n].requests;
        keys := keys + [k];
      }
      pool.keys, pool.roundRobinIndex := keys, p.cursor;
    }
  }

  /**
   What both failing arms of the loop do: report the failure, draw the delay (`drawn` is
   false for the panic) and sleep it, unless this was the last attempt.
   */
  method AfterFailure(pool: K.KeyPool, others: R.Others, maxRetries: u32, base: u64, draws: nat -> nat, attempt: u32, key: string)
    returns (drawn: bool, slept: Option<u64>)
    requires pool.Valid() && Tame(others)
    modifies pool, pool.keys
    ensures pool.Valid() && (pool.keys == old(pool.keys) || fresh(pool.keys))
    ensures others == R.Undisturbed ==> pool.keys == old(pool.keys)
    ensures
      var f, delay := M.ReportFailure(old(pool.View()), key), Delay(base, attempt, draws(attempt));
      && drawn == delay.Some?
      && slept == (if attempt < maxRetries then delay else None)
      && pool.View() == if drawn && attempt < maxRetries then others(2 * attempt + 1, f) else f
  {
    hide Delay, M.ReportFailure, K.KeyPool.View, K.KeyPool.Valid, Tame;
    var spawned := pool.ReportFailure(key);
    var delay := CalculateDelay(base, attempt, draws(attempt));
    drawn, slept := delay.Some?, None;
    if drawn && attempt < maxRetries {
      slept := delay;
      StaysTame(pool, others, 2 * attempt + 1);
      Interfere(pool, others(2 * attempt + 1, pool.View()));
    }
  }

  /**
   with_retry. `server` answers the requests, `draws` feeds the jitter, `others` is what
   other tasks do to the pool during each call and each sleep; the log lists the attempts
   made.
   */
  method WithRetry(pool: K.KeyPool, others: R.Others, maxRetries: u32, base: u64, server: R.Server, draws: nat -> nat)
    returns (reply: R.Reply, log: seq<R.Attempt>)
    requires pool.Valid() && Tame(others)
    modifies pool, pool.keys
    ensures pool.Valid()
    ensures R.Finish(reply, log, pool.View()) == R.Run(old(pool.View()), others, maxRetries, base, server, draws)
    ensures others == R.Undisturbed ==> pool.keys == old(pool.keys)
  {
    hide R.Attempts, Delay, M.Acquire, M.ReportSuccess, M.ReportFailure, R.Resume, R.Final, K.KeyPool.View, K.KeyPool.Valid, Tame;
    var lastError: Option<AppError> := None;
    log := [];
    ghost var whole := R.Run(pool.View(), others, maxRetries, base, server, draws);
    ResumeStart(whole);
    for attempt := 0 to maxRetries + 1
      invariant pool.Valid() && (pool.keys == old(pool.keys) || fresh(pool.keys))
      invariant others == R.Undisturbed ==> pool.keys == old(pool.keys)
      invariant whole == R.Resume(log, R.Attempts(pool.View(), others, maxRetries, base, server, draws, attempt, lastError))
    {
      R.OneRound(pool.View(), others, maxRetries, base, server, draws, attempt, lastError);
      var acquired := pool.AcquireKey();
      if acquired.Err? {
        ResumeEnd(log, R.GaveUp(NoKeysAvailable), pool.View());
        return R.GaveUp(NoKeysAvailable), log;
      }
      var key := acquired.value;
      var outcome := server(attempt, key);
      StaysTame(pool, others, 2 * attempt);
      Interfere(pool, others(2 * attempt, pool.View()));
      if R.Final(outcome) {
        pool.ReportSuccess(key);
        EndWith(log, R.Attempt(key, outcome, None), R.Returned(outcome, key), pool.View());
        return R.Returned(outcome, key), log + [R.Attempt(key, outcome, None)];
      }
      var drawn, slept := AfterFailure(pool, others, maxRetries, base, draws, attempt, key);
      if !drawn {
        EndWith(log, R.Attempt(key, outcome, None), R.Panicked, pool.View());
        return R.Panicked, log + [R.Attempt(key, outcome, None)];
      }
      lastError := Some(Downstream(outcome));
      ResumeAppend(log, R.Attempt(key, outcome, slept),
        R.Attempts(pool.View(), others, maxRetries, base, server, draws, attempt + 1, lastError));
      log := log + [R.Attempt(key, outcome, slept)];
    }
    R.AfterLastRound(pool.View(), others, maxRetries, base, server, draws, lastError);
    reply := R.GaveUp(if lastError.Some? then lastError.value else Internal("exhausted retries"));
    ResumeEnd(log, reply, pool.View());
  }

  lemma EndWith(log: seq<R.Attempt>, a: R.Attempt, reply: R.Reply, pool: M.Pool)
    ensures R.Resume(log, R.Finish(reply, [a], pool)) == R.Finish(reply, log + [a], pool)
  {
  }
}
