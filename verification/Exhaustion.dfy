/** How many failing attempts a pool can absorb: exactly its potential. */
module Exhaustion {
  import opened Numbers
  import opened Results
  import opened PoolModel
  import opened Backoff
  import opened Retry
  import Bookkeeping

  /**
   Failures a key still takes before it trips, if it can be chosen at all. A healthy key
   caught with three or more errors trips at the next one, except that one at the top of
   its counter wraps to no errors and then takes three more.
   */
  function Lives(k: KeyState): nat {
    if !k.healthy || k.weight == 0 then 0
    else if k.errors < 3 then 3 - k.errors
    else if k.errors + 1 == TWO32 then 4
    else 1
  }

  /** A failure costs a key that can be chosen exactly one life. */
  lemma FailureCostsALife(k: KeyState)
    requires k.healthy && k.weight != 0
    ensures Lives(Failed(Served(k))) == Lives(k) - 1
  {
  }

  function LivesOf(keys: seq<KeyState>, n: nat): nat
    requires n <= |keys|
  {
    if n == 0 then 0 else LivesOf(keys, n - 1) + Lives(keys[n - 1])
  }

  /** The potential of a pool: the lives of all its keys. */
  function Potential(keys: seq<KeyState>): nat {
    LivesOf(keys, |keys|)
  }

  lemma {:induction false} LivesAfterStore(keys: seq<KeyState>, i: nat, k: KeyState, n: nat)
    requires i < |keys| && n <= |keys|
    ensures LivesOf(keys[i := k], n) == LivesOf(keys, n) + if i < n then Lives(k) - Lives(keys[i]) else 0
  {
    if n > 0 {
      LivesAfterStore(keys, i, k, n - 1);
    }
  }

  lemma {:induction false} SharesAfterStore(keys: seq<KeyState>, i: nat, k: KeyState, n: nat)
    requires i < |keys| && n <= |keys|
    ensures Prefix(keys[i := k], n) == Prefix(keys, n) + if i < n then Share(k) - Share(keys[i]) else 0
  {
    if n > 0 {
      SharesAfterStore(keys, i, k, n - 1);
    }
  }

  /** There are lives left exactly when there are slots left. */
  lemma {:induction false} LivesIffShares(keys: seq<KeyState>, n: nat)
    requires n <= |keys|
    ensures LivesOf(keys, n) == 0 <==> Prefix(keys, n) == 0
  {
    if n > 0 {
      LivesIffShares(keys, n - 1);
    }
  }

  /** What an exhaustion argument needs of the pool, and keeps through every failing attempt. */
  predicate Ready(p: Pool) {
    DistinctKeys(p.keys) && Total(p.keys) < TWO32
  }

  /** The pool after one failing attempt. */
  function AfterFailure(p: Pool): Pool
    requires Acquire(p).0.Some?
  {
    ReportFailure(Acquire(p).1, p.keys[Acquire(p).0.value].key)
  }

  /** An attempt is possible exactly while there is potential; a failing one costs exactly one. */
  lemma FailureCostsOne(p: Pool)
    requires Ready(p)
    ensures Acquire(p).0.None? <==> Potential(p.keys) == 0
    ensures Acquire(p).0.Some? ==> Ready(AfterFailure(p)) && Potential(AfterFailure(p).keys) == Potential(p.keys) - 1
  {
    LivesIffShares(p.keys, |p.keys|);
    if Acquire(p).0.Some? {
      OneFailure(p, Acquire(p).0.value);
    }
  }

  lemma OneFailure(p: Pool, i: nat)
    requires Ready(p) && Acquire(p).0 == Some(i)
    ensures
      var keys := AfterFailure(p).keys;
      Ready(AfterFailure(p)) && Potential(keys) == Potential(p.keys) - 1
  {
    var k := p.keys[i];
    var q := Acquire(p).1;
    assert q.keys == p.keys[i := Served(k)];
    FindServed(p.keys, i);
    var failed := Failed(Served(k));
    assert AfterFailure(p).keys == p.keys[i := failed];
    LivesAfterStore(p.keys, i, failed, |p.keys|);
    SharesAfterStore(p.keys, i, failed, |p.keys|);
    StoreKeepsDistinct(p.keys, i, failed);
    FailureCostsALife(k);
  }

  /** Counting a request does not change where a key is found. */
  lemma FindServed(keys: seq<KeyState>, i: nat)
    requires DistinctKeys(keys) && i < |keys|
    ensures Find(keys[i := Served(keys[i])], keys[i].key) == Some(i)
  {
    StoreKeepsDistinct(keys, i, Served(keys[i]));
    FindDistinct(keys[i := Served(keys[i])], i);
  }

  lemma StoreKeepsDistinct(keys: seq<KeyState>, i: nat, k: KeyState)
    requires DistinctKeys(keys) && i < |keys| && k.key == keys[i].key
    ensures DistinctKeys(keys[i := k])
  {
    var keys' := keys[i := k];
    forall a, b | 0 <= a < b < |keys'|
      ensures keys'[a].key != keys'[b].key
    {
      assert keys[a].key != keys[b].key;
    }
  }

  /** Every attempt from `attempt` on fails, with whatever key. */
  ghost predicate AlwaysFails(server: Server) {
    forall attempt: nat, key: string :: !Final(server(attempt, key))
  }

  lemma {:induction false} ExhaustionFrom(p: Pool, maxRetries: u32, base: u64, server: Server, draws: nat -> nat,
                                          attempt: nat, last: Option<AppError>)
    requires Ready(p) && AlwaysFails(server) && attempt <= maxRetries + 1
    requires NoPanics(base, draws, attempt, attempt + Least(maxRetries + 1 - attempt, Potential(p.keys)))
    ensures
      var f := Attempts(p, Undisturbed, maxRetries, base, server, draws, attempt, last);
      var left := maxRetries + 1 - attempt;
      && |f.log| == Least(left, Potential(p.keys))
      && Potential(f.pool.keys) == Potential(p.keys) - |f.log|
      && (left > Potential(p.keys) ==> f.reply == GaveUp(NoKeysAvailable))
      && (0 < left <= Potential(p.keys) ==> f.reply == GaveUp(Downstream(f.log[|f.log| - 1].outcome)))
      && (left == 0 ==> f.reply == GaveUp(if last.Some? then last.value else Internal("exhausted retries")))
    decreases maxRetries + 1 - attempt
  {
    hide Attempts, Acquire, ReportFailure, ReportSuccess, Delay, Ready, Potential, AlwaysFails, Final;
    if attempt > maxRetries {
      AfterLastRound(p, Undisturbed, maxRetries, base, server, draws, last);
    } else {
      FailureCostsOne(p);
      OneRound(p, Undisturbed, maxRetries, base, server, draws, attempt, last);
      if Acquire(p).0.Some? {
        var key := p.keys[Acquire(p).0.value].key;
        Fails(server, attempt, key);
        ExhaustionFrom(AfterFailure(p), maxRetries, base, server, draws, attempt + 1, Some(Downstream(server(attempt, key))));
      }
    }
  }

  lemma Fails(server: Server, attempt: nat, key: string)
    requires AlwaysFails(server)
    ensures !Final(server(attempt, key))
  {
  }

  /** The delays of attempts from, ..., to - 1 can be drawn. */
  predicate NoPanics(base: u64, draws: nat -> nat, from: nat, to: nat) {
    forall attempt: nat | from <= attempt < to :: Delay(base, attempt, draws(attempt)).Some?
  }

  /** Delays that fit in 64 bits can be drawn. */
  lemma RepresentableNeverPanics(base: u64, draws: nat -> nat, attempts: nat)
    requires attempts == 0 || Representable(base, attempts - 1)
    ensures NoPanics(base, draws, 0, attempts)
  {
    forall attempt: nat | attempt < attempts
      ensures Delay(base, attempt, draws(attempt)).Some?
    {
      RepresentableEarlier(base, attempt, attempts - 1);
      DelayBounds(base, attempt, draws(attempt));
    }
  }

  /**
   Exact exhaustion. On any pool with distinct keys and total weight below 2^32, with every
   attempt failing and no other task touching the pool, a call makes exactly
   n = min(maxRetries + 1, P) attempts, P being the pool's potential, provided the delays of
   these n attempts can be drawn (see Backoff.PanicsIff); it reports that no keys are
   available if and only if P <= maxRetries, and the last downstream error otherwise; and the
   pool keeps P minus the attempts made.
   */
  lemma ExactExhaustion(p: Pool, maxRetries: u32, base: u64, server: Server, draws: nat -> nat)
    requires Ready(p) && AlwaysFails(server)
    requires NoPanics(base, draws, 0, Least(maxRetries + 1, Potential(p.keys)))
    ensures
      var f := Run(p, Undisturbed, maxRetries, base, server, draws);
      && |f.log| == Least(maxRetries + 1, Potential(p.keys))
      && (f.reply == GaveUp(NoKeysAvailable) <==> Potential(p.keys) <= maxRetries)
      && (Potential(p.keys) > maxRetries ==> f.reply == GaveUp(Downstream(f.log[|f.log| - 1].outcome)))
      && Potential(f.pool.keys) == Potential(p.keys) - |f.log|
  {
    ExhaustionFrom(p, maxRetries, base, server, draws, 0, None);
  }

  /** The same, told from the configuration: the largest delay of the last attempt fits in 64 bits. */
  lemma ExactExhaustionWithinRange(p: Pool, maxRetries: u32, base: u64, server: Server, draws: nat -> nat)
    requires Ready(p) && AlwaysFails(server) && Representable(base, maxRetries)
    ensures
      var f := Run(p, Undisturbed, maxRetries, base, server, draws);
      && |f.log| == Least(maxRetries + 1, Potential(p.keys))
      && (f.reply == GaveUp(NoKeysAvailable) <==> Potential(p.keys) <= maxRetries)
      && (Potential(p.keys) > maxRetries ==> f.reply == GaveUp(Downstream(f.log[|f.log| - 1].outcome)))
      && Potential(f.pool.keys) == Potential(p.keys) - |f.log|
  {
    hide Representable;
    RepresentableNeverPanics(base, draws, maxRetries + 1);
    ExactExhaustion(p, maxRetries, base, server, draws);
  }

  lemma {:induction false} PanicsFrom(p: Pool, maxRetries: u32, base: u64, server: Server, draws: nat -> nat,
                                      attempt: nat, last: Option<AppError>)
    requires Ready(p) && AlwaysFails(server) && attempt <= maxRetries + 1
    requires !NoPanics(base, draws, attempt, attempt + Least(maxRetries + 1 - attempt, Potential(p.keys)))
    ensures Attempts(p, Undisturbed, maxRetries, base, server, draws, attempt, last).reply == Panicked
    decreases maxRetries + 1 - attempt
  {
    hide Attempts, Acquire, ReportFailure, ReportSuccess, Delay, Ready, Potential, AlwaysFails, Final;
    FailureCostsOne(p);
    OneRound(p, Undisturbed, maxRetries, base, server, draws, attempt, last);
    var key := p.keys[Acquire(p).0.value].key;
    Fails(server, attempt, key);
    if Delay(base, attempt, draws(attempt)).Some? {
      PanicsFrom(AfterFailure(p), maxRetries, base, server, draws, attempt + 1, Some(Downstream(server(attempt, key))));
    }
  }

  /** In the same setting a call panics if and only if some delay of those n attempts cannot be drawn. */
  lemma PanicsExactly(p: Pool, maxRetries: u32, base: u64, server: Server, draws: nat -> nat)
    requires Ready(p) && AlwaysFails(server)
    ensures Run(p, Undisturbed, maxRetries, base, server, draws).reply == Panicked
      <==> !NoPanics(base, draws, 0, Least(maxRetries + 1, Potential(p.keys)))
  {
    if NoPanics(base, draws, 0, Least(maxRetries + 1, Potential(p.keys))) {
      ExactExhaustion(p, maxRetries, base, server, draws);
    } else {
      PanicsFrom(p, maxRetries, base, server, draws, 0, None);
    }
  }

  // ---------------------------------------------------------------- requests made by a call

  lemma AcquireCounts(p: Pool)
    requires Acquire(p).0.Some?
    ensures Wrap32(Bookkeeping.Requests(Acquire(p).1.keys)) == Wrap32(Bookkeeping.Requests(p.keys) + 1)
  {
    var i := Acquire(p).0.value;
    Bookkeeping.RequestsAfterStore(p.keys, i, Served(p.keys[i]));
    Bookkeeping.WrapServed(Bookkeeping.Requests(p.keys), p.keys[i].requests);
  }

  lemma ReportsDoNotCount(p: Pool, key: string)
    ensures Bookkeeping.Requests(ReportSuccess(p, key).keys) == Bookkeeping.Requests(p.keys)
    ensures Bookkeeping.Requests(ReportFailure(p, key).keys) == Bookkeeping.Requests(p.keys)
  {
    var at := Find(p.keys, key);
    if at.Some? {
      Bookkeeping.RequestsAfterStore(p.keys, at.value, Cleared(p.keys[at.value]));
      Bookkeeping.RequestsAfterStore(p.keys, at.value, Failed(p.keys[at.value]));
    }
  }

  lemma {:induction false} CountsFrom(p: Pool, maxRetries: u32, base: u64, server: Server, draws: nat -> nat,
                                      attempt: nat, last: Option<AppError>)
    requires attempt <= maxRetries + 1
    ensures
      var f := Attempts(p, Undisturbed, maxRetries, base, server, draws, attempt, last);
      Wrap32(Bookkeeping.Requests(f.pool.keys)) == Wrap32(Bookkeeping.Requests(p.keys) + |f.log|)
    decreases maxRetries + 1 - attempt
  {
    hide Attempts, Acquire, ReportFailure, ReportSuccess, Delay, Wrap32, Bookkeeping.Requests, Final;
    if attempt > maxRetries {
      AfterLastRound(p, Undisturbed, maxRetries, base, server, draws, last);
    } else {
      OneRound(p, Undisturbed, maxRetries, base, server, draws, attempt, last);
      var (pick, q) := Acquire(p);
      if pick.Some? {
        var key := p.keys[pick.value].key;
        var outcome := server(attempt, key);
        AcquireCounts(p);
        ReportsDoNotCount(q, key);
        if !Final(outcome) && Delay(base, attempt, draws(attempt)).Some? {
          var f := ReportFailure(q, key);
          CountsFrom(f, maxRetries, base, server, draws, attempt + 1, Some(Downstream(outcome)));
          var made := |Attempts(f, Undisturbed, maxRetries, base, server, draws, attempt + 1, Some(Downstream(outcome))).log|;
          WrapShift(Bookkeeping.Requests(q.keys), Bookkeeping.Requests(p.keys) + 1, made);
        }
      }
    }
  }

  /** An undisturbed call counts exactly one request per attempt, whatever the outcomes. */
  lemma OneRequestPerAttempt(p: Pool, maxRetries: u32, base: u64, server: Server, draws: nat -> nat)
    ensures
      var f := Run(p, Undisturbed, maxRetries, base, server, draws);
      Wrap32(Bookkeeping.Requests(f.pool.keys)) == Wrap32(Bookkeeping.Requests(p.keys) + |f.log|)
  {
    hide Attempts, Wrap32, Bookkeeping.Requests;
    CountsFrom(p, maxRetries, base, server, draws, 0, None);
  }
}
