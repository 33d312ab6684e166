/**
 with_retry: bounded attempts against the key pool, one report per attempt, a jittered
 delay between attempts. `Attempts` gives the run as a function of the pool, of what the
 downstream answers, of the jitter drawn, and of whatever other tasks do to the pool while
 this one waits; `RetryLoop.WithRetry` is the program's loop over the pool object.
 */
module Retry {
  import opened Numbers
  import opened Results
  import opened PoolModel
  import opened Backoff

  /** What the caller gets back: a response with the key that obtained it, an error, or a panic in the delay. */
  datatype Reply = Returned(response: Outcome, key: string) | GaveUp(error: AppError) | Panicked

  /** One attempt: key used, outcome, and the sleep that followed, if any. */
  datatype Attempt = Attempt(key: string, outcome: Outcome, sleep: Option<u64>)

  datatype Finish = Finish(reply: Reply, log: seq<Attempt>, pool: Pool)

  /** The downstream: its outcome for an attempt with a key. */
  type Server = (nat, string) -> Outcome

  /** Other tasks: what they do to the pool during call `2 * attempt` and sleep `2 * attempt + 1`. */
  type Others = (nat, Pool) -> Pool

  function Undisturbed(when: nat, p: Pool): Pool {
    p
  }

  predicate IsSuccess(code: nat) {
    200 <= code < 300
  }

  predicate IsRetryable(code: nat) {
    code == 429 || code == 502 || code == 503 || code == 504
  }

  /** The outcome ends the loop: any response that is not a retryable error status. */
  predicate Final(o: Outcome) {
    o.Status? && (IsSuccess(o.code) || !IsRetryable(o.code))
  }

  function Attempts(p: Pool, others: Others, maxRetries: u32, base: u64, server: Server, draws: nat -> nat,
                 attempt: nat, last: Option<AppError>): Finish
    requires attempt <= maxRetries + 1
    decreases maxRetries + 1 - attempt
  {
    if attempt > maxRetries then
      Finish(GaveUp(if last.Some? then last.value else Internal("exhausted retries")), [], p)
    else
      var (pick, q) := Acquire(p);
      if pick.None? then
        Finish(GaveUp(NoKeysAvailable), [], p)
      else
        var key := p.keys[pick.value].key;
        var outcome := server(attempt, key);
        var r := others(2 * attempt, q);
        if Final(outcome) then
          Finish(Returned(outcome, key), [Attempt(key, outcome, None)], ReportSuccess(r, key))
        else
          var f := ReportFailure(r, key);
          var delay := Delay(base, attempt, draws(attempt));
          if delay.None? then
            Finish(Panicked, [Attempt(key, outcome, None)], f)
          else
            var sleep := if attempt < maxRetries then delay else None;
            var g := if attempt < maxRetries then others(2 * attempt + 1, f) else f;
            var rest := Attempts(g, others, maxRetries, base, server, draws, attempt + 1, Some(Downstream(outcome)));
            Finish(rest.reply, [Attempt(key, outcome, sleep)] + rest.log, rest.pool)
  }

  /** The whole call. */
  function Run(p: Pool, others: Others, maxRetries: u32, base: u64, server: Server, draws: nat -> nat): Finish {
    Attempts(p, others, maxRetries, base, server, draws, 0, None)
  }

  // ---------------------------------------------------------------- one round

  /** A call, given the attempts already made and how it goes on. */
  function Resume(log: seq<Attempt>, rest: Finish): Finish {
    rest.(log := log + rest.log)
  }

  /** One round of the loop, seen from the whole call. */
  lemma OneRound(p: Pool, others: Others, maxRetries: u32, base: u64, server: Server, draws: nat -> nat,
                 attempt: nat, last: Option<AppError>)
    requires attempt <= maxRetries
    ensures
      var whole := Attempts(p, others, maxRetries, base, server, draws, attempt, last);
      var (pick, q) := Acquire(p);
      if pick.None? then whole == Finish(GaveUp(NoKeysAvailable), [], p)
      else
        var key := p.keys[pick.value].key;
        var outcome := server(attempt, key);
        var r := others(2 * attempt, q);
        var f := ReportFailure(r, key);
        var delay := Delay(base, attempt, draws(attempt));
        if Final(outcome) then
          whole == Finish(Returned(outcome, key), [Attempt(key, outcome, None)], ReportSuccess(r, key))
        else if delay.None? then
          whole == Finish(Panicked, [Attempt(key, outcome, None)], f)
        else
          var sleep := if attempt < maxRetries then delay else None;
          var g := if attempt < maxRetries then others(2 * attempt + 1, f) else f;
          whole == Resume([Attempt(key, outcome, sleep)],
            Attempts(g, others, maxRetries, base, server, draws, attempt + 1, Some(Downstream(outcome))))
  {
    hide Acquire, ReportSuccess, ReportFailure, Delay;
  }

  lemma AfterLastRound(p: Pool, others: Others, maxRetries: u32, base: u64, server: Server, draws: nat -> nat, last: Option<AppError>)
    ensures Attempts(p, others, maxRetries, base, server, draws, maxRetries + 1, last) ==
      Finish(GaveUp(if last.Some? then last.value else Internal("exhausted retries")), [], p)
  {
  }

  // ---------------------------------------------------------------- shape of every call

  /** The last attempt explains the reply, and all attempts before it failed. */
  predicate WellEnded(f: Finish, attempts: nat, last: Option<AppError>) {
    && |f.log| <= attempts
    && (forall k | 0 <= k < |f.log| - 1 :: !Final(f.log[k].outcome))
    && match f.reply
       case Returned(response, key) =>
         |f.log| > 0 && Final(response) && f.log[|f.log| - 1].outcome == response && f.log[|f.log| - 1].key == key
       case Panicked => |f.log| > 0 && !Final(f.log[|f.log| - 1].outcome)
       case GaveUp(error) =>
         && (|f.log| > 0 ==> !Final(f.log[|f.log| - 1].outcome))
         && (if |f.log| < attempts then error == NoKeysAvailable
             else if attempts > 0 then error == Downstream(f.log[attempts - 1].outcome)
             else error == if last.Some? then last.value else Internal("exhausted retries"))
  }

  /** Calls of at most one attempt. */
  lemma ShortEndsWell(key: string, outcome: Outcome, attempts: nat, last: Option<AppError>, p: Pool)
    ensures WellEnded(Finish(GaveUp(if last.Some? then last.value else Internal("exhausted retries")), [], p), 0, last)
    ensures attempts > 0 ==> WellEnded(Finish(GaveUp(NoKeysAvailable), [], p), attempts, last)
    ensures attempts > 0 && Final(outcome) ==> WellEnded(Finish(Returned(outcome, key), [Attempt(key, outcome, None)], p), attempts, last)
    ensures attempts > 0 && !Final(outcome) ==> WellEnded(Finish(Panicked, [Attempt(key, outcome, None)], p), attempts, last)
  {
    hide Final;
  }

  /** A failed attempt before a call that ends well. */
  lemma LongerEndsWell(a: Attempt, rest: Finish, attempts: nat, last: Option<AppError>)
    requires !Final(a.outcome) && WellEnded(rest, attempts, Some(Downstream(a.outcome)))
    ensures WellEnded(Resume([a], rest), attempts + 1, last)
  {
    hide Final;
  }

  lemma {:induction false} RetryEndsWell(p: Pool, others: Others, maxRetries: u32, base: u64, server: Server, draws: nat -> nat,
                                         attempt: nat, last: Option<AppError>)
    requires attempt <= maxRetries + 1
    ensures WellEnded(Attempts(p, others, maxRetries, base, server, draws, attempt, last), maxRetries + 1 - attempt, last)
    decreases maxRetries + 1 - attempt
  {
    hide Attempts, Acquire, ReportFailure, ReportSuccess, Delay, Final, WellEnded, Resume;
    if attempt == maxRetries + 1 {
      AfterLastRound(p, others, maxRetries, base, server, draws, last);
      ShortEndsWell("", Transport(""), 0, last, p);
    } else {
      OneRound(p, others, maxRetries, base, server, draws, attempt, last);
      var left := maxRetries - attempt;
      var (pick, q) := Acquire(p);
      if pick.None? {
        ShortEndsWell("", Transport(""), left + 1, last, p);
      } else {
        var key := p.keys[pick.value].key;
        var outcome := server(attempt, key);
        var r := others(2 * attempt, q);
        var f := ReportFailure(r, key);
        ShortEndsWell(key, outcome, left + 1, last, ReportSuccess(r, key));
        ShortEndsWell(key, outcome, left + 1, last, f);
        if !Final(outcome) && Delay(base, attempt, draws(attempt)).Some? {
          var next := Some(Downstream(outcome));
          var sleep := if attempt < maxRetries then Delay(base, attempt, draws(attempt)) else None;
          var g := if attempt < maxRetries then others(2 * attempt + 1, f) else f;
          RetryEndsWell(g, others, maxRetries, base, server, draws, attempt + 1, next);
          LongerEndsWell(Attempt(key, outcome, sleep),
            Attempts(g, others, maxRetries, base, server, draws, attempt + 1, next), left, last);
        }
      }
    }
  }

  /**
   Whatever other tasks do meanwhile: a call makes at most maxRetries + 1 attempts, all of
   them failures except possibly the last; it returns the last attempt's response exactly
   when that is final, the last failure when the attempts are used up, NoKeysAvailable
   before that; and the "exhausted retries" error is never returned.
   */
  lemma CallEndsWell(p: Pool, others: Others, maxRetries: u32, base: u64, server: Server, draws: nat -> nat)
    ensures
      var f := Run(p, others, maxRetries, base, server, draws);
      && WellEnded(f, maxRetries + 1, None)
      && (f.reply.GaveUp? ==> !f.reply.error.Internal?)
      && (f.reply.Returned? <==> |f.log| > 0 && Final(f.log[|f.log| - 1].outcome))
  {
    RetryEndsWell(p, others, maxRetries, base, server, draws, 0, None);
  }

  // ---------------------------------------------------------------- panics

  /** The log of a call that panicked: its last delay could not be drawn, all others were, and were slept. */
  predicate PanicLog(log: seq<Attempt>, base: u64, draws: nat -> nat, attempt: nat) {
    && |log| > 0
    && Delay(base, attempt + |log| - 1, draws(attempt + |log| - 1)).None?
    && forall k | 0 <= k < |log| - 1 :: log[k].sleep.Some? && log[k].sleep == Delay(base, attempt + k, draws(attempt + k))
  }

  lemma ExtendPanicLog(a: Attempt, rest: seq<Attempt>, base: u64, draws: nat -> nat, attempt: nat)
    ensures Delay(base, attempt, draws(attempt)).None? ==> PanicLog([a], base, draws, attempt)
    ensures a.sleep.Some? && a.sleep == Delay(base, attempt, draws(attempt)) && PanicLog(rest, base, draws, attempt + 1)
            ==> PanicLog([a] + rest, base, draws, attempt)
  {
    hide Delay;
    var log := [a] + rest;
    if a.sleep.Some? && a.sleep == Delay(base, attempt, draws(attempt)) && PanicLog(rest, base, draws, attempt + 1) {
      assert attempt + |log| - 1 == (attempt + 1) + |rest| - 1;
      forall k | 0 <= k < |log| - 1
        ensures log[k].sleep.Some? && log[k].sleep == Delay(base, attempt + k, draws(attempt + k))
      {
        if k > 0 {
          assert log[k] == rest[k - 1] && attempt + k == (attempt + 1) + (k - 1);
        }
      }
    }
  }

  lemma {:induction false} PanicsLeaveLog(p: Pool, others: Others, maxRetries: u32, base: u64, server: Server, draws: nat -> nat,
                                          attempt: nat, last: Option<AppError>)
    requires attempt <= maxRetries + 1
    ensures
      var f := Attempts(p, others, maxRetries, base, server, draws, attempt, last);
      f.reply == Panicked ==> PanicLog(f.log, base, draws, attempt)
    decreases maxRetries + 1 - attempt
  {
    hide Attempts, Acquire, ReportFailure, ReportSuccess, Delay, Final, PanicLog;
    if attempt == maxRetries + 1 {
      AfterLastRound(p, others, maxRetries, base, server, draws, last);
    } else {
      OneRound(p, others, maxRetries, base, server, draws, attempt, last);
      var (pick, q) := Acquire(p);
      if pick.Some? {
        var key := p.keys[pick.value].key;
        var outcome := server(attempt, key);
        var f := ReportFailure(others(2 * attempt, q), key);
        ExtendPanicLog(Attempt(key, outcome, None), [], base, draws, attempt);
        if !Final(outcome) && Delay(base, attempt, draws(attempt)).Some? {
          var next := Some(Downstream(outcome));
          if attempt == maxRetries {
            AfterLastRound(f, others, maxRetries, base, server, draws, next);
          } else {
            var g := others(2 * attempt + 1, f);
            PanicsLeaveLog(g, others, maxRetries, base, server, draws, attempt + 1, next);
            ExtendPanicLog(Attempt(key, outcome, Delay(base, attempt, draws(attempt))),
              Attempts(g, others, maxRetries, base, server, draws, attempt + 1, next).log, base, draws, attempt);
          }
        }
      }
    }
  }

  /**
   Out of reach of a configured program: whatever other tasks do, a call whose base delay a
   TOML file can hold panics only after it has slept for more than 150 million years.
   */
  lemma PanicOnlyAfterAges(p: Pool, others: Others, maxRetries: u32, base: u64, server: Server, draws: nat -> nat)
    requires base <= CONFIGURABLE
    ensures
      var f := Run(p, others, maxRetries, base, server, draws);
      f.reply == Panicked ==> |f.log| >= 2 && f.log[|f.log| - 2].sleep.Some? && f.log[|f.log| - 2].sleep.value >= AGES
  {
    hide Attempts, Delay;
    PanicsLeaveLog(p, others, maxRetries, base, server, draws, 0, None);
    var f := Run(p, others, maxRetries, base, server, draws);
    if f.reply == Panicked {
      PanicNeedsAges(base, |f.log| - 1, draws);
    }
  }

  // ---------------------------------------------------------------- sleeps

  function SleepTotal(log: seq<Attempt>): nat {
    if log == [] then 0 else (if log[0].sleep.Some? then log[0].sleep.value else 0) + SleepTotal(log[1..])
  }

  /** Number of sleeps taken. */
  function Sleeps(log: seq<Attempt>): nat {
    if log == [] then 0 else (if log[0].sleep.Some? then 1 else 0) + Sleeps(log[1..])
  }

  lemma FirstSleep(a: Attempt, rest: seq<Attempt>)
    ensures SleepTotal([a] + rest) == (if a.sleep.Some? then a.sleep.value else 0) + SleepTotal(rest)
    ensures Sleeps([a] + rest) == (if a.sleep.Some? then 1 else 0) + Sleeps(rest)
  {
    assert ([a] + rest)[1..] == rest;
  }

  /** The log of a call that starts at `attempt` matches the backoff from that attempt on. */
  predicate FollowsBackoff(log: seq<Attempt>, base: u64, draws: nat -> nat, attempt: nat, maxRetries: u32) {
    && attempt + Sleeps(log) <= maxRetries + (if attempt > maxRetries then 1 else 0)
    && |log| <= Sleeps(log) + 1
    && Slept(base, draws, attempt + Sleeps(log)) == Slept(base, draws, attempt) + SleepTotal(log)
  }

  /** A log without a sleep, and the log of an attempt that sleeps before the rest. */
  lemma ExtendBackoff(a: Attempt, rest: seq<Attempt>, base: u64, draws: nat -> nat, attempt: nat, maxRetries: u32)
    requires attempt <= maxRetries
    ensures FollowsBackoff([], base, draws, attempt, maxRetries)
    ensures FollowsBackoff([], base, draws, attempt + 1, maxRetries)
    ensures a.sleep.None? ==> FollowsBackoff([a], base, draws, attempt, maxRetries)
    ensures a.sleep.Some? && a.sleep == Delay(base, attempt, draws(attempt)) && attempt < maxRetries
            && FollowsBackoff(rest, base, draws, attempt + 1, maxRetries)
            ==> FollowsBackoff([a] + rest, base, draws, attempt, maxRetries)
  {
    hide Delay;
    FirstSleep(a, []);
    assert [a] + [] == [a];
    FirstSleep(a, rest);
  }

  /** Attempts sleep by the backoff of their own number, one after the other from `attempt` on. */
  lemma {:induction false} SleepsFollowBackoff(p: Pool, others: Others, maxRetries: u32, base: u64, server: Server, draws: nat -> nat,
                                               attempt: nat, last: Option<AppError>)
    requires attempt <= maxRetries
    ensures FollowsBackoff(Attempts(p, others, maxRetries, base, server, draws, attempt, last).log, base, draws, attempt, maxRetries)
    decreases maxRetries - attempt
  {
    hide Attempts, Acquire, ReportFailure, ReportSuccess, Delay, FollowsBackoff, Final;
    OneRound(p, others, maxRetries, base, server, draws, attempt, last);
    var log := Attempts(p, others, maxRetries, base, server, draws, attempt, last).log;
    var (pick, q) := Acquire(p);
    if pick.None? {
      ExtendBackoff(Attempt("", Transport(""), None), [], base, draws, attempt, maxRetries);
    } else {
      var key := p.keys[pick.value].key;
      var outcome := server(attempt, key);
      var f := ReportFailure(others(2 * attempt, q), key);
      if Final(outcome) || Delay(base, attempt, draws(attempt)).None? || attempt == maxRetries {
        if attempt == maxRetries {
          AfterLastRound(f, others, maxRetries, base, server, draws, Some(Downstream(outcome)));
        }
        assert log == [log[0]];
        ExtendBackoff(log[0], [], base, draws, attempt, maxRetries);
      } else {
        var g := others(2 * attempt + 1, f);
        SleepsFollowBackoff(g, others, maxRetries, base, server, draws, attempt + 1, Some(Downstream(outcome)));
        var rest := Attempts(g, others, maxRetries, base, server, draws, attempt + 1, Some(Downstream(outcome))).log;
        ExtendBackoff(log[0], rest, base, draws, attempt, maxRetries);
      }
    }
  }

  /**
   The time a call spends asleep: with n sleeps between its attempts it is within
   [3/4, 5/4] of base * (2^n - 1) milliseconds, and n is at most maxRetries.
   */
  lemma CallSleepBound(p: Pool, others: Others, maxRetries: u32, base: u64, server: Server, draws: nat -> nat)
    requires maxRetries == 0 || Representable(base, maxRetries - 1)
    ensures
      var log := Run(p, others, maxRetries, base, server, draws).log;
      var ideal := base * (Pow2(Sleeps(log)) - 1);
      Sleeps(log) <= maxRetries && 3 * ideal <= 4 * SleepTotal(log) <= 5 * ideal
  {
    hide Attempts, Delay;
    var log := Run(p, others, maxRetries, base, server, draws).log;
    SleepsFollowBackoff(p, others, maxRetries, base, server, draws, 0, None);
    var n := Sleeps(log);
    if n > 0 {
      RepresentableEarlier(base, n - 1, maxRetries - 1);
    }
    TotalSleep(base, draws, n);
  }
}
