/**
 "A tripped key stays out for 60 seconds" is false of the program: a run from its start in
 which a key goes from healthy to unhealthy and is back in service 29 seconds later,
 revived by the timer of an earlier failure. Outage.FullCooldownIff says exactly when this
 cannot happen.
 */
module EarlyRevival {
  import opened Numbers
  import opened Results
  import opened PoolModel
  import opened Breaker
  import opened Refinement
  import Outage

  const KEY: string := "tp-key"

  /** The program with one key of weight 1, at time `now`, and these error count, health and threads. */
  function One(now: real, healthy: bool, errors: u32, threads: seq<Thread>): State {
    State(now, [KeyState(KEY, 1, healthy, errors, 0)], [0], 0, threads)
  }

  predicate Idle(threads: seq<Thread>) {
    forall t | 0 <= t < |threads| :: threads[t].Done? || (threads[t].Sleeping? && threads[t].o == 0)
  }

  lemma OneFacts(now: real, healthy: bool, errors: u32, threads: seq<Thread>)
    requires Idle(threads)
    ensures
      var s := One(now, healthy, errors, threads);
      WellFormed(s) && NoDuplicates(s.pool) && Writable(s) && Readable(s) && Locate(s, KEY) == Some(0)
  {
  }

  /** No administrator restores a key. */
  predicate NoReAdd(steps: seq<Step>) {
    forall a | a in steps :: !a.StoreHealthy?
  }

  /** Two failures of a healthy key. */
  lemma TwoFailures(now: real, threads: seq<Thread>) returns (ss: seq<State>, steps: seq<Step>)
    requires Idle(threads)
    ensures Leads(One(now, true, 0, threads), ss, steps, One(now, true, 2, threads + [Done, Done])) && NoReAdd(steps)
  {
    var s0 := One(now, true, 0, threads);
    OneFacts(now, true, 0, threads);
    var ss1, steps1, s1 := FailureCall(s0, KEY);
    assert s1 == One(now, true, 1, threads + [Done]);
    OneFacts(now, true, 1, threads + [Done]);
    var ss2, steps2, s2 := FailureCall(s1, KEY);
    assert s2.threads == threads + [Done, Done];
    assert s2 == One(now, true, 2, threads + [Done, Done]);
    ss, steps := Join(s0, ss1, steps1, s1, ss2, steps2, s2);
  }

  /** The third failure in a row: the trip itself, with the step that clears the health. */
  lemma ThirdFailure(now: real, threads: seq<Thread>) returns (ss: seq<State>, steps: seq<Step>)
    requires Idle(threads)
    ensures Leads(One(now, true, 2, threads), ss, steps, One(now, false, 3, threads + [Sleeping(0, now + COOLDOWN)]))
    ensures |steps| == 4 && |ss| == 5 && steps[2].Trip? && NoReAdd(steps)
    ensures |ss[2].objs| == 1 && ss[2].objs[0].healthy
    ensures ss[3].now == now && |ss[3].objs| == 1 && !ss[3].objs[0].healthy
  {
    hide Picks, Keep, Snapshot, KeysAt, FindFrom;
    var s0 := One(now, true, 2, threads);
    var t := |threads|;
    OneFacts(now, true, 2, threads);
    ss, steps := Nothing(s0);
    var s;
    ss, steps, s := Then(s0, ss, steps, s0, BeginFailure(KEY));
    assert s.threads[t] == FailureLocated(0);
    ss, steps, s := Then(s0, ss, steps, s, Count(t));
    assert s.threads[t] == FailureCounted(0, 3);
    ss, steps, s := Then(s0, ss, steps, s, Trip(t));
    assert s.threads[t] == FailureTripped(0, now);
    ss, steps, s := Then(s0, ss, steps, s, Spawn(t));
    assert s.threads == threads + [Sleeping(0, now + COOLDOWN)];
  }

  /** A failure of a key that is out already, which spawns one more timer. */
  lemma LateFailure(now: real, threads: seq<Thread>) returns (ss: seq<State>, steps: seq<Step>)
    requires Idle(threads)
    ensures Leads(One(now, false, 3, threads), ss, steps, One(now, false, 4, threads + [Sleeping(0, now + COOLDOWN)]))
    ensures NoReAdd(steps)
  {
    OneFacts(now, false, 3, threads);
    var s';
    ss, steps, s' := FailureCall(One(now, false, 3, threads), KEY);
    assert s' == One(now, false, 4, threads + [Sleeping(0, now + COOLDOWN)]);
  }

  /** Timer `t`, due at `time`, puts the key back. */
  lemma Recovery(now: real, errors: u32, threads: seq<Thread>, t: nat, time: real) returns (ss: seq<State>, steps: seq<Step>)
    requires Idle(threads) && t < |threads| && threads[t] == Sleeping(0, time) && now <= time
    ensures Leads(One(now, false, errors, threads), ss, steps, One(time, true, 0, threads[t := Done]))
    ensures |steps| == 3 && |ss| == 4 && NoReAdd(steps)
    ensures |ss[1].objs| == 1 && !ss[1].objs[0].healthy
    ensures |ss[2].objs| == 1 && ss[2].objs[0].healthy && ss[2].now == time
  {
    hide Picks, Keep, Snapshot, KeysAt, FindFrom;
    var s0 := One(now, false, errors, threads);
    OneFacts(now, false, errors, threads);
    ss, steps := Nothing(s0);
    var s;
    ss, steps, s := Then(s0, ss, steps, s0, Tick(time));
    assert s == One(time, false, errors, threads);
    ss, steps, s := Then(s0, ss, steps, s, Restore(t));
    assert s.threads[t] == Restored(0);
    ss, steps, s := Then(s0, ss, steps, s, Forgive(t));
    assert s.threads == threads[t := Done];
  }

  lemma Waiting(now: real, healthy: bool, errors: u32, threads: seq<Thread>, time: real) returns (ss: seq<State>, steps: seq<Step>)
    requires Idle(threads) && now <= time
    ensures Leads(One(now, healthy, errors, threads), ss, steps, One(time, healthy, errors, threads)) && NoReAdd(steps)
  {
    var s0 := One(now, healthy, errors, threads);
    OneFacts(now, healthy, errors, threads);
    ss, steps := Nothing(s0);
    var s;
    ss, steps, s := Then(s0, ss, steps, s0, Tick(time));
  }

  /** One such run after another. */
  lemma Continue(s: State, ss: seq<State>, steps: seq<Step>, m: State, ss': seq<State>, steps': seq<Step>, s': State)
    returns (all: seq<State>, done: seq<Step>)
    requires Leads(s, ss, steps, m) && Leads(m, ss', steps', s') && NoReAdd(steps) && NoReAdd(steps')
    ensures Leads(s, all, done, s') && NoReAdd(done) && |all| == |ss| + |ss'| - 1
    ensures forall k | 0 <= k < |ss'| :: all[|ss| - 1 + k] == ss'[k]
  {
    all, done := Join(s, ss, steps, m, ss', steps', s');
  }

  /** Tripped at 0; a fourth failure, of a request still in flight, is reported at 30 and leaves a second timer. */
  lemma UpToSecondTimer() returns (ss: seq<State>, steps: seq<Step>)
    ensures Leads(One(0.0, true, 0, []), ss, steps, One(30.0, false, 4, [Done, Done, Sleeping(0, 60.0), Sleeping(0, 90.0)]))
    ensures NoReAdd(steps)
  {
    hide Leads, NoReAdd, One;
    var s0, th := One(0.0, true, 0, []), [Done, Done, Sleeping(0, 60.0)];
    ss, steps := TwoFailures(0.0, []);
    assert [] + [Done, Done] == [Done, Done] && [Done, Done] + [Sleeping(0, 0.0 + COOLDOWN)] == th;
    var a, sa := ThirdFailure(0.0, [Done, Done]);
    ss, steps := Continue(s0, ss, steps, One(0.0, true, 2, [Done, Done]), a, sa, One(0.0, false, 3, th));
    a, sa := Waiting(0.0, false, 3, th, 30.0);
    ss, steps := Continue(s0, ss, steps, One(0.0, false, 3, th), a, sa, One(30.0, false, 3, th));
    a, sa := LateFailure(30.0, th);
    assert th + [Sleeping(0, 30.0 + COOLDOWN)] == [Done, Done, Sleeping(0, 60.0), Sleeping(0, 90.0)];
    ss, steps := Continue(s0, ss, steps, One(30.0, false, 3, th), a, sa, One(30.0, false, 4, th + [Sleeping(0, 90.0)]));
  }

  /** Back in service at 60 by the first timer; two more failures at 61. */
  lemma UpToSecondTrip() returns (ss: seq<State>, steps: seq<Step>)
    ensures Leads(One(0.0, true, 0, []), ss, steps, One(61.0, true, 2, [Done, Done, Done, Sleeping(0, 90.0), Done, Done]))
    ensures NoReAdd(steps)
  {
    hide Leads, NoReAdd, One;
    var s0 := One(0.0, true, 0, []);
    var th, th' := [Done, Done, Sleeping(0, 60.0), Sleeping(0, 90.0)], [Done, Done, Done, Sleeping(0, 90.0)];
    ss, steps := UpToSecondTimer();
    var a, sa := Recovery(30.0, 4, th, 2, 60.0);
    assert th[2 := Done] == th';
    ss, steps := Continue(s0, ss, steps, One(30.0, false, 4, th), a, sa, One(60.0, true, 0, th'));
    a, sa := Waiting(60.0, true, 0, th', 61.0);
    ss, steps := Continue(s0, ss, steps, One(60.0, true, 0, th'), a, sa, One(61.0, true, 0, th'));
    a, sa := TwoFailures(61.0, th');
    assert th' + [Done, Done] == [Done, Done, Done, Sleeping(0, 90.0), Done, Done];
    ss, steps := Continue(s0, ss, steps, One(61.0, true, 0, th'), a, sa, One(61.0, true, 2, th' + [Done, Done]));
  }

  /** The second trip, at 61, and its end at 90 by the timer of the late failure. */
  lemma SecondTripCutShort() returns (ss: seq<State>, steps: seq<Step>, s': State)
    ensures Leads(One(61.0, true, 2, [Done, Done, Done, Sleeping(0, 90.0), Done, Done]), ss, steps, s') && NoReAdd(steps)
    ensures |ss| == 8 && forall k | 2 <= k <= 6 :: |ss[k].objs| == 1 && (ss[k].objs[0].healthy <==> k == 2 || k == 6)
    ensures ss[3].now == 61.0 && ss[6].now == 90.0
  {
    hide NoReAdd, Apply, Enabled, WellFormed;
    var th := [Done, Done, Done, Sleeping(0, 90.0), Done, Done];
    var after := th + [Sleeping(0, 61.0 + COOLDOWN)];
    var a, sa := ThirdFailure(61.0, th);
    var b, sb := Recovery(61.0, 3, after, 3, 90.0);
    s' := One(90.0, true, 0, after[3 := Done]);
    ss, steps := Join(One(61.0, true, 2, th), a, sa, One(61.0, false, 3, after), b, sb, s');
    NoReAddJoins(sa, sb);
    assert ss[4] == a[4] && ss[5] == b[1] && ss[6] == b[2];
  }

  lemma NoReAddJoins(steps: seq<Step>, steps': seq<Step>)
    requires NoReAdd(steps) && NoReAdd(steps')
    ensures NoReAdd(steps + steps')
  {
  }

  /**
   A run of the program from its start, in which no administrator ever restores the key: it
   is healthy in state i, unhealthy from state i + 1 on, at time 61, and healthy again in
   state j, at time 90, after 29 seconds.
   */
  lemma CooldownCutShort() returns (ss: seq<State>, steps: seq<Step>, i: nat, j: nat)
    ensures Run(ss, steps) && Initial(ss[0])
    ensures forall k | 0 <= k < |steps| :: !Outage.ReAdds(ss[k], steps[k], 0)
    ensures i + 1 < j < |ss| && forall k | i <= k <= j :: |ss[k].objs| == 1 && (ss[k].objs[0].healthy <==> k == i || k == j)
    ensures ss[i + 1].now == 61.0 && ss[j].now == 90.0
  {
    hide Apply, Enabled, Picks, KeysAt;
    var a, sa := UpToSecondTrip();
    var b, sb, s' := SecondTripCutShort();
    var s0 := One(0.0, true, 0, []);
    ss, steps := Continue(s0, a, sa, b[0], b, sb, s');
    i, j := |a| + 1, |a| + 5;
    StartsFresh();
    forall k | i <= k <= j
      ensures ss[k] == b[k - (|a| - 1)]
    {
      assert ss[|a| - 1 + (k - (|a| - 1))] == b[k - (|a| - 1)];
    }
    forall k | 0 <= k < |steps|
      ensures !steps[k].StoreHealthy?
    {
      assert steps[k] in steps;
    }
  }

  lemma StartsFresh()
    ensures Initial(One(0.0, true, 0, []))
  {
    assert [0] == seq(1, x => x);
  }
}
