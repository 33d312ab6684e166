/** How long a tripped key stays out, never more than the cooldown and when not less, and who may still be given it. */
module Outage {
  import opened Results
  import opened Numbers
  import opened PoolModel
  import opened Breaker
  import AcquireRuns
  import Refinement

  // ---------------------------------------------------------------- at most one cooldown

  /**
   Nothing due is late by more than `lag`: the clock has not passed a timer's deadline, or
   the moment a report cleared a key's health, by more than that. With lag 0 due work is
   done before the clock moves on.
   */
  predicate Timely(s: State, lag: real) {
    forall t | 0 <= t < |s.threads| ::
      && (s.threads[t].Sleeping? ==> s.now <= s.threads[t].deadline + lag)
      && (s.threads[t].FailureTripped? ==> s.now <= s.threads[t].at + lag)
  }

  /** `th` restores object `o`, and was set going by time `start` (give or take the lag). */
  predicate RescuesSince(th: Thread, o: nat, start: real, lag: real) {
    match th
    case FailureTripped(x, at) => x == o && at <= start
    case Sleeping(x, deadline) => x == o && deadline <= start + lag + COOLDOWN
    case _ => false
  }

  predicate RescuedSince(s: State, o: nat, start: real, lag: real) {
    exists t :: 0 <= t < |s.threads| && RescuesSince(s.threads[t], o, start, lag)
  }

  lemma RescuedSinceKept(s: State, a: Step, o: nat, start: real, lag: real)
    requires WellFormed(s) && Enabled(s, a) && Timely(s, lag) && RescuedSince(s, o, start, lag)
    requires o < |s.objs| && !Apply(s, a).objs[o].healthy
    ensures RescuedSince(Apply(s, a), o, start, lag)
  {
    var t :| 0 <= t < |s.threads| && RescuesSince(s.threads[t], o, start, lag);
    if Actor(a) != Some(t) {
      OtherThreadsKeep(s, a, t);
    }
    assert RescuesSince(Apply(s, a).threads[t], o, start, lag);
  }

  lemma {:induction false} RescuedThroughout(ss: seq<State>, steps: seq<Step>, i: nat, j: nat, o: nat, lag: real)
    requires Run(ss, steps) && Inv(ss[0]) && i <= j < |ss| && lag >= 0.0
    requires forall k | 0 <= k < |ss| :: Timely(ss[k], lag)
    requires o < |ss[i].objs|
    requires forall k | i <= k <= j :: o < |ss[k].objs| && !ss[k].objs[o].healthy
    ensures RescuedSince(ss[j], o, ss[i].now, lag)
    decreases j - i
  {
    hide Apply, Enabled, Timely, RescuedSince;
    if i == j {
      RunInv(ss, steps, i);
      UnhealthyIsRescued(ss[i], o, lag);
    } else {
      RescuedThroughout(ss, steps, i, j - 1, o, lag);
      assert ss[j] == Apply(ss[j - 1], steps[j - 1]);
      RescuedSinceKept(ss[j - 1], steps[j - 1], o, ss[i].now, lag);
    }
  }

  lemma UnhealthyIsRescued(s: State, o: nat, lag: real)
    requires Inv(s) && lag >= 0.0 && o < |s.objs| && !s.objs[o].healthy
    ensures RescuedSince(s, o, s.now, lag)
  {
    assert Rescued(s, o);
    var t :| 0 <= t < |s.threads| && Rescues(s.threads[t], o);
    assert RescuesSince(s.threads[t], o, s.now, lag);
  }

  /**
   Bounded outage: in every run, with any number of overlapping timers and re-adds, an
   object that is unhealthy from state i to state j is so for at most the cooldown plus
   twice the scheduling lag.
   */
  lemma OutageIsBounded(ss: seq<State>, steps: seq<Step>, i: nat, j: nat, o: nat, lag: real)
    requires Run(ss, steps) && Initial(ss[0]) && i <= j < |ss| && lag >= 0.0
    requires forall k | 0 <= k < |ss| :: Timely(ss[k], lag)
    requires forall k | i <= k <= j :: o < |ss[k].objs| && !ss[k].objs[o].healthy
    ensures ss[j].now - ss[i].now <= COOLDOWN + 2.0 * lag
  {
    InitialInv(ss[0]);
    RescuedThroughout(ss, steps, i, j, o, lag);
  }

  // ---------------------------------------------------------------- at least one cooldown?

  /** The step restores object `o` on behalf of an administrator. */
  predicate ReAdds(s: State, a: Step, o: nat) {
    a.StoreHealthy? && a.t < |s.threads| && Targets(s.threads[a.t], o)
  }

  /** A run that starts in `s` and in which no administrator re-adds `o`. */
  ghost predicate QuietRun(s: State, o: nat, ss: seq<State>, steps: seq<Step>) {
    && Run(ss, steps) && ss[0] == s
    && forall k | 0 <= k < |steps| :: !ReAdds(ss[k], steps[k], o)
  }

  ghost predicate StaysOut(ss: seq<State>, o: nat, until: real) {
    forall k | 0 <= k < |ss| && ss[k].now < until :: o < |ss[k].objs| && !ss[k].objs[o].healthy
  }

  /** Whatever happens after `s`, short of a re-add, `o` is out of service before `until`. */
  ghost predicate OutUntil(s: State, o: nat, until: real) {
    forall ss: seq<State>, steps: seq<Step> | QuietRun(s, o, ss, steps) :: StaysOut(ss, o, until)
  }

  /** No timer of `o` fires before `until`. */
  predicate NoTimerBefore(s: State, o: nat, until: real) {
    forall t | 0 <= t < |s.threads| && s.threads[t].Sleeping? && s.threads[t].o == o ::
      s.threads[t].deadline >= until
  }

  lemma CoolingKept(s: State, a: Step, o: nat, until: real)
    requires WellFormed(s) && Enabled(s, a) && !ReAdds(s, a, o) && o < |s.objs|
    requires !s.objs[o].healthy && NoTimerBefore(s, o, until) && until <= s.now + COOLDOWN
    ensures NoTimerBefore(Apply(s, a), o, until)
    ensures s.now < until ==> !Apply(s, a).objs[o].healthy
  {
    hide Picks, Snapshot, Keep, KeysAt, Locate;
  }

  lemma {:induction false} CoolingThroughout(s: State, o: nat, until: real, ss: seq<State>, steps: seq<Step>, k: nat)
    requires QuietRun(s, o, ss, steps) && k < |ss| && o < |s.objs|
    requires !s.objs[o].healthy && NoTimerBefore(s, o, until) && until <= s.now + COOLDOWN
    requires ss[k].now < until
    ensures o < |ss[k].objs| && !ss[k].objs[o].healthy && NoTimerBefore(ss[k], o, until) && s.now <= ss[k].now
  {
    hide Apply, Enabled, NoTimerBefore, ReAdds;
    if k > 0 {
      ApplyWellFormed(ss[k - 1], steps[k - 1]);
      CoolingThroughout(s, o, until, ss, steps, k - 1);
      CoolingKept(ss[k - 1], steps[k - 1], o, until);
    }
  }

  /**
   The exact condition for a full cooldown. The trip of object `o` at time T keeps it out
   of service until T + 60 in every continuation without a re-add, whatever failures and
   successes are still in flight, if and only if no earlier timer of the same object is
   due before then.
   */
  lemma FullCooldownIff(s: State, t: nat)
    requires Inv(s) && Enabled(s, Trip(t))
    ensures
      var o, until := s.threads[t].o, s.now + COOLDOWN;
      OutUntil(Apply(s, Trip(t)), o, until) <==> NoTimerBefore(s, o, until)
  {
    var o, until := s.threads[t].o, s.now + COOLDOWN;
    var s' := Apply(s, Trip(t));
    if NoTimerBefore(s, o, until) {
      assert NoTimerBefore(s', o, until);
      forall ss: seq<State>, steps: seq<Step> | QuietRun(s', o, ss, steps)
        ensures StaysOut(ss, o, until)
      {
        forall k | 0 <= k < |ss| && ss[k].now < until
          ensures o < |ss[k].objs| && !ss[k].objs[o].healthy
        {
          CoolingThroughout(s', o, until, ss, steps, k);
        }
      }
    } else {
      var u :| 0 <= u < |s.threads| && s.threads[u].Sleeping? && s.threads[u].o == o && s.threads[u].deadline < until;
      ApplyWellFormed(s, Trip(t));
      OldTimerRevives(s', o, u, until);
    }
  }

  /** A timer due before `until` can put its object back in service before `until`. */
  lemma OldTimerRevives(s: State, o: nat, u: nat, until: real)
    requires WellFormed(s) && s.now < until && u < |s.threads|
    requires s.threads[u].Sleeping? && s.threads[u].o == o && s.threads[u].deadline < until
    ensures !OutUntil(s, o, until)
  {
    var time := if s.now < s.threads[u].deadline then s.threads[u].deadline else s.now;
    var s1 := Apply(s, Tick(time));
    ApplyWellFormed(s, Tick(time));
    assert Enabled(s1, Restore(u));
    var s2 := Apply(s1, Restore(u));
    ApplyWellFormed(s1, Restore(u));
    var ss, steps := [s, s1, s2], [Tick(time), Restore(u)];
    assert Run(ss, steps);
    assert QuietRun(s, o, ss, steps);
    assert ss[2].now < until && ss[2].objs[o].healthy;
    assert !StaysOut(ss, o, until);
  }

  // ---------------------------------------------------------------- no service during a cooldown

  /** A scan that holds the object during a full cooldown already held it when the key tripped. */
  lemma {:induction false} HeldBeforeTrip(s: State, o: nat, until: real, ss: seq<State>, steps: seq<Step>, k: nat, t: nat)
    requires QuietRun(s, o, ss, steps) && k < |ss| && o < |s.objs|
    requires !s.objs[o].healthy && NoTimerBefore(s, o, until) && until <= s.now + COOLDOWN
    requires ss[k].now < until && AcquireRuns.Holds(ss[k], t, o)
    ensures AcquireRuns.Holds(s, t, o)
  {
    hide Apply, Enabled, NoTimerBefore, ReAdds;
    if k > 0 {
      ApplyWellFormed(ss[k - 1], steps[k - 1]);
      CoolingThroughout(s, o, until, ss, steps, k - 1);
      AcquireRuns.HeldByLoading(ss[k - 1], steps[k - 1], t, o);
      HeldBeforeTrip(s, o, until, ss, steps, k - 1, t);
    }
  }

  /** A thread that is scanning has been scanning ever since it was started. */
  lemma {:induction false} ScanningSince(ss: seq<State>, steps: seq<Step>, j: nat, k: nat, t: nat)
    requires Run(ss, steps) && j <= k < |ss| && t < |ss[j].threads|
    requires t < |ss[k].threads| && ss[k].threads[t].Scanning?
    ensures ss[j].threads[t].Scanning?
    decreases k - j
  {
    hide Apply, Enabled;
    if j < k {
      ApplyWellFormed(ss[j], steps[j]);
      ScanningSince(ss, steps, j + 1, k, t);
      AcquireRuns.ScanProgress(ss[j], steps[j], t);
    }
  }

  /** Once a scan has handed out its key it is over. */
  lemma HandsOutOnce(ss: seq<State>, steps: seq<Step>, j: nat, k: nat)
    requires Run(ss, steps) && j < k < |steps|
    requires HandedBy(ss[j], steps[j]).Some? && HandedBy(ss[k], steps[k]).Some?
    ensures steps[j].t != steps[k].t
  {
    var t := steps[j].t;
    assert ss[j + 1].threads[t] == Done;
    if t == steps[k].t {
      ScanningSince(ss, steps, j + 1, k, t);
    }
  }

  /**
   During a full cooldown an acquire can hand the object out only if it was under way, and
   already held the object, when the key tripped; and there is at most one such acquire.
   */
  lemma NotHandedOut(s: State, o: nat, until: real, ss: seq<State>, steps: seq<Step>, k: nat)
    requires QuietRun(s, o, ss, steps) && Inv(s) && o < |s.objs|
    requires !s.objs[o].healthy && NoTimerBefore(s, o, until) && until <= s.now + COOLDOWN
    requires k < |steps| && ss[k].now < until && HandedBy(ss[k], steps[k]) == Some(o)
    ensures steps[k].Choose? && AcquireRuns.Holds(s, steps[k].t, o)
    ensures forall j | 0 <= j < |steps| && ss[j].now < until && HandedBy(ss[j], steps[j]) == Some(o) :: j == k
  {
    hide Apply, Enabled, NoTimerBefore, ReAdds, HandedBy;
    AcquireRuns.HandedIsHeld(ss[k], steps[k], o);
    HeldBeforeTrip(s, o, until, ss, steps, k, steps[k].t);
    forall j | 0 <= j < |steps| && ss[j].now < until && HandedBy(ss[j], steps[j]) == Some(o)
      ensures j == k
    {
      AcquireRuns.HandedIsHeld(ss[j], steps[j], o);
      HeldBeforeTrip(s, o, until, ss, steps, j, steps[j].t);
      assert steps[j].t == steps[k].t;
      if j < k {
        HandsOutOnce(ss, steps, j, k);
      } else if k < j {
        HandsOutOnce(ss, steps, k, j);
      }
    }
  }

  /** No administrator adds `key` as a new entry. */
  predicate NoPushOf(steps: seq<Step>, key: string) {
    forall k | 0 <= k < |steps| && steps[k].Push? :: steps[k].key != key
  }

  lemma ListedBefore(s: State, a: Step, x: nat)
    requires WellFormed(s) && Enabled(s, a) && x in Apply(s, a).pool && x < |Apply(s, a).objs|
    requires a.Push? ==> a.key != Apply(s, a).objs[x].key
    ensures x in s.pool && x < |s.objs| && s.objs[x].key == Apply(s, a).objs[x].key
  {
  }

  /** Without new entries for a key, an object listed under that key was listed all along. */
  lemma {:induction false} ListedSince(ss: seq<State>, steps: seq<Step>, k: nat, x: nat)
    requires Run(ss, steps) && k < |ss| && x in ss[k].pool && x < |ss[k].objs| && NoPushOf(steps, ss[k].objs[x].key)
    ensures x in ss[0].pool && x < |ss[0].objs| && ss[0].objs[x].key == ss[k].objs[x].key
  {
    hide Apply, Enabled;
    if k > 0 {
      ListedBefore(ss[k - 1], steps[k - 1], x);
      ListedSince(ss, steps, k - 1, x);
    }
  }

  /** Listed objects with the same key are the same object, when the listed keys are distinct. */
  lemma SameKeySameObject(s: State, x: nat, o: nat)
    requires WellFormed(s) && DistinctKeys(View(s).keys) && x in s.pool && o in s.pool && s.objs[x].key == s.objs[o].key
    ensures x == o
  {
    var i :| 0 <= i < |s.pool| && s.pool[i] == x;
    var j :| 0 <= j < |s.pool| && s.pool[j] == o;
    assert View(s).keys[i].key == View(s).keys[j].key;
  }

  /** The trip itself: health cleared, everything else that matters here unchanged. */
  lemma AfterTrip(s: State, t: nat)
    requires Inv(s) && Enabled(s, Trip(t)) && AcquireRuns.ReadersListed(s) && DistinctKeys(View(s).keys)
    ensures
      var o, s' := s.threads[t].o, Apply(s, Trip(t));
      && o in s.pool && o < |s'.objs| && !s'.objs[o].healthy && s'.objs[o].key == s.objs[o].key
      && Inv(s') && s'.now == s.now && s'.pool == s.pool && DistinctKeys(View(s').keys)
      && (NoTimerBefore(s, o, s.now + COOLDOWN) ==> NoTimerBefore(s', o, s.now + COOLDOWN))
      && forall u :: AcquireRuns.Holds(s', u, o) ==> AcquireRuns.Holds(s, u, o)
  {
    hide View, DistinctKeys;
    InvKept(s, Trip(t));
    TripKeepsListing(s, t);
    assert AcquireRuns.WorksOnListed(s.threads[t], s.pool);
  }

  lemma TripKeepsListing(s: State, t: nat)
    requires WellFormed(s) && Enabled(s, Trip(t))
    ensures WellFormed(Apply(s, Trip(t)))
    ensures DistinctKeys(View(s).keys) ==> DistinctKeys(View(Apply(s, Trip(t))).keys)
  {
    ApplyWellFormed(s, Trip(t));
    var keys, keys' := View(s).keys, View(Apply(s, Trip(t))).keys;
    assert forall i | 0 <= i < |keys| :: keys'[i].key == keys[i].key;
  }

  /**
   A tripped key gets no new request: from a trip with a full cooldown ahead, while the
   listed keys are distinct and nobody adds the key again, an acquire that hands out this
   key before the 60 seconds are over was under way, and had collected the key, when it
   tripped; and at most one acquire does so.
   */
  lemma TrippedKeyNotHandedOut(s: State, t: nat, ss: seq<State>, steps: seq<Step>, k: nat, x: nat)
    requires Inv(s) && AcquireRuns.ReadersListed(s) && DistinctKeys(View(s).keys) && Enabled(s, Trip(t))
    requires NoTimerBefore(s, s.threads[t].o, s.now + COOLDOWN)
    requires QuietRun(Apply(s, Trip(t)), s.threads[t].o, ss, steps) && NoPushOf(steps, s.objs[s.threads[t].o].key)
    requires k < |steps| && ss[k].now < s.now + COOLDOWN
    requires HandedBy(ss[k], steps[k]) == Some(x) && x < |ss[k].objs| && ss[k].objs[x].key == s.objs[s.threads[t].o].key
    ensures x == s.threads[t].o && steps[k].Choose? && AcquireRuns.Holds(s, steps[k].t, x)
    ensures forall j | 0 <= j < |steps| && ss[j].now < s.now + COOLDOWN && HandedBy(ss[j], steps[j]) == Some(x) :: j == k
  {
    var o, s' := s.threads[t].o, Apply(s, Trip(t));
    AfterTrip(s, t);
    hide Apply, Enabled, Inv, NoTimerBefore, ReAdds, HandedBy, DistinctKeys, AcquireRuns.ReadersListed, AcquireRuns.Holds, View;
    AcquireRuns.ReadersListedKept(s, Trip(t));
    AcquireRuns.HandedIsListed(ss, steps, k, x);
    ListedSince(ss, steps, k, x);
    SameKeySameObject(s', x, o);
    NotHandedOut(s', o, s.now + COOLDOWN, ss, steps, k);
  }

  /** No step of the system makes two listed objects share a key. */
  lemma ListedKeysDistinctKept(s: State, a: Step)
    requires WellFormed(s) && Enabled(s, a) && DistinctKeys(View(s).keys)
    ensures WellFormed(Apply(s, a)) && DistinctKeys(View(Apply(s, a)).keys)
  {
    ApplyWellFormed(s, a);
    if a.Push? {
      Refinement.PushCall(s, a.key, a.weight);
      AddKeyWeights(View(s), a.key, a.weight);
    } else if a.Remove? {
      Refinement.RemoveCall(s, a.key);
      DistinctWithout(View(s).keys, a.key);
    } else {
      SameListKept(s, a);
      var keys, keys' := View(s).keys, View(Apply(s, a)).keys;
      assert forall i | 0 <= i < |keys| :: keys'[i].key == keys[i].key;
    }
  }

  lemma SameListKept(s: State, a: Step)
    requires WellFormed(s) && Enabled(s, a) && !a.Push? && !a.Remove?
    ensures Apply(s, a).pool == s.pool
  {
    hide Picks, Snapshot, Keep, KeysAt, Locate;
  }

  /** What TrippedKeyNotHandedOut asks of a state holds throughout every run from distinct configured keys. */
  lemma {:induction false} TripPremisesHold(ss: seq<State>, steps: seq<Step>, k: nat)
    requires Run(ss, steps) && Initial(ss[0]) && DistinctKeys(View(ss[0]).keys) && k < |ss|
    ensures Inv(ss[k]) && AcquireRuns.ReadersListed(ss[k]) && DistinctKeys(View(ss[k]).keys)
  {
    hide Apply, Enabled, View, DistinctKeys, Inv, AcquireRuns.ReadersListed;
    if k == 0 {
      InitialInv(ss[0]);
      NoReadersYet(ss[0]);
    } else {
      TripPremisesHold(ss, steps, k - 1);
      InvKept(ss[k - 1], steps[k - 1]);
      AcquireRuns.ReadersListedKept(ss[k - 1], steps[k - 1]);
      ListedKeysDistinctKept(ss[k - 1], steps[k - 1]);
    }
  }

  lemma NoReadersYet(s: State)
    requires Initial(s)
    ensures AcquireRuns.ReadersListed(s)
  {
  }
}
