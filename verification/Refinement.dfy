/**
 The two models of the pool agree: a call whose steps are taken without interruption has,
 in the interleaving model, exactly the effect of the function in PoolModel. The class in
 KeyPool.dfy follows the same functions.
 */
module Refinement {
  import opened Numbers
  import opened Results
  import opened PoolModel
  import opened Breaker
  import HealthyList
  import AdminModel

  ghost predicate Leads(s: State, ss: seq<State>, steps: seq<Step>, s': State) {
    Run(ss, steps) && ss[0] == s && ss[|ss| - 1] == s'
  }

  lemma Nothing(s: State) returns (ss: seq<State>, steps: seq<Step>)
    requires WellFormed(s)
    ensures Leads(s, ss, steps, s) && steps == []
  {
    ss, steps := [s], [];
  }

  lemma Then(s: State, ss: seq<State>, steps: seq<Step>, m: State, a: Step) returns (ss': seq<State>, steps': seq<Step>, s': State)
    requires Leads(s, ss, steps, m) && Enabled(m, a)
    ensures s' == Apply(m, a) && Leads(s, ss', steps', s') && ss' == ss + [s'] && steps' == steps + [a]
  {
    s' := Apply(m, a);
    ApplyWellFormed(m, a);
    ss', steps' := ss + [s'], steps + [a];
  }

  /** One run after another. */
  lemma Join(s: State, ss: seq<State>, steps: seq<Step>, m: State, ss': seq<State>, steps': seq<Step>, s': State)
    returns (all: seq<State>, done: seq<Step>)
    requires Leads(s, ss, steps, m) && Leads(m, ss', steps', s')
    ensures Leads(s, all, done, s') && |all| == |ss| + |ss'| - 1 && done == steps + steps'
    ensures forall k | 0 <= k < |ss| :: all[k] == ss[k]
    ensures forall k | 0 <= k < |ss'| :: all[|ss| - 1 + k] == ss'[k]
  {
    all, done := ss + ss'[1..], steps + steps';
    assert forall k | 0 <= k < |ss'| :: all[|ss| - 1 + k] == ss'[k];
    assert forall k | 0 <= k < |steps'| :: done[|ss| - 1 + k] == steps'[k];
    forall k | 0 <= k < |done|
      ensures Enabled(all[k], done[k]) && all[k + 1] == Apply(all[k], done[k])
    {
      if k >= |steps| {
        var j := k - |steps|;
        assert all[k] == ss'[j] && all[k + 1] == ss'[j + 1] && done[k] == steps'[j];
      }
    }
  }

  /** Storing to one listed object changes that entry of the view and nothing else. */
  lemma ViewStored(s: State, s': State, i: nat, k: KeyState)
    requires WellFormed(s) && WellFormed(s') && NoDuplicates(s.pool)
    requires i < |s.pool| && s'.pool == s.pool && s'.objs == s.objs[s.pool[i] := k]
    ensures View(s').keys == View(s).keys[i := k]
  {
    forall j | 0 <= j < |s.pool|
      ensures View(s').keys[j] == View(s).keys[i := k][j]
    {
      if j != i {
        assert s.pool[j] != s.pool[i];
      }
    }
  }

  /** A report for a key that is not listed starts nothing, in both models. */
  lemma MissingKeyReports(s: State, key: string)
    requires WellFormed(s) && Locate(s, key).None?
    ensures !Enabled(s, BeginFailure(key)) && ReportFailure(View(s), key) == View(s)
    ensures !Enabled(s, BeginSuccess(key)) && ReportSuccess(View(s), key) == View(s)
  {
  }

  /** What an uninterrupted report_failure leaves behind; for an unlisted key, nothing. */
  predicate FailureDone(s: State, key: string, s': State)
    requires WellFormed(s)
  {
    match Locate(s, key)
    case None => s' == s
    case Some(o) =>
      && s'.objs == s.objs[o := Failed(s.objs[o])]
      && s' == s.(objs := s'.objs, threads := s'.threads)
      && s'.threads == s.threads + [if Wrap32(s.objs[o].errors + 1) >= 3 then Sleeping(o, s.now + COOLDOWN) else Done]
  }

  /** Between the two states a recovery task of listed object `i` was spawned, due in 60 seconds. */
  predicate SpawnsFor(s: State, s': State, i: nat)
    requires i < |s.pool|
  {
    |s'.threads| > |s.threads| && s'.threads[|s.threads|] == Sleeping(s.pool[i], s.now + COOLDOWN)
  }

  lemma DoneSpawns(s: State, key: string, s': State, i: nat)
    requires WellFormed(s) && NoDuplicates(s.pool) && i < |s.pool| && FailureDone(s, key, s')
    ensures SpawnsFor(s, s', i) <==> Spawned(View(s), key) == Some(i)
  {
  }

  /** An uninterrupted report_failure. */
  lemma FailureCall(s: State, key: string) returns (ss: seq<State>, steps: seq<Step>, s': State)
    requires WellFormed(s) && NoDuplicates(s.pool) && Readable(s)
    ensures Leads(s, ss, steps, s') && FailureDone(s, key, s')
    ensures View(s') == ReportFailure(View(s), key)
    ensures forall i | 0 <= i < |s.pool| :: SpawnsFor(s, s', i) <==> Spawned(View(s), key) == Some(i)
    ensures forall a | a in steps :: a.BeginFailure? || a.Count? || a.Trip? || a.Spawn?
  {
    hide Picks, Snapshot, Keep, FindFrom, SpawnsFor, Spawned;
    ss, steps := Nothing(s);
    s' := s;
    if Locate(s, key).None? {
      MissingKeyReports(s, key);
    } else {
      var o := Locate(s, key).value;
      var t := |s.threads|;
      ss, steps, s' := Then(s, ss, steps, s, BeginFailure(key));
      assert s'.threads[t] == FailureLocated(o);
      ss, steps, s' := Then(s, ss, steps, s', Count(t));
      if Wrap32(s.objs[o].errors + 1) >= 3 {
        assert s'.threads[t].FailureCounted?;
        ss, steps, s' := Then(s, ss, steps, s', Trip(t));
        assert s'.threads[t].FailureTripped?;
        ss, steps, s' := Then(s, ss, steps, s', Spawn(t));
      }
      ViewStored(s, s', Find(View(s).keys, key).value, Failed(s.objs[o]));
    }
    forall i | 0 <= i < |s.pool|
      ensures SpawnsFor(s, s', i) <==> Spawned(View(s), key) == Some(i)
    {
      DoneSpawns(s, key, s', i);
    }
  }

  /** An uninterrupted report_success. */
  lemma SuccessCall(s: State, key: string) returns (ss: seq<State>, steps: seq<Step>, s': State)
    requires WellFormed(s) && NoDuplicates(s.pool) && Readable(s)
    ensures Leads(s, ss, steps, s') && View(s') == ReportSuccess(View(s), key)
    ensures s'.threads == s.threads + if Locate(s, key).Some? then [Done] else []
  {
    ss, steps := Nothing(s);
    s' := s;
    if Locate(s, key).None? {
      MissingKeyReports(s, key);
    } else {
      var o := Locate(s, key).value;
      var t := |s.threads|;
      ss, steps, s' := Then(s, ss, steps, s, BeginSuccess(key));
      assert s'.threads[t] == SuccessLocated(o);
      ss, steps, s' := Then(s, ss, steps, s', StoreZero(t));
      ViewStored(s, s', Find(View(s).keys, key).value, Cleared(s.objs[o]));
    }
  }

  /** An uninterrupted recovery task, once its sleep is over: health and errors of its entry, and nothing else. */
  lemma RecoveryCall(s: State, t: nat, i: nat) returns (ss: seq<State>, steps: seq<Step>, s': State)
    requires WellFormed(s) && NoDuplicates(s.pool) && t < |s.threads| && i < |s.pool|
    requires s.threads[t].Sleeping? && s.threads[t].o == s.pool[i] && s.threads[t].deadline <= s.now
    ensures Leads(s, ss, steps, s') && steps == [Restore(t), Forgive(t)]
    ensures View(s') == View(s).(keys := View(s).keys[i := View(s).keys[i].(healthy := true, errors := 0)])
    ensures s'.threads == s.threads[t := Done]
  {
    hide Picks, Snapshot, Keep, FindFrom;
    var o := s.pool[i];
    ss, steps := Nothing(s);
    ss, steps, s' := Then(s, ss, steps, s, Restore(t));
    assert s'.threads[t] == Restored(o);
    ss, steps, s' := Then(s, ss, steps, s', Forgive(t));
    ViewStored(s, s', i, s.objs[o].(healthy := true, errors := 0));
  }

  /** KeyPool::new: the state with one object for each configured entry is a start. */
  lemma NewCall(now: real, list: seq<(string, u32)>) returns (s: State)
    ensures s.now == now && Initial(s) && View(s) == AdminModel.NewPool(list)
  {
    s := State(now, AdminModel.NewPool(list).keys, seq(|list|, i => i), 0, []);
    assert KeysAt(s.objs, s.pool) == s.objs;
  }

  /** What an uninterrupted add_key of a listed key leaves behind. */
  predicate ReAddDone(s: State, key: string, weight: u32, s': State)
    requires WellFormed(s) && Locate(s, key).Some?
  {
    var o := Locate(s, key).value;
    s' == s.(objs := s.objs[o := Recovered(s.objs[o]).(weight := weight)], threads := s.threads + [Done])
  }

  lemma ReAddCall(s: State, key: string, weight: u32) returns (ss: seq<State>, steps: seq<Step>, s': State)
    requires WellFormed(s) && NoDuplicates(s.pool) && Writable(s) && Locate(s, key).Some?
    ensures Leads(s, ss, steps, s') && ReAddDone(s, key, weight, s')
    ensures View(s') == AddKey(View(s), key, weight)
  {
    var o := Locate(s, key).value;
    var t := |s.threads|;
    var m;
    ss, steps, m := ReAddFirstHalf(s, key, weight);
    ss, steps, s' := Then(s, ss, steps, m, StoreHealthy(t));
    assert s'.threads[t] == AddHealed(o);
    ss, steps, s' := Then(s, ss, steps, s', StoreErrors(t));
    assert s'.threads == s.threads + [Done];
    assert s'.objs == s.objs[o := Recovered(s.objs[o]).(weight := weight)];
    ViewStored(s, s', Find(View(s).keys, key).value, Recovered(s.objs[o]).(weight := weight));
  }

  lemma ReAddFirstHalf(s: State, key: string, weight: u32) returns (ss: seq<State>, steps: seq<Step>, s': State)
    requires WellFormed(s) && Writable(s) && Locate(s, key).Some?
    ensures Leads(s, ss, steps, s')
    ensures
      var o := Locate(s, key).value;
      s' == s.(objs := s.objs[o := s.objs[o].(weight := weight)], threads := s.threads + [AddWeighed(o)])
  {
    var o := Locate(s, key).value;
    var t := |s.threads|;
    ss, steps := Nothing(s);
    ss, steps, s' := Then(s, ss, steps, s, BeginAdd(key, weight));
    assert s'.threads[t] == AddLocated(o, weight);
    ss, steps, s' := Then(s, ss, steps, s', StoreWeight(t));
    assert s'.threads == s.threads + [AddWeighed(o)];
  }

  lemma PushCall(s: State, key: string, weight: u32)
    requires WellFormed(s) && Writable(s) && Locate(s, key).None?
    ensures WellFormed(Apply(s, Push(key, weight))) && View(Apply(s, Push(key, weight))) == AddKey(View(s), key, weight)
  {
    var s' := Apply(s, Push(key, weight));
    ApplyWellFormed(s, Push(key, weight));
    assert View(s').keys == View(s).keys + [KeyState(key, weight, true, 0, 0)];
  }

  lemma {:induction false} KeepIsWithout(objs: seq<KeyState>, ids: seq<nat>, key: string)
    requires IdsBelow(ids, |objs|)
    ensures IdsBelow(Keep(objs, ids, key), |objs|)
    ensures KeysAt(objs, Keep(objs, ids, key)) == Without(KeysAt(objs, ids), key)
  {
    if ids != [] {
      var n := |ids| - 1;
      var rest := Keep(objs, ids[..n], key);
      KeepIsWithout(objs, ids[..n], key);
      assert KeysAt(objs, ids)[..n] == KeysAt(objs, ids[..n]);
      assert KeysAt(objs, rest + [ids[n]]) == KeysAt(objs, rest) + [objs[ids[n]]];
    }
  }

  lemma RemoveCall(s: State, key: string)
    requires WellFormed(s) && Writable(s)
    ensures WellFormed(Apply(s, Remove(key))) && View(Apply(s, Remove(key))) == RemoveKey(View(s), key)
  {
    ApplyWellFormed(s, Remove(key));
    KeepIsWithout(s.objs, s.pool, key);
  }

  // ---------------------------------------------------------------- acquire

  /** The object ids at the listed positions. */
  function IdsAt(pool: seq<nat>, ps: seq<nat>): seq<nat>
    requires IdsBelow(ps, |pool|)
  {
    seq(|ps|, i requires 0 <= i < |ps| => pool[ps[i]])
  }

  /** The state of `s` with a scan that has passed the first `n` entries. */
  function ScanAt(s: State, n: nat): State
    requires WellFormed(s) && n <= |s.pool|
  {
    Start(s, Scanning(n, IdsAt(s.pool, HealthyList.Positions(View(s).keys, n))))
  }

  lemma ScanStart(s: State)
    requires WellFormed(s) && Readable(s) && NoScan(s)
    ensures Enabled(s, BeginAcquire) && Apply(s, BeginAcquire) == ScanAt(s, 0)
  {
    assert IdsAt(s.pool, HealthyList.Positions(View(s).keys, 0)) == [];
  }

  lemma LoadNext(s: State, n: nat)
    requires WellFormed(s) && n < |s.pool| && WellFormed(ScanAt(s, n))
    ensures Enabled(ScanAt(s, n), Load(|s.threads|))
    ensures Apply(ScanAt(s, n), Load(|s.threads|)) == ScanAt(s, n + 1)
  {
    hide Picks, Snapshot, Keep, Locate;
    var m := ScanAt(s, n);
    var t := |s.threads|;
    assert m.threads[t].Scanning? && m.threads[t].next == n;
    var seen := IdsAt(s.pool, HealthyList.Positions(View(s).keys, n));
    assert IdsAt(s.pool, HealthyList.Positions(View(s).keys, n + 1)) ==
      seen + if View(s).keys[n].healthy then [s.pool[n]] else [];
    assert m.threads[t := ScanAt(s, n + 1).threads[t]] == ScanAt(s, n + 1).threads;
  }

  /** After loading the first `n` entries a scan holds exactly the healthy ones among them. */
  lemma {:induction false} ScanCall(s: State, n: nat) returns (ss: seq<State>, steps: seq<Step>)
    requires WellFormed(s) && Readable(s) && NoScan(s) && n <= |s.pool|
    ensures Leads(s, ss, steps, ScanAt(s, n))
  {
    hide Apply, Enabled, ScanAt, View;
    var s';
    if n == 0 {
      ScanStart(s);
      ss, steps := Nothing(s);
      ss, steps, s' := Then(s, ss, steps, s, BeginAcquire);
    } else {
      ss, steps := ScanCall(s, n - 1);
      LoadNext(s, n - 1);
      ss, steps, s' := Then(s, ss, steps, ScanAt(s, n - 1), Load(|s.threads|));
    }
  }

  lemma {:induction false} SnapshotSums(s: State, ps: seq<nat>, m: nat)
    requires WellFormed(s) && IdsBelow(ps, |s.pool|) && m <= |ps|
    ensures IdsBelow(IdsAt(s.pool, ps), |s.objs|)
    ensures Prefix(Snapshot(s.objs, IdsAt(s.pool, ps)), m) == HealthyList.WeightAt(View(s).keys, ps, m)
  {
    if m > 0 {
      SnapshotSums(s, ps, m - 1);
    }
  }

  /** What a scan of the whole list holds. */
  function Collected(s: State): (r: seq<nat>)
    requires WellFormed(s)
    ensures IdsBelow(r, |s.objs|)
  {
    var keys := View(s).keys;
    IdsAt(s.pool, HealthyList.Positions(keys, |keys|))
  }

  lemma SnapshotTotal(s: State)
    requires WellFormed(s)
    ensures Total(Snapshot(s.objs, Collected(s))) == Total(View(s).keys)
  {
    var keys := View(s).keys;
    var ps := HealthyList.Positions(keys, |keys|);
    SnapshotSums(s, ps, |ps|);
    HealthyList.ListTotal(keys);
  }

  lemma SnapshotSelects(s: State, index: nat)
    requires WellFormed(s) && index < Wrap32(Total(View(s).keys)) && index < Wrap32(Total(Snapshot(s.objs, Collected(s))))
    ensures Collected(s)[Select(Snapshot(s.objs, Collected(s)), index)] == s.pool[Select(View(s).keys, index)]
  {
    var keys := View(s).keys;
    var ps := HealthyList.Positions(keys, |keys|);
    var snap := Snapshot(s.objs, Collected(s));
    var m := Select(snap, index);
    SnapshotSums(s, ps, m + 1);
    forall j: nat | j <= m
      ensures Wrap32(HealthyList.WeightAt(keys, ps, j)) <= index
    {
      SnapshotSums(s, ps, j);
    }
    HealthyList.SearchSelects(keys, index, m);
  }

  /** What the scan picks from its snapshot is what the value model selects. */
  lemma SnapshotPicks(s: State)
    requires WellFormed(s)
    ensures
      var total := Wrap32(Total(View(s).keys));
      Picks(s, Collected(s)) == if total == 0 then None else Some(s.pool[Select(View(s).keys, s.cursor % total)])
  {
    SnapshotTotal(s);
    var total := Wrap32(Total(View(s).keys));
    if total != 0 {
      SnapshotSelects(s, s.cursor % total);
    }
  }

  /** An uninterrupted acquire: its last step hands out the object the value model selects, or none. */
  lemma AcquireCall(s: State) returns (ss: seq<State>, steps: seq<Step>, s': State)
    requires WellFormed(s) && NoDuplicates(s.pool) && Readable(s) && NoScan(s)
    ensures Leads(s, ss, steps, s') && View(s') == Acquire(View(s)).1 && s'.threads == s.threads + [Done]
    ensures |steps| > 0 && steps[|steps| - 1] == Choose(|s.threads|)
    ensures
      var handed := HandedBy(ss[|steps| - 1], steps[|steps| - 1]);
      handed == match Acquire(View(s)).0 case None => None case Some(i) => Some(s.pool[i])
  {
    hide Apply, Enabled, ScanAt, View, Picks, Acquire, HandedBy;
    var m := ScanAt(s, |s.pool|);
    ss, steps := ScanCall(s, |s.pool|);
    ScanComplete(s, m);
    ChosenAsSpecified(m, |s.threads|);
    ss, steps, s' := Then(s, ss, steps, m, Choose(|s.threads|));
  }

  lemma ScanComplete(s: State, m: State)
    requires WellFormed(s) && m == ScanAt(s, |s.pool|) && WellFormed(m)
    ensures View(m) == View(s) && m.pool == s.pool && |m.threads| == |s.threads| + 1
    ensures m.threads[|s.threads|] == Scanning(|s.pool|, Collected(m)) && m.threads[|s.threads| := Done] == s.threads + [Done]
  {
  }

  /** A scan that holds the healthy keys of now hands out what the value model selects. */
  lemma ChosenAsSpecified(s: State, t: nat)
    requires WellFormed(s) && NoDuplicates(s.pool) && At(s, t) && s.threads[t] == Scanning(|s.pool|, Collected(s))
    ensures Enabled(s, Choose(t)) && WellFormed(Apply(s, Choose(t)))
    ensures View(Apply(s, Choose(t))) == Acquire(View(s)).1 && Apply(s, Choose(t)).threads == s.threads[t := Done]
    ensures HandedBy(s, Choose(t)) == match Acquire(View(s)).0 case None => None case Some(i) => Some(s.pool[i])
  {
    hide Picks, Snapshot, Total, Select, Acquire;
    var keys := View(s).keys;
    var total := Wrap32(Total(keys));
    ApplyWellFormed(s, Choose(t));
    SnapshotPicks(s);
    SnapshotTotal(s);
    if total == 0 {
      AcquireRefuses(View(s));
    } else {
      var i := Select(keys, s.cursor % total);
      AcquireGrants(View(s), total, i);
      ViewStored(s, Apply(s, Choose(t)), i, Served(keys[i]));
    }
  }
}
