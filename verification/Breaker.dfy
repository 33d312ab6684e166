/**
 The circuit breaker as a system of interleaved steps. Every load and store of a key's
 atomics that another task can observe is a step of its own; in-flight calls and recovery
 tasks are threads with a program counter; the clock is a step too. Objects are named by
 their index in `objs`, which holds every key object ever created, whether or not it is
 still in the pool. Steps are sequentially consistent.

 The locks of the program are kept: reports and acquires hold the read lock of the key
 list, add_key and remove_key the write lock, and only one acquire runs at a time.
 Recovery tasks take no lock.
 */
module Breaker {
  import opened Numbers
  import opened Results
  import opened PoolModel

  const COOLDOWN: real := 60.0

  datatype Thread =
    | Done
    | SuccessLocated(o: nat)                 // report_success: before its store
    | FailureLocated(o: nat)                 // report_failure: before the fetch_add
    | FailureCounted(o: nat, errors: u32)    // counted a third or later error, healthy not yet cleared
    | FailureTripped(o: nat, at: real)       // healthy cleared at time `at`, task not yet spawned
    | Sleeping(o: nat, deadline: real)       // recovery task in its sleep
    | Restored(o: nat)                       // recovery task between its two stores
    | Scanning(next: nat, seen: seq<nat>)    // acquire_key collecting the healthy keys
    | AddLocated(o: nat, weight: u32)        // add_key on an existing key: before its three stores
    | AddWeighed(o: nat)
    | AddHealed(o: nat)

  datatype State = State(now: real, objs: seq<KeyState>, pool: seq<nat>, cursor: nat, threads: seq<Thread>)

  datatype Step =
    | Tick(time: real)
    | BeginSuccess(key: string) | StoreZero(t: nat)
    | BeginFailure(key: string) | Count(t: nat) | Trip(t: nat) | Spawn(t: nat)
    | Restore(t: nat) | Forgive(t: nat)
    | BeginAcquire | Load(t: nat) | Choose(t: nat)
    | BeginAdd(key: string, weight: u32) | StoreWeight(t: nat) | StoreHealthy(t: nat) | StoreErrors(t: nat)
    | Push(key: string, weight: u32)
    | Remove(key: string)

  // ---------------------------------------------------------------- state predicates

  predicate Targets(th: Thread, o: nat) {
    match th
    case Done => false
    case Scanning(_, _) => false
    case SuccessLocated(x) => x == o
    case FailureLocated(x) => x == o
    case FailureCounted(x, _) => x == o
    case FailureTripped(x, _) => x == o
    case Sleeping(x, _) => x == o
    case Restored(x) => x == o
    case AddLocated(x, _) => x == o
    case AddWeighed(x) => x == o
    case AddHealed(x) => x == o
  }

  predicate Reads(th: Thread) {
    th.SuccessLocated? || th.FailureLocated? || th.FailureCounted? || th.FailureTripped? || th.Scanning?
  }

  predicate Writes(th: Thread) {
    th.AddLocated? || th.AddWeighed? || th.AddHealed?
  }

  predicate IdsBelow(ids: seq<nat>, n: nat) {
    forall i | 0 <= i < |ids| :: ids[i] < n
  }

  predicate ThreadInRange(th: Thread, n: nat) {
    match th
    case Done => true
    case Scanning(_, seen) => IdsBelow(seen, n)
    case SuccessLocated(x) => x < n
    case FailureLocated(x) => x < n
    case FailureCounted(x, _) => x < n
    case FailureTripped(x, _) => x < n
    case Sleeping(x, _) => x < n
    case Restored(x) => x < n
    case AddLocated(x, _) => x < n
    case AddWeighed(x) => x < n
    case AddHealed(x) => x < n
  }

  predicate WellFormed(s: State) {
    && IdsBelow(s.pool, |s.objs|)
    && forall t | 0 <= t < |s.threads| :: ThreadInRange(s.threads[t], |s.objs|)
  }

  function KeysAt(objs: seq<KeyState>, ids: seq<nat>): (r: seq<KeyState>)
    requires IdsBelow(ids, |objs|)
    ensures |r| == |ids| && forall i | 0 <= i < |ids| :: r[i] == objs[ids[i]]
  {
    seq(|ids|, i requires 0 <= i < |ids| => objs[ids[i]])
  }

  /** What the pool shows: the current values of the objects in the list, and the cursor. */
  function View(s: State): Pool
    requires WellFormed(s)
  {
    Pool(KeysAt(s.objs, s.pool), s.cursor)
  }

  /** The first object in the list with this key. */
  function Locate(s: State, key: string): (r: Option<nat>)
    requires WellFormed(s)
    ensures r.Some? ==> r.value < |s.objs| && r.value in s.pool && s.objs[r.value].key == key
  {
    match Find(View(s).keys, key)
    case None => None
    case Some(i) => Some(s.pool[i])
  }

  /** No writer holds the key list. */
  predicate Readable(s: State) {
    forall t | 0 <= t < |s.threads| :: !Writes(s.threads[t])
  }

  /** Nobody holds the key list. */
  predicate Writable(s: State) {
    forall t | 0 <= t < |s.threads| :: !Writes(s.threads[t]) && !Reads(s.threads[t])
  }

  predicate NoScan(s: State) {
    forall t | 0 <= t < |s.threads| :: !s.threads[t].Scanning?
  }

  /** The listed keys as the search sees them: collected as healthy, weights of now. */
  function Snapshot(objs: seq<KeyState>, seen: seq<nat>): (r: seq<KeyState>)
    requires IdsBelow(seen, |objs|)
    ensures |r| == |seen| && forall i | 0 <= i < |seen| :: r[i] == objs[seen[i]].(healthy := true)
  {
    seq(|seen|, i requires 0 <= i < |seen| => objs[seen[i]].(healthy := true))
  }

  /** The object a finishing acquire hands out, if any. */
  function Picks(s: State, seen: seq<nat>): (r: Option<nat>)
    requires IdsBelow(seen, |s.objs|)
    ensures r.Some? ==> r.value in seen && r.value < |s.objs|
  {
    var snap := Snapshot(s.objs, seen);
    var total := Wrap32(Total(snap));
    if total == 0 then None else Some(seen[Select(snap, s.cursor % total)])
  }

  // ---------------------------------------------------------------- steps

  predicate At(s: State, t: nat) {
    t < |s.threads|
  }

  /** The object a step hands out: that of a finishing acquire which finds one. */
  function HandedBy(s: State, a: Step): (r: Option<nat>)
    requires WellFormed(s)
  {
    if a.Choose? && At(s, a.t) && s.threads[a.t].Scanning? then Picks(s, s.threads[a.t].seen) else None
  }

  predicate Enabled(s: State, a: Step)
    requires WellFormed(s)
  {
    match a
    case Tick(time) => time >= s.now
    case BeginSuccess(key) => Readable(s) && Locate(s, key).Some?
    case StoreZero(t) => At(s, t) && s.threads[t].SuccessLocated?
    case BeginFailure(key) => Readable(s) && Locate(s, key).Some?
    case Count(t) => At(s, t) && s.threads[t].FailureLocated?
    case Trip(t) => At(s, t) && s.threads[t].FailureCounted?
    case Spawn(t) => At(s, t) && s.threads[t].FailureTripped?
    case Restore(t) => At(s, t) && s.threads[t].Sleeping? && s.threads[t].deadline <= s.now
    case Forgive(t) => At(s, t) && s.threads[t].Restored?
    case BeginAcquire => Readable(s) && NoScan(s)
    case Load(t) => At(s, t) && s.threads[t].Scanning? && s.threads[t].next < |s.pool|
    case Choose(t) => At(s, t) && s.threads[t].Scanning? && s.threads[t].next >= |s.pool|
    case BeginAdd(key, _) => Writable(s) && Locate(s, key).Some?
    case StoreWeight(t) => At(s, t) && s.threads[t].AddLocated?
    case StoreHealthy(t) => At(s, t) && s.threads[t].AddWeighed?
    case StoreErrors(t) => At(s, t) && s.threads[t].AddHealed?
    case Push(key, _) => Writable(s) && Locate(s, key).None?
    case Remove(_) => Writable(s)
  }

  function Goto(s: State, t: nat, th: Thread): State
    requires At(s, t)
  {
    s.(threads := s.threads[t := th])
  }

  function Start(s: State, th: Thread): State {
    s.(threads := s.threads + [th])
  }

  function Store(s: State, o: nat, k: KeyState): State
    requires o < |s.objs|
  {
    s.(objs := s.objs[o := k])
  }

  function Apply(s: State, a: Step): State
    requires WellFormed(s) && Enabled(s, a)
  {
    match a
    case Tick(time) => s.(now := time)
    case BeginSuccess(key) => Start(s, SuccessLocated(Locate(s, key).value))
    case StoreZero(t) =>
      var o := s.threads[t].o;
      Store(Goto(s, t, Done), o, s.objs[o].(errors := 0))
    case BeginFailure(key) => Start(s, FailureLocated(Locate(s, key).value))
    case Count(t) =>
      var o := s.threads[t].o;
      var errors := Wrap32(s.objs[o].errors + 1);
      Store(Goto(s, t, if errors >= 3 then FailureCounted(o, errors) else Done), o, s.objs[o].(errors := errors))
    case Trip(t) =>
      var o := s.threads[t].o;
      Store(Goto(s, t, FailureTripped(o, s.now)), o, s.objs[o].(healthy := false))
    case Spawn(t) => Goto(s, t, Sleeping(s.threads[t].o, s.now + COOLDOWN))
    case Restore(t) =>
      var o := s.threads[t].o;
      Store(Goto(s, t, Restored(o)), o, s.objs[o].(healthy := true))
    case Forgive(t) =>
      var o := s.threads[t].o;
      Store(Goto(s, t, Done), o, s.objs[o].(errors := 0))
    case BeginAcquire => Start(s, Scanning(0, []))
    case Load(t) =>
      var th := s.threads[t];
      var o := s.pool[th.next];
      Goto(s, t, Scanning(th.next + 1, if s.objs[o].healthy then th.seen + [o] else th.seen))
    case Choose(t) =>
      var th := s.threads[t];
      (match Picks(s, th.seen)
       case None => Goto(s, t, Done)
       case Some(o) =>
         Store(Goto(s, t, Done), o, Served(s.objs[o]))
           .(cursor := (s.cursor + 1) % Wrap32(Total(Snapshot(s.objs, th.seen)))))
    case BeginAdd(key, weight) => Start(s, AddLocated(Locate(s, key).value, weight))
    case StoreWeight(t) =>
      var th := s.threads[t];
      Store(Goto(s, t, AddWeighed(th.o)), th.o, s.objs[th.o].(weight := th.weight))
    case StoreHealthy(t) =>
      var o := s.threads[t].o;
      Store(Goto(s, t, AddHealed(o)), o, s.objs[o].(healthy := true))
    case StoreErrors(t) =>
      var o := s.threads[t].o;
      Store(Goto(s, t, Done), o, s.objs[o].(errors := 0))
    case Push(key, weight) =>
      s.(objs := s.objs + [KeyState(key, weight, true, 0, 0)], pool := s.pool + [|s.objs|])
    case Remove(key) => s.(pool := Keep(s.objs, s.pool, key))
  }

  /** The listed objects whose key differs, in order. */
  function Keep(objs: seq<KeyState>, ids: seq<nat>, key: string): (r: seq<nat>)
    requires IdsBelow(ids, |objs|)
    ensures forall o :: o in r <==> o in ids && objs[o].key != key
  {
    if ids == [] then []
    else
      var n := |ids| - 1;
      var rest := Keep(objs, ids[..n], key);
      assert ids == ids[..n] + [ids[n]];
      if objs[ids[n]].key == key then rest else rest + [ids[n]]
  }

  lemma ApplyWellFormed(s: State, a: Step)
    requires WellFormed(s) && Enabled(s, a)
    ensures WellFormed(Apply(s, a))
    ensures |Apply(s, a).objs| >= |s.objs| && |Apply(s, a).threads| >= |s.threads|
    ensures forall o | 0 <= o < |s.objs| :: Apply(s, a).objs[o].key == s.objs[o].key
    ensures Apply(s, a).now >= s.now
  {
    hide WellFormed, Apply, Enabled;
    StaysInRange(s, a);
    OnlyGrows(s, a);
  }

  lemma OnlyGrows(s: State, a: Step)
    requires WellFormed(s) && Enabled(s, a)
    ensures |Apply(s, a).objs| >= |s.objs| && |Apply(s, a).threads| >= |s.threads|
    ensures forall o | 0 <= o < |s.objs| :: Apply(s, a).objs[o].key == s.objs[o].key
    ensures Apply(s, a).now >= s.now
  {
    hide Picks, Snapshot, Keep, KeysAt, Locate;
  }

  lemma StaysInRange(s: State, a: Step)
    requires WellFormed(s) && Enabled(s, a)
    ensures WellFormed(Apply(s, a))
  {
    hide Picks, Snapshot, Keep, KeysAt, Locate;
    var s' := Apply(s, a);
    assert forall t | 0 <= t < |s.threads| :: ThreadInRange(s.threads[t], |s.objs|);
    if a.Remove? {
      forall i | 0 <= i < |s'.pool| ensures s'.pool[i] < |s.objs| {
        assert s'.pool[i] in s.pool;
      }
    }
  }

  /** The thread a step moves, if it moves an existing one. */
  function Actor(a: Step): Option<nat> {
    match a
    case StoreZero(t) => Some(t)
    case Count(t) => Some(t)
    case Trip(t) => Some(t)
    case Spawn(t) => Some(t)
    case Restore(t) => Some(t)
    case Forgive(t) => Some(t)
    case Load(t) => Some(t)
    case Choose(t) => Some(t)
    case StoreWeight(t) => Some(t)
    case StoreHealthy(t) => Some(t)
    case StoreErrors(t) => Some(t)
    case _ => None
  }

  /** A step leaves every thread alone but its actor. */
  lemma OtherThreadsKeep(s: State, a: Step, t: nat)
    requires WellFormed(s) && Enabled(s, a) && t < |s.threads| && Actor(a) != Some(t)
    ensures t < |Apply(s, a).threads| && Apply(s, a).threads[t] == s.threads[t]
  {
  }

  /** A start of the program: KeyPool::new, nothing in flight. */
  predicate Initial(s: State) {
    && s.threads == [] && s.cursor == 0
    && s.pool == seq(|s.objs|, i => i)
    && forall o | 0 <= o < |s.objs| :: s.objs[o].healthy && s.objs[o].errors == 0 && s.objs[o].requests == 0
  }

  // ---------------------------------------------------------------- invariants

  /** A writer of the key list excludes every other holder. */
  predicate Exclusive(s: State) {
    forall t, u | 0 <= t < |s.threads| && 0 <= u < |s.threads| && t != u ::
      Writes(s.threads[t]) ==> !Writes(s.threads[u]) && !Reads(s.threads[u])
  }

  /** Acquires are serialised. */
  predicate OneScan(s: State) {
    forall t, u | 0 <= t < |s.threads| && 0 <= u < |s.threads| && t != u ::
      !(s.threads[t].Scanning? && s.threads[u].Scanning?)
  }

  lemma ExclusiveKept(s: State, a: Step)
    requires WellFormed(s) && Enabled(s, a) && Exclusive(s)
    ensures Exclusive(Apply(s, a))
  {
    hide Picks, Snapshot, Keep, KeysAt, Locate;
    var s' := Apply(s, a);
    forall t, u | 0 <= t < |s'.threads| && 0 <= u < |s'.threads| && t != u && Writes(s'.threads[t])
      ensures !Writes(s'.threads[u]) && !Reads(s'.threads[u])
    {
      assert t < |s.threads| && u < |s.threads| ==> Writes(s.threads[t]);
    }
  }

  lemma OneScanKept(s: State, a: Step)
    requires WellFormed(s) && Enabled(s, a) && OneScan(s)
    ensures OneScan(Apply(s, a))
  {
    hide Picks, Snapshot, Keep, KeysAt, Locate;
  }

  /** `th` is about to clear the health, or the error count, of object `o`. */
  predicate Excuses(th: Thread, o: nat) {
    match th
    case FailureCounted(x, _) => x == o
    case Restored(x) => x == o
    case AddHealed(x) => x == o
    case _ => false
  }

  predicate Excused(s: State, o: nat) {
    exists t :: 0 <= t < |s.threads| && Excuses(s.threads[t], o)
  }

  /**
   A healthy key with three or more errors is seen only while some report is between its
   count and its store, or some reset is between its two stores.
   */
  predicate HalfOpenExcused(s: State) {
    forall o | 0 <= o < |s.objs| && s.objs[o].healthy && s.objs[o].errors >= 3 :: Excused(s, o)
  }

  lemma HalfOpenKept(s: State, a: Step)
    requires WellFormed(s) && Enabled(s, a) && HalfOpenExcused(s)
    ensures HalfOpenExcused(Apply(s, a))
  {
    hide Picks, Snapshot, Keep, KeysAt, Locate;
    var s' := Apply(s, a);
    forall o | 0 <= o < |s'.objs| && s'.objs[o].healthy && s'.objs[o].errors >= 3
      ensures Excused(s', o)
    {
      if o < |s.objs| && s.objs[o].healthy && s.objs[o].errors >= 3 {
        var t :| 0 <= t < |s.threads| && Excuses(s.threads[t], o);
        if Actor(a) != Some(t) {
          OtherThreadsKeep(s, a, t);
        }
        assert Excuses(s'.threads[t], o);
      } else {
        assert Excuses(s'.threads[Actor(a).value], o);
      }
    }
  }

  /** `th` will restore the health of object `o`. */
  predicate Rescues(th: Thread, o: nat) {
    match th
    case FailureTripped(x, _) => x == o
    case Sleeping(x, _) => x == o
    case _ => false
  }

  predicate Rescued(s: State, o: nat) {
    exists t :: 0 <= t < |s.threads| && Rescues(s.threads[t], o)
  }

  /** Every unhealthy object has a recovery pending, or a report about to spawn one. */
  predicate UnhealthyRescued(s: State) {
    forall o | 0 <= o < |s.objs| && !s.objs[o].healthy :: Rescued(s, o)
  }

  lemma UnhealthyRescuedKept(s: State, a: Step)
    requires WellFormed(s) && Enabled(s, a) && UnhealthyRescued(s)
    ensures UnhealthyRescued(Apply(s, a))
  {
    hide Picks, Snapshot, Keep, KeysAt, Locate;
    var s' := Apply(s, a);
    forall o | 0 <= o < |s'.objs| && !s'.objs[o].healthy
      ensures Rescued(s', o)
    {
      if !s.objs[o].healthy {
        var t :| 0 <= t < |s.threads| && Rescues(s.threads[t], o);
        if Actor(a) != Some(t) {
          OtherThreadsKeep(s, a, t);
        }
        assert Rescues(s'.threads[t], o);
      } else {
        assert Rescues(s'.threads[Actor(a).value], o);
      }
    }
  }

  /** No timer lies further ahead than one cooldown, and no trip lies in the future. */
  predicate TimersNear(s: State) {
    forall t | 0 <= t < |s.threads| ::
      && (s.threads[t].Sleeping? ==> s.threads[t].deadline <= s.now + COOLDOWN)
      && (s.threads[t].FailureTripped? ==> s.threads[t].at <= s.now)
  }

  lemma TimersNearKept(s: State, a: Step)
    requires WellFormed(s) && Enabled(s, a) && TimersNear(s)
    ensures TimersNear(Apply(s, a))
  {
    hide Picks, Snapshot, Keep, KeysAt, Locate;
  }

  predicate NoDuplicates(ids: seq<nat>) {
    forall i, j | 0 <= i < j < |ids| :: ids[i] != ids[j]
  }

  lemma {:induction false} KeepNoDuplicates(objs: seq<KeyState>, ids: seq<nat>, key: string)
    requires IdsBelow(ids, |objs|) && NoDuplicates(ids)
    ensures NoDuplicates(Keep(objs, ids, key))
  {
    if ids != [] {
      var n := |ids| - 1;
      KeepNoDuplicates(objs, ids[..n], key);
      forall i | 0 <= i < |Keep(objs, ids[..n], key)|
        ensures Keep(objs, ids[..n], key)[i] != ids[n]
      {
        assert Keep(objs, ids[..n], key)[i] in ids[..n];
      }
    }
  }

  /** No object is listed twice. */
  lemma NoDuplicatesKept(s: State, a: Step)
    requires WellFormed(s) && Enabled(s, a) && NoDuplicates(s.pool)
    ensures NoDuplicates(Apply(s, a).pool)
  {
    if a.Remove? {
      KeepNoDuplicates(s.objs, s.pool, a.key);
    }
  }

  predicate Inv(s: State) {
    && WellFormed(s) && NoDuplicates(s.pool) && Exclusive(s) && OneScan(s)
    && HalfOpenExcused(s) && UnhealthyRescued(s) && TimersNear(s)
  }

  lemma InitialInv(s: State)
    requires Initial(s)
    ensures Inv(s)
  {
  }

  lemma InvKept(s: State, a: Step)
    requires Inv(s) && Enabled(s, a)
    ensures Inv(Apply(s, a))
  {
    ApplyWellFormed(s, a);
    NoDuplicatesKept(s, a);
    ExclusiveKept(s, a);
    OneScanKept(s, a);
    HalfOpenKept(s, a);
    UnhealthyRescuedKept(s, a);
    TimersNearKept(s, a);
  }

  // ---------------------------------------------------------------- runs

  /** States ss[0], ss[1], ... joined by the steps. */
  ghost predicate Run(ss: seq<State>, steps: seq<Step>) {
    && |ss| == |steps| + 1
    && (forall k | 0 <= k < |ss| :: WellFormed(ss[k]))
    && forall k | 0 <= k < |steps| :: Enabled(ss[k], steps[k]) && ss[k + 1] == Apply(ss[k], steps[k])
  }

  lemma {:induction false} RunInv(ss: seq<State>, steps: seq<Step>, k: nat)
    requires Run(ss, steps) && Inv(ss[0]) && k < |ss|
    ensures Inv(ss[k])
  {
    if k > 0 {
      RunInv(ss, steps, k - 1);
      InvKept(ss[k - 1], steps[k - 1]);
    }
  }

  /**
   The breaker's safety over all interleavings: in every state of every run of the program
   a healthy key with three or more errors is in the middle of a report or reset, and an
   unhealthy object has a recovery on its way.
   */
  lemma BreakerSafety(ss: seq<State>, steps: seq<Step>, k: nat, o: nat)
    requires Run(ss, steps) && Initial(ss[0]) && k < |ss| && o < |ss[k].objs|
    ensures ss[k].objs[o].healthy && ss[k].objs[o].errors >= 3 ==> Excused(ss[k], o)
    ensures !ss[k].objs[o].healthy ==> Rescued(ss[k], o)
  {
    InitialInv(ss[0]);
    RunInv(ss, steps, k);
  }
}
