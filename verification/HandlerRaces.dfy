/**
 Admin handlers that overlap: each writes its table row first and publishes to the pool
 later, and other handlers may run in between. Two overlapping handlers of one key can leave
 pool and table disagreeing for good; the exact condition under which that cannot happen is
 proved, for a state and for the start of a handler.
 */
module HandlerRaces {
  import opened Numbers
  import opened Results
  import opened PoolModel
  import opened AdminModel

  /** What a handler still has to publish. */
  datatype Pending = Finished | Set(key: string, weight: i64) | Unset(key: string)

  datatype Live = Live(table: map<string, i64>, pool: Pool, pending: seq<Pending>)

  datatype Step =
    | StoreRow(key: string, weight: i64)   // add_downstream_key: its database call
    | PatchRow(key: string, weight: i64)   // update_downstream_key, whether or not the row exists
    | DropRow(key: string)                 // delete_downstream_key
    | Publish(h: nat)                      // handler h updates the pool

  predicate Concerns(p: Pending, key: string) {
    match p
    case Finished => false
    case Set(k, _) => k == key
    case Unset(k) => k == key
  }

  /** No unfinished handler is at work on the key. */
  predicate Free(s: Live, key: string) {
    forall h | 0 <= h < |s.pending| :: !Concerns(s.pending[h], key)
  }

  predicate Enabled(s: Live, a: Step) {
    match a
    case StoreRow(_, _) => true
    case PatchRow(_, _) => true
    case DropRow(_) => true
    case Publish(h) => h < |s.pending| && !s.pending[h].Finished?
  }

  /** The step starts a handler on a key another one is at work on. */
  predicate Overlaps(s: Live, a: Step) {
    match a
    case StoreRow(key, _) => !Free(s, key)
    case PatchRow(key, _) => !Free(s, key)
    case DropRow(key) => !Free(s, key)
    case Publish(_) => false
  }

  /** The step starts a PATCH that finds no row: it stores nothing, and will publish all the same. */
  predicate IsStrayStart(s: Live, a: Step) {
    a.PatchRow? && a.key !in s.table
  }

  function Next(s: Live, a: Step): Live
    requires Enabled(s, a)
  {
    match a
    case StoreRow(key, weight) => s.(table := s.table[key := weight], pending := s.pending + [Set(key, weight)])
    case PatchRow(key, weight) =>
      s.(table := if key in s.table then s.table[key := weight] else s.table, pending := s.pending + [Set(key, weight)])
    case DropRow(key) => s.(table := s.table - {key}, pending := s.pending + [Unset(key)])
    case Publish(h) =>
      match s.pending[h]
      case Finished => s
      case Set(key, weight) => s.(pool := AddKey(s.pool, key, Wrap32(weight)), pending := s.pending[h := Finished])
      case Unset(key) => s.(pool := RemoveKey(s.pool, key), pending := s.pending[h := Finished])
  }

  /** What a handler will make of its key in the pool: this weight, or no entry. */
  function Publishes(p: Pending): Option<u32>
    requires !p.Finished?
  {
    match p
    case Set(_, weight) => Some(Wrap32(weight))
    case Unset(_) => None
  }

  /** An unfinished handler will publish what the table holds. */
  predicate Current(p: Pending, table: map<string, i64>) {
    !p.Finished? ==> Publishes(p) == LookUp(Cast(table), p.key)
  }

  /** Every unfinished handler will publish what the table holds, and every other key agrees already. */
  ghost predicate Settling(s: Live) {
    && (forall h | 0 <= h < |s.pending| :: Current(s.pending[h], s.table))
    && (forall key :: Free(s, key) ==> SameAt(Weights(s.pool.keys), Cast(s.table), key))
  }

  predicate AllFinished(s: Live) {
    forall h | 0 <= h < |s.pending| :: s.pending[h].Finished?
  }

  // ---------------------------------------------------------------- one publication

  /** A publication gives its key what the handler publishes and leaves every other key alone. */
  lemma PublishEffect(s: Live, h: nat)
    requires DistinctKeys(s.pool.keys) && Enabled(s, Publish(h))
    ensures
      var s' := Next(s, Publish(h));
      && DistinctKeys(s'.pool.keys) && s'.table == s.table && s'.pending == s.pending[h := Finished]
      && LookUp(Weights(s'.pool.keys), s.pending[h].key) == Publishes(s.pending[h])
      && forall key | key != s.pending[h].key :: LookUp(Weights(s'.pool.keys), key) == LookUp(Weights(s.pool.keys), key)
  {
    hide DistinctKeys, Weights, AddKey, RemoveKey;
    match s.pending[h] {
      case Set(key, weight) => AddKeyWeights(s.pool, key, Wrap32(weight));
      case Unset(key) => RemoveKeyWeights(s.pool, key);
    }
  }

  /** A key that is free after handler `h` has finished was free before, or is that handler's own. */
  lemma FreedBy(s: Live, h: nat, key: string)
    requires h < |s.pending| && Free(s.(pending := s.pending[h := Finished]), key)
    ensures Free(s, key) || Concerns(s.pending[h], key)
  {
    var s' := s.(pending := s.pending[h := Finished]);
    if !Concerns(s.pending[h], key) {
      forall i | 0 <= i < |s.pending|
        ensures !Concerns(s.pending[i], key)
      {
        assert i != h ==> s'.pending[i] == s.pending[i];
      }
    }
  }

  lemma PublishKeepsSettling(s: Live, h: nat)
    requires DistinctKeys(s.pool.keys) && Settling(s) && Enabled(s, Publish(h))
    ensures DistinctKeys(Next(s, Publish(h)).pool.keys) && Settling(Next(s, Publish(h)))
  {
    hide DistinctKeys, Weights, Next, Cast, LookUp, SameAt;
    var s' := Next(s, Publish(h));
    PublishEffect(s, h);
    assert Current(s.pending[h], s.table);
    forall key
      ensures Free(s', key) ==> SameAt(Weights(s'.pool.keys), Cast(s'.table), key)
    {
      if Free(s', key) {
        FreedBy(s, h, key);
        SameAtIsLookUp(Weights(s.pool.keys), Cast(s.table), key);
        SameAtIsLookUp(Weights(s'.pool.keys), Cast(s'.table), key);
      }
    }
  }

  // ---------------------------------------------------------------- starting a handler

  /** What a handler started by this step will publish. */
  function WillPublish(a: Step): Option<u32>
    requires !a.Publish?
  {
    match a
    case StoreRow(_, weight) => Some(Wrap32(weight))
    case PatchRow(_, weight) => Some(Wrap32(weight))
    case DropRow(_) => None
  }

  /** Every unfinished handler of the same key would publish the same. */
  predicate Matches(s: Live, a: Step)
    requires !a.Publish?
  {
    forall h | 0 <= h < |s.pending| && Concerns(s.pending[h], a.key) :: Publishes(s.pending[h]) == WillPublish(a)
  }

  /** The database call of a handler changes its own row only, to what it will publish, unless it is a stray PATCH. */
  lemma StartEffect(s: Live, a: Step)
    requires Enabled(s, a) && !a.Publish?
    ensures
      var s' := Next(s, a);
      && s'.pool == s.pool && |s'.pending| == |s.pending| + 1
      && (forall h | 0 <= h < |s.pending| :: s'.pending[h] == s.pending[h])
      && Concerns(s'.pending[|s.pending|], a.key) && Publishes(s'.pending[|s.pending|]) == WillPublish(a)
      && (LookUp(Cast(s'.table), a.key) == WillPublish(a) <==> !IsStrayStart(s, a))
      && forall key | key != a.key :: LookUp(Cast(s'.table), key) == LookUp(Cast(s.table), key)
  {
  }

  /**
   The exact guard: starting a handler keeps the state settling if and only if every
   unfinished handler of the same key would publish the same and it is not a PATCH of a
   missing row.
   */
  lemma StartKeepsIff(s: Live, a: Step)
    requires Settling(s) && Enabled(s, a) && !a.Publish?
    ensures Settling(Next(s, a)) <==> Matches(s, a) && !IsStrayStart(s, a)
  {
    hide Weights, Next, Cast, LookUp, SameAt, Publishes, WillPublish;
    var s', n := Next(s, a), |s.pending|;
    StartEffect(s, a);
    assert Current(s'.pending[n], s'.table) <==> !IsStrayStart(s, a);
    if IsStrayStart(s, a) {
      return;
    }
    forall h | 0 <= h < n
      ensures Current(s'.pending[h], s'.table) <==> (Concerns(s.pending[h], a.key) ==> Publishes(s.pending[h]) == WillPublish(a))
    {
      assert Current(s.pending[h], s.table) && s'.pending[h] == s.pending[h];
    }
    forall key
      ensures Free(s', key) ==> SameAt(Weights(s'.pool.keys), Cast(s'.table), key)
    {
      if Free(s', key) {
        assert !Concerns(s'.pending[n], key);
        forall h | 0 <= h < n ensures !Concerns(s.pending[h], key) {
          assert s'.pending[h] == s.pending[h];
        }
        assert Free(s, key);
        SameAtIsLookUp(Weights(s.pool.keys), Cast(s.table), key);
        SameAtIsLookUp(Weights(s'.pool.keys), Cast(s'.table), key);
      }
    }
    if Matches(s, a) {
      forall h | 0 <= h < |s'.pending|
        ensures Current(s'.pending[h], s'.table)
      {
        assert h < n ==> (Concerns(s.pending[h], a.key) ==> Publishes(s.pending[h]) == WillPublish(a));
      }
    } else {
      var h :| 0 <= h < n && Concerns(s.pending[h], a.key) && Publishes(s.pending[h]) != WillPublish(a);
      assert !Current(s'.pending[h], s'.table);
    }
  }

  function NextAll(s: Live, steps: seq<Step>): Option<Live> {
    if steps == [] then Some(s)
    else
      var m := NextAll(s, steps[..|steps| - 1]);
      var a := steps[|steps| - 1];
      if m.Some? && Enabled(m.value, a) then Some(Next(m.value, a)) else None
  }

  lemma NextAllAppend(s: Live, steps: seq<Step>, a: Step)
    requires NextAll(s, steps).Some? && Enabled(NextAll(s, steps).value, a)
    ensures NextAll(s, steps + [a]) == Some(Next(NextAll(s, steps).value, a))
  {
    assert (steps + [a])[..|steps|] == steps;
  }

  // ---------------------------------------------------------------- finishing

  predicate OnlyPublishes(steps: seq<Step>) {
    forall n | 0 <= n < |steps| :: steps[n].Publish?
  }

  /** The steps let every outstanding handler publish, and start no other. */
  predicate Finishes(s: Live, steps: seq<Step>) {
    OnlyPublishes(steps) && NextAll(s, steps).Some? && AllFinished(NextAll(s, steps).value)
  }

  /** In whatever order the outstanding handlers publish, pool and table agree in the end. */
  ghost predicate EveryFinishAgrees(s: Live) {
    forall steps: seq<Step> | Finishes(s, steps) ::
      Weights(NextAll(s, steps).value.pool.keys) == Cast(NextAll(s, steps).value.table)
  }

  lemma {:induction false} PublishesKeepSettling(s: Live, steps: seq<Step>)
    requires DistinctKeys(s.pool.keys) && Settling(s) && OnlyPublishes(steps) && NextAll(s, steps).Some?
    ensures DistinctKeys(NextAll(s, steps).value.pool.keys) && Settling(NextAll(s, steps).value)
  {
    hide DistinctKeys, Settling, Next, Enabled;
    if steps != [] {
      var n := |steps| - 1;
      assert steps[n].Publish?;
      PublishesKeepSettling(s, steps[..n]);
      PublishKeepsSettling(NextAll(s, steps[..n]).value, steps[n].h);
    }
  }

  /** A settling state with nothing outstanding agrees on every key. */
  lemma SettledAgrees(s: Live)
    requires Settling(s) && AllFinished(s)
    ensures Weights(s.pool.keys) == Cast(s.table)
  {
    hide Weights, Cast;
    forall key
      ensures SameAt(Weights(s.pool.keys), Cast(s.table), key)
    {
      assert Free(s, key);
    }
    MapsAgree(Weights(s.pool.keys), Cast(s.table));
  }

  /** Unfinished handlers other than `except` among the first `n`. */
  function Outstanding(pending: seq<Pending>, except: nat, n: nat): nat
    requires n <= |pending|
  {
    if n == 0 then 0
    else Outstanding(pending, except, n - 1) + if pending[n - 1].Finished? || n - 1 == except then 0 else 1
  }

  lemma {:induction false} OutstandingDrops(pending: seq<Pending>, except: nat, h: nat, n: nat)
    requires h < |pending| && h != except && !pending[h].Finished? && n <= |pending|
    ensures Outstanding(pending[h := Finished], except, n) == Outstanding(pending, except, n) - if h < n then 1 else 0
  {
    if n > 0 {
      OutstandingDrops(pending, except, h, n - 1);
    }
  }

  lemma {:induction false} NoneOutstanding(pending: seq<Pending>, except: nat, n: nat)
    requires n <= |pending|
    ensures Outstanding(pending, except, n) == 0 <==> forall h: nat | h < n && h != except :: pending[h].Finished?
  {
    if n > 0 {
      NoneOutstanding(pending, except, n - 1);
    }
  }

  /**
   All handlers but `except` can publish, leaving that one as it is; a key that no other
   handler concerns keeps its entry in the pool.
   */
  lemma {:induction false} FinishOthers(s: Live, except: nat, done: seq<Step>, m: Live) returns (steps: seq<Step>)
    requires DistinctKeys(m.pool.keys) && OnlyPublishes(done) && NextAll(s, done) == Some(m)
    ensures OnlyPublishes(steps) && NextAll(s, steps).Some?
    ensures
      var s' := NextAll(s, steps).value;
      && DistinctKeys(s'.pool.keys) && s'.table == m.table && |s'.pending| == |m.pending|
      && (except < |m.pending| ==> s'.pending[except] == m.pending[except])
      && (forall h: nat | h < |s'.pending| && h != except :: s'.pending[h].Finished?)
      && forall key | Free(m, key) :: LookUp(Weights(s'.pool.keys), key) == LookUp(Weights(m.pool.keys), key)
    decreases Outstanding(m.pending, except, |m.pending|)
  {
    hide DistinctKeys, Weights, LookUp, Next, NextAll, Publishes, Outstanding;
    NoneOutstanding(m.pending, except, |m.pending|);
    if Outstanding(m.pending, except, |m.pending|) == 0 {
      steps := done;
    } else {
      var h: nat :| h < |m.pending| && h != except && !m.pending[h].Finished?;
      var m' := Next(m, Publish(h));
      PublishEffect(m, h);
      NextAllAppend(s, done, Publish(h));
      OutstandingDrops(m.pending, except, h, |m.pending|);
      steps := FinishOthers(s, except, done + [Publish(h)], m');
      forall key | Free(m, key)
        ensures Free(m', key) && key != m.pending[h].key
      {
        assert !Concerns(m.pending[h], key);
      }
    }
  }

  /** A free key on which pool and table disagree stays so however the others finish. */
  lemma FreeDisagreementStays(s: Live, key: string) returns (steps: seq<Step>)
    requires DistinctKeys(s.pool.keys) && Free(s, key) && !SameAt(Weights(s.pool.keys), Cast(s.table), key)
    ensures Finishes(s, steps)
    ensures Weights(NextAll(s, steps).value.pool.keys) != Cast(NextAll(s, steps).value.table)
  {
    hide DistinctKeys, Weights, Cast, LookUp;
    steps := FinishOthers(s, |s.pending|, [], s);
    var s' := NextAll(s, steps).value;
    assert AllFinished(s');
    SameAtIsLookUp(Weights(s.pool.keys), Cast(s.table), key);
  }

  /** A handler that would publish something else than the table holds can be the last to publish. */
  lemma StaleHandlerLast(s: Live, h: nat) returns (steps: seq<Step>)
    requires DistinctKeys(s.pool.keys) && h < |s.pending| && !Current(s.pending[h], s.table)
    ensures Finishes(s, steps)
    ensures Weights(NextAll(s, steps).value.pool.keys) != Cast(NextAll(s, steps).value.table)
  {
    hide DistinctKeys, Weights, Cast, LookUp, Next, Publishes;
    var first := FinishOthers(s, h, [], s);
    var m := NextAll(s, first).value;
    PublishEffect(m, h);
    NextAllAppend(s, first, Publish(h));
    steps := first + [Publish(h)];
    assert AllFinished(NextAll(s, steps).value);
  }

  /**
   The exact condition for overlapping handlers: every order of the outstanding publications
   ends in agreement if and only if every unfinished handler would publish what the table
   holds and every key without one agrees already.
   */
  lemma EveryFinishAgreesIff(s: Live)
    requires DistinctKeys(s.pool.keys)
    ensures EveryFinishAgrees(s) <==> Settling(s)
  {
    hide DistinctKeys, Weights, Cast, Current, SameAt, NextAll;
    if Settling(s) {
      forall steps: seq<Step> | Finishes(s, steps)
        ensures Weights(NextAll(s, steps).value.pool.keys) == Cast(NextAll(s, steps).value.table)
      {
        PublishesKeepSettling(s, steps);
        SettledAgrees(NextAll(s, steps).value);
      }
    } else if h: nat :| h < |s.pending| && !Current(s.pending[h], s.table) {
      var steps := StaleHandlerLast(s, h);
      assert Finishes(s, steps);
    } else {
      var key :| Free(s, key) && !SameAt(Weights(s.pool.keys), Cast(s.table), key);
      var steps := FreeDisagreementStays(s, key);
      assert Finishes(s, steps);
    }
  }

  // ---------------------------------------------------------------- handlers that do not overlap

  /** No step of the run starts a handler on a key that another one is at work on, or a stray PATCH. */
  predicate SerialPerKey(s: Live, steps: seq<Step>) {
    forall n | 0 <= n < |steps| :: NextAll(s, steps[..n]).Some? ==> Careful(NextAll(s, steps[..n]).value, steps[n])
  }

  predicate Careful(s: Live, a: Step) {
    !Overlaps(s, a) && !IsStrayStart(s, a)
  }

  lemma {:induction false} SerialRunsSettle(s: Live, steps: seq<Step>)
    requires DistinctKeys(s.pool.keys) && Settling(s) && SerialPerKey(s, steps) && NextAll(s, steps).Some?
    ensures DistinctKeys(NextAll(s, steps).value.pool.keys) && Settling(NextAll(s, steps).value)
  {
    hide DistinctKeys, Settling;
    if steps != [] {
      var n := |steps| - 1;
      var init := steps[..n];
      forall m | 0 <= m < n
        ensures NextAll(s, init[..m]).Some? ==> Careful(NextAll(s, init[..m]).value, init[m])
      {
        assert init[..m] == steps[..m] && init[m] == steps[m];
      }
      SerialRunsSettle(s, init);
      if steps[n].Publish? {
        PublishKeepsSettling(NextAll(s, init).value, steps[n].h);
      } else {
        StartKeepsIff(NextAll(s, init).value, steps[n]);
        StartEffect(NextAll(s, init).value, steps[n]);
      }
    }
  }

  /**
   Overlapping handlers of different keys are harmless: from agreement and with no handler
   at work, after any interleaving in which no two handlers of one key overlap and no PATCH
   misses its row, every order of what is still outstanding ends in agreement.
   */
  lemma SerialPerKeyAgrees(s: Live, steps: seq<Step>)
    requires DistinctKeys(s.pool.keys) && Weights(s.pool.keys) == Cast(s.table) && s.pending == []
    requires SerialPerKey(s, steps) && NextAll(s, steps).Some?
    ensures EveryFinishAgrees(NextAll(s, steps).value)
  {
    hide DistinctKeys, Weights, Cast;
    assert Settling(s);
    SerialRunsSettle(s, steps);
    EveryFinishAgreesIff(NextAll(s, steps).value);
  }

  /**
   Two overlapping adds of one key that publish in the opposite order of their database
   calls leave the table with the second weight and the pool with the first.
   */
  lemma SameKeyOverlapDisagrees(s: Live, key: string, first: u32, second: u32)
    requires s == Live(map[], Pool([], 0), []) && first != second
    ensures
      var steps := [StoreRow(key, first), StoreRow(key, second), Publish(1), Publish(0)];
      var end := NextAll(s, steps);
      && end.Some? && (forall h | 0 <= h < |end.value.pending| :: end.value.pending[h].Finished?)
      && Weights(end.value.pool.keys) == map[key := first] && Cast(end.value.table) == map[key := second]
  {
    hide NextAll, Weights, AddKey, Cast;
    var a, b, c, d := StoreRow(key, first), StoreRow(key, second), Publish(1), Publish(0);
    assert [] + [a] == [a] && [a] + [b] == [a, b] && [a, b] + [c] == [a, b, c] && [a, b, c] + [d] == [a, b, c, d];
    var s1 := OneMore(s, [], s, a);
    var s2 := OneMore(s, [a], s1, b);
    assert s2.pending == [Set(key, first), Set(key, second)];
    var s3 := OneMore(s, [a, b], s2, c);
    var s4 := OneMore(s, [a, b, c], s3, d);
    NoKeysNoWeights();
    AddKeyWeights(s2.pool, key, second);
    AddKeyWeights(s3.pool, key, first);
    OneCast(key, second);
    assert s4.table == map[key := second as i64];
  }

  /** A DELETE overtaken by a PATCH of the same key: whatever else is going on, pool and table may part. */
  lemma DeleteThenPatchDisagrees(s: Live, key: string, weight: i64)
    requires DistinctKeys(s.pool.keys)
    ensures
      var end := NextAll(s, [DropRow(key), PatchRow(key, weight)]);
      end.Some? && !EveryFinishAgrees(end.value)
  {
    hide DistinctKeys, EveryFinishAgrees;
    var a, b := DropRow(key), PatchRow(key, weight);
    assert [] + [a] == [a] && [a] + [b] == [a, b];
    var s1 := OneMore(s, [], s, a);
    var s2 := OneMore(s, [a], s1, b);
    assert !Current(s2.pending[|s.pending| + 1], s2.table);
    EveryFinishAgreesIff(s2);
  }

  lemma OneMore(s: Live, steps: seq<Step>, m: Live, a: Step) returns (m': Live)
    requires (steps == [] && m == s) || NextAll(s, steps) == Some(m)
    requires Enabled(m, a)
    ensures m' == Next(m, a) && NextAll(s, steps + [a]) == Some(m')
  {
    m' := Next(m, a);
    assert (steps + [a])[..|steps|] == steps;
  }

  lemma NoKeysNoWeights()
    ensures DistinctKeys([]) && Weights([]) == map[]
  {
  }

  lemma OneCast(key: string, weight: u32)
    ensures Cast(map[key := weight]) == map[key := weight]
  {
  }
}
