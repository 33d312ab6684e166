/**
 The live caches beside their database tables, as values: what each admin operation does to
 both, and what a start of the program builds from the tables and the configuration.
 Tables are maps keyed by primary key.
 */
module AdminModel {
  import opened Numbers
  import opened Results
  import opened PoolModel
  import opened Trimming

  datatype ClientRow = ClientRow(description: Option<string>, rateLimit: Option<i64>)

  datatype Tables = Tables(clients: map<string, ClientRow>, downstream: map<string, i64>)

  /** The tables, the key pool, and the set of accepted client keys. */
  datatype App = App(tables: Tables, pool: Pool, clientKeys: set<string>)

  /** The client key an add request stands for: the given one, trimmed, or a generated one. */
  function ClientKeyOf(given: Option<string>, generated: string): string {
    if given.Some? && Trim(given.value) != [] then Trim(given.value) else generated
  }

  function AtLeastOne(weight: i64): i64 {
    if weight < 1 then 1 else weight
  }

  /**
   Everything that happens to the state between starts. `dbOk` says whether the database
   call succeeds; a failed call changes nothing and the handler returns its error. Traffic
   is whatever acquires, reports and recoveries do to the pool (see TrafficKeepsWeights).
   */
  datatype Op =
    | AddDownstream(key: string, weight: i64, dbOk: bool)
    | UpdateDownstream(key: string, weight: i64, dbOk: bool)
    | DeleteDownstream(key: string, dbOk: bool)
    | AddClient(given: Option<string>, generated: string, row: ClientRow, dbOk: bool)
    | DeleteClient(key: string, dbOk: bool)
    | Traffic(after: Pool)

  function Apply(app: App, op: Op): App {
    match op
    case AddDownstream(key, weight, dbOk) =>
      if !dbOk then app
      else app.(tables := app.tables.(downstream := app.tables.downstream[Trim(key) := weight]),
                pool := AddKey(app.pool, Trim(key), Wrap32(weight)))
    case UpdateDownstream(key, weight, dbOk) =>
      if !dbOk then app
      else
        var w := AtLeastOne(weight);
        app.(tables := if key in app.tables.downstream
                       then app.tables.(downstream := app.tables.downstream[key := w]) else app.tables,
             pool := AddKey(app.pool, key, Wrap32(w)))
    case DeleteDownstream(key, dbOk) =>
      if !dbOk then app
      else app.(tables := app.tables.(downstream := app.tables.downstream - {key}), pool := RemoveKey(app.pool, key))
    case AddClient(given, generated, row, dbOk) =>
      if !dbOk then app
      else
        var key := ClientKeyOf(given, generated);
        app.(tables := app.tables.(clients := app.tables.clients[key := row]), clientKeys := app.clientKeys + {key})
    case DeleteClient(key, dbOk) =>
      if !dbOk then app
      else app.(tables := app.tables.(clients := app.tables.clients - {key}), clientKeys := app.clientKeys - {key})
    case Traffic(after) => if SameKeysAndWeights(app.pool.keys, after.keys) then app.(pool := after) else app
  }

  // ---------------------------------------------------------------- agreement

  /** Stored weights as the pool holds them. */
  function Cast(weights: map<string, i64>): map<string, u32> {
    map key | key in weights :: Wrap32(weights[key])
  }

  /** The caches show what the tables hold. */
  predicate Agreement(app: App) {
    && DistinctKeys(app.pool.keys)
    && Weights(app.pool.keys) == Cast(app.tables.downstream)
    && app.clientKeys == app.tables.clients.Keys
  }

  /** Both maps say the same about the key. */
  predicate SameAt(m: map<string, u32>, n: map<string, u32>, key: string) {
    (key in m <==> key in n) && (key in m && key in n ==> m[key] == n[key])
  }

  function LookUp(m: map<string, u32>, key: string): Option<u32> {
    if key in m then Some(m[key]) else None
  }

  lemma SameAtIsLookUp(m: map<string, u32>, n: map<string, u32>, key: string)
    ensures SameAt(m, n, key) <==> LookUp(m, key) == LookUp(n, key)
  {
  }

  lemma MapsAgree(m: map<string, u32>, n: map<string, u32>)
    requires forall key :: SameAt(m, n, key)
    ensures m == n
  {
    forall key
      ensures key in m <==> key in n
    {
      assert SameAt(m, n, key);
    }
    forall key | key in m
      ensures m[key] == n[key]
    {
      assert SameAt(m, n, key);
    }
  }

  /** A PATCH that reaches the pool for a key the table does not have. */
  predicate IsStray(app: App, op: Op) {
    op.UpdateDownstream? && op.dbOk && op.key !in app.tables.downstream
  }

  /** Acquires, reports and recoveries are traffic: they change neither keys nor weights. */
  lemma TrafficKeepsWeights(p: Pool, key: string, i: nat)
    ensures SameKeysAndWeights(p.keys, Acquire(p).1.keys)
    ensures SameKeysAndWeights(p.keys, ReportSuccess(p, key).keys)
    ensures SameKeysAndWeights(p.keys, ReportFailure(p, key).keys)
    ensures i < |p.keys| ==> SameKeysAndWeights(p.keys, p.keys[i := Recovered(p.keys[i])])
  {
    hide Prefix, FindFrom, Total, Covers, Select;
  }

  lemma CastInserts(m: map<string, i64>, key: string, weight: i64)
    ensures Cast(m[key := weight]) == Cast(m)[key := Wrap32(weight)]
    ensures Cast(m - {key}) == Cast(m) - {key}
  {
  }

  /**
   The exact condition under which an operation keeps pool, client set and tables in
   agreement: it is not a PATCH of a key that the table does not have.
   */
  lemma AgreementKeptIff(app: App, op: Op)
    requires Agreement(app)
    ensures Agreement(Apply(app, op)) <==> !IsStray(app, op)
  {
    hide DistinctKeys, Weights, Cast, AddKey, RemoveKey, SameKeysAndWeights;
    match op
    case AddDownstream(key, weight, _) =>
      AddKeyWeights(app.pool, Trim(key), Wrap32(weight));
      CastInserts(app.tables.downstream, Trim(key), weight);
    case UpdateDownstream(key, weight, _) =>
      AddKeyWeights(app.pool, key, Wrap32(AtLeastOne(weight)));
      CastInserts(app.tables.downstream, key, AtLeastOne(weight));
      CastKeys(app.tables.downstream);
    case DeleteDownstream(key, _) =>
      RemoveKeyWeights(app.pool, key);
      CastInserts(app.tables.downstream, key, 0);
    case AddClient(_, _, _, _) =>
    case DeleteClient(_, _) =>
    case Traffic(after) =>
      if SameKeysAndWeights(app.pool.keys, after.keys) {
        SameKeysSameWeights(app.pool.keys, after.keys);
      }
  }

  /** A PATCH of a key that the table lacks puts a key in the pool that no row describes. */
  lemma StrayPatchDisagrees()
    ensures
      var app := App(Tables(map[], map[]), Pool([], 0), {});
      Agreement(app) && !Agreement(Apply(app, UpdateDownstream("key", 1, true)))
  {
    var app := App(Tables(map[], map[]), Pool([], 0), {});
    assert Weights(app.pool.keys) == map[] == Cast(map[]);
    AgreementKeptIff(app, UpdateDownstream("key", 1, true));
  }

  lemma CastKeys(m: map<string, i64>)
    ensures Cast(m).Keys == m.Keys
  {
  }

  function ApplyAll(app: App, ops: seq<Op>): App {
    if ops == [] then app else Apply(ApplyAll(app, ops[..|ops| - 1]), ops[|ops| - 1])
  }

  // A run may leave agreement and find back to it: what counts for a key is its last operation.

  /** The operation sets both the row and the pool entry of the key, or removes both, whatever they were. */
  predicate Settles(op: Op, key: string) {
    || (op.AddDownstream? && op.dbOk && Trim(op.key) == key)
    || (op.DeleteDownstream? && op.dbOk && op.key == key)
  }

  /** Operation `n` of the run is a stray PATCH of the key, and no later add or delete of the key succeeds. */
  predicate IsLastingStray(app: App, ops: seq<Op>, key: string, n: nat) {
    && n < |ops| && IsStray(ApplyAll(app, ops[..n]), ops[n]) && ops[n].key == key
    && forall m | n < m < |ops| :: !Settles(ops[m], key)
  }

  /** The same, told from the end of the run. */
  predicate Strayed(app: App, ops: seq<Op>, key: string) {
    if ops == [] then false
    else
      var init, last := ops[..|ops| - 1], ops[|ops| - 1];
      if Settles(last, key) then false
      else (IsStray(ApplyAll(app, init), last) && last.key == key) || Strayed(app, init, key)
  }

  /** Pool and table say the same about the key. */
  predicate AgreesAt(app: App, key: string) {
    LookUp(Weights(app.pool.keys), key) == LookUp(Cast(app.tables.downstream), key)
  }

  /** One operation, seen from one key. */
  lemma OneOperation(app: App, op: Op, key: string)
    requires DistinctKeys(app.pool.keys)
    ensures
      var app' := Apply(app, op);
      var stray := IsStray(app, op) && op.key == key;
      && DistinctKeys(app'.pool.keys)
      && (Settles(op, key) ==> AgreesAt(app', key))
      && (stray ==> !AgreesAt(app', key) && key !in app'.tables.downstream)
      && (!Settles(op, key) && !stray && (AgreesAt(app, key) || key !in app.tables.downstream) ==>
            && (AgreesAt(app', key) <==> AgreesAt(app, key))
            && (key in app'.tables.downstream <==> key in app.tables.downstream))
  {
    hide DistinctKeys, Weights, Cast, AddKey, RemoveKey, SameKeysAndWeights;
    CastKeys(app.tables.downstream);
    match op
    case AddDownstream(k, weight, _) =>
      AddKeyWeights(app.pool, Trim(k), Wrap32(weight));
      CastInserts(app.tables.downstream, Trim(k), weight);
    case UpdateDownstream(k, weight, _) =>
      AddKeyWeights(app.pool, k, Wrap32(AtLeastOne(weight)));
      CastInserts(app.tables.downstream, k, AtLeastOne(weight));
    case DeleteDownstream(k, _) =>
      RemoveKeyWeights(app.pool, k);
      CastInserts(app.tables.downstream, k, 0);
    case AddClient(_, _, _, _) =>
    case DeleteClient(_, _) =>
    case Traffic(after) =>
      if SameKeysAndWeights(app.pool.keys, after.keys) {
        SameKeysSameWeights(app.pool.keys, after.keys);
      }
  }

  lemma ClientsFollow(app: App, op: Op)
    requires app.clientKeys == app.tables.clients.Keys
    ensures Apply(app, op).clientKeys == Apply(app, op).tables.clients.Keys
  {
  }

  lemma {:induction false} RunSeenFromKey(app: App, ops: seq<Op>, key: string)
    requires Agreement(app)
    ensures
      var end := ApplyAll(app, ops);
      && DistinctKeys(end.pool.keys) && end.clientKeys == end.tables.clients.Keys
      && (AgreesAt(end, key) <==> !Strayed(app, ops, key))
      && (Strayed(app, ops, key) ==> key !in end.tables.downstream)
  {
    hide AgreesAt, DistinctKeys, Apply, Settles, IsStray;
    if ops == [] {
      AgreesEverywhere(app);
    } else {
      var init, last := ops[..|ops| - 1], ops[|ops| - 1];
      RunSeenFromKey(app, init, key);
      OneOperation(ApplyAll(app, init), last, key);
      ClientsFollow(ApplyAll(app, init), last);
    }
  }

  lemma AgreesEverywhere(app: App)
    requires DistinctKeys(app.pool.keys) && app.clientKeys == app.tables.clients.Keys
    ensures Agreement(app) <==> forall key :: AgreesAt(app, key)
  {
    hide DistinctKeys, Weights, Cast;
    var m, n := Weights(app.pool.keys), Cast(app.tables.downstream);
    if forall key :: AgreesAt(app, key) {
      forall key
        ensures SameAt(m, n, key)
      {
        assert AgreesAt(app, key);
        SameAtIsLookUp(m, n, key);
      }
      MapsAgree(m, n);
    }
  }

  lemma {:induction false} StrayedIsLasting(app: App, ops: seq<Op>, key: string)
    ensures Strayed(app, ops, key) <==> exists n: nat :: IsLastingStray(app, ops, key, n)
  {
    if ops != [] {
      var e := |ops| - 1;
      var init, last := ops[..e], ops[e];
      StrayedIsLasting(app, init, key);
      StrayAtEnd(app, init, last, key);
      assert ops == init + [last];
      hide IsLastingStray, IsStray, Settles;
      if Strayed(app, init, key) && !Settles(last, key) {
        var n: nat :| IsLastingStray(app, init, key, n);
        assert IsLastingStray(app, ops, key, n);
      }
      if n: nat :| IsLastingStray(app, ops, key, n) {
        assert n == e || IsLastingStray(app, init, key, n);
      }
    }
  }

  /** The last operation can be a lasting stray PATCH, and can end the effect of earlier ones. */
  lemma StrayAtEnd(app: App, init: seq<Op>, last: Op, key: string)
    ensures
      var ops, e := init + [last], |init|;
      && (IsLastingStray(app, ops, key, e) <==> IsStray(ApplyAll(app, init), last) && last.key == key)
      && (IsStray(ApplyAll(app, init), last) ==> !Settles(last, key))
      && forall n: nat | n != e :: IsLastingStray(app, ops, key, n) <==> IsLastingStray(app, init, key, n) && !Settles(last, key)
  {
    hide ApplyAll;
    var ops, e := init + [last], |init|;
    assert ops[..e] == init;
    forall n: nat | n < e
      ensures IsLastingStray(app, ops, key, n) <==> IsLastingStray(app, init, key, n) && !Settles(last, key)
    {
      StrayBefore(app, init, last, key, n);
    }
  }

  lemma StrayBefore(app: App, init: seq<Op>, last: Op, key: string, n: nat)
    requires n < |init|
    ensures IsLastingStray(app, init + [last], key, n) <==> IsLastingStray(app, init, key, n) && !Settles(last, key)
  {
    hide Settles, ApplyAll;
    var ops, e := init + [last], |init|;
    assert ops[..n] == init[..n] && ops[e] == last;
    assert forall m | n < m < e :: init[m] == ops[m];
  }

  /**
   The exact condition over whole runs: after any sequence of admin operations and traffic,
   pool, client set and tables agree if and only if every stray PATCH in it was followed by
   a successful add or delete of its key.
   */
  lemma AgreementAfterRunIff(app: App, ops: seq<Op>)
    requires Agreement(app)
    ensures Agreement(ApplyAll(app, ops)) <==> forall key: string, n: nat :: !IsLastingStray(app, ops, key, n)
  {
    hide Agreement, AgreesAt, DistinctKeys, ApplyAll, IsLastingStray, Strayed;
    var end := ApplyAll(app, ops);
    RunSeenFromKey(app, ops, "");
    AgreesEverywhere(end);
    forall key
      ensures AgreesAt(end, key) <==> !Strayed(app, ops, key)
    {
      RunSeenFromKey(app, ops, key);
    }
    if key, n: nat :| IsLastingStray(app, ops, key, n) {
      StrayedIsLasting(app, ops, key);
      assert !AgreesAt(end, key);
    } else {
      forall key
        ensures AgreesAt(end, key)
      {
        StrayedIsLasting(app, ops, key);
      }
    }
  }

  /** No operation of the run is a stray PATCH at its time. */
  predicate NoStray(app: App, ops: seq<Op>) {
    forall n | 0 <= n < |ops| :: !IsStray(ApplyAll(app, ops[..n]), ops[n])
  }

  /** In particular, agreement holds after every run without stray PATCHes. */
  lemma AgreementOverRuns(app: App, ops: seq<Op>)
    requires Agreement(app) && NoStray(app, ops)
    ensures Agreement(ApplyAll(app, ops))
  {
    hide Agreement, ApplyAll, IsStray;
    AgreementAfterRunIff(app, ops);
  }

  // ---------------------------------------------------------------- start of the program

  datatype Config = Config(clientKeys: seq<string>, downstreamKeys: seq<(string, u32)>)

  const IMPORTED: ClientRow := ClientRow(Some("Imported from config"), None)

  function SeededClients(keys: seq<string>): map<string, ClientRow> {
    if keys == [] then map[] else SeededClients(keys[..|keys| - 1])[keys[|keys| - 1] := IMPORTED]
  }

  /** Rows inserted one by one: a repeated key keeps its last weight. */
  function SeededWeights(list: seq<(string, u32)>): map<string, i64> {
    if list == [] then map[] else SeededWeights(list[..|list| - 1])[list[|list| - 1].0 := list[|list| - 1].1]
  }

  /** KeyPool::new. */
  function NewPool(list: seq<(string, u32)>): Pool {
    Pool(seq(|list|, i requires 0 <= i < |list| => KeyState(list[i].0, list[i].1, true, 0, 0)), 0)
  }

  predicate Names(list: seq<(string, u32)>, key: string) {
    exists i :: 0 <= i < |list| && list[i].0 == key
  }

  /** The table's rows with their weights cast, each key once, in some order. */
  predicate Lists(list: seq<(string, u32)>, m: map<string, i64>) {
    && (forall i, j | 0 <= i < j < |list| :: list[i].0 != list[j].0)
    && (forall i | 0 <= i < |list| :: list[i].0 in m && list[i].1 == Wrap32(m[list[i].0]))
    && (forall key | key in m :: Names(list, key))
  }

  /** What a start may build: `app` from tables and configuration, rows coming back in some order. */
  ghost predicate Boots(before: Tables, config: Config, app: App) {
    && app.tables.clients == (if before.clients == map[] then SeededClients(config.clientKeys) else before.clients)
    && app.clientKeys == (if before.clients == map[] then (set key | key in config.clientKeys) else before.clients.Keys)
    && (if before.downstream == map[] && config.downstreamKeys != []
        then app.tables.downstream == SeededWeights(config.downstreamKeys) && app.pool == NewPool(config.downstreamKeys)
        else app.tables.downstream == before.downstream && exists list :: Lists(list, before.downstream) && app.pool == NewPool(list))
  }

  // A start makes a list of database calls: it reads the client table, stores the configured
  // client keys if that is empty, and then does the same for the downstream table. The first
  // `calls` of them succeed; the next one, if there is one, fails and ends the start.

  function ClientCalls(clients: map<string, ClientRow>, config: Config): nat {
    1 + if clients == map[] then |config.clientKeys| else 0
  }

  function DownstreamCalls(downstream: map<string, i64>, config: Config): nat {
    1 + if downstream == map[] then |config.downstreamKeys| else 0
  }

  predicate StartSucceeds(before: Tables, config: Config, calls: nat) {
    calls >= ClientCalls(before.clients, config) + DownstreamCalls(before.downstream, config)
  }

  /** Rows stored by the first `calls` calls of one load: a read, and then `wanted` insertions. */
  function Stored(calls: nat, wanted: nat): (r: nat)
    ensures r <= wanted
  {
    if calls == 0 then 0 else Least(calls - 1, wanted)
  }

  function CallsLeft(calls: nat, needed: nat): nat {
    if calls >= needed then calls - needed else 0
  }

  function ClientsAfter(clients: map<string, ClientRow>, config: Config, calls: nat): map<string, ClientRow> {
    if clients == map[] then SeededClients(config.clientKeys[..Stored(calls, |config.clientKeys|)]) else clients
  }

  function DownstreamAfter(downstream: map<string, i64>, config: Config, calls: nat): map<string, i64> {
    if downstream == map[] then SeededWeights(config.downstreamKeys[..Stored(calls, |config.downstreamKeys|)]) else downstream
  }

  /** The tables a start leaves behind, whether or not it succeeds. */
  function TablesAfter(before: Tables, config: Config, calls: nat): Tables {
    Tables(ClientsAfter(before.clients, config, calls),
           DownstreamAfter(before.downstream, config, CallsLeft(calls, ClientCalls(before.clients, config))))
  }

  lemma {:induction false} SeededClientKeys(keys: seq<string>)
    ensures SeededClients(keys).Keys == set key | key in keys
  {
    if keys != [] {
      var n := |keys| - 1;
      SeededClientKeys(keys[..n]);
      assert keys == keys[..n] + [keys[n]];
    }
  }

  predicate DistinctConfig(list: seq<(string, u32)>) {
    forall i, j | 0 <= i < j < |list| :: list[i].0 != list[j].0
  }

  lemma {:induction false} SeededMembers(list: seq<(string, u32)>, i: nat)
    requires DistinctConfig(list) && i < |list|
    ensures list[i].0 in SeededWeights(list) && SeededWeights(list)[list[i].0] == list[i].1
  {
    var n := |list| - 1;
    if i < n {
      SeededMembers(list[..n], i);
      assert list[..n][i] == list[i] && list[i].0 != list[n].0;
    }
  }

  lemma {:induction false} SeededKeys(list: seq<(string, u32)>, key: string)
    ensures key in SeededWeights(list) ==> Names(list, key)
  {
    if list != [] {
      var n := |list| - 1;
      SeededKeys(list[..n], key);
      if key in SeededWeights(list) {
        if key == list[n].0 {
          assert list[n].0 == key;
        } else {
          var i :| 0 <= i < n && list[..n][i].0 == key;
          assert list[i].0 == key;
        }
      }
    }
  }

  /** A pool built from a listing of the table shows the table's weights. */
  lemma ListedPoolAgrees(list: seq<(string, u32)>, m: map<string, i64>)
    requires Lists(list, m)
    ensures DistinctKeys(NewPool(list).keys) && Weights(NewPool(list).keys) == Cast(m)
  {
    var keys := NewPool(list).keys;
    forall i, j | 0 <= i < j < |keys|
      ensures keys[i].key != keys[j].key
    {
      assert list[i].0 != list[j].0;
    }
    forall key | key in Cast(m)
      ensures key in KeyNames(keys)
    {
      var i :| 0 <= i < |list| && list[i].0 == key;
      assert keys[i].key == key;
    }
    WeightsAre(keys, Cast(m));
  }

  lemma SeededLists(list: seq<(string, u32)>)
    requires DistinctConfig(list)
    ensures Lists(list, SeededWeights(list))
  {
    forall i | 0 <= i < |list|
      ensures list[i].0 in SeededWeights(list) && list[i].1 == Wrap32(SeededWeights(list)[list[i].0])
    {
      SeededMembers(list, i);
    }
    forall key | key in SeededWeights(list)
      ensures Names(list, key)
    {
      SeededKeys(list, key);
    }
  }

  /**
   A start establishes agreement if and only if it does not seed the pool from a
   configuration that names a downstream key twice.
   */
  lemma StartAgreesIff(before: Tables, config: Config, app: App)
    requires Boots(before, config, app)
    ensures Agreement(app) <==> before.downstream != map[] || DistinctConfig(config.downstreamKeys)
  {
    hide Weights, Cast, KeyNames;
    SeededClientKeys(config.clientKeys);
    if before.downstream == map[] && config.downstreamKeys != [] {
      var list := config.downstreamKeys;
      if DistinctConfig(list) {
        SeededLists(list);
        ListedPoolAgrees(list, SeededWeights(list));
      } else {
        var i, j :| 0 <= i < j < |list| && list[i].0 == list[j].0;
        assert NewPool(list).keys[i].key == NewPool(list).keys[j].key;
      }
    } else {
      var list :| Lists(list, before.downstream) && app.pool == NewPool(list);
      ListedPoolAgrees(list, before.downstream);
    }
  }

  /** A configuration that names a key twice: two pool entries for one row. */
  lemma RepeatedKeyDisagrees() returns (before: Tables, config: Config, app: App)
    ensures Boots(before, config, app) && !Agreement(app)
  {
    var list: seq<(string, u32)> := [("key", 1), ("key", 2)];
    before, config := Tables(map[], map[]), Config([], list);
    app := App(Tables(map[], SeededWeights(list)), NewPool(list), {});
    assert list[0].0 == list[1].0;
    StartAgreesIff(before, config, app);
  }

  /** The next start reads back what is stored: no table is empty that the configuration would seed. */
  predicate NothingToSeed(tables: Tables, config: Config) {
    && (tables.clients != map[] || config.clientKeys == [])
    && (tables.downstream != map[] || config.downstreamKeys == [])
  }

  /**
   Restart round trip, with its exact condition: a restart of a program in agreement brings
   back the same key-to-weight map and the same client keys if and only if there is nothing
   to seed.
   */
  lemma RestartRoundTripIff(app: App, config: Config, again: App)
    requires Agreement(app) && Boots(app.tables, config, again)
    ensures Weights(again.pool.keys) == Weights(app.pool.keys) && again.clientKeys == app.clientKeys
      <==> NothingToSeed(app.tables, config)
  {
    hide Weights, Cast, KeyNames, DistinctKeys;
    RestartClients(app, config, again);
    RestartPool(app, config, again);
  }

  /** An administrator deletes the only key; the restart seeds it again. */
  lemma EmptiedTableComesBack() returns (before: App, app: App, config: Config, again: App)
    ensures Boots(Tables(map[], map[]), config, before) && Agreement(before) && Weights(before.pool.keys) == map["key" := 1]
    ensures app == Apply(before, DeleteDownstream("key", true)) && Agreement(app) && Weights(app.pool.keys) == map[]
    ensures Boots(app.tables, config, again) && Weights(again.pool.keys) == map["key" := 1]
  {
    var list: seq<(string, u32)> := [("key", 1)];
    config := Config([], list);
    before := App(Tables(map[], SeededWeights(list)), NewPool(list), {});
    app := Apply(before, DeleteDownstream("key", true));
    SeededLists(list);
    ListedPoolAgrees(list, SeededWeights(list));
    assert SeededWeights(list) == map["key" := 1];
    AgreementKeptIff(before, DeleteDownstream("key", true));
    RemoveKeyWeights(before.pool, "key");
    assert app.tables.downstream == map[] && app.tables.clients == map[];
    again := before;
  }

  lemma RestartClients(app: App, config: Config, again: App)
    requires Agreement(app) && Boots(app.tables, config, again)
    ensures again.clientKeys == app.clientKeys <==> app.tables.clients != map[] || config.clientKeys == []
  {
    if app.tables.clients == map[] && config.clientKeys != [] {
      assert config.clientKeys[0] in again.clientKeys;
    }
  }

  lemma RestartPool(app: App, config: Config, again: App)
    requires Agreement(app) && Boots(app.tables, config, again)
    ensures Weights(again.pool.keys) == Weights(app.pool.keys) <==> app.tables.downstream != map[] || config.downstreamKeys == []
  {
    hide Cast;
    if app.tables.downstream == map[] && config.downstreamKeys != [] {
      CastKeys(app.tables.downstream);
      var list := config.downstreamKeys;
      assert NewPool(list).keys[0].key == list[0].0;
      assert list[0].0 in KeyNames(NewPool(list).keys);
      assert list[0].0 in Weights(again.pool.keys);
    } else {
      var list :| Lists(list, app.tables.downstream) && again.pool == NewPool(list);
      ListedPoolAgrees(list, app.tables.downstream);
    }
  }

  /** Every start leaves all keys healthy, without errors or requests, and the cursor at 0. */
  lemma StartIsHealthy(before: Tables, config: Config, app: App)
    requires Boots(before, config, app)
    ensures app.pool.cursor == 0
    ensures forall i | 0 <= i < |app.pool.keys| ::
      app.pool.keys[i].healthy && app.pool.keys[i].errors == 0 && app.pool.keys[i].requests == 0
  {
  }

  // ---------------------------------------------------------------- starts that fail half-way

  function ClientsStored(before: Tables, config: Config, calls: nat): nat {
    if before.clients == map[] then Stored(calls, |config.clientKeys|) else 0
  }

  function DownstreamStored(before: Tables, config: Config, calls: nat): nat {
    if before.downstream == map[]
    then Stored(CallsLeft(calls, ClientCalls(before.clients, config)), |config.downstreamKeys|) else 0
  }

  /** A start that succeeds has stored all it wanted to. */
  lemma SuccessStoresAll(before: Tables, config: Config, calls: nat)
    requires StartSucceeds(before, config, calls)
    ensures TablesAfter(before, config, calls) == Tables(
      if before.clients == map[] then SeededClients(config.clientKeys) else before.clients,
      if before.downstream == map[] && config.downstreamKeys != [] then SeededWeights(config.downstreamKeys) else before.downstream)
  {
    assert config.clientKeys[..|config.clientKeys|] == config.clientKeys;
    assert config.downstreamKeys[..|config.downstreamKeys|] == config.downstreamKeys;
  }

  /** A start that fails at the client keys leaves the downstream table alone. */
  lemma EarlyFailureStoresNoKey(before: Tables, config: Config, calls: nat)
    requires calls < ClientCalls(before.clients, config)
    ensures TablesAfter(before, config, calls) == Tables(ClientsAfter(before.clients, config, calls), before.downstream)
  {
    NothingStored(config.downstreamKeys);
  }

  lemma {:induction false} SeededNonempty(list: seq<(string, u32)>)
    requires list != []
    ensures SeededWeights(list) != map[]
  {
    var last := list[|list| - 1];
    assert last.0 in SeededWeights(list);
  }

  /**
   A start that fails after storing some of the configured downstream keys is not made up
   for: the next start finds the table non-empty and serves exactly the rows stored so far.
   */
  lemma HalfSeededPool(before: Tables, config: Config, calls: nat, app: App)
    requires DownstreamStored(before, config, calls) > 0 && Boots(TablesAfter(before, config, calls), config, app)
    ensures
      var rows := SeededWeights(config.downstreamKeys[..DownstreamStored(before, config, calls)]);
      app.tables.downstream == rows && DistinctKeys(app.pool.keys) && Weights(app.pool.keys) == Cast(rows)
  {
    hide SeededWeights, Weights, Cast, DistinctKeys, Lists, NewPool;
    var rows := config.downstreamKeys[..DownstreamStored(before, config, calls)];
    SeededNonempty(rows);
    var list :| Lists(list, SeededWeights(rows)) && app.pool == NewPool(list);
    ListedPoolAgrees(list, SeededWeights(rows));
  }

  /** The same for client keys: only those stored before the failure are accepted after the next start. */
  lemma HalfSeededClients(before: Tables, config: Config, calls: nat, app: App)
    requires before.clients == map[] && Boots(TablesAfter(before, config, calls), config, app)
    ensures
      var m := ClientsStored(before, config, calls);
      var accepted := if m == 0 then config.clientKeys else config.clientKeys[..m];
      app.clientKeys == set key | key in accepted
  {
    var m := ClientsStored(before, config, calls);
    SeededClientKeys(config.clientKeys[..m]);
    if m > 0 {
      assert config.clientKeys[0] in config.clientKeys[..m];
      assert config.clientKeys[0] in SeededClients(config.clientKeys[..m]);
    } else {
      assert config.clientKeys[..m] == [];
    }
  }

  /**
   The exact condition under which a failed first start is made up for by the next one:
   the failed start stored no downstream key.
   */
  lemma RetriedStartCompleteIff(before: Tables, config: Config, calls: nat, app: App)
    requires before.downstream == map[] && DistinctConfig(config.downstreamKeys)
    requires !StartSucceeds(before, config, calls) && Boots(TablesAfter(before, config, calls), config, app)
    ensures Weights(app.pool.keys) == Cast(SeededWeights(config.downstreamKeys))
      <==> DownstreamStored(before, config, calls) == 0
  {
    hide SeededWeights, Weights, Cast, DistinctKeys;
    var list, n := config.downstreamKeys, DownstreamStored(before, config, calls);
    if n == 0 {
      NothingStored(list);
      SeededLists(list);
      StartedPool(TablesAfter(before, config, calls), config, app);
    } else {
      HalfSeededPool(before, config, calls, app);
      SeededMembers(list, n);
      NotAmongFirst(list, n);
      CastKeys(SeededWeights(list));
      CastKeys(SeededWeights(list[..n]));
    }
  }

  /** Two configured keys, the second insertion fails: the next start serves the first key only. */
  lemma HalfSeededRun() returns (before: Tables, config: Config, calls: nat, app: App)
    ensures before == Tables(map[], map[]) && config.downstreamKeys == [("a", 1), ("b", 1)]
    ensures !StartSucceeds(before, config, calls) && Boots(TablesAfter(before, config, calls), config, app)
    ensures Weights(app.pool.keys) == map["a" := 1]
  {
    var list: seq<(string, u32)> := [("a", 1), ("b", 1)];
    var first: seq<(string, u32)> := [("a", 1)];
    before, config, calls := Tables(map[], map[]), Config([], list), 3;
    assert list[..1] == first;
    assert SeededWeights(first) == map["a" := 1];
    SeededLists(first);
    app := App(TablesAfter(before, config, calls), NewPool(first), {});
    ListedPoolAgrees(first, SeededWeights(first));
  }

  lemma NothingStored(list: seq<(string, u32)>)
    ensures SeededWeights(list[..0]) == map[]
  {
  }

  /** A start on an empty downstream table shows the configured keys. */
  lemma StartedPool(before: Tables, config: Config, app: App)
    requires before.downstream == map[] && DistinctConfig(config.downstreamKeys) && Boots(before, config, app)
    ensures Weights(app.pool.keys) == Cast(SeededWeights(config.downstreamKeys))
  {
    hide Weights, Cast, DistinctKeys;
    SeededLists(config.downstreamKeys);
    if config.downstreamKeys == [] {
      var list :| Lists(list, before.downstream) && app.pool == NewPool(list);
      ListedPoolAgrees(list, before.downstream);
    } else {
      ListedPoolAgrees(config.downstreamKeys, SeededWeights(config.downstreamKeys));
    }
  }

  lemma NotAmongFirst(list: seq<(string, u32)>, n: nat)
    requires DistinctConfig(list) && n < |list|
    ensures list[n].0 !in SeededWeights(list[..n])
  {
    SeededKeys(list[..n], list[n].0);
    forall i | 0 <= i < n
      ensures list[..n][i].0 != list[n].0
    {
      assert list[i].0 != list[n].0;
    }
  }
}
