/**
 What each admin handler does to tables, pool and client keys, said outright: which row it
 stores, under which key and with which weight.
 */
module AdminEffects {
  import opened Numbers
  import opened Results
  import opened PoolModel
  import opened Trimming
  import opened AdminModel

  /** The key an add request for a client asks for: the given one without surrounding white space, if anything is left. */
  ghost predicate AsksFor(given: Option<string>, generated: string, key: string) {
    if given.Some? && !Blank(given.value) then Bare(key) && IsCore(given.value, key) else key == generated
  }

  lemma AsksForOneKey(given: Option<string>, generated: string, key: string, key': string)
    requires AsksFor(given, generated, key) && AsksFor(given, generated, key')
    ensures key == key'
  {
    if given.Some? && !Blank(given.value) {
      CoreIsUnique(given.value, key, key');
    }
  }

  lemma ClientKeyIsAskedFor(given: Option<string>, generated: string)
    ensures AsksFor(given, generated, ClientKeyOf(given, generated))
  {
    if given.Some? {
      TrimIsCore(given.value);
      BlankIffEmptyCore(given.value, Trim(given.value));
    }
  }

  /** Adding a client key stores the given row under the key asked for, accepts that key, and does nothing else. */
  lemma AddClientStores(app: App, given: Option<string>, generated: string, row: ClientRow, key: string)
    requires AsksFor(given, generated, key)
    ensures Apply(app, AddClient(given, generated, row, true)) ==
      App(Tables(app.tables.clients[key := row], app.tables.downstream), app.pool, app.clientKeys + {key})
  {
    ClientKeyIsAskedFor(given, generated);
    AsksForOneKey(given, generated, key, ClientKeyOf(given, generated));
  }

  lemma DeleteClientDrops(app: App, key: string)
    ensures
      var app' := Apply(app, DeleteClient(key, true));
      && app'.pool == app.pool && app'.tables.downstream == app.tables.downstream
      && (forall k :: k in app'.clientKeys <==> k in app.clientKeys && k != key)
      && (forall k :: k in app'.tables.clients <==> k in app.tables.clients && k != key)
      && (forall k | k in app'.tables.clients :: app'.tables.clients[k] == app.tables.clients[k])
  {
  }

  /** The key-to-weight map of the pool after `key` was given a stored weight. */
  predicate ShowsWeight(keys: seq<KeyState>, before: seq<KeyState>, key: string, weight: i64) {
    Weights(keys) == Weights(before)[key := weight % 0x1_0000_0000]
  }

  /**
   Adding a downstream key stores the given weight under the key without surrounding white
   space, and gives the pool the low 32 bits of that weight under the same key.
   */
  lemma AddDownstreamStores(app: App, given: string, weight: i64, key: string)
    requires IsCore(given, key) && DistinctKeys(app.pool.keys)
    ensures
      var app' := Apply(app, AddDownstream(given, weight, true));
      && app'.tables == Tables(app.tables.clients, app.tables.downstream[key := weight])
      && app'.clientKeys == app.clientKeys && app'.pool.cursor == app.pool.cursor
      && ShowsWeight(app'.pool.keys, app.pool.keys, key, weight)
  {
    hide DistinctKeys, Weights;
    TrimIsCore(given);
    CoreIsUnique(given, key, Trim(given));
    AddKeyWeights(app.pool, key, Wrap32(weight));
  }

  /** A PATCH raises the weight to at least 1, updates a stored row only, and gives the pool that weight in any case. */
  lemma PatchStores(app: App, key: string, weight: i64) returns (w: i64)
    requires DistinctKeys(app.pool.keys)
    ensures w >= 1 && (weight >= 1 ==> w == weight) && (weight < 1 ==> w == 1)
    ensures
      var app' := Apply(app, UpdateDownstream(key, weight, true));
      && app'.tables.clients == app.tables.clients
      && app'.tables.downstream == (if key in app.tables.downstream then app.tables.downstream[key := w] else app.tables.downstream)
      && app'.clientKeys == app.clientKeys && app'.pool.cursor == app.pool.cursor
      && ShowsWeight(app'.pool.keys, app.pool.keys, key, w)
  {
    hide DistinctKeys, Weights;
    w := AtLeastOne(weight);
    AddKeyWeights(app.pool, key, Wrap32(w));
  }

  /** Deleting a downstream key removes its row and its pool entries, and nothing else. */
  lemma DeleteDownstreamDrops(app: App, key: string)
    ensures
      var app' := Apply(app, DeleteDownstream(key, true));
      && app'.tables.clients == app.tables.clients && app'.clientKeys == app.clientKeys && app'.pool.cursor == app.pool.cursor
      && (forall k :: k in app'.tables.downstream <==> k in app.tables.downstream && k != key)
      && (forall k | k in app'.tables.downstream :: app'.tables.downstream[k] == app.tables.downstream[k])
      && (forall k :: k in app'.pool.keys <==> k in app.pool.keys && k.key != key)
  {
  }

  /** A handler whose database call fails changes nothing. */
  lemma FailedCallChangesNothing(app: App, op: Op)
    requires !op.Traffic? && !op.dbOk
    ensures Apply(app, op) == app
  {
  }

  // ---------------------------------------------------------------- seeded rows

  /** Every configured client key gets the row of an imported key. */
  lemma {:induction false} SeededClientRows(keys: seq<string>, key: string)
    ensures key in SeededClients(keys) <==> key in keys
    ensures key in SeededClients(keys) ==> SeededClients(keys)[key] == ClientRow(Some("Imported from config"), None)
  {
    if keys != [] {
      var n := |keys| - 1;
      SeededClientRows(keys[..n], key);
      assert keys == keys[..n] + [keys[n]];
    }
  }

  /** A downstream key that the configuration repeats is stored with its last weight. */
  lemma {:induction false} LastWeightIsStored(list: seq<(string, u32)>, i: nat)
    requires i < |list| && forall j | i < j < |list| :: list[j].0 != list[i].0
    ensures list[i].0 in SeededWeights(list) && SeededWeights(list)[list[i].0] == list[i].1
  {
    var n := |list| - 1;
    if i < n {
      var init := list[..n];
      assert forall j | i < j < n :: init[j] == list[j];
      LastWeightIsStored(init, i);
    }
  }
}
