/**
 The program's shared state and its admin handlers: a database with two key tables, the
 key pool, and the set of client keys. Each method is proved against AdminModel.Apply;
 `Start` is AppState::new from the tables and the configuration on.
 */
module AppStateClass {
  import opened Numbers
  import opened Results
  import opened Trimming
  import A = AdminModel
  import E = AdminEffects
  import M = PoolModel
  import K = KeyPoolClass

  /** The two key tables. `ok` is what the database engine makes of the call. */
  class Db {
    var clients: map<string, A.ClientRow>
    var downstream: map<string, i64>

    constructor (tables: A.Tables)
      ensures View() == tables
    {
      clients := tables.clients;
      downstream := tables.downstream;
    }

    function View(): A.Tables
      reads this
    {
      A.Tables(clients, downstream)
    }

    method AddClientKey(key: string, row: A.ClientRow, ok: bool) returns (r: Result<(), string>)
      modifies this`clients
      ensures r.Ok? == ok && clients == if ok then old(clients)[key := row] else old(clients)
    {
      if !ok {
        return Err("database error");
      }
      clients := clients[key := row];
      return Ok(());
    }

    method DeleteClientKey(key: string, ok: bool) returns (r: Result<(), string>)
      modifies this`clients
      ensures r.Ok? == ok && clients == if ok then old(clients) - {key} else old(clients)
    {
      if !ok {
        return Err("database error");
      }
      clients := clients - {key};
      return Ok(());
    }

    /** INSERT OR REPLACE. */
    method AddDownstreamKey(key: string, weight: i64, ok: bool) returns (r: Result<(), string>)
      modifies this`downstream
      ensures r.Ok? == ok && downstream == if ok then old(downstream)[key := weight] else old(downstream)
    {
      if !ok {
        return Err("database error");
      }
      downstream := downstream[key := weight];
      return Ok(());
    }

    /** UPDATE ... WHERE key: a missing key is not an error. */
    method UpdateDownstreamKeyWeight(key: string, weight: i64, ok: bool) returns (r: Result<(), string>)
      modifies this`downstream
      ensures r.Ok? == ok
      ensures downstream == if ok && key in old(downstream) then old(downstream)[key := weight] else old(downstream)
    {
      if !ok {
        return Err("database error");
      }
      if key in downstream {
        downstream := downstream[key := weight];
      }
      return Ok(());
    }

    method DeleteDownstreamKey(key: string, ok: bool) returns (r: Result<(), string>)
      modifies this`downstream
      ensures r.Ok? == ok && downstream == if ok then old(downstream) - {key} else old(downstream)
    {
      if !ok {
        return Err("database error");
      }
      downstream := downstream - {key};
      return Ok(());
    }

    /** All rows, weights cast to u32 as the caller does, in whatever order the engine returns them. */
    method GetDownstreamKeys() returns (rows: seq<(string, u32)>)
      ensures A.Lists(rows, downstream)
    {
      rows := [];
      var rest := downstream.Keys;
      while rest != {}
        invariant rest <= downstream.Keys
        invariant forall i | 0 <= i < |rows| :: rows[i].0 in downstream && rows[i].0 !in rest && rows[i].1 == Wrap32(downstream[rows[i].0])
        invariant forall i, j | 0 <= i < j < |rows| :: rows[i].0 != rows[j].0
        invariant forall key | key in downstream && key !in rest :: A.Names(rows, key)
        decreases |rest|
      {
        var key :| key in rest;
        var more := rows + [(key, Wrap32(downstream[key]))];
        forall k | k in downstream && k !in rest - {key}
          ensures A.Names(more, k)
        {
          if k == key {
            assert more[|rows|].0 == k;
          } else {
            var i :| 0 <= i < |rows| && rows[i].0 == k;
            assert more[i].0 == k;
          }
        }
        rows := more;
        rest := rest - {key};
      }
    }
  }

  class AppState {
    const db: Db
    const keyPool: K.KeyPool
    var clientKeys: set<string>

    constructor (db: Db, keyPool: K.KeyPool, clientKeys: set<string>)
      ensures this.db == db && this.keyPool == keyPool && this.clientKeys == clientKeys
    {
      this.db := db;
      this.keyPool := keyPool;
      this.clientKeys := clientKeys;
    }

    function View(): A.App
      reads this, db, keyPool, keyPool.keys
    {
      A.App(db.View(), keyPool.View(), clientKeys)
    }

    method AddDownstreamKey(key: string, weight: i64, dbOk: bool) returns (r: Result<(), string>)
      requires keyPool.Valid()
      modifies db, keyPool, keyPool.keys
      ensures keyPool.Valid() && r.Ok? == dbOk
      ensures View() == A.Apply(old(View()), A.AddDownstream(key, weight, dbOk))
    {
      var trimmed := Trim(key);
      r := db.AddDownstreamKey(trimmed, weight, dbOk);
      if r.Err? {
        return;
      }
      keyPool.AddKey(trimmed, Wrap32(weight));
    }

    method UpdateDownstreamKey(key: string, weight: i64, dbOk: bool) returns (r: Result<(), string>)
      requires keyPool.Valid()
      modifies db, keyPool, keyPool.keys
      ensures keyPool.Valid() && r.Ok? == dbOk
      ensures View() == A.Apply(old(View()), A.UpdateDownstream(key, weight, dbOk))
    {
      var atLeastOne := A.AtLeastOne(weight);
      r := db.UpdateDownstreamKeyWeight(key, atLeastOne, dbOk);
      if r.Err? {
        return;
      }
      keyPool.AddKey(key, Wrap32(atLeastOne));
    }

    method DeleteDownstreamKey(key: string, dbOk: bool) returns (r: Result<(), string>)
      requires keyPool.Valid()
      modifies db, keyPool
      ensures keyPool.Valid() && r.Ok? == dbOk
      ensures View() == A.Apply(old(View()), A.DeleteDownstream(key, dbOk))
    {
      r := db.DeleteDownstreamKey(key, dbOk);
      if r.Err? {
        return;
      }
      keyPool.RemoveKey(key);
    }

    /** `generated` is the random key used when none is given. */
    method AddClientKey(given: Option<string>, generated: string, row: A.ClientRow, dbOk: bool) returns (r: Result<string, string>)
      modifies this, db
      ensures r.Ok? == dbOk && (dbOk ==> r.value == A.ClientKeyOf(given, generated))
      ensures r.Ok? ==> E.AsksFor(given, generated, r.value)
      ensures r.Ok? ==> clientKeys == old(clientKeys) + {r.value} && db.clients == old(db.clients)[r.value := row]
      ensures View() == A.Apply(old(View()), A.AddClient(given, generated, row, dbOk))
    {
      var key := if given.Some? && Trim(given.value) != [] then Trim(given.value) else generated;
      var stored := db.AddClientKey(key, row, dbOk);
      if stored.Err? {
        return Err(stored.error);
      }
      E.ClientKeyIsAskedFor(given, generated);
      clientKeys := clientKeys + {key};
      return Ok(key);
    }

    method DeleteClientKey(key: string, dbOk: bool) returns (r: Result<(), string>)
      modifies this, db
      ensures r.Ok? == dbOk
      ensures View() == A.Apply(old(View()), A.DeleteClient(key, dbOk))
    {
      r := db.DeleteClientKey(key, dbOk);
      if r.Err? {
        return;
      }
      clientKeys := clientKeys - {key};
    }
  }

  /** Loads or seeds the client keys, the first `calls` database calls succeeding; returns how many are left. */
  method LoadClientKeys(db: Db, config: A.Config, calls: nat) returns (r: Result<set<string>, string>, left: nat)
    modifies db`clients
    ensures db.clients == A.ClientsAfter(old(db.clients), config, calls)
    ensures r.Ok? <==> calls >= A.ClientCalls(old(db.clients), config)
    ensures r.Ok? ==> left == calls - A.ClientCalls(old(db.clients), config)
    ensures r.Ok? ==> r.value == if old(db.clients) == map[] then (set key | key in config.clientKeys) else old(db.clients).Keys
  {
    if calls == 0 {
      return Err("database error"), 0;
    }
    left := calls - 1;
    var keys: set<string> := {};
    if db.clients == map[] && config.clientKeys != [] {
      for n := 0 to |config.clientKeys|
        invariant n + left == calls - 1
        invariant db.clients == A.SeededClients(config.clientKeys[..n])
        invariant keys == set key | key in config.clientKeys[..n]
      {
        assert config.clientKeys[..n + 1] == config.clientKeys[..n] + [config.clientKeys[n]];
        var stored := db.AddClientKey(config.clientKeys[n], A.IMPORTED, left > 0);
        if stored.Err? {
          return Err(stored.error), 0;
        }
        left := left - 1;
        keys := keys + {config.clientKeys[n]};
      }
      assert config.clientKeys[..|config.clientKeys|] == config.clientKeys;
    } else {
      keys := db.clients.Keys;
    }
    return Ok(keys), left;
  }

  /** Loads or seeds the list the pool is built from, the first `calls` database calls succeeding. */
  method LoadDownstreamKeys(db: Db, config: A.Config, calls: nat) returns (r: Result<seq<(string, u32)>, string>)
    modifies db`downstream
    ensures db.downstream == A.DownstreamAfter(old(db.downstream), config, calls)
    ensures r.Ok? <==> calls >= A.DownstreamCalls(old(db.downstream), config)
    ensures r.Ok? ==>
      if old(db.downstream) == map[] && config.downstreamKeys != []
      then r.value == config.downstreamKeys
      else A.Lists(r.value, old(db.downstream))
  {
    if calls == 0 {
      return Err("database error");
    }
    if db.downstream == map[] && config.downstreamKeys != [] {
      var list: seq<(string, u32)> := [];
      for n := 0 to |config.downstreamKeys|
        invariant n < calls
        invariant db.downstream == A.SeededWeights(config.downstreamKeys[..n])
        invariant list == config.downstreamKeys[..n]
      {
        assert config.downstreamKeys[..n + 1] == config.downstreamKeys[..n] + [config.downstreamKeys[n]];
        var stored := db.AddDownstreamKey(config.downstreamKeys[n].0, config.downstreamKeys[n].1, n + 1 < calls);
        if stored.Err? {
          return Err(stored.error);
        }
        list := list + [config.downstreamKeys[n]];
      }
      assert config.downstreamKeys[..|config.downstreamKeys|] == config.downstreamKeys;
      return Ok(list);
    }
    var rows := db.GetDownstreamKeys();
    return Ok(rows);
  }

  /**
   AppState::new from the first read on. The first `calls` database calls succeed; the next
   one, if there is one, fails, and the start with it, but the rows stored so far stay.
   */
  method Start(db: Db, config: A.Config, calls: nat) returns (r: Result<AppState, string>)
    modifies db
    ensures db.View() == A.TablesAfter(old(db.View()), config, calls)
    ensures r.Ok? <==> A.StartSucceeds(old(db.View()), config, calls)
    ensures r.Ok? ==>
      && r.value.db == db && fresh(r.value) && fresh(r.value.keyPool) && r.value.keyPool.Valid()
      && A.Boots(old(db.View()), config, r.value.View())
  {
    hide A.SeededClients, A.SeededWeights, A.Lists, A.ClientsAfter, A.DownstreamAfter, A.ClientCalls, A.DownstreamCalls;
    var clientKeys, left := LoadClientKeys(db, config, calls);
    if clientKeys.Err? {
      A.EarlyFailureStoresNoKey(old(db.View()), config, calls);
      return Err(clientKeys.error);
    }
    var list := LoadDownstreamKeys(db, config, left);
    if list.Err? {
      return Err(list.error);
    }
    var keyPool := new K.KeyPool(list.value);
    var app := new AppState(db, keyPool, clientKeys.value);
    assert app.keyPool.View() == A.NewPool(list.value);
    A.SuccessStoresAll(old(db.View()), config, calls);
    return Ok(app);
  }
}
