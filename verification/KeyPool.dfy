/**
 The downstream key pool as the program has it: key objects with identity, updated in
 place, in a list guarded by the pool. Each method is proved against the function of
 the same name in PoolModel; `View` is the abstraction.

 A recovery task is the object it was spawned for; `RunRecovery` is its body. The task
 outlives the pool entry, so it may run on an object that is no longer in `keys`.
 */
module KeyPoolClass {
  import opened Numbers
  import opened Results
  import M = PoolModel
  import HealthyList

  class PooledKey {
    const key: string
    var weight: u32
    var healthy: bool
    var consecutiveErrors: u32
    var requestCount: u32

    constructor (key: string, weight: u32)
      ensures View() == M.KeyState(key, weight, true, 0, 0)
    {
      this.key := key;
      this.weight := weight;
      healthy := true;
      consecutiveErrors := 0;
      requestCount := 0;
    }

    function View(): M.KeyState
      reads this
    {
      M.KeyState(key, weight, healthy, consecutiveErrors, requestCount)
    }

    /** What the spawned task does once its 60 seconds are over. */
    method RunRecovery()
      modifies this
      ensures View() == M.Recovered(old(View()))
    {
      healthy := true;
      consecutiveErrors := 0;
    }
  }

  /** The values of a list of key objects. */
  function Views(ks: seq<PooledKey>): (r: seq<M.KeyState>)
    reads ks
    ensures |r| == |ks| && forall i | 0 <= i < |ks| :: r[i] == ks[i].View()
  {
    seq(|ks|, i requires 0 <= i < |ks| reads ks => ks[i].View())
  }

  /** Every entry is its own object. */
  ghost predicate Distinct(ks: seq<PooledKey>) {
    forall i, j | 0 <= i < j < |ks| :: ks[i] != ks[j]
  }

  /** The objects whose key differs, in order. */
  ghost function Kept(ks: seq<PooledKey>, key: string): (r: seq<PooledKey>)
    ensures forall k | k in r :: k in ks && k.key != key
    ensures forall k | k in ks && k.key != key :: k in r
  {
    if ks == [] then []
    else
      var rest, last := Kept(ks[..|ks| - 1], key), ks[|ks| - 1];
      assert ks == ks[..|ks| - 1] + [last];
      if last.key == key then rest else rest + [last]
  }

  lemma KeptStep(ks: seq<PooledKey>, i: nat, key: string)
    requires i < |ks|
    ensures Kept(ks[..i + 1], key) == if ks[i].key == key then Kept(ks[..i], key) else Kept(ks[..i], key) + [ks[i]]
  {
    assert ks[..i + 1][..i] == ks[..i];
  }

  lemma {:induction false} KeptDistinct(ks: seq<PooledKey>, key: string)
    requires Distinct(ks)
    ensures Distinct(Kept(ks, key))
  {
    if ks != [] {
      var n := |ks| - 1;
      KeptDistinct(ks[..n], key);
      assert ks[n] !in ks[..n];
      assert ks[n] !in Kept(ks[..n], key);
    }
  }

  lemma {:induction false} KeptViews(ks: seq<PooledKey>, key: string)
    ensures Views(Kept(ks, key)) == M.Without(Views(ks), key)
  {
    if ks != [] {
      var n := |ks| - 1;
      KeptViews(ks[..n], key);
      assert Views(ks)[..n] == Views(ks[..n]);
      ViewsAppend(Kept(ks[..n], key), ks[n]);
    }
  }

  lemma ViewsAppend(ks: seq<PooledKey>, k: PooledKey)
    ensures Views(ks + [k]) == Views(ks) + [k.View()]
  {
  }

  class KeyPool {
    var keys: seq<PooledKey>
    var roundRobinIndex: nat

    /** Every entry is its own object, and the cursor is below 2^32 (so `+ 1` cannot overflow usize). */
    ghost predicate Valid()
      reads this
    {
      Distinct(keys) && roundRobinIndex < TWO32
    }

    function View(): M.Pool
      reads this, keys
    {
      M.Pool(Views(keys), roundRobinIndex)
    }

    /** One healthy, error-free key per configured entry, in order; duplicates are kept. */
    constructor (configs: seq<(string, u32)>)
      ensures Valid() && fresh(keys)
      ensures View() == M.Pool(seq(|configs|, i requires 0 <= i < |configs| => M.KeyState(configs[i].0, configs[i].1, true, 0, 0)), 0)
    {
      keys := [];
      roundRobinIndex := 0;
      new;
      for n := 0 to |configs|
        invariant Valid() && fresh(keys) && |keys| == n && roundRobinIndex == 0
        invariant forall i | 0 <= i < n :: keys[i].View() == M.KeyState(configs[i].0, configs[i].1, true, 0, 0)
      {
        var k := new PooledKey(configs[n].0, configs[n].1);
        keys := keys + [k];
      }
    }

    /** The healthy entries, in order, with their positions. */
    method HealthyKeys() returns (healthy: seq<PooledKey>, ghost ps: seq<nat>)
      ensures ps == HealthyList.Positions(Views(keys), |keys|)
      ensures |healthy| == |ps| && forall j | 0 <= j < |ps| :: healthy[j] == keys[ps[j]]
    {
      healthy, ps := [], [];
      for i := 0 to |keys|
        invariant ps == HealthyList.Positions(Views(keys), i)
        invariant |healthy| == |ps| && forall j | 0 <= j < |ps| :: healthy[j] == keys[ps[j]]
      {
        if keys[i].healthy {
          healthy := healthy + [keys[i]];
          ps := ps + [i];
        }
      }
    }

    /** The 32-bit (wrapping) sum of the listed weights. */
    method TotalWeight(healthy: seq<PooledKey>, ghost ps: seq<nat>) returns (total: u32)
      requires ps == HealthyList.Positions(Views(keys), |keys|)
      requires |healthy| == |ps| && forall j | 0 <= j < |ps| :: healthy[j] == keys[ps[j]]
      ensures total == Wrap32(M.Total(Views(keys)))
    {
      ghost var all := Views(keys);
      total := 0;
      for j := 0 to |healthy|
        invariant total == Wrap32(HealthyList.WeightAt(all, ps, j))
      {
        assert healthy[j].weight == all[ps[j]].weight;
        WrapAdd(HealthyList.WeightAt(all, ps, j), healthy[j].weight);
        total := Wrap32(total + healthy[j].weight);
      }
      HealthyList.ListTotal(all);
    }

    /** The accumulating search; the program's fallback after the loop is never reached. */
    method Search(healthy: seq<PooledKey>, ghost ps: seq<nat>, index: nat) returns (found: PooledKey)
      requires ps == HealthyList.Positions(Views(keys), |keys|)
      requires |healthy| == |ps| && forall j | 0 <= j < |ps| :: healthy[j] == keys[ps[j]]
      requires index < Wrap32(M.Total(Views(keys)))
      ensures found == keys[M.Select(Views(keys), index)]
    {
      hide M.Covers, M.Total, M.Select, HealthyList.Positions, HealthyList.WeightAt, Wrap32;
      ghost var all := Views(keys);
      HealthyList.NothingListed(all, ps);
      HealthyList.ListTotal(all);
      var accumulated: u32 := 0;
      for j := 0 to |healthy|
        invariant accumulated == Wrap32(HealthyList.WeightAt(all, ps, j))
        invariant forall m: nat | m <= j :: Wrap32(HealthyList.WeightAt(all, ps, m)) <= index
      {
        assert healthy[j].weight == all[ps[j]].weight;
        HealthyList.OneMoreListed(all, ps, j);
        WrapAdd(HealthyList.WeightAt(all, ps, j), healthy[j].weight);
        accumulated := Wrap32(accumulated + healthy[j].weight);
        if accumulated > index {
          HealthyList.SearchSelects(all, index, j);
          return healthy[j];
        }
      }
      assert false;
    }

    /** Snapshot, total and search: everything acquire_key reads, before it writes. */
    method Choose() returns (total: u32, chosen: Option<PooledKey>)
      ensures total == Wrap32(M.Total(Views(keys)))
      ensures if total == 0 then chosen == None
              else chosen == Some(keys[M.Select(Views(keys), roundRobinIndex % total)])
    {
      var healthy, ps := HealthyKeys();
      if |healthy| == 0 {
        HealthyList.ListTotal(Views(keys));
        return 0, None;
      }
      total := TotalWeight(healthy, ps);
      if total == 0 {
        return total, None;
      }
      var key := Search(healthy, ps, roundRobinIndex % total);
      chosen := Some(key);
    }

    method AcquireKey() returns (r: Result<string, AppError>)
      requires Valid()
      modifies this`roundRobinIndex, keys
      ensures Valid() && keys == old(keys)
      ensures View() == M.Acquire(old(View())).1
      ensures match M.Acquire(old(View())).0
              case None => r == Err(NoKeysAvailable)
              case Some(i) => r == Ok(old(View()).keys[i].key)
    {
      hide Distinct, M.Acquire, M.Total, M.Select, M.Served;
      var totalWeight, chosen := Choose();
      if chosen == None {
        M.AcquireRefuses(View());
        return Err(NoKeysAvailable);
      }
      ghost var before := View();
      ghost var i := M.Select(before.keys, before.cursor % totalWeight);
      M.AcquireGrants(before, totalWeight, i);
      Advance(totalWeight);
      Serve(chosen.value, i);
      return Ok(chosen.value.key);
    }

    /** Moves the cursor on. */
    method Advance(totalWeight: u32)
      requires totalWeight > 0
      modifies this`roundRobinIndex
      ensures roundRobinIndex == (old(roundRobinIndex) + 1) % totalWeight < totalWeight
    {
      roundRobinIndex := (roundRobinIndex + 1) % totalWeight;
    }

    /** Counts a request on the chosen entry. */
    method Serve(key: PooledKey, ghost i: nat)
      requires Distinct(keys)
      requires i < |keys| && key == keys[i]
      modifies key
      ensures Views(keys) == old(Views(keys))[i := M.Served(old(Views(keys))[i])]
    {
      key.requestCount := Wrap32(key.requestCount + 1);
    }

    /** The position of the first entry with this key. */
    method FindKey(key: string) returns (r: Option<nat>)
      ensures r == M.Find(Views(keys), key)
    {
      ghost var all := Views(keys);
      for i := 0 to |keys|
        invariant M.Find(all, key) == M.FindFrom(all, key, i)
      {
        if keys[i].key == key {
          return Some(i);
        }
      }
      return None;
    }

    method ReportSuccess(key: string)
      requires Valid()
      modifies keys
      ensures Valid() && View() == M.ReportSuccess(old(View()), key)
    {
      var at := FindKey(key);
      if at.Some? {
        keys[at.value].consecutiveErrors := 0;
      }
    }

    /** Returns the object a recovery task was spawned for, if one was. */
    method ReportFailure(key: string) returns (spawned: Option<PooledKey>)
      requires Valid()
      modifies keys
      ensures Valid() && View() == M.ReportFailure(old(View()), key)
      ensures match M.Spawned(old(View()), key)
              case None => spawned == None
              case Some(i) => spawned == Some(keys[i])
    {
      spawned := None;
      var at := FindKey(key);
      if at.Some? {
        var k := keys[at.value];
        var errors := Wrap32(k.consecutiveErrors + 1);
        k.consecutiveErrors := errors;
        if errors >= 3 {
          k.healthy := false;
          spawned := Some(k);
        }
      }
    }

    method AddKey(key: string, weight: u32)
      requires Valid()
      modifies this`keys, keys
      ensures Valid() && View() == M.AddKey(old(View()), key, weight)
      ensures forall k | k in keys :: k in old(keys) || fresh(k)
      ensures if M.Find(old(Views(keys)), key).Some? then keys == old(keys)
              else |keys| == |old(keys)| + 1 && keys[..|old(keys)|] == old(keys) && fresh(keys[|old(keys)|])
    {
      var at := FindKey(key);
      if at.Some? {
        var existing := keys[at.value];
        existing.weight := weight;
        existing.healthy := true;
        existing.consecutiveErrors := 0;
      } else {
        var k := new PooledKey(key, weight);
        keys := keys + [k];
      }
    }

    method RemoveKey(key: string)
      requires Valid()
      modifies this`keys
      ensures Valid() && View() == M.RemoveKey(old(View()), key)
      ensures keys == Kept(old(keys), key)
    {
      KeptDistinct(keys, key);
      KeptViews(keys, key);
      keys := Retain(key);
    }

    /** The entries whose key differs, in order. */
    method Retain(key: string) returns (kept: seq<PooledKey>)
      ensures kept == Kept(keys, key)
    {
      kept := [];
      for i := 0 to |keys|
        invariant kept == Kept(keys[..i], key)
      {
        KeptStep(keys, i, key);
        if keys[i].key != key {
          kept := kept + [keys[i]];
        }
      }
      assert keys[..|keys|] == keys;
    }

    /** A recovery task of an object in the pool resets that entry only. */
    method RecoverMember(i: nat)
      requires Valid() && i < |keys|
      modifies keys[i]
      ensures Valid() && View() == old(View()).(keys := old(View()).keys[i := M.Recovered(old(View()).keys[i])])
    {
      keys[i].RunRecovery();
    }

    /** A recovery task whose object has left the pool changes nothing the pool shows. */
    method RecoverOrphan(orphan: PooledKey)
      requires Valid() && orphan !in keys
      modifies orphan
      ensures Valid() && View() == old(View())
      ensures orphan.healthy && orphan.consecutiveErrors == 0
    {
      orphan.RunRecovery();
      assert Views(keys) == old(Views(keys));
    }
  }
}
