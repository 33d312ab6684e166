/**
 The downstream key pool as a value: what each operation of the pool does to the
 list of keys and to the stored round-robin cursor. The class in KeyPool.dfy and the
 interleaving model in Breaker.dfy are both proved to follow these functions.

 Selection is specified without the filtered list the program builds: an unhealthy
 key simply has share 0, so it covers no slot.
 */
module PoolModel {
  import opened Numbers
  import opened Results

  /** One key of the pool, field by field. */
  datatype KeyState = KeyState(key: string, weight: u32, healthy: bool, errors: u32, requests: u32)

  datatype Pool = Pool(keys: seq<KeyState>, cursor: nat)

  /** The number of round-robin slots a key owns. */
  function Share(k: KeyState): nat {
    if k.healthy then k.weight else 0
  }

  /** Slots owned by the first `n` keys, without wrap-around. */
  function Prefix(keys: seq<KeyState>, n: nat): nat
    requires n <= |keys|
  {
    if n == 0 then 0 else Prefix(keys, n - 1) + Share(keys[n - 1])
  }

  function Total(keys: seq<KeyState>): nat {
    Prefix(keys, |keys|)
  }

  /**
   Key `i` covers slot `index`: it is the first key whose 32-bit running total
   exceeds the slot.
   */
  predicate Covers(keys: seq<KeyState>, index: nat, i: nat) {
    && i < |keys|
    && index < Wrap32(Prefix(keys, i + 1))
    && forall j: nat | j <= i :: Wrap32(Prefix(keys, j)) <= index
  }

  function SelectFrom(keys: seq<KeyState>, index: nat, i: nat): (r: nat)
    requires index < Wrap32(Total(keys))
    requires i < |keys| && forall j: nat | j <= i :: Wrap32(Prefix(keys, j)) <= index
    ensures Covers(keys, index, r)
    decreases |keys| - i
  {
    if index < Wrap32(Prefix(keys, i + 1)) then i else SelectFrom(keys, index, i + 1)
  }

  /** The key chosen for a slot below the (wrapped) total weight. */
  function Select(keys: seq<KeyState>, index: nat): (r: nat)
    requires index < Wrap32(Total(keys))
    ensures Covers(keys, index, r)
  {
    SelectFrom(keys, index, 0)
  }

  /** At most one key covers a slot. */
  lemma CoversUnique(keys: seq<KeyState>, index: nat, i: nat, j: nat)
    ensures Covers(keys, index, i) && Covers(keys, index, j) ==> i == j
  {
    CoversLeast(keys, index, i, j);
    CoversLeast(keys, index, j, i);
  }

  lemma CoversLeast(keys: seq<KeyState>, index: nat, i: nat, j: nat)
    ensures Covers(keys, index, i) && i < j ==> !Covers(keys, index, j)
  {
    if Covers(keys, index, i) && i < j < |keys| {
      var m := i + 1;
      assert m <= j && !(Wrap32(Prefix(keys, m)) <= index);
    }
  }

  /**
   Selection is total for all 32-bit weights, even when the sums wrap: whenever the
   wrapped total is not zero, every slot below it is covered by exactly one key, and
   that key is healthy with a nonzero weight.
   */
  lemma SelectionIsTotal(keys: seq<KeyState>, index: nat)
    requires index < Wrap32(Total(keys))
    ensures exists i: nat ::
      && Covers(keys, index, i)
      && keys[i].healthy && keys[i].weight != 0
      && forall j: nat | Covers(keys, index, j) :: j == i
  {
    var i := Select(keys, index);
    CoverIsLive(keys, index, i);
    forall j: nat | Covers(keys, index, j)
      ensures j == i
    {
      CoversUnique(keys, index, i, j);
    }
  }

  /** A key that covers a slot is healthy and has a nonzero weight. */
  lemma CoverIsLive(keys: seq<KeyState>, index: nat, i: nat)
    requires Covers(keys, index, i)
    ensures keys[i].healthy && keys[i].weight != 0
  {
    assert Prefix(keys, i + 1) == Prefix(keys, i) + Share(keys[i]);
    assert Wrap32(Prefix(keys, i)) <= index;
  }

  lemma {:induction false} PrefixMonotone(keys: seq<KeyState>, m: nat, n: nat)
    requires m <= n <= |keys|
    ensures Prefix(keys, m) <= Prefix(keys, n)
    decreases n - m
  {
    if m < n {
      PrefixMonotone(keys, m, n - 1);
    }
  }

  /** Without wrap-around, key `i` owns exactly the slots from Prefix(i) up to Prefix(i + 1). */
  lemma CoversIsInterval(keys: seq<KeyState>, index: nat, i: nat)
    requires Total(keys) < TWO32 && i < |keys|
    ensures Covers(keys, index, i) <==> Prefix(keys, i) <= index < Prefix(keys, i + 1)
  {
    PrefixMonotone(keys, i + 1, |keys|);
    forall j: nat | j <= i
      ensures Prefix(keys, j) <= Prefix(keys, i) && Wrap32(Prefix(keys, j)) == Prefix(keys, j)
    {
      PrefixMonotone(keys, j, i);
    }
    if Covers(keys, index, i) {
      assert Wrap32(Prefix(keys, i)) <= index;
    }
  }

  /** The total is nonzero exactly when some healthy key has a nonzero weight. */
  lemma {:induction false} PrefixPositive(keys: seq<KeyState>, n: nat)
    requires n <= |keys|
    ensures Prefix(keys, n) > 0 <==> exists i: nat :: i < n && keys[i].healthy && keys[i].weight != 0
  {
    if n > 0 {
      PrefixPositive(keys, n - 1);
      if keys[n - 1].healthy && keys[n - 1].weight != 0 {
        assert Share(keys[n - 1]) > 0;
      }
    }
  }

  // ---------------------------------------------------------------- operations

  /** acquire_key: the position chosen, if any, and the pool afterwards. */
  function Acquire(p: Pool): (r: (Option<nat>, Pool))
    ensures r.0.Some? ==> r.0.value < |p.keys| && p.keys[r.0.value].healthy && p.keys[r.0.value].weight != 0
    ensures r.0.None? ==> r.1 == p
  {
    var total := Wrap32(Total(p.keys));
    if total == 0 then
      (None, p)
    else
      var i := Select(p.keys, p.cursor % total);
      CoverIsLive(p.keys, p.cursor % total, i);
      (Some(i), Pool(p.keys[i := Served(p.keys[i])], (p.cursor + 1) % total))
  }

  lemma AcquireRefuses(p: Pool)
    requires Wrap32(Total(p.keys)) == 0
    ensures Acquire(p) == (None, p)
  {
  }

  lemma AcquireGrants(p: Pool, total: u32, i: nat)
    requires total == Wrap32(Total(p.keys)) && total != 0
    requires i == Select(p.keys, p.cursor % total)
    ensures Acquire(p) == (Some(i), Pool(p.keys[i := Served(p.keys[i])], (p.cursor + 1) % total))
  {
  }

  /** Some healthy key has a nonzero weight. */
  predicate AnyLive(keys: seq<KeyState>) {
    exists i: nat :: i < |keys| && keys[i].healthy && keys[i].weight != 0
  }

  /**
   When an acquire finds no key: there is no healthy key with a nonzero weight, or the
   healthy weights add up to a multiple of 2^32.
   */
  lemma AcquireRefusesIff(p: Pool)
    ensures Acquire(p).0.None? <==> !AnyLive(p.keys) || exists k: nat :: k > 0 && Total(p.keys) == k * TWO32
  {
    PrefixPositive(p.keys, |p.keys|);
    var total := Total(p.keys);
    if Wrap32(total) == 0 && total > 0 {
      assert total == (total / TWO32) * TWO32;
    }
    forall k: nat | total == k * TWO32
      ensures Wrap32(total) == 0
    {
      WrapMultiple(k);
    }
  }

  lemma WrapMultiple(k: nat)
    ensures Wrap32(k * TWO32) == 0
  {
  }

  /** Two healthy keys whose weights add up to 2^32: no key is available. */
  lemma WrappedTotalRefuses()
    ensures
      var half: u32 := 0x8000_0000;
      var keys := [KeyState("a", half, true, 0, 0), KeyState("b", half, true, 0, 0)];
      AnyLive(keys) && Acquire(Pool(keys, 0)).0 == None
  {
    var half: u32 := 0x8000_0000;
    var keys := [KeyState("a", half, true, 0, 0), KeyState("b", half, true, 0, 0)];
    assert keys[0].healthy && keys[0].weight != 0;
    assert Prefix(keys, 0) == 0 && Prefix(keys, 1) == half && Prefix(keys, 2) == TWO32;
  }

  lemma AcquireCovers(p: Pool, i: nat)
    requires Acquire(p).0 == Some(i)
    ensures Wrap32(Total(p.keys)) != 0 && Covers(p.keys, p.cursor % Wrap32(Total(p.keys)), i)
  {
  }

  /** A key after one more request; the counter wraps. */
  function Served(k: KeyState): KeyState {
    k.(requests := Wrap32(k.requests + 1))
  }

  /** A key after one more failure: the third in a row trips the breaker. */
  function Failed(k: KeyState): KeyState {
    var errors := Wrap32(k.errors + 1);
    k.(errors := errors, healthy := k.healthy && errors < 3)
  }

  function Cleared(k: KeyState): KeyState {
    k.(errors := 0)
  }

  /** What the recovery task leaves behind. */
  function Recovered(k: KeyState): KeyState {
    k.(healthy := true, errors := 0)
  }

  /** The first position from `i` on that carries the key. */
  function FindFrom(keys: seq<KeyState>, key: string, i: nat): (r: Option<nat>)
    requires i <= |keys|
    ensures r.Some? ==> i <= r.value < |keys| && keys[r.value].key == key
    ensures r.Some? ==> forall j | i <= j < r.value :: keys[j].key != key
    ensures r.None? ==> forall j | i <= j < |keys| :: keys[j].key != key
    decreases |keys| - i
  {
    if i == |keys| then None
    else if keys[i].key == key then Some(i)
    else FindFrom(keys, key, i + 1)
  }

  function Find(keys: seq<KeyState>, key: string): (r: Option<nat>)
    ensures r.Some? ==> r.value < |keys| && keys[r.value].key == key
    ensures r.Some? ==> forall j | 0 <= j < r.value :: keys[j].key != key
    ensures r.None? ==> forall j | 0 <= j < |keys| :: keys[j].key != key
  {
    FindFrom(keys, key, 0)
  }

  function ReportSuccess(p: Pool, key: string): Pool {
    match Find(p.keys, key)
    case None => p
    case Some(i) => p.(keys := p.keys[i := Cleared(p.keys[i])])
  }

  function ReportFailure(p: Pool, key: string): Pool {
    match Find(p.keys, key)
    case None => p
    case Some(i) => p.(keys := p.keys[i := Failed(p.keys[i])])
  }

  /** Whether report_failure spawns a recovery task, and for which position. */
  function Spawned(p: Pool, key: string): Option<nat> {
    match Find(p.keys, key)
    case None => None
    case Some(i) => if Wrap32(p.keys[i].errors + 1) >= 3 then Some(i) else None
  }

  /**
   A recovery task is spawned for the entry a failure was counted on exactly when its count
   is then three or more; in particular whenever the report takes an entry out of service.
   */
  lemma SpawnedIff(p: Pool, key: string, i: nat)
    requires i < |p.keys|
    ensures |ReportFailure(p, key).keys| == |p.keys|
    ensures Spawned(p, key) == Some(i) <==> Find(p.keys, key) == Some(i) && ReportFailure(p, key).keys[i].errors >= 3
    ensures p.keys[i].healthy && !ReportFailure(p, key).keys[i].healthy ==> Spawned(p, key) == Some(i)
  {
  }

  function AddKey(p: Pool, key: string, weight: u32): Pool {
    match Find(p.keys, key)
    case None => p.(keys := p.keys + [KeyState(key, weight, true, 0, 0)])
    case Some(i) => p.(keys := p.keys[i := Recovered(p.keys[i]).(weight := weight)])
  }

  function Without(keys: seq<KeyState>, key: string): (r: seq<KeyState>)
    ensures forall k :: k in r <==> k in keys && k.key != key
  {
    if keys == [] then []
    else
      var rest := Without(keys[..|keys| - 1], key);
      var last := keys[|keys| - 1];
      assert keys == keys[..|keys| - 1] + [last];
      if last.key == key then rest else rest + [last]
  }

  lemma WithoutStep(keys: seq<KeyState>, i: nat, key: string)
    requires i < |keys|
    ensures Without(keys[..i + 1], key) == Without(keys[..i], key) + if keys[i].key == key then [] else [keys[i]]
  {
    assert keys[..i + 1][..i] == keys[..i];
  }

  function RemoveKey(p: Pool, key: string): Pool {
    p.(keys := Without(p.keys, key))
  }

  // ---------------------------------------------------------------- invariants of sequential use

  predicate DistinctKeys(keys: seq<KeyState>) {
    forall i, j | 0 <= i < j < |keys| :: keys[i].key != keys[j].key
  }

  /** Between operations a healthy key has fewer than three errors. */
  predicate Settled(keys: seq<KeyState>) {
    forall i | 0 <= i < |keys| :: keys[i].healthy ==> keys[i].errors < 3
  }

  function KeyNames(keys: seq<KeyState>): set<string> {
    set i | 0 <= i < |keys| :: keys[i].key
  }

  /** The key-to-weight map of the pool: a key has the weight of its first occurrence. */
  function Weights(keys: seq<KeyState>): map<string, u32> {
    map key | key in KeyNames(keys) :: keys[Find(keys, key).value].weight
  }

  lemma FindDistinct(keys: seq<KeyState>, i: nat)
    requires DistinctKeys(keys) && i < |keys|
    ensures Find(keys, keys[i].key) == Some(i)
    ensures keys[i].key in Weights(keys) && Weights(keys)[keys[i].key] == keys[i].weight
  {
  }

  /** A key of the list, found through its weight. */
  lemma WeighedKey(keys: seq<KeyState>, key: string) returns (i: nat)
    requires key in Weights(keys)
    ensures i < |keys| && keys[i].key == key
  {
    i := Find(keys, key).value;
  }

  lemma Named(keys: seq<KeyState>, i: nat)
    requires i < |keys|
    ensures keys[i].key in KeyNames(keys)
  {
  }

  lemma SettledWithout(keys: seq<KeyState>, key: string)
    requires Settled(keys)
    ensures Settled(Without(keys, key))
  {
    var q := Without(keys, key);
    forall i | 0 <= i < |q|
      ensures q[i].healthy ==> q[i].errors < 3
    {
      assert q[i] in keys;
    }
  }

  lemma {:induction false} DistinctWithout(keys: seq<KeyState>, key: string)
    requires DistinctKeys(keys)
    ensures DistinctKeys(Without(keys, key))
  {
    if keys != [] {
      var n := |keys| - 1;
      var rest := Without(keys[..n], key);
      DistinctWithout(keys[..n], key);
      forall i | 0 <= i < |rest|
        ensures rest[i].key != keys[n].key
      {
        assert rest[i] in keys[..n];
      }
    }
  }

  /** A map that describes every key of a distinct list, and no other, is its key-to-weight map. */
  lemma WeightsAre(keys: seq<KeyState>, m: map<string, u32>)
    requires DistinctKeys(keys)
    requires forall i | 0 <= i < |keys| :: keys[i].key in m && m[keys[i].key] == keys[i].weight
    requires forall k | k in m :: k in KeyNames(keys)
    ensures Weights(keys) == m
  {
    assert Weights(keys).Keys == m.Keys;
    forall k | k in m
      ensures Weights(keys)[k] == m[k]
    {
      var i := Find(keys, k).value;
      assert keys[i].key == k;
    }
  }

  /** add_key sets exactly one entry of the key-to-weight map and keeps the keys distinct. */
  lemma AddKeyWeights(p: Pool, key: string, weight: u32)
    requires DistinctKeys(p.keys)
    ensures DistinctKeys(AddKey(p, key, weight).keys)
    ensures Weights(AddKey(p, key, weight).keys) == Weights(p.keys)[key := weight]
  {
    var q := AddKey(p, key, weight).keys;
    var m := Weights(p.keys)[key := weight];
    var at := if Find(p.keys, key).Some? then Find(p.keys, key).value else |p.keys|;
    hide Weights, KeyNames, FindFrom;
    forall i | 0 <= i < |q|
      ensures q[i].key in m && m[q[i].key] == q[i].weight
    {
      if i != at {
        FindDistinct(p.keys, i);
      }
    }
    forall k | k in m
      ensures k in KeyNames(q)
    {
      var i := at;
      if k != key {
        i := WeighedKey(p.keys, k);
      }
      Named(q, i);
    }
    WeightsAre(q, m);
  }

  /** remove_key deletes exactly one entry of the key-to-weight map and keeps the keys distinct. */
  lemma RemoveKeyWeights(p: Pool, key: string)
    requires DistinctKeys(p.keys)
    ensures DistinctKeys(RemoveKey(p, key).keys)
    ensures Weights(RemoveKey(p, key).keys) == Weights(p.keys) - {key}
  {
    var q := RemoveKey(p, key).keys;
    var m := Weights(p.keys) - {key};
    hide Weights, KeyNames, Without, Find;
    DistinctWithout(p.keys, key);
    forall i | 0 <= i < |q|
      ensures q[i].key in m && m[q[i].key] == q[i].weight
    {
      assert q[i] in p.keys;
      var j: nat :| j < |p.keys| && p.keys[j] == q[i];
      FindDistinct(p.keys, j);
    }
    forall k | k in m
      ensures k in KeyNames(q)
    {
      var j := WeighedKey(p.keys, k);
      assert p.keys[j] in q;
      var i: nat :| i < |q| && q[i] == p.keys[j];
      Named(q, i);
    }
    WeightsAre(q, m);
  }

  /**
   add_key leaves the first entry with the key where it was, or appends one, healthy,
   without errors and with its request count kept; every other entry stays as it is. With
   distinct keys it is the only entry with the key.
   */
  lemma AddKeyExact(p: Pool, key: string, weight: u32)
    ensures
      var q, at := AddKey(p, key, weight).keys, Find(AddKey(p, key, weight).keys, key);
      && AddKey(p, key, weight).cursor == p.cursor
      && at == Some(if Find(p.keys, key).Some? then Find(p.keys, key).value else |p.keys|)
      && q[at.value] == KeyState(key, weight, true, 0, if at.value < |p.keys| then p.keys[at.value].requests else 0)
      && (forall i | 0 <= i < |p.keys| && i != at.value :: i < |q| && q[i] == p.keys[i])
      && |q| == |p.keys| + (if key in KeyNames(p.keys) then 0 else 1)
      && (DistinctKeys(p.keys) ==> forall i | 0 <= i < |q| && i != at.value :: q[i].key != key)
  {
    var q := AddKey(p, key, weight).keys;
    match Find(p.keys, key) {
      case None =>
        FoundAt(q, key, |p.keys|);
      case Some(at) =>
        FoundAt(q, key, at);
        Named(p.keys, at);
        if DistinctKeys(p.keys) {
          forall i | 0 <= i < |q| && i != at
            ensures q[i].key != key
          {
            assert p.keys[i].key != p.keys[at].key;
          }
        }
    }
  }

  lemma FoundAt(keys: seq<KeyState>, key: string, at: nat)
    requires at < |keys| && keys[at].key == key && forall j | 0 <= j < at :: keys[j].key != key
    ensures Find(keys, key) == Some(at)
  {
  }

  /** `rest` is what `keys` holds at the positions `kept`, in order: all the entries with other keys. */
  ghost predicate Keeps(keys: seq<KeyState>, key: string, rest: seq<KeyState>, kept: seq<nat>) {
    && |rest| == |kept|
    && (forall j | 0 <= j < |kept| :: kept[j] < |keys| && rest[j] == keys[kept[j]])
    && (forall i, j | 0 <= i < j < |kept| :: kept[i] < kept[j])
    && (forall i: nat :: i in kept <==> i < |keys| && keys[i].key != key)
  }

  lemma KeepsDropped(keys: seq<KeyState>, key: string, rest: seq<KeyState>, kept: seq<nat>, last: KeyState)
    requires Keeps(keys, key, rest, kept) && last.key == key
    ensures Keeps(keys + [last], key, rest, kept)
  {
  }

  lemma KeepsAdded(keys: seq<KeyState>, key: string, rest: seq<KeyState>, kept: seq<nat>, last: KeyState)
    requires Keeps(keys, key, rest, kept) && last.key != key
    ensures Keeps(keys + [last], key, rest + [last], kept + [|keys|])
  {
    forall i: nat
      ensures i in kept + [|keys|] <==> i in kept || i == |keys|
    {
    }
  }

  lemma {:induction false} WithoutKeeps(keys: seq<KeyState>, key: string) returns (kept: seq<nat>)
    ensures Keeps(keys, key, Without(keys, key), kept)
  {
    if keys == [] {
      kept := KeepsNothing(keys, key);
    } else {
      hide Keeps, Without;
      var n := |keys| - 1;
      kept := WithoutKeeps(keys[..n], key);
      kept := KeepsNext(keys[..n], keys[n], key, Without(keys[..n], key), kept);
      WithoutStep(keys, n, key);
      assert keys[..n] + [keys[n]] == keys == keys[..n + 1];
    }
  }

  lemma KeepsNothing(keys: seq<KeyState>, key: string) returns (kept: seq<nat>)
    requires keys == []
    ensures Keeps(keys, key, Without(keys, key), kept)
  {
    kept := [];
  }

  lemma KeepsNext(keys: seq<KeyState>, last: KeyState, key: string, rest: seq<KeyState>, kept: seq<nat>) returns (kept': seq<nat>)
    requires Keeps(keys, key, rest, kept)
    ensures Keeps(keys + [last], key, rest + if last.key == key then [] else [last], kept')
  {
    hide Keeps;
    kept' := kept;
    if last.key == key {
      KeepsDropped(keys, key, rest, kept, last);
      assert rest + [] == rest;
    } else {
      KeepsAdded(keys, key, rest, kept, last);
      kept' := kept + [|keys|];
    }
  }

  /**
   remove_key drops every entry with the key and no other: the entries that stay keep their
   whole state, their order and their multiplicity, and the cursor stays where it is.
   */
  lemma RemoveKeyExact(p: Pool, key: string) returns (kept: seq<nat>)
    ensures RemoveKey(p, key).cursor == p.cursor && Keeps(p.keys, key, RemoveKey(p, key).keys, kept)
  {
    kept := WithoutKeeps(p.keys, key);
  }

  /** Traffic changes neither keys nor weights. */
  predicate SameKeysAndWeights(a: seq<KeyState>, b: seq<KeyState>) {
    |a| == |b| && forall i | 0 <= i < |a| :: a[i].key == b[i].key && a[i].weight == b[i].weight
  }

  lemma SameKeysSameWeights(a: seq<KeyState>, b: seq<KeyState>)
    requires SameKeysAndWeights(a, b)
    ensures Weights(a) == Weights(b)
    ensures DistinctKeys(a) <==> DistinctKeys(b)
  {
    assert forall i | 0 <= i < |a| :: a[i].key == b[i].key;
    forall k
      ensures Find(a, k) == Find(b, k)
    {
    }
    assert KeyNames(a) == KeyNames(b);
  }

  /** Every pool operation keeps "healthy implies fewer than three errors". */
  lemma OperationsStaySettled(p: Pool, key: string, weight: u32, i: nat)
    requires Settled(p.keys)
    ensures Settled(Acquire(p).1.keys)
    ensures Settled(ReportSuccess(p, key).keys)
    ensures Settled(ReportFailure(p, key).keys)
    ensures Settled(AddKey(p, key, weight).keys)
    ensures Settled(RemoveKey(p, key).keys)
    ensures i < |p.keys| ==> Settled(p.keys[i := Recovered(p.keys[i])])
  {
    SettledWithout(p.keys, key);
  }
}
