/**
 The filtered list of healthy keys that acquire_key builds and searches, and the proof
 that searching it finds the same key as the share-based specification in PoolModel.
 */
module HealthyList {
  import opened Numbers
  import opened PoolModel

  /** Positions of the healthy keys among the first `n`, in order. */
  function Positions(keys: seq<KeyState>, n: nat): (r: seq<nat>)
    requires n <= |keys|
    ensures forall j | 0 <= j < |r| :: r[j] < n && keys[r[j]].healthy
  {
    if n == 0 then []
    else if keys[n - 1].healthy then Positions(keys, n - 1) + [n - 1]
    else Positions(keys, n - 1)
  }

  /** Sum of the weights at the first `m` listed positions. */
  function WeightAt(keys: seq<KeyState>, ps: seq<nat>, m: nat): nat
    requires m <= |ps| && forall j | 0 <= j < |ps| :: ps[j] < |keys|
  {
    if m == 0 then 0 else WeightAt(keys, ps, m - 1) + keys[ps[m - 1]].weight
  }

  lemma NothingListed(keys: seq<KeyState>, ps: seq<nat>)
    requires forall j | 0 <= j < |ps| :: ps[j] < |keys|
    ensures Wrap32(WeightAt(keys, ps, 0)) == 0
  {
  }

  lemma OneMoreListed(keys: seq<KeyState>, ps: seq<nat>, m: nat)
    requires m < |ps| && forall j | 0 <= j < |ps| :: ps[j] < |keys|
    ensures WeightAt(keys, ps, m + 1) == WeightAt(keys, ps, m) + keys[ps[m]].weight
  {
  }

  lemma {:induction false} WeightAtPrefix(keys: seq<KeyState>, ps: seq<nat>, qs: seq<nat>, m: nat)
    requires m <= |ps| && m <= |qs| && forall j | 0 <= j < m :: ps[j] == qs[j]
    requires forall j | 0 <= j < |ps| :: ps[j] < |keys|
    requires forall j | 0 <= j < |qs| :: qs[j] < |keys|
    ensures WeightAt(keys, ps, m) == WeightAt(keys, qs, m)
  {
    if m > 0 {
      WeightAtPrefix(keys, ps, qs, m - 1);
    }
  }

  lemma {:induction false} PositionsPrefix(keys: seq<KeyState>, q: nat, n: nat)
    requires q <= n <= |keys|
    ensures Positions(keys, q) <= Positions(keys, n)
    decreases n - q
  {
    if q < n {
      PositionsPrefix(keys, q, n - 1);
    }
  }

  /** The shares of the first `n` keys are the weights of the healthy ones among them. */
  lemma {:induction false} PrefixIsListSum(keys: seq<KeyState>, n: nat)
    requires n <= |keys|
    ensures WeightAt(keys, Positions(keys, n), |Positions(keys, n)|) == Prefix(keys, n)
  {
    if n > 0 {
      PrefixIsListSum(keys, n - 1);
      var before := Positions(keys, n - 1);
      WeightAtPrefix(keys, before, Positions(keys, n), |before|);
    }
  }

  /** A position is listed after exactly the healthy positions before it. */
  lemma {:induction false} RankOfPosition(keys: seq<KeyState>, n: nat, m: nat)
    requires n <= |keys| && m < |Positions(keys, n)|
    ensures |Positions(keys, Positions(keys, n)[m])| == m
  {
    if !(keys[n - 1].healthy && m == |Positions(keys, n - 1)|) {
      RankOfPosition(keys, n - 1, m);
    }
  }

  /** The running total just before position `q` is a running total over the list. */
  lemma PrefixAsListPrefix(keys: seq<KeyState>, q: nat)
    requires q <= |keys|
    ensures |Positions(keys, q)| <= |Positions(keys, |keys|)|
    ensures Prefix(keys, q) == WeightAt(keys, Positions(keys, |keys|), |Positions(keys, q)|)
  {
    PositionsPrefix(keys, q, |keys|);
    PrefixIsListSum(keys, q);
    WeightAtPrefix(keys, Positions(keys, q), Positions(keys, |keys|), |Positions(keys, q)|);
  }

  /**
   Searching the filtered list refines the specification: the first listed key whose
   wrapped running total exceeds the slot is the key that covers the slot.
   */
  lemma SearchFindsCover(keys: seq<KeyState>, index: nat, m: nat)
    requires m < |Positions(keys, |keys|)|
    requires index < Wrap32(WeightAt(keys, Positions(keys, |keys|), m + 1))
    requires forall j: nat | j <= m :: Wrap32(WeightAt(keys, Positions(keys, |keys|), j)) <= index
    ensures Covers(keys, index, Positions(keys, |keys|)[m])
  {
    var ps := Positions(keys, |keys|);
    var i := ps[m];
    RankOfPosition(keys, |keys|, m);
    PrefixAsListPrefix(keys, i + 1);
    forall j: nat | j <= i
      ensures Wrap32(Prefix(keys, j)) <= index
    {
      PrefixAsListPrefix(keys, j);
      PositionsPrefix(keys, j, i);
    }
  }

  lemma SearchSelects(keys: seq<KeyState>, index: nat, m: nat)
    requires index < Wrap32(Total(keys))
    requires m < |Positions(keys, |keys|)|
    requires index < Wrap32(WeightAt(keys, Positions(keys, |keys|), m + 1))
    requires forall j: nat | j <= m :: Wrap32(WeightAt(keys, Positions(keys, |keys|), j)) <= index
    ensures Positions(keys, |keys|)[m] == Select(keys, index)
  {
    SearchFindsCover(keys, index, m);
    CoversUnique(keys, index, Positions(keys, |keys|)[m], Select(keys, index));
  }

  /** The total the program sums over the filtered list is the total of the shares. */
  lemma ListTotal(keys: seq<KeyState>)
    ensures WeightAt(keys, Positions(keys, |keys|), |Positions(keys, |keys|)|) == Total(keys)
  {
    PrefixIsListSum(keys, |keys|);
  }
}
