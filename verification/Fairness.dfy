/**
 Weighted round robin is fair: counting the acquires that pick one key over any
 stretch in which the healthy keys and their weights do not change, from any stored
 cursor, with arbitrary reports in between. A key is counted by the slots it covers, which
 also covers weights whose sums wrap; below 2^32 it covers as many slots as its weight says.
 */
module Fairness {
  import opened Numbers
  import opened Results
  import opened PoolModel

  /** What selection reads: keys, weights, health and the cursor, but neither error nor request counts. */
  predicate SameSelection(p: Pool, q: Pool) {
    && p.cursor == q.cursor
    && |p.keys| == |q.keys|
    && forall i | 0 <= i < |p.keys| ::
         p.keys[i].key == q.keys[i].key && p.keys[i].weight == q.keys[i].weight && p.keys[i].healthy == q.keys[i].healthy
  }

  /**
   A stretch of acquires: acquire `k` takes pools[k] and picks position picks[k]; until
   the next acquire anything may happen that leaves selection alone.
   */
  predicate Stretch(pools: seq<Pool>, picks: seq<nat>) {
    && |pools| == |picks| + 1
    && forall k | 0 <= k < |picks| ::
         Acquire(pools[k]).0 == Some(picks[k]) && SameSelection(Acquire(pools[k]).1, pools[k + 1])
  }

  lemma StretchLength(pools: seq<Pool>, picks: seq<nat>)
    requires Stretch(pools, picks)
    ensures |pools| == |picks| + 1
  {
  }

  function Picked(picks: seq<nat>, i: nat): nat {
    if picks == [] then 0
    else Picked(picks[..|picks| - 1], i) + if picks[|picks| - 1] == i then 1 else 0
  }

  lemma {:induction false} SamePrefix(p: Pool, q: Pool, n: nat)
    requires SameSelection(p, q) && n <= |p.keys|
    ensures Prefix(p.keys, n) == Prefix(q.keys, n)
  {
    if n > 0 {
      SamePrefix(p, q, n - 1);
    }
  }

  // ---------------------------------------------------------------- slots

  /** The number of slots the cursor goes round. */
  function Round(keys: seq<KeyState>): u32 {
    Wrap32(Total(keys))
  }

  /** The slot that cursor position `m` stands for belongs to key `i`. */
  predicate Owns(keys: seq<KeyState>, i: nat, m: nat)
    requires Round(keys) != 0
  {
    Covers(keys, m % Round(keys), i)
  }

  /** How many of the cursor positions from, ..., from + n - 1 belong to key `i`. */
  function OwnedIn(keys: seq<KeyState>, i: nat, from: nat, n: nat): (r: nat)
    requires Round(keys) != 0
    ensures r <= n
  {
    if n == 0 then 0 else OwnedIn(keys, i, from, n - 1) + if Owns(keys, i, from + (n - 1)) then 1 else 0
  }

  /** The number of slots key `i` covers. */
  function Slots(keys: seq<KeyState>, i: nat): nat
    requires Round(keys) != 0
  {
    OwnedIn(keys, i, 0, Round(keys))
  }

  lemma {:induction false} OwnedSplit(keys: seq<KeyState>, i: nat, from: nat, m: nat, n: nat)
    requires Round(keys) != 0
    ensures OwnedIn(keys, i, from, m + n) == OwnedIn(keys, i, from, m) + OwnedIn(keys, i, from + m, n)
  {
    hide Owns, Round;
    if n > 0 {
      OwnedSplit(keys, i, from, m, n - 1);
      assert m + n - 1 == m + (n - 1) && from + (m + n - 1) == from + m + (n - 1);
    }
  }

  lemma OwnedOnce(keys: seq<KeyState>, i: nat, m: nat)
    requires Round(keys) != 0
    ensures OwnedIn(keys, i, m, 1) == if Owns(keys, i, m) then 1 else 0
  {
    hide Owns, Round;
    assert OwnedIn(keys, i, m, 0) == 0;
  }

  lemma OwnsAgain(keys: seq<KeyState>, i: nat, m: nat)
    requires Round(keys) != 0
    ensures Owns(keys, i, m + Round(keys)) == Owns(keys, i, m)
  {
    hide Round, Covers;
    var t := Round(keys);
    DivModUnique(m + t, t, m / t + 1, m % t);
  }

  /** Whatever position a round starts from, it passes all slots of the key. */
  lemma {:induction false} RoundIsSlots(keys: seq<KeyState>, i: nat, from: nat)
    requires Round(keys) != 0
    ensures OwnedIn(keys, i, from, Round(keys)) == Slots(keys, i)
  {
    hide Round, Owns, OwnedIn;
    if from > 0 {
      var t := Round(keys);
      RoundIsSlots(keys, i, from - 1);
      OwnedSplit(keys, i, from - 1, 1, t);
      OwnedSplit(keys, i, from - 1, t, 1);
      OwnedOnce(keys, i, from - 1);
      OwnedOnce(keys, i, from - 1 + t);
      OwnsAgain(keys, i, from - 1);
    }
  }

  lemma {:induction false} RoundsAreSlots(keys: seq<KeyState>, i: nat, from: nat, rounds: nat)
    requires Round(keys) != 0
    ensures OwnedIn(keys, i, from, rounds * Round(keys)) == rounds * Slots(keys, i)
  {
    hide Round, Slots;
    var t := Round(keys);
    if rounds == 0 {
      assert OwnedIn(keys, i, from, 0) == 0;
    } else {
      hide OwnedIn;
      RoundsAreSlots(keys, i, from, rounds - 1);
      OwnedSplit(keys, i, from, (rounds - 1) * t, t);
      RoundIsSlots(keys, i, from + (rounds - 1) * t);
      OneMoreTime(rounds - 1, t);
      OneMoreTime(rounds - 1, Slots(keys, i));
    }
  }

  lemma OneMoreTime(n: nat, x: nat)
    ensures (n + 1) * x == n * x + x
  {
  }

  /** Part of a round passes at most all slots of the key, and leaves at most the rest of the round of them. */
  lemma PartOfRound(keys: seq<KeyState>, i: nat, from: nat, r: nat)
    requires Round(keys) != 0 && r <= Round(keys)
    ensures
      var c, w := OwnedIn(keys, i, from, r), Slots(keys, i);
      c <= r && c <= w && w - c <= Round(keys) - r
  {
    hide Round, Slots, OwnedIn;
    OwnedSplit(keys, i, from, r, Round(keys) - r);
    RoundIsSlots(keys, i, from);
  }

  /** A key with `w` of `total` slots was picked `c` times in `n` picks, as near to its share as the slots allow. */
  predicate FairShare(total: nat, w: nat, n: nat, c: nat) {
    w <= total && -(w * (total - w)) <= total * c - n * w <= w * (total - w)
  }

  /** Whole rounds do not count, and part of one cannot deviate by more than this. */
  lemma PartIsFair(total: nat, w: nat, q: nat, r: nat, c: nat, m: nat, mw: nat)
    requires r <= total && c <= r && c <= w && w - c <= total - r && m == q * total && mw == q * w
    ensures FairShare(total, w, m + r, mw + c)
  {
    assert total * (mw + c) - (m + r) * w == total * c - r * w by {
      assert total * (q * w) == (q * total) * w;
    }
    PartDeviation(total, w, r, c);
  }

  lemma PartDeviation(total: int, w: int, r: int, c: int)
    requires 0 <= r <= total && 0 <= c <= r && c <= w && w - c <= total - r
    ensures -(w * (total - w)) <= total * c - r * w <= w * (total - w)
  {
    Ordered(c * (total - w), w * (total - w), c, w, total - w);
    Ordered(c * w, r * w, c, r, w);
    Ordered((r - c) * w, (total - w) * w, r - c, total - w, w);
    Ordered(0, c * (total - w), 0, c, total - w);
    assert total * c - r * w == c * (total - w) - (r - c) * w;
  }

  lemma Ordered(xz: int, yz: int, x: int, y: int, z: int)
    requires x <= y && z >= 0 && xz == x * z && yz == y * z
    ensures xz <= yz
  {
  }

  lemma DivModUnique(x: int, d: int, q: int, r: int)
    requires d > 0 && 0 <= r < d && x == d * q + r
    ensures x / d == q && x % d == r
  {
    var q', r' := x / d, x % d;
    assert d * (q' - q) == r - r' by {
      assert d * q' + r' == x;
    }
    MulAtLeast(d, q' - q);
  }

  lemma MulAtLeast(d: int, k: int)
    requires d > 0
    ensures k > 0 ==> d * k >= d
    ensures k < 0 ==> d * k <= -d
  {
  }

  lemma OwnedIsFair(keys: seq<KeyState>, i: nat, from: nat, n: nat)
    requires Round(keys) != 0
    ensures FairShare(Round(keys), Slots(keys, i), n, OwnedIn(keys, i, from, n))
  {
    hide *;
    DivParts(n, Round(keys));
    RoundsAndPart(keys, i, from, n / Round(keys), n % Round(keys), (n / Round(keys)) * Round(keys), n);
  }

  lemma DivParts(n: nat, d: nat)
    requires d > 0
    ensures 0 <= n / d && 0 <= n % d < d && n == (n / d) * d + n % d
  {
  }

  /** `m` positions make up `q` whole rounds, and `r` more part of one. */
  lemma RoundsAndPart(keys: seq<KeyState>, i: nat, from: nat, q: nat, r: nat, m: nat, n: nat)
    requires Round(keys) != 0 && r <= Round(keys) && m == q * Round(keys) && n == m + r
    ensures FairShare(Round(keys), Slots(keys, i), n, OwnedIn(keys, i, from, n))
  {
    hide *;
    OwnedSplit(keys, i, from, m, r);
    RoundsAreSlots(keys, i, from, q);
    PartOfRound(keys, i, from + m, r);
    PartIsFair(Round(keys), Slots(keys, i), q, r, OwnedIn(keys, i, from + m, r), m, OwnedIn(keys, i, from, m));
  }

  // ---------------------------------------------------------------- the pool follows the slots

  lemma SameTotal(p: Pool, q: Pool)
    requires SameSelection(p, q)
    ensures Total(p.keys) == Total(q.keys)
  {
    SamePrefix(p, q, |p.keys|);
  }

  lemma SameCovers(p: Pool, q: Pool, index: nat, i: nat)
    requires SameSelection(p, q)
    ensures Covers(p.keys, index, i) == Covers(q.keys, index, i)
  {
    forall j: nat | j <= |p.keys|
      ensures Prefix(p.keys, j) == Prefix(q.keys, j)
    {
      SamePrefix(p, q, j);
    }
  }

  lemma SameSlots(p: Pool, q: Pool, i: nat)
    requires SameSelection(p, q) && Round(p.keys) != 0
    ensures Round(q.keys) == Round(p.keys) && Slots(q.keys, i) == Slots(p.keys, i)
  {
    SameTotal(p, q);
    SameOwned(p, q, i, Round(p.keys));
  }

  lemma {:induction false} SameOwned(p: Pool, q: Pool, i: nat, n: nat)
    requires SameSelection(p, q) && Round(p.keys) == Round(q.keys) != 0
    ensures OwnedIn(q.keys, i, 0, n) == OwnedIn(p.keys, i, 0, n)
  {
    hide Covers, SameSelection, Round;
    if n > 0 {
      SameOwned(p, q, i, n - 1);
      SameCovers(p, q, (n - 1) % Round(p.keys), i);
    }
  }

  /** An acquire leaves selection alone but for the cursor, which takes the next slot. */
  lemma AcquireMovesOn(p: Pool)
    requires Round(p.keys) != 0
    ensures Acquire(p).0.Some?
    ensures SameSelection(p.(cursor := 0), Acquire(p).1.(cursor := 0))
    ensures Acquire(p).1.cursor == (p.cursor + 1) % Round(p.keys)
  {
    hide Acquire, Total, Covers;
    AcquireGrants(p, Round(p.keys), Select(p.keys, p.cursor % Round(p.keys)));
  }

  /** Along a stretch the pool walks through consecutive slots, whatever cursor it started from. */
  lemma {:induction false} WalkThroughSlots(pools: seq<Pool>, picks: seq<nat>, n: nat)
    requires Stretch(pools, picks) && n <= |picks| && Round(pools[0].keys) != 0
    ensures |pools[n].keys| == |pools[0].keys|
    ensures SameSelection(pools[0].(cursor := 0), pools[n].(cursor := 0))
    ensures Round(pools[n].keys) == Round(pools[0].keys)
    ensures pools[n].cursor % Round(pools[0].keys) == (pools[0].cursor + n) % Round(pools[0].keys)
  {
    if n > 0 {
      WalkThroughSlots(pools, picks, n - 1);
      var p := pools[n - 1];
      hide Acquire, Total, Prefix, Wrap32;
      assert SameSelection(Acquire(p).1, pools[n]);
      AcquireMovesOn(p);
      SameTotal(pools[0].(cursor := 0), pools[n].(cursor := 0));
      ModSuccessor(p.cursor, pools[0].cursor + (n - 1), Round(p.keys));
    }
  }

  lemma ModSuccessor(x: nat, y: nat, d: nat)
    requires d > 0 && x % d == y % d
    ensures ((x + 1) % d) % d == (y + 1) % d
  {
    NextMod(x, d);
    NextMod(y, d);
    DivModUnique((x + 1) % d, d, 0, (x + 1) % d);
  }

  lemma NextMod(m: nat, d: nat)
    requires d > 0
    ensures (m + 1) % d == if m % d == d - 1 then 0 else m % d + 1
  {
    var q, r := m / d, m % d;
    if r == d - 1 {
      DivModUnique(m + 1, d, q + 1, 0);
    } else {
      DivModUnique(m + 1, d, q, r + 1);
    }
  }

  /** One acquire picks the key that owns the cursor's slot. */
  lemma PickOwnsSlot(pools: seq<Pool>, picks: seq<nat>, k: nat, i: nat)
    requires Stretch(pools, picks) && k < |picks| && Round(pools[0].keys) != 0
    ensures picks[k] == i <==> Owns(pools[0].keys, i, pools[0].cursor + k)
  {
    WalkThroughSlots(pools, picks, k);
    var slot := pools[k].cursor % Round(pools[k].keys);
    assert Acquire(pools[k]).0 == Some(picks[k]);
    hide Acquire, Covers, Total, SameSelection;
    AcquireCovers(pools[k], picks[k]);
    CoversUnique(pools[k].keys, slot, i, picks[k]);
    SameCovers(pools[0].(cursor := 0), pools[k].(cursor := 0), slot, i);
  }

  /** The number of times a key is picked is the number of its slots that were passed. */
  lemma {:induction false} PickedIsOwned(pools: seq<Pool>, picks: seq<nat>, n: nat, i: nat)
    requires Stretch(pools, picks) && n <= |picks| && Round(pools[0].keys) != 0
    ensures Picked(picks[..n], i) == OwnedIn(pools[0].keys, i, pools[0].cursor, n)
  {
    hide Owns, Stretch, Round;
    StretchLength(pools, picks);
    if n > 0 {
      PickedIsOwned(pools, picks, n - 1, i);
      assert picks[..n][..n - 1] == picks[..n - 1];
      PickOwnsSlot(pools, picks, n - 1, i);
    }
  }

  lemma AllPickedIsOwned(pools: seq<Pool>, picks: seq<nat>, i: nat)
    requires Stretch(pools, picks) && |pools| > 0 && Round(pools[0].keys) != 0
    ensures Picked(picks, i) == OwnedIn(pools[0].keys, i, pools[0].cursor, |picks|)
  {
    hide *;
    PickedIsOwned(pools, picks, |picks|, i);
    assert picks[..|picks|] == picks;
  }

  lemma OneMorePick(pools: seq<Pool>, picks: seq<nat>, i: nat)
    requires Stretch(pools, picks) && Acquire(pools[|picks|]).0 == Some(i)
    ensures Stretch(pools + [Acquire(pools[|picks|]).1], picks + [i])
  {
    hide Acquire;
    var pools', picks' := pools + [Acquire(pools[|picks|]).1], picks + [i];
    forall k | 0 <= k < |picks'|
      ensures Acquire(pools'[k]).0 == Some(picks'[k]) && SameSelection(Acquire(pools'[k]).1, pools'[k + 1])
    {
      if k < |picks| {
        assert SameSelection(Acquire(pools[k]).1, pools[k + 1]);
      }
    }
  }

  /** A stretch of every length exists: with a nonzero wrapped total, acquiring never fails. */
  lemma {:induction false} StretchOfLength(p: Pool, n: nat) returns (pools: seq<Pool>, picks: seq<nat>)
    requires Round(p.keys) != 0
    ensures Stretch(pools, picks) && pools[0] == p && |picks| == n
  {
    pools, picks := [p], [];
    if n > 0 {
      pools, picks := StretchOfLength(p, n - 1);
      hide Acquire, Stretch, Total;
      WalkThroughSlots(pools, picks, n - 1);
      AcquireMovesOn(pools[n - 1]);
      var (pick, next) := Acquire(pools[n - 1]);
      OneMorePick(pools, picks, pick.value);
      pools, picks := pools + [next], picks + [pick.value];
    }
  }

  // ---------------------------------------------------------------- theorems

  /**
   Fairness for all 32-bit weights, also when their sums wrap: over any n consecutive
   acquires, with W slots in a round, a key that covers w of them is picked c times with
   |W*c - n*w| <= w*(W - w).
   */
  lemma FairSlots(pools: seq<Pool>, picks: seq<nat>, i: nat)
    requires Stretch(pools, picks) && Round(pools[0].keys) != 0
    ensures FairShare(Round(pools[0].keys), Slots(pools[0].keys, i), |picks|, Picked(picks, i))
  {
    hide *;
    StretchLength(pools, picks);
    AllPickedIsOwned(pools, picks, i);
    OwnedIsFair(pools[0].keys, i, pools[0].cursor, |picks|);
  }

  /** Over any whole number of rounds every key is picked once for each of its slots. */
  lemma FairSlotRounds(pools: seq<Pool>, picks: seq<nat>, i: nat, rounds: nat)
    requires Stretch(pools, picks) && Round(pools[0].keys) != 0 && |picks| == rounds * Round(pools[0].keys)
    ensures Picked(picks, i) == rounds * Slots(pools[0].keys, i)
  {
    hide *;
    StretchLength(pools, picks);
    AllPickedIsOwned(pools, picks, i);
    RoundsAreSlots(pools[0].keys, i, pools[0].cursor, rounds);
  }

  /** Keys among the first `n` that own position `m`. */
  function Owners(keys: seq<KeyState>, n: nat, m: nat): nat
    requires Round(keys) != 0
  {
    if n == 0 then 0 else Owners(keys, n - 1, m) + if Owns(keys, n - 1, m) then 1 else 0
  }

  lemma {:induction false} OneOwner(keys: seq<KeyState>, n: nat, m: nat)
    requires Round(keys) != 0
    ensures Owners(keys, n, m) == if Select(keys, m % Round(keys)) < n then 1 else 0
  {
    hide Covers, Total, Wrap32;
    if n > 0 {
      OneOwner(keys, n - 1, m);
      CoversUnique(keys, m % Round(keys), n - 1, Select(keys, m % Round(keys)));
    }
  }

  /** Positions below `m` that belong to the first `n` keys. */
  function OwnedByFirst(keys: seq<KeyState>, n: nat, m: nat): nat
    requires Round(keys) != 0
  {
    if n == 0 then 0 else OwnedByFirst(keys, n - 1, m) + OwnedIn(keys, n - 1, 0, m)
  }

  lemma {:induction false} OwnedByPosition(keys: seq<KeyState>, n: nat, m: nat)
    requires Round(keys) != 0
    ensures OwnedByFirst(keys, n, 0) == 0
    ensures OwnedByFirst(keys, n, m + 1) == OwnedByFirst(keys, n, m) + Owners(keys, n, m)
  {
    hide Owns, Round;
    if n > 0 {
      OwnedByPosition(keys, n - 1, m);
    }
  }

  /** The keys share out the round: their slots add up to it. */
  lemma SlotsAddUp(keys: seq<KeyState>)
    requires Round(keys) != 0
    ensures OwnedByFirst(keys, |keys|, Round(keys)) == Round(keys)
  {
    AllOwned(keys, Round(keys));
  }

  lemma {:induction false} AllOwned(keys: seq<KeyState>, m: nat)
    requires Round(keys) != 0
    ensures OwnedByFirst(keys, |keys|, m) == m
  {
    hide Round, OwnedByFirst, Owners, Covers, Total;
    if m == 0 {
      OwnedByPosition(keys, |keys|, 0);
    } else {
      AllOwned(keys, m - 1);
      OwnedByPosition(keys, |keys|, m - 1);
      OneOwner(keys, |keys|, m - 1);
      SelectIsListed(keys, (m - 1) % Round(keys));
    }
  }

  lemma SelectIsListed(keys: seq<KeyState>, index: nat)
    requires index < Round(keys)
    ensures Select(keys, index) < |keys|
  {
  }

  // ---------------------------------------------------------------- without wrap-around

  lemma RoundIsTotal(keys: seq<KeyState>)
    requires 0 < Total(keys) < TWO32
    ensures Round(keys) == Total(keys) != 0
  {
  }

  /** Slots of key `i` among the first `n`. */
  lemma {:induction false} IntervalCount(keys: seq<KeyState>, i: nat, n: nat)
    requires 0 < Total(keys) < TWO32 && i < |keys| && n <= Total(keys)
    ensures Round(keys) != 0
    ensures
      var lo, hi := Prefix(keys, i), Prefix(keys, i + 1);
      OwnedIn(keys, i, 0, n) == if n <= lo then 0 else if n <= hi then n - lo else hi - lo
  {
    hide Total, Covers, Round;
    RoundIsTotal(keys);
    PrefixMonotone(keys, i, i + 1);
    if n > 0 {
      IntervalCount(keys, i, n - 1);
      SmallMod(n - 1, Total(keys));
      CoversIsInterval(keys, n - 1, i);
    }
  }

  lemma SmallMod(x: nat, d: nat)
    requires x < d
    ensures x % d == x
  {
  }

  /** A key covers as many slots as its weight says. */
  lemma SlotsAreShare(keys: seq<KeyState>, i: nat)
    requires 0 < Total(keys) < TWO32 && i < |keys|
    ensures Round(keys) == Total(keys) != 0 && Slots(keys, i) == Share(keys[i])
  {
    RoundIsTotal(keys);
    IntervalCount(keys, i, Total(keys));
    PrefixMonotone(keys, i + 1, |keys|);
  }

  lemma {:induction false} SlotsSum(keys: seq<KeyState>, n: nat)
    requires Round(keys) != 0 && n <= |keys|
    requires forall i: nat | i < n :: Slots(keys, i) == Share(keys[i])
    ensures OwnedByFirst(keys, n, Round(keys)) == Prefix(keys, n)
  {
    hide Round, OwnedIn, Share;
    if n > 0 {
      SlotsSum(keys, n - 1);
      assert Slots(keys, n - 1) == Share(keys[n - 1]);
    }
  }

  /** The exact condition for every key to have the share its weight asks for: the weights do not wrap. */
  lemma WeightsAreSharesIff(keys: seq<KeyState>)
    requires Round(keys) != 0
    ensures (forall i: nat | i < |keys| :: Slots(keys, i) == Share(keys[i])) <==> Total(keys) < TWO32
  {
    hide Slots, Share, OwnedByFirst;
    if Total(keys) < TWO32 {
      forall i: nat | i < |keys|
        ensures Slots(keys, i) == Share(keys[i])
      {
        SlotsAreShare(keys, i);
      }
    } else if forall i: nat | i < |keys| :: Slots(keys, i) == Share(keys[i]) {
      SlotsSum(keys, |keys|);
      SlotsAddUp(keys);
    }
  }

  /** A key added with weight -1 takes every slot, and a key of weight 2 beside it none. */
  lemma NegativeWeightTakesAll()
    ensures
      var keys := [KeyState("a", Wrap32(-1), true, 0, 0), KeyState("b", 2, true, 0, 0)];
      Round(keys) == 1 && Slots(keys, 0) == 1 && Slots(keys, 1) == 0
  {
    var keys := [KeyState("a", Wrap32(-1), true, 0, 0), KeyState("b", 2, true, 0, 0)];
    assert Prefix(keys, 0) == 0 && Prefix(keys, 1) == TWO32 - 1 && Prefix(keys, 2) == TWO32 + 1;
    assert Round(keys) == 1;
    assert Covers(keys, 0, 0);
    CoversUnique(keys, 0, 0, 1);
    OwnedOnce(keys, 0, 0);
    OwnedOnce(keys, 1, 0);
  }

  /**
   Fairness with a tight discrepancy: over any n consecutive acquires with total weight W,
   a key of weight w is picked c times with |W*c - n*w| <= w*(W - w).
   */
  lemma FairDiscrepancy(pools: seq<Pool>, picks: seq<nat>, i: nat)
    requires Stretch(pools, picks) && 0 < Total(pools[0].keys) < TWO32
    requires i < |pools[0].keys|
    ensures FairShare(Total(pools[0].keys), Share(pools[0].keys[i]), |picks|, Picked(picks, i))
  {
    hide *;
    StretchLength(pools, picks);
    SlotsAreShare(pools[0].keys, i);
    FairSlots(pools, picks, i);
  }

  /** Over any whole number of rounds the shares are met exactly. */
  lemma FairRounds(pools: seq<Pool>, picks: seq<nat>, i: nat, rounds: nat)
    requires Stretch(pools, picks) && 0 < Total(pools[0].keys) < TWO32
    requires i < |pools[0].keys| && |picks| == rounds * Total(pools[0].keys)
    ensures Picked(picks, i) == rounds * Share(pools[0].keys[i])
  {
    hide *;
    StretchLength(pools, picks);
    SlotsAreShare(pools[0].keys, i);
    FairSlotRounds(pools, picks, i, rounds);
  }

  /**
   The discrepancy bound cannot be improved: a stretch of w acquires that starts at the
   first slot of a key of weight w picks that key every time and meets the bound.
   */
  lemma DiscrepancyIsAttained(pools: seq<Pool>, picks: seq<nat>, i: nat)
    requires Stretch(pools, picks) && 0 < Total(pools[0].keys) < TWO32
    requires i < |pools[0].keys| && Share(pools[0].keys[i]) > 0
    requires pools[0].cursor == Prefix(pools[0].keys, i) && |picks| == Share(pools[0].keys[i])
    ensures
      var total, w := Total(pools[0].keys), Share(pools[0].keys[i]);
      Picked(picks, i) == w && total * Picked(picks, i) - |picks| * w == w * (total - w)
  {
    hide *;
    StretchLength(pools, picks);
    RoundIsTotal(pools[0].keys);
    AllPickedIsOwned(pools, picks, i);
    AllOwnSlots(pools[0].keys, i, |picks|);
    ShareOfRest(Total(pools[0].keys), Share(pools[0].keys[i]));
  }

  lemma ShareOfRest(total: int, w: int)
    ensures total * w - w * w == w * (total - w)
  {
  }

  /** From its first slot on a key owns every position until its share is used up. */
  lemma {:induction false} AllOwnSlots(keys: seq<KeyState>, i: nat, n: nat)
    requires 0 < Total(keys) < TWO32 && i < |keys| && n <= Share(keys[i])
    ensures Round(keys) != 0 && OwnedIn(keys, i, Prefix(keys, i), n) == n
  {
    hide Total, Covers, Round;
    RoundIsTotal(keys);
    if n > 0 {
      AllOwnSlots(keys, i, n - 1);
      var slot := Prefix(keys, i) + (n - 1);
      PrefixBelowTotal(keys, i);
      SmallMod(slot, Total(keys));
      CoversIsInterval(keys, slot, i);
    }
  }

  lemma PrefixBelowTotal(keys: seq<KeyState>, i: nat)
    requires i < |keys|
    ensures Prefix(keys, i) + Share(keys[i]) == Prefix(keys, i + 1) <= Total(keys)
  {
    PrefixMonotone(keys, i + 1, |keys|);
  }
}
