/**
 The limiter's bound in clock time, when the readings of one key's checks can step back:
 the clock is read before the bucket is locked, so racing callers may reach the bucket the
 wrong way round.
 */
module ClockSkew {
  import opened Numbers
  import opened RateLimiter
  import opened LimiterTheorems
  import Greedy

  /** No reading is more than `delta` behind an earlier one. */
  predicate SkewWithin(ts: seq<real>, delta: real) {
    forall i, j | 0 <= i <= j < |ts| :: ts[i] - ts[j] <= delta
  }

  /** The readings of checks i, ..., j - 1 lie in [lo, hi]. */
  predicate ReadIn(ts: seq<real>, i: nat, j: nat, lo: real, hi: real)
    requires i <= j <= |ts|
  {
    lo <= hi && forall k | i <= k < j :: lo <= ts[k] <= hi
  }

  /** Checks i, ..., j - 1 admit at most the burst plus the refill of so many seconds. */
  predicate FitsIn(l: Limits, ts: seq<real>, i: nat, j: nat, length: real)
    requires i <= j <= |ts|
  {
    Admissions(l, ts, i, j) as real <= Burst(l) + length * Rate(l)
  }

  /** Checks read within [lo, hi] admit at most the burst plus the refill of that time. */
  ghost predicate Bounded(l: Limits, ts: seq<real>) {
    forall i: nat, j: nat, lo: real, hi: real | i <= j <= |ts| && ReadIn(ts, i, j, lo, hi) :: FitsIn(l, ts, i, j, hi - lo)
  }

  /** The bound holds for every trace whose readings step back by at most `delta`. */
  ghost predicate BoundSurvives(l: Limits, delta: real) {
    forall ts: seq<real> | SkewWithin(ts, delta) :: Bounded(l, ts)
  }

  // ---------------------------------------------------------------- what the bound costs in general

  /** By how much the readings step back between checks i and j, in all. */
  function SteppedBack(ts: seq<real>, i: nat, j: nat): (r: real)
    requires i <= j < |ts|
    ensures r >= 0.0
    decreases j - i
  {
    if i == j then 0.0 else SteppedBack(ts, i, j - 1) + Elapsed(ts[j], ts[j - 1])
  }

  lemma {:induction false} CreditCountsStepsBack(l: Limits, ts: seq<real>, i: nat, j: nat)
    requires i <= j < |ts|
    ensures Credit(l, ts, i, j) == (ts[j] - ts[i] + SteppedBack(ts, i, j)) * Rate(l)
    decreases j - i
  {
    hide Rate;
    if i < j {
      CreditCountsStepsBack(l, ts, i, j - 1);
      var before := ts[j - 1] - ts[i] + SteppedBack(ts, i, j - 1);
      Distribute(before, Elapsed(ts[j - 1], ts[j]), Rate(l));
      assert before + Elapsed(ts[j - 1], ts[j]) == ts[j] - ts[i] + SteppedBack(ts, i, j);
    }
  }

  /** For all readings: every step back is credited again, and this is all the bound loses. */
  lemma WindowBoundWithSkew(l: Limits, ts: seq<real>, i: nat, j: nat)
    requires i < j <= |ts|
    ensures Admissions(l, ts, i, j) as real <= Burst(l) + (ts[j - 1] - ts[i] + SteppedBack(ts, i, j - 1)) * Rate(l)
  {
    hide *;
    StretchBound(l, ts, i, j);
    CreditCountsStepsBack(l, ts, i, j - 1);
  }

  // ---------------------------------------------------------------- when the bound holds

  lemma OrderedFits(l: Limits, ts: seq<real>, i: nat, j: nat, length: real)
    requires Nondecreasing(ts) && i <= j <= |ts| && length >= 0.0
    requires i < j ==> ts[j - 1] - ts[i] <= length
    ensures FitsIn(l, ts, i, j, length)
  {
    WindowWithin(l, ts, i, j, length);
  }

  lemma OrderedIsBounded(l: Limits, ts: seq<real>)
    requires Nondecreasing(ts)
    ensures Bounded(l, ts)
  {
    forall i: nat, j: nat, lo: real, hi: real | i <= j <= |ts| && ReadIn(ts, i, j, lo, hi)
      ensures FitsIn(l, ts, i, j, hi - lo)
    {
      hide FitsIn;
      OrderedFits(l, ts, i, j, hi - lo);
    }
  }

  lemma RateIsSign(l: Limits)
    ensures Rate(l) == 0.0 <==> l.requestsPerMinute == 0
    ensures Burst(l) >= 1.0 <==> l.burstSize > 0
  {
  }

  /** With no burst nothing is admitted, with no refill the burst at most, whatever the readings. */
  lemma IdleIsBounded(l: Limits, ts: seq<real>)
    requires l.burstSize == 0 || l.requestsPerMinute == 0
    ensures Bounded(l, ts)
  {
    forall i: nat, j: nat, lo: real, hi: real | i <= j <= |ts| && ReadIn(ts, i, j, lo, hi)
      ensures FitsIn(l, ts, i, j, hi - lo)
    {
      hide FitsIn;
      IdleFits(l, ts, i, j, hi - lo);
    }
  }

  lemma {:induction false} IdleWindow(l: Limits, ts: seq<real>, i: nat, j: nat)
    requires l.burstSize == 0 || l.requestsPerMinute == 0
    requires i <= j <= |ts|
    ensures Admissions(l, ts, i, j) as real <= Burst(l)
    decreases j - i
  {
    hide Rate, Burst, Admitted;
    LimitsNonnegative(l);
    RateIsSign(l);
    if i < j && l.burstSize == 0 {
      IdleWindow(l, ts, i, j - 1);
      NeverAdmitted(l, ts, j - 1);
    } else if i < j {
      WindowBoundWithSkew(l, ts, i, j);
    }
  }

  lemma IdleFits(l: Limits, ts: seq<real>, i: nat, j: nat, length: real)
    requires (l.burstSize == 0 || l.requestsPerMinute == 0) && i <= j <= |ts| && length >= 0.0
    ensures FitsIn(l, ts, i, j, length)
  {
    hide Rate, Burst, Admissions;
    IdleWindow(l, ts, i, j);
    LimitsNonnegative(l);
    ProductSign(length, Rate(l));
  }

  lemma NeverAdmitted(l: Limits, ts: seq<real>, j: nat)
    requires l.burstSize == 0 && j < |ts|
    ensures !Admitted(l, ts, j)
  {
    TokensInRange(l, ts, j);
  }

  // ---------------------------------------------------------------- when it does not

  /** The limiter does not waste credit: what is not admitted is one gain per admission and a full bucket. */
  lemma CreditIsSpent(l: Limits, ts: seq<real>, most: real, j: nat)
    requires l.burstSize > 0 && j < |ts| && forall k: nat | k < |ts| :: GainAt(l, ts, k) <= most
    ensures Credit(l, ts, 0, j) <= Admissions(l, ts, 0, j + 1) as real * (1.0 + most) + Burst(l)
  {
    hide Rate, Burst, GainAt, Admissions, Credit;
    LimitsNonnegative(l);
    RateIsSign(l);
    var cap, gains := Burst(l), Gains(l, ts);
    GainsAreGainful(l, ts);
    forall k | 0 <= k < |gains|
      ensures gains[k] <= most
    {
      assert gains[k] == GainAt(l, ts, k);
    }
    Greedy.GainsAreSpent(cap, gains, most, j);
    Greedy.LevelBounds(cap, gains, j);
    AdmissionsAgree(l, ts, 0, j + 1);
    GainedIsCredit(l, ts, 0, j);
  }

  /** Two callers who keep overtaking each other: readings 0, delta, 0, delta, ... */
  function SawTooth(delta: real, pairs: nat): (ts: seq<real>)
    ensures |ts| == 2 * pairs && forall k | 0 <= k < |ts| :: ts[k] == if k % 2 == 0 then 0.0 else delta
  {
    seq(2 * pairs, k => if k % 2 == 0 then 0.0 else delta)
  }

  lemma SawToothGain(l: Limits, delta: real, pairs: nat, j: nat)
    requires delta >= 0.0 && j < 2 * pairs
    ensures GainAt(l, SawTooth(delta, pairs), j) == if j % 2 == 0 then 0.0 else delta * Rate(l)
  {
  }

  lemma {:induction false} SawToothCredit(l: Limits, delta: real, pairs: nat, k: nat)
    requires delta >= 0.0 && 0 < k <= pairs
    ensures Credit(l, SawTooth(delta, pairs), 0, 2 * k - 1) == k as real * (delta * Rate(l))
  {
    hide GainAt, Rate, SawTooth;
    var ts, gain := SawTooth(delta, pairs), delta * Rate(l);
    SawToothGain(l, delta, pairs, 2 * k - 1);
    if k == 1 {
      assert Credit(l, ts, 0, 0) == 0.0;
    } else {
      SawToothCredit(l, delta, pairs, k - 1);
      SawToothGain(l, delta, pairs, 2 * k - 2);
      Distribute((k - 1) as real, 1.0, gain);
      assert Credit(l, ts, 0, 2 * k - 2) == Credit(l, ts, 0, 2 * (k - 1) - 1) + GainAt(l, ts, 2 * k - 2);
    }
  }

  /** Some multiple of a positive gain exceeds any limit. */
  lemma EnoughPairs(gain: real, limit: real) returns (pairs: nat)
    requires gain > 0.0 && limit >= 0.0
    ensures pairs > 0 && pairs as real * gain > limit
  {
    var q := limit / gain;
    assert q >= 0.0 && q * gain == limit;
    pairs := q.Floor + 1;
    assert pairs as real > q;
    Larger(q, pairs as real, gain);
  }

  lemma Larger(x: real, y: real, gain: real)
    requires x < y && gain > 0.0
    ensures x * gain < y * gain
  {
  }

  lemma LargerFactor(x: real, y: real, f: real)
    requires f > 0.0 && x * f < y * f
    ensures x < y
  {
    if x > y {
      Larger(y, x, f);
    }
  }

  /** Any step back, repeated often enough, breaks the bound. */
  lemma SawToothBreaksBound(l: Limits, delta: real) returns (ts: seq<real>)
    requires delta > 0.0 && l.burstSize > 0 && l.requestsPerMinute > 0
    ensures SkewWithin(ts, delta) && !Bounded(l, ts)
  {
    hide GainAt, Rate, Burst, Admissions, Credit;
    LimitsNonnegative(l);
    RateIsSign(l);
    var gain := delta * Rate(l);
    Larger(0.0, delta, Rate(l));
    var bound := Burst(l) + gain;
    ProductSign(bound, 1.0 + gain);
    var pairs := EnoughPairs(gain, Burst(l) + bound * (1.0 + gain));
    ts := SawTooth(delta, pairs);
    forall k: nat | k < |ts|
      ensures GainAt(l, ts, k) <= gain
    {
      SawToothGain(l, delta, pairs, k);
    }
    SawToothCredit(l, delta, pairs, pairs);
    CreditIsSpent(l, ts, gain, 2 * pairs - 1);
    var admitted := Admissions(l, ts, 0, 2 * pairs);
    LargerFactor(bound, admitted as real, 1.0 + gain);
    assert !FitsIn(l, ts, 0, 2 * pairs, delta);
    assert ReadIn(ts, 0, 2 * pairs, 0.0, delta) && delta - 0.0 == delta;
  }

  /**
   The exact condition for the bound in clock time: it holds for every trace whose readings
   step back by at most `delta` if and only if they do not step back at all, or the burst
   is 0, or there is no refill.
   */
  lemma ClockBoundIff(l: Limits, delta: real)
    requires delta >= 0.0
    ensures BoundSurvives(l, delta) <==> delta == 0.0 || l.burstSize == 0 || l.requestsPerMinute == 0
  {
    if l.burstSize == 0 || l.requestsPerMinute == 0 {
      forall ts: seq<real> | SkewWithin(ts, delta)
        ensures Bounded(l, ts)
      {
        IdleIsBounded(l, ts);
      }
    } else if delta == 0.0 {
      forall ts: seq<real> | SkewWithin(ts, delta)
        ensures Bounded(l, ts)
      {
        assert Nondecreasing(ts) by {
          assert forall i, j | 0 <= i <= j < |ts| :: ts[i] - ts[j] <= 0.0;
        }
        OrderedIsBounded(l, ts);
      }
    } else {
      var ts := SawToothBreaksBound(l, delta);
    }
  }
}
