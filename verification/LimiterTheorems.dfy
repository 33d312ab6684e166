/** One client's checks: the exact set of admitted requests, and what the answers are worth. */
module LimiterTheorems {
  import opened Numbers
  import opened Results
  import opened RateLimiter
  import Greedy

  // ---------------------------------------------------------------- the history of one key

  /** The bucket that check `j` finds, for checks of one key at times ts[0], ts[1], ... */
  function BucketBefore(l: Limits, ts: seq<real>, j: nat): Bucket
    requires j < |ts|
  {
    if j == 0 then Fresh(l, ts[0]) else CheckBucket(l, BucketBefore(l, ts, j - 1), ts[j - 1]).1
  }

  predicate Admitted(l: Limits, ts: seq<real>, j: nat)
    requires j < |ts|
  {
    CheckBucket(l, BucketBefore(l, ts, j), ts[j]).0.Allowed?
  }

  /** Admitted checks among i, ..., j - 1. */
  function Admissions(l: Limits, ts: seq<real>, i: nat, j: nat): nat
    requires i <= j <= |ts|
    decreases j - i
  {
    if i == j then 0 else Admissions(l, ts, i, j - 1) + if Admitted(l, ts, j - 1) then 1 else 0
  }

  /** The tokens check `j` is credited. */
  function GainAt(l: Limits, ts: seq<real>, j: nat): (r: real)
    requires j < |ts|
  {
    if j == 0 then 0.0 else Elapsed(ts[j - 1], ts[j]) * Rate(l)
  }

  /** The tokens credited to checks i + 1, ..., j: clock steps backwards count as zero. */
  function Credit(l: Limits, ts: seq<real>, i: nat, j: nat): real
    requires i <= j < |ts|
    decreases j - i
  {
    if i == j then 0.0 else Credit(l, ts, i, j - 1) + GainAt(l, ts, j)
  }

  /** Check `i` can matter for check `j`: it was admitted, or it is check `j` itself. */
  predicate Anchors(l: Limits, ts: seq<real>, i: nat, j: nat)
    requires i <= j < |ts|
  {
    i == j || Admitted(l, ts, i)
  }

  predicate Nondecreasing(ts: seq<real>) {
    forall i, j | 0 <= i <= j < |ts| :: ts[i] <= ts[j]
  }

  // ---------------------------------------------------------------- the greedy characterisation

  function Gains(l: Limits, ts: seq<real>): (r: seq<real>)
    ensures |r| == |ts| && forall j: nat {:trigger r[j]} | j < |ts| :: r[j] == GainAt(l, ts, j)
  {
    seq(|ts|, j requires 0 <= j < |ts| => GainAt(l, ts, j))
  }

  lemma GainsAreGainful(l: Limits, ts: seq<real>)
    ensures Greedy.Gainful(Burst(l), Gains(l, ts))
  {
    forall j: nat | j < |ts|
      ensures GainAt(l, ts, j) >= 0.0
    {
      if j > 0 {
        ProductSign(Elapsed(ts[j - 1], ts[j]), Rate(l));
      }
    }
  }

  lemma ProductSign(x: real, y: real)
    requires x >= 0.0 && y >= 0.0
    ensures x * y >= 0.0
  {
  }

  lemma SumOrder(n: real, b: real, x: real, y: real)
    requires n <= b + x && x <= y
    ensures n <= b + y
  {
  }

  lemma ProductOrder(x: real, y: real, r: real)
    requires x <= y && r >= 0.0
    ensures x * r <= y * r
  {
  }

  /** One check moves the bucket as it moves the counter. */
  lemma CheckIsCounter(l: Limits, b: Bucket, now: real, gain: real)
    requires gain == Elapsed(b.lastRefill, now) * Rate(l)
    ensures
      var level := Greedy.Capped(b.tokens + gain, Burst(l));
      && Refill(l, b, now) == Bucket(level, now)
      && (CheckBucket(l, b, now).0.Allowed? <==> level >= 1.0)
      && CheckBucket(l, b, now).1 == Bucket(if level >= 1.0 then level - 1.0 else level, now)
  {
  }

  /** No time, no tokens. */
  lemma NothingAtOnce(l: Limits, now: real)
    ensures Elapsed(now, now) * Rate(l) == 0.0
  {
  }

  /** The limiter's bucket follows the counter of Greedy. */
  lemma {:induction false} BucketIsLevel(l: Limits, ts: seq<real>, j: nat)
    requires j < |ts|
    ensures Refill(l, BucketBefore(l, ts, j), ts[j]) == Bucket(Greedy.Level(Burst(l), Gains(l, ts), j), ts[j])
    ensures CheckBucket(l, BucketBefore(l, ts, j), ts[j]).1 == Bucket(Greedy.Left(Burst(l), Gains(l, ts), j), ts[j])
    ensures Admitted(l, ts, j) <==> Greedy.Admitted(Burst(l), Gains(l, ts), j)
  {
    hide CheckBucket, Refill, Elapsed, Rate, Burst;
    if j == 0 {
      NothingAtOnce(l, ts[0]);
      CheckIsCounter(l, Fresh(l, ts[0]), ts[0], 0.0);
    } else {
      BucketIsLevel(l, ts, j - 1);
      CheckIsCounter(l, BucketBefore(l, ts, j), ts[j], Gains(l, ts)[j]);
    }
  }

  lemma {:induction false} AdmissionsAgree(l: Limits, ts: seq<real>, i: nat, j: nat)
    requires i <= j <= |ts|
    ensures Admissions(l, ts, i, j) == Greedy.Admissions(Burst(l), Gains(l, ts), i, j)
    decreases j - i
  {
    if i < j {
      AdmissionsAgree(l, ts, i, j - 1);
      BucketIsLevel(l, ts, j - 1);
    }
  }

  lemma {:induction false} GainedIsCredit(l: Limits, ts: seq<real>, i: nat, j: nat)
    requires i <= j < |ts|
    ensures Greedy.Gained(Gains(l, ts), i, j) == Credit(l, ts, i, j)
    decreases j - i
  {
    if i < j {
      GainedIsCredit(l, ts, i, j - 1);
    }
  }

  lemma Distribute(x: real, y: real, r: real)
    ensures (x + y) * r == x * r + y * r
  {
  }

  /** With a clock that never steps back, the credit is the refill of the elapsed time. */
  lemma {:induction false} CreditIsRefill(l: Limits, ts: seq<real>, i: nat, j: nat)
    requires Nondecreasing(ts) && i <= j < |ts|
    ensures Credit(l, ts, i, j) == (ts[j] - ts[i]) * Rate(l)
    decreases j - i
  {
    if i < j {
      CreditIsRefill(l, ts, i, j - 1);
      Distribute(ts[j - 1] - ts[i], ts[j] - ts[j - 1], Rate(l));
      assert ts[j - 1] - ts[i] + (ts[j] - ts[j - 1]) == ts[j] - ts[i];
    }
  }

  /** One more admission at check `j` keeps within burst plus refill, counted from check `i`. */
  predicate Fits(l: Limits, ts: seq<real>, i: nat, j: nat)
    requires i <= j < |ts|
  {
    Admissions(l, ts, i, j) as real + 1.0 <= Burst(l) + Credit(l, ts, i, j)
  }

  /**
   The exact greedy characterisation, for all clock readings: check `j` is admitted if and
   only if, counted from itself and from every earlier admitted check, one more admission
   stays within the burst plus the tokens credited since.
   */
  lemma AdmittedIff(l: Limits, ts: seq<real>, j: nat)
    requires j < |ts|
    ensures Admitted(l, ts, j) <==> forall i: nat | i <= j && Anchors(l, ts, i, j) :: Fits(l, ts, i, j)
  {
    var cap, gains := Burst(l), Gains(l, ts);
    GainsAreGainful(l, ts);
    BucketIsLevel(l, ts, j);
    Greedy.AdmittedIff(cap, gains, j);
    forall i: nat | i <= j
      ensures Greedy.Anchors(cap, gains, i, j) == Anchors(l, ts, i, j)
      ensures Fits(l, ts, i, j) <==> Greedy.Allowance(cap, gains, i, j) >= 1.0
    {
      FitsAgree(l, ts, i, j);
    }
  }

  lemma FitsAgree(l: Limits, ts: seq<real>, i: nat, j: nat)
    requires i <= j < |ts|
    ensures Greedy.Anchors(Burst(l), Gains(l, ts), i, j) == Anchors(l, ts, i, j)
    ensures Fits(l, ts, i, j) <==> Greedy.Allowance(Burst(l), Gains(l, ts), i, j) >= 1.0
  {
    AdmissionsAgree(l, ts, i, j);
    GainedIsCredit(l, ts, i, j);
    BucketIsLevel(l, ts, i);
  }

  /** The same on a clock that never steps back: the credit is the refill of the elapsed time. */
  lemma AdmittedIffOnTime(l: Limits, ts: seq<real>, j: nat)
    requires Nondecreasing(ts) && j < |ts|
    ensures Admitted(l, ts, j) <==> forall i: nat | i <= j && Anchors(l, ts, i, j) :: FitsOnTime(l, ts, i, j)
  {
    AdmittedIff(l, ts, j);
    forall i: nat | i <= j
      ensures Fits(l, ts, i, j) <==> FitsOnTime(l, ts, i, j)
    {
      OnTimeAgrees(l, ts, i, j);
    }
  }

  lemma OnTimeAgrees(l: Limits, ts: seq<real>, i: nat, j: nat)
    requires Nondecreasing(ts) && i <= j < |ts|
    ensures Fits(l, ts, i, j) <==> FitsOnTime(l, ts, i, j)
  {
    hide Admissions, Credit, Elapsed, Rate;
    CreditIsRefill(l, ts, i, j);
  }

  predicate FitsOnTime(l: Limits, ts: seq<real>, i: nat, j: nat)
    requires i <= j < |ts|
  {
    Admissions(l, ts, i, j) as real + 1.0 <= Burst(l) + (ts[j] - ts[i]) * Rate(l)
  }

  /** The tokens of a key's bucket always lie between 0 and the burst size. */
  lemma TokensInRange(l: Limits, ts: seq<real>, j: nat)
    requires j < |ts|
    ensures 0.0 <= BucketBefore(l, ts, j).tokens <= Burst(l)
    ensures 0.0 <= Refill(l, BucketBefore(l, ts, j), ts[j]).tokens <= Burst(l)
  {
    GainsAreGainful(l, ts);
    Greedy.LevelBounds(Burst(l), Gains(l, ts), j);
    BucketIsLevel(l, ts, j);
    if j > 0 {
      Greedy.LevelBounds(Burst(l), Gains(l, ts), j - 1);
      BucketIsLevel(l, ts, j - 1);
    }
  }

  /** A stretch of checks i, ..., j - 1 admits at most the burst plus the tokens credited within it. */
  lemma StretchBound(l: Limits, ts: seq<real>, i: nat, j: nat)
    requires i < j <= |ts|
    ensures Admissions(l, ts, i, j) as real <= Burst(l) + Credit(l, ts, i, j - 1)
  {
    GainsAreGainful(l, ts);
    Greedy.StretchBound(Burst(l), Gains(l, ts), i, j);
    AdmissionsAgree(l, ts, i, j);
    GainedIsCredit(l, ts, i, j - 1);
  }

  /**
   Sliding window for one key: checks i, ..., j - 1, on a clock that does not step back,
   admit at most the burst plus the refill of the time between the first and the last.
   */
  lemma WindowBound(l: Limits, ts: seq<real>, i: nat, j: nat)
    requires Nondecreasing(ts) && i < j <= |ts|
    ensures Admissions(l, ts, i, j) as real <= Burst(l) + (ts[j - 1] - ts[i]) * Rate(l)
  {
    hide *;
    StretchBound(l, ts, i, j);
    CreditIsRefill(l, ts, i, j - 1);
  }

  /** The same for any length that covers the stretch. */
  lemma WindowWithin(l: Limits, ts: seq<real>, i: nat, j: nat, length: real)
    requires Nondecreasing(ts) && i <= j <= |ts| && length >= 0.0
    requires i < j ==> ts[j - 1] - ts[i] <= length
    ensures Admissions(l, ts, i, j) as real <= Burst(l) + length * Rate(l)
  {
    hide *;
    LimitsNonnegative(l);
    ProductSign(length, Rate(l));
    if i < j {
      WindowBound(l, ts, i, j);
      ProductOrder(ts[j - 1] - ts[i], length, Rate(l));
      SumOrder(Admissions(l, ts, i, j) as real, Burst(l), (ts[j - 1] - ts[i]) * Rate(l), length * Rate(l));
    } else {
      NoAdmissions(l, ts, i);
    }
  }

  lemma NoAdmissions(l: Limits, ts: seq<real>, i: nat)
    requires i <= |ts|
    ensures Admissions(l, ts, i, i) == 0
  {
  }

  lemma LimitsNonnegative(l: Limits)
    ensures Rate(l) >= 0.0 && Burst(l) >= 0.0
  {
  }

  /**
   The bound needs the clock to be read in order: two racing callers whose readings reach
   the bucket the wrong way round are both credited. With 60 requests a minute and burst 1,
   three requests are admitted within one second.
   */
  lemma RacingReadingsBreakTheBound()
    ensures
      var l, ts := Limits(60, 1), [10.0, 11.0, 10.0, 11.0];
      Admissions(l, ts, 0, 4) == 3 && Burst(l) + (11.0 - 10.0) * Rate(l) == 2.0
  {
    var l, ts := Limits(60, 1), [10.0, 11.0, 10.0, 11.0];
    assert Rate(l) == 1.0;
    assert BucketBefore(l, ts, 1) == Bucket(0.0, 10.0);
    assert BucketBefore(l, ts, 2) == Bucket(0.0, 11.0);
    assert BucketBefore(l, ts, 3) == Bucket(0.0, 10.0);
    assert Admitted(l, ts, 0) && Admitted(l, ts, 1) && !Admitted(l, ts, 2) && Admitted(l, ts, 3);
    assert Admissions(l, ts, 0, 1) == 1 && Admissions(l, ts, 0, 2) == 2 && Admissions(l, ts, 0, 3) == 2;
  }

  // ---------------------------------------------------------------- remaining

  /** The bucket after `n` more checks at the same instant. */
  function Again(l: Limits, b: Bucket, now: real, n: nat): Bucket {
    if n == 0 then b else CheckBucket(l, Again(l, b, now, n - 1), now).1
  }

  /** A further check at the same instant is answered from the tokens left. */
  lemma AtOnce(l: Limits, b: Bucket, now: real)
    requires b.lastRefill == now && b.tokens <= Burst(l)
    ensures CheckBucket(l, b, now) == (Verdict(l, b), Spend(b))
  {
    hide Elapsed, Rate;
    NothingAtOnce(l, now);
  }

  lemma {:induction false} AgainTokens(l: Limits, b: Bucket, now: real, n: nat)
    requires b.lastRefill == now && n as real <= b.tokens <= Burst(l)
    ensures Again(l, b, now, n) == Bucket(b.tokens - n as real, now)
  {
    hide CheckBucket, Burst;
    if n > 0 {
      AgainTokens(l, b, now, n - 1);
      AtOnce(l, Again(l, b, now, n - 1), now);
    }
  }

  /** What an admitted check leaves in the bucket. */
  lemma AllowedLeaves(l: Limits, b: Bucket, now: real, n: nat)
    requires CheckBucket(l, b, now).0 == Allowed(n)
    ensures
      var left := CheckBucket(l, b, now).1;
      left.tokens.Floor == n && left.tokens <= Burst(l) && left.lastRefill == now
  {
    hide Burst, Elapsed, Rate;
  }

  /**
   The remaining count is exact: after a check answered `Allowed(n)`, exactly n further checks
   at the same instant are allowed, each told one less, and the next is refused.
   */
  lemma RemainingIsExact(l: Limits, b: Bucket, now: real, n: nat, k: nat)
    requires CheckBucket(l, b, now).0 == Allowed(n)
    requires k <= n
    ensures
      var next := CheckBucket(l, Again(l, CheckBucket(l, b, now).1, now, k), now).0;
      if k < n then next == Allowed(n - 1 - k) else next.Limited?
  {
    hide CheckBucket, Burst, Again, Refill, Rate;
    var b' := CheckBucket(l, b, now).1;
    AllowedLeaves(l, b, now, n);
    FloorBounds(b'.tokens);
    AgainTokens(l, b', now, k);
    AtOnce(l, Again(l, b', now, k), now);
    if k < n {
      FloorIs(b'.tokens - k as real - 1.0, n - 1 - k);
    }
  }

  lemma FloorBounds(x: real)
    ensures x.Floor as real <= x < x.Floor as real + 1.0
  {
  }

  lemma FloorIs(x: real, n: int)
    requires n as real <= x < n as real + 1.0
    ensures x.Floor == n
  {
  }

  // ---------------------------------------------------------------- retry-after

  /** When a bucket left alone holds its next whole token. */
  function ReadyAt(l: Limits, b: Bucket): real
    requires Rate(l) > 0.0
  {
    b.lastRefill + (1.0 - b.tokens) / Rate(l)
  }

  /** What every bucket satisfies (see TokensInRange). */
  predicate Sound(l: Limits, b: Bucket) {
    0.0 <= b.tokens <= Burst(l)
  }

  lemma RefusedUntilReady(l: Limits, b: Bucket, now: real)
    requires Rate(l) > 0.0 && Sound(l, b) && b.lastRefill <= now && l.burstSize >= 1
    ensures CheckBucket(l, b, now).0.Limited? <==> now < ReadyAt(l, b)
    ensures now < ReadyAt(l, b) ==> ReadyAt(l, CheckBucket(l, b, now).1) == ReadyAt(l, b) && Sound(l, CheckBucket(l, b, now).1)
    ensures now < ReadyAt(l, b) ==> CheckBucket(l, b, now).0 == Limited(Seconds(ReadyAt(l, b) - now))
  {
    WaitArithmetic(b.tokens, now - b.lastRefill, Rate(l));
  }

  /** Waiting `e` of the `(1 - tokens) / r` seconds still needed. */
  lemma WaitArithmetic(tokens: real, e: real, r: real)
    requires r > 0.0 && e >= 0.0
    ensures e * r >= 0.0
    ensures e < (1.0 - tokens) / r <==> tokens + e * r < 1.0
    ensures (1.0 - (tokens + e * r)) / r == (1.0 - tokens) / r - e
  {
    var w := (1.0 - tokens) / r;
    assert w * r == 1.0 - tokens;
    ScaledOrder(e, w, r);
    DivDifference(1.0 - tokens, e, r);
    assert 1.0 - (tokens + e * r) == 1.0 - tokens - e * r;
  }

  lemma ScaledOrder(e: real, w: real, r: real)
    requires r > 0.0
    ensures e < w <==> e * r < w * r
  {
  }

  lemma DivDifference(x: real, e: real, r: real)
    requires r > 0.0
    ensures (x - e * r) / r == x / r - e
  {
  }

  /** The bucket after checks at these times. */
  function Probe(l: Limits, b: Bucket, ts: seq<real>): Bucket {
    if ts == [] then b else CheckBucket(l, Probe(l, b, ts[..|ts| - 1]), ts[|ts| - 1]).1
  }

  /**
   Retry-after is exact. After a refusal at `t` with value w, whatever refused probes follow
   before t + w: a check is refused at every instant before t + w, with the rest of the
   same wait, and allowed at every instant from t + w on.
   */
  lemma {:induction false} RetryAfterIsExact(l: Limits, b: Bucket, t: real, w: real, probes: seq<real>, now: real)
    requires l.burstSize >= 1 && l.requestsPerMinute >= 1 && Sound(l, b) && b.lastRefill <= t
    requires CheckBucket(l, b, t).0 == Limited(Seconds(w))
    requires Nondecreasing(probes + [now]) && forall i | 0 <= i < |probes| :: t <= probes[i] < t + w
    requires t <= now
    ensures
      var later := Probe(l, CheckBucket(l, b, t).1, probes);
      && Sound(l, later) && later.lastRefill <= now && ReadyAt(l, later) == t + w
      && CheckBucket(l, later, now).0.Limited? == (now < t + w)
      && (now < t + w ==> CheckBucket(l, later, now).0 == Limited(Seconds(t + w - now)))
  {
    var b0 := CheckBucket(l, b, t).1;
    if probes == [] {
      RefusedUntilReady(l, b, t);
      RefusedUntilReady(l, b0, now);
    } else {
      var n := |probes| - 1;
      var init, last := probes[..n], probes[n];
      assert init + [last] == probes;
      assert forall i | 0 <= i < |probes| :: probes[i] == (probes + [now])[i];
      assert Nondecreasing(init + [last]);
      RetryAfterIsExact(l, b, t, w, init, last);
      var later := Probe(l, b0, init);
      RefusedUntilReady(l, later, last);
      assert (probes + [now])[n] <= (probes + [now])[n + 1];
      RefusedUntilReady(l, Probe(l, b0, probes), now);
    }
  }

  /** With burst size 0 the promise cannot be kept: every check is refused. */
  lemma NoBurstNoService(l: Limits, b: Bucket, now: real)
    requires l.burstSize == 0 && Sound(l, b)
    ensures CheckBucket(l, b, now).0.Limited?
  {
  }

  function Ceil(x: real): int {
    -((-x).Floor)
  }

  /**
   What the rate-limit middleware makes of an answer: it forwards the request and reports
   the remaining count, or refuses with a Retry-After of whole seconds, rounded up (no
   number when the wait is infinite).
   */
  datatype Gate = Forward(remaining: nat) | TooManyRequests(retryAfter: Option<int>)

  function RateLimit(answer: Answer): Gate {
    match answer
    case Allowed(remaining) => Forward(remaining)
    case Limited(Seconds(s)) => TooManyRequests(Some(Ceil(s)))
    case Limited(Forever) => TooManyRequests(None)
  }

  /**
   The announced count is exact at the gate: after `Forward(n)`, of further checks at the
   same instant exactly n are forwarded, announcing n - 1 down to 0, and the next is refused.
   */
  lemma AnnouncedIsExact(l: Limits, b: Bucket, now: real, n: nat, k: nat)
    requires RateLimit(CheckBucket(l, b, now).0) == Forward(n) && k <= n
    ensures
      var next := RateLimit(CheckBucket(l, Again(l, CheckBucket(l, b, now).1, now, k), now).0);
      if k < n then next == Forward(n - 1 - k) else next.TooManyRequests?
  {
    hide CheckBucket, Again;
    RemainingIsExact(l, b, now, n, k);
  }

  /** A refusal names whole seconds, the wait rounded up, exactly when there is any refill to wait for. */
  lemma RefusalIsExact(l: Limits, b: Bucket, now: real)
    requires CheckBucket(l, b, now).0.Limited?
    ensures
      match RateLimit(CheckBucket(l, b, now).0)
      case Forward(_) => false
      case TooManyRequests(None) => l.requestsPerMinute == 0
      case TooManyRequests(Some(h)) =>
        && l.requestsPerMinute > 0
        && var wait := (1.0 - Refill(l, b, now).tokens) / Rate(l); (h - 1) as real < wait <= h as real
  {
    if l.requestsPerMinute > 0 {
      FloorBounds(-CheckBucket(l, b, now).0.retryAfter.seconds);
    }
  }

  /**
   The header's whole seconds always suffice (section 10.2.3 of RFC 9110), and one second
   less never does.
   */
  lemma HeaderSuffices(l: Limits, b: Bucket, t: real, h: int)
    requires l.burstSize >= 1 && l.requestsPerMinute >= 1 && Sound(l, b) && b.lastRefill <= t
    requires RateLimit(CheckBucket(l, b, t).0) == TooManyRequests(Some(h))
    ensures h >= 1
    ensures RateLimit(CheckBucket(l, CheckBucket(l, b, t).1, t + h as real).0).Forward?
    ensures RateLimit(CheckBucket(l, CheckBucket(l, b, t).1, t + (h - 1) as real).0).TooManyRequests?
  {
    var w := CheckBucket(l, b, t).0.retryAfter.seconds;
    RefusedUntilReady(l, b, t);
    FloorBounds(-w);
    RetryAfterIsExact(l, b, t, w, [], t + h as real);
    RetryAfterIsExact(l, b, t, w, [], t + (h - 1) as real);
  }
}
