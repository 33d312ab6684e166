/**
 The per-client token bucket. Time and tokens are exact reals. `RateLimiter` is the
 program's class over its map of buckets; each method is proved against a function on
 buckets, and LimiterTheorems.dfy proves what those functions promise.
 */
module RateLimiter {
  import opened Numbers
  import opened Results

  datatype Limits = Limits(requestsPerMinute: u32, burstSize: u32)

  datatype Bucket = Bucket(tokens: real, lastRefill: real)

  /** Seconds to wait; a division by a zero refill rate is floating-point infinity. */
  datatype Wait = Seconds(seconds: real) | Forever

  datatype Answer = Allowed(remaining: nat) | Limited(retryAfter: Wait)

  function Burst(l: Limits): real {
    l.burstSize as real
  }

  function Rate(l: Limits): real {
    l.requestsPerMinute as real / 60.0
  }

  /** Instant::duration_since, which saturates at zero when the clock reads earlier. */
  function Elapsed(from: real, to: real): (r: real)
    ensures r >= 0.0
  {
    if to < from then 0.0 else to - from
  }

  function Fresh(l: Limits, now: real): Bucket {
    Bucket(Burst(l), now)
  }

  function Refill(l: Limits, b: Bucket, now: real): Bucket {
    Bucket(Min(b.tokens + Elapsed(b.lastRefill, now) * Rate(l), Burst(l)), now)
  }

  function Spend(b: Bucket): Bucket {
    if b.tokens >= 1.0 then b.(tokens := b.tokens - 1.0) else b
  }

  /** What the client is told about a refilled bucket. */
  function Verdict(l: Limits, b: Bucket): Answer {
    if b.tokens >= 1.0 then Allowed((b.tokens - 1.0).Floor)
    else Limited(if Rate(l) == 0.0 then Forever else Seconds((1.0 - b.tokens) / Rate(l)))
  }

  /** The bucket of a key, made full when there is none. */
  function Entry(l: Limits, buckets: map<string, Bucket>, key: string, now: real): Bucket {
    if key in buckets then buckets[key] else Fresh(l, now)
  }

  function CheckBucket(l: Limits, b: Bucket, now: real): (Answer, Bucket) {
    var full := Refill(l, b, now);
    (Verdict(l, full), Spend(full))
  }

  /** How long a bucket may stay untouched before cleanup drops it. */
  const STALE: real := 3600.0

  function Cleaned(buckets: map<string, Bucket>, now: real): map<string, Bucket> {
    map key | key in buckets && buckets[key].lastRefill > now - STALE :: buckets[key]
  }

  class RateLimiter {
    var buckets: map<string, Bucket>
    const limits: Limits
    const maxTokens: real
    const refillRate: real

    ghost predicate Valid() {
      maxTokens == Burst(limits) && refillRate == Rate(limits)
    }

    constructor (requestsPerMinute: u32, burstSize: u32)
      ensures Valid() && limits == Limits(requestsPerMinute, burstSize) && buckets == map[]
    {
      buckets := map[];
      limits := Limits(requestsPerMinute, burstSize);
      maxTokens := burstSize as real;
      refillRate := requestsPerMinute as real / 60.0;
    }

    /** `now` is the reading of the clock taken before the bucket is looked up. */
    method Check(key: string, now: real) returns (answer: Answer)
      requires Valid()
      modifies this
      ensures answer == CheckBucket(limits, Entry(limits, old(buckets), key, now), now).0
      ensures buckets == old(buckets)[key := CheckBucket(limits, Entry(limits, old(buckets), key, now), now).1]
    {
      if key !in buckets {
        buckets := buckets[key := Bucket(maxTokens, now)];
      }
      var bucket := buckets[key];
      var elapsed := if now < bucket.lastRefill then 0.0 else now - bucket.lastRefill;
      var refilled := bucket.tokens + elapsed * refillRate;
      bucket := Bucket(if refilled <= maxTokens then refilled else maxTokens, now);
      if bucket.tokens >= 1.0 {
        bucket := bucket.(tokens := bucket.tokens - 1.0);
        answer := Allowed(bucket.tokens.Floor);
      } else if refillRate == 0.0 {
        answer := Limited(Forever);
      } else {
        answer := Limited(Seconds((1.0 - bucket.tokens) / refillRate));
      }
      buckets := buckets[key := bucket];
    }

    method CleanupStale(now: real)
      modifies this
      ensures buckets == Cleaned(old(buckets), now)
    {
      var cutoff := now - STALE;
      buckets := map key | key in buckets && buckets[key].lastRefill > cutoff :: buckets[key];
    }
  }
}
