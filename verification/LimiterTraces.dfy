/** Many clients and the cleanup of stale buckets: isolation, sliding windows, and when eviction shows. */
module LimiterTraces {
  import opened Numbers
  import opened RateLimiter
  import opened LimiterTheorems

  datatype Event = Check(key: string, at: real) | Cleanup(at: real)

  /** One event on the map of buckets; with `evict` off, cleanup does nothing. */
  function After(l: Limits, buckets: map<string, Bucket>, e: Event, evict: bool): map<string, Bucket> {
    match e
    case Check(key, at) => buckets[key := CheckBucket(l, Entry(l, buckets, key, at), at).1]
    case Cleanup(at) => if evict then Cleaned(buckets, at) else buckets
  }

  /** The buckets after the first `n` events. */
  function Buckets(l: Limits, events: seq<Event>, n: nat, evict: bool): map<string, Bucket>
    requires n <= |events|
  {
    if n == 0 then map[] else After(l, Buckets(l, events, n - 1, evict), events[n - 1], evict)
  }

  /** What the client of event `n` is told. */
  function AnswerTo(l: Limits, events: seq<Event>, n: nat, evict: bool): Answer
    requires n < |events| && events[n].Check?
  {
    CheckBucket(l, Entry(l, Buckets(l, events, n, evict), events[n].key, events[n].at), events[n].at).0
  }

  // ---------------------------------------------------------------- isolation

  /** The times at which `key` is checked among the first `n` events. */
  function Times(events: seq<Event>, key: string, n: nat): seq<real>
    requires n <= |events|
  {
    if n == 0 then []
    else if events[n - 1].Check? && events[n - 1].key == key then Times(events, key, n - 1) + [events[n - 1].at]
    else Times(events, key, n - 1)
  }

  lemma {:induction false} HistoryPrefix(l: Limits, ts: seq<real>, us: seq<real>, j: nat)
    requires j < |ts| && ts <= us
    ensures BucketBefore(l, ts, j) == BucketBefore(l, us, j)
  {
    if j > 0 {
      HistoryPrefix(l, ts, us, j - 1);
    }
  }

  /** The bucket of a key is that of its own history alone. */
  lemma {:induction false} BucketIsOwnHistory(l: Limits, events: seq<Event>, key: string, n: nat)
    requires n <= |events|
    ensures
      var ts, buckets := Times(events, key, n), Buckets(l, events, n, false);
      if ts == [] then key !in buckets
      else key in buckets && buckets[key] == CheckBucket(l, BucketBefore(l, ts, |ts| - 1), ts[|ts| - 1]).1
  {
    if n > 0 {
      BucketIsOwnHistory(l, events, key, n - 1);
      var e := events[n - 1];
      if e.Check? && e.key == key {
        EntryIsHistory(l, events, n - 1);
      }
    }
  }

  /** The bucket a check finds, in terms of the earlier checks of the same key. */
  lemma EntryIsHistory(l: Limits, events: seq<Event>, n: nat)
    requires n < |events| && events[n].Check?
    requires
      var ts, buckets := Times(events, events[n].key, n), Buckets(l, events, n, false);
      if ts == [] then events[n].key !in buckets
      else events[n].key in buckets && buckets[events[n].key] == CheckBucket(l, BucketBefore(l, ts, |ts| - 1), ts[|ts| - 1]).1
    ensures
      var us := Times(events, events[n].key, n + 1);
      && us == Times(events, events[n].key, n) + [events[n].at]
      && Entry(l, Buckets(l, events, n, false), events[n].key, events[n].at) == BucketBefore(l, us, |us| - 1)
  {
    var ts := Times(events, events[n].key, n);
    var us := ts + [events[n].at];
    if ts != [] {
      HistoryPrefix(l, ts, us, |ts| - 1);
      assert us[|ts| - 1] == ts[|ts| - 1];
    }
  }

  /**
   Isolation: what a client is told depends on the times of its own checks only, however
   they are interleaved with those of other clients.
   */
  lemma OthersDoNotMatter(l: Limits, events: seq<Event>, n: nat)
    requires n < |events| && events[n].Check?
    ensures
      var ts := Times(events, events[n].key, n + 1);
      |ts| > 0 && AnswerTo(l, events, n, false) == CheckBucket(l, BucketBefore(l, ts, |ts| - 1), ts[|ts| - 1]).0
  {
    BucketIsOwnHistory(l, events, events[n].key, n);
    EntryIsHistory(l, events, n);
  }

  // ---------------------------------------------------------------- sliding windows

  /** Whether event `n` admits a request of `key`. */
  predicate Admits(l: Limits, events: seq<Event>, key: string, n: nat, evict: bool)
    requires n < |events|
  {
    events[n].Check? && events[n].key == key && AnswerTo(l, events, n, evict).Allowed?
  }

  /** Requests of `key` admitted by events a, ..., b - 1. */
  function AdmittedIn(l: Limits, events: seq<Event>, key: string, a: nat, b: nat, evict: bool): nat
    requires a <= b <= |events|
    decreases b - a
  {
    if a == b then 0
    else AdmittedIn(l, events, key, a, b - 1, evict) + if Admits(l, events, key, b - 1, evict) then 1 else 0
  }

  lemma {:induction false} TimesPrefix(events: seq<Event>, key: string, a: nat, b: nat)
    requires a <= b <= |events|
    ensures Times(events, key, a) <= Times(events, key, b)
    decreases b - a
  {
    if a < b {
      TimesPrefix(events, key, a, b - 1);
    }
  }

  lemma {:induction false} AdmissionsPrefix(l: Limits, ts: seq<real>, us: seq<real>, i: nat, j: nat)
    requires i <= j <= |ts| && ts <= us
    ensures Admissions(l, ts, i, j) == Admissions(l, us, i, j)
    decreases j - i
  {
    if i < j {
      AdmissionsPrefix(l, ts, us, i, j - 1);
      HistoryPrefix(l, ts, us, j - 1);
    }
  }

  /** Counting admissions in a trace is counting them in the key's own history. */
  lemma {:induction false} AdmittedIsAdmissions(l: Limits, events: seq<Event>, key: string, a: nat, b: nat)
    requires a <= b <= |events|
    ensures |Times(events, key, a)| <= |Times(events, key, b)|
    ensures AdmittedIn(l, events, key, a, b, false) ==
      Admissions(l, Times(events, key, b), |Times(events, key, a)|, |Times(events, key, b)|)
    decreases b - a
  {
    hide Admissions, AnswerTo, Times, Admits;
    TimesPrefix(events, key, a, b);
    if a == b {
      NoAdmissions(l, Times(events, key, a), |Times(events, key, a)|);
    } else {
      AdmittedIsAdmissions(l, events, key, a, b - 1);
      TimesPrefix(events, key, a, b - 1);
      OneMoreEvent(l, events, key, |Times(events, key, a)|, b - 1);
    }
  }

  /** One more event adds an admission to the trace exactly when it adds one to the key's history. */
  lemma OneMoreEvent(l: Limits, events: seq<Event>, key: string, i: nat, n: nat)
    requires n < |events| && i <= |Times(events, key, n)|
    ensures i <= |Times(events, key, n + 1)|
    ensures Admissions(l, Times(events, key, n + 1), i, |Times(events, key, n + 1)|) ==
      Admissions(l, Times(events, key, n), i, |Times(events, key, n)|) + if Admits(l, events, key, n, false) then 1 else 0
  {
    if events[n].Check? && events[n].key == key {
      var ts, us := Times(events, key, n), Times(events, key, n + 1);
      hide AnswerTo, CheckBucket, BucketBefore;
      OthersDoNotMatter(l, events, n);
      AdmissionsPrefix(l, ts, us, i, |ts|);
    }
  }

  /** The checks of `key` among events a, ..., b - 1 all happen within [from, from + length]. */
  predicate Within(events: seq<Event>, key: string, a: nat, b: nat, from: real, length: real)
    requires a <= b <= |events|
  {
    forall n | a <= n < b && events[n].Check? && events[n].key == key :: from <= events[n].at <= from + length
  }

  lemma {:induction false} TimesWithin(events: seq<Event>, key: string, a: nat, b: nat, from: real, length: real)
    requires a <= b <= |events| && Within(events, key, a, b, from, length)
    ensures |Times(events, key, a)| <= |Times(events, key, b)|
    ensures forall j | |Times(events, key, a)| <= j < |Times(events, key, b)| :: from <= Times(events, key, b)[j] <= from + length
    decreases b - a
  {
    if a < b {
      TimesWithin(events, key, a, b - 1, from, length);
    }
  }

  /**
   Sliding-window bound, over any interleaving of checks on any keys: in any window of a
   given length a key is admitted at most burst + rate * length times, as long as its own
   clock readings do not step back.
   */
  lemma SlidingWindow(l: Limits, events: seq<Event>, key: string, a: nat, b: nat, from: real, length: real)
    requires a <= b <= |events| && length >= 0.0
    requires Nondecreasing(Times(events, key, b)) && Within(events, key, a, b, from, length)
    ensures AdmittedIn(l, events, key, a, b, false) as real <= Burst(l) + length * Rate(l)
  {
    hide *;
    AdmittedIsAdmissions(l, events, key, a, b);
    TimesWithin(events, key, a, b, from, length);
    WindowWithin(l, Times(events, key, b), |Times(events, key, a)|, |Times(events, key, b)|, length);
  }

  // ---------------------------------------------------------------- eviction

  /** Events in the order of a clock that never steps back. */
  predicate Ordered(events: seq<Event>) {
    forall i, j | 0 <= i <= j < |events| :: events[i].at <= events[j].at
  }

  /** Cleaning up changes no answer, in any trace of checks and cleanups. */
  ghost predicate EvictionIsInvisible(l: Limits) {
    forall events: seq<Event>, n: nat | Ordered(events) && n < |events| && events[n].Check? ::
      AnswerTo(l, events, n, true) == AnswerTo(l, events, n, false)
  }

  predicate AllSound(l: Limits, buckets: map<string, Bucket>) {
    forall key | key in buckets :: Sound(l, buckets[key])
  }

  /** The evicting limiter differs only by buckets that will be full by the next check. */
  ghost predicate Simulates(l: Limits, evicting: map<string, Bucket>, keeping: map<string, Bucket>, now: real) {
    && AllSound(l, keeping)
    && forall key ::
         if key in evicting then key in keeping && keeping[key] == evicting[key] && keeping[key].lastRefill <= now
         else key in keeping ==> keeping[key].lastRefill + STALE <= now
  }

  /** An hour refills any bucket whose burst is at most an hour's worth of requests. */
  lemma HourRefills(l: Limits, b: Bucket, now: real)
    requires l.burstSize <= 60 * l.requestsPerMinute && Sound(l, b) && b.lastRefill + STALE <= now
    ensures Refill(l, b, now) == Fresh(l, now)
  {
    HourCovers(l, Elapsed(b.lastRefill, now));
    EnoughRefills(l, b, now);
  }

  lemma EnoughRefills(l: Limits, b: Bucket, now: real)
    requires b.tokens >= 0.0 && Elapsed(b.lastRefill, now) * Rate(l) >= Burst(l)
    ensures Refill(l, b, now) == Fresh(l, now)
  {
  }

  lemma HourCovers(l: Limits, seconds: real)
    requires l.burstSize <= 60 * l.requestsPerMinute && seconds >= STALE
    ensures seconds * Rate(l) >= Burst(l)
  {
    HourlyTokens(l);
    LimitsNonnegative(l);
    ProductOrder(STALE, seconds, Rate(l));
  }

  lemma HourlyTokens(l: Limits)
    ensures STALE * Rate(l) == (60 * l.requestsPerMinute) as real
  {
  }

  lemma FreshIsFull(l: Limits, now: real)
    ensures Refill(l, Fresh(l, now), now) == Fresh(l, now)
  {
  }

  lemma CheckStaysSound(l: Limits, b: Bucket, now: real)
    requires Sound(l, b)
    ensures Sound(l, CheckBucket(l, b, now).1) && CheckBucket(l, b, now).1.lastRefill == now
  {
    ProductSign(Elapsed(b.lastRefill, now), Rate(l));
  }

  lemma SameCheck(l: Limits, evicting: map<string, Bucket>, keeping: map<string, Bucket>, key: string, before: real, now: real)
    requires l.burstSize <= 60 * l.requestsPerMinute
    requires Simulates(l, evicting, keeping, before) && before <= now
    ensures CheckBucket(l, Entry(l, evicting, key, now), now) == CheckBucket(l, Entry(l, keeping, key, now), now)
  {
    if key !in evicting && key in keeping {
      HourRefills(l, keeping[key], now);
      FreshIsFull(l, now);
    }
  }

  lemma SimulationStep(l: Limits, evicting: map<string, Bucket>, keeping: map<string, Bucket>, before: real, e: Event)
    requires l.burstSize <= 60 * l.requestsPerMinute
    requires Simulates(l, evicting, keeping, before) && before <= e.at
    ensures Simulates(l, After(l, evicting, e, true), After(l, keeping, e, false), e.at)
  {
    if e.Check? {
      SameCheck(l, evicting, keeping, e.key, before, e.at);
      CheckStaysSound(l, Entry(l, keeping, e.key, e.at), e.at);
    }
  }

  lemma {:induction false} Simulation(l: Limits, events: seq<Event>, n: nat)
    requires l.burstSize <= 60 * l.requestsPerMinute && Ordered(events) && n < |events|
    ensures Simulates(l, Buckets(l, events, n, true), Buckets(l, events, n, false), events[n].at)
  {
    if n > 0 {
      Simulation(l, events, n - 1);
      SimulationStep(l, Buckets(l, events, n - 1, true), Buckets(l, events, n - 1, false), events[n - 1].at, events[n - 1]);
      assert events[n - 1].at <= events[n].at;
      SimulatesLater(l, Buckets(l, events, n, true), Buckets(l, events, n, false), events[n - 1].at, events[n].at);
    }
  }

  lemma SimulatesLater(l: Limits, evicting: map<string, Bucket>, keeping: map<string, Bucket>, now: real, later: real)
    requires Simulates(l, evicting, keeping, now) && now <= later
    ensures Simulates(l, evicting, keeping, later)
  {
  }

  // A client that empties its bucket at time 0 and comes back right after an eviction.

  const CLIENT: string := "client"

  function Drain(l: Limits): seq<Event> {
    seq(l.burstSize, i => Check(CLIENT, 0.0)) + [Cleanup(STALE), Check(CLIENT, STALE)]
  }

  lemma {:induction false} DrainedBy(l: Limits, n: nat, evict: bool)
    requires 0 < n <= l.burstSize
    ensures Buckets(l, Drain(l), n, evict) == map[CLIENT := Bucket(Burst(l) - n as real, 0.0)]
  {
    assert Drain(l)[n - 1] == Check(CLIENT, 0.0);
    if n > 1 {
      DrainedBy(l, n - 1, evict);
    }
  }

  lemma DrainIsOrdered(l: Limits)
    ensures Ordered(Drain(l))
    ensures |Drain(l)| == l.burstSize + 2 && Drain(l)[l.burstSize] == Cleanup(STALE) && Drain(l)[l.burstSize + 1] == Check(CLIENT, STALE)
  {
  }

  /** After the eviction the client is served from a full bucket. */
  lemma DrainEvicted(l: Limits)
    requires l.burstSize > 0
    ensures |Drain(l)| == l.burstSize + 2 && Drain(l)[l.burstSize + 1] == Check(CLIENT, STALE)
    ensures AnswerTo(l, Drain(l), l.burstSize + 1, true) == Allowed(l.burstSize - 1)
  {
    hide Ordered, Refill;
    DrainIsOrdered(l);
    DrainedBy(l, l.burstSize, true);
    assert Buckets(l, Drain(l), l.burstSize + 1, true) == map[];
    FreshIsFull(l, STALE);
    FloorIs(Burst(l) - 1.0, l.burstSize - 1);
  }

  /** Without it, from an hour's refill. */
  lemma DrainKept(l: Limits)
    requires l.burstSize > 60 * l.requestsPerMinute
    ensures |Drain(l)| == l.burstSize + 2 && Drain(l)[l.burstSize + 1] == Check(CLIENT, STALE)
    ensures AnswerTo(l, Drain(l), l.burstSize + 1, false) != Allowed(l.burstSize - 1)
  {
    hide Ordered;
    DrainIsOrdered(l);
    DrainedBy(l, l.burstSize, false);
    assert Buckets(l, Drain(l), l.burstSize + 1, false) == map[CLIENT := Bucket(0.0, 0.0)];
    var tokens: nat := 60 * l.requestsPerMinute;
    HourlyTokens(l);
    assert Refill(l, Bucket(0.0, 0.0), STALE) == Bucket(tokens as real, STALE);
    if tokens >= 1 {
      FloorIs(tokens as real - 1.0, tokens - 1);
    }
  }

  lemma DrainShows(l: Limits)
    requires l.burstSize > 60 * l.requestsPerMinute
    ensures Ordered(Drain(l)) && |Drain(l)| == l.burstSize + 2 && Drain(l)[l.burstSize + 1].Check?
    ensures AnswerTo(l, Drain(l), l.burstSize + 1, true) != AnswerTo(l, Drain(l), l.burstSize + 1, false)
  {
    hide *;
    DrainIsOrdered(l);
    DrainEvicted(l);
    DrainKept(l);
  }

  /**
   Eviction is invisible exactly when an hour's refill covers the burst: then a limiter that
   cleans up at arbitrary points answers every check like one that never does; otherwise
   some trace tells them apart.
   */
  lemma EvictionInvisibleIff(l: Limits)
    ensures EvictionIsInvisible(l) <==> l.burstSize <= 60 * l.requestsPerMinute
  {
    if l.burstSize <= 60 * l.requestsPerMinute {
      forall events: seq<Event>, n: nat | Ordered(events) && n < |events| && events[n].Check?
        ensures AnswerTo(l, events, n, true) == AnswerTo(l, events, n, false)
      {
        Simulation(l, events, n);
        SameCheck(l, Buckets(l, events, n, true), Buckets(l, events, n, false), events[n].key, events[n].at, events[n].at);
      }
    } else {
      DrainShows(l);
    }
  }

  /** The sliding-window bound survives cleanup under the same condition. */
  lemma SlidingWindowWithCleanup(l: Limits, events: seq<Event>, key: string, a: nat, b: nat, from: real, length: real)
    requires a <= b <= |events| && length >= 0.0
    requires l.burstSize <= 60 * l.requestsPerMinute && Ordered(events) && Within(events, key, a, b, from, length)
    ensures AdmittedIn(l, events, key, a, b, true) as real <= Burst(l) + length * Rate(l)
  {
    hide *;
    EvictionInvisibleIff(l);
    SameAdmissions(l, events, key, a, b);
    OrderedTimes(events, key, b);
    SlidingWindow(l, events, key, a, b, from, length);
  }

  lemma {:induction false} SameAdmissions(l: Limits, events: seq<Event>, key: string, a: nat, b: nat)
    requires a <= b <= |events| && EvictionIsInvisible(l) && Ordered(events)
    ensures AdmittedIn(l, events, key, a, b, true) == AdmittedIn(l, events, key, a, b, false)
    decreases b - a
  {
    if a < b {
      SameAdmissions(l, events, key, a, b - 1);
    }
  }

  lemma {:induction false} OrderedTimes(events: seq<Event>, key: string, n: nat)
    requires n <= |events| && Ordered(events)
    ensures Nondecreasing(Times(events, key, n))
    ensures forall j | 0 <= j < |Times(events, key, n)| :: n > 0 && Times(events, key, n)[j] <= events[n - 1].at
  {
    if n > 0 {
      OrderedTimes(events, key, n - 1);
      assert n > 1 ==> events[n - 2].at <= events[n - 1].at;
    }
  }
}
