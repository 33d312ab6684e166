# Verified model of the Xiaomi proxy's key pool, rate limiter, retry loop and live caches

The proxy forwards client requests with keys taken from a downstream key pool. This project
models, in Dafny 4.11, the stateful core behind that and proves what it keeps over whole runs:

- **the key pool**: weighted round-robin selection with a circuit breaker (three failures in a
  row take a key out, a 60-second task puts it back), once as the class with its key objects
  (`KeyPool.dfy`), once as a system of interleaved atomic steps with in-flight reports, recovery
  timers, locks and a clock (`Breaker.dfy`), both proved to follow the same functions on values
  (`PoolModel.dfy`, `HealthyList.dfy`, `Refinement.dfy`), with its cooldowns (`Outage.dfy`) and its
  interrupted acquires (`AcquireRuns.dfy`, `StepEffects.dfy`);
- **the rate limiter**: a lazily refilled token bucket per client key (`RateLimiter.dfy`), also with
  clock readings out of order (`ClockSkew.dfy`);
- **the retry loop**: bounded attempts over the pool with jittered exponential backoff
  (`Retry.dfy`, `RetryLoop.dfy`, `CallRecord.dfy`, `Backoff.dfy`), and how long the pool lasts
  (`Exhaustion.dfy`);
- **the live caches**: the pool and the client-key set beside the database tables they mirror,
  through admin operations, overlapping handlers and restarts (`AdminModel.dfy`,
  `AdminEffects.dfy`, `Trimming.dfy`, `AppState.dfy`, `HandlerRaces.dfy`).

`dafny verify dfyconfig.toml` checks everything.

## How to read it

Classes carry the program's fields and loops; their methods promise the value of a function of
the old state, and the lemmas are about those functions. Weights, error and request counters are
32-bit with wrap-around written out, delays are 64-bit with wrap-around and with the panic of an
empty jitter range. Steps of the interleaving model are sequentially consistent. Clock readings,
jitter draws, downstream outcomes, generated client keys, row order and the success of database
calls are arbitrary inputs.

Where a promise one would expect turned out false of the code, a lemma gives a concrete input or
run that shows it, and the exact condition is proved:

| expectation | counterexample | exact condition |
|---|---|---|
| a tripped key stays out for 60 seconds (the log line says so, `src/proxy/key_pool.rs:107`) | `EarlyRevival.CooldownCutShort`: back after 29, with no administrator at work | `Outage.FullCooldownIff`: no earlier timer of the same object is due sooner |
| cleaning up stale buckets changes no answer | `LimiterTraces.DrainShows` | `LimiterTraces.EvictionInvisibleIff`: burst at most 60 times the requests per minute |
| the burst-plus-rate bound holds in clock time (the clock is read before the bucket is locked, so readings can arrive out of order) | `LimiterTheorems.RacingReadingsBreakTheBound` | `ClockSkew.ClockBoundIff`: readings never step back, or the burst is 0, or the rate is 0; in the last two cases the bound holds for any steps back, in all others any tolerance for steps back breaks it |
| admin operations keep pool and table in agreement | `AdminModel.StrayPatchDisagrees` | `AdminModel.AgreementKeptIff` for one operation: not a PATCH of a key the table lacks; `AdminModel.AgreementAfterRunIff` for a run: every such PATCH is followed by a successful add or delete of its key |
| overlapping handlers keep pool and table in agreement | `HandlerRaces.SameKeyOverlapDisagrees` | `HandlerRaces.EveryFinishAgreesIff` for a state, `HandlerRaces.StartKeepsIff` as the guard of the next handler: those at work on the same key would publish the same, and it is not a PATCH whose row is missing (`HandlerRaces.DeleteThenPatchDisagrees`) |
| a start builds caches that agree with the tables | `AdminModel.RepeatedKeyDisagrees` | `AdminModel.StartAgreesIff`: no seeding from a configuration that names a downstream key twice |
| a restart brings back the same state | `AdminModel.EmptiedTableComesBack` | `AdminModel.RestartRoundTripIff`: no empty table that the configuration would seed |
| a start that failed is made up for by the next one | `AdminModel.HalfSeededRun` | `AdminModel.RetriedStartCompleteIff`: it failed before storing a downstream key |
| a key is chosen in proportion to its weight | `Fairness.NegativeWeightTakesAll`: weight -1, cast to 32 bits, beside weight 2 | `Fairness.WeightsAreSharesIff`: the healthy weights add up to less than 2^32; `Fairness.FairSlots` is exact for all weights, in slots |
| an acquire succeeds while a healthy key with nonzero weight is listed | `PoolModel.WrappedTotalRefuses` | `PoolModel.AcquireRefusesIff`: the healthy weights do not add up to a multiple of 2^32 |
| a delay can always be drawn | `Backoff.HugeBasePanics` | `Backoff.PanicsIff`: the widened exponential fits in 64 bits |

The last one concerns the parameter range of `with_retry`, not a program that someone could
configure: a base delay comes from a TOML file, whose integers end at 2^63 - 1, and
`Retry.PanicOnlyAfterAges` shows that a call with such a base panics only after it has slept for
over 5 * 10^18 milliseconds.

Two more differences between the repository's text and its code, resolved in favour of the code:
its README shows cooldown and failure-count fields in the key status that the code does not have,
and `cleanup_stale` exists but is never called.

## Model

| member | source | states |
|---|---|---|
| PoolModel.SelectionIsTotal | src/proxy/key_pool.rs:65-88 | for all 32-bit weights, also when the sums wrap, every slot below a nonzero wrapped total belongs to exactly one key, which is healthy with nonzero weight: the search always returns |
| PoolModel.AcquireRefusesIff | src/proxy/key_pool.rs:56-68 | acquire_key finds no key if and only if no healthy key has a nonzero weight or the healthy weights add up to a positive multiple of 2^32 |
| PoolModel.WrappedTotalRefuses | src/proxy/key_pool.rs:65-68 | two healthy keys of weight 2^31 leave no key available |
| PoolModel.CoversIsInterval | src/proxy/key_pool.rs:73-82 | without wrap-around a key owns exactly its interval of slots between prefix sums |
| HealthyList.SearchFindsCover | src/proxy/key_pool.rs:56-82 | searching the filtered list of healthy keys finds the key that owns the slot in the unfiltered, share-based specification |
| PoolModel.OperationsStaySettled | src/proxy/key_pool.rs:52-144 | between operations a healthy key has fewer than three errors, whatever operation or recovery runs |
| PoolModel.SpawnedIff | src/proxy/key_pool.rs:98-119 | a failure report spawns a recovery task for an entry if and only if it counted on that entry and left three or more errors there; so it does whenever it takes an entry out of service |
| PoolModel.AddKeyWeights | src/proxy/key_pool.rs:124-139 | add_key changes exactly one entry of the key-to-weight map and keeps keys distinct |
| PoolModel.AddKeyExact | src/proxy/key_pool.rs:124-139 | also with repeated keys: add_key leaves the first entry with the key in its place, or appends one, healthy, without errors, its request count kept, and every other entry as it was; with distinct keys no other entry has the key |
| PoolModel.RemoveKeyWeights | src/proxy/key_pool.rs:141-144 | remove_key deletes exactly one entry of the key-to-weight map and keeps keys distinct |
| PoolModel.RemoveKeyExact | src/proxy/key_pool.rs:141-144 | remove_key drops all entries with the key and no other; those that stay keep their state, order and multiplicity, and the cursor stays |
| KeyPoolClass.KeyPool.constructor | src/proxy/key_pool.rs:30-50 | one healthy, error-free key per configured entry in order, duplicates kept, cursor 0 |
| KeyPoolClass.KeyPool.AcquireKey | src/proxy/key_pool.rs:52-89 | snapshot, wrapping sum, cursor move and search do what the specification's acquire does; the fallback is unreachable |
| KeyPoolClass.KeyPool.ReportSuccess | src/proxy/key_pool.rs:91-96 | zeroes the errors of the first entry with the key, and nothing else |
| KeyPoolClass.KeyPool.ReportFailure | src/proxy/key_pool.rs:98-122 | counts a failure on the first entry with the key, trips it from the third on, and spawns a recovery task for that object exactly then |
| KeyPoolClass.KeyPool.AddKey | src/proxy/key_pool.rs:124-139 | updates and revives the first entry with the key, keeping every object in the list, or appends one new object |
| KeyPoolClass.KeyPool.RemoveKey | src/proxy/key_pool.rs:141-144 | drops every object with the key and keeps the other objects in order |
| KeyPoolClass.KeyPool.RecoverMember | src/proxy/key_pool.rs:110-119 | a recovery task of a listed object resets that entry only |
| KeyPoolClass.KeyPool.RecoverOrphan | src/proxy/key_pool.rs:110-119 | a recovery task of an object that left the pool changes nothing the pool shows |
| Fairness.FairSlots | src/proxy/key_pool.rs:65-82 | for all 32-bit weights, also when sums wrap: over any n acquires, from any stored cursor, with reports in between that leave health and weights alone, a key that covers w of the W slots of a round is picked c times with abs(W*c - n*w) <= w*(W - w) |
| Fairness.FairSlotRounds | src/proxy/key_pool.rs:65-82 | in every whole number of rounds a key is picked exactly once per round for each slot it covers |
| Fairness.SlotsAddUp | src/proxy/key_pool.rs:65-82 | the slots of all keys add up to the round |
| Fairness.WeightsAreSharesIff | src/proxy/key_pool.rs:65-82 | every key covers as many slots as its weight says if and only if the healthy weights add up to less than 2^32 |
| Fairness.NegativeWeightTakesAll | src/handlers/admin.rs:149-162 | a key added with weight -1 takes every slot and a key of weight 2 beside it none |
| Fairness.FairDiscrepancy | src/proxy/key_pool.rs:65-82 | the same below 2^32, where W is the total weight and w the weight of the key |
| Fairness.FairRounds | src/proxy/key_pool.rs:65-82 | in every whole number of rounds of W acquires a key of weight w is picked exactly w times per round |
| Fairness.DiscrepancyIsAttained | src/proxy/key_pool.rs:65-82 | the discrepancy bound is met with equality, so it cannot be improved |
| Fairness.StretchOfLength | src/proxy/key_pool.rs:52-82 | with a nonzero wrapped total, acquiring never fails, for any number of acquires |
| Strikes.ThreeStrikes | src/proxy/key_pool.rs:91-103 | with the reports of all keys mixed, and even when a key is listed twice: the reports have tripped the first entry with a key if and only if those of that key contain three failures in a row; its error count is the failures since the last success |
| Strikes.ShadowedNeverTrips | src/proxy/key_pool.rs:91-103 | an entry behind another one with the same key is not changed by any reports |
| Breaker.BreakerSafety | src/proxy/key_pool.rs:91-130 | in every state of every interleaving, a healthy key with three or more errors is between a report's count and store or between a reset's two stores, and an unhealthy object has a recovery pending or about to be spawned |
| Breaker.HalfOpenKept | src/proxy/key_pool.rs:98-130 | each step keeps the first of these |
| Breaker.UnhealthyRescuedKept | src/proxy/key_pool.rs:101-119 | each step keeps the second |
| Breaker.ExclusiveKept | src/proxy/key_pool.rs:53-54 | each step keeps the lock of the key list: a writer excludes every other holder |
| Breaker.OneScanKept | src/proxy/key_pool.rs:53 | each step keeps acquires serialised |
| Outage.OutageIsBounded | src/proxy/key_pool.rs:101-119 | in every run no object stays unhealthy for more than 60 seconds plus twice the scheduling lag, with any number of overlapping timers and re-adds |
| Outage.FullCooldownIff | src/proxy/key_pool.rs:101-119 | a trip keeps its key out until its own deadline in every continuation without a re-add if and only if no earlier timer of that object is due before |
| Outage.NotHandedOut | src/proxy/key_pool.rs:56-59 | during such a cooldown only an acquire that held the object when it tripped can hand it out, and at most one does |
| Outage.TrippedKeyNotHandedOut | src/proxy/key_pool.rs:52-119 | the same for the key string, when the listed keys are distinct and nobody adds the key again |
| Outage.TripPremisesHold | src/proxy/key_pool.rs:52-144 | the premises of this hold in every state of every run from a start with distinct keys; in particular listed keys stay distinct |
| EarlyRevival.CooldownCutShort | src/proxy/key_pool.rs:98-119 | a run from the program's start, with no re-add anywhere, in which a key trips at 61 seconds and is back at 90, revived by the timer of a late failure |
| Bookkeeping.RemovedForGood | src/proxy/key_pool.rs:131-144 | an object that left the list never returns to it, even when its key is added again |
| Bookkeeping.OrphanIsHarmless | src/proxy/key_pool.rs:110-119 | no store of a removed object's recovery tasks ever changes what the pool shows |
| Bookkeeping.RequestsAreConserved | src/proxy/key_pool.rs:77-88 | over every run the request counters of all objects ever created add up, modulo 2^32, to the successful acquires |
| AcquireRuns.HandedIsSound | src/proxy/key_pool.rs:52-89 | however an acquire is interrupted, the key it hands out is still listed, has nonzero weight, and was healthy at some moment while that acquire was scanning |
| AcquireRuns.FairUnderInterleaving | src/proxy/key_pool.rs:52-89 | over any stretch of any interleaving in which listed keys, weights and health stay the same, beginning with no scan or with one that is up to date, the fairness bounds hold for the keys handed out, in slots and, below 2^32, in weights |
| Refinement.FailureCall | src/proxy/key_pool.rs:98-122 | an uninterrupted report_failure of the step system, of a listed or an unlisted key, does what the value model does, and leaves a recovery task due in 60 seconds for exactly the entry the value model spawns one for |
| Refinement.SuccessCall | src/proxy/key_pool.rs:91-96 | the same for report_success |
| Refinement.RecoveryCall | src/proxy/key_pool.rs:110-119 | a due recovery task of a listed object restores health and clears errors of that entry; weight, requests, cursor and all other entries stay |
| Refinement.NewCall | src/proxy/key_pool.rs:30-50 | for every configured list the new pool is a start of the step system |
| Refinement.ReAddCall | src/proxy/key_pool.rs:126-129 | the same for add_key of a listed key |
| Refinement.PushCall | src/proxy/key_pool.rs:130-138 | the same for add_key of a new key |
| Refinement.RemoveCall | src/proxy/key_pool.rs:141-144 | the same for remove_key |
| Refinement.AcquireCall | src/proxy/key_pool.rs:52-89 | the same for acquire_key, whose steps load one health flag at a time: the same pool afterwards, and the object handed out is the one the value model selects, or none where that refuses |
| StepEffects.FieldByField | src/proxy/key_pool.rs:77-130 | in every step of every interleaving, each field of each key object changes only by the stores that belong to it, and to their values: weight by a re-add only, health by trip, recovery and re-add, errors by reports, recovery and re-add, requests by handing out |
| StepEffects.RestOfTheState | src/proxy/key_pool.rs:52-144 | the list changes by add_key and remove_key only, the cursor by successful acquires only |
| StepEffects.NeverStuck | src/proxy/key_pool.rs:52-130 | every task in flight can take its next step in every state, except a recovery that is not due |
| StepEffects.InterruptedChoice | src/proxy/key_pool.rs:65-88 | however an acquire was interrupted, it fails exactly when the present weights of the collected keys add up to a multiple of 2^32, and otherwise takes the first of them whose 32-bit running total exceeds the cursor's slot |
| RateLimiter.RateLimiter.constructor | src/proxy/rate_limiter.rs:16-22 | no buckets; capacity is the burst size, rate the requests per minute over 60 |
| RateLimiter.RateLimiter.Check | src/proxy/rate_limiter.rs:25-47 | one check creates, refills and spends the key's bucket and no other, and gives the specified answer |
| RateLimiter.RateLimiter.CleanupStale | src/proxy/rate_limiter.rs:49-52 | keeps exactly the buckets refilled within the last hour |
| Greedy.LevelBelowAllowance | src/proxy/rate_limiter.rs:35-45 | the bucket level never exceeds any allowance counted from an earlier check: one half of its min-plus closed form |
| Greedy.LevelMeetsAllowance | src/proxy/rate_limiter.rs:35-45 | it meets the allowance counted from itself or from some admitted check: the other half |
| LimiterTheorems.AdmittedIff | src/proxy/rate_limiter.rs:25-47 | for all clock readings, a check is admitted if and only if, from itself and from every earlier admitted check on, one more admission stays within burst plus credited tokens |
| LimiterTheorems.AdmittedIffOnTime | src/proxy/rate_limiter.rs:25-47 | the same with burst + (rpm/60) * elapsed time, on a clock that does not step back |
| LimiterTheorems.WindowBound | src/proxy/rate_limiter.rs:35-45 | any stretch of a key's checks admits at most burst + (rpm/60) * its duration |
| LimiterTheorems.TokensInRange | src/proxy/rate_limiter.rs:36-41 | tokens always lie between 0 and the burst size |
| LimiterTheorems.RacingReadingsBreakTheBound | src/proxy/rate_limiter.rs:26-38 | clock readings that reach the bucket out of order admit three requests in a second where the bound says two |
| ClockSkew.ClockBoundIff | src/proxy/rate_limiter.rs:25-47 | the burst-plus-rate bound holds on every window of every trace whose readings step back by at most delta if and only if delta is 0 or the burst is 0 or the rate is 0 |
| ClockSkew.WindowBoundWithSkew | src/proxy/rate_limiter.rs:25-47 | for all readings, any stretch admits at most burst + (rpm/60) * (its duration plus all its steps back) |
| ClockSkew.CreditIsSpent | src/proxy/rate_limiter.rs:35-42 | the limiter wastes little credit: the tokens credited are at most a full bucket plus, for each admission, 1 and the largest single credit |
| LimiterTheorems.RemainingIsExact | src/proxy/rate_limiter.rs:40-42 | after the answer n, exactly n further checks at the same instant succeed, counting down, and the next is refused |
| LimiterTheorems.RetryAfterIsExact | src/proxy/rate_limiter.rs:43-46 | after a refusal with wait w, whatever refused probes follow, checks before the end of the wait are refused with the rest of it and checks from then on are allowed |
| LimiterTheorems.NoBurstNoService | src/proxy/rate_limiter.rs:40-46 | with burst 0 every check is refused, so the wait then promises nothing |
| LimiterTheorems.HeaderSuffices | src/middleware/rate_limit.rs:33-42 | waiting the whole seconds of the Retry-After header (section 10.2.3 of RFC 9110) always suffices, one second less never |
| LimiterTheorems.AnnouncedIsExact | src/middleware/rate_limit.rs:22-31 | after a forwarded request that announces n remaining, exactly n further requests at the same instant are forwarded, announcing n - 1 down to 0, and the next is refused |
| LimiterTheorems.RefusalIsExact | src/middleware/rate_limit.rs:33-42 | a refusal names the wait rounded up to whole seconds exactly when there is a refill rate |
| LimiterTraces.OthersDoNotMatter | src/proxy/rate_limiter.rs:25-47 | a client's answers depend on the times of its own checks only |
| LimiterTraces.SlidingWindow | src/proxy/rate_limiter.rs:25-47 | over any interleaving of clients, a key is admitted at most burst + (rpm/60) * length times in any window |
| LimiterTraces.SlidingWindowWithCleanup | src/proxy/rate_limiter.rs:25-52 | the same with cleanups at arbitrary points, when an hour's refill covers the burst |
| LimiterTraces.EvictionInvisibleIff | src/proxy/rate_limiter.rs:28-52 | cleanup changes no answer in any trace if and only if burst <= 60 * rpm |
| LimiterTraces.DrainShows | src/proxy/rate_limiter.rs:28-52 | otherwise a client that drained its bucket sees the eviction |
| Backoff.DelayRange | src/proxy/retry.rs:74-79 | absent overflow the possible delays are exactly those within a quarter, rounded down, of base * 2^attempt |
| Backoff.DelayRangeWrapped | src/proxy/retry.rs:74-79 | for all inputs: with e = base * 2^attempt modulo 2^64, the possible delays are exactly those within a quarter of e, and none if e plus its quarter overflows |
| Backoff.DelaysNeverShrink | src/proxy/retry.rs:74-79 | any delay of the next attempt is at least any delay of this one, despite jitter |
| Backoff.PanicsIff | src/proxy/retry.rs:74-79 | the draw panics if and only if the exponential plus its quarter overflows 64 bits |
| Backoff.HugeBasePanics | src/proxy/retry.rs:74-79 | with the largest 64-bit base the very first draw panics |
| Backoff.PanicNeedsAges | src/proxy/retry.rs:74-79 | with a base of at most 2^63 - 1 the first delay is always drawn, and one that cannot be drawn follows one that cannot be drawn either or that lasts over 5 * 10^18 milliseconds |
| Backoff.LateDelaysVanish | src/proxy/retry.rs:75-78 | from attempt 64 on the wrapped power of two makes every delay 0 |
| Backoff.TotalSleep | src/proxy/retry.rs:74-79 | n delays in a row add up to within 3/4 and 5/4 of base * (2^n - 1) |
| Retry.CallEndsWell | src/proxy/retry.rs:18-67 | whatever other tasks do: at most max_retries + 1 attempts, all failures except possibly the last, the reply explained by the last attempt, never the "exhausted retries" error |
| Retry.CallSleepBound | src/proxy/retry.rs:41-62 | a call sleeps at most max_retries times, within 3/4 and 5/4 of base * (2^n - 1) for n sleeps |
| Retry.PanicOnlyAfterAges | src/proxy/retry.rs:18-79 | whatever other tasks do, a call with such a base panics only after a sleep of over 5 * 10^18 milliseconds |
| CallRecord.CallIsExact | src/proxy/retry.rs:18-67 | the exact course of every call, whatever other tasks do: which key each attempt uses, how it is reported, how long the call sleeps, when another attempt follows (if and only if the outcome was transient, retries are left, the delay can be drawn and the pool has a key), and the pool at the end |
| CallRecord.ReturnsNoTransient | src/proxy/retry.rs:25-73 | a returned response never has status 429, 502, 503 or 504; all earlier attempts, and all attempts of a call without a response, were transport errors or had one of these |
| CallRecord.ReturnedKeyIsCleared | src/proxy/retry.rs:24-49 | when a call returns a response, the entry with its key has no errors |
| Exhaustion.ExactExhaustion | src/proxy/retry.rs:20-67 | when every attempt fails undisturbed and its delays can be drawn, a call on any pool of distinct keys with total weight below 2^32 makes exactly min(max_retries + 1, P) attempts for the pool's potential P, and reports no keys if and only if P <= max_retries, the last downstream error otherwise |
| Exhaustion.ExactExhaustionWithinRange | src/proxy/retry.rs:20-79 | the same, with the delays' part told from the configuration: the largest delay of the last attempt fits in 64 bits |
| Exhaustion.PanicsExactly | src/proxy/retry.rs:20-79 | in that setting a call panics if and only if one of those attempts' delays cannot be drawn |
| Exhaustion.FailureCostsOne | src/proxy/key_pool.rs:52-122 | acquiring works exactly while there is potential, and each failed attempt costs exactly one, also for a healthy key caught with three or more errors |
| Exhaustion.OneRequestPerAttempt | src/proxy/retry.rs:20-21 | an undisturbed call counts one request per attempt |
| RetryLoop.CalculateDelay | src/proxy/retry.rs:74-79 | the program's wrapping arithmetic computes the specified delay, or the panic |
| RetryLoop.WithRetry | src/proxy/retry.rs:8-68 | the loop over the pool object makes the specified attempts, reports and sleeps and leaves the specified pool, whatever other tasks do to the pool object during calls and sleeps |
| AdminModel.AgreementKeptIff | src/handlers/admin.rs:107-189 | an operation keeps pool, client set and tables in agreement if and only if it is not a PATCH of a key the table lacks |
| AdminModel.StrayPatchDisagrees | src/handlers/admin.rs:165-177 | a PATCH of a key that an empty table lacks puts it in the pool |
| AdminModel.AgreementAfterRunIff | src/handlers/admin.rs:107-189 | from agreement, pool, client set and tables agree after a sequential run of admin operations and traffic if and only if every stray PATCH in it was followed by a successful add or delete of its key |
| AdminModel.AgreementOverRuns | src/handlers/admin.rs:107-189 | in particular, agreement holds after every such run without stray PATCHes |
| AdminModel.StartAgreesIff | src/state.rs:39-76 | a start establishes agreement if and only if it does not seed from a configuration with a repeated downstream key |
| AdminModel.RepeatedKeyDisagrees | src/state.rs:56-76 | a configuration that names a key twice gives two pool entries for one row |
| AdminModel.RestartRoundTripIff | src/state.rs:39-76 | a restart brings back the same weights and client keys if and only if no empty table is seeded |
| AdminModel.EmptiedTableComesBack | src/state.rs:56-76 | a start seeds one key, an administrator deletes it, and the next start brings it back |
| AdminModel.HalfSeededPool | src/state.rs:56-76 | a start that failed after storing some configured downstream keys, followed by one that succeeds, leaves a pool of exactly the rows stored so far |
| AdminModel.HalfSeededClients | src/state.rs:39-54 | the same for the accepted client keys |
| AdminModel.RetriedStartCompleteIff | src/state.rs:56-76 | on an empty downstream table and distinct configured keys, the start after a failed one serves all configured keys with their weights if and only if the failed one stored none |
| AdminModel.HalfSeededRun | src/state.rs:56-76 | with two configured keys and a failing second insertion the next start serves the first key only |
| AdminModel.StartIsHealthy | src/proxy/key_pool.rs:30-50 | after every start all keys are healthy, without errors or requests, the cursor at 0 |
| AdminEffects.AddClientStores | src/handlers/admin.rs:107-134 | adding a client key stores the given row under the given key without surrounding white space, or under the generated key when none or a blank one was given, and accepts exactly that key |
| AdminEffects.DeleteClientDrops | src/handlers/admin.rs:136-146 | deletes exactly one row and one accepted key |
| AdminEffects.AddDownstreamStores | src/handlers/admin.rs:149-162 | stores the given weight under the key without surrounding white space, and gives the pool the low 32 bits of it under the same key |
| AdminEffects.PatchStores | src/handlers/admin.rs:165-177 | the weight raised to at least 1 goes to a stored row only, and to the pool in any case |
| AdminEffects.DeleteDownstreamDrops | src/handlers/admin.rs:179-189 | deletes exactly the row of the key and its pool entries |
| AdminEffects.FailedCallChangesNothing | src/handlers/admin.rs:107-189 | a handler whose database call fails changes neither pool nor client keys |
| AdminEffects.SeededClientRows | src/state.rs:39-47 | a seeded client key is stored with the description of an imported key and no rate limit |
| AdminEffects.LastWeightIsStored | src/state.rs:60-66 | a downstream key that the configuration repeats is stored with its last weight |
| Trimming.TrimIsCore | src/handlers/admin.rs:112-153 | trimming takes away the white space at both ends, all of it, and nothing else |
| Trimming.CoreIsUnique | src/handlers/admin.rs:112-153 | this determines the trimmed key |
| AppStateClass.AppState.AddDownstreamKey | src/handlers/admin.rs:149-162 | trims the key, stores the row, then adds to the pool with the weight cast to u32; a database error changes nothing |
| AppStateClass.AppState.UpdateDownstreamKey | src/handlers/admin.rs:165-177 | raises the weight to at least 1, updates a stored row, then adds to the pool whether or not the row existed |
| AppStateClass.AppState.DeleteDownstreamKey | src/handlers/admin.rs:179-189 | deletes the row, then the pool entries |
| AppStateClass.AppState.AddClientKey | src/handlers/admin.rs:107-134 | stores, accepts and returns the key asked for, with the given row: the given key without surrounding white space, or the generated one |
| AppStateClass.AppState.DeleteClientKey | src/handlers/admin.rs:136-146 | deletes the row and the accepted key |
| AppStateClass.LoadClientKeys | src/state.rs:39-54 | seeds an empty client table from the configuration, or loads it; when a database call fails, the rows stored before stay |
| AppStateClass.LoadDownstreamKeys | src/state.rs:56-74 | the same for downstream keys, with the list the pool is built from |
| AppStateClass.Start | src/state.rs:18-90 | for any number of database calls before one fails: succeeds if and only if all calls do, leaves the tables the specification gives in both cases, and builds the state the start relation describes |
| HandlerRaces.EveryFinishAgreesIff | src/handlers/admin.rs:149-189 | every order of the outstanding publications ends with pool and table in agreement if and only if each unfinished handler would publish what the table holds and every other key agrees already |
| HandlerRaces.StartKeepsIff | src/handlers/admin.rs:149-189 | starting a handler keeps that condition if and only if every unfinished handler of the same key would publish the same and it is not a PATCH whose row is missing |
| HandlerRaces.SerialPerKeyAgrees | src/handlers/admin.rs:149-189 | in particular, handlers of different keys may overlap freely: from agreement, with no two handlers of one key overlapping and no PATCH of a missing row, every order of what is outstanding ends in agreement |
| HandlerRaces.SameKeyOverlapDisagrees | src/handlers/admin.rs:149-162 | two overlapping adds of one key can leave the table with one weight and the pool with the other |
| HandlerRaces.DeleteThenPatchDisagrees | src/handlers/admin.rs:165-189 | whatever else is going on, a PATCH whose UPDATE comes after the row was dropped by a DELETE of the same key can leave pool and table apart |

## Left out

- HTTP forwarding, streaming and header rewriting: a downstream call is an arbitrary outcome; the streaming path, which acquires once without retrying, is covered only through the pool operations it uses.
- Weak memory ordering: the atomics are relaxed in the program; the step system interleaves them sequentially consistently.
- Floating-point rounding: tokens, rates and times are exact reals; a division by a zero refill rate is an infinite wait.
- Clock arithmetic at the edge of the platform's range: subtracting an hour from an early `Instant` is taken as exact.
- Spawn latency of the recovery task: `Spawn` stands for spawning and for the first poll that starts the 60-second sleep; the lag of `Outage.OutageIsBounded` covers the delay.
- Debug builds: integer overflow panics there; the model follows the wrapping of release builds.
- Database failures that apply the change and still report an error: a failed call is taken to change nothing.
- Row order and creation times: a query returns the rows in an arbitrary order, which covers the newest-first order of the program.
- Starts that fail before the first read of the tables: they change nothing the model shows.
- The libsql engine, SQL text, usage aggregation and log paging.
- `key_count`, `healthy_key_count`, `key_stats` and the list handlers: reads that would only add easy members.
- Routing, authentication middleware, CORS, tracing, configuration parsing, key masking, usage extraction, the dashboard.
