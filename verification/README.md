# tracing-throttle, verified

A Dafny model of the rate limiting layer `tracing-throttle` and proofs of what it promises: the per-signature
policies, the suppression counter with its claim and rollback protocol, the bounded store with sampled eviction,
the circuit breaker, the limiter and emitter that join them, and the key the system is indexed by.

`dafny verify dfyconfig.toml` checks everything.

## How the model is laid out

| file | what is in it |
|---|---|
| `Common.dfy` | options, 64-bit arithmetic, instants, cardinality and product lemmas |
| `Policies.dfy`, `PolicyObjects.dfy` | the four policies as values with one step function, and as the objects whose methods update fields in place, proved against that step |
| `TokenBucketTheory.dfy`, `TimeWindowTheory.dfy`, `WindowClocks.dfy`, `CountingTheory.dfy`, `Invisibility.dfy` | whole traces of each policy |
| `SuppressionCounters.dfy`, `LedgerTheory.dfy` | the counter object, proved to hold what a log and a cursor dictate, and whole histories of claims |
| `Eviction.dfy`, `Storage.dfy`, `StorageTheory.dfy`, `LruClocks.dfy` | victim choice, the store object, and whole runs of it |
| `StoreThreads.dfy`, `StoreRaces.dfy` | the store one step per access to the map or the byte counter, for many threads, and how many accesses at once its promises survive |
| `CircuitBreakers.dfy`, `BreakerThreads.dfy` | the breaker as one thread sees it, and one step per atomic access for many threads |
| `Throttle.dfy`, `ThrottleTheory.dfy`, `BreakerRuns.dfy`, `Isolation.dfy`, `Lifetimes.dfy` | the whole system as a step machine: delivery, conservation, the breaker in every run, isolation, each policy's limit end to end |
| `Limiter.dfy`, `Emitter.dfy`, `TickRuns.dfy` | registry, limiter and emitter as objects, and their refinement of the step machine |
| `Fields.dfy`, `Signatures.dfy` | field resolution and the hashed stream |

Time is a number of nanoseconds relative to the epoch its component fixes; a stored timestamp is clamped to 64
bits as the source clamps it. Tokens are reals: rounding of `f64` is abstracted away. Clocks, the iteration order
of the concurrent map, whether the rate limiting operation or the emission panics, and the user's priority function
are parameters. Where the source sizes an integer and the size shows (policy counters, saturation) it is modelled,
with the wrap-around of a release build.

In the step machine a check is one step and so is each visit of the emitter to one entry, because the source holds
the entry's shard lock and the counter's mutex there; checks and evictions of any signatures land between them. The
store's entries carry the counter as its log and cursor; the class `SuppressionCounter` is proved to be determined
by exactly those. A panic in the limiter is raised before any entry is touched, as one in a user's priority function
is.

## Where the code does less than its documentation says

Each entry names the exact condition under which the code does meet the property.

- A rollback is documented to keep suppressions from being lost. In every run that leads to a counter, undoing a
  claim is safe if and only if the cursor is not strictly inside it (`LedgerTheory.UndoSafeExactly`);
  `LedgerTheory.RollbackCanLose` gives a short run that loses two. One emitter never gets there
  (`ThrottleTheory.DeliveredExactlyOnce`).
- The count limit suppresses everything after its budget only until its counter wraps
  (`CountingTheory.CountDecision`), and the backoff allows powers of two only until `next_allowed` saturates
  (`CountingTheory.BackoffDecision`).
- The window limit survives a clock that steps back only if the limit is one or there are at most max_events + 1
  events; otherwise one step of a nanosecond breaks it (`WindowClocks.WindowClockExactly`). The token bucket does
  not mind.
- Sampled LRU keeps the recent keys when access times tie only if the limit is one or nothing had to be evicted
  (`LruClocks.LruTiesExactly`).
- From Open the circuit goes straight to Closed, with no HalfOpen in between, exactly when a success that loaded
  HalfOpen is still under way (`BreakerThreads.UntestedCloseExactly`; `BreakerThreads.StaleSuccessCloses` is a run
  that gets there).
- The tracked bytes are exact when no update is outstanding only if accesses come one at a time or the store tracks
  no bytes (`StoreRaces.ExactAccountingExactly`): an entry evicted between the lookup and the insertion of the same
  access is inserted untracked. They never go below zero in one case more, a store limited by bytes alone whose limit
  exceeds one entry for each of the other accesses (`StoreRaces.NoUnderflowExactly`). Both are per configuration,
  for any byte limit that fits in 64 bits with one entry to spare.
- The entry limit holds only if accesses come one at a time; with two at once there is no bound at all
  (`StoreRaces.EntryLimitExactly`).

## Model

| member | source | states |
|---|---|---|
| Policies.NewCountBased | src/domain/policy.rs:109-117 | a zero count is refused, any other gives a fresh policy |
| Policies.NewTimeWindow | src/domain/policy.rs:332-344 | zero events are reported before a zero window; otherwise a fresh policy |
| Policies.NewTokenBucket | src/domain/policy.rs:623-637 | a capacity that is not positive is reported before a rate that is not; otherwise a full bucket |
| Policies.RegisterKeepsValid | src/domain/policy.rs:745-753 | every policy keeps its invariant on every event with any clock: tokens stay in [0, capacity], the deque holds at most max_events |
| Policies.ResetIsNew | src/domain/policy.rs:130-132 | resetting a policy is building it again with the same parameters |
| Policies.GainPerSecond | src/domain/policy.rs:651-653 | the rate is per second of 1000000000 nanoseconds |
| PolicyObjects.CountBasedPolicy.RegisterEvent | src/domain/policy.rs:121-128 | the in-place update is the policy's step |
| PolicyObjects.TimeWindowPolicy.ExpireOldEvents | src/domain/policy.rs:347-355 | the pop loop leaves what `Expire` leaves |
| PolicyObjects.TimeWindowPolicy.RegisterEvent | src/domain/policy.rs:359-368 | the in-place update is the policy's step |
| PolicyObjects.ExponentialBackoffPolicy.RegisterEvent | src/domain/policy.rs:417-426 | the in-place update is the policy's step |
| PolicyObjects.TokenBucketPolicy.RefillTokens | src/domain/policy.rs:643-656 | the in-place refill, with the early return for a clock that stepped back |
| PolicyObjects.TokenBucketPolicy.RegisterEvent | src/domain/policy.rs:660-671 | the in-place update is the policy's step |
| TokenBucketTheory.TokensAreLeastSlack | src/domain/policy.rs:643-671 | with any clock, the tokens at event j are the least over k <= j of capacity + rate * forward clock moves since k - events allowed in [k, j), and that minimum is attained |
| TokenBucketTheory.BucketIsGreedyByIntervals | src/domain/policy.rs:643-671 | a decision sequence is the bucket's if and only if each event is allowed exactly when that keeps every interval ending there within its ceiling |
| TokenBucketTheory.ForwardOfMonotoneClock | src/domain/policy.rs:643-656 | for nondecreasing times the forward moves are the elapsed time |
| TokenBucketTheory.EveryRunWithinCeiling | src/domain/policy.rs:643-671 | with any clock, a contiguous run of events has at most capacity + rate * its forward clock moves allowed |
| TokenBucketTheory.EveryRunWithinElapsed | src/domain/policy.rs:433-445 | with a monotone clock, at most capacity + rate * elapsed |
| TokenBucketTheory.EveryRunWithinNanos | src/domain/policy.rs:433-445 | the same in nanoseconds: (allowed - capacity) * 1000000000 <= rate * elapsed |
| TokenBucketTheory.NextTokenExactly | src/domain/policy.rs:643-671 | an event is allowed if and only if the bucket can hold a token and still has one, or the clock went forward by the nanoseconds the rest of one takes |
| TokenBucketTheory.BucketAdmitsMost | src/domain/policy.rs:433-445 | no other way of deciding within the same ceilings has let more events through at any point |
| TimeWindowTheory.ExpireIsRecent | src/domain/policy.rs:347-355 | on an ordered deque, popping old fronts is filtering by age, and expiring in stages loses nothing |
| TimeWindowTheory.DequeIsRecentAllowed | src/domain/policy.rs:347-368 | the deque is exactly the allowed events no older than the window |
| TimeWindowTheory.SuppressedIffWindowFull | src/domain/policy.rs:359-368 | an event is suppressed exactly when max_events allowed events are still in its window |
| TimeWindowTheory.WindowRefinesCounting | src/domain/policy.rs:347-368 | a decision sequence is the policy's if and only if it counts the recent allowed events |
| TimeWindowTheory.EveryWindowBounded | src/domain/policy.rs:136-137 | no closed interval of the window's length contains more than max_events allowed events |
| TimeWindowTheory.WindowAdmitsMost | src/domain/policy.rs:347-368 | no other way of deciding within that bound has let more events through at any point |
| WindowClocks.WindowClockExactly | src/domain/policy.rs:347-368 | for a clock that steps back by at most d: every trace of n events keeps the bound if and only if d is zero, the limit is one, or n is at most max_events + 1 |
| WindowClocks.OneEventBounded | src/domain/policy.rs:347-368 | a limit of one is kept with any clock |
| WindowClocks.StepBackOverfills | src/domain/policy.rs:347-355 | for every larger limit, window and longer trace, a trace with one step back of a nanosecond that breaks the bound |
| CountingTheory.CountDecision | src/domain/policy.rs:121-128 | event n is allowed exactly when n modulo 2^64 is within the budget |
| CountingTheory.CountTotal | src/domain/policy.rs:76-78 | short of 2^64 events, min(n, max_count) of the first n are allowed |
| CountingTheory.BackoffAfter | src/domain/policy.rs:417-426 | next_allowed is the least power of two above the count until 2^63, then saturated; the count wraps |
| CountingTheory.BackoffDecision | src/domain/policy.rs:417-426 | event n < 2^64 - 1 is allowed exactly when n is a power of two; later ones exactly when n is one short of a multiple of 2^64 |
| CountingTheory.BackoffTotal | src/domain/policy.rs:375-379 | floor(log2 n) + 1 of the first n events are allowed |
| CountingTheory.CountersAreSixtyFourBits | src/domain/policy.rs:121-128 | the wrap is at two to the 64th, literally |
| Invisibility.SuppressedInvisibleExactly | src/domain/policy.rs:121-128 | deleting suppressed events changes no remaining decision: always for window and bucket, for the count limit exactly on traces shorter than 2^64 or with the largest budget, for the backoff exactly on traces shorter than 4 |
| Invisibility.ClockedInvisibility | src/domain/policy.rs:643-671 | the same for window and bucket, for every nondecreasing trace and every set of suppressed events |
| Invisibility.BackoffInvisibility | src/domain/policy.rs:417-426 | the backoff is disturbed as soon as an event follows the first suppressed one |
| SuppressionCounters.SuppressionCounter.constructor | src/domain/summary.rs:57-68 | a new counter is an empty log at its creation time |
| SuppressionCounters.SuppressionCounter.RecordSuppression | src/domain/summary.rs:145-163 | appends one clamped timestamp to the log; all six fields stay what log and cursor dictate |
| SuppressionCounters.SuppressionCounter.ClaimUnreported | src/domain/summary.rs:185-219 | the claim is exactly the slice from the old cursor to the end of the log, taken when it has at least max(1, min_count) entries; each field of the claim and of the counter is given from the old fields |
| SuppressionCounters.SuppressionCounter.RollbackClaim | src/domain/summary.rs:227-245 | undoing a claim of its own keeps the fields determined by log and cursor; a claim the cursor has not reached changes nothing; otherwise the three stored fields come from the claim |
| SuppressionCounters.SuppressionCounter.Reset | src/domain/summary.rs:297-307 | back to an empty log |
| SuppressionCounters.SuppressionCounter.Counts | src/domain/summary.rs:166-179 | total, reported and unreported counts are log length, cursor and difference |
| LedgerTheory.ToNanosClamps | src/domain/summary.rs:331-350 | a stored time is the time if it fits in 64 bits, otherwise the nearest that does |
| LedgerTheory.StepKeepsOwnership | src/domain/summary.rs:145-245 | under records, claims and rollbacks the log only grows, reported stays at most suppressed, and every claim handed out keeps describing its slice |
| LedgerTheory.ClaimTakesAllPending | src/domain/summary.rs:185-219 | when a claim succeeds and what it takes |
| LedgerTheory.ClaimDescribesPending | src/domain/summary.rs:196-217 | a claim's count, first, last, duration and previous report are the log's, from the cursor to the end |
| LedgerTheory.OwnedIsDescribed | src/domain/summary.rs:196-217 | a claim is a counter's own if and only if it describes a range of its log so |
| LedgerTheory.RollbackForgetsClaim | src/domain/summary.rs:221-226 | claim then rollback restores everything, whatever was recorded in between |
| LedgerTheory.UndoIsOrderIndependent | src/domain/summary.rs:227-245 | undoing any of several back-to-back claims in any order, with records in between, leaves the cursor at the earliest undone start |
| LedgerTheory.EarliestIsEarliest | src/domain/summary.rs:227-245 | that start is the least over the undone claims and is attained |
| LedgerTheory.RollbackNeverLoses | src/domain/summary.rs:221-226 | in any run where no undo finds the cursor strictly inside its range, every suppression below the cursor is in a claim not undone |
| LedgerTheory.UndoSafeExactly | src/domain/summary.rs:232-236 | knowing counter and claim, undoing is safe in every run that leads to them if and only if the cursor is not strictly inside the claim |
| LedgerTheory.InsideIsReachable | src/domain/summary.rs:227-245 | every counter whose cursor is strictly inside a claim is reached by a run of safe undos with that claim outstanding |
| LedgerTheory.RollbackCanLose | src/domain/summary.rs:221-226 | a run in which every claim is undone and two suppressions still count as reported |
| Eviction.MinByKey | src/infrastructure/eviction/lru.rs:27-33 | the victim is the first of the least |
| Storage.ShardedStorage.EvictOneEntry | src/infrastructure/storage.rs:169-206 | samples at most 20 entries in iteration order, removes the policy's victim, adjusts tracked bytes and the eviction count |
| Storage.ShardedStorage.EnsureEntry | src/infrastructure/storage.rs:269-298 | a new key makes room first when the policy says so, then is created once and its size tracked |
| Storage.ShardedStorage.WithEntryMut | src/infrastructure/storage.rs:269-305 | one access: eviction, creation, stamp, accessor |
| Storage.ShardedStorage.Retain | src/infrastructure/storage.rs:328-334 | rewrites every value, keeps exactly what the predicate accepts, touches neither stamps nor tracked bytes |
| Storage.ShardedStorage.Clear | src/infrastructure/storage.rs:219-221 | empties the map and leaves the tracked bytes |
| StorageTheory.SampleCount | src/infrastructure/storage.rs:176-180 | a sample is min(20, size) different resident keys, 20 literally |
| StorageTheory.VictimIsWorstOfSample | src/infrastructure/eviction/priority.rs:64-74 | the victim is sampled, nothing sampled ranks lower, and there is one unless the store is empty |
| StorageTheory.AccessShape | src/infrastructure/storage.rs:269-305 | an access puts its key in and takes at most one other out, with size, bytes and evictions to match |
| StorageTheory.AccountingIsExact | src/infrastructure/storage.rs:287-298 | after every run, tracked bytes are entry size times number of entries |
| StorageTheory.TrackedBytesInFull | src/infrastructure/storage.rs:287-298 | under the two policies with a byte limit that is the full entry size for every entry, under the others nothing |
| StorageTheory.EvictsExactlyWhenFull | src/infrastructure/eviction/memory.rs:50-67 | in every run an access evicts if and only if its key is new, there is something to evict, and the entries, or entries times entry size, reach the limit |
| StorageTheory.EvictionNeverUnderflows | src/infrastructure/storage.rs:194-197 | an eviction never subtracts more than is tracked |
| StorageTheory.LimitsHold | src/infrastructure/eviction/priority_with_memory.rs:81-95 | entries stay within max(1, max_entries) and bytes below max(1, max_bytes) plus one entry, for every limit |
| StorageTheory.RemovalBreaksAccounting | src/infrastructure/storage.rs:328-334 | the accounting survives retain and clear exactly when they remove nothing |
| StorageTheory.VictimIsOld | src/infrastructure/eviction/lru.rs:27-33 | the LRU victim was not accessed in any suffix of the history with fewer different keys than the sample |
| StorageTheory.RecentKeysResident | src/infrastructure/storage.rs:169-206 | with strictly increasing access times the min(20, limit) most recently accessed keys are resident after every run, scans included |
| StorageTheory.SmallLruIsExact | src/infrastructure/eviction/lru.rs:27-37 | with a limit of at most 20 the store is exactly the last `limit` different keys |
| StorageTheory.ByteLimitIsLru | src/infrastructure/eviction/memory.rs:42-57 | every run under a byte limit is, entry by entry, a run of LRU with as many entries as reach it |
| StorageTheory.RecentKeysResidentByBytes | src/infrastructure/eviction/memory.rs:42-47 | so the min(20, that many) most recently accessed keys are resident, and up to 20 the store is exactly those |
| StorageTheory.MostRecentCount | src/infrastructure/eviction/lru.rs:5-8 | the most recent keys are the keys of a suffix of the history, as many as asked for or all |
| LruClocks.LruTiesExactly | src/infrastructure/eviction/lru.rs:27-33 | when access times may tie, every run of at most n accesses keeps the min(20, limit) most recent keys if and only if the limit is one or n is at most the limit |
| LruClocks.TiesEvictRecent | src/infrastructure/eviction/lru.rs:27-33 | for every limit of two or more, limit + 1 accesses under a stopped clock that lose a recent key |
| StorageTheory.ProtectedStay | src/infrastructure/eviction/priority.rs:64-78 | keys that rank above all others, if fewer than a sample and the limits allow, are never evicted once in |
| StoreThreads.BytesInEveryRun | src/infrastructure/storage.rs:169-298 | under every interleaving, tracked bytes are entry size times entries, corrected for counter updates still outstanding and for untracked insertions |
| StoreThreads.ExactIffAllTracked | src/infrastructure/storage.rs:273-298 | with no update outstanding the accounting is exact if and only if no insertion went untracked |
| StoreThreads.NoUnderflowIfAllTracked | src/infrastructure/storage.rs:194-197 | while every insertion was tracked the counter is never below zero |
| StoreThreads.AloneIsExact | src/infrastructure/storage.rs:269-298 | one access at a time: exact, and never below zero, step by step |
| StoreRaces.ExactAccountingExactly | src/infrastructure/storage.rs:269-298 | for every configuration whose byte limit fits: exactness in all runs with at most c accesses at a time if and only if c is at most one or no bytes are tracked |
| StoreRaces.NoUnderflowExactly | src/infrastructure/storage.rs:192-198 | for every such configuration: the counter never goes below zero in those runs if and only if c is at most one, or no bytes are tracked, or there is only a byte limit and it exceeds (c - 1) entries |
| StoreRaces.RoomHolds | src/infrastructure/storage.rs:169-206 | in that last case at least as many entries are tracked as accesses have decided to evict |
| StoreRaces.EntryLimitExactly | src/infrastructure/storage.rs:269-298 | for every entry limit: at most max(1, limit) entries in those runs, or any bound at all, if and only if c is at most one |
| StoreRaces.AloneIsAccess | src/infrastructure/storage.rs:269-298 | an access alone, step by step, leaves the keys and bytes of the sequential access |
| CircuitBreakers.CircuitBreaker.constructor | src/application/circuit_breaker.rs:72-80 | a new breaker is closed with no failures |
| CircuitBreakers.CircuitBreaker.Allow | src/application/circuit_breaker.rs:90-120 | the answer and the state change, sequentially |
| CircuitBreakers.CircuitBreaker.Succeeded | src/application/circuit_breaker.rs:123-141 | closes a half-open circuit, clears the count of a closed one |
| CircuitBreakers.CircuitBreaker.Failed | src/application/circuit_breaker.rs:144-175 | counts, stamps, and opens at the threshold or from half open |
| CircuitBreakers.CircuitBreaker.Reset | src/application/circuit_breaker.rs:189-193 | closes and clears the count, keeps the time |
| CircuitBreakers.RecoveryExactly | src/application/circuit_breaker.rs:90-120 | an open circuit lets a request through, and becomes half open, if and only if the timeout since the last failure is over; any other circuit lets all through and does not change |
| CircuitBreakers.TestDecides | src/application/circuit_breaker.rs:123-165 | a test that succeeds closes the circuit with no failures, one that fails opens it for another timeout |
| CircuitBreakers.BreakerIsHealth | src/application/limiter.rs:79-115 | the breaker between calls, and which operations run, are those of a reference without states: failures since the last success, and when the last was |
| CircuitBreakers.ClosedExactlyBelowThreshold | src/application/limiter.rs:79-115 | driven by the limiter, the breaker is never half open between calls, counts the current failure streak, and is closed exactly while that is below max(1, threshold) |
| CircuitBreakers.SpellPushesLastFailure | src/application/circuit_breaker.rs:93-112 | each operation that runs in a failing spell moves the last failure at least one timeout on |
| CircuitBreakers.SpellBoundsOperations | src/application/circuit_breaker.rs:93-112 | a failing spell of length T lets at most T / recovery_timeout operations run |
| CircuitBreakers.SpacedAttemptsRun | src/application/circuit_breaker.rs:93-112 | and in a failing spell whose attempts come a timeout or more apart every one of them runs |
| BreakerThreads.AtMostOneExchangePerEpisode | src/application/circuit_breaker.rs:99-109 | under every interleaving of all three operations, one compare-exchange at most moves an Open episode to HalfOpen |
| BreakerThreads.FailInvHolds | src/application/circuit_breaker.rs:144-175 | with failures and requests only: failure numbers are 1 .. count, one each; every past Open episode had exactly one winner |
| BreakerThreads.NeverClosedAgain | src/application/circuit_breaker.rs:144-175 | once an operation holding a number at or over the threshold has finished, the state is never Closed again |
| BreakerThreads.EnoughFailuresTrip | src/application/circuit_breaker.rs:144-175 | the count is the number of failures recorded, and enough finished failures leave the circuit not closed |
| BreakerThreads.ClosedExactlyBelowThreshold | src/application/circuit_breaker.rs:144-175 | with failures and requests only: closed below max(1, threshold) failures, and once all have finished exactly then |
| BreakerThreads.AllowAlone | src/application/circuit_breaker.rs:90-120 | a request run alone, access by access, is the sequential one |
| BreakerThreads.SuccessAlone | src/application/circuit_breaker.rs:123-141 | so is a success |
| BreakerThreads.FailureAlone | src/application/circuit_breaker.rs:144-175 | so is a failure |
| BreakerThreads.ExchangeExactlyWhenDue | src/application/circuit_breaker.rs:93-105 | under any interleaving a request goes for the exchange if and only if the timeout since the stored failure is over |
| BreakerThreads.LoserPassesToo | src/application/circuit_breaker.rs:99-109 | of two requests that race for the exchange one wins and the other passes too, finding the circuit half open |
| BreakerThreads.LoserTurnedAway | src/application/circuit_breaker.rs:107-109 | a loser that finds any other state is turned away |
| BreakerThreads.StaleSuccessCloses | src/application/circuit_breaker.rs:123-141 | a run in which a finished failure at the threshold is overtaken by such a success |
| BreakerThreads.UntestedCloseExactly | src/application/circuit_breaker.rs:123-141 | wherever the circuit is open, some continuation takes it straight to Closed if and only if a success that loaded HalfOpen is still under way |
| BreakerThreads.NothingPendingNothingCloses | src/application/circuit_breaker.rs:90-175 | otherwise no operation started or continued while it stays open can |
| Limiter.SuppressionRegistry.WithEventState | src/application/registry.rs:174-185 | runs the callback on the found state or a fresh default one, as one store access |
| Limiter.RateLimiter.Consult | src/application/limiter.rs:88-100 | policy, then record on suppression, on the remaining states |
| Limiter.RateLimiter.CheckEvent | src/application/limiter.rs:79-189 | both check methods are one `Check` of the step machine, with the store's victim |
| ThrottleTheory.CheckHasEffect | src/application/limiter.rs:79-124 | what a check does to counters, metrics and the emitter's books |
| BreakerRuns.CheckGuards | src/application/limiter.rs:79-115 | a check asks the breaker and reports success or failure to it, exactly as one guarded operation |
| BreakerRuns.BreakerInEveryRun | src/application/limiter.rs:79-115 | in every reachable state the breaker counts the checks that ran and panicked since the last that did not, is closed exactly below max(1, threshold) of them, and a check reaches its policy exactly when it runs by that count and does not panic |
| ThrottleTheory.StepKeepsInv | src/application/emitter.rs:300-367 | every step keeps the exactly-once accounts of every signature |
| ThrottleTheory.DeliveredExactlyOnce | src/application/emitter.rs:300-367 | delivered slices are consecutive from the start of each resident log, at least max(1, min_count) long, and describe the log truthfully; with nothing in flight they end at the cursor, and otherwise the claim in flight is the rest |
| ThrottleTheory.EntryInOneSlice | src/application/emitter.rs:300-367 | every log entry below the delivered position is in exactly one delivered slice |
| ThrottleTheory.RunsExtend | src/application/emitter.rs:430-463 | every enabled step extends a run |
| ThrottleTheory.TicksEnd | src/application/emitter.rs:300-367 | in every reachable state each step of a tick under way leaves strictly less to do, and until nothing is left some step is enabled; no scan may end with an entry still due |
| ThrottleTheory.ScanIsComplete | src/application/emitter.rs:300-328 | a scan that ends has visited every entry there from its start and never evicted, whatever came in between, and its batch holds everything pending at the visit where that was at least max(1, min_count) |
| ThrottleTheory.Conservation | src/application/limiter.rs:117-121 | allowed + suppressed = events checked; suppressed = delivered + in flight + pending + lost to eviction |
| ThrottleTheory.NothingLostWithoutEviction | src/application/emitter.rs:330-367 | without evictions nothing is lost, whatever panics |
| ThrottleTheory.OrphanRollbackIsHarmless | src/domain/summary.rs:232-236 | a rollback aimed at a counter recreated after eviction changes nothing |
| Isolation.DecisionsAreLocal | src/application/registry.rs:174-185 | in every run the stored policy and every consulted decision are those of a private copy of the default policy that sees only the signature's events and evictions |
| Isolation.ReplayOfArrivals | src/application/registry.rs:174-185 | between evictions the private copy is the policy run on the signature's events |
| Isolation.ReplayAfterEviction | src/infrastructure/storage.rs:192-204 | an eviction makes the private copy start over |
| Lifetimes.EachLifeIsFresh | src/application/registry.rs:174-185 | in one statement: the limiter's decisions on a signature are those of one fresh default policy per life of its state, run on that life's events alone |
| Isolation.OthersDoNotMatter | src/application/limiter.rs:79-124 | two runs without panics that mention a signature alike decide it alike |
| Isolation.AllConsulted | src/application/limiter.rs:79-115 | without panics the breaker stays closed and every event reaches its policy |
| Isolation.LogIsOwnSuppressions | src/application/limiter.rs:94-98 | a resident counter's log is exactly the signature's own suppressed events since its state was created |
| Isolation.MetadataIsFirst | src/application/registry.rs:55-59 | the stored metadata is the first given since the state was created |
| Isolation.CreationIsFirstArrival | src/application/registry.rs:174-185 | a signature is resident since the consulted event that found none, and its counter carries that event's time |
| Isolation.CountLimitEndToEnd | src/application/limiter.rs:79-124 | under the count policy a signature gets at most max_count * (1 + evictions) events through, plus what failed open |
| Lifetimes.BucketLimitEndToEnd | src/application/limiter.rs:79-124 | under the token bucket, with any clock, a signature gets at most the ceilings of its lives through, plus what failed open |
| Lifetimes.CeilingsInTime | src/domain/policy.rs:433-445 | those ceilings are capacity per life plus rate over the time that passed forward within the lives |
| Lifetimes.CeilingsInNanos | src/domain/policy.rs:433-445 | and in nanoseconds, without conversion |
| Lifetimes.WindowLimitEndToEnd | src/application/limiter.rs:79-124 | under the window policy, with a clock that does not step back within a life, the events let through in any interval of the window's length are at most the allowance of the signature's lives plus those that failed open in it |
| Lifetimes.AllowanceInLives | src/infrastructure/storage.rs:192-204 | that allowance is max_events * (1 + evictions) |
| Emitter.SummaryEmitter.CollectClaimedSummaries | src/application/emitter.rs:300-328 | one claim and one truthful summary per entry that has enough, in iteration order; nothing else changes |
| Emitter.SummaryEmitter.UndoMatching | src/application/emitter.rs:335-340 | at one entry, every claim of the batch with its signature is undone in turn |
| Emitter.SummaryEmitter.RollbackClaimedSummaries | src/application/emitter.rs:330-344 | the scan over all entries |
| Emitter.SummaryEmitter.EmitClaimedSummaries | src/application/emitter.rs:346-368 | an empty batch emits; a panic rolls the batch back |
| Emitter.SummaryEmitter.Tick | src/application/emitter.rs:454-461 | a panicking tick leaves the store exactly as it was; another hands over one summary of everything pending for each entry worth reporting, leaves none of it pending, and touches nothing else of an entry |
| Emitter.SummaryEmitter.Shutdown | src/application/emitter.rs:440-452 | the final emission, only if asked for: which summaries it hands over and whether it returned; a panic there leaves the store as it was |
| Emitter.SummariesReport | src/domain/summary.rs:421-430 | the summaries of a scan: exactly the signatures with enough pending, none twice, each with the count, first and last time, duration and metadata read off its entry |
| Emitter.BatchReportsAll | src/application/emitter.rs:300-328 | a scan reports exactly the signatures with at least max(1, min_count) pending |
| Emitter.BatchReportsOnce | src/application/emitter.rs:300-328 | it reports none twice, and each with everything pending there |
| Emitter.BatchRollsBackOnce | src/application/emitter.rs:330-344 | rolling a batch back restores each counter, visited in any order |
| TickRuns.EmittingTickIsARun | src/application/emitter.rs:454-461 | an undisturbed tick is a run of the step machine to the same store; delivered grows by the counts of the summaries handed over and each signature's slices by its claim |
| TickRuns.PanickingTickIsARun | src/application/emitter.rs:362-364 | a panicking one is a run back to the world it started from |
| EventFields.NearestIsInnermost | src/infrastructure/layer.rs:662-678 | the reference lookup finds the innermost span that caches the field, and nothing exactly when none does |
| EventFields.CollectFromSpan | src/infrastructure/layer.rs:664-676 | at one span, only fields not collected yet are taken |
| EventFields.MessageIsNeverExcluded | src/infrastructure/layer.rs:772-793 | the message is returned whether excluded or not; every other field keeps its value unless excluded |
| EventFields.ExtractSpanContext | src/infrastructure/layer.rs:645-685 | the loop with skip and early exit resolves every configured field to its nearest value and nothing else |
| EventFields.MergeResolves | src/infrastructure/layer.rs:1050-1053 | after the merge a non-excluded event field wins, every other configured name is the nearest span's, and no other name appears |
| Signatures.AscendingIsCanonical | src/domain/signature.rs:54-58 | the iteration order of an ordered map is a function of its contents |
| Signatures.LessIsLexicographic | src/domain/signature.rs:54-58 | the order of names is by the first character in which they differ, prefixes first |
| Signatures.InsertionsCorrect | src/domain/signature.rs:42-42 | insertions in any order give an ordered map with the last value of each name |
| Signatures.FeedHasher | src/domain/signature.rs:39-65 | what is written to the hasher, place by place: level, message, each name and then its value, and the target if there is one |
| Signatures.ExtendOrdered | src/infrastructure/layer.rs:1050-1053 | extending an ordered map with fields in any order merges the contents and keeps it ordered |
| Signatures.StreamOfEvent | src/infrastructure/layer.rs:1049-1055 | span context, event fields, merge and hashing put together give the event's stream |
| Signatures.EveryEventHasOneStream | src/infrastructure/layer.rs:1049-1055 | every event has a stream and only one |
| Signatures.StreamInjective | src/domain/signature.rs:39-65 | the stream determines level, message, fields and target, and its parity whether there is a target |
| Signatures.InsertionOrderIrrelevant | src/domain/signature.rs:53-57 | two insertion sequences give the same stream exactly when they leave the same contents |
| Signatures.SameStreamIffSameBucket | src/infrastructure/layer.rs:1030-1055 | two events are hashed from the same stream exactly when level, name, target and every resolved field agree |

## Left out

- Redis storage and the serialised forms of the policies: input, output and library encodings. A reload drops the
  refill time and rebases window timestamps, so the trace properties are about in-memory state.
- The async runtime: tasks, the watch channel, intervals, timeouts and the handle's errors. The loop body is
  `Tick` and `Shutdown`.
- Shard locks and memory orderings of the concurrent map: steps are sequentially consistent, and only the entry an
  access is filling is locked. `LimitsHold` and the residency results are those of sequential access.
- ThrottleTheory.Conservation: takes a check as one step; threads inside `check_event` between the breaker, the
  store and the metrics are not interleaved with each other (the breaker alone is, in `BreakerThreads`).
- SuppressionCounters.SuppressionCounter.RecordSuppression: counts suppressions without the wrap-around of a
  64-bit counter, as do the breaker's failure count and the metrics.
- Storage.ShardedStorage.WithEntryMut: is one step, and tracked bytes are an unbounded integer, so a total beyond
  2^64 bytes does not wrap; `StoreThreads` takes the access apart, but follows keys and bytes only.
- StoreRaces.ExactAccountingExactly: takes byte limits that leave room for one entry below 2^64, as does
  `NoUnderflowExactly`; no store can hold entries up to a larger one, where the byte counter would wrap first.
- Floating point: rounding, NaN and infinite capacities and rates.
- A panic after an entry was touched, which only an arithmetic overflow check of a debug build could raise.
- The hash function and collisions of signatures.
- Caching of span attributes when spans are created and recorded to, exempt targets, the builder, formatting,
  metrics getters, and cloning of stores, counters and breakers.
