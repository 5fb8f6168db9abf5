# Verified model of response-bandwidth-limiter

A Dafny model of the stateful algorithms of the response-bandwidth-limiter package, a rate
and bandwidth limiter for ASGI applications, with proofs about whole runs of them.

Four connected pieces are modelled.

1. The sliding-window limiter: `SlidingWindow.dfy` (one counter), `CounterTable.dfy` (the table
   of counters with eviction and cleanup), `Eviction.dfy` (when the table's capacity breaks the
   rate bound), `Policy.dfy` (rules, actions and the evaluator), `Admission.dfy` (the end-to-end
   bound), `Overruling.dfy` (when a Reject rule is sure to reject), `Limiter.dfy` (changes of
   policy at run time), `Memory.dfy` (the in-memory store as a class).
2. The bounded stores and the simple map with expiry they must agree with: `TtlMap.dfy` (the
   map), `KeyValue.dfy` (key/value half of the in-memory store), `Manager.dfy` (the
   shared-dictionary store), `IPManager.dfy` (block and allow lists), `FixedWindow.dfy` (the
   approximate counter layered on `incr`), `KeyStrings.dfy` (the key formats).
3. The Redis script as a second sliding-window implementation: `Redis.dfy`.
4. The response pipeline and the shutdown protocol: `Streaming.dfy` (splitting and pacing),
   `Shutdown.dfy` (the coordinator), `Middleware.dfy` (interleaved requests), `Outcomes.dfy`
   (from the log of hits to the answer, the delay and the rate of a request).

`Prelude.dfy` holds shared definitions. `dafny verify dfyconfig.toml` checks everything.

## How the source is modelled

* Time is a `real` passed to each call. Runs assume a clock that does not run backwards.
* A method body under its lock is one atomic step. Objects whose methods update fields are
  classes; each method is proved against a specification function of the old state, and the
  theorems about runs are about those functions.
* Parameters that the source validates as positive integers have the type `pos`.
* Python's `sorted` leaves ties in dictionary order. The specification leaves the choice among
  equally old entries open: an eviction step carries the set of its victims, `LegalVictims` and
  `LegalLru` say which sets are possible, and the methods are proved to make a possible choice.
* An answer of the environment (what a look at the shutdown state sees, how late a sleep ends,
  when Redis reaps a key) is an arbitrary function or flag, so theorems hold for all of them.
* Theorems about one counter ask that it is never evicted while it holds a live hit (`Kept`).
  Two conditions are proved to be enough: the table has room for all counters ever hit, or each
  window sees hits on at most `capacity - trim` other counters, where `trim`, the size of the
  eviction's batch, is a tenth of the capacity but at least one.
* A hit is made by the rules in force. In the source an evaluation that waits for Redis between
  two rules may go on with the rules it started with after a policy update.

## Where the code does not keep a promise without a condition

* The rate bound is lost when too many counters are in use: the oldest is evicted and starts
  afresh. It holds in every run exactly when the counters in use fit into the table
  (`Eviction.BoundedIffCountersFit`), and in every run with at most `m` other counters per window
  exactly when `m` is at most what the eviction leaves (`Eviction.BoundedIffFewOthers`).
* A matching Reject rule decides the request exactly when no other rule of the handler both comes
  before it and lets the request pass for some wait that its window allows; only custom actions
  can (`Overruling.RejectStandsIffUnopposed`). "Exactly" is over logs in which evaluations
  interleave between two rules, as they can on Redis or with several threads. On one event loop
  with the in-memory store an evaluation runs undivided. The condition is still enough there, but
  a Reject rule may stand without it. An example with one scope for all rules: a custom rule of
  priority -2 that always rejects, 1 per 3600 s, then Reject, 10 per 60 s, then a custom rule of
  priority -1 that never rejects, 10 per 60 s. Whenever the Reject rule matches an undivided
  evaluation, so does the first rule, which precedes the lenient one.
* `wait_until_drained` can answer True while a request that passed its check before the shutdown
  is about to begin a response (`Middleware.DrainedTooEarly`); the empty count is final exactly
  when there is no such request (`Middleware.DrainedForGoodIffNothingPending`).
* The expiry of a Redis key is unobservable exactly when the window has not grown since the last
  write (`Redis.TtlUnobservableIffWindowNotGrown`). A policy update starts a new key generation,
  so among hits by the rules in force the window of one key never grows.
* Handler names are joined to keys with colons and not escaped. Cleanup by prefix is exact, and
  keys are distinct, exactly under the conditions of `KeyStrings.CleanupIsExactIff`,
  `KeyStrings.ApproxKeysDistinctIff` and `KeyStrings.RedisKeysDistinctIff`. Names without colons
  meet all three.
* The shared-dictionary store keeps expiry records in the same dictionary as user keys. It
  behaves like a map with expiry exactly on sets of keys without the reserved prefix
  (`Manager.ExactIffNoReservedKey`).
* The fixed-window approximation admits up to twice the count within one window, and that many
  are reached (`FixedWindow.TwiceTheCount`, `FixedWindow.TwiceTheCountIsReached`). A span of time
  never sees more than the count exactly when it does not reach into two buckets
  (`FixedWindow.KeepsCountIffOneBucket`).

## Model

| member | source | states |
|---|---|---|
| SlidingWindow.CleanupCounter | response_bandwidth_limiter/backends/memory.py:153-156 | the pruning loop removes exactly the leading hits at or before `now - window` |
| SlidingWindow.SurvivorsByEntry | response_bandwidth_limiter/backends/memory.py:153-156 | on a sorted history fewer than `n - k` hits survive a prune exactly when entry `k` is expired, which is why one index decides the wait |
| SlidingWindow.RecordedKeepsOrder | response_bandwidth_limiter/backends/memory.py:95-106 | a hit leaves a non-empty sorted history, entirely inside the window and not ahead of the clock |
| SlidingWindow.RetryAfterIsExact | response_bandwidth_limiter/policy.py:114-118 | a matched rule's wait is between 1 and the window, a hit at least that much later does not match, and no smaller positive number of seconds has this property |
| SlidingWindow.WaitIsCeiling | response_bandwidth_limiter/policy.py:114-118 | on any reading of the clock the wait is the whole seconds until the timestamp leaves the window, rounded up, at least one, and one without a timestamp |
| SlidingWindow.HistoryCoversAdmitted | response_bandwidth_limiter/backends/memory.py:95-106 | the capped history still contains every admitted hit of the last window although rejected hits occupy places in it |
| SlidingWindow.AdmissionBound | response_bandwidth_limiter/backends/memory.py:95-116 | in any run of one counter a span of time narrower than the window holds at most `count` admitted hits |
| SlidingWindow.RecordedSubsequence | response_bandwidth_limiter/backends/memory.py:95-106 | recording keeps the history a subsequence of the true log of hits |
| CounterTable.HistoriesAreSubsequences | response_bandwidth_limiter/backends/memory.py:83-177 | in every run with evictions, handler cleanups and orphan cleanups each history is a subsequence of its counter's true log |
| CounterTable.UncappedHistory | response_bandwidth_limiter/backends/memory.py:83-106 | without a cap and without eviction a counter holds exactly the part of the log inside the window |
| CounterTable.TableInOrder | response_bandwidth_limiter/backends/memory.py:83-177 | in every run with a forward clock all histories are sorted and not ahead of the clock |
| CounterTable.MatchIsSound | response_bandwidth_limiter/backends/memory.py:83-177 | a counter reports more than `count` hits only if the true log has at least `count + 1` in the window, and then an uncapped counter matches too |
| CounterTable.WaitIsHonoured | response_bandwidth_limiter/policy.py:66-76 | in every run, with any hits on other counters, evictions and cleanups in between, the next hit on a matched counter that comes no earlier than its `Retry-After` does not match |
| CounterTable.SomeVictims | response_bandwidth_limiter/backends/memory.py:158-177 | every table has a choice of victims that the eviction can make |
| CounterTable.EvictMakesRoom | response_bandwidth_limiter/backends/memory.py:158-177 | a full table of `c` live counters is left with `c - c / 10` of them, or `c - 1` if `c` is below ten, and none is dropped whose last hit is newer than that of a kept one |
| CounterTable.TableIsBounded | response_bandwidth_limiter/backends/memory.py:98-99 | in every run there are never more counters than `max_counters` |
| CounterTable.HistoriesAreBounded | response_bandwidth_limiter/backends/memory.py:103-106 | with one fixed cap per counter no history is ever longer than the cap |
| CounterTable.KeptRunsAlone | response_bandwidth_limiter/backends/memory.py:83-177 | as long as a counter is not evicted with a live hit in it, no later hit can tell its history from that of the counter running alone, whatever other hits, updates of other handlers and orphan cleanups are mixed in |
| CounterTable.CountersAreIndependent | response_bandwidth_limiter/policy.py:56-77 | at each of its own hits such a counter's history is exactly that of the same hits on a table with no other counter and no cleanup |
| CounterTable.RoomForAllKeeps | response_bandwidth_limiter/backends/memory.py:158-177 | a table with room for all counters ever hit never loses one |
| CounterTable.FewOthersKeep | response_bandwidth_limiter/backends/memory.py:158-177 | oldest-first eviction never takes a counter with a live hit if each window sees hits on at most `capacity - capacity / 10` other counters (`capacity - 1` below ten), however many counters the whole run has |
| CounterTable.PolicyChangesAreIsolated | response_bandwidth_limiter/backends/memory.py:118-151 | a hit is answered as if no cleanup of other handlers and no orphan cleanup had ever happened, provided neither run evicts its counter with a live hit in it |
| CounterTable.OrphanCleanupIsUnobservable | response_bandwidth_limiter/backends/memory.py:129-151 | below capacity all answers to hits on configured rules are the same with and without orphan cleanups |
| Eviction.KeptCounterIsBounded | response_bandwidth_limiter/backends/memory.py:83-177 | a counter that is not evicted with a live hit in it keeps its rule's bound in every run with hits, changes and cleanups of all other handlers |
| Eviction.FittingCountersAreBounded | response_bandwidth_limiter/backends/memory.py:158-177 | if the counters in use fit into the table every run keeps every rule's bound |
| Eviction.CrowdBreaksBound | response_bandwidth_limiter/backends/memory.py:158-177 | a run with one counter more than the table holds, of which one more than the trim leaves are recent, admits `count + 1` hits on a counter within half a second |
| Eviction.BoundedIffCountersFit | response_bandwidth_limiter/backends/memory.py:158-177 | for every set of counters, plan of rules and capacity: the bound holds in all possible runs exactly when the set is no larger than the capacity |
| Eviction.BoundedIffFewOthers | response_bandwidth_limiter/backends/memory.py:158-177 | for every rule, capacity and `m`: the bound of a counter holds in all runs over any counters that hit at most `m` others per window exactly when `m` is at most `capacity - capacity / 10`, or `capacity - 1` below ten |
| Policy.SelectIsUniqueLeast | response_bandwidth_limiter/policy.py:107-112 | the selected action is the one matched action that precedes all others by priority, sort key and order |
| Policy.BuiltinPrecedence | response_bandwidth_limiter/models.py:55-143 | among built-in actions Reject beats Delay beats Throttle, then the longer delay, the lower rate and the earlier rule win |
| Policy.CustomPrecedence | response_bandwidth_limiter/policy.py:107-112 | a custom action of rank `r` and weight `w` is placed among the built-in ones as if Reject had rank 0 and weight 0, Delay rank 1 and its negated seconds, Throttle rank 2 and its rate; the selected action outranks all others |
| Policy.PolicyEvaluator.HitRule | response_bandwidth_limiter/policy.py:61-76 | one rule's hit extends the log by one legal event and contributes an action exactly when the log's report exceeds the count |
| Policy.PolicyEvaluator.Evaluate | response_bandwidth_limiter/policy.py:50-77 | records one hit per rule on the counter its scope selects, in order, and selects the least of the actions the whole log says matched; a missing scope stops it after the earlier hits |
| Admission.UnopposedDecides | response_bandwidth_limiter/policy.py:107-112 | a matched Reject rule that nothing overrules makes the selected action reject, whatever else matched |
| Admission.BuiltinsNeverOverrule | response_bandwidth_limiter/models.py:55-143 | with built-in actions only, nothing overrules a Reject rule |
| Admission.MatchedFromRules | response_bandwidth_limiter/policy.py:56-77 | in every log of the evaluator a request matches only rules of its own handler, each with a wait between 1 and the rule's window |
| Admission.RejectAlwaysWins | response_bandwidth_limiter/policy.py:50-77 | in every interleaving of requests, a request one of whose hits matches a Reject rule that nothing overrules ends rejected |
| Admission.NotRejectedWereAdmitted | response_bandwidth_limiter/policy.py:50-112 | of any first part of a log, the hits whose requests are not rejected are among the hits their counter alone admits |
| Admission.RejectRuleBound | response_bandwidth_limiter/policy.py:50-112 | in every interleaving of requests to all handlers, changes of other handlers and cleanups, with the counter itself neither changed nor evicted with a live hit in it, a span narrower than the window holds at most `count` requests on the counter that are not rejected |
| Admission.RejectRuleBoundByWindow | response_bandwidth_limiter/policy.py:50-112 | the same for any number of clients over the whole run, when each window sees hits on at most `capacity - capacity / 10` other counters (`capacity - 1` below ten) |
| Admission.HalfOpenWindowBound | response_bandwidth_limiter/policy.py:50-112 | the bound for both kinds of half-open window of exactly `window_seconds` |
| Overruling.OverruledIsHidden | response_bandwidth_limiter/policy.py:50-112 | for every rule that comes before a Reject and is lenient for some wait its window allows, a log of finished evaluations in which the Reject rule matches and the request is let through |
| Overruling.RejectStandsIffUnopposed | response_bandwidth_limiter/policy.py:50-112 | every request that a Reject rule matches is rejected, in all logs of evaluations, exactly when no rule of the handler both precedes it and is lenient for some wait its window allows |
| Memory.OldestFirst | response_bandwidth_limiter/backends/memory.py:169-174 | lists every key once, ordered by its stamp |
| Memory.InMemoryStorage.Get | response_bandwidth_limiter/backends/memory.py:43-51 | answers and changes the store as the step function says; an expired entry is deleted |
| Memory.InMemoryStorage.Set | response_bandwidth_limiter/backends/memory.py:53-60 | stores after making room by a legal eviction, or answers unavailable |
| Memory.InMemoryStorage.Incr | response_bandwidth_limiter/backends/memory.py:62-73 | counts, keeping the deadline unless a new one is given, after making room |
| Memory.InMemoryStorage.Delete | response_bandwidth_limiter/backends/memory.py:75-77 | removes value, deadline and access time of the key and nothing else |
| Memory.InMemoryStorage.EvictKeysIfNeeded | response_bandwidth_limiter/backends/memory.py:179-197 | drops expired keys if there are any, else a tenth of the capacity (at least one, at most all) of the ordinary keys, least recently used first, else reports that there is no room, unchanged |
| Memory.InMemoryStorage.RecordHit | response_bandwidth_limiter/backends/memory.py:83-116 | changes the table by exactly one recorded hit after a legal eviction and reports from the new history |
| Memory.InMemoryStorage.EvictCountersIfNeeded | response_bandwidth_limiter/backends/memory.py:158-177 | drops empty counters and then, from a full table, the oldest tenth of the capacity, at least one |
| Memory.InMemoryStorage.CleanupHandlerCounters | response_bandwidth_limiter/backends/memory.py:118-127 | drops all counters of the handler and all keys under its bucket prefix, nothing else |
| Memory.InMemoryStorage.CleanupOrphanedCounters | response_bandwidth_limiter/backends/memory.py:129-151 | leaves exactly the counters of active rules that have a live hit, pruned by their own window |
| KeyValue.StepKeepsWellFormed | response_bandwidth_limiter/backends/memory.py:43-77 | every operation keeps values and access times on the same keys, deadlines on a subset of them, and the size within `max_keys` |
| TtlMap.IncrCounts | response_bandwidth_limiter/backends/memory.py:62-73 | a count is one more than a stored integer or a stored float without its fraction, one for a missing or expired key, and a value that is no number is left as it is |
| KeyValue.UnavailableExactly | response_bandwidth_limiter/backends/memory.py:179-197 | the unavailable answer comes exactly when a new key meets a full store of live `ip:` entries, and then nothing changes |
| KeyValue.EvictionIsLru | response_bandwidth_limiter/backends/memory.py:190-197 | when nothing is expired, eviction spares all `ip:` entries, drops a tenth of the capacity (at least one) or all ordinary keys if there are fewer, and no ordinary key used more recently than one it keeps |
| KeyValue.AccessTimesAreTrue | response_bandwidth_limiter/backends/memory.py:212-218 | in every run the recorded access time of each key is that of its last read, write or count in the traffic |
| KeyValue.LeastRecentlyUsedGoFirst | response_bandwidth_limiter/backends/memory.py:179-197 | in every run a live key that a call pushes out is not an `ip:` key and was last accessed no later than any ordinary key that stays |
| KeyValue.StepAgrees | response_bandwidth_limiter/backends/memory.py:43-77 | one operation answers like the map with expiry and keeps every spared key in agreement with it |
| KeyValue.ControlEntriesAreExact | response_bandwidth_limiter/backends/memory.py:179-197 | over any run of operations and counter cleanups, under any pressure, an `ip:` entry reads as its last successful write with its expiry |
| KeyValue.BelowCapacityIsExact | response_bandwidth_limiter/backends/memory.py:43-77 | as long as the keys used fit, all answers of a run equal those of the map with expiry |
| IPManager.ControlKeys | response_bandwidth_limiter/ip_manager.py:14-36 | block and allow keys are control keys, never coincide, and determine the address |
| IPManager.ListsAreIndependent | response_bandwidth_limiter/ip_manager.py:14-36 | what one address is told on one list is changed neither by asking nor by writing another address or the other list |
| IPManager.IPManager.BlockIp | response_bandwidth_limiter/ip_manager.py:14-16 | adds one write to the log; the block stands with its expiry unless the address is invalid or the store is full of live control entries, and then the previous block stands |
| IPManager.IPManager.UnblockIp | response_bandwidth_limiter/ip_manager.py:18-20 | adds one deletion to the log; no block of a valid address stands afterwards |
| IPManager.IPManager.IsBlocked | response_bandwidth_limiter/ip_manager.py:22-24 | adds one read to the log; over any traffic answers whether the last block is still standing |
| IPManager.IPManager.AllowIp | response_bandwidth_limiter/ip_manager.py:26-28 | adds one write to the log; an allowance without expiry stands, under the same conditions |
| IPManager.IPManager.RemoveAllow | response_bandwidth_limiter/ip_manager.py:30-32 | adds one deletion to the log; no allowance of a valid address stands afterwards |
| IPManager.IPManager.IsAllowed | response_bandwidth_limiter/ip_manager.py:34-36 | adds one read to the log; over any traffic answers whether the last allowance is still standing |
| Manager.ManagerStorage.Get | response_bandwidth_limiter/backends/manager.py:54-59 | answers and deletes lazily as the step function says |
| Manager.ManagerStorage.Set | response_bandwidth_limiter/backends/manager.py:65-70 | sweeps if it is time, then writes the value and its record |
| Manager.ManagerStorage.Incr | response_bandwidth_limiter/backends/manager.py:76-85 | sweeps if it is time, then counts; a record is only touched when an expiry is given |
| Manager.ManagerStorage.CleanupExpired | response_bandwidth_limiter/backends/manager.py:125-137 | the loop over the snapshot removes exactly the overdue keys and records, at most once per interval |
| Manager.SweepUnseen | response_bandwidth_limiter/backends/manager.py:125-137 | a sweep changes no live entry of a user key |
| Manager.StepAgrees | response_bandwidth_limiter/backends/manager.py:54-92 | one operation answers like the map with expiry and keeps every user key in agreement, whenever the last sweep ran |
| Manager.ManagerIsExact | response_bandwidth_limiter/backends/manager.py:54-92 | all answers of a run on user keys equal those of the map with expiry |
| Manager.ExactIffNoReservedKey | response_bandwidth_limiter/backends/manager.py:122-137 | on a set of keys every run is answered like the map with expiry exactly when no key has the reserved prefix |
| Manager.ManagerAgreesWithMemory | response_bandwidth_limiter/backends/manager.py:54-92 | on user keys that fit into the in-memory store, both stores answer every run alike |
| Manager.NothingStaleAfterWrite | response_bandwidth_limiter/backends/manager.py:125-137 | after a write no entry remains whose deadline is a second or more in the past |
| Manager.ReservedKeyHidesAnother | response_bandwidth_limiter/backends/manager.py:146-156 | a small number written under a record name makes the next read of that key find nothing |
| FixedWindow.RecordHit | response_bandwidth_limiter/backends/base.py:67-76 | counts in the bucket of the wall clock with an expiry of two windows and reports the bucket's start |
| FixedWindow.BucketsCountHits | response_bandwidth_limiter/backends/base.py:67-76 | on any traffic a bucket's counter holds the number of its hits and outlives the bucket |
| FixedWindow.HitIsCounted | response_bandwidth_limiter/backends/base.py:67-76 | on any traffic through the shared-dictionary store a hit is told exactly how many hits its bucket has seen |
| FixedWindow.BucketAdmits | response_bandwidth_limiter/backends/base.py:67-76 | each bucket admits its hits up to `count` and no more |
| FixedWindow.TwiceTheCount | response_bandwidth_limiter/backends/base.py:67-76 | a span narrower than the window admits at most `2 * count` hits |
| FixedWindow.TwiceTheCountIsReached | response_bandwidth_limiter/backends/base.py:67-76 | for every counter and count some run admits `2 * count` hits within half a second |
| FixedWindow.KeepsCountIffOneBucket | response_bandwidth_limiter/backends/base.py:67-76 | for every counter, count and span of time: no run admits more than `count` hits in the span exactly when all its moments lie in one bucket |
| FixedWindow.WaitReachesNextBucket | response_bandwidth_limiter/policy.py:114-118 | the wait computed from the bucket's start leads into the next bucket and no fewer whole seconds do |
| FixedWindow.WaitingIsRewarded | response_bandwidth_limiter/policy.py:114-118 | with no further hits, a hit that comes at least as late as told is admitted |
| KeyStrings.BucketsDistinguish | response_bandwidth_limiter/backends/base.py:84-85 | two buckets of one counter never share a key, for any handler name |
| KeyStrings.ApproxKeysDistinctIff | response_bandwidth_limiter/backends/base.py:84-85 | bucket keys of a set of handlers are all distinct exactly when none reads like another one followed by a rule index |
| KeyStrings.CleanupIsExactIff | response_bandwidth_limiter/backends/base.py:87-88 | cleanup by prefix reaches a handler's own bucket counters only, exactly when no handler is another one followed by a colon |
| KeyStrings.RedisKeysDistinguish | response_bandwidth_limiter/backends/redis.py:208-217 | handlers that are apart never share a Redis key, in any generation |
| KeyStrings.RedisKeysDistinctIff | response_bandwidth_limiter/backends/redis.py:208-217 | Redis keys over all generations are distinct exactly when no handler reads like another one followed by a generation or a rule index |
| KeyStrings.ColonFreeNamesAreApart | response_bandwidth_limiter/backends/redis.py:208-217 | handler names without colons are always apart |
| Redis.RedisStorage.RecordHit | response_bandwidth_limiter/backends/redis.py:25-54 | the script, command by command, leaves the pruned and extended scores with a fresh time to live and answers from them; other keys are untouched |
| Redis.KeyFormat | response_bandwidth_limiter/backends/redis.py:208-217 | a handler's keys carry the number of changes of its policy, and no generation before the first change |
| Redis.RedisStorage.CleanupHandlerCounters | response_bandwidth_limiter/backends/redis.py:194-200 | moves the handler, and no other, to the next generation, and cleans up the fallback store |
| Redis.RedisStorage.CleanupOrphanedCounters | response_bandwidth_limiter/backends/redis.py:202-203 | cleans up the fallback store only |
| Redis.ReplyAlwaysHasOldest | response_bandwidth_limiter/backends/redis.py:44-54 | the script's answer for an empty set is unreachable |
| Redis.ScriptIsRecorded | response_bandwidth_limiter/backends/redis.py:25-54 | on a sorted set not ahead of the clock the script leaves exactly what the in-memory recording leaves |
| Redis.TtlUnobservableIffWindowNotGrown | response_bandwidth_limiter/backends/redis.py:42-43 | losing an expired key changes no script run exactly when the window has not grown since the last write |
| Redis.RoomKeepsEach | response_bandwidth_limiter/backends/memory.py:158-177 | below its capacity the in-memory table keeps every counter, so that the comparison applies |
| Redis.StoresMirror | response_bandwidth_limiter/backends/redis.py:161-217 | over any run with policy changes, the handler and orphan cleanups they trigger, and keys reaped whenever their time to live permits, no later hit can tell the current Redis set from the in-memory history |
| Redis.RedisAgreesWithMemory | response_bandwidth_limiter/backends/redis.py:161-217 | over any such run every hit gets the same count, oldest time, match and `Retry-After` from both stores |
| Limiter.ResponseBandwidthLimiter.GetRules | response_bandwidth_limiter/limiter.py:174-176 | returns exactly the rules that the counters of the handler stand for, index by index |
| Limiter.ResponseBandwidthLimiter.UpdatePolicy | response_bandwidth_limiter/limiter.py:188-195 | a bad name, an empty list or a scope that is neither "ip" nor "default" nor registered changes nothing; otherwise the rules are in force and the table is the cleaned-up one |
| Limiter.ResponseBandwidthLimiter.RemovePolicy | response_bandwidth_limiter/limiter.py:197-202 | the handler has no rules afterwards and the table is the cleaned-up one |
| Limiter.ChangeTidiesTable | response_bandwidth_limiter/limiter.py:188-202 | a change leaves exactly the counters of other handlers' configured rules with a live hit, each pruned by its own window |
| Limiter.TableStaysTidy | response_bandwidth_limiter/limiter.py:188-202 | in every run of evaluations under the rules in force every counter names a configured handler and rule, and right after a change none of the changed handler is left |
| Limiter.HitsAreToldAsIfAlone | response_bandwidth_limiter/limiter.py:188-202 | with other handlers' policies changing, a hit on an unchanged handler is told what its counter alone would tell it, as long as it is not evicted with a live hit in it |
| Limiter.ChangesAreInvisibleElsewhere | response_bandwidth_limiter/limiter.py:188-202 | changes of other handlers' policies alter no answer to a hit on an unchanged handler whose counter is kept with and without them |
| Streaming.RewritePreservesMeaning | response_bandwidth_limiter/middleware.py:202-226 | headers, bytes, their order and the end of the body are the same before and after splitting, for any sequence of messages |
| Streaming.PartsAreWellFramed | response_bandwidth_limiter/middleware.py:211-223 | parts are non-empty and no larger than the chunk, all but the last say more follows, the last carries the original flag |
| Streaming.PrefixIsPrefix | response_bandwidth_limiter/middleware.py:367-380 | what an interrupted response shows the receiver is a prefix of the whole response |
| Streaming.NeverAheadOfRate | response_bandwidth_limiter/streaming.py:48-62 | after any number of paced messages the bytes sent are at most rate times elapsed time |
| Streaming.BurstBound | response_bandwidth_limiter/streaming.py:48-62 | any interval of paced messages no larger than a chunk carries at most rate times its length plus one chunk |
| Streaming.LimitedResponse.NeverAhead | response_bandwidth_limiter/streaming.py:48-62 | every response of the class, at any point of its life, keeps the first bound |
| Streaming.LimitedResponse.NeverBursts | response_bandwidth_limiter/streaming.py:48-62 | and any interval carries at most the rate times its length plus the chunk size, and plus one second's bytes |
| Streaming.LimitedResponse.NoBytesAfterAbort | response_bandwidth_limiter/streaming.py:57-62 | at any point of a response's life, no byte has left later than one lag after the abort |
| Streaming.CutBytesArePrefix | response_bandwidth_limiter/middleware.py:367-380 | a cut response followed by messages without bytes delivers a prefix of the body |
| Streaming.LimitedResponse.SleepWithAbortCheck | response_bandwidth_limiter/streaming.py:23-46 | nothing happens for a duration of zero or less; an unaborted sleep adds up to exactly the requested time, in `ceil(duration / 0.1)` pieces of at most 0.1 s when a shutdown had begun before it; an abort already in force is always seen, and one that comes is noticed within the longest piece and three lags |
| Streaming.LimitedResponse.SleepForPolicyDelay | response_bandwidth_limiter/middleware.py:185-200 | an unaborted delay lasts at least as long as asked and at most four lags longer, and ends with a look that saw no abort; an abort already in force is always seen, and one that comes is noticed within 0.1 s and three lags |
| Streaming.LimitedResponse.SendPart | response_bandwidth_limiter/streaming.py:57-62 | a part is sent after sleeping exactly its bytes over the rate, or, after an observed abort, not at all |
| Streaming.LimitedResponse.SendLimitedBody | response_bandwidth_limiter/middleware.py:202-226 | sends exactly the split body, or on abort only some of its parts; no part is larger than the chunk size or a second's bytes, and each before the last is as large as one of them; nothing of a non-empty body goes out once abort is in force; an abort is raised within one second and six lags of its coming, or of the body's beginning, and a body that went out whole leaves no abort older than two lags unnoticed |
| Streaming.LimitedResponse.SendWithLimit | response_bandwidth_limiter/middleware.py:348-365 | each message goes out rewritten, with its share of sleep, or is cut by an abort under the same bounds; other messages and empty bodies pass through at once, abort or not; no sleep exceeds one second |
| Streaming.LimitedResponse.RunApplication | response_bandwidth_limiter/middleware.py:367-382 | a response ends aborted only if the coordinator says abort; otherwise it goes out as its rewriting with total sleep bytes over rate. An abort cuts it inside one message with bytes, everything before that message is out, the abort is raised within one second and six lags, and of the messages after it, handed over by an application that goes on, exactly those without bytes go out |
| Shutdown.ShutdownCoordinator.BeginShutdown | response_bandwidth_limiter/shutdown.py:43-51 | sets the mode once, except that drain may become abort |
| Shutdown.ShutdownCoordinator.EnterResponse | response_bandwidth_limiter/shutdown.py:53-55 | the count goes up by one and nothing else changes |
| Shutdown.ShutdownCoordinator.ExitResponse | response_bandwidth_limiter/shutdown.py:57-60 | the count goes down by one unless it is zero |
| Middleware.InFlightIsExact | response_bandwidth_limiter/middleware.py:324-335 | in every interleaving, however requests end, the count equals the number of requests in a policy delay or a limited response |
| Middleware.ClampIsNeverUsed | response_bandwidth_limiter/shutdown.py:57-60 | whenever `exit_response` is called in a run the count is positive |
| Middleware.DrainedMeansEmpty | response_bandwidth_limiter/shutdown.py:62-74 | a poll of `wait_until_drained` answers True exactly when no request is in a delay or a limited response, False exactly when one is and the deadline has come, and otherwise leaves the wait as it was |
| Middleware.ModeOnlyAdvances | response_bandwidth_limiter/shutdown.py:43-51 | over any run the mode only goes forward and abort is final |
| Middleware.DrainProgress | response_bandwidth_limiter/middleware.py:290-335 | after a shutdown has begun, calls of `enter_response` are bounded by the pending requests and all productive steps by the remaining work, in any interleaving |
| Middleware.ShutdownHoldsRequests | response_bandwidth_limiter/middleware.py:290-335 | after a shutdown has begun no managed request passes its check and no request in its delay reaches the handler |
| Middleware.DrainedForGoodIffNothingPending | response_bandwidth_limiter/shutdown.py:62-74 | an empty count stays empty in all continuations exactly when no request past its check is about to begin a limited response or to be judged in a way that can lead into a delay or a limited response |
| Middleware.DrainedTooEarly | response_bandwidth_limiter/shutdown.py:62-74 | a run from the start in which `wait_until_drained` answers True and a limited response begins afterwards |
| Outcomes.EveryRequestIsExplained | response_bandwidth_limiter/middleware.py:284-382 | in every run from the start each request is, at any moment, what its route limit, its rules and the outcome of their evaluation allow: an error answer with the status, detail and wait of a Reject, a delay of the seconds of a Delay and then the route limit, the rate of a Throttle |
| Outcomes.TreatedAsTold | response_bandwidth_limiter/middleware.py:284-382 | the same from any explained state, and no request is evaluated twice |
| Outcomes.RulesComeFirst | response_bandwidth_limiter/middleware.py:296-323 | a request with rules is never ready, delayed, sending, forwarded or bypassing before its rules have been evaluated |
| Outcomes.ToldForGood | response_bandwidth_limiter/middleware.py:315-323 | after a Reject or a failed evaluation a request is answering so, or done, in every continuation |
| Outcomes.EvaluationDecides | response_bandwidth_limiter/middleware.py:296-343 | while no shutdown has begun, an evaluated request turns into exactly what the selected action says |
| Outcomes.WithoutRulesItGoesOn | response_bandwidth_limiter/middleware.py:337-343 | a request without rules goes on at the rate of its route, or unlimited |
| Outcomes.LateArrivalIsRefused | response_bandwidth_limiter/middleware.py:290-293 | a managed request that arrives after the shutdown has begun gets the shutdown answer |
| Outcomes.TurnedAway | response_bandwidth_limiter/middleware.py:266-278 | a blocked address gets the blocked answer, an unreachable backend the other one |
| Outcomes.DelayLeadsOn | response_bandwidth_limiter/middleware.py:324-343 | an undisturbed delay leads to the response at the chosen rate |
| Outcomes.DelayEndsWithShutdown | response_bandwidth_limiter/middleware.py:324-335 | a delay ends refused if a shutdown has begun, and broken off if it aborts |
| Outcomes.ResponseAtItsRate | response_bandwidth_limiter/middleware.py:337-367 | a response is limited exactly if a rate was chosen, and to that rate |
| Outcomes.NoAbortNoneBrokenOff | response_bandwidth_limiter/middleware.py:345-382 | no response is broken off in a run without an aborting shutdown |
| Outcomes.NoShutdownNoneRefused | response_bandwidth_limiter/middleware.py:290-335 | no request is told of a shutdown in a run without one |
| Outcomes.EndIsFinal | response_bandwidth_limiter/middleware.py:367-382 | what is finished, broken off or aborted is over in every continuation |
| Outcomes.LogDecides | response_bandwidth_limiter/policy.py:50-118 | from any log of evaluations to the outcome: the request turns into exactly what the action selected from the log says, with a wait that is exact for the hit behind it |

## Left out

- Admission.RejectRuleBound: supposes that the counter is never evicted with a live hit in it; `Admission.RejectRuleBoundByWindow` gives a condition on the traffic, and `Eviction.BoundedIffFewOthers` shows that it is the weakest of its kind.
- Overruling.RejectStandsIffUnopposed: the necessary half is over logs of interleaved evaluations; for evaluations that always run undivided a weaker condition would do, which is not stated.
- Redis.StoresMirror: hits by rules that a concurrent policy update has just replaced are not part of the runs.
- KeyValue.BelowCapacityIsExact: above capacity ordinary keys may be evicted, as designed; `ip:` entries are covered without the condition by `KeyValue.ControlEntriesAreExact`.
- KeyValue.ControlEntriesAreExact: supposes that nobody calls `incr` on the control key itself, which no part of the package does.
- Redis.RedisAgreesWithMemory: exact scores and a server clock that does not run backwards are assumed, and the request key appears in the Redis key as it is, not hashed.
- Streaming.LimitedResponse.RunApplication: how long the application thinks between messages is any time; time and sleep lengths are reals, so floating-point rounding is not modelled; sleeps and sends may last longer than asked by any amount.
- Manager.NothingStaleAfterWrite: one instance per dictionary; several instances sharing one dictionary sweep at their own times.
- Middleware.DrainProgress: the wait itself is modelled as polls taken at any time; without a timeout the source's loop may poll for ever.
- Argument validation, except where it is an error path of an operation above: positive integers are the type `pos`.
- Numbers in text: what `int()` makes of a text value is part of the value. A text that is no number, stored under a reserved record name, makes the shared-dictionary store raise; the model treats it as no deadline.
- A stored None, which the source cannot tell from a missing key, is not a value of the model.
- Cleanup of counters in the shared-dictionary store (`backends/manager.py:101-120`), which repeats the prefix cleanup modelled for the in-memory store.
- Several processes on one Redis server: key generations are counted per process, and the runs have one process.
- The Redis client, its `get`, `set`, `incr` and `delete`, JSON values, network failures, fail-open and fallback branches, and how Lua formats numbers.
- Headers, JSON answers, file extensions, routing, client addresses, scope resolution, decorators, route limits and lifespan: framework plumbing without state of its own. Handler names and scope identifiers are inputs, address normalisation is an arbitrary partial function.
- Signal registration: a signal is the environment step that begins a shutdown at any moment.
- `reset()` of the coordinator while responses are active: it discards the count on purpose, so it is not a step of the runs.
- Real locks, worker threads and manager processes: each locked body is one step.
