# Turnike's rate limiter, modelled and proved

Turnike is an API gateway. It decides, per route and client key, whether a request may pass, with
one of three algorithms (`fixed_window`, `sliding_window`, `token_bucket`) and one of two backends:
buckets in the gateway's own memory, or Lua scripts over one shared, expiring Redis key. The Redis
backend runs behind a circuit breaker and, under `degrade`, falls back to the memory backend.

The project models these parts and proves what they promise over whole runs:

- **Buckets** (`SlidingWindow`, `TokenBucket`, `FixedWindow`, `Buckets`): the three Go buckets as
  classes whose `Step` is proved against a specification function, and the runs of that function.
  `SlidingExact`, `TokenBounds`, `FixedBounds`, `Remaining`, `RetryAfter` hold the run-level results.
- **Scripts** (`RedisScripts`): the Lua scripts as atomic steps on a key that may expire, under a
  server clock that may step back. `RedisExpiry`, `RedisReset`, `RedisSlidingBounds`,
  `RedisTokenBounds`, `RedisFixedBounds`, and `Parity` and `AnyClock` (both backends agree) hold
  the results.
- **Breaker** (`Breaker`, `BreakerProtocol`, `BreakerRecovery`): `admit` and `record` as atomic
  steps of any number of interleaved callers.
- **Composition** (`MemoryLimiter`, `MemoryProjection`, `MemoryQuota`, `RedisLimiter`,
  `LimiterAnswers`, `Gateway`): the capped map, the script call through the breaker with its
  fallback, and the gateway's outcome switch.
- **Fleet** (`Fleet`, `Quotas`, `FleetBounds`, `FleetQuota`, `FleetAttained`, `FleetCalls`): N
  gateways over one Redis, with failures, lost replies, cancelled calls and expiry, interleaved at
  will.
- **Neighbours** (`Config`, `ConfigGuarantees`, `Paths`, `Routes`, `Identities`): what hands the
  limiter its limit and its key.

In-process times are integer nanoseconds since Go's zero time, script times integer microseconds
since the Unix epoch, token counts exact reals. A limit is fixed over a run of one key.

## Where the code and its text differ

- `internal/limiter/scripts/fixed_window.lua:27-31` says a backward step of TIME keeps the stored
  window. It does while the key lives; once the key has expired, a step back into the finished
  window opens it afresh. The exact condition, for whole runs on any clock, is that no call finds
  its key expired and reads in or before the window the key held
  (`RedisFixedBounds.ExpiryIsInvisibleIff`). `StepBackPastExpiryReopensWindow` is a run that breaks
  it; a clock that does not step back past an expiry meets it (`SteadyClockReopensNothing`). The
  interval bound holds as it stands for runs that meet it (`AtMostPerInterval`), and with 2 * Rate
  more for every reopening call on every clock that never runs fast
  (`AtMostPerIntervalAndReopening`).
- The same comment says the in-memory backend is safe through Go's monotonic clock reading.
  `internal/limiter/fixed_window.go:24-28` truncates the time first, which drops that reading, and
  starts over on any different cell: a wall clock that steps back reopens a cell
  (`FixedBounds.BackwardClockReopensCell`). For whole runs on any clock, it decides as a bucket that
  keeps the newer window if and only if no request falls in a cell before the one stored
  (`KeepsNewerWindowIff`), and a cell admits exactly the requests of each separate visit up to Rate
  (`NewBucketAdmitsRatePerVisit`, `CellKeepsRateIff`).
- `internal/limiter/limiter.go:29-31` calls RetryAfter the time until the next request would
  succeed. For the truncating token bucket above one token per second it can be a fraction of a
  nanosecond short, and for a denial whose clock is behind the last refill
  (`internal/limiter/token_bucket.go:38-43`) short by as much again.
  `RetryAfter.TokenRetryIsExactIff` gives the exact condition for the nanoseconds and
  `HeaderIsEnoughIff` for the header's whole seconds; `TokenRetryCanFallShort` and
  `RetryTooShortWhenClockBehind` are inputs. With the clock not behind, the header is always enough.
- `internal/limiter/breaker.go:46-51` speaks of exactly one probe. Each half-open episode does
  admit exactly one call, but a call left over from before the trip can be taken for the probe's
  verdict, so two calls can be in flight outside closed.
  `BreakerProtocol.OneInFlightIffNoStraggler` says exactly when.
- `README.md:340-355` bounds over-admission under `degrade` by instances times the limit.
  The fallbacks do keep that, on top of what Redis itself admits: N + 1 quotas in all, and that
  total is reached.
- `internal/proxy/gateway.go:92-96` says two routes never share a quota. They can, if one prefix
  extends the other by ":ip" and an address is reported that spells the rest;
  `Identities.RoutesShareAKeyIff` is the exact condition, and ordinary addresses never do it.
- Validation accepts windows under a microsecond, which the Redis backend refuses on every request
  (`ConfigGuarantees.RedisRefusesTheLimitIff`).

## Model

| member | source | states |
|---|---|---|
| SlidingWindow.SlidingWindowBucket.EvictInPlace | internal/limiter/sliding_window.go:28-35 | compacting with index n leaves exactly the entries strictly after the cutoff, in order |
| SlidingWindow.SlidingWindowBucket.Step | internal/limiter/sliding_window.go:19-65 | the in-place step leaves the log and returns the decision of the specification |
| TokenBucket.TokenBucketState.Step | internal/limiter/token_bucket.go:25-73 | the step, computed in seconds as the source does, is the specification in ticks: first use full, clamped refill, no refill on a clock that stands or steps back |
| TokenBucket.SecondsToDuration | internal/limiter/token_bucket.go:75-83 | zero for what is not positive, otherwise the whole nanoseconds of it, cut down by less than one |
| FixedWindow.FixedWindowBucket.Step | internal/limiter/fixed_window.go:19-50 | the counter starts over exactly when the grid cell differs from the stored one |
| Buckets.FreshIsValid | internal/limiter/memory.go:75-88 | a new bucket meets what every step keeps |
| Buckets.StepKeepsValid | internal/limiter/limiter.go:12-39 | every step keeps the count within Rate, the tokens within zero and Burst, the log sorted and no longer than Rate, and nothing stored in the future |
| SlidingExact.QuotaIffSpaced | internal/limiter/sliding_window.go:9-14 | "no interval (t-W, t] holds more than Rate" and "entries Rate apart are a window apart" are one condition on a sorted list |
| SlidingExact.NeverExceedsQuota | internal/limiter/sliding_window.go:9-40 | no interval (t-W, t] of any run holds more than Rate admissions |
| SlidingExact.AdmitsTheMost | internal/limiter/sliding_window.go:37-40 | of all choices of admissions that obey the quota, the log's i-th admission is never later than a rival's i-th |
| SlidingExact.AdmitsTheMostOnEveryPrefix | internal/limiter/sliding_window.go:37-40 | and it has admitted at least as many on every prefix of the arrivals |
| TokenBounds.NeverExceedsBudget | internal/limiter/token_bucket.go:25-57 | on any clock, the admissions of any stretch from a sound state cost at most Burst plus Rate per Window over the rise of the clock's high-water mark |
| TokenBounds.NeverExceedsBudgetAnywhere | internal/limiter/token_bucket.go:25-57 | the same for every stretch of every run of a new bucket |
| TokenBounds.DenialIsForced | internal/limiter/token_bucket.go:35-57 | for every denial there is an earlier request since which one more admission would exceed Burst plus the refill |
| TokenBounds.ZeroClockNeverThrottles | internal/limiter/token_bucket.go:30-34 | the excluded case: with a clock stuck at Go's zero time every request is admitted |
| FixedBounds.AtMostRatePerCell | internal/limiter/fixed_window.go:19-34 | requests in one grid cell: at most Rate admissions, whatever came before |
| FixedBounds.AtMostPerInterval | internal/limiter/fixed_window.go:9-13 | any stretch shorter than L admits at most (ceil(L / W) + 1) * Rate |
| FixedBounds.TwiceRateIsAttained | internal/limiter/fixed_window.go:9-13 | 2 * Rate within one window length is reached, for every rate and every window of two nanoseconds or more |
| FixedBounds.ExhaustedAdmitsIffCellDiffers | internal/limiter/fixed_window.go:24-34 | an exhausted bucket admits exactly when the request's cell is a different one, earlier or later |
| FixedBounds.KeepsNewerWindowIff | internal/limiter/fixed_window.go:24-34 | for any state and any clock, the run's decisions are those of a bucket that keeps the newer window if and only if no request falls in a cell before the one stored before it |
| FixedBounds.AdmitsRatePerVisit | internal/limiter/fixed_window.go:24-34 | on any clock a cell admits exactly the requests of each visit up to Rate, and of the first visit up to what was left there |
| FixedBounds.NewBucketAdmitsRatePerVisit | internal/limiter/fixed_window.go:24-34 | the same from a new bucket, read off the arrival times alone |
| FixedBounds.CellKeepsRateIff | internal/limiter/fixed_window.go:24-34 | a cell keeps its Rate over a run if and only if its visits' requests, up to Rate each, sum to no more; one visit always does |
| FixedBounds.AtMostRatePerVisit | internal/limiter/fixed_window.go:24-34 | on any clock a cell admits at most Rate for every separate visit the clock makes to it |
| FixedBounds.RatePerVisitIsAttained | internal/limiter/fixed_window.go:24-34 | for every limit and every number of visits a run reaches that |
| FixedBounds.BackwardClockReopensCell | internal/limiter/fixed_window.go:25-28 | so with one step back of the clock a cell admits twice its quota |
| Buckets.SettleTwice | internal/limiter/sliding_window.go:28-35 | passing time twice is passing it once: eviction is idempotent, a split refill is one refill under the clamp, cells do not return |
| Buckets.DeniedLeaveNoTrace | internal/limiter/token_bucket.go:29-57 | dropping any set of denied requests from any run changes no remaining decision, for all three buckets |
| Buckets.ResetIsCleanSlate | internal/limiter/limiter.go:22-28 | from Reset on (one nanosecond later for the truncating token bucket) bucket and new bucket decide alike on every future sequence |
| Buckets.ResetIsNotLate | internal/limiter/limiter.go:22-28 | at no instant before Reset is the slate clean, for all three buckets |
| Buckets.TokenFullAtResetIff | internal/limiter/token_bucket.go:67-82 | at Reset itself the bucket is full exactly when the time to full is a whole number of nanoseconds |
| Remaining.RemainingIsExact | internal/limiter/limiter.go:16-21 | of any number of further requests at the same instant exactly Remaining are admitted, and one more when a fraction of a token passes for a whole one; Remaining is within the reported Limit |
| RetryAfter.WindowRetryIsExact | internal/limiter/sliding_window.go:59-63 | after a denial, with no request between, an instant is admitted if and only if RetryAfter has passed |
| RetryAfter.TokenRetryIsEnough | internal/limiter/token_bucket.go:67-83 | waiting the header's whole seconds from the last refill is enough, through truncation, epsilon and ceiling |
| RetryAfter.TokenAdmitsIff | internal/limiter/token_bucket.go:35-57 | after any denial, clock behind or not, an instant is admitted if and only if the time since the last refill has earned what was short of the threshold |
| RetryAfter.TokenRetryIsExactIff | internal/limiter/limiter.go:29-31 | RetryAfter itself is enough if and only if what it cuts off, and how far the clock was behind the last refill, would have earned no more than the slack of the admit threshold |
| RetryAfter.HeaderIsEnoughIff | internal/proxy/gateway.go:189-200 | the header's seconds are enough if and only if they, less how far the clock was behind, earn what was short |
| RetryAfter.TokenRetryIsExactWhenSlow | internal/limiter/token_bucket.go:69-71 | up to one token per second it always is |
| RetryAfter.TokenRetryCanFallShort | internal/limiter/token_bucket.go:69-83 | at seven tokens per second the request at the advised nanosecond is denied |
| RetryAfter.RetryIsEnough | internal/proxy/gateway.go:189-200 | a lone client that waits the header's seconds after a denial is admitted, for all three buckets |
| RetryAfter.RetryTooShortWhenClockBehind | internal/limiter/token_bucket.go:38-43 | measured from a denial whose clock is behind the last refill, the advice can be too short |
| Gateway.Serve | internal/proxy/gateway.go:108-139 | proxied exactly on an allowed decision or an error without fail_closed; a denial is a 429 with the least seconds that cover its RetryAfter; the rest is a 503 with the breaker's cooldown |
| Gateway.UnavailableRetryReachesProbe | internal/proxy/gateway.go:175-187 | a lone client that waits the 503's seconds is let through by the breaker as its probe |
| RetryAfter.WindowScriptRetryIsExact | internal/limiter/scripts/sliding_window.lua:36-48 | for both window scripts, with no call between and the key kept, a reading is admitted if and only if retry_after has passed |
| RetryAfter.ScriptRetryIsEnough | internal/limiter/scripts/token_bucket.lua:59-62 | waiting a script's retry_after_us is enough, for all three scripts |
| Gateway.HeaderSeconds | internal/proxy/gateway.go:189-200 | the least whole number of seconds, and at least one, that covers the wait |
| RedisScripts.RedisKey.Handle | internal/limiter/scripts/fixed_window.lua:7-10 | each event of a run, a script call or a chance to expire at a reading of TIME, moves the key and replies as the run's transitions say |
| RedisScripts.RedisKey.EvalFixedWindow | internal/limiter/scripts/fixed_window.lua:16-54 | the script's step and reply on the stored hash are the specification's |
| RedisScripts.RedisKey.EvalTokenBucket | internal/limiter/scripts/token_bucket.lua:10-62 | the script's step and reply, with the write on deny and the time-to-full TTL, are the specification's |
| RedisScripts.RedisKey.EvalSlidingWindow | internal/limiter/scripts/sliding_window.lua:14-49 | the script's trim, add, TTL and reply are the specification's |
| RedisScripts.RedisKey.Reclaim | internal/limiter/scripts/sliding_window.lua:31-31 | a key goes only when the millisecond clock is past its deadline |
| RedisExpiry.CallKeepsReachable | internal/limiter/scripts/token_bucket.lua:49-57 | after every call, every millisecond past the deadline is late enough for the value to make no difference |
| RedisExpiry.InertIsMissing | internal/limiter/scripts/token_bucket.lua:49-53 | a script cannot tell a full bucket, a finished window or a drained log from an absent key |
| RedisExpiry.CallLeavesKeyAlive | internal/limiter/scripts/fixed_window.lua:42-47 | no script writes a deadline that is already due |
| RedisExpiry.DeadlineIsTight | internal/limiter/scripts/sliding_window.lua:19-31 | a written deadline is the first millisecond at or past the window's end, the time to full, or a window from the call |
| RedisExpiry.ExpiryIsInvisible | internal/limiter/scripts/sliding_window.lua:23-31 | on a clock that does not step back, a run whose key may vanish at any moment after its TTL gives the replies of a run whose keys live forever, for all three scripts |
| RedisExpiry.VanishingAtTheDeadlineWouldShow | internal/limiter/scripts/fixed_window.lua:42-44 | the slack is needed: a key gone in its deadline's own millisecond would be noticed |
| RedisReset.ResetIsCleanSlate | internal/limiter/scripts/token_bucket.lua:54-62 | from the replied reset on, a call gets the reply a new key would give, for all three scripts, exactly |
| RedisSlidingBounds.SlidingNeverExceedsQuota | internal/limiter/scripts/sliding_window.lua:11-31 | if TIME only ever steps back relative to true time, less than a window of true time admits at most Rate, with expiry on the way |
| RedisSlidingBounds.RepliesReadTheEnds | internal/limiter/scripts/sliding_window.lua:25-49 | on any clock reset is a window past the newest entry counted, a denial's retry runs to a window past the oldest, and remaining is what the entries leave of Rate |
| RedisSlidingBounds.InflatedByAtMostTheStep | internal/limiter/scripts/sliding_window.lua:11-13 | after any run on any clock, reset is no further ahead than a window and retry no longer than one, plus how far TIME is behind its highest reading |
| RedisSlidingBounds.CountedIffFresh | internal/limiter/scripts/sliding_window.lua:5-8 | an admitted call is counted if and only if its entry was not in the zset already |
| RedisTokenBounds.NeverExceedsBudget | internal/limiter/scripts/token_bucket.lua:25-57 | under the same clock any stretch costs at most Burst plus the refill over its true time, with expiry on the way |
| RedisFixedBounds.AtMostPerInterval | internal/limiter/scripts/fixed_window.lua:22-47 | if no call reopens an expired window and TIME never runs fast, d of true time admits at most (d / W + 2) * Rate |
| RedisFixedBounds.AtMostPerIntervalAndReopening | internal/limiter/scripts/fixed_window.lua:22-47 | on every clock that never runs fast, d of true time admits at most (d / W + 2) * Rate and 2 * Rate more for every call that reopens an expired window |
| RedisFixedBounds.LiveKeyKeepsNewerWindow | internal/limiter/scripts/fixed_window.lua:26-35 | while its key lives the script decides and counts as a bucket that keeps the newer window |
| RedisFixedBounds.ExpiryIsInvisibleIff | internal/limiter/scripts/fixed_window.lua:22-47 | on any clock, a run gets the replies of a key that never expires if and only if no call finds its key expired while reading in or before the window it held |
| RedisFixedBounds.KeptWindowAnswersIff | internal/limiter/scripts/fixed_window.lua:26-31 | for any used window, a call reading in or before it gets the stored window's reply after a chance to expire if and only if the key was not due, and when due TIME had passed the window's end |
| RedisFixedBounds.FullWindowReopensIffExpired | internal/limiter/scripts/fixed_window.lua:24-35 | in any run whose calls read in or before a full window, something is admitted if and only if the key expires before one of the calls |
| RedisFixedBounds.SteadyClockReopensNothing | internal/limiter/scripts/fixed_window.lua:26-31 | a TIME that does not step back past an expiry meets the condition of the two results above |
| RedisFixedBounds.StepBackPastExpiryReopensWindow | internal/limiter/scripts/fixed_window.lua:27-31 | a run of three admissions within 1003 microseconds against a quota of one per 10 ms |
| Parity.TrimAndAdd | internal/limiter/scripts/sliding_window.lua:23-30 | on sorted entries, trimming and adding in the zset is evicting and appending in the log |
| Parity.StepMirrors | internal/limiter/scripts/token_bucket.lua:17-62 | one call on matching states gives matching replies and states, for all three algorithms |
| Parity.BackendsAgree | internal/limiter/redis_integration_test.go:3-5 | on a clock that does not step back, with expiry at any moment: equal verdict and remaining on every call, equal reset and retry for the windows, at most a microsecond later for token_bucket |
| AnyClock.TokenCallAgrees | internal/limiter/scripts/token_bucket.lua:25-62 | at any reading, behind the last refill or not, one call on matching states gives matching replies and states |
| AnyClock.SlidingCallAgrees | internal/limiter/scripts/sliding_window.lua:23-35 | at any reading, zset and log with the same accept times in any order give the same verdict and remaining, and again the same times |
| AnyClock.BackendsAgreeOnAnyClock | internal/limiter/redis_integration_test.go:3-5 | on any clock, with no expiry between the calls, every verdict and remaining of a script run is the in-process bucket's at the same readings, and for token_bucket the instants within a microsecond; fixed_window as long as no reading falls before the stored cell |
| Parity.FixedWindowAgreesIffSameGrid | internal/limiter/redis_integration_test.go:9-11 | fixed_window agrees on every call of every run if and only if the window divides the offset between Go's zero time and the epoch |
| Parity.CommonWindowsShareTheGrid | internal/limiter/redis_integration_test.go:9-11 | a second, a minute and an hour do |
| Breaker.CircuitBreaker.TryEnter | internal/limiter/breaker.go:92-109 | open refuses until the cooldown has passed and then goes half-open, half-open refuses, closed admits |
| Breaker.CircuitBreaker.Report | internal/limiter/breaker.go:119-162 | the state after a verdict: fifth failure trips, probe's verdict closes, reopens or is ignored, stale verdicts change nothing while open |
| BreakerProtocol.TripsIffFiveInARow | internal/limiter/breaker.go:123-140 | the circuit opens exactly when five failures come in a row, cancelled calls not counting either way, and at the time of the fifth; until then the counter is the current streak |
| BreakerProtocol.ClosedStretchTripsIffFiveInARow | internal/limiter/breaker.go:119-146 | the same among interleaved callers, from the start or from any successful probe, whoever is admitted meanwhile |
| BreakerProtocol.NeverWedges | internal/limiter/breaker.go:96-108 | in every reachable interleaving half-open implies its probe is unrecorded, and with all calls returned the circuit is not half-open and admits after its cooldown |
| BreakerProtocol.InFlightOutsideClosed | internal/limiter/breaker.go:141-161 | outside closed the calls in flight exceed those left over from the trip by at most one |
| BreakerProtocol.OneCallPerEpisode | internal/limiter/breaker.go:100-105 | outside closed the calls let through are exactly the half-open episodes |
| BreakerProtocol.OneInFlightIffNoStraggler | internal/limiter/breaker.go:141-161 | "at most one call in flight while tripped" holds from a trip if and only if no call was left over at the trip |
| BreakerProtocol.StragglersAreReachable | internal/limiter/breaker.go:158-161 | such a trip can happen |
| BreakerProtocol.OutageCost | internal/limiter/breaker.go:46-51 | once tripped, while every call fails, a span costs at most span / cooldown + 1 calls under every interleaving and every stale verdict |
| BreakerProtocol.CancelledProbeReprobesAtOnce | internal/limiter/breaker.go:147-152 | a cancelled probe lets the next caller through without a new cooldown |
| BreakerProtocol.TripCost | internal/limiter/breaker.go:129-139 | from a fresh breaker C callers whose calls all fail cost at most C + 4 calls before it opens for good |
| BreakerRecovery.ServesFromTheStart | internal/limiter/breaker.go:106-130 | from the start everyone is served, in every interleaving, until five failures come in a row |
| BreakerRecovery.SuccessRestoresService | internal/limiter/breaker.go:141-146 | in every reachable half-open state a recorded success restores service for every caller at every instant, until five failures come in a row |
| BreakerRecovery.ProbeRestoresService | internal/limiter/breaker.go:96-102 | from every reachable open state, one probe after the cooldown that succeeds restores it |
| BreakerRecovery.OtherVerdictsWait | internal/limiter/breaker.go:147-157 | a failed probe serves again exactly from a cooldown after its verdict, a cancelled one exactly from when it was due before |
| BreakerRecovery.StaleVerdictsChangeNothing | internal/limiter/breaker.go:158-161 | while open, whatever verdicts arrive, nobody is let through and everyone waits for the same instant |
| BreakerRecovery.HalfOpenServesNobody | internal/limiter/breaker.go:103-105 | while half-open nobody else is let through, ever |
| MemoryLimiter.NewBucket | internal/limiter/memory.go:75-88 | an empty bucket of the named algorithm, none for an unknown name |
| MemoryLimiter.Limiter.Allow | internal/limiter/memory.go:48-73 | tracked keys step their own bucket and no other, new keys get one while there is room, refusals change nothing; no two keys share a bucket object |
| MemoryProjection.StateKeyInjective | internal/limiter/memory.go:50-55 | algorithm and key are recovered from the joined key |
| MemoryProjection.ProjectsOntoBucket | internal/limiter/memory.go:60-72 | in any mixed run a tracked key is never lost and is answered as one standalone bucket fed only its requests |
| MemoryProjection.BelowCapacityEveryKeyStandsAlone | internal/limiter/memory.go:60-72 | with room for all keys that occur, that holds from every key's first request on |
| MemoryProjection.NeverExceedsCapacity | internal/limiter/memory.go:31-36 | the map never outgrows the cap |
| MemoryProjection.AloneIsRun | internal/limiter/memory.go:72-72 | under one limit throughout, a standalone bucket's answers are its run |
| MemoryQuota.KeyKeepsQuota | internal/limiter/memory.go:48-73 | in any mixed run with room, every stretch of one key's requests admits within that key's quota |
| MemoryQuota.ConfiguredKeysKeepQuota | internal/limiter/memory.go:48-73 | so with an accepted configuration every client of every route keeps the limit it is given |
| RedisLimiter.RedisLimiter.Do | internal/limiter/redis.go:165-171 | the call's verdict reaches the breaker unless the circuit refused it, which is never recorded |
| RedisLimiter.RedisLimiter.Allow | internal/limiter/redis.go:149-200 | unknown algorithm and short window fail before the breaker; an answer is decoded; a failure or open circuit goes to the fallback, a hang-up does not |
| RedisLimiter.DecisionsOffTheWireAgree | internal/limiter/redis.go:202-216 | the decisions read off the wire are, in every field, those of an in-process bucket at the same times; for token_bucket reset and retry are at most a microsecond later |
| LimiterAnswers.AnswerKinds | internal/limiter/redis.go:150-200 | each error by exactly the conditions that lead to it; degraded exactly when Redis gave no answer and the fallback decided; the fallback is touched in no other case |
| LimiterAnswers.DegradedAnswerIsOwnBuckets | internal/limiter/redis.go:179-193 | a call without an answer under degrade gets, marked degraded and otherwise in every field, the decision of a bucket of its own that saw the gateway's earlier fallback requests for the key, and is one more of those |
| LimiterAnswers.DegradedRetryIsEnough | internal/limiter/redis.go:179-193 | a lone client that waits the header's seconds of a degraded denial is admitted by the same fallback |
| LimiterAnswers.RepliedAnswerConveys | internal/limiter/redis.go:196-216 | when Redis replies, the answer conveys the decision of an in-process bucket at the same time and the fallback is left alone |
| FleetCalls.CallIsOneAllow | internal/limiter/redis.go:166-199 | a call's separate steps in the fleet, run without interference, leave the breaker, fallback bucket and outcome of one limiter call handed to the outcome switch, whatever the network does and however full the fallback is |
| FleetQuota.StepKeeps | internal/limiter/redis.go:166-199 | in every interleaving each verdict a call carries is on record for that call where it was given, and key and fallback buckets are what their histories make of them |
| Quotas.ScriptKeepsQuota | internal/limiter/scripts/sliding_window.lua:11-13 | every stretch of every run of any script keeps its limit's quota over true time, for stretches of any length; a fixed_window key may add 2 * Rate for every call that reopens an expired window |
| Quotas.BucketKeepsQuota | internal/limiter/limiter.go:12-39 | every stretch of every run of any bucket keeps the same quota |
| FleetQuota.DecidedOnce | internal/limiter/redis.go:166-199 | a decided call stays as it was decided through everything that follows, its own late script included |
| FleetQuota.RunsAtMostOnce | internal/limiter/redis.go:166-171 | no call runs its script twice |
| FleetQuota.FleetKeepsQuota | README.md:347-357 | between any two instants, whatever fails: Redis' verdicts pass at most the quota, each fallback at most the quota, all together at most N + 1 quotas; to Redis' share comes 2 * Rate for every reopening of a fixed_window key, which is nothing exactly when there is none |
| FleetAttained.BoundIsAttained | README.md:347-357 | for every limit and every N a fair run lets N + 1 whole quotas through within one instant, or two neighbouring ones for fixed_window |
| FleetQuota.DegradeProxiesOnlyVerdicts | internal/limiter/redis.go:172-193 | under degrade every proxied call was counted by Redis or by its own gateway's fallback, unless its caller hung up or that fallback had no room |
| FleetQuota.FailClosedNeverExceedsRedis | internal/proxy/gateway.go:108-128 | under fail_closed each proxied call has an allowed Redis verdict of its own, so the fleet stays within the one shared quota and its extra |
| Config.Config.ApplyDefaults | internal/config/config.go:220-246 | every unset field gets its default, every route's limit its own, and nothing else changes |
| Config.Config.Validate | internal/config/config.go:248-300 | no error exactly when settings and routes are in order and prefixes are unique up to trailing slashes; otherwise the error names the first thing wrong, down to the timeout |
| Config.ValidateRoute | internal/config/config.go:302-327 | no error exactly when prefix, upstream, limit and every override's effective limit are in order; otherwise one that explains it |
| Config.Config.Prepare | internal/config/config.go:180-186 | defaults, then validation of the defaulted configuration |
| ConfigGuarantees.AcceptedIff | internal/config/config.go:248-353 | acceptance, field by field: timeouts, backend and its address, policy, routes, prefixes and their uniqueness, upstreams, override keys, and a good limit for every key |
| ConfigGuarantees.SettingsFaults | internal/config/config.go:265-285 | which fault of the settings is reported, by its exact condition |
| ConfigGuarantees.RouteFaults | internal/config/config.go:302-316 | which fault of a route is reported, by its exact condition |
| ConfigGuarantees.OverrideFaults | internal/config/config.go:317-325 | an override's fault is an empty key or the fault of the limit its key would get |
| ConfigGuarantees.LimitFaults | internal/config/config.go:329-353 | which fault of a limit is reported, by its exact condition |
| ConfigGuarantees.DefaultsAre | internal/config/config.go:220-246 | the value every setting takes when it is not given, and that no given one changes |
| ConfigGuarantees.DefaultsAreAccepted | internal/config/config.go:180-186 | a configuration of nothing but one good route is accepted |
| ConfigGuarantees.LimitPassesIff | internal/config/config.go:329-353 | a limit passes exactly when rate and window are positive, the algorithm known, and burst positive for token_bucket and zero otherwise |
| ConfigGuarantees.RoutePassesIff | internal/config/config.go:317-325 | a route passes exactly when every key, overridden or not, gets such a limit and no override is for the empty key |
| ConfigGuarantees.AcceptedLimitsAreGood | internal/config/config.go:190-211 | in an accepted configuration every key of every route has such a limit |
| ConfigGuarantees.EffectiveLimit | internal/config/config.go:190-218 | for every key, field by field: the route's limit, the override's fields where set and the route's elsewhere, or the override alone when it switches the algorithm; an unset token_bucket window is one second |
| ConfigGuarantees.OverridesMerge | internal/config/config.go:190-211 | an override of zeros changes nothing, a complete one replaces the limit, one that switches the algorithm takes nothing from the route's limit |
| ConfigGuarantees.DefaultsCommuteWithMerging | internal/config/config.go:190-218 | filling in defaults before merging an override changes no key's limit |
| ConfigGuarantees.FirstRequestIsAdmitted | internal/limiter/token_bucket.go:30-34 | with such a limit the first request of a key is admitted, by a new bucket and by a script |
| ConfigGuarantees.MemoryRefusesOnlyAtCapacity | internal/limiter/memory.go:60-72 | with such a limit the memory backend refuses exactly a new key when there is no room, and then changes nothing |
| ConfigGuarantees.MemoryRefusals | internal/limiter/memory.go:60-71 | at capacity exactly for a new key without room, unknown algorithm exactly for a new key with room; no refusal changes anything |
| ConfigGuarantees.RedisRefusesTheLimitIff | internal/limiter/redis.go:151-161 | with such a limit the Redis backend refuses it exactly when the window is under a microsecond |
| Paths.SegmentPrefixIff | internal/proxy/table.go:45-50 | "equal, or continued after a slash" is being a prefix by whole segments, for all strings |
| Paths.CleaningOnlyDropsEmptySegments | internal/proxy/table.go:37-44 | a path without dot segments is cleaned of empty segments and of nothing else |
| Paths.HereMeansNothing | internal/proxy/table.go:37-44 | an empty segment or "." anywhere in a rooted path does not change what it is cleaned to |
| Paths.UpCancels | internal/proxy/table.go:37-44 | a segment and ".." after it cancel, anywhere in a rooted path |
| Paths.UpStopsAtRoot | internal/proxy/table.go:37-44 | ".." at the root means nothing |
| Paths.CleanPathsStay | internal/proxy/table.go:37-44 | a path with nothing to clean is matched as it came |
| Paths.EscapesDecode | internal/proxy/gateway.go:81-90 | every byte's percent-escape, with digits of either case, decodes to that byte |
| Paths.OnlyEscapesDecode | internal/proxy/gateway.go:81-90 | a percent sign that no two hexadecimal digits follow does not decode |
| Paths.NoDotsDecodedMeansNoneEncoded | internal/proxy/gateway.go:81-90 | if the decoded path has no dot segments, the escaped path has none |
| Paths.EncodedDotsHide | internal/proxy/gateway.go:81-85 | not the other way round: percent-encoded dots show only after decoding |
| Routes.SortStable | internal/proxy/table.go:31-34 | the array is left as the specification's stable order, longest prefix first |
| Routes.SortedIsOrderedPermutation | internal/proxy/table.go:31-34 | that order is by falling length and loses no entry |
| Routes.SortingIsStable | internal/proxy/table.go:31-34 | entries of one length keep their configured order |
| Routes.Table.constructor | internal/proxy/table.go:26-36 | the table holds every route, compiled and sorted |
| Routes.Table.Match | internal/proxy/table.go:43-53 | the first entry, in table order, that matches the cleaned path |
| Routes.MatchIsLongestSegmentPrefix | internal/proxy/table.go:26-53 | for any configured order the answer is the route whose segments are the longest prefix of the cleaned path's segments, and none only if no route covers it |
| Routes.CoversIff | internal/config/config.go:102-111 | a route covers exactly the paths that continue its configured prefix by whole segments, trailing slashes aside |
| Routes.OrderDoesNotMatter | internal/config/config.go:102-111 | reordering the routes changes no answer |
| Routes.RoutedIff | internal/proxy/gateway.go:80-94 | with validated routes a request is routed exactly when its decoded path has no dot segments and some route covers the segments its path names |
| Routes.RouteIsDeepestForForwardedPath | internal/proxy/gateway.go:80-94 | with validated routes, the route chosen is the deepest one for the very segments of the forwarded path: none has been resolved away |
| Identities.ClientsDoNotCollide | internal/proxy/identity.go:41-52 | the limiter key determines the identity within a route |
| Identities.ClientsShareAKeyIff | internal/proxy/identity.go:27-52 | on one route two clients share a limiter key only by presenting API keys of equal digest, whatever the digest |
| Identities.RoutesShareAKeyIff | internal/proxy/gateway.go:96-106 | two routes can share a limiter key exactly when one prefix extends the other by ":ip" |
| Identities.OrdinaryClientsNeverCollide | internal/proxy/gateway.go:96-106 | for fingerprints and addresses in digits, dots and colons, the key determines route and client |

## Left out

- Reverse proxying, HTTP servers, middleware, logging, health endpoints, the demo page, metrics, the breaker gauge and the backend gauge.
- The go-redis client, script caching, timeouts and sockets: a call ran and was answered, ran and lost its answer, did not run, or was cancelled.
- YAML decoding, URL parsing and SHA-256: parsed values and the digest function are inputs.
- Floating-point rounding in Go and Lua, and number formatting in Lua: token counts are exact reals, so the results speak of the algorithm.
- Overflow: durations and counters are unbounded, and script integers are taken to stay where a double is exact.
- Loss of Redis state other than by expiry, configuration changes during a run, and a panic inside the breaker's callback, after which no verdict is recorded.
- Locks: each method under a mutex is one atomic step of the interleaved models.
- FleetQuota.FleetKeepsQuota: follows one key, a window of whole microseconds, TIME that never runs fast, distinct nonces, and gateway clocks that neither step back nor run fast; the reopenings are those of the whole run.
- FleetQuota.DegradeProxiesOnlyVerdicts: calls whose caller hung up, and new keys at a full fallback, are proxied uncounted by the outcome switch.
- FleetAttained.BoundIsAttained: fixed_window windows of a single microsecond are left out; a token_bucket passes Burst whole requests a source, which its bound exceeds by the slack of the admit threshold.
- RedisFixedBounds.AtMostPerInterval: its condition is exact for the replies, by RedisFixedBounds.ExpiryIsInvisibleIff, and sufficient for the bound; without it the bound of AtMostPerIntervalAndReopening holds.
- TokenBounds.NeverExceedsBudget: no clock reading is Go's zero time, which the source takes for an unused bucket.
- SlidingWindow.SlidingWindowBucket.Step: the slice is a sequence field, so capacity and aliasing of its backing array are not modelled.
- Config.ValidateOverrides: the source reports the first bad override in map order, which is not fixed; any one of them may be named.
- Routes.SortStable: the library's stable sort is modelled by insertion; path cleaning and percent-decoding, also library functions, are modelled from their documented rules.
