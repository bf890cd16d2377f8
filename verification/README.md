# Verification of redis-cell

redis-cell is a Redis module with one command, `CL.THROTTLE`, that limits the rate of actions on a
key by the generic cell rate algorithm (GCRA). This project models the limiter in Dafny, from the
decision kernel through the retry loop and the two stores to the command's reply, and proves what
the limiter keeps over whole runs, under contention and over keys that expire.

Times and durations are integer nanoseconds. T is the emission interval, `limit` is
`max_burst + 1`, tau is T times `limit` (the delay variation tolerance), and a request for a
quantity q is charged T times q (`inc`). A stored time is called TAT (theoretical arrival time).

| module | what it holds |
|---|---|
| `Prelude`, `Float` | options and errors, 64-bit wrap-around, the facts about doubles that are used |
| `Rate`, `Gcra`, `Codec` | the interval of a rate; the kernel (`Judge`, `After`, `Finish`); times as `u64` and decimal text |
| `Trace`, `Equivalence` | runs over a key that never expires: closed form, exact admission, peeking |
| `Bucket`, `Optimality`, `Reconfiguration` | token bucket and ITU-T I.371; no choice beats the limiter; limits that change per call |
| `Advice` | `retry_after`, `reset_after`, `remaining` and the whole seconds of the reply |
| `Loop`, `Stores`, `Limiter` | a call between accesses; both stores in place; the retry loop in place and what it computes |
| `Protocol`, `Contention`, `Correspondence` | any interleaving of calls; rivals, termination, rate bound; the protocol's write is the stores' |
| `SevenCalls` | a schedule of seven calls under which one gives up |
| `Expiry`, `Drift` | runs over a key that can vanish; exactly when it vanishes too early for the rate bound |
| `RedisRun`, `RedisKeys` | whole runs of calls in Redis; what each operation does to the key |
| `Replies`, `Command`, `Response` | the limiter's reply field by field; the command; its reply element by element |
| `Numerals` | which texts are numbers, told without parsing |
| `TestTable` | the table of cases in the limiter's own tests, reproduced from an arbitrary start |

How the parts are modelled:

- The limiter and the stores are classes whose methods work in place and are proved against
  functions (`Throttle`, `Attempt`, `RedisCas`, ...); what the limiter promises is proved of those
  functions. `rate_limit` is five methods, `RateLimit`, `Contend` (the loop), `Pass` (its body),
  `Land` (the conditional write) and `Report` (the reply), so that each proof stays small.
- The clock and the other limiters are parameters: a `Moment` gives, for one attempt, what rivals
  write before and after the read and what the clock shows at the read and at the update. A command
  in Redis runs alone (src/cell/mod.rs:130-132), so there rivals' writes have no effect, but the key
  may expire between read and update.
- `i64` and `u64` arithmetic wraps as in a release build (`WrapI64`, `WrapU64`).
- A double is a `Rounding`: any function on the reals that is monotone, exact on the integers up to
  2^53 and within relative error 2^-53 on normal numbers. All three hold of IEEE 754 rounding.
- A Redis key is its text and the instant from which it is gone. Runs over an expiring key allow it
  to be found vanished at any time from that instant on, or not at all.

Where the code and its documentation differ, the code is followed:

- src/cell/mod.rs:94-96 says a quantity of 0 performs no update. It does: it writes the later of now
  and the stored time, even creating the key (`PeekWritesIff`, `PeekCreatesKey`). No later answer
  to a request within the limit can show it (`PeekIsInvisible`).
- src/lib.rs:66-68 says a time with a partial component is raised to the next second so that no
  caller tries again too early. Only a component of at least a millisecond is
  (`ReportedSecondsSuffice` gives the exact condition, `ReportedSecondTooEarly` an instance).
- README.md:118-119 gives -1 for an allowed action. A request above the limit gets -1 too, and a
  wait below a millisecond is reported as 0 (`RetryField`).
- The error at src/cell/mod.rs:219-223 speaks of 5 attempts; there are six (`ContentionErrorIff`).
- `remaining` counts stale time as credit when a request above the limit meets a key whose time is
  past (`RemainingOnStaleBlock`), can be -1 (`RemainingOverdrawn`), and is the largest `i64` for
  intervals below a microsecond (`RemainingSaturates`).
- Over Redis the rate bound of the algorithm can be exceeded, because a time to live cut to
  milliseconds lets the key vanish early (`DriftHappens`). It can be exceeded at some point of a run
  if and only if some write cut off more of its time to live than it came after the clock reading it
  was computed from (`DriftPossibleIff`, for calls in Redis `DriftInRedisIff`); by how much at most
  is `ExpiryDrift` and `RateBoundInRedis`.
- For waits beyond 104 days the double in `as_seconds_f64` can round up to a second that was not
  there, and the reported wait is then a second too long (`LongWaitOverstated`, `UpToSecondRounds`);
  below 104 days this cannot happen (`AsSecondsExact`).

## Model

| member | source | states |
|---|---|---|
| `Protocol.Linearisable` | src/cell/mod.rs:133-225 | in every interleaving of any number of calls, the completed ones, admitted and limited, form one sequential run that ends in what the key holds and gives each its answer; each figures exactly once, failed and unfinished calls not at all |
| `Protocol.RealTimeOrder` | src/cell/mod.rs:133-225 | and that run keeps the order of real time: a call answered by some point of the schedule comes before every call not yet answered, let alone begun, then |
| `Protocol.StoresAgree` | src/cell/store.rs:109-151 | the permissive compare-and-swap of the memory store and the strict one of Redis lead every schedule of calls to the same system |
| `Protocol.ExecKeepsInvariant` | src/cell/mod.rs:200-224 | the invariant of every turn: what each phase of a call knows of the key and of the updates landed since it read |
| `Contention.FailedUpdateHasRivals` | src/cell/mod.rs:200-217 | an update fails if and only if the value it was computed from was replaced, and then by distinct rival calls that landed since the read |
| `Contention.SixRivals` | src/cell/mod.rs:217-224 | a call ends in error only after at least six updates by six distinct other calls since its first read; at least seven calls are then about |
| `Contention.SixCallsNeverFail` | src/cell/mod.rs:9 | among six calls or fewer none ends in error, whatever the schedule |
| `SevenCalls.SevenCallsCanFail` | src/cell/mod.rs:217-224 | six is sharp: over either store, seven calls of a regular limiter and a schedule under which one ends in error |
| `Contention.DoneInTwelveTurns` | src/cell/mod.rs:134-224 | a call is over after twelve accesses of its own, whatever the others do |
| `Contention.HistoryIsTrace` | src/cell/mod.rs:191-210 | under a clock in range the encoded values change nothing: the completions are a run of the kernel and the updates its admitted requests |
| `Contention.WindowBoundUnderContention` | src/cell/mod.rs:139-215 | in every interleaving, what consecutive updates were charged is at most tau plus the time between their clock readings, in order or not |
| `Contention.ClosedFormUnderContention` | src/cell/mod.rs:139-215 | and what the key holds is the closed form over the updates that landed |
| `Correspondence.MemoryWrites` | src/cell/store.rs:109-151 | the protocol's conditional write is the memory store's: answer, cell, and no other key touched |
| `Correspondence.RedisWrites` | src/cell/store.rs:170-233 | and that of the Redis store while the key lasts, its resetting of the expiry notwithstanding |
| `Correspondence.PassIsTwoTurns` | src/cell/mod.rs:134-224 | one pass of the retry loop over a memory store with rivals is a read turn and a write turn of the protocol: same outcome, same cell |
| `Expiry.LossBound` | src/cell/mod.rs:166-215 | over a key that may vanish at any time for any reason, every window of admitted requests fits tau plus its length plus the time by which the vanishings in it came too early |
| `Expiry.ExpiryDrift` | src/redis/mod.rs:346-347 | over a key that vanishes no earlier than its deadline, that is at most 1 ms for each time the key was found vanished too early in the window |
| `Drift.DeadlineShortIff` | src/redis/mod.rs:346-347 | the deadline comes before the time stored if and only if the part of the time to live below a millisecond exceeds the time from the reading of the clock to the write |
| `Drift.PlainBound` | src/cell/mod.rs:166-215 | while the key outlives the time it stands for every window fits tau plus its length, with no allowance |
| `Drift.NextBreaksIff` | src/redis/mod.rs:346-347 | up to the first early expiry, a next arrival can exceed that bound if and only if the key's deadline and the last write come before the time it stands for |
| `Drift.UncutBound` | src/redis/mod.rs:346-347 | with no write cut short by more than it came late, every window of the run fits |
| `Drift.DriftPossibleIff` | src/redis/mod.rs:346-347 | over every run: at some point of it a next request could exceed the bound if and only if some write was cut short by more than it came late |
| `Drift.DriftHappens` | src/redis/mod.rs:346-347 | an instance: a regular limiter, one write and a request half a millisecond early |
| `Expiry.ExactExpiryIsInvisible` | src/cell/mod.rs:141-192 | were keys to vanish only once their time has come, decisions, `retry_after` and values written would be those of the store that never expires |
| `RedisRun.CallIsArrival` | src/cell/store.rs:170-233 | one call in Redis, with its text, expiry and possible second attempt, is one step of the run over an expiring key |
| `RedisRun.SucceedsIffAdmitted` | src/cell/mod.rs:130-225 | in any run of calls in Redis a call is let through exactly when that run admits it |
| `RedisRun.RateBoundInRedis` | src/cell/mod.rs:130-225 | the bound the module keeps in service, over any run of its calls on one key |
| `RedisRun.UncutRateBoundInRedis` | src/cell/mod.rs:130-225 | with no allowance, over any run in which no write was cut short by more than it came late |
| `RedisRun.DriftInRedisIff` | src/redis/mod.rs:346-347 | and exactly otherwise there is a point of the run at which a further call would be let through beyond the bound |
| `Optimality.GreedyIsOptimal` | src/cell/mod.rs:153-215 | for unit requests at nondecreasing times no choice that keeps the tolerance has admitted more in any prefix |
| `Optimality.GreedyLeads` | src/cell/mod.rs:153-215 | the invariant behind it: the schedule is ahead of any other choice by at most T for each admission it is ahead |
| `Trace.ClosedForm` | src/cell/mod.rs:141-215 | from an absent key the TAT is the maximum over admitted requests of arrival plus all that was admitted from it on |
| `Trace.PassesIffConforms` | src/cell/mod.rs:166-189 | a request passes if and only if every window of it and those admitted before it fits tau plus its length |
| `Trace.TraceAdmittedIffWindowsFit` | src/cell/mod.rs:141-215 | a whole trace is admitted if and only if every window of it fits |
| `Trace.QuantitiesAdmittedIff` | src/cell/mod.rs:113-115 | the same in quantities: T times the quantity of every window is at most tau plus its length |
| `Trace.WindowBound` | src/cell/mod.rs:166-215 | from any stored value and under any clock, windows of admitted requests fit |
| `Trace.BatchSplitting` | src/cell/mod.rs:113-115 | nonnegative quantities one after another at one instant all pass if and only if their sum does, and then leave the same TAT |
| `Bucket.RefinesTokenBucket` | src/cell/mod.rs:62-71 | over every run with a nondecreasing clock the decisions are those of a bucket of capacity tau refilled 1 per ns and charged T times q |
| `Bucket.RefinesStandardGcra` | src/cell/mod.rs:76-85 | for unit requests the decisions are those of both forms of GCRA(T, max_burst times T) of Annex A of ITU-T I.371 |
| `Equivalence.AlikeRun` | src/cell/mod.rs:153-189 | stored values that agree once the past is forgotten answer every later run alike |
| `Equivalence.StoredWithinTolerance` | src/cell/mod.rs:166-192 | under one quota and a clock that does not go back the TAT is at most tau ahead of now |
| `Equivalence.PeekWritesIff` | src/cell/mod.rs:94-96 | a quantity of 0 is blocked just beyond tau, and changes the stored value exactly when the key is absent or its time past |
| `Equivalence.PeekCreatesKey` | src/cell/mod.rs:94-96 | an instance where a peek writes, against the comment |
| `Equivalence.PeekIsInvisible` | src/cell/mod.rs:94-96 | after any run a peek passes, and every later run has the same decisions and `retry_after`, and the same reply for requests within the limit |
| `Reconfiguration.ReconfigurationIsSafe` | README.md:96-97 | when every call brings its own limits: the TAT never goes back, is never further ahead than the largest tau so far, and no request within its limit is told to wait longer than that |
| `Response.CommandReply` | src/lib.rs:32-94 | for moderate arguments and a readable key the command answers with five integers: 1 exactly if the kernel blocks; the limit; what remains, within its bounds and exactly; -1 unless blocked within the limit, else seconds after which, with 1 ms more, the request passes, and with two less does not; seconds after which the full limit passes, likewise; and the keys are left alone, or the key holds the new time for as long as it is to come |
| `Command.ParseIff` | src/lib.rs:33-49 | arguments are taken if and only if there are five or six and all that follow the key write 64-bit integers, and say what they write in their order; else the error is the usage or an integer's |
| `Response.BadArgumentsRefused` | src/lib.rs:33-49 | a wrong number of arguments or one that is no integer is answered with that error and leaves the keys alone |
| `Response.NothingIsZeroRate` | src/cell/mod.rs:36-40 | a count or a period of 0 is refused as a zero rate, whatever else is asked, and leaves the keys alone |
| `Response.ZeroRateIff` | src/cell/mod.rs:109-111 | below 2^53 the zero-rate error comes if and only if the count or the period is 0 or the count exceeds the period's nanoseconds |
| `Replies.MemoryReply` | src/cell/mod.rs:97-237 | over the memory store with rivals, the reply to a call is true field by field of what its first unbeaten attempt found and left: the decision; `limit`; `retry_after` is when the request passes, or -1 s; `reset_after` is when the full limit passes and the time stored comes; `remaining` is within its bounds of the capacity and, where doubles hold the microseconds, exactly their quotient |
| `Replies.MemoryErrorsIff` | src/cell/mod.rs:109-224 | there it fails for a zero rate, touching nothing, and otherwise exactly when all six attempts were beaten |
| `Replies.RedisReply` | src/cell/mod.rs:97-237 | over Redis the reply is true in the same way, and the key then holds the new time until it is to come, less the cut to milliseconds |
| `RedisKeys.DeadlineCuts` | src/redis/mod.rs:346-347 | the deadline is whole milliseconds from the write, not later than the time to live and less than 1 ms earlier |
| `RedisKeys.CasExactly` | src/cell/store.rs:170-199 | swaps if and only if the expected value is what would be read; the new one then lasts for the time to live and no longer; else nothing changes; fails only on a text that is no number; no other key is touched |
| `RedisKeys.SetNxExactly` | src/cell/store.rs:218-233 | writes if and only if the key is gone or empty; written or not, the key lasts for the time to live given and no longer, and keeps the text it had; no other key is touched |
| `RedisKeys.ReadsNumber` | src/cell/store.rs:201-212 | reads nothing exactly where the key is gone, the number its text writes, and panics exactly on text that writes none |
| `Advice.RetryAfterExact` | src/cell/mod.rs:166-189 | a blocked request within the limit passes from now + `retry_after` on and at no earlier time; one with -1 passes in no state at no time |
| `Advice.ResetAfterExact` | src/cell/mod.rs:187-233 | the full limit passes just from now + `reset_after` on; it is negative exactly for a request above the limit at a key whose time is past |
| `Advice.CapacityIsLargest` | src/cell/mod.rs:166-175 | the capacity after a call is the largest quantity a further call at the same instant passes with |
| `Advice.RemainingBounds` | src/cell/mod.rs:227-232 | `remaining` is at least that capacity k and at most k + 1 + k divided by the whole microseconds of T, and equals k for T in whole microseconds; k is between 0 and the limit |
| `Advice.RemainingOnStaleBlock` | src/cell/mod.rs:187-232 | the excluded case: the capacity is the limit, but `remaining` counts the whole intervals since the key's time as well, with the same two bounds; on whole microseconds it is right just within the first interval |
| `Advice.RemainingOverdrawn` | src/cell/mod.rs:227-232 | overdrawn, `remaining` is 0 or, exactly when truncation makes the overdraft a whole interval, -1 |
| `Advice.RemainingSaturates` | src/cell/mod.rs:227-232 | below a microsecond of T, `remaining` is the largest `i64` once a microsecond of credit is left, and 0 before |
| `Advice.NegativeSeconds` | src/lib.rs:73-76 | a negative duration is reported within less than a second of it, and not above 0 |
| `Advice.SecondsNear` | src/lib.rs:69-76 | any other is at most 1 ms beyond its reported seconds, and these less than two beyond it, less than one below 104 days |
| `Advice.WholeSecondAdvice` | src/lib.rs:66-72 | waiting the reported seconds and 1 ms always suffices; one second less never does if and only if the double kept the whole seconds |
| `Advice.ReportedSecondsSuffice` | src/lib.rs:66-72 | waiting exactly the reported seconds suffices if and only if the wait is whole seconds or its fraction is at least 1 ms |
| `Advice.ReportedSecondTooEarly` | src/lib.rs:66-72 | an instance where it does not |
| `Advice.AsSecondsExact` | src/lib.rs:69-76 | below 104 days the double keeps the whole seconds |
| `Advice.LongWaitOverstated` | src/lib.rs:69-72 | a wait for which, under a rounding to the nearest second, one second less than reported suffices |
| `Advice.UpToSecondRounds` | src/lib.rs:69-72 | such a rounding is among those allowed |
| `Rate.PerPeriodExact` | src/cell/mod.rs:32-44 | below 2^53 the interval is exactly floor(period / n), hence T n is at most the period, which is less than (T + 1) n, and zero just if the period is less than n |
| `Rate.PerPeriodZero` | src/cell/mod.rs:36-40 | no actions or no period give the interval 0 |
| `Rate.PerPeriodSigned` | src/cell/mod.rs:42 | with either negative the interval is the quotient cut toward zero |
| `Float.ToI64Truncates` | src/cell/mod.rs:42 | a double cast to an integer loses what follows the point, and stops at the ends of the 64-bit range |
| `Float.QuotientExact` | src/cell/mod.rs:42 | double division of integers below 2^53, truncated, is integer division |
| `Gcra.NewIsRegular` | src/cell/mod.rs:76-85 | without overflow the limiter's fields are T, T times `limit`, and max_burst + 1 |
| `Gcra.FieldsWrap` | src/cell/mod.rs:76-85 | overflow or not, limit, tolerance and charge are the mathematical values wrapped to 64 bits once |
| `Prelude.WrapCongruent` | src/cell/mod.rs:78-80 | such wrapping keeps the low 64 bits |
| `Gcra.IncrementExact` | src/cell/mod.rs:113-115 | without overflow a request is charged T times its quantity |
| `Gcra.Kernel` | src/cell/mod.rs:141-175 | the time asked for is the later of now and TAT plus the charge; a request is blocked just if that is beyond now + tau |
| `Loop.ProposalWraps` | src/cell/mod.rs:191 | the value a call asks to be written is the time asked for modulo 2^64 |
| `Codec.NanosecondsWraps` | src/cell/mod.rs:292-296 | the stored value is the time modulo 2^64, before the epoch as well |
| `Codec.TimeRoundTrip` | src/cell/mod.rs:287-296 | a time survives encoding if and only if it lies in the 2^64 ns after the epoch |
| `Codec.ValueRoundTrip` | src/cell/mod.rs:287-296 | every `u64` is the encoding of the time it decodes to |
| `Numerals.ParseI64Iff` | src/lib.rs:150-153 | a text is read as an integer if and only if it is digits with an optional sign, and as the value of the digits in their places |
| `Numerals.ParseU64Iff` | src/cell/store.rs:184-209 | a stored text likewise, with no minus sign |
| `Numerals.ToStringCanonical` | src/cell/store.rs:186-226 | stored texts are digits without leading zeros |
| `Codec.StringRoundTrip` | src/cell/store.rs:186-209 | every stored text reads back as its value and none is empty |
| `Codec.StoredTimeSurvives` | src/cell/mod.rs:191-210 | while now + tau is below 2^64 ns every time the limiter stores comes back as it was, as a number and as text, and is not past when stored |
| `Stores.MemoryStore.CompareAndSwapWithTtl` | src/cell/store.rs:109-123 | in place: swaps unless another value is there, on a missing key too |
| `Stores.MemoryStore.GetWithTime` | src/cell/store.rs:125-130 | the value if any, with the clock |
| `Stores.MemoryStore.SetIfNotExistsWithTtl` | src/cell/store.rs:138-151 | in place: writes only a missing key |
| `Stores.RedisStore.CompareAndSwapWithTtl` | src/cell/store.rs:170-199 | in place: swaps the expected value and sets the deadline; false on an absent or empty key, an error on text that is no number |
| `Stores.RedisStore.GetWithTime` | src/cell/store.rs:201-212 | the number in the text, nothing if the key is gone, a panic on other text |
| `Stores.RedisStore.SetIfNotExistsWithTtl` | src/cell/store.rs:218-233 | in place: writes an absent or empty key, and resets the deadline in either case |
| `Stores.RedisStore.IsEmpty` | src/redis/mod.rs:332-340 | a key opened for writing is empty just if its text is |
| `Stores.RedisStore.SetExpire` | src/redis/mod.rs:346-354 | sets the deadline to the clock plus the time to live cut to milliseconds (`DeadlineCuts`); an error on a key that is gone |
| `Limiter.RateLimiter.constructor` | src/cell/mod.rs:76-85 | the fields are those `New` computes from the quota |
| `Limiter.RateLimiter.RateLimit` | src/cell/mod.rs:97-237 | in place: answer and store are those of `Throttle`, of which `MemoryReply` and `RedisReply` tell the meaning; zero rates refused |
| `Limiter.RateLimiter.Contend` | src/cell/mod.rs:133-225 | in place: the loop answers and leaves the store as `Attempt` says, in at most six attempts |
| `Limiter.RateLimiter.Pass` | src/cell/mod.rs:139-189 | in place: one pass of the loop is `TryOnce` |
| `Limiter.RateLimiter.Land` | src/cell/mod.rs:191-224 | in place: compare-and-swap of a value that was seen, set-if-absent otherwise |
| `Limiter.AttemptIsRivalled` | src/cell/mod.rs:133-225 | over a memory store the loop does what the rivals' writes alone tell |
| `Limiter.FirstUnbeatenDecides` | src/cell/mod.rs:134-224 | the first attempt under which no rival changed the value decides, on what it read, and writes over that very value; if all six are beaten the call fails and writes nothing |
| `Limiter.ContentionErrorIff` | src/cell/mod.rs:217-224 | the contention error comes if and only if each of six admissible attempts was beaten |
| `Limiter.UncontendedStep` | src/cell/mod.rs:134-215 | left alone a call is one step of the kernel and touches no other key |
| `Limiter.RedisCall` | src/cell/store.rs:177-198 | a call in Redis decides at its first attempt or, exactly if the key expired under it, at its second, on the absent key; it never fails for contention |
| `Limiter.MissedCallPasses` | src/cell/store.rs:180-183 | such a second attempt always lets the call through |
| `Limiter.UnreadableKey` | src/cell/store.rs:207-211 | other text under the key ends the call before it writes |
| `Command.ArgumentsRoundTrip` | src/lib.rs:33-49 | any key and four integers written out as arguments are read back as meant, and a quantity left out as one |
| `Command.IntegerRoundTrip` | src/lib.rs:150-153 | every 64-bit integer in decimal is read as itself |
| `Command.Run` | src/lib.rs:32-94 | in place: reply and keys are those of `Ran`, of which `CommandReply` and the other lemmas of `Response` tell the meaning |
| `Command.ModerateLimits` | src/lib.rs:55-62 | within 64 bits and 2^53 ns the interval is exactly floor(period / count), zero just below 1 ns per action; the limit is max_burst + 1, tau that many intervals, and a request is charged an interval for each unit |
| `Command.CommandDecides` | src/lib.rs:32-94 | on any arguments that parse and a readable key a zero rate is refused and touches nothing; otherwise the five integers are the decision, the limit, what remains, and the two waits in seconds, of the kernel on the value the key held, and the key is left or written accordingly |
| `Command.CommandErrorsIff` | src/lib.rs:32-64 | it fails exactly for other than five or six arguments, one that writes no integer, a zero rate, or a text under the key that writes no number; never for contention; and then leaves the keys alone |
| `Command.RetryField` | src/lib.rs:69-72 | the reported wait is -1 exactly for an allowed action or one above the limit, and 0 exactly for a wait below a millisecond |
| `TestTable.TableReproduced` | src/cell/mod.rs:395-440 | from any start on an absent key, every row comes out as the tests expect |

## Left out

- src/redis/raw.rs, include/, the C stubs and build.rs: foreign bindings without logic of their own.
- `Redis::call`, reply emission, replication, logging, `Drop` handling, error formatting: input and output.
- Real clocks and the `time` crate: the clock is a parameter, and dates beyond the year 9999, on which that crate panics, are not part of this model.
- Debug builds, in which an overflow panics where the model wraps.
- `Rate::per_day`, `per_hour`, `per_minute`, `per_second`: calls of `per_period` with constants.
- Negative quantities, counts and bursts: the functions and methods take them; but for the sign of the interval and the wrapped fields (`PerPeriodSigned`, `FieldsWrap`) the properties are about nonnegative ones.
- Redis' own expiry scheduling, replication and its cached command clock: an update sets its deadline from the clock at the update.
- Redis keys that are not strings: they appear as text that is no number.
- Rivals that write other keys while a call is in the memory store: their writes do not concern the call.
- Rate.PerPeriodExact: below 2^53 only, because beyond it a double no longer holds every integer and the quotient can be off by its rounding.
- Advice.RemainingBounds: for a tolerance below 2^53 microseconds, for the same reason.
- Codec.StoredTimeSurvives: for clocks between the epoch and 2^64 ns less tau after it, which `TimeRoundTrip` shows is where encoding is exact.
- Stores.RedisStore.SetExpire: gives a negative time to live a deadline in the past, because what Redis makes of one is not decided by this repository; no nonnegative charge leads to one (`Codec.StoredTimeSurvives`).
- Advice.WholeSecondAdvice, Advice.ReportedSecondsSuffice, Advice.SecondsNear, Command.RetryField: for waits below 2^52 seconds, longer than between any two times the clock and the store can hold.
- RedisRun.DriftInRedisIff: for clocks two tolerances short of 2^64 ns, so that the call that would exceed the bound is in range as well.
- Expiry.ExpiryDrift: for a clock that does not go back, since expiry is itself measured on it.
- Command.ModerateLimits, Response.CommandReply: for arguments whose products stay within 64 bits; beyond that `FieldsWrap` gives the wrapped values, and what the limiter makes of those is not claimed to be of use.
