# Verified models of waffle's schedulers, limiters, locks and codecs

Dafny models of the parts of waffle whose correctness rests on more than one function: the cron parser and
its next-fire search, the distributed job lock, the certificate renewal protocol, geohashes, the circuit
breaker, the token bucket and per-key limiter, the execution history, the Redis email queue and the codec of
the response cache. `dafny verify dfyconfig.toml` checks the whole project.

| file | models |
|---|---|
| `Wrappers.dfy`, `Text.dfy`, `Decimal.dfy`, `Sums.dfy` | options and results, `strings`, `strconv`, counting |
| `CronField.dfy` | cron fields: grammar, reader, sorting (`pantry/jobs/cron.go`) |
| `Calendar.dfy`, `FiringTimes.dfy`, `CronNext.dfy` | the calendar, firing times, the search for the next one |
| `JobLock.dfy` | the Redis lock and the executions under it (`pantry/jobs/lock.go`, `pantry/jobs/scheduler.go`) |
| `CertRenewal.dfy` | `GetCertificate` (`server/acmedns.go`) |
| `GeohashCells.dfy`, `Geohash.dfy` | cells as bit strings, their text and the operations (`pantry/geo/geohash.go`) |
| `CircuitBreaker.dfy` | `pantry/retry/circuit.go` |
| `RateLimit.dfy` | `pantry/ratelimit/ratelimit.go` |
| `JobStats.dfy`, `JobHistory.dfy` | `pantry/jobs/history.go` |
| `EmailQueue.dfy` | `pantry/email/queue.go` |
| `CacheCodec.dfy` | `pantry/cache/middleware.go` |

## How things are modelled

- `time.Time` is an integer number of nanoseconds of a clock that does not go back, read once per operation. A
  time zone is a fixed offset in minutes. `float64` is `real`: the halvings of a geohash are exact in `float64`,
  and for token amounts rounding is not the point. `int` is unbounded, except where text is parsed.
- Objects whose methods update fields are classes, with methods proved against functions on values; the lemmas
  about whole runs speak of those functions. Concurrent code is a step system: one step is one critical section,
  one Redis command, or, in the renewal protocol, one statement.
- Loops of the source are loops here. The text of an expression reaches `ParseCron` already split at white space.

## Where the code does something else than promised

- `Next` leaves an hour by `Add(time.Hour).Truncate(time.Hour)`, which rounds absolute time, not the wall clock.
  At an offset that is not a whole number of hours it can pass over firing times, and even answer that an
  expression which fires never does. `CronNext.Next` states the answer for every start, `FiringTimes.RightExactly`
  and `FiringTimes.FalseNeverExactly` when it is wrong, and two lemmas give inputs. The comment at
  `pantry/jobs/cron.go:340` says that both day fields must match; the code takes either when both are restricted,
  and the model follows the code.
- Nothing stops a handler at its deadline, so `WithLocker` prevents duplicate execution only for handlers that
  end in time (`JobLock.TimelyRunsAreExclusive`, `JobLock.OverrunAdmitsASecond`). Executions of
  one instance share an owner ID: a release that reaches the server past its deadline can delete the entry of the
  next execution, and then two meet before any deadline, even with one execution at a time
  (`JobLock.OnlyOverrunsExactly`, `JobLock.ReleaseInFlight`).
- Calls that wait for a renewal receive its result only if it got a certificate that is still current and fresh
  when they recheck; a call that rechecks and finds none renews again
  (`CertRenewal.WaiterGetsResultExactly`, `CertRenewal.WaiterGetsAnotherResult`).
- `MaxHalfOpenRequests` is not enforced: admission and tagging are separate critical sections
  (`CircuitBreaker.LimitKeptExactly`).
- `Do` does not record a call whose function panics. In the half-open state the counter then stays raised, and
  as many such panics as `MaxHalfOpenRequests`, 1 by default, can leave a breaker that refuses every call until
  somebody trips or resets it (`CircuitBreaker.NeverWedgedExactly`, `CircuitBreaker.WedgedForGood`).
- The neighbours of a cell at the edge of the world include the cell itself, and those of a hash of more than twelve
  letters are cut off (`Geohash.AnswersRightExactlyInside`).
- A duration of zero makes the minimum start over (`JobStats.MinIsExact`).
- Two email workers, the default, can send the same email and leave it in two queues
  (`EmailQueue.SendsAreSingleExactly`, `EmailQueue.IndexKeptExactly`). With one worker, an email cancelled between
  the two commands of its enqueuing stays in a queue without a record (`EmailQueue.DeletedTooEarly`).
- An email with a positive priority can be sent before the time it is scheduled for: the priority is subtracted from
  the score that decides when it is taken (`EmailQueue.NeverEarlyExactly`).

## Model

| member | source | states |
|---|---|---|
| `CronField.ReadPartIsGrammar` | pantry/jobs/cron.go:186-237 | the part parser accepts exactly the texts of the declared grammar (wildcard, range or single value, optional positive step), each with one meaning |
| `Decimal.AtoiReads` | pantry/jobs/cron.go:195-228 | what is read as a number: an optional sign, then digits only and at least one, in the range of `int` |
| `Decimal.AtoiDigits` | pantry/jobs/cron.go:195-228 | one more digit makes the number ten times as much and that digit; leading zeros are allowed |
| `Text.JoinSplit` | pantry/jobs/cron.go:166-166 | joining the comma parts gives the field back, so splitting loses nothing |
| `CronField.StepValues` | pantry/jobs/cron.go:285-291 | the loop yields, strictly increasing and in bounds, exactly the values on the step |
| `CronField.AllValues` | pantry/jobs/cron.go:276-282 | the loop yields the whole range in order |
| `CronField.ParseFieldPart` | pantry/jobs/cron.go:186-237 | succeeds exactly on readable parts; then the values are non-empty, in bounds and exactly those denoted |
| `CronField.ExchangeSort` | pantry/jobs/cron.go:308-315 | the in-place swap sort leaves the array sorted and a permutation of what it was |
| `CronField.UniqueSorted` | pantry/jobs/cron.go:294-318 | strictly increasing result with exactly the input's values |
| `CronField.ParseField` | pantry/jobs/cron.go:158-183 | succeeds exactly when every comma part can be read; the list is non-empty, strictly increasing, in bounds, and holds a value exactly when some part denotes it |
| `CronField.NumberField` | pantry/jobs/cron.go:158-237 | a field that is one number in range holds just that number |
| `CronField.FullLengthMeansAll` | pantry/jobs/cron.go:342-343 | a value list has the length of its range exactly when it holds the whole range, so the tests 31 and 7 mean "every day" |
| `CronNext.ParseCron` | pantry/jobs/cron.go:42-98 | five or six fields, each parsed within its bounds; the parsed expression holds exactly the denoted values |
| `CronNext.SevenIsSunday` | pantry/jobs/cron.go:269-272 | the field 7 holds exactly the value 0, Sunday; a field without a 7 is read as it is |
| `Calendar.CivilRoundTrip` | pantry/jobs/cron.go:359-360 | `time.Date` of the decomposed day is that day, for every day |
| `Calendar.DateRoundTrip` | pantry/jobs/cron.go:359-360 | every date of the calendar is the date of its day |
| `Calendar.WeekdaysCycle` | pantry/jobs/cron.go:338-341 | weekdays follow one another from Sunday, 0, to Saturday, 6 |
| `Calendar.FiveYearsLands` | pantry/jobs/cron.go:325-327 | five years on month and day are the same, except that 29 February becomes 1 March in a common year |
| `Calendar.MonthRunsToItsEnd` | pantry/jobs/cron.go:330-333 | every day before the first of the next month is in the same month |
| `Calendar.Anchors` | pantry/jobs/cron.go:359-360 | day numbers and weekdays agree with the Unix epoch, a Thursday, and with the leap day of 2000, a Tuesday |
| `CronNext.DayOk` | pantry/jobs/cron.go:337-355 | the code's length tests decide the day rule: an unrestricted field defers to the other, two restricted ones are alternatives |
| `CronNext.DayRule` | pantry/jobs/cron.go:337-355 | both day fields must match, unless both are restricted: then either will do |
| `CronNext.FiresExactly` | pantry/jobs/cron.go:328-400 | a wall minute fires if and only if minute, hour and month are listed and the day satisfies the rule |
| `CronNext.HorizonMeans` | pantry/jobs/cron.go:325-327 | the search ends at the same wall time five years on |
| `FiringTimes.LookInDay` | pantry/jobs/cron.go:363-400 | the hour and minute tests find the first firing time of the day, prove the rest of the day silent, or report an hour with no listed minute left |
| `FiringTimes.ClockReads` | pantry/jobs/cron.go:363-400 | days, hours and minutes are read off a wall minute as off a clock |
| `FiringTimes.PassedOver` | pantry/jobs/cron.go:392-393 | what the hour jump passes over is the first firing time of all |
| `FiringTimes.RightExactly` | pantry/jobs/cron.go:363-400 | the answer is that of the scan if and only if the start is not late in an hour that may fire before another one whose first listed minute lies before the landing point |
| `FiringTimes.FalseNeverExactly` | pantry/jobs/cron.go:402-404 | the zero time is answered although the expression fires, if and only if a firing time is passed over and nothing fires from the point on where the search is right again, or there is none |
| `FiringTimes.NoIdleHour` | pantry/jobs/cron.go:392-393 | there is no such point if and only if every hour up to the horizon may fire |
| `FiringTimes.NeverLands` | pantry/jobs/cron.go:392-393 | if every hour may fire and every listed minute lies before the landing point, a start after the last listed minute gets the zero time |
| `FiringTimes.WholeHourOffsetsAreSafe` | pantry/jobs/cron.go:392-393 | at whole-hour offsets nothing is ever passed over |
| `CronNext.Next` | pantry/jobs/cron.go:321-405 | terminates; any answer is a full minute strictly after the start at which the expression fires, less than one day past the five-year horizon; no firing minute lies between the start and the answer, or before the horizon if there is none, if and only if nothing is passed over; and for every start the answer is that of the minute-by-minute scan begun where the search is right again |
| `CronNext.HourlyAtHalfHourOffset` | pantry/jobs/cron.go:392-393 | "0 * * * *" at +5:30 from 45 past: the next hour fires, and the answer is the zero time |
| `CronNext.LeapNightPassedOver` | pantry/jobs/cron.go:392-404 | "0 22,23 29 2 *" at +5:30 after 22:44 on 29 February 2096: 23:00 fires and is passed over, and there is no leap day before the horizon, so the answer is the zero time |
| `JobLock.RedisLocker.Acquire` | pantry/jobs/lock.go:104-119 | true exactly if nobody held the lock; then the owner holds it at exactly the times before `ttl` is over; otherwise its holder keeps it; no other key changes; lost requests and replies are errors |
| `JobLock.RedisLocker.Release` | pantry/jobs/lock.go:122-146 | true exactly if the owner held the lock; from then on the owner holds it at no time, a lock of another owner stands as before, and no other key changes |
| `JobLock.RedisLocker.Extend` | pantry/jobs/lock.go:149-171 | succeeds exactly if the owner held the lock, and then it does so at exactly the times before the whole milliseconds of `ttl` are over; a lock of another owner stands as before |
| `JobLock.WholeMillisMeans` | pantry/jobs/lock.go:161-161 | the time to live is cut to whole milliseconds, toward zero |
| `JobLock.RedisLocker.IsHeld` | pantry/jobs/lock.go:174-184 | true exactly if the answer arrives and the owner holds the lock for some time to come; then nobody can take it now |
| `JobLock.LeaseHoldsExactly` | pantry/jobs/lock.go:104-171 | whatever commands of other owners follow, a lock that was acquired is held at every time before it expires and at none after |
| `JobLock.TryLockAcquires` | pantry/jobs/scheduler.go:349-366 | the lock step of an execution has the effect of `Acquire` on the key "lock:scheduler:" and the job name, and the handler is entered exactly if that answers true |
| `JobLock.ReleaseUnlocks` | pantry/jobs/scheduler.go:367-367 | the release step has the effect of `Release` |
| `JobLock.DeadlineMeans` | pantry/jobs/scheduler.go:325-325 | in every run an execution keeps owner, name and timeout, and its deadline is that long after it began |
| `JobLock.RedisLocker.constructor` | pantry/jobs/lock.go:80-94 | holds nothing; an empty prefix becomes "lock:", an empty owner ID the random one |
| `JobLock.TimelyRunsAreExclusive` | pantry/jobs/scheduler.go:324-391 | in every run of any number of instances in which handlers end and their releases have reached the server before the context deadline, no two executions of one job are ever inside together, leases cover deadlines and every holder's entry stands |
| `JobLock.PromptRunsKeepLeases` | pantry/jobs/scheduler.go:324-391 | in every run in which no release takes effect past the deadline of its execution, however late handlers are, at most one execution of a job is within its lease and its entry stands |
| `JobLock.PromptRunsMeet` | pantry/jobs/scheduler.go:324-391 | so of two executions together one is past its deadline, however many executions an instance runs at a time |
| `JobLock.OnlyOverrunsMeet` | pantry/jobs/scheduler.go:324-391 | so it is, however late releases are, if no instance runs one job twice at a time and no release takes effect after its execution has returned |
| `JobLock.OverrunAdmitsASecond` | pantry/jobs/scheduler.go:349-371 | every run with an execution in its handler goes on to one with a second instance in the same handler |
| `JobLock.DoubleRegistration` | pantry/jobs/scheduler.go:117-197 | two executions at a time in one instance: a release sent in time takes effect past its deadline, after the second execution has taken the lock, and deletes that entry, so a third enters the handler before any deadline |
| `JobLock.ReleaseInFlight` | pantry/jobs/scheduler.go:324-367 | the same with one execution at a time: the first gives up at its deadline and returns, and its release reaches the server after the next one has taken the lock |
| `JobLock.OnlyOverrunsExactly` | pantry/jobs/scheduler.go:324-391 | in all runs with at most k executions of a job running in one instance, of two executions together one is past its deadline, if and only if k is 0, or no release takes effect past its deadline, or k is 1 and no release takes effect after its execution has returned |
| `CertRenewal.RunsAreSafe` | server/acmedns.go:169-264 | in every interleaving of any number of calls: the mutex has its one holder, the flag is set exactly while one call renews, no parked call lacks a wake-up, and only certificates that were once current are handed out |
| `CertRenewal.AtMostOneObtains` | server/acmedns.go:203-208 | at most one call obtains a certificate at a time, and then the flag is set |
| `CertRenewal.SomeCallCanGoOn` | server/acmedns.go:185-231 | no deadlock: while a call has not returned, some call can take a step |
| `CertRenewal.WorkIsBounded` | server/acmedns.go:185-264 | every run of k calls takes at most k(16k+17) steps, so with no deadlock every call returns, also after errors and panics |
| `CertRenewal.WaitersShare` | server/acmedns.go:185-201 | in every run, while the certificate stays fresh, a call that waits never renews: it is still waiting or hands out a certificate that was current in the meantime |
| `CertRenewal.OnlyFreshIsShared` | server/acmedns.go:172-200 | in every run, a certificate that a call returns without having obtained was current, with more than 30 days left, at some moment before |
| `CertRenewal.FirstTestExactly` | server/acmedns.go:172-181 | the first test returns the current certificate if and only if it has more than 30 days left, and goes to the lock otherwise |
| `CertRenewal.RenewsExactly` | server/acmedns.go:193-208 | at its second test a call goes on to renew if and only if there is no certificate or it has 30 days left at most |
| `CertRenewal.ObtainsExactly` | server/acmedns.go:193-243 | a call that rechecks the certificate hands it out without obtaining if it is fresh; otherwise it obtains exactly once, or its context is cancelled and it fails |
| `CertRenewal.ObtainsAtMostOnce` | server/acmedns.go:185-264 | no call obtains twice |
| `CertRenewal.WaiterGetsResultExactly` | server/acmedns.go:160-162 | a call parked during a renewal receives its result without obtaining, if and only if the renewal got a certificate that is current and fresh when the parked call rechecks |
| `CertRenewal.WaiterGetsAnotherResult` | server/acmedns.go:160-162 | a run in which the renewing call fails and the call parked meanwhile returns a certificate of its own, against the promise of the same result |
| `GeohashCells.CellHoldsPoint` | pantry/geo/geohash.go:28-63 | the cell found by bisection holds the point, or the nearest point of the world |
| `GeohashCells.InsideEncodes` | pantry/geo/geohash.go:38-63 | every point strictly inside a cell is encoded as that cell |
| `GeohashCells.EncodesExactly` | pantry/geo/geohash.go:38-63 | a point of the world is encoded as a cell if and only if the cell has it, lower edges included and upper ones only at the edge of the world |
| `GeohashCells.ContainmentIsPrefix` | pantry/geo/geohash.go:81-121 | a cell contains another exactly when its bits are a prefix |
| `GeohashCells.NeighborPlace` | pantry/geo/geohash.go:149-155 | each neighbour lies the offset away on the grid, or stops at the edge of the map |
| `GeohashCells.NeighborIsShifted` | pantry/geo/geohash.go:137-155 | away from the edge, answer k is the cell shifted by offset k, in the order N, NE, E, SE, S, SW, W, NW |
| `GeohashCells.NeighborsByCompass` | pantry/geo/geohash.go:137-155 | away from the edge, answer 0 adjoins to the north, 1 to the northeast, and so on clockwise to 7, the northwest |
| `Geohash.GeohashOf` | pantry/geo/geohash.go:20-68 | the encoder writes the text of the bisection cell, with 1 to 12 letters as the precision says |
| `Geohash.GeohashBounds` | pantry/geo/geohash.go:81-121 | succeeds exactly on the letters "0123456789bcdefghjkmnpqrstuvwxyz" in either case, with the cell of the text |
| `Geohash.GeohashDecode` | pantry/geo/geohash.go:72-78 | the answer is the middle of the bounds, and it encodes to the lower-case hash again |
| `Geohash.GeohashNeighbors` | pantry/geo/geohash.go:124-158 | fails exactly on invalid text; slot k is the text of neighbour k, cut off after twelve letters; for the empty hash the one-letter cell nearest to a point off the map; the answers are right if and only if the hash has at most twelve letters and does not touch the edge of the world |
| `Geohash.PointIsInItsBounds` | pantry/geo/geo.go:329-332 | every in-range point lies in the bounds of its own geohash |
| `Geohash.EncodedIsLower` | pantry/geo/geohash.go:15-68 | what the encoder writes is valid lower-case text |
| `Geohash.DecodingHoldsPoint` | pantry/geo/geohash.go:20-121 | decoding what was encoded succeeds, and the box holds every in-range point |
| `Geohash.CaseDoesNotMatter` | pantry/geo/geohash.go:82-82 | capital letters mean the same as small ones |
| `Geohash.KnownCell` | pantry/geo/geohash.go:81-121 | the bounds of "ezs42" |
| `Geohash.CenterEncodesToItsHash` | pantry/geo/geo.go:335-340 | encoding the centre of a valid hash at its length gives the hash |
| `Geohash.LowerPrecisionPrefix` | pantry/geo/geohash.go:20-68 | a lower precision gives a prefix of a higher one |
| `Geohash.ContainsIsCellContainment` | pantry/geo/geohash.go:191-193 | for valid hashes in either case, the prefix test decides containment of the cells |
| `Geohash.AnswersRightExactlyInside` | pantry/geo/geohash.go:124-158 | the eight texts returned are distinct and exactly the same-length cells sharing an edge or corner, if and only if the hash has at most twelve letters and its cell does not touch the edge of the world |
| `CircuitBreaker.Circuit.AllowRequest` | pantry/retry/circuit.go:158-183 | admits exactly when closed, when open for the timeout since the last failure, or when half-open below the limit; moves to half-open exactly in the second case |
| `CircuitBreaker.Circuit.RecordResult` | pantry/retry/circuit.go:186-225 | the new fields, for every state and result |
| `CircuitBreaker.Circuit.Transition` | pantry/retry/circuit.go:228-253 | the new fields; nothing changes if the state is the same |
| `CircuitBreaker.Circuit.constructor` | pantry/retry/circuit.go:89-107 | closed with all counters zero; limits that are not positive get the defaults |
| `CircuitBreaker.Circuit.Tag` | pantry/retry/circuit.go:117-122 | tells whether the breaker is half-open, and then counts the call |
| `CircuitBreaker.Circuit.CurrentState` | pantry/retry/circuit.go:256-266 | moves to half-open exactly when due, like admission, and answers the new state |
| `CircuitBreaker.Circuit.Reset` | pantry/retry/circuit.go:269-273 | the transition to closed |
| `CircuitBreaker.Circuit.Trip` | pantry/retry/circuit.go:276-281 | the transition to open, with the failure time set also if it was open |
| `CircuitBreaker.RunsKeepCounters` | pantry/retry/circuit.go:158-281 | in every interleaving, panics included: closed means failures below the threshold, half-open means successes below theirs, otherwise successes are zero |
| `CircuitBreaker.HalfOpenCounterMeans` | pantry/retry/circuit.go:110-130 | in every run the half-open counter is the change in the number of tagged calls since a transition last cleared it, and one for each tagged call that has panicked since |
| `CircuitBreaker.CounterExceedsExactly` | pantry/retry/circuit.go:110-130 | the counter exceeds the number of running tagged calls if and only if, since it was last cleared, more tagged calls have panicked than were running then |
| `CircuitBreaker.CounterKeptExactly` | pantry/retry/circuit.go:110-130 | in all runs with n callers and at most p panics of tagged calls the counter stays within the number of tagged calls, if and only if n or p is zero |
| `CircuitBreaker.WedgedForGood` | pantry/retry/circuit.go:158-183 | half-open with the counter at its limit and no call under way: every later call is refused, unless somebody trips or resets the breaker |
| `CircuitBreaker.NeverWedgedExactly` | pantry/retry/circuit.go:110-130 | in all runs with n callers and at most p panics of tagged calls the breaker never gets there, if and only if n is zero or p is below the limit on half-open calls |
| `CircuitBreaker.WhyItOpens` | pantry/retry/circuit.go:200-211 | closed to open only by a trip or a full threshold of consecutive failures recorded while closed |
| `CircuitBreaker.WhyItCloses` | pantry/retry/circuit.go:213-223 | half-open to closed only by a reset or the success threshold reached in this visit without a failure |
| `CircuitBreaker.WhyItHalfOpens` | pantry/retry/circuit.go:166-172 | to half-open only from open, when the timeout has passed since every trip and every failure that counted |
| `CircuitBreaker.RefusesExactly` | pantry/retry/circuit.go:158-183 | in every run a call is refused if and only if the breaker is open and, since it opened, a trip or a failure that counted is less than the timeout ago, or it is half-open with the counter at its limit |
| `CircuitBreaker.LeavesOpenExactly` | pantry/retry/circuit.go:166-273 | an open breaker becomes half-open exactly when somebody looks and it was not struck within the timeout, closed exactly when it is reset |
| `CircuitBreaker.LeavesHalfOpenExactly` | pantry/retry/circuit.go:213-281 | a half-open one opens exactly on a trip or a failure, and closes exactly on a reset or the success that completes the threshold of this visit |
| `CircuitBreaker.LeavesClosedExactly` | pantry/retry/circuit.go:200-211 | a closed one opens exactly on a trip or the failure that completes the threshold since it closed or since the last success, and never becomes half-open |
| `CircuitBreaker.LimitKeptExactly` | pantry/retry/circuit.go:110-123 | the documented limit on half-open calls holds in all runs with n callers if and only if n does not exceed it |
| `RateLimit.Limiter.AllowN` | pantry/ratelimit/ratelimit.go:57-76 | refill, cap and take as specified |
| `RateLimit.Limiter.constructor` | pantry/ratelimit/ratelimit.go:22-29 | a full bucket |
| `RateLimit.Limiter.Allow` | pantry/ratelimit/ratelimit.go:33-53 | the same for one token |
| `RateLimit.Limiter.Tokens` | pantry/ratelimit/ratelimit.go:79-92 | the level a request at this moment would find; nothing changes |
| `RateLimit.GainPerSecond` | pantry/ratelimit/ratelimit.go:37-41 | the rate is per second |
| `RateLimit.GrantedExactly` | pantry/ratelimit/ratelimit.go:33-76 | a request is granted if and only if every window ending with it stays within burst plus rate times its length |
| `RateLimit.WindowBound` | pantry/ratelimit/ratelimit.go:33-76 | between any two requests at most burst plus rate times the elapsed time is granted |
| `RateLimit.TokensInRange` | pantry/ratelimit/ratelimit.go:33-76 | tokens stay between zero and burst in every run |
| `RateLimit.KeyLimiter.AllowN` | pantry/ratelimit/ratelimit.go:145-161 | works on the key's entry or a new full one |
| `RateLimit.KeyLimiter.constructor` | pantry/ratelimit/ratelimit.go:111-123 | no keys |
| `RateLimit.KeyLimiter.Allow` | pantry/ratelimit/ratelimit.go:126-142 | the same for one token |
| `RateLimit.KeyLimiter.Cleanup` | pantry/ratelimit/ratelimit.go:169-176 | deletes exactly the keys idle for longer than the time to live |
| `RateLimit.EvictionInvisibleExactly` | pantry/ratelimit/ratelimit.go:126-178 | every run with cleanups at any moments answers as one that never evicts, if and only if an empty bucket refills within the shortest idle time that allows eviction |
| `JobStats.StatsSummarize` | pantry/jobs/history.go:162-209 | after any reports the record summarizes exactly the durations of completed and failed executions |
| `JobStats.CountersMean` | pantry/jobs/history.go:177-189 | each counter is the number of reports of its status; the last times and the last error are those of the latest such report |
| `JobStats.MaxIsExact` | pantry/jobs/history.go:199-201 | the stored maximum is the greatest duration |
| `JobStats.MinIsExact` | pantry/jobs/history.go:196-198 | the stored minimum is the least duration if and only if no duration was zero or the last one was |
| `JobStats.AverageIsBetween` | pantry/jobs/history.go:203-208 | the running average lies between the least and the greatest duration |
| `JobStats.AverageMoves` | pantry/jobs/history.go:203-208 | each duration moves the average by the whole part of its share, rounded toward the old average |
| `JobStats.AverageDrift` | pantry/jobs/history.go:203-208 | n times the average is within n(n-1)/2 of the true sum despite truncation |
| `JobHistory.MemoryHistoryStore.RecordStart` | pantry/jobs/history.go:138-159 | appends, drops the oldest from a full list and the index, counts; lists and index stay in agreement if and only if the ID was not indexed yet |
| `JobHistory.MemoryHistoryStore.RecordComplete` | pantry/jobs/history.go:162-192 | updates the stored record in place and the statistics of that job only |
| `JobHistory.MemoryHistoryStore.GetExecutions` | pantry/jobs/history.go:222-238 | the newest `limit` executions of the list, newest first |
| `JobHistory.MemoryHistoryStore.Cleanup` | pantry/jobs/history.go:278-297 | every list keeps, in order, what started after the cutoff, the index exactly the same executions |
| `JobHistory.MemoryHistoryStore.constructor` | pantry/jobs/history.go:125-135 | an empty store in which lists and index agree; a cap that is not positive becomes 100 |
| `JobHistory.RetainedExactly` | pantry/jobs/history.go:138-159 | in every run the list of a job in the store is exactly its executions, in the order of their starts, that no later cleanup has cut off and that were never crowded out by as many later survivors as the cap |
| `JobHistory.RetainedInOrder` | pantry/jobs/history.go:138-159 | if they are recorded in the order of their start times, that is the latest `cap` executions without those cut off |
| `JobHistory.RunsAgree` | pantry/jobs/history.go:138-297 | in every run with IDs that are not indexed yet, lists and index agree, lists are within the cap and hold executions of their own job |
| `EmailQueue.RunsKeepIndex` | pantry/email/queue.go:663-837 | if no two operations work on one email and IDs are new, in every interleaving of Redis commands each email not being worked on is in exactly the queue of its stored status |
| `EmailQueue.AtMostOneQueue` | pantry/email/queue.go:663-756 | also while being worked on, an email is in at most one queue |
| `EmailQueue.OneWorkerKeepsIndex` | pantry/email/queue.go:330-400 | one worker at a time, beside any number of enqueues, meets that condition if no email is deleted while it is being enqueued |
| `EmailQueue.AttemptsAreDeliveries` | pantry/email/queue.go:342-392 | for an ID enqueued once, from then on, also while it is worked on and after it is deleted: the attempts on its record are those it was enqueued with and one for each time it was handed to the sender |
| `EmailQueue.DeliveriesAreBounded` | pantry/email/queue.go:342-392 | so it is handed to the sender at most once, or no more often than the retries left when it was enqueued |
| `EmailQueue.StatusIsOutcome` | pantry/email/queue.go:357-392 | once nobody works on it, the email is sent exactly if its last delivery succeeded, failed exactly if it did not and the retries are used up, pending exactly if it did not and they are not; without a delivery it has the status it was enqueued with |
| `EmailQueue.NotBeforeItsTime` | pantry/email/queue.go:875-887 | no email is handed to the sender before the time it is scheduled for, less a second for each step of its priority |
| `EmailQueue.NeverEarlyExactly` | pantry/email/queue.go:875-887 | in all runs with one worker no email of at most this priority is sent before the time it is scheduled for, if and only if the priority is not positive |
| `EmailQueue.TakesTheEarliest` | pantry/email/queue.go:686-706 | a worker takes an email that is due, and of its queue none with an earlier score |
| `EmailQueue.PendingFirst` | pantry/email/queue.go:689-706 | it looks for scheduled emails only after it has found no pending one due |
| `EmailQueue.DueIsSent` | pantry/email/queue.go:330-355 | whenever in a run a worker looks, the run goes on to one in which it sends the first pending email that is due, or if there is none the first scheduled one |
| `EmailQueue.TwoWorkersSendOneEmail` | pantry/email/queue.go:686-724 | every run that reaches a first pending email and two workers looking goes on to one in which both send it |
| `EmailQueue.SendsAreSingleExactly` | pantry/email/queue.go:330-400 | in all runs with at most n operations working on emails, whatever is deleted when, no email is being sent twice at a time, if and only if n is at most 1 |
| `EmailQueue.IndexBreaks` | pantry/email/queue.go:726-756 | a run from the empty store in which two workers leave an email in the queues of sent and of pending emails |
| `EmailQueue.DeletedTooEarly` | pantry/email/queue.go:663-684 | a run from the empty store with one worker: an email deleted between the two commands of its enqueuing ends up indexed without a record |
| `EmailQueue.IndexKeptExactly` | pantry/email/queue.go:663-837 | in all runs with new IDs, on which no operation works yet, and at most n operations working on emails, the index agrees with the records, if and only if n is 0, or n is 1 and no email is deleted while an operation, its enqueuing included, works on it |
| `Decimal.AtoiItoa` | pantry/cache/middleware.go:139-171 | parsing a printed `int` gives it back |
| `CacheCodec.EncodeCacheEntry` | pantry/cache/middleware.go:135-157 | writes status, header lines in some order of the keys, an empty line and the body |
| `CacheCodec.KnownEntry` | pantry/cache/middleware.go:135-157 | the format, by an example |
| `CacheCodec.DecodeCacheEntry` | pantry/cache/middleware.go:160-206 | reads them back line by line |
| `CacheCodec.RefusedExactly` | pantry/cache/middleware.go:165-174 | refused is exactly data without a first line, or with one that is not a number |
| `CacheCodec.OddLines` | pantry/cache/middleware.go:177-202 | a line without a colon is skipped; data that ends among the headers leaves the rest as the body |
| `CacheCodec.CanonicalIsStable` | pantry/cache/middleware.go:199-199 | `Header.Add` canonicalizes a key once and for all |
| `CacheCodec.CanonicalExactly` | pantry/cache/middleware.go:199-199 | a key is canonical exactly if it holds bytes that may not occur, or words start with no small letter and there are no capital letters elsewhere; only the case of letters is ever changed |
| `CacheCodec.TokenBytes` | pantry/cache/middleware.go:199-199 | the bytes that may occur are the visible ones that are no delimiters, as in section 3.2.6 of RFC 7230 |
| `CacheCodec.RoundTripExactly` | pantry/cache/middleware.go:135-206 | decoding an encoded entry gives it back, for any header order and any body, if and only if keys are canonical without colon or newline, each has a value, and values have no newline |

## Left out

- ParseCron: does not model white-space splitting, month and weekday names and predefined expressions, which are text
  substitution before the fields are read.
- StepValues: does not model 64-bit wrap-around of the loop counter for steps near the greatest `int`, because the
  step of a usable expression is small.
- GeohashBounds: exact for texts of any length; beyond what halves exactly in `float64`, well over twelve letters, the
  source rounds.
- GetExecutions: takes a limit that is not negative; with a negative one the source panics.
- RunsKeepIndex: Redis commands do not fail; JSON, messages and hooks are not modelled.
- KeyLimiter: an entry holds the fields of its limiter by value; no two keys share a limiter in the source either.
- EvictionInvisibleExactly: one clock reading per request, although the source reads the clock up to three times.
- Time zones with daylight saving in `pantry/jobs/cron.go`.
- TimelyRunsAreExclusive: the lease of a lock is the exact timeout; a client that sends whole milliseconds makes it up
  to a millisecond shorter, so there the result needs timeouts in whole milliseconds.
- `SetNX` with a time to live of zero or less, which some clients read as no expiry, and clients that send a command
  again by themselves.
- Starting, stopping and listing jobs, history recording by `executeJob`, `MemoryLocker` and the `Lock` helper.
- The ACME exchange, Route 53, certificate files, `PreWarm`, `ForceRenewal` and background renewal in
  `server/acmedns.go`: foreign calls; obtaining is one abstract operation that stores, returns, fails or panics.
- Non-ASCII text in hashes and header keys; `GeohashesInBounds`, `GeohashPrecision` and the distance formulas.
- `OnStateChange` callbacks, retry policies, HTTP middleware and key functions.
- `RedisHistoryStore`, `MemoryQueueStore`, queue listing and statistics, and every package not named above: they
  would only add easy members or I/O.
