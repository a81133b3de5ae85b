# A verified model of the DarkiT/cron engine

This project models the sequential core of the `cron` Go package (DarkiT/cron) in Dafny and proves properties of it. It covers five parts.

- **Next-activation search** (`internal/parser/spec.go`). A `SpecSchedule` holds six 64-bit field bitsets, with bit 63 marking a field written as `*`. `dayMatches` applies the asymmetric day-of-month/day-of-week rule; with both fields restricted, a date matches when either one does, as the crontab utility's INPUT FILES description in POSIX.1-2017 (IEEE Std 1003.1-2017) requires. `SpecSchedule.Next` walks month → day → hour → minute → second from the next whole second and restarts at the month whenever a finer field wraps. It gives up at start-year + 4. Module `CronSpec` (`spec_schedule.dfy`) renders the `goto WRAP` loop as one method per field step (`SeekMonth` … `SeekSecond`) inside an outer loop. Each step is proved to skip only instants that cannot match. The result is proved to be the earliest match before the horizon, or the zero time when none exists. The calendar (`calendar.dfy`) is proleptic Gregorian in one fixed zone.
- **Parse front end** (`internal/parser/cache.go`). Module `CronParse` (`parse.dfy`) covers several rules:
  - the rejection rules of `parseNoCache`;
  - the descriptor table in its 5-field and 6-field forms;
  - the field defaults of `parseCronFields`;
  - `parseEvery`/`parseDuration` with the `<n>[smhd]` shorthand;
  - `ConstantDelaySchedule.Next`.
- **LRU parse cache** (`internal/parser/cache.go`). Module `ParseCache` (`cache.dfy`) has a class `ParserCache` with the map and the access-order list updated in place. Its class `CacheTable` holds the per-option-set caches that were globals in the source. Both are proved against a value-level LRU specification (`Touch`, `Insert`), whose invariant is proved on that specification: the keys equal the order list, the list has no duplicates, and the size stays within capacity. Every cached schedule is also kept equal to what parsing its spec afresh gives, so a cached parse always returns what an uncached one would.
- **Scheduler task table** (`scheduler.go`, `options.go`). Module `Scheduler` (`scheduler.dfy`) has a class `JobModel` holding a job's settings, running counter and cancel flag. It covers the admission and counter steps of `runWithTryCatch`, and the run loop of `run` driven by a sequence of events. The class `CronScheduler` holds the name → job table with `reset` and its wrappers, `UnRegister`, `StopService`, `StopServicePrefix`, `Stop` and the two getters.
- **Statistics table and job registry** (`monitor.go`, `registry.go`). Modules `TaskMonitor` (`monitor.dfy`) and `JobRegistration` (`registry.dfy`) model `Monitor` and the job registry as objects whose maps are updated in place. Their getters hand out copies.

`wrappers.dfy` holds `Option` and `Result`. `collections.dfy` holds a duplicate-free-sequence predicate with its lemmas.

## Model

| member | source | states |
|---|---|---|
| CronSpec.BoundsAreConsistent | internal/parser/spec.go:21-49 | each field's minimum is at most its maximum and below the star bit, and every month and weekday name maps inside its field's range |
| CronSpec.CalendarFitsBounds | internal/parser/spec.go:21-49 | every valid date-time's second, minute, hour, day, month and weekday lie inside their field's bounds |
| CronSpec.PosixDayRule | internal/parser/spec.go:147-156 | the crontab day rule over all cases: with both day fields restricted a date matches when either field matches it, and with one field a `*` the other field alone decides |
| CronSpec.StarWeekdayDefersToDayOfMonth | internal/parser/spec.go:152-153 | with a starred weekday field, a date matches exactly when both bits are set |
| CronSpec.StarDayOfMonthDefersToWeekday | internal/parser/spec.go:152-153 | with a starred day-of-month field, a date matches exactly when both bits are set |
| CronSpec.DayMatchesOnDate | internal/parser/spec.go:147-151 | the day rule depends only on the date, not on the time of day |
| CronSpec.FirstMatchIsUnique | internal/parser/spec.go:56-57 | there is at most one earliest match within a search window |
| CronSpec.SearchStartAdvances | internal/parser/spec.go:60 | the search begins at the next whole second, strictly after the given time and with no nanoseconds |
| CronSpec.MonthStepKeepsNoMatch | internal/parser/spec.go:72-78 | skipping to the first of the next month passes over no match when the current month's bit is unset |
| CronSpec.DayStepKeepsNoMatch | internal/parser/spec.go:85-92 | skipping to the next midnight passes over no match when the day rule fails |
| CronSpec.HourStepKeepsNoMatch | internal/parser/spec.go:99-106 | skipping to the next whole hour passes over no match when the hour bit is unset |
| CronSpec.MinuteStepKeepsNoMatch | internal/parser/spec.go:113-120 | skipping to the next whole minute passes over no match when the minute bit is unset |
| CronSpec.SecondStepKeepsNoMatch | internal/parser/spec.go:127-133 | skipping to the next second passes over no match when the second bit is unset |
| CronSpec.NoMatchInPrefix | internal/parser/spec.go:142 | a window free of matches stays free of matches when its end is brought earlier |
| CronSpec.SeekMonth | internal/parser/spec.go:72-82 | the month loop stops at a matching month or the horizon, skipping only non-matches, and reports whether it crossed into the limit year |
| CronSpec.SeekDay | internal/parser/spec.go:85-96 | the day loop stops at a matching day or the horizon, skipping only non-matches, and reports a wrap into a new month |
| CronSpec.SeekHour | internal/parser/spec.go:99-110 | the hour loop stops at a matching hour or the horizon, skipping only non-matches, and reports a wrap into a new day |
| CronSpec.SeekMinute | internal/parser/spec.go:113-124 | the minute loop stops at a matching minute or the horizon, skipping only non-matches, and reports a wrap into a new hour |
| CronSpec.SeekSecond | internal/parser/spec.go:127-137 | the second loop stops at a matching second or the horizon, skipping only non-matches, and reports a wrap into a new minute |
| CronSpec.SeekDate | internal/parser/spec.go:72-96 | month and day checks together stop at a date whose month and day match, or at the horizon |
| CronSpec.SeekTime | internal/parser/spec.go:99-137 | hour, minute and second checks together stop at a full match, or report a wrap that sends the search back to the month check |
| CronSpec.SeekPass | internal/parser/spec.go:70-139 | one pass from the WRAP label either finds a full match or strictly advances the candidate, skipping no match |
| CronSpec.Next | internal/parser/spec.go:58-143 | the result has no nanoseconds and is the zero time or strictly later than the input; it is the earliest match from the rounded start up to start-year + 4, or zero when no match exists there |
| CronSpec.NextIsAtOrBefore | internal/parser/spec.go:56-57 | any match inside the search window rules out the zero result and bounds the result from above |
| CronSpec.EveryFiveSecondsExample | internal/parser/spec.go:58-143 | `*/5` seconds from midnight gives 00:00:05 |
| CronSpec.YearlyExample | internal/parser/spec.go:58-143 | a yearly schedule during 2024 gives 2025-01-01 00:00:00 |
| CronSpec.FebruaryThirtiethExample | internal/parser/spec.go:142 | a schedule for 30 February gives the zero time from any start |
| CronParse.Word | internal/parser/cache.go:200 | the first word is a prefix without white space that ends at white space or at the end |
| CronParse.Fields | internal/parser/cache.go:200 | splitting on white space yields only non-empty words free of white space |
| CronParse.FieldsKeepNonSpace | internal/parser/cache.go:200 | splitting on white space loses only white space: the words, run together, are the non-space characters of the text in order |
| CronParse.FieldsOfUnwords | internal/parser/cache.go:200 | splitting words joined by single spaces gives back the words |
| CronParse.DescriptorTablesAgree | internal/parser/cache.go:155-181 | the 5-field and 6-field descriptor tables know the same names, and the 6-field text is "0 " followed by the 5-field text |
| CronParse.ParseCronFields | internal/parser/cache.go:198-293 | the field loop computes the value-level field parse |
| CronParse.OmittedFieldsDefault | internal/parser/cache.go:265-281 | a field left out of the parser options gets its default: bit 0 for second, minute and hour, all values for day-of-month, month and weekday |
| CronParse.IncludedFieldRead | internal/parser/cache.go:226-264 | a field in the options is read from its own position in the text, with its own bounds |
| CronParse.NotListedKeepsField | internal/parser/cache.go:225-226 | the field loop leaves a field outside its place list as it was |
| CronParse.TooFewFieldsFail | internal/parser/cache.go:227-229 | fewer words than the options require make the parse fail |
| CronParse.Wrap64 | internal/parser/cache.go:326-336 | the wrapped value is a signed 64-bit value congruent to the input modulo 2^64, and in-range values are unchanged |
| CronParse.MatchShorthand | internal/parser/cache.go:320-322 | a recognised shorthand has one of the units s, m, h or d |
| CronParse.DurationShorthandWraps | internal/parser/cache.go:326-336 | as written, "213504d" overflows int64 and is accepted as 1526290448384 ns |
| CronParse.ParseDurationAsWritten | internal/parser/cache.go:313-341 | a standard duration is taken as is; text that is neither standard nor shorthand is refused; a shorthand whose count exceeds int64 is refused; otherwise a shorthand gives count × unit reduced to a signed 64-bit value, wrapping on overflow |
| CronParse.ParseDuration | internal/parser/cache.go:326-336 | the corrected parse, not the source's: a shorthand gives exactly count × unit when that fits in int64 and an overflow error otherwise; a standard duration is taken as is |
| CronParse.ParseDurationAgreesInRange | internal/parser/cache.go:326-336 | the checked parse and the as-written parse agree whenever the product fits in int64 |
| CronParse.DayShorthand | internal/parser/cache.go:334-335 | `<n>d` means n × 24 hours |
| CronParse.OverflowingShorthandRejected | internal/parser/cache.go:326-336 | the checked parse refuses "213504d" |
| CronParse.ParseEvery | internal/parser/cache.go:296-310 | `@every` succeeds exactly when parseDuration, as written, gives a positive duration, and yields a constant delay of that length |
| CronParse.EveryWrappedShorthandAccepted | internal/parser/cache.go:296-310 | `@every 213504d` is accepted as a constant delay of 1526290448384 ns |
| CronParse.ParseDescriptor | internal/parser/cache.go:151-195 | a known descriptor parses as its expansion, `@every ` goes to the duration rule, anything else is refused |
| CronParse.PrefixesExclusive | internal/parser/cache.go:128-142 | a spec starting with `@` starts with neither `TZ=` nor `CRON_TZ=` |
| CronParse.ParseNoCache | internal/parser/cache.go:126-148 | empty specs, `TZ=`/`CRON_TZ=` prefixes and descriptors without the descriptor option are refused; a success has none of these and a positive delay |
| CronParse.DescriptorParsesAsExpansion | internal/parser/cache.go:138-143 | with descriptors enabled, a descriptor parses exactly as its expansion for the configured resolution |
| CronParse.ConstantDelayNext | internal/parser/cache.go:350-352 | the next activation is the input plus the delay, so strictly later for a positive delay |
| CronParse.ScheduleNext | internal/parser/spec.go:56-58 | dispatches on the schedule kind and returns the next activation of that kind |
| ParseCache.SizeIsOrderLength | internal/parser/cache.go:93-98 | in a well-formed cache, the number of entries equals the length of the access order |
| ParseCache.TouchKeepsOrder | internal/parser/cache.go:109-123 | moving a present key to the end keeps the entries and well-formedness, puts the key last and keeps the relative order of the other keys |
| ParseCache.EvictOldest | internal/parser/cache.go:93-98 | removing the head of the order from both the map and the list keeps the cache well-formed and one smaller |
| ParseCache.InsertAddsOnlySpec | internal/parser/cache.go:93-102 | a miss brings no entry other than the new spec into the cache, and changes no kept entry |
| ParseCache.InsertKeepsCapacity | internal/parser/cache.go:93-102 | after an insert the cache is well-formed, within capacity, holds the new key last; when full it lost exactly the oldest key |
| ParseCache.LeastRecentlyUsedIsEvicted | internal/parser/cache_test.go:101-114 | with capacity one, inserting a second key evicts the first |
| ParseCache.ParserCache.constructor | internal/parser/cache.go:47-51 | a new cache is empty, well-formed and bound to its parser |
| ParseCache.ParserCache.UpdateAccessOrder | internal/parser/cache.go:109-123 | the search-and-splice loop moves the key to the end of the order |
| ParseCache.ParserCache.Add | internal/parser/cache.go:93-102 | a miss evicts the oldest key when full, then inserts and appends, keeping the invariant and the capacity |
| ParseCache.ParserCache.Lookup | internal/parser/cache.go:63-104 | the result always equals a fresh parse; a hit returns the stored schedule and moves its key last; a failed parse leaves the cache unchanged; a successful miss inserts; every cached schedule stays equal to a fresh parse of its spec |
| ParseCache.CacheTable.constructor | internal/parser/cache.go:30-33 | a new table holds no caches and has the given capacity |
| ParseCache.CacheTable.GetCacheForParser | internal/parser/cache.go:36-56 | equal options get the same cache instance; unseen options get a fresh empty one; no cache's contents change |
| ParseCache.CacheTable.ParseWithCache | internal/parser/cache.go:59-105 | the result always equals a fresh parse of the spec; the hit/miss rules apply to the cache for the parser's options, and every other cache is unchanged |
| Scheduler.Apply | options.go:42-82 | one option sets its own setting and leaves the other kinds as they were |
| Scheduler.LastOptionOfKindWins | scheduler.go:258-260 | applied in order, the last option of a kind decides that setting |
| Scheduler.UnmentionedFieldKept | scheduler.go:258-260 | a setting no option mentions keeps its value |
| Scheduler.CorrectedAdmitsUpToLimit | scheduler.go:381-389 | under the corrected rule, an async job with limit m, a queue of capacity m (as `SetMaxConcurrent` allocates it) and k runs in flight admits min(n, m − k) of n further attempts |
| Scheduler.AsWrittenAdmitsOneFewer | scheduler.go:381-389 | under the rule as written, the same job admits only min(n, m − 1 − k) |
| Scheduler.NilQueueAdmitsNothing | scheduler.go:381-401 | an async job with a positive limit and a nil queue admits none of any number of attempts, under either skip rule |
| Scheduler.SerialAsyncJobNeverRunsAsWritten | scheduler.go:381-389 | with limit 1, its queue allocated and nothing in flight, the rule as written admits no run and the corrected rule admits one |
| Scheduler.JobModel.constructor | scheduler.go:250-255 | a new model has running 1, the default settings, a nil queue with no slot held and no cancel function |
| Scheduler.JobModel.ApplyOptions | scheduler.go:258-260 | the option loop gives the settings obtained by applying the options in order |
| Scheduler.JobModel.SetMaxConcurrent | scheduler.go:294-299 | sets the limit, and a new empty queue of that capacity when the limit is positive |
| Scheduler.JobModel.Validate | scheduler.go:302-316 | fails exactly when there is no callback or the spec does not parse; on success the schedule is present |
| Scheduler.JobModel.Kill | scheduler.go:371-376 | sets running to 0 and cancels when there is a cancel function |
| Scheduler.JobModel.BeginRun | scheduler.go:381-405 | as written: skipped exactly when async, the limit positive and `running` at or above it; otherwise, for an async job with a limit, blocked exactly when the queue is nil or all its slots are held, and running and the slots held unchanged; admitted in every other case, taking a slot when async with a limit and counting the run; an admitted async run never takes `running` past the limit nor the queue past its capacity |
| Scheduler.JobModel.BeginRunCorrected | scheduler.go:381-405 | the corrected skip rule with the same queue step: skipped exactly when the runs in flight, `running - 1`, have reached the limit; blocked on a nil or full queue as above; admitted async runs in flight never exceed the limit nor the queue its capacity |
| Scheduler.JobModel.EndRun | scheduler.go:406 | a finished run releases the queue slot it holds, if any, and decrements the counter |
| Scheduler.JobModel.Run | scheduler.go:324-368 | the loop ends with no next time exactly when `Next` gives zero, or stops when killed; firings alone leave the counter and the queue slots held unchanged |
| Scheduler.NewJobModel | scheduler.go:243-263 | fails with ErrInvalidSpec exactly when the spec does not parse, and otherwise returns a fresh model with that schedule and the options applied |
| Scheduler.CronScheduler.constructor | scheduler.go:55-65 | a new scheduler has an empty table and is not cancelled |
| Scheduler.CronScheduler.Reset | scheduler.go:209-240 | validation errors and deny-replace on a taken name leave the table unchanged; otherwise the old job is killed and the model stored under the name |
| Scheduler.CronScheduler.Register | scheduler.go:117-121 | a taken name gives ErrAlreadyRegister and an unchanged table; otherwise the model is stored under its name |
| Scheduler.CronScheduler.DynamicRegister | scheduler.go:129-131 | replaces any job under the name, killing the old one |
| Scheduler.CronScheduler.UpdateJobModel | scheduler.go:124-126 | replaces any job under the name, killing the old one |
| Scheduler.CronScheduler.UnRegister | scheduler.go:134-146 | an absent name gives ErrNotFoundJob; a present one is killed and only that key removed |
| Scheduler.CronScheduler.StopService | scheduler.go:149-160 | kills and removes the named job, if present |
| Scheduler.CronScheduler.StopServicePrefix | scheduler.go:163-175 | kills and removes exactly the names with the prefix; other entries are untouched |
| Scheduler.CronScheduler.Stop | scheduler.go:89-98 | kills every job, empties the table and cancels the scheduler |
| Scheduler.CronScheduler.GetServiceCron | scheduler.go:178-188 | the stored model for a present name, ErrNotFoundJob otherwise |
| Scheduler.CronScheduler.GetServiceStatus | scheduler.go:191-201 | running > 0 for a present name, ErrNotFoundJob otherwise |
| Scheduler.RegisterThenStatus | scheduler.go:224-227 | a registered job reports running, and registering the name again is refused |
| Scheduler.ReplaceWithSameModel | scheduler.go:229-233 | replacing a job with its own model kills it, so it then reports not running |
| Scheduler.RegisterWithoutCallback | scheduler.go:214-217 | a model without a callback is refused with ErrJobDOFuncNil and nothing is stored |
| Scheduler.SerialAsyncJobAdmission | scheduler.go:381-401 | a fresh async model with limit 1 set through `WithMaxConcurrent` is skipped by the rule as written, blocked on its nil queue under the corrected rule, and admitted with a slot once `SetMaxConcurrent(1)` allocates the queue |
| TaskMonitor.Recorded | monitor.go:63-68 | one more run, one more success only on success, last run set to now, every other field kept, successes ≤ runs preserved |
| TaskMonitor.CountsAfterRecording | monitor.go:63-66 | from a fresh record, the run count is the number of executions and the success count the number of successful ones |
| TaskMonitor.Stats.constructor | monitor.go:10-18 | a record holds the given values |
| TaskMonitor.Stats.Record | monitor.go:63-68 | the in-place update equals the recorded value |
| TaskMonitor.Monitor.constructor | monitor.go:27-31 | a new monitor holds no records |
| TaskMonitor.Monitor.AddTask | monitor.go:34-43 | installs a fresh zero record under the id, replacing any earlier one |
| TaskMonitor.Monitor.RemoveTask | monitor.go:46-51 | removes only that id |
| TaskMonitor.Monitor.RecordExecution | monitor.go:54-69 | an unknown id changes nothing; a known one gets the recorded update and no other record changes |
| TaskMonitor.Monitor.SetRunning | monitor.go:72-79 | changes only the running flag of a known id |
| TaskMonitor.Monitor.GetStats | monitor.go:82-93 | a fresh copy of the record exactly when the id is known |
| TaskMonitor.Monitor.GetAllStats | monitor.go:96-107 | fresh copies of every record under the same ids |
| TaskMonitor.CopiesAreSnapshots | monitor.go:91-92 | a copy taken before a recorded execution keeps its old counts |
| JobRegistration.Registered | registry.go:36-43 | the table gains the name, keeps every earlier entry, and stores the job only when the name was free |
| JobRegistration.JobRegistry.constructor | registry.go:21-24 | a new registry is empty |
| JobRegistration.JobRegistry.RegisterJob | registry.go:31-44 | succeeds exactly when the job's name is free; a refusal names it and leaves the table unchanged |
| JobRegistration.JobRegistry.SafeRegisterJob | registry.go:53-59 | leaves the table as RegisterJob would, reporting nothing |
| JobRegistration.JobRegistry.GetRegisteredJobs | registry.go:62-71 | the copy has exactly the table's entries |
| JobRegistration.JobRegistry.ListRegistered | registry.go:94-103 | every registered name exactly once, as many names as entries |
| JobRegistration.JobRegistry.GetRegisteredJob | registry.go:106-112 | found exactly when the id is present, with its job |
| JobRegistration.SecondRegistrationRefused | registry.go:38-40 | a second job with the same name is refused and the first is kept |

## Left out

- Goroutines, timers, `sync.Once`, the WaitGroup, contexts and the `done`/`finished`/timeout channel choreography of `run` and `runWithTryCatch` (scheduler.go:319-477) are not modelled. A context is reduced to a cancelled flag. An async run is modelled as a begin step and an end step between two events.
- `Scheduler.JobModel.BeginRun`, `Scheduler.JobModel.BeginRunCorrected`: the `queue` channel (scheduler.go:391-401) is modelled by its capacity (`queueCapacity`, None while nil) and the slots held (`queued`). A run that finds no slot ends in `Blocked` with nothing changed. For a nil queue that is the source's permanent block; for a full one the model does not resume the run when a slot frees later, since goroutines and their interleaving are not modelled. A queue replaced by `SetMaxConcurrent` while runs hold slots of the old one is not modelled either: the deferred receives of those runs are left out.
- The callbacks themselves, the panic handler, `tryCatch`, the timeout, the logger and recovery.go have no sequential effect on the tables. `JobModel` keeps only whether a callback exists. Validate checks only `do`, as the source does.
- `reset`'s `autoStart` argument and starting the run loop are left out. A job registered after `Stop` would get an already cancelled context; the model only records the flag.
- The `model.scheduler` back-pointer is left out.
- `SetTryCatch` and `SetAsyncMode` (scheduler.go:284-292) are plain field setters and are not modelled separately.
- Time zones, DST and `time.Local` are not modelled: all times are in one fixed zone.
- `CronParse.ParseNoCache` refuses any `TZ=`/`CRON_TZ=` prefix, as internal/parser/cache.go:133-136 does. The package's feature description lists such a prefix as supported; the model follows the code.
- `getField`, `normalizeFields`, `places`, `all`, `Parser.Parse` and `time.ParseDuration` are not part of this model. They are function-valued parameters, so the model invents no field syntax. `CronParse.ParseDescriptor`'s field-count behaviour on the expanded text therefore rests on them.
- The lock-upgrade race in `parseWithCache` (internal/parser/cache.go:64-76) is left out. In sequential use the re-check always succeeds, so `ParserCache.UpdateAccessOrder` requires the key to be present.
- The package-level `parseCaches` and `maxCacheSize` are fields of `CacheTable`, and the capacity is a constructor argument of at least 1.
- Counter widths are not modelled: `running` (int32), the monitor's counters and `maxConcurrent` are unbounded integers, and wrap-around after 2^31 runs is ignored. The duration shorthand's int64 wrap-around is modelled as written in `CronParse.ParseDurationAsWritten`, which `ParseEvery` and everything above it use.
- `Scheduler.JobModel.EndRun` after `Kill` takes `running` to −1, as the source's deferred decrement does. The model keeps it, and `GetServiceStatus` then reports not running.
- `Scheduler.CronScheduler.Reset` stores the model under the given name and sets its `name` field. If one model object is stored under two names, the second registration renames it; the model captures this aliasing only through the object identity.
- `TaskMonitor.Monitor.RecordExecution` takes the duration but, like the source, does not use it. The current time is a parameter.
- Go map iteration order is not fixed. `StopServicePrefix`, `Stop`, `GetAllStats`, `GetRegisteredJobs` and `ListRegistered` pick keys in an arbitrary order, and their contracts do not depend on it.
- cron.go and crontab.go are thin façades over the scheduler, and `ScheduleRegistered` (registry.go:74-91) goes through them; they are not part of this model.
- The corrected rules of the findings below (`Scheduler.Skips`, `Scheduler.JobModel.BeginRunCorrected`, `CronParse.ParseDuration`) are proved beside the source's rules but are not wired in: `WithMaxConcurrent` still leaves the queue nil, and `JobModel.Run` and the parse pipeline (`ParseEvery`, `ParseDescriptor`, `ParseNoCache`, the cache) behave as the code is written.

## Findings

| source | as written | input that shows it | evidently intended | confidence | as-written member | corrected member |
|---|---|---|---|---|---|---|
| scheduler.go:381-389 | an async job is skipped when `running >= maxConcurrent`, but `running` already counts 1 for the live job (scheduler.go:253) | async job with `maxConcurrent` 1 (the default in crontab.go) and no run in flight: `running` is 1, so every run is skipped | at most `maxConcurrent` runs at once, so skip only when the in-flight count `running - 1` reaches the limit; the run then also needs the queue allocated, which only `SetMaxConcurrent` does (next row) | not executed | Scheduler.SerialAsyncJobNeverRunsAsWritten | Scheduler.CorrectedAdmitsUpToLimit |
| options.go:78-82 | `WithMaxConcurrent` sets the limit but, unlike `SetMaxConcurrent` (scheduler.go:294-299), leaves the `queue` channel nil, and an async run that passes the skip rule sends on it (scheduler.go:392-400) | the async job crontab.go:153-168 builds with `WithMaxConcurrent`: every run that passes the skip rule, corrected or not, blocks for ever on the nil channel | setting the limit allocates a queue of that capacity, as `SetMaxConcurrent` does, so runs up to the limit are admitted | not executed | Scheduler.NilQueueAdmitsNothing | Scheduler.SerialAsyncJobAdmission |
| internal/parser/cache.go:326-336 | the shorthand multiplies `n` by the unit in int64 without an overflow check | `@every 213504d`: 213504 × 86400 × 10^9 wraps to 1526290448384 ns, about 25 minutes, and is accepted | refuse a shorthand whose length does not fit in a `time.Duration` | not executed | CronParse.DurationShorthandWraps | CronParse.OverflowingShorthandRejected |
