# Paxalia: verified models of its stateful kernels

Paxalia is a Django dashboard that watches availability, collects application logs, throttles
authentication attempts and aggregates site statistics. This project models the parts of it that keep
state under rules, one Dafny module for each, and proves what those rules amount to over every
input, every run or every interleaving of the steps. Tables are maps and sequences of rows, a
transaction is one step, and clocks, database faults and schedules are inputs.

| module | what it models |
|---|---|
| `Incidents` | `record_check`: incidents opened and recovered from a bounded window of checks |
| `Scheduler` | `monitors_due_for_check`: which monitors a pass returns, and how long one can wait |
| `WindowSampler` | the fixed-window rule that log sampling and the throttle share, with its sharp rate bound |
| `RateLimiter` | the attempt counter in a shared cache, call by call on a clock and step by step between callers |
| `LogGrouping` | `persist_event`: groups, sampling windows, suppression, the retried insert |
| `InsertRace` | the same transactions interleaved between emitters of one new fingerprint |
| `LiveLogBuffer` | the ring buffer of live log lines and a client that polls it |
| `AsyncLogQueue` | the bounded queue of records, its worker, its flush and its shutdown |
| `LogPruning` | `prune_log_events`: four deletion phases with one budget |
| `DailyStats` | the repair of duplicate daily rows and the retried increment |
| `RevenueCalendar` | month arithmetic and the monthly revenue trend |
| `Redaction` | the tree sanitiser `redact`, over `OrderedDict`, a dictionary with Python's insertion order |
| `CohortRetention` | `compute_retention`: cohorts and their retention counts |

`Prelude` holds shared definitions. Objects that the program updates in place are classes; the
specification functions beside them are what the theorems are about.

Where the code and what one would expect of it part ways, the model follows the code and says exactly
when the expectation holds:

- `redact` is not idempotent. A dictionary that is cut can lose its truncation marker on a second pass
  when two of its keys collide or a key is the marker's own (`Redaction.TruncationMarkerIsLost`), and a
  text that grows beyond 4000 characters when its secrets are replaced is cut on the second pass
  (`Redaction.GrownTextIsCut`; `"token=a "` 500 times over becomes 8500 characters long).
  `Redaction.RedactedTwice` gives the exact condition on the input.
- With a sample cap of 0, the group-creating log event is neither stored nor counted as suppressed, so
  the books are off by one; they balance exactly for a cap of at least 1 (`LogGrouping.BalanceExactly`).
- The live buffer's `reset` also fires when nothing is lost but the oldest line left is the next
  unseen one and its cursor jumped (`LiveLogBuffer.ResetMeaning`). After `clear` it says nothing while the buffer is empty.
- The number of retention periods is capped at 12, so the columns of the cohort report add up for at
  most 12 active periods, whatever was asked for (`CohortRetention.CapHidesReturn`).
- The scheduler's waiting bound r/L + 1 needs the monitor within the scan, or enough due monitors ahead
  of it. With the clock standing still a due monitor is ever returned if and only if fewer than the scan
  limit of those ahead are not due (`Scheduler.EventuallyExactly`); `Scheduler.StarvingRun` is a monitor
  that starves.
- An expired, unprotected event whose severity is not a standard one is never taken by the retention
  phase (`LogPruning.TraceNeverExpires`); `LogPruning.SettledMeaning` and `LogPruning.FreedExactly` say
  exactly when pruning leaves no expired event. Such events are evicted last, with the rank of CRITICAL.

## Model

| member | source | states |
|---|---|---|
| Incidents.Clamped | paxalia/uptime.py:374-381 | a stored threshold from 1 to 20 acts as it is, 0 as 2, a larger one as 20 and a negative one as 1 |
| Incidents.TrailingMeaning | paxalia/uptime.py:357-363 | the trailing streak is a run of the status, and the check before it has another status |
| Incidents.Streak | paxalia/uptime.py:357-363 | the streak returned is the longest leading run of the status |
| Incidents.SpansMeaning | paxalia/uptime.py:394-450 | the step-by-step machine computes the one list of outages that reading the whole history from left to right yields: earliest run of F failures, then earliest run of R healthy checks after it, and so on |
| Incidents.OngoingMeaning | paxalia/uptime.py:394-450 | an outage is ongoing after a history if and only if some F consecutive failures have no R consecutive healthy checks anywhere after them |
| Incidents.ReachableStreaks | paxalia/uptime.py:394-396 | in every reachable state the trailing failures are fewer than F when nothing is open, and the trailing healthy checks fewer than R when something is |
| Incidents.WindowSeesStreak | paxalia/uptime.py:394-411 | a streak read through the newest w checks is the streak of the whole history whenever that is shorter than w |
| Incidents.BoundariesAreTight | paxalia/uptime.py:397-438 | each outage starts at the first failure of its streak and ends at the first healthy check of its streak |
| Incidents.TransitionsAreEarned | paxalia/uptime.py:395-450 | k outages and r recoveries cost at least k*F failed and r*R healthy checks, and r <= k <= r+1 |
| Incidents.FindOpenIncident | paxalia/uptime.py:395 | finds the newest incident that is not recovered, or none if there is none |
| Incidents.ApplyThresholds | paxalia/uptime.py:394-450 | the rules applied to the bounded window leave exactly the table that the unbounded history means, change at most the last row, and open or recover exactly when the streak reaches the threshold |
| Incidents.Monitor.RecordCheck | paxalia/uptime.py:366-450 | appends the check and keeps the incident table equal, row by row and field by field, to the meaning of the stored history; with stored thresholds F and R from 1 to 20 an incident opens at the F-th failure in a row and recovers at the R-th healthy check, with the start and end times of those streaks; all other rows stay as they were |
| Incidents.Monitor.Acknowledge | paxalia/views/uptime.py:285-300 | acknowledges exactly an ongoing incident, keeps everything else and the meaning of the table |
| Incidents.Monitor.OneUnresolved | paxalia/uptime.py:395-450 | at most one incident is unresolved, the newest, and one is if and only if an outage is confirmed |
| Incidents.Monitor.StoredThresholds | paxalia/uptime.py:374-450 | an incident is unresolved if and only if the stored history confirms an outage for the stored thresholds themselves, with 0 as 2 and larger ones as 20 |
| Incidents.Monitor.RowTells | paxalia/uptime.py:399-438 | each row's times are those of the first failure of its streak, of the check before it when that was healthy, and of the first healthy check of the streak that ended it |
| Incidents.Monitor.IncidentsAreDisjoint | paxalia/uptime.py:395-450 | incident intervals are non-empty, ordered and disjoint |
| Scheduler.EffectiveInterval | paxalia/models.py:1232-1243 | an interval from 30 seconds to one day acts as it is, others as the nearer bound; without one the legacy minutes act, and without those 5 minutes |
| Scheduler.DueMeaning | paxalia/uptime.py:536 | a monitor is due if it was never checked or its last check is at least its interval ago |
| Scheduler.ScanOrderMeaning | paxalia/uptime.py:527-531 | the scan takes monitors never checked first, then the longest unchecked, equals by key |
| Scheduler.CheckLimit | paxalia/uptime.py:519-523 | 1 to 5000 monitors a pass as configured, 100 if nothing usable is configured |
| Scheduler.ScanLimit | paxalia/uptime.py:532 | at least the check limit and at most 50000 as configured, 1000 or the check limit if nothing usable is configured |
| Scheduler.ScanForDue | paxalia/uptime.py:533-541 | the loop with two early exits returns the first L due monitors among the first S in scan order |
| Scheduler.MonitorsDueForCheck | paxalia/uptime.py:515-542 | the same for the limits as clamped from any configuration |
| Scheduler.OrderPosition | paxalia/uptime.py:527-531 | a monitor's place in the scan order is the number of monitors ahead of it |
| Scheduler.SelectionAhead | paxalia/uptime.py:533-541 | when a due monitor in reach is passed over, L distinct due monitors ahead of it were selected |
| Scheduler.PassProgress | paxalia/uptime.py:515-542 | a due monitor in reach that is not returned has exactly L fewer monitors ahead of it after the pass is recorded |
| Scheduler.WaitingBound | paxalia/uptime.py:515-542 | a due monitor with r monitors ahead, r below the scan limit, is returned within r/L + 1 passes |
| Scheduler.FleetWaitingBound | paxalia/uptime.py:515-542 | with N monitors all within the scan limit, within (N-1)/L + 1 passes |
| Scheduler.ReturnedExactly | paxalia/uptime.py:527-541 | a pass returns a monitor if and only if it is due, fewer than the scan limit are ahead of it, and fewer than L of those are due |
| Scheduler.OutOfReach | paxalia/uptime.py:532-541 | a pass never returns a monitor with at least as many others ahead as the scan limit |
| Scheduler.BlockedWaitingBound | paxalia/uptime.py:515-542 | with r monitors ahead, any number of them beyond the scan limit, and q of them not due, a due monitor is returned within r/g + 1 passes for every g up to L and up to the scan limit less q |
| Scheduler.Starves | paxalia/uptime.py:515-542 | while at least as many monitors ahead as the scan limit stay not due, no pass returns a monitor, however long it has been due |
| Scheduler.EventuallyExactly | paxalia/uptime.py:515-542 | with the clock standing still, enough passes return a due monitor if and only if fewer of the monitors ahead than the scan limit are not due |
| Scheduler.StarvingRun | paxalia/uptime.py:515-542 | two monitors and a scan limit of 1: runs of any length that return nothing while monitor 1 is due and r/L + 1 is 2 |
| WindowSampler.RateBound | paxalia/security_rate_limit.py:25-45 | any half-open interval of length T accepts at most limit*(ceil(T/width)+1) - 1 calls, wherever it lies |
| WindowSampler.VerdictMeaning | paxalia/security_rate_limit.py:25-45 | a call is accepted unless its window still lasts and has accepted its limit of calls |
| WindowSampler.OneWidthBound | paxalia/security_rate_limit.py:25-45 | an interval of one window's length accepts at most 2*limit - 1 calls, and at most limit when windows last one tick |
| WindowSampler.BoundIsAttained | paxalia/security_rate_limit.py:25-45 | for every limit and width some run reaches that bound |
| RateLimiter.AttemptCounter.Allowed | paxalia/security_rate_limit.py:15-45 | a call is granted if there is no live entry or it counts less than the limit, exactly as the fixed-window sampler accepts it; what remains is reported; a denial leaves the entry alone |
| RateLimiter.AttemptCounter.EntryMeaning | paxalia/security_rate_limit.py:25-45 | the entry counts the grants since it was added, at most the limit, and expires one window after that |
| RateLimiter.AttemptCounter.Clear | paxalia/security_rate_limit.py:52-56 | forgets the counter |
| RateLimiter.AttemptCounter.GrantsPerInterval | paxalia/security_rate_limit.py:25-45 | since the last clear no interval as long as the configured window contains twice the configured limit of grants |
| RateLimiter.OperateSafe | paxalia/security_rate_limit.py:28-45 | each single cache operation of each caller keeps the protocol invariant |
| RateLimiter.EveryInterleavingIsSafe | paxalia/security_rate_limit.py:28-45 | under every interleaving grants == min(counter, limit), a denial comes only once all grants are taken, and the counter stays at most limit + callers - 1 |
| RateLimiter.EveryCallIsAnswered | paxalia/security_rate_limit.py:28-45 | under every interleaving each call that was started has exactly one verdict or is still going on |
| LogGrouping.Effective | paxalia/logging/services.py:325-326 | the configured cap and window act as they are, a negative cap as 0 and a window below one second as one second |
| LogGrouping.Conservation | paxalia/logging/services.py:325-383 | occurrences equal stored events plus suppressed ones (plus one when the cap is 0), samples stay within the cap, first and last seen are those of the first and last event, and severity, source and category those of the last |
| LogGrouping.StoredAtAll | paxalia/logging/services.py:351-383 | with a cap of 0 nothing is ever stored, with any other cap the first event is |
| LogGrouping.BalanceExactly | paxalia/logging/services.py:325-383 | the books balance if and only if the sample cap is at least 1 |
| LogGrouping.SamplesLikeAWindow | paxalia/logging/services.py:355-383 | the window columns of a group row are a fixed-window sampler and what is stored is what it accepts |
| LogGrouping.WindowsApart | paxalia/logging/services.py:355-358 | sampling windows i and j of a group open at least (j - i) window lengths apart, in whatever order timestamps arrive |
| LogGrouping.StoredRate | paxalia/logging/services.py:355-383 | with timestamps that do not go back, at most M*(ceil(T/D)+1) - 1 events of a fingerprint are stored in any interval of length T |
| LogGrouping.CommitConsistent | paxalia/logging/services.py:333-383 | persisting one payload keeps every fingerprint's row and events equal to what its own payloads amount to |
| LogGrouping.LogTables.PersistEvent | paxalia/logging/services.py:286-399 | counts the payload exactly once or not at all, and the payload of the winner of a lost insert race as well; the retry finds the winner's group, so only disabled logging or another database error gives up |
| LogGrouping.LogTables.Commit | paxalia/logging/services.py:333-383 | the field-by-field transaction leaves the specified row, and an event exactly if it was sampled |
| LogGrouping.LogTables.GroupsBalance | paxalia/logging/services.py:325-383 | in every state each group's counters add up to its payloads and its stored events, and its descriptive fields are those of its first and newest payload |
| InsertRace.MoveInv | paxalia/logging/services.py:329-392 | every step of every emitter keeps: committed tables are those of a sequential run in commit order, at most one creator or lock holder, a retry finds the winner's row |
| InsertRace.NoDeadlock | paxalia/logging/services.py:333-392 | while an emitter is unfinished, some emitter can move |
| InsertRace.MoveDoesWork | paxalia/logging/services.py:329-392 | every step uses up work, so no schedule runs forever |
| InsertRace.EveryInterleaving | paxalia/logging/services.py:329-392 | N emitters take at most 4N steps, none exhausts its retry, and at rest one group counts all N |
| LiveLogBuffer.CursorMeaning | paxalia/logging/handler.py:115-133 | after n lines the cursor is the largest of n and, for each line, its time plus the number of lines after it |
| LiveLogBuffer.NumberedIncreases | paxalia/logging/handler.py:115-133 | cursors strictly increase |
| LiveLogBuffer.SeenByCursor | paxalia/logging/handler.py:135-168 | the cursor handed out after k lines is past exactly those k |
| LiveLogBuffer.SelectedLines | paxalia/logging/handler.py:148-160 | whether or not it resets, a snapshot selects exactly the unseen lines that are still held |
| LiveLogBuffer.ResetMeaning | paxalia/logging/handler.py:148-160 | a poll resets if and only if unseen lines are gone, or none is gone but the next unseen line is the oldest left and its cursor jumped |
| LiveLogBuffer.Buffer.Append | paxalia/logging/handler.py:83-133 | a record is buffered once, blank lines never, and the buffer keeps the newest lines up to its bound |
| LiveLogBuffer.Buffer.Clear | paxalia/logging/handler.py:170-173 | empties the buffer and keeps the cursor |
| LiveLogBuffer.Buffer.TakeSnapshot | paxalia/logging/handler.py:135-168 | returns the newest lines held, all after the cursor, as many as the limit allows and none left out for another reason; with the newest and oldest cursors and the reset flag |
| LiveLogBuffer.Buffer.MaxEntries | paxalia/logging/handler.py:75-81 | a configured bound from 1 to 50000 acts as it is, others as the nearer bound, 5000 if it is not a number |
| LiveLogBuffer.Buffer.HoldsNewest | paxalia/logging/handler.py:115-133 | without `clear` the buffer holds exactly the newest lines, as many as its bound allows |
| LiveLogBuffer.Client.Poll | paxalia/logging/handler.py:135-168 | a client that passes its cursor back gets exactly the lines it has not seen and that are left, in order and never twice; lost lines are reported; without a reset nothing was lost |
| LiveLogBuffer.Client.StaysInStep | paxalia/logging/handler.py:115-133 | appends between polls do not disturb a client |
| LiveLogBuffer.Converse | paxalia/logging/handler.py:83-168 | over any mix of lines and polls, without `clear`: when no poll reports a reset the client holds exactly every line appended from its start up to its last poll, in order; in any case no line twice |
| AsyncLogQueue.LogQueue.Emit | paxalia/logging/handler.py:301-386 | a record is filtered, recognised as captured, queued, dropped as the newest when 128 are waiting, or persisted inline, and exactly the matching books change |
| AsyncLogQueue.LogQueue.WorkerTake | paxalia/logging/handler.py:243-273 | the worker takes the oldest item |
| AsyncLogQueue.LogQueue.WorkerFinish | paxalia/logging/handler.py:243-273 | finishing persists the record once or stops the worker, and counts the item done |
| AsyncLogQueue.LogQueue.Shutdown | paxalia/logging/handler.py:289-299 | enqueues the request to stop if a worker lives and there is room, and otherwise nothing |
| AsyncLogQueue.LogQueue.FlushAsync | paxalia/logging/handler.py:275-287 | whatever other threads do meanwhile, True means everything enqueued so far is finished |
| AsyncLogQueue.LogQueue.EveryRecordOnce | paxalia/logging/handler.py:206-287 | in every state a captured record is in exactly one of dropped, inline, queued, in flight, finished; it is persisted at most once; finished items are a prefix of the enqueued ones; unfinished tasks are at most 129 |
| AsyncLogQueue.PersistedFinish | paxalia/logging/handler.py:243-273 | finishing the item in flight keeps persisted records equal to the inline and finished ones, without repetition |
| LogPruning.FirstIds | paxalia/resource_policies.py:184 | an ordered query with a limit answers a downward-closed set in the eviction order |
| LogPruning.OldestGroups | paxalia/resource_policies.py:220-222 | the query for dangling groups answers ones longest unseen |
| LogPruning.NextSeverity | paxalia/resource_policies.py:156-193 | one more severity of the loop extends the first ids of all severities so far to those including it |
| LogPruning.LogStore.DeleteExpired | paxalia/resource_policies.py:156-193 | the loop over severities with a shrinking budget deletes what one ordered query over all expired unprotected events would |
| LogPruning.LogStore.DeleteExcess | paxalia/resource_policies.py:195-208 | deletes the first unprotected events in eviction order, as many as exceed the cap and the budget allows |
| LogPruning.LogStore.DeleteOversize | paxalia/resource_policies.py:210-218 | while the table is too large deletes unprotected events in eviction order, within the budget |
| LogPruning.LogStore.PruneLogEvents | paxalia/resource_policies.py:147-228 | a run performs the four phases in order with one budget, and its summary is the number of rows each removed |
| LogPruning.RunKeepsItsBudget | paxalia/resource_policies.py:152-228 | a run deletes at most its budget over all four phases, and the store shrinks by exactly that much |
| LogPruning.CapIsNotUndershot | paxalia/resource_policies.py:195-208 | the cap phase never goes below the cap |
| LogPruning.RunSparesProtected | paxalia/resource_policies.py:124-129 | every event of severity CRITICAL, of source Authentication or of a category beginning with "security" survives every run, and so does every group that still has an event |
| LogPruning.RetentionInOrder | paxalia/resource_policies.py:156-193 | the retention phase takes only expired events that may go, none while one of a lower severity stays, and among equals the older first, at equal times the lower key |
| LogPruning.RetentionIsThorough | paxalia/resource_policies.py:156-193 | an expired event that may go outlives a run only if the budget is spent |
| LogPruning.CapInOrder | paxalia/resource_policies.py:195-206 | the cap phase evicts in the same order |
| LogPruning.CapIsThorough | paxalia/resource_policies.py:195-206 | it takes nothing from a store within the cap, stops at the cap, and falls short only for want of budget or of events that may go |
| LogPruning.StorageInOrder | paxalia/resource_policies.py:210-218 | the storage phase runs only when the table is larger than a limit above 0, and evicts in the same order |
| LogPruning.StorageIsThorough | paxalia/resource_policies.py:210-218 | it stops only for want of budget or of events that may go |
| LogPruning.GroupsInOrder | paxalia/resource_policies.py:220-227 | the groups that go have no event left and are longest unseen; another such group stays only for want of budget |
| LogPruning.DefaultPeriods | paxalia/resource_policies.py:13-19 | without configuration events expire after 7, 30, 60 and 180 days by severity, and a severity that is not standard after 30 |
| LogPruning.SeverityPeriods | paxalia/resource_policies.py:72-77 | a configured period replaces the default, a negative one counts as 0, what is not a number is ignored |
| LogPruning.CategoryPeriods | paxalia/resource_policies.py:80-89 | a category policy takes precedence: its own period, else that of "system", else that of the severity |
| LogPruning.BudgetMeaning | paxalia/resource_policies.py:152 | the budget is the requested size, or the configured one when the request is not a number, and at least 1 |
| LogPruning.QuietExactlyWhenSettled | paxalia/resource_policies.py:147-228 | a run deletes nothing if and only if no expired unprotected event of a standard severity is left, each limit holds or only protected events remain, and no group dangles |
| LogPruning.EligibleMeaning | paxalia/resource_policies.py:157-183 | the retention phase can take every expired unprotected event except those of a severity that is not a standard one |
| LogPruning.SettledMeaning | paxalia/resource_policies.py:147-228 | a settled store keeps no expired unprotected event if and only if no unprotected event of another severity is expired |
| LogPruning.ForgottenOutlivesRetention | paxalia/resource_policies.py:157-218 | only the record cap and the storage limit ever remove an expired event of another severity |
| LogPruning.TraceNeverExpires | paxalia/resource_policies.py:157-162 | an expired unprotected TRACE event that no run deletes |
| LogPruning.RunsConverge | paxalia/resource_policies.py:147-228 | repeated runs reach a settled state within as many runs as there are rows, whatever sizes the table reports; of the expired unprotected events it keeps only ones of other severities that were there from the start |
| LogPruning.FreedExactly | paxalia/resource_policies.py:147-228 | without pressure from the cap and the storage limit, runs free the store of expired unprotected events if and only if none of another severity was there to begin with |
| DailyStats.MergeIsUnique | paxalia/migrations/0018_fix_dailysitestats_duplicates.py:25-54 | after the repair each (site, date) has exactly one row, the one with its lowest id |
| DailyStats.MergeIsStable | paxalia/migrations/0018_fix_dailysitestats_duplicates.py:25-54 | a table without duplicates is left exactly as it is, so a second repair changes nothing |
| DailyStats.RepairedRow | paxalia/migrations/0018_fix_dailysitestats_duplicates.py:33-50 | a row that is left has the lowest id of its site and date, keeps every other field, and each of its seven counters and of its path counts is the sum, by plain addition, over all rows of that site and date |
| DailyStats.OneRowIsLeft | paxalia/migrations/0018_fix_dailysitestats_duplicates.py:25-54 | every site and date of the table keeps exactly one row |
| DailyStats.GrandTotalsStay | paxalia/migrations/0018_fix_dailysitestats_duplicates.py:25-54 | the sum of each counter over the whole table, by plain addition, is the same before and after |
| DailyStats.TotalsAreConserved | paxalia/migrations/0018_fix_dailysitestats_duplicates.py:25-54 | so are the tallies of counters and of every path's views |
| DailyStats.FoldGroup | paxalia/migrations/0018_fix_dailysitestats_duplicates.py:33-50 | the loop over duplicates folds a group into its first row, counters and pages |
| DailyStats.AddPages | paxalia/migrations/0018_fix_dailysitestats_duplicates.py:40-48 | adds two page counts path by path |
| DailyStats.StatsTable.MergeDuplicateDailyStats | paxalia/migrations/0018_fix_dailysitestats_duplicates.py:15-54 | the grouping, folding and deleting loops leave the repaired table, each row with the sums over its site and date |
| DailyStats.StatsTable.IncrementDailyStats | paxalia/middleware.py:264-307 | adds exactly one to bot views, API calls or page views, by kind, of the row of that site and date, or creates that row with a single one, and leaves every other field and row alone; or raises with nothing changed: a lock after three locked attempts, any other error at once, several rows for the day; uniqueness is kept |
| RevenueCalendar.OrdinalOrder | paxalia/revenue.py:67-78 | day numbers order and tell apart dates exactly as year, month and day do |
| RevenueCalendar.ShiftActs | paxalia/revenue.py:54-57 | shifting months is an additive action with identity 0 and inverses, and is determined by the distance |
| RevenueCalendar.MonthBounds | paxalia/revenue.py:44-51 | fails exactly for years outside 1..9999 or months outside 1..12, and otherwise gives two valid dates |
| RevenueCalendar.LastDays | paxalia/revenue.py:44-51 | the months have their calendar lengths, February 29 days in leap years |
| RevenueCalendar.DaysBeforeYearMeaning | paxalia/revenue.py:44-57 | the years before year y have 365(y-1) + (y-1)/4 - (y-1)/100 + (y-1)/400 days |
| RevenueCalendar.BoundsMeaning | paxalia/revenue.py:44-51 | a date lies within a month's bounds if and only if it is in that month, leap years and December included |
| RevenueCalendar.MonthsTile | paxalia/revenue.py:44-57 | a month's last day is the day before the first day of the month shifted by one |
| RevenueCalendar.OneMonthEach | paxalia/revenue.py:70-73 | a day is within the bounds of the month i back if and only if i is its distance in months |
| RevenueCalendar.SpansAddUp | paxalia/revenue.py:74-76 | paid amounts over two adjoining spans add up to those over their union |
| RevenueCalendar.OneMoreInvoice | paxalia/revenue.py:74-78 | one more invoice adds its amount to the value of its own month if it is paid and not later than today, and to no other |
| RevenueCalendar.MonthlyRevenueTrend | paxalia/revenue.py:60-86 | one value for each consecutive month ending with today's, each the paid invoices of that month up to today; their sum is everything paid from the oldest month's first day through today; fails exactly when the oldest month is before year 1 |
| Redaction.Redact | paxalia/logging/redaction.py:59-99 | the loops that build the result compute the specified walk from depth 0 |
| Redaction.RedactAt | paxalia/logging/redaction.py:67-97 | the same at every depth, branch by branch |
| Redaction.RedactEntries | paxalia/logging/redaction.py:76-87 | the loop over a mapping with its early break leaves the specified dictionary, for every item limit including negative ones |
| Redaction.RedactItems | paxalia/logging/redaction.py:88-93 | the list branch keeps what Python's slice keeps, for every item limit including negative ones |
| Redaction.HiddenStaysHidden | paxalia/logging/redaction.py:67-97 | inputs that differ only under sensitive keys, in bytes, below the depth limit or beyond the item limit give equal results |
| Redaction.HarmlessIsKept | paxalia/logging/redaction.py:67-97 | data with nothing to hide and within every limit pass unchanged |
| Redaction.EntryIsKept | paxalia/logging/redaction.py:76-87 | in mixed data an entry that is visited, not replaced later, not sensitive and harmless keeps its key and value |
| Redaction.SecretIsReplaced | paxalia/logging/redaction.py:82-84 | a visited entry whose normalised key is sensitive shows only the redaction marker |
| Redaction.LeavesAreShown | paxalia/logging/redaction.py:68-75 | texts are cut at 4000 characters and redacted, other objects likewise or named unserializable, bytes and what is too deep named |
| Redaction.ListsAreShown | paxalia/logging/redaction.py:88-93 | of a list as many items are shown as the limit allows, in order, and a marker for the rest |
| Redaction.CutsAreMarked | paxalia/logging/redaction.py:78-81 | a mapping that is cut carries the truncation entry |
| Redaction.OutputIsClean | paxalia/logging/redaction.py:67-97 | results respect the depth and item limits, have distinct short keys, show only the redaction marker under sensitive keys, and contain no bytes or foreign objects |
| Redaction.RedactedTwice | paxalia/logging/redaction.py:67-97 | redacting a result again changes nothing if and only if the input is stable: kept texts refit, every cut dictionary either ends in its marker after the full number of different keys or lies where a visited marker survives, and a limit below -1 leaves lists empty |
| Redaction.FittingText | paxalia/logging/redaction.py:72-73 | a redacted text within the 4000-character cut refits if and only if the text redactor leaves it alone |
| Redaction.GrownTextIsCut | paxalia/logging/redaction.py:72-73 | a text that outgrows the cut when redacted is changed by a second pass, unless its cut form grows again |
| Redaction.RegularDataAreRedactedOnce | paxalia/logging/redaction.py:59-99 | redact is idempotent on data whose kept texts refit and whose keys are regular, at any depth limit and item limit from -1 up |
| Redaction.MarkerKeyIsUnstable | paxalia/logging/redaction.py:78-81 | for all limits, a mapping that is cut and has an entry under the marker's key changes on the second pass when it lies at the depth limit |
| Redaction.TruncationMarkerIsLost | paxalia/logging/redaction.py:59-81 | such a mapping of 101 different keys at the default limits 6 and 100 |
| OrderedDict.AssignedMeaning | paxalia/logging/redaction.py:77-87 | assignments leave one entry a key, the last one, and as many entries as assignments only if no key repeats |
| OrderedDict.PutKeepsPlaces | paxalia/logging/redaction.py:84-86 | an assignment never moves a key and appends a new one |
| CohortRetention.CollectVisits | paxalia/cohorts.py:55-57 | a session's collected periods are exactly those of its rows |
| CohortRetention.VisitsAreUnique | paxalia/cohorts.py:49-57 | the rows determine the visits, so the order in which rows arrive does not matter |
| CohortRetention.CollectCohorts | paxalia/cohorts.py:62-68 | each cohort holds exactly the sessions whose first period it is |
| CohortRetention.FollowCohort | paxalia/cohorts.py:76-88 | a cohort's line has its size and, for each following period within the limits, the members active in it |
| CohortRetention.FollowCohorts | paxalia/cohorts.py:66-90 | for any collected visits the loops give a line for each cohort shown, in order, and none for others |
| CohortRetention.NewestCohorts | paxalia/cohorts.py:73 | the report shows the newest n cohorts, oldest first, for 0 all and for a negative number all but the oldest ones |
| CohortRetention.NewerIsShown | paxalia/cohorts.py:73 | a cohort newer than one that is shown is shown as well |
| CohortRetention.ComputeRetention | paxalia/cohorts.py:30-90 | the report has a line for each cohort that the period limit keeps, in order, for every limit including 0 and negative ones |
| CohortRetention.FirstMeaning | paxalia/cohorts.py:62-64 | a session's first period is one it was seen in and none is earlier, and the cohorts are those of first periods |
| CohortRetention.OneCohortEach | paxalia/cohorts.py:62-68 | every session is in the cohort of its first period and in no other |
| CohortRetention.CohortsAddUp | paxalia/cohorts.py:62-68 | the cohorts of different periods are disjoint: over any set of sessions their sizes add up to the sessions that began in one of the periods |
| CohortRetention.LineBounds | paxalia/cohorts.py:81-86 | offset 0 retains the whole cohort and no offset retains more |
| CohortRetention.SizesAddUp | paxalia/cohorts.py:73-88 | the sizes count each session of a shown cohort once, hence all sessions when no cohort is cut off |
| CohortRetention.RetainedAddUp | paxalia/cohorts.py:73-88 | read down one calendar period the counts add up to the sessions active in it whose cohort is shown and recent, and to all active sessions if and only if all are of that kind |
| CohortRetention.FewPeriodsAddUp | paxalia/cohorts.py:73-88 | with no more active periods than the (capped) limit, every column adds up to its active sessions |
| CohortRetention.CapHidesReturn | paxalia/cohorts.py:26-37 | 13 active periods asked for in full still lose a return, because of the cap |

## Left out

- Incidents.Monitor.RecordCheck: thresholds are fixed for a monitor and check times strictly increase; if thresholds are lowered in mid-streak the window can cut off the start of a streak. Alerts, status codes, messages and the location fields of checks are not modelled.
- Scheduler.WaitingBound: the set of active monitors is fixed and every returned monitor is checked before the next pass; leases that skip a check are not modelled.
- RateLimiter.AttemptCounter.Allowed: failures of the cache (where the code grants, or falls back from `incr` to `set`) and the hashing of the key are not modelled; `incr` is atomic and keeps the expiry.
- RateLimiter.EveryInterleavingIsSafe: speaks about the lifetime of one cache entry; expiry in the middle of a call is not modelled.
- LogGrouping.LogTables.PersistEvent: payload fields other than fingerprint, severity, source, category and time, the `raise_on_error` switch, and the deletion of the winner's group between two attempts are not modelled, so a second lost race does not occur; limits are fixed.
- InsertRace.EveryInterleaving: no database failure other than the lost race; a row lock and the unique constraint behave as in PostgreSQL.
- LiveLogBuffer.Client.Poll: polls with the default limit; with a smaller limit the oldest unseen lines beyond it are not delivered. The bound is fixed, and level, logger and stack of a line are not modelled. The view that merges the buffer with stored events is not part of this model.
- AsyncLogQueue.LogQueue.Emit: records are numbers, their capture flag is a set; diagnostics, fallback output and the building of payloads are not modelled.
- LogPruning.LogStore.PruneLogEvents: `dry_run` is not modelled; the size of the table is an input; prefix comparison of categories is case-sensitive.
- DailyStats.StatsTable.IncrementDailyStats: increments run one after another; two requests that create the first row of a day at once are not modelled.
- RevenueCalendar.MonthlyRevenueTrend: amounts are real numbers, so the final conversion to float is not modelled; labels are months, not printed text. Churn and dunning are not part of this model.
- Redaction.Redact: the regular expressions of the text redactor and of key normalisation are parameters, as is the set of sensitive names; an exception raised by the text of a key is not modelled. `bound_json` is not part of this model.
- CohortRetention.FollowCohort: the rounded percentage beside each count is not modelled.
- CohortRetention.ComputeRetention: the percentage beside each count and the truncation of time stamps to weeks or months are not modelled.
- Availability checks over HTTP, DNS pinning and alert delivery: network I/O.
- Views, forms, templates, the admin registry, package import and authentication ceremonies: framework plumbing, or library cryptography.
- Funnels, goals, anomalies, scorecards, health checks and settings: not modelled.
