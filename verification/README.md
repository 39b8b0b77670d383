# Dafny models of the repository's stateful core

Dafny models of seven parts of the repository, each with proofs of what the part is for. Code that
changes things in place is a class or a method, proved against a specification function; the laws
are lemmas about those functions, for all inputs and all runs.

- **Run merging in Word documents** (`RunText`, `MergeRuns`): the in-place rewrite of a container's
  children, and what Word draws before and after it.
- **The build graph runner** (`BuildGraph`): start order, width, and which graphs complete.
- **The scheduler** (`Clock`, `CronField`, `Schedules`, `CronText`, `Crontab`, `Ticks`): the Gregorian
  calendar, cron fields (crontab, INPUT FILES section of IEEE Std 1003.1-2017), the bounded minute
  searches, and the tick loop that fires each slot once.
- **Run lifecycle** (`RunLifecycle`, `InterruptedSweeps`, `WorkerRun`, `SpawnSlots`): the registry
  as a state machine over admission, worker stream, engine failure and watchdog; the worker's line
  framing; upstream labels; the spacing of spawns.
- **Proxy rotation** (`ProxyRotation`): least recently used by timestamp behaves as a rotating queue.
- **The model roster** (`ModelRoster`): what successive refreshes keep.
- **Presentation cleanup** (`PptxClean`): the delete-until-nothing-changes loop.

`Wrappers`, `Basics` and `Strings` hold an option type, set and sequence facts, and splitting and
joining of strings. `dafny verify dfyconfig.toml` checks everything.

## Assumptions

- Document text elements (`w:t`, `w:delText`) hold character data only, and no run is a direct child
  of a run. Formatting is the serialised `rPr`. Nodes of a container that are not elements draw nothing.
- Which build steps fail is given; `Runner.Run` leaves open which running steps finish next.
- Times are integers on a clock with a fixed offset. Scheduler ticks do not overlap. Schedule numbers
  are integers (a fractional hour, minute or day never equals a clock reading) except `every`, which is
  a real number. Entry names are distinct.
- Session ids are fresh at admission, the run cap is fixed, stored JSON and ISO dates read back
  unchanged, and each session has one worker.
- Proxy keys are distinct and the pool keeps its content where the rotation laws say so.
- The files a `.rels` file points to (after path resolution) are given by a function and do not change
  during the cleanup.

## Where the code does less than it says

Each is kept as the code has it, with an exact condition and a concrete or general input.

- The comment at `subworkers-omp/omp-server/scheduler.ts:85` says null means unscheduled. An `every` schedule whose
  days leave three in a row out also gets null on some dates (`Schedules.EveryNullExactly`,
  `Schedules.EveryMissesNextMonday`). A cron schedule does whenever its day fields leave 32 days in a
  row out somewhere in the calendar: yearly schedules, Friday the 13th, the 29th to 31st
  (`Schedules.CronNullExactly`, `Schedules.CronSearchCompleteExactly`, `Crontab.NewYearMissed`).
- A cron expression needs day of month **and** weekday to match; crontab takes either when both are
  restricted (`Crontab.ThirteenthOrFriday`, `Crontab.AgreesExactly`).
- `subworkers-omp/omp-server/scheduler.ts:233` promises one trigger per slot, ever. A trigger that throws is tried
  again in the same slot, so only successful triggers can be meant; for those the promise holds
  exactly when the clock never comes back to a slot it has left, with a trigger that succeeds both
  times (`Ticks.FiresOnceExactly`, `Ticks.BackwardClockFiresTwice`).
- The watchdog awaits inside its loop, so a run that ended meanwhile can be overwritten and announced
  twice. The registry is safe exactly when that never happens (`InterruptedSweeps.SafeExactlyWhenNeverLate`,
  `InterruptedSweeps.LateVisitHappens`). A frame that arrives meanwhile does not save a run either
  (`InterruptedSweeps.FrameTooLate`).
- The roster version (`subworkers-omp/omp-server/models.ts:51`) triggers refetches, but does not move when a stale
  id is dropped or listed again (`ModelRoster.RosterKeptExactly`), nor when the particulars of a
  served model change, such as its deprecated flag (`ModelRoster.ServedKeptExactly`,
  `ModelRoster.FlagFlipsSilently`).
- The proxy rotation cycles through the pool exactly when every choice comes due again before the
  n - 2 choices that followed it (`ProxyRotation.CyclesExactly`). Increasing times are enough, and two
  proxies always alternate. With three or more, forced rotations that all bear the time of the start
  break the cycle at rotation n + 2 (`ProxyRotation.TiedCyclesExactly`).

## Model

| member | source | states |
|---|---|---|
| RunText.MergedText | skills/docx/scripts/merge_runs.py:242-259 | the element two text elements are folded into draws what the first drew followed by what the second drew, and is marked preserve exactly when one of them was or it has edge white space |
| RunText.StripIs | skills/docx/scripts/office/helpers/__init__.py:67-71 | exactly the spaces, tabs, carriage returns and line feeds at the two ends are trimmed |
| RunText.DrawOne | skills/docx/scripts/office/helpers/__init__.py:70-71 | a text element draws its characters one by one, trimmed unless preserved, another element itself, anything else nothing |
| RunText.FormatIs | skills/docx/scripts/merge_runs.py:103-112 | the formatting of a run is that of its first `rPr` child, character for character |
| RunText.BlocksIs | skills/docx/scripts/merge_runs.py:119-124 | the sibling walk is stopped by elements and by text with a character that is not white space |
| RunText.Run.IsAdjacent | skills/docx/scripts/merge_runs.py:115-125 | the sibling walk says yes exactly when the second child comes later and neither an element nor a non-blank text node lies between |
| RunText.Run.ConsolidatePair | skills/docx/scripts/merge_runs.py:241-261 | folding one pair in place replaces the first element and drops the second, and only when they are adjacent |
| RunText.Run.ConsolidateTextElements | skills/docx/scripts/merge_runs.py:235-261 | the right-to-left loop over positions taken in advance leaves the child list that consolidation by recursion defines |
| RunText.Run.ConsolidateText | skills/docx/scripts/merge_runs.py:230-232 | both kinds are consolidated, `t` first |
| RunText.ConsolidatedKeepsDrawing | skills/docx/scripts/merge_runs.py:235-261 | consolidating one kind of text changes neither the formatting nor any drawn character or item, nor their order |
| RunText.ConsolidatedRunKeepsDrawing | skills/docx/scripts/merge_runs.py:230-261 | a consolidated run draws exactly what the run drew, edge trimming included |
| RunText.ConsolidatedSeparated | skills/docx/scripts/merge_runs.py:235-261 | consolidating one kind leaves no adjacent pair of it and creates none of the other kind |
| RunText.ConsolidatedByFolds | skills/docx/scripts/merge_runs.py:235-261 | consolidation does nothing but fold adjacent pairs of its kind, one for each element that is lost |
| RunText.ConsolidatedRunNormal | skills/docx/scripts/merge_runs.py:230-261 | afterwards no two adjacent `t` and no two adjacent `delText` remain, and a run in that form is left alone |
| MergeRuns.CanMergeIs | skills/docx/scripts/merge_runs.py:195-203 | two runs can be merged if and only if neither has an `rPr`, or the first `rPr` of each carries the same xml |
| MergeRuns.MovedAt | skills/docx/scripts/merge_runs.py:206-211 | what moves are exactly the elements other than `rPr`, each behind those before it |
| MergeRuns.NonRunsAt | skills/docx/scripts/merge_runs.py:145-162 | the other children are exactly those that are not runs, each behind those before it |
| MergeRuns.JoinedRunDraws | skills/docx/scripts/merge_runs.py:195-211 | a run that takes over the content of a run of equal formatting draws both one after the other |
| MergeRuns.MergedKeepsDrawing | skills/docx/scripts/merge_runs.py:145-162 | for every container the drawing is unchanged (each character or item with its formatting and kind, in order), runs before are runs after plus the merge count, and every other child stays in order |
| MergeRuns.MergedStepwise | skills/docx/scripts/merge_runs.py:145-162 | merging does nothing but let a run absorb the mergeable run next to it, as often as it counts, and consolidate a run |
| MergeRuns.MergeIsIdempotent | skills/docx/scripts/merge_runs.py:145-162 | afterwards no two element-adjacent runs are mergeable and every run is consolidated; a second pass merges nothing and changes nothing |
| MergeRuns.MergeIsNoOpExactlyWhenSettled | skills/docx/scripts/merge_runs.py:145-162 | a pass leaves the container as it is if and only if nothing could be merged or consolidated |
| MergeRuns.MergeRunContent | skills/docx/scripts/merge_runs.py:206-211 | every element but `rPr` moves to the end of the target in order, the rest stays behind |
| MergeRuns.Container.NextElement | skills/docx/scripts/merge_runs.py:172-178 | the next element sibling is found past all other nodes |
| MergeRuns.Container.NextRun | skills/docx/scripts/merge_runs.py:165-188 | the next run is found past all other children |
| MergeRuns.Container.MergeFollowing | skills/docx/scripts/merge_runs.py:150-160 | the inner loop keeps the walk on its way to the same outcome and merge count |
| MergeRuns.Container.MergeRunsIn | skills/docx/scripts/merge_runs.py:145-162 | in place: drawing and other children unchanged, runs accounted for by the returned count, nothing left to merge, a second pass would change nothing |
| BuildGraph.BuildableIsLeast | setup/oh-my-openagent/script/build.ts:84-107 | the buildable nodes are the least set closed under "all dependencies are in the set" |
| BuildGraph.ByIdIsLast | setup/oh-my-openagent/script/build.ts:89 | an id stands for the last node that carries it |
| BuildGraph.PendingInOrder | setup/oh-my-openagent/script/build.ts:88 | pending ids come in the order of their first occurrence in the graph |
| BuildGraph.UnbuildableHasCause | setup/oh-my-openagent/script/build.ts:103-105 | whenever some node cannot be built, an unbuildable node names a missing dependency or unbuildable nodes form a cycle |
| BuildGraph.AllBuildableExactlyWhenAcyclic | setup/oh-my-openagent/script/build.ts:103-105 | everything can be built if and only if all dependencies exist and none is circular |
| BuildGraph.ScheduleOrder | setup/oh-my-openagent/script/build.ts:94-102 | in every schedule a node starts once, and each of its dependencies finished earlier |
| BuildGraph.ScheduleWidth | setup/oh-my-openagent/script/build.ts:87-95 | in every schedule at most `limit` nodes run at any moment |
| BuildGraph.StartKeepsConsistent | setup/oh-my-openagent/script/build.ts:94-102 | starting a ready node below the limit keeps done, running and pending a partition and the trace a schedule |
| BuildGraph.FinishKeepsConsistent | setup/oh-my-openagent/script/build.ts:99-102 | so does the end of a step |
| BuildGraph.StuckMeansUnbuildable | setup/oh-my-openagent/script/build.ts:103-105 | with nothing running and nothing ready, what is done is exactly what can be built, and a shortfall means repeated ids, a missing dependency or a cycle |
| BuildGraph.FullMeansComplete | setup/oh-my-openagent/script/build.ts:93 | reaching the loop's count means every node is done, ids are distinct and the graph is closed and acyclic |
| BuildGraph.DistinctIds | setup/oh-my-openagent/script/build.ts:88-93 | there are as many ids as nodes exactly when no id repeats |
| BuildGraph.Runner.Launch | setup/oh-my-openagent/script/build.ts:94-102 | one scan starts, in order, exactly the ready nodes up to the place where the limit is reached, or all of them, and keeps the rest in order; the trace stays a schedule |
| BuildGraph.Runner.Settle | setup/oh-my-openagent/script/build.ts:99-102 | finished steps move from running to done |
| BuildGraph.Runner.Run | setup/oh-my-openagent/script/build.ts:84-120 | given the steps that fail: terminates with a legal schedule; fails exactly when a failing step can be built, and with such a step; otherwise completes if and only if ids are unique and the graph is closed and acyclic, and else has done exactly the buildable nodes and lists the rest |
| Clock.EveryDayOfMonthComes | subworkers-omp/omp-server/scheduler.ts:140-145 | on the Gregorian calendar any 31 consecutive days contain every day of the month up to the 28th |
| Clock.DateOnWeekday | subworkers-omp/omp-server/scheduler.ts:144-147 | every date of the calendar, 29 February included, falls on every weekday |
| Clock.CalendarRepeats | subworkers-omp/omp-server/scheduler.ts:140-145 | dates and weekdays repeat after 400 years |
| Clock.DateIs | subworkers-omp/omp-server/scheduler.ts:144-146 | the date of a day is the one with that day number in the arithmetic of the Gregorian calendar |
| CronField.ChunksDenote | subworkers-omp/omp-server/scheduler.ts:155-180 | a field is rejected exactly when a chunk is malformed, and otherwise denotes the union of its chunks' progressions |
| CronField.AddRange | subworkers-omp/omp-server/scheduler.ts:157-159 | the stepping loop adds exactly the members of the progression |
| CronField.ProgressionIs | subworkers-omp/omp-server/scheduler.ts:157-159 | the members are first, first + step, first + 2 * step and so on up to last |
| CronField.ParseIntIs | subworkers-omp/omp-server/scheduler.ts:163-174 | a number is an optional sign and decimal digits, whatever follows |
| CronField.ParseIntNone | subworkers-omp/omp-server/scheduler.ts:163-175 | there is no number exactly without a digit in front or after the sign |
| CronField.ValueIs | subworkers-omp/omp-server/scheduler.ts:163-174 | digits are read in base ten |
| CronField.PlainChunk | subworkers-omp/omp-server/scheduler.ts:160-177 | a chunk that is a star or a number |
| CronField.RangeChunk | subworkers-omp/omp-server/scheduler.ts:167-172 | a chunk of two numbers with a hyphen between them |
| CronField.SteppedChunk | subworkers-omp/omp-server/scheduler.ts:161-164 | a step of at least 1 thins out the chunk it is attached to, any other rejects it |
| CronField.ParseCronField | subworkers-omp/omp-server/scheduler.ts:155-180 | the parser returns a set exactly for well-formed fields, and a number is in it exactly when some chunk denotes it |
| CronField.ParsePrintedTerm | subworkers-omp/omp-server/scheduler.ts:160-177 | a printed number, range or step reads back as the progression it stands for |
| CronField.ParsePrintedField | subworkers-omp/omp-server/scheduler.ts:155-180 | printing any list of terms and parsing it gives exactly the numbers the terms stand for |
| CronField.ParseCommaList | subworkers-omp/omp-server/scheduler.ts:155-180 | a printed comma list of naturals reads back as exactly those numbers |
| CronField.ParsePlainRange | subworkers-omp/omp-server/scheduler.ts:155-180 | a printed range without a step denotes exactly the numbers from its first to its last |
| CronText.PrintedRunsAsSaid | subworkers-omp/omp-server/scheduler.ts:131-153 | a printed five-field expression is accepted and is due at exactly the minutes its terms say, 7 also meaning Sunday |
| CronText.PrintedDueIs | subworkers-omp/omp-server/scheduler.ts:131-153 | the same by day, hour and minute in plain arithmetic |
| CronText.TermsMeanIs | subworkers-omp/omp-server/scheduler.ts:155-180 | what a list of terms means, in plain arithmetic |
| Schedules.SearchWithinHorizon | subworkers-omp/omp-server/scheduler.ts:86-153 | every search returns the least due minute after the start within its horizon, and null exactly when there is none within it |
| Schedules.SearchIs | subworkers-omp/omp-server/scheduler.ts:86-153 | the same in plain arithmetic: 8, 3 or 32 days ahead, the start of the first due minute after the one asked in, or null |
| Schedules.IntervalDueIs | subworkers-omp/omp-server/scheduler.ts:99-102 | an interval schedule is due at minute 1440 d + 60 h + mi if and only if mi is its minute, h one of its hours, and the weekday of day d one of its days if it has any |
| Schedules.EveryDueIs | subworkers-omp/omp-server/scheduler.ts:115-119 | an `every` schedule is due there if and only if its interval is between 1 and 1440 and 60 h + mi a multiple of it, h one of its hours if it restricts them, and the weekday likewise |
| Schedules.CronDueIs | subworkers-omp/omp-server/scheduler.ts:142-148 | a cron schedule is due there if and only if minute, hour, day of the month, month and weekday are all listed, 7 also meaning Sunday |
| Schedules.NextCronAfter | subworkers-omp/omp-server/scheduler.ts:131-153 | the cron loop returns that minute |
| Schedules.NextIntervalRun | subworkers-omp/omp-server/scheduler.ts:90-105 | so does the interval loop |
| Schedules.NextEveryRun | subworkers-omp/omp-server/scheduler.ts:106-122 | so does the loop for `every` schedules |
| Schedules.NextRunAfter | subworkers-omp/omp-server/scheduler.ts:86-129 | so does the search as a whole, for all four kinds |
| Schedules.IntervalSearchComplete | subworkers-omp/omp-server/scheduler.ts:90-105 | interval schedules: the result is the least due minute of all later ones, and null if and only if the schedule can never run, that is, no hour in 0..23, no minute in 0..59 or only impossible days |
| Schedules.IntervalMonotone | subworkers-omp/omp-server/scheduler.ts:90-105 | a later start never finds an earlier run |
| Schedules.EverySearchCompleteExactly | subworkers-omp/omp-server/scheduler.ts:106-122 | the three-day search finds a run from every start if and only if the days leave no three in a row out |
| Schedules.EveryMissesNextMonday | subworkers-omp/omp-server/scheduler.ts:106-122 | hourly on Mondays, asked on a Tuesday: no run is reported though the schedule runs on the next Monday |
| Schedules.EveryNullExactly | subworkers-omp/omp-server/scheduler.ts:85-122 | null is only returned for an `every` schedule that never runs, if and only if the days leave no three in a row out, or no day or no time of day can be met |
| Schedules.CronSearchCompleteExactly | subworkers-omp/omp-server/scheduler.ts:131-153 | for every expression: the 32-day search finds a run from every start if and only if the expression is well formed, some time of day is listed, and no 32 days in a row of the 400-year calendar cycle are left out |
| Schedules.CronNullExactly | subworkers-omp/omp-server/scheduler.ts:85-153 | null is only returned for a cron schedule that never runs, if and only if it is malformed, or no 32 days in a row are left out, or there is no time of day or no day at all to find |
| Schedules.DailyPatternDryExactly | subworkers-omp/omp-server/scheduler.ts:140-152 | with month and weekday free, no 32 days are left out if and only if some day up to the 28th is listed |
| Schedules.MonthsDryExactly | subworkers-omp/omp-server/scheduler.ts:140-152 | with the days free, no 32 days are left out if and only if no two months in a row are |
| Schedules.MonthGapIsDry | subworkers-omp/omp-server/scheduler.ts:140-152 | two months in a row left out, as in every yearly schedule, leave 32 days without a run |
| Crontab.SameDaysExactly | subworkers-omp/omp-server/scheduler.ts:144-147 | the date fields and the weekday field select the same days if and only if both select every day or neither any |
| Crontab.AgreesExactly | subworkers-omp/omp-server/scheduler.ts:131-153 | the scheduler and the rule of crontab are due at the same minutes if and only if the expression is malformed, no time of day is listed, the weekday or the date is left open, or both day restrictions are void or impossible |
| Crontab.ThirteenthOrFriday | subworkers-omp/omp-server/scheduler.ts:142-148 | `0 0 13 * 5` on Tuesday 13 January 1970: due by the rule of crontab, not due in the scheduler |
| Crontab.NewYearMissed | subworkers-omp/omp-server/scheduler.ts:140-152 | `0 0 1 1 *` asked at the end of January 1970: no run is reported, though 1 January 1971 is due |
| Ticks.DueNow | subworkers-omp/omp-server/scheduler.ts:227-234 | the 60-second look-back finds a slot that is not in the future exactly when the current minute is due, and the slot is that minute |
| Ticks.FireEntryIs | subworkers-omp/omp-server/scheduler.ts:226-242 | an entry is triggered when enabled, due and not remembered for this minute; a throwing trigger is forgotten |
| Ticks.TriggerIs | subworkers-omp/omp-server/scheduler.ts:225-242 | one entry at one tick in plain arithmetic: the call it makes, if any, and what is remembered |
| Ticks.CallsInOrder | subworkers-omp/omp-server/scheduler.ts:225 | the calls of a tick come in the order of the entries |
| Ticks.RunTicksByName | subworkers-omp/omp-server/scheduler.ts:225-243 | with distinct names no entry's slots depend on the other entries |
| Ticks.EverySlotFiresOnce | subworkers-omp/omp-server/scheduler.ts:212-244 | ticks at most a minute apart, enabled and not throwing: the slots fired are exactly the due minutes from the first tick to the last, in order, once each |
| Ticks.EveryDueMinuteFires | subworkers-omp/omp-server/scheduler.ts:212-244 | the same in plain arithmetic: the slots are increasing and exactly the due whole minutes from the first tick to the last |
| Ticks.DueBetweenIs | subworkers-omp/omp-server/scheduler.ts:212-244 | the list of due minutes holds each of them and nothing else, increasing |
| Ticks.NoSlotSucceedsTwice | subworkers-omp/omp-server/scheduler.ts:231-242 | whatever throws or is disabled, with a clock that does not go back the slots that succeed strictly increase |
| Ticks.FiresOnceExactly | subworkers-omp/omp-server/scheduler.ts:231-242 | for any ticks, whatever is enabled or throws, no slot succeeds twice if and only if the enabled due ticks never come back to a slot after another one, succeeding both times |
| Ticks.BackwardClockFiresTwice | subworkers-omp/omp-server/scheduler.ts:231-242 | any schedule: a clock that goes back to an earlier due minute fires its slot twice |
| Ticks.Scheduler.DoTick | subworkers-omp/omp-server/scheduler.ts:214-244 | one tick over the entries leaves the memory and the trigger calls the specification gives |
| Ticks.Scheduler.DoEntry | subworkers-omp/omp-server/scheduler.ts:226-242 | one entry of a tick does |
| Ticks.Scheduler.DoTicks | subworkers-omp/omp-server/scheduler.ts:212-256 | so does a whole run |
| RunLifecycle.UpsertIs | subworkers-omp/omp-server/store.ts:59-69 | after an upsert that session reads the new record, all others what they read before, and no second record appears |
| RunLifecycle.UpsertCount | subworkers-omp/omp-server/store.ts:59-89 | an upsert changes the active count by exactly the difference between the new and the replaced record |
| RunLifecycle.GetIs | subworkers-omp/omp-server/store.ts:67-69 | the record of a session is the first in the list that carries its id |
| RunLifecycle.ActiveCountIs | subworkers-omp/omp-server/store.ts:87-89 | the active count is the number of places with a running or continued record |
| RunLifecycle.AdmitIs | subworkers-omp/omp-server/admit.ts:31-61 | below the cap a running record is appended and the start announced, at the cap a queued one and nothing is announced |
| RunLifecycle.FrameIs | subworkers-omp/omp-server/engine.ts:99-102 | a frame moves the time of the last frame of its session and nothing else |
| RunLifecycle.EndIs | subworkers-omp/omp-server/engine.ts:227-239 | the worker and the error handler of the engine end an active run, with its status announced, and leave any other alone; the worker also frees the upstream |
| RunLifecycle.SweepIs | subworkers-omp/omp-server/watchdog.ts:29-49 | a sweep fails exactly the active runs silent for the stall limit or at the maximum age, and a run inside both limits survives |
| RunLifecycle.SweepAnnounces | subworkers-omp/omp-server/watchdog.ts:49-54 | it announces each of them as failed, in the order of the list |
| RunLifecycle.ExpiredAre | subworkers-omp/omp-server/watchdog.ts:29-54 | the sessions it reports are those of the active records past a limit |
| RunLifecycle.SeedIs | subworkers-omp/omp-server/engine.ts:318-345 | seeding takes the first label of the circular walk that no session uses and moves the stored position behind it, as far as the files can be written |
| RunLifecycle.InvariantIs | subworkers-omp/omp-server/admit.ts:24-67 | what the invariant says of the list of runs and of the events: the cap, distinct ids, and one announcement, with the final status, of every run that has ended and of no other |
| RunLifecycle.StepKeeps | subworkers-omp/omp-server/admit.ts:24-67 | every action of every actor keeps the cap, the single record, the single completion event and the distinct upstreams |
| RunLifecycle.ReachableInvariant | subworkers-omp/omp-server/admit.ts:24-67 | in every reachable state active runs stay within the cap, a session has at most one record, and exactly one completion event when it has ended and none before or when queued; no two sessions share an upstream |
| RunLifecycle.StepEvolves | subworkers-omp/omp-server/engine.ts:387-405 | an action loses no record, moves no start time, changes the status of no run that is not active, and queues no run that was let in |
| RunLifecycle.WalkMeets | subworkers-omp/omp-server/engine.ts:329-330 | the circular scan reaches every pool entry from every index |
| RunLifecycle.SeedingSucceedsExactly | subworkers-omp/omp-server/engine.ts:318-345 | a label is found if and only if the pool holds an unused one, which is so while fewer labels are in use than the pool holds distinct ones |
| RunLifecycle.NextIndex | subworkers-omp/omp-server/engine.ts:335 | the stored index makes the label just taken the last one to be tried next |
| RunLifecycle.Server.UpsertRun | subworkers-omp/omp-server/store.ts:59-65 | replaces the first record of the session or appends |
| RunLifecycle.Server.GetRun | subworkers-omp/omp-server/store.ts:67-69 | the first record of the session, if any |
| RunLifecycle.Server.ActiveRunCount | subworkers-omp/omp-server/store.ts:87-89 | the number of running and continued records |
| RunLifecycle.Server.AdmitRun | subworkers-omp/omp-server/admit.ts:24-67 | 404 and no change for an unknown name, 202 and a queued record at the cap, otherwise 200, a running record and a start event |
| RunLifecycle.Server.TouchRun | subworkers-omp/omp-server/engine.ts:99-102 | a frame moves the time of the last frame and nothing else |
| RunLifecycle.Server.FinishRun | subworkers-omp/omp-server/engine.ts:387-405 | releases the upstream, and ends the run only if it is active |
| RunLifecycle.Server.EngineFailed | subworkers-omp/omp-server/engine.ts:227-239 | fails the run only if it is active |
| RunLifecycle.Server.CheckOnce | subworkers-omp/omp-server/watchdog.ts:27-57 | fails and reports exactly the active records of the snapshot past one of the limits |
| RunLifecycle.Server.SeedWorkerConf | subworkers-omp/omp-server/engine.ts:318-345 | succeeds if and only if both files can be written and the pool holds an unused label, and then the stored index, which moves once it is written, puts that label last |
| RunLifecycle.Server.ReleaseWorkerConf | subworkers-omp/omp-server/engine.ts:347-354 | the label of the session, and no other, is free again |
| InterruptedSweeps.LateSettleExactly | subworkers-omp/omp-server/watchdog.ts:49-53 | writing a snapshot's record back as failed keeps the invariant if and only if the stored run is still active |
| InterruptedSweeps.VisitIs | subworkers-omp/omp-server/watchdog.ts:29-54 | a visit writes the snapshot's record as failed and announces it exactly when the snapshot has it active and past a limit at the start of the sweep |
| InterruptedSweeps.BeginIs | subworkers-omp/omp-server/watchdog.ts:29 | a snapshot holds every stored record with the time of the sweep |
| InterruptedSweeps.NextExactly | subworkers-omp/omp-server/watchdog.ts:29-55 | a move of any actor or sweep keeps the invariant if and only if it is not a late visit |
| InterruptedSweeps.SafeExactlyWhenNeverLate | subworkers-omp/omp-server/watchdog.ts:27-57 | for any interleaving of the actors with any number of sweeps, the registry is safe all along if and only if no sweep visits an expired record whose run has ended since |
| InterruptedSweeps.NextEvolves | subworkers-omp/omp-server/watchdog.ts:29-55 | any move but a late visit loses no record, moves no start time, and changes no status but that of an active run |
| InterruptedSweeps.WatchedEvolves | subworkers-omp/omp-server/watchdog.ts:27-57 | over every interleaving without a late visit, terminal and queued records keep their status for good |
| InterruptedSweeps.NoEternalRun | subworkers-omp/omp-server/watchdog.ts:27-57 | for any interleaving: once a sweep has visited its snapshot, no active run is past the maximum age plus the time since that sweep began, however many frames came, nor silent past the stall limit plus that time |
| InterruptedSweeps.UninterruptedIsSweep | subworkers-omp/omp-server/watchdog.ts:27-57 | visiting a whole snapshot without interruption is the single sweep step |
| InterruptedSweeps.Watchdog.BeginSweep | subworkers-omp/omp-server/watchdog.ts:29 | a sweep takes its snapshot beside those still under way |
| InterruptedSweeps.Watchdog.VisitRecord | subworkers-omp/omp-server/watchdog.ts:30-52 | one visit writes the record of the snapshot back as failed and announces it, exactly when the snapshot has it active and expired |
| InterruptedSweeps.LateVisitOverwrites | subworkers-omp/omp-server/watchdog.ts:49-53 | whenever an expired run completes between snapshot and visit, the visit fails it and announces it a second time |
| InterruptedSweeps.LateVisitHappens | subworkers-omp/omp-server/watchdog.ts:29-55 | a possible run of the server with two silent runs in which the second completes while the first is being reported, and is then failed and announced twice |
| InterruptedSweeps.FrameTooLate | subworkers-omp/omp-server/watchdog.ts:29-53 | a run that receives a frame after the snapshot is failed all the same, exactly when the snapshot found it expired |
| WorkerRun.FramingIgnoresCuts | subworkers-omp/omp-server/engine.ts:453-465 | however the output is cut into chunks, the lines handled are those of the whole stream split at newlines, less the unfinished one when a read fails |
| WorkerRun.FirstDoneIs | subworkers-omp/omp-server/engine.ts:410-427 | the first done line is the first line that is not blank and is a done message |
| WorkerRun.HeardUntil | subworkers-omp/omp-server/engine.ts:99-102 | while the run is active its last frame time is that of the last frame line, or of a later touch, so no sweep before that time plus the stall limit finds it stalled |
| WorkerRun.ForeignStep | subworkers-omp/omp-server/engine.ts:387-405 | no other actor and no sweep that is not late completes this worker's run or touches its upstream |
| WorkerRun.FinishIs | subworkers-omp/omp-server/engine.ts:387-405 | after a finish the run is not active, its upstream is free, and it is completed exactly when it was active and succeeded or had been completed before |
| WorkerRun.HandledSoFar | subworkers-omp/omp-server/engine.ts:410-465 | at every point of the stream the run is completed exactly when it was active at the first done line and that line reports success |
| WorkerRun.RunEndsOnce | subworkers-omp/omp-server/engine.ts:385-488 | when the worker has exited the run has ended and its upstream is released, whatever the other actors and interleaved sweeps did short of a late visit, and it is completed if and only if it was active at the first done line and that line does not say failed |
| WorkerRun.EveryExitReleases | subworkers-omp/omp-server/engine.ts:356-488 | every exit after seeding, the failed spawn included, has released the upstream and kept the registry's invariant, with actors and sweeps interleaved throughout |
| WorkerRun.Worker.HandleText | subworkers-omp/omp-server/engine.ts:410-452 | one line: blank and unknown ones change nothing; a frame moves the last frame time of this run and touches no other; a done line ends an active run with the status it reports, announces it, and frees the upstream |
| WorkerRun.Worker.Drain | subworkers-omp/omp-server/engine.ts:458-461 | the inner loop handles every complete line in order and keeps the rest |
| WorkerRun.Worker.RunToEnd | subworkers-omp/omp-server/engine.ts:385-488 | the reader, with others acting during every await, ends in the state the specification gives |
| WorkerRun.Worker.SpawnAndWait | subworkers-omp/omp-server/engine.ts:356-488 | so does the whole function, throwing exactly when the spawn fails |
| SpawnSlots.NextChained | subworkers-omp/omp-server/engine.ts:257-264 | claims, spawn attempts and timers keep the promise chain: each claim spawns only after its predecessor's timer fired |
| SpawnSlots.NextIs | subworkers-omp/omp-server/engine.ts:257-264 | a claim takes the previous promise, a spawn attempt starts a timer due 5000 ms later, and only a timer lets the next claim go |
| SpawnSlots.SpawnsAreSpaced | subworkers-omp/omp-server/engine.ts:255-264 | over every run, claims spawn in claim order, and claim j comes at least 5000 * (j - i) ms after claim i, whether or not spawns fail |
| SpawnSlots.FirstInLineProceeds | subworkers-omp/omp-server/engine.ts:257-264 | the line never jams: the first claim waiting may spawn, or waits for a timer that is running |
| SpawnSlots.Dispatcher.Claim | subworkers-omp/omp-server/engine.ts:257-260 | a claim waits for the promise of the one before and leaves its own |
| SpawnSlots.Dispatcher.Attempt | subworkers-omp/omp-server/engine.ts:363-381 | a spawn attempt starts the timer whether it succeeds or fails |
| SpawnSlots.Dispatcher.Fire | subworkers-omp/omp-server/engine.ts:261-263 | the timer resolves the claim's promise |
| ProxyRotation.PickIsLeast | subworkers-qwen/qwen/forward-proxy.js:40-49 | the pick is the first in pool order among the least recently used that are not excluded, and there is none exactly when all are excluded |
| ProxyRotation.RotationReloads | subworkers-qwen/qwen/forward-proxy.js:25-35 | for any file: after a rotation the pool holds exactly what the file holds, in order and as new objects, or is as it was when there is no file |
| ProxyRotation.RotationStamps | subworkers-qwen/qwen/forward-proxy.js:60-69 | the new egress bears the time of the rotation, other proxies what they bore before, and the timer keeps only keys of the pool |
| ProxyRotation.RotationPicks | subworkers-qwen/qwen/forward-proxy.js:60-69 | for any file: the rotation goes to a proxy of the new pool other than the current one, if there is one, used longest ago, and first in the pool where that is a tie |
| ProxyRotation.RotationPicksUnused | subworkers-qwen/qwen/forward-proxy.js:40-49 | so the first proxy that was never used comes first |
| ProxyRotation.RotationStays | subworkers-qwen/qwen/forward-proxy.js:60-69 | with no other proxy in the pool the egress stays |
| ProxyRotation.UseIs | subworkers-qwen/qwen/forward-proxy.js:51-58 | for any pool: a use keeps an egress that is in the pool, and otherwise goes to the proxy used longest ago |
| ProxyRotation.BootIs | subworkers-qwen/qwen/forward-proxy.js:71-73 | the start is on the first proxy of the pool, which alone has been used |
| ProxyRotation.PickIsHead | subworkers-qwen/qwen/forward-proxy.js:40-49 | while the stamps order the pool as a queue, the pick with the current proxy excluded is the head |
| ProxyRotation.RotateTurns | subworkers-qwen/qwen/forward-proxy.js:60-69 | a rotation takes the head of the queue and puts it at the tail |
| ProxyRotation.RunRepresents | subworkers-qwen/qwen/forward-proxy.js:60-75 | over every run with increasing rotation times the stamps are a queue that has turned once per rotation, the current proxy at its tail |
| ProxyRotation.RotationInTurn | subworkers-qwen/qwen/forward-proxy.js:40-69 | after a cycle so far, a rotation at any time goes to the next entry if and only if the choice n rotations ago comes due before those after it |
| ProxyRotation.CyclesExactly | subworkers-qwen/qwen/forward-proxy.js:40-75 | for any positive times, tied or going back: the egress after k rotations is always entry k mod n if and only if every choice comes due again before the n - 2 that followed it |
| ProxyRotation.TwoAlternate | subworkers-qwen/qwen/forward-proxy.js:40-75 | two proxies alternate whatever the times are |
| ProxyRotation.TiedCyclesExactly | subworkers-qwen/qwen/forward-proxy.js:86-96 | three or more proxies with all times the same: the cycle holds if and only if there are at most n + 1 rotations |
| ProxyRotation.EgressCycles | subworkers-qwen/qwen/forward-proxy.js:60-75 | with a fixed pool of n >= 2 distinct proxies and increasing rotation times, the egress after k rotations from the start is entry k mod n, however often it was used |
| ProxyRotation.VisitedInOrder | subworkers-qwen/qwen/forward-proxy.js:60-75 | the i-th rotation goes to entry i mod n |
| ProxyRotation.WindowVisitsEachOnce | subworkers-qwen/qwen/forward-proxy.js:60-75 | any n rotations in a row visit every proxy exactly once |
| ProxyRotation.ForwardProxy.constructor | subworkers-qwen/qwen/forward-proxy.js:71-73 | the start picks and stamps the first proxy of the pool |
| ProxyRotation.ForwardProxy.PickLRU | subworkers-qwen/qwen/forward-proxy.js:40-49 | the loop with a running minimum returns the specified pick |
| ProxyRotation.ForwardProxy.UseEgress | subworkers-qwen/qwen/forward-proxy.js:51-58 | keeps a current proxy that is in the pool, otherwise picks and stamps one |
| ProxyRotation.ForwardProxy.RotateTick | subworkers-qwen/qwen/forward-proxy.js:60-69 | reloads, forgets stamps of vanished proxies, and moves to the pick unless the pool is empty |
| ProxyRotation.ForwardProxy.RotateNow | subworkers-qwen/qwen/forward-proxy.js:86-96 | the endpoint moves to the pick without forgetting stamps |
| ModelRoster.IdsAreUnique | subworkers-omp/omp-server/models.ts:234-241 | slicing after the first slash gives back the emitted model id, even when it holds slashes, and the buckets never make the same roster id |
| ModelRoster.LiveIsListed | subworkers-omp/omp-server/models.ts:238-279 | after a new catalogue the live rows are exactly the listed ids |
| ModelRoster.RowLifecycle | subworkers-omp/omp-server/models.ts:229-280 | a live row never vanishes directly, a stale row is live or gone next, and a row that stays keeps its first sighting |
| ModelRoster.FirstSeenKept | subworkers-omp/omp-server/models.ts:242-258 | over every run, the first sighting of an id is the same in all snapshots while the id stays present |
| ModelRoster.DeprecatedFlag | subworkers-omp/omp-server/models.ts:235-261 | a live row is flagged deprecated exactly when its status says so or a known zen set lacks it, and a stale row always |
| ModelRoster.ListedRowIs | subworkers-omp/omp-server/models.ts:240-267 | the row of a listed model, field by field, from its catalogue row, the zen set, and its earlier row if it had one |
| ModelRoster.ZenRowIs | subworkers-omp/omp-server/models.ts:268-273 | the row of a model that only zen confirms |
| ModelRoster.KeptRowIs | subworkers-omp/omp-server/models.ts:229-279 | a row that is not listed again: kept one cycle as stale and deprecated, or, with an unchanged catalogue, kept but for the flag |
| ModelRoster.VersionIs | subworkers-omp/omp-server/models.ts:282-287 | the version starts at 0 and counts up by one exactly when an id is added or a live one lost |
| ModelRoster.VersionKeptExactly | subworkers-omp/omp-server/models.ts:282-287 | the version never falls, and stays if and only if no id was added and no live id was lost |
| ModelRoster.EqualVersions | subworkers-omp/omp-server/models.ts:282-287 | between any two snapshots of a run: equal versions mean no id was added and no live id was lost |
| ModelRoster.LiveKeptExactly | subworkers-omp/omp-server/models.ts:274-287 | with the version kept, the live ids are the same if and only if no stale id is listed again |
| ModelRoster.RosterKeptExactly | subworkers-omp/omp-server/models.ts:274-287 | with the version kept, the ids, live and stale, are the same if and only if there was no stale id |
| ModelRoster.ServedKeptExactly | subworkers-omp/omp-server/models.ts:180-287 | with the version kept, what is served is the same if and only if every id is found again with the same particulars |
| ModelRoster.FlagFlipsSilently | subworkers-omp/omp-server/models.ts:229-236 | an unchanged catalogue never moves the version, and serves the same if and only if no id was stale and no flag has to follow the zen set |
| ModelRoster.StaleIdReturnsSilently | subworkers-omp/omp-server/models.ts:282-287 | a stale id that is listed again changes the live ids but not the version |
| ModelRoster.RefreshKeepsNoTwins | subworkers-omp/omp-server/models.ts:229-280 | a refresh keeps at most one live row per model id |
| ModelRoster.ReachableNoTwins | subworkers-omp/omp-server/models.ts:229-280 | so every reachable snapshot has at most one |
| ModelRoster.BucketPrecedence | subworkers-omp/omp-server/models.ts:264-273 | opencode wins a collision, the other bucket keeps its prefix only for ids of its own, and ids only zen confirms are listed as opencode |
| ModelRoster.Roster.DoRefresh | subworkers-omp/omp-server/models.ts:219-287 | the refresh in place leaves the specified snapshot |
| ModelRoster.Roster.CarryOver | subworkers-omp/omp-server/models.ts:229-236 | an unchanged catalogue drops stale rows and re-applies the zen set |
| ModelRoster.Roster.EmitLoop | subworkers-omp/omp-server/models.ts:264-273 | an emit loop adds exactly the rows of its bucket, in whatever order |
| ModelRoster.Roster.KeepStale | subworkers-omp/omp-server/models.ts:274-279 | ids no longer listed stay one cycle, marked stale and deprecated |
| PptxClean.PassKeeps | skills/pptx/scripts/clean.py:250-256 | a pass removes nothing of a part of the package that can stand on its own |
| PptxClean.CleanedIsGreatest | skills/pptx/scripts/clean.py:250-259 | what the loop leaves is the greatest part of the package that can stand on its own: no orphan stays and nothing else goes |
| PptxClean.ScannedSurvivesExactly | skills/pptx/scripts/clean.py:171-218 | a file the orphan scan covers survives if and only if a surviving .rels file points to it |
| PptxClean.ScannedIs | skills/pptx/scripts/clean.py:172-206 | the scanned files by directory and name |
| PptxClean.OwnerIs | skills/pptx/scripts/clean.py:140-141 | the owner of dir/_rels/x.xml.rels is dir/x.xml |
| PptxClean.RelsAre | skills/pptx/scripts/clean.py:128-140 | the .rels files by directory and name |
| PptxClean.ResourceRelsSurviveExactly | skills/pptx/scripts/clean.py:128-150 | the .rels file of a chart, diagram or drawing survives if and only if its owner does and a surviving slide points to that directly |
| PptxClean.NotesRelsSurviveExactly | skills/pptx/scripts/clean.py:209-216 | that of a notes slide if and only if its owner does |
| PptxClean.ThemeRelsSurviveExactly | skills/pptx/scripts/clean.py:189-199 | that of a theme if and only if the theme does |
| PptxClean.OthersSurvive | skills/pptx/scripts/clean.py:128-218 | every other file survives |
| PptxClean.RemovesOnly | skills/pptx/scripts/clean.py:128-218 | nothing is removed but scanned files and .rels files of charts, diagrams, drawings, notes slides and themes |
| PptxClean.Package.RemoveOrphanedRels | skills/pptx/scripts/clean.py:128-150 | removes exactly the .rels files whose owner is gone or not the direct target of a slide |
| PptxClean.Package.GetReferenced | skills/pptx/scripts/clean.py:153-168 | collects the targets of all .rels files |
| PptxClean.Package.RemoveOrphanedFiles | skills/pptx/scripts/clean.py:171-218 | removes the unreferenced scanned files, the .rels files of removed themes, and those of notes slides that are gone |
| PptxClean.Package.Clean | skills/pptx/scripts/clean.py:250-259 | the loop terminates at the specified fixed point and has listed every removed file exactly once |

## Left out

- RunLifecycle.ReachableInvariant: a sweep is one step; sweeps that are interrupted are covered by InterruptedSweeps.SafeExactlyWhenNeverLate, for which a record of a snapshot may be visited in any order.
- RunLifecycle.Server.CheckOnce: killing the child process, banners and notifications are not modelled, nor are dates that cannot be parsed, which the loop skips.
- RunLifecycle.Server.SeedWorkerConf: the stored index is taken to be a natural number; a conf file that cannot be written still moves the index, as in the code.
- WorkerRun.RunEndsOnce: other actors do not finish or seed this session (the continue and stop routes, which could, are not modelled), and no sweep visits an expired record whose run has ended since; a late visit does turn a completed run into a failed one, see InterruptedSweeps.LateVisitOverwrites.
- WorkerRun.EveryExitReleases: no late visits, as in WorkerRun.RunEndsOnce; the catch handler that fails the run after a failed spawn is the separate action EngineError; prompt and conf files on disk are not modelled.
- WorkerRun.Worker.HandleText: what a line means is a parameter, since it depends only on the JSON decoder; appending frames to the log file and an exception there are not modelled.
- RunText.Run.ConsolidateText: text elements with children other than character data, which the code moves out into the run, are not modelled.
- BuildGraph.Runner.Run: environment, output capture and killing the remaining processes after a failure are not modelled; a failed step ends the run.
- CronField.AddRange: integers are unbounded; from 2^53 on the original adds the step to a number that no longer changes and does not end, and a very wide range overflows its Set.
- CronField.ParseCronField: as CronField.AddRange; a number too large to be finite is not rejected.
- ProxyRotation.CyclesExactly: times are positive and the pool file keeps its content or cannot be read.
- ProxyRotation.ForwardProxy.constructor: a pool file that cannot be read at start-up is not modelled; reading and parsing the file gives its entries.
- ModelRoster.Roster.DoRefresh: fetching, etag, the 30-minute interval, notifications and a snapshot file that cannot be written are not modelled; ids that clash with built-in object properties are not either.
- PptxClean.Package.Clean: the slide and trash steps before the loop and the content-types update after it are not modelled, and directories that share a file's name are not.
- PptxClean.RemovesOnly: it is not claimed that everything reachable from a slide is kept, since .rels files of charts, diagrams and drawings are judged by direct slide references only.
- Run attributes (revision ids) and proof markers, headers, footers, zip and XML handling of the document script: outside the merge itself.
- Daylight saving, overlapping ticks, enabling and reloading entries, stored next-run times: the ticks are given with what is enabled.
- The translation of engine events into frames, the agent session, spawned processes, UTF-8 decoding: input and output, or one case each.
- The creation gate of the engine (`subworkers-omp/omp-server/engine.ts:247-252`): nothing calls it.
- HTTP, WebSocket, chat bots, user interface, tunnel, release, audio, PDF and image scripts: input and output around libraries.
