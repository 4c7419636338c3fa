# 75 Hard (PMS-safe) — a verified model of the challenge materialiser

This project models the logic of the 75 Hard challenge tracker that sits
between the user interface and the record store. It covers four parts:

- the **PMS-window test** (`isInPMSWindow`). It decides whether a date falls
  on one of the last `pms_window_length` days of a recurring menstrual cycle
  of `cycle_length` days, counted from the cycle's day-1 date.
- **challenge-day seeding** (`ensureChallengeDays`). It fills in whichever
  of the 75 day records are missing. Each new day is dated from day 1's date,
  or from today.
- **task materialisation** (`ensureTasks`). It adds each task from the
  catalogue of daily tasks that a day does not already have. The optional
  rest & recovery task is added only inside the PMS window.
- the **seeding loop** of `seedUserData`, and the **streak scan**
  (`calculateStreak`).

It also models the record shapes and the static task catalogue
(`src/types/database.ts`).

Modules:

- `Types` (types.dfy): the record shapes, task keys, moods, symptoms and the
  `DefaultTasks` catalogue, with lemmas about its contents.
- `PmsWindow` (pms_window.dfy): `IsInPmsWindow`. It writes out JavaScript's
  truncating `%` as `JsRem`. Its lemmas prove the range of the day in the
  cycle, periodicity, and exactly `W` window days in every run of `L`
  consecutive dates.
- `Materializer` (materializer.dfy): the `Store` class. It holds the user's
  challenge days, keyed by day number, and the task rows in insertion order.
  Its methods `EnsureChallengeDays`, `EnsureTasks`, `SeedUserData` and
  `EnsureAllTasks` follow the source's loops. Each is proved against a
  specification function (`EnsuredDays`, `NewTasks`/`AfterEnsureTasks`,
  `TasksThrough`), and lemmas prove what those functions promise: exact key
  sets, nothing removed, idempotence, and the 6/7 task split.
- `Streak` (streak.dfy): the `CalculateStreak` loop, proved equal to the
  reference function `StreakOf`, with lemmas on what that streak counts.

Conventions:

- Calendar dates are day ordinals (`int`). The source's `'yyyy-MM-dd'`
  strings compare in the same order, and `differenceInDays` becomes
  subtraction.
- "Today" is a parameter.
- A challenge day's id is its day number, which is unique per user.
- The reads and inserts of `ensureChallengeDays` and `ensureTasks` that can
  fail are boolean parameters (`fetchOk`, `insertOk`). A failed insert
  leaves the store unchanged. The other store failures are named under
  "## Left out".

Two behaviours of the code are worth knowing:

- **The rest task can be added later.** One might expect a day's rest &
  recovery task to be fixed when its tasks are first created: absent
  outside the window, and staying absent. The code does not fix it. A
  later `ensureTasks` call for the same day with the window flag set adds
  it (`EnsureTasksTwice`). Nothing ever removes it. The model follows the
  code.
- **A failed task read re-inserts everything.** `ensureTasks` ignores the
  error from its read of the existing tasks
  (src/lib/database.ts:269-274). On a failed read it plans every applicable
  key as missing, so each key already present gets a second row
  (`FetchFailureReinserts`). The model keeps this behaviour. It does not
  claim a fix, because nothing in the source says a failed read should
  abort.

## Model

| member | source | states |
|---|---|---|
| Types.Entry | src/types/database.ts:72-85 | every task key has a catalogue entry carrying that key |
| Types.TaskKeysEnumerated | src/types/database.ts:44-51 | the task-key type has exactly seven members, all in `AllTaskKeys` |
| Types.CatalogDistinct | src/types/database.ts:77-85 | the catalogue has seven entries with pairwise distinct keys |
| Types.CatalogEntries | src/types/database.ts:78-84 | each catalogue entry is the entry of its own key, so the catalogue lists exactly the seven keys |
| Types.CatalogFlags | src/types/database.ts:78-84 | an entry is window-only iff it is the rest & recovery task, and required iff it is not window-only |
| Types.LogChoicesComplete | src/types/database.ts:53-70 | the mood and symptom lists each name every value exactly once |
| PmsWindow.JsRem | src/lib/database.ts:100 | JavaScript `%`: the dividend minus the result is a multiple of the divisor, the result's magnitude is below the divisor's, and its sign follows the dividend |
| PmsWindow.DayInCycle | src/lib/database.ts:99-100 | for a positive cycle length the double modulo lies in [0, L) and equals the mathematical remainder, also for dates before the cycle start |
| PmsWindow.IsInPmsWindow | src/lib/database.ts:90-105 | false when the mode is off or there is no day-1 date, whatever the date; false for a zero cycle length (NaN); otherwise true iff the day in the cycle is at least `L - W` |
| PmsWindow.WindowLengthExtremes | src/lib/database.ts:103-104 | a window at least as long as the cycle covers every date; a window of length 0 or less covers none |
| PmsWindow.WindowPeriodic | src/lib/database.ts:98-104 | shifting a date by any whole number of cycles, forwards or backwards, does not change the answer |
| PmsWindow.WindowDaysPerCycle | src/lib/database.ts:100-104 | for 0 <= W <= L, every run of L consecutive dates holds exactly W window dates |
| PmsWindow.WindowExample | src/lib/database.ts:90-105 | a 28-day cycle with a 7-day window: days 21-27 are in the window, and so are days -1 to -7 before the anchor |
| Materializer.EnsuredDaysAnchor | src/lib/database.ts:139-172 | when days are added, day n is dated day 1's stored date + (n - 1) when day 1 exists, and today + (n - 1) otherwise, also when other days exist without day 1 |
| Materializer.AddedDays | src/lib/database.ts:153-172 | the added day numbers are exactly 1..75 minus the existing ones; day n is a fresh day dated anchor + (n - 1) |
| Materializer.CollectMissingDays | src/lib/database.ts:153-172 | the loop's rows cover exactly the missing numbers of 1..75, each once and in ascending order, each fresh and dated startDate + (n - 1) |
| Materializer.EnsuredDaysPreserves | src/lib/database.ts:120-183 | no stored day is changed, and every added day is a fresh day of 1..75 dated from the anchor |
| Materializer.EnsuredDaysKeys | src/lib/database.ts:132-172 | with 75 stored day numbers nothing changes; otherwise the day numbers become the stored ones plus 1..75; days stay keyed by their numbers and within 1..75 |
| Materializer.EnsuredDaysComplete | src/lib/database.ts:120-183 | when the stored numbers lie in 1..75, exactly the 75 days 1..75 are left |
| Materializer.EnsuredDaysIdempotent | src/lib/database.ts:120-183 | a second successful call, on any later date, changes nothing |
| Materializer.EnsuredDaysConsecutive | src/lib/database.ts:139-172 | an empty store gets days dated consecutively from today; a store dated consecutively from its day 1 keeps those dates |
| Materializer.Store.EnsureChallengeDays | src/lib/database.ts:120-183 | a failed read or insert changes nothing; otherwise the days become `EnsuredDays` of the old days; tasks are untouched; keying and the 1..75 range are kept |
| Materializer.ApplicableKeys | src/lib/database.ts:284-288 | inside the window all seven keys apply; outside it, all but the rest task |
| Materializer.PlannedRows | src/lib/database.ts:284-297 | the planned rows belong to the day, carry no key already present, and carry exactly the applicable catalogue keys not yet present |
| Materializer.PlannedFromCatalog | src/lib/database.ts:288-296 | every planned row is the row of an applicable catalogue entry |
| Materializer.PlannedDistinct | src/lib/database.ts:284-297 | a catalogue with distinct keys plans rows with distinct keys |
| Materializer.PlanTasks | src/lib/database.ts:276-297 | the planning loop produces exactly the planned rows, in catalogue order |
| Materializer.NewTasks | src/lib/database.ts:274-297 | the rows inserted for a day carry exactly the applicable keys not yet present, one row per key, all for that day |
| Materializer.NewTasksFromCatalog | src/lib/database.ts:289-295 | each inserted row has its catalogue entry's title and required flag, and starts not completed and without a variant |
| Materializer.NewTasksRequired | src/lib/database.ts:289-295 | every inserted task is required except the rest task |
| Materializer.FreshDayTasks | src/lib/database.ts:284-297 | a day with no tasks gets 6 tasks outside the window and 7 inside; it has the rest task iff it is in the window |
| Materializer.AfterEnsureTasks | src/lib/database.ts:264-308 | after a successful call the day's keys are its old keys plus the applicable keys; other days' keys are unchanged; old rows are kept as a prefix |
| Materializer.EnsureTasksTwice | src/lib/database.ts:264-308 | two calls for one day leave the union of both calls' applicable keys, so a rest task is never removed but can be added later |
| Materializer.EnsureTasksIdempotent | src/lib/database.ts:264-308 | a second successful call with the same window flag inserts nothing |
| Materializer.FetchFailureReinserts | src/lib/database.ts:269-274 | when the read fails, every applicable key gets one more row than it had |
| Materializer.EnsureTasksRows | src/lib/database.ts:264-308 | after one call, old rows stay a prefix; the day's keys gain every applicable key when the insert succeeds, read failed or not, and nothing when it fails; other days' keys are unchanged; with both steps succeeding it is `AfterEnsureTasks` |
| Materializer.Store.EnsureTasks | src/lib/database.ts:264-308 | appends the planned rows (all applicable keys when the read failed) unless the insert fails; days unchanged; other days' keys unchanged |
| Materializer.WindowFlags | src/lib/database.ts:407-410 | position n - 1 holds the window flag computed from day n's own date |
| Materializer.SeededKeys | src/lib/database.ts:407-412 | seeding days 1..k only appends rows; each of those days whose insert succeeds ends with its old keys plus the keys applicable for its flag, and one whose insert fails keeps its keys; other days are unchanged |
| Materializer.SeededFreshDay | src/lib/database.ts:407-412 | after seeding, a day that had no tasks and whose insert succeeded has all six non-rest tasks, and the rest task iff its date is in the window; one whose insert failed still has none |
| Materializer.Store.SeedUserData | src/lib/database.ts:398-413 | the days become exactly 1..75 (`EnsuredDays`); with settings, each day's tasks are ensured in day order with its own window flag and its own read and insert outcome; without settings, the tasks are unchanged |
| Materializer.Store.EnsureAllTasks | src/lib/database.ts:407-412 | the per-day loop, going on past failed calls, yields `TasksThrough` of the days' window flags and per-day outcomes; the days are unchanged |
| Streak.StreakOf | src/lib/database.ts:360-378 | the streak never exceeds the number of days dated up to today |
| Streak.CalculateStreak | src/lib/database.ts:347-381 | 0 for no days; otherwise the reference streak `StreakOf`, at most the number of days dated up to today |
| Streak.StreakCountsUpToFirstBreak | src/lib/database.ts:360-378 | the streak is the number of completed days, among those up to today, before the first earlier day left incomplete |
| Streak.StreakWhenAllCompleted | src/lib/database.ts:360-378 | when every day up to today is completed, the streak is the number of such days |
| Streak.CompletingTodayAddsOne | src/lib/database.ts:364-370 | an incomplete today does not break the streak: completing it, with only future days before it in the list, adds exactly one |
| Streak.StreakScenario | src/lib/database.ts:360-378 | seven days with today the 6th: five completed earlier days give 5, and completing today gives 6 |

## Left out

- Record-store I/O (Supabase queries, `async` ordering, error logging). The reads and inserts of `ensureChallengeDays` and `ensureTasks` that can fail are boolean parameters; the other failures left out are named per member below. User ids, row ids and timestamps are dropped, and the model has a single user.
- The thin store wrappers are not modelled because they hold no logic: `ensureProfile`, `ensureUserSettings`, `getUserSettings`, `updateUserSettings`, `getChallengeStartDate`, `getChallengeDays`, `getChallengeDay`, `getChallengeDayByDate`, `updateChallengeDay`, `getTasks`, `updateTask`, `getCurrentDayNumber`.
- Date parsing and formatting (`parseISO`, `format`, `addDays`, `differenceInDays`) and the clock. Dates are integers and "today" is a parameter. Unparsable dates and non-integer lengths are not modelled.
- `IsInPmsWindow` states nothing for a negative cycle length. The source's arithmetic there is still written out.
- Water goals, the progress percentage and all UI components are not modelled.
- Materializer.Anchor: day 1's date is read from the day map. The source's separate lookup of day 1, and a failure of that lookup (which falls back to today), are not modelled apart from it.
- Materializer.FreshDay: an inserted day has no mood and is not completed. The source leaves both to the store's column defaults.
- Materializer.NewTask: an inserted task is not completed and has no variant. The source leaves both to the store's column defaults.
- Types.ChallengeDay: `mood` and `symptoms` are typed as the `Mood` and `Symptom` enumerations. The source stores them as free strings (`string | null`, `string[]`), so values outside those enumerations are not modelled.
- Materializer.Store.SeedUserData: the profile and settings creation steps (`ensureProfile`, `ensureUserSettings`) are not modelled. Failures of `ensureChallengeDays` and of the day listing are not modelled either: seeding assumes both succeed, and a missing settings row is `None`. Each day's own `ensureTasks` read and insert may fail, given as the `fetchOks` and `insertOks` sequences. Stored day numbers are assumed to lie in 1..75 (`Store.Valid`).
- Materializer.Store.EnsureAllTasks: it walks days 1..count, where count is the number of listed days, in place of iterating over the listed rows. After seeding, those rows are exactly days 1..75 in ascending order.
- Streak.CalculateStreak: a failed read of the days is treated as the empty list. The list order (descending day number) is the caller's to supply. The `foundToday` flag is kept but never read, as in the source.
