# myDailyRoutine scheduling core, in Dafny

This project models the scheduling core of the `com.reachravi55.mydailyroutine` Android app:

- **The date-key codec** (`DateUtils`) writes a date as its ISO 8601 calendar date in extended format (`YYYY-MM-DD`, `DateTimeFormatter.ISO_LOCAL_DATE`) and reads such a key back strictly.
- **The recurrence engine** (`RepeatEngine.occurrences`) turns a task's start date, repeat rule and query window into its due dates. The rules are NONE, DAILY, WEEKLY, MONTHLY and YEARLY.
- **The document mutations** of `RoutineRepository` each change the one stored document: lists, tasks, occurrence overrides, the active list id and settings.
- **The alarm pass** (`AlarmScheduler.rescheduleTask`) cancels and re-arms one alarm per due date and enabled reminder for the next 30 days.
- **The boot receiver** (`BootReceiver.onReceive`) re-runs that pass for every task that is not archived.

Dates are epoch days, and `Calendar` gives the proleptic Gregorian conversion that `java.time.LocalDate` uses. The alarm service is a class holding a map from request codes to pending alarms, and instants are local minutes (`epochDay * 1440 + hour * 60 + minute`). Today's date, the current minute and freshly generated ids are parameters.

Each stepping loop of the source is a Dafny `method` with loop invariants. Its result is tied to a pure specification:

- `Due` for the recurrence branches;
- `Apply` for the alarm pass, a fold of the cancel-then-arm `Step` over the (date, reminder) slots;
- `Resync` for the boot loop;
- the `After…` transforms for the repository's document updates.

The lemmas state the properties the source promises about each of these.

Two error paths of the code are modelled as they are written:

- `parseDateKey` throws on a malformed start or until key (`RepeatEngine.kt:20-21`). In the model `OccurrencesOf` is then a `Failure`, and the alarm pass reports `ok == false` without touching any alarm. On boot, that throw ends the loop over the remaining tasks.
- `LocalDateTime.of` throws on an hour or minute out of range. That happens after the cancel for that slot has run, so the pass stops with that key cancelled and the later slots untouched. The model's `Step` and `Apply` say exactly this.

## Model

| member | source | states |
|---|---|---|
| DateUtils.FormatKey | app/src/main/java/com/reachravi55/mydailyroutine/data/DateUtils.kt:10 | For a year in 0000–9999 the key is ten characters, `YYYY-MM-DD`, with zero-padded fields that read back as the date's year, month and day. |
| DateUtils.TodayKey | app/src/main/java/com/reachravi55/mydailyroutine/data/DateUtils.kt:8 | `todayKey` with today passed in parses back to today for every year a `LocalDate` holds. |
| DateUtils.ParseKey | app/src/main/java/com/reachravi55/mydailyroutine/data/DateUtils.kt:9 | A key that parses names a date inside `LocalDate`'s year range. |
| DateUtils.ParseFields | app/src/main/java/com/reachravi55/mydailyroutine/data/DateUtils.kt:7-9 | The text stage of strict `ISO_LOCAL_DATE` parsing reads a `YYYY-MM-DD` string as its year, month and day fields. |
| DateUtils.Resolve | app/src/main/java/com/reachravi55/mydailyroutine/data/DateUtils.kt:7-9 | Strict resolution accepts the fields iff the year is in range and the day exists in that month, and the date it gives has exactly those fields. |
| DateUtils.ParseFormat | app/src/main/java/com/reachravi55/mydailyroutine/data/DateUtils.kt:9-10 | `parseKey(formatKey(d)) == d` for every date a `LocalDate` can hold, signed and five-or-more-digit years included. |
| DateUtils.FormatParse | app/src/main/java/com/reachravi55/mydailyroutine/data/DateUtils.kt:9-10 | `formatKey(parseKey(k)) == k` for every `YYYY-MM-DD` key naming a real date. |
| DateUtils.ParseKeyRejectsNonDates | app/src/main/java/com/reachravi55/mydailyroutine/data/DateUtils.kt:7-9 | A `YYYY-MM-DD` key parses iff its fields form a real calendar date, and then it parses to that date. |
| DateUtils.StrictRejectsCommonLeapDay | app/src/main/java/com/reachravi55/mydailyroutine/data/DateUtils.kt:7-9 | `2023-02-29` does not parse. |
| DateUtils.StrictRejectsMonth13 | app/src/main/java/com/reachravi55/mydailyroutine/data/DateUtils.kt:7-9 | `2024-13-01` does not parse. |
| DateUtils.StrictAcceptsLeapDay | app/src/main/java/com/reachravi55/mydailyroutine/data/DateUtils.kt:7-9 | `2024-02-29` parses to that day. |
| DateUtils.KeyOrderIsDateOrder | app/src/main/java/com/reachravi55/mydailyroutine/data/DateUtils.kt:10 | For years 0000–9999 one key is less than another as a string iff its date is earlier, and two keys are equal iff their dates are. |
| DateUtils.KeyCompare | app/src/main/java/com/reachravi55/mydailyroutine/data/DateUtils.kt:10 | Two `YYYY-MM-DD` keys compare as strings exactly as their (year, month, day) fields compare lexicographically. |
| KotlinText.Trim | app/src/main/java/com/reachravi55/mydailyroutine/data/RoutineRepository.kt:58 | `trim()` returns a contiguous slice with no whitespace at either end, and it is empty iff the input is blank. |
| KotlinText.HashCode | app/src/main/java/com/reachravi55/mydailyroutine/alarms/AlarmScheduler.kt:122 | `String.hashCode` is a signed 32-bit value. |
| KotlinText.HashCodeIsPolynomial | app/src/main/java/com/reachravi55/mydailyroutine/alarms/AlarmScheduler.kt:122 | The step-by-step wrapping hash equals the base-31 polynomial of the characters, reduced modulo 2^32 and read as a signed 32-bit value. |
| KotlinText.ToInt32 | app/src/main/java/com/reachravi55/mydailyroutine/alarms/AlarmScheduler.kt:122 | Reading 32 bits as an `Int` gives a signed 32-bit value congruent to the input modulo 2^32. |
| Calendar.Civil | app/src/main/java/com/reachravi55/mydailyroutine/data/RepeatEngine.kt:86-87 | An epoch day's year, month and day form a valid date whose epoch day is that day. |
| Calendar.CivilOfEpochDay | app/src/main/java/com/reachravi55/mydailyroutine/data/DateUtils.kt:9-10 | The civil fields of a valid date's epoch day are that date. |
| Calendar.LengthOfMonth | app/src/main/java/com/reachravi55/mydailyroutine/data/RepeatEngine.kt:98 | `lengthOfMonth` lies in 28–31 and is 29 exactly for February of a leap year. |
| Calendar.MondayOf | app/src/main/java/com/reachravi55/mydailyroutine/data/RepeatEngine.kt:66 | Moving back `dayOfWeek - 1` days gives the Monday of the same ISO week. |
| Calendar.MonthOfDay | app/src/main/java/com/reachravi55/mydailyroutine/data/RepeatEngine.kt:87-102 | Every day lies between the first of its month and the first of the next month. |
| RepeatEngine.Interval | app/src/main/java/com/reachravi55/mydailyroutine/data/RepeatEngine.kt:31 | The step is the stored interval when it is positive, and exactly 1 when the stored interval is zero or less. |
| RepeatEngine.WeekdaySet | app/src/main/java/com/reachravi55/mydailyroutine/data/RepeatEngine.kt:54-58 | The WEEKLY days are the stored numbers in 1–7, out-of-range ones dropped, or the start date's weekday when none is stored. |
| RepeatEngine.MonthDay | app/src/main/java/com/reachravi55/mydailyroutine/data/RepeatEngine.kt:86 | The MONTHLY day is `dayOfMonth` when positive, else the start date's day of month. |
| RepeatEngine.CoerceAtMost | app/src/main/java/com/reachravi55/mydailyroutine/data/RepeatEngine.kt:98 | `coerceAtMost` is the smaller of the value and the bound. |
| RepeatEngine.DueMembership | app/src/main/java/com/reachravi55/mydailyroutine/data/RepeatEngine.kt:23-28 | A date is listed iff it lies in the window and occurs. Occurring means not before the start, not after the until date, and on cycle. |
| RepeatEngine.DueSorted | app/src/main/java/com/reachravi55/mydailyroutine/data/RepeatEngine.kt:82 | The listed dates are strictly ascending, so there are no duplicates. |
| RepeatEngine.DueWiden | app/src/main/java/com/reachravi55/mydailyroutine/data/RepeatEngine.kt:23-28 | Widening the window only adds dates. |
| RepeatEngine.NoRepeatDue | app/src/main/java/com/reachravi55/mydailyroutine/data/RepeatEngine.kt:34-36 | NONE lists the start date alone when it passes `inWindow`, otherwise nothing. |
| RepeatEngine.DailyOccurrences | app/src/main/java/com/reachravi55/mydailyroutine/data/RepeatEngine.kt:37-52 | The DAILY loop, including its skip-ahead alignment, lists exactly the due dates of the window. |
| RepeatEngine.WeeklyOccurrences | app/src/main/java/com/reachravi55/mydailyroutine/data/RepeatEngine.kt:53-83 | The WEEKLY loop over Mondays, followed by the sort, lists exactly the due dates of the window. |
| RepeatEngine.MonthlyOccurrences | app/src/main/java/com/reachravi55/mydailyroutine/data/RepeatEngine.kt:84-105 | The MONTHLY loop over first-of-month cursors lists exactly the due dates of the window. |
| RepeatEngine.MonthlyCandidates | app/src/main/java/com/reachravi55/mydailyroutine/data/RepeatEngine.kt:93-99 | Inside a month, a day is on cycle iff the month is on cycle and the day is the clamped MONTHLY day. |
| RepeatEngine.YearlyOccurrences | app/src/main/java/com/reachravi55/mydailyroutine/data/RepeatEngine.kt:106-121 | The YEARLY loop over years lists exactly the due dates of the window. |
| RepeatEngine.YearlyCandidates | app/src/main/java/com/reachravi55/mydailyroutine/data/RepeatEngine.kt:112-115 | Inside a year, a day is on cycle iff the year is on cycle and the day is the start's month and day, clamped. |
| RepeatEngine.OtherDue | app/src/main/java/com/reachravi55/mydailyroutine/data/RepeatEngine.kt:122 | A frequency the `when` does not name yields nothing. |
| RepeatEngine.Occurrences | app/src/main/java/com/reachravi55/mydailyroutine/data/RepeatEngine.kt:18-124 | `occurrences` returns exactly the result of the specification `OccurrencesOf`. |
| RepeatEngine.OccurrencesContract | app/src/main/java/com/reachravi55/mydailyroutine/data/RepeatEngine.kt:18-31 | A blank start gives `[]`. The call throws iff a non-blank start or until key does not parse. Otherwise it lists exactly the in-window, on-cycle dates, strictly ascending. |
| RepeatEngine.WindowIndependent | app/src/main/java/com/reachravi55/mydailyroutine/data/RepeatEngine.kt:23-28 | Inside any window a date is listed iff `occurrences(task, d, d)` lists it, and both calls throw or neither does. Whether a date is due never depends on the query window. |
| RepeatEngine.IntervalAtMostZero | app/src/main/java/com/reachravi55/mydailyroutine/data/RepeatEngine.kt:31 | An interval of zero or less lists the same dates as an interval of 1. |
| RepeatEngine.SameCycle | app/src/main/java/com/reachravi55/mydailyroutine/data/RepeatEngine.kt:31 | Two stored intervals with the same effective step give the same due dates. |
| RepeatExamples.DailyEveryOtherDay | app/src/main/java/com/reachravi55/mydailyroutine/data/RepeatEngine.kt:37-52 | DAILY every 2 days over a ten-day window from the start lists days 0, 2, 4, 6 and 8. |
| RepeatExamples.WeeklyOnWeeks | app/src/main/java/com/reachravi55/mydailyroutine/data/RepeatEngine.kt:53-83 | Every second week on Monday and Wednesday: the first Wednesday and the third Monday are due. |
| RepeatExamples.WeeklyOffDays | app/src/main/java/com/reachravi55/mydailyroutine/data/RepeatEngine.kt:53-83 | The Monday of the off week and a Tuesday are not due, and the stored 9 is dropped. |
| RepeatExamples.MonthlyFromJanuary31 | app/src/main/java/com/reachravi55/mydailyroutine/data/RepeatEngine.kt:84-105 | MONTHLY from 2024-01-31 falls on 2024-02-29 and 2024-03-31, not on 2024-02-28. |
| RepeatExamples.YearlyFromLeapDay | app/src/main/java/com/reachravi55/mydailyroutine/data/RepeatEngine.kt:106-121 | YEARLY from 2024-02-29 falls on 2025-02-28 and 2028-02-29, not on 2025-03-01. |
| RoutineRepository.IndexOfFirst | app/src/main/java/com/reachravi55/mydailyroutine/data/RoutineRepository.kt:71 | `indexOfFirst` is -1 or the index of a match with no match before it. |
| RoutineRepository.Filter | app/src/main/java/com/reachravi55/mydailyroutine/data/RoutineRepository.kt:92 | `filter`/`filterNot` keep exactly the elements that pass and never grow the list. |
| RoutineRepository.KeptPositions | app/src/main/java/com/reachravi55/mydailyroutine/data/RoutineRepository.kt:92 | The positions of the elements that pass, strictly increasing, each in range and passing, and every passing position included. |
| RoutineRepository.FilterPicks | app/src/main/java/com/reachravi55/mydailyroutine/data/RoutineRepository.kt:92 | The k-th element `filter`/`filterNot` keeps is the element at the k-th passing position. Order is kept, and each kept element appears exactly once. |
| RoutineRepository.FilterFirst | app/src/main/java/com/reachravi55/mydailyroutine/data/RoutineRepository.kt:108-112 | A filter keeps something iff `indexOfFirst` finds a match, and its first kept element is that match. |
| RoutineRepository.FilterAppend | app/src/main/java/com/reachravi55/mydailyroutine/data/RoutineRepository.kt:134-140 | Filtering distributes over concatenation, so the kept elements stay in their relative order. |
| RoutineRepository.AfterEnsureInitialized | app/src/main/java/com/reachravi55/mydailyroutine/data/RoutineRepository.kt:23-49 | An initialized document is returned unchanged. The first list is reused, and "Default" is added only when there are no lists. A non-blank active id is kept, even one naming no list. With usable ids the result is initialized. |
| RoutineRepository.EnsureInitializedIdempotent | app/src/main/java/com/reachravi55/mydailyroutine/data/RoutineRepository.kt:25 | A second `ensureInitialized` changes nothing once the first could pick a usable id. |
| RoutineRepository.AfterCreateList | app/src/main/java/com/reachravi55/mydailyroutine/data/RoutineRepository.kt:51-66 | Exactly one list is appended, with the id and the trimmed name. The active id becomes that id iff `makeActive` (or it already was). Tasks, overrides and settings are untouched. |
| RoutineRepository.AfterRenameList | app/src/main/java/com/reachravi55/mydailyroutine/data/RoutineRepository.kt:68-78 | Only the first list with the id gets the trimmed name. An unknown id leaves the document unchanged. |
| RoutineRepository.AfterSetActiveList | app/src/main/java/com/reachravi55/mydailyroutine/data/RoutineRepository.kt:80-85 | The active id becomes the given id, and nothing else changes. |
| RoutineRepository.AfterRemoveList | app/src/main/java/com/reachravi55/mydailyroutine/data/RoutineRepository.kt:87-116 | The lists, tasks and overrides are exactly the `filterNot`/`filter` results over the old sequences, in their old order. The list and its tasks go, and an override stays iff its task remains. An active id naming another list is kept. Otherwise it becomes the id of the first list in the old order whose id differs, or blank. |
| RoutineRepository.DeleteListContract | app/src/main/java/com/reachravi55/mydailyroutine/data/RoutineRepository.kt:87-120 | After the removal and `ensureInitialized`, the tasks are the filtered old tasks in order, and every override belongs to a remaining task. The lists are the other lists in their order, or only a fresh "Default" list when none is left. An active id naming the deleted list becomes the first remaining list's id, or the fresh id. An active id naming another list is kept, and the document is initialized when the ids are usable. |
| RoutineRepository.AfterCreateOrUpdateTask | app/src/main/java/com/reachravi55/mydailyroutine/data/RoutineRepository.kt:122-129 | The first task with that id is replaced in place, or the task is appended. Every other position is unchanged. |
| RoutineRepository.CreateOrUpdateTaskIdempotent | app/src/main/java/com/reachravi55/mydailyroutine/data/RoutineRepository.kt:122-129 | Saving the same task twice is the same as saving it once. |
| RoutineRepository.AfterDeleteTask | app/src/main/java/com/reachravi55/mydailyroutine/data/RoutineRepository.kt:131-144 | The tasks and overrides are the `filterNot` results over the old sequences, so every task with the id and every override of it are removed. The rest keep their relative order and count. Lists, the active id and settings stay, and ownership of overrides is preserved. |
| RoutineRepository.DeleteAbsentTask | app/src/main/java/com/reachravi55/mydailyroutine/data/RoutineRepository.kt:131-144 | Deleting an id that is not present leaves the document exactly as it was, order included. |
| RoutineRepository.OverrideFor | app/src/main/java/com/reachravi55/mydailyroutine/data/RoutineRepository.kt:149 | Looking up by `(taskId, dateEpochDay)` gives a matching override, or none iff no override matches. |
| RoutineRepository.AfterSetTaskCompleted | app/src/main/java/com/reachravi55/mydailyroutine/data/RoutineRepository.kt:146-166 | An existing key keeps the override count and changes only its first match. A missing key appends exactly one new override with that key and `isCompleted`, no note and no subtask states, even for `isCompleted == false`. Every override at another position is unchanged, and so is the rest of the document. |
| RoutineRepository.SetTaskCompletedReadBack | app/src/main/java/com/reachravi55/mydailyroutine/data/RoutineRepository.kt:146-166 | Reading the key back gives the old override with only `isCompleted` changed, or a fresh one. Every other key reads as before. |
| RoutineRepository.SetTaskCompletedIdempotent | app/src/main/java/com/reachravi55/mydailyroutine/data/RoutineRepository.kt:146-166 | Marking the same occurrence twice is the same as marking it once. |
| RoutineRepository.SetSubtaskState | app/src/main/java/com/reachravi55/mydailyroutine/data/RoutineRepository.kt:180-186 | The named subtask's state is replaced at its first position or appended. Every other state is unchanged. |
| RoutineRepository.AfterSetSubtaskCompleted | app/src/main/java/com/reachravi55/mydailyroutine/data/RoutineRepository.kt:168-193 | An existing key keeps the override count and changes only its first match. A missing key appends one override that is not completed and holds only that subtask's state. Overrides at other positions are unchanged, and the rest of the document stays. |
| RoutineRepository.SetSubtaskCompletedReadBack | app/src/main/java/com/reachravi55/mydailyroutine/data/RoutineRepository.kt:168-193 | The key reads back as the matched or new override, with only that subtask's state set. Sibling states and `isCompleted` stay, and every other key reads as before. |
| RoutineRepository.Repository.constructor | app/src/main/java/com/reachravi55/mydailyroutine/data/RoutineRepository.kt:15-18 | The repository starts over the given document. |
| RoutineRepository.Repository.EnsureInitialized | app/src/main/java/com/reachravi55/mydailyroutine/data/RoutineRepository.kt:23-49 | One update: the document becomes `AfterEnsureInitialized` of the old one. |
| RoutineRepository.Repository.CreateList | app/src/main/java/com/reachravi55/mydailyroutine/data/RoutineRepository.kt:51-66 | One update, `AfterCreateList`, and it returns the generated id. The color defaults to `#4F46E5` and `makeActive` to true, as in the source. |
| RoutineRepository.Repository.RenameList | app/src/main/java/com/reachravi55/mydailyroutine/data/RoutineRepository.kt:68-78 | One update: `AfterRenameList`. |
| RoutineRepository.Repository.SetActiveList | app/src/main/java/com/reachravi55/mydailyroutine/data/RoutineRepository.kt:80-85 | One update: `AfterSetActiveList`. |
| RoutineRepository.Repository.DeleteList | app/src/main/java/com/reachravi55/mydailyroutine/data/RoutineRepository.kt:87-120 | Two updates in order: the removal, then `ensureInitialized`. |
| RoutineRepository.Repository.CreateOrUpdateTask | app/src/main/java/com/reachravi55/mydailyroutine/data/RoutineRepository.kt:122-129 | One update: `AfterCreateOrUpdateTask`. |
| RoutineRepository.Repository.DeleteTask | app/src/main/java/com/reachravi55/mydailyroutine/data/RoutineRepository.kt:131-144 | One update: `AfterDeleteTask`. |
| RoutineRepository.Repository.SetTaskCompleted | app/src/main/java/com/reachravi55/mydailyroutine/data/RoutineRepository.kt:146-166 | One update: `AfterSetTaskCompleted`. |
| RoutineRepository.Repository.SetSubtaskCompleted | app/src/main/java/com/reachravi55/mydailyroutine/data/RoutineRepository.kt:168-193 | One update: `AfterSetSubtaskCompleted`. |
| RoutineRepository.Repository.UpdateSettings | app/src/main/java/com/reachravi55/mydailyroutine/data/RoutineRepository.kt:195-201 | Only the settings change, to the transform of the old settings. |
| AlarmScheduler.AlarmManager.constructor | app/src/main/java/com/reachravi55/mydailyroutine/alarms/AlarmScheduler.kt:52 | The alarm service starts with the given alarms and exact-alarm permission. |
| AlarmScheduler.AlarmManager.Cancel | app/src/main/java/com/reachravi55/mydailyroutine/alarms/AlarmScheduler.kt:68-69 | Cancelling a request code removes its alarm, if any. A missing pending intent is the same as no entry. |
| AlarmScheduler.AlarmManager.SetExact | app/src/main/java/com/reachravi55/mydailyroutine/alarms/AlarmScheduler.kt:56-61 | An exact alarm overwrites the request code's entry, unless exact alarms are not permitted; that refusal is the SecurityException. |
| AlarmScheduler.AlarmManager.Set | app/src/main/java/com/reachravi55/mydailyroutine/alarms/AlarmScheduler.kt:62 | An inexact alarm overwrites the request code's entry. |
| AlarmScheduler.RequestCode | app/src/main/java/com/reachravi55/mydailyroutine/alarms/AlarmScheduler.kt:120-123 | The request code, the `hashCode` of the task id, date key, hour and minute joined by vertical bars, is a signed 32-bit value. |
| AlarmScheduler.TriggerAt | app/src/main/java/com/reachravi55/mydailyroutine/alarms/AlarmScheduler.kt:47 | The trigger instant lies within its date. |
| AlarmScheduler.Step | app/src/main/java/com/reachravi55/mydailyroutine/alarms/AlarmScheduler.kt:33-34 | Cancel, then schedule: the step throws iff the hour or minute is invalid. The key ends armed iff the instant is after now, and then with that alarm. Every other key is unchanged. |
| AlarmScheduler.Reschedule | app/src/main/java/com/reachravi55/mydailyroutine/alarms/AlarmScheduler.kt:22-37 | No reminders or a blank start leaves the alarms untouched. A date key that does not parse throws before any alarm changes. With every reminder disabled, no alarm changes. |
| AlarmScheduler.NoEnabledReminders | app/src/main/java/com/reachravi55/mydailyroutine/alarms/AlarmScheduler.kt:31-32 | With every reminder disabled, the pass visits no slot. |
| AlarmScheduler.RowMembership | app/src/main/java/com/reachravi55/mydailyroutine/alarms/AlarmScheduler.kt:31-35 | A date's slots are exactly its enabled reminders, each with its own request code. |
| AlarmScheduler.SlotsOfMembership | app/src/main/java/com/reachravi55/mydailyroutine/alarms/AlarmScheduler.kt:29-36 | The pass visits exactly the pairs of a listed date and an enabled reminder. |
| AlarmScheduler.ApplyFrame | app/src/main/java/com/reachravi55/mydailyroutine/alarms/AlarmScheduler.kt:29-36 | A key that no slot of the pass produces keeps its alarm, or its absence. |
| AlarmScheduler.LastWith | app/src/main/java/com/reachravi55/mydailyroutine/alarms/AlarmScheduler.kt:30-36 | Finds the last slot of the pass with a given key, or -1 when there is none. |
| AlarmScheduler.ApplyLastDecides | app/src/main/java/com/reachravi55/mydailyroutine/alarms/AlarmScheduler.kt:33-34 | After a pass that did not throw, a key is armed iff its last slot's instant is after now, and then it holds that slot's alarm. Slots sharing a key leave one alarm. |
| AlarmScheduler.ApplyAborted | app/src/main/java/com/reachravi55/mydailyroutine/alarms/AlarmScheduler.kt:47 | Once a step throws, the later slots change nothing. |
| AlarmScheduler.ApplyAppend | app/src/main/java/com/reachravi55/mydailyroutine/alarms/AlarmScheduler.kt:30-36 | A pass over two runs of slots is the pass over the first, then, unless it threw, the pass over the second. |
| AlarmScheduler.CancelAlarm | app/src/main/java/com/reachravi55/mydailyroutine/alarms/AlarmScheduler.kt:66-70 | `cancelAlarm` removes exactly the slot's request code. |
| AlarmScheduler.ScheduleAlarm | app/src/main/java/com/reachravi55/mydailyroutine/alarms/AlarmScheduler.kt:39-64 | `scheduleAlarm` throws on an invalid time and arms nothing at or before now. Otherwise it arms the request code, exact when permitted and inexact as the fallback. |
| AlarmScheduler.RescheduleDates | app/src/main/java/com/reachravi55/mydailyroutine/alarms/AlarmScheduler.kt:26-29 | The pass covers exactly `occurrences(task, today, today + daysAhead)`. |
| AlarmScheduler.RescheduleTask | app/src/main/java/com/reachravi55/mydailyroutine/alarms/AlarmScheduler.kt:22-37 | The nested loop leaves exactly the alarms, and the throw flag, of `Reschedule`. |
| AlarmScheduler.ArmOccurrences | app/src/main/java/com/reachravi55/mydailyroutine/alarms/AlarmScheduler.kt:30-36 | The loop over dates is the pass over their slots. |
| AlarmScheduler.ArmDate | app/src/main/java/com/reachravi55/mydailyroutine/alarms/AlarmScheduler.kt:31-35 | The loop over one date's reminders is the pass over that date's slots. |
| AlarmScheduler.Rearm | app/src/main/java/com/reachravi55/mydailyroutine/alarms/AlarmScheduler.kt:33-34 | Cancel, then schedule, for one reminder is one `Step`. |
| BootReceiver.ResyncIsUnarchivedInOrder | app/src/main/java/com/reachravi55/mydailyroutine/alarms/BootReceiver.kt:19-21 | The boot loop calls `rescheduleTask` exactly once for each task that is not archived, in document order, and for no other task. |
| BootReceiver.AllArchivedLeavesAlarms | app/src/main/java/com/reachravi55/mydailyroutine/alarms/BootReceiver.kt:20 | When every task is archived, booting leaves the alarms as they were. |
| BootReceiver.ResyncAborted | app/src/main/java/com/reachravi55/mydailyroutine/alarms/BootReceiver.kt:16-22 | After a throw, the later tasks are not rescheduled. |
| BootReceiver.ResyncStep | app/src/main/java/com/reachravi55/mydailyroutine/alarms/BootReceiver.kt:19-21 | One more task of the loop: it is skipped if archived or after a throw, and otherwise rescheduled. |
| BootReceiver.OnReceive | app/src/main/java/com/reachravi55/mydailyroutine/alarms/BootReceiver.kt:13-23 | Any other action changes nothing. On BOOT_COMPLETED, `ensureInitialized` runs first, and the alarms are then those of the boot loop over the tasks read after it. |
| BootReceiver.ResyncAll | app/src/main/java/com/reachravi55/mydailyroutine/alarms/BootReceiver.kt:19-21 | The loop over the tasks leaves exactly the alarms, and the throw flag, of `Resync`. |

## Left out

- Concurrency is not modelled. This covers DataStore's serialized updates, the `CoroutineScope(Dispatchers.IO)` of the boot receiver, and the `@Volatile`/`synchronized` singleton (`RoutineRepository.kt:205-216`). Each `updateData` is one atomic step, and calls run one after another.
- AlarmScheduler.RescheduleTask and BootReceiver.OnReceive: the clock is read once, before a pass. One `today` serves the whole boot loop, and one `now` serves every slot of a pass. The source reads `LocalDate.now()` once per `rescheduleTask` call (`AlarmScheduler.kt:26`) and `System.currentTimeMillis()` once per slot (`AlarmScheduler.kt:50`). So a boot that crosses midnight, or a pass that crosses a minute boundary, can differ for later tasks and slots.
- The clock and the time zone are parameters. `LocalDate.now()`, `System.currentTimeMillis()` and `ZoneId.systemDefault()` become today's epoch day and the current local minute. Daylight-saving gaps and overlaps are not modelled, because an instant is a local minute.
- `Ids.id()` random ids are parameters (`freshId`).
- TriggerAt: compares local minutes, not epoch milliseconds. On a minute boundary `millis <= now` and `minute <= floor(now)` agree, so only the zone conversion is dropped.
- ScheduleAlarm: merges the `SDK_INT >= M` branch. `setExactAndAllowWhileIdle` and `setExact` are one exact arm, and the permission flag decides whether it throws `SecurityException`.
- AlarmScheduler.AlarmManager.Cancel: an alarm is identified by its request code alone. Both pending intents target the same receiver, and Android ignores extras when matching intents. `findPendingIntent` returning null is the same as the key being absent.
- KotlinText.HashCode: covers strings of UTF-16 code units below U+10000. A character outside the Basic Multilingual Plane is two code units in Java, but one `char` here.
- 32-bit `Int` overflow is not modelled. Affected are the `toInt()` of day, week and month counts in RepeatEngine, `year++`, `interval.toLong()` and the reminder hour and minute. Integers are unbounded, and `LocalDate` arithmetic beyond year ±999,999,999 is outside the model.
- RepeatEngine.WeeklyOccurrences: visits weekdays 1–7 in ascending order, where the source iterates a `LinkedHashSet` in insertion order and sorts at the end. The returned list is the same, and the loop invariants show it is sorted.
- The definition of `parseDateKey` is not part of this model. It is modelled as `DateUtils.parseKey`, the strict `ISO_LOCAL_DATE` parse.
- A thrown exception is a `Failure` result or `ok == false`. Exception types and messages are not modelled.
- The protobuf messages keep only the fields the core reads or writes. Generated builder code and `RoutineDataStore` serialization are not part of this model.
- Only `hashCode`, `trim`, `isBlank`, `Int.toString` and the `java.time` arithmetic the core uses are modelled from the Kotlin and Java libraries. `Calendar.Civil` is defined as the unique valid date with a given epoch day.
- The Compose UI, `ReminderReceiver`, the legacy preference-based alarm code, notifications and the Room entities are not part of this model.
- AlarmScheduler.ArmOccurrences, AlarmScheduler.ArmDate and AlarmScheduler.Rearm: these split the nested `for` loops of `rescheduleTask` into one method per loop level. The order of cancel and arm calls is the source's.
