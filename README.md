# HabitTracker core in Dafny

This project models the non-UI logic of the HabitTracker mobile app.
Each module corresponds to one source file:

- **Helpers** (`src/utils/helpers.ts`): the streak calculation, the
  `YYYY-MM-DD` date format, the 12-hour time format, weekday numbers and
  the dates of the current week.
- **Storage** (`src/database/mmkvStorage.ts`): the record store. It keeps
  three lists (habits, logs, statistics). A save upserts by key and a
  delete reports whether anything changed. A key that holds nothing reads
  as an empty list.
- **Notifications** (`src/services/notificationService.ts`): reminder
  planning. The notification service is a list of scheduled requests, each
  with an identifier, a payload and a trigger. The module covers:
  - the per-habit reminder (guards, cancel-then-schedule, weekday
    suppression);
  - the pass over all habits;
  - the evening series for habits not yet logged today.
- **Context** (`src/context/HabitContext.tsx`): the habit provider. It is a
  class with the three in-memory lists as fields, over a store and a
  notification service. Its operations are:
  - add, update, delete and log;
  - the per-habit and all-habit statistics refresh;
  - the lookups.
- **Home** (`src/screens/HomeScreen.tsx`, lines 53-84): the habits due
  today, each paired with its log of today and its statistics.
- **Stats** (`src/screens/StatsScreen.tsx`, lines 36-137):
  - the category toggle and filter;
  - the seven-day completion series;
  - the category histogram and pie slices;
  - the top-five streak chart;
  - the summary totals.

Four modules support the others:

- **Types**: the records of `src/types/index.ts`.
- **Collections**: the array built-ins the code relies on (`filter`,
  `find`, `findIndex`, index assignment or `push`, `map`-replace, the
  stable `sort` and `slice`).
- **Text**: `String(n)`, `padStart` and `Number`.
- **Calendar**: the year, month and day fields of a date.

Conventions:

- Dates are day numbers, with day 0 = 1970-01-01. The weekday is
  `(d + 4) % 7`, so Sunday is 0.
- Instants are integer milliseconds, and the day of an instant is
  `now / 86400000`. Local and UTC dates are taken to agree.
- Every read of the clock becomes a `now` or `today` parameter.
- Every `generateId()` becomes a `freshId` parameter.
- Completion rates are exact `real`s.

## Model

The table lists every member that carries a contract: functions with an `ensures`, methods and lemmas.
The functions that only define behaviour are listed after the table, with the lines they model. Their meaning is stated by the members in the table.

| member | source | states |
|---|---|---|
| Helpers.DayOfWeek | HabitTracker/src/utils/helpers.ts:62-65 | the weekday number lies in 0..6 |
| Helpers.DayOfWeekNext | HabitTracker/src/utils/helpers.ts:62-65 | the next day has the next weekday modulo 7, a week later has the same weekday, and 1970-01-01 is a Thursday (4) |
| Helpers.WeekdayName | HabitTracker/src/screens/HomeScreen.tsx:59-63 | the map from weekday numbers to names sends 0 to Sun and 6 to Sat |
| Helpers.WeekdayNameInjective | HabitTracker/src/screens/HomeScreen.tsx:59-63 | distinct weekday numbers have distinct names |
| Helpers.FormatDateLayout | HabitTracker/src/utils/helpers.ts:26-31 | the formatted date is the year, a dash, a two-digit month and a two-digit day; the fields read back as the calendar year, the 1-based month and the day; a four-digit year gives ten characters |
| Helpers.ParseFormatDate | HabitTracker/src/utils/helpers.ts:26-40 | parsing a formatted date gives back the same day |
| Helpers.FormatDateInjective | HabitTracker/src/utils/helpers.ts:26-31 | two days have the same formatted date exactly when they are the same day |
| Helpers.DisplayHour | HabitTracker/src/utils/helpers.ts:157 | the shown hour lies in 1..12 and agrees with the hour modulo 12, so hour 0 shows as 12 |
| Helpers.FormatTimeLayout | HabitTracker/src/utils/helpers.ts:154-158 | the suffix is PM exactly when the hour is 12 or more; the minutes are two zero-padded digits after a colon and read back as the minutes; the digits before the colon read back as the shown hour |
| Helpers.ParseFormatTime | HabitTracker/src/utils/helpers.ts:154-158 | reading the 12-hour text back gives the original 24-hour time |
| Helpers.FormatTimeInjective | HabitTracker/src/utils/helpers.ts:154-158 | distinct valid times are formatted differently |
| Helpers.WeekStart | HabitTracker/src/utils/helpers.ts:86-92 | the first day of the week is a Sunday, at most six days before today |
| Helpers.WeekDays | HabitTracker/src/utils/helpers.ts:94-100 | the i-th date of the week has weekday i |
| Helpers.WeekHoldsToday | HabitTracker/src/utils/helpers.ts:86-103 | the week's entry at today's weekday is today's date |
| Helpers.GetCurrentWeekDates | HabitTracker/src/utils/helpers.ts:86-103 | the loop returns exactly the formatted dates of the seven consecutive days from that Sunday |
| Helpers.SortNewestFirst | HabitTracker/src/utils/helpers.ts:114 | the sorted copy is a permutation of the logs, ordered newest first |
| Helpers.CalculateStreak | HabitTracker/src/utils/helpers.ts:110-147 | the loop computes the streak: the recency gate, then the walk over the sorted copy |
| Helpers.StreakEmpty | HabitTracker/src/utils/helpers.ts:111 | no logs give a streak of 0 |
| Helpers.StreakStale | HabitTracker/src/utils/helpers.ts:117-128 | when the newest log is dated neither today nor yesterday, the streak is 1 if that log is done and 0 otherwise |
| Helpers.StreakNewestYesterday | HabitTracker/src/utils/helpers.ts:120-143 | when the newest log is dated yesterday, the streak is 0, because the walk still expects today |
| Helpers.WalkConsumesDoneDays | HabitTracker/src/utils/helpers.ts:131-144 | every step of the walk counts a done log dated exactly on the expected day |
| Helpers.WalkStopsAtMiss | HabitTracker/src/utils/helpers.ts:132 | the walk never gets past the first log that is not done |
| Helpers.WalkSkipsLater | HabitTracker/src/utils/helpers.ts:131-144 | a done log dated after the expected day is skipped and the walk goes on |
| Helpers.WalkSkipsDuplicate | HabitTracker/src/utils/helpers.ts:131-144 | a second done log of a day just counted is skipped, so the day counts once |
| Helpers.WalkAtMostDone | HabitTracker/src/utils/helpers.ts:131-144 | the walk counts no more than the done logs |
| Helpers.WalkEndsAtGap | HabitTracker/src/utils/helpers.ts:134-143 | over sorted done logs, the walk ends at a day that has no log |
| Helpers.StreakAtMostDone | HabitTracker/src/utils/helpers.ts:110-147 | the streak never exceeds the number of done logs |
| Helpers.Newest | HabitTracker/src/utils/helpers.ts:114-117 | the newest log is one of the logs, and no log is dated later |
| Helpers.SortedHead | HabitTracker/src/utils/helpers.ts:114-117 | the head of the sorted copy is the newest log |
| Helpers.StreakDaysDone | HabitTracker/src/utils/helpers.ts:131-144 | when the newest log is today, each of the streak's days (today, today-1, …) has a done log |
| Helpers.StreakIsRun | HabitTracker/src/utils/helpers.ts:131-144 | for done logs whose newest is today, the streak is k exactly when the k days up to today are all logged and the day before them is not |
| Helpers.StreakRunEnds | HabitTracker/src/utils/helpers.ts:134-143 | for such logs, the day just before the streak has no log |
| Text.NatToString | HabitTracker/src/utils/helpers.ts:28-30 | `String(n)` is a nonempty run of digits without a leading zero |
| Text.ParseNatToString | HabitTracker/src/utils/helpers.ts:28-30 | reading `String(n)` back gives n |
| Text.ParseIntToString | HabitTracker/src/utils/helpers.ts:28 | reading the year's text back gives the year, negative years included |
| Text.NatToStringInjective | HabitTracker/src/utils/helpers.ts:28-30 | distinct numbers have distinct decimal text |
| Text.Pad2 | HabitTracker/src/utils/helpers.ts:29-30 | `padStart(2, '0')` of a number below 100 is two digits that read back as the number |
| Calendar.CivilFromDays | HabitTracker/src/utils/helpers.ts:27-30 | the year, month and day fields of a day form a valid calendar date that numbers back to the same day |
| Calendar.DaysBeforeNextMonth | HabitTracker/src/utils/helpers.ts:27-30 | the day count before a month grows by that month's length, and reaches the year's length after December |
| Calendar.DaysBeforeNextYear | HabitTracker/src/utils/helpers.ts:27-30 | the day count before a year grows by that year's length |
| Storage.HabitStore.constructor | HabitTracker/src/database/mmkvStorage.ts:65-70 | a new store holds nothing under any of its three keys |
| Storage.HabitStore.Habits | HabitTracker/src/database/mmkvStorage.ts:106-108 | the habits are the stored list, or empty when the key is missing |
| Storage.HabitStore.Logs | HabitTracker/src/database/mmkvStorage.ts:144-146 | the logs are the stored list, or empty when the key is missing |
| Storage.HabitStore.Stats | HabitTracker/src/database/mmkvStorage.ts:187-189 | the statistics are the stored list, or empty when the key is missing |
| Storage.HabitStore.HabitById | HabitTracker/src/database/mmkvStorage.ts:114-117 | none exactly when no stored habit has the id; otherwise a stored habit with that id |
| Storage.HabitStore.LogsByHabitId | HabitTracker/src/database/mmkvStorage.ts:152-155 | exactly the stored logs of the habit, in stored order |
| Storage.HabitStore.LogsByDate | HabitTracker/src/database/mmkvStorage.ts:157-160 | exactly the stored logs of the day, in stored order |
| Storage.HabitStore.StatsByHabitId | HabitTracker/src/database/mmkvStorage.ts:195-198 | none exactly when no record has the habit id; otherwise a stored record of the habit |
| Storage.HabitStore.SaveHabit | HabitTracker/src/database/mmkvStorage.ts:119-130 | the habit list becomes the upsert of the habit by id, the lookup of its id finds it, and the other keys are untouched |
| Storage.HabitStore.DeleteHabit | HabitTracker/src/database/mmkvStorage.ts:132-141 | it reports true exactly when some habit had the id; if none did, nothing is written; otherwise every habit with the id is removed and the rest are kept in order |
| Storage.HabitStore.SaveHabitLog | HabitTracker/src/database/mmkvStorage.ts:162-173 | the log list becomes the upsert by log id, the log is found under its id, and the other keys are untouched |
| Storage.HabitStore.DeleteHabitLog | HabitTracker/src/database/mmkvStorage.ts:175-184 | the same report-and-remove behaviour as DeleteHabit, on log ids |
| Storage.HabitStore.SaveHabitStatistic | HabitTracker/src/database/mmkvStorage.ts:200-211 | the statistics become the upsert by habit id, the record is found under its habit, and one record per habit stays one record per habit |
| Storage.SaveLogKeepsOtherLogs | HabitTracker/src/database/mmkvStorage.ts:162-173 | saving a log leaves every log with another id in its place, so a second log of the same habit and day is kept |
| Collections.UpsertKey | HabitTracker/src/database/mmkvStorage.ts:122-127 | an existing key is overwritten at its first index and the length is unchanged; a new key is appended; every other position is unchanged |
| Collections.FindIndexKey | HabitTracker/src/database/mmkvStorage.ts:122 | the loop returns the first index carrying the key, or -1 |
| Notifications.NotificationService.constructor | HabitTracker/src/services/notificationService.ts:8-9 | a new service has nothing scheduled, and its availability flag is given |
| Notifications.NotificationService.Schedule | HabitTracker/src/services/notificationService.ts:103-115 | scheduling replaces any request under the same identifier |
| Notifications.NotificationService.CancelScheduled | HabitTracker/src/services/notificationService.ts:161-165 | cancelling an identifier removes every request under it and nothing else |
| Notifications.NotificationService.CancelAllScheduled | HabitTracker/src/services/notificationService.ts:133-134 | cancelling all requests leaves none |
| Notifications.NotificationService.CancelHabitReminder | HabitTracker/src/services/notificationService.ts:282-294 | when notifications are available, the habit's request is removed; otherwise nothing changes |
| Notifications.NotificationService.CancelAllNotifications | HabitTracker/src/services/notificationService.ts:267-279 | when notifications are available, no request remains; otherwise nothing changes |
| Notifications.NotificationService.ScheduleHabitReminder | HabitTracker/src/services/notificationService.ts:61-121 | the requests become the planned result of the per-habit reminder for the current day |
| Notifications.NotificationService.ScheduleAllHabitReminders | HabitTracker/src/services/notificationService.ts:124-147 | when unavailable, nothing changes; otherwise everything is cancelled and the stored habits are planned in order |
| Notifications.NotificationService.SchedulePersistentEveningReminders | HabitTracker/src/services/notificationService.ts:150-242 | the requests become the planned evening result over the stored habits and today's stored logs |
| Notifications.NotificationService.CancelPersistentReminders | HabitTracker/src/services/notificationService.ts:158-165 | the cancel loop removes exactly the identifiers of the requests flagged as persistent reminders |
| Notifications.NotificationService.ScheduleSeries | HabitTracker/src/services/notificationService.ts:215-236 | the while loop submits exactly the planned series |
| Notifications.SubmitReplaces | HabitTracker/src/services/notificationService.ts:103-115 | after a submit, the identifier holds only the new request, and every other identifier is unchanged |
| Notifications.SubmitAllFresh | HabitTracker/src/services/notificationService.ts:215-236 | submitting requests whose identifiers are unique and unused appends them in order |
| Notifications.SuppressedByKind | HabitTracker/src/services/notificationService.ts:83-100 | a daily habit is never held back; a custom habit without days is not held back; one with days is held back exactly when today's number is not among them; a weekly habit is held back exactly when today's name is not among its days |
| Notifications.ReminderRequest | HabitTracker/src/services/notificationService.ts:103-115 | the request has the habit's id as identifier, the habit id as payload, and a daily repeating trigger at the reminder's hour and minute |
| Notifications.ReminderFor | HabitTracker/src/services/notificationService.ts:61-121 | at most one request is planned, and one is planned exactly when the reminder is enabled and the habit is not held back today |
| Notifications.HabitReminderGuards | HabitTracker/src/services/notificationService.ts:62-67 | when notifications are unavailable, or the reminder is missing or disabled, nothing changes |
| Notifications.HabitReminderFilter | HabitTracker/src/services/notificationService.ts:61-121 | afterwards the habit's identifier holds exactly the planned request, or nothing when it is held back, because it is cancelled first; other identifiers are unchanged |
| Notifications.HabitReminderKeepsOthers | HabitTracker/src/services/notificationService.ts:70-71 | requests under other identifiers are unaffected |
| Notifications.HabitReminderIdempotent | HabitTracker/src/services/notificationService.ts:61-121 | planning the same reminder twice equals planning it once |
| Notifications.RollForwardNext | HabitTracker/src/services/notificationService.ts:73-80 | the rolled-forward instant is the reminder's time of day, and lies within one day from now |
| Notifications.ReminderPassFilter | HabitTracker/src/services/notificationService.ts:133-141 | from a cleared list and habits with distinct ids, each identifier ends up with exactly the reminder planned for that habit |
| Notifications.ExpectedRemindersLast | HabitTracker/src/services/notificationService.ts:137-141 | the expected reminders of a habit list unfold one habit at a time |
| Notifications.FlaggedIds | HabitTracker/src/services/notificationService.ts:161-165 | a set of exactly the identifiers of the flagged requests |
| Notifications.CancelStep | HabitTracker/src/services/notificationService.ts:161-165 | one step of the cancel loop |
| Notifications.IncompleteHabits | HabitTracker/src/services/notificationService.ts:173-196 | exactly the habits that are not held back today and have no log today, in order |
| Notifications.IncompleteEmptyIff | HabitTracker/src/services/notificationService.ts:173-200 | nothing is incomplete exactly when every habit is held back or has a log today |
| Notifications.StartTime | HabitTracker/src/services/notificationService.ts:203-210 | the series starts at the later of the start time today and now |
| Notifications.EndTime | HabitTracker/src/services/notificationService.ts:212-213 | the series ends at 23:59:00 of the same day |
| Notifications.PersistentIdPrefix | HabitTracker/src/services/notificationService.ts:228 | every series identifier begins with `persistent-` |
| Notifications.PersistentIdInjective | HabitTracker/src/services/notificationService.ts:228 | distinct numbers give distinct series identifiers |
| Notifications.PersistentContent | HabitTracker/src/services/notificationService.ts:220-225 | every series request is flagged as a persistent reminder |
| Notifications.SeriesAt | HabitTracker/src/services/notificationService.ts:215-236 | the i-th request is `persistent-(1000+i)`, fires at start + i·step, strictly before the end, and carries the count of incomplete habits |
| Notifications.SeriesLength | HabitTracker/src/services/notificationService.ts:215-236 | no request when the start is not before the end; otherwise n requests with (n-1)·step < end - start <= n·step, so n is the rounded-up quotient |
| Notifications.SeriesUnique | HabitTracker/src/services/notificationService.ts:216-235 | the series identifiers are pairwise distinct |
| Notifications.SeriesSubmitStep | HabitTracker/src/services/notificationService.ts:215-236 | one iteration of the while loop |
| Notifications.EveningPlanShape | HabitTracker/src/services/notificationService.ts:150-242 | the plan is the list with every flagged request removed (order kept), followed by nothing when no habit is incomplete, or by the series from the start to 23:59 otherwise |
| Notifications.EveningPlanNothingDue | HabitTracker/src/services/notificationService.ts:198-200 | when no habit is incomplete, the flagged requests are cancelled and nothing is scheduled |
| Context.CompletionRate | HabitTracker/src/context/HabitContext.tsx:166-169 | the rate lies in [0, 100], is 0 with no done or failed logs, and otherwise equals 100·done/(done+failed) |
| Context.RefreshedStats | HabitTracker/src/context/HabitContext.tsx:163-187 | the record is the habit's; the current streak does not exceed the completions; the longest streak is at least the current one and at least the previous record's, and equals one of them; the rate lies in [0, 100] |
| Context.StatusPartition | HabitTracker/src/context/HabitContext.tsx:166-168 | done, failed and pending logs together are all the logs |
| Context.RefreshedCounts | HabitTracker/src/context/HabitContext.tsx:164-168 | the completions and failures count exactly the habit's done and failed logs, and the pending ones make up the rest |
| Context.RefreshedAfterAppend | HabitTracker/src/context/HabitContext.tsx:164-168 | a log of another habit changes nothing; a log of this habit adds one to the count of its status |
| Context.RefreshedIdempotent | HabitTracker/src/context/HabitContext.tsx:175-179 | refreshing again against the refreshed record gives the same record |
| Context.ZeroStatsAgree | HabitTracker/src/context/HabitContext.tsx:76-83 | the all-zero record added with a habit is what a refresh over no logs gives |
| Context.RefreshFind | HabitTracker/src/context/HabitContext.tsx:192-194 | only the habit's record changes, to the refreshed one; with no record, nothing is added |
| Context.RefreshWithoutRecord | HabitTracker/src/context/HabitContext.tsx:192-194 | with no record for the habit, the in-memory list is unchanged and does not grow |
| Context.RefreshKeepsLongest | HabitTracker/src/context/HabitContext.tsx:175-179 | the longest streak never decreases across a refresh |
| Context.RefreshAllStep | HabitTracker/src/context/HabitContext.tsx:198-202 | one iteration of the refresh-all loop |
| Context.RefreshAllFind | HabitTracker/src/context/HabitContext.tsx:198-202 | after refreshing all, each habit's in-memory record is the refreshed one and every other record is unchanged |
| Context.RefreshAllSaved | HabitTracker/src/context/HabitContext.tsx:198-202 | after refreshing all, the store holds the refreshed record of every habit (added if it was missing) and the other records as before |
| Context.PatchNothing | HabitTracker/src/context/HabitContext.tsx:94-98 | an empty patch changes only `updatedAt` |
| Context.PatchCompose | HabitTracker/src/context/HabitContext.tsx:94-98 | two patches in a row equal their combination, where later fields win |
| Context.UpdateFinds | HabitTracker/src/context/HabitContext.tsx:92-104 | after an update, the id finds the patched habit and every other id finds what it found before |
| Context.UpdateReminder | HabitTracker/src/context/HabitContext.tsx:106-110 | after an update, the habit's identifier holds exactly its planned reminder and other identifiers are unchanged |
| Context.DeleteCancelsReminder | HabitTracker/src/context/HabitContext.tsx:115-121 | after a delete, no request remains under the habit's identifier |
| Context.AddFreshHabit | HabitTracker/src/context/HabitContext.tsx:66-85 | a habit with a fresh id keeps ids unique and is appended both in the store and in memory, and so is its statistics record |
| Context.LogHabitMissesNewLog | HabitTracker/src/context/HabitContext.tsx:135-139 | since the refresh reads the logs from before the append, a first done log is saved with 0 completions, where the appended list would give 1 |
| Context.HabitProvider.constructor | HabitTracker/src/context/HabitContext.tsx:39-55 | loading fills the three lists from the store |
| Context.HabitProvider.GetHabitById | HabitTracker/src/context/HabitContext.tsx:143-145 | none exactly when no habit has the id; otherwise a habit with that id |
| Context.HabitProvider.GetHabitLogsByHabitId | HabitTracker/src/context/HabitContext.tsx:148-150 | exactly the habit's logs, in order |
| Context.HabitProvider.GetHabitLogsByDate | HabitTracker/src/context/HabitContext.tsx:153-155 | exactly the day's logs, in order |
| Context.HabitProvider.GetHabitStatsByHabitId | HabitTracker/src/context/HabitContext.tsx:158-160 | none exactly when no record has the habit id; otherwise a record of the habit |
| Context.HabitProvider.ComputeStats | HabitTracker/src/context/HabitContext.tsx:164-187 | the record computed from the snapshot, with the streak from the streak loop and the previous record from the in-memory list |
| Context.HabitProvider.RefreshHabitStats | HabitTracker/src/context/HabitContext.tsx:163-195 | the store upserts the refreshed record; the in-memory list replaces only that habit's record; nothing else changes |
| Context.HabitProvider.RefreshAllHabitStats | HabitTracker/src/context/HabitContext.tsx:198-202 | the loop leaves memory and store as the habit-by-habit refresh plan gives them |
| Context.HabitProvider.AddHabit | HabitTracker/src/context/HabitContext.tsx:58-88 | the new habit comes from the draft, the fresh id and now; it is upserted in the store and appended in memory; its reminder is planned when enabled; and an all-zero statistics record is stored and appended |
| Context.HabitProvider.InitStats | HabitTracker/src/context/HabitContext.tsx:76-85 | the all-zero record is upserted in the store and appended in memory |
| Context.HabitProvider.UpdateHabit | HabitTracker/src/context/HabitContext.tsx:91-112 | an unknown id changes nothing; a known id has its habit patched with `updatedAt` set, saved and replaced in memory, with its reminder cancelled and planned again |
| Context.HabitProvider.DeleteHabit | HabitTracker/src/context/HabitContext.tsx:115-121 | every habit with the id is removed from memory and from the store, the rest are kept in order, its reminder is cancelled, and logs and statistics are untouched |
| Context.HabitProvider.LogHabit | HabitTracker/src/context/HabitContext.tsx:124-140 | exactly one new log dated today is saved and appended, and never replaces an earlier log of the day; the statistics are refreshed from the logs as they were before the append |
| Home.TodayHabitsExact | HabitTracker/src/screens/HomeScreen.tsx:53-74 | a habit is shown exactly when it is due today (always for daily, by weekday name for weekly, by weekday number for custom with days, never for custom without days), in the original order |
| Home.ShownUnlessSuppressed | HabitTracker/src/screens/HomeScreen.tsx:53-74 | a habit is shown exactly when its reminder would not be held back, with one exception: a custom habit without days is hidden here but not held back by the reminder planner |
| Home.Entries | HabitTracker/src/screens/HomeScreen.tsx:80-84 | one row per shown habit, in order |
| Home.TodayEntryParts | HabitTracker/src/screens/HomeScreen.tsx:77-84 | each row's habit is due today; its log is the habit's first log of today, missing only when there is none; its statistics are the habit's first record |
| Stats.ToggleCategory | HabitTracker/src/screens/StatsScreen.tsx:36-42 | toggling the selected category clears the selection; any other category becomes selected |
| Stats.ToggleTwice | HabitTracker/src/screens/StatsScreen.tsx:36-42 | toggling the same category twice restores a cleared or matching selection |
| Stats.FilteredHabitsExact | HabitTracker/src/screens/StatsScreen.tsx:47-49 | exactly the habits of the selected category, or all habits when none is selected, in order |
| Stats.FilteredStats | HabitTracker/src/screens/StatsScreen.tsx:51-53 | at most one record per filtered habit |
| Stats.FilteredStatsExact | HabitTracker/src/screens/StatsScreen.tsx:51-53 | every record belongs to a filtered habit, and each filtered habit's first record is present; every record is the first record of its habit |
| Stats.FilteredStatsAppend | HabitTracker/src/screens/StatsScreen.tsx:51-53 | one more habit adds its first record at the end, or nothing when it has none, so the records follow the order of the habits |
| Stats.DayLabelParts | HabitTracker/src/screens/StatsScreen.tsx:62 | the label is the month, a slash and the day of the month |
| Stats.Percentage | HabitTracker/src/screens/StatsScreen.tsx:70-75 | the percentage lies in [0, 100], is 0 for an empty whole, and otherwise is 100·part/whole |
| Stats.PercentageFull | HabitTracker/src/screens/StatsScreen.tsx:70-75 | the percentage is 100 exactly when the whole is nonempty and the part is all of it |
| Stats.DayRate | HabitTracker/src/screens/StatsScreen.tsx:66-75 | a day without logs rates 0; otherwise the rate is 100·done/(logs of the day) |
| Stats.DayRateFull | HabitTracker/src/screens/StatsScreen.tsx:66-75 | a day rates 100 exactly when it has logs and all of them are done |
| Stats.DailySeries | HabitTracker/src/screens/StatsScreen.tsx:59-76 | the loop yields exactly seven labels and seven rates for the days from today-6 to today, oldest first |
| Stats.CategoryCountsSum | HabitTracker/src/screens/StatsScreen.tsx:84-95 | the six category counts sum to the number of filtered habits |
| Stats.CountOfAppend | HabitTracker/src/screens/StatsScreen.tsx:93-95 | one more habit adds one to its own category's count only |
| Stats.CountCategories | HabitTracker/src/screens/StatsScreen.tsx:84-95 | the loop leaves every category mapped to its number of filtered habits |
| Stats.Slices | HabitTracker/src/screens/StatsScreen.tsx:97-105 | at most one slice per category |
| Stats.SlicesExact | HabitTracker/src/screens/StatsScreen.tsx:97-105 | every slice has a positive count; every category with a positive count has its slice; each named slice carries its category's count |
| Stats.SliceNames | HabitTracker/src/screens/StatsScreen.tsx:97-105 | every slice is named after a category |
| Stats.CategoryNameInjective | HabitTracker/src/screens/StatsScreen.tsx:84-91 | distinct categories have distinct names |
| Stats.PieDataExact | HabitTracker/src/screens/StatsScreen.tsx:84-105 | a category has a slice, carrying its count, exactly when it has a habit; no slice is empty |
| Stats.TopStreaks | HabitTracker/src/screens/StatsScreen.tsx:110-112 | at most five records, as many as there are up to five, ordered by current streak from highest |
| Stats.TopStreaksAreTop | HabitTracker/src/screens/StatsScreen.tsx:110-112 | the chosen records come from the filtered ones, and no left-out record has a higher streak than a chosen one |
| Stats.StreakLabel | HabitTracker/src/screens/StatsScreen.tsx:114-117 | when a habit has the record's id, the caption is the first six characters of its name, or the whole name if shorter; when none has, the caption is empty |
| Stats.StreakChart | HabitTracker/src/screens/StatsScreen.tsx:110-119 | one label and one value per top record, at most five; the i-th value is the i-th top record's current streak and the i-th label its caption, so the values do not increase |
| Stats.CompletedTodayExact | HabitTracker/src/screens/StatsScreen.tsx:129-131 | it counts exactly the logs dated today with status done |
| Stats.SumRatesBounded | HabitTracker/src/screens/StatsScreen.tsx:132-133 | the sum of rates lies between 0 and 100 times the number of records |
| Stats.AverageRate | HabitTracker/src/screens/StatsScreen.tsx:132-133 | the average is 0 with no records, and otherwise the sum divided by the number of records (with 1 as divisor when there are none) |
| Stats.AverageRateBounded | HabitTracker/src/screens/StatsScreen.tsx:132-133 | with rates in [0, 100], the average lies in [0, 100] |
| Stats.LongestOverall | HabitTracker/src/screens/StatsScreen.tsx:134-137 | at least every record's longest streak, and either 0 or attained by a record |
| Stats.TotalsMeaning | HabitTracker/src/screens/StatsScreen.tsx:127-137 | the cards show the number of all habits, whatever the category filter; today's done logs, at most today's logs; an average that is a percentage when every rate is; and the overall longest streak |

Defining functions, each modelling the cited source:

- Helpers.FormatDate: `formatDate`, HabitTracker/src/utils/helpers.ts:26-31.
- Helpers.FormatTime: `formatTime`, helpers.ts:154-158.
- Helpers.Walk: the streak loop, helpers.ts:131-144.
- Helpers.Streak: `calculateStreak`, helpers.ts:110-147.
- Notifications.Submit: `scheduleNotificationAsync` with an identifier, HabitTracker/src/services/notificationService.ts:103-115.
- Notifications.Suppressed: the weekday checks, notificationService.ts:83-100.
- Notifications.AfterHabitReminder: `scheduleHabitReminder`, notificationService.ts:61-121.
- Notifications.ReminderPass: the loop, notificationService.ts:137-141.
- Notifications.Series: the while loop, notificationService.ts:215-236.
- Notifications.EveningPlan: `schedulePersistentEveningReminders`, notificationService.ts:150-242.
- Context.NewHabit: the new habit, HabitTracker/src/context/HabitContext.tsx:58-64.
- Context.ApplyPatch: the spread with `updatedAt`, HabitContext.tsx:94-98.
- Context.NewLog: the new log, HabitContext.tsx:125-133.
- Context.RefreshAllPlan: the refresh-all loop, HabitContext.tsx:198-202.
- Home.ShownOn: the frequency filter, HabitTracker/src/screens/HomeScreen.tsx:53-74.
- Home.TodayHabits: the same filter over the habit list, HomeScreen.tsx:53-74.
- Home.LoadTodayHabits: the rows, HomeScreen.tsx:53-84.
- Stats.FilteredHabits: HabitTracker/src/screens/StatsScreen.tsx:47-49.
- Stats.DayLabel: StatsScreen.tsx:62.
- Stats.PieData: StatsScreen.tsx:97-105.
- Stats.CompletedToday: StatsScreen.tsx:129-131.
- Stats.Totals: the summary cards, StatsScreen.tsx:127-137.

## Left out

- Storage backends (MMKV or AsyncStorage) and JSON (de)serialisation are not modelled. Each key holds a list, or nothing. The try/catch paths that return false or an empty list on a storage error are not modelled either.
- `saveHabits`, `saveHabitLogs`, `saveHabitStatistics`, `getUser`, `saveUser` and `clearAllData` are not modelled. No core operation depends on them.
- The expo-notifications calls are not modelled: permissions, device checks, channel setup, `initNotifications` and `sendImmediateNotification`. The service keeps only the `available` flag and the list of scheduled requests.
- Scheduling under an identifier that is already scheduled replaces the earlier request. This is assumed of the notification library.
- `generateId` draws random ids. The model takes each new id as a fresh parameter.
- Clock reads are not modelled. Each operation takes a single `now` or `today`, so all of its clock reads agree.
- Async interleaving is not modelled. The reminder cancel and schedule in `addHabit` and `updateHabit` are not awaited, yet the model runs them in sequence.
- React state batching and closure staleness are not modelled. The one exception is `logHabit`: its refresh reads the logs from before the append, and the model passes that snapshot. The all-habit refresh reads each previous record from the running list. The closure's list would give the same records (Context.RefreshedIdempotent).
- Completion rates are exact reals, not IEEE doubles.
- Times of day are a parsed hours/minutes pair. Splitting `"HH:MM"` and its NaN cases are not modelled.
- Time zones and DST are not modelled. Local dates and UTC dates (`toISOString`, the UTC parse of `parseDate`) are taken to agree.
- Helpers.ParseFormatDate: the date parser is the model's own inverse of the formatter, not JavaScript's `Date` parser.
- The rolled-forward reminder date is computed, but the submitted trigger is a daily repeating hour and minute, so the date is never used. Notifications.RollForwardNext states what that date would be.
- Notifications.EveningPlanShape assumes that every request whose identifier starts with `persistent-` is flagged as a persistent reminder.
- Context.UpdateHabit: a patch can change every field of a habit except `updatedAt`, which the update always overwrites. Keys outside the habit type are not modelled.
- `formatDateToReadable`, `isToday` and `getCurrentDate` are not modelled. They are locale formatting or clock reads outside the core's properties; `getCurrentDate` is the `today` parameter.
- Strings are sequences of Unicode scalar values. JavaScript's `substring` counts UTF-16 code units, so Stats.StreakLabel cuts a name with characters outside the Basic Multilingual Plane (emoji, for instance) differently from the app.
- Chart colours, legend fonts, layout and every other UI part of the screens are not modelled. So are the screens outside the two listed ranges.

## Behaviour of the code worth noting

The model keeps each of these behaviours of the code:

- Streaks: the comment at HabitTracker/src/utils/helpers.ts:122 describes a recency check against today or yesterday. Still, a newest log dated yesterday gives a streak of 0, because the walk still expects today (helpers.ts:119-125, 134-143; Helpers.StreakNewestYesterday).
- Deleting a habit removes only the habit (HabitTracker/src/context/HabitContext.tsx:115-121). Its logs and its statistics record stay in memory and in the store (Context.HabitProvider.DeleteHabit).
- The reminder planner decides suppression by the current weekday (HabitTracker/src/services/notificationService.ts:84, 92). It does not use the weekday of the rolled-forward trigger computed at lines 77-80 (Notifications.SuppressedByKind).
- A custom habit without weekday numbers is hidden on the home screen (HabitTracker/src/screens/HomeScreen.tsx:68-73). The reminder planner does not hold it back (notificationService.ts:83; Home.ShownUnlessSuppressed).
- The completion rate divides by done plus failed logs (HabitContext.tsx:166-169). Pending logs do not count in it (Context.CompletionRate, Context.RefreshedCounts).
- The store keys logs by id only (HabitTracker/src/database/mmkvStorage.ts:162-173). Two logs of the same habit and day are kept side by side (Storage.SaveLogKeepsOtherLogs).
