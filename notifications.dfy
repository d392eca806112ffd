/**
 * The reminder planner (src/services/notificationService.ts).
 *
 * The operating system's notification scheduler is abstracted as the list
 * of scheduled requests it holds. Each request has an identifier, a content
 * (title, body and data payload) and a trigger. Scheduling under an
 * identifier that is already scheduled replaces the earlier request.
 * The module flag `notificationsAvailable` is a field of the service.
 * Wall-clock reads are the parameter `now`.
 */
module Notifications {
  import opened Types
  import opened Text
  import opened Collections
  import opened Helpers
  import opened Storage

  /** A repeating daily `{hour, minute}` trigger, or a one-off `{date}` trigger. */
  datatype Trigger = Repeating(hour: nat, minute: nat) | At(time: Timestamp)

  /** The data payload: `{habitId}` of a habit reminder, or `{isPersistentReminder: true}`. */
  datatype Payload = HabitReminder(habitId: string) | PersistentReminder

  datatype Content = Content(title: string, body: string, data: Payload)

  datatype Request = Request(identifier: string, content: Content, trigger: Trigger)

  function IdKey(r: Request): string { r.identifier }

  predicate Flagged(r: Request)
  {
    r.content.data.PersistentReminder?
  }

  // ------------------------------------------------------ the scheduler

  /** Scheduling `r`: any request under its identifier is replaced, and `r` goes last. */
  function Submit(s: seq<Request>, r: Request): seq<Request>
  {
    RemoveKey(s, IdKey, r.identifier) + [r]
  }

  /** After scheduling, `r` is the one request under its identifier, and the other identifiers are as before. */
  lemma SubmitReplaces(s: seq<Request>, r: Request, k: string)
    ensures |Submit(s, r)| >= 1 && Submit(s, r)[|Submit(s, r)| - 1] == r
    ensures FilterKey(Submit(s, r), IdKey, k) == if k == r.identifier then [r] else FilterKey(s, IdKey, k)
    ensures RemoveKey(Submit(s, r), IdKey, r.identifier) == RemoveKey(s, IdKey, r.identifier)
  {
    var rest := RemoveKey(s, IdKey, r.identifier);
    FilterKeyAppend(rest, [r], IdKey, k);
    FilterKeyAfterRemoveKey(s, IdKey, r.identifier, k);
    RemoveKeyAppend(rest, [r], IdKey, r.identifier);
    RemoveKeyIdempotent(s, IdKey, r.identifier);
  }

  /** Scheduling the requests of `rs` one after another. */
  function SubmitAll(s: seq<Request>, rs: seq<Request>): seq<Request>
    decreases |rs|
  {
    if rs == [] then s else SubmitAll(Submit(s, rs[0]), rs[1..])
  }

  /** Scheduling requests whose identifiers are new and distinct appends them. */
  lemma {:induction false} SubmitAllFresh(base: seq<Request>, rs: seq<Request>)
    requires UniqueKeys(rs, IdKey)
    requires forall j, i :: 0 <= j < |base| && 0 <= i < |rs| ==> base[j].identifier != rs[i].identifier
    ensures SubmitAll(base, rs) == base + rs
    decreases |rs|
  {
    if rs != [] {
      FreshAfterSubmit(base, rs);
      SubmitAllStep(base, rs);
      SubmitAllFresh(base + [rs[0]], rs[1..]);
      ConsAppend(base, rs);
    }
  }

  lemma SubmitAllStep(base: seq<Request>, rs: seq<Request>)
    requires rs != []
    requires forall j :: 0 <= j < |base| ==> base[j].identifier != rs[0].identifier
    ensures SubmitAll(base, rs) == SubmitAll(base + [rs[0]], rs[1..])
  {
    SubmitFresh(base, rs[0]);
  }

  lemma ConsAppend<T>(base: seq<T>, rs: seq<T>)
    requires rs != []
    ensures base + [rs[0]] + rs[1..] == base + rs
  {
    assert rs == [rs[0]] + rs[1..];
  }

  lemma SubmitFresh(base: seq<Request>, r: Request)
    requires forall j :: 0 <= j < |base| ==> base[j].identifier != r.identifier
    ensures Submit(base, r) == base + [r]
  {
    RemoveKeyNothingIff(base, IdKey, r.identifier);
  }

  lemma FreshAfterSubmit(base: seq<Request>, rs: seq<Request>)
    requires rs != [] && UniqueKeys(rs, IdKey)
    requires forall j, i :: 0 <= j < |base| && 0 <= i < |rs| ==> base[j].identifier != rs[i].identifier
    ensures forall j :: 0 <= j < |base| ==> base[j].identifier != rs[0].identifier
    ensures forall j, i :: 0 <= j < |base + [rs[0]]| && 0 <= i < |rs[1..]| ==> (base + [rs[0]])[j].identifier != rs[1..][i].identifier
    ensures UniqueKeys(rs[1..], IdKey)
  {
    assert forall i :: 0 <= i < |rs[1..]| ==> rs[1..][i] == rs[i + 1];
    var next := base + [rs[0]];
    forall j, i | 0 <= j < |next| && 0 <= i < |rs[1..]|
      ensures next[j].identifier != rs[1..][i].identifier
    {
      assert rs[1..][i] == rs[i + 1];
      if j < |base| {
        assert next[j] == base[j];
      }
    }
  }

  class NotificationService {
    /** `notificationsAvailable`: set once by `initNotifications`. */
    var available: bool
    /** What the scheduler holds, in scheduling order. */
    var scheduled: seq<Request>

    constructor (available: bool)
      ensures this.available == available && scheduled == []
    {
      this.available := available;
      scheduled := [];
    }

    /** `scheduleNotificationAsync` */
    method Schedule(r: Request)
      modifies this
      ensures available == old(available)
      ensures scheduled == Submit(old(scheduled), r)
    {
      scheduled := Submit(scheduled, r);
    }

    /** `cancelScheduledNotificationAsync` */
    method CancelScheduled(identifier: string)
      modifies this
      ensures available == old(available)
      ensures scheduled == RemoveKey(old(scheduled), IdKey, identifier)
    {
      scheduled := RemoveKey(scheduled, IdKey, identifier);
    }

    /** `cancelAllScheduledNotificationsAsync` */
    method CancelAllScheduled()
      modifies this
      ensures available == old(available)
      ensures scheduled == []
    {
      scheduled := [];
    }

    /** `cancelHabitReminder`: cancels the request under the habit's id, if notifications are available. */
    method CancelHabitReminder(habitId: string)
      modifies this
      ensures available == old(available)
      ensures scheduled == if available then RemoveKey(old(scheduled), IdKey, habitId) else old(scheduled)
    {
      if !available {
        return;
      }
      CancelScheduled(habitId);
    }

    /** `cancelAllNotifications` */
    method CancelAllNotifications()
      modifies this
      ensures available == old(available)
      ensures scheduled == if available then [] else old(scheduled)
    {
      if !available {
        return;
      }
      CancelAllScheduled();
    }

    /**
     * `scheduleHabitReminder`: nothing without notifications or an enabled
     * reminder; otherwise the habit's request is cancelled, and a daily
     * request is scheduled again unless the habit is off today.
     */
    method ScheduleHabitReminder(habit: Habit, now: Timestamp)
      modifies this
      ensures available == old(available)
      ensures scheduled == AfterHabitReminder(old(scheduled), available, habit, DayOf(now))
    {
      if !available {
        return;
      }
      if !ReminderEnabled(habit) {
        return;
      }
      CancelHabitReminder(habit.id);
      if Suppressed(habit.frequency, DayOf(now)) {
        return;
      }
      Schedule(ReminderRequest(habit));
    }

    /**
     * `scheduleAllHabitReminders`: cancels everything, then schedules the
     * reminder of every stored habit whose reminder is enabled, in order.
     */
    method ScheduleAllHabitReminders(store: HabitStore, now: Timestamp)
      modifies this
      ensures available == old(available)
      ensures !available ==> scheduled == old(scheduled)
      ensures available ==> scheduled == ReminderPass([], store.Habits(), DayOf(now))
    {
      if !available {
        return;
      }
      var habits := store.Habits();
      CancelAllScheduled();
      for i := 0 to |habits|
        invariant available
        invariant scheduled == ReminderPass([], habits[..i], DayOf(now))
      {
        assert habits[..i + 1][..i] == habits[..i];
        if ReminderEnabled(habits[i]) {
          ScheduleHabitReminder(habits[i], now);
        }
      }
      assert habits[..|habits|] == habits;
    }

    /**
     * `schedulePersistentEveningReminders`: cancels every flagged request,
     * and when some habit is due today and has no log today, schedules a
     * one-off request every `intervalMinutes` from the later of the start
     * time and now until 23:59 today.
     */
    method SchedulePersistentEveningReminders(store: HabitStore, startTime: Clock, intervalMinutes: int, now: Timestamp)
      requires intervalMinutes >= 1
      modifies this
      ensures available == old(available)
      ensures scheduled == EveningPlan(old(scheduled), available, store.Habits(), store.LogsByDate(DayOf(now)), startTime, intervalMinutes, now)
    {
      if !available {
        return;
      }
      CancelPersistentReminders();

      var today := DayOf(now);
      var logs := store.LogsByDate(today);
      var habits := store.Habits();
      var incompleteHabits := IncompleteHabits(habits, logs, today);
      if |incompleteHabits| == 0 {
        return;
      }

      var startAt := StartTime(startTime, now);
      var endAt := EndTime(now);
      ScheduleSeries(startAt, endAt, intervalMinutes * MsPerMinute, |incompleteHabits|);
    }

    /** The first loop of `schedulePersistentEveningReminders`: cancel each flagged request found. */
    method CancelPersistentReminders()
      modifies this
      ensures available == old(available)
      ensures scheduled == RemoveKeys(old(scheduled), IdKey, FlaggedIds(old(scheduled)))
    {
      var scheduledNotifications := scheduled;
      RemoveNoKeys(scheduledNotifications, IdKey);
      for i := 0 to |scheduledNotifications|
        invariant available == old(available)
        invariant scheduled == RemoveKeys(scheduledNotifications, IdKey, FlaggedIds(scheduledNotifications[..i]))
      {
        var notification := scheduledNotifications[i];
        CancelStep(scheduledNotifications, i);
        if Flagged(notification) {
          CancelScheduled(notification.identifier);
        }
      }
      assert scheduledNotifications[..|scheduledNotifications|] == scheduledNotifications;
    }

    /** The `while` loop of `schedulePersistentEveningReminders`, numbering from 1000. */
    method ScheduleSeries(startAt: Timestamp, endAt: Timestamp, step: int, count: nat)
      requires step >= 1
      modifies this
      ensures available == old(available)
      ensures scheduled == SubmitAll(old(scheduled), Series(startAt, endAt, step, 1000, count))
    {
      var currentTime := startAt;
      var notificationId: nat := 1000;
      ghost var goal := SubmitAll(scheduled, Series(startAt, endAt, step, 1000, count));
      while currentTime < endAt
        invariant available == old(available)
        invariant SubmitAll(scheduled, Series(currentTime, endAt, step, notificationId, count)) == goal
        decreases endAt - currentTime
      {
        var r := Request(PersistentId(notificationId), PersistentContent(count), At(currentTime));
        SeriesSubmitStep(scheduled, goal, currentTime, endAt, step, notificationId, count);
        Schedule(r);
        currentTime := currentTime + step;
        notificationId := notificationId + 1;
      }
    }
  }

  // ------------------------------------------------- one habit's reminder

  /**
   * Whether the frequency rules the habit out on day `today`: a custom habit
   * with `customDays` is off unless today's weekday number is listed, and a
   * weekly habit is off unless today's weekday name is listed.
   */
  predicate Suppressed(f: Frequency, today: Day)
  {
    (f.kind == Custom && f.customDays.Some? && DayOfWeek(today) !in f.customDays.value)
    || (f.kind == Weekly && WeekdayName(DayOfWeek(today)) !in f.days)
  }

  /** Which kinds of habit can be off, and when. */
  lemma SuppressedByKind(f: Frequency, today: Day)
    ensures f.kind == Daily ==> !Suppressed(f, today)
    ensures f.kind == Custom && f.customDays.None? ==> !Suppressed(f, today)
    ensures f.kind == Custom && f.customDays.Some? ==> (Suppressed(f, today) <==> DayOfWeek(today) !in f.customDays.value)
    ensures f.kind == Weekly ==> (Suppressed(f, today) <==> WeekdayName(DayOfWeek(today)) !in f.days)
  {
  }

  /** The request `scheduleHabitReminder` submits for a habit with a reminder. */
  function ReminderRequest(h: Habit): (r: Request)
    requires h.reminder.Some?
    ensures r.identifier == h.id && r.content.data == HabitReminder(h.id)
    ensures r.trigger == Repeating(h.reminder.value.time.hours, h.reminder.value.time.minutes)
  {
    Request(
      h.id,
      Content("Reminder: " + h.name, "Don't forget to track your habit: " + h.name, HabitReminder(h.id)),
      Repeating(h.reminder.value.time.hours, h.reminder.value.time.minutes))
  }

  /** What `scheduleHabitReminder` leaves scheduled. */
  function AfterHabitReminder(s: seq<Request>, available: bool, h: Habit, today: Day): seq<Request>
  {
    if !available || !ReminderEnabled(h) then s
    else
      var cancelled := RemoveKey(s, IdKey, h.id);
      if Suppressed(h.frequency, today) then cancelled else Submit(cancelled, ReminderRequest(h))
  }

  /** The requests a habit should have under its id: its reminder, unless disabled or off today. */
  function ReminderFor(h: Habit, today: Day): (rs: seq<Request>)
    ensures |rs| <= 1
    ensures rs != [] <==> ReminderEnabled(h) && !Suppressed(h.frequency, today)
  {
    if ReminderEnabled(h) && !Suppressed(h.frequency, today) then [ReminderRequest(h)] else []
  }

  /** Without notifications, or without an enabled reminder, nothing changes. */
  lemma HabitReminderGuards(s: seq<Request>, available: bool, h: Habit, today: Day)
    requires !available || !ReminderEnabled(h)
    ensures AfterHabitReminder(s, available, h, today) == s
  {
  }

  /**
   * Otherwise the habit's id ends with exactly its reminder, or with nothing
   * when the habit is off today, and every other id keeps its requests.
   */
  lemma HabitReminderFilter(s: seq<Request>, h: Habit, today: Day, k: string)
    ensures FilterKey(AfterHabitReminder(s, true, h, today), IdKey, k)
         == if k == h.id && ReminderEnabled(h) then ReminderFor(h, today) else FilterKey(s, IdKey, k)
  {
    if ReminderEnabled(h) {
      var cancelled := RemoveKey(s, IdKey, h.id);
      FilterKeyAfterRemoveKey(s, IdKey, h.id, k);
      if !Suppressed(h.frequency, today) {
        var r := ReminderRequest(h);
        FilterKeyAfterRemoveKey(cancelled, IdKey, h.id, k);
        FilterKeyAppend(RemoveKey(cancelled, IdKey, h.id), [r], IdKey, k);
      }
    }
  }

  /** The requests under other ids, in their order, are those before the call. */
  lemma HabitReminderKeepsOthers(s: seq<Request>, available: bool, h: Habit, today: Day)
    requires available && ReminderEnabled(h)
    ensures RemoveKey(AfterHabitReminder(s, available, h, today), IdKey, h.id) == RemoveKey(s, IdKey, h.id)
  {
    var cancelled := RemoveKey(s, IdKey, h.id);
    RemoveKeyIdempotent(s, IdKey, h.id);
    SubmitReplaces(cancelled, ReminderRequest(h), h.id);
  }

  /** Scheduling a habit's reminder twice is scheduling it once. */
  lemma HabitReminderIdempotent(s: seq<Request>, available: bool, h: Habit, today: Day)
    ensures AfterHabitReminder(AfterHabitReminder(s, available, h, today), available, h, today)
         == AfterHabitReminder(s, available, h, today)
  {
    if available && ReminderEnabled(h) {
      var cancelled := RemoveKey(s, IdKey, h.id);
      RemoveKeyIdempotent(s, IdKey, h.id);
      if !Suppressed(h.frequency, today) {
        var t := Submit(cancelled, ReminderRequest(h));
        SubmitReplaces(cancelled, ReminderRequest(h), h.id);
        assert RemoveKey(t, IdKey, h.id) == cancelled;
      }
    }
  }

  /** `setHours(hours, minutes, 0, 0)` on the day of `now`. */
  function TimeToday(t: Clock, now: Timestamp): Timestamp
  {
    DayOf(now) * MsPerDay + t.hours * MsPerHour + t.minutes * MsPerMinute
  }

  /**
   * The date `scheduleHabitReminder` computes: today at the reminder time,
   * or tomorrow when that has passed. The submitted trigger repeats daily
   * at the hour and minute instead, so the date is never used.
   */
  function RollForward(t: Clock, now: Timestamp): Timestamp
  {
    var date := TimeToday(t, now);
    if date < now then date + MsPerDay else date
  }

  /** For a real clock time, the rolled date is the first instant from now showing that time. */
  lemma RollForwardNext(t: Clock, now: Timestamp)
    requires t.hours < 24 && t.minutes < 60
    ensures now <= RollForward(t, now) < now + MsPerDay
    ensures RollForward(t, now) % MsPerDay == t.hours * MsPerHour + t.minutes * MsPerMinute
  {
    var offset := t.hours * MsPerHour + t.minutes * MsPerMinute;
    var d := DayOf(now);
    assert d * MsPerDay <= now < d * MsPerDay + MsPerDay;
    assert 0 <= offset < MsPerDay;
    if TimeToday(t, now) < now {
      assert RollForward(t, now) == (d + 1) * MsPerDay + offset;
    } else {
      assert RollForward(t, now) == d * MsPerDay + offset;
    }
  }

  // ------------------------------------------------------ all reminders

  /** The loop of `scheduleAllHabitReminders` over `habits`, starting from `s`. */
  function ReminderPass(s: seq<Request>, habits: seq<Habit>, today: Day): seq<Request>
  {
    if habits == [] then s
    else
      var before := ReminderPass(s, habits[..|habits| - 1], today);
      var h := habits[|habits| - 1];
      if ReminderEnabled(h) then AfterHabitReminder(before, true, h, today) else before
  }

  /** Under id `k`, the reminder of the first habit with that id, if any. */
  function ExpectedReminders(habits: seq<Habit>, today: Day, k: string): seq<Request>
  {
    var i := FirstIndexKey(habits, HabitKey, k);
    if i < 0 then [] else ReminderFor(habits[i], today)
  }

  /**
   * With distinct habit ids, the pass leaves under each habit's id exactly
   * that habit's reminder (or nothing when it is disabled or off today),
   * and nothing under any id that is not a habit's.
   */
  lemma {:induction false} ReminderPassFilter(habits: seq<Habit>, today: Day, k: string)
    requires UniqueKeys(habits, HabitKey)
    ensures FilterKey(ReminderPass([], habits, today), IdKey, k) == ExpectedReminders(habits, today, k)
  {
    if habits != [] {
      var n := |habits| - 1;
      ExpectedRemindersLast(habits, today, k);
      ReminderPassFilter(habits[..n], today, k);
      HabitReminderFilter(ReminderPass([], habits[..n], today), habits[n], today, k);
    }
  }

  /** How the expected reminders of a list follow from those of all but its last habit. */
  lemma ExpectedRemindersLast(habits: seq<Habit>, today: Day, k: string)
    requires habits != [] && UniqueKeys(habits, HabitKey)
    ensures UniqueKeys(habits[..|habits| - 1], HabitKey)
    ensures var n := |habits| - 1;
            ExpectedReminders(habits, today, k)
            == if k == habits[n].id then ReminderFor(habits[n], today) else ExpectedReminders(habits[..n], today, k)
    ensures var n := |habits| - 1;
            k == habits[n].id ==> ExpectedReminders(habits[..n], today, k) == []
  {
    var n := |habits| - 1;
    var init := habits[..n];
    assert forall i :: 0 <= i < n ==> init[i] == habits[i];
    var j := FirstIndexKey(init, HabitKey, k);
    if k == habits[n].id {
      FirstIndexKeyUnique(init, HabitKey, k, -1);
      FirstIndexKeyUnique(habits, HabitKey, k, n);
    } else {
      FirstIndexKeyUnique(habits, HabitKey, k, j);
    }
  }

  // --------------------------------------------- the persistent evening series

  function FlaggedIds(s: seq<Request>): (ids: set<string>)
    ensures forall j :: 0 <= j < |s| && Flagged(s[j]) ==> s[j].identifier in ids
    ensures forall k :: k in ids ==> exists j :: 0 <= j < |s| && Flagged(s[j]) && s[j].identifier == k
  {
    if s == [] then {}
    else
      var last := s[|s| - 1];
      var before := FlaggedIds(s[..|s| - 1]);
      assert forall j :: 0 <= j < |s| - 1 ==> s[..|s| - 1][j] == s[j];
      before + if Flagged(last) then {last.identifier} else {}
  }

  /** One turn of the cancel loop: cancelling a flagged request adds its identifier to those removed. */
  lemma CancelStep(s: seq<Request>, i: int)
    requires 0 <= i < |s|
    ensures Flagged(s[i]) ==> RemoveKey(RemoveKeys(s, IdKey, FlaggedIds(s[..i])), IdKey, s[i].identifier)
                              == RemoveKeys(s, IdKey, FlaggedIds(s[..i + 1]))
    ensures !Flagged(s[i]) ==> RemoveKeys(s, IdKey, FlaggedIds(s[..i])) == RemoveKeys(s, IdKey, FlaggedIds(s[..i + 1]))
  {
    assert s[..i + 1][..i] == s[..i];
    var before := FlaggedIds(s[..i]);
    if Flagged(s[i]) {
      assert FlaggedIds(s[..i + 1]) == before + {s[i].identifier};
      RemoveKeyAfterRemoveKeys(s, IdKey, before, s[i].identifier);
    } else {
      assert FlaggedIds(s[..i + 1]) == before;
    }
  }

  /** `!logs.some(log => log.habitId === id)` */
  predicate Unlogged(logs: seq<HabitLog>, id: string)
  {
    forall j :: 0 <= j < |logs| ==> logs[j].habitId != id
  }

  /** The habits due today that have no log among `todayLogs`, in order. */
  function IncompleteHabits(habits: seq<Habit>, todayLogs: seq<HabitLog>, today: Day): (r: seq<Habit>)
    ensures |r| <= |habits|
    ensures forall i :: 0 <= i < |r| ==> r[i] in habits && !Suppressed(r[i].frequency, today) && Unlogged(todayLogs, r[i].id)
    ensures forall i :: 0 <= i < |habits| && !Suppressed(habits[i].frequency, today) && Unlogged(todayLogs, habits[i].id) ==> habits[i] in r
  {
    if habits == [] then []
    else
      var h := habits[0];
      (if !Suppressed(h.frequency, today) && Unlogged(todayLogs, h.id) then [h] else [])
        + IncompleteHabits(habits[1..], todayLogs, today)
  }

  /** Nothing is incomplete exactly when every habit is off today or has a log today. */
  lemma IncompleteEmptyIff(habits: seq<Habit>, todayLogs: seq<HabitLog>, today: Day)
    ensures IncompleteHabits(habits, todayLogs, today) == []
        <==> forall i :: 0 <= i < |habits| ==> Suppressed(habits[i].frequency, today) || !Unlogged(todayLogs, habits[i].id)
  {
    var r := IncompleteHabits(habits, todayLogs, today);
    assert r != [] ==> r[0] in habits;
  }

  /** The later of the start time today and now. */
  function StartTime(t: Clock, now: Timestamp): (start: Timestamp)
    ensures start >= now && start >= TimeToday(t, now)
    ensures start == now || start == TimeToday(t, now)
  {
    var startDate := TimeToday(t, now);
    if startDate < now then now else startDate
  }

  /** 23:59:00.000 today. */
  function EndTime(now: Timestamp): (end: Timestamp)
    ensures DayOf(end) == DayOf(now)
    ensures end % MsPerDay == 23 * MsPerHour + 59 * MsPerMinute
  {
    DayOf(now) * MsPerDay + 23 * MsPerHour + 59 * MsPerMinute
  }

  /** `persistent-${notificationId}` */
  function PersistentId(n: nat): string
  {
    "persistent-" + NatToString(n)
  }

  lemma PersistentIdPrefix(n: nat)
    ensures HasPersistentPrefix(PersistentId(n))
  {
    assert PersistentId(n)[..11] == "persistent-";
  }

  lemma PersistentIdInjective(m: nat, n: nat)
    ensures PersistentId(m) == PersistentId(n) <==> m == n
  {
    if PersistentId(m) == PersistentId(n) {
      assert PersistentId(m)[11..] == NatToString(m);
      assert PersistentId(n)[11..] == NatToString(n);
      NatToStringInjective(m, n);
    }
  }

  function PersistentContent(count: nat): (c: Content)
    ensures c.data == PersistentReminder
  {
    Content("Incomplete Habits", "You have " + NatToString(count) + " habits to track today", PersistentReminder)
  }

  /** The requests of the `while` loop from `from` to `end` by `step`, numbered from `id`. */
  function Series(from: Timestamp, end: Timestamp, step: int, id: nat, count: nat): seq<Request>
    requires step >= 1
    decreases end - from
  {
    if from >= end then []
    else [Request(PersistentId(id), PersistentContent(count), At(from))] + Series(from + step, end, step, id + 1, count)
  }

  /** One turn of the loop: the first request of the series is scheduled, the rest remain. */
  lemma SeriesSubmitStep(s: seq<Request>, goal: seq<Request>, from: Timestamp, end: Timestamp, step: int, id: nat, count: nat)
    requires step >= 1 && from < end
    requires SubmitAll(s, Series(from, end, step, id, count)) == goal
    ensures SubmitAll(Submit(s, Request(PersistentId(id), PersistentContent(count), At(from))), Series(from + step, end, step, id + 1, count)) == goal
  {
    var r := Request(PersistentId(id), PersistentContent(count), At(from));
    var rest := Series(from + step, end, step, id + 1, count);
    assert Series(from, end, step, id, count) == [r] + rest;
    assert ([r] + rest)[0] == r && ([r] + rest)[1..] == rest;
  }

  /** The i-th request: identifier `id + i`, the flagged content, at `from + i * step`, before `end`. */
  lemma {:induction false} SeriesAt(from: Timestamp, end: Timestamp, step: int, id: nat, count: nat, i: nat)
    requires step >= 1 && i < |Series(from, end, step, id, count)|
    ensures Series(from, end, step, id, count)[i] == Request(PersistentId(id + i), PersistentContent(count), At(from + i * step))
    ensures from + i * step < end
    decreases end - from
  {
    if i > 0 {
      SeriesAt(from + step, end, step, id + 1, count, i - 1);
      assert from + step + (i - 1) * step == from + i * step;
    }
  }

  /**
   * The number of requests is the number of steps that fit, ceil((end - from) / step):
   * the n with (n - 1) * step < end - from <= n * step; none when `from` is not before `end`.
   */
  lemma {:induction false} SeriesLength(from: Timestamp, end: Timestamp, step: int, id: nat, count: nat)
    requires step >= 1
    ensures from >= end ==> |Series(from, end, step, id, count)| == 0
    ensures from < end ==> var n := |Series(from, end, step, id, count)|; (n - 1) * step < end - from <= n * step
    decreases end - from
  {
    if from < end {
      SeriesLength(from + step, end, step, id + 1, count);
      var m := |Series(from + step, end, step, id + 1, count)|;
      assert (m - 1) * step + step == m * step;
      assert m * step + step == (m + 1) * step;
    }
  }

  /** The identifiers of the series are distinct. */
  lemma SeriesUnique(from: Timestamp, end: Timestamp, step: int, id: nat, count: nat)
    requires step >= 1
    ensures UniqueKeys(Series(from, end, step, id, count), IdKey)
  {
    var s := Series(from, end, step, id, count);
    forall i, j | 0 <= i < j < |s|
      ensures IdKey(s[i]) != IdKey(s[j])
    {
      SeriesAt(from, end, step, id, count, i);
      SeriesAt(from, end, step, id, count, j);
      PersistentIdInjective(id + i, id + j);
    }
  }

  /** What `schedulePersistentEveningReminders` leaves scheduled. */
  function EveningPlan(s: seq<Request>, available: bool, habits: seq<Habit>, todayLogs: seq<HabitLog>,
                       startTime: Clock, intervalMinutes: int, now: Timestamp): seq<Request>
    requires intervalMinutes >= 1
  {
    if !available then s
    else
      var cancelled := RemoveKeys(s, IdKey, FlaggedIds(s));
      var incomplete := IncompleteHabits(habits, todayLogs, DayOf(now));
      if incomplete == [] then cancelled
      else SubmitAll(cancelled, Series(StartTime(startTime, now), EndTime(now), intervalMinutes * MsPerMinute, 1000, |incomplete|))
  }

  /** An identifier of the form the series uses. */
  predicate HasPersistentPrefix(id: string)
  {
    |id| >= 11 && id[..11] == "persistent-"
  }

  /**
   * The plan, when only flagged requests use `persistent-` identifiers:
   * the other requests stay in order with no flagged one among them, and
   * the series follows them when some habit is incomplete.
   */
  lemma EveningPlanShape(s: seq<Request>, habits: seq<Habit>, todayLogs: seq<HabitLog>,
                         startTime: Clock, intervalMinutes: int, now: Timestamp)
    requires intervalMinutes >= 1
    requires forall j :: 0 <= j < |s| && HasPersistentPrefix(s[j].identifier) ==> Flagged(s[j])
    ensures var cancelled := RemoveKeys(s, IdKey, FlaggedIds(s));
            var incomplete := IncompleteHabits(habits, todayLogs, DayOf(now));
            && IsSubsequence(cancelled, s)
            && (forall j :: 0 <= j < |cancelled| ==> !Flagged(cancelled[j]))
            && EveningPlan(s, true, habits, todayLogs, startTime, intervalMinutes, now)
               == cancelled + if incomplete == [] then []
                              else Series(StartTime(startTime, now), EndTime(now), intervalMinutes * MsPerMinute, 1000, |incomplete|)
  {
    var cancelled := RemoveKeys(s, IdKey, FlaggedIds(s));
    var incomplete := IncompleteHabits(habits, todayLogs, DayOf(now));
    RemoveKeysInOrder(s, IdKey, FlaggedIds(s));
    RemoveKeysMembers(s, IdKey, FlaggedIds(s));
    forall j | 0 <= j < |cancelled|
      ensures !Flagged(cancelled[j]) && !HasPersistentPrefix(cancelled[j].identifier)
    {
      var m :| 0 <= m < |s| && s[m] == cancelled[j];
      assert cancelled[j].identifier !in FlaggedIds(s);
    }
    if incomplete != [] {
      var step := intervalMinutes * MsPerMinute;
      var series := Series(StartTime(startTime, now), EndTime(now), step, 1000, |incomplete|);
      SeriesUnique(StartTime(startTime, now), EndTime(now), step, 1000, |incomplete|);
      forall j, i | 0 <= j < |cancelled| && 0 <= i < |series|
        ensures cancelled[j].identifier != series[i].identifier
      {
        SeriesAt(StartTime(startTime, now), EndTime(now), step, 1000, |incomplete|, i);
        PersistentIdPrefix(1000 + i);
      }
      SubmitAllFresh(cancelled, series);
    }
  }

  /** Nothing incomplete: the flagged requests are cancelled and nothing is added. */
  lemma EveningPlanNothingDue(s: seq<Request>, habits: seq<Habit>, todayLogs: seq<HabitLog>,
                              startTime: Clock, intervalMinutes: int, now: Timestamp)
    requires intervalMinutes >= 1
    requires forall i :: 0 <= i < |habits| ==> Suppressed(habits[i].frequency, DayOf(now)) || !Unlogged(todayLogs, habits[i].id)
    ensures EveningPlan(s, true, habits, todayLogs, startTime, intervalMinutes, now) == RemoveKeys(s, IdKey, FlaggedIds(s))
    ensures forall r :: r in EveningPlan(s, true, habits, todayLogs, startTime, intervalMinutes, now) ==> !Flagged(r)
  {
    IncompleteEmptyIff(habits, todayLogs, DayOf(now));
    var cancelled := RemoveKeys(s, IdKey, FlaggedIds(s));
    RemoveKeysMembers(s, IdKey, FlaggedIds(s));
    forall r | r in cancelled
      ensures !Flagged(r)
    {
      assert r.identifier !in FlaggedIds(s);
    }
  }
}
