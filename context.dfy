/**
 * The habit provider (src/context/HabitContext.tsx): the in-memory lists
 * of habits, logs and statistics that the screens read, kept beside the
 * record store and the notification service. Each operation here is one
 * of the provider's callbacks, run to completion before the next, with
 * `now` given as a parameter and the generated id given as `freshId`.
 *
 * `refreshHabitStats` reads the log list of the render that created it;
 * RefreshHabitStats therefore takes that snapshot as a parameter, and
 * LogHabit passes the list from before its own append.
 */
module Context {
  import opened Types
  import opened Collections
  import opened Helpers
  import opened Storage
  import opened Notifications

  // ------------------------------------------------------------ statistics

  /** `completionRate`: done logs as a percentage of done and failed logs, 0 when there are none. */
  function CompletionRate(completions: nat, failures: nat): (rate: real)
    ensures 0.0 <= rate <= 100.0
    ensures completions + failures == 0 ==> rate == 0.0
    ensures completions + failures > 0 ==> rate * (completions + failures) as real == 100.0 * completions as real
  {
    var total := completions + failures;
    if total > 0 then (completions as real / total as real) * 100.0 else 0.0
  }

  /**
   * The record `refreshHabitStats` builds for one habit from a log
   * snapshot on day `today`, given the record the habit had: the counts of
   * its done and failed logs, its streak, and the larger of that streak and
   * the longest streak recorded before.
   */
  function RefreshedStats(habitId: string, logs: seq<HabitLog>, today: Day, existing: Option<HabitStatistics>): (r: HabitStatistics)
    ensures r.habitId == habitId
    ensures r.currentStreak <= r.totalCompletions
    ensures r.longestStreak >= r.currentStreak
    ensures existing.Some? ==> r.longestStreak >= existing.value.longestStreak
    ensures r.longestStreak == r.currentStreak || (existing.Some? && r.longestStreak == existing.value.longestStreak)
    ensures 0.0 <= r.completionRate <= 100.0
  {
    var own := FilterKey(logs, LogHabitKey, habitId);
    var completions := |FilterKey(own, LogStatusKey, Done)|;
    var failures := |FilterKey(own, LogStatusKey, Failed)|;
    var current := Streak(own, today);
    StreakAtMostDone(own, today);
    var longest := if existing.Some? && existing.value.longestStreak > current then existing.value.longestStreak else current;
    HabitStatistics(habitId, completions, failures, current, longest, CompletionRate(completions, failures))
  }

  /** Every log is done, failed or pending. */
  lemma {:induction false} StatusPartition(logs: seq<HabitLog>)
    ensures |FilterKey(logs, LogStatusKey, Done)| + |FilterKey(logs, LogStatusKey, Failed)|
          + |FilterKey(logs, LogStatusKey, Pending)| == |logs|
  {
    if logs != [] {
      StatusPartition(logs[1..]);
      assert logs == [logs[0]] + logs[1..];
      FilterKeyCons(logs[0], logs[1..], LogStatusKey, Done);
      FilterKeyCons(logs[0], logs[1..], LogStatusKey, Failed);
      FilterKeyCons(logs[0], logs[1..], LogStatusKey, Pending);
      assert logs[0].status == Done || logs[0].status == Failed || logs[0].status == Pending;
    }
  }

  /**
   * The counts cover exactly the habit's logs that are not pending: a
   * counted completion is a done log of the habit and every such log is
   * counted, and likewise for failures.
   */
  lemma RefreshedCounts(habitId: string, logs: seq<HabitLog>, today: Day, existing: Option<HabitStatistics>)
    ensures var r := RefreshedStats(habitId, logs, today, existing);
            var own := FilterKey(logs, LogHabitKey, habitId);
            r.totalCompletions + r.totalFailures + |FilterKey(own, LogStatusKey, Pending)| == |own|
    ensures forall l :: l in FilterKey(FilterKey(logs, LogHabitKey, habitId), LogStatusKey, Done)
                    <==> l in logs && l.habitId == habitId && l.status == Done
    ensures forall l :: l in FilterKey(FilterKey(logs, LogHabitKey, habitId), LogStatusKey, Failed)
                    <==> l in logs && l.habitId == habitId && l.status == Failed
  {
    var own := FilterKey(logs, LogHabitKey, habitId);
    StatusPartition(own);
    FilterKeyMembers(logs, LogHabitKey, habitId);
    FilterKeyMembers(own, LogStatusKey, Done);
    FilterKeyMembers(own, LogStatusKey, Failed);
  }

  /**
   * A log of another habit changes nothing in the record; a log of the
   * habit adds one to the count of its status.
   */
  lemma RefreshedAfterAppend(habitId: string, logs: seq<HabitLog>, l: HabitLog, today: Day, existing: Option<HabitStatistics>)
    ensures l.habitId != habitId ==> RefreshedStats(habitId, logs + [l], today, existing) == RefreshedStats(habitId, logs, today, existing)
    ensures l.habitId == habitId ==>
      RefreshedStats(habitId, logs + [l], today, existing).totalCompletions
        == RefreshedStats(habitId, logs, today, existing).totalCompletions + (if l.status == Done then 1 else 0)
    ensures l.habitId == habitId ==>
      RefreshedStats(habitId, logs + [l], today, existing).totalFailures
        == RefreshedStats(habitId, logs, today, existing).totalFailures + (if l.status == Failed then 1 else 0)
  {
    var own := FilterKey(logs, LogHabitKey, habitId);
    FilterKeyAppend(logs, [l], LogHabitKey, habitId);
    assert FilterKey([l], LogHabitKey, habitId) == if l.habitId == habitId then [l] else [];
    if l.habitId == habitId {
      FilterKeyAppend(own, [l], LogStatusKey, Done);
      FilterKeyAppend(own, [l], LogStatusKey, Failed);
      assert FilterKey([l], LogStatusKey, Done) == if l.status == Done then [l] else [];
      assert FilterKey([l], LogStatusKey, Failed) == if l.status == Failed then [l] else [];
    } else {
      assert own + [] == own;
    }
  }

  /** Refreshing a record twice from the same logs on the same day is refreshing it once. */
  lemma RefreshedIdempotent(habitId: string, logs: seq<HabitLog>, today: Day, existing: Option<HabitStatistics>)
    ensures RefreshedStats(habitId, logs, today, Some(RefreshedStats(habitId, logs, today, existing)))
         == RefreshedStats(habitId, logs, today, existing)
  {
    var r := RefreshedStats(habitId, logs, today, existing);
    assert r.longestStreak >= r.currentStreak;
  }

  /** The statistics `addHabit` creates: all counters zero. */
  function ZeroStats(habitId: string): HabitStatistics
  {
    HabitStatistics(habitId, 0, 0, 0, 0, 0.0)
  }

  /** The record a new habit starts with is what a refresh over no logs gives, with or without it. */
  lemma ZeroStatsAgree(habitId: string, today: Day)
    ensures RefreshedStats(habitId, [], today, None) == ZeroStats(habitId)
    ensures RefreshedStats(habitId, [], today, Some(ZeroStats(habitId))) == ZeroStats(habitId)
  {
    StreakEmpty(today);
  }

  /** The in-memory statistics after a refresh: every record of the habit becomes the refreshed one. */
  function StatsAfterRefresh(stats: seq<HabitStatistics>, habitId: string, logs: seq<HabitLog>, today: Day): seq<HabitStatistics>
  {
    ReplaceKey(stats, StatKey, habitId, RefreshedStats(habitId, logs, today, FindKey(stats, StatKey, habitId)))
  }

  /**
   * After a refresh the habit's record is the refreshed one when it had a
   * record, and still missing when it had none; other habits keep theirs.
   */
  lemma RefreshFind(stats: seq<HabitStatistics>, habitId: string, logs: seq<HabitLog>, today: Day, k: string)
    ensures FindKey(StatsAfterRefresh(stats, habitId, logs, today), StatKey, k)
         == if k != habitId then FindKey(stats, StatKey, k)
            else if FindKey(stats, StatKey, habitId).Some? then Some(RefreshedStats(habitId, logs, today, FindKey(stats, StatKey, habitId)))
            else None
  {
    FindKeyAfterReplace(stats, StatKey, habitId, RefreshedStats(habitId, logs, today, FindKey(stats, StatKey, habitId)), k);
  }

  /** A habit without an in-memory record gets none from a refresh: the list is left as it was. */
  lemma RefreshWithoutRecord(stats: seq<HabitStatistics>, habitId: string, logs: seq<HabitLog>, today: Day)
    requires FindKey(stats, StatKey, habitId).None?
    ensures StatsAfterRefresh(stats, habitId, logs, today) == stats
  {
    ReplaceKeyAbsent(stats, StatKey, habitId, RefreshedStats(habitId, logs, today, None));
  }

  /** The longest streak the provider reports for a habit never decreases across a refresh. */
  lemma RefreshKeepsLongest(stats: seq<HabitStatistics>, habitId: string, logs: seq<HabitLog>, today: Day)
    requires FindKey(stats, StatKey, habitId).Some?
    ensures FindKey(StatsAfterRefresh(stats, habitId, logs, today), StatKey, habitId).Some?
    ensures FindKey(StatsAfterRefresh(stats, habitId, logs, today), StatKey, habitId).value.longestStreak
         >= FindKey(stats, StatKey, habitId).value.longestStreak
  {
    RefreshFind(stats, habitId, logs, today, habitId);
  }

  /**
   * `refreshAllHabitStats`: the in-memory statistics and the stored ones
   * after refreshing every habit in order from the same log list.
   */
  function RefreshAllPlan(mem: seq<HabitStatistics>, saved: seq<HabitStatistics>, hs: seq<Habit>, logs: seq<HabitLog>, today: Day)
    : (seq<HabitStatistics>, seq<HabitStatistics>)
    decreases |hs|
  {
    if hs == [] then (mem, saved)
    else
      var before := RefreshAllPlan(mem, saved, hs[..|hs| - 1], logs, today);
      var id := hs[|hs| - 1].id;
      var record := RefreshedStats(id, logs, today, FindKey(before.0, StatKey, id));
      (StatsAfterRefresh(before.0, id, logs, today), UpsertKey(before.1, StatKey, record))
  }

  /** One more habit in the pass: its refresh on top of the pass so far. */
  lemma RefreshAllStep(mem: seq<HabitStatistics>, saved: seq<HabitStatistics>, hs: seq<Habit>, i: int, logs: seq<HabitLog>, today: Day)
    requires 0 <= i < |hs|
    ensures var before := RefreshAllPlan(mem, saved, hs[..i], logs, today);
            RefreshAllPlan(mem, saved, hs[..i + 1], logs, today)
            == (StatsAfterRefresh(before.0, hs[i].id, logs, today),
                UpsertKey(before.1, StatKey, RefreshedStats(hs[i].id, logs, today, FindKey(before.0, StatKey, hs[i].id))))
  {
    assert hs[..i + 1][..i] == hs[..i];
  }

  /** Some habit in the list has the id. */
  ghost predicate HasHabit(hs: seq<Habit>, id: string)
  {
    exists i :: 0 <= i < |hs| && hs[i].id == id
  }

  /** A habit is in `init + [h]` when it is `h` or in `init`. */
  lemma HasHabitLast(hs: seq<Habit>, id: string)
    requires hs != []
    ensures HasHabit(hs, id) <==> hs[|hs| - 1].id == id || HasHabit(hs[..|hs| - 1], id)
  {
    var init := hs[..|hs| - 1];
    if HasHabit(hs, id) && hs[|hs| - 1].id != id {
      var i :| 0 <= i < |hs| && hs[i].id == id;
      assert init[i] == hs[i];
    }
    if HasHabit(init, id) {
      var i :| 0 <= i < |init| && init[i].id == id;
      assert hs[i] == init[i];
    }
  }

  /**
   * After refreshing every habit, each habit that had an in-memory record
   * holds its refreshed record, whatever the order and even when two
   * habits share an id; every other record is as it was.
   */
  lemma {:induction false} RefreshAllFind(mem: seq<HabitStatistics>, saved: seq<HabitStatistics>, hs: seq<Habit>,
                                          logs: seq<HabitLog>, today: Day, k: string)
    ensures FindKey(RefreshAllPlan(mem, saved, hs, logs, today).0, StatKey, k)
         == if HasHabit(hs, k) && FindKey(mem, StatKey, k).Some? then Some(RefreshedStats(k, logs, today, FindKey(mem, StatKey, k)))
            else FindKey(mem, StatKey, k)
    decreases |hs|
  {
    if hs != [] {
      var init := hs[..|hs| - 1];
      var id := hs[|hs| - 1].id;
      var before := RefreshAllPlan(mem, saved, init, logs, today);
      RefreshAllFind(mem, saved, init, logs, today, k);
      RefreshAllFind(mem, saved, init, logs, today, id);
      RefreshFind(before.0, id, logs, today, k);
      HasHabitLast(hs, k);
      if FindKey(mem, StatKey, id).Some? {
        RefreshedIdempotent(id, logs, today, FindKey(mem, StatKey, id));
      }
    }
  }

  /**
   * The store, in contrast, ends with the refreshed record of every habit,
   * including a habit the in-memory list has no record for.
   */
  lemma {:induction false} RefreshAllSaved(mem: seq<HabitStatistics>, saved: seq<HabitStatistics>, hs: seq<Habit>,
                                           logs: seq<HabitLog>, today: Day, k: string)
    ensures FindKey(RefreshAllPlan(mem, saved, hs, logs, today).1, StatKey, k)
         == if HasHabit(hs, k) then Some(RefreshedStats(k, logs, today, FindKey(mem, StatKey, k)))
            else FindKey(saved, StatKey, k)
    decreases |hs|
  {
    if hs != [] {
      var init := hs[..|hs| - 1];
      var id := hs[|hs| - 1].id;
      var before := RefreshAllPlan(mem, saved, init, logs, today);
      var record := RefreshedStats(id, logs, today, FindKey(before.0, StatKey, id));
      RefreshAllSaved(mem, saved, init, logs, today, k);
      RefreshAllFind(mem, saved, init, logs, today, id);
      FindKeyAfterUpsert(before.1, StatKey, record, k);
      HasHabitLast(hs, k);
      if FindKey(mem, StatKey, id).Some? {
        RefreshedIdempotent(id, logs, today, FindKey(mem, StatKey, id));
      }
    }
  }

  // ---------------------------------------------------------------- habits

  /** The habit fields `addHabit` takes from its caller: all but the id and the two timestamps. */
  datatype HabitDraft = HabitDraft(
    name: string,
    description: Option<string>,
    category: Category,
    icon: Option<string>,
    frequency: Frequency,
    reminder: Option<Reminder>,
    archived: Option<bool>)

  /** `{ id, ...habitData, createdAt: now, updatedAt: now }` */
  function NewHabit(draft: HabitDraft, id: string, now: Timestamp): Habit
  {
    Habit(id, draft.name, draft.description, draft.category, draft.icon, draft.frequency, draft.reminder,
          now, Some(now), draft.archived)
  }

  /**
   * `Partial<Habit>` as `updateHabit` receives it: None leaves a field as
   * it is, Some(v) sets it to v, and for an optional field v may itself be
   * None, which unsets it. `updatedAt` is absent: the update overwrites it.
   */
  datatype HabitPatch = HabitPatch(
    id: Option<string>,
    name: Option<string>,
    description: Option<Option<string>>,
    category: Option<Category>,
    icon: Option<Option<string>>,
    frequency: Option<Frequency>,
    reminder: Option<Option<Reminder>>,
    createdAt: Option<Timestamp>,
    archived: Option<Option<bool>>)

  /** The patch that sets nothing. */
  const NoChange := HabitPatch(None, None, None, None, None, None, None, None, None)

  /** The field the patch sets, or the current one. */
  function Pick<T>(o: Option<T>, current: T): T
  {
    if o.Some? then o.value else current
  }

  /** `{ ...existingHabit, ...habitData, updatedAt: now }` */
  function ApplyPatch(h: Habit, p: HabitPatch, now: Timestamp): Habit
  {
    Habit(Pick(p.id, h.id), Pick(p.name, h.name), Pick(p.description, h.description), Pick(p.category, h.category),
          Pick(p.icon, h.icon), Pick(p.frequency, h.frequency), Pick(p.reminder, h.reminder),
          Pick(p.createdAt, h.createdAt), Some(now), Pick(p.archived, h.archived))
  }

  /** `{ ...p, ...q }`: the later patch wins field by field. */
  function ThenPatch(p: HabitPatch, q: HabitPatch): HabitPatch
  {
    HabitPatch(
      if q.id.Some? then q.id else p.id,
      if q.name.Some? then q.name else p.name,
      if q.description.Some? then q.description else p.description,
      if q.category.Some? then q.category else p.category,
      if q.icon.Some? then q.icon else p.icon,
      if q.frequency.Some? then q.frequency else p.frequency,
      if q.reminder.Some? then q.reminder else p.reminder,
      if q.createdAt.Some? then q.createdAt else p.createdAt,
      if q.archived.Some? then q.archived else p.archived)
  }

  /** An update that sets nothing only stamps `updatedAt`. */
  lemma PatchNothing(h: Habit, now: Timestamp)
    ensures ApplyPatch(h, NoChange, now) == h.(updatedAt := Some(now))
  {
  }

  /** Two updates in a row are one update with the merged patch, stamped with the later time. */
  lemma PatchCompose(h: Habit, p: HabitPatch, q: HabitPatch, t1: Timestamp, t2: Timestamp)
    ensures ApplyPatch(ApplyPatch(h, p, t1), q, t2) == ApplyPatch(h, ThenPatch(p, q), t2)
  {
  }

  /** What `cancelHabitReminder` leaves scheduled. */
  function AfterCancel(s: seq<Request>, available: bool, habitId: string): seq<Request>
  {
    if available then RemoveKey(s, IdKey, habitId) else s
  }

  /**
   * After an update that keeps the habit's id, with notifications
   * available, the id holds exactly the reminder the habit's new settings
   * call for — none when the reminder was switched off — and every other
   * id keeps its requests.
   */
  lemma UpdateReminder(s: seq<Request>, updated: Habit, today: Day, k: string)
    ensures FilterKey(AfterHabitReminder(AfterCancel(s, true, updated.id), true, updated, today), IdKey, k)
         == if k == updated.id then ReminderFor(updated, today) else FilterKey(s, IdKey, k)
  {
    var cancelled := AfterCancel(s, true, updated.id);
    HabitReminderFilter(cancelled, updated, today, k);
    FilterKeyAfterRemoveKey(s, IdKey, updated.id, k);
  }

  /** After a deletion, with notifications available, nothing is scheduled under the habit's id. */
  lemma DeleteCancelsReminder(s: seq<Request>, habitId: string)
    ensures FilterKey(AfterCancel(s, true, habitId), IdKey, habitId) == []
  {
    FilterKeyAfterRemoveKey(s, IdKey, habitId, habitId);
  }

  /**
   * An update that keeps the id: looking the habit up finds the updated
   * habit, and every other lookup is as it was.
   */
  lemma UpdateFinds(habits: seq<Habit>, id: string, p: HabitPatch, now: Timestamp, k: string)
    requires FindKey(habits, HabitKey, id).Some?
    requires p.id.None? || p.id.value == id
    ensures FindKey(ReplaceKey(habits, HabitKey, id, ApplyPatch(FindKey(habits, HabitKey, id).value, p, now)), HabitKey, k)
         == if k == id then Some(ApplyPatch(FindKey(habits, HabitKey, id).value, p, now)) else FindKey(habits, HabitKey, k)
  {
    FindKeyAfterReplace(habits, HabitKey, id, ApplyPatch(FindKey(habits, HabitKey, id).value, p, now), k);
  }

  /**
   * A new habit whose id no habit has keeps the ids unique, and the store
   * and the statistics append it rather than overwrite an entry.
   */
  lemma AddFreshHabit(habits: seq<Habit>, stored: seq<Habit>, stats: seq<HabitStatistics>, h: Habit)
    requires UniqueKeys(habits, HabitKey)
    requires forall j :: 0 <= j < |habits| ==> habits[j].id != h.id
    requires forall j :: 0 <= j < |stored| ==> stored[j].id != h.id
    requires forall j :: 0 <= j < |stats| ==> stats[j].habitId != h.id
    ensures UniqueKeys(habits + [h], HabitKey)
    ensures UpsertKey(stored, HabitKey, h) == stored + [h]
    ensures UpsertKey(stats, StatKey, ZeroStats(h.id)) == stats + [ZeroStats(h.id)]
  {
    AppendKeepsUnique(habits, HabitKey, h);
    UpsertFresh(stored, HabitKey, h);
    UpsertFresh(stats, StatKey, ZeroStats(h.id));
  }

  // ------------------------------------------------------------------ logs

  /** The log `logHabit` creates: dated today, stamped now. */
  function NewLog(id: string, habitId: string, status: Status, notes: Option<string>, now: Timestamp): HabitLog
  {
    HabitLog(id, habitId, DayOf(now), status, notes, now)
  }

  /**
   * The refresh behind `logHabit` works from the logs before the append,
   * so the record it saves leaves out the log just made: logging the first
   * completion of a habit with a record saves zero completions.
   */
  lemma LogHabitMissesNewLog(habitId: string, freshId: string, notes: Option<string>, now: Timestamp, existing: HabitStatistics)
    requires existing.habitId == habitId && existing.longestStreak == 0
    ensures RefreshedStats(habitId, [], DayOf(now), Some(existing)).totalCompletions == 0
    ensures |FilterKey(FilterKey([NewLog(freshId, habitId, Done, notes, now)], LogHabitKey, habitId), LogStatusKey, Done)| == 1
    ensures RefreshedStats(habitId, [NewLog(freshId, habitId, Done, notes, now)], DayOf(now), Some(existing)).totalCompletions == 1
  {
    var l := NewLog(freshId, habitId, Done, notes, now);
    RefreshedAfterAppend(habitId, [], l, DayOf(now), Some(existing));
    assert [] + [l] == [l];
  }

  // -------------------------------------------------------------- provider

  class HabitProvider {
    var habits: seq<Habit>
    var habitLogs: seq<HabitLog>
    var habitStats: seq<HabitStatistics>
    const store: HabitStore
    const notifier: NotificationService

    /** Mounting the provider: `loadData` reads the three stored lists. */
    constructor (store: HabitStore, notifier: NotificationService)
      ensures this.store == store && this.notifier == notifier
      ensures habits == store.Habits() && habitLogs == store.Logs() && habitStats == store.Stats()
    {
      this.store := store;
      this.notifier := notifier;
      habits := store.Habits();
      habitLogs := store.Logs();
      habitStats := store.Stats();
    }

    /** `getHabitById` */
    function GetHabitById(id: string): (r: Option<Habit>)
      reads this
      ensures r.None? <==> forall i :: 0 <= i < |habits| ==> habits[i].id != id
      ensures r.Some? ==> r.value in habits && r.value.id == id
    {
      FindKey(habits, HabitKey, id)
    }

    /** `getHabitLogsByHabitId`: exactly the habit's logs, in order. */
    function GetHabitLogsByHabitId(habitId: string): (r: seq<HabitLog>)
      reads this
      ensures forall l :: l in r <==> l in habitLogs && l.habitId == habitId
      ensures IsSubsequence(r, habitLogs)
    {
      FilterKeyMembers(habitLogs, LogHabitKey, habitId);
      FilterKeyInOrder(habitLogs, LogHabitKey, habitId);
      FilterKey(habitLogs, LogHabitKey, habitId)
    }

    /** `getHabitLogsByDate`: exactly the day's logs, in order. */
    function GetHabitLogsByDate(date: Day): (r: seq<HabitLog>)
      reads this
      ensures forall l :: l in r <==> l in habitLogs && l.date == date
      ensures IsSubsequence(r, habitLogs)
    {
      FilterKeyMembers(habitLogs, LogDateKey, date);
      FilterKeyInOrder(habitLogs, LogDateKey, date);
      FilterKey(habitLogs, LogDateKey, date)
    }

    /** `getHabitStatsByHabitId` */
    function GetHabitStatsByHabitId(habitId: string): (r: Option<HabitStatistics>)
      reads this
      ensures r.None? <==> forall i :: 0 <= i < |habitStats| ==> habitStats[i].habitId != habitId
      ensures r.Some? ==> r.value in habitStats && r.value.habitId == habitId
    {
      FindKey(habitStats, StatKey, habitId)
    }

    /**
     * The computing half of `refreshHabitStats` over the log snapshot
     * `logs`: the counts, the rate, the streak by the streak loop, and the
     * longest streak against the habit's in-memory record.
     */
    method ComputeStats(habitId: string, logs: seq<HabitLog>, now: Timestamp) returns (updatedStats: HabitStatistics)
      ensures updatedStats == RefreshedStats(habitId, logs, DayOf(now), FindKey(habitStats, StatKey, habitId))
    {
      var own := FilterKey(logs, LogHabitKey, habitId);
      var completions := |FilterKey(own, LogStatusKey, Done)|;
      var failures := |FilterKey(own, LogStatusKey, Failed)|;
      var completionRate := CompletionRate(completions, failures);
      var currentStreak := CalculateStreak(own, DayOf(now));
      var longestStreak := currentStreak;
      var existingStat := FindKey(habitStats, StatKey, habitId);
      if existingStat.Some? && existingStat.value.longestStreak > longestStreak {
        longestStreak := existingStat.value.longestStreak;
      }
      updatedStats := HabitStatistics(habitId, completions, failures, currentStreak, longestStreak, completionRate);
    }

    /**
     * `refreshHabitStats` over the log snapshot `logs`: saves the refreshed
     * record and puts it in place of the habit's in-memory records.
     */
    method RefreshHabitStats(habitId: string, logs: seq<HabitLog>, now: Timestamp)
      modifies this, store
      ensures habits == old(habits) && habitLogs == old(habitLogs)
      ensures habitStats == StatsAfterRefresh(old(habitStats), habitId, logs, DayOf(now))
      ensures store.statsItem
           == Some(UpsertKey(old(store.Stats()), StatKey,
                             RefreshedStats(habitId, logs, DayOf(now), FindKey(old(habitStats), StatKey, habitId))))
      ensures store.habitsItem == old(store.habitsItem) && store.logsItem == old(store.logsItem)
    {
      var updatedStats := ComputeStats(habitId, logs, now);
      var saved := store.SaveHabitStatistic(updatedStats);
      habitStats := ReplaceKey(habitStats, StatKey, habitId, updatedStats);
    }

    /** `refreshAllHabitStats`: a refresh of each habit in turn, from the current logs. */
    method RefreshAllHabitStats(now: Timestamp)
      modifies this, store
      ensures habits == old(habits) && habitLogs == old(habitLogs)
      ensures habitStats == RefreshAllPlan(old(habitStats), old(store.Stats()), habits, habitLogs, DayOf(now)).0
      ensures store.Stats() == RefreshAllPlan(old(habitStats), old(store.Stats()), habits, habitLogs, DayOf(now)).1
      ensures store.habitsItem == old(store.habitsItem) && store.logsItem == old(store.logsItem)
    {
      var hs := habits;
      ghost var mem, saved := habitStats, store.Stats();
      for i := 0 to |hs|
        invariant habits == hs && habitLogs == old(habitLogs)
        invariant (habitStats, store.Stats()) == RefreshAllPlan(mem, saved, hs[..i], habitLogs, DayOf(now))
        invariant store.habitsItem == old(store.habitsItem) && store.logsItem == old(store.logsItem)
      {
        RefreshAllStep(mem, saved, hs, i, habitLogs, DayOf(now));
        RefreshHabitStats(hs[i].id, habitLogs, now);
      }
      assert hs[..|hs|] == hs;
    }

    /**
     * `addHabit`: saves the new habit and appends it, schedules its
     * reminder when enabled, then saves and appends zeroed statistics.
     */
    method AddHabit(draft: HabitDraft, freshId: string, now: Timestamp) returns (newHabit: Habit)
      modifies this, store, notifier
      ensures newHabit == NewHabit(draft, freshId, now)
      ensures habits == old(habits) + [newHabit]
      ensures habitLogs == old(habitLogs)
      ensures habitStats == old(habitStats) + [ZeroStats(freshId)]
      ensures store.habitsItem == Some(UpsertKey(old(store.Habits()), HabitKey, newHabit))
      ensures store.statsItem == Some(UpsertKey(old(store.Stats()), StatKey, ZeroStats(freshId)))
      ensures store.logsItem == old(store.logsItem)
      ensures notifier.available == old(notifier.available)
      ensures notifier.scheduled == AfterHabitReminder(old(notifier.scheduled), notifier.available, newHabit, DayOf(now))
    {
      newHabit := NewHabit(draft, freshId, now);
      var saved := store.SaveHabit(newHabit);
      habits := habits + [newHabit];
      if ReminderEnabled(newHabit) {
        notifier.ScheduleHabitReminder(newHabit, now);
      } else {
        HabitReminderGuards(notifier.scheduled, notifier.available, newHabit, DayOf(now));
      }
      InitStats(newHabit.id);
    }

    /** The second half of `addHabit`: saves and appends zeroed statistics for the new habit. */
    method InitStats(habitId: string)
      modifies this, store
      ensures habits == old(habits) && habitLogs == old(habitLogs)
      ensures habitStats == old(habitStats) + [ZeroStats(habitId)]
      ensures store.statsItem == Some(UpsertKey(old(store.Stats()), StatKey, ZeroStats(habitId)))
      ensures store.habitsItem == old(store.habitsItem) && store.logsItem == old(store.logsItem)
    {
      var newStats := ZeroStats(habitId);
      var statSaved := store.SaveHabitStatistic(newStats);
      habitStats := habitStats + [newStats];
    }

    /**
     * `updateHabit`: nothing for an id the provider does not hold;
     * otherwise the merged habit is saved and put in place of every habit
     * with the id, the id's reminder is cancelled, and the merged habit's
     * reminder is scheduled when enabled.
     */
    method UpdateHabit(id: string, patch: HabitPatch, now: Timestamp)
      modifies this, store, notifier
      ensures habitLogs == old(habitLogs) && habitStats == old(habitStats)
      ensures store.logsItem == old(store.logsItem) && store.statsItem == old(store.statsItem)
      ensures notifier.available == old(notifier.available)
      ensures FindKey(old(habits), HabitKey, id).None? ==>
                habits == old(habits) && store.habitsItem == old(store.habitsItem)
                && notifier.scheduled == old(notifier.scheduled)
      ensures FindKey(old(habits), HabitKey, id).Some? ==>
                var updated := ApplyPatch(FindKey(old(habits), HabitKey, id).value, patch, now);
                habits == ReplaceKey(old(habits), HabitKey, id, updated)
                && store.habitsItem == Some(UpsertKey(old(store.Habits()), HabitKey, updated))
                && notifier.scheduled
                   == AfterHabitReminder(AfterCancel(old(notifier.scheduled), notifier.available, id),
                                         notifier.available, updated, DayOf(now))
    {
      var existingHabit := FindKey(habits, HabitKey, id);
      if existingHabit.Some? {
        var updatedHabit := ApplyPatch(existingHabit.value, patch, now);
        var saved := store.SaveHabit(updatedHabit);
        habits := ReplaceKey(habits, HabitKey, id, updatedHabit);
        notifier.CancelHabitReminder(id);
        if ReminderEnabled(updatedHabit) {
          notifier.ScheduleHabitReminder(updatedHabit, now);
        }
      }
    }

    /**
     * `deleteHabitHandler`: removes the habit from the store and the
     * provider and cancels its reminder; its logs and statistics stay.
     */
    method DeleteHabit(id: string)
      modifies this, store, notifier
      ensures habits == RemoveKey(old(habits), HabitKey, id)
      ensures GetHabitById(id) == None
      ensures IsSubsequence(habits, old(habits))
      ensures habitLogs == old(habitLogs) && habitStats == old(habitStats)
      ensures store.Habits() == RemoveKey(old(store.Habits()), HabitKey, id)
      ensures store.logsItem == old(store.logsItem) && store.statsItem == old(store.statsItem)
      ensures notifier.available == old(notifier.available)
      ensures notifier.scheduled == AfterCancel(old(notifier.scheduled), notifier.available, id)
    {
      RemoveKeyNothingIff(store.Habits(), HabitKey, id);
      var removed := store.DeleteHabit(id);
      RemoveKeyInOrder(habits, HabitKey, id);
      habits := RemoveKey(habits, HabitKey, id);
      notifier.CancelHabitReminder(id);
    }

    /**
     * `logHabit`: saves a new log dated today, appends it, then refreshes
     * the habit's statistics from the logs as they were before the append.
     */
    method LogHabit(habitId: string, status: Status, notes: Option<string>, freshId: string, now: Timestamp)
      returns (newLog: HabitLog)
      requires status != Pending
      modifies this, store
      ensures newLog == NewLog(freshId, habitId, status, notes, now)
      ensures habits == old(habits)
      ensures habitLogs == old(habitLogs) + [newLog]
      ensures habitStats == StatsAfterRefresh(old(habitStats), habitId, old(habitLogs), DayOf(now))
      ensures store.logsItem == Some(UpsertKey(old(store.Logs()), LogKey, newLog))
      ensures store.statsItem
           == Some(UpsertKey(old(store.Stats()), StatKey,
                             RefreshedStats(habitId, old(habitLogs), DayOf(now), FindKey(old(habitStats), StatKey, habitId))))
      ensures store.habitsItem == old(store.habitsItem)
    {
      newLog := NewLog(freshId, habitId, status, notes, now);
      var snapshot := habitLogs;
      var saved := store.SaveHabitLog(newLog);
      habitLogs := habitLogs + [newLog];
      RefreshHabitStats(habitId, snapshot, now);
    }
  }
}
