/**
 * The habit list of the home screen (src/screens/HomeScreen.tsx,
 * `loadTodayHabits`): the habits due today, in their order, each paired
 * with its first log of today and its first statistics record. `today` is
 * the day the screen reads from the clock.
 */
module Home {
  import opened Types
  import opened Collections
  import opened Helpers
  import opened Notifications

  /**
   * The frequency filter: daily habits always; weekly ones on the days
   * named in `days`; custom ones on the weekday numbers in `customDays`,
   * and never when there are none.
   */
  predicate ShownOn(f: Frequency, today: Day)
  {
    match f.kind
    case Daily => true
    case Weekly => WeekdayName(DayOfWeek(today)) in f.days
    case Custom => f.customDays.Some? && DayOfWeek(today) in f.customDays.value
  }

  /** The filter as a key function, for the generic filter. */
  function ShownKey(today: Day): Habit -> bool
  {
    (h: Habit) => ShownOn(h.frequency, today)
  }

  /** `habits.filter(...)`: the habits due today. */
  function TodayHabits(habits: seq<Habit>, today: Day): seq<Habit>
  {
    FilterKey(habits, ShownKey(today), true)
  }

  /** The habits shown are exactly those due today, in their order. */
  lemma TodayHabitsExact(habits: seq<Habit>, today: Day)
    ensures forall h :: h in TodayHabits(habits, today) <==> h in habits && ShownOn(h.frequency, today)
    ensures IsSubsequence(TodayHabits(habits, today), habits)
  {
    FilterKeyMembers(habits, ShownKey(today), true);
    FilterKeyInOrder(habits, ShownKey(today), true);
  }

  /**
   * The home screen and the reminder planner disagree on one case only:
   * a custom habit without weekday numbers is hidden here, while its
   * reminder is not held back.
   */
  lemma ShownUnlessSuppressed(f: Frequency, today: Day)
    ensures ShownOn(f, today) <==> !Suppressed(f, today) && !(f.kind == Custom && f.customDays.None?)
    ensures f.kind == Custom && f.customDays.None? ==> !ShownOn(f, today) && !Suppressed(f, today)
  {
    SuppressedByKind(f, today);
  }

  /** One row of the list: the habit, its log of today if any, its statistics if any. */
  datatype TodayEntry = TodayEntry(habit: Habit, log: Option<HabitLog>, stats: Option<HabitStatistics>)

  /** `filteredHabits.map(habit => ({ habit, log, stats }))` */
  function Entries(shown: seq<Habit>, todayLogs: seq<HabitLog>, stats: seq<HabitStatistics>): (r: seq<TodayEntry>)
    ensures |r| == |shown|
    ensures forall i :: 0 <= i < |r| ==> r[i].habit == shown[i]
  {
    seq(|shown|, i requires 0 <= i < |shown| =>
      TodayEntry(shown[i], FindKey(todayLogs, LogHabitKey, shown[i].id), FindKey(stats, StatKey, shown[i].id)))
  }

  /** The rows `loadTodayHabits` builds from the provider's lists. */
  function LoadTodayHabits(habits: seq<Habit>, logs: seq<HabitLog>, stats: seq<HabitStatistics>, today: Day): seq<TodayEntry>
  {
    Entries(TodayHabits(habits, today), FilterKey(logs, LogDateKey, today), stats)
  }

  /**
   * Each row holds a habit due today; its log is a log of that habit dated
   * today, is missing only when there is none, and is the first such log
   * among today's logs; its statistics are the first record of the habit.
   */
  lemma TodayEntryParts(habits: seq<Habit>, logs: seq<HabitLog>, stats: seq<HabitStatistics>, today: Day, i: int)
    requires 0 <= i < |LoadTodayHabits(habits, logs, stats, today)|
    ensures var e := LoadTodayHabits(habits, logs, stats, today)[i];
            && e.habit in habits && ShownOn(e.habit.frequency, today)
            && (e.log.Some? ==> e.log.value in logs && e.log.value.date == today && e.log.value.habitId == e.habit.id)
            && (e.log.None? <==> forall l :: l in logs && l.date == today ==> l.habitId != e.habit.id)
            && e.log == FindKey(FilterKey(logs, LogDateKey, today), LogHabitKey, e.habit.id)
            && e.stats == FindKey(stats, StatKey, e.habit.id)
  {
    var shown := TodayHabits(habits, today);
    var todayLogs := FilterKey(logs, LogDateKey, today);
    TodayHabitsExact(habits, today);
    FilterKeyMembers(logs, LogDateKey, today);
    assert shown[i] in shown;
    var e := LoadTodayHabits(habits, logs, stats, today)[i];
    assert e.habit == shown[i];
    assert e.log == FindKey(todayLogs, LogHabitKey, shown[i].id);
    if e.log.None? {
      forall l | l in logs && l.date == today
        ensures l.habitId != e.habit.id
      {
        var j :| 0 <= j < |todayLogs| && todayLogs[j] == l;
      }
    }
  }
}
