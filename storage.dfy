/**
 * The record store (src/database/mmkvStorage.ts): three stored lists,
 * saved under the keys `habits`, `habit-logs` and `habit-stats`. A key
 * that holds nothing reads as an empty list. Saving a record looks up the
 * first record with the same key field, assigns the new one at that index
 * or pushes it, and writes the list back; deleting filters the list and
 * writes it back only when something was removed.
 */
module Storage {
  import opened Types
  import opened Collections

  class HabitStore {
    /** The stored lists; None while nothing is stored under the key. */
    var habitsItem: Option<seq<Habit>>
    var logsItem: Option<seq<HabitLog>>
    var statsItem: Option<seq<HabitStatistics>>

    /** A store with nothing under any key. */
    constructor ()
      ensures habitsItem == None && logsItem == None && statsItem == None
    {
      habitsItem := None;
      logsItem := None;
      statsItem := None;
    }

    /** `getHabits`: the stored habits, or none when the key is missing. */
    function Habits(): (r: seq<Habit>)
      reads this
      ensures habitsItem.None? ==> r == []
      ensures habitsItem.Some? ==> r == habitsItem.value
    {
      if habitsItem.Some? then habitsItem.value else []
    }

    /** `getHabitLogs`: the stored logs, or none when the key is missing. */
    function Logs(): (r: seq<HabitLog>)
      reads this
      ensures logsItem.None? ==> r == []
      ensures logsItem.Some? ==> r == logsItem.value
    {
      if logsItem.Some? then logsItem.value else []
    }

    /** `getHabitStatistics`: the stored statistics, or none when the key is missing. */
    function Stats(): (r: seq<HabitStatistics>)
      reads this
      ensures statsItem.None? ==> r == []
      ensures statsItem.Some? ==> r == statsItem.value
    {
      if statsItem.Some? then statsItem.value else []
    }

    /** `getHabitById` */
    function HabitById(id: string): (r: Option<Habit>)
      reads this
      ensures r.None? <==> forall i :: 0 <= i < |Habits()| ==> Habits()[i].id != id
      ensures r.Some? ==> r.value in Habits() && r.value.id == id
    {
      FindKey(Habits(), HabitKey, id)
    }

    /** `getHabitLogsByHabitId`: exactly the logs of the habit, in stored order. */
    function LogsByHabitId(habitId: string): (r: seq<HabitLog>)
      reads this
      ensures forall i :: 0 <= i < |r| ==> r[i] in Logs() && r[i].habitId == habitId
      ensures forall i :: 0 <= i < |Logs()| && Logs()[i].habitId == habitId ==> Logs()[i] in r
      ensures IsSubsequence(r, Logs())
    {
      FilterKeyInOrder(Logs(), LogHabitKey, habitId);
      FilterKeyMembers(Logs(), LogHabitKey, habitId);
      FilterKey(Logs(), LogHabitKey, habitId)
    }

    /** `getHabitLogsByDate`: exactly the logs of the day, in stored order. */
    function LogsByDate(date: Day): (r: seq<HabitLog>)
      reads this
      ensures forall i :: 0 <= i < |r| ==> r[i] in Logs() && r[i].date == date
      ensures forall i :: 0 <= i < |Logs()| && Logs()[i].date == date ==> Logs()[i] in r
      ensures IsSubsequence(r, Logs())
    {
      FilterKeyInOrder(Logs(), LogDateKey, date);
      FilterKeyMembers(Logs(), LogDateKey, date);
      FilterKey(Logs(), LogDateKey, date)
    }

    /** `getHabitStatisticsByHabitId`: the first statistics record of the habit. */
    function StatsByHabitId(habitId: string): (r: Option<HabitStatistics>)
      reads this
      ensures r.None? <==> forall i :: 0 <= i < |Stats()| ==> Stats()[i].habitId != habitId
      ensures r.Some? ==> r.value in Stats() && r.value.habitId == habitId
    {
      FindKey(Stats(), StatKey, habitId)
    }

    /**
     * `saveHabit`: replaces the first habit with the same id in place, or
     * appends the habit when there is none; the other keys are untouched.
     */
    method SaveHabit(habit: Habit) returns (ok: bool)
      modifies this
      ensures ok
      ensures habitsItem == Some(UpsertKey(old(Habits()), HabitKey, habit))
      ensures HabitById(habit.id) == Some(habit)
      ensures logsItem == old(logsItem) && statsItem == old(statsItem)
    {
      var habits := Habits();
      var existingIndex := FindIndexKey(habits, HabitKey, habit.id);
      if existingIndex >= 0 {
        habits := habits[existingIndex := habit];
      } else {
        habits := habits + [habit];
      }
      habitsItem := Some(habits);
      UpsertFinds(old(Habits()), HabitKey, habit);
      ok := true;
    }

    /**
     * `deleteHabit`: false, and nothing written, when no habit has the id;
     * otherwise every habit with the id is removed and the rest kept in order.
     */
    method DeleteHabit(id: string) returns (removed: bool)
      modifies this
      ensures removed <==> exists i :: 0 <= i < |old(Habits())| && old(Habits())[i].id == id
      ensures !removed ==> habitsItem == old(habitsItem)
      ensures removed ==> habitsItem == Some(RemoveKey(old(Habits()), HabitKey, id))
      ensures IsSubsequence(Habits(), old(Habits()))
      ensures HabitById(id) == None
      ensures logsItem == old(logsItem) && statsItem == old(statsItem)
    {
      var habits := Habits();
      var filteredHabits := RemoveKey(habits, HabitKey, id);
      RemoveKeyNothingIff(habits, HabitKey, id);
      RemoveKeyInOrder(habits, HabitKey, id);
      SubsequenceOfItself(habits);
      if |filteredHabits| == |habits| {
        return false;
      }
      habitsItem := Some(filteredHabits);
      removed := true;
    }

    /**
     * `saveHabitLog`: keyed by the log's id alone, so a second log of the
     * same habit on the same day is appended beside the first.
     */
    method SaveHabitLog(log: HabitLog) returns (ok: bool)
      modifies this
      ensures ok
      ensures logsItem == Some(UpsertKey(old(Logs()), LogKey, log))
      ensures FindKey(Logs(), LogKey, log.id) == Some(log)
      ensures habitsItem == old(habitsItem) && statsItem == old(statsItem)
    {
      var logs := Logs();
      var existingIndex := FindIndexKey(logs, LogKey, log.id);
      if existingIndex >= 0 {
        logs := logs[existingIndex := log];
      } else {
        logs := logs + [log];
      }
      logsItem := Some(logs);
      UpsertFinds(old(Logs()), LogKey, log);
      ok := true;
    }

    /** `deleteHabitLog`: the same contract as DeleteHabit, on log ids. */
    method DeleteHabitLog(id: string) returns (removed: bool)
      modifies this
      ensures removed <==> exists i :: 0 <= i < |old(Logs())| && old(Logs())[i].id == id
      ensures !removed ==> logsItem == old(logsItem)
      ensures removed ==> logsItem == Some(RemoveKey(old(Logs()), LogKey, id))
      ensures IsSubsequence(Logs(), old(Logs()))
      ensures FindKey(Logs(), LogKey, id) == None
      ensures habitsItem == old(habitsItem) && statsItem == old(statsItem)
    {
      var logs := Logs();
      var filteredLogs := RemoveKey(logs, LogKey, id);
      RemoveKeyNothingIff(logs, LogKey, id);
      RemoveKeyInOrder(logs, LogKey, id);
      SubsequenceOfItself(logs);
      if |filteredLogs| == |logs| {
        return false;
      }
      logsItem := Some(filteredLogs);
      removed := true;
    }

    /**
     * `saveHabitStatistic`: keyed by `habitId`, so statistics that had one
     * record per habit still have one record per habit.
     */
    method SaveHabitStatistic(stat: HabitStatistics) returns (ok: bool)
      modifies this
      ensures ok
      ensures statsItem == Some(UpsertKey(old(Stats()), StatKey, stat))
      ensures StatsByHabitId(stat.habitId) == Some(stat)
      ensures UniqueKeys(old(Stats()), StatKey) ==> UniqueKeys(Stats(), StatKey)
      ensures habitsItem == old(habitsItem) && logsItem == old(logsItem)
    {
      var stats := Stats();
      var existingIndex := FindIndexKey(stats, StatKey, stat.habitId);
      if existingIndex >= 0 {
        stats := stats[existingIndex := stat];
      } else {
        stats := stats + [stat];
      }
      statsItem := Some(stats);
      UpsertFinds(old(Stats()), StatKey, stat);
      if UniqueKeys(old(Stats()), StatKey) {
        UpsertKeepsUnique(old(Stats()), StatKey, stat);
      }
      ok := true;
    }
  }

  /** Saving a log never drops a log with another id, such as one of the same habit and day. */
  lemma SaveLogKeepsOtherLogs(logs: seq<HabitLog>, log: HabitLog, j: int)
    requires 0 <= j < |logs| && logs[j].id != log.id
    ensures UpsertKey(logs, LogKey, log)[j] == logs[j]
  {
  }
}
