/**
 * The records of the habit tracker (src/types/index.ts).
 *
 * Calendar dates, which the app stores as `YYYY-MM-DD` strings, are day
 * numbers here (day 0 is 1970-01-01); Helpers.FormatDate maps a day number
 * to exactly that string and is injective, so comparing day numbers is
 * comparing the strings. Instants are milliseconds since 1970-01-01T00:00
 * in local time, in a zone without daylight-saving shifts, so that the
 * local calendar day of an instant is `t / MsPerDay`.
 */
module Types {

  datatype Option<+T> = None | Some(value: T)

  /** A calendar day: 0 is 1970-01-01, 1 is 1970-01-02, -1 is 1969-12-31. */
  type Day = int

  /** Milliseconds since 1970-01-01T00:00 local time. */
  type Timestamp = int

  const MsPerMinute: int := 60000
  const MsPerHour: int := 3600000
  const MsPerDay: int := 86400000

  /** The local calendar day an instant falls on (`new Date(t)` read back by day). */
  function DayOf(t: Timestamp): Day
  {
    t / MsPerDay
  }

  datatype Category = Health | Work | Personal | Education | Social | Other

  datatype WeekDay = Mon | Tue | Wed | Thu | Fri | Sat | Sun

  datatype FrequencyType = Daily | Weekly | Custom

  /** `days` are weekday names; `customDays`, when present, weekday numbers (0 = Sunday). */
  datatype Frequency = Frequency(kind: FrequencyType, days: seq<WeekDay>, customDays: Option<seq<int>>)

  datatype Status = Pending | Done | Failed

  /** An `HH:MM` setting, already split at the colon and read as two numbers. */
  datatype Clock = Clock(hours: nat, minutes: nat)

  datatype Reminder = Reminder(enabled: bool, time: Clock, days: seq<WeekDay>)

  datatype Habit = Habit(
    id: string,
    name: string,
    description: Option<string>,
    category: Category,
    icon: Option<string>,
    frequency: Frequency,
    reminder: Option<Reminder>,
    createdAt: Timestamp,
    updatedAt: Option<Timestamp>,
    archived: Option<bool>)

  datatype HabitLog = HabitLog(
    id: string,
    habitId: string,
    date: Day,
    status: Status,
    notes: Option<string>,
    createdAt: Timestamp)

  /** `completionRate` is a percentage, exact here where the app uses a double. */
  datatype HabitStatistics = HabitStatistics(
    habitId: string,
    totalCompletions: nat,
    totalFailures: nat,
    currentStreak: nat,
    longestStreak: nat,
    completionRate: real)

  /** `habit.reminder?.enabled` */
  predicate ReminderEnabled(h: Habit)
  {
    h.reminder.Some? && h.reminder.value.enabled
  }

  // The fields the app searches and filters by, as functions that the
  // generic operations of module Collections take as keys.

  function HabitKey(h: Habit): string { h.id }
  function CategoryKey(h: Habit): Category { h.category }
  function LogKey(l: HabitLog): string { l.id }
  function LogHabitKey(l: HabitLog): string { l.habitId }
  function LogDateKey(l: HabitLog): Day { l.date }
  function LogStatusKey(l: HabitLog): Status { l.status }
  function StatKey(s: HabitStatistics): string { s.habitId }
  function StreakKey(s: HabitStatistics): int { s.currentStreak }
}
