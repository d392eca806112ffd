/**
 * The shared helpers of the app (src/utils/helpers.ts): the `YYYY-MM-DD`
 * date text, the 12-hour clock text, the weekday of a date, the dates of
 * the current week, and the streak of a habit's logs.
 */
module Helpers {
  import opened Types
  import opened Text
  import opened Calendar
  import opened Collections

  // ------------------------------------------------------------ weekdays

  /** `getDayOfWeek`: 0 is Sunday, 6 is Saturday; 1970-01-01 was a Thursday. */
  function DayOfWeek(d: Day): (w: int)
    ensures 0 <= w < 7
  {
    (d + 4) % 7
  }

  /** Consecutive days have consecutive weekdays, and the week repeats. */
  lemma DayOfWeekNext(d: Day)
    ensures DayOfWeek(d + 1) == (DayOfWeek(d) + 1) % 7
    ensures DayOfWeek(d + 7) == DayOfWeek(d)
    ensures DayOfWeek(0) == 4
  {
  }

  /** The app's `weekdayMap`: 0 is `Sun`, 1 is `Mon`, ..., 6 is `Sat`. */
  function WeekdayName(w: int): (n: WeekDay)
    requires 0 <= w < 7
    ensures (n == Sun) == (w == 0) && (n == Sat) == (w == 6)
  {
    match w
    case 0 => Sun
    case 1 => Mon
    case 2 => Tue
    case 3 => Wed
    case 4 => Thu
    case 5 => Fri
    case _ => Sat
  }

  /** Distinct weekday numbers have distinct names. */
  lemma WeekdayNameInjective(v: int, w: int)
    requires 0 <= v < 7 && 0 <= w < 7
    ensures WeekdayName(v) == WeekdayName(w) <==> v == w
  {
  }

  // ------------------------------------------------------------ dates

  /** `String(n)` has four digits for a four-digit number. */
  lemma FourDigits(n: int)
    ensures 1000 <= n < 10000 ==> |IntToString(n)| == 4
  {
    if 1000 <= n < 10000 {
      assert |NatToString(n / 100)| == 2;
      assert |NatToString(n / 10)| == 3;
    }
  }

  /**
   * `formatDate`: `YYYY-MM-DD` from the local year, the 1-based month and
   * the day of the month (see FormatDateLayout).
   */
  function FormatDate(d: Day): string
  {
    var c := CivilFromDays(d);
    IntToString(c.year) + "-" + Pad2(c.month) + "-" + Pad2(c.day)
  }

  /**
   * The date text is the year, a dash, the month as two digits, a dash and
   * the day as two digits; a four-digit year makes it ten characters long.
   */
  lemma FormatDateLayout(d: Day)
    ensures var s := FormatDate(d);
      && |s| >= 7 && s[|s| - 6] == '-' && s[|s| - 3] == '-'
      && AllDigits(s[|s| - 5..|s| - 3]) && AllDigits(s[|s| - 2..])
      && ParseInt(s[..|s| - 6]) == CivilFromDays(d).year
      && ParseNat(s[|s| - 5..|s| - 3]) == CivilFromDays(d).month
      && ParseNat(s[|s| - 2..]) == CivilFromDays(d).day
      && (1000 <= CivilFromDays(d).year < 10000 ==> |s| == 10)
  {
    var c := CivilFromDays(d);
    ParseIntToString(c.year);
    FourDigits(c.year);
    DashedParts(IntToString(c.year), Pad2(c.month), Pad2(c.day));
  }

  /** The three parts of `y-mm-dd` can be cut back out of it. */
  lemma DashedParts(y: string, m: string, dd: string)
    requires |m| == 2 && |dd| == 2
    ensures var s := y + "-" + m + "-" + dd;
      && |s| == |y| + 6 && s[|s| - 6] == '-' && s[|s| - 3] == '-'
      && s[..|s| - 6] == y && s[|s| - 5..|s| - 3] == m && s[|s| - 2..] == dd
  {
    var s := y + "-" + m + "-" + dd;
    assert s[..|s| - 6] == y;
    assert s[|s| - 5..|s| - 3] == m;
    assert s[|s| - 2..] == dd;
  }

  /** Reads a `YYYY-MM-DD` text back as a day number; None when it is not one. */
  function ParseDate(s: string): Option<Day>
  {
    if |s| < 7 || s[|s| - 6] != '-' || s[|s| - 3] != '-' then None
    else
      var mm := s[|s| - 5..|s| - 3];
      var dd := s[|s| - 2..];
      if !AllDigits(mm) || !AllDigits(dd) then None
      else
        var c := CivilDate(ParseInt(s[..|s| - 6]), ParseNat(mm), ParseNat(dd));
        if ValidDate(c) then Some(DayNumber(c)) else None
  }

  /** The date text reads back as the day it was made from. */
  lemma ParseFormatDate(d: Day)
    ensures ParseDate(FormatDate(d)) == Some(d)
  {
    var c := CivilFromDays(d);
    var s := FormatDate(d);
    FormatDateLayout(d);
    assert CivilDate(ParseInt(s[..|s| - 6]), ParseNat(s[|s| - 5..|s| - 3]), ParseNat(s[|s| - 2..])) == c;
  }

  /** Distinct days have distinct texts, so comparing texts is comparing days. */
  lemma FormatDateInjective(a: Day, b: Day)
    ensures FormatDate(a) == FormatDate(b) <==> a == b
  {
    if FormatDate(a) == FormatDate(b) {
      ParseFormatDate(a);
      ParseFormatDate(b);
    }
  }

  // ------------------------------------------------------------ clock text

  /** The hour `formatTime` shows: `hours % 12`, with 0 shown as 12. */
  function DisplayHour(hours: nat): (h: nat)
    ensures 1 <= h <= 12
    ensures h % 12 == hours % 12
  {
    if hours % 12 == 0 then 12 else hours % 12
  }

  /** `formatTime`: `h:MM AM` or `h:MM PM` from an `HH:MM` setting (see FormatTimeLayout). */
  function FormatTime(t: Clock): string
  {
    NatToString(DisplayHour(t.hours)) + ":" + Pad2(t.minutes) + " " + (if t.hours >= 12 then "PM" else "AM")
  }

  /**
   * The clock text ends in ` PM` exactly when the hour is 12 or later and
   * in ` AM` otherwise; before it come the shown hour and, for minutes
   * below 100, a colon and the minutes as two digits.
   */
  lemma FormatTimeLayout(t: Clock)
    ensures var s := FormatTime(t);
      && |s| >= 6 && s[|s| - 3] == ' '
      && s[|s| - 2..] == (if t.hours >= 12 then "PM" else "AM")
      && (t.minutes < 100 ==>
            s[|s| - 6] == ':' && AllDigits(s[|s| - 5..|s| - 3]) && ParseNat(s[|s| - 5..|s| - 3]) == t.minutes
            && AllDigits(s[..|s| - 6]) && ParseNat(s[..|s| - 6]) == DisplayHour(t.hours))
  {
    var h := NatToString(DisplayHour(t.hours));
    var m := Pad2(t.minutes);
    var s := FormatTime(t);
    ParseNatToString(DisplayHour(t.hours));
    assert s[|s| - 2..] == (if t.hours >= 12 then "PM" else "AM");
    if t.minutes < 100 {
      assert s[..|s| - 6] == h && s[|s| - 5..|s| - 3] == m;
    }
  }

  /** Reads `h:MM AM` / `h:MM PM` back as a 24-hour setting; None when it is not one. */
  function ParseTime12(s: string): Option<Clock>
  {
    if |s| < 7 || s[|s| - 6] != ':' || s[|s| - 3] != ' ' then None
    else
      var h := s[..|s| - 6];
      var mm := s[|s| - 5..|s| - 3];
      var period := s[|s| - 2..];
      if !AllDigits(h) || !AllDigits(mm) || (period != "AM" && period != "PM") then None
      else
        var hour := ParseNat(h);
        if hour < 1 || hour > 12 then None
        else Some(Clock(hour % 12 + (if period == "PM" then 12 else 0), ParseNat(mm)))
  }

  /** The clock text of a valid setting reads back as that setting. */
  lemma ParseFormatTime(t: Clock)
    requires t.hours < 24 && t.minutes < 100
    ensures ParseTime12(FormatTime(t)) == Some(t)
  {
    FormatTimeLayout(t);
  }

  /** Distinct valid settings have distinct clock texts. */
  lemma FormatTimeInjective(a: Clock, b: Clock)
    requires a.hours < 24 && a.minutes < 100 && b.hours < 24 && b.minutes < 100
    ensures FormatTime(a) == FormatTime(b) <==> a == b
  {
    if FormatTime(a) == FormatTime(b) {
      ParseFormatTime(a);
      ParseFormatTime(b);
    }
  }

  // ------------------------------------------------------------ the week

  /** The Sunday on or before `today`: the first day of its week. */
  function WeekStart(today: Day): (sunday: Day)
    ensures DayOfWeek(sunday) == 0
    ensures sunday <= today < sunday + 7
  {
    today - DayOfWeek(today)
  }

  /** The days of a week are its Sunday, Monday, ..., Saturday in turn. */
  lemma WeekDays(today: Day, i: int)
    requires 0 <= i < 7
    ensures DayOfWeek(WeekStart(today) + i) == i
  {
    var s := WeekStart(today);
    assert (s + 4) % 7 == 0;
    assert s + 4 == 7 * ((s + 4) / 7);
    assert s + i + 4 == 7 * ((s + 4) / 7) + i;
  }

  /** The week of `today` holds the text of `today` at the position of its weekday. */
  lemma WeekHoldsToday(today: Day)
    ensures Tabulate(FormatDate, WeekStart(today), 7)[DayOfWeek(today)] == FormatDate(today)
  {
    WeekPosition(FormatDate, today);
  }

  lemma WeekPosition<T>(f: Day -> T, today: Day)
    ensures Tabulate(f, WeekStart(today), 7)[DayOfWeek(today)] == f(today)
  {
    assert WeekStart(today) + DayOfWeek(today) == today;
  }

  /**
   * `getCurrentWeekDates`: the texts of the seven consecutive dates from
   * the Sunday on or before `today` to the Saturday after it.
   */
  method GetCurrentWeekDates(today: Day) returns (weekDates: seq<string>)
    ensures weekDates == Tabulate(FormatDate, WeekStart(today), 7)
  {
    var sunday := WeekStart(today);
    weekDates := [];
    for i := 0 to 7
      invariant weekDates == Tabulate(FormatDate, sunday, i)
    {
      weekDates := weekDates + [FormatDate(sunday + i)];
    }
  }

  // ------------------------------------------------------------ the streak

  /** A copy of the logs, newest date first; logs of one date keep their order. */
  function SortNewestFirst(logs: seq<HabitLog>): (sorted: seq<HabitLog>)
    ensures |sorted| == |logs| && multiset(sorted) == multiset(logs)
    ensures NonIncreasing(sorted, LogDateKey)
  {
    SortDescBy(logs, LogDateKey)
  }

  /**
   * The counting loop of `calculateStreak` over newest-first logs, with
   * `expected` the date it waits for: it stops at a log that is not done
   * and at a log older than `expected`; a done log on `expected` counts
   * and moves `expected` one day back; a done log newer than `expected`
   * is passed over.
   */
  function Walk(sorted: seq<HabitLog>, expected: Day): nat
  {
    if sorted == [] then 0
    else if sorted[0].status != Done then 0
    else if sorted[0].date == expected then 1 + Walk(sorted[1..], expected - 1)
    else if sorted[0].date < expected then 0
    else Walk(sorted[1..], expected)
  }

  /**
   * `calculateStreak` on the day `today`: 0 for no logs; when the newest log
   * is dated neither today nor yesterday, 1 if it is done and 0 otherwise;
   * else the count of the walk, which starts waiting for today.
   */
  function Streak(logs: seq<HabitLog>, today: Day): nat
  {
    StreakOfSorted(SortNewestFirst(logs), today)
  }

  /** Streak on logs already sorted newest-first. */
  function StreakOfSorted(sorted: seq<HabitLog>, today: Day): nat
  {
    if sorted == [] then 0
    else if sorted[0].date != today && sorted[0].date != today - 1 then
      (if sorted[0].status == Done then 1 else 0)
    else Walk(sorted, today)
  }

  /** `calculateStreak`: the loop over a sorted copy, as the app runs it. */
  method CalculateStreak(logs: seq<HabitLog>, today: Day) returns (streak: nat)
    ensures streak == Streak(logs, today)
  {
    if |logs| == 0 {
      return 0;
    }
    var sortedLogs := SortNewestFirst(logs);
    assert sortedLogs != [];
    assert Streak(logs, today) == StreakOfSorted(sortedLogs, today);
    streak := 0;
    var expected := today;
    var mostRecentLog := sortedLogs[0];
    if mostRecentLog.date != expected && mostRecentLog.date != today - 1 {
      return if mostRecentLog.status == Done then 1 else 0;
    }
    var i := 0;
    while i < |sortedLogs|
      invariant 0 <= i <= |sortedLogs|
      invariant streak + Walk(sortedLogs[i..], expected) == Walk(sortedLogs, today)
    {
      var log := sortedLogs[i];
      assert sortedLogs[i..][0] == log && sortedLogs[i..][1..] == sortedLogs[i + 1..];
      if log.status != Done {
        assert Walk(sortedLogs[i..], expected) == 0;
        break;
      }
      if log.date == expected {
        assert Walk(sortedLogs[i..], expected) == 1 + Walk(sortedLogs[i + 1..], expected - 1);
        streak := streak + 1;
        expected := expected - 1;
      } else if log.date < expected {
        assert Walk(sortedLogs[i..], expected) == 0;
        break;
      } else {
        assert Walk(sortedLogs[i..], expected) == Walk(sortedLogs[i + 1..], expected);
      }
      i := i + 1;
    }
  }

  // Properties of the streak.

  /** A done log on day `d`. */
  ghost predicate HasDoneOn(logs: seq<HabitLog>, d: Day)
  {
    exists i :: 0 <= i < |logs| && logs[i].date == d && logs[i].status == Done
  }

  /** A log, of any status, on day `d`. */
  ghost predicate HasLogOn(logs: seq<HabitLog>, d: Day)
  {
    exists i :: 0 <= i < |logs| && logs[i].date == d
  }

  /** No logs, no streak. */
  lemma StreakEmpty(today: Day)
    ensures Streak([], today) == 0
  {
  }

  /** Each step of the walk consumes a done log on the day it waits for. */
  lemma {:induction false} WalkConsumesDoneDays(sorted: seq<HabitLog>, expected: Day, j: int)
    requires 0 <= j < Walk(sorted, expected)
    ensures HasDoneOn(sorted, expected - j)
  {
    var rest := sorted[1..];
    if sorted[0].date == expected {
      if j == 0 {
        assert sorted[0].date == expected - j;
      } else {
        WalkConsumesDoneDays(rest, expected - 1, j - 1);
        var m :| 0 <= m < |rest| && rest[m].date == expected - j && rest[m].status == Done;
        assert sorted[m + 1] == rest[m];
      }
    } else {
      WalkConsumesDoneDays(rest, expected, j);
      var m :| 0 <= m < |rest| && rest[m].date == expected - j && rest[m].status == Done;
      assert sorted[m + 1] == rest[m];
    }
  }

  /** The walk never counts more than the done logs there are. */
  lemma {:induction false} WalkAtMostDone(sorted: seq<HabitLog>, expected: Day)
    ensures Walk(sorted, expected) <= |FilterKey(sorted, LogStatusKey, Done)|
  {
    if sorted != [] && sorted[0].status == Done {
      WalkAtMostDone(sorted[1..], expected - 1);
      WalkAtMostDone(sorted[1..], expected);
    }
  }

  /** Nothing after a log that is not done affects the walk. */
  lemma {:induction false} WalkStopsAtMiss(sorted: seq<HabitLog>, expected: Day, j: nat)
    requires j < |sorted| && sorted[j].status != Done
    ensures Walk(sorted, expected) == Walk(sorted[..j], expected)
  {
    if j > 0 && sorted[0].status == Done {
      assert sorted[..j][1..] == sorted[1..][..j - 1];
      WalkStopsAtMiss(sorted[1..], expected - 1, j - 1);
      WalkStopsAtMiss(sorted[1..], expected, j - 1);
    }
  }

  /** A done log dated after the expected day is passed over and the walk goes on. */
  lemma WalkSkipsLater(sorted: seq<HabitLog>, expected: Day)
    requires sorted != [] && sorted[0].status == Done && sorted[0].date > expected
    ensures Walk(sorted, expected) == Walk(sorted[1..], expected)
  {
  }

  /**
   * A second done log of a day just counted is dated after the new expected
   * day, so it is passed over: the day counts once.
   */
  lemma WalkSkipsDuplicate(sorted: seq<HabitLog>, expected: Day)
    requires |sorted| >= 2 && sorted[0].status == Done && sorted[1].status == Done
    requires sorted[0].date == expected && sorted[1].date == expected
    ensures Walk(sorted, expected) == 1 + Walk(sorted[2..], expected - 1)
  {
    assert sorted[1..][1..] == sorted[2..];
  }

  /**
   * On newest-first logs that are all done, the walk from `expected`
   * ends at the first day, going back, that has no log.
   */
  lemma {:induction false} WalkEndsAtGap(sorted: seq<HabitLog>, expected: Day)
    requires NonIncreasing(sorted, LogDateKey)
    requires forall i :: 0 <= i < |sorted| ==> sorted[i].status == Done
    ensures !HasLogOn(sorted, expected - Walk(sorted, expected))
  {
    if sorted != [] {
      var rest := sorted[1..];
      assert NonIncreasing(rest, LogDateKey);
      var w := Walk(sorted, expected);
      if sorted[0].date == expected {
        WalkEndsAtGap(rest, expected - 1);
      } else if sorted[0].date > expected {
        WalkEndsAtGap(rest, expected);
      }
      forall m | 0 <= m < |sorted|
        ensures sorted[m].date != expected - w
      {
        if m > 0 && sorted[0].date >= expected {
          assert rest[m - 1] == sorted[m];
        }
      }
    }
  }

  /** Reordering the logs changes neither which days have logs nor which have done logs. */
  lemma SameLogDays(a: seq<HabitLog>, b: seq<HabitLog>, d: Day)
    requires multiset(a) == multiset(b)
    ensures HasLogOn(a, d) == HasLogOn(b, d)
    ensures HasDoneOn(a, d) == HasDoneOn(b, d)
  {
    ContainedLogDays(a, b, d);
    ContainedLogDays(b, a, d);
  }

  lemma ContainedLogDays(a: seq<HabitLog>, b: seq<HabitLog>, d: Day)
    requires multiset(a) == multiset(b)
    ensures HasLogOn(a, d) ==> HasLogOn(b, d)
    ensures HasDoneOn(a, d) ==> HasDoneOn(b, d)
  {
    if HasLogOn(a, d) {
      var i :| 0 <= i < |a| && a[i].date == d;
      if a[i].status == Done {
        assert HasDoneOn(a, d);
      }
      assert a[i] in multiset(b);
      var m :| 0 <= m < |b| && b[m] == a[i];
    }
    if HasDoneOn(a, d) {
      var i :| 0 <= i < |a| && a[i].date == d && a[i].status == Done;
      assert a[i] in multiset(b);
      var m :| 0 <= m < |b| && b[m] == a[i];
    }
  }

  /** The streak never exceeds the number of done logs. */
  lemma StreakAtMostDone(logs: seq<HabitLog>, today: Day)
    ensures Streak(logs, today) <= |FilterKey(logs, LogStatusKey, Done)|
  {
    if logs != [] {
      var sorted := SortNewestFirst(logs);
      FilterKeyCountSorted(logs, LogDateKey, LogStatusKey, Done);
      WalkAtMostDone(sorted, today);
    }
  }

  /** The newest log: the first of the logs on the latest date. */
  function Newest(logs: seq<HabitLog>): (l: HabitLog)
    requires logs != []
    ensures l in logs
    ensures forall i :: 0 <= i < |logs| ==> logs[i].date <= l.date
  {
    logs[FirstIndexKey(logs, LogDateKey, MaxKey(logs, LogDateKey))]
  }

  /** Sorting newest-first puts the newest log in front. */
  lemma SortedHead(logs: seq<HabitLog>)
    requires logs != []
    ensures SortNewestFirst(logs)[0] == Newest(logs)
  {
    SortDescHead(logs, LogDateKey);
  }

  /**
   * When the newest log is dated neither today nor yesterday, the streak
   * is 1 if that log is done and 0 otherwise.
   */
  lemma StreakStale(logs: seq<HabitLog>, today: Day)
    requires logs != [] && Newest(logs).date != today && Newest(logs).date != today - 1
    ensures Streak(logs, today) == if Newest(logs).status == Done then 1 else 0
  {
    SortedHead(logs);
  }

  /** When the newest log is dated yesterday, the streak is 0. */
  lemma StreakNewestYesterday(logs: seq<HabitLog>, today: Day)
    requires logs != [] && Newest(logs).date == today - 1
    ensures Streak(logs, today) == 0
  {
    SortedHead(logs);
  }

  /**
   * When the newest log is dated today, a streak of k means that each of
   * today, yesterday, ..., k - 1 days ago has a done log.
   */
  lemma StreakDaysDone(logs: seq<HabitLog>, today: Day, d: Day)
    requires logs != [] && Newest(logs).date == today
    requires today - Streak(logs, today) < d <= today
    ensures HasDoneOn(logs, d)
  {
    var sorted := SortNewestFirst(logs);
    SortedHead(logs);
    WalkConsumesDoneDays(sorted, today, today - d);
    SameLogDays(sorted, logs, d);
  }

  /** Days `d` with `today - k < d <= today` each have a log. */
  ghost predicate LoggedRun(logs: seq<HabitLog>, today: Day, k: nat)
  {
    forall d :: today - k < d <= today ==> HasLogOn(logs, d)
  }

  /**
   * For logs that are all done, with the newest dated today, the streak is
   * the length of the run of consecutive logged days ending today: all k
   * days up to today have logs and the day before them has none.
   */
  lemma StreakIsRun(logs: seq<HabitLog>, today: Day, k: nat)
    requires logs != [] && Newest(logs).date == today
    requires forall i :: 0 <= i < |logs| ==> logs[i].status == Done
    ensures Streak(logs, today) == k <==> LoggedRun(logs, today, k) && !HasLogOn(logs, today - k)
  {
    var w := Streak(logs, today);
    StreakRunEnds(logs, today);
    forall d | today - w < d <= today
      ensures HasLogOn(logs, d)
    {
      StreakDaysDone(logs, today, d);
    }
    if LoggedRun(logs, today, k) && !HasLogOn(logs, today - k) {
      assert k < w ==> HasLogOn(logs, today - k);
      assert k > w ==> HasLogOn(logs, today - w);
    }
  }

  /** For logs that are all done, the day before the streak has no log. */
  lemma StreakRunEnds(logs: seq<HabitLog>, today: Day)
    requires logs != [] && Newest(logs).date == today
    requires forall i :: 0 <= i < |logs| ==> logs[i].status == Done
    ensures !HasLogOn(logs, today - Streak(logs, today))
  {
    var sorted := SortNewestFirst(logs);
    SortedHead(logs);
    SortedAllDone(logs, sorted);
    WalkEndsAtGap(sorted, today);
    SameLogDays(sorted, logs, today - Streak(logs, today));
  }

  lemma SortedAllDone(logs: seq<HabitLog>, sorted: seq<HabitLog>)
    requires multiset(sorted) == multiset(logs)
    requires forall i :: 0 <= i < |logs| ==> logs[i].status == Done
    ensures forall i :: 0 <= i < |sorted| ==> sorted[i].status == Done
  {
    forall i | 0 <= i < |sorted|
      ensures sorted[i].status == Done
    {
      assert sorted[i] in multiset(logs);
    }
  }
}
