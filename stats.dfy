/**
 * The figures of the statistics screen (src/screens/StatsScreen.tsx,
 * `toggleCategory`, `loadStats` and the summary totals): the category
 * filter, the completion rates of the last seven days, the habits per
 * category, the five longest current streaks, and the overall totals.
 * `today` is the day the screen reads from the clock; chart colours and
 * fonts are left to the theme.
 */
module Stats {
  import opened Types
  import opened Collections
  import opened Text
  import opened Calendar

  // ------------------------------------------------------ category filter

  /** `toggleCategory`: choosing the selected category clears the filter; any other is selected. */
  function ToggleCategory(selected: Option<Category>, c: Category): (r: Option<Category>)
    ensures r.None? <==> selected == Some(c)
    ensures r.Some? ==> r == Some(c)
  {
    if selected == Some(c) then None else Some(c)
  }

  /** Choosing the same category twice, from no filter or from that category, is no change. */
  lemma ToggleTwice(selected: Option<Category>, c: Category)
    requires selected.None? || selected == Some(c)
    ensures ToggleCategory(ToggleCategory(selected, c), c) == selected
  {
  }

  /** The habits of the selected category, or all habits without a filter. */
  function FilteredHabits(habits: seq<Habit>, selected: Option<Category>): seq<Habit>
  {
    if selected.Some? then FilterKey(habits, CategoryKey, selected.value) else habits
  }

  /** The filter keeps exactly the habits of the category, in order. */
  lemma FilteredHabitsExact(habits: seq<Habit>, selected: Option<Category>)
    ensures forall h :: h in FilteredHabits(habits, selected) <==> h in habits && (selected.None? || h.category == selected.value)
    ensures IsSubsequence(FilteredHabits(habits, selected), habits)
  {
    if selected.Some? {
      FilterKeyMembers(habits, CategoryKey, selected.value);
      FilterKeyInOrder(habits, CategoryKey, selected.value);
    } else {
      SubsequenceOfItself(habits);
    }
  }

  /** `filteredHabits.map(habit => find the stats).filter(Boolean)`: the records found, in habit order. */
  function FilteredStats(filtered: seq<Habit>, stats: seq<HabitStatistics>): (r: seq<HabitStatistics>)
    ensures |r| <= |filtered|
  {
    if filtered == [] then []
    else
      var found := FindKey(stats, StatKey, filtered[0].id);
      (if found.Some? then [found.value] else []) + FilteredStats(filtered[1..], stats)
  }

  /**
   * Each filtered record is a stored record of one of the filtered habits,
   * and every filtered habit with a record contributes its first one.
   */
  lemma {:induction false} FilteredStatsExact(filtered: seq<Habit>, stats: seq<HabitStatistics>)
    ensures forall x :: x in FilteredStats(filtered, stats) ==>
              x in stats && exists j :: 0 <= j < |filtered| && filtered[j].id == x.habitId
    ensures forall j :: 0 <= j < |filtered| && FindKey(stats, StatKey, filtered[j].id).Some? ==>
              FindKey(stats, StatKey, filtered[j].id).value in FilteredStats(filtered, stats)
    ensures forall x :: x in FilteredStats(filtered, stats) ==> FindKey(stats, StatKey, x.habitId) == Some(x)
  {
    if filtered != [] {
      var rest := filtered[1..];
      FilteredStatsExact(rest, stats);
      var found := FindKey(stats, StatKey, filtered[0].id);
      var head := if found.Some? then [found.value] else [];
      assert FilteredStats(filtered, stats) == head + FilteredStats(rest, stats);
      forall x | x in FilteredStats(filtered, stats)
        ensures x in stats && exists j :: 0 <= j < |filtered| && filtered[j].id == x.habitId
        ensures FindKey(stats, StatKey, x.habitId) == Some(x)
      {
        if x in head {
          assert filtered[0].id == x.habitId;
        } else {
          var j :| 0 <= j < |rest| && rest[j].id == x.habitId;
          assert filtered[j + 1].id == x.habitId;
        }
      }
      forall j | 0 <= j < |filtered| && FindKey(stats, StatKey, filtered[j].id).Some?
        ensures FindKey(stats, StatKey, filtered[j].id).value in FilteredStats(filtered, stats)
      {
        if j > 0 {
          assert filtered[j] == rest[j - 1];
        }
      }
    }
  }

  /**
   * One more filtered habit adds its first record at the end, or nothing
   * when it has none: the records follow the order of the habits.
   */
  lemma {:induction false} FilteredStatsAppend(filtered: seq<Habit>, h: Habit, stats: seq<HabitStatistics>)
    ensures FilteredStats(filtered + [h], stats)
         == FilteredStats(filtered, stats)
            + (if FindKey(stats, StatKey, h.id).Some? then [FindKey(stats, StatKey, h.id).value] else [])
  {
    if filtered != [] {
      assert (filtered + [h])[1..] == filtered[1..] + [h];
      FilteredStatsAppend(filtered[1..], h, stats);
    } else {
      assert ([] + [h])[1..] == [];
    }
  }

  // ------------------------------------------------- seven-day completion

  /** `${getMonth() + 1}/${getDate()}`: month and day of the month, unpadded. */
  function DayLabel(d: Day): string
  {
    var c := CivilFromDays(d);
    NatToString(c.month) + "/" + NatToString(c.day)
  }

  /** The label reads back as the month and the day of the date. */
  lemma DayLabelParts(d: Day)
    ensures var s := DayLabel(d);
            var n := |NatToString(CivilFromDays(d).month)|;
            && n < |s| && s[n] == '/'
            && ParseNat(s[..n]) == CivilFromDays(d).month
            && ParseNat(s[n + 1..]) == CivilFromDays(d).day
  {
    var c := CivilFromDays(d);
    var m, dd := NatToString(c.month), NatToString(c.day);
    var s := m + "/" + dd;
    assert s[..|m|] == m && s[|m| + 1..] == dd;
    ParseNatToString(c.month);
    ParseNatToString(c.day);
  }

  /** `(part / whole) * 100`, or 0 for an empty whole. */
  function Percentage(part: nat, whole: nat): (p: real)
    requires part <= whole
    ensures 0.0 <= p <= 100.0
    ensures whole == 0 ==> p == 0.0
    ensures whole > 0 ==> p * whole as real == 100.0 * part as real
  {
    if whole == 0 then 0.0 else (part as real / whole as real) * 100.0
  }

  /** A percentage is 100 exactly when the part is the whole, and the whole is not empty. */
  lemma PercentageFull(part: nat, whole: nat)
    requires part <= whole
    ensures Percentage(part, whole) == 100.0 <==> whole > 0 && part == whole
  {
    if whole > 0 && Percentage(part, whole) == 100.0 {
      assert 100.0 * whole as real == 100.0 * part as real;
    }
  }

  /** The logs of a day, and those of them that are done. */
  function DayLogs(logs: seq<HabitLog>, d: Day): seq<HabitLog>
  {
    FilterKey(logs, LogDateKey, d)
  }

  function DoneOf(logs: seq<HabitLog>): (r: seq<HabitLog>)
    ensures |r| <= |logs|
  {
    FilterKey(logs, LogStatusKey, Done)
  }

  /** The rate of one day: 0 without logs, else done logs as a percentage of that day's logs. */
  function DayRate(logs: seq<HabitLog>, d: Day): (rate: real)
    ensures 0.0 <= rate <= 100.0
    ensures DayLogs(logs, d) == [] ==> rate == 0.0
    ensures DayLogs(logs, d) != [] ==> rate * |DayLogs(logs, d)| as real == 100.0 * |DoneOf(DayLogs(logs, d))| as real
  {
    Percentage(|DoneOf(DayLogs(logs, d))|, |DayLogs(logs, d)|)
  }

  /** A day rate is 100 exactly when that day has logs and all of them are done. */
  lemma DayRateFull(logs: seq<HabitLog>, d: Day)
    ensures DayRate(logs, d) == 100.0 <==> DayLogs(logs, d) != [] && |DoneOf(DayLogs(logs, d))| == |DayLogs(logs, d)|
  {
    PercentageFull(|DoneOf(DayLogs(logs, d))|, |DayLogs(logs, d)|);
  }

  /** DayRate as a function of the day. */
  function RateOn(logs: seq<HabitLog>): Day -> real
  {
    d => DayRate(logs, d)
  }

  /**
   * The loop of `loadStats` over the last seven days: the labels and the
   * rates, oldest first, the last being today.
   */
  method DailySeries(logs: seq<HabitLog>, today: Day) returns (labels: seq<string>, rates: seq<real>)
    ensures |labels| == 7 && |rates| == 7
    ensures forall k :: 0 <= k < 7 ==> labels[k] == DayLabel(today - 6 + k)
    ensures forall k :: 0 <= k < 7 ==> rates[k] == DayRate(logs, today - 6 + k)
  {
    labels, rates := [], [];
    for i := 7 downto 0
      invariant labels == Tabulate(DayLabel, today - 6, 7 - i)
      invariant rates == Tabulate(RateOn(logs), today - 6, 7 - i)
    {
      var date := today - i;
      labels := labels + [DayLabel(date)];
      var dayLogs := DayLogs(logs, date);
      if |dayLogs| == 0 {
        rates := rates + [0.0];
      } else {
        var completed := |DoneOf(dayLogs)|;
        var rate := (completed as real / |dayLogs| as real) * 100.0;
        assert rate == RateOn(logs)(date);
        rates := rates + [rate];
      }
    }
  }

  // ------------------------------------------------ habits per category

  /** The categories in the order of the `categories` record. */
  const AllCategories: seq<Category> := [Health, Work, Personal, Education, Social, Other]

  /** The record's key for each category. */
  function CategoryName(c: Category): string
  {
    match c
    case Health => "health"
    case Work => "work"
    case Personal => "personal"
    case Education => "education"
    case Social => "social"
    case Other => "other"
  }

  /** The number of habits counted under a category. */
  function CountOf(hs: seq<Habit>, c: Category): nat
  {
    |FilterKey(hs, CategoryKey, c)|
  }

  /** The counts of all six categories add up to the number of habits. */
  lemma {:induction false} CategoryCountsSum(hs: seq<Habit>)
    ensures CountOf(hs, Health) + CountOf(hs, Work) + CountOf(hs, Personal)
          + CountOf(hs, Education) + CountOf(hs, Social) + CountOf(hs, Other) == |hs|
  {
    if hs != [] {
      CategoryCountsSum(hs[1..]);
      assert hs == [hs[0]] + hs[1..];
      FilterKeyCons(hs[0], hs[1..], CategoryKey, Health);
      FilterKeyCons(hs[0], hs[1..], CategoryKey, Work);
      FilterKeyCons(hs[0], hs[1..], CategoryKey, Personal);
      FilterKeyCons(hs[0], hs[1..], CategoryKey, Education);
      FilterKeyCons(hs[0], hs[1..], CategoryKey, Social);
      FilterKeyCons(hs[0], hs[1..], CategoryKey, Other);
      var c := hs[0].category;
      assert c == Health || c == Work || c == Personal || c == Education || c == Social || c == Other;
    }
  }

  /** One more habit adds one to its own category's count. */
  lemma CountOfAppend(hs: seq<Habit>, h: Habit, c: Category)
    ensures CountOf(hs + [h], c) == CountOf(hs, c) + (if h.category == c then 1 else 0)
  {
    FilterKeyAppend(hs, [h], CategoryKey, c);
    assert FilterKey([h], CategoryKey, c) == if h.category == c then [h] else [];
  }

  /**
   * The `forEach` of `loadStats`: a count per category, starting from
   * zero for all six, one added for each habit's category.
   */
  method CountCategories(filtered: seq<Habit>) returns (categories: map<Category, nat>)
    ensures forall c: Category :: c in categories && categories[c] == CountOf(filtered, c)
  {
    categories := map[Health := 0, Work := 0, Personal := 0, Education := 0, Social := 0, Other := 0];
    forall c: Category
      ensures c in categories && categories[c] == CountOf(filtered[..0], c)
    {
      assert c == Health || c == Work || c == Personal || c == Education || c == Social || c == Other;
    }
    for i := 0 to |filtered|
      invariant forall c: Category :: c in categories && categories[c] == CountOf(filtered[..i], c)
    {
      var h := filtered[i];
      assert filtered[..i + 1] == filtered[..i] + [h];
      forall c: Category
        ensures CountOf(filtered[..i + 1], c) == CountOf(filtered[..i], c) + (if h.category == c then 1 else 0)
      {
        CountOfAppend(filtered[..i], h, c);
      }
      categories := categories[h.category := categories[h.category] + 1];
    }
    assert filtered[..|filtered|] == filtered;
  }

  /** One slice of the category pie. */
  datatype Slice = Slice(name: string, count: nat)

  /** The slices for the categories in `cs`, in order, leaving out empty ones. */
  function Slices(counts: map<Category, nat>, cs: seq<Category>): (r: seq<Slice>)
    requires forall c: Category :: c in counts
    ensures |r| <= |cs|
  {
    if cs == [] then []
    else (if counts[cs[0]] > 0 then [Slice(CategoryName(cs[0]), counts[cs[0]])] else []) + Slices(counts, cs[1..])
  }

  /** `Object.entries(categories).filter(([_, count]) => count > 0)`: the non-empty categories. */
  function PieData(counts: map<Category, nat>): seq<Slice>
    requires forall c: Category :: c in counts
  {
    Slices(counts, AllCategories)
  }

  /** Every slice has a positive count, and a category has a slice, with its count, exactly when it is not empty. */
  lemma {:induction false} SlicesExact(counts: map<Category, nat>, cs: seq<Category>)
    requires forall c: Category :: c in counts
    ensures forall s :: s in Slices(counts, cs) ==> s.count > 0
    ensures forall c :: c in cs && counts[c] > 0 ==> Slice(CategoryName(c), counts[c]) in Slices(counts, cs)
    ensures forall c :: c in cs ==> (forall n :: Slice(CategoryName(c), n) in Slices(counts, cs) ==> n == counts[c])
  {
    if cs != [] {
      SlicesExact(counts, cs[1..]);
      var head := if counts[cs[0]] > 0 then [Slice(CategoryName(cs[0]), counts[cs[0]])] else [];
      assert Slices(counts, cs) == head + Slices(counts, cs[1..]);
      assert forall c :: c in cs ==> c == cs[0] || c in cs[1..];
      forall c, n | c in cs && Slice(CategoryName(c), n) in Slices(counts, cs)
        ensures n == counts[c]
      {
        if Slice(CategoryName(c), n) in head {
          CategoryNameInjective(c, cs[0]);
        } else if c !in cs[1..] {
          // A name of a category absent from the rest would need another category with the same name.
          assert c == cs[0];
          SliceNames(counts, cs[1..], Slice(CategoryName(c), n));
          var d :| d in cs[1..] && CategoryName(d) == CategoryName(c);
          CategoryNameInjective(c, d);
        }
      }
    }
  }

  /** Every slice is named after one of the categories it was built from. */
  lemma {:induction false} SliceNames(counts: map<Category, nat>, cs: seq<Category>, s: Slice)
    requires forall c: Category :: c in counts
    requires s in Slices(counts, cs)
    ensures exists d :: d in cs && CategoryName(d) == s.name
  {
    var head := if counts[cs[0]] > 0 then [Slice(CategoryName(cs[0]), counts[cs[0]])] else [];
    assert Slices(counts, cs) == head + Slices(counts, cs[1..]);
    if s in head {
      assert cs[0] in cs;
    } else {
      SliceNames(counts, cs[1..], s);
      var d :| d in cs[1..] && CategoryName(d) == s.name;
      assert d in cs;
    }
  }

  lemma CategoryNameInjective(c: Category, d: Category)
    ensures CategoryName(c) == CategoryName(d) <==> c == d
  {
  }

  /** With the counts of CountCategories, the pie holds each non-empty category of the habits with its count. */
  lemma PieDataExact(filtered: seq<Habit>, counts: map<Category, nat>)
    requires forall c: Category :: c in counts && counts[c] == CountOf(filtered, c)
    ensures forall s :: s in PieData(counts) ==> s.count > 0
    ensures forall c: Category :: CountOf(filtered, c) > 0 <==> Slice(CategoryName(c), CountOf(filtered, c)) in PieData(counts)
  {
    SlicesExact(counts, AllCategories);
    forall c: Category
      ensures c in AllCategories
    {
      match c
      case Health => assert AllCategories[0] == c;
      case Work => assert AllCategories[1] == c;
      case Personal => assert AllCategories[2] == c;
      case Education => assert AllCategories[3] == c;
      case Social => assert AllCategories[4] == c;
      case Other => assert AllCategories[5] == c;
    }
  }

  // ------------------------------------------------------- top streaks

  /** `[...filteredStats].sort(by currentStreak, descending).slice(0, 5)` */
  function TopStreaks(filteredStats: seq<HabitStatistics>): (r: seq<HabitStatistics>)
    ensures |r| == if |filteredStats| < 5 then |filteredStats| else 5
    ensures NonIncreasing(r, StreakKey)
  {
    var sorted := SortDescBy(filteredStats, StreakKey);
    var n := if |sorted| < 5 then |sorted| else 5;
    assert forall i, j :: 0 <= i < j < n ==> sorted[..n][i] == sorted[i] && sorted[..n][j] == sorted[j];
    sorted[..n]
  }

  /**
   * The chosen records are records of the list, and every record left out
   * has a current streak no longer than any chosen one.
   */
  lemma TopStreaksAreTop(filteredStats: seq<HabitStatistics>)
    ensures multiset(TopStreaks(filteredStats)) <= multiset(filteredStats)
    ensures forall x, i :: x in multiset(filteredStats) - multiset(TopStreaks(filteredStats)) && 0 <= i < |TopStreaks(filteredStats)|
              ==> x.currentStreak <= TopStreaks(filteredStats)[i].currentStreak
  {
    var sorted := SortDescBy(filteredStats, StreakKey);
    var n := |TopStreaks(filteredStats)|;
    assert TopStreaks(filteredStats) == sorted[..n];
    MultisetSplit(sorted, n);
    forall x, i | x in multiset(filteredStats) - multiset(TopStreaks(filteredStats)) && 0 <= i < n
      ensures x.currentStreak <= TopStreaks(filteredStats)[i].currentStreak
    {
      assert x in multiset(sorted[n..]);
      TailBelowHead(sorted, n, i, x);
    }
  }

  /** A list's elements are those of a prefix and of the rest. */
  lemma MultisetSplit<T>(s: seq<T>, n: nat)
    requires n <= |s|
    ensures multiset(s) == multiset(s[..n]) + multiset(s[n..])
  {
    assert s == s[..n] + s[n..];
  }

  /** In a list sorted by streak, a record past position n streaks no longer than one before it. */
  lemma TailBelowHead(sorted: seq<HabitStatistics>, n: nat, i: nat, x: HabitStatistics)
    requires NonIncreasing(sorted, StreakKey)
    requires i < n <= |sorted| && x in sorted[n..]
    ensures x.currentStreak <= sorted[..n][i].currentStreak
  {
    var j :| 0 <= j < |sorted| - n && sorted[n..][j] == x;
    assert sorted[n + j] == x;
    assert StreakKey(sorted[i]) >= StreakKey(sorted[n + j]);
  }

  /** `habit.name.substring(0, 6)` of the record's habit, or empty when no habit has its id. */
  function StreakLabel(habits: seq<Habit>, stat: HabitStatistics): (caption: string)
    ensures |caption| <= 6
    ensures FindKey(habits, HabitKey, stat.habitId).Some? ==> caption <= FindKey(habits, HabitKey, stat.habitId).value.name
    ensures FindKey(habits, HabitKey, stat.habitId).Some? ==>
              var name := FindKey(habits, HabitKey, stat.habitId).value.name;
              |caption| == if |name| < 6 then |name| else 6
    ensures FindKey(habits, HabitKey, stat.habitId).None? ==> caption == ""
  {
    var habit := FindKey(habits, HabitKey, stat.habitId);
    if habit.Some? then
      var name := habit.value.name;
      name[..if |name| < 6 then |name| else 6]
    else ""
  }

  /** The bar chart: a label and the current streak of each top record. */
  function StreakChart(habits: seq<Habit>, filteredStats: seq<HabitStatistics>): (r: (seq<string>, seq<nat>))
    ensures |r.0| == |r.1| <= 5
    ensures forall i :: 0 <= i < |r.1| - 1 ==> r.1[i] >= r.1[i + 1]
    ensures |r.1| == |TopStreaks(filteredStats)|
    ensures forall i :: 0 <= i < |r.1| ==>
              r.1[i] == TopStreaks(filteredStats)[i].currentStreak && r.0[i] == StreakLabel(habits, TopStreaks(filteredStats)[i])
  {
    var top := TopStreaks(filteredStats);
    (seq(|top|, i requires 0 <= i < |top| => StreakLabel(habits, top[i])),
     seq(|top|, i requires 0 <= i < |top| => top[i].currentStreak))
  }

  // ------------------------------------------------------------ totals

  /** `completedToday`: the logs dated today that are done. */
  function CompletedToday(logs: seq<HabitLog>, today: Day): nat
  {
    |FilterKey(FilterKey(logs, LogDateKey, today), LogStatusKey, Done)|
  }

  /** The logs counted are exactly the done logs of today. */
  lemma CompletedTodayExact(logs: seq<HabitLog>, today: Day)
    ensures forall l :: l in FilterKey(FilterKey(logs, LogDateKey, today), LogStatusKey, Done)
                    <==> l in logs && l.date == today && l.status == Done
    ensures CompletedToday(logs, today) <= |FilterKey(logs, LogDateKey, today)|
  {
    FilterKeyMembers(logs, LogDateKey, today);
    FilterKeyMembers(FilterKey(logs, LogDateKey, today), LogStatusKey, Done);
  }

  /** `reduce((sum, stat) => sum + stat.completionRate, 0)` */
  function SumRates(stats: seq<HabitStatistics>): real
  {
    if stats == [] then 0.0 else SumRates(stats[..|stats| - 1]) + stats[|stats| - 1].completionRate
  }

  /** Rates within [0, 100] sum to within [0, 100 per record]. */
  lemma {:induction false} SumRatesBounded(stats: seq<HabitStatistics>)
    requires forall i :: 0 <= i < |stats| ==> 0.0 <= stats[i].completionRate <= 100.0
    ensures 0.0 <= SumRates(stats) <= 100.0 * |stats| as real
  {
    if stats != [] {
      SumRatesBounded(stats[..|stats| - 1]);
    }
  }

  /** `averageCompletionRate`: the sum of the rates over the number of records, or over 1 when there are none. */
  function AverageRate(stats: seq<HabitStatistics>): (avg: real)
    ensures stats == [] ==> avg == 0.0
    ensures avg * (if |stats| == 0 then 1 else |stats|) as real == SumRates(stats)
  {
    SumRates(stats) / (if |stats| == 0 then 1 else |stats|) as real
  }

  /** With every rate a percentage, so is the average. */
  lemma AverageRateBounded(stats: seq<HabitStatistics>)
    requires forall i :: 0 <= i < |stats| ==> 0.0 <= stats[i].completionRate <= 100.0
    ensures 0.0 <= AverageRate(stats) <= 100.0
  {
    SumRatesBounded(stats);
  }

  /** `Math.max(...habitStats.map(stat => stat.longestStreak), 0)` */
  function LongestOverall(stats: seq<HabitStatistics>): (m: nat)
    ensures forall i :: 0 <= i < |stats| ==> stats[i].longestStreak <= m
    ensures m == 0 || exists i :: 0 <= i < |stats| && stats[i].longestStreak == m
  {
    if stats == [] then 0
    else
      var rest := LongestOverall(stats[1..]);
      assert forall i :: 1 <= i < |stats| ==> stats[i] == stats[1..][i - 1];
      if stats[0].longestStreak > rest then stats[0].longestStreak else rest
  }

  /** The summary cards of the screen. */
  datatype Summary = Summary(totalHabits: nat, completedToday: nat, averageCompletionRate: real, longestStreak: nat)

  function Totals(habits: seq<Habit>, logs: seq<HabitLog>, stats: seq<HabitStatistics>, today: Day): Summary
  {
    Summary(|habits|, CompletedToday(logs, today), AverageRate(stats), LongestOverall(stats))
  }

  /**
   * The cards count every habit whatever the category filter, count today's
   * done logs among today's logs, average percentages to a percentage, and
   * show a longest streak no record exceeds and some record attains unless
   * it is 0.
   */
  lemma TotalsMeaning(habits: seq<Habit>, logs: seq<HabitLog>, stats: seq<HabitStatistics>, today: Day)
    ensures var t := Totals(habits, logs, stats, today);
            && t.totalHabits == |habits|
            && t.completedToday == |FilterKey(FilterKey(logs, LogDateKey, today), LogStatusKey, Done)|
            && t.completedToday <= |FilterKey(logs, LogDateKey, today)|
            && ((forall i :: 0 <= i < |stats| ==> 0.0 <= stats[i].completionRate <= 100.0) ==>
                  0.0 <= t.averageCompletionRate <= 100.0)
            && (forall i :: 0 <= i < |stats| ==> stats[i].longestStreak <= t.longestStreak)
            && (t.longestStreak == 0 || exists i :: 0 <= i < |stats| && stats[i].longestStreak == t.longestStreak)
  {
    CompletedTodayExact(logs, today);
    if forall i :: 0 <= i < |stats| ==> 0.0 <= stats[i].completionRate <= 100.0 {
      AverageRateBounded(stats);
    }
  }
}
