/**
 * The proleptic Gregorian calendar behind JavaScript's `Date` fields:
 * `getFullYear`, `getMonth() + 1` and `getDate` of a day number,
 * and the day number of a calendar date.
 */
module Calendar {
  import opened Types

  predicate IsLeapYear(y: int)
  {
    y % 4 == 0 && (y % 100 != 0 || y % 400 == 0)
  }

  function DaysInYear(y: int): int
  {
    if IsLeapYear(y) then 366 else 365
  }

  function DaysInMonth(y: int, m: int): int
    requires 1 <= m <= 12
  {
    if m == 2 then (if IsLeapYear(y) then 29 else 28)
    else if m == 4 || m == 6 || m == 9 || m == 11 then 30
    else 31
  }

  /** Days from 1 January of `y` to the first of month `m`; month 13 is the next 1 January. */
  function DaysBeforeMonth(y: int, m: int): int
    requires 1 <= m <= 13
  {
    var leap := if m > 2 && IsLeapYear(y) then 1 else 0;
    leap +
      (if m == 1 then 0 else if m == 2 then 31 else if m == 3 then 59
       else if m == 4 then 90 else if m == 5 then 120 else if m == 6 then 151
       else if m == 7 then 181 else if m == 8 then 212 else if m == 9 then 243
       else if m == 10 then 273 else if m == 11 then 304 else if m == 12 then 334
       else 365)
  }

  lemma DaysBeforeNextMonth(y: int, m: int)
    requires 1 <= m <= 12
    ensures DaysBeforeMonth(y, m + 1) == DaysBeforeMonth(y, m) + DaysInMonth(y, m)
    ensures DaysBeforeMonth(y, 13) == DaysInYear(y)
  {
  }

  /** Days from 1970-01-01 to 1 January of `y` (negative before 1970). */
  function DaysBeforeYear(y: int): int
    decreases if y >= 1970 then y - 1970 else 1970 - y
  {
    if y == 1970 then 0
    else if y > 1970 then DaysBeforeYear(y - 1) + DaysInYear(y - 1)
    else DaysBeforeYear(y + 1) - DaysInYear(y)
  }

  lemma DaysBeforeNextYear(y: int)
    ensures DaysBeforeYear(y + 1) == DaysBeforeYear(y) + DaysInYear(y)
  {
  }

  datatype CivilDate = CivilDate(year: int, month: int, day: int)

  predicate ValidDate(c: CivilDate)
  {
    1 <= c.month <= 12 && 1 <= c.day <= DaysInMonth(c.year, c.month)
  }

  /** The day number of a calendar date. */
  function DayNumber(c: CivilDate): Day
    requires ValidDate(c)
  {
    DaysBeforeYear(c.year) + DaysBeforeMonth(c.year, c.month) + c.day - 1
  }

  /** The date of day-of-year `doy` (0-based) of year `y`, searching from month `m`. */
  function MonthOf(y: int, doy: int, m: int): (c: CivilDate)
    requires 1 <= m <= 12 && DaysBeforeMonth(y, m) <= doy < DaysInYear(y)
    ensures ValidDate(c) && c.year == y
    ensures DayNumber(c) == DaysBeforeYear(y) + doy
    decreases 12 - m
  {
    DaysBeforeNextMonth(y, m);
    if doy < DaysBeforeMonth(y, m + 1) then CivilDate(y, m, doy - DaysBeforeMonth(y, m) + 1)
    else MonthOf(y, doy, m + 1)
  }

  /** The date `d` days after 1 January of year `y` (`d` may be negative). */
  function YearOf(d: int, y: int): (c: CivilDate)
    ensures ValidDate(c)
    ensures DayNumber(c) == DaysBeforeYear(y) + d
    decreases if d < 0 then 1 else 0, if d < 0 then -d else d
  {
    if d < 0 then
      DaysBeforeNextYear(y - 1);
      YearOf(d + DaysInYear(y - 1), y - 1)
    else if d >= DaysInYear(y) then
      DaysBeforeNextYear(y);
      YearOf(d - DaysInYear(y), y + 1)
    else MonthOf(y, d, 1)
  }

  /** The calendar date of a day number; its day number is that number again. */
  function CivilFromDays(d: Day): (c: CivilDate)
    ensures ValidDate(c)
    ensures DayNumber(c) == d
  {
    YearOf(d, 1970)
  }
}
