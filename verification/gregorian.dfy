/** Gregorian calendar facts used by the mini calendar: the leap-year rule,
    month lengths (the day count of `calendar.monthrange`) and calendar dates. */
module Gregorian {

  /** Days per month of a common year, indexed by month number; slot 0 is unused. */
  const MonthDays: seq<int> := [0, 31, 28, 31, 30, 31, 30, 31, 31, 30, 31, 30, 31]

  /** Divisible by 4 and not by 100, unless divisible by 400. */
  predicate IsLeapYear(y: int) {
    y % 4 == 0 && (y % 100 != 0 || y % 400 == 0)
  }

  /** The number of days of month `m` of year `y`: the common-year table,
      plus one for February of a leap year. */
  function DaysInMonth(y: int, m: int): (r: int)
    requires 1 <= m <= 12
    ensures 28 <= r <= 31
  {
    MonthDays[m] + (if m == 2 && IsLeapYear(y) then 1 else 0)
  }

  /** The table agrees with the usual rule for month lengths. */
  lemma DaysInMonthByRule(y: int, m: int)
    requires 1 <= m <= 12
    ensures m == 2 ==> (DaysInMonth(y, m) == 29 <==> IsLeapYear(y))
    ensures m == 2 ==> (DaysInMonth(y, m) == 28 <==> !IsLeapYear(y))
    ensures m in {4, 6, 9, 11} ==> DaysInMonth(y, m) == 30
    ensures m in {1, 3, 5, 7, 8, 10, 12} ==> DaysInMonth(y, m) == 31
  {
  }

  /** A calendar date, as `datetime.date` holds it. */
  datatype Date = Date(year: int, month: nat, day: nat)

  /** What `datetime.date` accepts: years 1 to 9999 and a day within its month. */
  predicate ValidDate(d: Date) {
    1 <= d.year <= 9999 && 1 <= d.month <= 12 && 1 <= d.day <= DaysInMonth(d.year, d.month)
  }
}
