/**
 * Calendar dates as day numbers.  A date is represented by its proleptic
 * Gregorian ordinal (1 January of year 1 is day 1), the numbering that
 * Python's `date.toordinal()` uses, so that `(d2 - d1).days` is plain
 * subtraction of two day numbers.
 */
module Dates {

  type Date = int

  predicate IsLeapYear(y: int) {
    y % 4 == 0 && (y % 100 != 0 || y % 400 == 0)
  }

  /** Number of days in the year `y` before the first day of month `m`. */
  function DaysBeforeMonth(y: int, m: int): int
    requires 1 <= m <= 12
  {
    var table := [0, 31, 59, 90, 120, 151, 181, 212, 243, 273, 304, 334];
    table[m - 1] + (if m > 2 && IsLeapYear(y) then 1 else 0)
  }

  /** Number of days before 1 January of year `y`. */
  function DaysBeforeYear(y: int): int
    requires y >= 1
  {
    var y1 := y - 1;
    y1 * 365 + y1 / 4 - y1 / 100 + y1 / 400
  }

  /** Number of days in month `m` of year `y`. */
  function DaysInMonth(y: int, m: int): int
    requires 1 <= m <= 12
  {
    if m == 2 then (if IsLeapYear(y) then 29 else 28)
    else if m in {4, 6, 9, 11} then 30
    else 31
  }

  /** The day number of the calendar date y-m-d. */
  function Ordinal(y: int, m: int, d: int): Date
    requires y >= 1 && 1 <= m <= 12 && 1 <= d <= DaysInMonth(y, m)
  {
    DaysBeforeYear(y) + DaysBeforeMonth(y, m) + d
  }
}
