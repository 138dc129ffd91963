/**
  Calendar facts the analytics views depend on. A JavaScript Date read in
  the viewer's time zone is represented by its local fields; how a
  date-time text maps to them (time zone, parsing rules) is a parameter.
*/
module Calendar {
  import opened Wrappers

  /** Date.prototype.getMonth(): January is 0. */
  type MonthIndex = m: int | 0 <= m < 12

  /** Date.prototype.getDate(). */
  type DayOfMonth = d: int | 1 <= d <= 31 witness 1

  /** The local year, month and day of a valid Date. */
  datatype LocalDate = LocalDate(year: int, month: MonthIndex, day: DayOfMonth)

  /**
    How a date-time text reads as a local date in the viewer's time zone:
    None where the text gives an Invalid Date.
  */
  type LocalCalendar = string -> Option<LocalDate>

  /** The Gregorian leap-year rule. */
  predicate IsLeapYear(y: int) {
    (y % 4 == 0 && y % 100 != 0) || y % 400 == 0
  }

  /** The number of days of month m (0-based) of year y in the Gregorian calendar. */
  function DaysInMonth(y: int, m: MonthIndex): (n: int)
    ensures 28 <= n <= 31
    ensures n == 31 <==> m == 0 || m == 2 || m == 4 || m == 6 || m == 7 || m == 9 || m == 11
    ensures n == 30 <==> m == 3 || m == 5 || m == 8 || m == 10
    ensures m == 1 ==> (n == 29 <==> IsLeapYear(y))
  {
    if m == 1 then (if IsLeapYear(y) then 29 else 28)
    else if m == 3 || m == 5 || m == 8 || m == 10 then 30
    else 31
  }
}
