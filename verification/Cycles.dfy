/** Budget cycles: months that start on the day the owner chose. The calendar is the one of section 5.7
    and Appendix C of RFC 3339. */
module Cycles {

  predicate IsLeap(year: int) {
    year % 4 == 0 && (year % 100 != 0 || year % 400 == 0)
  }

  function DaysInMonth(year: int, month: int): int {
    if month == 2 then (if IsLeap(year) then 29 else 28)
    else if month in {4, 6, 9, 11} then 30
    else 31
  }

  datatype Date = Date(year: int, month: int, day: int)

  predicate Valid(d: Date) {
    1 <= d.month <= 12 && 1 <= d.day <= DaysInMonth(d.year, d.month)
  }

  function DaysBeforeYear(year: int): int {
    365 * (year - 1) + (year - 1) / 4 - (year - 1) / 100 + (year - 1) / 400
  }

  function DaysBeforeMonth(year: int, month: int): int
    requires 1 <= month
    decreases month
  {
    if month == 1 then 0 else DaysBeforeMonth(year, month - 1) + DaysInMonth(year, month - 1)
  }

  /** Days counted from a fixed origin: the order of dates. */
  function DayNumber(d: Date): int
    requires 1 <= d.month
  {
    DaysBeforeYear(d.year) + DaysBeforeMonth(d.year, d.month) + d.day
  }

  /** The day before. */
  function Eve(d: Date): Date {
    if d.day > 1 then d.(day := d.day - 1)
    else if d.month > 1 then Date(d.year, d.month - 1, DaysInMonth(d.year, d.month - 1))
    else Date(d.year - 1, 12, 31)
  }

  datatype Month = Month(year: int, month: int)

  predicate ValidMonth(m: Month) {
    1 <= m.month <= 12
  }

  function FirstDay(m: Month): Date {
    Date(m.year, m.month, 1)
  }

  function FirstDayOfNextMonth(m: Month): Date {
    if m.month == 12 then Date(m.year + 1, 1, 1) else Date(m.year, m.month + 1, 1)
  }

  function PreviousMonth(m: Month): Month {
    if m.month == 1 then Month(m.year - 1, 12) else Month(m.year, m.month - 1)
  }

  function NextMonth(m: Month): Month {
    if m.month == 12 then Month(m.year + 1, 1) else Month(m.year, m.month + 1)
  }

  /** Last existing day of a month: the eve of the first of the next. */
  function LastDay(year: int, month: int): int {
    Eve(if month == 12 then Date(year + 1, 1, 1) else Date(year, month + 1, 1)).day
  }

  /** The day asked for, brought back to the last day of a month too short for it. */
  function DayInMonth(year: int, month: int, day: int): Date {
    Date(year, month, if day <= LastDay(year, month) then day else LastDay(year, month))
  }

  const FIRST := 1

  datatype Cycle = Cycle(month: Month, startDay: int)

  predicate ValidCycle(c: Cycle) {
    ValidMonth(c.month) && 1 <= c.startDay <= 31
  }

  /** First day of the next cycle. */
  function EndExcluded(c: Cycle): Date {
    var first := FirstDay(c.month);
    if c.startDay == FIRST then FirstDayOfNextMonth(c.month)
    else DayInMonth(first.year, first.month, c.startDay)
  }

  function MonthBefore(year: int, month: int): (int, int) {
    if month == 1 then (year - 1, 12) else (year, month - 1)
  }

  /** A cycle bears the name of the month of its last day. */
  function Start(c: Cycle): Date {
    var end := EndExcluded(c);
    var (year, month) := MonthBefore(end.year, end.month);
    DayInMonth(year, month, c.startDay)
  }

  function Previous(c: Cycle): Cycle {
    Cycle(PreviousMonth(c.month), c.startDay)
  }

  function Next(c: Cycle): Cycle {
    Cycle(NextMonth(c.month), c.startDay)
  }
}
