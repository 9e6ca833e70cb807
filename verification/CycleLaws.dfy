/** Cycles tile time. */
module CycleLaws {
  import opened Cycles

  lemma LastDayIsDaysInMonth(year: int, month: int)
    requires 1 <= month <= 12
    ensures LastDay(year, month) == DaysInMonth(year, month)
    ensures 28 <= DaysInMonth(year, month) <= 31
  {
  }

  lemma Multiples(year: int, k: int)
    requires k in {4, 100, 400}
    ensures year / k == (year - 1) / k + if year % k == 0 then 1 else 0
  {
  }

  lemma LeapRule(year: int)
    ensures (if year % 4 == 0 then 1 else 0) - (if year % 100 == 0 then 1 else 0) + (if year % 400 == 0 then 1 else 0)
         == if IsLeap(year) then 1 else 0
  {
    if year % 400 == 0 {
      assert year == 100 * (4 * (year / 400));
    }
    if year % 100 == 0 {
      assert year == 4 * (25 * (year / 100));
    }
  }

  lemma YearLength(year: int)
    ensures DaysBeforeYear(year + 1) == DaysBeforeYear(year) + if IsLeap(year) then 366 else 365
  {
    var leap := IsLeap(year);
    Multiples(year, 4);
    Multiples(year, 100);
    Multiples(year, 400);
    LeapRule(year);
    assert year + 1 - 1 == year;
  }

  lemma MonthsOfYear(year: int)
    ensures DaysBeforeMonth(year, 12) + 31 == if IsLeap(year) then 366 else 365
  {
    assert DaysBeforeMonth(year, 4) == DaysInMonth(year, 2) + 62;
    assert DaysBeforeMonth(year, 7) == DaysBeforeMonth(year, 4) + 91;
    assert DaysBeforeMonth(year, 10) == DaysBeforeMonth(year, 7) + 92;
    assert DaysBeforeMonth(year, 12) == DaysBeforeMonth(year, 10) + 61;
  }

  /** The first of the next month comes as many days after the first of the month as the month has. */
  lemma NextMonthIsAfter(m: Month)
    requires ValidMonth(m)
    ensures DayNumber(FirstDayOfNextMonth(m)) == DayNumber(FirstDay(m)) + DaysInMonth(m.year, m.month)
  {
    if m.month == 12 {
      YearLength(m.year);
      MonthsOfYear(m.year);
    }
  }

  lemma EveIsOneBefore(d: Date)
    requires Valid(d)
    ensures Valid(Eve(d)) && DayNumber(Eve(d)) == DayNumber(d) - 1
  {
    if d.day == 1 {
      var m := PreviousMonth(Month(d.year, d.month));
      NextMonthIsAfter(m);
    }
  }

  function Shortened(m: Month, day: int): int {
    if day <= DaysInMonth(m.year, m.month) then day else DaysInMonth(m.year, m.month)
  }

  /** Where a cycle starts and ends, month by month. */
  lemma BoundsOf(c: Cycle)
    requires ValidCycle(c)
    ensures c.startDay == 1 ==> Start(c) == FirstDay(c.month) && EndExcluded(c) == FirstDayOfNextMonth(c.month)
    ensures c.startDay > 1 ==>
      && Start(c) == FirstDay(PreviousMonth(c.month)).(day := Shortened(PreviousMonth(c.month), c.startDay))
      && EndExcluded(c) == FirstDay(c.month).(day := Shortened(c.month, c.startDay))
    ensures Valid(Start(c)) && Valid(EndExcluded(c))
  {
    var p := PreviousMonth(c.month);
    LastDayIsDaysInMonth(c.month.year, c.month.month);
    LastDayIsDaysInMonth(p.year, p.month);
  }

  lemma PreviousOfNext(m: Month)
    requires ValidMonth(m)
    ensures PreviousMonth(NextMonth(m)) == m && NextMonth(PreviousMonth(m)) == m
    ensures ValidMonth(NextMonth(m)) && ValidMonth(PreviousMonth(m))
    ensures FirstDayOfNextMonth(PreviousMonth(m)) == FirstDay(m)
  {
  }

  /** Consecutive cycles abut, whatever the start day. */
  lemma CyclesAbut(c: Cycle)
    requires ValidCycle(c)
    ensures EndExcluded(Previous(c)) == Start(c)
    ensures EndExcluded(c) == Start(Next(c))
  {
    PreviousOfNext(c.month);
    BoundsOf(c);
    BoundsOf(Previous(c));
    BoundsOf(Next(c));
  }

  /** A cycle lasts 28 to 31 days and its last day lies in the month it is named after. */
  lemma CycleLengthAndName(c: Cycle)
    requires ValidCycle(c)
    ensures 28 <= DayNumber(EndExcluded(c)) - DayNumber(Start(c)) <= 31
    ensures Eve(EndExcluded(c)).year == c.month.year && Eve(EndExcluded(c)).month == c.month.month
  {
    BoundsOf(c);
    NextMonthIsAfter(c.month);
    PreviousOfNext(c.month);
    NextMonthIsAfter(PreviousMonth(c.month));
    ShortenedGap(PreviousMonth(c.month), c.startDay);
  }

  lemma ShortenedGap(m: Month, day: int)
    requires ValidMonth(m) && 1 <= day <= 31
    ensures var n := NextMonth(m);
      28 <= DaysInMonth(m.year, m.month) + Shortened(n, day) - Shortened(m, day) <= 31
  {
  }

  // ----- Each date in exactly one cycle

  predicate Contains(c: Cycle, d: Date)
    requires ValidCycle(c) && Valid(d)
  {
    BoundsOf(c);
    DayNumber(Start(c)) <= DayNumber(d) < DayNumber(EndExcluded(c))
  }

  function CycleOf(d: Date, startDay: int): Cycle {
    var m := Month(d.year, d.month);
    if startDay == FIRST || d.day < Shortened(m, startDay) then Cycle(m, startDay) else Cycle(NextMonth(m), startDay)
  }

  function Index(m: Month): int {
    12 * m.year + m.month
  }

  lemma CycleOfContains(d: Date, startDay: int)
    requires Valid(d) && 1 <= startDay <= 31
    ensures ValidCycle(CycleOf(d, startDay)) && Contains(CycleOf(d, startDay), d)
  {
    var c := CycleOf(d, startDay);
    var m := Month(d.year, d.month);
    PreviousOfNext(m);
    BoundsOf(c);
    NextMonthIsAfter(m);
    NextMonthIsAfter(PreviousMonth(m));
  }

  /** A cycle of an earlier month ends before a cycle of a later one starts. */
  lemma {:induction false} EarlierCycleEndsBefore(c: Cycle, e: Cycle)
    requires ValidCycle(c) && ValidCycle(e) && c.startDay == e.startDay
    requires Index(c.month) < Index(e.month)
    ensures DayNumber(EndExcluded(c)) <= DayNumber(Start(e))
    decreases Index(e.month) - Index(c.month)
  {
    CyclesAbut(c);
    PreviousOfNext(c.month);
    if NextMonth(c.month) != e.month {
      assert Index(NextMonth(c.month)) == Index(c.month) + 1;
      CycleLengthAndName(Next(c));
      EarlierCycleEndsBefore(Next(c), e);
    }
  }

  /** Every date belongs to exactly one cycle of a given start day. */
  lemma EachDateInOneCycle(d: Date, startDay: int, c: Cycle)
    requires Valid(d) && 1 <= startDay <= 31
    requires ValidCycle(c) && c.startDay == startDay
    ensures Contains(c, d) <==> c == CycleOf(d, startDay)
  {
    var e := CycleOf(d, startDay);
    CycleOfContains(d, startDay);
    BoundsOf(c);
    BoundsOf(e);
    if Index(c.month) < Index(e.month) {
      EarlierCycleEndsBefore(c, e);
    } else if Index(e.month) < Index(c.month) {
      EarlierCycleEndsBefore(e, c);
    } else {
      assert c.month == e.month;
    }
  }
}
