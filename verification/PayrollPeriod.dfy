/**
 Payroll periods run from the 25th to the 23rd of the next month; attendance windows start a
 day earlier, so that they cover the 24ths the periods leave out.
 */
module PayrollPeriod {
  import opened Calendar
  import opened IsoDates

  const PAYROLL_CYCLE_DAY: nat := 25
  const PAYROLL_CYCLE_END_DAY: nat := 23

  datatype Window = Window(periodStart: string, periodEnd: string)

  datatype YearMonth = YearMonth(year: int, month: int)

  /** The remainder operator of JavaScript, with the sign of the dividend. */
  function JsRemainder(a: int, n: nat): int
    requires n > 0
  {
    if a >= 0 then a % n else -((-a) % n)
  }

  function AddMonths(year: int, month: int, delta: int): YearMonth {
    var total := year * 12 + (month - 1) + delta;
    YearMonth(total / 12, JsRemainder(total, 12) + 1)
  }

  /** Months counted from year 0, the one number AddMonths moves along. */
  function MonthIndex(y: int, m: int): int {
    12 * y + m - 1
  }

  lemma AddMonthsMovesIndex(year: int, month: int, delta: int)
    requires MonthIndex(year, month) + delta >= 0
    ensures var r := AddMonths(year, month, delta);
            1 <= r.month <= 12 && r.year >= 0 && MonthIndex(r.year, r.month) == MonthIndex(year, month) + delta
  {
  }

  lemma SameIndex(y: int, m: int, z: int, n: int)
    requires 1 <= m <= 12 && 1 <= n <= 12 && MonthIndex(y, m) == MonthIndex(z, n)
    ensures y == z && m == n
  {
  }

  /** Adding months composes, across any number of year ends. */
  lemma AddMonthsComposes(year: int, month: int, a: int, b: int)
    requires MonthIndex(year, month) + a >= 0 && MonthIndex(year, month) + a + b >= 0
    ensures var r := AddMonths(year, month, a); AddMonths(r.year, r.month, b) == AddMonths(year, month, a + b)
  {
    AddMonthsMovesIndex(year, month, a);
  }

  /** A date of the calendar in a range of years. */
  predicate InYears(s: string, first: int, last: int) {
    IsIsoDate(s) && first <= PartsOf(s).year <= last
  }

  function IndexOf(s: string): int
    requires IsIsoShape(s)
  {
    MonthIndex(PartsOf(s).year, PartsOf(s).month)
  }

  /** The months in which a cycle can start that ends in a four-digit year, as the printing of years needs. */
  const FIRST_INDEX: int := MonthIndex(1000, 1)
  const LAST_INDEX: int := MonthIndex(9999, 11)

  /** The month in which the period of a date starts. */
  function CycleIndex(s: string): int
    requires IsIsoShape(s)
  {
    IndexOf(s) - (if PartsOf(s).day > PAYROLL_CYCLE_END_DAY then 0 else 1)
  }

  /** Work dates whose period starts and ends in a four-digit year: the 24th of January 1000 to the 23rd of December 9999. */
  predicate IsWorkDate(s: string) {
    IsIsoDate(s) && FIRST_INDEX <= CycleIndex(s) <= LAST_INDEX
  }

  lemma WorkDatesExactly(s: string)
    ensures IsWorkDate(s) <==> IsIsoDate(s) && !Before(PartsOf(s), Civil(1000, 1, 24)) && !Before(Civil(9999, 12, 23), PartsOf(s))
  {
  }

  /** The start of a standard cycle that can hold a work date. */
  predicate IsCycleStart(s: string) {
    IsIsoDate(s) && PartsOf(s).day == PAYROLL_CYCLE_DAY && FIRST_INDEX <= IndexOf(s) <= LAST_INDEX
  }

  /** Work dates whose next period lies in four-digit years as well. */
  predicate CanReport(s: string) {
    IsWorkDate(s) && CycleIndex(s) < LAST_INDEX
  }

  function AddDaysIso(iso: string, days: int): string
    requires IsIsoDate(iso) && AddDays(PartsOf(iso), days).year >= 0
  {
    IsoText(AddDays(PartsOf(iso), days))
  }

  function PayrollPeriodStartOf(workDateIso: string): string
    requires IsIsoShape(workDateIso) && PartsOf(workDateIso).year > 0
  {
    var Civil(year, month, day) := PartsOf(workDateIso);
    if day > PAYROLL_CYCLE_END_DAY then IsoText(Civil(year, month, PAYROLL_CYCLE_DAY))
    else
      AddMonthsMovesIndex(year, month, -1);
      var prev := AddMonths(year, month, -1);
      IsoText(Civil(prev.year, prev.month, PAYROLL_CYCLE_DAY))
  }

  function PayrollPeriodEndOf(periodStartIso: string): string
    requires IsIsoShape(periodStartIso)
  {
    var Civil(year, month, _) := PartsOf(periodStartIso);
    AddMonthsMovesIndex(year, month, 1);
    var next := AddMonths(year, month, 1);
    IsoText(Civil(next.year, next.month, PAYROLL_CYCLE_END_DAY))
  }

  function PayrollPeriodWindowOf(workDateIso: string): Window
    requires IsWorkDate(workDateIso)
  {
    StartIsCycleStart(workDateIso);
    var periodStart := PayrollPeriodStartOf(workDateIso);
    Window(periodStart, PayrollPeriodEndOf(periodStart))
  }

  function NextPayrollPeriodStart(periodStartIso: string): string
    requires IsCycleStart(periodStartIso)
  {
    EndIsTheTwentyThird(periodStartIso);
    DayAfterCycleEnd(PayrollPeriodEndOf(periodStartIso));
    AddDaysIso(PayrollPeriodEndOf(periodStartIso), 1)
  }

  predicate IsDateInPayrollPeriod(dateIso: string, periodStartIso: string)
    requires IsIsoShape(periodStartIso)
  {
    StrLeq(periodStartIso, dateIso) && StrLeq(dateIso, PayrollPeriodEndOf(periodStartIso))
  }

  function PayrollAttendanceWindowOf(periodStartIso: string, periodEndIso: string): Window
    requires InYears(periodStartIso, 1000, 9999)
  {
    var startDay := PartsOf(periodStartIso).day;
    if startDay == PAYROLL_CYCLE_DAY then
      DayBeforeCycleStart(periodStartIso);
      Window(AddDaysIso(periodStartIso, -1), periodEndIso)
    else Window(periodStartIso, periodEndIso)
  }

  datatype Reporting = Reporting(validStart: string, validEnd: string, currentPeriod: Window, nextPeriod: Window)

  function MonthlyOffReportingWindow(asOfWorkDateIso: string): Reporting
    requires CanReport(asOfWorkDateIso)
  {
    StartIsCycleStart(asOfWorkDateIso);
    var current := PayrollPeriodWindowOf(asOfWorkDateIso);
    NextStartIsTheTwentyFourth(current.periodStart);
    var next := PayrollPeriodWindowOf(NextPayrollPeriodStart(current.periodStart));
    Reporting(current.periodStart, next.periodEnd, current, next)
  }

  // ---- What the parts are ----

  lemma StartIsCycleStart(d: string)
    requires IsWorkDate(d)
    ensures var q := PayrollPeriodStartOf(d);
            IsCycleStart(q) && IndexOf(q) == CycleIndex(d)
  {
    var Civil(y, m, day) := PartsOf(d);
    if day > PAYROLL_CYCLE_END_DAY {
      PrintThenRead(Civil(y, m, PAYROLL_CYCLE_DAY));
    } else {
      AddMonthsMovesIndex(y, m, -1);
      var prev := AddMonths(y, m, -1);
      PrintThenRead(Civil(prev.year, prev.month, PAYROLL_CYCLE_DAY));
    }
  }

  lemma EndIsTheTwentyThird(q: string)
    requires IsIsoDate(q) && FIRST_INDEX <= IndexOf(q) <= LAST_INDEX
    ensures var e := PayrollPeriodEndOf(q);
            InYears(e, 1000, 9999) && PartsOf(e).day == PAYROLL_CYCLE_END_DAY && IndexOf(e) == IndexOf(q) + 1
  {
    var Civil(y, m, _) := PartsOf(q);
    AddMonthsMovesIndex(y, m, 1);
    var next := AddMonths(y, m, 1);
    PrintThenRead(Civil(next.year, next.month, PAYROLL_CYCLE_END_DAY));
  }

  lemma DayBeforeCycleStart(q: string)
    requires InYears(q, 1000, 9999) && PartsOf(q).day == PAYROLL_CYCLE_DAY
    ensures var c := PartsOf(q); AddDays(c, -1) == Civil(c.year, c.month, 24)
    ensures var s := AddDaysIso(q, -1); IsIsoDate(s) && PartsOf(s) == AddDays(PartsOf(q), -1)
  {
    var c := PartsOf(q);
    AddDaysIs(c, -1, Civil(c.year, c.month, 24));
    PrintThenRead(Civil(c.year, c.month, 24));
  }

  lemma DayAfterCycleEnd(e: string)
    requires InYears(e, 1000, 9999) && PartsOf(e).day == PAYROLL_CYCLE_END_DAY
    ensures var c := PartsOf(e); AddDays(c, 1) == Civil(c.year, c.month, 24)
    ensures var s := AddDaysIso(e, 1); IsIsoDate(s) && PartsOf(s) == AddDays(PartsOf(e), 1)
  {
    var c := PartsOf(e);
    AddDaysIs(c, 1, Civil(c.year, c.month, 24));
    PrintThenRead(Civil(c.year, c.month, 24));
  }

  /** What the source calls the next period's start is the 24th between the two periods. */
  lemma NextStartIsTheTwentyFourth(q: string)
    requires IsCycleStart(q)
    ensures var n := NextPayrollPeriodStart(q);
            InYears(n, 1000, 9999) && PartsOf(n).day == 24 && IndexOf(n) == IndexOf(q) + 1
  {
    EndIsTheTwentyThird(q);
    DayAfterCycleEnd(PayrollPeriodEndOf(q));
  }

  // ---- Attendance windows tile the calendar ----

  function CycleWindow(q: string): Window
    requires IsCycleStart(q)
  {
    PayrollAttendanceWindowOf(q, PayrollPeriodEndOf(q))
  }

  predicate InWindow(d: string, w: Window) {
    StrLeq(w.periodStart, d) && StrLeq(d, w.periodEnd)
  }

  /** A date lies in a cycle's attendance window exactly when that cycle is the one of the date: windows cover every date once. */
  lemma AttendanceWindowsTile(d: string, q: string)
    requires IsWorkDate(d) && IsCycleStart(q)
    ensures InWindow(d, CycleWindow(q)) <==> q == PayrollPeriodStartOf(d)
  {
    CycleWindowParts(q);
    WindowParts(d, CycleWindow(q));
    BetweenTwentyFourths(PartsOf(d), PartsOf(CycleWindow(q).periodStart), PartsOf(CycleWindow(q).periodEnd));
    StartIsCycleStart(d);
    SameCycle(q, PayrollPeriodStartOf(d));
  }

  /** Windows are compared as texts; it comes to comparing dates. */
  lemma WindowParts(d: string, w: Window)
    requires IsIsoShape(d) && IsIsoShape(w.periodStart) && IsIsoShape(w.periodEnd)
    ensures InWindow(d, w) <==> !Before(PartsOf(d), PartsOf(w.periodStart)) && !Before(PartsOf(w.periodEnd), PartsOf(d))
  {
    StringOrderIsCalendarOrder(d, w.periodStart);
    StringOrderIsCalendarOrder(w.periodEnd, d);
  }

  lemma CycleWindowParts(q: string)
    requires IsCycleStart(q)
    ensures var w := CycleWindow(q);
            && IsIsoDate(w.periodStart) && PartsOf(w.periodStart).day == 24 && IndexOf(w.periodStart) == IndexOf(q)
            && IsIsoDate(w.periodEnd) && PartsOf(w.periodEnd).day == 23 && IndexOf(w.periodEnd) == IndexOf(q) + 1
  {
    EndIsTheTwentyThird(q);
    DayBeforeCycleStart(q);
  }

  lemma BetweenTwentyFourths(c: Civil, s: Civil, e: Civil)
    requires Valid(c) && Valid(s) && Valid(e) && s.day == 24 && e.day == 23
    requires MonthIndex(e.year, e.month) == MonthIndex(s.year, s.month) + 1
    ensures !Before(c, s) && !Before(e, c)
       <==> MonthIndex(c.year, c.month) - (if c.day > 23 then 0 else 1) == MonthIndex(s.year, s.month)
  {
  }

  lemma SameCycle(p: string, q: string)
    requires IsCycleStart(p) && IsCycleStart(q)
    ensures p == q <==> IndexOf(p) == IndexOf(q)
  {
    if IndexOf(p) == IndexOf(q) {
      SameIndex(PartsOf(p).year, PartsOf(p).month, PartsOf(q).year, PartsOf(q).month);
    }
    StringOrderIsCalendarOrder(p, q);
  }

  /** Pay periods cover exactly the dates that are not a 24th, each in its own cycle. */
  lemma PayPeriodsMissTheTwentyFourths(d: string, q: string)
    requires IsWorkDate(d) && IsCycleStart(q)
    ensures IsDateInPayrollPeriod(d, q) <==> q == PayrollPeriodStartOf(d) && PartsOf(d).day != 24
  {
    StartIsCycleStart(d);
    EndIsTheTwentyThird(q);
    StringOrderIsCalendarOrder(d, q);
    StringOrderIsCalendarOrder(PayrollPeriodEndOf(q), d);
    SameCycle(q, PayrollPeriodStartOf(d));
  }

  function DaysIn(w: Window): int
    requires IsIsoDate(w.periodStart) && IsIsoDate(w.periodEnd)
  {
    DayNumber(PartsOf(w.periodEnd)) - DayNumber(PartsOf(w.periodStart)) + 1
  }

  lemma TwentyFourthToTwentyThird(y: int, m: int, z: int, n: int)
    requires 1 <= m <= 12 && 1 <= n <= 12 && MonthIndex(z, n) == MonthIndex(y, m) + 1
    ensures DayNumber(Civil(z, n, 23)) - DayNumber(Civil(y, m, 24)) + 1 == DaysInMonth(y, m)
  {
    if m == 12 {
      assert z == y + 1 && n == 1;
      YearLength(y);
      MonthsFillYear(y);
    } else {
      assert z == y && n == m + 1;
    }
  }

  /** A window has as many days as the month it starts in; the pay period has one less. */
  lemma WindowLengths(q: string)
    requires IsCycleStart(q)
    ensures IsIsoDate(CycleWindow(q).periodStart) && IsIsoDate(PayrollPeriodEndOf(q))
    ensures DaysIn(CycleWindow(q)) == DaysInMonth(PartsOf(q).year, PartsOf(q).month)
    ensures DaysIn(Window(q, PayrollPeriodEndOf(q))) == DaysInMonth(PartsOf(q).year, PartsOf(q).month) - 1
  {
    EndIsTheTwentyThird(q);
    DayBeforeCycleStart(q);
    var c, e := PartsOf(q), PartsOf(PayrollPeriodEndOf(q));
    TwentyFourthToTwentyThird(c.year, c.month, e.year, e.month);
  }

  /** A 24th opens the window of its own cycle. */
  lemma TwentyFourthOpensItsWindow(n: string)
    requires IsWorkDate(n) && PartsOf(n).day == 24
    ensures IsCycleStart(PayrollPeriodStartOf(n)) && CycleWindow(PayrollPeriodStartOf(n)).periodStart == n
  {
    StartIsCycleStart(n);
    var p := PayrollPeriodStartOf(n);
    SameIndex(PartsOf(p).year, PartsOf(p).month, PartsOf(n).year, PartsOf(n).month);
    DayBeforeCycleStart(p);
    StringOrderIsCalendarOrder(CycleWindow(p).periodStart, n);
  }

  /** The next period's start is the first day of the next cycle's window, right behind this window's last day. */
  lemma WindowsAreContiguous(q: string)
    requires IsCycleStart(q) && IndexOf(q) < LAST_INDEX
    ensures var n := NextPayrollPeriodStart(q);
            && IsWorkDate(n) && IsCycleStart(PayrollPeriodStartOf(n)) && IsIsoDate(CycleWindow(q).periodEnd)
            && CycleWindow(PayrollPeriodStartOf(n)).periodStart == n
            && DayNumber(PartsOf(n)) == DayNumber(PartsOf(CycleWindow(q).periodEnd)) + 1
  {
    EndIsTheTwentyThird(q);
    DayAfterCycleEnd(PayrollPeriodEndOf(q));
    NextStartIsTheTwentyFourth(q);
    TwentyFourthOpensItsWindow(NextPayrollPeriodStart(q));
    assert CycleWindow(q).periodEnd == PayrollPeriodEndOf(q);
  }

  // ---- Monthly-off reporting ----

  /** The reporting window joins two consecutive periods with one 24th between them. */
  lemma ReportingJoinsConsecutivePeriods(d: string)
    requires CanReport(d)
    ensures var r := MonthlyOffReportingWindow(d); var a, b := r.currentPeriod, r.nextPeriod;
            && IsCycleStart(a.periodStart) && IsCycleStart(b.periodStart) && IsIsoDate(a.periodEnd) && IsIsoDate(b.periodEnd)
            && IndexOf(b.periodStart) == IndexOf(a.periodStart) + 1
            && r.validStart == a.periodStart && r.validEnd == b.periodEnd
            && DayNumber(PartsOf(b.periodStart)) == DayNumber(PartsOf(a.periodEnd)) + 2
            && AddDays(PartsOf(a.periodEnd), 1).day == 24
  {
    var a := PayrollPeriodWindowOf(d);
    StartIsCycleStart(d);
    NextStartIsTheTwentyFourth(a.periodStart);
    var n := NextPayrollPeriodStart(a.periodStart);
    StartIsCycleStart(n);
    var b := PayrollPeriodStartOf(n);
    EndIsTheTwentyThird(a.periodStart);
    EndIsTheTwentyThird(b);
    DayAfterCycleEnd(a.periodEnd);
    var e, f := PartsOf(a.periodEnd), PartsOf(b);
    SameIndex(e.year, e.month, f.year, f.month);
  }

  /** The window holds the as-of date unless that is a 24th, and then it is the day before the window. */
  lemma ReportingHoldsAsOfDate(d: string)
    requires CanReport(d)
    ensures var r := MonthlyOffReportingWindow(d);
            && IsIsoDate(r.validStart)
            && (InWindow(d, Window(r.validStart, r.validEnd)) <==> PartsOf(d).day != 24)
            && (PartsOf(d).day == 24 ==> DayNumber(PartsOf(d)) == DayNumber(PartsOf(r.validStart)) - 1)
  {
    var r := MonthlyOffReportingWindow(d);
    ReportingJoinsConsecutivePeriods(d);
    StartIsCycleStart(d);
    EndIsTheTwentyThird(r.nextPeriod.periodStart);
    WindowParts(d, Window(r.validStart, r.validEnd));
    TwoCycles(PartsOf(d), PartsOf(r.validStart), PartsOf(r.validEnd));
  }

  /** A date of the first of two cycles lies between the 25th and the 23rd around them unless it is a 24th. */
  lemma TwoCycles(c: Civil, s: Civil, e: Civil)
    requires Valid(c) && Valid(s) && Valid(e) && s.day == 25 && e.day == 23
    requires MonthIndex(c.year, c.month) - (if c.day > 23 then 0 else 1) == MonthIndex(s.year, s.month)
    requires MonthIndex(e.year, e.month) == MonthIndex(s.year, s.month) + 2
    ensures !Before(c, s) && !Before(e, c) <==> c.day != 24
    ensures c.day == 24 ==> DayNumber(c) == DayNumber(s) - 1
  {
    if c.day == 24 {
      SameIndex(c.year, c.month, s.year, s.month);
    }
  }
}
