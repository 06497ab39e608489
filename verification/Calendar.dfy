/**
 Proleptic Gregorian dates and their day numbers, counted from 1 January 1970 as in
 ECMA-262 section 21.4.1 (DayFromYear, DaysInYear, MakeDay).
 */
module Calendar {

  datatype Civil = Civil(year: int, month: int, day: int)

  predicate IsLeap(y: int) {
    y % 4 == 0 && (y % 100 != 0 || y % 400 == 0)
  }

  function DaysInMonth(y: int, m: int): (n: nat)
    requires 1 <= m <= 12
    ensures 28 <= n <= 31
  {
    if m == 2 then if IsLeap(y) then 29 else 28
    else if m == 4 || m == 6 || m == 9 || m == 11 then 30
    else 31
  }

  predicate Valid(c: Civil) {
    1 <= c.month <= 12 && 1 <= c.day <= DaysInMonth(c.year, c.month)
  }

  function DayFromYear(y: int): int {
    365 * (y - 1970) + (y - 1969) / 4 - (y - 1901) / 100 + (y - 1601) / 400
  }

  function DaysBeforeMonth(y: int, m: int): nat
    requires 1 <= m <= 12
  {
    if m == 1 then 0 else DaysBeforeMonth(y, m - 1) + DaysInMonth(y, m - 1)
  }

  /** The day number of a date. */
  function DayNumber(c: Civil): int
    requires Valid(c)
  {
    DayFromYear(c.year) + DaysBeforeMonth(c.year, c.month) + c.day - 1
  }

  lemma QuotientSteps(x: int)
    ensures x / 4 == (x - 1) / 4 + (if x % 4 == 0 then 1 else 0)
    ensures x / 100 == (x - 1) / 100 + (if x % 100 == 0 then 1 else 0)
    ensures x / 400 == (x - 1) / 400 + (if x % 400 == 0 then 1 else 0)
  {
  }

  lemma Remainders(y: int)
    ensures (y - 1968) % 4 == 0 <==> y % 4 == 0
    ensures (y - 1900) % 100 == 0 <==> y % 100 == 0
    ensures (y - 1600) % 400 == 0 <==> y % 400 == 0
  {
    assert y - 1968 == 4 * (y / 4 - 492) + y % 4;
    assert y - 1900 == 100 * (y / 100 - 19) + y % 100;
    assert y - 1600 == 400 * (y / 400 - 4) + y % 400;
  }

  lemma Divisibility(y: int)
    ensures y % 400 == 0 ==> y % 100 == 0
    ensures y % 100 == 0 ==> y % 4 == 0
  {
    if y % 100 == 0 { assert y == 4 * (25 * (y / 100)); }
    if y % 400 == 0 { assert y == 100 * (4 * (y / 400)); }
  }

  lemma YearLength(y: int)
    ensures DayFromYear(y + 1) == DayFromYear(y) + (if IsLeap(y) then 366 else 365)
  {
    var a, b, c := (y - 1968) / 4, (y - 1900) / 100, (y - 1600) / 400;
    var p, q, r := (y - 1969) / 4, (y - 1901) / 100, (y - 1601) / 400;
    assert a == p + (if y % 4 == 0 then 1 else 0) by { QuotientSteps(y - 1968); Remainders(y); }
    assert b == q + (if y % 100 == 0 then 1 else 0) by { QuotientSteps(y - 1900); Remainders(y); }
    assert c == r + (if y % 400 == 0 then 1 else 0) by { QuotientSteps(y - 1600); Remainders(y); }
    Divisibility(y);
    assert DayFromYear(y + 1) == 365 * (y + 1 - 1970) + a - b + c;
    assert DayFromYear(y) == 365 * (y - 1970) + p - q + r;
  }

  lemma MonthsFillYear(y: int)
    ensures DaysBeforeMonth(y, 12) + 31 == if IsLeap(y) then 366 else 365
  {
    var leapDay := if IsLeap(y) then 1 else 0;
    assert DaysBeforeMonth(y, 2) == 31;
    assert DaysBeforeMonth(y, 3) == 59 + leapDay;
    assert DaysBeforeMonth(y, 4) == 90 + leapDay;
    assert DaysBeforeMonth(y, 5) == 120 + leapDay;
    assert DaysBeforeMonth(y, 6) == 151 + leapDay;
    assert DaysBeforeMonth(y, 7) == 181 + leapDay;
    assert DaysBeforeMonth(y, 8) == 212 + leapDay;
    assert DaysBeforeMonth(y, 9) == 243 + leapDay;
    assert DaysBeforeMonth(y, 10) == 273 + leapDay;
    assert DaysBeforeMonth(y, 11) == 304 + leapDay;
  }

  /** The day after. */
  function Next(c: Civil): (n: Civil)
    requires Valid(c)
    ensures Valid(n) && DayNumber(n) == DayNumber(c) + 1
  {
    YearLength(c.year);
    MonthsFillYear(c.year);
    if c.day < DaysInMonth(c.year, c.month) then Civil(c.year, c.month, c.day + 1)
    else if c.month < 12 then Civil(c.year, c.month + 1, 1)
    else Civil(c.year + 1, 1, 1)
  }

  /** The day before. */
  function Prev(c: Civil): (p: Civil)
    requires Valid(c)
    ensures Valid(p) && DayNumber(p) == DayNumber(c) - 1
  {
    YearLength(c.year - 1);
    MonthsFillYear(c.year - 1);
    if c.day > 1 then Civil(c.year, c.month, c.day - 1)
    else if c.month > 1 then Civil(c.year, c.month - 1, DaysInMonth(c.year, c.month - 1))
    else Civil(c.year - 1, 12, 31)
  }

  /** The date with a given day number, reached day by day from 1 January 1970. */
  function FromDays(n: int): (c: Civil)
    ensures Valid(c) && DayNumber(c) == n
    decreases if n < 0 then -n else n
  {
    if n == 0 then Civil(1970, 1, 1)
    else if n > 0 then Next(FromDays(n - 1))
    else Prev(FromDays(n + 1))
  }

  predicate Before(a: Civil, b: Civil) {
    a.year < b.year || (a.year == b.year && (a.month < b.month || (a.month == b.month && a.day < b.day)))
  }

  lemma {:induction false} YearsGrow(y: int, z: int)
    requires y <= z
    ensures DayFromYear(z) >= DayFromYear(y) + 365 * (z - y)
    decreases z - y
  {
    if y < z {
      YearLength(z - 1);
      YearsGrow(y, z - 1);
    }
  }

  lemma {:induction false} MonthsGrow(y: int, m: int, n: int)
    requires 1 <= m < n <= 12
    ensures DaysBeforeMonth(y, m) + DaysInMonth(y, m) <= DaysBeforeMonth(y, n)
    decreases n
  {
    if m < n - 1 {
      MonthsGrow(y, m, n - 1);
    }
  }

  lemma DayFitsYear(c: Civil)
    requires Valid(c)
    ensures DayFromYear(c.year) <= DayNumber(c) < DayFromYear(c.year + 1)
  {
    YearLength(c.year);
    MonthsFillYear(c.year);
    if c.month < 12 { MonthsGrow(c.year, c.month, 12); }
  }

  lemma EarlierIsSmaller(a: Civil, b: Civil)
    requires Valid(a) && Valid(b) && Before(a, b)
    ensures DayNumber(a) < DayNumber(b)
  {
    if a.year < b.year {
      DayFitsYear(a);
      DayFitsYear(b);
      YearsGrow(a.year + 1, b.year);
    } else if a.month < b.month {
      MonthsGrow(a.year, a.month, b.month);
    }
  }

  /** Calendar order is the order of day numbers, and a day number names one date. */
  lemma OrderIsDayNumber(a: Civil, b: Civil)
    requires Valid(a) && Valid(b)
    ensures Before(a, b) <==> DayNumber(a) < DayNumber(b)
    ensures a == b <==> DayNumber(a) == DayNumber(b)
  {
    if Before(a, b) {
      EarlierIsSmaller(a, b);
    } else if a != b {
      EarlierIsSmaller(b, a);
    }
  }

  /** setUTCDate(getUTCDate() + n). */
  function AddDays(c: Civil, n: int): (r: Civil)
    requires Valid(c)
    ensures Valid(r) && DayNumber(r) == DayNumber(c) + n
  {
    FromDays(DayNumber(c) + n)
  }

  /** A date is the only one with its day number, so shifts inside a month change the day alone. */
  lemma AddDaysIs(c: Civil, n: int, r: Civil)
    requires Valid(c) && Valid(r) && DayNumber(r) == DayNumber(c) + n
    ensures AddDays(c, n) == r
  {
    OrderIsDayNumber(AddDays(c, n), r);
  }

  lemma FromDaysIsInverse(c: Civil)
    requires Valid(c)
    ensures FromDays(DayNumber(c)) == c
  {
    OrderIsDayNumber(FromDays(DayNumber(c)), c);
  }
}
