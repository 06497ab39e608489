/**
 The calendar against its closed form: the number of a day counted from a year that begins in March, so that the
 leap day comes last, and the date of a day number by the inverse arithmetic. Neither knows the months' lengths.
 */
module CivilDays {
  import opened Calendar

  /** Whole days up to the start of the March-based year z. */
  function DaysBeforeYear(z: int): int {
    365 * z + z / 4 - z / 100 + z / 400
  }

  /** The day number of a year, month and day by arithmetic alone. */
  function DayNumberOf(y: int, m: int, d: int): int {
    var z, n := if m <= 2 then y - 1 else y, (m + 9) % 12;
    DaysBeforeYear(z) + (153 * n + 2) / 5 + d - 719469
  }

  lemma ShiftedQuotients(z: int)
    ensures (z - 1968) / 4 == z / 4 - 492 && (z - 1900) / 100 == z / 100 - 19 && (z - 1600) / 400 == z / 400 - 4
  {
    assert z - 1968 == 4 * (z / 4 - 492) + z % 4;
    assert z - 1900 == 100 * (z / 100 - 19) + z % 100;
    assert z - 1600 == 400 * (z / 400 - 4) + z % 400;
  }

  /** January and February belong to the March-based year before. */
  lemma YearStarts(y: int)
    ensures DayFromYear(y) == DaysBeforeYear(y - 1) - 719162
    ensures DayFromYear(y) + (if IsLeap(y) then 1 else 0) == DaysBeforeYear(y) - 719527
  {
    ShiftedQuotients(y - 1);
    YearLength(y);
    ShiftedQuotients(y);
  }

  lemma MonthStarts(y: int, m: int)
    requires 1 <= m <= 12
    ensures m <= 2 ==> DaysBeforeMonth(y, m) == 31 * (m - 1)
    ensures m > 2 ==> DaysBeforeMonth(y, m) == 59 + (if IsLeap(y) then 1 else 0) + (153 * (m - 3) + 2) / 5
  {
    MonthsFillYear(y);
  }

  /** The day number of every date is given by the closed form. */
  lemma ClosedForm(c: Civil)
    requires Valid(c)
    ensures var z, n := if c.month <= 2 then c.year - 1 else c.year, (c.month + 9) % 12;
            DayNumber(c) == 365 * z + z / 4 - z / 100 + z / 400 + (153 * n + 2) / 5 + c.day - 719469
    ensures DayNumber(c) == DayNumberOf(c.year, c.month, c.day)
  {
    YearStarts(c.year);
    MonthStarts(c.year, c.month);
  }

  /** A month is as long as the closed form says from its first day to the first of the next. */
  lemma MonthLength(y: int, m: int)
    requires 1 <= m <= 12
    ensures DaysInMonth(y, m) == (if m == 12 then DayNumberOf(y + 1, 1, 1) else DayNumberOf(y, m + 1, 1)) - DayNumberOf(y, m, 1)
  {
    ClosedForm(Civil(y, m, 1));
    if m == 12 {
      ClosedForm(Civil(y + 1, 1, 1));
      YearLength(y);
      MonthsFillYear(y);
    } else {
      ClosedForm(Civil(y, m + 1, 1));
    }
  }

  // ---- The inverse ----

  /** The date of a day number by arithmetic alone: 400-year eras of 146097 days, and years within the era. */
  function CivilOf(n: int): Civil {
    DayOfEraIn((n + 719468) / 146097, (n + 719468) % 146097)
  }

  function DayOfEraIn(era: int, doe: int): Civil {
    var yoe := YearOfEra(doe);
    DateInYear(400 * era + yoe, doe - DaysBeforeYear(yoe))
  }

  /** The date of a day of the March-based year z. */
  function DateInYear(z: int, doy: int): Civil {
    var mp := (5 * doy + 2) / 153;
    var m := if mp < 10 then mp + 3 else mp - 9;
    Civil(if m <= 2 then z + 1 else z, m, doy - (153 * mp + 2) / 5 + 1)
  }

  function YearOfEra(doe: int): int {
    (doe - doe / 1460 + doe / 36524 - doe / 146096) / 365
  }

  /** The quotients of a day of the era, with the year written as 100 * a + 4 * q + s. */
  lemma EraQuotients(a: int, q: int, s: int, doy: int)
    requires 0 <= a < 4 && 0 <= q < 25 && 0 <= s < 4 && 0 <= doy <= (if s == 3 && (q < 24 || a == 3) then 365 else 364)
    ensures var doe := 36524 * a + 1461 * q + 365 * s + doy;
            0 <= doe < 146097 && YearOfEra(doe) == 100 * a + 4 * q + s
  {
    var t := 365 * s + doy;
    var doe := 36524 * a + 1461 * q + t;
    if q == 24 && t == 1460 {
      assert a == 3 && doe == 146096;
    } else {
      assert 1461 * q + t < 36524;
      assert doe / 36524 == a && doe / 146096 == 0;
      var d := if 24 * a + q + t >= 1460 then 1 else 0;
      assert doe == 1460 * (25 * a + q + d) + (24 * a + q + t - 1460 * d);
      assert doe / 1460 == 25 * a + q + d;
      assert doe - doe / 1460 + doe / 36524 == 365 * (100 * a + 4 * q + s) + (doy - d);
    }
  }

  /** The month and day of a day of the March-based year. */
  lemma MonthOfYear(n: int, d: int)
    requires 0 <= n < 12 && 1 <= d <= (if n == 11 then 29 else if n == 1 || n == 3 || n == 6 || n == 8 then 30 else 31)
    ensures var doy := (153 * n + 2) / 5 + d - 1; (5 * doy + 2) / 153 == n && 0 <= doy <= 365 && (doy == 365 <==> n == 11 && d == 29)
  {
  }

  lemma EraOfYear(z: int)
    ensures var e, y := z / 400, z % 400;
            DaysBeforeYear(z) == 146097 * e + DaysBeforeYear(y)
            && DaysBeforeYear(y) == 36524 * (y / 100) + 1461 * (y % 100 / 4) + 365 * (y % 4)
            && y == 100 * (y / 100) + 4 * (y % 100 / 4) + y % 4
  {
    var e, y := z / 400, z % 400;
    assert z == 400 * e + y;
    assert z / 4 == 100 * e + y / 4 && z / 100 == 4 * e + y / 100;
    var a, r := y / 100, y % 100;
    assert y == 100 * a + r;
    assert y / 4 == 25 * a + r / 4 && y % 4 == r % 4 && r == 4 * (r / 4) + r % 4;
  }

  lemma CivilOfInEra(day: int, era: int, doe: int)
    requires 0 <= doe < 146097 && day == 146097 * era + doe - 719468
    ensures CivilOf(day) == DayOfEraIn(era, doe)
  {
    EraSplits(era, doe);
    assert day + 719468 == 146097 * era + doe;
  }

  /** The March-based year of a date, and its day there. */
  function YearOf(c: Civil): int {
    if c.month <= 2 then c.year - 1 else c.year
  }

  function DayOfYear(c: Civil): int {
    (153 * ((c.month + 9) % 12) + 2) / 5 + c.day - 1
  }

  lemma DateInYearInverts(c: Civil)
    requires Valid(c)
    ensures DateInYear(YearOf(c), DayOfYear(c)) == c && 0 <= DayOfYear(c) <= 365
    ensures DayOfYear(c) == 365 ==> c.month == 2 && c.day == 29
  {
    MonthOfYear((c.month + 9) % 12, c.day);
  }

  lemma DayNumberInEra(c: Civil)
    ensures DayNumberOf(c.year, c.month, c.day)
         == 146097 * (YearOf(c) / 400) + (DaysBeforeYear(YearOf(c) % 400) + DayOfYear(c)) - 719468
  {
    EraOfYear(YearOf(c));
  }

  lemma DayOfEra(c: Civil)
    requires Valid(c)
    ensures var y := YearOf(c) % 400; var doe := DaysBeforeYear(y) + DayOfYear(c); 0 <= doe < 146097 && YearOfEra(doe) == y
  {
    var y := YearOf(c) % 400;
    DateInYearInverts(c);
    if DayOfYear(c) == 365 { LongYears(c, YearOf(c)); }
    EraOfYear(YearOf(c));
    EraQuotients(y / 100, y % 100 / 4, y % 4, DayOfYear(c));
  }

  /** The inverse gives every date back. */
  lemma InverseOfDayNumber(c: Civil)
    requires Valid(c)
    ensures CivilOf(DayNumberOf(c.year, c.month, c.day)) == c
  {
    var e, y := YearOf(c) / 400, YearOf(c) % 400;
    DayNumberInEra(c);
    DayOfEra(c);
    CivilOfInEra(DayNumberOf(c.year, c.month, c.day), e, DaysBeforeYear(y) + DayOfYear(c));
    DateInEra(c, e, y);
  }

  lemma DateInEra(c: Civil, e: int, y: int)
    requires Valid(c) && YearOf(c) == 400 * e + y && y == YearOf(c) % 400
    ensures DayOfEraIn(e, DaysBeforeYear(y) + DayOfYear(c)) == c
  {
    DayOfEra(c);
    DateInYearInverts(c);
  }

  lemma EraSplits(e: int, doe: int)
    requires 0 <= doe < 146097
    ensures (146097 * e + doe) / 146097 == e && (146097 * e + doe) % 146097 == doe
  {
  }

  /** A 29 February ends a March-based year of 366 days. */
  lemma LongYears(c: Civil, z: int)
    requires Valid(c) && z == (if c.month <= 2 then c.year - 1 else c.year) && c.month == 2 && c.day == 29
    ensures var y := z % 400; y % 4 == 3 && (y % 100 / 4 < 24 || y / 100 == 3)
  {
    var e, y := z / 400, z % 400;
    assert c.year == z + 1 == 400 * e + (y + 1);
    RemaindersIn(e, y + 1);
    LeapInEra(y);
  }

  lemma RemaindersIn(e: int, x: int)
    ensures (400 * e + x) % 4 == x % 4 && (400 * e + x) % 100 == x % 100 && (400 * e + x) % 400 == x % 400
  {
    MultipleOfFour(100 * e, x);
    MultipleOfHundred(4 * e, x);
    MultipleOfFourHundred(e, x);
  }

  lemma MultipleOfFour(k: int, x: int)
    ensures (4 * k + x) % 4 == x % 4
  {
  }

  lemma MultipleOfHundred(k: int, x: int)
    ensures (100 * k + x) % 100 == x % 100
  {
  }

  lemma MultipleOfFourHundred(k: int, x: int)
    ensures (400 * k + x) % 400 == x % 400
  {
  }

  lemma LeapInEra(y: int)
    requires 0 <= y < 400 && IsLeap(y + 1)
    ensures y % 4 == 3 && (y % 100 / 4 < 24 || y / 100 == 3)
  {
    var a, r := y / 100, y % 100;
    assert y == 100 * a + r;
    if r == 99 { assert y + 1 == 100 * (a + 1); }
  }

  /** A year, month and day are a date of the calendar exactly when the arithmetic gives them back. */
  lemma ValidExactly(c: Civil)
    ensures Valid(c) <==> CivilOf(DayNumberOf(c.year, c.month, c.day)) == c
  {
    if Valid(c) {
      InverseOfDayNumber(c);
    } else {
      CivilOfIsFromDays(DayNumberOf(c.year, c.month, c.day));
    }
  }

  /** Both ways from a day number to its date agree. */
  lemma CivilOfIsFromDays(n: int)
    ensures CivilOf(n) == FromDays(n)
  {
    var c := FromDays(n);
    ClosedForm(c);
    InverseOfDayNumber(c);
  }
}
