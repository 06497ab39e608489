/**
 Dates as YYYY-MM-DD text (RFC 3339 section 5.6, full-date): printing, reading, and string
 order against calendar order.
 */
module IsoDates {
  import opened JsText
  import opened Calendar

  /** a < b on strings: the first position where they differ decides. */
  predicate LessFrom(a: string, b: string, i: nat)
    requires i <= |a| && i <= |b|
    decreases |a| - i
  {
    if i == |b| then false
    else if i == |a| then true
    else if a[i] != b[i] then a[i] < b[i]
    else LessFrom(a, b, i + 1)
  }

  predicate StrLess(a: string, b: string) {
    LessFrom(a, b, 0)
  }

  predicate StrLeq(a: string, b: string) {
    !StrLess(b, a)
  }

  /** String(n).padStart(2, '0') */
  function Pad2(n: nat): string {
    if n < 10 then "0" + Digits(n) else Digits(n)
  }

  /** `${year}-${month}-${day}` with padded month and day; the year is printed as it is. */
  function IsoText(c: Civil): string
    requires c.year >= 0 && c.month >= 0 && c.day >= 0
  {
    Digits(c.year) + "-" + Pad2(c.month) + "-" + Pad2(c.day)
  }

  predicate IsDigitAt(k: nat) {
    k != 4 && k != 7
  }

  /** /^\d{4}-\d{2}-\d{2}$/ */
  predicate IsIsoShape(s: string) {
    |s| == 10 && s[4] == '-' && s[7] == '-' && forall k :: 0 <= k < 10 && IsDigitAt(k) ==> IsDigit(s[k])
  }

  /** The three numbers of the text. */
  function PartsOf(s: string): (c: Civil)
    requires IsIsoShape(s)
    ensures 0 <= c.year <= 9999 && 0 <= c.month <= 99 && 0 <= c.day <= 99
  {
    assert AllIn(s[..4], IsDigit) && AllIn(s[5..7], IsDigit) && AllIn(s[8..10], IsDigit);
    FourDigits(s[..4]);
    TwoDigits(s[5..7]);
    TwoDigits(s[8..10]);
    Civil(WholeValue(s[..4]), WholeValue(s[5..7]), WholeValue(s[8..10]))
  }

  lemma TwoDigits(s: string)
    requires |s| == 2 && AllIn(s, IsDigit)
    ensures WholeValue(s) == 10 * DigitValue(s[0]) + DigitValue(s[1])
  {
    assert s[..1][..0] == [] && s[..1][0] == s[0];
    assert WholeValue(s[..1]) == DigitValue(s[0]);
  }

  lemma FourDigits(s: string)
    requires |s| == 4 && AllIn(s, IsDigit)
    ensures WholeValue(s) == 1000 * DigitValue(s[0]) + 100 * DigitValue(s[1]) + 10 * DigitValue(s[2]) + DigitValue(s[3])
  {
    TwoDigits(s[..2]);
    assert s[..3][..2] == s[..2];
    assert WholeValue(s[..3]) == 10 * WholeValue(s[..2]) + DigitValue(s[2]);
  }

  /** The text is a date of the calendar. */
  predicate IsIsoDate(s: string) {
    IsIsoShape(s) && Valid(PartsOf(s))
  }

  // ---- Round trips ----

  lemma Pad2IsTwoDigits(n: nat)
    requires n < 100
    ensures |Pad2(n)| == 2 && AllIn(Pad2(n), IsDigit) && WholeValue(Pad2(n)) == n
  {
    if n < 10 {
      assert Pad2(n) == ['0', DigitChar(n)];
    } else {
      assert Digits(n / 10) == [DigitChar(n / 10)];
      assert Pad2(n) == [DigitChar(n / 10), DigitChar(n % 10)];
    }
    TwoDigits(Pad2(n));
  }

  lemma DigitsOfYear(y: nat)
    requires 1000 <= y <= 9999
    ensures |Digits(y)| == 4 && AllIn(Digits(y), IsDigit) && WholeValue(Digits(y)) == y
  {
    DigitsSpellTheNumber(y);
    assert |Digits(y / 1000)| == 1;
    assert |Digits(y / 100)| == 2;
    assert |Digits(y / 10)| == 3;
  }

  /** Reading back a printed date gives the date. */
  lemma PrintThenRead(c: Civil)
    requires 1000 <= c.year <= 9999 && 0 <= c.month < 100 && 0 <= c.day < 100
    ensures IsIsoShape(IsoText(c)) && PartsOf(IsoText(c)) == c
  {
    var s := IsoText(c);
    DigitsOfYear(c.year);
    Pad2IsTwoDigits(c.month);
    Pad2IsTwoDigits(c.day);
    assert s[..4] == Digits(c.year) && s[5..7] == Pad2(c.month) && s[8..10] == Pad2(c.day);
    forall k | 0 <= k < 10 && IsDigitAt(k) ensures IsDigit(s[k]) {
      if k < 4 { assert s[k] == Digits(c.year)[k]; }
      else if k < 7 { assert s[k] == Pad2(c.month)[k - 5]; }
      else { assert s[k] == Pad2(c.day)[k - 8]; }
    }
  }

  lemma SameLastDigit(p: nat, d: nat, q: nat, e: nat)
    requires 10 * p + d == 10 * q + e && d < 10 && e < 10
    ensures p == q && d == e
  {
    assert p <= q && q <= p;
  }

  /** Two digit strings of one length and one value are the same text. */
  lemma {:induction false} SameDigits(a: string, b: string)
    requires |a| == |b| && AllIn(a, IsDigit) && AllIn(b, IsDigit) && WholeValue(a) == WholeValue(b)
    ensures a == b
  {
    if a != [] {
      var n := |a| - 1;
      SameLastDigit(WholeValue(a[..n]), DigitValue(a[n]), WholeValue(b[..n]), DigitValue(b[n]));
      SameDigits(a[..n], b[..n]);
      assert a == a[..n] + [a[n]] && b == b[..n] + [b[n]];
    }
  }

  /** Printing a date that was read gives its text back, from the year 1000 on. */
  lemma ReadThenPrint(s: string)
    requires IsIsoShape(s) && PartsOf(s).year >= 1000
    ensures IsoText(PartsOf(s)) == s
  {
    var c := PartsOf(s);
    DigitsOfYear(c.year);
    Pad2IsTwoDigits(c.month);
    Pad2IsTwoDigits(c.day);
    SameDigits(Digits(c.year), s[..4]);
    SameDigits(Pad2(c.month), s[5..7]);
    SameDigits(Pad2(c.day), s[8..10]);
    assert s == s[..4] + [s[4]] + s[5..7] + [s[7]] + s[8..10];
  }

  /** toISOString().slice(0, 10): the year is padded to four digits. */
  function IsoSlice(c: Civil): string
    requires 0 <= c.year <= 9999 && c.month >= 0 && c.day >= 0
  {
    Pad2(c.year / 100) + Pad2(c.year % 100) + "-" + Pad2(c.month) + "-" + Pad2(c.day)
  }

  /** Reading back a padded date gives the date. */
  lemma SliceThenRead(c: Civil)
    requires 0 <= c.year <= 9999 && 0 <= c.month < 100 && 0 <= c.day < 100
    ensures IsIsoShape(IsoSlice(c)) && PartsOf(IsoSlice(c)) == c
  {
    var s, h, u, m, d := IsoSlice(c), Pad2(c.year / 100), Pad2(c.year % 100), Pad2(c.month), Pad2(c.day);
    Pad2IsTwoDigits(c.year / 100);
    Pad2IsTwoDigits(c.year % 100);
    Pad2IsTwoDigits(c.month);
    Pad2IsTwoDigits(c.day);
    PartsJoin(h, u, m, d);
    TwoDigits(h);
    TwoDigits(u);
    FourDigits(h + u);
  }

  lemma PartsJoin(h: string, u: string, m: string, d: string)
    requires |h| == |u| == |m| == |d| == 2 && AllIn(h, IsDigit) && AllIn(u, IsDigit) && AllIn(m, IsDigit) && AllIn(d, IsDigit)
    ensures var s := h + u + "-" + m + "-" + d;
            IsIsoShape(s) && s[..4] == h + u && s[5..7] == m && s[8..10] == d && AllIn(h + u, IsDigit)
  {
    var s := h + u + "-" + m + "-" + d;
    assert s[..4] == h + u && s[5..7] == m && s[8..10] == d;
    assert s[0] == h[0] && s[1] == h[1] && s[2] == u[0] && s[3] == u[1] && s[5] == m[0] && s[6] == m[1] && s[8] == d[0] && s[9] == d[1];
  }

  /** Both ways of printing agree on four-digit years. */
  lemma IsoSliceIsIsoText(c: Civil)
    requires 1000 <= c.year <= 9999 && 0 <= c.month < 100 && 0 <= c.day < 100
    ensures IsoSlice(c) == IsoText(c)
  {
    var y := Pad2(c.year / 100) + Pad2(c.year % 100);
    Pad2IsTwoDigits(c.year / 100);
    Pad2IsTwoDigits(c.year % 100);
    DigitsOfYear(c.year);
    TwoDigits(Pad2(c.year / 100));
    TwoDigits(Pad2(c.year % 100));
    assert AllIn(y, IsDigit);
    FourDigits(y);
    SameDigits(y, Digits(c.year));
  }

  // ---- Order ----

  /** Month and day of a date text as one number. */
  function MonthDay(s: string): nat
    requires IsIsoShape(s)
  {
    100 * PartsOf(s).month + PartsOf(s).day
  }

  lemma DayOrder(s: string, t: string)
    requires IsIsoShape(s) && IsIsoShape(t)
    ensures LessFrom(s, t, 8) <==> PartsOf(s).day < PartsOf(t).day
  {
    TwoDigits(s[8..10]);
    TwoDigits(t[8..10]);
    assert LessFrom(s, t, 9) <==> DigitValue(s[9]) < DigitValue(t[9]);
  }

  lemma MonthOrder(s: string, t: string)
    requires IsIsoShape(s) && IsIsoShape(t)
    ensures LessFrom(s, t, 5) <==> MonthDay(s) < MonthDay(t)
  {
    TwoDigits(s[5..7]);
    TwoDigits(t[5..7]);
    DayOrder(s, t);
    assert LessFrom(s, t, 7) == LessFrom(s, t, 8);
    assert LessFrom(s, t, 6) <==> s[6] < t[6] || (s[6] == t[6] && LessFrom(s, t, 7));
  }

  lemma YearOrder(s: string, t: string)
    requires IsIsoShape(s) && IsIsoShape(t)
    ensures StrLess(s, t) <==> PartsOf(s).year < PartsOf(t).year || (PartsOf(s).year == PartsOf(t).year && MonthDay(s) < MonthDay(t))
  {
    FourDigits(s[..4]);
    FourDigits(t[..4]);
    MonthOrder(s, t);
    assert LessFrom(s, t, 4) == LessFrom(s, t, 5);
    assert LessFrom(s, t, 3) <==> s[3] < t[3] || (s[3] == t[3] && LessFrom(s, t, 4));
    assert LessFrom(s, t, 2) <==> s[2] < t[2] || (s[2] == t[2] && LessFrom(s, t, 3));
    assert LessFrom(s, t, 1) <==> s[1] < t[1] || (s[1] == t[1] && LessFrom(s, t, 2));
    assert LessFrom(s, t, 0) <==> s[0] < t[0] || (s[0] == t[0] && LessFrom(s, t, 1));
  }

  /** Comparing date texts as strings is comparing the dates. */
  lemma StringOrderIsCalendarOrder(s: string, t: string)
    requires IsIsoShape(s) && IsIsoShape(t)
    ensures StrLess(s, t) <==> Before(PartsOf(s), PartsOf(t))
    ensures s == t <==> PartsOf(s) == PartsOf(t)
  {
    YearOrder(s, t);
    if PartsOf(s) == PartsOf(t) {
      SameDigits(s[..4], t[..4]);
      SameDigits(s[5..7], t[5..7]);
      SameDigits(s[8..10], t[8..10]);
      assert s == s[..4] + [s[4]] + s[5..7] + [s[7]] + s[8..10];
      assert t == t[..4] + [t[4]] + t[5..7] + [t[7]] + t[8..10];
    }
  }

  /** ... and the number of days between them has the same sign. */
  lemma StringOrderIsDayOrder(s: string, t: string)
    requires IsIsoDate(s) && IsIsoDate(t)
    ensures StrLess(s, t) <==> DayNumber(PartsOf(s)) < DayNumber(PartsOf(t))
    ensures s == t <==> DayNumber(PartsOf(s)) == DayNumber(PartsOf(t))
  {
    StringOrderIsCalendarOrder(s, t);
    OrderIsDayNumber(PartsOf(s), PartsOf(t));
  }
}
