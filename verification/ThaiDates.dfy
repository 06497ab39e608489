/** Typed Thai dates: single dates, day ranges, full ranges and comma lists. The current year is a parameter. */
module ThaiDates {
  import opened Outcomes
  import opened JsText
  import opened Calendar
  import opened IsoDates

  /** daysInMonth of the source, where Date.UTC reads the years 0 to 99 as 1900 to 1999. */
  function DaysInMonthUtc(year: nat, month: int): nat
    requires 1 <= month <= 12
  {
    DaysInMonth(if year <= 99 then 1900 + year else year, month)
  }

  predicate IsSeparator(c: char) {
    c == '/' || c == '.' || c == '-'
  }

  /** A run of digits of admissible length at the start: its value and what follows. */
  function MatchNumber(s: string, least: nat, most: nat): (r: Option<(nat, string)>)
    ensures r.Some? && least > 0 ==> |r.value.1| < |s|
  {
    var n := SpanEnd(s, 0, IsDigit);
    if least <= n <= most then Some((WholeValue(s[..n]), s[n..])) else None
  }

  function MatchSeparator(s: string): (r: Option<string>)
    ensures r.Some? ==> |r.value| < |s|
  {
    if s != [] && IsSeparator(s[0]) then Some(s[1..]) else None
  }

  datatype Typed = Typed(day: nat, month: nat, year: nat)

  /** (\d{1,2})[/.-](\d{1,2})[/.-](\d{4}) at the start, and what follows. */
  function MatchDmyPrefix(s: string): (r: Option<(Typed, string)>)
    ensures r.Some? ==> |r.value.1| < |s|
  {
    match MatchNumber(s, 1, 2)
    case None => None
    case Some((day, s1)) =>
      match MatchSeparator(s1)
      case None => None
      case Some(s2) =>
        match MatchNumber(s2, 1, 2)
        case None => None
        case Some((month, s3)) =>
          match MatchSeparator(s3)
          case None => None
          case Some(s4) =>
            match MatchNumber(s4, 4, 4)
            case None => None
            case Some((year, rest)) => Some((Typed(day, month, year), rest))
  }

  /** ^(\d{1,2})[/.-](\d{1,2})[/.-](\d{4})$ */
  function MatchDmy(s: string): Option<Typed> {
    match MatchDmyPrefix(s)
    case None => None
    case Some((t, rest)) => if rest == [] then Some(t) else None
  }

  datatype DayRange = DayRange(startDay: nat, end: Typed)

  /** ^(\d{1,2})-(\d{1,2})[/.-](\d{1,2})[/.-](\d{4})$ */
  function MatchDayRange(s: string): Option<DayRange> {
    match MatchNumber(s, 1, 2)
    case None => None
    case Some((day, rest)) =>
      if rest == [] || rest[0] != '-' then None
      else match MatchDmy(rest[1..])
        case None => None
        case Some(end) => Some(DayRange(day, end))
  }

  /** ^(date)\s*-\s*(date)$ : the texts of the two dates. */
  function MatchFullRange(s: string): Option<(string, string)> {
    match MatchDmyPrefix(s)
    case None => None
    case Some((_, rest)) =>
      var gap := TrimStart(rest);
      if gap == [] || gap[0] != '-' then None
      else
        var second := TrimStart(gap[1..]);
        if MatchDmy(second).Some? then Some((s[..|s| - |rest|], second)) else None
  }

  function IsoFromParts(year: nat, month: nat, day: nat, thisYear: nat): Option<string> {
    if year < 1900 || year > thisYear + 1 then None
    else if month < 1 || month > 12 then None
    else if day < 1 || day > DaysInMonthUtc(year, month) then None
    else Some(IsoText(Civil(year, month, day)))
  }

  function ParseThaiDateInput(input: string, thisYear: nat): Option<string> {
    var trimmed := Trim(input);
    if trimmed == [] then None
    else if IsIsoShape(trimmed) then
      var Civil(year, month, day) := PartsOf(trimmed);
      if month < 1 || month > 12 || day < 1 || day > DaysInMonthUtc(year, month) then None else Some(trimmed)
    else match MatchDmy(trimmed)
      case None => None
      case Some(t) => IsoFromParts(t.year, t.month, t.day, thisYear)
  }

  function FormatIsoDateAsDdMmYyyy(iso: string): string {
    if IsIsoShape(iso) then iso[8..10] + "/" + iso[5..7] + "/" + iso[..4] else iso
  }

  // ---- What a parse can give ----

  /** Every result is a date of the calendar in its own text form. */
  lemma ParsedIsIsoDate(input: string, thisYear: nat)
    ensures var r := ParseThaiDateInput(input, thisYear); r.Some? ==> IsIsoDate(r.value)
  {
    var trimmed := Trim(input);
    if trimmed != [] && !IsIsoShape(trimmed) && MatchDmy(trimmed).Some? {
      var t := MatchDmy(trimmed).value;
      YearFits(trimmed);
      if IsoFromParts(t.year, t.month, t.day, thisYear).Some? {
        PrintThenRead(Civil(t.year, t.month, t.day));
      }
    }
  }

  lemma MatchedYearFits(s: string)
    ensures MatchNumber(s, 4, 4).Some? ==> MatchNumber(s, 4, 4).value.0 <= 9999
  {
    var n := SpanEnd(s, 0, IsDigit);
    if n == 4 {
      FourDigits(s[..4]);
    }
  }

  /** A typed year has four digits. */
  lemma YearFits(s: string)
    requires MatchDmyPrefix(s).Some?
    ensures MatchDmyPrefix(s).value.0.year <= 9999
  {
    var s1 := MatchNumber(s, 1, 2).value.1;
    var s3 := MatchNumber(MatchSeparator(s1).value, 1, 2).value.1;
    MatchedYearFits(MatchSeparator(s3).value);
  }

  /** Parsing is idempotent: a result parses to itself. */
  lemma ParseIsIdempotent(input: string, thisYear: nat)
    requires ParseThaiDateInput(input, thisYear).Some?
    ensures ParseThaiDateInput(ParseThaiDateInput(input, thisYear).value, thisYear) == ParseThaiDateInput(input, thisYear)
  {
    ParsedIsIsoDate(input, thisYear);
    var iso := ParseThaiDateInput(input, thisYear).value;
    IsoIsTrimmed(iso);
    if !IsIsoShape(Trim(input)) {
      var t := MatchDmy(Trim(input)).value;
      YearFits(Trim(input));
      PrintThenRead(Civil(t.year, t.month, t.day));
    }
  }

  lemma IsoIsTrimmed(iso: string)
    requires IsIsoShape(iso)
    ensures Trim(iso) == iso
  {
    assert IsDigit(iso[0]) && IsDigit(iso[9]);
    TrimKeeps(iso);
  }

  // ---- Texts and what they match ----

  /** One to most digits. */
  predicate DigitText(s: string, most: nat) {
    1 <= |s| <= most && AllIn(s, IsDigit)
  }

  predicate NoDigitFirst(s: string) {
    s == [] || !IsDigit(s[0])
  }

  lemma NumberMatches(d: string, rest: string, least: nat, most: nat)
    requires AllIn(d, IsDigit) && NoDigitFirst(rest) && least <= |d| <= most
    ensures MatchNumber(d + rest, least, most) == Some((WholeValue(d), rest))
  {
    var s := d + rest;
    SpanStopsAt(s, 0, |d|, IsDigit);
    assert s[..|d|] == d && s[|d|..] == rest;
  }

  /** The same with a fixed number of digits too many or too few: no match. */
  lemma NumberMismatches(d: string, rest: string, least: nat, most: nat)
    requires AllIn(d, IsDigit) && NoDigitFirst(rest) && !(least <= |d| <= most)
    ensures MatchNumber(d + rest, least, most) == None
  {
    SpanStopsAt(d + rest, 0, |d|, IsDigit);
  }

  /** A date as typed: day, month and year texts with a separator after the first two. */
  datatype DateText = DateText(day: string, p: char, month: string, q: char, year: string) {
    predicate Wellformed() {
      DigitText(day, 2) && p in "/.-" && DigitText(month, 2) && q in "/.-" && DigitText(year, 4) && |year| == 4
    }

    function Text(): string {
      day + ([p] + (month + ([q] + year)))
    }

    function Value(): Typed
      requires Wellformed()
    {
      Typed(WholeValue(day), WholeValue(month), WholeValue(year))
    }
  }

  lemma PrefixSteps(s: string, d: nat, s1: string, m: nat, s3: string, y: nat, rest: string)
    requires MatchNumber(s, 1, 2) == Some((d, s1)) && s1 != [] && IsSeparator(s1[0])
    requires MatchNumber(s1[1..], 1, 2) == Some((m, s3)) && s3 != [] && IsSeparator(s3[0])
    requires MatchNumber(s3[1..], 4, 4) == Some((y, rest))
    ensures MatchDmyPrefix(s) == Some((Typed(d, m, y), rest))
  {
  }

  lemma SeparatorThen(c: char, s: string)
    requires IsSeparator(c)
    ensures var t := [c] + s; t != [] && IsSeparator(t[0]) && t[1..] == s && NoDigitFirst(t)
  {
  }

  lemma DateTextMatches(t: DateText, rest: string)
    requires t.Wellformed() && NoDigitFirst(rest)
    ensures MatchDmyPrefix(t.Text() + rest) == Some((t.Value(), rest))
  {
    var s3 := [t.q] + (t.year + rest);
    var s1 := [t.p] + (t.month + s3);
    TextAssembles(t, rest);
    SeparatorThen(t.p, t.month + s3);
    SeparatorThen(t.q, t.year + rest);
    NumberMatches(t.day, s1, 1, 2);
    NumberMatches(t.month, s3, 1, 2);
    NumberMatches(t.year, rest, 4, 4);
    PrefixSteps(t.Text() + rest, WholeValue(t.day), s1, WholeValue(t.month), s3, WholeValue(t.year), rest);
  }

  lemma TextAssembles(t: DateText, rest: string)
    ensures t.Text() + rest == t.day + ([t.p] + (t.month + ([t.q] + (t.year + rest))))
  {
  }

  lemma DateTextIsDmy(t: DateText)
    requires t.Wellformed()
    ensures MatchDmy(t.Text()) == Some(t.Value())
  {
    DateTextMatches(t, []);
    assert t.Text() + [] == t.Text();
  }

  lemma DateTextIsTrimmed(t: DateText)
    requires t.Wellformed()
    ensures Trim(t.Text()) == t.Text() && t.Text() != []
  {
    EndsAreDigits(t);
    TrimKeeps(t.Text());
  }

  lemma DayThenSeparator(t: DateText)
    requires t.Wellformed()
    ensures |t.day| < |t.Text()| && t.Text()[|t.day|] == t.p && !IsIsoShape(t.Text())
  {
    assert t.Text()[|t.day|] == t.p;
    assert IsDigitAt(|t.day|);
  }

  lemma EndsAreDigits(t: DateText)
    requires t.Wellformed()
    ensures var s := t.Text(); |s| >= 8 && IsDigit(s[0]) && IsDigit(s[|s| - 1])
  {
    var s := t.Text();
    assert s[0] == t.day[0];
    assert s[|s| - 1] == t.year[|t.year| - 1];
  }

  /** Three numbers make a date exactly when the year is accepted and they are a date of the calendar. */
  lemma PartsMakeADate(year: nat, month: nat, day: nat, thisYear: nat)
    requires year <= 9999
    ensures var r, c := IsoFromParts(year, month, day, thisYear), Civil(year, month, day);
            (r.Some? <==> 1900 <= year <= thisYear + 1 && Valid(c)) && (r.Some? ==> IsIsoDate(r.value) && PartsOf(r.value) == c)
  {
    if IsoFromParts(year, month, day, thisYear).Some? {
      PrintThenRead(Civil(year, month, day));
    }
  }

  /** A typed date parses exactly when its year is accepted and its numbers are a date, and then to that date. */
  lemma TypedDateParsesExactly(t: DateText, thisYear: nat)
    requires t.Wellformed()
    ensures var r, v := ParseThaiDateInput(t.Text(), thisYear), t.Value();
            && (r.Some? <==> 1900 <= v.year <= thisYear + 1 && Valid(Civil(v.year, v.month, v.day)))
            && (r.Some? ==> IsIsoDate(r.value) && PartsOf(r.value) == Civil(v.year, v.month, v.day))
  {
    TypedDateParses(t, thisYear);
    FourDigits(t.year);
    PartsMakeADate(t.Value().year, t.Value().month, t.Value().day, thisYear);
  }

  /** A date in ISO text parses to itself, but for the leap day of the year 0, which the source reads as that of 1900. */
  lemma IsoInputParsesExactly(input: string, thisYear: nat)
    requires IsIsoShape(Trim(input))
    ensures ParseThaiDateInput(input, thisYear)
         == if IsIsoDate(Trim(input)) && Trim(input) != "0000-02-29" then Some(Trim(input)) else None
  {
    YearsToNinetyNine(PartsOf(Trim(input)));
    OnlyLeapDayOfYearZero(Trim(input));
  }

  /** Read as 1900 to 1999, the years 0 to 99 keep their months' lengths, but for February of the year 0. */
  lemma YearsToNinetyNine(c: Civil)
    requires c.year >= 0
    ensures 1 <= c.month <= 12 && 1 <= c.day <= DaysInMonthUtc(c.year, c.month) <==> Valid(c) && c != Civil(0, 2, 29)
  {
  }

  lemma OnlyLeapDayOfYearZero(s: string)
    requires IsIsoShape(s)
    ensures PartsOf(s) == Civil(0, 2, 29) <==> s == "0000-02-29"
  {
    LeapDayOfYearZero();
    StringOrderIsCalendarOrder(s, "0000-02-29");
  }

  lemma LeapDayOfYearZero()
    ensures IsIsoShape("0000-02-29") && PartsOf("0000-02-29") == Civil(0, 2, 29)
  {
    var s := "0000-02-29";
    assert s[..4] == "0000" && s[5..7] == "02" && s[8..10] == "29";
    FourDigits(s[..4]);
    TwoDigits(s[5..7]);
    TwoDigits(s[8..10]);
  }

  /** A typed date parses to the date of its numbers. */
  lemma TypedDateParses(t: DateText, thisYear: nat)
    requires t.Wellformed()
    ensures ParseThaiDateInput(t.Text(), thisYear)
         == IsoFromParts(WholeValue(t.year), WholeValue(t.month), WholeValue(t.day), thisYear)
  {
    DateTextIsDmy(t);
    DateTextIsTrimmed(t);
    DayThenSeparator(t);
  }

  lemma SlashesAssemble(day: string, month: string, year: string)
    ensures DateText(day, '/', month, '/', year).Text() == day + "/" + month + "/" + year
  {
  }

  lemma FormatIsDateText(iso: string)
    requires IsIsoShape(iso)
    ensures var t := DateText(iso[8..10], '/', iso[5..7], '/', iso[..4]);
            t.Wellformed() && FormatIsoDateAsDdMmYyyy(iso) == t.Text()
  {
    assert AllIn(iso[8..10], IsDigit) && AllIn(iso[5..7], IsDigit) && AllIn(iso[..4], IsDigit);
    SlashesAssemble(iso[8..10], iso[5..7], iso[..4]);
  }

  /** Parsing undoes formatting for every date in the accepted years. */
  lemma ParseUndoesFormat(iso: string, thisYear: nat)
    requires IsIsoDate(iso) && 1900 <= PartsOf(iso).year <= thisYear + 1
    ensures ParseThaiDateInput(FormatIsoDateAsDdMmYyyy(iso), thisYear) == Some(iso)
  {
    FormatIsDateText(iso);
    TypedDateParses(DateText(iso[8..10], '/', iso[5..7], '/', iso[..4]), thisYear);
    ReadThenPrint(iso);
  }
}
