/** The web client's date field: dates typed and shown with the Buddhist year, 543 ahead of the common era. */
module WebThaiDates {
  import opened Outcomes
  import opened JsText
  import opened Calendar
  import opened IsoDates
  import opened ThaiDates

  const BUDDHIST_YEAR_OFFSET: nat := 543
  const MIN_CE_YEAR: nat := 1900
  const MAX_YEARS_AHEAD: nat := 10

  datatype Reason = BadFormat | BadYear | BadMonth | BadDay | TooLate
  datatype Validation = Accepted(iso: string) | Rejected(reason: Reason)

  /** The three numbers of the input, the year brought to the common era. */
  function ReadNumbers(trimmed: string): Option<Typed> {
    if IsIsoShape(trimmed) then
      var Civil(year, month, day) := PartsOf(trimmed);
      Some(Typed(day, month, year))
    else
      match MatchDmy(trimmed)
      case None => None
      case Some(t) =>
        if t.year >= MIN_CE_YEAR + BUDDHIST_YEAR_OFFSET then Some(t.(year := t.year - BUDDHIST_YEAR_OFFSET)) else Some(t)
  }

  /** The checks on the numbers; an empty maxIso sets no limit. */
  function Check(t: Typed, maxIso: string, thisYear: nat): Validation {
    if t.year < MIN_CE_YEAR || t.year > thisYear + MAX_YEARS_AHEAD then Rejected(BadYear)
    else if t.month < 1 || t.month > 12 then Rejected(BadMonth)
    else if t.day < 1 || t.day > DaysInMonthUtc(t.year, t.month) then Rejected(BadDay)
    else
      var result := IsoText(Civil(t.year, t.month, t.day));
      if maxIso != [] && StrLess(SliceTen(maxIso), result) then Rejected(TooLate) else Accepted(result)
  }

  function SliceTen(s: string): string {
    if |s| <= 10 then s else s[..10]
  }

  function Validate(input: string, maxIso: string, thisYear: nat): Validation {
    var numbers := ReadNumbers(Trim(input));
    if numbers.None? then Rejected(BadFormat) else Check(numbers.value, maxIso, thisYear)
  }

  lemma ReadThenCheck(input: string, t: Typed, maxIso: string, thisYear: nat)
    requires ReadNumbers(Trim(input)) == Some(t)
    ensures Validate(input, maxIso, thisYear) == Check(t, maxIso, thisYear)
  {
  }

  lemma ReadNothing(input: string, maxIso: string, thisYear: nat)
    requires Trim(input) == [] || ReadNumbers(Trim(input)).None?
    ensures Validate(input, maxIso, thisYear) == Rejected(BadFormat)
  {
  }

  predicate YearAllowed(t: Typed, thisYear: nat) {
    1900 <= t.year <= thisYear + 10
  }

  predicate NotAfter(iso: string, maxIso: string) {
    maxIso == [] || StrLeq(iso, SliceTen(maxIso))
  }

  /** The numbers are read from four digits at most for the year. */
  lemma NumbersFit(trimmed: string)
    ensures var n := ReadNumbers(trimmed); n.Some? ==> n.value.year <= 9999
  {
    if !IsIsoShape(trimmed) && MatchDmy(trimmed).Some? {
      YearFits(trimmed);
    }
  }

  /** What a verdict says of the numbers read: which dates are accepted, and the first check that fails for each reason. */
  predicate Judges(r: Validation, t: Typed, maxIso: string, thisYear: nat) {
    var c := Civil(t.year, t.month, t.day);
    && (r.Accepted? <==> YearAllowed(t, thisYear) && Valid(c) && NotAfter(IsoText(c), maxIso))
    && (r.Accepted? ==> IsIsoDate(r.iso) && PartsOf(r.iso) == c && NotAfter(r.iso, maxIso))
    && r != Rejected(BadFormat)
    && (r == Rejected(BadYear) <==> !YearAllowed(t, thisYear))
    && (r == Rejected(BadMonth) <==> YearAllowed(t, thisYear) && !(1 <= t.month <= 12))
    && (r == Rejected(BadDay) <==> YearAllowed(t, thisYear) && 1 <= t.month <= 12 && !Valid(c))
    && (r == Rejected(TooLate) <==> YearAllowed(t, thisYear) && Valid(c) && !NotAfter(IsoText(c), maxIso))
  }

  lemma CheckJudges(t: Typed, maxIso: string, thisYear: nat)
    requires t.year <= 9999
    ensures Judges(Check(t, maxIso, thisYear), t, maxIso, thisYear)
  {
    var c := Civil(t.year, t.month, t.day);
    if YearAllowed(t, thisYear) && Valid(c) {
      PrintThenRead(c);
    }
  }

  lemma ValidateJudges(input: string, maxIso: string, thisYear: nat)
    ensures var r, n := Validate(input, maxIso, thisYear), ReadNumbers(Trim(input));
            && (r == Rejected(BadFormat) <==> n.None?)
            && (n.Some? ==> Judges(r, n.value, maxIso, thisYear))
            && (r.Accepted? ==> IsIsoDate(r.iso) && 1900 <= PartsOf(r.iso).year <= thisYear + 10)
  {
    NumbersFit(Trim(input));
    var n := ReadNumbers(Trim(input));
    if n.Some? {
      ReadThenCheck(input, n.value, maxIso, thisYear);
      CheckJudges(n.value, maxIso, thisYear);
    }
  }

  /** The input is unreadable exactly for BadFormat; what it is read as decides on all other verdicts. */
  method ValidateThaiDateInput(input: string, maxIso: string, thisYear: nat) returns (r: Validation)
    ensures r == Validate(input, maxIso, thisYear)
    ensures r == Rejected(BadFormat) <==> ReadNumbers(Trim(input)).None?
    ensures ReadNumbers(Trim(input)).Some? ==> Judges(r, ReadNumbers(Trim(input)).value, maxIso, thisYear)
    ensures r.Accepted? ==> IsIsoDate(r.iso) && 1900 <= PartsOf(r.iso).year <= thisYear + 10
  {
    ValidateJudges(input, maxIso, thisYear);
    var trimmed := Trim(input);
    if trimmed == [] {
      ReadNothing(input, maxIso, thisYear);
      return Rejected(BadFormat);
    }
    var day, month, year: nat;
    var typed := MatchDmy(trimmed);
    if IsIsoShape(trimmed) {
      var parts := PartsOf(trimmed);
      year, month, day := parts.year, parts.month, parts.day;
    } else if typed.Some? {
      day, month, year := typed.value.day, typed.value.month, typed.value.year;
      if year >= MIN_CE_YEAR + BUDDHIST_YEAR_OFFSET { year := year - BUDDHIST_YEAR_OFFSET; }
    } else {
      ReadNothing(input, maxIso, thisYear);
      return Rejected(BadFormat);
    }
    ReadThenCheck(input, Typed(day, month, year), maxIso, thisYear);
    var maxYear := thisYear + MAX_YEARS_AHEAD;
    if year < MIN_CE_YEAR || year > maxYear { return Rejected(BadYear); }
    if month < 1 || month > 12 { return Rejected(BadMonth); }
    if day < 1 || day > DaysInMonthUtc(year, month) { return Rejected(BadDay); }
    var result := IsoText(Civil(year, month, day));
    if maxIso != [] && StrLess(SliceTen(maxIso), result) { return Rejected(TooLate); }
    return Accepted(result);
  }

  function FormatBuddhist(iso: string): string {
    if !IsIsoShape(SliceTen(iso)) then iso
    else
      var s := SliceTen(iso);
      s[8..10] + "/" + s[5..7] + "/" + Digits(PartsOf(s).year + BUDDHIST_YEAR_OFFSET)
  }

  // ---- Round trip and reading of years ----

  /** Typed years that cannot be common-era years are Buddhist years. */
  function CommonEra(v: Typed): Typed {
    if v.year >= 2443 then v.(year := v.year - 543) else v
  }

  lemma NumbersOfDmy(s: string, v: Typed)
    requires !IsIsoShape(s) && MatchDmy(s) == Some(v)
    ensures ReadNumbers(s) == Some(CommonEra(v))
  {
  }

  lemma NumbersOfTyped(t: DateText)
    requires t.Wellformed()
    ensures ReadNumbers(Trim(t.Text())) == Some(CommonEra(t.Value()))
  {
    DateTextIsDmy(t);
    DateTextIsTrimmed(t);
    DayThenSeparator(t);
    NumbersOfDmy(t.Text(), t.Value());
  }

  lemma TypedIsRead(t: DateText, maxIso: string, thisYear: nat)
    requires t.Wellformed()
    ensures Validate(t.Text(), maxIso, thisYear) == Check(CommonEra(t.Value()), maxIso, thisYear)
  {
    NumbersOfTyped(t);
  }

  /** A typed date is judged by its numbers, with 543 taken off a year from 2443 on. */
  lemma TypedIsJudged(t: DateText, maxIso: string, thisYear: nat)
    requires t.Wellformed()
    ensures var v, year := t.Value(), if t.Value().year >= 2443 then t.Value().year - 543 else t.Value().year;
            Judges(Validate(t.Text(), maxIso, thisYear), Typed(v.day, v.month, year), maxIso, thisYear)
  {
    NumbersOfTyped(t);
    ValidateJudges(t.Text(), maxIso, thisYear);
  }

  lemma BuddhistText(iso: string)
    requires IsIsoShape(iso) && 1000 <= PartsOf(iso).year + 543 <= 9999
    ensures var t := DateText(iso[8..10], '/', iso[5..7], '/', Digits(PartsOf(iso).year + 543));
            t.Wellformed() && FormatBuddhist(iso) == t.Text()
            && t.Value() == Typed(PartsOf(iso).day, PartsOf(iso).month, PartsOf(iso).year + 543)
  {
    var year := Digits(PartsOf(iso).year + 543);
    DigitsOfYear(PartsOf(iso).year + 543);
    assert AllIn(iso[8..10], IsDigit) && AllIn(iso[5..7], IsDigit);
    SlashesAssemble(iso[8..10], iso[5..7], year);
  }

  /** A date is shown as day, month and the year 543 later, whatever follows it in the text. */
  lemma ShownInBuddhistYears(iso: string, rest: string)
    requires IsIsoShape(iso)
    ensures FormatBuddhist(iso + rest) == iso[8..10] + "/" + iso[5..7] + "/" + Digits(PartsOf(iso).year + 543)
  {
    assert (iso + rest)[..10] == iso;
    assert SliceTen(iso + rest) == iso;
  }

  /** A shown date, typed back, is the stored date, for every year the field accepts and can show. */
  lemma ParseUndoesBuddhistFormat(iso: string, thisYear: nat)
    requires IsIsoDate(iso) && 1900 <= PartsOf(iso).year <= thisYear + 10
    requires PartsOf(iso).year + 543 <= 9999
    ensures Validate(FormatBuddhist(iso), [], thisYear) == Accepted(iso)
  {
    BuddhistTextIsRead(iso, thisYear);
    var c := PartsOf(iso);
    CheckAccepts(Typed(c.day, c.month, c.year), thisYear);
    ReadThenPrint(iso);
  }

  lemma BuddhistTextIsRead(iso: string, thisYear: nat)
    requires IsIsoShape(iso) && 1900 <= PartsOf(iso).year && PartsOf(iso).year + 543 <= 9999
    ensures var c := PartsOf(iso); Validate(FormatBuddhist(iso), [], thisYear) == Check(Typed(c.day, c.month, c.year), [], thisYear)
  {
    BuddhistText(iso);
    var c := PartsOf(iso);
    var t := DateText(iso[8..10], '/', iso[5..7], '/', Digits(c.year + 543));
    assert CommonEra(t.Value()) == Typed(c.day, c.month, c.year);
    TypedIsRead(t, [], thisYear);
  }

  lemma CheckAccepts(t: Typed, thisYear: nat)
    requires 1900 <= t.year <= thisYear + 10 && Valid(Civil(t.year, t.month, t.day))
    ensures Check(t, [], thisYear) == Accepted(IsoText(Civil(t.year, t.month, t.day)))
  {
  }

  /** A date typed with a common-era year the field allows. */
  ghost predicate IsCommonEraDate(t: DateText, thisYear: nat) {
    t.Wellformed() && 1900 <= t.Value().year <= thisYear + 10
    && Valid(Civil(t.Value().year, t.Value().month, t.Value().day))
  }

  ghost predicate ReadsAsTyped(t: DateText, thisYear: nat)
    requires t.Wellformed()
  {
    Validate(t.Text(), [], thisYear) == Accepted(IsoText(Civil(t.Value().year, t.Value().month, t.Value().day)))
  }

  /** A common-era date is stored as typed exactly when its year is below 2443; later ones are read as Buddhist years. */
  lemma CommonEraIsReadBelow2443(t: DateText, thisYear: nat)
    requires IsCommonEraDate(t, thisYear)
    ensures ReadsAsTyped(t, thisYear) <==> t.Value().year < 2443
  {
    TypedIsRead(t, [], thisYear);
    TypedYearFits(t);
    CheckedAsTyped(t.Value(), thisYear);
  }

  lemma TypedYearFits(t: DateText)
    requires t.Wellformed()
    ensures t.Value().year <= 9999
  {
    FourDigits(t.year);
  }

  lemma CheckedAsTyped(v: Typed, thisYear: nat)
    requires 1900 <= v.year <= thisYear + 10 && v.year <= 9999 && Valid(Civil(v.year, v.month, v.day))
    ensures Check(CommonEra(v), [], thisYear) == Accepted(IsoText(Civil(v.year, v.month, v.day))) <==> v.year < 2443
  {
    if v.year >= 2443 {
      OtherYearOtherText(v);
    } else {
      CheckAccepts(v, thisYear);
    }
  }

  /** What is stored for a year read as Buddhist is not the date as typed. */
  lemma OtherYearOtherText(v: Typed)
    requires 2443 <= v.year <= 9999 && v.month < 100 && v.day < 100
    ensures IsoText(Civil(v.year - 543, v.month, v.day)) != IsoText(Civil(v.year, v.month, v.day))
  {
    PrintThenRead(Civil(v.year, v.month, v.day));
    PrintThenRead(Civil(v.year - 543, v.month, v.day));
  }

  /** So the two year ranges do not overlap exactly as long as ten years ahead is before 2443. */
  lemma YearRangesDoNotOverlap(thisYear: nat)
    ensures (forall t: DateText | IsCommonEraDate(t, thisYear) :: ReadsAsTyped(t, thisYear))
       <==> thisYear + 10 < 2443
  {
    forall t: DateText | IsCommonEraDate(t, thisYear)
      ensures ReadsAsTyped(t, thisYear) <==> t.Value().year < 2443
    {
      CommonEraIsReadBelow2443(t, thisYear);
    }
    if thisYear + 10 >= 2443 {
      var t := DateText("01", '/', "01", '/', "2443");
      TwoDigits("01");
      FourDigits("2443");
      assert IsCommonEraDate(t, thisYear);
    }
  }

  /** On input the server accepts, the field stores the same date exactly when the year is one it allows. */
  lemma BothParsersAgree(input: string, thisYear: nat)
    requires ParseThaiDateInput(input, thisYear).Some? && thisYear + 10 < 2443
    ensures var iso := ParseThaiDateInput(input, thisYear).value;
            && IsIsoShape(iso)
            && (Validate(input, [], thisYear) == Accepted(iso) <==> 1900 <= PartsOf(iso).year <= thisYear + 10)
  {
    var trimmed := Trim(input);
    var iso := ParseThaiDateInput(input, thisYear).value;
    ParsedIsIsoDate(input, thisYear);
    if IsIsoShape(trimmed) {
      if PartsOf(iso).year >= 1900 {
        ReadThenPrint(iso);
      }
    } else {
      var t := MatchDmy(trimmed).value;
      YearFits(trimmed);
      PrintThenRead(Civil(t.year, t.month, t.day));
    }
  }
}
