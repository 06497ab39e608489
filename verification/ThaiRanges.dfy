/** The three notations for consecutive days of a month give the same dates, or all give nothing. */
module ThaiRanges {
  import opened Outcomes
  import opened JsText
  import opened Calendar
  import opened IsoDates
  import opened ThaiDates
  import opened ThaiMultiDates
  import opened ThaiNotations

  predicate AllSpaces(s: string) {
    forall k :: 0 <= k < |s| ==> IsSpace(s[k])
  }

  /** a-b/mm/yyyy */
  function DayRangeText(day: string, end: DateText): string {
    day + ("-" + end.Text())
  }

  /** a/mm/yyyy - b/mm/yyyy, with any space around the dash */
  function FullRangeText(start: DateText, before: string, after: string, end: DateText): string {
    start.Text() + (before + ("-" + (after + end.Text())))
  }

  /** The two dates have the same month and year, however they are written. */
  predicate SameMonth(a: DateText, b: DateText)
    requires a.Wellformed() && b.Wellformed()
  {
    a.Value().month == b.Value().month && a.Value().year == b.Value().year
  }

  /** What all three notations should give. */
  function DaysBetween(t: Typed, last: nat, thisYear: nat): Dates {
    if last < t.day then None else DaysOfMonth(t.year, t.month, t.day, last, thisYear)
  }

  // ---- The day range ----

  lemma DashThen(s: string)
    ensures var t := "-" + s; t != [] && t[0] == '-' && t[1..] == s && NoDigitFirst(t)
  {
  }

  lemma DayRangeMatches(day: string, end: DateText)
    requires DigitText(day, 2) && end.Wellformed()
    ensures MatchDayRange(DayRangeText(day, end)) == Some(DayRange(WholeValue(day), end.Value()))
  {
    DashThen(end.Text());
    NumberMatches(day, "-" + end.Text(), 1, 2);
    DateTextIsDmy(end);
  }

  /** Digits and a separator, then a date: three separators, so never a single date. */
  lemma DayRangeIsNotSingle(day: string, end: DateText)
    requires DigitText(day, 2) && end.Wellformed()
    ensures MatchDmy(DayRangeText(day, end)) == None && !IsIsoShape(DayRangeText(day, end))
  {
    var s := DayRangeText(day, end);
    DashThen(end.Text());
    NumberMatches(day, "-" + end.Text(), 1, 2);
    assert s[|day|] == '-' && IsDigitAt(|day|);
    EndMonthIsShort(end);
  }

  lemma EndMonthIsShort(end: DateText)
    requires end.Wellformed()
    ensures var rest := [end.p] + (end.month + ([end.q] + end.year));
            && MatchNumber(end.Text(), 1, 2) == Some((WholeValue(end.day), rest))
            && rest != [] && MatchNumber(rest[1..], 4, 4) == None
  {
    var tail := [end.q] + end.year;
    SeparatorThen(end.p, end.month + tail);
    SeparatorThen(end.q, end.year);
    NumberMatches(end.day, [end.p] + (end.month + tail), 1, 2);
    NumberMismatches(end.month, tail, 4, 4);
  }

  lemma DayRangeIsTrimmed(day: string, end: DateText)
    requires DigitText(day, 2) && end.Wellformed()
    ensures var s := DayRangeText(day, end); s != [] && Trim(s) == s && ',' !in s
  {
    var s := DayRangeText(day, end);
    EndsAreDigits(end);
    assert s[0] == day[0] && s[|s| - 1] == end.Text()[|end.Text()| - 1];
    TrimKeeps(s);
    NoCommaInDate(end);
    forall k | 0 <= k < |s| ensures s[k] != ',' {
      if k < |day| { assert s[k] == day[k]; }
      else if k > |day| { assert s[k] == end.Text()[k - |day| - 1]; assert end.Text()[k - |day| - 1] in end.Text(); }
    }
  }

  lemma NoCommaInDate(t: DateText)
    requires t.Wellformed()
    ensures ',' !in t.Text()
  {
    assert forall k :: 0 <= k < |t.day| ==> t.day[k] != ',';
    assert forall k :: 0 <= k < |t.month| ==> t.month[k] != ',';
    assert forall k :: 0 <= k < |t.year| ==> t.year[k] != ',';
    assert ',' !in t.day && ',' !in t.month && ',' !in t.year;
  }

  lemma DayRangeSegment(day: string, end: DateText, thisYear: nat)
    requires DigitText(day, 2) && end.Wellformed()
    ensures ParseSegment(DayRangeText(day, end), thisYear)
         == DaysBetween(Typed(WholeValue(day), end.Value().month, end.Value().year), end.Value().day, thisYear)
  {
    DayRangeIsTrimmed(day, end);
    DayRangeIsNotSingle(day, end);
    DayRangeMatches(day, end);
  }

  // ---- The full range ----

  lemma SpacesSkip(spaces: string, rest: string)
    requires AllSpaces(spaces) && (rest != [] ==> !IsSpace(rest[0]))
    ensures TrimStart(spaces + rest) == rest
  {
    var s := spaces + rest;
    SpanStopsAt(s, 0, |spaces|, IsSpace);
    assert s[|spaces|..] == rest;
  }

  lemma AfterStart(before: string, after: string, end: DateText)
    requires AllSpaces(before) && AllSpaces(after) && end.Wellformed()
    ensures var rest := before + ("-" + (after + end.Text()));
            rest != [] && NoDigitFirst(rest) && TrimStart(rest) == "-" + (after + end.Text())
    ensures TrimStart(after + end.Text()) == end.Text()
  {
    EndsAreDigits(end);
    SpacesSkip(after, end.Text());
    SpacesThenDash(before, after + end.Text());
  }

  lemma SpacesThenDash(before: string, tail: string)
    requires AllSpaces(before)
    ensures var rest := before + ("-" + tail); rest != [] && NoDigitFirst(rest) && TrimStart(rest) == "-" + tail
  {
    var dash := "-" + tail;
    assert dash[0] == '-';
    SpacesSkip(before, dash);
    var rest := before + dash;
    assert rest[0] == if before != [] then before[0] else '-';
  }

  lemma FullRangeMatches(start: DateText, before: string, after: string, end: DateText)
    requires start.Wellformed() && end.Wellformed() && AllSpaces(before) && AllSpaces(after)
    ensures var s := FullRangeText(start, before, after, end);
            MatchDmy(s) == None && MatchFullRange(s) == Some((start.Text(), end.Text()))
  {
    var rest := before + ("-" + (after + end.Text()));
    var s := start.Text() + rest;
    AfterStart(before, after, end);
    DateTextMatches(start, rest);
    DashThen(after + end.Text());
    DateTextIsDmy(end);
    assert s[..|s| - |rest|] == start.Text();
  }

  /** A date followed by more is no day range: its year is too long to be a month's separator away. */
  lemma FullRangeIsNotDayRange(start: DateText, rest: string)
    requires start.Wellformed() && NoDigitFirst(rest)
    ensures MatchDayRange(start.Text() + rest) == None
  {
    var s3 := [start.q] + (start.year + rest);
    var s1 := [start.p] + (start.month + s3);
    TextAssembles(start, rest);
    SeparatorThen(start.p, start.month + s3);
    SeparatorThen(start.q, start.year + rest);
    NumberMatches(start.day, s1, 1, 2);
    NumberMatches(start.month, s3, 1, 2);
    NumberMismatches(start.year, rest, 1, 2);
    assert MatchDmyPrefix(s1[1..]) == None;
  }

  lemma FullRangeShape(start: DateText, before: string, after: string, end: DateText)
    requires start.Wellformed() && end.Wellformed() && AllSpaces(before) && AllSpaces(after)
    ensures var s := FullRangeText(start, before, after, end); s != [] && Trim(s) == s && !IsIsoShape(s) && ',' !in s
  {
    var s, t, e := FullRangeText(start, before, after, end), start.Text(), end.Text();
    EndsAreDigits(start);
    EndsAreDigits(end);
    assert s[0] == t[0] && s[|s| - 1] == e[|e| - 1];
    TrimKeeps(s);
    DayThenSeparator(start);
    assert s[|start.day|] == start.p && IsDigitAt(|start.day|);
    NoCommaInDate(start);
    NoCommaInDate(end);
    NoCommaInSpaces(before);
    NoCommaInSpaces(after);
  }

  lemma NoCommaInSpaces(s: string)
    requires AllSpaces(s)
    ensures ',' !in s
  {
  }

  /** Both loops list the same days when the ends of the range exist. */
  lemma {:induction false} BothLoopsAgree(year: nat, month: nat, day: nat, last: nat, thisYear: nat)
    requires day <= last && year <= 9999
    requires IsoFromParts(year, month, day, thisYear).Some? && IsoFromParts(year, month, last, thisYear).Some?
    ensures Valid(Civil(year, month, day)) && Valid(Civil(year, month, last))
    ensures DaysOfMonth(year, month, day, last, thisYear) == Some(DaysFrom(Civil(year, month, day), Civil(year, month, last)))
    decreases last - day
  {
    var c, e := Civil(year, month, day), Civil(year, month, last);
    IsoSliceIsIsoText(c);
    if day == last {
      assert DaysOfMonth(year, month, day + 1, last, thisYear) == Some([]);
      LaterYear(c, AddDays(c, 1));
      assert DaysFrom(AddDays(c, 1), e) == [];
    } else {
      AddDaysIs(c, 1, Civil(year, month, day + 1));
      BothLoopsAgree(year, month, day + 1, last, thisYear);
    }
  }

  lemma {:induction false} DaysOfMonthNeedsAll(year: nat, month: nat, day: nat, last: nat, thisYear: nat)
    ensures DaysOfMonth(year, month, day, last, thisYear).Some?
       <==> forall k :: day <= k <= last ==> IsoFromParts(year, month, k, thisYear).Some?
    ensures DaysOfMonth(year, month, day, last, thisYear).Some? ==>
      forall s :: s in DaysOfMonth(year, month, day, last, thisYear).value
             <==> exists k :: day <= k <= last && IsoFromParts(year, month, k, thisYear) == Some(s)
    decreases last + 1 - day
  {
    if day <= last {
      DaysOfMonthNeedsAll(year, month, day + 1, last, thisYear);
      var rest := DaysOfMonth(year, month, day + 1, last, thisYear);
      if DaysOfMonth(year, month, day, last, thisYear).Some? {
        var iso := IsoFromParts(year, month, day, thisYear).value;
        forall s ensures s in [iso] + rest.value <==> exists k :: day <= k <= last && IsoFromParts(year, month, k, thisYear) == Some(s) {
          assert s in [iso] + rest.value <==> s == iso || s in rest.value;
        }
      }
    }
  }

  /** The range between two typed dates of a month, the ends read as single dates first. */
  lemma RangeOfTypedDates(start: DateText, end: DateText, thisYear: nat)
    requires start.Wellformed() && end.Wellformed() && SameMonth(start, end)
    ensures ExpandIsoDateRange(OrElse(ParseThaiDateInput(start.Text(), thisYear), start.Text()),
                               OrElse(ParseThaiDateInput(end.Text(), thisYear), end.Text()), thisYear)
         == DaysBetween(start.Value(), end.Value().day, thisYear)
  {
    var t, e := start.Value(), end.Value();
    TypedDateParses(start, thisYear);
    TypedDateParses(end, thisYear);
    DaysOfMonthNeedsAll(t.year, t.month, t.day, e.day, thisYear);
    var a, b := IsoFromParts(t.year, t.month, t.day, thisYear), IsoFromParts(t.year, t.month, e.day, thisYear);
    if a.Some? && b.Some? {
      YearIsShort(start);
      ParseIsIdempotent(start.Text(), thisYear);
      ParseIsIdempotent(end.Text(), thisYear);
      PrintThenRead(Civil(t.year, t.month, t.day));
      PrintThenRead(Civil(t.year, t.month, e.day));
      StringOrderIsCalendarOrder(b.value, a.value);
      if t.day <= e.day {
        BothLoopsAgree(t.year, t.month, t.day, e.day, thisYear);
      }
    }
  }

  lemma YearIsShort(t: DateText)
    requires t.Wellformed()
    ensures t.Value().year <= 9999
  {
    FourDigits(t.year);
  }

  lemma FullRangeSegment(start: DateText, before: string, after: string, end: DateText, thisYear: nat)
    requires start.Wellformed() && end.Wellformed() && SameMonth(start, end) && AllSpaces(before) && AllSpaces(after)
    ensures ParseSegment(FullRangeText(start, before, after, end), thisYear) == DaysBetween(start.Value(), end.Value().day, thisYear)
  {
    AfterStart(before, after, end);
    FullRangeShape(start, before, after, end);
    FullRangeMatches(start, before, after, end);
    FullRangeIsNotDayRange(start, before + ("-" + (after + end.Text())));
    RangeOfTypedDates(start, end, thisYear);
  }

  // ---- The comma list ----

  function JoinCommas(texts: seq<string>): string {
    if texts == [] then []
    else if |texts| == 1 then texts[0]
    else texts[0] + ("," + JoinCommas(texts[1..]))
  }

  lemma {:induction false} SplitWord(word: string, rest: string)
    requires ',' !in word
    ensures Split(word + ("," + rest)) == [word] + Split(rest)
  {
    var s := word + ("," + rest);
    if word == [] {
      assert s == "," + rest && s[1..] == rest;
    } else {
      assert s[1..] == word[1..] + ("," + rest);
      assert word == [word[0]] + word[1..];
      SplitWord(word[1..], rest);
    }
  }

  predicate PlainTexts(texts: seq<string>) {
    forall k :: 0 <= k < |texts| ==> texts[k] != [] && ',' !in texts[k] && Edges(texts[k])
  }

  lemma {:induction false} SplitInvertsJoin(texts: seq<string>)
    requires texts != [] && PlainTexts(texts)
    ensures Split(JoinCommas(texts)) == texts && JoinCommas(texts) != [] && Edges(JoinCommas(texts))
  {
    assert texts[0] != [] && ',' !in texts[0] && Edges(texts[0]);
    if |texts| == 1 {
      SplitWithoutComma(texts[0]);
      assert texts == [texts[0]];
    } else {
      var rest := JoinCommas(texts[1..]);
      SplitInvertsJoin(texts[1..]);
      SplitWord(texts[0], rest);
      assert texts == [texts[0]] + texts[1..];
      assert JoinCommas(texts)[0] == texts[0][0];
      assert JoinCommas(texts)[|JoinCommas(texts)| - 1] == rest[|rest| - 1];
    }
  }

  lemma {:induction false} PlainTextsStay(texts: seq<string>)
    requires PlainTexts(texts)
    ensures NonEmptyTrimmed(texts) == texts
  {
    if texts != [] {
      assert texts[0] != [] && Edges(texts[0]);
      TrimKeeps(texts[0]);
      PlainTextsStay(texts[1..]);
      assert texts == [texts[0]] + texts[1..];
    }
  }

  lemma SegmentsOfJoin(texts: seq<string>)
    requires texts != [] && PlainTexts(texts)
    ensures Segments(JoinCommas(texts)) == texts
  {
    SplitInvertsJoin(texts);
    TrimKeeps(JoinCommas(texts));
    PlainTextsStay(texts);
  }

  /** Days written one by one, all of one month and consecutive. */
  predicate IsDayByDay(list: seq<DateText>, start: Typed) {
    forall k :: 0 <= k < |list| ==> list[k].Wellformed() && list[k].Value() == Typed(start.day + k, start.month, start.year)
  }

  function TextsOf(list: seq<DateText>): (texts: seq<string>)
    ensures |texts| == |list| && forall k :: 0 <= k < |list| ==> texts[k] == list[k].Text()
  {
    seq(|list|, i requires 0 <= i < |list| => list[i].Text())
  }

  /** A lone date that does not parse is no range either. */
  lemma DateTextSegment(t: DateText, thisYear: nat)
    requires t.Wellformed()
    ensures var iso := IsoFromParts(t.Value().year, t.Value().month, t.Value().day, thisYear);
            ParseSegment(t.Text(), thisYear) == if iso.Some? then Some([iso.value]) else None
  {
    TypedDateParses(t, thisYear);
    DateTextIsTrimmed(t);
    FullRangeIsNotDayRange(t, []);
    DateTextMatches(t, []);
    assert t.Text() + [] == t.Text();
  }

  lemma ListIsPlain(list: seq<DateText>, start: Typed)
    requires IsDayByDay(list, start)
    ensures PlainTexts(TextsOf(list))
  {
    forall k | 0 <= k < |list| ensures TextsOf(list)[k] != [] && ',' !in TextsOf(list)[k] && Edges(TextsOf(list)[k]) {
      NoCommaInDate(list[k]);
      EndsAreDigits(list[k]);
    }
  }

  // ---- Agreement ----

  /** AllSucceed and GivenBySome, said of the results instead of the segments. */
  predicate Succeeded(results: seq<Dates>) {
    forall k :: 0 <= k < |results| ==> results[k].Some? && results[k].value != []
  }

  predicate Given(results: seq<Dates>, s: string) {
    exists k :: 0 <= k < |results| && results[k].Some? && s in results[k].value
  }

  lemma ResultsDecide(segments: seq<string>, thisYear: nat)
    ensures Succeeded(Parsed(segments, thisYear)) <==> AllSucceed(segments, thisYear)
    ensures forall s :: Given(Parsed(segments, thisYear), s) <==> GivenBySome(segments, thisYear, s)
  {
  }

  lemma SameResultsSameDates(t: string, u: string, thisYear: nat, results: seq<Dates>, others: seq<Dates>)
    requires Segments(t) != [] && Segments(u) != []
    requires results == Parsed(Segments(t), thisYear) && others == Parsed(Segments(u), thisYear)
    requires Succeeded(results) <==> Succeeded(others)
    requires Succeeded(results) ==> forall s :: Given(results, s) <==> Given(others, s)
    ensures ParseMulti(t, thisYear) == ParseMulti(u, thisYear)
  {
    ResultsDecide(Segments(t), thisYear);
    ResultsDecide(Segments(u), thisYear);
    SameDatesSameResult(t, u, thisYear);
  }

  lemma ParsedOne(t: string, thisYear: nat)
    ensures Parsed([t], thisYear) == [ParseSegment(t, thisYear)]
  {
  }

  /** a-b/mm/yyyy and a/mm/yyyy - b/mm/yyyy always have the same result, whatever the numbers. */
  lemma DayRangeIsFullRange(start: DateText, before: string, after: string, end: DateText, thisYear: nat)
    requires start.Wellformed() && end.Wellformed() && SameMonth(start, end) && AllSpaces(before) && AllSpaces(after)
    ensures ParseMulti(DayRangeText(start.day, end), thisYear) == ParseMulti(FullRangeText(start, before, after, end), thisYear)
  {
    var t, u := DayRangeText(start.day, end), FullRangeText(start, before, after, end);
    DayRangeIsTrimmed(start.day, end);
    FullRangeShape(start, before, after, end);
    OneSegment(t);
    OneSegment(u);
    DayRangeSegment(start.day, end, thisYear);
    FullRangeSegment(start, before, after, end, thisYear);
    ParsedOne(t, thisYear);
    ParsedOne(u, thisYear);
    SameResultsSameDates(t, u, thisYear, Parsed([t], thisYear), Parsed([u], thisYear));
  }

  /** For a up to b, a-b/mm/yyyy has the result of the comma list of all the days. */
  lemma DayRangeIsCommaList(day: string, end: DateText, list: seq<DateText>, thisYear: nat)
    requires DigitText(day, 2) && end.Wellformed() && WholeValue(day) <= end.Value().day
    requires |list| == end.Value().day - WholeValue(day) + 1
    requires IsDayByDay(list, Typed(WholeValue(day), end.Value().month, end.Value().year))
    ensures ParseMulti(DayRangeText(day, end), thisYear) == ParseMulti(JoinCommas(TextsOf(list)), thisYear)
  {
    var start := Typed(WholeValue(day), end.Value().month, end.Value().year);
    var t, texts := DayRangeText(day, end), TextsOf(list);
    DayRangeIsTrimmed(day, end);
    OneSegment(t);
    ListIsPlain(list, start);
    SegmentsOfJoin(texts);
    DayRangeSegment(day, end, thisYear);
    ParsedOne(t, thisYear);
    var days := DaysOfMonth(start.year, start.month, start.day, end.Value().day, thisYear);
    CommaListParsed(list, start, thisYear);
    CommaListGives(days, Parsed(texts, thisYear), start, end.Value().day, thisYear);
    SameResultsSameDates(t, JoinCommas(texts), thisYear, [days], Parsed(texts, thisYear));
  }

  /** Each result is the one day of its place, or nothing when that day does not exist. */
  predicate DayResults(results: seq<Dates>, start: Typed, thisYear: nat) {
    forall k :: 0 <= k < |results| ==> results[k] == OneDay(IsoFromParts(start.year, start.month, start.day + k, thisYear))
  }

  function OneDay(iso: Option<string>): Dates {
    if iso.Some? then Some([iso.value]) else None
  }

  lemma CommaListParsed(list: seq<DateText>, start: Typed, thisYear: nat)
    requires IsDayByDay(list, start)
    ensures DayResults(Parsed(TextsOf(list), thisYear), start, thisYear)
  {
    forall k | 0 <= k < |list|
      ensures Parsed(TextsOf(list), thisYear)[k] == OneDay(IsoFromParts(start.year, start.month, start.day + k, thisYear))
    {
      DateTextSegment(list[k], thisYear);
    }
  }

  lemma CommaListGives(days: Dates, results: seq<Dates>, start: Typed, last: nat, thisYear: nat)
    requires DayResults(results, start, thisYear) && start.day <= last && |results| == last - start.day + 1
    requires days == DaysOfMonth(start.year, start.month, start.day, last, thisYear)
    ensures Succeeded([days]) <==> Succeeded(results)
    ensures Succeeded(results) ==> forall s :: Given([days], s) <==> Given(results, s)
  {
    DaysOfMonthNeedsAll(start.year, start.month, start.day, last, thisYear);
    assert [days][0] == days;
    if Succeeded(results) {
      forall d | start.day <= d <= last ensures IsoFromParts(start.year, start.month, d, thisYear).Some? {
        assert results[d - start.day].Some?;
      }
      forall s ensures Given([days], s) <==> Given(results, s) {
        assert Given([days], s) <==> s in days.value;
        if s in days.value {
          var d :| start.day <= d <= last && IsoFromParts(start.year, start.month, d, thisYear) == Some(s);
          assert results[d - start.day] == Some([s]);
        }
      }
    }
    if Succeeded([days]) {
      assert days.Some?;
    }
  }

  // ---- Only dates of the calendar ----

  predicate AllDates(dates: seq<string>) {
    forall k :: 0 <= k < |dates| ==> IsIsoDate(dates[k])
  }

  lemma {:induction false} DaysFromAreDates(cursor: Civil, last: Civil)
    requires Valid(cursor) && Valid(last) && cursor.year >= 0 && last.year <= 9999
    ensures AllDates(DaysFrom(cursor, last))
    decreases DayNumber(last) + 1 - DayNumber(cursor)
  {
    if DayNumber(cursor) <= DayNumber(last) {
      LaterYear(cursor, last);
      LaterYear(cursor, AddDays(cursor, 1));
      SliceIsDate(cursor);
      DaysFromAreDates(AddDays(cursor, 1), last);
      MoreDates(IsoSlice(cursor), DaysFrom(AddDays(cursor, 1), last));
    }
  }

  lemma SliceIsDate(c: Civil)
    requires Valid(c) && 0 <= c.year <= 9999
    ensures IsIsoDate(IsoSlice(c))
  {
    SliceThenRead(c);
  }

  lemma MoreDates(date: string, rest: seq<string>)
    requires IsIsoDate(date) && AllDates(rest)
    ensures AllDates([date] + rest)
  {
  }

  lemma {:induction false} DaysOfMonthAreDates(year: nat, month: nat, day: nat, last: nat, thisYear: nat)
    requires year <= 9999
    ensures var r := DaysOfMonth(year, month, day, last, thisYear); r.Some? ==> AllDates(r.value)
    decreases last + 1 - day
  {
    if day <= last {
      DaysOfMonthAreDates(year, month, day + 1, last, thisYear);
      if IsoFromParts(year, month, day, thisYear).Some? {
        PrintThenRead(Civil(year, month, day));
      }
    }
  }

  lemma RangeGivesDates(startIso: string, endIso: string, thisYear: nat)
    ensures var r := ExpandIsoDateRange(startIso, endIso, thisYear); r.Some? ==> AllDates(r.value)
  {
    ParsedIsIsoDate(startIso, thisYear);
    ParsedIsIsoDate(endIso, thisYear);
    if ExpandIsoDateRange(startIso, endIso, thisYear).Some? {
      DaysFromAreDates(PartsOf(ParseThaiDateInput(startIso, thisYear).value), PartsOf(ParseThaiDateInput(endIso, thisYear).value));
    }
  }

  lemma SegmentGivesDates(segment: string, thisYear: nat)
    ensures var r := ParseSegment(segment, thisYear); r.Some? ==> AllDates(r.value)
  {
    var trimmed := Trim(segment);
    ParsedIsIsoDate(trimmed, thisYear);
    if trimmed != [] && ParseThaiDateInput(trimmed, thisYear).None? {
      match MatchDayRange(trimmed)
      case Some(DayRange(startDay, end)) =>
        YearFits(MatchNumber(trimmed, 1, 2).value.1[1..]);
        DaysOfMonthAreDates(end.year, end.month, startDay, end.day, thisYear);
      case None =>
        match MatchFullRange(trimmed)
        case Some((first, second)) =>
          RangeGivesDates(OrElse(ParseThaiDateInput(first, thisYear), first),
                          OrElse(ParseThaiDateInput(second, thisYear), second), thisYear);
        case None =>
    }
  }

  /** Every date a list gives is a date of the calendar. */
  lemma MultiGivesDates(text: string, thisYear: nat)
    ensures var r := ParseMulti(text, thisYear); r.Some? ==> r.value != [] && AllDates(r.value)
  {
    if ParseMulti(text, thisYear).Some? {
      var r, segments := ParseMulti(text, thisYear).value, Segments(text);
      MultiIsUnionOfSegments(text, thisYear, r);
      assert GivenBySome(segments, thisYear, ParseSegment(segments[0], thisYear).value[0]);
      forall i | 0 <= i < |r| ensures IsIsoDate(r[i]) {
        assert GivenBySome(segments, thisYear, r[i]);
        var k :| 0 <= k < |segments| && ParseSegment(segments[k], thisYear).Some? && r[i] in ParseSegment(segments[k], thisYear).value;
        SegmentGivesDates(segments[k], thisYear);
      }
    }
  }
}
