/** Which texts a segment of a date list can be, and what each of them means: exactly the days from its first to its last. */
module ThaiTexts {
  import opened Outcomes
  import opened JsText
  import opened Calendar
  import opened IsoDates
  import opened ThaiDates
  import opened StringSort
  import opened ThaiMultiDates
  import opened ThaiNotations
  import opened ThaiRanges

  /** The ways to write a segment: an ISO date, a typed date, days of one month, or two typed dates with a dash between. */
  datatype Notation =
    | Iso(iso: string)
    | Single(date: DateText)
    | Days(day: string, end: DateText)
    | Span(start: DateText, before: string, after: string, end: DateText)
  {
    predicate Wellformed() {
      match this
      case Iso(s) => IsIsoShape(s)
      case Single(t) => t.Wellformed()
      case Days(day, end) => DigitText(day, 2) && end.Wellformed()
      case Span(start, before, after, end) => start.Wellformed() && AllSpaces(before) && AllSpaces(after) && end.Wellformed()
    }

    function Text(): string {
      match this
      case Iso(s) => s
      case Single(t) => t.Text()
      case Days(day, end) => day + ("-" + end.Text())
      case Span(start, before, after, end) => start.Text() + (before + ("-" + (after + end.Text())))
    }

    function First(): Civil
      requires Wellformed()
    {
      match this
      case Iso(s) => PartsOf(s)
      case Single(t) => DateOf(t)
      case Days(day, end) => DateOf(end).(day := WholeValue(day))
      case Span(start, _, _, _) => DateOf(start)
    }

    function Last(): Civil
      requires Wellformed()
    {
      match this
      case Iso(s) => PartsOf(s)
      case Single(t) => DateOf(t)
      case Days(_, end) => DateOf(end)
      case Span(_, _, _, end) => DateOf(end)
    }

    /** Both ends are dates in the accepted years and in order; an ISO date may have any year. */
    predicate Accepted(thisYear: nat)
      requires Wellformed()
    {
      && Valid(First()) && Valid(Last()) && DayNumber(First()) <= DayNumber(Last())
      && if Iso? then iso != "0000-02-29" else 1900 <= First().year <= thisYear + 1 && 1900 <= Last().year <= thisYear + 1
    }
  }

  function DateOf(t: DateText): Civil
    requires t.Wellformed()
  {
    Civil(WholeValue(t.year), WholeValue(t.month), WholeValue(t.day))
  }

  // ---- The texts that match ----

  lemma NumberText(s: string, least: nat, most: nat) returns (d: string)
    requires MatchNumber(s, least, most).Some?
    ensures var (v, rest) := MatchNumber(s, least, most).value;
            AllIn(d, IsDigit) && least <= |d| <= most && s == d + rest && v == WholeValue(d) && NoDigitFirst(rest)
  {
    d := s[..SpanEnd(s, 0, IsDigit)];
  }

  lemma PrefixText(s: string) returns (t: DateText)
    requires MatchDmyPrefix(s).Some?
    ensures var (v, rest) := MatchDmyPrefix(s).value;
            t.Wellformed() && t.Value() == v && s == t.Text() + rest && NoDigitFirst(rest)
  {
    var day := NumberText(s, 1, 2);
    var s1 := MatchNumber(s, 1, 2).value.1;
    var month := NumberText(s1[1..], 1, 2);
    var s3 := MatchNumber(s1[1..], 1, 2).value.1;
    var year := NumberText(s3[1..], 4, 4);
    t := DateText(day, s1[0], month, s3[0], year);
    var rest := MatchNumber(s3[1..], 4, 4).value.1;
    TextAssembles(t, rest);
    assert s1 == [s1[0]] + s1[1..] && s3 == [s3[0]] + s3[1..];
  }

  /** The texts a single date matches are exactly the typed dates. */
  lemma DateTextExactly(s: string, v: Typed)
    ensures MatchDmy(s) == Some(v) <==> exists t: DateText :: t.Wellformed() && t.Text() == s && t.Value() == v
  {
    if MatchDmy(s) == Some(v) {
      var t := PrefixText(s);
      assert s == t.Text();
    }
    if t: DateText :| t.Wellformed() && t.Text() == s && t.Value() == v {
      DateTextIsDmy(t);
    }
  }

  lemma TypedText(s: string) returns (t: DateText)
    requires MatchDmy(s).Some?
    ensures t.Wellformed() && t.Text() == s && t.Value() == MatchDmy(s).value
  {
    DateTextExactly(s, MatchDmy(s).value);
    t :| t.Wellformed() && t.Text() == s && t.Value() == MatchDmy(s).value;
  }

  lemma DashFirst(s: string)
    requires s != [] && s[0] == '-'
    ensures s == "-" + s[1..]
  {
  }

  lemma DayThenDash(s: string) returns (day: string, tail: string)
    requires MatchDayRange(s).Some?
    ensures DigitText(day, 2) && s == day + ("-" + tail) && MatchDmy(tail).Some?
  {
    day := NumberText(s, 1, 2);
    var rest := MatchNumber(s, 1, 2).value.1;
    tail := rest[1..];
    DashFirst(rest);
  }

  lemma DaysText(s: string) returns (day: string, end: DateText)
    requires MatchDayRange(s).Some?
    ensures DigitText(day, 2) && end.Wellformed() && s == day + ("-" + end.Text())
  {
    var tail;
    day, tail := DayThenDash(s);
    end := TypedText(tail);
  }

  lemma SpacesBefore(s: string) returns (spaces: string)
    ensures AllSpaces(spaces) && s == spaces + TrimStart(s)
  {
    spaces := s[..SpanEnd(s, 0, IsSpace)];
  }

  /** What stands between and after: spaces, the dash, spaces, and a typed date. */
  lemma SpanTail(rest: string) returns (before: string, after: string, end: DateText)
    requires var gap := TrimStart(rest); gap != [] && gap[0] == '-' && MatchDmy(TrimStart(gap[1..])).Some?
    ensures AllSpaces(before) && AllSpaces(after) && end.Wellformed() && rest == before + ("-" + (after + end.Text()))
  {
    var gap := TrimStart(rest);
    var date := TrimStart(gap[1..]);
    before := SpacesBefore(rest);
    after := SpacesBefore(gap[1..]);
    DashFirst(gap);
    assert rest == before + ("-" + (after + date));
    end := TypedText(date);
  }

  lemma SpanText(s: string) returns (start: DateText, before: string, after: string, end: DateText)
    requires MatchFullRange(s).Some?
    ensures start.Wellformed() && AllSpaces(before) && AllSpaces(after) && end.Wellformed()
    ensures s == start.Text() + (before + ("-" + (after + end.Text())))
  {
    start := PrefixText(s);
    before, after, end := SpanTail(MatchDmyPrefix(s).value.1);
  }

  // ---- The days of a range ----

  /** A text is a date's own exactly when it is a date with its parts. */
  lemma SliceExactly(c: Civil, s: string)
    requires Valid(c) && 0 <= c.year <= 9999
    ensures s == IsoSlice(c) <==> IsIsoDate(s) && DayNumber(PartsOf(s)) == DayNumber(c)
  {
    SliceThenRead(c);
    if IsIsoDate(s) {
      StringOrderIsDayOrder(s, IsoSlice(c));
    }
  }

  predicate Between(first: Civil, s: string, last: Civil)
    requires Valid(first) && Valid(last)
  {
    IsIsoDate(s) && DayNumber(first) <= DayNumber(PartsOf(s)) <= DayNumber(last)
  }

  /** The cursor loop lists the dates from the first to the last and no others. */
  lemma {:induction false} DaysFromExactly(first: Civil, last: Civil, s: string)
    requires Valid(first) && Valid(last) && first.year >= 0 && last.year <= 9999
    ensures s in DaysFrom(first, last) <==> Between(first, s, last)
    decreases DayNumber(last) + 1 - DayNumber(first)
  {
    if DayNumber(first) <= DayNumber(last) {
      var next := AddDays(first, 1);
      LaterYear(first, last);
      NextDay(first);
      FirstDay(first, last);
      SliceExactly(first, s);
      DaysFromExactly(next, last, s);
      assert s in DaysFrom(first, last) <==> s == IsoSlice(first) || s in DaysFrom(next, last);
    }
  }

  /** The result gives exactly the days of the notation when it is accepted, and nothing otherwise. */
  ghost predicate Means(r: Dates, n: Notation, thisYear: nat)
    requires n.Wellformed()
  {
    && (r.Some? <==> n.Accepted(thisYear))
    && (n.Accepted(thisYear) && r.Some? ==> forall s :: s in r.value <==> Between(n.First(), s, n.Last()))
  }

  lemma OneDayMeans(r: Dates, n: Notation, iso: string, thisYear: nat)
    requires n.Wellformed() && n.Accepted(thisYear) && n.First() == n.Last()
    requires r == Some([iso]) && IsIsoDate(iso) && PartsOf(iso) == n.First()
    ensures Means(r, n, thisYear)
  {
    forall s ensures s in [iso] <==> Between(n.First(), s, n.Last()) {
      if IsIsoDate(s) {
        StringOrderIsDayOrder(s, iso);
      }
    }
  }

  lemma LoopMeans(r: Dates, n: Notation, thisYear: nat)
    requires n.Wellformed() && n.Accepted(thisYear) && 0 <= n.First().year && n.Last().year <= 9999
    requires r == Some(DaysFrom(n.First(), n.Last()))
    ensures Means(r, n, thisYear)
  {
    forall s ensures s in r.value <==> Between(n.First(), s, n.Last()) {
      DaysFromExactly(n.First(), n.Last(), s);
    }
  }

  // ---- Each notation ----

  lemma IsoMeans(s: string, thisYear: nat)
    requires IsIsoShape(s)
    ensures Means(ParseSegment(s, thisYear), Iso(s), thisYear)
  {
    IsoIsTrimmed(s);
    IsoInputParsesExactly(s, thisYear);
    if IsIsoDate(s) && s != "0000-02-29" {
      OneDayMeans(ParseSegment(s, thisYear), Iso(s), s, thisYear);
    } else {
      IsoIsNoRange(s);
    }
  }

  lemma IsoIsNoRange(s: string)
    requires IsIsoShape(s)
    ensures MatchDmyPrefix(s) == None && MatchDayRange(s) == None && MatchFullRange(s) == None
  {
    forall k | 0 <= k < 4 ensures IsDigit(s[k]) {
      assert IsDigitAt(k);
    }
    SpanStopsAt(s, 0, 4, IsDigit);
    assert MatchNumber(s, 1, 2) == None;
  }

  lemma SingleMeans(t: DateText, thisYear: nat)
    requires t.Wellformed()
    ensures Means(ParseSegment(t.Text(), thisYear), Single(t), thisYear)
  {
    DateTextSegment(t, thisYear);
    FourDigits(t.year);
    var v := t.Value();
    PartsMakeADate(v.year, v.month, v.day, thisYear);
    var iso := IsoFromParts(v.year, v.month, v.day, thisYear);
    if iso.Some? {
      OneDayMeans(ParseSegment(t.Text(), thisYear), Single(t), iso.value, thisYear);
    }
  }

  lemma DaysMean(day: string, end: DateText, thisYear: nat)
    requires DigitText(day, 2) && end.Wellformed()
    ensures Means(ParseSegment(Days(day, end).Text(), thisYear), Days(day, end), thisYear)
  {
    var n := Days(day, end);
    var a, e := WholeValue(day), end.Value();
    FourDigits(end.year);
    DayRangeSegment(day, end, thisYear);
    PartsMakeADate(e.year, e.month, a, thisYear);
    PartsMakeADate(e.year, e.month, e.day, thisYear);
    DaysOfMonthNeedsAll(e.year, e.month, a, e.day, thisYear);
    if Valid(n.First()) && Valid(n.Last()) {
      OrderIsDayNumber(n.Last(), n.First());
    }
    if n.Accepted(thisYear) {
      BothLoopsAgree(e.year, e.month, a, e.day, thisYear);
      LoopMeans(ParseSegment(n.Text(), thisYear), n, thisYear);
    }
  }

  lemma FullRangeRead(s: string, first: string, second: string, thisYear: nat)
    requires s != [] && Trim(s) == s && !IsIsoShape(s) && MatchDmy(s) == None && MatchDayRange(s) == None
    requires MatchFullRange(s) == Some((first, second))
    ensures ParseSegment(s, thisYear)
         == ExpandIsoDateRange(OrElse(ParseThaiDateInput(first, thisYear), first),
                               OrElse(ParseThaiDateInput(second, thisYear), second), thisYear)
  {
  }

  lemma SpanIsExpanded(start: DateText, before: string, after: string, end: DateText, thisYear: nat)
    requires start.Wellformed() && end.Wellformed() && AllSpaces(before) && AllSpaces(after)
    ensures ParseSegment(FullRangeText(start, before, after, end), thisYear)
         == ExpandIsoDateRange(OrElse(ParseThaiDateInput(start.Text(), thisYear), start.Text()),
                               OrElse(ParseThaiDateInput(end.Text(), thisYear), end.Text()), thisYear)
  {
    AfterStart(before, after, end);
    FullRangeShape(start, before, after, end);
    FullRangeMatches(start, before, after, end);
    FullRangeIsNotDayRange(start, before + ("-" + (after + end.Text())));
    FullRangeRead(FullRangeText(start, before, after, end), start.Text(), end.Text(), thisYear);
  }

  /** The end of a range is parsed once more from what it parsed to, or from its text again. */
  lemma ParsedTwice(t: DateText, thisYear: nat)
    requires t.Wellformed()
    ensures ParseThaiDateInput(OrElse(ParseThaiDateInput(t.Text(), thisYear), t.Text()), thisYear) == ParseThaiDateInput(t.Text(), thisYear)
  {
    if ParseThaiDateInput(t.Text(), thisYear).Some? {
      ParseIsIdempotent(t.Text(), thisYear);
    }
  }

  lemma SpanMeans(start: DateText, before: string, after: string, end: DateText, thisYear: nat)
    requires start.Wellformed() && end.Wellformed() && AllSpaces(before) && AllSpaces(after)
    ensures Means(ParseSegment(Span(start, before, after, end).Text(), thisYear), Span(start, before, after, end), thisYear)
  {
    var n := Span(start, before, after, end);
    SpanIsExpanded(start, before, after, end, thisYear);
    ParsedTwice(start, thisYear);
    ParsedTwice(end, thisYear);
    TypedDateParsesExactly(start, thisYear);
    TypedDateParsesExactly(end, thisYear);
    var a, b := ParseThaiDateInput(start.Text(), thisYear), ParseThaiDateInput(end.Text(), thisYear);
    if a.Some? && b.Some? {
      StringOrderIsDayOrder(b.value, a.value);
      if n.Accepted(thisYear) {
        LoopMeans(ParseSegment(n.Text(), thisYear), n, thisYear);
      }
    }
  }

  // ---- Every segment ----

  lemma NotationMeans(n: Notation, thisYear: nat)
    requires n.Wellformed()
    ensures Means(ParseSegment(n.Text(), thisYear), n, thisYear)
  {
    match n
    case Iso(s) => IsoMeans(s, thisYear);
    case Single(t) => SingleMeans(t, thisYear);
    case Days(day, end) => DaysMean(day, end, thisYear);
    case Span(start, before, after, end) => SpanMeans(start, before, after, end, thisYear);
  }

  ghost predicate Writes(n: Notation, segment: string) {
    n.Wellformed() && n.Text() == Trim(segment)
  }

  lemma TrimmedSegment(segment: string, thisYear: nat)
    ensures ParseSegment(Trim(segment), thisYear) == ParseSegment(segment, thisYear)
  {
    TrimIsStable(segment);
  }

  /** A segment that parses is written in one of the four notations. */
  lemma ParsedIsNotation(segment: string, thisYear: nat) returns (n: Notation)
    requires ParseSegment(segment, thisYear).Some?
    ensures Writes(n, segment)
  {
    var s := Trim(segment);
    TrimIsStable(segment);
    if ParseThaiDateInput(s, thisYear).Some? {
      if IsIsoShape(s) {
        n := Iso(s);
      } else {
        var t := TypedText(s);
        n := Single(t);
      }
    } else if MatchDayRange(s).Some? {
      var day, end := DaysText(s);
      n := Days(day, end);
    } else {
      var start, before, after, end := SpanText(s);
      n := Span(start, before, after, end);
    }
  }

  /**
   A segment gives dates exactly when it is written in one of the notations and that is accepted;
   and it gives exactly the dates from the first to the last, whichever notation it is read as.
   */
  lemma SegmentMeansItsDays(segment: string, thisYear: nat)
    ensures ParseSegment(segment, thisYear).Some? <==> exists n: Notation :: Writes(n, segment) && n.Accepted(thisYear)
    ensures forall n: Notation :: Writes(n, segment) ==> Means(ParseSegment(segment, thisYear), n, thisYear)
  {
    forall n: Notation | Writes(n, segment) ensures Means(ParseSegment(segment, thisYear), n, thisYear) {
      NotationMeans(n, thisYear);
      TrimmedSegment(segment, thisYear);
    }
    if ParseSegment(segment, thisYear).Some? {
      var n := ParsedIsNotation(segment, thisYear);
      assert Writes(n, segment) && Means(ParseSegment(segment, thisYear), n, thisYear);
    }
  }

  // ---- Every list ----

  /** The comma-free parts of a text, the only ones that join to it. */
  lemma {:induction false} SplitExactly(text: string, parts: seq<string>)
    ensures parts == Split(text) <==> parts != [] && (forall k :: 0 <= k < |parts| ==> ',' !in parts[k]) && JoinCommas(parts) == text
  {
    JoinUndoesSplit(text);
    if parts != [] && (forall k :: 0 <= k < |parts| ==> ',' !in parts[k]) {
      SplitUndoesJoin(parts);
    }
  }

  lemma {:induction false} SplitUndoesJoin(parts: seq<string>)
    requires parts != [] && forall k :: 0 <= k < |parts| ==> ',' !in parts[k]
    ensures Split(JoinCommas(parts)) == parts
  {
    if |parts| == 1 {
      SplitWithoutComma(parts[0]);
      assert parts == [parts[0]];
    } else {
      SplitUndoesJoin(parts[1..]);
      SplitWord(parts[0], JoinCommas(parts[1..]));
      assert parts == [parts[0]] + parts[1..];
    }
  }

  lemma {:induction false} JoinUndoesSplit(text: string)
    ensures JoinCommas(Split(text)) == text && forall k :: 0 <= k < |Split(text)| ==> ',' !in Split(text)[k]
  {
    if text != [] {
      var rest := Split(text[1..]);
      JoinUndoesSplit(text[1..]);
      assert text == [text[0]] + text[1..];
      if text[0] == ',' {
        assert ([[]] + rest)[1..] == rest;
      } else {
        var parts := [[text[0]] + rest[0]] + rest[1..];
        assert parts[1..] == rest[1..];
        JoinWithLonger(text[0], rest);
      }
    }
  }

  lemma JoinWithLonger(c: char, rest: seq<string>)
    requires rest != []
    ensures JoinCommas([[c] + rest[0]] + rest[1..]) == [c] + JoinCommas(rest)
  {
    var parts := [[c] + rest[0]] + rest[1..];
    assert parts[1..] == rest[1..];
    if |rest| > 1 {
      assert ([c] + rest[0]) + ("," + JoinCommas(rest[1..])) == [c] + (rest[0] + ("," + JoinCommas(rest[1..])));
    }
  }

  predicate IsPart(parts: seq<string>, s: string) {
    exists k :: 0 <= k < |parts| && Trim(parts[k]) == s
  }

  /** The segments are the parts, trimmed, that are not blank. */
  lemma {:induction false} SegmentsAreParts(parts: seq<string>, s: string)
    ensures s in NonEmptyTrimmed(parts) <==> s != [] && IsPart(parts, s)
  {
    if parts != [] {
      SegmentsAreParts(parts[1..], s);
      assert IsPart(parts, s) <==> Trim(parts[0]) == s || IsPart(parts[1..], s) by {
        assert forall k :: 0 < k < |parts| ==> parts[k] == parts[1..][k - 1];
        assert forall k :: 0 <= k < |parts[1..]| ==> parts[1..][k] == parts[k + 1];
      }
    }
  }

  ghost predicate IsAccepted(part: string, thisYear: nat) {
    exists n: Notation :: Writes(n, part) && n.Accepted(thisYear)
  }

  ghost predicate Denotes(part: string, thisYear: nat, s: string) {
    exists n: Notation :: Writes(n, part) && n.Accepted(thisYear) && Between(n.First(), s, n.Last())
  }

  lemma FirstIsGiven(n: Notation, thisYear: nat) returns (s: string)
    requires n.Wellformed() && n.Accepted(thisYear)
    ensures Between(n.First(), s, n.Last())
  {
    match n {
      case Iso(_) =>
      case Single(t) => FourDigits(t.year);
      case Days(_, end) => FourDigits(end.year);
      case Span(start, _, _, _) => FourDigits(start.year);
    }
    SliceThenRead(n.First());
    s := IsoSlice(n.First());
  }

  /** What a segment gives, said of its parts in the notations alone. */
  lemma SegmentDenotes(part: string, thisYear: nat)
    ensures var r := ParseSegment(part, thisYear);
            && (r.Some? <==> IsAccepted(part, thisYear))
            && (r.Some? ==> r.value != [] && forall s :: s in r.value <==> Denotes(part, thisYear, s))
  {
    var r := ParseSegment(part, thisYear);
    SegmentMeansItsDays(part, thisYear);
    if r.Some? {
      var n: Notation :| Writes(n, part) && n.Accepted(thisYear);
      var first := FirstIsGiven(n, thisYear);
      assert Means(r, n, thisYear);
      forall s ensures s in r.value <==> Denotes(part, thisYear, s) {
        if Denotes(part, thisYear, s) {
          var m: Notation :| Writes(m, part) && m.Accepted(thisYear) && Between(m.First(), s, m.Last());
          assert Means(r, m, thisYear);
        }
      }
    }
  }

  /** Every part that is not blank is accepted, and there is one. */
  ghost predicate AllAccepted(parts: seq<string>, thisYear: nat) {
    && (exists k :: 0 <= k < |parts| && Trim(parts[k]) != [])
    && forall k :: 0 <= k < |parts| && Trim(parts[k]) != [] ==> IsAccepted(parts[k], thisYear)
  }

  ghost predicate SomeDenotes(parts: seq<string>, thisYear: nat, s: string) {
    exists k :: 0 <= k < |parts| && Denotes(parts[k], thisYear, s)
  }

  lemma TrimmedPart(part: string, thisYear: nat)
    ensures IsAccepted(Trim(part), thisYear) == IsAccepted(part, thisYear)
    ensures forall s :: Denotes(Trim(part), thisYear, s) == Denotes(part, thisYear, s)
  {
    TrimIsStable(part);
    assert forall n: Notation :: Writes(n, Trim(part)) == Writes(n, part);
  }

  lemma NothingIsWrittenBlank(part: string, thisYear: nat)
    requires Trim(part) == []
    ensures !IsAccepted(part, thisYear)
  {
    SegmentDenotes(part, thisYear);
  }

  lemma PartSucceeds(part: string, thisYear: nat)
    ensures var r := ParseSegment(Trim(part), thisYear); IsAccepted(part, thisYear) <==> r.Some? && r.value != []
  {
    TrimmedSegment(part, thisYear);
    SegmentDenotes(part, thisYear);
  }

  lemma PartsSucceed(parts: seq<string>, thisYear: nat)
    requires AllSucceed(NonEmptyTrimmed(parts), thisYear) && NonEmptyTrimmed(parts) != []
    ensures AllAccepted(parts, thisYear)
  {
    var segments := NonEmptyTrimmed(parts);
    SegmentsAreParts(parts, segments[0]);
    forall k | 0 <= k < |parts| && Trim(parts[k]) != [] ensures IsAccepted(parts[k], thisYear) {
      SegmentsAreParts(parts, Trim(parts[k]));
      var j :| 0 <= j < |segments| && segments[j] == Trim(parts[k]);
      PartSucceeds(parts[k], thisYear);
    }
  }

  lemma SegmentsSucceed(parts: seq<string>, thisYear: nat)
    requires AllAccepted(parts, thisYear)
    ensures AllSucceed(NonEmptyTrimmed(parts), thisYear) && NonEmptyTrimmed(parts) != []
  {
    var segments := NonEmptyTrimmed(parts);
    var first :| 0 <= first < |parts| && Trim(parts[first]) != [];
    SegmentsAreParts(parts, Trim(parts[first]));
    forall k | 0 <= k < |segments| ensures ParseSegment(segments[k], thisYear).Some? && ParseSegment(segments[k], thisYear).value != [] {
      SegmentsAreParts(parts, segments[k]);
      var j :| 0 <= j < |parts| && Trim(parts[j]) == segments[k];
      PartSucceeds(parts[j], thisYear);
    }
  }

  lemma SegmentsGive(parts: seq<string>, thisYear: nat, s: string)
    ensures GivenBySome(NonEmptyTrimmed(parts), thisYear, s) <==> SomeDenotes(parts, thisYear, s)
  {
    var segments := NonEmptyTrimmed(parts);
    if GivenBySome(segments, thisYear, s) {
      var k :| 0 <= k < |segments| && ParseSegment(segments[k], thisYear).Some? && s in ParseSegment(segments[k], thisYear).value;
      SegmentsAreParts(parts, segments[k]);
      var j :| 0 <= j < |parts| && Trim(parts[j]) == segments[k];
      SegmentDenotes(segments[k], thisYear);
      TrimmedPart(parts[j], thisYear);
    }
    if SomeDenotes(parts, thisYear, s) {
      var j :| 0 <= j < |parts| && Denotes(parts[j], thisYear, s);
      if Trim(parts[j]) == [] { NothingIsWrittenBlank(parts[j], thisYear); }
      SegmentsAreParts(parts, Trim(parts[j]));
      SegmentDenotes(parts[j], thisYear);
      TrimmedSegment(parts[j], thisYear);
      var k :| 0 <= k < |segments| && segments[k] == Trim(parts[j]);
    }
  }

  /**
   A date list gives dates exactly when one of its comma-separated parts is not blank and all such parts are accepted;
   the result is then the strictly ascending list of exactly the dates its parts denote.
   */
  lemma ListMeansItsDays(text: string, thisYear: nat)
    ensures var r, parts := ParseMulti(text, thisYear), Split(Trim(text));
            && (r.Some? <==> AllAccepted(parts, thisYear))
            && (r.Some? ==> StrictlySorted(r.value) && forall s :: s in r.value <==> SomeDenotes(parts, thisYear, s))
  {
    var r, parts := ParseMulti(text, thisYear), Split(Trim(text));
    if AllAccepted(parts, thisYear) { SegmentsSucceed(parts, thisYear); }
    if r.Some? {
      MultiIsUnionOfSegments(text, thisYear, r.value);
      PartsSucceed(parts, thisYear);
      forall s ensures s in r.value <==> SomeDenotes(parts, thisYear, s) {
        SegmentsGive(parts, thisYear, s);
      }
    } else {
      MultiIsUnionOfSegments(text, thisYear, []);
    }
  }
}
