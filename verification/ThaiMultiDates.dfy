/** Many dates in one text: comma lists of single dates, day ranges and full ranges. */
module ThaiMultiDates {
  import opened Outcomes
  import opened JsText
  import opened Calendar
  import opened IsoDates
  import opened StringSort
  import opened ThaiDates

  type Dates = Option<seq<string>>

  lemma LaterYear(c: Civil, d: Civil)
    requires Valid(c) && Valid(d) && DayNumber(c) <= DayNumber(d)
    ensures c.year <= d.year
  {
    OrderIsDayNumber(d, c);
  }

  /** The texts of the days from one date to another, both included. */
  function DaysFrom(cursor: Civil, last: Civil): seq<string>
    requires Valid(cursor) && Valid(last) && cursor.year >= 0 && last.year <= 9999
    decreases DayNumber(last) + 1 - DayNumber(cursor)
  {
    if DayNumber(cursor) > DayNumber(last) then []
    else
      LaterYear(cursor, last);
      LaterYear(cursor, AddDays(cursor, 1));
      [IsoSlice(cursor)] + DaysFrom(AddDays(cursor, 1), last)
  }

  function ExpandIsoDateRange(startIso: string, endIso: string, thisYear: nat): Dates {
    ParsedIsIsoDate(startIso, thisYear);
    ParsedIsIsoDate(endIso, thisYear);
    match (ParseThaiDateInput(startIso, thisYear), ParseThaiDateInput(endIso, thisYear))
    case (Some(start), Some(end)) =>
      if StrLess(end, start) then None else Some(DaysFrom(PartsOf(start), PartsOf(end)))
    case (_, _) => None
  }

  method ExpandRange(startIso: string, endIso: string, thisYear: nat) returns (r: Dates)
    ensures r == ExpandIsoDateRange(startIso, endIso, thisYear)
  {
    var start, end := ParseThaiDateInput(startIso, thisYear), ParseThaiDateInput(endIso, thisYear);
    if start.None? || end.None? { return None; }
    if StrLess(end.value, start.value) { return None; }
    ParsedIsIsoDate(startIso, thisYear);
    ParsedIsIsoDate(endIso, thisYear);
    var dates := DaysUpTo(PartsOf(start.value), PartsOf(end.value));
    return Some(dates);
  }

  /** The cursor loop of the range. */
  method DaysUpTo(start: Civil, last: Civil) returns (dates: seq<string>)
    requires Valid(start) && Valid(last) && start.year >= 0 && last.year <= 9999
    ensures dates == DaysFrom(start, last)
  {
    dates := [];
    assert [] + DaysFrom(start, last) == DaysFrom(start, last);
    var cursor := start;
    while DayNumber(cursor) <= DayNumber(last)
      invariant Valid(cursor) && cursor.year >= 0
      invariant dates + DaysFrom(cursor, last) == DaysFrom(start, last)
      decreases DayNumber(last) + 1 - DayNumber(cursor)
    {
      LaterYear(cursor, last);
      NextDay(cursor);
      FirstDay(cursor, last);
      AppendFirst(dates, IsoSlice(cursor), DaysFrom(AddDays(cursor, 1), last));
      dates := dates + [IsoSlice(cursor)];
      cursor := AddDays(cursor, 1);
    }
    NoDaysLeft(cursor, last);
    assert dates + [] == dates;
  }

  lemma NoDaysLeft(cursor: Civil, last: Civil)
    requires Valid(cursor) && Valid(last) && cursor.year >= 0 && last.year <= 9999 && DayNumber(cursor) > DayNumber(last)
    ensures DaysFrom(cursor, last) == []
  {
  }

  lemma AppendFirst(dates: seq<string>, first: string, rest: seq<string>)
    ensures dates + ([first] + rest) == (dates + [first]) + rest
  {
  }

  lemma NextDay(c: Civil)
    requires Valid(c) && c.year >= 0
    ensures var next := AddDays(c, 1); Valid(next) && next.year >= 0 && DayNumber(next) == DayNumber(c) + 1
  {
    LaterYear(c, AddDays(c, 1));
  }

  lemma FirstDay(cursor: Civil, last: Civil)
    requires Valid(cursor) && Valid(last) && 0 <= cursor.year <= 9999 && last.year <= 9999 && DayNumber(cursor) <= DayNumber(last)
    requires Valid(AddDays(cursor, 1)) && AddDays(cursor, 1).year >= 0
    ensures DaysFrom(cursor, last) == [IsoSlice(cursor)] + DaysFrom(AddDays(cursor, 1), last)
  {
  }

  /** The days from one to another of one month, or nothing when one of them does not exist. */
  function DaysOfMonth(year: nat, month: nat, day: nat, last: nat, thisYear: nat): Dates
    decreases last + 1 - day
  {
    if day > last then Some([])
    else
      match (IsoFromParts(year, month, day, thisYear), DaysOfMonth(year, month, day + 1, last, thisYear))
      case (Some(iso), Some(rest)) => Some([iso] + rest)
      case (_, _) => None
  }

  /** The day loop of a range inside one month. */
  method DaysInRange(year: nat, month: nat, first: nat, last: nat, thisYear: nat) returns (r: Dates)
    ensures r == DaysOfMonth(year, month, first, last, thisYear)
  {
    var dates: seq<string> := [];
    var day := first;
    AfterNone(DaysOfMonth(year, month, first, last, thisYear));
    while day <= last
      invariant first <= day
      invariant DaysOfMonth(year, month, first, last, thisYear) == After(dates, DaysOfMonth(year, month, day, last, thisYear))
      decreases last + 1 - day
    {
      var iso := IsoFromParts(year, month, day, thisYear);
      if iso.None? { return None; }
      AfterMoves(dates, iso.value, DaysOfMonth(year, month, day + 1, last, thisYear));
      dates := dates + [iso.value];
      day := day + 1;
    }
    assert dates + [] == dates;
    return Some(dates);
  }

  function After(found: seq<string>, rest: Dates): Dates {
    if rest.None? then None else Some(found + rest.value)
  }

  lemma AfterMoves(found: seq<string>, iso: string, rest: Dates)
    ensures After(found, After([iso], rest)) == After(found + [iso], rest)
  {
    if rest.Some? {
      assert found + ([iso] + rest.value) == found + [iso] + rest.value;
    }
  }

  lemma AfterNone(rest: Dates)
    ensures After([], rest) == rest
  {
    if rest.Some? {
      assert [] + rest.value == rest.value;
    }
  }

  function ParseSegment(segment: string, thisYear: nat): Dates {
    var trimmed := Trim(segment);
    if trimmed == [] then None
    else if ParseThaiDateInput(trimmed, thisYear).Some? then Some([ParseThaiDateInput(trimmed, thisYear).value])
    else
      match MatchDayRange(trimmed)
      case Some(DayRange(startDay, end)) =>
        if end.day < startDay then None else DaysOfMonth(end.year, end.month, startDay, end.day, thisYear)
      case None =>
        match MatchFullRange(trimmed)
        case None => None
        case Some((first, second)) =>
          ExpandIsoDateRange(OrElse(ParseThaiDateInput(first, thisYear), first),
                             OrElse(ParseThaiDateInput(second, thisYear), second), thisYear)
  }

  function OrElse(o: Option<string>, default: string): string {
    if o.Some? then o.value else default
  }

  method ParseThaiMultiDateSegment(segment: string, thisYear: nat) returns (r: Dates)
    ensures r == ParseSegment(segment, thisYear)
  {
    var trimmed := Trim(segment);
    if trimmed == [] { return None; }
    var single := ParseThaiDateInput(trimmed, thisYear);
    if single.Some? { return Some([single.value]); }
    var dayRange := MatchDayRange(trimmed);
    if dayRange.Some? {
      var DayRange(startDay, end) := dayRange.value;
      if end.day < startDay { return None; }
      r := DaysInRange(end.year, end.month, startDay, end.day, thisYear);
      return;
    }
    var fullRange := MatchFullRange(trimmed);
    if fullRange.Some? {
      var (first, second) := fullRange.value;
      r := ExpandRange(OrElse(ParseThaiDateInput(first, thisYear), first),
                       OrElse(ParseThaiDateInput(second, thisYear), second), thisYear);
      return;
    }
    return None;
  }

  // ---- Comma lists ----

  /** text.split(',') */
  function Split(text: string): (parts: seq<string>)
    ensures parts != []
  {
    if text == [] then [[]]
    else
      var rest := Split(text[1..]);
      if text[0] == ',' then [[]] + rest else [[text[0]] + rest[0]] + rest[1..]
  }

  /** The parts trimmed, the empty ones dropped. */
  function NonEmptyTrimmed(parts: seq<string>): (segments: seq<string>)
    ensures forall k :: 0 <= k < |segments| ==> segments[k] != []
  {
    if parts == [] then []
    else (if Trim(parts[0]) == [] then [] else [Trim(parts[0])]) + NonEmptyTrimmed(parts[1..])
  }

  function Segments(text: string): seq<string> {
    NonEmptyTrimmed(Split(Trim(text)))
  }

  /** The first occurrence of each text, in order: [...new Set(xs)]. */
  function Distinct(xs: seq<string>): seq<string> {
    if xs == [] then []
    else
      var front := Distinct(xs[..|xs| - 1]);
      if xs[|xs| - 1] in front then front else front + [xs[|xs| - 1]]
  }

  /** What each segment gives. */
  function Parsed(segments: seq<string>, thisYear: nat): (results: seq<Dates>)
    ensures |results| == |segments|
    ensures forall k :: 0 <= k < |segments| ==> results[k] == ParseSegment(segments[k], thisYear)
  {
    seq(|segments|, i requires 0 <= i < |segments| => ParseSegment(segments[i], thisYear))
  }

  /** The dates of all segments one after the other, or nothing when a segment failed or is empty. */
  function Gather(results: seq<Dates>): Dates {
    if results == [] then Some([])
    else
      match (Gather(results[..|results| - 1]), results[|results| - 1])
      case (Some(front), Some(last)) => if last == [] then None else Some(front + last)
      case (_, _) => None
  }

  predicate LooksLikeDayRange(text: string) {
    var m := MatchNumber(text, 1, 2);
    m.Some? && m.value.1 != [] && m.value.1[0] == '-' &&
    var n := MatchNumber(m.value.1[1..], 1, 2);
    n.Some? && MatchSeparator(n.value.1).Some?
  }

  function ParseMulti(text: string, thisYear: nat): Dates {
    var trimmed := Trim(text);
    var single := ParseThaiDateInput(trimmed, thisYear);
    if trimmed == [] then None
    else if single.Some? && ',' !in trimmed && !LooksLikeDayRange(trimmed) then Some([single.value])
    else if Segments(text) == [] then None
    else
      match Gather(Parsed(Segments(text), thisYear))
      case None => None
      case Some(isoDates) => Some(Sort(Distinct(isoDates)))
  }

  method ParseThaiMultiDateInput(text: string, thisYear: nat) returns (r: Dates)
    ensures r == ParseMulti(text, thisYear)
  {
    var trimmed := Trim(text);
    if trimmed == [] { return None; }
    var single := ParseThaiDateInput(trimmed, thisYear);
    if single.Some? && ',' !in trimmed && !LooksLikeDayRange(trimmed) { return Some([single.value]); }
    var segments := Segments(text);
    if segments == [] { return None; }
    var isoDates := ParseSegments(segments, thisYear);
    if isoDates.None? { return None; }
    return Some(Sort(Distinct(isoDates.value)));
  }

  /** The segment loop. */
  method ParseSegments(segments: seq<string>, thisYear: nat) returns (r: Dates)
    ensures r == Gather(Parsed(segments, thisYear))
  {
    ghost var results := Parsed(segments, thisYear);
    var isoDates: seq<string> := [];
    var i := 0;
    while i < |segments|
      invariant i <= |segments| == |results|
      invariant Gather(results[..i]) == Some(isoDates)
    {
      var parsed := ParseThaiMultiDateSegment(segments[i], thisYear);
      GatherNext(results, i, parsed);
      if parsed.None? || parsed.value == [] { return None; }
      isoDates := isoDates + parsed.value;
      i := i + 1;
    }
    assert results[..i] == results;
    return Some(isoDates);
  }

  lemma GatherNext(results: seq<Dates>, n: nat, last: Dates)
    requires n < |results| && results[n] == last && Gather(results[..n]).Some?
    ensures if last.None? || last.value == [] then Gather(results) == None
            else Gather(results[..n + 1]) == Some(Gather(results[..n]).value + last.value)
  {
    assert results[..n + 1][..n] == results[..n];
    if last.None? || last.value == [] {
      GatherFails(results, n + 1);
    }
  }

  lemma {:induction false} GatherFails(results: seq<Dates>, n: nat)
    requires n <= |results| && Gather(results[..n]).None?
    ensures Gather(results).None?
  {
    if n < |results| {
      assert results[..|results| - 1][..n] == results[..n];
      GatherFails(results[..|results| - 1], n);
    } else {
      assert results[..n] == results;
    }
  }
}
