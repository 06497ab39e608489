/**
 Bangkok wall-clock time over UTC instants, with the zone fixed at UTC+7. Instants count
 milliseconds from the epoch (ECMA-262 section 21.4.1.1).
 */
module BangkokTime {
  import opened Outcomes
  import opened JsText
  import opened Calendar
  import opened IsoDates

  const MINUTE_MS: int := 60_000
  const HOUR_MS: int := 3_600_000
  const DAY_MS: int := 86_400_000
  const BANGKOK_OFFSET_MS: int := 7 * HOUR_MS

  type Instant = int

  // ---- Reading the wall clock ----

  /** The day number and the milliseconds since midnight of the Bangkok wall clock. */
  function LocalDay(t: Instant): int {
    (t + BANGKOK_OFFSET_MS) / DAY_MS
  }

  function LocalMs(t: Instant): int {
    (t + BANGKOK_OFFSET_MS) % DAY_MS
  }

  function WorkDate(t: Instant): Civil {
    FromDays(LocalDay(t))
  }

  /** Instants whose Bangkok date has a four-digit year. */
  predicate Printable(t: Instant) {
    1000 <= WorkDate(t).year <= 9999
  }

  function WorkDateString(t: Instant): string
    requires Printable(t)
  {
    IsoText(WorkDate(t))
  }

  function MinutesSinceMidnight(t: Instant): (m: nat)
    ensures m < 1440
  {
    LocalMs(t) / MINUTE_MS
  }

  function MinuteKey(t: Instant): string
    requires Printable(t)
  {
    var mins := MinutesSinceMidnight(t);
    WorkDateString(t) + ":" + Pad2(mins / 60) + ":" + Pad2(mins % 60)
  }

  // ---- Writing wall-clock times ----

  datatype TimeParts = TimeParts(hours: nat, minutes: nat)

  predicate IsTimeSeparator(c: char) {
    c == '.' || c == ':'
  }

  /** ^(\d{1,2})[.:](\d{2})$ with hours up to 23 and minutes up to 59 */
  function ParseTime(s: string): Option<TimeParts> {
    var n := SpanEnd(s, 0, IsDigit);
    if !(1 <= n <= 2) || n == |s| || !IsTimeSeparator(s[n]) || |s| != n + 3 || !IsDigit(s[n + 1]) || !IsDigit(s[n + 2]) then None
    else
      assert AllIn(s[n + 1..], IsDigit);
      var hours, minutes := WholeValue(s[..n]), WholeValue(s[n + 1..]);
      if hours > 23 || minutes > 59 then None else Some(TimeParts(hours, minutes))
  }

  function ParseThaiTimeInput(input: string): Option<TimeParts> {
    ParseTime(Trim(input))
  }

  function NormalizeThaiTimeInput(input: string): Option<string> {
    var parts := ParseThaiTimeInput(input);
    if parts.None? then None else Some(Pad2(parts.value.hours) + ":" + Pad2(parts.value.minutes))
  }

  /** The instant of a date and a wall-clock time in a zone so many milliseconds ahead of UTC. */
  function At(c: Civil, hours: int, minutes: int, offsetMs: int): Instant
    requires Valid(c)
  {
    DayNumber(c) * DAY_MS + hours * HOUR_MS + minutes * MINUTE_MS - offsetMs
  }

  function CombineBangkokWorkDateAndTime(workDateIso: string, timeInput: string): Option<Instant>
    requires IsIsoDate(workDateIso)
  {
    var parts := ParseThaiTimeInput(Trim(timeInput));
    if parts.None? then None
    else Some(At(PartsOf(workDateIso), parts.value.hours, parts.value.minutes, BANGKOK_OFFSET_MS))
  }

  /** The old bug: the local hours and minutes were set as UTC hours on the work date. */
  function BuggyWrite(workDateIso: string, hours: int, minutes: int): Instant
    requires IsIsoDate(workDateIso)
  {
    At(PartsOf(workDateIso), hours, minutes, 0)
  }

  function UtcHours(t: Instant): (h: nat)
    ensures h < 24
  {
    t % DAY_MS / HOUR_MS
  }

  function UtcMinutes(t: Instant): (m: nat)
    ensures m < 60
  {
    t % HOUR_MS / MINUTE_MS
  }

  function RepairUtcHoursStoredAsBangkok(wrong: Instant, workDateIso: string): Option<Instant>
    requires IsIsoDate(workDateIso)
  {
    var utcH, utcM := UtcHours(wrong), UtcMinutes(wrong);
    if wrong % MINUTE_MS != 0 then None
    else if utcH < 7 then None
    else if BuggyWrite(workDateIso, utcH, utcM) != wrong then None
    else
      var correct := CombineBangkokWorkDateAndTime(workDateIso, Digits(utcH) + ":" + Pad2(utcM));
      if correct.None? || correct.value == wrong then None else correct
  }

  // ---- Time text ----

  /** An hour text, a point or colon and two minute digits are read as the time they write. */
  lemma TimeTextParses(hourText: string, c: char, minutes: nat)
    requires 1 <= |hourText| <= 2 && AllIn(hourText, IsDigit) && WholeValue(hourText) <= 23 && IsTimeSeparator(c) && minutes <= 59
    ensures var s := hourText + [c] + Pad2(minutes);
            Trim(s) == s && ParseThaiTimeInput(s) == Some(TimeParts(WholeValue(hourText), minutes))
  {
    Pad2IsTwoDigits(minutes);
    TimeTextReads(hourText, c, Pad2(minutes));
  }

  lemma TimeTextReads(hourText: string, c: char, minuteText: string)
    requires 1 <= |hourText| <= 2 && AllIn(hourText, IsDigit) && WholeValue(hourText) <= 23 && IsTimeSeparator(c)
    requires |minuteText| == 2 && AllIn(minuteText, IsDigit) && WholeValue(minuteText) <= 59
    ensures var s := hourText + [c] + minuteText;
            Trim(s) == s && ParseThaiTimeInput(s) == Some(TimeParts(WholeValue(hourText), WholeValue(minuteText)))
  {
    TimeTextParts(hourText, c, minuteText);
    TimeTextIsTrimmed(hourText, c, minuteText);
    PartsParse(hourText + [c] + minuteText, |hourText|, hourText, minuteText);
  }

  lemma TimeTextIsTrimmed(hourText: string, c: char, minuteText: string)
    requires hourText != [] && AllIn(hourText, IsDigit) && |minuteText| == 2 && AllIn(minuteText, IsDigit)
    ensures var s := hourText + [c] + minuteText; Trim(s) == s
  {
    var s := hourText + [c] + minuteText;
    assert s[0] == hourText[0] && s[|s| - 1] == minuteText[1];
    TrimKeeps(s);
  }

  /** Where the digits of the hour end, and what the parts are. */
  lemma TimeTextParts(hourText: string, c: char, minuteText: string)
    requires hourText != [] && AllIn(hourText, IsDigit) && !IsDigit(c) && |minuteText| == 2 && AllIn(minuteText, IsDigit)
    ensures var s, n := hourText + [c] + minuteText, |hourText|;
            && SpanEnd(s, 0, IsDigit) == n && |s| == n + 3 && s[..n] == hourText && s[n] == c && s[n + 1..] == minuteText
            && s[n + 1] == minuteText[0] && s[n + 2] == minuteText[1]
  {
    var s, n := hourText + [c] + minuteText, |hourText|;
    assert forall k :: 0 <= k < n ==> s[k] == hourText[k];
    SpanStopsAt(s, 0, n, IsDigit);
  }

  lemma PartsParse(s: string, n: nat, hourText: string, minuteText: string)
    requires SpanEnd(s, 0, IsDigit) == n && 1 <= n <= 2 && |s| == n + 3 && IsTimeSeparator(s[n])
    requires s[..n] == hourText && s[n + 1..] == minuteText && AllIn(hourText, IsDigit) && AllIn(minuteText, IsDigit)
    requires s[n + 1] == minuteText[0] && s[n + 2] == minuteText[1] && WholeValue(hourText) <= 23 && WholeValue(minuteText) <= 59
    ensures ParseTime(s) == Some(TimeParts(WholeValue(hourText), WholeValue(minuteText)))
  {
  }

  /** A time as typed: one or two digits, a point or a colon, and two digits. */
  ghost predicate IsTimeText(s: string, hourText: string, c: char, minuteText: string) {
    && s == hourText + [c] + minuteText && c in ".:" && AllIn(hourText, IsDigit) && AllIn(minuteText, IsDigit)
    && 1 <= |hourText| <= 2 && |minuteText| == 2
  }

  ghost predicate WritesTime(s: string, t: TimeParts) {
    exists hourText, c, minuteText ::
      IsTimeText(s, hourText, c, minuteText) && WholeValue(hourText) == t.hours && WholeValue(minuteText) == t.minutes
  }

  lemma ParsedIsWritten(s: string, t: TimeParts)
    requires ParseTime(s) == Some(t)
    ensures WritesTime(s, t) && t.hours <= 23 && t.minutes <= 59
  {
    var n := SpanEnd(s, 0, IsDigit);
    assert s == s[..n] + [s[n]] + s[n + 1..];
    assert IsTimeText(s, s[..n], s[n], s[n + 1..]);
  }

  /** A time is read exactly from the texts that write it, with hours to 23 and minutes to 59. */
  lemma TimeExactly(input: string, t: TimeParts)
    ensures ParseThaiTimeInput(input) == Some(t) <==> WritesTime(Trim(input), t) && t.hours <= 23 && t.minutes <= 59
  {
    var s := Trim(input);
    if ParseThaiTimeInput(input) == Some(t) {
      ParsedIsWritten(s, t);
    }
    if WritesTime(s, t) && t.hours <= 23 && t.minutes <= 59 {
      var hourText, c, minuteText :|
        IsTimeText(s, hourText, c, minuteText) && WholeValue(hourText) == t.hours && WholeValue(minuteText) == t.minutes;
      TrimIsStable(input);
      TimeTextReads(hourText, c, minuteText);
    }
  }

  lemma HourTexts(h: nat)
    requires h < 24
    ensures 1 <= |Digits(h)| <= 2 && AllIn(Digits(h), IsDigit) && WholeValue(Digits(h)) == h
  {
    DigitsSpellTheNumber(h);
  }

  /** Normalizing any accepted time gives HH:mm text that is read as the same time and normalizes to itself. */
  lemma NormalizeIsStable(input: string)
    requires ParseThaiTimeInput(input).Some?
    ensures var text := NormalizeThaiTimeInput(input).value;
            ParseThaiTimeInput(text) == ParseThaiTimeInput(input) && NormalizeThaiTimeInput(text) == Some(text)
  {
    var p := ParseThaiTimeInput(input).value;
    Pad2IsTwoDigits(p.hours);
    TimeTextParses(Pad2(p.hours), ':', p.minutes);
    assert [':'] == ":";
  }

  // ---- Reading back what was written ----

  lemma SplitDay(day: int, ms: int)
    requires 0 <= ms < DAY_MS
    ensures (day * DAY_MS + ms) / DAY_MS == day && (day * DAY_MS + ms) % DAY_MS == ms
  {
  }

  lemma LocalOfBangkokTime(c: Civil, hours: nat, minutes: nat)
    requires Valid(c) && hours < 24 && minutes < 60
    ensures var t := At(c, hours, minutes, BANGKOK_OFFSET_MS);
            LocalDay(t) == DayNumber(c) && LocalMs(t) == hours * HOUR_MS + minutes * MINUTE_MS
  {
    SplitDay(DayNumber(c), hours * HOUR_MS + minutes * MINUTE_MS);
  }

  lemma MinutesOfDay(hours: nat, minutes: nat)
    requires minutes < 60
    ensures (hours * HOUR_MS + minutes * MINUTE_MS) / MINUTE_MS == 60 * hours + minutes
  {
    assert hours * HOUR_MS + minutes * MINUTE_MS == (60 * hours + minutes) * MINUTE_MS;
  }

  lemma BangkokTimeReadsBack(workDateIso: string, hours: nat, minutes: nat)
    requires IsIsoDate(workDateIso) && PartsOf(workDateIso).year >= 1000 && hours < 24 && minutes < 60
    ensures var t := At(PartsOf(workDateIso), hours, minutes, BANGKOK_OFFSET_MS);
            Printable(t) && WorkDateString(t) == workDateIso && MinutesSinceMidnight(t) == 60 * hours + minutes
  {
    LocalOfBangkokTime(PartsOf(workDateIso), hours, minutes);
    MinutesOfDay(hours, minutes);
    FromDaysIsInverse(PartsOf(workDateIso));
    ReadThenPrint(workDateIso);
  }

  /** A combined work date and time shows that date and that time on the Bangkok clock. */
  lemma CombineThenRead(workDateIso: string, timeInput: string)
    requires IsIsoDate(workDateIso) && PartsOf(workDateIso).year >= 1000 && ParseThaiTimeInput(Trim(timeInput)).Some?
    ensures var t, p := CombineBangkokWorkDateAndTime(workDateIso, timeInput), ParseThaiTimeInput(Trim(timeInput)).value;
            && t.Some? && Printable(t.value)
            && WorkDateString(t.value) == workDateIso
            && MinutesSinceMidnight(t.value) == 60 * p.hours + p.minutes
            && MinuteKey(t.value) == workDateIso + ":" + Pad2(p.hours) + ":" + Pad2(p.minutes)
  {
    var p := ParseThaiTimeInput(Trim(timeInput)).value;
    ParsedTimeIsInRange(Trim(timeInput));
    BangkokTimeReadsBack(workDateIso, p.hours, p.minutes);
    KeyOfMinutes(At(PartsOf(workDateIso), p.hours, p.minutes, BANGKOK_OFFSET_MS), p.hours, p.minutes);
    CombinedAt(workDateIso, timeInput);
  }

  /** A combined date and time is the instant seven hours before that time of that day in UTC. */
  lemma CombinedExactly(workDateIso: string, timeInput: string)
    requires IsIsoDate(workDateIso)
    ensures var t, p := CombineBangkokWorkDateAndTime(workDateIso, timeInput), ParseThaiTimeInput(timeInput);
            t == if p.None? then None
                 else Some(86_400_000 * DayNumber(PartsOf(workDateIso)) + 3_600_000 * (p.value.hours - 7) + 60_000 * p.value.minutes)
  {
    TrimIsStable(timeInput);
  }

  lemma KeyOfMinutes(t: Instant, hours: nat, minutes: nat)
    requires Printable(t) && minutes < 60 && MinutesSinceMidnight(t) == 60 * hours + minutes
    ensures MinuteKey(t) == WorkDateString(t) + ":" + Pad2(hours) + ":" + Pad2(minutes)
  {
    var m := MinutesSinceMidnight(t);
    assert m / 60 == hours && m % 60 == minutes by { SplitHour(hours, minutes); }
  }

  lemma SplitHour(hours: nat, minutes: nat)
    requires minutes < 60
    ensures (60 * hours + minutes) / 60 == hours && (60 * hours + minutes) % 60 == minutes
  {
  }

  lemma ParsedTimeIsInRange(input: string)
    ensures var p := ParseThaiTimeInput(input); p.Some? ==> p.value.hours < 24 && p.value.minutes < 60
  {
  }

  lemma CombinedAt(workDateIso: string, timeInput: string)
    requires IsIsoDate(workDateIso) && ParseThaiTimeInput(Trim(timeInput)).Some?
    ensures var p := ParseThaiTimeInput(Trim(timeInput)).value;
            CombineBangkokWorkDateAndTime(workDateIso, timeInput) == Some(At(PartsOf(workDateIso), p.hours, p.minutes, BANGKOK_OFFSET_MS))
  {
  }

  // ---- Repair ----

  lemma UtcParts(day: int, hours: nat, minutes: nat)
    requires hours < 24 && minutes < 60
    ensures var t := day * DAY_MS + hours * HOUR_MS + minutes * MINUTE_MS;
            UtcHours(t) == hours && UtcMinutes(t) == minutes && t % MINUTE_MS == 0
  {
    var ms := hours * HOUR_MS + minutes * MINUTE_MS;
    var t := day * DAY_MS + ms;
    SplitDay(day, ms);
    HourOf(hours, minutes);
    HourRemainder(24 * day + hours, minutes * MINUTE_MS);
    assert t == (24 * day + hours) * HOUR_MS + minutes * MINUTE_MS;
    assert t == (1440 * day + 60 * hours + minutes) * MINUTE_MS;
    MinuteMultiple(1440 * day + 60 * hours + minutes);
  }

  lemma HourOf(hours: nat, minutes: nat)
    requires minutes < 60
    ensures (hours * HOUR_MS + minutes * MINUTE_MS) / HOUR_MS == hours
  {
  }

  lemma HourRemainder(hours: int, ms: int)
    requires 0 <= ms < HOUR_MS
    ensures (hours * HOUR_MS + ms) % HOUR_MS == ms
  {
  }

  lemma MinuteMultiple(minutes: int)
    ensures (minutes * MINUTE_MS) % MINUTE_MS == 0
  {
  }

  lemma UtcOfBuggyWrite(workDateIso: string, hours: nat, minutes: nat)
    requires IsIsoDate(workDateIso) && hours < 24 && minutes < 60
    ensures var t := BuggyWrite(workDateIso, hours, minutes);
            UtcHours(t) == hours && UtcMinutes(t) == minutes && t % MINUTE_MS == 0
  {
    UtcParts(DayNumber(PartsOf(workDateIso)), hours, minutes);
  }

  /** The repair undoes the buggy write for every local time from 07:00 on, and touches no earlier one. */
  lemma RepairUndoesBuggyWrite(workDateIso: string, hours: nat, minutes: nat)
    requires IsIsoDate(workDateIso) && hours < 24 && minutes < 60
    ensures RepairUtcHoursStoredAsBangkok(BuggyWrite(workDateIso, hours, minutes), workDateIso)
         == if hours >= 7 then Some(At(PartsOf(workDateIso), hours, minutes, BANGKOK_OFFSET_MS)) else None
  {
    UtcOfBuggyWrite(workDateIso, hours, minutes);
    if hours >= 7 {
      HourTexts(hours);
      TimeTextParses(Digits(hours), ':', minutes);
      assert [':'] == ":";
    }
  }

  /** Shifting a wall-clock time to Bangkok is writing it seven hours earlier. */
  lemma BangkokIsSevenHoursBack(workDateIso: string, hours: int, minutes: int)
    requires IsIsoDate(workDateIso)
    ensures At(PartsOf(workDateIso), hours, minutes, BANGKOK_OFFSET_MS) == BuggyWrite(workDateIso, hours - 7, minutes)
  {
  }

  /** A repaired instant is the buggy write of a time seven hours earlier. */
  lemma RepairGoesBack(t: Instant, workDateIso: string)
    requires IsIsoDate(workDateIso) && RepairUtcHoursStoredAsBangkok(t, workDateIso).Some?
    ensures UtcHours(t) >= 7
    ensures RepairUtcHoursStoredAsBangkok(t, workDateIso) == Some(BuggyWrite(workDateIso, UtcHours(t) - 7, UtcMinutes(t)))
  {
    RepairUndoesBuggyWrite(workDateIso, UtcHours(t), UtcMinutes(t));
    BangkokIsSevenHoursBack(workDateIso, UtcHours(t), UtcMinutes(t));
  }

  /** An instant is repaired exactly if it is a whole minute of the work date in UTC from 07:00 on, and then seven hours back. */
  lemma RepairExactly(wrong: Instant, workDateIso: string)
    requires IsIsoDate(workDateIso)
    ensures var midnight := 86_400_000 * DayNumber(PartsOf(workDateIso));
            RepairUtcHoursStoredAsBangkok(wrong, workDateIso) ==
              if wrong % 60_000 == 0 && midnight + 25_200_000 <= wrong < midnight + 86_400_000 then Some(wrong - 25_200_000) else None
  {
    var day := DayNumber(PartsOf(workDateIso));
    var h, m := UtcHours(wrong), UtcMinutes(wrong);
    RepairUndoesBuggyWrite(workDateIso, h, m);
    if BuggyWrite(workDateIso, h, m) == wrong {
      UtcOfBuggyWrite(workDateIso, h, m);
    } else {
      NotThatDay(wrong, day);
    }
  }

  lemma NotThatDay(t: Instant, day: int)
    requires t != day * DAY_MS + UtcHours(t) * HOUR_MS + UtcMinutes(t) * MINUTE_MS
    ensures !(t % 60_000 == 0 && 86_400_000 * day <= t < 86_400_000 * day + 86_400_000)
  {
    if t % 60_000 == 0 && 86_400_000 * day <= t < 86_400_000 * day + 86_400_000 {
      MinuteOfDay(t, day);
      assert false;
    }
  }

  /** A whole minute of a day is midnight plus its hours and minutes. */
  lemma MinuteOfDay(t: Instant, day: int)
    requires t % MINUTE_MS == 0 && DAY_MS * day <= t < DAY_MS * (day + 1)
    ensures t == day * DAY_MS + UtcHours(t) * HOUR_MS + UtcMinutes(t) * MINUTE_MS
  {
    var minutes := t / MINUTE_MS - 1440 * day;
    assert t == (1440 * day + minutes) * MINUTE_MS && 0 <= minutes < 1440;
    UtcParts(day, minutes / 60, minutes % 60);
  }

  /** How many repairs one after the other change the instant before the repair refuses. */
  function Repairs(t: Instant, workDateIso: string): nat
    requires IsIsoDate(workDateIso)
    decreases UtcHours(t)
  {
    var next := RepairUtcHoursStoredAsBangkok(t, workDateIso);
    if next.None? then 0
    else
      RepairGoesBack(t, workDateIso);
      UtcOfBuggyWrite(workDateIso, UtcHours(t) - 7, UtcMinutes(t));
      1 + Repairs(next.value, workDateIso)
  }

  lemma RepairStep(workDateIso: string, hours: nat, minutes: nat)
    requires IsIsoDate(workDateIso) && hours < 24 && minutes < 60
    ensures Repairs(BuggyWrite(workDateIso, hours, minutes), workDateIso)
         == if hours >= 7 then 1 + Repairs(BuggyWrite(workDateIso, hours - 7, minutes), workDateIso) else 0
  {
    RepairUndoesBuggyWrite(workDateIso, hours, minutes);
    BangkokIsSevenHoursBack(workDateIso, hours, minutes);
  }

  /** A repaired time of 14:00 or later looks buggy again: floor(hour / 7) repairs pass until one is refused. */
  lemma {:induction false} RepairIsRepeatable(workDateIso: string, hours: nat, minutes: nat)
    requires IsIsoDate(workDateIso) && hours < 24 && minutes < 60
    ensures Repairs(BuggyWrite(workDateIso, hours, minutes), workDateIso) == hours / 7
    decreases hours
  {
    RepairStep(workDateIso, hours, minutes);
    if hours >= 7 {
      RepairIsRepeatable(workDateIso, hours - 7, minutes);
    }
  }

  // ---- The next run ----

  function NextRun(hour: nat, minute: nat, asOf: Instant): Instant
    requires hour < 24 && minute < 60
  {
    var today := WorkDate(asOf);
    var candidate := At(today, hour, minute, BANGKOK_OFFSET_MS);
    if candidate <= asOf then At(AddDays(today, 1), hour, minute, BANGKOK_OFFSET_MS) else candidate
  }

  method NextBangkokRun(hour: nat, minute: nat, asOf: Instant) returns (candidate: Instant)
    requires hour < 24 && minute < 60
    ensures asOf < candidate <= asOf + DAY_MS && ShowsTime(candidate, hour, minute)
    ensures forall t: Instant :: asOf < t && ShowsTime(t, hour, minute) ==> candidate <= t
  {
    forall t: Instant ensures asOf < t && ShowsTime(t, hour, minute) ==> NextRun(hour, minute, asOf) <= t {
      NextRunIsTheFirst(hour, minute, asOf, t);
    }
    NextRunIsTheFirst(hour, minute, asOf, asOf);
    var day := WorkDate(asOf);
    candidate := At(day, hour, minute, BANGKOK_OFFSET_MS);
    if candidate <= asOf {
      day := AddDays(day, 1);
      candidate := At(day, hour, minute, BANGKOK_OFFSET_MS);
    }
  }

  /** The Bangkok clock shows exactly this hour and minute, to the millisecond. */
  predicate ShowsTime(t: Instant, hour: nat, minute: nat) {
    LocalMs(t) == hour * HOUR_MS + minute * MINUTE_MS
  }

  /** The next run is the first instant after asOf at which the Bangkok clock shows the time, at most a day away. */
  lemma NextRunIsTheFirst(hour: nat, minute: nat, asOf: Instant, other: Instant)
    requires hour < 24 && minute < 60
    ensures var t := NextRun(hour, minute, asOf);
            asOf < t <= asOf + DAY_MS && ShowsTime(t, hour, minute)
    ensures asOf < other && ShowsTime(other, hour, minute) ==> NextRun(hour, minute, asOf) <= other
  {
    var today, ms := WorkDate(asOf), hour * HOUR_MS + minute * MINUTE_MS;
    LocalOfBangkokTime(today, hour, minute);
    LocalOfBangkokTime(AddDays(today, 1), hour, minute);
    var a, b := LocalDay(asOf), LocalDay(other);
    assert asOf + BANGKOK_OFFSET_MS == a * DAY_MS + LocalMs(asOf);
    assert other + BANGKOK_OFFSET_MS == b * DAY_MS + LocalMs(other);
    if asOf < other && ShowsTime(other, hour, minute) {
      assert b >= a;
      assert b == a || b >= a + 1;
    }
  }

  /** Two instants share a minute key exactly when they lie in the same minute. */
  lemma MinuteKeyNamesTheMinute(t: Instant, u: Instant)
    requires Printable(t) && Printable(u)
    ensures MinuteKey(t) == MinuteKey(u) <==> (t + BANGKOK_OFFSET_MS) / MINUTE_MS == (u + BANGKOK_OFFSET_MS) / MINUTE_MS
  {
    KeyParts(t);
    KeyParts(u);
    MinuteOfInstant(t);
    MinuteOfInstant(u);
    var m, n := MinutesSinceMidnight(t), MinutesSinceMidnight(u);
    if MinuteKey(t) == MinuteKey(u) {
      SameDay(t, u);
      assert m == 60 * (m / 60) + m % 60 && n == 60 * (n / 60) + n % 60;
    } else if (t + BANGKOK_OFFSET_MS) / MINUTE_MS == (u + BANGKOK_OFFSET_MS) / MINUTE_MS {
      SameMinute(LocalDay(t), m, LocalDay(u), n);
      assert false;
    }
  }

  lemma SameDay(t: Instant, u: Instant)
    requires Printable(t) && Printable(u) && WorkDateString(t) == WorkDateString(u)
    ensures LocalDay(t) == LocalDay(u)
  {
    PrintThenRead(WorkDate(t));
    PrintThenRead(WorkDate(u));
  }

  lemma SameMinute(a: int, m: int, b: int, n: int)
    requires 1440 * a + m == 1440 * b + n && 0 <= m < 1440 && 0 <= n < 1440
    ensures a == b && m == n
  {
  }

  lemma MinuteOfInstant(t: Instant)
    ensures (t + BANGKOK_OFFSET_MS) / MINUTE_MS == 1440 * LocalDay(t) + MinutesSinceMidnight(t)
  {
    assert t + BANGKOK_OFFSET_MS == LocalDay(t) * DAY_MS + LocalMs(t);
  }

  lemma KeyParts(t: Instant)
    requires Printable(t)
    ensures var k, m := MinuteKey(t), MinutesSinceMidnight(t);
            && |k| == 16 && k[..10] == WorkDateString(t) && IsIsoDate(WorkDateString(t)) && PartsOf(WorkDateString(t)) == WorkDate(t)
            && k[11..13] == Pad2(m / 60) && k[14..16] == Pad2(m % 60)
            && AllIn(Pad2(m / 60), IsDigit) && AllIn(Pad2(m % 60), IsDigit)
            && WholeValue(Pad2(m / 60)) == m / 60 && WholeValue(Pad2(m % 60)) == m % 60
  {
    var m := MinutesSinceMidnight(t);
    Pad2IsTwoDigits(m / 60);
    Pad2IsTwoDigits(m % 60);
    PrintThenRead(WorkDate(t));
  }
}
