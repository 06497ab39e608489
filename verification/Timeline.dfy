/** The employee timeline: newest first, then split into day groups. Local time is a fixed offset from UTC. */
module Timeline {

  const DAY_MS: int := 86_400_000

  datatype Item = Item(id: nat, timestamp: int)

  datatype GroupKey = Today | Yesterday | ThisWeek | Earlier

  // ---- Sorting, newest first ----

  /** An item goes in front of the ones that are no newer, so equal times keep their order. */
  function InsertNewestFirst(x: Item, xs: seq<Item>): seq<Item> {
    if xs == [] || xs[0].timestamp <= x.timestamp then [x] + xs else [xs[0]] + InsertNewestFirst(x, xs[1..])
  }

  function SortNewestFirst(items: seq<Item>): seq<Item> {
    if items == [] then [] else InsertNewestFirst(items[0], SortNewestFirst(items[1..]))
  }

  predicate NewestFirst(items: seq<Item>) {
    forall i, j :: 0 <= i < j < |items| ==> items[i].timestamp >= items[j].timestamp
  }

  /** The items of one time, in order. */
  function AtTime(items: seq<Item>, t: int): seq<Item> {
    if items == [] then [] else (if items[0].timestamp == t then [items[0]] else []) + AtTime(items[1..], t)
  }

  lemma {:induction false} InsertKeepsItems(x: Item, xs: seq<Item>)
    ensures multiset(InsertNewestFirst(x, xs)) == multiset(xs) + multiset{x}
  {
    if xs != [] && xs[0].timestamp > x.timestamp {
      InsertKeepsItems(x, xs[1..]);
      assert xs == [xs[0]] + xs[1..];
    }
  }

  lemma {:induction false} InsertKeepsOrder(x: Item, xs: seq<Item>)
    requires NewestFirst(xs)
    ensures NewestFirst(InsertNewestFirst(x, xs))
  {
    if xs != [] && xs[0].timestamp > x.timestamp {
      var rest := InsertNewestFirst(x, xs[1..]);
      InsertKeepsOrder(x, xs[1..]);
      NoneNewer(xs[0], x, xs[1..]);
      assert forall j :: 0 <= j < |rest| ==> rest[j] in rest;
    }
  }

  lemma NoneNewer(first: Item, x: Item, xs: seq<Item>)
    requires first.timestamp >= x.timestamp && forall y :: y in xs ==> first.timestamp >= y.timestamp
    ensures forall y :: y in InsertNewestFirst(x, xs) ==> first.timestamp >= y.timestamp
  {
    InsertKeepsItems(x, xs);
    forall y | y in InsertNewestFirst(x, xs) ensures first.timestamp >= y.timestamp {
      assert y in multiset(InsertNewestFirst(x, xs));
      assert y == x || y in multiset(xs);
    }
  }

  lemma {:induction false} InsertKeepsTimes(x: Item, xs: seq<Item>, t: int)
    requires NewestFirst(xs)
    ensures AtTime(InsertNewestFirst(x, xs), t) == (if x.timestamp == t then [x] else []) + AtTime(xs, t)
  {
    var r := InsertNewestFirst(x, xs);
    if xs != [] && xs[0].timestamp > x.timestamp {
      InsertKeepsTimes(x, xs[1..], t);
      assert r[1..] == InsertNewestFirst(x, xs[1..]);
      var rest := AtTime(xs[1..], t);
      assert [] + rest == rest && [] + ([x] + rest) == [x] + rest && [] + ([xs[0]] + rest) == [xs[0]] + ([] + rest);
    } else {
      assert r[1..] == xs;
    }
  }

  lemma {:induction false} SortKeepsItems(items: seq<Item>)
    ensures NewestFirst(SortNewestFirst(items)) && multiset(SortNewestFirst(items)) == multiset(items)
  {
    if items != [] {
      SortKeepsItems(items[1..]);
      InsertKeepsItems(items[0], SortNewestFirst(items[1..]));
      InsertKeepsOrder(items[0], SortNewestFirst(items[1..]));
      assert items == [items[0]] + items[1..];
      assert multiset(items) == multiset{items[0]} + multiset(items[1..]);
    }
  }

  lemma {:induction false} SortKeepsTimes(items: seq<Item>, t: int)
    ensures AtTime(SortNewestFirst(items), t) == AtTime(items, t)
  {
    if items != [] {
      SortKeepsTimes(items[1..], t);
      SortKeepsItems(items[1..]);
      InsertKeepsTimes(items[0], SortNewestFirst(items[1..]), t);
    }
  }

  /** Sorting reorders the items newest first and keeps the order of items of one time. */
  lemma SortIsStable(items: seq<Item>, t: int)
    ensures NewestFirst(SortNewestFirst(items)) && multiset(SortNewestFirst(items)) == multiset(items)
    ensures AtTime(SortNewestFirst(items), t) == AtTime(items, t)
  {
    SortKeepsItems(items);
    SortKeepsTimes(items, t);
  }

  // ---- Groups ----

  /** The local day of an instant. */
  function DayOf(timestamp: int, offsetMs: int): int {
    (timestamp + offsetMs) / DAY_MS
  }

  /** getDay of a local day: 0 is Sunday, and day 0 was a Thursday. */
  function Weekday(day: int): nat {
    (day + 4) % 7
  }

  function WeekStart(today: int): int {
    today - (if Weekday(today) == 0 then 6 else Weekday(today) - 1)
  }

  function KeyOfDay(day: int, today: int): GroupKey {
    if day == today then Today
    else if day == today - 1 then Yesterday
    else if day >= WeekStart(today) then ThisWeek
    else Earlier
  }

  /** Local days last 24 hours from midnight. */
  lemma DaysAreMidnightToMidnight(timestamp: int, offsetMs: int)
    ensures var day := DayOf(timestamp, offsetMs); 86_400_000 * day <= timestamp + offsetMs < 86_400_000 * (day + 1)
  {
  }

  /** Weeks begin on Mondays, the days 7k + 4: day 0 was a Thursday. */
  predicate IsMonday(day: int) {
    (day - 4) % 7 == 0
  }

  lemma WeekStartsOnMonday(today: int)
    ensures IsMonday(WeekStart(today)) && WeekStart(today) <= today < WeekStart(today) + 7
    ensures Weekday(today) == 1 <==> IsMonday(today)
  {
  }

  /** The group of a day: today, the day before, from the last Monday on, or earlier; later days are filed with the week. */
  lemma KeyExactly(day: int, today: int, monday: int)
    requires IsMonday(monday) && monday <= today < monday + 7
    ensures KeyOfDay(day, today)
         == if day == today then Today else if day == today - 1 then Yesterday else if day >= monday then ThisWeek else Earlier
  {
    WeekStartsOnMonday(today);
    var start := WeekStart(today);
    assert start - 4 == 7 * ((start - 4) / 7) && monday - 4 == 7 * ((monday - 4) / 7);
  }

  /** timelineGroupKey for a fixed now. */
  function KeyAt(now: int, offsetMs: int): Item -> GroupKey {
    (item: Item) => KeyOfDay(DayOf(item.timestamp, offsetMs), DayOf(now, offsetMs))
  }

  /** The items of one group, in order. */
  function Bucket(items: seq<Item>, key: GroupKey, keyOf: Item -> GroupKey): seq<Item> {
    if items == [] then []
    else Bucket(items[..|items| - 1], key, keyOf) + (if keyOf(items[|items| - 1]) == key then [items[|items| - 1]] else [])
  }

  datatype Groups = Groups(today: seq<Item>, yesterday: seq<Item>, thisWeek: seq<Item>, earlier: seq<Item>) {
    /** The groups in display order. */
    function All(): seq<Item> {
      today + yesterday + thisWeek + earlier
    }
  }

  function Grouped(sorted: seq<Item>, keyOf: Item -> GroupKey): Groups {
    Groups(Bucket(sorted, Today, keyOf), Bucket(sorted, Yesterday, keyOf), Bucket(sorted, ThisWeek, keyOf), Bucket(sorted, Earlier, keyOf))
  }

  method GroupTimelineItems(items: seq<Item>, now: int, offsetMs: int) returns (groups: Groups)
    ensures groups == Grouped(SortNewestFirst(items), KeyAt(now, offsetMs))
  {
    var sorted := SortNewestFirst(items);
    groups := Groups([], [], [], []);
    for i := 0 to |sorted|
      invariant groups == Grouped(sorted[..i], KeyAt(now, offsetMs))
    {
      var item := sorted[i];
      assert sorted[..i + 1][..i] == sorted[..i];
      match KeyAt(now, offsetMs)(item) {
        case Today => groups := groups.(today := groups.today + [item]);
        case Yesterday => groups := groups.(yesterday := groups.yesterday + [item]);
        case ThisWeek => groups := groups.(thisWeek := groups.thisWeek + [item]);
        case Earlier => groups := groups.(earlier := groups.earlier + [item]);
      }
    }
    assert sorted[..|sorted|] == sorted;
  }

  // ---- When the groups keep the order ----

  function Rank(key: GroupKey): nat {
    match key
    case Today => 0
    case Yesterday => 1
    case ThisWeek => 2
    case Earlier => 3
  }

  predicate RanksAscend(items: seq<Item>, keyOf: Item -> GroupKey) {
    forall i, j :: 0 <= i < j < |items| ==> Rank(keyOf(items[i])) <= Rank(keyOf(items[j]))
  }

  lemma BucketAddsLast(front: seq<Item>, last: Item, key: GroupKey, keyOf: Item -> GroupKey)
    ensures Bucket(front + [last], key, keyOf) == Bucket(front, key, keyOf) + (if keyOf(last) == key then [last] else [])
  {
    assert (front + [last])[..|front|] == front;
  }

  lemma {:induction false} BucketMembers(items: seq<Item>, key: GroupKey, keyOf: Item -> GroupKey)
    ensures var b := Bucket(items, key, keyOf); forall k :: 0 <= k < |b| ==> keyOf(b[k]) == key
    ensures (forall k :: 0 <= k < |items| ==> keyOf(items[k]) != key) ==> Bucket(items, key, keyOf) == []
  {
    if items != [] {
      var front, last := items[..|items| - 1], items[|items| - 1];
      BucketMembers(front, key, keyOf);
      assert items == front + [last];
      BucketAddsLast(front, last, key, keyOf);
    }
  }

  /** Adding an item whose rank no earlier one exceeds puts it at the very end. */
  lemma AddLast(front: seq<Item>, last: Item, keyOf: Item -> GroupKey)
    requires forall k :: 0 <= k < |front| ==> Rank(keyOf(front[k])) <= Rank(keyOf(last))
    ensures Grouped(front + [last], keyOf).All() == Grouped(front, keyOf).All() + [last]
  {
    assert (front + [last])[..|front|] == front;
    BucketMembers(front, Yesterday, keyOf);
    BucketMembers(front, ThisWeek, keyOf);
    BucketMembers(front, Earlier, keyOf);
  }

  lemma {:induction false} AscendingRanksKeepOrder(items: seq<Item>, keyOf: Item -> GroupKey)
    requires RanksAscend(items, keyOf)
    ensures Grouped(items, keyOf).All() == items
  {
    if items != [] {
      var front, last := items[..|items| - 1], items[|items| - 1];
      AscendingRanksKeepOrder(front, keyOf);
      AddLast(front, last, keyOf);
      assert items == front + [last];
    }
  }

  predicate RanksUpTo(items: seq<Item>, bound: nat, keyOf: Item -> GroupKey) {
    RanksAscend(items, keyOf) && forall k :: 0 <= k < |items| ==> Rank(keyOf(items[k])) <= bound
  }

  lemma AppendBucket(front: seq<Item>, items: seq<Item>, key: GroupKey, keyOf: Item -> GroupKey)
    requires RanksUpTo(front, Rank(key), keyOf)
    ensures RanksUpTo(front + Bucket(items, key, keyOf), Rank(key), keyOf)
  {
    BucketMembers(items, key, keyOf);
  }

  lemma GroupsAscend(items: seq<Item>, keyOf: Item -> GroupKey)
    ensures RanksAscend(Grouped(items, keyOf).All(), keyOf)
  {
    var g := Grouped(items, keyOf);
    AppendBucket([], items, Today, keyOf);
    assert [] + g.today == g.today;
    AppendBucket(g.today, items, Yesterday, keyOf);
    AppendBucket(g.today + g.yesterday, items, ThisWeek, keyOf);
    AppendBucket(g.today + g.yesterday + g.thisWeek, items, Earlier, keyOf);
  }

  predicate HasFuture(items: seq<Item>, now: int, offsetMs: int) {
    exists k :: 0 <= k < |items| && DayOf(items[k].timestamp, offsetMs) > DayOf(now, offsetMs)
  }

  predicate HasRecent(items: seq<Item>, now: int, offsetMs: int) {
    exists k :: 0 <= k < |items| && DayOf(now, offsetMs) - 1 <= DayOf(items[k].timestamp, offsetMs) <= DayOf(now, offsetMs)
  }

  lemma DaysFollowTime(s: int, t: int, offsetMs: int)
    requires s >= t
    ensures DayOf(s, offsetMs) >= DayOf(t, offsetMs)
  {
  }

  lemma RanksOfNewestFirst(items: seq<Item>, now: int, offsetMs: int)
    requires NewestFirst(items)
    ensures RanksAscend(items, KeyAt(now, offsetMs)) <==> !(HasFuture(items, now, offsetMs) && HasRecent(items, now, offsetMs))
  {
    forall i, j | 0 <= i < j < |items| ensures DayOf(items[i].timestamp, offsetMs) >= DayOf(items[j].timestamp, offsetMs) {
      DaysFollowTime(items[i].timestamp, items[j].timestamp, offsetMs);
    }
    if HasFuture(items, now, offsetMs) && HasRecent(items, now, offsetMs) {
      var f :| 0 <= f < |items| && DayOf(items[f].timestamp, offsetMs) > DayOf(now, offsetMs);
      var r :| 0 <= r < |items| && DayOf(now, offsetMs) - 1 <= DayOf(items[r].timestamp, offsetMs) <= DayOf(now, offsetMs);
      assert f < r;
      assert Rank(KeyAt(now, offsetMs)(items[f])) == 2 && Rank(KeyAt(now, offsetMs)(items[r])) <= 1;
    }
  }

  /**
   The groups, read in display order, are the newest-first list exactly when no item is dated after today
   or none is dated today or yesterday; a future item is filed under this week, behind the newer groups.
   */
  lemma GroupsKeepOrder(items: seq<Item>, now: int, offsetMs: int)
    ensures Grouped(SortNewestFirst(items), KeyAt(now, offsetMs)).All() == SortNewestFirst(items)
       <==> !(HasFuture(items, now, offsetMs) && HasRecent(items, now, offsetMs))
  {
    var sorted, keyOf := SortNewestFirst(items), KeyAt(now, offsetMs);
    SortIsStable(items, 0);
    RanksOfNewestFirst(sorted, now, offsetMs);
    SameMembers(items, sorted, now, offsetMs);
    if RanksAscend(sorted, keyOf) {
      AscendingRanksKeepOrder(sorted, keyOf);
    }
    GroupsAscend(sorted, keyOf);
  }

  /** A future item displayed behind one of today, although it is newer. */
  lemma FutureItemIsMisplaced()
    ensures var future, present := Item(1, DAY_MS), Item(2, 0);
            && SortNewestFirst([future, present]) == [future, present]
            && Grouped([future, present], KeyAt(0, 0)).All() == [present, future]
  {
    var future, present := Item(1, DAY_MS), Item(2, 0);
    SortOfTwo(future, present);
    assert KeyAt(0, 0)(future) == ThisWeek && KeyAt(0, 0)(present) == Today;
    forall key { BucketOfTwo(future, present, key, KeyAt(0, 0)); }
  }

  lemma SortOfTwo(a: Item, b: Item)
    requires a.timestamp > b.timestamp
    ensures SortNewestFirst([a, b]) == [a, b]
  {
    assert [b][1..] == [] && [a, b][1..] == [b];
    assert SortNewestFirst([b]) == [b];
  }

  lemma BucketOfTwo(a: Item, b: Item, key: GroupKey, keyOf: Item -> GroupKey)
    ensures Bucket([a, b], key, keyOf) == (if keyOf(a) == key then [a] else []) + (if keyOf(b) == key then [b] else [])
  {
    var e: seq<Item> := [];
    assert e + [a] == [a] && [a] + [b] == [a, b];
    BucketAddsLast(e, a, key, keyOf);
    BucketAddsLast([a], b, key, keyOf);
  }

  lemma SameMembers(xs: seq<Item>, ys: seq<Item>, now: int, offsetMs: int)
    requires multiset(xs) == multiset(ys)
    ensures HasFuture(xs, now, offsetMs) <==> HasFuture(ys, now, offsetMs)
    ensures HasRecent(xs, now, offsetMs) <==> HasRecent(ys, now, offsetMs)
  {
    assert forall x :: x in xs <==> x in multiset(xs);
    assert forall x :: x in ys <==> x in multiset(ys);
    assert forall k :: 0 <= k < |xs| ==> xs[k] in ys;
    assert forall k :: 0 <= k < |ys| ==> ys[k] in xs;
  }
}
