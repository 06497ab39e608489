/** Grouping dates by payroll period keeps their order and loses none. */
module PayrollGrouping {
  import opened IsoDates
  import opened PayrollPeriod
  import opened StringSort

  /** Later dates never start earlier periods. */
  lemma PeriodStartIsMonotone(d: string, e: string)
    requires IsWorkDate(d) && IsWorkDate(e) && StrLeq(d, e)
    ensures StrLeq(PayrollPeriodStartOf(d), PayrollPeriodStartOf(e))
  {
    StartIsCycleStart(d);
    StartIsCycleStart(e);
    StringOrderIsCalendarOrder(e, d);
    StringOrderIsCalendarOrder(PayrollPeriodStartOf(e), PayrollPeriodStartOf(d));
  }

  /** The buckets of the keys, one after the other. */
  function Concat(keys: seq<string>, grouped: map<string, seq<string>>): seq<string>
    requires forall k :: k in keys ==> k in grouped
  {
    if keys == [] then []
    else Concat(keys[..|keys| - 1], grouped) + grouped[keys[|keys| - 1]]
  }

  lemma {:induction false} ConcatIgnores(keys: seq<string>, grouped: map<string, seq<string>>, key: string, bucket: seq<string>)
    requires forall k :: k in keys ==> k in grouped
    requires key !in keys
    ensures Concat(keys, grouped[key := bucket]) == Concat(keys, grouped)
  {
    if keys != [] {
      assert keys[|keys| - 1] in keys;
      ConcatIgnores(keys[..|keys| - 1], grouped, key, bucket);
    }
  }

  predicate AllWorkDates(dates: seq<string>) {
    forall k :: 0 <= k < |dates| ==> IsWorkDate(dates[k])
  }

  predicate IsBucketOf(key: string, bucket: seq<string>) {
    bucket != [] && AllWorkDates(bucket) && forall i :: 0 <= i < |bucket| ==> PayrollPeriodStartOf(bucket[i]) == key
  }

  /** The keys and their buckets group exactly these dates, in this order. */
  ghost predicate Groups(keys: seq<string>, grouped: map<string, seq<string>>, dates: seq<string>) {
    && KeysOf(keys, grouped)
    && Concat(keys, grouped) == dates
    && StrictlySorted(keys)
    && AllBuckets(grouped)
  }

  ghost predicate KeysOf(keys: seq<string>, grouped: map<string, seq<string>>) {
    forall k :: k in grouped <==> k in keys
  }

  predicate AllBuckets(grouped: map<string, seq<string>>) {
    forall k :: k in grouped ==> IsBucketOf(k, grouped[k])
  }

  lemma SortKeepsWorkDates(dates: seq<string>)
    requires AllWorkDates(dates)
    ensures AllWorkDates(Sort(dates))
  {
    SortSorts(dates);
    forall k | 0 <= k < |Sort(dates)| ensures IsWorkDate(Sort(dates)[k]) {
      assert Sort(dates)[k] in multiset(dates);
    }
  }

  lemma ExtendLast(keys: seq<string>, grouped: map<string, seq<string>>, dates: seq<string>, key: string, date: string)
    requires Groups(keys, grouped, dates) && key in keys && StrLeq(keys[|keys| - 1], key)
    requires IsWorkDate(date) && PayrollPeriodStartOf(date) == key
    ensures Groups(keys, grouped[key := grouped[key] + [date]], dates + [date])
  {
    KeyIsLast(keys, key);
    assert IsBucketOf(key, grouped[key]);
    var bucket := grouped[key] + [date];
    UpdatedBuckets(grouped, key, bucket);
    ConcatIgnores(keys[..|keys| - 1], grouped, key, bucket);
    assert Concat(keys, grouped[key := bucket]) == Concat(keys[..|keys| - 1], grouped) + bucket;
    assert Concat(keys[..|keys| - 1], grouped) + (grouped[key] + [date]) == dates + [date];
  }

  lemma UpdatedBuckets(grouped: map<string, seq<string>>, key: string, bucket: seq<string>)
    requires AllBuckets(grouped) && IsBucketOf(key, bucket)
    ensures AllBuckets(grouped[key := bucket])
  {
  }

  lemma BucketOfOne(key: string, date: string)
    requires IsWorkDate(date) && PayrollPeriodStartOf(date) == key
    ensures IsBucketOf(key, [date])
  {
  }

  lemma ConcatNew(keys: seq<string>, grouped: map<string, seq<string>>, key: string, bucket: seq<string>)
    requires (forall k :: k in keys ==> k in grouped) && key !in keys
    ensures Concat(keys + [key], grouped[key := bucket]) == Concat(keys, grouped) + bucket
  {
    ConcatIgnores(keys, grouped, key, bucket);
    assert (keys + [key])[..|keys|] == keys;
  }

  lemma GroupsGrow(keys: seq<string>, grouped: map<string, seq<string>>, dates: seq<string>, key: string, bucket: seq<string>)
    requires Groups(keys, grouped, dates) && key !in keys && (keys != [] ==> StrLeq(keys[|keys| - 1], key))
    requires IsBucketOf(key, bucket)
    ensures Groups(keys + [key], grouped[key := bucket], dates + bucket)
  {
    KeyIsNew(keys, key);
    KeysGrow(keys, grouped, key, bucket);
    ConcatNew(keys, grouped, key, bucket);
    UpdatedBuckets(grouped, key, bucket);
  }

  lemma KeysGrow(keys: seq<string>, grouped: map<string, seq<string>>, key: string, bucket: seq<string>)
    requires KeysOf(keys, grouped)
    ensures KeysOf(keys + [key], grouped[key := bucket])
  {
  }

  lemma ExtendNew(keys: seq<string>, grouped: map<string, seq<string>>, dates: seq<string>, key: string, date: string)
    requires Groups(keys, grouped, dates) && key !in keys && (keys != [] ==> StrLeq(keys[|keys| - 1], key))
    requires IsWorkDate(date) && PayrollPeriodStartOf(date) == key
    ensures Groups(keys + [key], grouped[key := [date]], dates + [date])
  {
    BucketOfOne(key, date);
    GroupsGrow(keys, grouped, dates, key, [date]);
  }

  lemma KeysHaveDates(keys: seq<string>, grouped: map<string, seq<string>>, dates: seq<string>)
    requires Groups(keys, grouped, dates)
    ensures keys != [] ==> dates != []
  {
    if keys != [] {
      var last := keys[|keys| - 1];
      assert last in grouped && IsBucketOf(last, grouped[last]);
    }
  }

  lemma LastKeyIsLastPeriod(keys: seq<string>, grouped: map<string, seq<string>>, dates: seq<string>)
    requires Groups(keys, grouped, dates) && dates != [] && AllWorkDates(dates)
    ensures keys != [] && keys[|keys| - 1] == PayrollPeriodStartOf(dates[|dates| - 1])
  {
    var last := keys[|keys| - 1];
    assert last in grouped && IsBucketOf(last, grouped[last]);
    assert dates[|dates| - 1] == grouped[last][|grouped[last]| - 1];
  }

  /** Filing the next of the sorted dates under its period keeps the grouping. */
  lemma FileNext(keys: seq<string>, grouped: map<string, seq<string>>, sorted: seq<string>, i: nat)
    requires i < |sorted| && AllWorkDates(sorted) && Sorted(sorted) && Groups(keys, grouped, sorted[..i])
    ensures var key := PayrollPeriodStartOf(sorted[i]);
            if key in grouped then Groups(keys, grouped[key := grouped[key] + [sorted[i]]], sorted[..i + 1])
            else Groups(keys + [key], grouped[key := [sorted[i]]], sorted[..i + 1])
  {
    var key := PayrollPeriodStartOf(sorted[i]);
    assert sorted[..i + 1] == sorted[..i] + [sorted[i]];
    if i > 0 {
      PeriodStartIsMonotone(sorted[i - 1], sorted[i]);
      assert sorted[..i][i - 1] == sorted[i - 1];
      LastKeyIsLastPeriod(keys, grouped, sorted[..i]);
    } else {
      KeysHaveDates(keys, grouped, sorted[..i]);
    }
    if key in grouped {
      ExtendLast(keys, grouped, sorted[..i], key, sorted[i]);
    } else {
      ExtendNew(keys, grouped, sorted[..i], key, sorted[i]);
    }
  }

  /**
   The buckets, read in the order their keys were inserted, are the sorted dates; the keys ascend
   strictly and every date stands in the bucket of its own period.
   */
  method GroupDatesByPayrollPeriod(dates: seq<string>) returns (keys: seq<string>, grouped: map<string, seq<string>>)
    requires AllWorkDates(dates)
    ensures Groups(keys, grouped, Sort(dates))
    ensures multiset(Concat(keys, grouped)) == multiset(dates)
  {
    var sorted := Sort(dates);
    SortSorts(dates);
    SortKeepsWorkDates(dates);
    keys, grouped := [], map[];
    var i := 0;
    while i < |sorted|
      invariant i <= |sorted|
      invariant Groups(keys, grouped, sorted[..i])
    {
      FileNext(keys, grouped, sorted, i);
      var date := sorted[i];
      var periodStart := PayrollPeriodStartOf(date);
      if periodStart !in grouped {
        keys := keys + [periodStart];
      }
      var bucket := if periodStart in grouped then grouped[periodStart] else [];
      assert [] + [date] == [date];
      grouped := grouped[periodStart := bucket + [date]];
      i := i + 1;
    }
    assert sorted[..i] == sorted;
  }

  /** A grouping of sorted dates has sorted buckets. */
  lemma {:induction false} BucketsAreSorted(keys: seq<string>, grouped: map<string, seq<string>>, dates: seq<string>, k: nat)
    requires (forall key :: key in keys ==> key in grouped) && Concat(keys, grouped) == dates && Sorted(dates) && k < |keys|
    ensures Sorted(grouped[keys[k]])
  {
    var last, front := |keys| - 1, Concat(keys[..|keys| - 1], grouped);
    assert dates == front + grouped[keys[last]];
    if k == last {
      forall i, j | 0 <= i < j < |grouped[keys[k]]| ensures StrLeq(grouped[keys[k]][i], grouped[keys[k]][j]) {
        assert dates[|front| + i] == grouped[keys[k]][i] && dates[|front| + j] == grouped[keys[k]][j];
      }
    } else {
      forall i, j | 0 <= i < j < |front| ensures StrLeq(front[i], front[j]) {
        assert dates[i] == front[i] && dates[j] == front[j];
      }
      BucketsAreSorted(keys[..last], grouped, front, k);
    }
  }

  /** A known key no smaller than the last one is the last one, and stands nowhere else. */
  lemma KeyIsLast(keys: seq<string>, key: string)
    requires StrictlySorted(keys) && key in keys && StrLeq(keys[|keys| - 1], key)
    ensures key == keys[|keys| - 1] && key !in keys[..|keys| - 1]
  {
    var k :| 0 <= k < |keys| && keys[k] == key;
    forall j | 0 <= j < |keys| - 1 ensures keys[j] != keys[|keys| - 1] {
      LeqIsTotal(keys[j], keys[|keys| - 1]);
    }
  }

  lemma KeyIsNew(keys: seq<string>, key: string)
    requires StrictlySorted(keys) && key !in keys && (keys != [] ==> StrLeq(keys[|keys| - 1], key))
    ensures StrictlySorted(keys + [key])
  {
    forall j | 0 <= j < |keys| ensures StrLess(keys[j], key) {
      LeqIsTotal(keys[j], keys[|keys| - 1]);
      LeqChains(keys[j], keys[|keys| - 1], key);
      LeqIsTotal(keys[j], key);
    }
  }
}
