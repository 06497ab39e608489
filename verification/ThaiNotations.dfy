/** What a date list means, and that the ways of writing one agree. */
module ThaiNotations {
  import opened Outcomes
  import opened JsText
  import opened IsoDates
  import opened StringSort
  import opened ThaiDates
  import opened ThaiMultiDates

  // ---- Union, order and repetition ----

  lemma {:induction false} GatherIsUnion(results: seq<Dates>)
    ensures Gather(results).Some? <==> forall k :: 0 <= k < |results| ==> results[k].Some? && results[k].value != []
    ensures Gather(results).Some? ==>
      forall s :: s in Gather(results).value <==> exists k :: 0 <= k < |results| && results[k].Some? && s in results[k].value
  {
    if results != [] {
      var n := |results| - 1;
      GatherIsUnion(results[..n]);
      assert forall k :: 0 <= k < n ==> results[..n][k] == results[k];
      if Gather(results).Some? {
        forall s ensures s in Gather(results).value <==> exists k :: 0 <= k < |results| && results[k].Some? && s in results[k].value {
          assert s in Gather(results).value <==> s in Gather(results[..n]).value || s in results[n].value;
        }
      }
    }
  }

  lemma {:induction false} DistinctKeepsElements(xs: seq<string>)
    ensures forall s :: s in Distinct(xs) <==> s in xs
    ensures forall i, j :: 0 <= i < j < |Distinct(xs)| ==> Distinct(xs)[i] != Distinct(xs)[j]
  {
    if xs != [] {
      DistinctKeepsElements(xs[..|xs| - 1]);
      assert xs == xs[..|xs| - 1] + [xs[|xs| - 1]];
    }
  }

  lemma {:induction false} NoRepeatsCountOnce(xs: seq<string>, s: string)
    requires forall i, j :: 0 <= i < j < |xs| ==> xs[i] != xs[j]
    ensures multiset(xs)[s] <= 1
  {
    if xs != [] {
      assert xs == [xs[0]] + xs[1..];
      NoRepeatsCountOnce(xs[1..], s);
      assert xs[0] !in xs[1..];
      assert multiset(xs) == multiset{xs[0]} + multiset(xs[1..]);
    }
  }

  /** Sorting distinct texts gives a strictly ascending list of the same texts. */
  lemma SortedDistinct(xs: seq<string>)
    ensures var r := Sort(Distinct(xs)); StrictlySorted(r) && forall s :: s in r <==> s in xs
  {
    var d := Distinct(xs);
    var r := Sort(d);
    DistinctKeepsElements(xs);
    SortSorts(d);
    forall s ensures s in r <==> s in xs {
      assert s in r <==> s in multiset(r);
      assert s in d <==> s in multiset(d);
    }
    forall i, j | 0 <= i < j < |r| ensures StrLess(r[i], r[j]) {
      LeqIsTotal(r[i], r[j]);
      if r[i] == r[j] {
        NoRepeatsCountOnce(d, r[i]);
        CountsTwice(r, i, j);
        assert false;
      }
    }
  }

  lemma CountsTwice(xs: seq<string>, i: nat, j: nat)
    requires i < j < |xs| && xs[i] == xs[j]
    ensures multiset(xs)[xs[i]] >= 2
  {
    assert xs == xs[..j] + xs[j..];
    assert xs[..j][i] == xs[i] && xs[j..][0] == xs[j];
    assert xs[i] in multiset(xs[..j]) && xs[i] in multiset(xs[j..]);
  }

  predicate AllSucceed(segments: seq<string>, thisYear: nat) {
    forall k :: 0 <= k < |segments| ==> ParseSegment(segments[k], thisYear).Some? && ParseSegment(segments[k], thisYear).value != []
  }

  predicate GivenBySome(segments: seq<string>, thisYear: nat, s: string) {
    exists k :: 0 <= k < |segments| && ParseSegment(segments[k], thisYear).Some? && s in ParseSegment(segments[k], thisYear).value
  }

  /** The strictly ascending union of what the segments give. */
  ghost predicate IsUnionOf(r: seq<string>, segments: seq<string>, thisYear: nat) {
    StrictlySorted(r) && forall s :: s in r <==> GivenBySome(segments, thisYear, s)
  }

  lemma {:induction false} SplitWithoutComma(s: string)
    requires ',' !in s
    ensures Split(s) == [s]
  {
    if s != [] {
      assert s == [s[0]] + s[1..];
      SplitWithoutComma(s[1..]);
    }
  }

  /** A text without commas and outer space is its own only segment. */
  lemma OneSegment(text: string)
    requires ',' !in text && Trim(text) == text && text != []
    ensures Segments(text) == [text]
  {
    SplitWithoutComma(text);
    var parts := Split(text);
    assert parts[0] == text && parts[1..] == [];
    assert NonEmptyTrimmed(parts) == [Trim(text)] + NonEmptyTrimmed(parts[1..]);
  }

  lemma SegmentsResult(segments: seq<string>, thisYear: nat)
    ensures Gather(Parsed(segments, thisYear)).Some? <==> AllSucceed(segments, thisYear)
    ensures AllSucceed(segments, thisYear) ==> IsUnionOf(Sort(Distinct(Gather(Parsed(segments, thisYear)).value)), segments, thisYear)
  {
    var results := Parsed(segments, thisYear);
    GatherIsUnion(results);
    if AllSucceed(segments, thisYear) {
      SortedDistinct(Gather(results).value);
    }
  }

  /** The early answer for a single date is the one the segments would give. */
  lemma EarlyAnswerAgrees(text: string, thisYear: nat)
    requires var t := Trim(text); t != [] && ParseThaiDateInput(t, thisYear).Some? && ',' !in t
    ensures Segments(text) == [Trim(text)] && AllSucceed(Segments(text), thisYear)
    ensures IsUnionOf([ParseThaiDateInput(Trim(text), thisYear).value], Segments(text), thisYear)
  {
    TrimIsStable(text);
    OneSegment(Trim(text));
    assert Segments(text) == Segments(Trim(text));
    assert ParseSegment(Segments(text)[0], thisYear) == Some([ParseThaiDateInput(Trim(text), thisYear).value]);
  }

  /**
   A date list gives r exactly when it has a non-empty segment, none of its segments fails, and r is the
   strictly ascending union of what they give; so it gives null exactly when there is no segment or one fails.
   */
  lemma MultiIsUnionOfSegments(text: string, thisYear: nat, r: seq<string>)
    ensures ParseMulti(text, thisYear) == Some(r)
       <==> Segments(text) != [] && AllSucceed(Segments(text), thisYear) && IsUnionOf(r, Segments(text), thisYear)
    ensures ParseMulti(text, thisYear) == None <==> Segments(text) == [] || !AllSucceed(Segments(text), thisYear)
  {
    var trimmed := Trim(text);
    var segments := Segments(text);
    SegmentsResult(segments, thisYear);
    EmptyHasNoSegments(text);
    if trimmed != [] && ParseThaiDateInput(trimmed, thisYear).Some? && ',' !in trimmed {
      EarlyAnswerAgrees(text, thisYear);
      if IsUnionOf(r, segments, thisYear) {
        StrictlySortedIsUnique(r, [ParseThaiDateInput(trimmed, thisYear).value]);
      }
    }
    if AllSucceed(segments, thisYear) && IsUnionOf(r, segments, thisYear) {
      StrictlySortedIsUnique(r, Sort(Distinct(Gather(Parsed(segments, thisYear)).value)));
    }
  }

  lemma EmptyHasNoSegments(text: string)
    ensures Trim(text) == [] ==> Segments(text) == []
  {
    if Trim(text) == [] {
      TrimKeeps([]);
      var parts := Split([]);
      assert parts[0] == [] && parts[1..] == [];
      assert NonEmptyTrimmed(parts[1..]) == [];
    }
  }

  /** Texts whose segments fail or succeed alike and give the same dates have the same result. */
  lemma SameDatesSameResult(t: string, u: string, thisYear: nat)
    requires Segments(t) != [] && Segments(u) != []
    requires AllSucceed(Segments(t), thisYear) <==> AllSucceed(Segments(u), thisYear)
    requires AllSucceed(Segments(t), thisYear) ==>
      forall s :: GivenBySome(Segments(t), thisYear, s) <==> GivenBySome(Segments(u), thisYear, s)
    ensures ParseMulti(t, thisYear) == ParseMulti(u, thisYear)
  {
    if ParseMulti(t, thisYear).Some? {
      var r := ParseMulti(t, thisYear).value;
      MultiIsUnionOfSegments(t, thisYear, r);
      MultiIsUnionOfSegments(u, thisYear, r);
    }
    if ParseMulti(u, thisYear).Some? {
      var r := ParseMulti(u, thisYear).value;
      MultiIsUnionOfSegments(u, thisYear, r);
      MultiIsUnionOfSegments(t, thisYear, r);
    }
  }

  /** Only which segments there are matters, not their order or how often they are repeated. */
  lemma OrderAndRepetitionDoNotMatter(t: string, u: string, thisYear: nat)
    requires forall s :: s in Segments(t) <==> s in Segments(u)
    ensures ParseMulti(t, thisYear) == ParseMulti(u, thisYear)
  {
    var a, b := Segments(t), Segments(u);
    assert a != [] ==> a[0] in a;
    assert b != [] ==> b[0] in b;
    if a == [] || b == [] {
      NoSegmentsNoResult(t, thisYear);
      NoSegmentsNoResult(u, thisYear);
    } else {
      Transfer(a, b, thisYear);
      Transfer(b, a, thisYear);
      SameDatesSameResult(t, u, thisYear);
    }
  }

  lemma NoSegmentsNoResult(t: string, thisYear: nat)
    ensures Segments(t) == [] ==> ParseMulti(t, thisYear) == None
  {
    if ParseMulti(t, thisYear).Some? {
      MultiIsUnionOfSegments(t, thisYear, ParseMulti(t, thisYear).value);
    }
  }

  lemma Transfer(a: seq<string>, b: seq<string>, thisYear: nat)
    requires forall x :: x in a ==> x in b
    ensures AllSucceed(b, thisYear) ==> AllSucceed(a, thisYear)
    ensures forall s :: GivenBySome(a, thisYear, s) ==> GivenBySome(b, thisYear, s)
  {
    forall k | 0 <= k < |a| ensures exists j :: 0 <= j < |b| && b[j] == a[k] {
      assert a[k] in b;
    }
  }
}
