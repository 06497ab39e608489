/** Array.prototype.sort on strings: the order is total, and sorting is fixed by the contents. */
module StringSort {
  import opened IsoDates

  lemma {:induction false} LessIsTotal(a: string, b: string, i: nat)
    requires i <= |a| && i <= |b| && a[..i] == b[..i]
    ensures LessFrom(a, b, i) || LessFrom(b, a, i) || a == b
    ensures !(LessFrom(a, b, i) && LessFrom(b, a, i))
    ensures a == b ==> !LessFrom(a, b, i)
    decreases |a| - i
  {
    if i < |a| && i < |b| && a[i] == b[i] {
      assert a[..i + 1] == a[..i] + [a[i]] && b[..i + 1] == b[..i] + [b[i]];
      LessIsTotal(a, b, i + 1);
    } else if i == |a| && i == |b| {
      assert a == a[..i] && b == b[..i];
    }
  }

  lemma {:induction false} LessChains(a: string, b: string, c: string, i: nat)
    requires i <= |a| && i <= |b| && i <= |c| && LessFrom(a, b, i) && LessFrom(b, c, i)
    ensures LessFrom(a, c, i)
    decreases |a| - i
  {
    if i < |a| && i < |b| && i < |c| && a[i] == b[i] == c[i] {
      LessChains(a, b, c, i + 1);
    }
  }

  lemma LeqIsTotal(a: string, b: string)
    ensures StrLeq(a, b) || StrLeq(b, a)
    ensures StrLeq(a, b) && StrLeq(b, a) ==> a == b
    ensures StrLeq(a, a)
    ensures StrLess(a, b) <==> StrLeq(a, b) && a != b
  {
    assert a[..0] == b[..0];
    LessIsTotal(a, b, 0);
    LessIsTotal(a, a, 0);
  }

  lemma LeqChains(a: string, b: string, c: string)
    requires StrLeq(a, b) && StrLeq(b, c)
    ensures StrLeq(a, c)
  {
    LeqIsTotal(a, b);
    LeqIsTotal(b, c);
    LeqIsTotal(a, c);
    if a != b && b != c {
      LessChains(a, b, c, 0);
    }
  }

  predicate Sorted(xs: seq<string>) {
    forall i, j :: 0 <= i < j < |xs| ==> StrLeq(xs[i], xs[j])
  }

  predicate StrictlySorted(xs: seq<string>) {
    forall i, j :: 0 <= i < j < |xs| ==> StrLess(xs[i], xs[j])
  }

  function Insert(x: string, xs: seq<string>): seq<string> {
    if xs == [] || StrLeq(x, xs[0]) then [x] + xs else [xs[0]] + Insert(x, xs[1..])
  }

  function Sort(xs: seq<string>): seq<string> {
    if xs == [] then [] else Insert(xs[0], Sort(xs[1..]))
  }

  lemma {:induction false} InsertAdds(x: string, xs: seq<string>)
    ensures multiset(Insert(x, xs)) == multiset(xs) + multiset{x}
  {
    if xs != [] && !StrLeq(x, xs[0]) {
      InsertAdds(x, xs[1..]);
      assert xs == [xs[0]] + xs[1..];
    }
  }

  lemma HeadIsLeast(h: string, x: string, xs: seq<string>)
    requires StrLeq(h, x) && forall y :: y in xs ==> StrLeq(h, y)
    ensures forall y :: y in Insert(x, xs) ==> StrLeq(h, y)
  {
    InsertAdds(x, xs);
    forall y | y in Insert(x, xs) ensures StrLeq(h, y) {
      assert y in multiset(Insert(x, xs));
      assert y == x || y in multiset(xs);
    }
  }

  lemma {:induction false} InsertSorts(x: string, xs: seq<string>)
    requires Sorted(xs)
    ensures Sorted(Insert(x, xs))
  {
    var r := Insert(x, xs);
    if xs == [] {
    } else if StrLeq(x, xs[0]) {
      forall j | 0 < j < |r| ensures StrLeq(r[0], r[j]) {
        if j > 1 { LeqChains(x, xs[0], xs[j - 1]); }
      }
    } else {
      InsertSorts(x, xs[1..]);
      LeqIsTotal(x, xs[0]);
      HeadIsLeast(xs[0], x, xs[1..]);
      var rest := Insert(x, xs[1..]);
      forall j | 0 < j < |r| ensures StrLeq(r[0], r[j]) {
        assert r[j] == rest[j - 1];
      }
    }
  }

  lemma {:induction false} SortSorts(xs: seq<string>)
    ensures Sorted(Sort(xs)) && multiset(Sort(xs)) == multiset(xs)
  {
    if xs != [] {
      SortSorts(xs[1..]);
      InsertSorts(xs[0], Sort(xs[1..]));
      InsertAdds(xs[0], Sort(xs[1..]));
      assert xs == [xs[0]] + xs[1..];
      assert multiset(xs) == multiset{xs[0]} + multiset(xs[1..]);
    }
  }

  /** A strictly ascending list is fixed by the set of its elements. */
  lemma {:induction false} StrictlySortedIsUnique(xs: seq<string>, ys: seq<string>)
    requires StrictlySorted(xs) && StrictlySorted(ys)
    requires forall s :: s in xs <==> s in ys
    ensures xs == ys
  {
    assert xs != [] ==> xs[0] in xs;
    assert ys != [] ==> ys[0] in ys;
    if xs != [] && ys != [] {
      var i :| 0 <= i < |ys| && ys[i] == xs[0];
      var j :| 0 <= j < |xs| && xs[j] == ys[0];
      LeqIsTotal(xs[0], ys[0]);
      assert xs[0] == ys[0];
      forall s | s in xs[1..] ensures s in ys[1..] {
        var k :| 0 <= k < |xs[1..]| && xs[1..][k] == s;
        assert s == xs[k + 1] && s in ys;
        LeqIsTotal(xs[0], s);
        var m :| 0 <= m < |ys| && ys[m] == s;
        assert m > 0 && ys[1..][m - 1] == s;
      }
      forall s | s in ys[1..] ensures s in xs[1..] {
        var k :| 0 <= k < |ys[1..]| && ys[1..][k] == s;
        assert s == ys[k + 1] && s in xs;
        LeqIsTotal(ys[0], s);
        var m :| 0 <= m < |xs| && xs[m] == s;
        assert m > 0 && xs[1..][m - 1] == s;
      }
      StrictlySortedIsUnique(xs[1..], ys[1..]);
      assert xs == [xs[0]] + xs[1..] && ys == [ys[0]] + ys[1..];
    }
  }
}
