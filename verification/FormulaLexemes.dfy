/** Which characters make up which token, and where it ends: each token is the longest run of its kind. */
module FormulaLexemes {
  import opened Outcomes
  import opened JsText
  import opened FormulaNumbers
  import opened FormulaLexer

  predicate InNumber(c: char) {
    '0' <= c <= '9' || c == '.'
  }

  predicate BeginsName(c: char) {
    'A' <= c <= 'Z' || 'a' <= c <= 'z' || c == '_'
  }

  predicate InName(c: char) {
    BeginsName(c) || '0' <= c <= '9'
  }

  /** The run from i to j holds only such characters and cannot be made longer. */
  predicate IsLongestRun(s: string, i: nat, j: nat, test: char -> bool) {
    i < j <= |s| && AllIn(s[i..j], test) && (j < |s| ==> !test(s[j]))
  }

  lemma SameRun(s: string, i: nat, j: nat, test: char -> bool, other: char -> bool)
    requires i < j <= |s| && (forall c :: test(c) <==> other(c))
    requires test(s[i]) && j == SpanEnd(s, i + 1, test)
    ensures IsLongestRun(s, i, j, other)
  {
    forall k | 0 <= k < j - i ensures other(s[i..j][k]) {
      assert s[i..j][k] == s[i + k];
    }
  }

  /** No character stands in the way of the token that begins at i except one the language does not use. */
  lemma UnreadableExactly(s: string, i: nat)
    requires i < |s|
    ensures LexemeAt(s, i).Err? <==> !(s[i] in " (),+-*/><=!" || InNumber(s[i]) || BeginsName(s[i]))
    ensures LexemeAt(s, i).Err? ==> LexemeAt(s, i) == Err(UnexpectedCharacter(i))
  {
  }

  /** A blank is skipped, and brackets, commas and operators stand for themselves; a comparison takes a following '='. */
  lemma SymbolExactly(s: string, i: nat)
    requires i < |s|
    ensures s[i] == ' ' ==> LexemeAt(s, i) == Ok(([], i + 1))
    ensures s[i] == '(' ==> LexemeAt(s, i) == Ok(([LParen], i + 1))
    ensures s[i] == ')' ==> LexemeAt(s, i) == Ok(([RParen], i + 1))
    ensures s[i] == ',' ==> LexemeAt(s, i) == Ok(([Comma], i + 1))
    ensures s[i] in "+-*/" ==> LexemeAt(s, i) == Ok(([Op([s[i]])], i + 1))
    ensures s[i] in "><=!" && (i + 1 == |s| || s[i + 1] != '=') ==> LexemeAt(s, i) == Ok(([Op([s[i]])], i + 1))
    ensures s[i] in "><=!" && i + 1 < |s| && s[i + 1] == '=' ==> LexemeAt(s, i) == Ok(([Op([s[i], '='])], i + 2))
  {
  }

  /** Digits and points run on as far as they can and are one number. */
  lemma NumberExactly(s: string, i: nat)
    requires i < |s| && InNumber(s[i])
    ensures var r := LexemeAt(s, i);
            r.Ok? && IsLongestRun(s, i, r.value.1, InNumber) && r.value.0 == [Number(ParseFloat(s[i..r.value.1]))]
  {
    SameRun(s, i, LexemeAt(s, i).value.1, IsNumberChar, InNumber);
  }

  /** A name runs on over letters, underscores and digits. */
  lemma NameExactly(s: string, i: nat)
    requires i < |s| && BeginsName(s[i])
    ensures var r := LexemeAt(s, i);
            r.Ok? && IsLongestRun(s, i, r.value.1, InName) && r.value.0 == [Ident(s[i..r.value.1])]
  {
    SameRun(s, i, LexemeAt(s, i).value.1, IsIdentChar, InName);
  }

  /** A number is read up to its second point; it needs a digit before the first one or behind it. */
  lemma FloatExactly(whole: string, fraction: string, rest: string)
    requires AllIn(whole, IsDigit) && AllIn(fraction, IsDigit) && (rest == [] || !IsDigit(rest[0]))
    ensures ParseFloat(whole + ("." + (fraction + rest)))
         == if whole == [] && fraction == [] then NaN else Fin(DecimalValue(whole, fraction))
  {
    var s := whole + ("." + (fraction + rest));
    var n := |whole| + 1 + |fraction|;
    SpanStopsAt(s, 0, |whole|, IsDigit);
    SpanStopsAt(s, |whole| + 1, n, IsDigit);
    assert s[..|whole|] == whole && s[|whole| + 1..n] == fraction;
  }

  /** Digits alone are the whole number they write. */
  lemma WholeExactly(whole: string)
    requires AllIn(whole, IsDigit)
    ensures ParseFloat(whole) == if whole == [] then NaN else Fin(WholeValue(whole) as real)
  {
    SpanStopsAt(whole, 0, |whole|, IsDigit);
    assert whole[..|whole|] == whole;
    assert PowerOfTen(0) == 1.0 && WholeValue([]) == 0;
  }
}
