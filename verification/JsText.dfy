/** The parts of JavaScript's string library the modelled files use. */
module JsText {

  /** The characters trim() removes and \s matches (ECMA-262 WhiteSpace and LineTerminator). */
  predicate IsSpace(c: char) {
    || c == ' ' || c == '\t' || c == '\n' || c == '\r' || c == '\U{000B}' || c == '\U{000C}'
    || c == '\U{00A0}' || c == '\U{1680}' || '\U{2000}' <= c <= '\U{200A}'
    || c == '\U{2028}' || c == '\U{2029}' || c == '\U{202F}' || c == '\U{205F}'
    || c == '\U{3000}' || c == '\U{FEFF}'
  }

  predicate IsDigit(c: char) {
    '0' <= c <= '9'
  }

  predicate IsLetter(c: char) {
    'A' <= c <= 'Z' || 'a' <= c <= 'z'
  }

  function DigitValue(c: char): nat
    requires IsDigit(c)
  {
    c as int - '0' as int
  }

  function DigitChar(d: nat): (c: char)
    requires d < 10
    ensures IsDigit(c) && DigitValue(c) == d
  {
    ('0' as int + d) as char
  }

  /** Position of the first character of s at or after i that fails the test. */
  function SpanEnd(s: string, i: nat, test: char -> bool): (j: nat)
    requires i <= |s|
    ensures i <= j <= |s|
    ensures forall k :: i <= k < j ==> test(s[k])
    ensures j < |s| ==> !test(s[j])
    decreases |s| - i
  {
    if i < |s| && test(s[i]) then SpanEnd(s, i + 1, test) else i
  }

  /** The span is fixed by where the test first fails. */
  lemma {:induction false} SpanStopsAt(s: string, i: nat, j: nat, test: char -> bool)
    requires i <= j <= |s|
    requires forall k :: i <= k < j ==> test(s[k])
    requires j < |s| ==> !test(s[j])
    ensures SpanEnd(s, i, test) == j
    decreases j - i
  {
    if i < j {
      SpanStopsAt(s, i + 1, j, test);
    }
  }

  function TrimStart(s: string): string {
    s[SpanEnd(s, 0, IsSpace)..]
  }

  function TrimEnd(s: string): string {
    if s != [] && IsSpace(s[|s| - 1]) then TrimEnd(s[..|s| - 1]) else s
  }

  function Trim(s: string): string {
    TrimEnd(TrimStart(s))
  }

  /** replace(/\s+/g, ' '): every run of white space becomes one blank. */
  function Collapse(s: string): string
    decreases |s|
  {
    if s == [] then []
    else if IsSpace(s[0]) then
      var j := SpanEnd(s, 0, IsSpace);
      assert j > 0;
      " " + Collapse(s[j..])
    else [s[0]] + Collapse(s[1..])
  }

  function UpperChar(c: char): char {
    if 'a' <= c <= 'z' then (c as int - 32) as char else c
  }

  /** toUpperCase on the ASCII letters, the only ones an identifier can hold. */
  function Upper(s: string): (u: string)
    ensures |u| == |s|
  {
    seq(|s|, i requires 0 <= i < |s| => UpperChar(s[i]))
  }

  /** Edges holds of a text that trimming leaves alone. */
  predicate Edges(s: string) {
    s == [] || (!IsSpace(s[0]) && !IsSpace(s[|s| - 1]))
  }

  lemma TrimKeeps(s: string)
    requires Edges(s)
    ensures Trim(s) == s
  {
    SpanStopsAt(s, 0, 0, IsSpace);
    assert s[0..] == s;
    assert TrimStart(s) == s;
    assert TrimEnd(s) == s;
  }

  lemma {:induction false} TrimEndIsMiddle(s: string)
    ensures TrimEnd(s) <= s
    ensures TrimEnd(s) == [] || !IsSpace(TrimEnd(s)[|TrimEnd(s)| - 1])
    ensures forall k :: |TrimEnd(s)| <= k < |s| ==> IsSpace(s[k])
  {
    if s != [] && IsSpace(s[|s| - 1]) {
      TrimEndIsMiddle(s[..|s| - 1]);
    }
  }

  /** Trimming leaves a text without white space at its ends, so doing it twice changes nothing. */
  lemma TrimIsStable(s: string)
    ensures Edges(Trim(s)) && Trim(Trim(s)) == Trim(s)
  {
    TrimEndIsMiddle(TrimStart(s));
    TrimKeeps(Trim(s));
  }

  /** Trimming takes exactly the white space at both ends. */
  lemma TrimExactly(before: string, text: string, after: string)
    requires AllIn(before, IsSpace) && AllIn(after, IsSpace) && Edges(text)
    ensures Trim(before + text + after) == text
  {
    if text == [] {
      var s := before + text + after;
      assert forall k :: 0 <= k < |s| ==> IsSpace(s[k]);
      SpanStopsAt(s, 0, |s|, IsSpace);
    } else {
      var s := before + text + after;
      SpanStopsAt(s, 0, |before|, IsSpace);
      assert s[|before|..] == text + after;
      TrimEndStops(text, after);
    }
  }

  lemma {:induction false} TrimEndStops(text: string, after: string)
    requires text != [] && !IsSpace(text[|text| - 1]) && AllIn(after, IsSpace)
    ensures TrimEnd(text + after) == text
  {
    var s := text + after;
    if after == [] {
      assert s == text;
    } else {
      assert s[..|s| - 1] == text + after[..|after| - 1];
      TrimEndStops(text, after[..|after| - 1]);
    }
  }

  /** A text without white space stays as it is. */
  lemma {:induction false} CollapseKeeps(text: string)
    requires forall k :: 0 <= k < |text| ==> !IsSpace(text[k])
    ensures Collapse(text) == text
  {
    if text != [] {
      CollapseKeeps(text[1..]);
      assert text == [text[0]] + text[1..];
    }
  }

  /** A run of white space behind a text without any becomes one blank, and the rest is collapsed in turn. */
  lemma {:induction false} CollapseRun(text: string, spaces: string, rest: string)
    requires forall k :: 0 <= k < |text| ==> !IsSpace(text[k])
    requires spaces != [] && AllIn(spaces, IsSpace) && (rest == [] || !IsSpace(rest[0]))
    ensures Collapse(text + (spaces + rest)) == text + (" " + Collapse(rest))
  {
    var s := text + (spaces + rest);
    if text == [] {
      assert s == spaces + rest;
      SpanStopsAt(s, 0, |spaces|, IsSpace);
      assert s[|spaces|..] == rest;
    } else {
      assert s[1..] == text[1..] + (spaces + rest);
      CollapseRun(text[1..], spaces, rest);
      assert text == [text[0]] + text[1..];
    }
  }

  /** White space and upper case by their code points. */
  lemma CodePoints(c: char)
    ensures var n := c as int;
            IsSpace(c) <==> 9 <= n <= 13 || n == 32 || n == 160 || n == 5760 || 8192 <= n <= 8202
                            || n == 8232 || n == 8233 || n == 8239 || n == 8287 || n == 12288 || n == 65279
    ensures UpperChar(c) as int == if 97 <= c as int <= 122 then c as int - 32 else c as int
    ensures IsDigit(c) <==> 48 <= c as int <= 57
  {
  }

  // ---- Whole numbers as text ----

  predicate AllIn(text: string, test: char -> bool) {
    forall k :: 0 <= k < |text| ==> test(text[k])
  }

  /** The value of a string of decimal digits read as a whole number. */
  function WholeValue(digits: string): nat
    requires AllIn(digits, IsDigit)
  {
    if digits == [] then 0 else 10 * WholeValue(digits[..|digits| - 1]) + DigitValue(digits[|digits| - 1])
  }

  /** Decimal digits of a whole number. */
  function Digits(n: nat): string {
    if n < 10 then [DigitChar(n)] else Digits(n / 10) + [DigitChar(n % 10)]
  }

  lemma {:induction false} DigitsSpellTheNumber(n: nat)
    ensures Digits(n) != [] && AllIn(Digits(n), IsDigit) && WholeValue(Digits(n)) == n
  {
    var d := Digits(n);
    if n < 10 {
      assert WholeValue(d[..0]) == 0;
    } else {
      DigitsSpellTheNumber(n / 10);
      assert d[..|d| - 1] == Digits(n / 10);
    }
  }
}
