/** The tokenizer of the formula language and the text its tokens come from. */
module FormulaLexer {
  import opened Outcomes
  import opened JsText
  import opened FormulaNumbers

  datatype Token =
    | Number(value: Num)
    | Ident(name: string)
    | Op(symbol: string)
    | LParen
    | RParen
    | Comma

  datatype FormulaError =
    | UnexpectedCharacter(at: nat)
    | MissingVariable(name: string)
    | NotNumeric(name: string)
    | DivideByZero
    | ExpectedValue
    | UnexpectedToken(token: Token)
    | ExpectedClosing
    | ExpectedOpening(name: string)
    | IfRequiresThen
    | IfRequiresElse
    | TrailingTokens
    | NotFinite

  predicate IsNumberChar(c: char) {
    IsDigit(c) || c == '.'
  }

  predicate IsIdentStart(c: char) {
    IsLetter(c) || c == '_'
  }

  predicate IsIdentChar(c: char) {
    IsIdentStart(c) || IsDigit(c)
  }

  predicate IsArithmeticChar(c: char) {
    c == '+' || c == '-' || c == '*' || c == '/'
  }

  predicate IsComparisonChar(c: char) {
    c == '>' || c == '<' || c == '=' || c == '!'
  }

  function PowerOfTen(n: nat): (p: real)
    ensures p > 0.0
  {
    if n == 0 then 1.0 else 10.0 * PowerOfTen(n - 1)
  }

  function DecimalValue(whole: string, fraction: string): real
    requires AllIn(whole, IsDigit) && AllIn(fraction, IsDigit)
  {
    WholeValue(whole) as real + WholeValue(fraction) as real / PowerOfTen(|fraction|)
  }

  /** parseFloat on a run of digits and points: the longest decimal prefix, NaN when it holds no digit. */
  function ParseFloat(text: string): Num {
    var a := SpanEnd(text, 0, IsDigit);
    var b := if a < |text| && text[a] == '.' then SpanEnd(text, a + 1, IsDigit) else a;
    var fraction := if a < b then text[a + 1..b] else [];
    if a == 0 && fraction == [] then NaN
    else Fin(DecimalValue(text[..a], fraction))
  }

  /** replace(/\s+/g, ' ').trim() */
  function Normalize(input: string): string {
    Trim(Collapse(input))
  }

  type LexResult = Result<seq<Token>, FormulaError>

  /** What stands at position i: no token (a blank) or one token, and where it ends. */
  function LexemeAt(s: string, i: nat): (r: Result<(seq<Token>, nat), FormulaError>)
    requires i < |s|
    ensures r.Ok? ==> |r.value.0| <= 1 && i < r.value.1 <= |s|
  {
    var ch := s[i];
    if ch == ' ' then Ok(([], i + 1))
    else if ch == '(' then Ok(([LParen], i + 1))
    else if ch == ')' then Ok(([RParen], i + 1))
    else if ch == ',' then Ok(([Comma], i + 1))
    else if IsArithmeticChar(ch) then Ok(([Op([ch])], i + 1))
    else if IsComparisonChar(ch) then
      if i + 1 < |s| && s[i + 1] == '=' then Ok(([Op([ch, '='])], i + 2)) else Ok(([Op([ch])], i + 1))
    else if IsNumberChar(ch) then
      var j := SpanEnd(s, i + 1, IsNumberChar);
      Ok(([Number(ParseFloat(s[i..j]))], j))
    else if IsIdentStart(ch) then
      var j := SpanEnd(s, i + 1, IsIdentChar);
      Ok(([Ident(s[i..j])], j))
    else Err(UnexpectedCharacter(i))
  }

  /** The tokens of s from position i on, after the ones already found. */
  function LexFrom(s: string, i: nat, found: seq<Token>): LexResult
    requires i <= |s|
    decreases |s| - i
  {
    if i == |s| then Ok(found)
    else
      var (token, j) :- LexemeAt(s, i);
      LexFrom(s, j, found + token)
  }

  function Lex(input: string): LexResult {
    LexFrom(Normalize(input), 0, [])
  }

  /** One turn of the tokenizer's loop. */
  method ReadLexeme(s: string, i: nat) returns (r: Result<(seq<Token>, nat), FormulaError>)
    requires i < |s|
    ensures r == LexemeAt(s, i)
  {
    var ch := s[i];
    if ch == ' ' { return Ok(([], i + 1)); }
    if ch == '(' { return Ok(([LParen], i + 1)); }
    if ch == ')' { return Ok(([RParen], i + 1)); }
    if ch == ',' { return Ok(([Comma], i + 1)); }
    if IsArithmeticChar(ch) { return Ok(([Op([ch])], i + 1)); }
    if IsComparisonChar(ch) {
      if i + 1 < |s| && s[i + 1] == '=' {
        assert [ch] + "=" == [ch, '='];
        return Ok(([Op([ch] + "=")], i + 2));
      }
      return Ok(([Op([ch])], i + 1));
    }
    if IsNumberChar(ch) {
      var num, j := ReadRun(s, i, IsNumberChar);
      return Ok(([Number(ParseFloat(num))], j));
    }
    if IsIdentStart(ch) {
      var ident, j := ReadRun(s, i, IsIdentChar);
      return Ok(([Ident(ident)], j));
    }
    return Err(UnexpectedCharacter(i));
  }

  /** The character at i and the ones after it that pass the test, added one by one. */
  method ReadRun(s: string, i: nat, test: char -> bool) returns (run: string, j: nat)
    requires i < |s|
    ensures j == SpanEnd(s, i + 1, test) && run == s[i..j]
  {
    run, j := [s[i]], i + 1;
    while j < |s| && test(s[j])
      invariant i < j <= |s| && run == s[i..j]
      invariant SpanEnd(s, i + 1, test) == SpanEnd(s, j, test)
    {
      run := run + [s[j]];
      j := j + 1;
    }
  }

  method Tokenize(input: string) returns (r: LexResult)
    ensures r == Lex(input)
  {
    var tokens: seq<Token> := [];
    var i := 0;
    var s := Normalize(input);
    while i < |s|
      invariant i <= |s|
      invariant Lex(input) == LexFrom(s, i, tokens)
    {
      var lexeme :- ReadLexeme(s, i);
      tokens, i := tokens + lexeme.0, lexeme.1;
    }
    return Ok(tokens);
  }

  lemma {:induction false} LexGrowsByOne(s: string, i: nat, found: seq<Token>)
    requires i <= |s|
    ensures var r := LexFrom(s, i, found); r.Ok? ==> |found| <= |r.value| <= |found| + |s| - i
    decreases |s| - i
  {
    if i < |s| {
      var next := LexemeAt(s, i);
      if next.Ok? {
        LexGrowsByOne(s, next.value.1, found + next.value.0);
      }
    }
  }

  // ---- Text of tokens ----

  const COMPARISONS: set<string> := {">", "<", ">=", "<=", "=", "==", "!="}
  const SYMBOLS: set<string> := {"+", "-", "*", "/", "!"} + COMPARISONS

  /** The text is one a reader may type for the token. */
  predicate Spells(text: string, t: Token) {
    match t
    case Number(v) => text != [] && AllIn(text, IsNumberChar) && ParseFloat(text) == v
    case Ident(name) => text == name && text != [] && IsIdentStart(text[0]) && AllIn(text, IsIdentChar)
    case Op(symbol) => text == symbol && symbol in SYMBOLS
    case LParen => text == "("
    case RParen => text == ")"
    case Comma => text == ","
  }

  predicate SpellsAll(texts: seq<string>, toks: seq<Token>) {
    |texts| == |toks| && forall k :: 0 <= k < |toks| ==> Spells(texts[k], toks[k])
  }

  /** The texts joined by one blank. */
  function Join(texts: seq<string>): string {
    if |texts| == 0 then ""
    else if |texts| == 1 then texts[0]
    else texts[0] + " " + Join(texts[1..])
  }

  predicate NoSpace(text: string) {
    forall k :: 0 <= k < |text| ==> !IsSpace(text[k])
  }

  lemma SpellingHasNoSpace(text: string, t: Token)
    requires Spells(text, t)
    ensures text != [] && NoSpace(text)
  {
  }

  /** One lexeme, ended by a blank or by the end of the text, is read as exactly its token. */
  lemma OneSpelling(s: string, i: nat, j: nat, t: Token)
    requires i < j <= |s| && Spells(s[i..j], t)
    requires j < |s| ==> s[j] == ' '
    ensures LexemeAt(s, i) == Ok(([t], j))
  {
    var text := s[i..j];
    match t
    case Number(_) => NumberSpelling(s, i, j, t);
    case Ident(_) => IdentSpelling(s, i, j, t);
    case Op(symbol) => OperatorSpelling(s, i, j, symbol);
    case _ => assert |text| == 1 && s[i] == text[0];
  }

  lemma NumberSpelling(s: string, i: nat, j: nat, t: Token)
    requires i < j <= |s| && t.Number? && Spells(s[i..j], t)
    requires j < |s| ==> s[j] == ' '
    ensures LexemeAt(s, i) == Ok(([t], j))
  {
    assert forall k :: i <= k < j ==> s[k] == s[i..j][k - i];
    SpanStopsAt(s, i + 1, j, IsNumberChar);
    assert IsNumberChar(s[i]);
  }

  lemma IdentSpelling(s: string, i: nat, j: nat, t: Token)
    requires i < j <= |s| && t.Ident? && Spells(s[i..j], t)
    requires j < |s| ==> s[j] == ' '
    ensures LexemeAt(s, i) == Ok(([t], j))
  {
    assert forall k :: i <= k < j ==> s[k] == s[i..j][k - i];
    SpanStopsAt(s, i + 1, j, IsIdentChar);
    assert IsIdentStart(s[i]);
  }

  lemma OperatorSpelling(s: string, i: nat, j: nat, symbol: string)
    requires i < j <= |s| && s[i..j] == symbol && symbol in SYMBOLS
    requires j < |s| ==> s[j] == ' '
    ensures LexemeAt(s, i) == Ok(([Op(symbol)], j))
  {
    assert s[i] == symbol[0];
    if |symbol| == 1 {
      assert symbol == [s[i]] && j == i + 1;
    } else {
      assert |symbol| == 2 && symbol[1] == '=' && IsComparisonChar(symbol[0]);
      assert s[i + 1] == symbol[1];
      assert symbol == [s[i], '='];
    }
  }

  lemma LexStep(s: string, i: nat, token: Token, j: nat, found: seq<Token>)
    requires i < |s| && LexemeAt(s, i) == Ok(([token], j))
    ensures LexFrom(s, i, found) == LexFrom(s, j, found + [token])
  {
  }

  lemma LexBlank(s: string, i: nat, found: seq<Token>)
    requires i < |s| && s[i] == ' '
    ensures LexFrom(s, i, found) == LexFrom(s, i + 1, found)
  {
    assert found + [] == found;
  }

  lemma LexStepBlank(s: string, i: nat, token: Token, j: nat, found: seq<Token>)
    requires i < |s| && LexemeAt(s, i) == Ok(([token], j)) && j < |s| && s[j] == ' '
    ensures LexFrom(s, i, found) == LexFrom(s, j + 1, found + [token])
  {
    LexStep(s, i, token, j, found);
    LexBlank(s, j, found + [token]);
  }

  /** The token is read at i and ends at j. */
  predicate Reads(s: string, i: nat, token: Token, j: nat) {
    i < j <= |s| && LexemeAt(s, i) == Ok(([token], j))
  }

  /** The k-th token is read where it should start, up to the blank in front of the next one or to the end of the text. */
  predicate Stands(s: string, starts: seq<nat>, toks: seq<Token>, k: nat)
    requires k < |starts| == |toks|
  {
    if k + 1 == |toks| then Reads(s, starts[k], toks[k], |s|)
    else 0 < starts[k + 1] <= |s| && s[starts[k + 1] - 1] == ' ' && Reads(s, starts[k], toks[k], starts[k + 1] - 1)
  }

  lemma {:induction false} LexStanding(s: string, starts: seq<nat>, toks: seq<Token>, k: nat, found: seq<Token>)
    requires k < |starts| == |toks| && forall n :: k <= n < |toks| ==> Stands(s, starts, toks, n)
    ensures starts[k] <= |s| && LexFrom(s, starts[k], found) == Ok(found + toks[k..])
    decreases |toks| - k
  {
    assert Stands(s, starts, toks, k);
    if k + 1 == |toks| {
      LexStep(s, starts[k], toks[k], |s|, found);
      assert toks[k..] == [toks[k]];
    } else {
      LexStepBlank(s, starts[k], toks[k], starts[k + 1] - 1, found);
      LexStanding(s, starts, toks, k + 1, found + [toks[k]]);
      assert (found + [toks[k]]) + toks[k + 1..] == found + toks[k..];
    }
  }

  /** Where the k-th of the joined texts starts. */
  function Start(texts: seq<string>, k: nat): nat
    requires k <= |texts|
    decreases k
  {
    if k == 0 then 0 else |texts[0]| + 1 + Start(texts[1..], k - 1)
  }

  lemma {:induction false} JoinHolds(texts: seq<string>, k: nat)
    requires k < |texts|
    ensures var s, i := Join(texts), Start(texts, k); var j := i + |texts[k]|;
            && j <= |s| && s[i..j] == texts[k] && Start(texts, k + 1) == j + 1
            && if k + 1 == |texts| then j == |s| else j < |s| && s[j] == ' '
    decreases k
  {
    var s, w := Join(texts), texts[0];
    if k > 0 {
      var rest := Join(texts[1..]);
      assert s == (w + " ") + rest;
      JoinHolds(texts[1..], k - 1);
      SliceBehind(w + " ", rest, Start(texts[1..], k - 1), |texts[k]|);
    } else if |texts| > 1 {
      assert s[..|w|] == w;
    }
  }

  lemma SliceBehind(front: string, rest: string, i: nat, n: nat)
    requires i + n <= |rest|
    ensures var s, j := front + rest, |front| + i;
            s[j..j + n] == rest[i..i + n] && (i + n < |rest| ==> s[j + n] == rest[i + n])
  {
  }

  /** A text that stands at i, with a blank or nothing behind it. */
  predicate StandsAt(s: string, i: nat, text: string) {
    var j := i + |text|;
    j <= |s| && s[i..j] == text && (j < |s| ==> s[j] == ' ')
  }

  lemma StandingIsRead(s: string, i: nat, text: string, t: Token)
    requires StandsAt(s, i, text) && Spells(text, t)
    ensures Reads(s, i, t, i + |text|)
  {
    SpellingHasNoSpace(text, t);
    OneSpelling(s, i, i + |text|, t);
  }

  function Starts(texts: seq<string>): (starts: seq<nat>)
    ensures |starts| == |texts| && forall k :: 0 <= k < |texts| ==> starts[k] == Start(texts, k)
  {
    seq(|texts|, k requires 0 <= k < |texts| => Start(texts, k))
  }

  lemma JoinStands(texts: seq<string>, k: nat, starts: seq<nat>)
    requires k < |texts| && starts == Starts(texts)
    ensures StandsAt(Join(texts), starts[k], texts[k])
    ensures if k + 1 == |texts| then starts[k] + |texts[k]| == |Join(texts)|
            else starts[k + 1] == starts[k] + |texts[k]| + 1 && starts[k + 1] <= |Join(texts)|
  {
    JoinHolds(texts, k);
  }

  lemma LexemesStand(s: string, texts: seq<string>, toks: seq<Token>, starts: seq<nat>, k: nat)
    requires k < |texts| == |toks| == |starts| && StandsAt(s, starts[k], texts[k]) && Spells(texts[k], toks[k])
    requires if k + 1 == |texts| then starts[k] + |texts[k]| == |s|
             else starts[k + 1] == starts[k] + |texts[k]| + 1 && starts[k + 1] <= |s|
    ensures Stands(s, starts, toks, k)
  {
    StandingIsRead(s, starts[k], texts[k], toks[k]);
  }

  lemma {:induction false} CollapseWord(word: string, rest: string)
    requires NoSpace(word)
    ensures Collapse(word + rest) == word + Collapse(rest)
  {
    if word == [] {
      assert word + rest == rest;
    } else {
      assert (word + rest)[1..] == word[1..] + rest;
      CollapseWord(word[1..], rest);
      assert [word[0]] + (word[1..] + Collapse(rest)) == word + Collapse(rest);
    }
  }

  /** A blank before a text that starts with a non-space stays one blank. */
  lemma CollapseBlank(rest: string)
    requires rest != [] && !IsSpace(rest[0])
    ensures Collapse(" " + rest) == " " + Collapse(rest)
  {
    var s := " " + rest;
    SpanStopsAt(s, 0, 1, IsSpace);
    assert s[1..] == rest;
  }

  predicate Words(texts: seq<string>) {
    forall k :: 0 <= k < |texts| ==> texts[k] != [] && NoSpace(texts[k])
  }

  lemma SpellingsAreWords(texts: seq<string>, toks: seq<Token>)
    requires SpellsAll(texts, toks)
    ensures Words(texts)
  {
    forall k | 0 <= k < |texts| ensures texts[k] != [] && NoSpace(texts[k]) {
      SpellingHasNoSpace(texts[k], toks[k]);
    }
  }

  lemma {:induction false} JoinIsCollapsed(texts: seq<string>)
    requires Words(texts)
    ensures Collapse(Join(texts)) == Join(texts)
    decreases |texts|
  {
    if |texts| == 1 {
      CollapseWord(texts[0], []);
      assert texts[0] + [] == texts[0];
    } else if |texts| > 1 {
      JoinIsCollapsed(texts[1..]);
      JoinHasEdges(texts[1..]);
      CollapseAfterWord(texts[0], Join(texts[1..]));
    }
  }

  lemma CollapseAfterWord(word: string, rest: string)
    requires NoSpace(word) && rest != [] && !IsSpace(rest[0]) && Collapse(rest) == rest
    ensures Collapse(word + " " + rest) == word + " " + rest
  {
    CollapseWord(word, " " + rest);
    CollapseBlank(rest);
    assert word + (" " + rest) == word + " " + rest;
  }

  lemma {:induction false} JoinHasEdges(texts: seq<string>)
    requires Words(texts)
    ensures Edges(Join(texts)) && (|texts| > 0 ==> Join(texts) != [] && !IsSpace(Join(texts)[0]))
    decreases |texts|
  {
    if |texts| > 1 {
      var rest := Join(texts[1..]);
      JoinHasEdges(texts[1..]);
      assert Join(texts)[0] == texts[0][0];
      assert Join(texts)[|Join(texts)| - 1] == rest[|rest| - 1];
    }
  }

  /** The lexer half of the round trip: space-separated lexemes are read back as exactly their tokens. */
  lemma LexInvertsJoin(texts: seq<string>, toks: seq<Token>)
    requires SpellsAll(texts, toks)
    ensures Lex(Join(texts)) == Ok(toks)
  {
    SpellingsAreWords(texts, toks);
    JoinIsCollapsed(texts);
    JoinHasEdges(texts);
    TrimKeeps(Join(texts));
    if toks != [] {
      var starts := Starts(texts);
      forall k | 0 <= k < |toks| ensures Stands(Join(texts), starts, toks, k) {
        JoinStands(texts, k, starts);
        LexemesStand(Join(texts), texts, toks, starts, k);
      }
      LexStanding(Join(texts), starts, toks, 0, []);
      assert [] + toks[0..] == toks;
    }
  }

  /** The lexer never makes more tokens than its text has characters, before or after the white space is normalized. */
  lemma LexIsLinear(input: string)
    ensures Lex(input).Ok? ==> |Lex(input).value| <= |Normalize(input)| <= |input|
  {
    LexGrowsByOne(Normalize(input), 0, []);
    CollapseShortens(input);
    TrimEndIsMiddle(TrimStart(Collapse(input)));
  }

  lemma {:induction false} CollapseShortens(s: string)
    ensures |Collapse(s)| <= |s|
    decreases |s|
  {
    if s != [] {
      if IsSpace(s[0]) {
        var j := SpanEnd(s, 0, IsSpace);
        assert j > 0;
        CollapseShortens(s[j..]);
      } else {
        CollapseShortens(s[1..]);
      }
    }
  }

  // ---- Which numbers have a text ----

  /** Digits, and digits around a point, are read as the decimal number they write. */
  lemma WholeText(whole: string)
    requires whole != [] && AllIn(whole, IsDigit)
    ensures ParseFloat(whole) == Fin(WholeValue(whole) as real)
  {
    SpanStopsAt(whole, 0, |whole|, IsDigit);
    assert whole[..|whole|] == whole;
    assert WholeValue([]) as real / PowerOfTen(0) == 0.0;
  }

  lemma FractionText(whole: string, fraction: string)
    requires whole != [] && AllIn(whole, IsDigit) && AllIn(fraction, IsDigit)
    ensures ParseFloat(whole + "." + fraction) == Fin(DecimalValue(whole, fraction))
  {
    var text, a := whole + "." + fraction, |whole|;
    PointSplits(text, whole, fraction);
    SpanStopsAt(text, 0, a, IsDigit);
    SpanStopsAt(text, a + 1, |text|, IsDigit);
  }

  lemma PointSplits(text: string, whole: string, fraction: string)
    requires text == whole + "." + fraction
    ensures var a := |whole|; text[..a] == whole && text[a] == '.' && text[a + 1..] == fraction && text[a + 1..|text|] == fraction
    ensures forall k :: 0 <= k < |whole| ==> text[k] == whole[k]
    ensures forall k :: |whole| < k < |text| ==> text[k] == fraction[k - |whole| - 1]
  {
  }

  /** Every whole number has a text, and so has every finite decimal. */
  lemma WholeNumberIsSpelled(n: nat)
    ensures Spells(Digits(n), Number(Fin(n as real)))
  {
    DigitsSpellTheNumber(n);
    WholeText(Digits(n));
  }

  lemma DecimalIsSpelled(n: nat, fraction: string)
    requires AllIn(fraction, IsDigit)
    ensures Spells(Digits(n) + "." + fraction, Number(Fin(n as real + DecimalValue("", fraction))))
  {
    DigitsSpellTheNumber(n);
    FractionText(Digits(n), fraction);
    assert DecimalValue(Digits(n), fraction) == n as real + DecimalValue("", fraction);
  }
}
