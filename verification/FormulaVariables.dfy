/** How the outcome of a formula depends on the variables, and what the validator's run without any can tell. */
module FormulaVariables {
  import opened Outcomes
  import JsText
  import opened FormulaNumbers
  import opened FormulaLexer
  import opened FormulaGrammar
  import opened FormulaEvaluator

  /** Two maps give a name the same resolution. */
  predicate AgreeOn(name: string, v: Variables, w: Variables) {
    ResolveVar(name, v) == ResolveVar(name, w)
  }

  predicate AgreeOnNames(toks: seq<Token>, v: Variables, w: Variables) {
    forall k :: 0 <= k < |toks| && toks[k].Ident? ==> AgreeOn(toks[k].name, v, w)
  }

  /** The two runs are the same, or the second one has stopped at a variable it lacks. */
  predicate InStep<T(==)>(r: Result<T, FormulaError>, s: Result<T, FormulaError>) {
    r == s || (s.Err? && s.error.MissingVariable?)
  }

  /** Which runs are compared: maps that agree on every name, or any map against the empty one. */
  predicate Comparable(toks: seq<Token>, v: Variables, w: Variables) {
    AgreeOnNames(toks, v, w) || w == map[]
  }

  predicate IsVariable(name: string) {
    JsText.Upper(name) !in KEYWORDS
  }

  predicate IsUnresolved(name: string, toks: seq<Token>, vars: Variables) {
    IsVariable(name) && Ident(name) in toks && ResolveVar(name, vars) == Err(MissingVariable(name))
  }

  /** A run that reports a missing variable names one the formula mentions and the map cannot resolve. */
  predicate Blames<T>(toks: seq<Token>, vars: Variables, r: Result<T, FormulaError>) {
    r.Err? && r.error.MissingVariable? ==>
      IsUnresolved(r.error.name, toks, vars)
  }

  predicate Related<T(==)>(toks: seq<Token>, v: Variables, w: Variables, r: Result<T, FormulaError>, s: Result<T, FormulaError>) {
    InStep(r, s) && (AgreeOnNames(toks, v, w) ==> r == s) && Blames(toks, v, r)
  }

  lemma {:induction false} PrimaryRelated(toks: seq<Token>, pos: nat, v: Variables, w: Variables)
    requires pos <= |toks| && Comparable(toks, v, w)
    ensures Related(toks, v, w, EvalPrimary(toks, pos, v), EvalPrimary(toks, pos, w))
    decreases |toks| - pos, 0
  {
    if pos < |toks| {
      match toks[pos]
      case Ident(name) =>
        if JsText.Upper(name) == "IF" {
          IfRelated(toks, pos + 1, v, w);
        } else if JsText.Upper(name) in FUNCTIONS {
          FunctionRelated(JsText.Upper(name), toks, pos + 1, v, w);
        } else {
          assert AgreeOnNames(toks, v, w) ==> AgreeOn(name, v, w);
        }
      case LParen => LevelRelated(COMPARISON, toks, pos + 1, v, w);
      case Op(symbol) => if symbol == "-" { PrimaryRelated(toks, pos + 1, v, w); }
      case _ =>
    }
  }

  lemma IfStopsAtThen(toks: seq<Token>, pos: nat, v: Variables, w: Variables)
    requires pos <= |toks|
    requires var c := EvalLevel(COMPARISON, toks, pos, v); c.Ok? ==> !IsIdent(toks, c.value.1, "THEN")
    requires Related(toks, v, w, EvalLevel(COMPARISON, toks, pos, v), EvalLevel(COMPARISON, toks, pos, w))
    ensures Related(toks, v, w, EvalIf(toks, pos, v), EvalIf(toks, pos, w))
  {
  }

  lemma IfStopsAtElse(toks: seq<Token>, pos: nat, c: Num, p: nat, v: Variables, w: Variables)
    requires pos <= |toks| && IsIdent(toks, p, "THEN") && EvalLevel(COMPARISON, toks, pos, v) == Ok((c, p))
    requires var a := EvalLevel(COMPARISON, toks, p + 1, v); a.Ok? ==> !IsIdent(toks, a.value.1, "ELSE")
    requires Related(toks, v, w, EvalLevel(COMPARISON, toks, pos, v), EvalLevel(COMPARISON, toks, pos, w))
    requires Related(toks, v, w, EvalLevel(COMPARISON, toks, p + 1, v), EvalLevel(COMPARISON, toks, p + 1, w))
    ensures Related(toks, v, w, EvalIf(toks, pos, v), EvalIf(toks, pos, w))
  {
  }

  lemma IfReachesElse(toks: seq<Token>, pos: nat, c: Num, p: nat, a: Num, q: nat, v: Variables, w: Variables)
    requires pos <= |toks| && IsIdent(toks, p, "THEN") && IsIdent(toks, q, "ELSE")
    requires EvalLevel(COMPARISON, toks, pos, v) == Ok((c, p)) && EvalLevel(COMPARISON, toks, p + 1, v) == Ok((a, q))
    requires Related(toks, v, w, EvalLevel(COMPARISON, toks, pos, v), EvalLevel(COMPARISON, toks, pos, w))
    requires Related(toks, v, w, EvalLevel(COMPARISON, toks, p + 1, v), EvalLevel(COMPARISON, toks, p + 1, w))
    requires Related(toks, v, w, EvalLevel(COMPARISON, toks, q + 1, v), EvalLevel(COMPARISON, toks, q + 1, w))
    ensures Related(toks, v, w, EvalIf(toks, pos, v), EvalIf(toks, pos, w))
  {
  }

  lemma {:induction false} IfRelated(toks: seq<Token>, pos: nat, v: Variables, w: Variables)
    requires pos <= |toks| && Comparable(toks, v, w)
    ensures Related(toks, v, w, EvalIf(toks, pos, v), EvalIf(toks, pos, w))
    decreases |toks| - pos, COMPARISON + 2
  {
    LevelRelated(COMPARISON, toks, pos, v, w);
    var first := EvalLevel(COMPARISON, toks, pos, v);
    if first.Err? || !IsIdent(toks, first.value.1, "THEN") {
      IfStopsAtThen(toks, pos, v, w);
    } else {
      var (c, p) := first.value;
      LevelRelated(COMPARISON, toks, p + 1, v, w);
      var second := EvalLevel(COMPARISON, toks, p + 1, v);
      if second.Err? || !IsIdent(toks, second.value.1, "ELSE") {
        IfStopsAtElse(toks, pos, c, p, v, w);
      } else {
        LevelRelated(COMPARISON, toks, second.value.1 + 1, v, w);
        IfReachesElse(toks, pos, c, p, second.value.0, second.value.1, v, w);
      }
    }
  }

  lemma {:induction false} FunctionRelated(name: string, toks: seq<Token>, pos: nat, v: Variables, w: Variables)
    requires pos <= |toks| && Comparable(toks, v, w)
    ensures Related(toks, v, w, EvalFunction(name, toks, pos, v), EvalFunction(name, toks, pos, w))
    decreases |toks| - pos, COMPARISON + 3
  {
    if IsToken(toks, pos, LParen) && !IsToken(toks, pos + 1, RParen) {
      ArgsRelated(toks, pos + 1, v, w);
    }
  }

  lemma {:induction false} ArgsRelated(toks: seq<Token>, pos: nat, v: Variables, w: Variables)
    requires pos <= |toks| && Comparable(toks, v, w)
    ensures Related(toks, v, w, EvalArgs(toks, pos, v), EvalArgs(toks, pos, w))
    decreases |toks| - pos, COMPARISON + 2
  {
    LevelRelated(COMPARISON, toks, pos, v, w);
    var first := EvalLevel(COMPARISON, toks, pos, v);
    if first.Ok? && IsToken(toks, first.value.1, Comma) {
      ArgsRelated(toks, first.value.1 + 1, v, w);
    }
  }

  lemma {:induction false} LevelRelated(level: nat, toks: seq<Token>, pos: nat, v: Variables, w: Variables)
    requires pos <= |toks| && Comparable(toks, v, w)
    ensures Related(toks, v, w, EvalLevel(level, toks, pos, v), EvalLevel(level, toks, pos, w))
    decreases |toks| - pos, level + 1
  {
    if level == 0 {
      PrimaryRelated(toks, pos, v, w);
    } else {
      LevelRelated(level - 1, toks, pos, v, w);
      var first := EvalLevel(level - 1, toks, pos, v);
      if first.Ok? {
        ChainRelated(level, first.value.0, toks, first.value.1, v, w);
      }
    }
  }

  lemma {:induction false} ChainRelated(level: nat, left: Num, toks: seq<Token>, pos: nat, v: Variables, w: Variables)
    requires level > 0 && pos <= |toks| && Comparable(toks, v, w)
    ensures Related(toks, v, w, EvalChain(level, left, toks, pos, v), EvalChain(level, left, toks, pos, w))
    decreases |toks| - pos, 0
  {
    if LevelAt(toks, pos) == level {
      LevelRelated(level - 1, toks, pos + 1, v, w);
      var next := EvalLevel(level - 1, toks, pos + 1, v);
      if next.Ok? {
        var value := ApplyOperator(toks[pos].symbol, left, next.value.0);
        if value.Ok? {
          ChainRelated(level, value.value, toks, next.value.1, v, w);
        }
      }
    }
  }

  /** Only the variables a formula names can change its outcome. */
  lemma OutcomeDependsOnNames(expression: string, v: Variables, w: Variables)
    requires Lex(expression).Ok? ==> AgreeOnNames(Lex(expression).value, v, w)
    ensures Evaluate(expression, v) == Evaluate(expression, w)
  {
    if Lex(expression).Ok? {
      LevelRelated(COMPARISON, Lex(expression).value, 0, v, w);
    }
  }

  /** The run without variables follows any other run up to the first variable it looks up. */
  lemma EmptyRunFollows(expression: string, vars: Variables)
    ensures InStep(Evaluate(expression, vars), Evaluate(expression, map[]))
  {
    if Lex(expression).Ok? {
      LevelRelated(COMPARISON, Lex(expression).value, 0, vars, map[]);
    }
  }

  /** The validator accepts every formula that some variables can evaluate. */
  lemma ValidatorIsComplete(expression: string, vars: Variables)
    requires Evaluate(expression, vars).Ok?
    ensures Accepted(expression)
  {
    EmptyRunFollows(expression, vars);
  }

  predicate Closed(toks: seq<Token>) {
    forall k :: 0 <= k < |toks| && toks[k].Ident? ==> !IsVariable(toks[k].name)
  }

  /** A reported missing variable is one the formula mentions and the map does not give. */
  lemma MissingVariableIsMentioned(expression: string, vars: Variables, name: string)
    requires Evaluate(expression, vars) == Err(MissingVariable(name))
    ensures Lex(expression).Ok? && Ident(name) in Lex(expression).value && IsVariable(name)
    ensures name !in vars || vars[name].Absent?
  {
    assert Lex(expression).Ok? by {
      if Lex(expression).Err? { LexErrorIsCharacter(Normalize(expression), 0, []); }
    }
    LevelRelated(COMPARISON, Lex(expression).value, 0, vars, map[]);
  }

  lemma {:induction false} LexErrorIsCharacter(s: string, i: nat, found: seq<Token>)
    requires i <= |s|
    ensures var r := LexFrom(s, i, found); r.Err? ==> r.error.UnexpectedCharacter?
    decreases |s| - i
  {
    if i < |s| && LexemeAt(s, i).Ok? {
      var lexeme := LexemeAt(s, i).value;
      LexErrorIsCharacter(s, lexeme.1, found + lexeme.0);
    }
  }

  /** Without variables in it, a formula is accepted exactly when it evaluates, and then always to the same value. */
  lemma ValidatorIsExactOnClosedFormulas(expression: string, vars: Variables)
    requires Lex(expression).Ok? ==> Closed(Lex(expression).value)
    ensures Accepted(expression) <==> Evaluate(expression, vars).Ok?
    ensures Evaluate(expression, vars) == Evaluate(expression, map[])
  {
    OutcomeDependsOnNames(expression, vars, map[]);
    var r := Evaluate(expression, map[]);
    if r.Err? && r.error.MissingVariable? {
      MissingVariableIsMentioned(expression, map[], r.error.name);
      assert false;
    }
  }

  /** Acceptance promises no more: a syntax error behind the first variable goes unseen. */
  lemma ValidatorIsNotSound()
    ensures Accepted("a + )")
    ensures forall vars :: Evaluate("a + )", vars).Err?
  {
    var texts, toks := ["a", "+", ")"], [Ident("a"), Op("+"), RParen];
    assert texts[1..] == ["+", ")"] && texts[1..][1..] == [")"];
    assert Join(texts) == "a + )";
    LexInvertsJoin(texts, toks);
    forall vars: Variables ensures Evaluate("a + )", vars).Err? {
      AloneThenPlusThenClose(toks, vars);
    }
    AloneThenPlusThenClose(toks, map[]);
  }

  lemma AloneThenPlusThenClose(toks: seq<Token>, vars: Variables)
    requires toks == [Ident("a"), Op("+"), RParen]
    ensures EvalLevel(COMPARISON, toks, 0, vars).Err?
    ensures vars == map[] ==> EvalLevel(COMPARISON, toks, 0, vars) == Err(MissingVariable("a"))
  {
    assert JsText.Upper("a") == "A";
    var r := EvalPrimary(toks, 0, vars);
    assert EvalLevel(0, toks, 0, vars) == r;
    assert EvalLevel(0, toks, 2, vars).Err?;
    assert EvalLevel(PRODUCT, toks, 2, vars).Err?;
    assert r.Ok? ==> EvalLevel(PRODUCT, toks, 0, vars) == r;
    assert EvalLevel(SUM, toks, 0, vars).Err?;
  }
}
