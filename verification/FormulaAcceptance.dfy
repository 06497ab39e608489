/**
 What the validator's acceptance means. Its run without variables reads up to the first variable and no
 further, and accepts there exactly what begins some formula of the grammar.
 */
module FormulaAcceptance {
  import opened Outcomes
  import opened FormulaNumbers
  import opened FormulaLexer
  import opened FormulaGrammar
  import opened FormulaParsing
  import opened FormulaEvaluator
  import opened FormulaMeaning
  import opened FormulaVariables
  import opened FormulaLocality
  import opened FormulaCompletion

  // ---- Where a run misses a variable ----

  /** The first token that names a variable the map does not give. */
  predicate FirstUnresolved(toks: seq<Token>, k: nat, vars: Variables) {
    k < |toks| && Unresolved(toks[k], vars) && forall j :: 0 <= j < k ==> !Unresolved(toks[j], vars)
  }

  /** The run stops there, whatever tokens follow. */
  ghost predicate StopsAt(toks: seq<Token>, k: nat, vars: Variables) {
    && FirstUnresolved(toks, k, vars)
    && forall others :: toks[..k + 1] <= others ==> EvaluateTokens(others, vars) == Err(MissingVariable(toks[k].name))
  }

  /** The tokens up to k are the beginning of a formula of the grammar whose value misses the variable at k. */
  ghost predicate BeginsFormula(toks: seq<Token>, k: nat, vars: Variables)
    requires FirstUnresolved(toks, k, vars)
  {
    exists e :: WellFormed(e, COMPARISON) && toks[..k + 1] <= Flatten(e) && Value(e, vars) == Err(MissingVariable(toks[k].name))
  }

  lemma MissesInLevel(toks: seq<Token>, vars: Variables)
    ensures IsMissing(EvaluateTokens(toks, vars)) <==> IsMissing(EvalLevel(COMPARISON, toks, 0, vars))
    ensures IsMissing(EvaluateTokens(toks, vars)) ==> EvaluateTokens(toks, vars).error == EvalLevel(COMPARISON, toks, 0, vars).error
  {
  }

  /** A miss within the first tokens stays whatever follows them. */
  lemma MissStays(front: seq<Token>, toks: seq<Token>, vars: Variables)
    requires front <= toks && IsMissing(EvaluateTokens(front, vars))
    ensures EvaluateTokens(toks, vars) == EvaluateTokens(front, vars)
  {
    assert toks[..|front|] == front;
    MissesInLevel(front, vars);
    LevelIsLocal(COMPARISON, toks, |front|, 0, vars);
    MissesInLevel(toks, vars);
  }

  /** And it comes from the tokens up to the first unresolved one. */
  lemma MissComesEarly(toks: seq<Token>, k: nat, vars: Variables)
    requires k < |toks| && Unresolved(toks[k], vars) && IsMissing(EvaluateTokens(toks, vars))
    ensures EvaluateTokens(toks[..k + 1], vars) == EvaluateTokens(toks, vars)
  {
    MissesInLevel(toks, vars);
    LevelKeeps(COMPARISON, toks, k, 0, vars);
    MissesInLevel(toks[..k + 1], vars);
  }

  /** The missed name stands among the tokens, unresolved. */
  lemma MissIsThere(toks: seq<Token>, vars: Variables) returns (j: nat)
    requires IsMissing(EvaluateTokens(toks, vars))
    ensures j < |toks| && Unresolved(toks[j], vars) && EvaluateTokens(toks, vars) == Err(MissingVariable(toks[j].name))
  {
    MissesInLevel(toks, vars);
    LevelRelated(COMPARISON, toks, 0, vars, map[]);
    var name := EvaluateTokens(toks, vars).error.name;
    assert IsUnresolved(name, toks, vars);
    j :| 0 <= j < |toks| && toks[j] == Ident(name);
  }

  lemma {:induction false} LeastUnresolved(toks: seq<Token>, j: nat, vars: Variables) returns (k: nat)
    requires j < |toks| && Unresolved(toks[j], vars)
    ensures k <= j && FirstUnresolved(toks, k, vars)
  {
    if i :| 0 <= i < j && Unresolved(toks[i], vars) {
      k := LeastUnresolved(toks, i, vars);
    } else {
      k := j;
    }
  }

  /** A run misses a variable exactly when it stops at one, the first it cannot resolve, whatever follows that. */
  lemma MissesExactlyAtAVariable(toks: seq<Token>, vars: Variables)
    ensures IsMissing(EvaluateTokens(toks, vars)) <==> exists k :: StopsAt(toks, k, vars)
    ensures forall j, k :: StopsAt(toks, j, vars) && StopsAt(toks, k, vars) ==> j == k
  {
    forall j, k | StopsAt(toks, j, vars) && StopsAt(toks, k, vars) ensures j == k {
      StopsAtOnePlace(toks, j, k, vars);
    }
    if IsMissing(EvaluateTokens(toks, vars)) {
      var j := MissIsThere(toks, vars);
      var k := LeastUnresolved(toks, j, vars);
      FirstIsMissed(toks, k, vars);
      assert StopsAt(toks, k, vars);
    }
    if k :| StopsAt(toks, k, vars) {
      assert toks[..k + 1] <= toks;
    }
  }

  lemma FirstIsMissed(toks: seq<Token>, k: nat, vars: Variables)
    requires FirstUnresolved(toks, k, vars) && IsMissing(EvaluateTokens(toks, vars))
    ensures StopsAt(toks, k, vars)
  {
    var front := toks[..k + 1];
    MissComesEarly(toks, k, vars);
    var i := MissIsThere(front, vars);
    assert i == k && front[i] == toks[k];
    forall others | front <= others ensures EvaluateTokens(others, vars) == Err(MissingVariable(toks[k].name)) {
      MissStays(front, others, vars);
    }
  }

  /** There is one place at most. */
  lemma StopsAtOnePlace(toks: seq<Token>, j: nat, k: nat, vars: Variables)
    requires StopsAt(toks, j, vars) && StopsAt(toks, k, vars)
    ensures j == k
  {
  }

  // ---- In the terms of the grammar ----

  /** The run stops at the first unresolved variable exactly when the tokens up to it begin a formula that misses it. */
  lemma StopsExactlyByGrammar(toks: seq<Token>, k: nat, vars: Variables)
    requires FirstUnresolved(toks, k, vars)
    ensures StopsAt(toks, k, vars) <==> BeginsFormula(toks, k, vars)
  {
    if StopsAt(toks, k, vars) {
      StopBegins(toks, k, vars);
    }
    if e :| WellFormed(e, COMPARISON) && toks[..k + 1] <= Flatten(e) && Value(e, vars) == Err(MissingVariable(toks[k].name)) {
      BeginningStops(toks, k, e, vars);
    }
  }

  lemma StopBegins(toks: seq<Token>, k: nat, vars: Variables)
    requires StopsAt(toks, k, vars)
    ensures BeginsFormula(toks, k, vars)
  {
    var front := toks[..k + 1];
    assert EndsUnresolved(front, vars);
    assert front <= front;
    MissesInLevel(front, vars);
    var e := LevelCompletes(COMPARISON, front, 0, vars);
    assert front[0..] == front;
  }

  lemma BeginningStops(toks: seq<Token>, k: nat, e: Expr, vars: Variables)
    requires FirstUnresolved(toks, k, vars) && WellFormed(e, COMPARISON) && toks[..k + 1] <= Flatten(e)
    requires Value(e, vars) == Err(MissingVariable(toks[k].name))
    ensures StopsAt(toks, k, vars)
  {
    var flat, front := Flatten(e), toks[..k + 1];
    ParsesExactlyTheGrammar(flat, e);
    LevelRefines(COMPARISON, flat, 0, vars);
    assert flat[k] == front[k] == toks[k] && flat[..k + 1] == front;
    MissesInLevel(flat, vars);
    MissComesEarly(flat, k, vars);
    MissStays(front, toks, vars);
    FirstIsMissed(toks, k, vars);
  }

  // ---- The validator ----

  /** The formula has a tree, and a value without any variables. */
  ghost predicate HasConstantValue(expression: string) {
    exists e :: Denotes(expression, e) && Outcome(e, map[]).Ok?
  }

  /** The tokens up to the first variable, that one included, begin a formula whose value needs it. */
  ghost predicate ReachesVariable(toks: seq<Token>) {
    exists k :: FirstUnresolved(toks, k, map[]) && BeginsFormula(toks, k, map[])
  }

  /**
   The validator accepts exactly the texts that can be read into tokens which are a formula with a value that
   needs no variables, or which begin, up to their first variable, as a formula whose value needs that one.
   */
  lemma AcceptedExactly(expression: string)
    ensures Accepted(expression)
       <==> Lex(expression).Ok? && (HasConstantValue(expression) || ReachesVariable(Lex(expression).value))
  {
    if Lex(expression).Ok? {
      var toks := Lex(expression).value;
      MissesExactlyAtAVariable(toks, map[]);
      forall k | FirstUnresolved(toks, k, map[]) ensures StopsAt(toks, k, map[]) <==> BeginsFormula(toks, k, map[]) {
        StopsExactlyByGrammar(toks, k, map[]);
      }
      ConstantValueExactly(expression);
    } else {
      LexErrorIsCharacter(Normalize(expression), 0, []);
    }
  }

  lemma ConstantValueExactly(expression: string)
    ensures Evaluate(expression, map[]).Ok? <==> HasConstantValue(expression)
  {
    if Evaluate(expression, map[]).Ok? {
      var v := Evaluate(expression, map[]).value;
      SucceedsExactlyByMeaning(expression, map[], v);
      var e :| Denotes(expression, e) && Value(e, map[]) == Ok(Fin(v));
      assert Outcome(e, map[]).Ok?;
    }
    if e :| Denotes(expression, e) && Outcome(e, map[]).Ok? {
      EvaluatesAsItsTree(expression, e, map[]);
    }
  }

  /** No tree ends in a comma. */
  lemma {:induction false} LastToken(e: Expr)
    ensures var toks := Flatten(e); toks[|toks| - 1] != Comma
  {
    match e
    case Neg(a) => LastToken(a);
    case Bin(_, _, r) => LastToken(r);
    case If(_, _, _, _, _, b) => LastToken(b);
    case _ =>
  }

  /** Acceptance promises no tree once a variable is reached: with a comma behind it, the same start is accepted and has none. */
  lemma StartIsAcceptedWithoutTree(toks: seq<Token>, k: nat, texts: seq<string>)
    requires StopsAt(toks, k, map[]) && SpellsAll(texts, toks[..k + 1] + [Comma])
    ensures Accepted(Join(texts)) && forall e :: !Denotes(Join(texts), e)
  {
    LexInvertsJoin(texts, toks[..k + 1] + [Comma]);
    forall e ensures !Denotes(Join(texts), e) {
      LastToken(e);
    }
  }
}
