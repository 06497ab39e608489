/**
 Every run that stops at a variable has read the beginning of some formula: what it has read can be
 completed to a tree of the grammar, whose own value misses that variable.
 */
module FormulaCompletion {
  import opened Outcomes
  import JsText
  import opened FormulaNumbers
  import opened FormulaLexer
  import opened FormulaGrammar
  import opened FormulaParsing
  import opened FormulaEvaluator
  import opened FormulaMeaning
  import opened FormulaLocality

  /** The last token, and no other, names a variable the map does not give. */
  predicate EndsUnresolved(toks: seq<Token>, vars: Variables) {
    toks != [] && Unresolved(toks[|toks| - 1], vars) && forall k :: 0 <= k < |toks| - 1 ==> !Unresolved(toks[k], vars)
  }

  function Missed(toks: seq<Token>): FormulaError
    requires toks != [] && toks[|toks| - 1].Ident?
  {
    MissingVariable(toks[|toks| - 1].name)
  }

  /** The tree fits the level, begins with the tokens from pos on and misses the variable they end in. */
  ghost predicate Completes(level: nat, toks: seq<Token>, pos: nat, e: Expr, vars: Variables)
    requires EndsUnresolved(toks, vars)
  {
    pos <= |toks| && WellFormed(e, level) && toks[pos..] <= Flatten(e) && Value(e, vars) == Err(Missed(toks))
  }

  const ZERO: Expr := Lit(Fin(0.0))

  // ---- Tokens in front and behind ----

  lemma PrefixBehind(toks: seq<Token>, pos: nat, p: nat, a: seq<Token>, b: seq<Token>)
    requires Covers(toks, pos, p, a) && toks[p..] <= b
    ensures toks[pos..] <= a + b
  {
    assert toks[pos..] == toks[pos..p] + toks[p..];
    assert (a + b)[..|toks| - pos] == a + b[..|toks| - p];
  }

  lemma PrefixMore(x: seq<Token>, a: seq<Token>, b: seq<Token>)
    requires x <= a
    ensures x <= a + b
  {
    assert (a + b)[..|x|] == a[..|x|];
  }

  /** What a run reads is a tree of the level, which stands there and has the value read. */
  lemma ReadIsTree(level: nat, toks: seq<Token>, pos: nat, vars: Variables) returns (e: Expr, v: Num, p: nat)
    requires pos <= |toks| && EvalLevel(level, toks, pos, vars).Ok?
    ensures pos < p <= |toks| && EvalLevel(level, toks, pos, vars) == Ok((v, p))
    ensures Sound(level, toks, pos, e, p) && Value(e, vars) == Ok(v)
  {
    LevelRefines(level, toks, pos, vars);
    LevelSound(level, toks, pos);
    e, p := ParseLevel(level, toks, pos).value.0, ParseLevel(level, toks, pos).value.1;
    v := EvalLevel(level, toks, pos, vars).value.0;
  }

  // ---- Completing what was read ----

  lemma {:induction false} PrimaryCompletes(toks: seq<Token>, pos: nat, vars: Variables) returns (e: Expr)
    requires EndsUnresolved(toks, vars) && pos <= |toks| && IsMissing(EvalPrimary(toks, pos, vars))
    ensures Completes(0, toks, pos, e, vars)
    decreases |toks| - pos, 0
  {
    match toks[pos]
    case Ident(name) =>
      if JsText.Upper(name) == "IF" {
        e := IfCompletes(toks, pos, vars);
      } else if JsText.Upper(name) in FUNCTIONS {
        e := CallCompletes(toks, pos, vars);
      } else {
        e := VariableCompletes(toks, pos, vars);
      }
    case LParen =>
      var b := LevelCompletes(COMPARISON, toks, pos + 1, vars);
      e := Paren(b);
      ParenCompletes(toks, pos, b, vars);
    case Op(_) =>
      var a := PrimaryCompletes(toks, pos + 1, vars);
      e := Neg(a);
      NegCompletes(toks, pos, a, vars);
  }

  lemma VariableCompletes(toks: seq<Token>, pos: nat, vars: Variables) returns (e: Expr)
    requires EndsUnresolved(toks, vars) && pos < |toks| && Unresolved(toks[pos], vars)
    ensures Completes(0, toks, pos, e, vars)
  {
    assert pos == |toks| - 1;
    assert toks[pos..] == [toks[pos]];
    e := Var(toks[pos].name);
  }

  lemma ParenCompletes(toks: seq<Token>, pos: nat, b: Expr, vars: Variables)
    requires EndsUnresolved(toks, vars) && IsToken(toks, pos, LParen) && Completes(COMPARISON, toks, pos + 1, b, vars)
    ensures Completes(0, toks, pos, Paren(b), vars)
  {
    CoversOne(toks, pos, LParen);
    PrefixBehind(toks, pos, pos + 1, [LParen], Flatten(b));
    PrefixMore(toks[pos..], [LParen] + Flatten(b), [RParen]);
  }

  lemma NegCompletes(toks: seq<Token>, pos: nat, a: Expr, vars: Variables)
    requires EndsUnresolved(toks, vars) && IsToken(toks, pos, Op("-")) && Completes(0, toks, pos + 1, a, vars)
    ensures Completes(0, toks, pos, Neg(a), vars)
  {
    CoversOne(toks, pos, Op("-"));
    PrefixBehind(toks, pos, pos + 1, [Op("-")], Flatten(a));
  }

  // ---- IF ----


  lemma {:induction false} IfCompletes(toks: seq<Token>, pos: nat, vars: Variables) returns (e: Expr)
    requires EndsUnresolved(toks, vars) && IsIdent(toks, pos, "IF") && IsMissing(EvalIf(toks, pos + 1, vars))
    ensures Completes(0, toks, pos, e, vars)
    decreases |toks| - pos - 1, COMPARISON + 4
  {
    if EvalLevel(COMPARISON, toks, pos + 1, vars).Err? {
      var c := LevelCompletes(COMPARISON, toks, pos + 1, vars);
      e := If(toks[pos].name, c, "THEN", ZERO, "ELSE", ZERO);
      ConditionCompletes(toks, pos, c, vars);
    } else {
      var c, v, p := ReadIsTree(COMPARISON, toks, pos + 1, vars);
      e := ThenCompletes(toks, pos, c, v, p, vars);
    }
  }

  /** The condition of an IF has been read. */
  ghost predicate HasCondition(toks: seq<Token>, pos: nat, c: Expr, v: Num, p: nat, vars: Variables) {
    && IsIdent(toks, pos, "IF") && pos < p <= |toks| && EvalLevel(COMPARISON, toks, pos + 1, vars) == Ok((v, p))
    && Sound(COMPARISON, toks, pos + 1, c, p) && Value(c, vars) == Ok(v)
  }

  lemma {:induction false} ThenCompletes(toks: seq<Token>, pos: nat, c: Expr, v: Num, p: nat, vars: Variables) returns (e: Expr)
    requires EndsUnresolved(toks, vars) && HasCondition(toks, pos, c, v, p, vars) && IsMissing(EvalIf(toks, pos + 1, vars))
    ensures Completes(0, toks, pos, e, vars)
    decreases |toks| - pos - 1, COMPARISON + 3
  {
    ThenMisses(toks, pos, c, v, p, vars);
    if EvalLevel(COMPARISON, toks, p + 1, vars).Err? {
      var a := LevelCompletes(COMPARISON, toks, p + 1, vars);
      e := If(toks[pos].name, c, toks[p].name, a, "ELSE", ZERO);
      FirstBranchCompletes(toks, pos, c, v, p, a, vars);
    } else {
      var a, w, q := ReadIsTree(COMPARISON, toks, p + 1, vars);
      ElseMisses(toks, pos, c, v, p, w, q, vars);
      var b := LevelCompletes(COMPARISON, toks, q + 1, vars);
      e := If(toks[pos].name, c, toks[p].name, a, toks[q].name, b);
      SecondBranchCompletes(toks, pos, c, v, p, a, w, q, b, vars);
    }
  }

  lemma ThenMisses(toks: seq<Token>, pos: nat, c: Expr, v: Num, p: nat, vars: Variables)
    requires HasCondition(toks, pos, c, v, p, vars) && IsMissing(EvalIf(toks, pos + 1, vars))
    ensures IsIdent(toks, p, "THEN")
    ensures EvalLevel(COMPARISON, toks, p + 1, vars).Err? ==> IsMissing(EvalLevel(COMPARISON, toks, p + 1, vars))
  {
  }

  lemma ElseMisses(toks: seq<Token>, pos: nat, c: Expr, v: Num, p: nat, w: Num, q: nat, vars: Variables)
    requires HasCondition(toks, pos, c, v, p, vars) && IsIdent(toks, p, "THEN") && IsMissing(EvalIf(toks, pos + 1, vars))
    requires EvalLevel(COMPARISON, toks, p + 1, vars) == Ok((w, q))
    ensures IsIdent(toks, q, "ELSE") && IsMissing(EvalLevel(COMPARISON, toks, q + 1, vars))
  {
  }

  lemma KeywordsAreUpper()
    ensures JsText.Upper("THEN") == "THEN" && JsText.Upper("ELSE") == "ELSE"
  {
  }

  lemma ConditionCompletes(toks: seq<Token>, pos: nat, c: Expr, vars: Variables)
    requires EndsUnresolved(toks, vars) && IsIdent(toks, pos, "IF") && Completes(COMPARISON, toks, pos + 1, c, vars)
    ensures Completes(0, toks, pos, If(toks[pos].name, c, "THEN", ZERO, "ELSE", ZERO), vars)
  {
    KeywordsAreUpper();
    CoversOne(toks, pos, toks[pos]);
    PrefixBehind(toks, pos, pos + 1, [toks[pos]], Flatten(c));
    var rest := [Ident("THEN")] + Flatten(ZERO) + [Ident("ELSE")] + Flatten(ZERO);
    PrefixMore(toks[pos..], [toks[pos]] + Flatten(c), rest);
    assert [toks[pos]] + Flatten(c) + [Ident("THEN")] + Flatten(ZERO) + [Ident("ELSE")] + Flatten(ZERO)
        == [toks[pos]] + Flatten(c) + rest;
  }

  lemma FirstBranchCompletes(toks: seq<Token>, pos: nat, c: Expr, v: Num, p: nat, a: Expr, vars: Variables)
    requires EndsUnresolved(toks, vars) && HasCondition(toks, pos, c, v, p, vars) && IsIdent(toks, p, "THEN")
    requires Completes(COMPARISON, toks, p + 1, a, vars)
    ensures Completes(0, toks, pos, If(toks[pos].name, c, toks[p].name, a, "ELSE", ZERO), vars)
  {
    KeywordsAreUpper();
    CoversHead(toks, pos, c, p);
    PrefixBehind(toks, pos, p + 1, [toks[pos]] + Flatten(c) + [toks[p]], Flatten(a));
    var rest := [Ident("ELSE")] + Flatten(ZERO);
    PrefixMore(toks[pos..], [toks[pos]] + Flatten(c) + [toks[p]] + Flatten(a), rest);
    assert [toks[pos]] + Flatten(c) + [toks[p]] + Flatten(a) + [Ident("ELSE")] + Flatten(ZERO)
        == [toks[pos]] + Flatten(c) + [toks[p]] + Flatten(a) + rest;
  }

  lemma CoversHead(toks: seq<Token>, pos: nat, c: Expr, p: nat)
    requires pos < p < |toks| && Covers(toks, pos + 1, p, Flatten(c))
    ensures Covers(toks, pos, p + 1, [toks[pos]] + Flatten(c) + [toks[p]])
  {
    CoversOne(toks, pos, toks[pos]);
    CoversOne(toks, p, toks[p]);
    CoversJoin(toks, pos, pos + 1, p, [toks[pos]], Flatten(c));
    CoversJoin(toks, pos, p, p + 1, [toks[pos]] + Flatten(c), [toks[p]]);
  }

  lemma SecondBranchCompletes(
    toks: seq<Token>, pos: nat, c: Expr, v: Num, p: nat, a: Expr, w: Num, q: nat, b: Expr, vars: Variables)
    requires EndsUnresolved(toks, vars) && HasCondition(toks, pos, c, v, p, vars) && IsIdent(toks, p, "THEN")
    requires p < q && Sound(COMPARISON, toks, p + 1, a, q) && Value(a, vars) == Ok(w) && IsIdent(toks, q, "ELSE")
    requires Completes(COMPARISON, toks, q + 1, b, vars)
    ensures Completes(0, toks, pos, If(toks[pos].name, c, toks[p].name, a, toks[q].name, b), vars)
  {
    SecondBranchText(toks, pos, c, p, a, q, b);
  }

  lemma SecondBranchText(toks: seq<Token>, pos: nat, c: Expr, p: nat, a: Expr, q: nat, b: Expr)
    requires IsIdent(toks, pos, "IF") && IsIdent(toks, p, "THEN") && IsIdent(toks, q, "ELSE") && pos < p
    requires Covers(toks, pos + 1, p, Flatten(c)) && Covers(toks, p + 1, q, Flatten(a)) && toks[q + 1..] <= Flatten(b)
    ensures toks[pos..] <= Flatten(If(toks[pos].name, c, toks[p].name, a, toks[q].name, b))
  {
    CoversHead(toks, pos, c, p);
    CoversMore(toks, pos, p + 1, [toks[pos]] + Flatten(c) + [toks[p]], a, q);
    PrefixBehind(toks, pos, q + 1, [toks[pos]] + Flatten(c) + [toks[p]] + Flatten(a) + [toks[q]], Flatten(b));
  }

  lemma CoversMore(toks: seq<Token>, pos: nat, p: nat, head: seq<Token>, a: Expr, q: nat)
    requires Covers(toks, pos, p, head) && Covers(toks, p, q, Flatten(a)) && q < |toks|
    ensures Covers(toks, pos, q + 1, head + Flatten(a) + [toks[q]])
  {
    CoversJoin(toks, pos, p, q, head, Flatten(a));
    CoversOne(toks, q, toks[q]);
    CoversJoin(toks, pos, q, q + 1, head + Flatten(a), [toks[q]]);
  }

  // ---- Function calls ----

  lemma {:induction false} CallCompletes(toks: seq<Token>, pos: nat, vars: Variables) returns (e: Expr)
    requires EndsUnresolved(toks, vars) && pos < |toks| && toks[pos].Ident? && JsText.Upper(toks[pos].name) in FUNCTIONS
    requires IsMissing(EvalFunction(JsText.Upper(toks[pos].name), toks, pos + 1, vars))
    ensures Completes(0, toks, pos, e, vars)
    decreases |toks| - pos - 1, COMPARISON + 3
  {
    var args := ArgsComplete(toks, pos + 2, vars);
    e := Call(toks[pos].name, args);
    ArgsCloseCall(toks, pos, args, vars);
  }

  ghost predicate CompletesArgs(toks: seq<Token>, pos: nat, args: seq<Expr>, vars: Variables)
    requires EndsUnresolved(toks, vars)
  {
    pos <= |toks| && args != [] && WellFormedArgs(args) && toks[pos..] <= FlattenArgs(args) && Values(args, vars) == Err(Missed(toks))
  }

  lemma ArgsCloseCall(toks: seq<Token>, pos: nat, args: seq<Expr>, vars: Variables)
    requires EndsUnresolved(toks, vars) && pos < |toks| && toks[pos].Ident? && JsText.Upper(toks[pos].name) in FUNCTIONS
    requires IsToken(toks, pos + 1, LParen) && CompletesArgs(toks, pos + 2, args, vars)
    ensures Completes(0, toks, pos, Call(toks[pos].name, args), vars)
  {
    CoversOne(toks, pos, toks[pos]);
    CoversOne(toks, pos + 1, LParen);
    CoversJoin(toks, pos, pos + 1, pos + 2, [toks[pos]], [LParen]);
    assert [toks[pos]] + [LParen] == [Ident(toks[pos].name), LParen];
    PrefixBehind(toks, pos, pos + 2, [Ident(toks[pos].name), LParen], FlattenArgs(args));
    PrefixMore(toks[pos..], [Ident(toks[pos].name), LParen] + FlattenArgs(args), [RParen]);
  }

  lemma {:induction false} ArgsComplete(toks: seq<Token>, pos: nat, vars: Variables) returns (args: seq<Expr>)
    requires EndsUnresolved(toks, vars) && pos <= |toks| && IsMissing(EvalArgs(toks, pos, vars))
    ensures CompletesArgs(toks, pos, args, vars)
    decreases |toks| - pos, COMPARISON + 2
  {
    if EvalLevel(COMPARISON, toks, pos, vars).Err? {
      var a := LevelCompletes(COMPARISON, toks, pos, vars);
      args := [a];
      assert [a][1..] == [];
    } else {
      var a, v, p := ReadIsTree(COMPARISON, toks, pos, vars);
      var rest := ArgsComplete(toks, p + 1, vars);
      args := [a] + rest;
      MoreArgsComplete(toks, pos, a, v, p, rest, vars);
    }
  }

  lemma MoreArgsComplete(toks: seq<Token>, pos: nat, a: Expr, v: Num, p: nat, rest: seq<Expr>, vars: Variables)
    requires EndsUnresolved(toks, vars) && Sound(COMPARISON, toks, pos, a, p) && Value(a, vars) == Ok(v)
    requires IsToken(toks, p, Comma) && CompletesArgs(toks, p + 1, rest, vars)
    ensures CompletesArgs(toks, pos, [a] + rest, vars)
  {
    assert ([a] + rest)[1..] == rest;
    CoversOne(toks, p, Comma);
    CoversJoin(toks, pos, p, p + 1, Flatten(a), [Comma]);
    PrefixBehind(toks, pos, p + 1, Flatten(a) + [Comma], FlattenArgs(rest));
  }

  // ---- Levels and chains ----

  lemma {:induction false} LevelCompletes(level: nat, toks: seq<Token>, pos: nat, vars: Variables) returns (e: Expr)
    requires EndsUnresolved(toks, vars) && pos <= |toks| && IsMissing(EvalLevel(level, toks, pos, vars))
    ensures Completes(level, toks, pos, e, vars)
    decreases |toks| - pos, level + 1
  {
    if level == 0 {
      e := PrimaryCompletes(toks, pos, vars);
    } else if EvalLevel(level - 1, toks, pos, vars).Err? {
      e := LevelCompletes(level - 1, toks, pos, vars);
      WellFormedAbove(e, level - 1);
    } else {
      var left, v, p := ReadIsTree(level - 1, toks, pos, vars);
      WellFormedAbove(left, level - 1);
      e := ChainCompletes(level, left, v, toks, pos, p, vars);
    }
  }

  /** The left part of a chain has been read, from start up to pos. */
  ghost predicate HasLeft(level: nat, left: Expr, v: Num, toks: seq<Token>, start: nat, pos: nat, vars: Variables) {
    && level > 0 && WellFormed(left, level) && Covers(toks, start, pos, Flatten(left)) && Stops(level - 1, left, toks, pos)
    && Value(left, vars) == Ok(v)
  }

  lemma {:induction false} ChainCompletes(level: nat, left: Expr, v: Num, toks: seq<Token>, start: nat, pos: nat, vars: Variables)
    returns (e: Expr)
    requires EndsUnresolved(toks, vars) && HasLeft(level, left, v, toks, start, pos, vars)
    requires pos <= |toks| && IsMissing(EvalChain(level, v, toks, pos, vars))
    ensures Completes(level, toks, start, e, vars)
    decreases |toks| - pos, 0
  {
    ChainMisses(level, v, toks, pos, vars);
    if EvalLevel(level - 1, toks, pos + 1, vars).Err? {
      var right := LevelCompletes(level - 1, toks, pos + 1, vars);
      e := Bin(toks[pos].symbol, left, right);
      OperandCompletes(level, left, v, toks, start, pos, right, vars);
    } else {
      var right, u, p := ReadIsTree(level - 1, toks, pos + 1, vars);
      var w := LeftGrows(level, left, v, toks, start, pos, right, u, p, vars);
      e := ChainCompletes(level, Bin(toks[pos].symbol, left, right), w, toks, start, p, vars);
    }
  }

  lemma ChainMisses(level: nat, v: Num, toks: seq<Token>, pos: nat, vars: Variables)
    requires level > 0 && pos <= |toks| && IsMissing(EvalChain(level, v, toks, pos, vars))
    ensures LevelAt(toks, pos) == level
    ensures EvalLevel(level - 1, toks, pos + 1, vars).Err? ==> IsMissing(EvalLevel(level - 1, toks, pos + 1, vars))
  {
  }

  lemma OperandCompletes(level: nat, left: Expr, v: Num, toks: seq<Token>, start: nat, pos: nat, right: Expr, vars: Variables)
    requires EndsUnresolved(toks, vars) && HasLeft(level, left, v, toks, start, pos, vars) && LevelAt(toks, pos) == level
    requires Completes(level - 1, toks, pos + 1, right, vars)
    ensures Completes(level, toks, start, Bin(toks[pos].symbol, left, right), vars)
  {
    CoversOne(toks, pos, toks[pos]);
    CoversJoin(toks, start, pos, pos + 1, Flatten(left), [toks[pos]]);
    PrefixBehind(toks, start, pos + 1, Flatten(left) + [toks[pos]], Flatten(right));
    ValueOfBin(toks[pos].symbol, left, v, right, vars);
  }

  lemma LeftGrows(
    level: nat, left: Expr, v: Num, toks: seq<Token>, start: nat, pos: nat, right: Expr, u: Num, p: nat, vars: Variables)
    returns (w: Num)
    requires HasLeft(level, left, v, toks, start, pos, vars) && LevelAt(toks, pos) == level
    requires pos < p <= |toks| && EvalLevel(level - 1, toks, pos + 1, vars) == Ok((u, p))
    requires Sound(level - 1, toks, pos + 1, right, p) && Value(right, vars) == Ok(u)
    requires IsMissing(EvalChain(level, v, toks, pos, vars))
    ensures HasLeft(level, Bin(toks[pos].symbol, left, right), w, toks, start, p, vars)
    ensures IsMissing(EvalChain(level, w, toks, p, vars))
  {
    OperatorsMissNone(toks[pos].symbol, v);
    ChainMoves(level, v, toks, pos, vars);
    w := ApplyOperator(toks[pos].symbol, v, u).value;
    ValueOfBin(toks[pos].symbol, left, v, right, vars);
    CoversOne(toks, pos, toks[pos]);
    CoversJoin(toks, start, pos, pos + 1, Flatten(left), [toks[pos]]);
    CoversJoin(toks, start, pos + 1, p, Flatten(left) + [toks[pos]], Flatten(right));
  }
}
