/**
 One-pass evaluation means what parsing and then evaluating the tree would mean, and printing
 and evaluating gives the tree's own value.
 */
module FormulaMeaning {
  import opened Outcomes
  import opened JsText
  import opened FormulaNumbers
  import opened FormulaLexer
  import opened FormulaGrammar
  import opened FormulaParsing
  import opened FormulaEvaluator

  // ---- Two-phase meaning ----

  /** When the tokens parse, fused evaluation has the tree's outcome, errors included; otherwise it fails too. */
  ghost predicate Refines(fused: EvalResult, parsed: ParseResult, vars: Variables) {
    match parsed
    case Err(_) => fused.Err?
    case Ok((e, p)) => fused == (match Value(e, vars) case Ok(v) => Ok((v, p)) case Err(error) => Err(error))
  }

  lemma {:induction false} PrimaryRefines(toks: seq<Token>, pos: nat, vars: Variables)
    requires pos <= |toks|
    ensures Refines(EvalPrimary(toks, pos, vars), ParsePrimary(toks, pos), vars)
    decreases |toks| - pos, 0
  {
    if pos < |toks| {
      match toks[pos]
      case Ident(name) =>
        if Upper(name) == "IF" {
          IfRefines(toks, pos, vars);
        } else if Upper(name) in FUNCTIONS {
          CallRefines(toks, pos, vars);
        }
      case LParen => LevelRefines(COMPARISON, toks, pos + 1, vars);
      case Op(symbol) => if symbol == "-" { PrimaryRefines(toks, pos + 1, vars); }
      case _ =>
    }
  }

  lemma {:induction false} IfRefines(toks: seq<Token>, pos: nat, vars: Variables)
    requires pos < |toks| && toks[pos].Ident?
    ensures Refines(EvalIf(toks, pos + 1, vars), ParseIf(toks, pos), vars)
    decreases |toks| - pos - 1, COMPARISON + 2
  {
    LevelRefines(COMPARISON, toks, pos + 1, vars);
    var first := ParseLevel(COMPARISON, toks, pos + 1);
    if first.Err? || !IsIdent(toks, first.value.1, "THEN") {
      IfRefinesAtThen(toks, pos, vars);
    } else {
      var (c, p) := first.value;
      LevelRefines(COMPARISON, toks, p + 1, vars);
      var second := ParseLevel(COMPARISON, toks, p + 1);
      if second.Err? || !IsIdent(toks, second.value.1, "ELSE") {
        IfRefinesAtElse(toks, pos, c, p, vars);
      } else {
        LevelRefines(COMPARISON, toks, second.value.1 + 1, vars);
        IfRefinesBehindElse(toks, pos, c, p, second.value.0, second.value.1, vars);
      }
    }
  }

  lemma IfRefinesAtThen(toks: seq<Token>, pos: nat, vars: Variables)
    requires pos < |toks| && toks[pos].Ident?
    requires Refines(EvalLevel(COMPARISON, toks, pos + 1, vars), ParseLevel(COMPARISON, toks, pos + 1), vars)
    requires var c := ParseLevel(COMPARISON, toks, pos + 1); c.Ok? ==> !IsIdent(toks, c.value.1, "THEN")
    ensures Refines(EvalIf(toks, pos + 1, vars), ParseIf(toks, pos), vars)
  {
  }

  lemma IfRefinesAtElse(toks: seq<Token>, pos: nat, c: Expr, p: nat, vars: Variables)
    requires pos < |toks| && toks[pos].Ident? && ParseLevel(COMPARISON, toks, pos + 1) == Ok((c, p)) && IsIdent(toks, p, "THEN")
    requires Refines(EvalLevel(COMPARISON, toks, pos + 1, vars), Ok((c, p)), vars)
    requires Refines(EvalLevel(COMPARISON, toks, p + 1, vars), ParseLevel(COMPARISON, toks, p + 1), vars)
    requires var a := ParseLevel(COMPARISON, toks, p + 1); a.Ok? ==> !IsIdent(toks, a.value.1, "ELSE")
    ensures Refines(EvalIf(toks, pos + 1, vars), ParseIf(toks, pos), vars)
  {
  }

  lemma IfRefinesBehindElse(toks: seq<Token>, pos: nat, c: Expr, p: nat, a: Expr, q: nat, vars: Variables)
    requires pos < |toks| && toks[pos].Ident? && ParseLevel(COMPARISON, toks, pos + 1) == Ok((c, p)) && IsIdent(toks, p, "THEN")
    requires ParseLevel(COMPARISON, toks, p + 1) == Ok((a, q)) && IsIdent(toks, q, "ELSE")
    requires Refines(EvalLevel(COMPARISON, toks, pos + 1, vars), Ok((c, p)), vars)
    requires Refines(EvalLevel(COMPARISON, toks, p + 1, vars), Ok((a, q)), vars)
    requires Refines(EvalLevel(COMPARISON, toks, q + 1, vars), ParseLevel(COMPARISON, toks, q + 1), vars)
    ensures Refines(EvalIf(toks, pos + 1, vars), ParseIf(toks, pos), vars)
  {
  }

  lemma {:induction false} CallRefines(toks: seq<Token>, pos: nat, vars: Variables)
    requires pos < |toks| && toks[pos].Ident? && Upper(toks[pos].name) in FUNCTIONS
    ensures Refines(EvalFunction(Upper(toks[pos].name), toks, pos + 1, vars), ParseCall(toks, pos), vars)
    decreases |toks| - pos - 1, COMPARISON + 3
  {
    if IsToken(toks, pos + 1, LParen) && !IsToken(toks, pos + 2, RParen) {
      ArgsRefine(toks, pos + 2, vars);
      CallOfArgsRefines(toks, pos, vars);
    }
  }

  /** The same for an argument list. */
  ghost predicate RefinesAll(
    fused: Result<(seq<Num>, nat), FormulaError>, parsed: Result<(seq<Expr>, nat), FormulaError>, vars: Variables)
  {
    match parsed
    case Err(_) => fused.Err?
    case Ok((args, p)) => fused == (match Values(args, vars) case Ok(vs) => Ok((vs, p)) case Err(error) => Err(error))
  }

  lemma CallOfArgsRefines(toks: seq<Token>, pos: nat, vars: Variables)
    requires pos < |toks| && toks[pos].Ident? && IsToken(toks, pos + 1, LParen) && !IsToken(toks, pos + 2, RParen)
    requires RefinesAll(EvalArgs(toks, pos + 2, vars), ParseArgs(toks, pos + 2), vars)
    ensures Refines(EvalFunction(Upper(toks[pos].name), toks, pos + 1, vars), ParseCall(toks, pos), vars)
  {
  }

  lemma {:induction false} ArgsRefine(toks: seq<Token>, pos: nat, vars: Variables)
    requires pos <= |toks|
    ensures RefinesAll(EvalArgs(toks, pos, vars), ParseArgs(toks, pos), vars)
    decreases |toks| - pos, COMPARISON + 2
  {
    LevelRefines(COMPARISON, toks, pos, vars);
    var first := ParseLevel(COMPARISON, toks, pos);
    if first.Ok? {
      var (a, p) := first.value;
      if IsToken(toks, p, Comma) {
        ArgsRefine(toks, p + 1, vars);
        MoreArgsRefine(toks, pos, a, p, vars);
      } else {
        ValuesOfCons(a, [], vars);
        assert [a] + [] == [a];
        assert Value(a, vars).Ok? ==> [Value(a, vars).value] + [] == [Value(a, vars).value];
      }
    }
  }

  lemma ValuesOfCons(a: Expr, rest: seq<Expr>, vars: Variables)
    ensures Value(a, vars).Err? ==> Values([a] + rest, vars) == Err(Value(a, vars).error)
    ensures Value(a, vars).Ok? && Values(rest, vars).Err? ==> Values([a] + rest, vars) == Values(rest, vars)
    ensures Value(a, vars).Ok? && Values(rest, vars).Ok? ==>
      Values([a] + rest, vars) == Ok([Value(a, vars).value] + Values(rest, vars).value)
  {
    assert ([a] + rest)[1..] == rest;
  }

  lemma MoreArgsRefine(toks: seq<Token>, pos: nat, a: Expr, p: nat, vars: Variables)
    requires pos <= |toks| && ParseLevel(COMPARISON, toks, pos) == Ok((a, p)) && IsToken(toks, p, Comma)
    requires Refines(EvalLevel(COMPARISON, toks, pos, vars), ParseLevel(COMPARISON, toks, pos), vars)
    requires RefinesAll(EvalArgs(toks, p + 1, vars), ParseArgs(toks, p + 1), vars)
    ensures RefinesAll(EvalArgs(toks, pos, vars), ParseArgs(toks, pos), vars)
  {
    var rest := ParseArgs(toks, p + 1);
    if rest.Ok? {
      ValuesOfCons(a, rest.value.0, vars);
    }
  }

  lemma {:induction false} LevelRefines(level: nat, toks: seq<Token>, pos: nat, vars: Variables)
    requires pos <= |toks|
    ensures Refines(EvalLevel(level, toks, pos, vars), ParseLevel(level, toks, pos), vars)
    decreases |toks| - pos, level + 1
  {
    if level == 0 {
      PrimaryRefines(toks, pos, vars);
    } else {
      LevelRefines(level - 1, toks, pos, vars);
      var first := ParseLevel(level - 1, toks, pos);
      if first.Ok? {
        var (left, p) := first.value;
        match Value(left, vars)
        case Ok(v) => ChainRefines(level, left, v, toks, p, vars);
        case Err(_) => ChainKeepsError(level, left, toks, p, vars);
      }
    }
  }

  lemma ValueOfBin(op: string, left: Expr, v: Num, right: Expr, vars: Variables)
    requires Value(left, vars) == Ok(v)
    ensures Value(right, vars).Err? ==> Value(Bin(op, left, right), vars) == Value(right, vars)
    ensures Value(right, vars).Ok? ==> Value(Bin(op, left, right), vars) == ApplyOperator(op, v, Value(right, vars).value)
  {
  }

  lemma {:induction false} ChainRefines(level: nat, left: Expr, v: Num, toks: seq<Token>, pos: nat, vars: Variables)
    requires level > 0 && pos <= |toks| && Value(left, vars) == Ok(v)
    ensures Refines(EvalChain(level, v, toks, pos, vars), ParseChain(level, left, toks, pos), vars)
    decreases |toks| - pos, 0
  {
    if LevelAt(toks, pos) == level {
      LevelRefines(level - 1, toks, pos + 1, vars);
      var next := ParseLevel(level - 1, toks, pos + 1);
      if next.Ok? {
        var (right, p) := next.value;
        var tree := Bin(toks[pos].symbol, left, right);
        if Value(tree, vars).Ok? {
          ChainRefines(level, tree, Value(tree, vars).value, toks, p, vars);
        } else {
          ChainKeepsError(level, tree, toks, p, vars);
        }
        ChainRefinesStep(level, left, v, toks, pos, right, p, vars);
      }
    }
  }

  /** One operator and its operand are read, and the rest of the chain is as it should be. */
  lemma ChainRefinesStep(level: nat, left: Expr, v: Num, toks: seq<Token>, pos: nat, right: Expr, p: nat, vars: Variables)
    requires level > 0 && pos < p <= |toks| && LevelAt(toks, pos) == level && Value(left, vars) == Ok(v)
    requires ParseLevel(level - 1, toks, pos + 1) == Ok((right, p))
    requires Refines(EvalLevel(level - 1, toks, pos + 1, vars), Ok((right, p)), vars)
    requires var tree := Bin(toks[pos].symbol, left, right); var rest := ParseChain(level, tree, toks, p);
             if Value(tree, vars).Ok? then Refines(EvalChain(level, Value(tree, vars).value, toks, p, vars), rest, vars)
             else rest.Ok? ==> Value(rest.value.0, vars) == Value(tree, vars)
    ensures Refines(EvalChain(level, v, toks, pos, vars), ParseChain(level, left, toks, pos), vars)
  {
    ValueOfBin(toks[pos].symbol, left, v, right, vars);
    ParseChainMoves(level, left, toks, pos, right, p);
    if Value(right, vars).Ok? {
      ChainMoves(level, v, toks, pos, vars);
    }
  }

  lemma ParseChainMoves(level: nat, left: Expr, toks: seq<Token>, pos: nat, right: Expr, p: nat)
    requires level > 0 && pos < p <= |toks| && LevelAt(toks, pos) == level && ParseLevel(level - 1, toks, pos + 1) == Ok((right, p))
    ensures ParseChain(level, left, toks, pos) == ParseChain(level, Bin(toks[pos].symbol, left, right), toks, p)
  {
  }

  /** A failing left part makes the whole chain fail with the same error. */
  lemma {:induction false} ChainKeepsError(level: nat, left: Expr, toks: seq<Token>, pos: nat, vars: Variables)
    requires level > 0 && pos <= |toks| && Value(left, vars).Err?
    ensures var r := ParseChain(level, left, toks, pos); r.Ok? ==> Value(r.value.0, vars) == Value(left, vars)
    decreases |toks| - pos
  {
    if LevelAt(toks, pos) == level {
      var next := ParseLevel(level - 1, toks, pos + 1);
      if next.Ok? {
        ChainKeepsError(level, Bin(toks[pos].symbol, left, next.value.0), toks, next.value.1, vars);
      }
    }
  }

  /** The outcome the grammar and the tree's meaning prescribe. */
  function Outcome(e: Expr, vars: Variables): Result<real, FormulaError> {
    var v :- Value(e, vars);
    if v.Fin? then Ok(v.value) else Err(NotFinite)
  }

  ghost predicate Denotes(expression: string, e: Expr) {
    WellFormed(e, COMPARISON) && Lex(expression) == Ok(Flatten(e))
  }

  /** A formula that has a tree evaluates exactly as the tree does. */
  lemma EvaluatesAsItsTree(expression: string, e: Expr, vars: Variables)
    requires Denotes(expression, e)
    ensures Evaluate(expression, vars) == Outcome(e, vars)
  {
    ParsesExactlyTheGrammar(Flatten(e), e);
    LevelRefines(COMPARISON, Flatten(e), 0, vars);
  }

  /** A formula succeeds with v exactly when it has a tree in the grammar whose strict value is the finite v. */
  lemma SucceedsExactlyByMeaning(expression: string, vars: Variables, v: real)
    ensures Evaluate(expression, vars) == Ok(v)
       <==> exists e :: Denotes(expression, e) && Value(e, vars) == Ok(Fin(v))
  {
    if Evaluate(expression, vars) == Ok(v) {
      var toks := Lex(expression).value;
      LevelRefines(COMPARISON, toks, 0, vars);
      var e := ParseLevel(COMPARISON, toks, 0).value.0;
      ParsesExactlyTheGrammar(toks, e);
      assert Denotes(expression, e);
    }
    if e :| Denotes(expression, e) && Value(e, vars) == Ok(Fin(v)) {
      EvaluatesAsItsTree(expression, e, vars);
    }
  }

  /** A formula with no tree never evaluates, whatever the variables. */
  lemma NoTreeNoValue(expression: string, vars: Variables)
    requires forall e :: !Denotes(expression, e)
    ensures Evaluate(expression, vars).Err?
  {
    if Evaluate(expression, vars).Ok? {
      SucceedsExactlyByMeaning(expression, vars, Evaluate(expression, vars).value);
    }
  }

  // ---- Printing with as few parentheses as the grammar allows ----

  function Fit(e: Expr, level: nat, closed: bool): Expr {
    if ExprLevel(e) > level || (closed && Open(e)) then Paren(e) else e
  }

  /** The tree with parentheses added where an operand binds too loosely or ends in an ELSE branch something follows. */
  function Parenthesize(e: Expr): Expr
    decreases e, 0
  {
    match e
    case Lit(_) => e
    case Var(_) => e
    case Neg(a) => Neg(Fit(Parenthesize(a), 0, false))
    case Paren(b) => Paren(Parenthesize(b))
    case Bin(op, l, r) =>
      var k := OpLevel(op);
      Bin(op, Fit(Parenthesize(l), k, true), Fit(Parenthesize(r), if k == 0 then 0 else k - 1, false))
    case If(i, c, t, a, f, b) => If(i, Parenthesize(c), t, Parenthesize(a), f, Parenthesize(b))
    case Call(fn, args) => Call(fn, ParenthesizeAll(args))
  }

  function ParenthesizeAll(args: seq<Expr>): seq<Expr>
    decreases args, 1
  {
    if args == [] then [] else [Parenthesize(args[0])] + ParenthesizeAll(args[1..])
  }

  /** Every name and operator symbol of the tree is one of the language; precedence does not matter. */
  predicate WellNamed(e: Expr)
    decreases e, 0
  {
    match e
    case Lit(_) => true
    case Var(name) => Upper(name) != "IF" && Upper(name) !in FUNCTIONS
    case Neg(a) => WellNamed(a)
    case Paren(b) => WellNamed(b)
    case Bin(op, l, r) => OpLevel(op) > 0 && WellNamed(l) && WellNamed(r)
    case If(i, c, t, a, f, b) =>
      && Upper(i) == "IF" && Upper(t) == "THEN" && Upper(f) == "ELSE"
      && WellNamed(c) && WellNamed(a) && WellNamed(b)
    case Call(fn, args) => Upper(fn) in FUNCTIONS && WellNamedAll(args)
  }

  predicate WellNamedAll(args: seq<Expr>)
    decreases args, 1
  {
    args == [] || (WellNamed(args[0]) && WellNamedAll(args[1..]))
  }

  lemma {:induction false} ParenthesizedIsWellFormed(e: Expr)
    requires WellNamed(e)
    ensures WellFormed(Parenthesize(e), COMPARISON)
    decreases e, 0
  {
    match e
    case Neg(a) =>
      ParenthesizedIsWellFormed(a);
      FitIsWellFormed(Parenthesize(a), 0, false);
    case Paren(b) => ParenthesizedIsWellFormed(b);
    case Bin(op, l, r) =>
      ParenthesizedIsWellFormed(l);
      ParenthesizedIsWellFormed(r);
      FitIsWellFormed(Parenthesize(l), OpLevel(op), true);
      FitIsWellFormed(Parenthesize(r), OpLevel(op) - 1, false);
    case If(_, c, _, a, _, b) =>
      ParenthesizedIsWellFormed(c);
      ParenthesizedIsWellFormed(a);
      ParenthesizedIsWellFormed(b);
    case Call(_, args) => ParenthesizedArgsAreWellFormed(args);
    case _ =>
  }

  lemma {:induction false} ParenthesizedArgsAreWellFormed(args: seq<Expr>)
    requires WellNamedAll(args)
    ensures WellFormedArgs(ParenthesizeAll(args))
    decreases args, 1
  {
    if args != [] {
      ParenthesizedIsWellFormed(args[0]);
      ParenthesizedArgsAreWellFormed(args[1..]);
      assert ParenthesizeAll(args)[1..] == ParenthesizeAll(args[1..]);
    }
  }

  lemma FitIsWellFormed(e: Expr, level: nat, closed: bool)
    requires WellFormed(e, COMPARISON)
    ensures WellFormed(Fit(e, level, closed), level)
    ensures closed ==> !Open(Fit(e, level, closed))
  {
  }

  /** Adding parentheses never changes the value or the error. */
  lemma {:induction false} ParenthesesKeepValue(e: Expr, vars: Variables)
    ensures Value(Parenthesize(e), vars) == Value(e, vars)
    decreases e, 0
  {
    match e
    case Neg(a) => ParenthesesKeepValue(a, vars);
    case Paren(b) => ParenthesesKeepValue(b, vars);
    case Bin(_, l, r) =>
      ParenthesesKeepValue(l, vars);
      ParenthesesKeepValue(r, vars);
    case If(_, c, _, a, _, b) =>
      ParenthesesKeepValue(c, vars);
      ParenthesesKeepValue(a, vars);
      ParenthesesKeepValue(b, vars);
    case Call(_, args) => ParenthesesKeepValues(args, vars);
    case _ =>
  }

  lemma {:induction false} ParenthesesKeepValues(args: seq<Expr>, vars: Variables)
    ensures Values(ParenthesizeAll(args), vars) == Values(args, vars)
    decreases args, 1
  {
    if args != [] {
      ParenthesesKeepValue(args[0], vars);
      ParenthesesKeepValues(args[1..], vars);
      assert ParenthesizeAll(args)[1..] == ParenthesizeAll(args[1..]);
    }
  }

  /** No parenthesis is added to a tree that needs none. */
  lemma {:induction false} ParenthesizeIsMinimal(e: Expr, level: nat)
    requires WellFormed(e, level)
    ensures Parenthesize(e) == e
    decreases e, 0
  {
    match e
    case Neg(a) => ParenthesizeIsMinimal(a, 0);
    case Paren(b) => ParenthesizeIsMinimal(b, COMPARISON);
    case Bin(op, l, r) =>
      ParenthesizeIsMinimal(l, OpLevel(op));
      ParenthesizeIsMinimal(r, OpLevel(op) - 1);
    case If(_, c, _, a, _, b) =>
      ParenthesizeIsMinimal(c, COMPARISON);
      ParenthesizeIsMinimal(a, COMPARISON);
      ParenthesizeIsMinimal(b, COMPARISON);
    case Call(_, args) => ParenthesizeArgsIsMinimal(args);
    case _ =>
  }

  lemma {:induction false} ParenthesizeArgsIsMinimal(args: seq<Expr>)
    requires WellFormedArgs(args)
    ensures ParenthesizeAll(args) == args
    decreases args, 1
  {
    if args != [] {
      ParenthesizeIsMinimal(args[0], COMPARISON);
      ParenthesizeArgsIsMinimal(args[1..]);
      assert args == [args[0]] + args[1..];
    }
  }

  /** Printing any formula tree, reading the text back and evaluating it gives the tree's own outcome. */
  lemma PrintThenEvaluate(e: Expr, texts: seq<string>, vars: Variables)
    requires WellNamed(e) && SpellsAll(texts, Flatten(Parenthesize(e)))
    ensures Evaluate(Join(texts), vars) == Outcome(e, vars)
  {
    LexInvertsJoin(texts, Flatten(Parenthesize(e)));
    ParenthesizedIsWellFormed(e);
    EvaluatesAsItsTree(Join(texts), Parenthesize(e), vars);
    ParenthesesKeepValue(e, vars);
  }

  // ---- Two formulas from the unit specification of the evaluator ----

  function SumTree(): Expr {
    Bin("+", Lit(Fin(10.0)), Bin("*", Lit(Fin(5.0)), Lit(Fin(2.0))))
  }

  lemma SumTreeIsNamed()
    ensures WellFormed(SumTree(), COMPARISON) && WellNamed(SumTree())
    ensures Flatten(SumTree()) == [Number(Fin(10.0)), Op("+"), Number(Fin(5.0)), Op("*"), Number(Fin(2.0))]
  {
  }

  lemma SumTreeSpells()
    ensures SpellsAll(["10", "+", "5", "*", "2"], [Number(Fin(10.0)), Op("+"), Number(Fin(5.0)), Op("*"), Number(Fin(2.0))])
  {
    DigitNumeral("10", 10.0);
    DigitNumeral("5", 5.0);
    DigitNumeral("2", 2.0);
  }

  lemma SumTreeValue()
    ensures Outcome(SumTree(), map[]) == Ok(20.0)
  {
  }

  lemma SumOfProduct()
    ensures Evaluate(Join(["10", "+", "5", "*", "2"]), map[]) == Ok(20.0)
  {
    SumTreeIsNamed();
    SumTreeSpells();
    SumTreeValue();
    ParenthesizeIsMinimal(SumTree(), COMPARISON);
    PrintThenEvaluate(SumTree(), ["10", "+", "5", "*", "2"], map[]);
  }

  function BonusVariables(days: real, commission: real): Variables {
    map["leaveDays" := Amount(Fin(days)), "commission" := Amount(Fin(commission))]
  }

  /** Any text of the rule IF leaveDays > 4 THEN commission * 0.7 ELSE commission computes both cases, for all values. */
  lemma BonusRule(texts: seq<string>, days: real, commission: real)
    requires SpellsAll(texts, Flatten(BonusTree()))
    ensures Evaluate(Join(texts), BonusVariables(days, commission)) == Ok(if days > 4.0 then commission * 0.7 else commission)
  {
    BonusTreeIsNamed();
    BonusTreeValue(days, commission);
    ParenthesizeIsMinimal(BonusTree(), COMPARISON);
    PrintThenEvaluate(BonusTree(), texts, BonusVariables(days, commission));
  }

  /** The rule has such a text: its lexemes, as they stand. */
  lemma BonusTextsSpell()
    ensures SpellsAll(["IF", "leaveDays", ">", "4"] + ["THEN", "commission", "*", "0.7"] + ["ELSE", "commission"], Flatten(BonusTree()))
  {
    BonusTreeReads();
    var a, b, c := ["IF", "leaveDays", ">", "4"], ["THEN", "commission", "*", "0.7"], ["ELSE", "commission"];
    var p, q := [Ident("IF"), Ident("leaveDays"), Op(">"), Number(Fin(4.0))], [Ident("THEN"), Ident("commission"), Op("*"), Number(Fin(0.7))];
    var r := [Ident("ELSE"), Ident("commission")];
    BonusConditionSpells();
    BonusBranchSpells();
    BonusWordsSpell();
    SpellsJoin(a, p, b, q);
    SpellsJoin(a + b, p + q, c, r);
  }

  lemma SpellsJoin(a: seq<string>, p: seq<Token>, b: seq<string>, q: seq<Token>)
    requires SpellsAll(a, p) && SpellsAll(b, q)
    ensures SpellsAll(a + b, p + q)
  {
  }

  lemma BonusConditionSpells()
    ensures SpellsAll(["IF", "leaveDays", ">", "4"], [Ident("IF"), Ident("leaveDays"), Op(">"), Number(Fin(4.0))])
  {
    BonusWordsSpell();
    DigitNumeral("4", 4.0);
  }

  lemma BonusBranchSpells()
    ensures SpellsAll(["THEN", "commission", "*", "0.7"], [Ident("THEN"), Ident("commission"), Op("*"), Number(Fin(0.7))])
  {
    BonusWordsSpell();
    SevenTenthsIsSpelled();
  }

  lemma BonusWordsSpell()
    ensures forall word :: word in ["IF", "leaveDays", "THEN", "commission", "ELSE"] ==> Spells(word, Ident(word))
  {
  }

  lemma SevenTenthsIsSpelled()
    ensures Spells("0.7", Number(Fin(0.7)))
  {
    assert WholeValue("") == 0 && "7"[..0] == "" && WholeValue("7") == 7;
    assert PowerOfTen(1) == 10.0 * PowerOfTen(0) == 10.0;
    DecimalIsSpelled(0, "7");
    assert Digits(0) == ['0'] && ['0'] + "." + "7" == "0.7";
  }

  function BonusTree(): Expr {
    If("IF", Bin(">", Var("leaveDays"), Lit(Fin(4.0))), "THEN",
       Bin("*", Var("commission"), Lit(Fin(0.7))), "ELSE", Var("commission"))
  }

  lemma BonusTreeIsNamed()
    ensures WellFormed(BonusTree(), COMPARISON) && WellNamed(BonusTree())
  {
    assert Upper("IF") == "IF" && Upper("THEN") == "THEN" && Upper("ELSE") == "ELSE";
    LongNamesAreVariables("leaveDays");
    LongNamesAreVariables("commission");
  }

  lemma BonusTreeReads()
    ensures Flatten(BonusTree()) == [Ident("IF"), Ident("leaveDays"), Op(">"), Number(Fin(4.0))]
                                    + [Ident("THEN"), Ident("commission"), Op("*"), Number(Fin(0.7))]
                                    + [Ident("ELSE"), Ident("commission")]
  {
  }

  /** No keyword has more than five letters. */
  lemma LongNamesAreVariables(name: string)
    requires |name| > 5
    ensures Upper(name) !in KEYWORDS
  {
  }

  lemma BonusTreeValue(days: real, commission: real)
    ensures Value(BonusTree(), BonusVariables(days, commission)) == Ok(Fin(if days > 4.0 then commission * 0.7 else commission))
  {
    LongNamesAreVariables("leaveDays");
    LongNamesAreVariables("commission");
  }

  lemma DigitNumeral(text: string, value: real)
    requires 1 <= |text| <= 2 && AllIn(text, IsDigit)
    requires value == (if |text| == 1 then DigitValue(text[0]) else 10 * DigitValue(text[0]) + DigitValue(text[1])) as real
    ensures Spells(text, Number(Fin(value)))
  {
    WholeText(text);
    assert WholeValue([]) == 0;
    if |text| == 1 {
      assert text[..0] == [];
    } else {
      assert text[..1][..0] == [] && text[..1][0] == text[0];
      assert WholeValue(text[..1]) == DigitValue(text[0]);
    }
  }
}
