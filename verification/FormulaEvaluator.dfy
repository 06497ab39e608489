/**
 Formula evaluation. Value is the meaning of a tree; the Eval functions compute while they
 read tokens, as the source does in one pass; class Evaluator is that pass with its cursor.
 */
module FormulaEvaluator {
  import opened Outcomes
  import opened JsText
  import opened FormulaNumbers
  import opened FormulaLexer
  import opened FormulaGrammar

  /** A variable's value; a text variable is given by what parseFloat makes of it. */
  datatype Variable = Absent | Flag(on: bool) | Text(parsed: Num) | Amount(amount: Num)

  type Variables = map<string, Variable>
  type NumResult = Result<Num, FormulaError>

  function ResolveVar(name: string, vars: Variables): NumResult {
    if Upper(name) in KEYWORDS then Ok(NaN)
    else if name !in vars then Err(MissingVariable(name))
    else match vars[name]
      case Absent => Err(MissingVariable(name))
      case Flag(on) => Ok(Truth(on))
      case Text(n) => if n == NaN then Err(NotNumeric(name)) else Ok(n)
      case Amount(n) => Ok(n)
  }

  function ApplyOperator(symbol: string, a: Num, b: Num): NumResult {
    if symbol == "*" then Ok(Times(a, b))
    else if symbol == "/" then if b == Fin(0.0) then Err(DivideByZero) else Ok(Divide(a, b))
    else if symbol == "+" then Ok(Plus(a, b))
    else if symbol == "-" then Ok(Minus(a, b))
    else if symbol == ">" then Ok(Truth(Less(b, a)))
    else if symbol == "<" then Ok(Truth(Less(a, b)))
    else if symbol == ">=" then Ok(Truth(Less(b, a) || Same(a, b)))
    else if symbol == "<=" then Ok(Truth(Less(a, b) || Same(a, b)))
    else if symbol == "!=" then Ok(Truth(!Same(a, b)))
    else Ok(Truth(Same(a, b)))
  }

  /** Each arithmetic symbol denotes its own operation on finite numbers; only division can fail. */
  lemma ArithmeticOnFiniteNumbers(x: real, y: real)
    ensures ApplyOperator("+", Fin(x), Fin(y)) == Ok(Fin(x + y))
    ensures ApplyOperator("-", Fin(x), Fin(y)) == Ok(Fin(x - y))
    ensures ApplyOperator("*", Fin(x), Fin(y)) == Ok(Fin(x * y))
    ensures ApplyOperator("/", Fin(x), Fin(y)) == if y == 0.0 then Err(DivideByZero) else Ok(Fin(x / y))
  {
    assert Times(Fin(x), Fin(y)) == Fin(x * y);
  }

  /** Each comparison symbol gives the truth value of its own relation on finite numbers. */
  lemma ComparisonsOnFiniteNumbers(x: real, y: real)
    ensures ApplyOperator(">", Fin(x), Fin(y)) == Ok(Fin(if x > y then 1.0 else 0.0))
    ensures ApplyOperator("<", Fin(x), Fin(y)) == Ok(Fin(if x < y then 1.0 else 0.0))
    ensures ApplyOperator(">=", Fin(x), Fin(y)) == Ok(Fin(if x >= y then 1.0 else 0.0))
    ensures ApplyOperator("<=", Fin(x), Fin(y)) == Ok(Fin(if x <= y then 1.0 else 0.0))
    ensures ApplyOperator("=", Fin(x), Fin(y)) == ApplyOperator("==", Fin(x), Fin(y)) == Ok(Fin(if x == y then 1.0 else 0.0))
    ensures ApplyOperator("!=", Fin(x), Fin(y)) == Ok(Fin(if x != y then 1.0 else 0.0))
  {
  }

  function FirstOrZero(args: seq<Num>): Num {
    if args == [] then Fin(0.0) else args[0]
  }

  function ApplyFunction(name: string, args: seq<Num>): Num {
    if name == "MIN" then Min(args)
    else if name == "MAX" then Max(args)
    else if name == "ROUND" then Round(FirstOrZero(args))
    else if name == "CEIL" then Ceil(FirstOrZero(args))
    else if name == "FLOOR" then Floor(FirstOrZero(args))
    else if name == "SUM" then SumFrom(Fin(0.0), args)
    else if args == [] then Fin(0.0)
    else Divide(SumFrom(Fin(0.0), args), Fin(|args| as real))
  }

  function Choose(condition: Num, thenValue: Num, elseValue: Num): Num {
    if Same(condition, Fin(0.0)) then elseValue else thenValue
  }

  // ---- Meaning of a tree: strict, left to right, both branches of an IF included ----

  function Value(e: Expr, vars: Variables): NumResult
    decreases e, 0
  {
    match e
    case Lit(v) => Ok(v)
    case Var(name) => ResolveVar(name, vars)
    case Neg(a) => var v :- Value(a, vars); Ok(Negate(v))
    case Paren(b) => Value(b, vars)
    case Bin(op, l, r) =>
      var a :- Value(l, vars);
      var b :- Value(r, vars);
      ApplyOperator(op, a, b)
    case If(_, c, _, t, _, f) =>
      var condition :- Value(c, vars);
      var a :- Value(t, vars);
      var b :- Value(f, vars);
      Ok(Choose(condition, a, b))
    case Call(fn, args) =>
      var values :- Values(args, vars);
      Ok(ApplyFunction(Upper(fn), values))
  }

  function Values(args: seq<Expr>, vars: Variables): Result<seq<Num>, FormulaError>
    decreases args, 1
  {
    if args == [] then Ok([])
    else
      var v :- Value(args[0], vars);
      var rest :- Values(args[1..], vars);
      Ok([v] + rest)
  }

  // ---- Evaluation fused with parsing ----

  type EvalResult = Result<(Num, nat), FormulaError>

  function EvalPrimary(toks: seq<Token>, pos: nat, vars: Variables): (r: EvalResult)
    requires pos <= |toks|
    ensures r.Ok? ==> pos < r.value.1 <= |toks|
    decreases |toks| - pos, 0
  {
    if pos == |toks| then Err(ExpectedValue)
    else match toks[pos]
      case Number(v) => Ok((v, pos + 1))
      case Ident(name) =>
        if Upper(name) == "IF" then EvalIf(toks, pos + 1, vars)
        else if Upper(name) in FUNCTIONS then EvalFunction(Upper(name), toks, pos + 1, vars)
        else var v :- ResolveVar(name, vars); Ok((v, pos + 1))
      case LParen =>
        var (v, p) :- EvalLevel(COMPARISON, toks, pos + 1, vars);
        if IsToken(toks, p, RParen) then Ok((v, p + 1)) else Err(ExpectedClosing)
      case Op(symbol) =>
        if symbol == "-" then
          var (v, p) :- EvalPrimary(toks, pos + 1, vars);
          Ok((Negate(v), p))
        else Err(UnexpectedToken(toks[pos]))
      case _ => Err(UnexpectedToken(toks[pos]))
  }

  /** What follows the word IF. */
  function EvalIf(toks: seq<Token>, pos: nat, vars: Variables): (r: EvalResult)
    requires pos <= |toks|
    ensures r.Ok? ==> pos < r.value.1 <= |toks|
    decreases |toks| - pos, COMPARISON + 2
  {
    var (condition, p) :- EvalLevel(COMPARISON, toks, pos, vars);
    if !IsIdent(toks, p, "THEN") then Err(IfRequiresThen)
    else
      var (a, q) :- EvalLevel(COMPARISON, toks, p + 1, vars);
      if !IsIdent(toks, q, "ELSE") then Err(IfRequiresElse)
      else
        var (b, z) :- EvalLevel(COMPARISON, toks, q + 1, vars);
        Ok((Choose(condition, a, b), z))
  }

  /** What follows a function's name. */
  function EvalFunction(name: string, toks: seq<Token>, pos: nat, vars: Variables): (r: EvalResult)
    requires pos <= |toks|
    ensures r.Ok? ==> pos < r.value.1 <= |toks|
    decreases |toks| - pos, COMPARISON + 3
  {
    if !IsToken(toks, pos, LParen) then Err(ExpectedOpening(name))
    else
      var (args, p) :- if IsToken(toks, pos + 1, RParen) then Ok(([], pos + 1)) else EvalArgs(toks, pos + 1, vars);
      if IsToken(toks, p, RParen) then Ok((ApplyFunction(name, args), p + 1)) else Err(ExpectedClosing)
  }

  function EvalArgs(toks: seq<Token>, pos: nat, vars: Variables): (r: Result<(seq<Num>, nat), FormulaError>)
    requires pos <= |toks|
    ensures r.Ok? ==> pos < r.value.1 <= |toks|
    decreases |toks| - pos, COMPARISON + 2
  {
    var (v, p) :- EvalLevel(COMPARISON, toks, pos, vars);
    if !IsToken(toks, p, Comma) then Ok(([v], p))
    else
      var (rest, q) :- EvalArgs(toks, p + 1, vars);
      Ok(([v] + rest, q))
  }

  function EvalLevel(level: nat, toks: seq<Token>, pos: nat, vars: Variables): (r: EvalResult)
    requires pos <= |toks|
    ensures r.Ok? ==> pos < r.value.1 <= |toks|
    decreases |toks| - pos, level + 1
  {
    if level == 0 then EvalPrimary(toks, pos, vars)
    else
      var (left, p) :- EvalLevel(level - 1, toks, pos, vars);
      EvalChain(level, left, toks, p, vars)
  }

  /** The rest of a chain of operators of one level, after its left value. */
  function EvalChain(level: nat, left: Num, toks: seq<Token>, pos: nat, vars: Variables): (r: EvalResult)
    requires level > 0 && pos <= |toks|
    ensures r.Ok? ==> pos <= r.value.1 <= |toks|
    decreases |toks| - pos, 0
  {
    if LevelAt(toks, pos) != level then Ok((left, pos))
    else
      var (right, p) :- EvalLevel(level - 1, toks, pos + 1, vars);
      var v :- ApplyOperator(toks[pos].symbol, left, right);
      EvalChain(level, v, toks, p, vars)
  }

  /** A chain whose next operand can be read goes on behind it. */
  lemma ChainMoves(level: nat, left: Num, toks: seq<Token>, pos: nat, vars: Variables)
    requires level > 0 && pos < |toks| && LevelAt(toks, pos) == level && EvalLevel(level - 1, toks, pos + 1, vars).Ok?
    ensures var (right, p) := EvalLevel(level - 1, toks, pos + 1, vars).value; var v := ApplyOperator(toks[pos].symbol, left, right);
            EvalChain(level, left, toks, pos, vars) == if v.Ok? then EvalChain(level, v.value, toks, p, vars) else Err(v.error)
  {
  }

  function EvaluateTokens(toks: seq<Token>, vars: Variables): Result<real, FormulaError> {
    var (v, p) :- EvalLevel(COMPARISON, toks, 0, vars);
    if p < |toks| then Err(TrailingTokens)
    else if v.Fin? then Ok(v.value) else Err(NotFinite)
  }

  function Evaluate(expression: string, vars: Variables): Result<real, FormulaError> {
    var toks :- Lex(expression);
    EvaluateTokens(toks, vars)
  }

  // ---- The evaluator with its cursor ----

  class Evaluator {
    const tokens: seq<Token>
    const vars: Variables
    var pos: nat

    constructor (tokens: seq<Token>, vars: Variables)
      ensures this.tokens == tokens && this.vars == vars && pos == 0
    {
      this.tokens := tokens;
      this.vars := vars;
      this.pos := 0;
    }

    /** The call gave the specified value and moved the cursor to the specified place, or failed the specified way. */
    ghost predicate Did<T>(r: Result<T, FormulaError>, expected: Result<(T, nat), FormulaError>)
      reads this
    {
      && pos <= |tokens|
      && match expected
         case Ok((v, p)) => r == Ok(v) && pos == p
         case Err(error) => r == Err(error)
    }

    predicate AtToken(t: Token)
      reads this
    {
      IsToken(tokens, pos, t)
    }

    method ParsePrimary() returns (r: NumResult)
      requires pos <= |tokens|
      modifies this`pos
      ensures Did(r, EvalPrimary(tokens, old(pos), vars))
      decreases |tokens| - pos, 0
    {
      if pos == |tokens| { return Err(ExpectedValue); }
      var t := tokens[pos];
      match t {
        case Number(v) =>
          pos := pos + 1;
          return Ok(v);
        case Ident(name) =>
          pos := pos + 1;
          var upper := Upper(name);
          if upper == "IF" {
            r := ParseIf();
          } else if upper in FUNCTIONS {
            r := ParseFunction(upper);
          } else {
            r := ResolveVar(name, vars);
          }
        case LParen =>
          pos := pos + 1;
          var v :- ParseComparison();
          if !AtToken(RParen) { return Err(ExpectedClosing); }
          pos := pos + 1;
          return Ok(v);
        case Op(symbol) =>
          if symbol != "-" { return Err(UnexpectedToken(t)); }
          pos := pos + 1;
          var v :- ParsePrimary();
          return Ok(Negate(v));
        case _ =>
          return Err(UnexpectedToken(t));
      }
    }

    method ParseFunction(name: string) returns (r: NumResult)
      requires pos <= |tokens|
      modifies this`pos
      ensures Did(r, EvalFunction(name, tokens, old(pos), vars))
      decreases |tokens| - pos, COMPARISON + 3
    {
      if !AtToken(LParen) { return Err(ExpectedOpening(name)); }
      pos := pos + 1;
      var args: seq<Num> := [];
      if !AtToken(RParen) {
        args :- ParseArguments();
      }
      if !AtToken(RParen) { return Err(ExpectedClosing); }
      pos := pos + 1;
      return Ok(ApplyFunction(name, args));
    }

    method ParseArguments() returns (r: Result<seq<Num>, FormulaError>)
      requires pos <= |tokens|
      modifies this`pos
      ensures Did(r, EvalArgs(tokens, old(pos), vars))
      decreases |tokens| - pos, COMPARISON + 2
    {
      ghost var start := pos;
      var first :- ParseComparison();
      var args := [first];
      assert args == [] + [first];
      PrependMoves([], first, tokens, start, pos, vars);
      while AtToken(Comma)
        invariant start < pos <= |tokens| && args != []
        invariant EvalArgs(tokens, start, vars) == Prepend(args, ArgsAfter(tokens, pos, vars))
        decreases |tokens| - pos
      {
        pos := pos + 1;
        ghost var before, here := args, pos;
        var v :- ParseComparison();
        PrependMoves(before, v, tokens, here, pos, vars);
        args := args + [v];
      }
      assert args + [] == args;
      return Ok(args);
    }

    method ParseIf() returns (r: NumResult)
      requires pos <= |tokens|
      modifies this`pos
      ensures Did(r, EvalIf(tokens, old(pos), vars))
      decreases |tokens| - pos, COMPARISON + 2
    {
      var condition :- ParseComparison();
      if !IsIdent(tokens, pos, "THEN") { return Err(IfRequiresThen); }
      pos := pos + 1;
      var thenValue :- ParseComparison();
      if !IsIdent(tokens, pos, "ELSE") { return Err(IfRequiresElse); }
      pos := pos + 1;
      var elseValue :- ParseComparison();
      return Ok(Choose(condition, thenValue, elseValue));
    }

    method ParseMulDiv() returns (r: NumResult)
      requires pos <= |tokens|
      modifies this`pos
      ensures Did(r, EvalLevel(PRODUCT, tokens, old(pos), vars))
      decreases |tokens| - pos, PRODUCT + 1
    {
      ghost var start := pos;
      var left :- ParsePrimary();
      while LevelAt(tokens, pos) == PRODUCT
        invariant start < pos <= |tokens|
        invariant EvalLevel(PRODUCT, tokens, start, vars) == EvalChain(PRODUCT, left, tokens, pos, vars)
        decreases |tokens| - pos
      {
        var op := tokens[pos].symbol;
        pos := pos + 1;
        var right :- ParsePrimary();
        left :- ApplyOperator(op, left, right);
      }
      return Ok(left);
    }

    method ParseAddSub() returns (r: NumResult)
      requires pos <= |tokens|
      modifies this`pos
      ensures Did(r, EvalLevel(SUM, tokens, old(pos), vars))
      decreases |tokens| - pos, SUM + 1
    {
      ghost var start := pos;
      var left :- ParseMulDiv();
      while LevelAt(tokens, pos) == SUM
        invariant start < pos <= |tokens|
        invariant EvalLevel(SUM, tokens, start, vars) == EvalChain(SUM, left, tokens, pos, vars)
        decreases |tokens| - pos
      {
        var op := tokens[pos].symbol;
        pos := pos + 1;
        var right :- ParseMulDiv();
        left :- ApplyOperator(op, left, right);
      }
      return Ok(left);
    }

    /** One comparison operator and its right operand. */
    method CompareNext(left: Num) returns (r: NumResult)
      requires pos < |tokens| && LevelAt(tokens, pos) == COMPARISON
      modifies this`pos
      ensures pos <= |tokens| && (r.Ok? ==> old(pos) < pos)
      ensures EvalChain(COMPARISON, left, tokens, old(pos), vars)
           == if r.Ok? then EvalChain(COMPARISON, r.value, tokens, pos, vars) else Err(r.error)
      decreases |tokens| - pos, COMPARISON
    {
      var op := tokens[pos].symbol;
      pos := pos + 1;
      var right :- ParseAddSub();
      r := ApplyOperator(op, left, right);
    }

    method ParseComparison() returns (r: NumResult)
      requires pos <= |tokens|
      modifies this`pos
      ensures Did(r, EvalLevel(COMPARISON, tokens, old(pos), vars))
      decreases |tokens| - pos, COMPARISON + 1
    {
      ghost var start := pos;
      var left :- ParseAddSub();
      while LevelAt(tokens, pos) == COMPARISON
        invariant start < pos <= |tokens|
        invariant EvalLevel(COMPARISON, tokens, start, vars) == EvalChain(COMPARISON, left, tokens, pos, vars)
        decreases |tokens| - pos
      {
        left :- CompareNext(left);
      }
      return Ok(left);
    }
  }

  /** The arguments that follow the ones already read: none unless a comma stands here. */
  ghost function ArgsAfter(toks: seq<Token>, pos: nat, vars: Variables): Result<(seq<Num>, nat), FormulaError>
    requires pos <= |toks|
  {
    if IsToken(toks, pos, Comma) then EvalArgs(toks, pos + 1, vars) else Ok(([], pos))
  }

  ghost function Prepend(args: seq<Num>, rest: Result<(seq<Num>, nat), FormulaError>): Result<(seq<Num>, nat), FormulaError> {
    if rest.Ok? then Ok((args + rest.value.0, rest.value.1)) else rest
  }

  lemma PrependMoves(args: seq<Num>, v: Num, toks: seq<Token>, pos: nat, next: nat, vars: Variables)
    requires pos <= |toks| && EvalLevel(COMPARISON, toks, pos, vars) == Ok((v, next))
    ensures Prepend(args, EvalArgs(toks, pos, vars)) == Prepend(args + [v], ArgsAfter(toks, next, vars))
    ensures Prepend([], EvalArgs(toks, pos, vars)) == EvalArgs(toks, pos, vars)
  {
    var rest := ArgsAfter(toks, next, vars);
    if rest.Ok? {
      assert [v] + [] == [v];
      assert args + ([v] + rest.value.0) == (args + [v]) + rest.value.0;
      assert [] + EvalArgs(toks, pos, vars).value.0 == EvalArgs(toks, pos, vars).value.0;
    }
  }

  method EvaluateFormula(expression: string, vars: Variables) returns (r: Result<real, FormulaError>)
    ensures r == Evaluate(expression, vars)
  {
    var tokens :- Tokenize(expression);
    var evaluator := new Evaluator(tokens, vars);
    var result :- evaluator.ParseComparison();
    if evaluator.pos < |tokens| { return Err(TrailingTokens); }
    if !result.Fin? { return Err(NotFinite); }
    return Ok(result.value);
  }

  /** A formula may be stored when it evaluates without variables, or stops at a missing one. */
  predicate Accepted(expression: string) {
    var r := Evaluate(expression, map[]);
    r.Ok? || r.error.MissingVariable?
  }

  method ValidateFormulaExpression(expression: string) returns (valid: bool)
    ensures valid == Accepted(expression)
  {
    var tokens := Tokenize(expression);
    if tokens.Err? { return tokens.error.MissingVariable?; }
    var r := EvaluateFormula(expression, map[]);
    return r.Ok? || r.error.MissingVariable?;
  }
}
