/**
 The grammar of the formula language: trees, the tokens a tree stands for, which trees
 the grammar admits, and a parser that finds exactly the admitted tree.
 */
module FormulaGrammar {
  import opened Outcomes
  import opened JsText
  import opened FormulaNumbers
  import opened FormulaLexer

  const FUNCTIONS: set<string> := {"MIN", "MAX", "ROUND", "CEIL", "FLOOR", "SUM", "AVG"}
  const KEYWORDS: set<string> := {"IF", "THEN", "ELSE"} + FUNCTIONS

  /** A formula as written: parentheses and the spelling of keywords are kept. */
  datatype Expr =
    | Lit(value: Num)
    | Var(name: string)
    | Neg(arg: Expr)
    | Paren(body: Expr)
    | Bin(symbol: string, left: Expr, right: Expr)
    | If(ifWord: string, cond: Expr, thenWord: string, thn: Expr, elseWord: string, els: Expr)
    | Call(fn: string, args: seq<Expr>)

  /** Precedence levels: operands are level 0, then products, sums and comparisons. */
  const PRODUCT: nat := 1
  const SUM: nat := 2
  const COMPARISON: nat := 3

  /** The level of a binary operator, 0 for symbols that are none. */
  function OpLevel(symbol: string): (k: nat)
    ensures k <= COMPARISON
  {
    if symbol == "*" || symbol == "/" then PRODUCT
    else if symbol == "+" || symbol == "-" then SUM
    else if symbol in COMPARISONS then COMPARISON
    else 0
  }

  function ExprLevel(e: Expr): nat {
    if e.Bin? then OpLevel(e.symbol) else 0
  }

  /** True when the last thing in the tree is an unparenthesised ELSE branch. */
  predicate Open(e: Expr) {
    match e
    case If(_, _, _, _, _, _) => true
    case Neg(a) => Open(a)
    case Bin(_, _, r) => Open(r)
    case _ => false
  }

  function Flatten(e: Expr): (toks: seq<Token>)
    ensures toks != []
    decreases e, 0
  {
    match e
    case Lit(v) => [Number(v)]
    case Var(name) => [Ident(name)]
    case Neg(a) => [Op("-")] + Flatten(a)
    case Paren(b) => [LParen] + Flatten(b) + [RParen]
    case Bin(op, l, r) => Flatten(l) + [Op(op)] + Flatten(r)
    case If(i, c, t, a, e, b) => [Ident(i)] + Flatten(c) + [Ident(t)] + Flatten(a) + [Ident(e)] + Flatten(b)
    case Call(fn, args) => [Ident(fn), LParen] + FlattenArgs(args) + [RParen]
  }

  function FlattenArgs(args: seq<Expr>): seq<Token>
    decreases args, 1
  {
    if args == [] then []
    else if |args| == 1 then Flatten(args[0])
    else Flatten(args[0]) + [Comma] + FlattenArgs(args[1..])
  }

  /**
   The trees of the grammar at a level: operators chain to the left, and an operand that
   ends in an ELSE branch is never followed by an operator, since ELSE takes all it can.
   */
  predicate WellFormed(e: Expr, level: nat)
    decreases e, 0
  {
    match e
    case Lit(_) => true
    case Var(name) => Upper(name) != "IF" && Upper(name) !in FUNCTIONS
    case Neg(a) => WellFormed(a, 0)
    case Paren(b) => WellFormed(b, COMPARISON)
    case Bin(op, l, r) =>
      var k := OpLevel(op);
      1 <= k <= level && WellFormed(l, k) && !Open(l) && WellFormed(r, k - 1)
    case If(i, c, t, a, e, b) =>
      && Upper(i) == "IF" && Upper(t) == "THEN" && Upper(e) == "ELSE"
      && WellFormed(c, COMPARISON) && WellFormed(a, COMPARISON) && WellFormed(b, COMPARISON)
    case Call(fn, args) => Upper(fn) in FUNCTIONS && WellFormedArgs(args)
  }

  predicate WellFormedArgs(args: seq<Expr>)
    decreases args, 1
  {
    args == [] || (WellFormed(args[0], COMPARISON) && WellFormedArgs(args[1..]))
  }

  // ---- Parser ----

  type ParseResult = Result<(Expr, nat), FormulaError>

  predicate IsIdent(toks: seq<Token>, pos: nat, word: string) {
    pos < |toks| && toks[pos].Ident? && Upper(toks[pos].name) == word
  }

  predicate IsToken(toks: seq<Token>, pos: nat, t: Token) {
    pos < |toks| && toks[pos] == t
  }

  /** The level of the binary operator at pos, 0 when there is none. */
  function LevelAt(toks: seq<Token>, pos: nat): (k: nat)
    ensures k <= COMPARISON
    ensures k > 0 ==> pos < |toks| && toks[pos].Op?
  {
    if pos < |toks| && toks[pos].Op? then OpLevel(toks[pos].symbol) else 0
  }

  function ParsePrimary(toks: seq<Token>, pos: nat): (r: ParseResult)
    requires pos <= |toks|
    ensures r.Ok? ==> pos < r.value.1 <= |toks|
    decreases |toks| - pos, 0
  {
    if pos == |toks| then Err(ExpectedValue)
    else match toks[pos]
      case Number(v) => Ok((Lit(v), pos + 1))
      case Ident(name) =>
        if Upper(name) == "IF" then ParseIf(toks, pos)
        else if Upper(name) in FUNCTIONS then ParseCall(toks, pos)
        else Ok((Var(name), pos + 1))
      case LParen =>
        var (b, p) :- ParseLevel(COMPARISON, toks, pos + 1);
        if IsToken(toks, p, RParen) then Ok((Paren(b), p + 1)) else Err(ExpectedClosing)
      case Op(symbol) =>
        if symbol == "-" then
          var (a, p) :- ParsePrimary(toks, pos + 1);
          Ok((Neg(a), p))
        else Err(UnexpectedToken(toks[pos]))
      case _ => Err(UnexpectedToken(toks[pos]))
  }

  function ParseIf(toks: seq<Token>, pos: nat): (r: ParseResult)
    requires pos < |toks| && toks[pos].Ident?
    ensures r.Ok? ==> pos < r.value.1 <= |toks|
    decreases |toks| - pos - 1, COMPARISON + 2
  {
    var (c, p) :- ParseLevel(COMPARISON, toks, pos + 1);
    if !IsIdent(toks, p, "THEN") then Err(IfRequiresThen)
    else
      var (a, q) :- ParseLevel(COMPARISON, toks, p + 1);
      if !IsIdent(toks, q, "ELSE") then Err(IfRequiresElse)
      else
        var (b, z) :- ParseLevel(COMPARISON, toks, q + 1);
        Ok((If(toks[pos].name, c, toks[p].name, a, toks[q].name, b), z))
  }

  function ParseCall(toks: seq<Token>, pos: nat): (r: ParseResult)
    requires pos < |toks| && toks[pos].Ident?
    ensures r.Ok? ==> pos < r.value.1 <= |toks|
    decreases |toks| - pos - 1, COMPARISON + 3
  {
    if !IsToken(toks, pos + 1, LParen) then Err(ExpectedOpening(Upper(toks[pos].name)))
    else
      var (args, p) :- if IsToken(toks, pos + 2, RParen) then Ok(([], pos + 2)) else ParseArgs(toks, pos + 2);
      if IsToken(toks, p, RParen) then Ok((Call(toks[pos].name, args), p + 1)) else Err(ExpectedClosing)
  }

  function ParseArgs(toks: seq<Token>, pos: nat): (r: Result<(seq<Expr>, nat), FormulaError>)
    requires pos <= |toks|
    ensures r.Ok? ==> pos < r.value.1 <= |toks| && r.value.0 != []
    decreases |toks| - pos, COMPARISON + 2
  {
    var (a, p) :- ParseLevel(COMPARISON, toks, pos);
    if !IsToken(toks, p, Comma) then Ok(([a], p))
    else
      var (rest, q) :- ParseArgs(toks, p + 1);
      Ok(([a] + rest, q))
  }

  function ParseLevel(level: nat, toks: seq<Token>, pos: nat): (r: ParseResult)
    requires pos <= |toks|
    ensures r.Ok? ==> pos < r.value.1 <= |toks|
    decreases |toks| - pos, level + 1
  {
    if level == 0 then ParsePrimary(toks, pos)
    else
      var (left, p) :- ParseLevel(level - 1, toks, pos);
      ParseChain(level, left, toks, p)
  }

  /** The rest of a chain of operators of one level, after its left part. */
  function ParseChain(level: nat, left: Expr, toks: seq<Token>, pos: nat): (r: ParseResult)
    requires level > 0 && pos <= |toks|
    ensures r.Ok? ==> pos <= r.value.1 <= |toks|
    decreases |toks| - pos, 0
  {
    if LevelAt(toks, pos) != level then Ok((left, pos))
    else
      var (right, p) :- ParseLevel(level - 1, toks, pos + 1);
      ParseChain(level, Bin(toks[pos].symbol, left, right), toks, p)
  }
}
