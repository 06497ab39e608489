/**
 The grammar as one would write it down: comparisons of sums of products of factors, each layer with its own
 symbols, and the words of the language spelled out. It admits the same trees as the levels of the parser.
 */
module FormulaLayers {
  import opened Outcomes
  import JsText
  import opened FormulaLexer
  import opened FormulaGrammar
  import opened FormulaParsing

  // ---- The layers; a closed expression does not end in an ELSE branch, so that an operator can follow it ----

  predicate IsComparison(e: Expr, closed: bool)
    decreases e, 3
  {
    || IsSum(e, closed)
    || (e.Bin? && e.symbol in [">", "<", ">=", "<=", "=", "==", "!="] && IsComparison(e.left, true) && IsSum(e.right, closed))
  }

  predicate IsSum(e: Expr, closed: bool)
    decreases e, 2
  {
    || IsProduct(e, closed)
    || (e.Bin? && e.symbol in ["+", "-"] && IsSum(e.left, true) && IsProduct(e.right, closed))
  }

  predicate IsProduct(e: Expr, closed: bool)
    decreases e, 1
  {
    || IsFactor(e, closed)
    || (e.Bin? && e.symbol in ["*", "/"] && IsProduct(e.left, true) && IsFactor(e.right, closed))
  }

  predicate IsFunctionName(word: string) {
    JsText.Upper(word) in ["MIN", "MAX", "ROUND", "CEIL", "FLOOR", "SUM", "AVG"]
  }

  predicate IsFactor(e: Expr, closed: bool)
    decreases e, 0
  {
    match e
    case Lit(_) => true
    case Var(name) => JsText.Upper(name) != "IF" && !IsFunctionName(name)
    case Neg(a) => IsFactor(a, closed)
    case Paren(b) => IsComparison(b, false)
    case Bin(_, _, _) => false
    case If(i, c, t, a, f, b) =>
      && !closed && JsText.Upper(i) == "IF" && JsText.Upper(t) == "THEN" && JsText.Upper(f) == "ELSE"
      && IsComparison(c, false) && IsComparison(a, false) && IsComparison(b, false)
    case Call(fn, args) => IsFunctionName(fn) && AreComparisons(args)
  }

  predicate AreComparisons(args: seq<Expr>)
    decreases args, 4
  {
    args == [] || (IsComparison(args[0], false) && AreComparisons(args[1..]))
  }

  // ---- The layers are the levels ----

  predicate Fits(e: Expr, level: nat, closed: bool) {
    WellFormed(e, level) && (closed ==> !Open(e))
  }

  lemma FunctionNames(word: string)
    ensures IsFunctionName(word) <==> JsText.Upper(word) in FUNCTIONS
  {
  }

  lemma SymbolLevels(symbol: string)
    ensures OpLevel(symbol) == PRODUCT <==> symbol in ["*", "/"]
    ensures OpLevel(symbol) == SUM <==> symbol in ["+", "-"]
    ensures OpLevel(symbol) == COMPARISON <==> symbol in [">", "<", ">=", "<=", "=", "==", "!="]
  {
  }

  lemma {:induction false} FactorsAreLevel0(e: Expr, closed: bool)
    ensures IsFactor(e, closed) <==> Fits(e, 0, closed)
    decreases e, 0
  {
    match e
    case Lit(_) =>
    case Var(name) => FunctionNames(name);
    case Neg(a) => FactorsAreLevel0(a, closed);
    case Paren(b) => LayersAreLevels(b, false);
    case Bin(_, _, _) =>
    case If(_, c, _, a, _, b) =>
      LayersAreLevels(c, false);
      LayersAreLevels(a, false);
      LayersAreLevels(b, false);
    case Call(fn, args) =>
      FunctionNames(fn);
      ArgsAreLevel3(args);
  }

  lemma {:induction false} ArgsAreLevel3(args: seq<Expr>)
    ensures AreComparisons(args) <==> WellFormedArgs(args)
    decreases args, 4
  {
    if args != [] {
      LayersAreLevels(args[0], false);
      ArgsAreLevel3(args[1..]);
    }
  }

  /** Comparisons, sums, products and factors are the trees of the levels 3, 2, 1 and 0. */
  lemma {:induction false} LayersAreLevels(e: Expr, closed: bool)
    ensures IsFactor(e, closed) <==> Fits(e, 0, closed)
    ensures IsProduct(e, closed) <==> Fits(e, PRODUCT, closed)
    ensures IsSum(e, closed) <==> Fits(e, SUM, closed)
    ensures IsComparison(e, closed) <==> Fits(e, COMPARISON, closed)
    decreases e, 1
  {
    FactorsAreLevel0(e, closed);
    if e.Bin? {
      SymbolLevels(e.symbol);
      LayersAreLevels(e.left, true);
      LayersAreLevels(e.right, closed);
    }
  }

  /** A token list parses to a tree exactly when the layered grammar derives the list from that tree. */
  lemma ParsesExactlyTheLayers(toks: seq<Token>, e: Expr)
    ensures ParseFormula(toks) == Ok(e) <==> IsComparison(e, false) && Flatten(e) == toks
  {
    ParsesExactlyTheGrammar(toks, e);
    LayersAreLevels(e, false);
  }

  // ---- Which of two operators is applied first ----

  predicate IsOperator(symbol: string) {
    symbol in ["*", "/", "+", "-", ">", "<", ">=", "<=", "=", "==", "!="]
  }

  /** The second operator takes its operand away from the first: only a stronger one does. */
  predicate BindsTighter(second: string, first: string) {
    || (second in ["*", "/"] && first !in ["*", "/"])
    || (second in ["+", "-"] && first !in ["*", "/", "+", "-"])
  }

  /** x a y b z, for any operands: products before sums before comparisons, and from the left within each group. */
  lemma TwoOperators(x: Expr, a: string, y: Expr, b: string, z: Expr)
    requires IsFactor(x, true) && IsFactor(y, true) && IsFactor(z, false) && IsOperator(a) && IsOperator(b)
    ensures ParseFormula(Flatten(x) + [Op(a)] + Flatten(y) + [Op(b)] + Flatten(z))
         == Ok(if BindsTighter(b, a) then Bin(a, x, Bin(b, y, z)) else Bin(b, Bin(a, x, y), z))
  {
    SymbolLevels(a);
    SymbolLevels(b);
    if BindsTighter(b, a) {
      RightNested(x, a, y, b, z);
    } else {
      LeftNested(x, a, y, b, z);
    }
  }

  lemma RightNested(x: Expr, a: string, y: Expr, b: string, z: Expr)
    requires IsFactor(x, true) && IsFactor(y, true) && IsFactor(z, false) && 0 < OpLevel(b) < OpLevel(a)
    ensures ParseFormula(Flatten(x) + [Op(a)] + Flatten(y) + [Op(b)] + Flatten(z)) == Ok(Bin(a, x, Bin(b, y, z)))
  {
    OneOperator(y, b, z);
    var inner := Bin(b, y, z);
    FactorAtAnyLevel(x, true, OpLevel(a));
    assert WellFormed(inner, OpLevel(a) - 1);
    var tree := Bin(a, x, inner);
    assert WellFormed(tree, COMPARISON);
    ParsesExactlyTheGrammar(Flatten(tree), tree);
    FlattenRight(x, a, y, b, z);
  }

  lemma FlattenRight(x: Expr, a: string, y: Expr, b: string, z: Expr)
    ensures Flatten(Bin(a, x, Bin(b, y, z))) == Flatten(x) + [Op(a)] + Flatten(y) + [Op(b)] + Flatten(z)
  {
    assert Flatten(x) + [Op(a)] + (Flatten(y) + [Op(b)] + Flatten(z)) == Flatten(x) + [Op(a)] + Flatten(y) + [Op(b)] + Flatten(z);
  }

  lemma LeftNested(x: Expr, a: string, y: Expr, b: string, z: Expr)
    requires IsFactor(x, true) && IsFactor(y, true) && IsFactor(z, false) && 0 < OpLevel(a) <= OpLevel(b)
    ensures ParseFormula(Flatten(x) + [Op(a)] + Flatten(y) + [Op(b)] + Flatten(z)) == Ok(Bin(b, Bin(a, x, y), z))
  {
    OneOperator(x, a, y);
    var inner := Bin(a, x, y);
    FactorAtAnyLevel(y, true, 0);
    FactorAtAnyLevel(z, false, OpLevel(b) - 1);
    assert WellFormed(inner, OpLevel(b)) && !Open(inner);
    var tree := Bin(b, inner, z);
    assert WellFormed(tree, COMPARISON);
    assert Flatten(tree) == Flatten(x) + [Op(a)] + Flatten(y) + [Op(b)] + Flatten(z);
    ParsesExactlyTheGrammar(Flatten(tree), tree);
  }

  lemma OneOperator(x: Expr, a: string, y: Expr)
    requires IsFactor(x, true) && (IsFactor(y, true) || IsFactor(y, false)) && OpLevel(a) > 0
    ensures WellFormed(Bin(a, x, y), OpLevel(a))
  {
    FactorAtAnyLevel(x, true, OpLevel(a));
    FactorAtAnyLevel(y, IsFactor(y, true), OpLevel(a) - 1);
  }

  lemma FactorAtAnyLevel(e: Expr, closed: bool, level: nat)
    requires IsFactor(e, closed)
    ensures Fits(e, level, closed)
  {
    FactorsAreLevel0(e, closed);
  }
}
