/** Printing adds as few parentheses as the grammar allows: no tree with the same operators reads the same with fewer. */
module FormulaParentheses {
  import opened FormulaGrammar
  import opened FormulaMeaning

  /** The tree without any parentheses: its operators, operands and words alone. */
  function Strip(e: Expr): Expr
    decreases e, 0
  {
    match e
    case Lit(_) => e
    case Var(_) => e
    case Neg(a) => Neg(Strip(a))
    case Paren(b) => Strip(b)
    case Bin(op, l, r) => Bin(op, Strip(l), Strip(r))
    case If(i, c, t, a, f, b) => If(i, Strip(c), t, Strip(a), f, Strip(b))
    case Call(fn, args) => Call(fn, StripAll(args))
  }

  function StripAll(args: seq<Expr>): seq<Expr>
    decreases args, 1
  {
    if args == [] then [] else [Strip(args[0])] + StripAll(args[1..])
  }

  /** The number of pairs of parentheses, those of function calls aside. */
  function Parens(e: Expr): nat
    decreases e, 0
  {
    match e
    case Lit(_) => 0
    case Var(_) => 0
    case Neg(a) => Parens(a)
    case Paren(b) => 1 + Parens(b)
    case Bin(_, l, r) => Parens(l) + Parens(r)
    case If(_, c, _, a, _, b) => Parens(c) + Parens(a) + Parens(b)
    case Call(_, args) => ParensAll(args)
  }

  function ParensAll(args: seq<Expr>): nat
    decreases args, 1
  {
    if args == [] then 0 else Parens(args[0]) + ParensAll(args[1..])
  }

  /** Among all trees the grammar admits with the same operators, the printed one has the fewest parentheses. */
  lemma ParenthesizeIsLeast(e: Expr)
    requires WellFormed(e, COMPARISON)
    ensures Strip(Parenthesize(Strip(e))) == Strip(e)
    ensures Parens(Parenthesize(Strip(e))) <= Parens(e)
  {
    ParenthesizeKeepsOperators(Strip(e));
    StripIsStable(e);
    FitIsLeast(e, COMPARISON, false);
  }

  /** An operand in its place needs no fewer parentheses than Fit gives it. */
  lemma {:induction false} FitIsLeast(e: Expr, level: nat, closed: bool)
    requires WellFormed(e, level) && (closed ==> !Open(e))
    ensures Parens(Fit(Parenthesize(Strip(e)), level, closed)) <= Parens(e)
    decreases e, 0
  {
    match e
    case Neg(_) => NegIsLeast(e, level, closed);
    case Paren(b) => FitIsLeast(b, COMPARISON, false);
    case Bin(_, _, _) => BinIsLeast(e, level, closed);
    case If(_, c, _, a, _, b) =>
      FitIsLeast(c, COMPARISON, false);
      FitIsLeast(a, COMPARISON, false);
      FitIsLeast(b, COMPARISON, false);
    case Call(_, args) => ArgsAreLeast(args);
    case _ =>
  }

  lemma {:induction false} NegIsLeast(e: Expr, level: nat, closed: bool)
    requires e.Neg? && WellFormed(e, level) && (closed ==> !Open(e))
    ensures Parens(Fit(Parenthesize(Strip(e)), level, closed)) <= Parens(e)
    decreases e, 0, 0
  {
    FitIsLeast(e.arg, 0, closed);
    var a := Parenthesize(Strip(e.arg));
    assert Parenthesize(Strip(e)) == Neg(Fit(a, 0, false));
    if closed && Open(Fit(a, 0, false)) {
      assert Fit(a, 0, false) == a && Fit(a, 0, true) == Paren(a);
    }
  }

  lemma {:induction false} BinIsLeast(e: Expr, level: nat, closed: bool)
    requires e.Bin? && WellFormed(e, level) && (closed ==> !Open(e))
    ensures Parens(Fit(Parenthesize(Strip(e)), level, closed)) <= Parens(e)
    decreases e, 0, 0
  {
    var k := OpLevel(e.symbol);
    FitIsLeast(e.left, k, true);
    FitIsLeast(e.right, k - 1, closed);
    var l, r := Fit(Parenthesize(Strip(e.left)), k, true), Parenthesize(Strip(e.right));
    assert Parenthesize(Strip(e)) == Bin(e.symbol, l, Fit(r, k - 1, false));
    if closed && Open(Fit(r, k - 1, false)) {
      assert Fit(r, k - 1, false) == r && Fit(r, k - 1, true) == Paren(r);
    }
  }

  lemma {:induction false} ArgsAreLeast(args: seq<Expr>)
    requires WellFormedArgs(args)
    ensures ParensAll(ParenthesizeAll(StripAll(args))) <= ParensAll(args)
    decreases args, 1
  {
    if args != [] {
      FitIsLeast(args[0], COMPARISON, false);
      ArgsAreLeast(args[1..]);
      assert StripAll(args)[1..] == StripAll(args[1..]);
      assert ParenthesizeAll(StripAll(args))[1..] == ParenthesizeAll(StripAll(args[1..]));
    }
  }

  /** Printing adds nothing but parentheses. */
  lemma {:induction false} ParenthesizeKeepsOperators(e: Expr)
    ensures Strip(Parenthesize(e)) == Strip(e)
    decreases e, 0
  {
    match e
    case Neg(a) => ParenthesizeKeepsOperators(a);
    case Paren(b) => ParenthesizeKeepsOperators(b);
    case Bin(_, l, r) =>
      ParenthesizeKeepsOperators(l);
      ParenthesizeKeepsOperators(r);
    case If(_, c, _, a, _, b) =>
      ParenthesizeKeepsOperators(c);
      ParenthesizeKeepsOperators(a);
      ParenthesizeKeepsOperators(b);
    case Call(_, args) => ParenthesizeKeepsArgs(args);
    case _ =>
  }

  lemma {:induction false} ParenthesizeKeepsArgs(args: seq<Expr>)
    ensures StripAll(ParenthesizeAll(args)) == StripAll(args)
    decreases args, 1
  {
    if args != [] {
      ParenthesizeKeepsOperators(args[0]);
      ParenthesizeKeepsArgs(args[1..]);
      assert ParenthesizeAll(args)[1..] == ParenthesizeAll(args[1..]);
    }
  }

  lemma {:induction false} StripIsStable(e: Expr)
    ensures Strip(Strip(e)) == Strip(e)
    decreases e, 0
  {
    match e
    case Neg(a) => StripIsStable(a);
    case Paren(b) => StripIsStable(b);
    case Bin(_, l, r) =>
      StripIsStable(l);
      StripIsStable(r);
    case If(_, c, _, a, _, b) =>
      StripIsStable(c);
      StripIsStable(a);
      StripIsStable(b);
    case Call(_, args) => StripAllIsStable(args);
    case _ =>
  }

  lemma {:induction false} StripAllIsStable(args: seq<Expr>)
    ensures StripAll(StripAll(args)) == StripAll(args)
    decreases args, 1
  {
    if args != [] {
      StripIsStable(args[0]);
      StripAllIsStable(args[1..]);
      assert StripAll(args)[1..] == StripAll(args[1..]);
    }
  }
}
