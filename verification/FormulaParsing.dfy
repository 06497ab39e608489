/** The parser finds a tree exactly when the grammar has one, and the grammar has at most one. */
module FormulaParsing {
  import opened Outcomes
  import JsText
  import opened FormulaLexer
  import opened FormulaGrammar

  /** What may follow a tree parsed at a level: no operator of that level or tighter, and none at all after an ELSE branch. */
  predicate Stops(level: nat, e: Expr, toks: seq<Token>, pos: nat) {
    LevelAt(toks, pos) == 0 || (LevelAt(toks, pos) > level && !Open(e))
  }

  ghost predicate Covers(toks: seq<Token>, pos: nat, end: nat, text: seq<Token>) {
    pos <= end <= |toks| && toks[pos..end] == text
  }

  lemma CoversJoin(toks: seq<Token>, pos: nat, mid: nat, end: nat, a: seq<Token>, b: seq<Token>)
    requires Covers(toks, pos, mid, a) && Covers(toks, mid, end, b)
    ensures Covers(toks, pos, end, a + b)
  {
    assert toks[pos..end] == toks[pos..mid] + toks[mid..end];
  }

  lemma CoversOne(toks: seq<Token>, pos: nat, t: Token)
    requires IsToken(toks, pos, t)
    ensures Covers(toks, pos, pos + 1, [t])
  {
  }

  lemma CoversSplit(toks: seq<Token>, pos: nat, end: nat, a: seq<Token>, b: seq<Token>)
    requires Covers(toks, pos, end, a + b)
    ensures Covers(toks, pos, pos + |a|, a) && Covers(toks, pos + |a|, end, b)
  {
    var text := toks[pos..end];
    assert text[..|a|] == a && text[|a|..] == b;
  }

  /** Three stretches of tokens, each behind one word. */
  function Interleave(i: Token, c: seq<Token>, t: Token, a: seq<Token>, f: Token, b: seq<Token>): seq<Token> {
    [i] + c + [t] + a + [f] + b
  }

  lemma CoversJoinThree(toks: seq<Token>, pos: nat, p: nat, q: nat, end: nat, c: seq<Token>, a: seq<Token>, b: seq<Token>)
    requires pos < p < q < end && p < |toks| && q < |toks|
    requires Covers(toks, pos + 1, p, c) && Covers(toks, p + 1, q, a) && Covers(toks, q + 1, end, b)
    ensures Covers(toks, pos, end, Interleave(toks[pos], c, toks[p], a, toks[q], b))
  {
    CoversJoin(toks, pos, pos + 1, p, [toks[pos]], c);
    CoversJoin(toks, pos, p, p + 1, [toks[pos]] + c, [toks[p]]);
    CoversJoin(toks, pos, p + 1, q, [toks[pos]] + c + [toks[p]], a);
    CoversJoin(toks, pos, q, q + 1, [toks[pos]] + c + [toks[p]] + a, [toks[q]]);
    CoversJoin(toks, pos, q + 1, end, [toks[pos]] + c + [toks[p]] + a + [toks[q]], b);
  }

  lemma CoversSplitThree(toks: seq<Token>, pos: nat, end: nat,
                         i: Token, c: seq<Token>, t: Token, a: seq<Token>, f: Token, b: seq<Token>)
    requires Covers(toks, pos, end, Interleave(i, c, t, a, f, b))
    ensures var p := pos + 1 + |c|; var q := p + 1 + |a|;
            && IsToken(toks, pos, i) && IsToken(toks, p, t) && IsToken(toks, q, f)
            && Covers(toks, pos + 1, p, c) && Covers(toks, p + 1, q, a) && Covers(toks, q + 1, end, b)
  {
    var p := pos + 1 + |c|;
    var q := p + 1 + |a|;
    CoversSplit(toks, pos, end, [i] + c + [t] + a + [f], b);
    CoversSplit(toks, pos, q + 1, [i] + c + [t] + a, [f]);
    CoversSplit(toks, pos, q, [i] + c + [t], a);
    CoversSplit(toks, pos, p + 1, [i] + c, [t]);
    CoversSplit(toks, pos, p, [i], c);
    assert toks[pos..pos + 1][0] == i && toks[p..p + 1][0] == t && toks[q..q + 1][0] == f;
  }

  // ---- Everything parsed is in the grammar ----

  ghost predicate Sound(level: nat, toks: seq<Token>, pos: nat, e: Expr, end: nat) {
    WellFormed(e, level) && Covers(toks, pos, end, Flatten(e)) && Stops(level, e, toks, end)
  }

  lemma {:induction false} PrimarySound(toks: seq<Token>, pos: nat)
    requires pos <= |toks|
    ensures var r := ParsePrimary(toks, pos); r.Ok? ==> Sound(0, toks, pos, r.value.0, r.value.1)
    decreases |toks| - pos, 0
  {
    var r := ParsePrimary(toks, pos);
    if r.Ok? {
      match toks[pos]
      case Number(v) =>
      case Ident(name) =>
        if JsText.Upper(name) == "IF" {
          IfSound(toks, pos);
        } else if JsText.Upper(name) in FUNCTIONS {
          CallSound(toks, pos);
        }
      case LParen =>
        LevelSound(COMPARISON, toks, pos + 1);
        var (b, p) := ParseLevel(COMPARISON, toks, pos + 1).value;
        CoversOne(toks, pos, LParen);
        CoversOne(toks, p, RParen);
        CoversJoin(toks, pos, pos + 1, p, [LParen], Flatten(b));
        CoversJoin(toks, pos, p, p + 1, [LParen] + Flatten(b), [RParen]);
      case Op(symbol) =>
        PrimarySound(toks, pos + 1);
        CoversJoin(toks, pos, pos + 1, r.value.1, [Op("-")], Flatten(r.value.0.arg));
      case _ =>
    }
  }

  lemma {:induction false} IfSound(toks: seq<Token>, pos: nat)
    requires pos < |toks| && toks[pos].Ident? && JsText.Upper(toks[pos].name) == "IF"
    ensures var r := ParseIf(toks, pos); r.Ok? ==> Sound(0, toks, pos, r.value.0, r.value.1)
    decreases |toks| - pos - 1, COMPARISON + 2
  {
    var r := ParseIf(toks, pos);
    if r.Ok? {
      LevelSound(COMPARISON, toks, pos + 1);
      var (c, p) := ParseLevel(COMPARISON, toks, pos + 1).value;
      LevelSound(COMPARISON, toks, p + 1);
      var (a, q) := ParseLevel(COMPARISON, toks, p + 1).value;
      LevelSound(COMPARISON, toks, q + 1);
      var (b, z) := ParseLevel(COMPARISON, toks, q + 1).value;
      CoversJoinThree(toks, pos, p, q, z, Flatten(c), Flatten(a), Flatten(b));
    }
  }

  lemma {:induction false} CallSound(toks: seq<Token>, pos: nat)
    requires pos < |toks| && toks[pos].Ident? && JsText.Upper(toks[pos].name) in FUNCTIONS
    ensures var r := ParseCall(toks, pos); r.Ok? ==> Sound(0, toks, pos, r.value.0, r.value.1)
    decreases |toks| - pos - 1, COMPARISON + 3
  {
    var r := ParseCall(toks, pos);
    if r.Ok? {
      var Call(fn, args) := r.value.0;
      var p := r.value.1 - 1;
      CoversOne(toks, pos, Ident(fn));
      CoversOne(toks, pos + 1, LParen);
      CoversOne(toks, p, RParen);
      CoversJoin(toks, pos, pos + 1, pos + 2, [Ident(fn)], [LParen]);
      if !IsToken(toks, pos + 2, RParen) {
        ArgsSound(toks, pos + 2);
      }
      assert Covers(toks, pos + 2, p, FlattenArgs(args));
      CoversJoin(toks, pos, pos + 2, p, [Ident(fn), LParen], FlattenArgs(args));
      CoversJoin(toks, pos, p, p + 1, [Ident(fn), LParen] + FlattenArgs(args), [RParen]);
    }
  }

  lemma {:induction false} ArgsSound(toks: seq<Token>, pos: nat)
    requires pos <= |toks|
    ensures var r := ParseArgs(toks, pos);
            r.Ok? ==> WellFormedArgs(r.value.0) && Covers(toks, pos, r.value.1, FlattenArgs(r.value.0))
    decreases |toks| - pos, COMPARISON + 2
  {
    var r := ParseArgs(toks, pos);
    if r.Ok? {
      LevelSound(COMPARISON, toks, pos);
      var (a, p) := ParseLevel(COMPARISON, toks, pos).value;
      if IsToken(toks, p, Comma) {
        ArgsSound(toks, p + 1);
        var (rest, q) := ParseArgs(toks, p + 1).value;
        assert ([a] + rest)[1..] == rest;
        CoversOne(toks, p, Comma);
        CoversJoin(toks, pos, p, p + 1, Flatten(a), [Comma]);
        CoversJoin(toks, pos, p + 1, q, Flatten(a) + [Comma], FlattenArgs(rest));
      } else {
        assert [a][1..] == [];
      }
    }
  }

  lemma {:induction false} LevelSound(level: nat, toks: seq<Token>, pos: nat)
    requires pos <= |toks|
    ensures var r := ParseLevel(level, toks, pos); r.Ok? ==> Sound(level, toks, pos, r.value.0, r.value.1)
    decreases |toks| - pos, level + 1
  {
    if level == 0 {
      PrimarySound(toks, pos);
    } else {
      LevelSound(level - 1, toks, pos);
      var first := ParseLevel(level - 1, toks, pos);
      if first.Ok? {
        WellFormedAbove(first.value.0, level - 1);
        ChainSound(level, first.value.0, toks, pos, first.value.1);
      }
    }
  }

  lemma WellFormedAbove(e: Expr, level: nat)
    requires WellFormed(e, level)
    ensures WellFormed(e, level + 1)
  {
  }

  lemma {:induction false} ChainSound(level: nat, left: Expr, toks: seq<Token>, start: nat, pos: nat)
    requires level > 0 && WellFormed(left, level) && Covers(toks, start, pos, Flatten(left))
    requires Stops(level - 1, left, toks, pos)
    ensures var r := ParseChain(level, left, toks, pos); r.Ok? ==> Sound(level, toks, start, r.value.0, r.value.1)
    decreases |toks| - pos, 0
  {
    if LevelAt(toks, pos) == level {
      LevelSound(level - 1, toks, pos + 1);
      var next := ParseLevel(level - 1, toks, pos + 1);
      if next.Ok? {
        var (right, p) := next.value;
        var op := toks[pos].symbol;
        CoversOne(toks, pos, Op(op));
        CoversJoin(toks, start, pos, pos + 1, Flatten(left), [Op(op)]);
        CoversJoin(toks, start, pos + 1, p, Flatten(left) + [Op(op)], Flatten(right));
        ChainSound(level, Bin(op, left, right), toks, start, p);
      }
    }
  }

  // ---- Everything in the grammar is parsed, and to the same tree ----

  lemma {:induction false} PrimaryComplete(e: Expr, toks: seq<Token>, pos: nat, end: nat)
    requires WellFormed(e, 0) && Covers(toks, pos, end, Flatten(e)) && Stops(0, e, toks, end)
    ensures ParsePrimary(toks, pos) == Ok((e, end))
    decreases e, 0, 1
  {
    assert toks[pos] == Flatten(e)[0];
    match e
    case Lit(v) =>
    case Var(name) =>
    case Neg(a) =>
      NegOperand(e, toks, pos, end);
      PrimaryComplete(a, toks, pos + 1, end);
    case Paren(b) =>
      ParenOperand(e, toks, pos, end);
      LevelComplete(COMPARISON, b, toks, pos + 1, end - 1);
    case If(_, _, _, _, _, _) =>
      IfComplete(e, toks, pos, end);
    case Call(_, _) =>
      CallComplete(e, toks, pos, end);
  }

  lemma NegOperand(e: Expr, toks: seq<Token>, pos: nat, end: nat)
    requires e.Neg? && WellFormed(e, 0) && Covers(toks, pos, end, Flatten(e)) && Stops(0, e, toks, end)
    ensures IsToken(toks, pos, Op("-")) && Sound(0, toks, pos + 1, e.arg, end)
  {
    CoversSplit(toks, pos, end, [Op("-")], Flatten(e.arg));
    assert toks[pos..pos + 1][0] == Op("-");
  }

  lemma ParenOperand(e: Expr, toks: seq<Token>, pos: nat, end: nat)
    requires e.Paren? && WellFormed(e, 0) && Covers(toks, pos, end, Flatten(e))
    ensures IsToken(toks, pos, LParen) && pos < end - 1 && IsToken(toks, end - 1, RParen)
    ensures Sound(COMPARISON, toks, pos + 1, e.body, end - 1)
  {
    CoversSplit(toks, pos, end, [LParen] + Flatten(e.body), [RParen]);
    CoversSplit(toks, pos, end - 1, [LParen], Flatten(e.body));
    assert toks[end - 1..end][0] == RParen && toks[pos..pos + 1][0] == LParen;
  }

  /** Where the three parts of an IF stand, each ended by a word. */
  lemma IfOperands(e: Expr, toks: seq<Token>, pos: nat, end: nat) returns (p: nat, q: nat)
    requires e.If? && WellFormed(e, 0) && Covers(toks, pos, end, Flatten(e)) && LevelAt(toks, end) == 0
    ensures toks[pos] == Ident(e.ifWord) && Sound(COMPARISON, toks, pos + 1, e.cond, p)
    ensures IsToken(toks, p, Ident(e.thenWord)) && Sound(COMPARISON, toks, p + 1, e.thn, q)
    ensures IsToken(toks, q, Ident(e.elseWord)) && Sound(COMPARISON, toks, q + 1, e.els, end)
  {
    var If(i, c, t, a, f, b) := e;
    CoversSplitThree(toks, pos, end, Ident(i), Flatten(c), Ident(t), Flatten(a), Ident(f), Flatten(b));
    p := pos + 1 + |Flatten(c)|;
    q := p + 1 + |Flatten(a)|;
  }

  lemma {:induction false} IfComplete(e: Expr, toks: seq<Token>, pos: nat, end: nat)
    requires e.If? && WellFormed(e, 0) && Covers(toks, pos, end, Flatten(e)) && LevelAt(toks, end) == 0
    ensures toks[pos] == Ident(e.ifWord) && ParseIf(toks, pos) == Ok((e, end))
    decreases e, 0, 0
  {
    var p, q := IfOperands(e, toks, pos, end);
    LevelComplete(COMPARISON, e.cond, toks, pos + 1, p);
    LevelComplete(COMPARISON, e.thn, toks, p + 1, q);
    LevelComplete(COMPARISON, e.els, toks, q + 1, end);
    IfParses(toks, pos, e.cond, p, e.thn, q, e.els, end);
  }

  lemma IfParses(toks: seq<Token>, pos: nat, c: Expr, p: nat, a: Expr, q: nat, b: Expr, end: nat)
    requires pos < |toks| && toks[pos].Ident?
    requires ParseLevel(COMPARISON, toks, pos + 1) == Ok((c, p)) && IsIdent(toks, p, "THEN")
    requires ParseLevel(COMPARISON, toks, p + 1) == Ok((a, q)) && IsIdent(toks, q, "ELSE")
    requires ParseLevel(COMPARISON, toks, q + 1) == Ok((b, end))
    ensures ParseIf(toks, pos) == Ok((If(toks[pos].name, c, toks[p].name, a, toks[q].name, b), end))
  {
  }

  lemma {:induction false} CallComplete(e: Expr, toks: seq<Token>, pos: nat, end: nat)
    requires e.Call? && WellFormed(e, 0) && Covers(toks, pos, end, Flatten(e))
    ensures toks[pos] == Ident(e.fn) && ParseCall(toks, pos) == Ok((e, end))
    decreases e, 0, 0
  {
    var Call(fn, args) := e;
    CoversSplit(toks, pos, end, [Ident(fn), LParen] + FlattenArgs(args), [RParen]);
    CoversSplit(toks, pos, end - 1, [Ident(fn), LParen], FlattenArgs(args));
    assert toks[pos..pos + 2][0] == Ident(fn) && toks[pos..pos + 2][1] == LParen && toks[end - 1..end][0] == RParen;
    if args != [] {
      FirstOfArgs(args);
      assert toks[pos + 2] == toks[pos + 2..end - 1][0] == Flatten(args[0])[0];
      FirstToken(args[0]);
      ArgsComplete(args, toks, pos + 2, end - 1);
    }
  }

  lemma FirstOfArgs(args: seq<Expr>)
    requires args != []
    ensures FlattenArgs(args) != [] && FlattenArgs(args)[0] == Flatten(args[0])[0]
  {
  }

  lemma {:induction false} FirstToken(e: Expr)
    ensures Flatten(e)[0] != RParen
  {
    if e.Bin? {
      FirstToken(e.left);
    }
  }

  lemma CoversArgs(args: seq<Expr>, toks: seq<Token>, pos: nat, end: nat) returns (p: nat)
    requires |args| > 1 && Covers(toks, pos, end, FlattenArgs(args))
    ensures pos < p && Covers(toks, pos, p, Flatten(args[0])) && IsToken(toks, p, Comma)
    ensures Covers(toks, p + 1, end, FlattenArgs(args[1..]))
  {
    CoversSplit(toks, pos, end, Flatten(args[0]) + [Comma], FlattenArgs(args[1..]));
    p := pos + |Flatten(args[0])|;
    CoversSplit(toks, pos, p + 1, Flatten(args[0]), [Comma]);
    assert toks[p..p + 1][0] == Comma;
  }

  lemma {:induction false} ArgsComplete(args: seq<Expr>, toks: seq<Token>, pos: nat, end: nat)
    requires args != [] && WellFormedArgs(args) && Covers(toks, pos, end, FlattenArgs(args)) && IsToken(toks, end, RParen)
    ensures ParseArgs(toks, pos) == Ok((args, end))
    decreases args, 1
  {
    if |args| == 1 {
      LevelComplete(COMPARISON, args[0], toks, pos, end);
      assert args == [args[0]];
    } else {
      var p := CoversArgs(args, toks, pos, end);
      LevelComplete(COMPARISON, args[0], toks, pos, p);
      ArgsComplete(args[1..], toks, p + 1, end);
      ArgsParse(args, toks, pos, p, end);
    }
  }

  lemma ArgsParse(args: seq<Expr>, toks: seq<Token>, pos: nat, p: nat, end: nat)
    requires |args| > 1 && pos < p < |toks| && IsToken(toks, p, Comma)
    requires ParseLevel(COMPARISON, toks, pos) == Ok((args[0], p)) && ParseArgs(toks, p + 1) == Ok((args[1..], end))
    ensures ParseArgs(toks, pos) == Ok((args, end))
  {
    assert args == [args[0]] + args[1..];
  }

  lemma {:induction false} LevelComplete(level: nat, e: Expr, toks: seq<Token>, pos: nat, end: nat)
    requires Sound(level, toks, pos, e, end)
    ensures ParseLevel(level, toks, pos) == Ok((e, end))
    decreases e, 1, level, 1
  {
    if level == 0 {
      PrimaryComplete(e, toks, pos, end);
    } else {
      ChainComplete(level, e, toks, pos, end);
    }
  }

  lemma CoversOperands(e: Expr, toks: seq<Token>, pos: nat, end: nat) returns (p: nat)
    requires e.Bin? && Covers(toks, pos, end, Flatten(e))
    ensures Covers(toks, pos, p, Flatten(e.left)) && IsToken(toks, p, Op(e.symbol)) && Covers(toks, p + 1, end, Flatten(e.right))
  {
    CoversSplit(toks, pos, end, Flatten(e.left) + [Op(e.symbol)], Flatten(e.right));
    p := pos + |Flatten(e.left)|;
    CoversSplit(toks, pos, p + 1, Flatten(e.left), [Op(e.symbol)]);
    assert toks[p..p + 1][0] == Op(e.symbol);
  }

  lemma BinOperands(level: nat, e: Expr, toks: seq<Token>, pos: nat, end: nat) returns (p: nat)
    requires level > 0 && e.Bin? && OpLevel(e.symbol) == level && WellFormed(e, level)
    requires Covers(toks, pos, end, Flatten(e)) && Stops(level - 1, e, toks, end)
    ensures IsToken(toks, p, Op(e.symbol)) && Sound(level - 1, toks, p + 1, e.right, end)
    ensures WellFormed(e.left, level) && Covers(toks, pos, p, Flatten(e.left)) && Stops(level - 1, e.left, toks, p)
  {
    p := CoversOperands(e, toks, pos, end);
  }

  lemma ChainTakesOperand(level: nat, e: Expr, toks: seq<Token>, p: nat, end: nat)
    requires level > 0 && e.Bin? && p < |toks| && toks[p] == Op(e.symbol) && OpLevel(e.symbol) == level
    requires ParseLevel(level - 1, toks, p + 1) == Ok((e.right, end))
    ensures ParseChain(level, e.left, toks, p) == ParseChain(level, e, toks, end)
  {
  }

  lemma {:induction false} ChainComplete(level: nat, e: Expr, toks: seq<Token>, pos: nat, end: nat)
    requires level > 0 && WellFormed(e, level) && Covers(toks, pos, end, Flatten(e)) && Stops(level - 1, e, toks, end)
    ensures ParseLevel(level, toks, pos) == ParseChain(level, e, toks, end)
    decreases e, 1, level, 0
  {
    if e.Bin? && OpLevel(e.symbol) == level {
      var p := BinOperands(level, e, toks, pos, end);
      ChainComplete(level, e.left, toks, pos, p);
      LevelComplete(level - 1, e.right, toks, p + 1, end);
      ChainTakesOperand(level, e, toks, p, end);
    } else {
      WellFormedBelow(e, level);
      LevelComplete(level - 1, e, toks, pos, end);
      ChainStarts(level, e, toks, pos, end);
    }
  }

  lemma WellFormedBelow(e: Expr, level: nat)
    requires level > 0 && WellFormed(e, level) && !(e.Bin? && OpLevel(e.symbol) == level)
    ensures WellFormed(e, level - 1)
  {
  }

  lemma ChainStarts(level: nat, e: Expr, toks: seq<Token>, pos: nat, end: nat)
    requires level > 0 && pos <= |toks| && ParseLevel(level - 1, toks, pos) == Ok((e, end))
    ensures ParseLevel(level, toks, pos) == ParseChain(level, e, toks, end)
  {
  }

  // ---- The two together ----

  function ParseFormula(toks: seq<Token>): Result<Expr, FormulaError> {
    var (e, p) :- ParseLevel(COMPARISON, toks, 0);
    if p < |toks| then Err(TrailingTokens) else Ok(e)
  }

  /** A token list parses to a tree exactly when the grammar derives the list from that tree. */
  lemma ParsesExactlyTheGrammar(toks: seq<Token>, e: Expr)
    ensures ParseFormula(toks) == Ok(e) <==> WellFormed(e, COMPARISON) && Flatten(e) == toks
  {
    LevelSound(COMPARISON, toks, 0);
    assert toks[0..|toks|] == toks;
    if WellFormed(e, COMPARISON) && Flatten(e) == toks {
      LevelComplete(COMPARISON, e, toks, 0, |toks|);
    }
  }

  /** The grammar is unambiguous: no token list has two trees. */
  lemma GrammarIsUnambiguous(d: Expr, e: Expr)
    requires WellFormed(d, COMPARISON) && WellFormed(e, COMPARISON) && Flatten(d) == Flatten(e)
    ensures d == e
  {
    ParsesExactlyTheGrammar(Flatten(d), d);
    ParsesExactlyTheGrammar(Flatten(d), e);
  }
}
