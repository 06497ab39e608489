/**
 How far a run of the evaluator sees: what it decides within the first tokens does not depend on
 the rest, and it cannot get past a variable that the map does not give.
 */
module FormulaLocality {
  import opened Outcomes
  import JsText
  import opened FormulaNumbers
  import opened FormulaLexer
  import opened FormulaGrammar
  import opened FormulaEvaluator

  // ---- A run sees no token behind the one after its end ----

  /** The run has stopped at a variable the map does not give. */
  predicate IsMissing<T>(r: Result<T, FormulaError>) {
    r.Err? && r.error.MissingVariable?
  }

  predicate EndsBefore<T>(r: Result<(T, nat), FormulaError>, n: nat) {
    r.Ok? && r.value.1 < n
  }

  /** A run r on the first n tokens and a run s on all: what either decides within the n is decided the same for both. */
  predicate Local<T(==)>(n: nat, r: Result<(T, nat), FormulaError>, s: Result<(T, nat), FormulaError>) {
    (EndsBefore(r, n) || EndsBefore(s, n) || IsMissing(r)) ==> r == s
  }

  lemma {:induction false} PrimaryIsLocal(toks: seq<Token>, n: nat, pos: nat, vars: Variables)
    requires pos <= n <= |toks|
    ensures Local(n, EvalPrimary(toks[..n], pos, vars), EvalPrimary(toks, pos, vars))
    decreases n - pos, 0
  {
    if pos < n {
      assert toks[..n][pos] == toks[pos];
      match toks[pos]
      case Ident(name) =>
        if JsText.Upper(name) == "IF" {
          IfIsLocal(toks, n, pos + 1, vars);
        } else if JsText.Upper(name) in FUNCTIONS {
          FunctionIsLocal(JsText.Upper(name), toks, n, pos + 1, vars);
        }
      case LParen => LevelIsLocal(COMPARISON, toks, n, pos + 1, vars);
      case Op(symbol) => if symbol == "-" { PrimaryIsLocal(toks, n, pos + 1, vars); }
      case _ =>
    }
  }

  lemma {:induction false} IfIsLocal(toks: seq<Token>, n: nat, pos: nat, vars: Variables)
    requires pos <= n <= |toks|
    ensures Local(n, EvalIf(toks[..n], pos, vars), EvalIf(toks, pos, vars))
    decreases n - pos, COMPARISON + 2
  {
    LevelIsLocal(COMPARISON, toks, n, pos, vars);
    var first := EvalLevel(COMPARISON, toks, pos, vars);
    if !EndsBefore(first, n) || !IsIdent(toks, first.value.1, "THEN") {
      IfEndsAtThen(toks, n, pos, vars);
    } else {
      BranchesAreLocal(toks, n, pos, first.value.0, first.value.1, vars);
    }
  }

  lemma {:induction false} BranchesAreLocal(toks: seq<Token>, n: nat, pos: nat, c: Num, p: nat, vars: Variables)
    requires pos <= p < n <= |toks| && ReadsAlike(toks, n, pos, c, p, vars) && IsIdent(toks, p, "THEN")
    ensures Local(n, EvalIf(toks[..n], pos, vars), EvalIf(toks, pos, vars))
    decreases n - pos, COMPARISON + 1
  {
    LevelIsLocal(COMPARISON, toks, n, p + 1, vars);
    var second := EvalLevel(COMPARISON, toks, p + 1, vars);
    if !EndsBefore(second, n) || !IsIdent(toks, second.value.1, "ELSE") {
      IfEndsAtElse(toks, n, pos, c, p, vars);
    } else {
      LevelIsLocal(COMPARISON, toks, n, second.value.1 + 1, vars);
      IfReadsElse(toks, n, pos, c, p, second.value.0, second.value.1, vars);
    }
  }

  /** An expression reads the same on the first n tokens as on all. */
  predicate ReadsAlike(toks: seq<Token>, n: nat, pos: nat, v: Num, p: nat, vars: Variables)
    requires pos <= n <= |toks|
  {
    EvalLevel(COMPARISON, toks[..n], pos, vars) == EvalLevel(COMPARISON, toks, pos, vars) == Ok((v, p))
  }

  lemma IfEndsAtThen(toks: seq<Token>, n: nat, pos: nat, vars: Variables)
    requires pos <= n <= |toks| && Local(n, EvalLevel(COMPARISON, toks[..n], pos, vars), EvalLevel(COMPARISON, toks, pos, vars))
    requires var c := EvalLevel(COMPARISON, toks, pos, vars); !EndsBefore(c, n) || !IsIdent(toks, c.value.1, "THEN")
    ensures Local(n, EvalIf(toks[..n], pos, vars), EvalIf(toks, pos, vars))
  {
  }

  lemma IfEndsAtElse(toks: seq<Token>, n: nat, pos: nat, c: Num, p: nat, vars: Variables)
    requires pos <= p < n <= |toks| && IsIdent(toks, p, "THEN")
    requires ReadsAlike(toks, n, pos, c, p, vars)
    requires Local(n, EvalLevel(COMPARISON, toks[..n], p + 1, vars), EvalLevel(COMPARISON, toks, p + 1, vars))
    requires var a := EvalLevel(COMPARISON, toks, p + 1, vars); !EndsBefore(a, n) || !IsIdent(toks, a.value.1, "ELSE")
    ensures Local(n, EvalIf(toks[..n], pos, vars), EvalIf(toks, pos, vars))
  {
  }

  lemma IfReadsElse(toks: seq<Token>, n: nat, pos: nat, c: Num, p: nat, a: Num, q: nat, vars: Variables)
    requires pos <= p < q < n <= |toks| && IsIdent(toks, p, "THEN") && IsIdent(toks, q, "ELSE")
    requires ReadsAlike(toks, n, pos, c, p, vars)
    requires ReadsAlike(toks, n, p + 1, a, q, vars)
    requires Local(n, EvalLevel(COMPARISON, toks[..n], q + 1, vars), EvalLevel(COMPARISON, toks, q + 1, vars))
    ensures Local(n, EvalIf(toks[..n], pos, vars), EvalIf(toks, pos, vars))
  {
  }

  /** At the end of the tokens there is nothing to read. */
  lemma {:induction false} NothingAtEnd(level: nat, toks: seq<Token>, vars: Variables)
    ensures EvalLevel(level, toks, |toks|, vars) == Err(ExpectedValue)
  {
    if level > 0 {
      NothingAtEnd(level - 1, toks, vars);
    }
  }

  lemma {:induction false} FunctionIsLocal(name: string, toks: seq<Token>, n: nat, pos: nat, vars: Variables)
    requires pos <= n <= |toks|
    ensures Local(n, EvalFunction(name, toks[..n], pos, vars), EvalFunction(name, toks, pos, vars))
    decreases n - pos, COMPARISON + 3
  {
    if pos < n && toks[pos] == LParen {
      ArgsAreLocal(toks, n, pos + 1, vars);
      if pos + 1 == n {
        NothingAtEnd(COMPARISON, toks[..n], vars);
      }
    }
  }

  lemma {:induction false} ArgsAreLocal(toks: seq<Token>, n: nat, pos: nat, vars: Variables)
    requires pos <= n <= |toks|
    ensures Local(n, EvalArgs(toks[..n], pos, vars), EvalArgs(toks, pos, vars))
    decreases n - pos, COMPARISON + 2
  {
    LevelIsLocal(COMPARISON, toks, n, pos, vars);
    var first := EvalLevel(COMPARISON, toks, pos, vars);
    if EndsBefore(first, n) && IsToken(toks, first.value.1, Comma) {
      ArgsAreLocal(toks, n, first.value.1 + 1, vars);
    }
  }

  lemma {:induction false} LevelIsLocal(level: nat, toks: seq<Token>, n: nat, pos: nat, vars: Variables)
    requires pos <= n <= |toks|
    ensures Local(n, EvalLevel(level, toks[..n], pos, vars), EvalLevel(level, toks, pos, vars))
    decreases n - pos, level + 1
  {
    if level == 0 {
      PrimaryIsLocal(toks, n, pos, vars);
    } else {
      LevelIsLocal(level - 1, toks, n, pos, vars);
      var first := EvalLevel(level - 1, toks, pos, vars);
      if EndsBefore(first, n) {
        ChainIsLocal(level, first.value.0, toks, n, first.value.1, vars);
      }
    }
  }

  lemma {:induction false} ChainIsLocal(level: nat, left: Num, toks: seq<Token>, n: nat, pos: nat, vars: Variables)
    requires level > 0 && pos < n <= |toks|
    ensures Local(n, EvalChain(level, left, toks[..n], pos, vars), EvalChain(level, left, toks, pos, vars))
    decreases n - pos, 0
  {
    assert LevelAt(toks[..n], pos) == LevelAt(toks, pos);
    if LevelAt(toks, pos) == level {
      LevelIsLocal(level - 1, toks, n, pos + 1, vars);
      var next := EvalLevel(level - 1, toks, pos + 1, vars);
      if EndsBefore(next, n) {
        var value := ApplyOperator(toks[pos].symbol, left, next.value.0);
        if value.Ok? {
          ChainIsLocal(level, value.value, toks, n, next.value.1, vars);
        }
        ChainReads(level, left, toks, n, pos, next.value.0, next.value.1, vars);
      } else {
        ChainLeaves(level, left, toks, n, pos, vars);
      }
    }
  }

  lemma ChainReads(level: nat, left: Num, toks: seq<Token>, n: nat, pos: nat, right: Num, p: nat, vars: Variables)
    requires level > 0 && pos < p < n <= |toks| && LevelAt(toks, pos) == LevelAt(toks[..n], pos) == level
    requires EvalLevel(level - 1, toks[..n], pos + 1, vars) == EvalLevel(level - 1, toks, pos + 1, vars) == Ok((right, p))
    requires var v := ApplyOperator(toks[pos].symbol, left, right);
             v.Ok? ==> Local(n, EvalChain(level, v.value, toks[..n], p, vars), EvalChain(level, v.value, toks, p, vars))
    ensures Local(n, EvalChain(level, left, toks[..n], pos, vars), EvalChain(level, left, toks, pos, vars))
  {
    ChainMoves(level, left, toks, pos, vars);
    ChainMoves(level, left, toks[..n], pos, vars);
  }

  lemma ChainLeaves(level: nat, left: Num, toks: seq<Token>, n: nat, pos: nat, vars: Variables)
    requires level > 0 && pos < n <= |toks| && LevelAt(toks, pos) == LevelAt(toks[..n], pos) == level
    requires Local(n, EvalLevel(level - 1, toks[..n], pos + 1, vars), EvalLevel(level - 1, toks, pos + 1, vars))
    requires !EndsBefore(EvalLevel(level - 1, toks, pos + 1, vars), n)
    ensures Local(n, EvalChain(level, left, toks[..n], pos, vars), EvalChain(level, left, toks, pos, vars))
  {
    OperatorsMissNone(toks[pos].symbol, left);
  }

  lemma OperatorsMissNone(symbol: string, a: Num)
    ensures forall b :: !IsMissing(ApplyOperator(symbol, a, b))
  {
  }

  // ---- A run does not get past a variable it cannot resolve ----

  /** The token names a variable the map does not give. */
  predicate Unresolved(t: Token, vars: Variables) {
    t.Ident? && ResolveVar(t.name, vars) == Err(MissingVariable(t.name))
  }

  predicate EndsBy<T>(r: Result<(T, nat), FormulaError>, j: nat) {
    r.Ok? ==> r.value.1 <= j
  }

  lemma {:induction false} PrimaryEndsBy(toks: seq<Token>, j: nat, pos: nat, vars: Variables)
    requires pos <= j < |toks| && Unresolved(toks[j], vars)
    ensures EndsBy(EvalPrimary(toks, pos, vars), j)
    decreases j - pos, 0
  {
    match toks[pos]
    case Ident(name) =>
      if pos < j {
        if JsText.Upper(name) == "IF" {
          IfEndsBy(toks, j, pos + 1, vars);
        } else if JsText.Upper(name) in FUNCTIONS {
          FunctionEndsBy(JsText.Upper(name), toks, j, pos + 1, vars);
        }
      }
    case LParen => LevelEndsBy(COMPARISON, toks, j, pos + 1, vars);
    case Op(symbol) => if symbol == "-" { PrimaryEndsBy(toks, j, pos + 1, vars); }
    case _ =>
  }

  lemma {:induction false} IfEndsBy(toks: seq<Token>, j: nat, pos: nat, vars: Variables)
    requires pos <= j < |toks| && Unresolved(toks[j], vars)
    ensures EndsBy(EvalIf(toks, pos, vars), j)
    decreases j - pos, COMPARISON + 2
  {
    LevelEndsBy(COMPARISON, toks, j, pos, vars);
    var c := EvalLevel(COMPARISON, toks, pos, vars);
    if c.Ok? && IsIdent(toks, c.value.1, "THEN") {
      LevelEndsBy(COMPARISON, toks, j, c.value.1 + 1, vars);
      var a := EvalLevel(COMPARISON, toks, c.value.1 + 1, vars);
      if a.Ok? && IsIdent(toks, a.value.1, "ELSE") {
        LevelEndsBy(COMPARISON, toks, j, a.value.1 + 1, vars);
      }
    }
  }

  lemma {:induction false} FunctionEndsBy(name: string, toks: seq<Token>, j: nat, pos: nat, vars: Variables)
    requires pos <= j < |toks| && Unresolved(toks[j], vars)
    ensures EndsBy(EvalFunction(name, toks, pos, vars), j)
    decreases j - pos, COMPARISON + 3
  {
    if IsToken(toks, pos, LParen) && !IsToken(toks, pos + 1, RParen) {
      ArgsEndBy(toks, j, pos + 1, vars);
    }
  }

  lemma {:induction false} ArgsEndBy(toks: seq<Token>, j: nat, pos: nat, vars: Variables)
    requires pos <= j < |toks| && Unresolved(toks[j], vars)
    ensures EndsBy(EvalArgs(toks, pos, vars), j)
    decreases j - pos, COMPARISON + 2
  {
    LevelEndsBy(COMPARISON, toks, j, pos, vars);
    var first := EvalLevel(COMPARISON, toks, pos, vars);
    if first.Ok? && IsToken(toks, first.value.1, Comma) {
      ArgsEndBy(toks, j, first.value.1 + 1, vars);
    }
  }

  lemma {:induction false} LevelEndsBy(level: nat, toks: seq<Token>, j: nat, pos: nat, vars: Variables)
    requires pos <= j < |toks| && Unresolved(toks[j], vars)
    ensures EndsBy(EvalLevel(level, toks, pos, vars), j)
    decreases j - pos, level + 1
  {
    if level == 0 {
      PrimaryEndsBy(toks, j, pos, vars);
    } else {
      LevelEndsBy(level - 1, toks, j, pos, vars);
      var first := EvalLevel(level - 1, toks, pos, vars);
      if first.Ok? {
        ChainEndsBy(level, first.value.0, toks, j, first.value.1, vars);
      }
    }
  }

  lemma {:induction false} ChainEndsBy(level: nat, left: Num, toks: seq<Token>, j: nat, pos: nat, vars: Variables)
    requires level > 0 && pos <= j < |toks| && Unresolved(toks[j], vars)
    ensures EndsBy(EvalChain(level, left, toks, pos, vars), j)
    decreases j - pos, 0
  {
    if LevelAt(toks, pos) == level {
      LevelEndsBy(level - 1, toks, j, pos + 1, vars);
      var next := EvalLevel(level - 1, toks, pos + 1, vars);
      if next.Ok? {
        ChainMoves(level, left, toks, pos, vars);
        var value := ApplyOperator(toks[pos].symbol, left, next.value.0);
        if value.Ok? {
          ChainEndsBy(level, value.value, toks, j, next.value.1, vars);
        }
      }
    }
  }

  // ---- A miss is decided by the tokens up to such a variable ----

  /** A run s on all tokens that misses a variable goes the same as the run r on the first of them. */
  predicate Kept<T(==)>(r: Result<T, FormulaError>, s: Result<T, FormulaError>) {
    IsMissing(s) ==> r == s
  }

  lemma {:induction false} PrimaryKeeps(toks: seq<Token>, j: nat, pos: nat, vars: Variables)
    requires pos <= j < |toks| && Unresolved(toks[j], vars)
    ensures Kept(EvalPrimary(toks[..j + 1], pos, vars), EvalPrimary(toks, pos, vars))
    decreases j - pos, 0
  {
    assert toks[..j + 1][pos] == toks[pos];
    match toks[pos]
    case Ident(name) =>
      if pos < j {
        if JsText.Upper(name) == "IF" {
          IfKeeps(toks, j, pos + 1, vars);
        } else if JsText.Upper(name) in FUNCTIONS {
          FunctionKeeps(JsText.Upper(name), toks, j, pos + 1, vars);
        }
      }
    case LParen => LevelKeeps(COMPARISON, toks, j, pos + 1, vars);
    case Op(symbol) => if symbol == "-" { PrimaryKeeps(toks, j, pos + 1, vars); }
    case _ =>
  }

  lemma {:induction false} IfKeeps(toks: seq<Token>, j: nat, pos: nat, vars: Variables)
    requires pos <= j < |toks| && Unresolved(toks[j], vars)
    ensures Kept(EvalIf(toks[..j + 1], pos, vars), EvalIf(toks, pos, vars))
    decreases j - pos, COMPARISON + 2
  {
    LevelKeeps(COMPARISON, toks, j, pos, vars);
    var first := EvalLevel(COMPARISON, toks, pos, vars);
    if first.Err? || !IsIdent(toks, first.value.1, "THEN") {
      IfKeptAtThen(toks, j + 1, pos, vars);
    } else {
      var c, p := LevelPasses(toks, j, pos, vars);
      BranchesKeep(toks, j, pos, c, p, vars);
    }
  }

  lemma {:induction false} BranchesKeep(toks: seq<Token>, j: nat, pos: nat, c: Num, p: nat, vars: Variables)
    requires pos <= p < j < |toks| && Unresolved(toks[j], vars) && IsIdent(toks, p, "THEN")
    requires ReadsAlike(toks, j + 1, pos, c, p, vars)
    ensures Kept(EvalIf(toks[..j + 1], pos, vars), EvalIf(toks, pos, vars))
    decreases j - pos, COMPARISON + 1
  {
    LevelKeeps(COMPARISON, toks, j, p + 1, vars);
    var second := EvalLevel(COMPARISON, toks, p + 1, vars);
    if second.Err? || !IsIdent(toks, second.value.1, "ELSE") {
      IfKeptAtElse(toks, j + 1, pos, c, p, vars);
    } else {
      var a, q := LevelPasses(toks, j, p + 1, vars);
      ElseKeeps(toks, j, pos, c, p, a, q, vars);
    }
  }

  lemma {:induction false} ElseKeeps(toks: seq<Token>, j: nat, pos: nat, c: Num, p: nat, a: Num, q: nat, vars: Variables)
    requires pos <= p < q < j < |toks| && Unresolved(toks[j], vars) && IsIdent(toks, p, "THEN") && IsIdent(toks, q, "ELSE")
    requires ReadsAlike(toks, j + 1, pos, c, p, vars) && ReadsAlike(toks, j + 1, p + 1, a, q, vars)
    ensures Kept(EvalIf(toks[..j + 1], pos, vars), EvalIf(toks, pos, vars))
    decreases j - pos, COMPARISON
  {
    LevelKeeps(COMPARISON, toks, j, q + 1, vars);
    IfKeptBehindElse(toks, j + 1, pos, c, p, a, q, vars);
  }

  /** What can be read, and is followed by a word, ends in front of the variable and reads the same without the rest. */
  lemma LevelPasses(toks: seq<Token>, j: nat, pos: nat, vars: Variables) returns (v: Num, p: nat)
    requires pos <= j < |toks| && Unresolved(toks[j], vars) && EvalLevel(COMPARISON, toks, pos, vars).Ok?
    requires var p := EvalLevel(COMPARISON, toks, pos, vars).value.1; IsIdent(toks, p, "THEN") || IsIdent(toks, p, "ELSE")
    ensures pos < p < j
    ensures ReadsAlike(toks, j + 1, pos, v, p, vars)
  {
    LevelEndsBy(COMPARISON, toks, j, pos, vars);
    LevelIsLocal(COMPARISON, toks, j + 1, pos, vars);
    var r := EvalLevel(COMPARISON, toks, pos, vars).value;
    v, p := r.0, r.1;
  }

  lemma IfKeptAtThen(toks: seq<Token>, n: nat, pos: nat, vars: Variables)
    requires pos <= n <= |toks| && Kept(EvalLevel(COMPARISON, toks[..n], pos, vars), EvalLevel(COMPARISON, toks, pos, vars))
    requires var c := EvalLevel(COMPARISON, toks, pos, vars); c.Ok? ==> !IsIdent(toks, c.value.1, "THEN")
    ensures Kept(EvalIf(toks[..n], pos, vars), EvalIf(toks, pos, vars))
  {
  }

  lemma IfKeptAtElse(toks: seq<Token>, n: nat, pos: nat, c: Num, p: nat, vars: Variables)
    requires pos <= p < n <= |toks| && IsIdent(toks, p, "THEN")
    requires ReadsAlike(toks, n, pos, c, p, vars)
    requires Kept(EvalLevel(COMPARISON, toks[..n], p + 1, vars), EvalLevel(COMPARISON, toks, p + 1, vars))
    requires var a := EvalLevel(COMPARISON, toks, p + 1, vars); a.Ok? ==> !IsIdent(toks, a.value.1, "ELSE")
    ensures Kept(EvalIf(toks[..n], pos, vars), EvalIf(toks, pos, vars))
  {
  }

  lemma IfKeptBehindElse(toks: seq<Token>, n: nat, pos: nat, c: Num, p: nat, a: Num, q: nat, vars: Variables)
    requires pos <= p < q < n <= |toks| && IsIdent(toks, p, "THEN") && IsIdent(toks, q, "ELSE")
    requires ReadsAlike(toks, n, pos, c, p, vars)
    requires ReadsAlike(toks, n, p + 1, a, q, vars)
    requires Kept(EvalLevel(COMPARISON, toks[..n], q + 1, vars), EvalLevel(COMPARISON, toks, q + 1, vars))
    ensures Kept(EvalIf(toks[..n], pos, vars), EvalIf(toks, pos, vars))
  {
  }

  lemma {:induction false} FunctionKeeps(name: string, toks: seq<Token>, j: nat, pos: nat, vars: Variables)
    requires pos <= j < |toks| && Unresolved(toks[j], vars)
    ensures Kept(EvalFunction(name, toks[..j + 1], pos, vars), EvalFunction(name, toks, pos, vars))
    decreases j - pos, COMPARISON + 3
  {
    if toks[pos] == LParen {
      ArgsKeep(toks, j, pos + 1, vars);
    }
  }

  lemma {:induction false} ArgsKeep(toks: seq<Token>, j: nat, pos: nat, vars: Variables)
    requires pos <= j < |toks| && Unresolved(toks[j], vars)
    ensures Kept(EvalArgs(toks[..j + 1], pos, vars), EvalArgs(toks, pos, vars))
    decreases j - pos, COMPARISON + 2
  {
    LevelEndsBy(COMPARISON, toks, j, pos, vars);
    LevelIsLocal(COMPARISON, toks, j + 1, pos, vars);
    LevelKeeps(COMPARISON, toks, j, pos, vars);
    var first := EvalLevel(COMPARISON, toks, pos, vars);
    if first.Ok? && IsToken(toks, first.value.1, Comma) {
      ArgsKeep(toks, j, first.value.1 + 1, vars);
    }
  }

  lemma {:induction false} LevelKeeps(level: nat, toks: seq<Token>, j: nat, pos: nat, vars: Variables)
    requires pos <= j < |toks| && Unresolved(toks[j], vars)
    ensures Kept(EvalLevel(level, toks[..j + 1], pos, vars), EvalLevel(level, toks, pos, vars))
    decreases j - pos, level + 1
  {
    if level == 0 {
      PrimaryKeeps(toks, j, pos, vars);
    } else {
      LevelEndsBy(level - 1, toks, j, pos, vars);
      LevelIsLocal(level - 1, toks, j + 1, pos, vars);
      LevelKeeps(level - 1, toks, j, pos, vars);
      var first := EvalLevel(level - 1, toks, pos, vars);
      if first.Ok? {
        ChainKeeps(level, first.value.0, toks, j, first.value.1, vars);
      }
    }
  }

  lemma {:induction false} ChainKeeps(level: nat, left: Num, toks: seq<Token>, j: nat, pos: nat, vars: Variables)
    requires level > 0 && pos <= j < |toks| && Unresolved(toks[j], vars)
    ensures Kept(EvalChain(level, left, toks[..j + 1], pos, vars), EvalChain(level, left, toks, pos, vars))
    decreases j - pos, 1
  {
    assert LevelAt(toks[..j + 1], pos) == LevelAt(toks, pos);
    if LevelAt(toks, pos) == level {
      LevelKeeps(level - 1, toks, j, pos + 1, vars);
      var next := EvalLevel(level - 1, toks, pos + 1, vars);
      if next.Ok? {
        OperandPasses(level - 1, toks, j, pos + 1, vars);
        RestKeeps(level, left, toks, j, pos, next.value.0, next.value.1, vars);
      }
    }
  }

  lemma {:induction false} RestKeeps(level: nat, left: Num, toks: seq<Token>, j: nat, pos: nat, right: Num, p: nat, vars: Variables)
    requires level > 0 && pos < p <= j < |toks| && Unresolved(toks[j], vars)
    requires LevelAt(toks, pos) == LevelAt(toks[..j + 1], pos) == level
    requires EvalLevel(level - 1, toks[..j + 1], pos + 1, vars) == EvalLevel(level - 1, toks, pos + 1, vars) == Ok((right, p))
    ensures Kept(EvalChain(level, left, toks[..j + 1], pos, vars), EvalChain(level, left, toks, pos, vars))
    decreases j - pos, 0
  {
    var value := ApplyOperator(toks[pos].symbol, left, right);
    if value.Ok? {
      ChainKeeps(level, value.value, toks, j, p, vars);
    }
    ChainKeptReading(level, left, toks, j + 1, pos, right, p, vars);
  }

  lemma OperandPasses(level: nat, toks: seq<Token>, j: nat, pos: nat, vars: Variables)
    requires pos <= j < |toks| && Unresolved(toks[j], vars) && EvalLevel(level, toks, pos, vars).Ok?
    ensures EvalLevel(level, toks, pos, vars).value.1 <= j
    ensures EvalLevel(level, toks[..j + 1], pos, vars) == EvalLevel(level, toks, pos, vars)
  {
    LevelEndsBy(level, toks, j, pos, vars);
    LevelIsLocal(level, toks, j + 1, pos, vars);
  }

  lemma ChainKeptReading(level: nat, left: Num, toks: seq<Token>, n: nat, pos: nat, right: Num, p: nat, vars: Variables)
    requires level > 0 && pos < p < n <= |toks| && LevelAt(toks, pos) == LevelAt(toks[..n], pos) == level
    requires EvalLevel(level - 1, toks[..n], pos + 1, vars) == EvalLevel(level - 1, toks, pos + 1, vars) == Ok((right, p))
    requires var v := ApplyOperator(toks[pos].symbol, left, right);
             v.Ok? ==> Kept(EvalChain(level, v.value, toks[..n], p, vars), EvalChain(level, v.value, toks, p, vars))
    ensures Kept(EvalChain(level, left, toks[..n], pos, vars), EvalChain(level, left, toks, pos, vars))
  {
    ChainMoves(level, left, toks, pos, vars);
    ChainMoves(level, left, toks[..n], pos, vars);
    OperatorsMissNone(toks[pos].symbol, left);
  }
}
