/**
 What each operator, function name and construct of a formula denotes, for all values: on finite
 numbers, on the infinities and on NaN.
 */
module FormulaOperations {
  import opened Outcomes
  import JsText
  import opened FormulaNumbers
  import opened FormulaLexer
  import opened FormulaGrammar
  import opened FormulaEvaluator

  // ---- Operators beyond the finite numbers ----

  /** Sums and differences with infinities: opposite ones have no sum, NaN absorbs everything. */
  lemma SumsOfInfinities(x: real, a: Num)
    ensures ApplyOperator("+", PosInf, Fin(x)) == ApplyOperator("+", Fin(x), PosInf) == ApplyOperator("+", PosInf, PosInf) == Ok(PosInf)
    ensures ApplyOperator("+", NegInf, Fin(x)) == ApplyOperator("+", Fin(x), NegInf) == ApplyOperator("+", NegInf, NegInf) == Ok(NegInf)
    ensures ApplyOperator("+", PosInf, NegInf) == ApplyOperator("+", NegInf, PosInf) == Ok(NaN)
    ensures ApplyOperator("-", PosInf, Fin(x)) == ApplyOperator("-", Fin(x), NegInf) == ApplyOperator("-", PosInf, NegInf) == Ok(PosInf)
    ensures ApplyOperator("-", NegInf, Fin(x)) == ApplyOperator("-", Fin(x), PosInf) == ApplyOperator("-", NegInf, PosInf) == Ok(NegInf)
    ensures ApplyOperator("-", PosInf, PosInf) == ApplyOperator("-", NegInf, NegInf) == Ok(NaN)
    ensures ApplyOperator("+", NaN, a) == ApplyOperator("+", a, NaN) == ApplyOperator("-", NaN, a) == ApplyOperator("-", a, NaN) == Ok(NaN)
  {
  }

  /** Products with infinities follow the signs; an infinity times zero is NaN. */
  lemma ProductsOfInfinities(x: real, a: Num)
    ensures ApplyOperator("*", PosInf, Fin(x)) == ApplyOperator("*", Fin(x), PosInf)
         == Ok(if x > 0.0 then PosInf else if x < 0.0 then NegInf else NaN)
    ensures ApplyOperator("*", NegInf, Fin(x)) == ApplyOperator("*", Fin(x), NegInf)
         == Ok(if x > 0.0 then NegInf else if x < 0.0 then PosInf else NaN)
    ensures ApplyOperator("*", PosInf, PosInf) == ApplyOperator("*", NegInf, NegInf) == Ok(PosInf)
    ensures ApplyOperator("*", PosInf, NegInf) == ApplyOperator("*", NegInf, PosInf) == Ok(NegInf)
    ensures ApplyOperator("*", NaN, a) == ApplyOperator("*", a, NaN) == Ok(NaN)
  {
  }

  /** Quotients with infinities; the only failure is the divisor zero. */
  lemma QuotientsOfInfinities(x: real, a: Num)
    ensures ApplyOperator("/", Fin(x), PosInf) == ApplyOperator("/", Fin(x), NegInf) == Ok(Fin(0.0))
    ensures x != 0.0 ==> ApplyOperator("/", PosInf, Fin(x)) == Ok(if x > 0.0 then PosInf else NegInf)
    ensures x != 0.0 ==> ApplyOperator("/", NegInf, Fin(x)) == Ok(if x > 0.0 then NegInf else PosInf)
    ensures ApplyOperator("/", PosInf, PosInf) == ApplyOperator("/", PosInf, NegInf) == Ok(NaN)
    ensures ApplyOperator("/", NegInf, PosInf) == ApplyOperator("/", NegInf, NegInf) == Ok(NaN)
    ensures ApplyOperator("/", a, NaN) == Ok(NaN)
    ensures a != Fin(0.0) ==> ApplyOperator("/", NaN, a) == Ok(NaN)
    ensures ApplyOperator("/", a, Fin(0.0)) == Err(DivideByZero)
  {
  }

  /** NaN is on no side of any number, and equals none; the infinities lie around all others. */
  lemma OrderOfInfinities(x: real, a: Num)
    ensures Less(NegInf, Fin(x)) && Less(Fin(x), PosInf) && Less(NegInf, PosInf)
    ensures !Less(Fin(x), NegInf) && !Less(PosInf, Fin(x)) && !Less(PosInf, NegInf) && !Less(PosInf, PosInf) && !Less(NegInf, NegInf)
    ensures !Less(NaN, a) && !Less(a, NaN) && !Same(NaN, a) && !Same(a, NaN) && (a != NaN ==> Same(a, a))
    ensures !Same(Fin(x), PosInf) && !Same(Fin(x), NegInf) && !Same(PosInf, NegInf)
  {
  }

  /** Comparisons of any two values, by the order and equality of numbers. */
  lemma ComparisonsOfAll(a: Num, b: Num)
    ensures ApplyOperator("<", a, b) == ApplyOperator(">", b, a) == Ok(Fin(if Less(a, b) then 1.0 else 0.0))
    ensures ApplyOperator("<=", a, b) == ApplyOperator(">=", b, a) == Ok(Fin(if Less(a, b) || Same(a, b) then 1.0 else 0.0))
    ensures ApplyOperator("=", a, b) == ApplyOperator("==", a, b) == Ok(Fin(if Same(a, b) then 1.0 else 0.0))
    ensures ApplyOperator("!=", a, b) == Ok(Fin(if Same(a, b) then 0.0 else 1.0))
  {
  }

  // ---- Variables, negation and IF ----

  /** A name that is no word of the language takes its value from the map: numbers as they are, flags as 1 and 0. */
  lemma VariableValue(name: string, vars: Variables)
    requires JsText.Upper(name) !in ["IF", "THEN", "ELSE", "MIN", "MAX", "ROUND", "CEIL", "FLOOR", "SUM", "AVG"]
    ensures Value(Var(name), vars) ==
      if name !in vars then Err(MissingVariable(name))
      else match vars[name]
        case Absent => Err(MissingVariable(name))
        case Flag(on) => Ok(Fin(if on then 1.0 else 0.0))
        case Text(NaN) => Err(NotNumeric(name))
        case Text(n) => Ok(n)
        case Amount(n) => Ok(n)
  {
  }

  /** A word of the language in the place of a value is NaN, whatever the map holds. */
  lemma WordValue(name: string, vars: Variables)
    requires JsText.Upper(name) in ["IF", "THEN", "ELSE", "MIN", "MAX", "ROUND", "CEIL", "FLOOR", "SUM", "AVG"]
    ensures Value(Var(name), vars) == Ok(NaN)
  {
  }

  lemma NegationValue(a: Expr, vars: Variables)
    ensures Value(a, vars).Err? ==> Value(Neg(a), vars) == Value(a, vars)
    ensures Value(a, vars).Ok? ==> Value(Neg(a), vars) == ApplyOperator("-", Fin(0.0), Value(a, vars).value)
  {
  }

  /** Both branches are evaluated; only the condition zero takes the second one, and NaN takes the first. */
  lemma ConditionalValue(i: string, c: Expr, t: string, a: Expr, f: string, b: Expr, vars: Variables)
    ensures var v := Value(If(i, c, t, a, f, b), vars);
            if Value(c, vars).Err? then v == Value(c, vars)
            else if Value(a, vars).Err? then v == Value(a, vars)
            else if Value(b, vars).Err? || Value(c, vars) == Ok(Fin(0.0)) then v == Value(b, vars)
            else v == Value(a, vars)
  {
  }

  // ---- Functions by their names ----

  /** The call's arguments have these values. */
  predicate HasValues(fn: string, word: string, args: seq<Expr>, vs: seq<Num>, vars: Variables) {
    JsText.Upper(fn) == word && Values(args, vars) == Ok(vs)
  }

  /** A call fails exactly with its first failing argument. */
  lemma CallFails(fn: string, args: seq<Expr>, vars: Variables)
    ensures Value(Call(fn, args), vars).Err? <==> Values(args, vars).Err?
    ensures Values(args, vars).Err? ==> Value(Call(fn, args), vars) == Err(Values(args, vars).error)
  {
  }

  /** NaN if an argument is; plus infinity for none; otherwise an argument that none is below. */
  lemma MinCall(fn: string, args: seq<Expr>, vs: seq<Num>, vars: Variables)
    requires HasValues(fn, "MIN", args, vs, vars)
    ensures Value(Call(fn, args), vars).Ok?
    ensures var r := Value(Call(fn, args), vars).value;
            if NaN in vs then r == NaN else if vs == [] then r == PosInf else r in vs && forall v :: v in vs ==> !Less(v, r)
  {
    MinMaxAreExtremes(vs);
  }

  /** NaN if an argument is; minus infinity for none; otherwise an argument that none is above. */
  lemma MaxCall(fn: string, args: seq<Expr>, vs: seq<Num>, vars: Variables)
    requires HasValues(fn, "MAX", args, vs, vars)
    ensures Value(Call(fn, args), vars).Ok?
    ensures var r := Value(Call(fn, args), vars).value;
            if NaN in vs then r == NaN else if vs == [] then r == NegInf else r in vs && forall v :: v in vs ==> !Less(r, v)
  {
    MinMaxAreExtremes(vs);
  }

  /** Rounding functions look at the first argument alone: 0 for none, itself if it is not finite. */
  predicate RoundsFirst(r: Num, vs: seq<Num>) {
    if vs == [] then r == Fin(0.0) else if vs[0].Fin? then IsInteger(r) else r == vs[0]
  }

  lemma RoundCall(fn: string, args: seq<Expr>, vs: seq<Num>, vars: Variables)
    requires HasValues(fn, "ROUND", args, vs, vars)
    ensures Value(Call(fn, args), vars).Ok?
    ensures var r := Value(Call(fn, args), vars).value;
            RoundsFirst(r, vs) && (vs != [] && vs[0].Fin? ==> r.value - 0.5 <= vs[0].value < r.value + 0.5)
  {
    RoundIsNearest(if vs == [] || !vs[0].Fin? then 0.0 else vs[0].value);
    assert vs == [] ==> Round(Fin(0.0)) == Fin(0.0);
  }

  lemma CeilCall(fn: string, args: seq<Expr>, vs: seq<Num>, vars: Variables)
    requires HasValues(fn, "CEIL", args, vs, vars)
    ensures Value(Call(fn, args), vars).Ok?
    ensures var r := Value(Call(fn, args), vars).value;
            RoundsFirst(r, vs) && (vs != [] && vs[0].Fin? ==> r.value - 1.0 < vs[0].value <= r.value)
  {
    CeilBrackets(if vs == [] || !vs[0].Fin? then 0.0 else vs[0].value);
    assert vs == [] ==> Ceil(Fin(0.0)) == Fin(0.0);
  }

  lemma FloorCall(fn: string, args: seq<Expr>, vs: seq<Num>, vars: Variables)
    requires HasValues(fn, "FLOOR", args, vs, vars)
    ensures Value(Call(fn, args), vars).Ok?
    ensures var r := Value(Call(fn, args), vars).value;
            RoundsFirst(r, vs) && (vs != [] && vs[0].Fin? ==> r.value <= vs[0].value < r.value + 1.0)
  {
    FloorBrackets(if vs == [] || !vs[0].Fin? then 0.0 else vs[0].value);
  }

  predicate AllFinite(vs: seq<Num>) {
    forall k :: 0 <= k < |vs| ==> vs[k].Fin?
  }

  function RealSum(vs: seq<Num>): real
    requires AllFinite(vs)
  {
    if vs == [] then 0.0 else vs[0].value + RealSum(vs[1..])
  }

  /** The sum of any values: their real sum if all are finite, and otherwise the one infinity among them, if it is the only one. */
  predicate IsSumOf(r: Num, vs: seq<Num>) {
    if AllFinite(vs) then r == Fin(RealSum(vs))
    else if NaN in vs || (PosInf in vs && NegInf in vs) then r == NaN
    else r == (if PosInf in vs then PosInf else NegInf)
  }

  lemma {:induction false} SumFromFinite(acc: real, vs: seq<Num>)
    requires AllFinite(vs)
    ensures SumFrom(Fin(acc), vs) == Fin(acc + RealSum(vs))
    decreases vs
  {
    if vs != [] {
      SumFromFinite(acc + vs[0].value, vs[1..]);
    }
  }

  /** What an accumulated value does to the sum of the rest. */
  lemma {:induction false} SumFromAny(acc: Num, vs: seq<Num>)
    ensures acc == NaN || NaN in vs ==> SumFrom(acc, vs) == NaN
    ensures acc == PosInf && NaN !in vs ==> SumFrom(acc, vs) == (if NegInf in vs then NaN else PosInf)
    ensures acc == NegInf && NaN !in vs ==> SumFrom(acc, vs) == (if PosInf in vs then NaN else NegInf)
    ensures acc.Fin? && NaN !in vs && !AllFinite(vs) ==>
      SumFrom(acc, vs) == (if NegInf !in vs then PosInf else if PosInf !in vs then NegInf else NaN)
    decreases vs
  {
    if vs != [] {
      assert vs == [vs[0]] + vs[1..];
      SumFromAny(Plus(acc, vs[0]), vs[1..]);
    }
  }

  lemma NotFiniteHolds(vs: seq<Num>)
    ensures !AllFinite(vs) <==> NaN in vs || PosInf in vs || NegInf in vs
  {
  }

  lemma SumCall(fn: string, args: seq<Expr>, vs: seq<Num>, vars: Variables)
    requires HasValues(fn, "SUM", args, vs, vars)
    ensures Value(Call(fn, args), vars).Ok? && IsSumOf(Value(Call(fn, args), vars).value, vs)
  {
    NotFiniteHolds(vs);
    if AllFinite(vs) { SumFromFinite(0.0, vs); } else { SumFromAny(Fin(0.0), vs); }
  }

  /** The mean: 0 for no values; times their number it is the sum; infinite and NaN as the sum is. */
  predicate IsMeanOf(r: Num, vs: seq<Num>) {
    if vs == [] then r == Fin(0.0)
    else if AllFinite(vs) then r.Fin? && r.value * |vs| as real == RealSum(vs)
    else IsSumOf(r, vs)
  }

  lemma AvgCall(fn: string, args: seq<Expr>, vs: seq<Num>, vars: Variables)
    requires HasValues(fn, "AVG", args, vs, vars)
    ensures Value(Call(fn, args), vars).Ok? && IsMeanOf(Value(Call(fn, args), vars).value, vs)
  {
    AvgIsQuotient(fn, args, vs, vars);
    if vs != [] { QuotientIsMean(vs); }
  }

  lemma QuotientIsMean(vs: seq<Num>)
    requires vs != []
    ensures IsMeanOf(Divide(SumFrom(Fin(0.0), vs), Fin(|vs| as real)), vs)
  {
    NotFiniteHolds(vs);
    if AllFinite(vs) {
      SumFromFinite(0.0, vs);
      QuotientTimes(RealSum(vs), |vs|);
    } else {
      SumFromAny(Fin(0.0), vs);
      InfinityDivided(SumFrom(Fin(0.0), vs), |vs|);
    }
  }

  lemma AvgIsQuotient(fn: string, args: seq<Expr>, vs: seq<Num>, vars: Variables)
    requires HasValues(fn, "AVG", args, vs, vars)
    ensures Value(Call(fn, args), vars) == Ok(if vs == [] then Fin(0.0) else Divide(SumFrom(Fin(0.0), vs), Fin(|vs| as real)))
  {
  }

  lemma QuotientTimes(x: real, n: nat)
    requires n > 0
    ensures Divide(Fin(x), Fin(n as real)).Fin? && Divide(Fin(x), Fin(n as real)).value * n as real == x
  {
  }

  lemma InfinityDivided(a: Num, n: nat)
    requires n > 0 && !a.Fin?
    ensures Divide(a, Fin(n as real)) == a
  {
  }
}
