/**
 The numbers a formula computes with: exact reals, the two infinities and NaN, under
 the special-case rules of IEEE arithmetic. Rounding and signed zero are not modelled.
 */
module FormulaNumbers {

  datatype Num = Fin(value: real) | PosInf | NegInf | NaN

  function Sign(a: Num): int {
    match a
    case Fin(x) => if x > 0.0 then 1 else if x < 0.0 then -1 else 0
    case PosInf => 1
    case NegInf => -1
    case NaN => 0
  }

  function Infinity(sign: int): Num {
    if sign > 0 then PosInf else if sign < 0 then NegInf else NaN
  }

  function Negate(a: Num): Num {
    match a
    case Fin(x) => Fin(-x)
    case PosInf => NegInf
    case NegInf => PosInf
    case NaN => NaN
  }

  function Plus(a: Num, b: Num): Num {
    match (a, b)
    case (Fin(x), Fin(y)) => Fin(x + y)
    case (NaN, _) => NaN
    case (_, NaN) => NaN
    case (Fin(_), _) => b
    case (_, Fin(_)) => a
    case (_, _) => if a == b then a else NaN
  }

  function Minus(a: Num, b: Num): Num {
    Plus(a, Negate(b))
  }

  function Times(a: Num, b: Num): Num {
    match (a, b)
    case (Fin(x), Fin(y)) => Fin(x * y)
    case (NaN, _) => NaN
    case (_, NaN) => NaN
    case (_, _) => Infinity(Sign(a) * Sign(b))
  }

  /** Division by anything but zero; the evaluator rejects a zero divisor first. */
  function Divide(a: Num, b: Num): Num
    requires b != Fin(0.0)
  {
    match (a, b)
    case (Fin(x), Fin(y)) => Fin(x / y)
    case (NaN, _) => NaN
    case (_, NaN) => NaN
    case (Fin(_), _) => Fin(0.0)
    case (_, Fin(_)) => Infinity(Sign(a) * Sign(b))
    case (_, _) => NaN
  }

  predicate Less(a: Num, b: Num) {
    match (a, b)
    case (Fin(x), Fin(y)) => x < y
    case (NaN, _) => false
    case (_, NaN) => false
    case (_, _) => a != b && (a == NegInf || b == PosInf)
  }

  /** Strict equality: NaN equals nothing, itself included. */
  predicate Same(a: Num, b: Num) {
    a != NaN && a == b
  }

  function Truth(b: bool): Num {
    Fin(if b then 1.0 else 0.0)
  }

  /** The smallest argument; infinity for none, NaN when one of them is NaN. */
  function Min(args: seq<Num>): Num {
    if args == [] then PosInf
    else
      var rest := Min(args[1..]);
      if args[0] == NaN || rest == NaN then NaN
      else if Less(rest, args[0]) then rest else args[0]
  }

  function Max(args: seq<Num>): Num {
    if args == [] then NegInf
    else
      var rest := Max(args[1..]);
      if args[0] == NaN || rest == NaN then NaN
      else if Less(args[0], rest) then rest else args[0]
  }

  function SumFrom(acc: Num, args: seq<Num>): Num
    decreases args
  {
    if args == [] then acc else SumFrom(Plus(acc, args[0]), args[1..])
  }

  function Floor(a: Num): Num {
    if a.Fin? then Fin(a.value.Floor as real) else a
  }

  function Ceil(a: Num): Num {
    Negate(Floor(Negate(a)))
  }

  function Round(a: Num): Num {
    Floor(Plus(a, Fin(0.5)))
  }

  // ---- What the operations mean ----

  /**
   MIN and MAX are NaN when an argument is, plus and minus infinity for no arguments, and otherwise
   one of the arguments and a bound of them all.
   */
  lemma MinMaxAreExtremes(args: seq<Num>)
    ensures NaN in args ==> Min(args) == NaN && Max(args) == NaN
    ensures args == [] ==> Min(args) == PosInf && Max(args) == NegInf
    ensures args != [] && NaN !in args ==>
      && Min(args) in args && Max(args) in args
      && forall x :: x in args ==> !Less(x, Min(args)) && !Less(Max(args), x)
  {
    if NaN in args {
      MinMaxOfNaN(args);
    } else if args != [] {
      MinMaxOfNumbers(args);
    }
  }

  lemma {:induction false} MinMaxOfNumbers(args: seq<Num>)
    requires args != [] && NaN !in args
    ensures Min(args) in args && forall x :: x in args ==> !Less(x, Min(args))
    ensures Max(args) in args && forall x :: x in args ==> !Less(Max(args), x)
  {
    if |args| > 1 {
      assert args == [args[0]] + args[1..];
      MinMaxOfNumbers(args[1..]);
    } else {
      assert args[1..] == [];
    }
  }

  lemma {:induction false} MinMaxOfNaN(args: seq<Num>)
    requires NaN in args
    ensures Min(args) == NaN && Max(args) == NaN
  {
    if args[0] != NaN {
      assert args == [args[0]] + args[1..];
      MinMaxOfNaN(args[1..]);
    }
  }

  predicate IsInteger(a: Num) {
    a.Fin? && a.value == a.value.Floor as real
  }

  lemma WholeIsInteger(n: int)
    ensures IsInteger(Fin(n as real))
  {
  }

  /** FLOOR is the integer at or just below the argument. */
  lemma FloorBrackets(x: real)
    ensures var f := Floor(Fin(x)); IsInteger(f) && f.value <= x < f.value + 1.0
  {
    WholeIsInteger(x.Floor);
  }

  /** CEIL is the integer at or just above the argument. */
  lemma CeilBrackets(x: real)
    ensures var c := Ceil(Fin(x)); IsInteger(c) && c.value - 1.0 < x <= c.value
  {
    var n := (-x).Floor;
    assert n as real <= -x < n as real + 1.0;
    assert -(n as real) == (-n) as real;
    assert Ceil(Fin(x)) == Fin((-n) as real);
    WholeIsInteger(-n);
  }

  /** ROUND picks the nearest integer, the upper one on a tie. */
  lemma RoundIsNearest(x: real)
    ensures var r := Round(Fin(x)); IsInteger(r) && r.value - 0.5 <= x < r.value + 0.5
  {
    assert Plus(Fin(x), Fin(0.5)) == Fin(x + 0.5);
    FloorBrackets(x + 0.5);
  }

  /** The field laws of the finite numbers and the order they carry, which no two operations share. */
  lemma FiniteLaws(x: real, y: real, z: real)
    ensures Plus(Fin(x), Fin(y)) == Plus(Fin(y), Fin(x))
    ensures Plus(Fin(x), Fin(0.0)) == Fin(x)
    ensures Minus(Plus(Fin(x), Fin(y)), Fin(y)) == Fin(x)
    ensures Times(Fin(x), Fin(y)) == Times(Fin(y), Fin(x))
    ensures Times(Fin(x), Plus(Fin(y), Fin(z))) == Plus(Times(Fin(x), Fin(y)), Times(Fin(x), Fin(z)))
    ensures y != 0.0 ==> Times(Divide(Fin(x), Fin(y)), Fin(y)) == Fin(x)
    ensures Less(Fin(x), Plus(Fin(x), Fin(1.0)))
    ensures Less(Fin(x), Fin(y)) ==> !Same(Fin(x), Fin(y)) && !Less(Fin(y), Fin(x))
    ensures Less(Fin(x), Fin(y)) || Less(Fin(y), Fin(x)) || Same(Fin(x), Fin(y))
  {
  }
}
