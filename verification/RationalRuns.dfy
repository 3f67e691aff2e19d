/** Whole runs of operations on one fraction object, against arithmetic that never reduces. */
module RationalRuns {
  import opened NumberTheory
  import opened RationalLaws
  import opened RationalValues
  import opened Rationals

  datatype Kind = Add | Subtract | Multiply | Divide

  /** The right-hand side: an integer, another fraction (built by the two-argument
      constructor), or the object itself. */
  datatype Operand = Whole(i: int) | Built(n: int, d: int) | Itself

  datatype Op = Assigned(kind: Kind, arg: Operand) | PlusPlus | MinusMinus

  function OperandValue(x: Ratio, arg: Operand): Ratio {
    match arg
    case Whole(i) => Ratio(i, 1)
    case Built(n, d) => Ratio(n, d)
    case Itself => x
  }

  /** The operations that throw: a zero denominator, a division by zero. */
  predicate Refuses(x: Ratio, op: Op) {
    op.Assigned? &&
    var y := OperandValue(x, op.arg);
    y.d == 0 || (op.kind == Divide && y.n == 0)
  }

  function Combined(kind: Kind, x: Ratio, y: Ratio): Ratio {
    match kind
    case Add => Plus(x, y)
    case Subtract => Minus(x, y)
    case Multiply => Product(x, y)
    case Divide => Fraction(x, y)
  }

  /** One operation on an unreduced fraction. */
  function Exact(x: Ratio, op: Op): Ratio {
    if Refuses(x, op) then x
    else
      match op
      case PlusPlus => Plus(x, Ratio(1, 1))
      case MinusMinus => Minus(x, Ratio(1, 1))
      case Assigned(kind, arg) => Combined(kind, x, OperandValue(x, arg))
  }

  function ExactRun(x: Ratio, ops: seq<Op>): Ratio {
    if ops == [] then x else Exact(ExactRun(x, ops[..|ops| - 1]), ops[|ops| - 1])
  }

  lemma ExactDefined(x: Ratio, op: Op)
    requires x.d != 0
    ensures Exact(x, op).d != 0
  {
    if op.Assigned? && !Refuses(x, op) {
      var y := OperandValue(x, op.arg);
      ZeroProduct(x.d, y.d);
      if op.kind == Divide {
        ZeroProduct(x.d, y.n);
      }
    }
  }

  /** The four operations on values, the last one told by the product with the divisor. */
  lemma CombinedReal(x: Ratio, y: Ratio)
    requires x.d != 0 && y.d != 0
    ensures Combined(Add, x, y).d != 0 && RealOf(Combined(Add, x, y)) == RealOf(x) + RealOf(y)
    ensures Combined(Subtract, x, y).d != 0 && RealOf(Combined(Subtract, x, y)) == RealOf(x) - RealOf(y)
    ensures Combined(Multiply, x, y).d != 0 && RealOf(Combined(Multiply, x, y)) == RealOf(x) * RealOf(y)
    ensures y.n != 0 ==> RealOf(y) != 0.0 && Combined(Divide, x, y).d != 0
                         && RealOf(Combined(Divide, x, y)) * RealOf(y) == RealOf(x)
  {
    SumsReal(x, y);
    ProductReal(x, y);
    if y.n != 0 {
      FractionReal(x, y);
    }
  }

  /** The number on the right of an operation. */
  lemma OperandReal(x: Ratio, arg: Operand)
    requires x.d != 0
    ensures arg.Whole? ==> OperandValue(x, arg).d != 0 && RealOf(OperandValue(x, arg)) == arg.i as real
    ensures arg.Built? && arg.d != 0 ==>
              OperandValue(x, arg).d != 0 && RealOf(OperandValue(x, arg)) == arg.n as real / arg.d as real
    ensures arg.Built? && arg.d == 0 ==> OperandValue(x, arg).d == 0
    ensures arg.Itself? ==> OperandValue(x, arg) == x
  {
  }

  /** An operation throws for a zero denominator and a division by zero only, and then
      nothing has changed. */
  lemma RefusesExactly(x: Ratio, op: Op)
    requires x.d != 0
    ensures (op.PlusPlus? || op.MinusMinus?) ==> !Refuses(x, op)
    ensures op.Assigned? ==>
              var y := OperandValue(x, op.arg);
              Refuses(x, op) <==> y.d == 0 || (op.kind == Divide && RealOf(y) == 0.0)
    ensures Refuses(x, op) ==> Exact(x, op) == x
  {
    if op.Assigned? && OperandValue(x, op.arg).d != 0 {
      NonZeroValue(OperandValue(x, op.arg));
    }
  }

  /** What an operation that does not throw does to the number held. */
  lemma ExactReal(x: Ratio, op: Op)
    requires x.d != 0 && !Refuses(x, op)
    ensures Exact(x, op).d != 0
    ensures op.PlusPlus? ==> RealOf(Exact(x, op)) == RealOf(x) + 1.0
    ensures op.MinusMinus? ==> RealOf(Exact(x, op)) == RealOf(x) - 1.0
    ensures op.Assigned? && op.kind.Add? ==>
              RealOf(Exact(x, op)) == RealOf(x) + RealOf(OperandValue(x, op.arg))
    ensures op.Assigned? && op.kind.Subtract? ==>
              RealOf(Exact(x, op)) == RealOf(x) - RealOf(OperandValue(x, op.arg))
    ensures op.Assigned? && op.kind.Multiply? ==>
              RealOf(Exact(x, op)) == RealOf(x) * RealOf(OperandValue(x, op.arg))
    ensures op.Assigned? && op.kind.Divide? ==>
              RealOf(OperandValue(x, op.arg)) != 0.0
              && RealOf(Exact(x, op)) * RealOf(OperandValue(x, op.arg)) == RealOf(x)
  {
    match op
    case PlusPlus => SumsReal(x, Ratio(1, 1));
    case MinusMinus => SumsReal(x, Ratio(1, 1));
    case Assigned(kind, arg) =>
      CombinedReal(x, OperandValue(x, arg));
      assert Exact(x, op) == Combined(kind, x, OperandValue(x, arg));
  }

  lemma OperandSum(n: int, d: int, c: int, e: int, c': int, e': int)
    requires c * e' == c' * e
    ensures (n * e + c * d) * (d * e') == (n * e' + c' * d) * (d * e)
  {
    assert (n * e + c * d) * (d * e') == n * e * d * e' + (c * e') * (d * d);
    assert (n * e' + c' * d) * (d * e) == n * e' * d * e + (c' * e) * (d * d);
  }

  lemma OperandProduct(n: int, d: int, c: int, e: int, c': int, e': int)
    requires c * e' == c' * e
    ensures (n * c) * (d * e') == (n * c') * (d * e)
  {
    assert (n * c) * (d * e') == (n * d) * (c * e');
    assert (n * c') * (d * e) == (n * d) * (c' * e);
  }

  /** Equal operands give equal results. */
  lemma OperandCongruent(x: Ratio, y: Ratio, y': Ratio)
    requires SameValue(y, y')
    ensures SameValue(Plus(x, y), Plus(x, y')) && SameValue(Minus(x, y), Minus(x, y'))
    ensures SameValue(Product(x, y), Product(x, y')) && SameValue(Fraction(x, y), Fraction(x, y'))
  {
    OperandSum(x.n, x.d, y.n, y.d, y'.n, y'.d);
    OperandSum(x.n, x.d, -y.n, y.d, -y'.n, y'.d);
    OperandProduct(x.n, x.d, y.n, y.d, y'.n, y'.d);
    OperandProduct(x.n, x.d, y.d, y.n, y'.d, y'.n);
  }

  /** The same operation on equal values is refused alike and gives equal values. */
  lemma ExactCongruent(x: Ratio, x': Ratio, op: Op)
    requires x.d != 0 && x'.d != 0 && SameValue(x, x')
    ensures Refuses(x, op) <==> Refuses(x', op)
    ensures SameValue(Exact(x, op), Exact(x', op))
  {
    var one := Ratio(1, 1);
    SumCongruent(x, x', one);
    if op.Assigned? {
      var y, y' := OperandValue(x, op.arg), OperandValue(x', op.arg);
      assert y.n == 0 <==> y'.n == 0 by { if op.arg.Itself? { ZeroNumerators(x, x'); } }
      SumCongruent(x, x', y);
      ProductCongruent(x, x', y);
      OperandCongruent(x', y, y');
      if !Refuses(x, op) {
        ZeroProduct(x'.d, y.d);
        if op.kind == Divide {
          ZeroProduct(x'.d, y.n);
        }
        var mid := Exact(x', if op.arg.Itself? then Assigned(op.kind, Built(y.n, y.d)) else op);
        SameValueTransitive(Exact(x, op), mid, Exact(x', op));
      }
    }
  }

  lemma ZeroNumerators(x: Ratio, x': Ratio)
    requires x.d != 0 && x'.d != 0 && SameValue(x, x')
    ensures x.n == 0 <==> x'.n == 0
  {
    if x.n == 0 {
      CancelFactor(x'.n, 0, x.d);
    }
    if x'.n == 0 {
      CancelFactor(x.n, 0, x'.d);
    }
  }

  lemma SameValueTransitive(x: Ratio, y: Ratio, z: Ratio)
    requires y.d != 0 && SameValue(x, y) && SameValue(y, z)
    ensures SameValue(x, z)
  {
    assert (x.n * z.d) * y.d == (x.n * y.d) * z.d == (y.n * x.d) * z.d
      == (y.n * z.d) * x.d == (z.n * y.d) * x.d == (z.n * x.d) * y.d;
    CancelFactor(x.n * z.d, z.n * x.d, y.d);
  }

  /** One operation on the object. */
  method Apply(r: Rational, op: Op) returns (outcome: Outcome)
    requires r.Valid()
    modifies r
    ensures r.Valid()
    ensures outcome == BadRational <==> Refuses(old(r.Value()), op)
    ensures r.Equals(Exact(old(r.Value()), op))
  {
    outcome := Done;
    match op
    case PlusPlus => r.Increment();
    case MinusMinus => r.Decrement();
    case Assigned(kind, Whole(i)) => outcome := ApplyWhole(r, kind, i);
    case Assigned(kind, Itself) => outcome := ApplyRational(r, kind, r);
    case Assigned(kind, Built(n, d)) =>
      ghost var x := r.Value();
      var s := Rational.Create(n, d);
      if s == null { return BadRational; }
      ghost var y := s.Value();
      ZeroNumerators(y, Ratio(n, d));
      outcome := ApplyRational(r, kind, s);
      if outcome == Done {
        OperandCongruent(x, y, Ratio(n, d));
        ZeroProduct(x.d, d);
        ZeroProduct(x.d, y.d);
        if kind == Divide {
          ZeroProduct(x.d, n);
          ZeroProduct(x.d, y.n);
        }
        NormalFormTransfers(r.num, r.den, Combined(kind, x, y), Combined(kind, x, Ratio(n, d)));
      }
  }

  method ApplyWhole(r: Rational, kind: Kind, i: int) returns (outcome: Outcome)
    requires r.Valid()
    modifies r
    ensures r.Valid()
    ensures outcome == BadRational <==> kind == Divide && i == 0
    ensures if outcome == Done then r.Equals(Combined(kind, old(r.Value()), Ratio(i, 1)))
            else r.Value() == old(r.Value())
  {
    outcome := Done;
    match kind
    case Add => r.AddInt(i);
    case Subtract => r.SubtractInt(i);
    case Multiply => r.MultiplyInt(i);
    case Divide => outcome := r.DivideInt(i);
  }

  method ApplyRational(r: Rational, kind: Kind, s: Rational) returns (outcome: Outcome)
    requires r.Valid() && s.Valid()
    modifies r
    ensures r.Valid()
    ensures outcome == BadRational <==> kind == Divide && old(s.num) == 0
    ensures if outcome == Done then r.Equals(Combined(kind, old(r.Value()), old(s.Value())))
            else r.Value() == old(r.Value())
  {
    outcome := Done;
    ghost var written;
    match kind
    case Add => r.AddAssign(s);
    case Subtract => r.SubtractAssign(s);
    case Multiply => written := r.MultiplyAssign(s);
    case Divide => outcome, written := r.DivideAssign(s);
  }

  /** The object's step and the step of unreduced arithmetic lead to the same value. */
  lemma CarryOver(p: int, q: int, before: Ratio, x: Ratio, op: Op)
    requires before.d != 0 && x.d != 0 && SameValue(before, x)
    requires IsNormalForm(p, q, Exact(before, op).n, Exact(before, op).d)
    ensures Refuses(before, op) <==> Refuses(x, op)
    ensures Exact(x, op).d != 0 && IsNormalForm(p, q, Exact(x, op).n, Exact(x, op).d)
  {
    ExactCongruent(before, x, op);
    ExactDefined(x, op);
    ExactDefined(before, op);
    NormalFormTransfers(p, q, Exact(before, op), Exact(x, op));
  }

  /** A whole run: construct a fraction, apply operations, never reduce on paper. The
      object ends as the normal form of the unreduced result, and exactly the
      operations that must throw have thrown. */
  method RunFrom(n: int, d: int, ops: seq<Op>) returns (r: Rational?, outcomes: seq<Outcome>)
    ensures r == null <==> d == 0
    ensures r != null ==>
      && r.Valid() && r.Equals(ExactRun(Ratio(n, d), ops))
      && ExactRun(Ratio(n, d), ops).d != 0 && r.Real() == RealOf(ExactRun(Ratio(n, d), ops))
      && |outcomes| == |ops|
      && forall k :: 0 <= k < |ops| ==>
           (outcomes[k] == BadRational <==> Refuses(ExactRun(Ratio(n, d), ops[..k]), ops[k]))
  {
    outcomes := [];
    r := Rational.Create(n, d);
    if r == null { return; }
    ghost var start := Ratio(n, d);
    var i := 0;
    while i < |ops|
      invariant 0 <= i <= |ops| && |outcomes| == i
      invariant fresh(r) && r.Valid() && ExactRun(start, ops[..i]).d != 0
      invariant r.Equals(ExactRun(start, ops[..i]))
      invariant forall k :: 0 <= k < i ==> (outcomes[k] == BadRational <==> Refuses(ExactRun(start, ops[..k]), ops[k]))
    {
      ghost var x, before := ExactRun(start, ops[..i]), r.Value();
      assert ops[..i + 1][..i] == ops[..i];
      var outcome := Apply(r, ops[i]);
      CarryOver(r.num, r.den, before, x, ops[i]);
      outcomes := outcomes + [outcome];
      i := i + 1;
    }
    assert ops[..i] == ops;
    NormalFormReal(r.num, r.den, ExactRun(start, ops));
  }
}
