/** What the arithmetic on unreduced fractions means: sums, products and order of real numbers. */
module RationalValues {
  import opened NumberTheory
  import opened RationalLaws

  /** The real number that a fraction stands for. */
  function RealOf(x: Ratio): real
    requires x.d != 0
  {
    x.n as real / x.d as real
  }

  lemma CastTimes(a: int, b: int)
    ensures (a * b) as real == (a as real) * (b as real)
  {
  }

  lemma CancelReal(u: real, v: real, d: real)
    requires d != 0.0 && u * d == v * d
    ensures u == v
  {
  }

  lemma NonZeroProduct(a: real, b: real)
    requires a != 0.0 && b != 0.0
    ensures a * b != 0.0
  {
  }

  lemma RealTimesDenominator(x: Ratio)
    requires x.d != 0
    ensures RealOf(x) * (x.d as real) == x.n as real
  {
  }

  /** A number is the value of a fraction if the denominator times the number is the numerator. */
  lemma RealIs(x: Ratio, v: real)
    requires x.d != 0 && v * (x.d as real) == x.n as real
    ensures v == RealOf(x)
  {
    RealTimesDenominator(x);
    CancelReal(v, RealOf(x), x.d as real);
  }

  lemma Cross(u: real, v: real, a: real, b: real)
    ensures (u * a) * b - (v * b) * a == (u - v) * (a * b)
  {
  }

  /** The difference of two values, over both denominators. */
  lemma DifferenceOverBoth(x: Ratio, y: Ratio)
    requires x.d != 0 && y.d != 0
    ensures (x.n * y.d - y.n * x.d) as real == (RealOf(x) - RealOf(y)) * (x.d as real * y.d as real)
  {
    CastTimes(x.n, y.d);
    CastTimes(y.n, x.d);
    RealTimesDenominator(x);
    RealTimesDenominator(y);
    Cross(RealOf(x), RealOf(y), x.d as real, y.d as real);
  }

  lemma SameValueReal(x: Ratio, y: Ratio)
    requires x.d != 0 && y.d != 0
    ensures SameValue(x, y) <==> RealOf(x) == RealOf(y)
  {
    DifferenceOverBoth(x, y);
    if RealOf(x) != RealOf(y) {
      NonZeroProduct(x.d as real, y.d as real);
      NonZeroProduct(RealOf(x) - RealOf(y), x.d as real * y.d as real);
    }
  }

  lemma PositiveTimes(u: real, d: real)
    requires d > 0.0
    ensures u * d < 0.0 <==> u < 0.0
  {
  }

  lemma LessReal(x: Ratio, y: Ratio)
    requires x.d > 0 && y.d > 0
    ensures x.n * y.d < y.n * x.d <==> RealOf(x) < RealOf(y)
  {
    DifferenceOverBoth(x, y);
    PositiveTimes(-(x.d as real), y.d as real);
    PositiveTimes(RealOf(x) - RealOf(y), x.d as real * y.d as real);
  }

  /** A normal form has the value of every fraction it is the normal form of. */
  lemma NormalFormReal(p: int, q: int, x: Ratio)
    requires x.d != 0 && IsNormalForm(p, q, x.n, x.d)
    ensures p as real / q as real == RealOf(x)
  {
    SameValueReal(Ratio(p, q), x);
  }

  lemma Distribute(u: real, v: real, a: real, b: real)
    ensures (u + v) * (a * b) == (u * a) * b + (v * b) * a
    ensures (u - v) * (a * b) == (u * a) * b - (v * b) * a
  {
  }

  lemma SumsReal(x: Ratio, y: Ratio)
    requires x.d != 0 && y.d != 0
    ensures Plus(x, y).d != 0 && RealOf(Plus(x, y)) == RealOf(x) + RealOf(y)
    ensures Minus(x, y).d != 0 && RealOf(Minus(x, y)) == RealOf(x) - RealOf(y)
  {
    ZeroProduct(x.d, y.d);
    CastTimes(x.d, y.d);
    CastTimes(x.n, y.d);
    CastTimes(y.n, x.d);
    RealTimesDenominator(x);
    RealTimesDenominator(y);
    Distribute(RealOf(x), RealOf(y), x.d as real, y.d as real);
    RealIs(Plus(x, y), RealOf(x) + RealOf(y));
    RealIs(Minus(x, y), RealOf(x) - RealOf(y));
  }

  lemma Interchange(u: real, v: real, a: real, b: real)
    ensures (u * v) * (a * b) == (u * a) * (v * b)
  {
  }

  lemma ProductReal(x: Ratio, y: Ratio)
    requires x.d != 0 && y.d != 0
    ensures Product(x, y).d != 0 && RealOf(Product(x, y)) == RealOf(x) * RealOf(y)
  {
    ZeroProduct(x.d, y.d);
    CastTimes(x.d, y.d);
    CastTimes(x.n, y.n);
    RealTimesDenominator(x);
    RealTimesDenominator(y);
    Interchange(RealOf(x), RealOf(y), x.d as real, y.d as real);
    RealIs(Product(x, y), RealOf(x) * RealOf(y));
  }

  lemma NonZeroValue(x: Ratio)
    requires x.d != 0
    ensures x.n != 0 <==> RealOf(x) != 0.0
  {
    RealTimesDenominator(x);
  }

  /** The quotient, told by the product with the divisor, which is not zero. */
  lemma FractionReal(x: Ratio, y: Ratio)
    requires x.d != 0 && y.d != 0 && y.n != 0
    ensures Fraction(x, y).d != 0 && RealOf(y) != 0.0
    ensures RealOf(Fraction(x, y)) * RealOf(y) == RealOf(x)
  {
    ZeroProduct(x.d, y.n);
    NonZeroValue(y);
    ProductReal(Fraction(x, y), y);
    QuotientTimes(x.n, x.d, y.n, y.d);
    SameValueReal(Product(Fraction(x, y), y), x);
  }

  lemma QuotientTimes(a: int, b: int, c: int, d: int)
    ensures ((a * d) * c) * b == a * ((b * c) * d)
  {
  }

  // ---------------------------------------- what a normal form of a result holds

  lemma SumHeld(p: int, q: int, x: Ratio, y: Ratio)
    requires x.d != 0 && y.d != 0 && q != 0
    ensures IsNormalForm(p, q, Plus(x, y).n, Plus(x, y).d) ==> p as real / q as real == RealOf(x) + RealOf(y)
    ensures IsNormalForm(p, q, Minus(x, y).n, Minus(x, y).d) ==> p as real / q as real == RealOf(x) - RealOf(y)
  {
    SumsReal(x, y);
    if IsNormalForm(p, q, Plus(x, y).n, Plus(x, y).d) {
      NormalFormReal(p, q, Plus(x, y));
    }
    if IsNormalForm(p, q, Minus(x, y).n, Minus(x, y).d) {
      NormalFormReal(p, q, Minus(x, y));
    }
  }

  lemma ProductHeld(p: int, q: int, x: Ratio, y: Ratio)
    requires x.d != 0 && y.d != 0 && IsNormalForm(p, q, Product(x, y).n, Product(x, y).d)
    ensures p as real / q as real == RealOf(x) * RealOf(y)
  {
    ProductReal(x, y);
    NormalFormReal(p, q, Product(x, y));
  }

  lemma QuotientHeld(p: int, q: int, x: Ratio, y: Ratio)
    requires x.d != 0 && y.d != 0 && y.n != 0 && IsNormalForm(p, q, Fraction(x, y).n, Fraction(x, y).d)
    ensures RealOf(y) != 0.0 && (p as real / q as real) * RealOf(y) == RealOf(x)
  {
    FractionReal(x, y);
    NormalFormReal(p, q, Fraction(x, y));
  }
}
