/** Number theory behind the normalized fraction class: why dividing by less than the
    full gcd already reduces a sum or a product. */
module RationalLaws {
  import opened NumberTheory

  ghost predicate Normal(num: int, den: int) {
    den > 0 && Coprime(num, den)
  }

  /** num/den is in lowest terms and equals n/d. */
  ghost predicate IsNormalForm(num: int, den: int, n: int, d: int) {
    Normal(num, den) && num * d == n * den
  }

  /** There is only one normal form, so the predicate pins both components down. */
  lemma NormalFormUnique(p: int, q: int, p': int, q': int, n: int, d: int)
    requires d != 0 && IsNormalForm(p, q, n, d) && IsNormalForm(p', q', n, d)
    ensures p == p' && q == q'
  {
    assert (p * q') * d == (p * d) * q' == n * q * q' == (p' * d) * q == (p' * q) * d;
    CancelFactor(p * q', p' * q, d);
    SameRatioSameTerms(p, q, p', q');
  }

  /** Equality of the components is equality of the values. */
  lemma SameRatioSameTerms(p: int, q: int, p': int, q': int)
    requires Normal(p, q) && Normal(p', q') && p * q' == p' * q
    ensures p == p' && q == q'
  {
    CoprimeSymmetric(p, q);
    CoprimeSymmetric(p', q');
    DividesBy(p', q, p * q');
    CoprimeDivides(q, p, q');
    assert p' * q == q * p';
    DividesBy(p, q', p' * q);
    CoprimeDivides(q', p', q);
    DividesAntisymmetric(q, q');
    CancelFactor(p, p', q);
  }

  // ------------------------------------------------ why the shortcuts work

  /** The sum of two reduced fractions can share a factor with the common denominator
      only through g = gcd(b, d): it is coprime to what is left of either of them. */
  lemma SumCoprime(a: int, c: int, b1: int, d1: int, g: int)
    requires Coprime(a, b1 * g) && Coprime(c, d1 * g) && Coprime(b1, d1)
    ensures Coprime(a * d1 + c * b1, b1 * d1)
  {
    var n := a * d1 + c * b1;
    CoprimeFactor(a, b1, g);
    CoprimeFactor(c, d1, g);
    // coprime to b1
    CoprimeSymmetric(a, b1);
    CoprimeProduct(b1, a, d1);
    CoprimeSymmetric(b1, a * d1);
    CoprimeShift(a * d1, b1, c);
    // coprime to d1
    CoprimeSymmetric(b1, d1);
    CoprimeSymmetric(c, d1);
    CoprimeProduct(d1, c, b1);
    CoprimeSymmetric(d1, c * b1);
    CoprimeShift(c * b1, d1, a);
    assert c * b1 + a * d1 == n;
    CoprimeProduct(n, b1, d1);
  }

  /** A factor of a number that is coprime to m is coprime to m. */
  lemma FactorCoprime(k: int, h: int, m: int)
    requires Coprime(k * h, m)
    ensures Coprime(k, m)
  {
    CoprimeSymmetric(k * h, m);
    CoprimeFactor(m, k, h);
    CoprimeSymmetric(m, k);
  }

  /** Nickolay Mladenov's addition: dividing by gcd(numerator, g) alone reduces fully. */
  lemma SumReduced(a: int, b: int, c: int, d: int, g: int, b1: int, d1: int, n: int, h: int, n1: int, g1: int)
    requires Normal(a, b) && Normal(c, d)
    requires g > 0 && h > 0 && b == b1 * g && d == d1 * g && Coprime(b1, d1)
    requires n == a * d1 + c * b1
    requires n == n1 * h && g == g1 * h && Coprime(n1, g1)
    ensures d == (d1 * g1) * h
    ensures IsNormalForm(n1, b1 * (d1 * g1), a * d + c * b, b * d)
  {
    SumCoprime(a, c, b1, d1, g);
    FactorCoprime(n1, h, b1 * d1);
    CoprimeProduct(n1, b1 * d1, g1);
    assert b1 * d1 * g1 == b1 * (d1 * g1);
    assert d1 * (g1 * h) == (d1 * g1) * h;
    PositiveFactors(b1, g, d1, g1, h);
    SumValue(a, c, g, b1, d1, n1, g1, h);
  }

  lemma PositiveFactors(b1: int, g: int, d1: int, g1: int, h: int)
    requires g > 0 && h > 0 && b1 * g > 0 && d1 * g > 0 && g == g1 * h
    ensures b1 > 0 && d1 > 0 && g1 > 0 && b1 * (d1 * g1) > 0
  {
    assert b1 > 0 && d1 > 0 && g1 > 0;
    assert d1 * g1 > 0;
  }

  lemma PositiveQuotients(b1: int, g: int, d1: int, h: int)
    requires g > 0 && h > 0 && b1 * g > 0 && d1 * h > 0
    ensures b1 * d1 > 0
  {
    assert b1 > 0 && d1 > 0;
  }

  lemma SumValue(a: int, c: int, g: int, b1: int, d1: int, n1: int, g1: int, h: int)
    requires n1 * h == a * d1 + c * b1 && g == g1 * h
    ensures n1 * ((b1 * g) * (d1 * g)) == (a * (d1 * g) + c * (b1 * g)) * (b1 * (d1 * g1))
  {
    var k := b1 * d1;
    assert a * (d1 * g) + c * (b1 * g) == (n1 * h) * g;
    assert b1 * (d1 * g1) == k * g1;
    assert (b1 * g) * (d1 * g) == k * (g * g);
    Regroup(n1, h, g, k, g1);
  }

  lemma Regroup(n: int, h: int, g: int, k: int, g1: int)
    requires g == g1 * h
    ensures n * (k * (g * g)) == ((n * h) * g) * (k * g1)
  {
    assert ((n * h) * g) * (k * g1) == (n * k * g) * (g1 * h);
  }

  /** Cross-cancelling before multiplying reduces fully. */
  lemma ProductReduced(a: int, b: int, c: int, d: int, g1: int, g2: int, a1: int, d1: int, c1: int, b1: int)
    requires Coprime(a, b) && Coprime(c, d)
    requires a == a1 * g1 && d == d1 * g1 && Coprime(a1, d1)
    requires c == c1 * g2 && b == b1 * g2 && Coprime(c1, b1)
    ensures Coprime(a1 * c1, b1 * d1)
    ensures (a1 * c1) * (b * d) == (a * c) * (b1 * d1)
  {
    FactorCoprime(a1, g1, b);
    CoprimeFactor(a1, b1, g2);
    FactorCoprime(c1, g2, d);
    CoprimeFactor(c1, d1, g1);
    CoprimeProduct(a1, b1, d1);
    CoprimeProduct(c1, b1, d1);
    CoprimeSymmetric(a1, b1 * d1);
    CoprimeSymmetric(c1, b1 * d1);
    CoprimeProduct(b1 * d1, a1, c1);
    CoprimeSymmetric(b1 * d1, a1 * c1);
    ProductValue(a1, b1, c1, d1, g1, g2);
  }

  lemma ProductValue(a1: int, b1: int, c1: int, d1: int, g1: int, g2: int)
    ensures (a1 * c1) * ((b1 * g2) * (d1 * g1)) == ((a1 * g1) * (c1 * g2)) * (b1 * d1)
  {
    calc {
      (a1 * c1) * ((b1 * g2) * (d1 * g1));
      (a1 * c1) * (g1 * g2) * (b1 * d1);
      ((a1 * g1) * (c1 * g2)) * (b1 * d1);
    }
  }

  /** A negative denominator is made positive by negating both components. */
  lemma NormalFormNegated(p: int, q: int, n: int, d: int)
    requires q < 0 && Coprime(p, q) && p * d == n * q
    ensures IsNormalForm(-p, -q, n, d)
  {
    CoprimeNegate(p, q);
    assert (-p) * d == -(p * d) && n * (-q) == -(n * q);
  }

  lemma ZeroProduct(x: int, y: int)
    requires x != 0 && y != 0
    ensures x * y != 0
  {
  }

  /** Full reduction of an arbitrary fraction. */
  lemma FullReduction(n: int, d: int) returns (p: int, q: int)
    requires n != 0 && d != 0
    ensures var g := Gcd(n, d);
            g > 0 && TruncDiv(n, g) == p && TruncDiv(d, g) == q && q != 0 && Coprime(p, q) && p * d == n * q
  {
    p, q := GcdQuotients(n, d);
    CrossCancelled(p, q, Gcd(n, d));
  }

  lemma CrossCancelled(p: int, q: int, g: int)
    ensures p * (q * g) == (p * g) * q
  {
  }

  // ------------------------------------------------------ exact fractions

  /** A fraction that nobody has reduced. */
  datatype Ratio = Ratio(n: int, d: int)

  function Plus(x: Ratio, y: Ratio): Ratio { Ratio(x.n * y.d + y.n * x.d, x.d * y.d) }

  function Minus(x: Ratio, y: Ratio): Ratio { Ratio(x.n * y.d - y.n * x.d, x.d * y.d) }

  function Product(x: Ratio, y: Ratio): Ratio { Ratio(x.n * y.n, x.d * y.d) }

  function Fraction(x: Ratio, y: Ratio): Ratio { Ratio(x.n * y.d, x.d * y.n) }

  ghost predicate SameValue(x: Ratio, y: Ratio) {
    x.n * y.d == y.n * x.d
  }

  lemma SumCongruent(x: Ratio, x': Ratio, y: Ratio)
    requires SameValue(x, x')
    ensures SameValue(Plus(x, y), Plus(x', y)) && SameValue(Minus(x, y), Minus(x', y))
  {
    SumCongruence(x.n, x.d, x'.n, x'.d, y.n, y.d);
    SumCongruence(x.n, x.d, x'.n, x'.d, -y.n, y.d);
  }

  lemma SumCongruence(n: int, d: int, n': int, d': int, c: int, e: int)
    requires n * d' == n' * d
    ensures (n * e + c * d) * (d' * e) == (n' * e + c * d') * (d * e)
  {
    assert (n * e + c * d) * (d' * e) == (n * d') * (e * e) + c * d * d' * e;
    assert (n' * e + c * d') * (d * e) == (n' * d) * (e * e) + c * d' * d * e;
  }

  lemma ProductCongruent(x: Ratio, x': Ratio, y: Ratio)
    requires SameValue(x, x')
    ensures SameValue(Product(x, y), Product(x', y)) && SameValue(Fraction(x, y), Fraction(x', y))
  {
    ProductCongruence(x.n, x.d, x'.n, x'.d, y.n, y.d);
    ProductCongruence(x.n, x.d, x'.n, x'.d, y.d, y.n);
  }

  lemma ProductCongruence(n: int, d: int, n': int, d': int, c: int, e: int)
    requires n * d' == n' * d
    ensures (n * c) * (d' * e) == (n' * c) * (d * e)
  {
    assert (n * c) * (d' * e) == (n * d') * (c * e);
    assert (n' * c) * (d * e) == (n' * d) * (c * e);
  }

  /** A normal form of one fraction is a normal form of every fraction of the same value. */
  lemma NormalFormTransfers(p: int, q: int, x: Ratio, y: Ratio)
    requires x.d != 0 && y.d != 0 && SameValue(x, y) && IsNormalForm(p, q, x.n, x.d)
    ensures IsNormalForm(p, q, y.n, y.d)
  {
    assert (p * y.d) * x.d == (p * x.d) * y.d == (x.n * q) * y.d
      == (x.n * y.d) * q == (y.n * x.d) * q == (y.n * q) * x.d;
    CancelFactor(p * y.d, y.n * q, x.d);
  }

  // ---------------------------------------------------------------- order

  /** Comparing the integer parts decides, if they differ. */
  lemma FloorsDecide(n1: int, d1: int, q1: int, r1: int, n2: int, d2: int, q2: int, r2: int)
    requires d1 > 0 && d2 > 0 && n1 == q1 * d1 + r1 && n2 == q2 * d2 + r2
    requires 0 <= r1 < d1 && 0 <= r2 < d2
    requires q1 < q2
    ensures n1 * d2 < n2 * d1
  {
    MulMonotone(q1 + 1, q2, d1);
    MulMonotone(n1, q2 * d1 - 1, d2);
    MulMonotone(q2 * d2, n2, d1);
    assert (q2 * d1 - 1) * d2 == (q2 * d2) * d1 - d2;
  }

  /** With equal integer parts the remainders decide. */
  lemma RemaindersDecide(n1: int, d1: int, r1: int, n2: int, d2: int, r2: int, q: int)
    requires n1 == q * d1 + r1 && n2 == q * d2 + r2
    ensures n1 * d2 - n2 * d1 == r1 * d2 - r2 * d1
  {
    assert (q * d1 + r1) * d2 == q * (d1 * d2) + r1 * d2;
    assert (q * d2 + r2) * d1 == q * (d1 * d2) + r2 * d1;
  }

  /** A floor is no larger in magnitude than the number that was divided. */
  lemma QuotientBound(n: int, d: int, q: int, r: int)
    requires d > 0 && n == q * d + r && -d < r < d && (n >= 0 ==> r >= 0)
    ensures Abs(q) <= Abs(n)
  {
    if q > 0 {
      MulMonotone(1, q, d);
      MulMonotone(1, d, q);
    } else if q < 0 {
      MulMonotone(q, -1, d);
      MulMonotone(1, d, -q - 1);
      assert d * (-q - 1) == -(q * d) - d;
    }
  }

  lemma QuotientSmaller(k: int, g: int)
    requires g > 0
    ensures Abs(k) <= Abs(k * g)
  {
    AbsTimes(k, g);
    MulMonotone(1, g, Abs(k));
  }
}
