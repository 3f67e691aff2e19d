/** Divisibility among fractions: gcd and lcm lifted from the integers. */
module RationalLattice {
  import opened NumberTheory
  import opened RationalLaws
  import opened RationalValues
  import opened Rationals

  /** x is an integer multiple of y. */
  ghost predicate MultipleOf(x: Ratio, y: Ratio) {
    exists k: int :: Multiple(x, y, k)
  }

  ghost predicate Multiple(x: Ratio, y: Ratio, k: int) {
    x.n * y.d == k * (y.n * x.d)
  }

  /** Multiples of fractions are multiples of numbers. */
  lemma MultipleReal(x: Ratio, y: Ratio, k: int)
    requires x.d != 0 && y.d != 0
    ensures Multiple(x, y, k) <==> RealOf(x) == k as real * RealOf(y)
  {
    var scaled := Product(Ratio(k, 1), y);
    ProductReal(Ratio(k, 1), y);
    SameValueReal(x, scaled);
    assert (k * y.n) * x.d == k * (y.n * x.d) && 1 * y.d == y.d;
  }

  ghost predicate IsGcd(g: Ratio, a: Ratio, b: Ratio) {
    && g.n >= 0 && MultipleOf(a, g) && MultipleOf(b, g)
    && forall r: Ratio :: r.d > 0 && MultipleOf(a, r) && MultipleOf(b, r) ==> MultipleOf(g, r)
  }

  ghost predicate IsLcm(m: Ratio, a: Ratio, b: Ratio) {
    && m.n >= 0 && MultipleOf(m, a) && MultipleOf(m, b)
    && forall r: Ratio :: r.d > 0 && MultipleOf(r, a) && MultipleOf(r, b) ==> MultipleOf(r, m)
  }

  /** The rational `gcd_evaluator`. */
  method GcdEvaluator(a: Rational, b: Rational) returns (r: Rational)
    requires a.Valid() && b.Valid()
    ensures r.Valid() && fresh(r)
    ensures r.num == Gcd(a.num, b.num) && r.den == Lcm(a.den, b.den)
    ensures IsGcd(r.Value(), a.Value(), b.Value())
  {
    GcdOfNormal(a.num, a.den, b.num, b.den);
    var made := Rational.Create(Gcd(a.num, b.num), Lcm(a.den, b.den));
    NormalFormUnique(made.num, made.den, Gcd(a.num, b.num), Lcm(a.den, b.den), Gcd(a.num, b.num), Lcm(a.den, b.den));
    r := made;
  }

  /** The rational `lcm_evaluator`. */
  method LcmEvaluator(a: Rational, b: Rational) returns (r: Rational)
    requires a.Valid() && b.Valid()
    ensures r.Valid() && fresh(r)
    ensures r.num == Lcm(a.num, b.num) && r.den == Gcd(a.den, b.den)
    ensures IsLcm(r.Value(), a.Value(), b.Value())
  {
    LcmOfNormal(a.num, a.den, b.num, b.den);
    var made := Rational.Create(Lcm(a.num, b.num), Gcd(a.den, b.den));
    NormalFormUnique(made.num, made.den, Lcm(a.num, b.num), Gcd(a.den, b.den), Lcm(a.num, b.num), Gcd(a.den, b.den));
    r := made;
  }

  // ---------------------------------------------------------------- proofs

  /** Shared set-up: p/q and s/t with p = p1·g, s = s1·g, q = q0·h, t = t0·h. */
  lemma CrossCoprime(p1: int, g: int, q0: int, h: int, s1: int, t0: int)
    requires Coprime(p1 * g, q0 * h) && Coprime(s1 * g, t0 * h)
    requires Coprime(p1, s1) && Coprime(q0, t0)
    ensures Coprime(p1 * t0, s1 * q0)
  {
    FactorCoprime(p1, g, q0 * h);
    CoprimeFactor(p1, q0, h);
    FactorCoprime(s1, g, t0 * h);
    CoprimeFactor(s1, t0, h);
    CoprimeProduct(p1, s1, q0);
    CoprimeSymmetric(s1, t0);
    CoprimeSymmetric(q0, t0);
    CoprimeProduct(t0, s1, q0);
    CoprimeSymmetric(p1, s1 * q0);
    CoprimeSymmetric(t0, s1 * q0);
    CoprimeProduct(s1 * q0, p1, t0);
    CoprimeSymmetric(s1 * q0, p1 * t0);
  }

  lemma MultipleBy(x: Ratio, y: Ratio, k: int)
    requires x.n * y.d == k * (y.n * x.d)
    ensures MultipleOf(x, y)
  {
    assert Multiple(x, y, k);
  }

  lemma GcdOfNormal(p: int, q: int, s: int, t: int)
    requires Normal(p, q) && Normal(s, t)
    ensures Lcm(q, t) > 0 && Normal(Gcd(p, s), Lcm(q, t))
    ensures IsGcd(Ratio(Gcd(p, s), Lcm(q, t)), Ratio(p, q), Ratio(s, t))
  {
    var g, h := Gcd(p, s), Gcd(q, t);
    var q0, t0 := GcdQuotients(q, t);
    LcmOfParts(q0, t0, h);
    PositiveQuotients(q0, h, t0, h);
    var big := Lcm(q, t);
    assert big == q0 * t0 * h == q * t0 == t * q0 by { Rearranged(q0, t0, h); }
    GcdDivides(p, s);
    var p1 := Quotient(g, p);
    var s1 := Quotient(g, s);
    assert big > 0 by { QuotientSigns(q0, h); QuotientSigns(t0, h); ZeroProduct(q, t0); }
    GcdIsNormal(p1, g, q, s1, t0, h);
    var x, y := GcdCombination(p, q, s, t, q0, t0, h);
    LiftMultiple(p1, g, q, t0);
    MultipleBy(Ratio(p, q), Ratio(g, big), p1 * t0);
    LiftMultiple(s1, g, t, q0);
    MultipleBy(Ratio(s, t), Ratio(g, big), s1 * q0);
    forall r: Ratio | r.d > 0 && MultipleOf(Ratio(p, q), r) && MultipleOf(Ratio(s, t), r)
      ensures MultipleOf(Ratio(g, big), r)
    {
      var i :| Multiple(Ratio(p, q), r, i);
      var j :| Multiple(Ratio(s, t), r, j);
      CombineMultiples(p, q, s, t, q0, t0, x, y, i, j, r.n, r.d, g, big);
      MultipleBy(Ratio(g, big), r, x * i + y * j);
    }
  }

  lemma QuotientSigns(k: int, h: int)
    requires h > 0 && k * h > 0
    ensures k > 0
  {
  }

  lemma LiftMultiple(p1: int, g: int, q: int, t0: int)
    ensures (p1 * g) * (q * t0) == (p1 * t0) * (g * q)
  {
  }

  lemma GcdIsNormal(p1: int, g: int, q: int, s1: int, t0: int, h: int)
    requires Coprime(p1 * g, q) && Coprime(s1 * g, t0 * h)
    ensures Coprime(g, q * t0)
  {
    assert p1 * g == g * p1 && s1 * g == g * s1;
    FactorCoprime(g, p1, q);
    FactorCoprime(g, s1, t0 * h);
    CoprimeFactor(g, t0, h);
    CoprimeProduct(g, q, t0);
  }

  /** The gcd is an integer combination of the two fractions. */
  lemma GcdCombination(p: int, q: int, s: int, t: int, q0: int, t0: int, h: int) returns (x: int, y: int)
    requires Normal(p, q) && Normal(s, t) && q == q0 * h && t == t0 * h && Coprime(q0, t0)
    ensures x * (p * t0) + y * (s * q0) == Gcd(p, s)
  {
    if p == 0 && s == 0 {
      x, y := 0, 0;
    } else {
      var g := Gcd(p, s);
      var p1, s1 := GcdQuotients(p, s);
      CrossCoprime(p1, g, q0, h, s1, t0);
      x, y := CoprimeWitness(p1 * t0, s1 * q0);
      ScaleCombination(p1, t0, s1, q0, x, y, g);
    }
  }

  lemma ScaleCombination(p1: int, t0: int, s1: int, q0: int, x: int, y: int, g: int)
    requires (p1 * t0) * x + (s1 * q0) * y == 1
    ensures x * ((p1 * g) * t0) + y * ((s1 * g) * q0) == g
  {
    assert x * ((p1 * g) * t0) == ((p1 * t0) * x) * g;
    assert y * ((s1 * g) * q0) == ((s1 * q0) * y) * g;
  }

  lemma CombineMultiples(p: int, q: int, s: int, t: int, q0: int, t0: int, x: int, y: int,
                         i: int, j: int, u: int, v: int, g: int, big: int)
    requires p * v == i * (u * q) && s * v == j * (u * t)
    requires x * (p * t0) + y * (s * q0) == g && big == q * t0 == t * q0
    ensures g * v == (x * i + y * j) * (u * big)
  {
    calc {
      g * v;
      (x * t0) * (p * v) + (y * q0) * (s * v);
      (x * t0) * (i * (u * q)) + (y * q0) * (j * (u * t));
      { SpreadFactors(x, i, u, q, t0); SpreadFactors(y, j, u, t, q0); }
      (x * i) * (u * big) + (y * j) * (u * big);
      (x * i + y * j) * (u * big);
    }
  }

  lemma SpreadFactors(x: int, i: int, u: int, q: int, t0: int)
    ensures (x * t0) * (i * (u * q)) == (x * i) * (u * (q * t0))
  {
    assert (x * t0) * (i * (u * q)) == (x * i) * (t0 * (u * q));
  }

  lemma LcmOfNormal(p: int, q: int, s: int, t: int)
    requires Normal(p, q) && Normal(s, t)
    ensures Gcd(q, t) > 0 && Normal(Lcm(p, s), Gcd(q, t))
    ensures IsLcm(Ratio(Lcm(p, s), Gcd(q, t)), Ratio(p, q), Ratio(s, t))
  {
    var h := Gcd(q, t);
    var q0, t0 := GcdQuotients(q, t);
    if p == 0 || s == 0 {
      LcmWithZero(p, q, s, t, q0, t0);
    } else {
      var g := Gcd(p, s);
      var p1, s1 := GcdQuotients(p, s);
      LcmOfParts(p1, s1, g);
      CrossCoprime(p1, g, q0, h, s1, t0);
      LcmIsNormal(p1, g, q0, h, s1, t0);
      var m := Lcm(p, s);
      var sign := if p1 * s1 * g < 0 then -1 else 1;
      assert m == sign * (p1 * s1 * g);
      LcmMultiple(p1, s1, g, q0, h, sign);
      MultipleBy(Ratio(m, h), Ratio(p, q), sign * (s1 * q0));
      LcmMultiple(s1, p1, g, t0, h, sign);
      assert s1 * p1 * g == p1 * s1 * g;
      MultipleBy(Ratio(m, h), Ratio(s, t), sign * (p1 * t0));
      forall r: Ratio | r.d > 0 && MultipleOf(r, Ratio(p, q)) && MultipleOf(r, Ratio(s, t))
        ensures MultipleOf(r, Ratio(m, h))
      {
        var i :| Multiple(r, Ratio(p, q), i);
        var j :| Multiple(r, Ratio(s, t), j);
        var k := CommonMultiple(p1, s1, g, q0, t0, h, i, j, r.n, r.d);
        assert r.n * h == k * (p1 * s1 * g * r.d);
        SignedMultiple(k, p1 * s1 * g, r.d, sign);
        MultipleBy(r, Ratio(m, h), sign * k);
      }
    }
  }

  lemma SignedMultiple(k: int, m: int, v: int, sign: int)
    requires sign == 1 || sign == -1
    ensures k * (m * v) == (sign * k) * ((sign * m) * v)
  {
  }

  lemma LcmWithZero(p: int, q: int, s: int, t: int, q0: int, t0: int)
    requires Normal(p, q) && Normal(s, t) && (p == 0 || s == 0)
    requires q == q0 * Gcd(q, t) && t == t0 * Gcd(q, t) && Gcd(q, t) > 0
    ensures Normal(Lcm(p, s), Gcd(q, t))
    ensures IsLcm(Ratio(Lcm(p, s), Gcd(q, t)), Ratio(p, q), Ratio(s, t))
  {
    var h := Gcd(q, t);
    assert Lcm(p, s) == 0;
    if p == 0 {
      CoprimeFactor(0, q0, h);
    } else {
      CoprimeFactor(0, t0, h);
    }
    MultipleBy(Ratio(0, h), Ratio(p, q), 0);
    MultipleBy(Ratio(0, h), Ratio(s, t), 0);
    forall r: Ratio | r.d > 0 && MultipleOf(r, Ratio(p, q)) && MultipleOf(r, Ratio(s, t))
      ensures MultipleOf(r, Ratio(0, h))
    {
      var i :| Multiple(r, Ratio(p, q), i);
      var j :| Multiple(r, Ratio(s, t), j);
      assert r.n == 0 by { if p == 0 { NonZeroFactor(r.n, q); } else { NonZeroFactor(r.n, t); } }
      MultipleBy(r, Ratio(0, h), 0);
    }
  }

  lemma NonZeroFactor(n: int, q: int)
    requires n * q == 0 && q > 0
    ensures n == 0
  {
  }

  lemma LcmIsNormal(p1: int, g: int, q0: int, h: int, s1: int, t0: int)
    requires Coprime(p1 * g, q0 * h) && Coprime(s1 * g, t0 * h)
    ensures Coprime(Abs(p1 * s1 * g), h)
  {
    CoprimeFactor(p1 * g, q0, h);
    CoprimeFactor(s1 * g, t0, h);
    FactorCoprime(s1, g, h);
    CoprimeSymmetric(p1 * g, h);
    CoprimeSymmetric(s1, h);
    CoprimeProduct(h, p1 * g, s1);
    assert (p1 * g) * s1 == p1 * s1 * g;
    CoprimeSymmetric(h, p1 * s1 * g);
    CoprimeNegate(p1 * s1 * g, h);
  }

  lemma LcmMultiple(p1: int, s1: int, g: int, q0: int, h: int, sign: int)
    ensures (sign * (p1 * s1 * g)) * (q0 * h) == (sign * (s1 * q0)) * ((p1 * g) * h)
  {
    assert (p1 * s1 * g) * (q0 * h) == (s1 * q0) * ((p1 * g) * h) by {
      assert (p1 * s1 * g) * (q0 * h) == (s1 * q0) * (p1 * g * h);
    }
  }

  /** u/v = i·(p/q) = j·(s/t) makes u/v a multiple of the product of the cofactors. */
  lemma CommonMultiple(p1: int, s1: int, g: int, q0: int, t0: int, h: int, i: int, j: int, u: int, v: int)
    returns (k: int)
    requires g > 0 && h > 0 && v > 0 && q0 * h > 0
    requires Coprime(p1 * t0, s1 * q0)
    requires u * (q0 * h) == i * ((p1 * g) * v) && u * (t0 * h) == j * ((s1 * g) * v)
    ensures u * h == k * (p1 * s1 * g * v)
  {
    CommonCofactor(p1, s1, g, q0, t0, h, i, j, u, v);
    CoprimeSymmetric(p1 * t0, s1 * q0);
    DividesBy(j, s1 * q0, (p1 * t0) * i);
    CoprimeDivides(s1 * q0, p1 * t0, i);
    k := Quotient(s1 * q0, i);
    CancelCofactor(k, s1, q0, p1, g, v, u, h);
  }

  lemma CommonCofactor(p1: int, s1: int, g: int, q0: int, t0: int, h: int, i: int, j: int, u: int, v: int)
    requires g > 0 && v > 0
    requires u * (q0 * h) == i * ((p1 * g) * v) && u * (t0 * h) == j * ((s1 * g) * v)
    ensures (p1 * t0) * i == j * (s1 * q0)
  {
    calc {
      (i * (p1 * t0)) * (g * v);
      { Pulled(i, p1, g, v, t0); }
      (u * (q0 * h)) * t0;
      { Pulled(u, q0, h, 1, t0); Pulled(u, t0, h, 1, q0); }
      (u * (t0 * h)) * q0;
      { Pulled(j, s1, g, v, q0); }
      (j * (s1 * q0)) * (g * v);
    }
    ZeroProduct(g, v);
    CancelFactor(i * (p1 * t0), j * (s1 * q0), g * v);
  }

  lemma Pulled(i: int, a: int, b: int, c: int, t: int)
    ensures (i * ((a * b) * c)) * t == (i * (a * t)) * (b * c)
  {
    assert ((a * b) * c) * t == (a * t) * (b * c);
  }

  lemma CancelCofactor(k: int, s1: int, q0: int, p1: int, g: int, v: int, u: int, h: int)
    requires q0 * h > 0
    requires u * (q0 * h) == (k * (s1 * q0)) * ((p1 * g) * v)
    ensures u * h == k * (p1 * s1 * g * v)
  {
    assert q0 != 0;
    assert u * (q0 * h) == (u * h) * q0;
    assert (k * (s1 * q0)) * ((p1 * g) * v) == (k * (p1 * s1 * g * v)) * q0 by {
      assert (s1 * q0) * ((p1 * g) * v) == (p1 * s1 * g * v) * q0;
    }
    CancelFactor(u * h, k * (p1 * s1 * g * v), q0);
  }
}
