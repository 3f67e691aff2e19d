/** Greatest common divisors and coprimality over the integers, through Bezout combinations. */
module NumberTheory {

  function Abs(x: int): nat {
    if x < 0 then -x else x
  }

  function Times(k: int, d: int): int {
    k * d
  }

  function Combination(a: int, b: int, x: int, y: int): int {
    a * x + b * y
  }

  ghost predicate Divides(d: int, a: int) {
    exists k: int :: Times(k, d) == a
  }

  ghost predicate Coprime(a: int, b: int) {
    exists x: int, y: int :: Combination(a, b, x, y) == 1
  }

  /** The built-in division of C++: toward zero. */
  function TruncDiv(a: int, b: int): int
    requires b != 0
  {
    if a >= 0 then a / b else -((-a) / b)
  }

  function TruncMod(a: int, b: int): int
    requires b != 0
  {
    a - TruncDiv(a, b) * b
  }

  /** The mathematical greatest common divisor, never negative. */
  function Gcd(a: int, b: int): nat
    decreases Abs(b)
  {
    if b == 0 then Abs(a) else Gcd(b, a % b)
  }

  /** The least common multiple, by way of the gcd; zero if either number is. */
  function Lcm(a: int, b: int): nat {
    var g := Gcd(a, b);
    if g == 0 then 0 else Abs(a) / g * Abs(b)
  }

  lemma DividesBy(k: int, d: int, a: int)
    requires a == k * d
    ensures Divides(d, a)
  {
    assert Times(k, d) == a;
  }

  lemma Quotient(d: int, a: int) returns (k: int)
    requires Divides(d, a)
    ensures a == k * d
  {
    k :| Times(k, d) == a;
  }

  lemma CoprimeBy(a: int, b: int, x: int, y: int)
    requires a * x + b * y == 1
    ensures Coprime(a, b)
  {
    assert Combination(a, b, x, y) == 1;
  }

  lemma CoprimeWitness(a: int, b: int) returns (x: int, y: int)
    requires Coprime(a, b)
    ensures a * x + b * y == 1
  {
    x, y :| Combination(a, b, x, y) == 1;
  }

  lemma MulMonotone(a: int, b: int, c: int)
    requires a <= b && c >= 0
    ensures a * c <= b * c
  {
    assert (b - a) * c >= 0;
  }

  // ------------------------------------------------------------- division

  lemma SmallMultiple(k: int, b: int)
    requires b > 0
    ensures k == 0 || k * b >= b || k * b <= -b
  {
    if k >= 1 {
      assert k * b == b + (k - 1) * b;
    } else if k <= -1 {
      assert k * b == -b + (k + 1) * b;
    }
  }

  lemma DivUnique(a: int, b: int, q: int, r: int)
    requires b > 0 && a == q * b + r && 0 <= r < b
    ensures a / b == q && a % b == r
  {
    var q', r' := a / b, a % b;
    assert a == q' * b + r';
    assert (q - q') * b == q * b - q' * b;
    SmallMultiple(q - q', b);
  }

  /** Exact division by a positive divisor truncates nothing. */
  lemma ExactDiv(k: int, g: int)
    requires g > 0
    ensures TruncDiv(k * g, g) == k
  {
    if k >= 0 {
      assert k * g >= 0;
      DivUnique(k * g, g, k, 0);
    } else {
      assert k * g < 0;
      assert -(k * g) == (-k) * g;
      DivUnique(-(k * g), g, -k, 0);
    }
  }

  /** Truncated division by a positive divisor, as the standard describes it. */
  lemma TruncFacts(a: int, b: int)
    requires b > 0
    ensures a == TruncDiv(a, b) * b + TruncMod(a, b)
    ensures a >= 0 ==> 0 <= TruncMod(a, b) < b && TruncDiv(a, b) == a / b
    ensures a < 0 ==> -b < TruncMod(a, b) <= 0
  {
    if a >= 0 {
      assert a == (a / b) * b + a % b;
    } else {
      assert -a == (-a / b) * b + (-a) % b;
    }
  }

  // ------------------------------------------------------------------ gcd

  lemma CombinationOfMultiples(k: int, l: int, g: int, x: int, y: int)
    ensures (k * g) * x + (l * g) * y == (k * x + l * y) * g
  {
  }

  lemma BezoutStep(a: int, b: int, q: int, m: int, u: int, v: int)
    requires a == b * q + m
    ensures a * v + b * (u - q * v) == b * u + m * v
  {
    assert a * v == (b * q) * v + m * v;
    assert b * (u - q * v) == b * u - b * (q * v);
  }

  lemma {:induction false} Bezout(a: int, b: int) returns (x: int, y: int)
    ensures a * x + b * y == Gcd(a, b)
    decreases Abs(b)
  {
    if b == 0 {
      x, y := if a < 0 then -1 else 1, 0;
    } else {
      var u, v := Bezout(b, a % b);
      x, y := v, u - (a / b) * v;
      BezoutStep(a, b, a / b, a % b, u, v);
    }
  }

  lemma {:induction false} GcdDivides(a: int, b: int)
    ensures Divides(Gcd(a, b), a) && Divides(Gcd(a, b), b)
    decreases Abs(b)
  {
    var g := Gcd(a, b);
    if b == 0 {
      DividesBy(if a < 0 then -1 else 1, g, a);
      DividesBy(0, g, b);
    } else {
      GcdDivides(b, a % b);
      var k := Quotient(g, b);
      var l := Quotient(g, a % b);
      assert a == (a / b) * b + a % b;
      assert a == ((a / b) * k + l) * g by {
        assert (a / b) * (k * g) == ((a / b) * k) * g;
      }
      DividesBy((a / b) * k + l, g, a);
    }
  }

  /** Every common divisor divides the gcd. */
  lemma GcdGreatest(a: int, b: int, d: int)
    requires Divides(d, a) && Divides(d, b)
    ensures Divides(d, Gcd(a, b))
  {
    var k := Quotient(d, a);
    var l := Quotient(d, b);
    var x, y := Bezout(a, b);
    CombinationOfMultiples(k, l, d, x, y);
    DividesBy(k * x + l * y, d, Gcd(a, b));
  }

  lemma GcdPositive(a: int, b: int)
    requires a != 0 || b != 0
    ensures Gcd(a, b) > 0
  {
    GcdDivides(a, b);
    var k := Quotient(Gcd(a, b), a);
    var l := Quotient(Gcd(a, b), b);
  }

  lemma DividesBound(d: int, a: int)
    requires Divides(d, a) && a != 0
    ensures 0 < Abs(d) <= Abs(a)
  {
    var k := Quotient(d, a);
    assert k != 0 && d != 0;
    AbsTimes(k, d);
    MulMonotone(1, Abs(k), Abs(d));
  }

  lemma AbsTimes(a: int, b: int)
    ensures Abs(a * b) == Abs(a) * Abs(b)
  {
  }

  /** Non-negative numbers that divide each other are equal. */
  lemma DividesAntisymmetric(a: int, b: int)
    requires a >= 0 && b >= 0 && Divides(a, b) && Divides(b, a)
    ensures a == b
  {
    if a == 0 || b == 0 {
      var k := Quotient(a, b);
      var l := Quotient(b, a);
    } else {
      DividesBound(a, b);
      DividesBound(b, a);
    }
  }

  /** The gcd is the only non-negative common divisor that all common divisors divide. */
  lemma GcdUnique(a: int, b: int, g: int)
    requires g >= 0 && Divides(g, a) && Divides(g, b)
    requires forall d: int :: Divides(d, a) && Divides(d, b) ==> Divides(d, g)
    ensures g == Gcd(a, b)
  {
    GcdDivides(a, b);
    GcdGreatest(a, b, g);
    DividesAntisymmetric(g, Gcd(a, b));
  }

  lemma GcdSymmetric(a: int, b: int)
    ensures Gcd(a, b) == Gcd(b, a)
  {
    GcdDivides(a, b);
    forall d: int | Divides(d, b) && Divides(d, a)
      ensures Divides(d, Gcd(a, b))
    {
      GcdGreatest(a, b, d);
    }
    GcdUnique(b, a, Gcd(a, b));
  }

  // --------------------------------------------------------- coprimality

  lemma CoprimeIffGcd(a: int, b: int)
    ensures Coprime(a, b) <==> Gcd(a, b) == 1
  {
    var g := Gcd(a, b);
    var u, v := Bezout(a, b);
    if g == 1 {
      CoprimeBy(a, b, u, v);
    }
    if Coprime(a, b) {
      var x, y := CoprimeWitness(a, b);
      GcdDivides(a, b);
      var k := Quotient(g, a);
      var l := Quotient(g, b);
      CombinationOfMultiples(k, l, g, x, y);
      DividesBy(k * x + l * y, g, 1);
      DividesBound(g, 1);
    }
  }

  lemma CoprimeSymmetric(a: int, b: int)
    requires Coprime(a, b)
    ensures Coprime(b, a)
  {
    var x, y := CoprimeWitness(a, b);
    CoprimeBy(b, a, y, x);
  }

  lemma CoprimeOne(a: int)
    ensures Coprime(a, 1) && Coprime(1, a)
  {
    CoprimeBy(a, 1, 0, 1);
    CoprimeBy(1, a, 1, 0);
  }

  lemma CoprimeProduct(a: int, b: int, c: int)
    requires Coprime(a, b) && Coprime(a, c)
    ensures Coprime(a, b * c)
  {
    var x, y := CoprimeWitness(a, b);
    var u, v := CoprimeWitness(a, c);
    assert (a * x + b * y) * (a * u + c * v)
        == a * (x * a * u + x * c * v + b * y * u) + (b * c) * (y * v);
    CoprimeBy(a, b * c, x * a * u + x * c * v + b * y * u, y * v);
  }

  /** Factors of the second number stay coprime. */
  lemma CoprimeFactor(a: int, b: int, c: int)
    requires Coprime(a, b * c)
    ensures Coprime(a, b) && Coprime(a, c)
  {
    var x, y := CoprimeWitness(a, b * c);
    assert (b * c) * y == b * (c * y) == c * (b * y);
    CoprimeBy(a, b, x, c * y);
    CoprimeBy(a, c, x, b * y);
  }

  /** Adding multiples of the modulus changes nothing. */
  lemma CoprimeShift(a: int, b: int, k: int)
    requires Coprime(a, b)
    ensures Coprime(a + k * b, b)
  {
    var x, y := CoprimeWitness(a, b);
    assert (a + k * b) * x + b * (y - k * x) == a * x + b * y;
    CoprimeBy(a + k * b, b, x, y - k * x);
  }

  lemma CoprimeNegate(a: int, b: int)
    requires Coprime(a, b)
    ensures Coprime(-a, b) && Coprime(a, -b) && Coprime(-a, -b)
  {
    var x, y := CoprimeWitness(a, b);
    CoprimeBy(-a, b, -x, y);
    CoprimeBy(a, -b, x, -y);
    CoprimeBy(-a, -b, -x, -y);
  }

  /** Gauss's lemma. */
  lemma CoprimeDivides(a: int, b: int, c: int)
    requires Coprime(a, b) && Divides(a, b * c)
    ensures Divides(a, c)
  {
    var x, y := CoprimeWitness(a, b);
    var k := Quotient(a, b * c);
    assert c == (a * x + b * y) * c == (c * x + k * y) * a by {
      assert (a * x + b * y) * c == (c * x) * a + y * (b * c);
      assert y * (k * a) == (k * y) * a;
    }
    DividesBy(c * x + k * y, a, c);
  }

  /** Dividing both numbers by their gcd leaves coprime quotients. */
  lemma GcdQuotients(a: int, b: int) returns (k: int, l: int)
    requires a != 0 || b != 0
    ensures var g := Gcd(a, b);
            g > 0 && a == k * g && b == l * g && Coprime(k, l)
    ensures TruncDiv(a, Gcd(a, b)) == k && TruncDiv(b, Gcd(a, b)) == l
  {
    var g := Gcd(a, b);
    GcdPositive(a, b);
    GcdDivides(a, b);
    k := Quotient(g, a);
    l := Quotient(g, b);
    var x, y := Bezout(a, b);
    CombinationOfMultiples(k, l, g, x, y);
    CancelFactor(k * x + l * y, 1, g);
    CoprimeBy(k, l, x, y);
    ExactDiv(k, g);
    ExactDiv(l, g);
  }

  lemma CancelFactor(a: int, b: int, g: int)
    requires g != 0 && a * g == b * g
    ensures a == b
  {
    assert (a - b) * g == 0;
  }

  // ---------------------------------------------------- common multiples

  lemma Rearranged(q0: int, t0: int, h: int)
    ensures q0 * t0 * h == (q0 * h) * t0 == (t0 * h) * q0
  {
  }

  lemma LcmOfParts(k: int, l: int, g: int)
    requires g > 0 && Gcd(k * g, l * g) == g
    ensures Lcm(k * g, l * g) == Abs(k * l * g)
  {
    AbsQuotient(k, g);
    AbsTimes(l, g);
    AbsProduct(k, l, g);
  }

  lemma AbsQuotient(k: int, g: int)
    requires g > 0
    ensures Abs(k * g) / g == Abs(k)
  {
    AbsTimes(k, g);
    ExactDiv(Abs(k), g);
    MulMonotone(0, Abs(k), g);
  }

  lemma AbsProduct(k: int, l: int, g: int)
    requires g > 0
    ensures Abs(k) * (Abs(l) * g) == Abs(k * l * g)
  {
    AbsTimes(k, l);
    AbsTimes(k * l, g);
    Rearranged(Abs(k), Abs(l), g);
  }
}
