/** The gcd algorithms of the integer library, each of them against the mathematical
    greatest common divisor. Values are unbounded. */
module IntegerGcd {
  import opened NumberTheory

  /** `x << k`. */
  function Shifted(x: int, k: nat): (y: int)
    ensures x >= 0 ==> y >= 0
  {
    if k == 0 then x else 2 * Shifted(x, k - 1)
  }

  function Least(a: nat, b: nat): nat {
    if a < b then a else b
  }

  // ------------------------------------- greatest common divisors, described

  ghost predicate IsGcd(g: int, a: int, b: int) {
    && g >= 0 && Divides(g, a) && Divides(g, b)
    && forall d: int :: Divides(d, a) && Divides(d, b) ==> Divides(d, g)
  }

  lemma GcdIsGcd(a: int, b: int)
    ensures IsGcd(Gcd(a, b), a, b)
  {
    GcdDivides(a, b);
    forall d: int | Divides(d, a) && Divides(d, b)
      ensures Divides(d, Gcd(a, b))
    {
      GcdGreatest(a, b, d);
    }
  }

  /** A common multiple that divides every common multiple. */
  ghost predicate IsLcm(m: int, a: int, b: int) {
    && m >= 0 && Divides(a, m) && Divides(b, m)
    && forall d: int :: Divides(a, d) && Divides(b, d) ==> Divides(m, d)
  }

  lemma IsGcdSymmetric(g: int, a: int, b: int)
    requires IsGcd(g, a, b)
    ensures IsGcd(g, b, a)
  {
  }

  lemma DividesTransitive(d: int, a: int, b: int)
    requires Divides(d, a) && Divides(a, b)
    ensures Divides(d, b)
  {
    var k := Quotient(d, a);
    var l := Quotient(a, b);
    assert l * (k * d) == (l * k) * d;
    DividesBy(l * k, d, b);
  }

  lemma DividesSum(d: int, a: int, b: int)
    requires Divides(d, a) && Divides(d, b)
    ensures Divides(d, a + b) && Divides(d, a - b)
  {
    var k := Quotient(d, a);
    var l := Quotient(d, b);
    assert (k + l) * d == k * d + l * d && (k - l) * d == k * d - l * d;
    DividesBy(k + l, d, a + b);
    DividesBy(k - l, d, a - b);
  }

  lemma DividesMultiple(d: int, a: int, k: int)
    requires Divides(d, a)
    ensures Divides(d, k * a)
  {
    DividesBy(k, a, k * a);
    DividesTransitive(d, a, k * a);
  }

  /** The divisors of an odd number are odd, and so coprime to two. */
  lemma OddDivisor(d: int, b: int)
    requires Divides(d, b) && b % 2 == 1
    ensures Coprime(d, 2)
  {
    var k := Quotient(d, b);
    var h := d / 2;
    assert d == 2 * h + d % 2;
    assert k * (2 * h) == 2 * (k * h);
    assert d % 2 == 1;
    CoprimeBy(d, 2, 1, -h);
  }

  /** A factor of two on one side does not count when the other side is odd. */
  lemma StripTwo(g: int, a: int, b: int)
    requires b % 2 == 1 && IsGcd(g, 2 * a, b)
    ensures IsGcd(g, a, b)
  {
    OddDivisor(g, b);
    CoprimeDivides(g, 2, a);
    forall d: int | Divides(d, a) && Divides(d, b)
      ensures Divides(d, g)
    {
      DividesMultiple(d, a, 2);
    }
  }

  lemma {:induction false} StripPower(g: int, a: int, k: nat, b: int)
    requires b % 2 == 1 && IsGcd(g, Shifted(a, k), b)
    ensures IsGcd(g, a, b)
  {
    if k > 0 {
      StripTwo(g, Shifted(a, k - 1), b);
      StripPower(g, a, k - 1, b);
    }
  }

  lemma {:induction false} DividesShifted(d: int, a: int, k: nat)
    requires Divides(d, a)
    ensures Divides(d, Shifted(a, k))
  {
    if k > 0 {
      DividesShifted(d, a, k - 1);
      DividesMultiple(d, Shifted(a, k - 1), 2);
    }
  }

  /** Adding a factor of two on one side does not count either. */
  lemma AddPower(g: int, a: int, k: nat, b: int)
    requires b % 2 == 1 && IsGcd(g, a, b)
    ensures IsGcd(g, Shifted(a, k), b)
  {
    DividesShifted(g, a, k);
    forall d: int | Divides(d, Shifted(a, k)) && Divides(d, b)
      ensures Divides(d, g)
    {
      PowerOut(d, a, k, b);
    }
  }

  lemma {:induction false} PowerOut(d: int, a: int, k: nat, b: int)
    requires b % 2 == 1 && Divides(d, b) && Divides(d, Shifted(a, k))
    ensures Divides(d, a)
  {
    if k > 0 {
      OddDivisor(d, b);
      CoprimeDivides(d, 2, Shifted(a, k - 1));
      PowerOut(d, a, k - 1, b);
    }
  }

  lemma DoubledDivides(g: int, a: int)
    requires Divides(g, a)
    ensures Divides(2 * g, 2 * a)
  {
    var k := Quotient(g, a);
    assert k * (2 * g) == 2 * (k * g);
    DividesBy(k, 2 * g, 2 * a);
  }

  lemma DoubledGreatest(d: int, g: int, a: int, b: int, x: int, y: int)
    requires Divides(d, 2 * a) && Divides(d, 2 * b) && a * x + b * y == g
    ensures Divides(d, 2 * g)
  {
    DividesMultiple(d, 2 * a, x);
    DividesMultiple(d, 2 * b, y);
    DividesSum(d, x * (2 * a), y * (2 * b));
    assert x * (2 * a) == 2 * (a * x) && y * (2 * b) == 2 * (b * y);
  }

  /** A common factor of two comes out. */
  lemma CommonTwo(g: int, a: int, b: int)
    requires IsGcd(g, a, b)
    ensures IsGcd(2 * g, 2 * a, 2 * b)
  {
    GcdUnique(a, b, g);
    var x, y := Bezout(a, b);
    DoubledDivides(g, a);
    DoubledDivides(g, b);
    forall d: int | Divides(d, 2 * a) && Divides(d, 2 * b)
      ensures Divides(d, 2 * g)
    {
      DoubledGreatest(d, g, a, b, x, y);
    }
  }

  /** Of odd numbers times powers of two, the gcd is that of the odd ones times the lesser power. */
  lemma {:induction false} GcdOfPowers(g: int, u: int, i: nat, v: int, j: nat)
    requires u % 2 == 1 && v % 2 == 1 && IsGcd(g, u, v)
    ensures IsGcd(Shifted(g, Least(i, j)), Shifted(u, i), Shifted(v, j))
    decreases i
  {
    if i == 0 {
      AddPower(g, v, j, u);
    } else if j == 0 {
      AddPower(g, u, i, v);
    } else {
      GcdOfPowers(g, u, i - 1, v, j - 1);
      assert Least(i, j) == Least(i - 1, j - 1) + 1;
      CommonTwo(Shifted(g, Least(i - 1, j - 1)), Shifted(u, i - 1), Shifted(v, j - 1));
    }
  }

  lemma GcdDifference(g: int, u: int, v: int)
    requires IsGcd(g, u, v)
    ensures IsGcd(g, u, v - u) && IsGcd(g, u - v, v)
  {
    DividesSum(g, v, u);
    DividesSum(g, u, v);
    forall d: int | Divides(d, u) && Divides(d, v - u)
      ensures Divides(d, g)
    {
      DividesSum(d, v - u, u);
    }
    forall d: int | Divides(d, u - v) && Divides(d, v)
      ensures Divides(d, g)
    {
      DividesSum(d, u - v, v);
    }
  }

  lemma GcdRemainder(g: int, u: int, v: int)
    requires v != 0 && IsGcd(g, u, v)
    ensures IsGcd(g, u % v, v)
  {
    var q, r := u / v, u % v;
    assert u == q * v + r;
    DividesMultiple(g, v, q);
    DividesSum(g, u, q * v);
    forall d: int | Divides(d, r) && Divides(d, v)
      ensures Divides(d, g)
    {
      DividesMultiple(d, v, q);
      DividesSum(d, q * v, r);
    }
  }

  lemma GcdWithZero(g: int, v: int)
    requires IsGcd(g, 0, v) && v >= 0
    ensures g == v
  {
    DividesBy(0, v, 0);
    DividesBy(1, v, v);
    DividesAntisymmetric(g, v);
  }

  lemma GcdWithOne(g: int, u: int)
    requires IsGcd(g, u, 1)
    ensures g == 1
  {
    DividesBound(g, 1);
  }

  lemma GcdWithItself(g: int, m: int)
    requires IsGcd(g, m, m) && m >= 0
    ensures g == m
  {
    DividesBy(1, m, m);
    DividesAntisymmetric(g, m);
  }

  // ---------------------------------------------------------- algorithms

  lemma {:induction false} ShiftedTwice(x: int, k: nat)
    ensures Shifted(2 * x, k) == Shifted(x, k + 1)
  {
    if k > 0 {
      ShiftedTwice(x, k - 1);
    }
  }

  /** `make_odd`: strips the factors of two and counts them. */
  method MakeOdd(val: nat) returns (odd: nat, r: nat)
    requires val > 0
    ensures odd % 2 == 1 && val == Shifted(odd, r)
    ensures odd <= val && (val % 2 == 1 ==> odd == val)
  {
    odd, r := val, 0;
    while odd % 2 == 0
      invariant 0 < odd <= val && val == Shifted(odd, r)
      invariant val % 2 == 1 ==> odd == val
      decreases odd
    {
      ShiftedTwice(odd / 2, r);
      odd := odd / 2;
      r := r + 1;
    }
  }

  lemma GcdBesideZero(v: nat)
    ensures IsGcd(v, 0, v) && IsGcd(v, v, 0)
  {
    DividesBy(0, v, 0);
    DividesBy(1, v, v);
  }

  /** `mixed_binary_gcd`, the one used for built-in integers. */
  method MixedBinaryGcd(u0: nat, v0: nat) returns (g: nat)
    ensures IsGcd(g, u0, v0)
  {
    var u, v := u0, v0;
    if u < v {
      u, v := v, u;
    }
    GcdBesideZero(u);
    GcdBesideZero(v);
    if u == 0 { return v; }
    if v == 0 { return u; }
    var i, j;
    u, i := MakeOdd(u);
    v, j := MakeOdd(v);
    var shifts := Least(i, j);
    ghost var h := Gcd(u, v);
    GcdIsGcd(u, v);
    GcdOfPowers(h, u, i, v, j);
    var odd := MixedLoop(h, u, v);
    return Shifted(odd, shifts);
  }

  /** The loop of `mixed_binary_gcd`: reduce, subtract, strip, swap. The remainder u is
      less than v, so v stays positive and the source's exit for v == 0 is never taken. */
  method MixedLoop(ghost h: int, u0: nat, v0: nat) returns (g: nat)
    requires u0 % 2 == 1 && v0 % 2 == 1 && IsGcd(h, u0, v0)
    ensures g == h
  {
    var u, v := u0, v0;
    while 1 < v
      invariant u % 2 == 1 && v % 2 == 1 && IsGcd(h, u, v)
      decreases v
    {
      var r := Remainder(h, u, v);
      GcdDifference(h, r, v);
      u, v := r, v - r;
      if u == 0 {
        GcdWithZero(h, v);
        return v;
      }
      u, v := StripBoth(h, u, v);
      if u < v {
        u, v := v, u;
      }
    }
    GcdWithOne(h, u);
    return if v == 1 then v else u;
  }

  method Remainder(ghost h: int, u: nat, v: nat) returns (r: nat)
    requires v > 0 && IsGcd(h, u, v)
    ensures r == u % v && r < v && IsGcd(h, r, v)
  {
    GcdRemainder(h, u, v);
    r := u % v;
  }

  method StripOne(ghost h: int, odd: nat, val: nat) returns (v: nat)
    requires odd % 2 == 1 && val > 0 && IsGcd(h, odd, val)
    ensures v % 2 == 1 && v <= val && IsGcd(h, odd, v)
  {
    var k;
    v, k := MakeOdd(val);
    IsGcdSymmetric(h, odd, val);
    StripPower(h, v, k, odd);
    IsGcdSymmetric(h, v, odd);
  }

  /** `make_odd` of both numbers, one of which is odd already. */
  method StripBoth(ghost h: int, u0: nat, v0: nat) returns (u: nat, v: nat)
    requires u0 > 0 && v0 > 0 && (u0 + v0) % 2 == 1 && IsGcd(h, u0, v0)
    ensures u % 2 == 1 && v % 2 == 1 && u <= u0 && v <= v0 && IsGcd(h, u, v)
  {
    var k;
    if u0 % 2 == 1 {
      u, k := MakeOdd(u0);
      assert u == u0;
      v := StripOne(h, u0, v0);
    } else {
      v, k := MakeOdd(v0);
      assert v == v0;
      IsGcdSymmetric(h, u0, v0);
      u := StripOne(h, v0, u0);
      IsGcdSymmetric(h, v0, u);
    }
  }

  /** `Stein_gcd`. */
  method SteinGcd(m0: nat, n0: nat) returns (g: nat)
    ensures IsGcd(g, m0, n0)
  {
    GcdBesideZero(m0);
    GcdBesideZero(n0);
    if m0 == 0 { return n0; }
    if n0 == 0 { return m0; }
    var dm, dn, m, n;
    m, dm := MakeOdd(m0);
    n, dn := MakeOdd(n0);
    ghost var h := Gcd(m, n);
    GcdIsGcd(m, n);
    GcdOfPowers(h, m, dm, n, dn);
    var odd := SteinLoop(h, m, n);
    return Shifted(odd, Least(dm, dn));
  }

  /** The loop of `Stein_gcd`: swap, subtract, strip. */
  method SteinLoop(ghost h: int, m0: nat, n0: nat) returns (m: nat)
    requires m0 % 2 == 1 && n0 % 2 == 1 && IsGcd(h, m0, n0)
    ensures m == h
  {
    m := m0;
    var n: nat := n0;
    while m != n
      invariant m % 2 == 1 && n % 2 == 1 && IsGcd(h, m, n)
      decreases m + n
    {
      if n > m {
        m, n := n, m;
      }
      GcdDifference(h, m, n);
      m := StripOne(h, n, m - n);
    }
    GcdWithItself(h, m);
  }

  /** `Euclid_gcd`. */
  method EuclidGcd(a0: nat, b0: nat) returns (g: nat)
    ensures IsGcd(g, a0, b0)
  {
    ghost var h := Gcd(a0, b0);
    GcdIsGcd(a0, b0);
    var a, b := a0, b0;
    while b != 0
      invariant IsGcd(h, a, b)
      decreases b
    {
      GcdRemainder(h, a, b);
      a := a % b;
      a, b := b, a;
    }
    GcdWithZero(h, a);
    return a;
  }

  /** `integer::gcd` on numbers of either sign. */
  method GcdOf(a: int, b: int) returns (g: nat)
    ensures g == Gcd(a, b)
  {
    g := MixedBinaryGcd(Abs(a), Abs(b));
    GcdOfAbs(g, a, b);
  }

  /** `integer::lcm`: the quotient of the one number by the gcd, times the other. */
  method LcmOf(a: int, b: int) returns (m: nat)
    ensures m == Lcm(a, b) && IsLcm(m, a, b)
  {
    var temp := MixedBinaryGcd(Abs(a), Abs(b));
    GcdOfAbs(temp, a, b);
    LcmIsLcm(a, b);
    LcmFormula(a, b, temp);
    return if temp != 0 then Quot(Abs(a), temp) * Abs(b) else 0;
  }

  function Quot(a: nat, g: nat): nat
    requires g > 0
  {
    a / g
  }

  lemma LcmFormula(a: int, b: int, g: nat)
    requires g == Gcd(a, b)
    ensures Lcm(a, b) == if g == 0 then 0 else Quot(Abs(a), g) * Abs(b)
    ensures g > 0 ==> Quot(Abs(a), g) * Abs(b) >= 0
  {
    if g > 0 {
      MulMonotone(0, Quot(Abs(a), g), Abs(b));
    }
  }

  /** The least common multiple is one: zero only beside a zero, and otherwise the product
      of the gcd and the two cofactors. */
  lemma LcmIsLcm(a: int, b: int)
    ensures IsLcm(Lcm(a, b), a, b)
  {
    if a == 0 || b == 0 {
      LcmBesideZero(a, b);
    } else {
      var g := Gcd(a, b);
      var k, l := GcdQuotients(a, b);
      LcmOfParts(k, l, g);
      var m := k * l * g;
      Rearranged(k, l, g);
      DividesBy(l, a, m);
      DividesBy(k, b, m);
      DividesAbs(a, m);
      DividesAbs(b, m);
      forall d: int | Divides(a, d) && Divides(b, d)
        ensures Divides(Abs(m), d)
      {
        CofactorsDivide(k, l, g, d);
        AbsDivides(m, d);
      }
    }
  }

  lemma LcmBesideZero(a: int, b: int)
    requires a == 0 || b == 0
    ensures Lcm(a, b) == 0 && IsLcm(0, a, b)
  {
    if Gcd(a, b) > 0 && a != 0 {
      assert Abs(b) == 0;
    }
    DividesBy(0, a, 0);
    DividesBy(0, b, 0);
    forall d: int | Divides(a, d) && Divides(b, d)
      ensures Divides(0, d)
    {
      var k := Quotient(if a == 0 then a else b, d);
      DividesBy(0, 0, d);
    }
  }

  /** A common multiple of k·g and l·g is a multiple of k·l·g if k and l are coprime. */
  lemma CofactorsDivide(k: int, l: int, g: int, d: int)
    requires g > 0 && Coprime(k, l) && Divides(k * g, d) && Divides(l * g, d)
    ensures Divides(k * l * g, d)
  {
    var i := Quotient(k * g, d);
    var j := Quotient(l * g, d);
    assert (i * k) * g == (j * l) * g;
    CancelFactor(k * i, j * l, g);
    DividesBy(j, l, k * i);
    CoprimeSymmetric(k, l);
    CoprimeDivides(l, k, i);
    var t := Quotient(l, i);
    assert d == (t * l) * (k * g) == t * (k * l * g);
    DividesBy(t, k * l * g, d);
  }

  lemma AbsDivides(m: int, d: int)
    requires Divides(m, d)
    ensures Divides(Abs(m), d)
  {
    var k := Quotient(m, d);
    assert k * m == (-k) * (-m);
    DividesBy(if m < 0 then -k else k, Abs(m), d);
  }

  lemma DividesAbs(d: int, a: int)
    ensures Divides(d, Abs(a)) <==> Divides(d, a)
  {
    if Divides(d, a) {
      DividesMultiple(d, a, -1);
    }
    if Divides(d, Abs(a)) {
      DividesMultiple(d, Abs(a), -1);
    }
  }

  lemma GcdOfAbs(g: nat, a: int, b: int)
    requires IsGcd(g, Abs(a), Abs(b))
    ensures g == Gcd(a, b)
  {
    DividesAbs(g, a);
    DividesAbs(g, b);
    forall d: int | Divides(d, a) && Divides(d, b)
      ensures Divides(d, g)
    {
      DividesAbs(d, a);
      DividesAbs(d, b);
    }
    GcdUnique(a, b, g);
  }
}
