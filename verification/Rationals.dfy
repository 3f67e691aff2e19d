/** The class of normalized fractions. Every operation leaves the normal form of the
    exact result, whatever shortcut it takes. */
module Rationals {
  import opened NumberTheory
  import opened RationalLaws
  import opened RationalValues

  /** How an operation ended; the second is the exception `bad_rational`. */
  datatype Outcome = Done | BadRational

  /** The largest magnitude in a list. */
  function Largest(xs: seq<int>): nat {
    if xs == [] then 0
    else
      var rest := Largest(xs[1..]);
      if Abs(xs[0]) > rest then Abs(xs[0]) else rest
  }

  /** No number in the list is larger in magnitude than the limit. */
  ghost predicate Within(xs: seq<int>, limit: nat) {
    forall i :: 0 <= i < |xs| ==> Abs(xs[i]) <= limit
  }

  lemma {:induction false} LargestBounds(xs: seq<int>)
    ensures Within(xs, Largest(xs))
  {
    if xs != [] {
      LargestBounds(xs[1..]);
      forall i | 0 <= i < |xs|
        ensures Abs(xs[i]) <= Largest(xs)
      {
        if i > 0 {
          assert xs[i] == xs[1..][i - 1];
        }
      }
    }
  }

  lemma {:induction false} LargestAttained(xs: seq<int>) returns (i: nat)
    requires xs != []
    ensures i < |xs| && Abs(xs[i]) == Largest(xs)
  {
    i := 0;
    if Abs(xs[0]) <= Largest(xs[1..]) && |xs| > 1 {
      i := LargestAttained(xs[1..]);
      i := i + 1;
    }
  }

  // ---------------------------------------------- the normal form test

  /** `inner_gcd`: Euclid's recursion on the built-in remainder, which may be negative. */
  function InnerGcd(a: int, b: int): int
    decreases Abs(b)
  {
    if b == 0 then a
    else
      TruncModSmaller(a, b);
      InnerGcd(b, TruncMod(a, b))
  }

  /** `is_normalized`. */
  predicate IsNormalized(n: int, d: int) {
    d > 0 && (n != 0 || d == 1) && Abs(InnerGcd(n, d)) == 1
  }

  lemma TruncModSmaller(a: int, b: int)
    requires b != 0
    ensures Abs(TruncMod(a, b)) < Abs(b)
  {
    DivisionIdentity(Abs(a), b);
    NegatedProduct(Abs(a) / b, b);
  }

  lemma DivisionIdentity(x: int, b: int)
    requires b != 0
    ensures x - (x / b) * b == x % b && 0 <= x % b < Abs(b)
  {
    assert x == b * (x / b) + x % b;
  }

  lemma TruncModIsShift(a: int, b: int) returns (k: int)
    requires b != 0
    ensures TruncMod(a, b) == a + k * b
  {
    k := -TruncDiv(a, b);
  }

  lemma ShiftedFactor(i: int, j: int, k: int, g: int)
    ensures i * g + k * (j * g) == (i + k * j) * g
  {
  }

  lemma GcdShift(a: int, b: int, k: int)
    ensures Gcd(a + k * b, b) == Gcd(a, b)
  {
    var c := a + k * b;
    GcdDivides(a, b);
    var g := Gcd(a, b);
    var i := Quotient(g, a);
    var j := Quotient(g, b);
    ShiftedFactor(i, j, k, g);
    DividesBy(i + k * j, g, c);
    forall d: int | Divides(d, c) && Divides(d, b)
      ensures Divides(d, g)
    {
      var u := Quotient(d, c);
      var v := Quotient(d, b);
      ShiftedFactor(u, v, -k, d);
      NegatedProduct(k, b);
      NegatedProduct(k, v);
      DividesBy(u - k * v, d, a);
      GcdGreatest(a, b, d);
    }
    GcdUnique(c, b, g);
  }

  /** Truncated remainders may change signs on the way but not the magnitude of the gcd. */
  lemma {:induction false} InnerGcdIsGcd(a: int, b: int)
    ensures Abs(InnerGcd(a, b)) == Gcd(a, b)
    decreases Abs(b)
  {
    if b != 0 {
      TruncModSmaller(a, b);
      InnerGcdIsGcd(b, TruncMod(a, b));
      var k := TruncModIsShift(a, b);
      GcdShift(a, b, k);
      GcdSymmetric(TruncMod(a, b), b);
    }
  }

  /** `is_normalized` accepts exactly the pairs that satisfy the class invariant. */
  lemma IsNormalizedExactly(n: int, d: int)
    ensures IsNormalized(n, d) <==> Normal(n, d)
    ensures Normal(n, d) <==> d > 0 && Gcd(n, d) == 1
  {
    InnerGcdIsGcd(n, d);
    CoprimeIffGcd(n, d);
    if n == 0 {
      GcdSymmetric(0, d);
    }
  }

  // ------------------------------------------------------------- the class

  /** The records that `operator<` steps through: n == q·d + r. */
  datatype Expansion = Expansion(n: int, d: int, q: int, r: int) {
    ghost predicate Proper() {
      d > 0 && n == q * d + r && 0 <= r < d
    }

    function Components(): seq<int> {
      [n, d, q, r]
    }
  }

  class Rational {
    var num: int
    var den: int

    ghost predicate Valid()
      reads this
    {
      Normal(num, den)
    }

    /** num/den is the normal form of the exact fraction. */
    ghost predicate Equals(x: Ratio)
      reads this
    {
      IsNormalForm(num, den, x.n, x.d)
    }

    function Value(): Ratio
      reads this
    {
      Ratio(num, den)
    }

    /** The real number held. */
    function Real(): real
      requires den != 0
      reads this
    {
      num as real / den as real
    }

    constructor ()
      ensures Valid() && num == 0 && den == 1
    {
      num, den := 0, 1;
      CoprimeOne(0);
    }

    constructor FromInt(n: int)
      ensures Valid() && num == n && den == 1
    {
      num, den := n, 1;
      CoprimeOne(n);
    }

    constructor Raw(n: int, d: int)
      ensures num == n && den == d
    {
      num, den := n, d;
    }

    /** The two-argument constructor; null stands for the exception. */
    static method Create(n: int, d: int) returns (r: Rational?)
      ensures r == null <==> d == 0
      ensures r != null ==> fresh(r) && r.Valid() && r.Equals(Ratio(n, d))
      ensures r != null ==> r.Real() == n as real / d as real
    {
      r := new Rational.Raw(n, d);
      var outcome := r.Normalize();
      if outcome == BadRational {
        r := null;
      } else {
        NormalFormReal(r.num, r.den, Ratio(n, d));
      }
    }

    /** `normalize`: refuses a zero denominator, reduces everything else. */
    method Normalize() returns (outcome: Outcome)
      modifies this
      ensures outcome == BadRational <==> old(den) == 0
      ensures outcome == BadRational ==> num == old(num) && den == old(den)
      ensures outcome == Done ==> Valid() && Equals(Ratio(old(num), old(den)))
    {
      if den == 0 { return BadRational; }
      if num == 0 {
        den := 1;
        CoprimeOne(0);
        return Done;
      }
      ghost var n, d := num, den;
      ghost var p, q := FullReduction(n, d);
      var g := Gcd(num, den);
      num := TruncDiv(num, g);
      den := TruncDiv(den, g);
      if den < 0 {
        NormalFormNegated(p, q, n, d);
        num := -num;
        den := -den;
      }
      return Done;
    }

    /** `assign`: an exception leaves the object as it was. */
    method Assign(n: int, d: int) returns (outcome: Outcome)
      modifies this
      ensures outcome == BadRational <==> d == 0
      ensures outcome == BadRational ==> num == old(num) && den == old(den)
      ensures outcome == Done ==> Valid() && Equals(Ratio(n, d)) && Real() == n as real / d as real
    {
      var r := Create(n, d);
      if r == null { return BadRational; }
      num, den := r.num, r.den;
      return Done;
    }

    /** `operator+=`; r may be the object itself. */
    method AddAssign(r: Rational)
      requires Valid() && r.Valid()
      modifies this
      ensures Valid() && Equals(old(Plus(Value(), r.Value())))
      ensures Real() == old(Real()) + old(r.Real())
    {
      ghost var x, y := Value(), r.Value();
      var rNum, rDen := r.num, r.den;
      ghost var a, b := num, den;
      var g := Gcd(den, rDen);
      ghost var b1, d1 := GcdQuotients(den, rDen);
      den := TruncDiv(den, g);
      num := num * TruncDiv(rDen, g) + rNum * den;
      ghost var n, g0 := num, g;
      ghost var n1, g1 := GcdQuotients(num, g);
      g := Gcd(num, g);
      num := TruncDiv(num, g);
      SumReduced(a, b, rNum, rDen, g0, b1, d1, n, g, n1, g1);
      ExactDiv(d1 * g1, g);
      den := den * TruncDiv(rDen, g);
      SumHeld(num, den, x, y);
    }

    /** `operator-=`; r may be the object itself. */
    method SubtractAssign(r: Rational)
      requires Valid() && r.Valid()
      modifies this
      ensures Valid() && Equals(old(Minus(Value(), r.Value())))
      ensures Real() == old(Real()) - old(r.Real())
    {
      ghost var x, y := Value(), r.Value();
      var rNum, rDen := r.num, r.den;
      ghost var a, b := num, den;
      var g := Gcd(den, rDen);
      ghost var b1, d1 := GcdQuotients(den, rDen);
      den := TruncDiv(den, g);
      num := num * TruncDiv(rDen, g) - rNum * den;
      ghost var n, g0 := num, g;
      ghost var n1, g1 := GcdQuotients(num, g);
      g := Gcd(num, g);
      num := TruncDiv(num, g);
      CoprimeNegate(rNum, rDen);
      NegatedProduct(rNum, b1);
      NegatedProduct(rNum, b);
      SumReduced(a, b, -rNum, rDen, g0, b1, d1, n, g, n1, g1);
      ExactDiv(d1 * g1, g);
      den := den * TruncDiv(rDen, g);
      SumHeld(num, den, x, y);
    }

    /** `operator*=`; nothing computed on the way exceeds the inputs and the result. */
    method MultiplyAssign(r: Rational) returns (ghost written: seq<int>)
      requires Valid() && r.Valid()
      modifies this
      ensures Valid() && Equals(old(Product(Value(), r.Value())))
      ensures Real() == old(Real()) * old(r.Real())
      ensures Within(written, Largest([old(num), old(den), old(r.num), old(r.den), num, den]))
    {
      ghost var x, y := Value(), r.Value();
      written := MultiplyBy(r.num, r.den);
      ProductHeld(num, den, x, y);
    }

    /** The body of `operator*=`; the argument has been copied. */
    method MultiplyBy(rNum: int, rDen: int) returns (ghost written: seq<int>)
      requires Valid() && Normal(rNum, rDen)
      modifies this
      ensures Valid() && Equals(old(Product(Value(), Ratio(rNum, rDen))))
      ensures Within(written, Largest([old(num), old(den), rNum, rDen, num, den]))
    {
      ghost var a, b := num, den;
      var gcd1 := Gcd(num, rDen);
      var gcd2 := Gcd(rNum, den);
      ProductParts(num, den, rNum, rDen);
      written := [gcd1, gcd2, TruncDiv(num, gcd1), TruncDiv(rNum, gcd2), TruncDiv(den, gcd2), TruncDiv(rDen, gcd1)];
      num := TruncDiv(num, gcd1) * TruncDiv(rNum, gcd2);
      den := TruncDiv(den, gcd2) * TruncDiv(rDen, gcd1);
      written := written + [num, den];
      WithinSix(a, b, rNum, rDen, num, den);
    }

    /** `operator/=`; the same bound holds. A zero divisor is refused and changes nothing. */
    method DivideAssign(r: Rational) returns (outcome: Outcome, ghost written: seq<int>)
      requires Valid() && r.Valid()
      modifies this
      ensures Valid()
      ensures outcome == BadRational <==> old(r.num) == 0
      ensures outcome == BadRational ==> num == old(num) && den == old(den)
      ensures outcome == Done ==> Equals(old(Fraction(Value(), r.Value())))
      ensures outcome == Done ==> old(r.Real()) != 0.0 && Real() * old(r.Real()) == old(Real())
      ensures Within(written, Largest([old(num), old(den), old(r.num), old(r.den), num, den]))
    {
      ghost var x, y := Value(), r.Value();
      var rNum, rDen := r.num, r.den;
      written := [];
      if rNum == 0 { return BadRational, written; }
      if num == 0 {
        NormalFormOfZero(den, x, y);
      } else {
        written := DivideReduced(rNum, rDen);
      }
      QuotientHeld(num, den, x, y);
      return Done, written;
    }

    /** The part of `operator/=` behind the special cases; the argument has been copied. */
    method DivideReduced(rNum: int, rDen: int) returns (ghost written: seq<int>)
      requires Valid() && Normal(rNum, rDen) && num != 0 && rNum != 0
      modifies this
      ensures Valid() && Equals(old(Fraction(Value(), Ratio(rNum, rDen))))
      ensures Within(written, Largest([old(num), old(den), rNum, rDen, num, den]))
    {
      ghost var a, b := num, den;
      var gcd1 := Gcd(num, rNum);
      var gcd2 := Gcd(rDen, den);
      QuotientReduced(num, den, rNum, rDen);
      written := [gcd1, gcd2, TruncDiv(num, gcd1), TruncDiv(rDen, gcd2), TruncDiv(den, gcd2), TruncDiv(rNum, gcd1)];
      num := TruncDiv(num, gcd1) * TruncDiv(rDen, gcd2);
      den := TruncDiv(den, gcd2) * TruncDiv(rNum, gcd1);
      written := written + [num, den];
      if den < 0 {
        NormalFormNegated(num, den, a * rDen, b * rNum);
        num := -num;
        den := -den;
      }
      WithinSix(a, b, rNum, rDen, num, den);
    }

    /** The integer forms. */
    method AddInt(i: int)
      requires Valid()
      modifies this
      ensures Valid() && Equals(old(Plus(Value(), Ratio(i, 1)))) && den == old(den)
      ensures Real() == old(Real()) + i as real
    {
      ghost var x := Value();
      CoprimeShift(num, den, i);
      num := num + i * den;
      SumHeld(num, den, x, Ratio(i, 1));
    }

    method SubtractInt(i: int)
      requires Valid()
      modifies this
      ensures Valid() && Equals(old(Minus(Value(), Ratio(i, 1)))) && den == old(den)
      ensures Real() == old(Real()) - i as real
    {
      ghost var x := Value();
      CoprimeShift(num, den, -i);
      num := num - i * den;
      SumHeld(num, den, x, Ratio(i, 1));
    }

    method MultiplyInt(i: int)
      requires Valid()
      modifies this
      ensures Valid() && Equals(old(Product(Value(), Ratio(i, 1))))
      ensures Real() == old(Real()) * i as real
    {
      ghost var x := Value();
      ghost var a, b := num, den;
      var gcd := Gcd(i, den);
      ghost var c1, b1 := GcdQuotients(i, den);
      ExactDiv(num, 1);
      CoprimeOne(num);
      CoprimeOne(i);
      num := num * TruncDiv(i, gcd);
      den := TruncDiv(den, gcd);
      ProductReduced(a, b, i, 1, 1, gcd, a, 1, c1, b1);
      PositiveQuotients(b1, gcd, 1, 1);
      ProductHeld(num, den, x, Ratio(i, 1));
    }

    method DivideInt(i: int) returns (outcome: Outcome)
      requires Valid()
      modifies this
      ensures Valid()
      ensures outcome == BadRational <==> i == 0
      ensures outcome == BadRational ==> num == old(num) && den == old(den)
      ensures outcome == Done ==> Equals(old(Fraction(Value(), Ratio(i, 1))))
      ensures outcome == Done ==> Real() * i as real == old(Real())
    {
      ghost var x := Value();
      if i == 0 { return BadRational; }
      if num == 0 {
        NormalFormOfZero(den, x, Ratio(i, 1));
      } else {
        DivideIntReduced(i);
      }
      QuotientHeld(num, den, x, Ratio(i, 1));
      return Done;
    }

    /** The part of the integer form behind the special cases. */
    method DivideIntReduced(i: int)
      requires Valid() && num != 0 && i != 0
      modifies this
      ensures Valid() && Equals(old(Fraction(Value(), Ratio(i, 1))))
    {
      ghost var a, b := num, den;
      var gcd := Gcd(num, i);
      ghost var a1, d1 := GcdQuotients(num, i);
      num := TruncDiv(num, gcd);
      den := den * TruncDiv(i, gcd);
      CoprimeOne(i);
      CoprimeOne(b);
      ProductReduced(a, b, 1, i, gcd, 1, a1, d1, 1, b);
      ZeroProduct(b, d1);
      if den < 0 {
        NormalFormNegated(num, den, a * 1, b * i);
        num := -num;
        den := -den;
      }
    }

    method Increment()
      requires Valid()
      modifies this
      ensures Valid() && Equals(old(Plus(Value(), Ratio(1, 1)))) && den == old(den)
      ensures Real() == old(Real()) + 1.0
    {
      ghost var x := Value();
      CoprimeShift(num, den, 1);
      num := num + den;
      SumHeld(num, den, x, Ratio(1, 1));
    }

    method Decrement()
      requires Valid()
      modifies this
      ensures Valid() && Equals(old(Minus(Value(), Ratio(1, 1)))) && den == old(den)
      ensures Real() == old(Real()) - 1.0
    {
      ghost var x := Value();
      CoprimeShift(num, den, -1);
      num := num - den;
      SumHeld(num, den, x, Ratio(1, 1));
    }

    /** `operator==`: comparing components is comparing values. */
    method EqualTo(r: Rational) returns (equal: bool)
      requires Valid() && r.Valid()
      ensures equal <==> num * r.den == r.num * den
      ensures equal <==> Real() == r.Real()
    {
      SameValueReal(Value(), r.Value());
      equal := num == r.num && den == r.den;
      if num * r.den == r.num * den {
        SameRatioSameTerms(num, den, r.num, r.den);
      }
    }

    /** `operator<`: both values are expanded into continued fractions in lockstep; the
        sense of the comparison reverses with every reciprocal. No number on the way
        is larger than the largest component, so nothing can overflow. */
    method LessThan(r: Rational) returns (less: bool, ghost written: seq<int>)
      requires Valid() && r.Valid()
      ensures less <==> num * r.den < r.num * den
      ensures less <==> Real() < r.Real()
      ensures Within(written, Largest([num, den, r.num, r.den]))
    {
      LessReal(Value(), r.Value());
      ghost var limit := Largest([num, den, r.num, r.den]);
      WithinFour(num, den, r.num, r.den);
      var ts := Expand(num, den);
      var rs := Expand(r.num, r.den);
      written := ts.Components() + rs.Components();
      ts := Floored(ts);
      rs := Floored(rs);
      written := written + ts.Components() + rs.Components();
      ghost var answer := Below(ts, rs);
      var reverse := false;
      while true
        invariant ts.Proper() && rs.Proper()
        invariant Within(ts.Components(), limit) && Within(rs.Components(), limit) && Within(written, limit)
        invariant answer == if reverse then Below(rs, ts) else Below(ts, rs)
        decreases ts.r
      {
        if ts.q != rs.q {
          QuotientsDecide(ts, rs);
          return if reverse then ts.q > rs.q else ts.q < rs.q, written;
        }
        reverse := !reverse;
        if ts.r == 0 || rs.r == 0 {
          break;
        }
        ghost var ts0, rs0 := ts, rs;
        ts := NextCycle(ts, limit);
        rs := NextCycle(rs, limit);
        ReciprocalsReverse(ts0, rs0, ts, rs);
        written := written + ts.Components() + rs.Components();
      }
      ExpansionsEnd(ts, rs);
      if ts.r == rs.r {
        less := false;
      } else {
        less := (ts.r != 0) != reverse;
      }
    }

    /** `operator<` with an integer on the right: only the floor is compared. */
    method LessThanInt(i: int) returns (less: bool)
      requires Valid()
      ensures less <==> num < i * den
      ensures less <==> Real() < i as real
    {
      LessReal(Value(), Ratio(i, 1));
      var ts := Expand(num, den);
      ts := Floored(ts);
      FloorBelow(ts, i);
      return ts.q < i;
    }
  }

  lemma NegatedProduct(x: int, y: int)
    ensures (-x) * y == -(x * y)
  {
  }

  lemma QuotientsBound(k: int, l: int, g: int, a: int, b: int)
    requires g > 0 && a == k * g && b == l * g && b != 0
    ensures Abs(k) <= Abs(a) && Abs(l) <= Abs(b) && g <= Abs(b)
  {
    QuotientSmaller(k, g);
    QuotientSmaller(l, g);
    AbsTimes(l, g);
    MulMonotone(1, Abs(l), g);
  }

  /** The cross-cancelled product of two fractions is reduced, and every factor of it is
      bounded by the number it was taken from. */
  lemma ProductParts(a: int, b: int, c: int, d: int)
    requires Normal(a, b) && Normal(c, d)
    ensures var g, h := Gcd(a, d), Gcd(c, b);
            && 0 < g <= Abs(d) && 0 < h <= Abs(b)
            && Abs(TruncDiv(a, g)) <= Abs(a) && Abs(TruncDiv(d, g)) <= Abs(d)
            && Abs(TruncDiv(c, h)) <= Abs(c) && Abs(TruncDiv(b, h)) <= Abs(b)
            && IsNormalForm(TruncDiv(a, g) * TruncDiv(c, h), TruncDiv(b, h) * TruncDiv(d, g), a * c, b * d)
  {
    var g, h := Gcd(a, d), Gcd(c, b);
    var a1, d1 := GcdQuotients(a, d);
    var c1, b1 := GcdQuotients(c, b);
    ProductReduced(a, b, c, d, g, h, a1, d1, c1, b1);
    PositiveQuotients(b1, h, d1, g);
    QuotientsBound(a1, d1, g, a, d);
    QuotientsBound(c1, b1, h, c, b);
  }

  lemma NormalFormOfZero(b: int, x: Ratio, y: Ratio)
    requires Normal(0, b) && x.n == 0
    ensures IsNormalForm(0, b, Fraction(x, y).n, Fraction(x, y).d)
  {
  }

  /** The cross-cancelled quotient of two fractions, its sign aside, is reduced, and
      every factor of it is bounded by the number it was taken from. */
  lemma QuotientReduced(a: int, b: int, c: int, d: int)
    requires Normal(a, b) && Normal(c, d) && a != 0 && c != 0
    ensures var g, h := Gcd(a, c), Gcd(d, b);
            && 0 < g <= Abs(c) && 0 < h <= Abs(b)
            && Abs(TruncDiv(a, g)) <= Abs(a) && Abs(TruncDiv(c, g)) <= Abs(c)
            && Abs(TruncDiv(d, h)) <= Abs(d) && Abs(TruncDiv(b, h)) <= Abs(b)
            && var p, q := TruncDiv(a, g) * TruncDiv(d, h), TruncDiv(b, h) * TruncDiv(c, g);
            q != 0 && Coprime(p, q) && p * (b * c) == (a * d) * q
  {
    var g, h := Gcd(a, c), Gcd(d, b);
    var a1, c1 := GcdQuotients(a, c);
    var d1, b1 := GcdQuotients(d, b);
    CoprimeSymmetric(c, d);
    ProductReduced(a, b, d, c, g, h, a1, c1, d1, b1);
    QuotientsBound(a1, c1, g, a, c);
    QuotientsBound(d1, b1, h, d, b);
    ZeroProduct(b1, c1);
  }

  lemma WithinFour(a: int, b: int, c: int, d: int)
    ensures var m := Largest([a, b, c, d]);
            Abs(a) <= m && Abs(b) <= m && Abs(c) <= m && Abs(d) <= m
  {
    var xs := [a, b, c, d];
    LargestBounds(xs);
    assert Abs(xs[0]) <= Largest(xs) && Abs(xs[1]) <= Largest(xs) && Abs(xs[2]) <= Largest(xs)
      && Abs(xs[3]) <= Largest(xs);
  }

  lemma WithinSix(a: int, b: int, c: int, d: int, e: int, f: int)
    ensures var m := Largest([a, b, c, d, e, f]);
            Abs(a) <= m && Abs(b) <= m && Abs(c) <= m && Abs(d) <= m && Abs(e) <= m && Abs(f) <= m
  {
    var xs := [a, b, c, d, e, f];
    LargestBounds(xs);
    assert Abs(xs[0]) <= Largest(xs) && Abs(xs[1]) <= Largest(xs) && Abs(xs[2]) <= Largest(xs);
    assert Abs(xs[3]) <= Largest(xs) && Abs(xs[4]) <= Largest(xs) && Abs(xs[5]) <= Largest(xs);
  }

  /** The first expansion stands for the smaller value. */
  ghost predicate Below(a: Expansion, b: Expansion) {
    a.n * b.d < b.n * a.d
  }

  /** Different integer parts settle the comparison. */
  lemma QuotientsDecide(ts: Expansion, rs: Expansion)
    requires ts.Proper() && rs.Proper() && ts.q != rs.q
    ensures Below(ts, rs) == (ts.q < rs.q)
    ensures Below(rs, ts) == (ts.q > rs.q)
  {
    if ts.q < rs.q {
      FloorsDecide(ts.n, ts.d, ts.q, ts.r, rs.n, rs.d, rs.q, rs.r);
    } else {
      FloorsDecide(rs.n, rs.d, rs.q, rs.r, ts.n, ts.d, ts.q, ts.r);
    }
  }

  /** With equal integer parts, the order is the reverse of that of the reciprocals of the rests. */
  lemma ReciprocalsReverse(ts: Expansion, rs: Expansion, ts': Expansion, rs': Expansion)
    requires ts.Proper() && rs.Proper() && ts.q == rs.q
    requires ts'.n == ts.d && ts'.d == ts.r && rs'.n == rs.d && rs'.d == rs.r
    ensures Below(ts, rs) == Below(rs', ts') && Below(rs, ts) == Below(ts', rs')
  {
    RemaindersDecide(ts.n, ts.d, ts.r, rs.n, rs.d, rs.r, ts.q);
  }

  /** When one expansion ends, its value is the smaller one unless the other ends as well. */
  lemma ExpansionsEnd(ts: Expansion, rs: Expansion)
    requires ts.Proper() && rs.Proper() && ts.q == rs.q && (ts.r == 0 || rs.r == 0)
    ensures Below(ts, rs) == (ts.r < rs.r) && Below(rs, ts) == (rs.r < ts.r)
  {
    RemaindersDecide(ts.n, ts.d, ts.r, rs.n, rs.d, rs.r, ts.q);
    ZeroOrPositive(ts.r, rs.d);
    ZeroOrPositive(rs.r, ts.d);
  }

  lemma ZeroOrPositive(r: int, d: int)
    requires r >= 0 && d > 0
    ensures if r == 0 then r * d == 0 else r * d > 0
  {
  }

  /** A value is below an integer exactly when its floor is. */
  lemma FloorBelow(e: Expansion, i: int)
    requires e.Proper()
    ensures e.n < i * e.d <==> e.q < i
  {
    if e.q < i {
      MulMonotone(e.q + 1, i, e.d);
    } else {
      MulMonotone(i, e.q, e.d);
    }
  }

  /** The record as first filled in, with the truncated quotient and remainder. */
  method Expand(n: int, d: int) returns (e: Expansion)
    requires d > 0
    ensures e.n == n && e.d == d && n == e.q * d + e.r && -d < e.r < d && (n >= 0 ==> e.r >= 0)
    ensures Abs(e.q) <= Abs(n) && Abs(e.r) <= d
  {
    TruncFacts(n, d);
    e := Expansion(n, d, TruncDiv(n, d), TruncMod(n, d));
    QuotientBound(n, d, e.q, e.r);
  }

  /** The loop that makes a negative remainder non-negative. */
  method Floored(e: Expansion) returns (f: Expansion)
    requires e.d > 0 && e.n == e.q * e.d + e.r && -e.d < e.r < e.d && (e.n >= 0 ==> e.r >= 0)
    ensures f.Proper() && f.n == e.n && f.d == e.d
    ensures Abs(f.q) <= Abs(e.n)
  {
    f := e;
    while f.r < 0
      invariant f.n == e.n && f.d == e.d
      invariant f.n == f.q * f.d + f.r && -f.d < f.r < f.d && (f.n >= 0 ==> f.r >= 0)
      decreases -f.r
    {
      f := f.(r := f.r + f.d, q := f.q - 1);
    }
    QuotientBound(f.n, f.d, f.q, f.r);
  }

  /** The denominator becomes the numerator and the remainder the denominator. */
  method NextCycle(e: Expansion, ghost limit: nat) returns (f: Expansion)
    requires e.Proper() && e.r > 0 && Within(e.Components(), limit)
    ensures f.Proper() && f.n == e.d && f.d == e.r
    ensures Within(f.Components(), limit)
  {
    assert Abs(e.Components()[1]) <= limit && Abs(e.Components()[3]) <= limit;
    f := Expand(e.d, e.r);
  }
}
