/** Durations with an integer count of a rational period: conversion, mixed-period
    comparison and arithmetic, and rounding up, against exact time values. Counts are
    unbounded integers. */
module Durations {
  import opened NumberTheory
  import opened RationalLaws
  import opened RationalValues
  import opened RationalLattice

  /** A `ratio` type: reduced, and positive where it is a period. */
  datatype Period = Period(num: int, den: int) {
    ghost predicate Valid() {
      num > 0 && Normal(num, den)
    }
  }

  datatype Duration = Duration(rep: int, period: Period) {
    /** The time value in seconds, as an unreduced fraction. */
    function Value(): Ratio {
      Ratio(rep * period.num, period.den)
    }
  }

  /** The time in seconds. */
  function Seconds(d: Duration): real
    requires d.period.den != 0
  {
    d.rep as real * (d.period.num as real / d.period.den as real)
  }

  lemma SecondsOfValue(d: Duration)
    requires d.period.den != 0
    ensures Seconds(d) == RealOf(d.Value())
  {
    ProductReal(Ratio(d.rep, 1), Ratio(d.period.num, d.period.den));
    assert Product(Ratio(d.rep, 1), Ratio(d.period.num, d.period.den)) == d.Value();
  }

  /** Exact comparison of fractions with positive denominators. */
  ghost predicate Less(x: Ratio, y: Ratio) {
    x.n * y.d < y.n * x.d
  }

  // -------------------------------------------------- arithmetic of periods

  /** `ratio_divide`: cross-cancelled before multiplying. */
  function RatioDivide(a: Period, b: Period): Period
    requires a.num > 0 && a.den > 0 && b.num > 0 && b.den > 0
  {
    GcdPositive(a.num, b.num);
    GcdPositive(a.den, b.den);
    var gn, gd := Gcd(a.num, b.num), Gcd(a.den, b.den);
    Period(TruncDiv(a.num, gn) * TruncDiv(b.den, gd), TruncDiv(b.num, gn) * TruncDiv(a.den, gd))
  }

  /** The period of `common_type`: `ratio_gcd`. */
  function CommonPeriod(a: Period, b: Period): Period {
    Period(Gcd(a.num, b.num), Lcm(a.den, b.den))
  }

  /** The quotient of two periods is exact, reduced and positive. */
  lemma RatioDivideExact(a: Period, b: Period)
    requires a.Valid() && b.Valid()
    ensures var p := RatioDivide(a, b);
            p.Valid() && p.num * (a.den * b.num) == (a.num * b.den) * p.den
  {
    var gn, gd := Gcd(a.num, b.num), Gcd(a.den, b.den);
    var an, bn := GcdQuotients(a.num, b.num);
    var ad, bd := GcdQuotients(a.den, b.den);
    CoprimeSymmetric(b.num, b.den);
    CoprimeSymmetric(ad, bd);
    // a divided by b is a times the reciprocal of b
    ProductReduced(a.num, a.den, b.den, b.num, gn, gd, an, bn, bd, ad);
    assert ad * bn == bn * ad;
    PositiveQuotients(an, gn, bd, gd);
    PositiveQuotients(bn, gn, ad, gd);
  }

  // ------------------------------------------------------------ conversion

  /** The four cases of `duration_cast_aux`, chosen by which half of the ratio is one. */
  function CastAux(count: int, ratio: Period): int
    requires ratio.den > 0
  {
    if ratio.num == 1 && ratio.den == 1 then count
    else if ratio.num == 1 then TruncDiv(count, ratio.den)
    else if ratio.den == 1 then count * ratio.num
    else TruncDiv(count * ratio.num, ratio.den)
  }

  /** `duration_cast<To>`. */
  function DurationCast(d: Duration, to: Period): Duration
    requires d.period.Valid() && to.Valid()
  {
    RatioDivideExact(d.period, to);
    Duration(CastAux(d.rep, RatioDivide(d.period, to)), to)
  }

  /** q is x/y truncated toward zero: the same sign, and the largest magnitude that fits. */
  predicate Truncates(q: int, x: int, y: int) {
    if x >= 0 then q * y <= x < (q + 1) * y else (q - 1) * y < x <= q * y
  }

  /** All four cases are one formula. */
  lemma CastAuxUniform(count: int, ratio: Period)
    requires ratio.den > 0
    ensures CastAux(count, ratio) == TruncDiv(count * ratio.num, ratio.den)
    ensures Truncates(CastAux(count, ratio), count * ratio.num, ratio.den)
  {
    var x := count * ratio.num;
    if ratio.den == 1 {
      ExactDiv(x, 1);
    }
    if ratio.num == 1 {
      assert count * 1 == count;
    }
    TruncBounds(x, ratio.den);
  }

  lemma TruncBounds(x: int, y: int)
    requires y > 0
    ensures Truncates(TruncDiv(x, y), x, y)
  {
    TruncFacts(x, y);
    var q := TruncDiv(x, y);
    assert (q + 1) * y == q * y + y && (q - 1) * y == q * y - y;
  }

  /** Scaling both sides does not move a truncated quotient. */
  lemma TruncatesScaled(q: int, x: int, y: int, x': int, y': int)
    requires y > 0 && y' > 0 && x * y' == x' * y && Truncates(q, x, y)
    ensures Truncates(q, x', y')
  {
    ScaledOrder(q, x, y, x', y');
    ScaledOrder(q + 1, x, y, x', y');
    ScaledOrder(q - 1, x, y, x', y');
    ScaledOrder(0, x, y, x', y');
  }

  lemma ScaledOrder(q: int, x: int, y: int, x': int, y': int)
    requires y > 0 && y' > 0 && x * y' == x' * y
    ensures (q * y <= x <==> q * y' <= x') && (x <= q * y <==> x' <= q * y')
  {
    var s, s' := x - q * y, x' - q * y';
    assert s * y' == s' * y by {
      assert (q * y) * y' == (q * y') * y;
      assert (x - q * y) * y' == x * y' - (q * y) * y';
      assert (x' - q * y') * y == x' * y - (q * y') * y;
    }
    SameSign(s, y', s', y);
  }

  lemma SameSign(s: int, a: int, t: int, b: int)
    requires a > 0 && b > 0 && s * a == t * b
    ensures (s >= 0 <==> t >= 0) && (s <= 0 <==> t <= 0)
  {
    if s > 0 { assert s * a > 0; }
    if s < 0 { assert s * a < 0; }
    if t > 0 { assert t * b > 0; }
    if t < 0 { assert t * b < 0; }
  }

  /** The cast truncates the exact time value in units of the target period toward zero. */
  lemma CastTruncates(d: Duration, to: Period)
    requires d.period.Valid() && to.Valid()
    ensures var r := DurationCast(d, to);
            r.period == to && Truncates(r.rep, d.rep * (d.period.num * to.den), d.period.den * to.num)
  {
    RatioDivideExact(d.period, to);
    var p := RatioDivide(d.period, to);
    CastAuxUniform(d.rep, p);
    PositiveQuotients(d.period.den, 1, to.num, 1);
    ScaledRatio(d.rep, p.num, d.period.den * to.num, d.period.num * to.den, p.den);
    TruncatesScaled(CastAux(d.rep, p), d.rep * p.num, p.den,
      d.rep * (d.period.num * to.den), d.period.den * to.num);
  }

  lemma ScaledRatio(n: int, a: int, b: int, c: int, d: int)
    requires a * b == c * d
    ensures (n * a) * b == (n * c) * d
  {
    assert (n * a) * b == n * (a * b);
    assert (n * c) * d == n * (c * d);
  }

  // --------------------------------------------------------- common period

  lemma MultipleGcd(k: int, g: int)
    requires k > 0 && g > 0
    ensures Gcd(k * g, g) == g && Gcd(g, k * g) == g
  {
    DividesBy(k, g, k * g);
    DividesBy(1, g, g);
    GcdUnique(k * g, g, g);
    GcdUnique(g, k * g, g);
  }

  lemma CommonValid(a: Period, b: Period)
    requires a.Valid() && b.Valid()
    ensures CommonPeriod(a, b).Valid()
  {
    GcdOfNormal(a.num, a.den, b.num, b.den);
    GcdPositive(a.num, b.num);
  }

  /** The least common multiple of two denominators, as a multiple of the first. */
  lemma LcmCofactor(q: int, t: int) returns (k: int)
    requires q > 0 && t > 0
    ensures k > 0 && Lcm(q, t) == k * q
  {
    var h := Gcd(q, t);
    var q0, t0 := GcdQuotients(q, t);
    LcmOfParts(q0, t0, h);
    PositiveQuotients(q0, h, t0, h);
    PositiveQuotients(q0, h, 1, 1);
    PositiveQuotients(t0, h, 1, 1);
    Rearranged(q0, t0, h);
    PositiveQuotients(q0 * t0, 1, h, 1);
    k := t0;
    assert q0 * t0 * h == (q0 * h) * t0;
  }

  /** Dividing by a common period cancels everything but the two cofactors. */
  lemma DivideByCommon(n: int, g: int, k: int, den: int)
    requires n > 0 && g > 0 && k > 0 && den > 0
    ensures n * g > 0 && k * den > 0
    ensures RatioDivide(Period(n * g, den), Period(g, k * den)) == Period(n * k, 1)
  {
    PositiveQuotients(n, 1, g, 1);
    PositiveQuotients(k, 1, den, 1);
    MultipleGcd(n, g);
    MultipleGcd(k, den);
    ExactDiv(n, g);
    ExactDiv(1, g);
    ExactDiv(k, den);
    ExactDiv(1, den);
  }

  /** A period is a whole multiple of the common period, and conversion to it multiplies. */
  lemma ToCommonExact(a: Period, b: Period) returns (k: int)
    requires a.Valid() && b.Valid()
    ensures var c := CommonPeriod(a, b);
            && c.Valid() && k > 0 && RatioDivide(a, c) == Period(k, 1)
            && a.num * c.den == k * (c.num * a.den)
  {
    CommonValid(a, b);
    var g := Gcd(a.num, b.num);
    var n, b1 := GcdQuotients(a.num, b.num);
    var t := LcmCofactor(a.den, b.den);
    PositiveQuotients(n, g, 1, 1);
    DivideByCommon(n, g, t, a.den);
    k := n * t;
    PositiveQuotients(n, 1, t, 1);
    FourFactors(n, g, t, a.den);
  }

  lemma FourFactors(n: int, g: int, t: int, d: int)
    ensures (n * g) * (t * d) == (n * t) * (g * d)
  {
    assert (n * g) * (t * d) == n * t * (g * d);
  }

  lemma CommonSymmetric(a: Period, b: Period)
    requires a.Valid() && b.Valid()
    ensures CommonPeriod(a, b) == CommonPeriod(b, a)
  {
    GcdSymmetric(a.num, b.num);
    GcdSymmetric(a.den, b.den);
    var q0, t0 := GcdQuotients(a.den, b.den);
    LcmOfParts(q0, t0, Gcd(a.den, b.den));
    LcmOfParts(t0, q0, Gcd(b.den, a.den));
    assert q0 * t0 == t0 * q0;
  }

  /** Conversion to the common period, as the converting constructor does it. */
  function ToCommon(d: Duration, other: Period): Duration
    requires d.period.Valid() && other.Valid()
  {
    CommonValid(d.period, other);
    DurationCast(d, CommonPeriod(d.period, other))
  }

  /** It loses nothing. */
  lemma ToCommonValue(d: Duration, other: Period)
    requires d.period.Valid() && other.Valid()
    ensures var r, c := ToCommon(d, other), CommonPeriod(d.period, other);
            c.Valid() && r.period == c && SameValue(r.Value(), d.Value())
  {
    var c := CommonPeriod(d.period, other);
    var k := ToCommonExact(d.period, other);
    assert ToCommon(d, other).rep == d.rep * k by {
      if k == 1 { assert d.rep * 1 == d.rep; }
    }
    assert (d.rep * k * c.num) * d.period.den == (d.rep * d.period.num) * c.den by {
      assert (d.rep * k * c.num) * d.period.den == d.rep * (k * (c.num * d.period.den));
      assert (d.rep * d.period.num) * c.den == d.rep * (d.period.num * c.den);
    }
  }

  // ----------------------------------------- comparison and arithmetic

  /** `duration_eq`, with its case for equal types. */
  function Equal(a: Duration, b: Duration): bool
    requires a.period.Valid() && b.period.Valid()
  {
    if a.period == b.period then a.rep == b.rep
    else ToCommon(a, b.period).rep == ToCommon(b, a.period).rep
  }

  /** `duration_lt`. */
  function LessThan(a: Duration, b: Duration): bool
    requires a.period.Valid() && b.period.Valid()
  {
    if a.period == b.period then a.rep < b.rep
    else ToCommon(a, b.period).rep < ToCommon(b, a.period).rep
  }

  function Plus(a: Duration, b: Duration): Duration
    requires a.period.Valid() && b.period.Valid()
  {
    Duration(ToCommon(a, b.period).rep + ToCommon(b, a.period).rep, CommonPeriod(a.period, b.period))
  }

  function Minus(a: Duration, b: Duration): Duration
    requires a.period.Valid() && b.period.Valid()
  {
    Duration(ToCommon(a, b.period).rep - ToCommon(b, a.period).rep, CommonPeriod(a.period, b.period))
  }

  /** Counts of one period compare like the time values. */
  lemma CountsCompare(m: int, n: int, p: Period, x: Ratio, y: Ratio)
    requires p.Valid() && x.d > 0 && y.d > 0
    requires SameValue(Ratio(m * p.num, p.den), x) && SameValue(Ratio(n * p.num, p.den), y)
    ensures m == n <==> SameValue(x, y)
    ensures m < n <==> Less(x, y)
  {
    // (m - n)·num·xd·yd == (xn·yd - yn·xd)·den
    var left, right := p.num * (x.d * y.d), x.n * y.d - y.n * x.d;
    PositiveQuotients(x.d, 1, y.d, 1);
    PositiveQuotients(p.num, 1, x.d * y.d, 1);
    assert (m - n) * left == right * p.den by {
      assert m * left == (m * p.num) * x.d * y.d == (x.n * p.den) * y.d;
      assert n * left == (n * p.num) * y.d * x.d == (y.n * p.den) * x.d;
      assert (m - n) * left == m * left - n * left;
      assert right * p.den == (x.n * p.den) * y.d - (y.n * p.den) * x.d;
    }
    SameSign(m - n, left, right, p.den);
  }

  /** Mixed-period equality and order agree with the exact time values. */
  lemma ComparesExactly(a: Duration, b: Duration)
    requires a.period.Valid() && b.period.Valid()
    ensures Equal(a, b) <==> SameValue(a.Value(), b.Value())
    ensures LessThan(a, b) <==> Less(a.Value(), b.Value())
    ensures (Equal(a, b) <==> Seconds(a) == Seconds(b)) && (LessThan(a, b) <==> Seconds(a) < Seconds(b))
  {
    SecondsOfValue(a);
    SecondsOfValue(b);
    SameValueReal(a.Value(), b.Value());
    LessReal(a.Value(), b.Value());
    if a.period == b.period {
      CountsCompare(a.rep, b.rep, a.period, a.Value(), b.Value());
    } else {
      ToCommonValue(a, b.period);
      ToCommonValue(b, a.period);
      CommonSymmetric(a.period, b.period);
      CountsCompare(ToCommon(a, b.period).rep, ToCommon(b, a.period).rep,
        CommonPeriod(a.period, b.period), a.Value(), b.Value());
    }
  }

  lemma SumOfCounts(m: int, n: int, p: Period, x: Ratio, y: Ratio)
    requires SameValue(Ratio(m * p.num, p.den), x) && SameValue(Ratio(n * p.num, p.den), y)
    ensures SameValue(Ratio((m + n) * p.num, p.den), RationalLaws.Plus(x, y))
    ensures SameValue(Ratio((m - n) * p.num, p.den), RationalLaws.Minus(x, y))
  {
    SumScaled(m * p.num, n * p.num, p.den, x.n, x.d, y.n, y.d);
    SumScaled(m * p.num, -(n * p.num), p.den, x.n, x.d, -y.n, y.d);
    assert (m + n) * p.num == m * p.num + n * p.num && (m - n) * p.num == m * p.num - n * p.num;
    assert (-y.n) * x.d == -(y.n * x.d);
  }

  lemma SumScaled(u: int, v: int, d: int, xn: int, xd: int, yn: int, yd: int)
    requires u * xd == xn * d && v * yd == yn * d
    ensures (u + v) * (xd * yd) == (xn * yd + yn * xd) * d
  {
    assert (u + v) * (xd * yd) == (u * xd) * yd + (v * yd) * xd;
    assert (xn * yd + yn * xd) * d == (xn * d) * yd + (yn * d) * xd;
  }

  /** Mixed-period sums and differences are exact. */
  lemma AddsExactly(a: Duration, b: Duration)
    requires a.period.Valid() && b.period.Valid()
    ensures SameValue(Plus(a, b).Value(), RationalLaws.Plus(a.Value(), b.Value()))
    ensures SameValue(Minus(a, b).Value(), RationalLaws.Minus(a.Value(), b.Value()))
  {
    ToCommonValue(a, b.period);
    ToCommonValue(b, a.period);
    CommonSymmetric(a.period, b.period);
    SumOfCounts(ToCommon(a, b.period).rep, ToCommon(b, a.period).rep, CommonPeriod(a.period, b.period),
      a.Value(), b.Value());
  }

  /** In seconds, and counted in the common period. */
  lemma AddsSeconds(a: Duration, b: Duration)
    requires a.period.Valid() && b.period.Valid()
    ensures Plus(a, b).period == Minus(a, b).period == CommonPeriod(a.period, b.period)
    ensures CommonPeriod(a.period, b.period).Valid()
    ensures Seconds(Plus(a, b)) == Seconds(a) + Seconds(b)
    ensures Seconds(Minus(a, b)) == Seconds(a) - Seconds(b)
  {
    var x, y := a.Value(), b.Value();
    CommonValid(a.period, b.period);
    AddsExactly(a, b);
    SecondsOfValue(a);
    SecondsOfValue(b);
    SecondsOfValue(Plus(a, b));
    SecondsOfValue(Minus(a, b));
    SumsReal(x, y);
    SameValueReal(Plus(a, b).Value(), RationalLaws.Plus(x, y));
    SameValueReal(Minus(a, b).Value(), RationalLaws.Minus(x, y));
  }

  // --------------------------------------------- which period is the common one

  /** The period p goes into the period a a whole number of times. */
  ghost predicate GoesInto(p: Period, a: Period) {
    exists k: int :: Goes(p, a, k)
  }

  predicate Goes(p: Period, a: Period, k: int) {
    a.num * p.den == k * (p.num * a.den)
  }

  lemma GoesReal(p: Period, a: Period, k: int)
    requires p.den != 0 && a.den != 0
    ensures Goes(p, a, k) <==> a.num as real / a.den as real == k as real * (p.num as real / p.den as real)
  {
    MultipleReal(Ratio(a.num, a.den), Ratio(p.num, p.den), k);
  }

  lemma GoesIsMultiple(p: Period, a: Period)
    ensures GoesInto(p, a) <==> MultipleOf(Ratio(a.num, a.den), Ratio(p.num, p.den))
  {
    if k :| Goes(p, a, k) {
      assert Multiple(Ratio(a.num, a.den), Ratio(p.num, p.den), k);
    }
    if k :| Multiple(Ratio(a.num, a.den), Ratio(p.num, p.den), k) {
      assert Goes(p, a, k);
    }
  }

  lemma EachIntoOther(p: Period, c: Period)
    requires p.Valid() && c.Valid() && GoesInto(p, c) && GoesInto(c, p)
    ensures p == c
  {
    var k :| Goes(p, c, k);
    var l :| Goes(c, p, l);
    var x, y := p.num * c.den, c.num * p.den;
    PositiveQuotients(p.num, 1, c.den, 1);
    PositiveQuotients(c.num, 1, p.den, 1);
    AtLeastOnce(k, x, y);
    AtLeastOnce(l, y, x);
    SameRatioSameTerms(p.num, p.den, c.num, c.den);
  }

  lemma AtLeastOnce(k: int, x: int, y: int)
    requires x > 0 && y > 0 && y == k * x
    ensures x <= y
  {
    assert k >= 1;
    MulMonotone(1, k, x);
  }

  lemma CommonIsGcd(a: Period, b: Period, p: Period)
    requires a.Valid() && b.Valid() && p.Valid()
    ensures var c := CommonPeriod(a, b);
            && c.Valid() && GoesInto(c, a) && GoesInto(c, b)
            && (GoesInto(p, a) && GoesInto(p, b) ==> GoesInto(p, c))
  {
    var c := CommonPeriod(a, b);
    CommonValid(a, b);
    GcdOfNormal(a.num, a.den, b.num, b.den);
    GoesIsMultiple(c, a);
    GoesIsMultiple(c, b);
    GoesIsMultiple(p, a);
    GoesIsMultiple(p, b);
    GoesIsMultiple(p, c);
  }

  /** The common period is the greatest one that goes into both periods: every other that
      does goes into it as well. No other period is like that. */
  lemma CommonExactly(a: Period, b: Period, p: Period)
    requires a.Valid() && b.Valid() && p.Valid()
    ensures p == CommonPeriod(a, b) <==>
            && GoesInto(p, a) && GoesInto(p, b)
            && forall q: Period :: q.Valid() && GoesInto(q, a) && GoesInto(q, b) ==> GoesInto(q, p)
  {
    var c := CommonPeriod(a, b);
    forall q: Period | q.Valid()
      ensures GoesInto(q, a) && GoesInto(q, b) ==> GoesInto(q, c)
    {
      CommonIsGcd(a, b, q);
    }
    CommonIsGcd(a, b, p);
    if GoesInto(p, a) && GoesInto(p, b) && GoesInto(c, p) {
      EachIntoOther(p, c);
    }
  }

  /** One hour and one minute are 61 minutes. */
  lemma HourAndMinute()
    ensures Period(3600, 1).Valid() && Period(60, 1).Valid()
    ensures Plus(Duration(1, Period(3600, 1)), Duration(1, Period(60, 1))) == Duration(61, Period(60, 1))
  {
    CoprimeOne(3600);
    CoprimeOne(60);
    assert Gcd(3600, 60) == 60 && Gcd(60, 3600) == 60 && Gcd(60, 60) == 60 && Gcd(1, 1) == 1;
  }

  // ---------------------------------------------------------------- ceil

  /** `ceil<To>`: the least duration of the target period that is not below d. */
  method Ceil(d: Duration, to: Period) returns (t: Duration)
    requires d.period.Valid() && to.Valid()
    ensures t.period == to
    ensures !Less(t.Value(), d.Value())
    ensures forall n: int :: !Less(Duration(n, to).Value(), d.Value()) ==> t.rep <= n
    ensures Seconds(t) >= Seconds(d)
  {
    t := DurationCast(d, to);
    CastTruncates(d, to);
    ComparesExactly(t, d);
    CeilOfTruncation(d, to, t.rep);
    if LessThan(t, d) {
      t := t.(rep := t.rep + 1);
    }
    SecondsOfValue(t);
    SecondsOfValue(d);
    LessReal(t.Value(), d.Value());
    forall n: int | !Less(Duration(n, to).Value(), d.Value())
      ensures t.rep <= n
    {
      LessByUnits(n, d, to);
      if n < t.rep {
        MulMonotone(n, t.rep - 1, d.period.den * to.num);
      }
    }
  }

  /** n target units are below d exactly when n times the one product is below the other. */
  lemma LessByUnits(n: int, d: Duration, to: Period)
    ensures Less(Duration(n, to).Value(), d.Value()) <==> n * (d.period.den * to.num) < d.rep * (d.period.num * to.den)
  {
    assert (n * to.num) * d.period.den == n * (d.period.den * to.num);
    assert (d.rep * d.period.num) * to.den == d.rep * (d.period.num * to.den);
  }

  lemma CeilOfTruncation(d: Duration, to: Period, q: int)
    requires d.period.Valid() && to.Valid()
    requires Truncates(q, d.rep * (d.period.num * to.den), d.period.den * to.num)
    ensures var up := if Less(Duration(q, to).Value(), d.Value()) then q + 1 else q;
            && !Less(Duration(up, to).Value(), d.Value())
            && (up - 1) * (d.period.den * to.num) < d.rep * (d.period.num * to.den)
  {
    LessByUnits(q, d, to);
    LessByUnits(q + 1, d, to);
    var x, y := d.rep * (d.period.num * to.den), d.period.den * to.num;
    assert y > 0;
    assert (q + 1) * y == q * y + y && (q - 1) * y == q * y - y;
  }
}
