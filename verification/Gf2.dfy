/** Polynomials over GF(2), lowest coefficient first, and the theorem that ties
    the CRC register to them: the register is the remainder of a polynomial division. */
module Gf2 {
  import opened Bits
  import opened CrcSpec

  function Max(a: nat, b: nat): nat {
    if a < b then b else a
  }

  function Coefficient(p: Bits, i: nat): bool {
    i < |p| && p[i]
  }

  function Add(p: Bits, q: Bits): Bits {
    seq(Max(|p|, |q|), i requires 0 <= i => Coefficient(p, i) != Coefficient(q, i))
  }

  function Scale(c: bool, p: Bits): Bits {
    if c then p else Zeros(|p|)
  }

  /** The product with x. */
  function TimesX(p: Bits): Bits {
    [false] + p
  }

  function Mul(q: Bits, p: Bits): (r: Bits)
    requires p != []
    ensures |r| == if q == [] then 0 else |q| + |p| - 1
  {
    if q == [] then [] else Add(Scale(q[0], p), TimesX(Mul(q[1..], p)))
  }

  /** x^Bits plus the truncated polynomial. */
  function Divisor(truncated: Bits): Bits {
    truncated + [true]
  }

  /** r·x^m + M·x^n: the register's own bits stand above the message, whose
      first bit is its highest coefficient. */
  function Dividend(r: Bits, message: seq<bool>): Bits {
    Add(Zeros(|message|) + r, Zeros(|r|) + Reversed(message))
  }

  ghost predicate Divides(r: Bits, message: seq<bool>, p: Bits, quotient: Bits, remainder: Bits) {
    |quotient| == |message| && Dividend(r, message) == Add(Mul(quotient, Divisor(p)), remainder)
  }

  /** The quotient bits are the steps at which a subtraction took place. */
  function Quotient(r: Bits, message: seq<bool>, p: Bits): (q: Bits)
    requires |r| == |p| >= 1
    ensures |q| == |message|
  {
    if message == [] then []
    else
      var before, last := message[..|message| - 1], message[|message| - 1];
      [Run(r, before, p)[|r| - 1] != last] + Quotient(r, before, p)
  }

  lemma RunSnoc(r: Bits, before: seq<bool>, bit: bool, p: Bits)
    requires |r| == |p| >= 1
    ensures Run(r, before + [bit], p) == Step(Run(r, before, p), bit, p)
  {
    RunConcat(r, before, [bit], p);
  }

  lemma AddAssociative(a: Bits, b: Bits, c: Bits)
    ensures Add(Add(a, b), c) == Add(a, Add(b, c))
  {
  }

  lemma TimesXAdd(a: Bits, b: Bits)
    requires a != [] || b != []
    ensures TimesX(Add(a, b)) == Add(TimesX(a), TimesX(b))
  {
  }

  /** One step, as an equation between polynomials of degree at most Bits. */
  lemma StepEquation(r: Bits, bit: bool, p: Bits)
    requires |r| == |p| >= 1
    ensures Add(TimesX(r), Zeros(|r|) + [bit])
         == Add(Scale(r[|r| - 1] != bit, Divisor(p)), Step(r, bit, p))
  {
  }

  lemma DividendSnoc(r: Bits, before: seq<bool>, bit: bool)
    requires r != []
    ensures Dividend(r, before + [bit]) == Add(TimesX(Dividend(r, before)), Zeros(|r|) + [bit])
  {
    var m, n := |before|, |r|;
    var left, right := Dividend(r, before + [bit]), Add(TimesX(Dividend(r, before)), Zeros(n) + [bit]);
    assert |left| == |right| == m + 1 + n;
    forall i | 0 <= i < |left|
      ensures left[i] == right[i]
    {
    }
  }

  /** The register is a remainder: r·x^m + M·x^n == Q·P + Run(r, M). */
  lemma {:induction false} RunDivides(r: Bits, message: seq<bool>, p: Bits)
    requires |r| == |p| >= 1
    ensures Divides(r, message, p, Quotient(r, message, p), Run(r, message, p))
    decreases |message|
  {
    var n, m := |r|, |message|;
    if m == 0 {
      assert Dividend(r, message) == r;
      assert Add([], r) == r;
    } else {
      var before, bit := message[..m - 1], message[m - 1];
      assert message == before + [bit];
      var held := Run(r, before, p);
      var q, d := Quotient(r, before, p), Divisor(p);
      var c := held[n - 1] != bit;
      RunDivides(r, before, p);
      DividendSnoc(r, before, bit);
      RunSnoc(r, before, bit, p);
      StepEquation(held, bit, p);
      DivideOneMore(Mul(q, d), held, Zeros(n) + [bit], Scale(c, d), Run(r, message, p));
      assert Quotient(r, message, p) == [c] + q;
      assert ([c] + q)[1..] == q;
    }
  }

  lemma AddCommutes(a: Bits, b: Bits)
    ensures Add(a, b) == Add(b, a)
  {
  }

  /** One more step of the division, as polynomials: what was divided and its remainder
      move up, and the divisor may come off. */
  lemma DivideOneMore(product: Bits, held: Bits, low: Bits, off: Bits, left: Bits)
    requires held != [] && Add(TimesX(held), low) == Add(off, left)
    ensures Add(TimesX(Add(product, held)), low) == Add(Add(off, TimesX(product)), left)
  {
    var up := TimesX(product);
    calc {
      Add(TimesX(Add(product, held)), low);
      { TimesXAdd(product, held); AddAssociative(up, TimesX(held), low); }
      Add(up, Add(off, left));
      { AddAssociative(up, off, left); AddCommutes(up, off); }
      Add(Add(off, up), left);
    }
  }

  // ----------------------------------------------- the remainder is unique

  lemma {:induction false} MulLinear(a: Bits, b: Bits, p: Bits)
    requires p != [] && |a| == |b|
    ensures Mul(Xor(a, b), p) == Xor(Mul(a, p), Mul(b, p))
  {
    if a != [] {
      MulLinear(a[1..], b[1..], p);
      assert Xor(a, b)[1..] == Xor(a[1..], b[1..]);
      MulLinearStep(a[0], b[0], p, Mul(a[1..], p), Mul(b[1..], p));
    }
  }

  lemma MulLinearStep(c: bool, d: bool, p: Bits, u: Bits, v: Bits)
    requires |u| == |v|
    ensures Add(Scale(c != d, p), TimesX(Xor(u, v)))
         == Xor(Add(Scale(c, p), TimesX(u)), Add(Scale(d, p), TimesX(v)))
  {
    var left, right := Add(Scale(c != d, p), TimesX(Xor(u, v))),
        Xor(Add(Scale(c, p), TimesX(u)), Add(Scale(d, p), TimesX(v)));
    forall i | 0 <= i < |left|
      ensures left[i] == right[i]
    {
      assert Coefficient(Scale(c != d, p), i) == (Coefficient(Scale(c, p), i) != Coefficient(Scale(d, p), i));
      assert Coefficient(TimesX(Xor(u, v)), i) == (Coefficient(TimesX(u), i) != Coefficient(TimesX(v), i));
    }
  }

  lemma {:induction false} MulZeros(k: nat, p: Bits)
    requires p != []
    ensures Mul(Zeros(k), p) == if k == 0 then [] else Zeros(k + |p| - 1)
  {
    if k > 0 {
      MulZeros(k - 1, p);
      assert Zeros(k)[1..] == Zeros(k - 1);
      assert Scale(false, p) == Zeros(|p|);
    }
  }

  /** A product with nothing at the divisor's degree or above has no such part in its tail. */
  lemma TailIsSmall(q: Bits, p: Bits)
    requires q != []
    requires forall i :: |p| <= i < |Mul(q, Divisor(p))| ==> !Mul(q, Divisor(p))[i]
    ensures forall i :: |p| <= i < |Mul(q[1..], Divisor(p))| ==> !Mul(q[1..], Divisor(p))[i]
  {
    var whole, tail := Mul(q, Divisor(p)), Mul(q[1..], Divisor(p));
    forall i | |p| <= i < |tail|
      ensures !tail[i]
    {
      assert whole[i + 1] == tail[i];
    }
  }

  lemma LowestStands(q: Bits, p: Bits)
    requires q != [] && q[1..] == Zeros(|q| - 1)
    ensures |Mul(q, Divisor(p))| > |p| && Mul(q, Divisor(p))[|p|] == q[0]
  {
    MulZeros(|q| - 1, Divisor(p));
    var tail := Mul(q[1..], Divisor(p));
    assert TimesX(tail) == Zeros(|tail| + 1);
  }

  /** A multiple of a monic polynomial of degree n with no coefficient at n or above is zero. */
  lemma {:induction false} SmallMultipleIsZero(q: Bits, p: Bits)
    requires forall i :: |p| <= i < |Mul(q, Divisor(p))| ==> !Mul(q, Divisor(p))[i]
    ensures q == Zeros(|q|)
  {
    if q != [] {
      TailIsSmall(q, p);
      SmallMultipleIsZero(q[1..], p);
      LowestStands(q, p);
      assert q == [q[0]] + q[1..];
    }
  }

  lemma HighPart(m: Bits, r: Bits, i: nat)
    requires |r| <= i < |m|
    ensures Add(m, r)[i] == m[i]
  {
  }

  lemma CancelAdd(m: Bits, r1: Bits, r2: Bits)
    requires |r1| == |r2| && Add(m, r1) == Add(m, r2)
    ensures r1 == r2
  {
    forall i | 0 <= i < |r1|
      ensures r1[i] == r2[i]
    {
      assert Add(m, r1)[i] == (Coefficient(m, i) != r1[i]);
      assert Add(m, r2)[i] == (Coefficient(m, i) != r2[i]);
    }
  }

  lemma RemainderUnique(q1: Bits, r1: Bits, q2: Bits, r2: Bits, p: Bits)
    requires |q1| == |q2| && |r1| == |r2| == |p|
    requires Add(Mul(q1, Divisor(p)), r1) == Add(Mul(q2, Divisor(p)), r2)
    ensures q1 == q2 && r1 == r2
  {
    var m1, m2 := Mul(q1, Divisor(p)), Mul(q2, Divisor(p));
    assert Mul(Xor(q1, q2), Divisor(p)) == Xor(m1, m2) by { MulLinear(q1, q2, Divisor(p)); }
    forall i | |p| <= i < |m1|
      ensures !Xor(m1, m2)[i]
    {
      HighPart(m1, r1, i);
      HighPart(m2, r2, i);
    }
    SmallMultipleIsZero(Xor(q1, q2), p);
    XorZeroIff(q1, q2);
    CancelAdd(m1, r1, r2);
  }

  /** The CRC register is the one and only remainder of that division. */
  lemma RegisterIsRemainder(r: Bits, message: seq<bool>, p: Bits, candidate: Bits)
    requires |r| == |p| == |candidate| >= 1
    ensures candidate == Run(r, message, p) <==> exists q: Bits :: Divides(r, message, p, q, candidate)
  {
    RunDivides(r, message, p);
    forall q: Bits | Divides(r, message, p, q, candidate)
      ensures candidate == Run(r, message, p)
    {
      RemainderUnique(q, candidate, Quotient(r, message, p), Run(r, message, p), p);
    }
  }
}
