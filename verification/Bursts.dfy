/** Error detection: which changes of a message a CRC never misses. */
module Bursts {
  import opened Bits
  import opened CrcSpec
  import opened Crc
  import opened AugmentedCrc

  /** The messages are as long as each other and differ, but only inside the window that
      begins at the position and is as wide as the register. */
  predicate BurstAt(a: seq<bool>, b: seq<bool>, start: nat, width: nat) {
    && |a| == |b| && a != b
    && forall i :: 0 <= i < |a| && !(start <= i < start + width) ==> a[i] == b[i]
  }

  /** No burst goes unnoticed, whatever the register held before. */
  ghost predicate DetectsBursts(p: Bits)
    requires |p| >= 1
  {
    forall r: Bits, a: seq<bool>, b: seq<bool>, start: nat {:trigger BurstAt(a, b, start, |p|), Run(r, a, p)} ::
      |r| == |p| && BurstAt(a, b, start, |p|) ==> Run(r, a, p) != Run(r, b, p)
  }

  lemma {:induction false} DifferAt(a: seq<bool>, b: seq<bool>) returns (i: nat)
    requires |a| == |b| && a != b
    ensures i < |a| && a[i] != b[i]
  {
    assert a != [] && a == [a[0]] + a[1..] && b == [b[0]] + b[1..];
    if a[0] != b[0] {
      i := 0;
    } else {
      i := DifferAt(a[1..], b[1..]);
      i := i + 1;
    }
  }

  lemma SetBit(r: Bits) returns (i: nat)
    requires r != Zeros(|r|)
    ensures i < |r| && r[i]
  {
    i := DifferAt(r, Zeros(|r|));
  }

  lemma NotZeros(r: Bits, i: nat)
    requires i < |r| && r[i]
    ensures r != Zeros(|r|)
  {
    assert !Zeros(|r|)[i];
  }

  /** With the lowest bit of the polynomial set, a zero bit never clears the register. */
  lemma ZeroBitKeepsNonZero(r: Bits, p: Bits)
    requires |r| == |p| >= 1 && p[0] && r != Zeros(|r|)
    ensures Step(r, false, p) != Zeros(|r|)
  {
    if r[|r| - 1] {
      NotZeros(Step(r, false, p), 0);
    } else {
      var i := SetBit(r);
      NotZeros(Step(r, false, p), i + 1);
    }
  }

  lemma {:induction false} ZerosKeepNonZero(r: Bits, k: nat, p: Bits)
    requires |r| == |p| >= 1 && p[0] && r != Zeros(|r|)
    ensures Run(r, Zeros(k), p) != Zeros(|r|)
    decreases k
  {
    if k > 0 {
      ZeroBitKeepsNonZero(r, p);
      ZerosKeepNonZero(Step(r, false, p), k - 1, p);
      assert Zeros(k)[1..] == Zeros(k - 1);
    }
  }

  /** A short message fed to an empty register is the message in place, followed by zeros. */
  lemma ShortMessage(w: seq<bool>, p: Bits)
    requires |p| >= 1 && |w| <= |p|
    ensures Run(Zeros(|p|), w, p) == Run(Placed(w, |p|), Zeros(|p|), p)
  {
    TimesXnOfRun(Zeros(|p|), w, p);
    RunZeroFromZero(|p|, |p|, p);
    AugmentedFill(w, p);
  }

  lemma PlacedShows(w: seq<bool>, width: nat)
    requires |w| <= width && w != Zeros(|w|)
    ensures Placed(w, width) != Zeros(width)
  {
    var i := SetBit(w);
    NotZeros(Placed(w, width), |w| - 1 - i);
  }

  /** A short message that is not all zeros leaves something in an empty register. */
  lemma ShortMessageShows(w: seq<bool>, p: Bits)
    requires |p| >= 1 && p[0] && |w| <= |p| && w != Zeros(|w|)
    ensures Run(Zeros(|p|), w, p) != Zeros(|p|)
  {
    ShortMessage(w, p);
    PlacedShows(w, |p|);
    ZerosKeepNonZero(Placed(w, |p|), |p|, p);
  }

  /** Zeros, then a short pattern, then zeros. */
  lemma BurstShows(before: nat, w: seq<bool>, after: nat, p: Bits)
    requires |p| >= 1 && p[0] && |w| <= |p| && w != Zeros(|w|)
    ensures Run(Zeros(|p|), Zeros(before) + w + Zeros(after), p) != Zeros(|p|)
  {
    var z := Zeros(|p|);
    RunConcat(z, Zeros(before) + w, Zeros(after), p);
    RunConcat(z, Zeros(before), w, p);
    RunZeroFromZero(|p|, before, p);
    ShortMessageShows(w, p);
    ZerosKeepNonZero(Run(z, w, p), after, p);
  }

  /** Two messages leave the same remainder exactly when their sum leaves none. */
  lemma DifferenceShows(r: Bits, a: seq<bool>, b: seq<bool>, p: Bits)
    requires |r| == |p| >= 1 && |a| == |b|
    ensures Run(r, a, p) == Run(r, b, p) <==> Run(Zeros(|p|), Xor(a, b), p) == Zeros(|p|)
  {
    RunLinear(r, r, a, b, p);
    XorZeroIff(r, r);
    XorZeroIff(Run(r, a, p), Run(r, b, p));
  }

  lemma ZerosAround(sum: Bits, start: nat, end: nat)
    requires start <= end <= |sum| && forall i :: 0 <= i < |sum| && !(start <= i < end) ==> !sum[i]
    ensures sum == Zeros(start) + sum[start..end] + Zeros(|sum| - end)
  {
  }

  /** The sum of two messages that differ by a burst. */
  lemma BurstPattern(a: seq<bool>, b: seq<bool>, start: nat, width: nat)
    returns (before: nat, w: seq<bool>, after: nat)
    requires BurstAt(a, b, start, width)
    ensures |w| <= width && w != Zeros(|w|) && Xor(a, b) == Zeros(before) + w + Zeros(after)
  {
    var j := DifferAt(a, b);
    var end := if start + width < |a| then start + width else |a|;
    var sum := Xor(a, b);
    forall i | 0 <= i < |sum| && !(start <= i < end)
      ensures !sum[i]
    {
      assert a[i] == b[i];
    }
    ZerosAround(sum, start, end);
    before, w, after := start, sum[start..end], |a| - end;
    NotZeros(w, j - start);
  }

  lemma BurstDetected(r: Bits, a: seq<bool>, b: seq<bool>, start: nat, p: Bits)
    requires |r| == |p| >= 1 && p[0] && BurstAt(a, b, start, |p|)
    ensures Run(r, a, p) != Run(r, b, p)
  {
    var before, w, after := BurstPattern(a, b, start, |p|);
    BurstShows(before, w, after, p);
    DifferenceShows(r, a, b, p);
  }

  // --------------------------------------------------------- the other half

  /** Bits that agree with those that fall out of the register only shift it. */
  lemma AgreeingBitsShift(r: Bits, k: nat, p: Bits)
    requires |r| == |p| >= 1
    ensures Run(r, Top(r, k), p) == Shl(r, k)
  {
    RunByTable(r, Top(r, k), p);
    XorZeroIff(Top(r, k), Top(r, k));
    RunZeroFromZero(|r|, k, p);
    ZerosXor(Shl(r, k));
  }

  lemma PolynomialEnters(p: Bits)
    requires |p| >= 1
    ensures Step(Zeros(|p|), true, p) == p
  {
    assert Shl(Zeros(|p|), 1) == Zeros(|p|);
    ZerosXor(p);
  }

  lemma ShiftedOut(p: Bits)
    requires |p| >= 1 && !p[0]
    ensures Shl(p, |p| - 1) == Zeros(|p|)
  {
  }

  /** The polynomial itself, without its lowest coefficient: a multiple of the divisor if
      that coefficient is zero. */
  lemma EvenPolynomialMisses(p: Bits)
    requires |p| >= 1 && !p[0]
    ensures var w := [true] + Top(p, |p| - 1);
            w != Zeros(|p|) && Run(Zeros(|p|), w, p) == Zeros(|p|)
  {
    NotZeros([true] + Top(p, |p| - 1), 0);
    RunCons(Zeros(|p|), true, Top(p, |p| - 1), p);
    PolynomialEnters(p);
    AgreeingBitsShift(p, |p| - 1, p);
    ShiftedOut(p);
  }

  /** All bursts no longer than the register are detected if, and only if, the lowest bit
      of the truncated polynomial is set. */
  lemma BurstsDetectedIff(p: Bits)
    requires |p| >= 1
    ensures DetectsBursts(p) <==> p[0]
  {
    if p[0] {
      forall r: Bits, a: seq<bool>, b: seq<bool>, start: nat | |r| == |p| && BurstAt(a, b, start, |p|)
        ensures Run(r, a, p) != Run(r, b, p)
      {
        BurstDetected(r, a, b, start, p);
      }
    } else {
      var n := |p|;
      var w := [true] + Top(p, n - 1);
      EvenPolynomialMisses(p);
      RunZeroFromZero(n, n, p);
      assert BurstAt(w, Zeros(n), 0, n);
      assert Run(Zeros(n), w, p) == Run(Zeros(n), Zeros(n), p);
    }
  }

  // ---------------------------------------------------------- byte messages

  lemma OutputInjective(a: Bits, b: Bits, finalXor: Bits, reflectRem: bool)
    requires |a| == |b| == |finalXor| && Output(a, finalXor, reflectRem) == Output(b, finalXor, reflectRem)
    ensures a == b
  {
    var x, y := Oriented(a, reflectRem), Oriented(b, reflectRem);
    forall i | 0 <= i < |x|
      ensures x[i] == y[i]
    {
      assert Output(a, finalXor, reflectRem)[i] == Output(b, finalXor, reflectRem)[i];
    }
    assert x == y;
    ReversedTwice(a);
    ReversedTwice(b);
  }

  /** Two messages that differ by a burst, in the order in which their bits are fed, have
      different checksums. */
  lemma ChecksumDetectsBurst(c: Parameters, a: seq<Byte>, b: seq<Byte>, start: nat)
    requires c.Valid() && c.poly[0]
    requires BurstAt(MessageBits(a, c.reflectIn), MessageBits(b, c.reflectIn), start, c.bits)
    ensures ChecksumOf(c, a) != ChecksumOf(c, b)
  {
    var p, final := c.poly[..c.bits], c.final[..c.bits];
    BurstDetected(c.init[..c.bits], MessageBits(a, c.reflectIn), MessageBits(b, c.reflectIn), start, p);
    var x, y := Remainder(c, a), Remainder(c, b);
    ResizeInjective(Output(x, final, c.reflectRem), Output(y, final, c.reflectRem), c.width);
    if ChecksumOf(c, a) == ChecksumOf(c, b) {
      OutputInjective(x, y, final, c.reflectRem);
    }
  }
}
