/** The remainder that a CRC register holds, as a function of the bits fed to it,
    and the algebra of that function: it is linear over GF(2), which is what makes
    a byte-at-a-time table possible. */
module CrcSpec {
  import opened Bits

  /** One step of the division: the message bit meets the top bit of the register. */
  function Step(r: Bits, bit: bool, p: Bits): (s: Bits)
    requires |r| == |p| >= 1
    ensures |s| == |r|
  {
    if r[|r| - 1] != bit then Xor(Shl(r, 1), p) else Shl(r, 1)
  }

  function Run(r: Bits, message: seq<bool>, p: Bits): (s: Bits)
    requires |r| == |p| >= 1
    ensures |s| == |r|
    decreases |message|
  {
    if message == [] then r else Run(Step(r, message[0], p), message[1..], p)
  }

  /** The order in which the bits of a byte are fed: most significant first,
      or least significant first when the input is reflected. */
  function FeedOrder(b: Byte, reflectIn: bool): (bits: seq<bool>)
    ensures |bits| == 8
  {
    Oriented(b, !reflectIn)
  }

  function MessageBits(message: seq<Byte>, reflectIn: bool): seq<bool> {
    if message == [] then []
    else MessageBits(message[..|message| - 1], reflectIn) + FeedOrder(message[|message| - 1], reflectIn)
  }

  /** What a computer reports for the remainder `r`. */
  function Output(r: Bits, finalXor: Bits, reflectRem: bool): Bits
    requires |r| == |finalXor|
  {
    Xor(Oriented(r, reflectRem), finalXor)
  }

  lemma {:induction false} RunConcat(r: Bits, a: seq<bool>, b: seq<bool>, p: Bits)
    requires |r| == |p| >= 1
    ensures Run(r, a + b, p) == Run(Run(r, a, p), b, p)
    decreases |a|
  {
    if a == [] {
      assert a + b == b;
    } else {
      assert (a + b)[1..] == a[1..] + b;
      RunConcat(Step(r, a[0], p), a[1..], b, p);
    }
  }

  lemma {:induction false} MessageBitsConcat(a: seq<Byte>, b: seq<Byte>, reflectIn: bool)
    ensures MessageBits(a + b, reflectIn) == MessageBits(a, reflectIn) + MessageBits(b, reflectIn)
  {
    if b == [] {
      assert a + b == a;
    } else {
      var k := |b| - 1;
      assert (a + b)[..|a| + k] == a + b[..k];
      MessageBitsConcat(a, b[..k], reflectIn);
    }
  }

  /** Feeding one more byte is running its eight bits. */
  lemma RunOneMoreByte(r: Bits, message: seq<Byte>, i: nat, reflectIn: bool, p: Bits)
    requires |r| == |p| >= 1 && i < |message|
    ensures Run(r, MessageBits(message[..i + 1], reflectIn), p)
         == Run(Run(r, MessageBits(message[..i], reflectIn), p), FeedOrder(message[i], reflectIn), p)
  {
    assert message[..i + 1][..i] == message[..i];
    RunConcat(r, MessageBits(message[..i], reflectIn), FeedOrder(message[i], reflectIn), p);
  }

  lemma RunCons(r: Bits, bit: bool, rest: seq<bool>, p: Bits)
    requires |r| == |p| >= 1
    ensures Run(r, [bit] + rest, p) == Run(Step(r, bit, p), rest, p)
  {
    assert ([bit] + rest)[1..] == rest;
  }

  /** A run over the low bits of a byte, highest first, starts with the highest. */
  lemma RunHighest(r: Bits, b: Bits, i: nat, p: Bits)
    requires |r| == |p| >= 1 && 1 <= i <= |b|
    ensures Run(r, Reversed(b[..i]), p) == Run(Step(r, b[i - 1], p), Reversed(b[..i - 1]), p)
  {
    assert Reversed(b[..i]) == [b[i - 1]] + Reversed(b[..i - 1]);
    RunCons(r, b[i - 1], Reversed(b[..i - 1]), p);
  }

  // ------------------------------------------------------------------ linearity

  lemma XorAssociative(a: Bits, b: Bits, c: Bits)
    requires |a| == |b| == |c|
    ensures Xor(Xor(a, b), c) == Xor(a, Xor(b, c))
  {
  }

  lemma StepLinear(r: Bits, s: Bits, b: bool, c: bool, p: Bits)
    requires |r| == |s| == |p| >= 1
    ensures Step(Xor(r, s), b != c, p) == Xor(Step(r, b, p), Step(s, c, p))
  {
  }

  /** Running a sum of registers over a sum of messages sums the results. */
  lemma {:induction false} RunLinear(r: Bits, s: Bits, a: seq<bool>, b: seq<bool>, p: Bits)
    requires |r| == |s| == |p| >= 1 && |a| == |b|
    ensures Run(Xor(r, s), Xor(a, b), p) == Xor(Run(r, a, p), Run(s, b, p))
    decreases |a|
  {
    if a != [] {
      StepLinear(r, s, a[0], b[0], p);
      assert Xor(a, b)[1..] == Xor(a[1..], b[1..]);
      RunLinear(Step(r, a[0], p), Step(s, b[0], p), a[1..], b[1..], p);
    }
  }

  // ------------------------------------------------- several bits at a time

  /** The `k` bits of `r` that the next `k` message bits will meet, in order:
      the top bit first, and nothing once the register has been shifted empty. */
  function Top(r: Bits, k: nat): (t: seq<bool>)
    ensures |t| == k
  {
    seq(k, i requires 0 <= i < k => i < |r| && r[|r| - 1 - i])
  }

  /** The first step splits into a step from zero and a pure shift. */
  lemma StepSplits(r: Bits, p: Bits)
    requires |r| == |p| >= 1
    ensures Step(r, false, p) == Xor(Step(Zeros(|r|), r[|r| - 1], p), Shl(r, 1))
  {
  }

  lemma ShlTwice(r: Bits, k: nat)
    ensures Shl(Shl(r, 1), k) == Shl(r, 1 + k)
  {
  }

  lemma ZerosXor(a: Bits)
    ensures Xor(Zeros(|a|), a) == a && Xor(a, Zeros(|a|)) == a
  {
  }

  /** A message may be fed to an empty register on the side and added afterwards. */
  lemma RunSplits(r: Bits, message: seq<bool>, p: Bits)
    requires |r| == |p| >= 1
    ensures Run(r, message, p) == Xor(Run(r, Zeros(|message|), p), Run(Zeros(|r|), message, p))
  {
    RunLinear(r, Zeros(|r|), Zeros(|message|), message, p);
    ZerosXor(r);
    ZerosXor(message);
  }

  lemma RunZerosSplits(r: Bits, s: Bits, k: nat, p: Bits)
    requires |r| == |s| == |p| >= 1
    ensures Run(Xor(r, s), Zeros(k), p) == Xor(Run(r, Zeros(k), p), Run(s, Zeros(k), p))
  {
    RunLinear(r, s, Zeros(k), Zeros(k), p);
    ZerosXor(Zeros(k));
  }

  lemma TopAfterShift(r: Bits, k: nat)
    requires |r| >= 1 && k > 0
    ensures Top(r, k) == [r[|r| - 1]] + Top(Shl(r, 1), k - 1)
    ensures Zeros(k) == [false] + Zeros(k - 1)
  {
  }

  /** Feeding zeros is looking up the bits that fall out and shifting the rest. */
  lemma {:induction false} RunZerosByTable(r: Bits, k: nat, p: Bits)
    requires |r| == |p| >= 1
    ensures Run(r, Zeros(k), p) == Xor(Run(Zeros(|r|), Top(r, k), p), Shl(r, k))
    decreases k
  {
    var n := |r|;
    if k == 0 {
      assert Shl(r, 0) == r;
      ZerosXor(r);
    } else {
      var up, first := Shl(r, 1), Step(Zeros(n), r[n - 1], p);
      var under, zeros := Top(up, k - 1), Zeros(k - 1);
      TopAfterShift(r, k);
      calc {
        Run(r, Zeros(k), p);
        { RunCons(r, false, zeros, p); StepSplits(r, p); }
        Run(Xor(first, up), zeros, p);
        { RunZerosSplits(first, up, k - 1, p); }
        Xor(Run(first, zeros, p), Run(up, zeros, p));
        { RunZerosByTable(up, k - 1, p); ShlTwice(r, k - 1); }
        Xor(Run(first, zeros, p), Xor(Run(Zeros(n), under, p), Shl(r, k)));
        { XorAssociative(Run(first, zeros, p), Run(Zeros(n), under, p), Shl(r, k)); RunSplits(first, under, p); }
        Xor(Run(first, under, p), Shl(r, k));
        { RunCons(Zeros(n), r[n - 1], under, p); }
        Xor(Run(Zeros(n), Top(r, k), p), Shl(r, k));
      }
    }
  }

  lemma XorRotate(a: Bits, b: Bits, c: Bits)
    requires |a| == |b| == |c|
    ensures Xor(Xor(a, b), c) == Xor(Xor(c, a), b)
  {
  }

  /** Two messages fed to empty registers add up. */
  lemma RunAdds(n: nat, a: seq<bool>, b: seq<bool>, p: Bits)
    requires n == |p| >= 1 && |a| == |b|
    ensures Run(Zeros(n), Xor(a, b), p) == Xor(Run(Zeros(n), a, p), Run(Zeros(n), b, p))
  {
    RunLinear(Zeros(n), Zeros(n), a, b, p);
    ZerosXor(Zeros(n));
  }

  /** The table law, for any number of bits and any register width, narrower
      than the chunk included: `k` steps are one look-up plus one shift. */
  lemma RunByTable(r: Bits, message: seq<bool>, p: Bits)
    requires |r| == |p| >= 1
    ensures Run(r, message, p)
         == Xor(Run(Zeros(|r|), Xor(message, Top(r, |message|)), p), Shl(r, |message|))
  {
    var empty, falling, up := Zeros(|r|), Top(r, |message|), Shl(r, |message|);
    calc {
      Run(r, message, p);
      { RunSplits(r, message, p); RunZerosByTable(r, |message|, p); }
      Xor(Xor(Run(empty, falling, p), up), Run(empty, message, p));
      { XorRotate(Run(empty, falling, p), up, Run(empty, message, p)); }
      Xor(Xor(Run(empty, message, p), Run(empty, falling, p)), up);
      { RunAdds(|r|, message, falling, p); }
      Xor(Run(empty, Xor(message, falling), p), up);
    }
  }

  lemma RunZeroFromZero(n: nat, k: nat, p: Bits)
    requires n == |p| >= 1
    ensures Run(Zeros(n), Zeros(k), p) == Zeros(n)
  {
    RunLinear(Zeros(n), Zeros(n), Zeros(k), Zeros(k), p);
    assert Xor(Zeros(n), Zeros(n)) == Zeros(n) && Xor(Zeros(k), Zeros(k)) == Zeros(k);
  }
}
