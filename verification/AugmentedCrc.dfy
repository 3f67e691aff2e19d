/** `augmented_crc`: message bits enter at the bottom of the register, so the message
    carries its own trailing bits. The module shows how that relates to the
    ordinary CRC, and that a message followed by its CRC leaves no remainder. */
module AugmentedCrc {
  import opened Bits
  import opened CrcSpec
  import opened Crc

  function Unit(width: nat, bit: bool): Bits {
    seq(width, i => i == 0 && bit)
  }

  /** One bit of augmented division: shift it in at the bottom, subtract if a one fell out. */
  function AugmentedStep(r: Bits, bit: bool, p: Bits): (s: Bits)
    requires |r| == |p| >= 1
    ensures |s| == |r|
  {
    Xor(Step(r, false, p), Unit(|r|, bit))
  }

  function AugmentedRun(r: Bits, message: seq<bool>, p: Bits): (s: Bits)
    requires |r| == |p| >= 1
    ensures |s| == |r|
    decreases |message|
  {
    if message == [] then r else AugmentedRun(AugmentedStep(r, message[0], p), message[1..], p)
  }

  /** The remainder of `width`-many zeros behind r: multiplication by x^Bits. */
  function TimesXn(r: Bits, p: Bits): (s: Bits)
    requires |r| == |p| >= 1
    ensures |s| == |r|
  {
    Run(r, Zeros(|r|), p)
  }

  lemma {:induction false} AugmentedConcat(r: Bits, a: seq<bool>, b: seq<bool>, p: Bits)
    requires |r| == |p| >= 1
    ensures AugmentedRun(r, a + b, p) == AugmentedRun(AugmentedRun(r, a, p), b, p)
    decreases |a|
  {
    if a == [] {
      assert a + b == b;
    } else {
      assert (a + b)[1..] == a[1..] + b;
      AugmentedConcat(AugmentedStep(r, a[0], p), a[1..], b, p);
    }
  }

  lemma AugmentedStepLinear(r: Bits, s: Bits, b: bool, c: bool, p: Bits)
    requires |r| == |s| == |p| >= 1
    ensures AugmentedStep(Xor(r, s), b != c, p) == Xor(AugmentedStep(r, b, p), AugmentedStep(s, c, p))
  {
    StepLinear(r, s, false, false, p);
    var x, y := Step(r, false, p), Step(s, false, p);
    assert Xor(Xor(x, y), Unit(|r|, b != c)) == Xor(Xor(x, Unit(|r|, b)), Xor(y, Unit(|r|, c)));
  }

  lemma {:induction false} AugmentedLinear(r: Bits, s: Bits, a: seq<bool>, b: seq<bool>, p: Bits)
    requires |r| == |s| == |p| >= 1 && |a| == |b|
    ensures AugmentedRun(Xor(r, s), Xor(a, b), p) == Xor(AugmentedRun(r, a, p), AugmentedRun(s, b, p))
    decreases |a|
  {
    if a != [] {
      AugmentedStepLinear(r, s, a[0], b[0], p);
      assert Xor(a, b)[1..] == Xor(a[1..], b[1..]);
      AugmentedLinear(AugmentedStep(r, a[0], p), AugmentedStep(s, b[0], p), a[1..], b[1..], p);
    }
  }

  /** Zeros do not care at which end they enter. */
  lemma {:induction false} AugmentedZeros(r: Bits, k: nat, p: Bits)
    requires |r| == |p| >= 1
    ensures AugmentedRun(r, Zeros(k), p) == Run(r, Zeros(k), p)
    decreases k
  {
    if k > 0 {
      assert Zeros(k)[1..] == Zeros(k - 1);
      assert AugmentedStep(r, false, p) == Step(r, false, p);
      AugmentedZeros(Step(r, false, p), k - 1, p);
    }
  }

  /** The bits of a message standing at the bottom of an otherwise empty register. */
  function Placed(message: seq<bool>, width: nat): Bits {
    Resize(Reversed(message), width)
  }

  /** A short message just fills the empty register from below. */
  lemma {:induction false} AugmentedFill(message: seq<bool>, p: Bits)
    requires |message| <= |p| && |p| >= 1
    ensures AugmentedRun(Zeros(|p|), message, p) == Placed(message, |p|)
    decreases |message|
  {
    if message == [] {
      assert Placed(message, |p|) == Zeros(|p|);
    } else {
      var k := |message| - 1;
      assert message == message[..k] + [message[k]];
      AugmentedConcat(Zeros(|p|), message[..k], [message[k]], p);
      AugmentedFill(message[..k], p);
      assert AugmentedStep(Placed(message[..k], |p|), message[k], p) == Placed(message, |p|);
    }
  }

  /** Augmented division of a chunk no longer than the register: shift, insert, one look-up. */
  lemma AugmentedByTable(r: Bits, message: seq<bool>, p: Bits)
    requires |r| == |p| >= |message| && |p| >= 1
    ensures AugmentedRun(r, message, p)
         == Xor(Xor(Shl(r, |message|), Placed(message, |p|)), Run(Zeros(|p|), Top(r, |message|), p))
  {
    var k, n := |message|, |p|;
    AugmentedLinear(r, Zeros(n), Zeros(k), message, p);
    assert Xor(r, Zeros(n)) == r && Xor(Zeros(k), message) == message;
    AugmentedZeros(r, k, p);
    AugmentedFill(message, p);
    RunByTable(r, Zeros(k), p);
    assert Xor(Zeros(k), Top(r, k)) == Top(r, k);
    var looked, up, low := Run(Zeros(n), Top(r, k), p), Shl(r, k), Placed(message, n);
    assert Xor(Xor(looked, up), low) == Xor(Xor(up, low), looked);
  }

  // ------------------------------------- the two kinds of division compared

  lemma TimesXnStep(r: Bits, p: Bits)
    requires |r| == |p| >= 1
    ensures TimesXn(Step(r, false, p), p) == Step(TimesXn(r, p), false, p)
  {
    var z := Zeros(|r|);
    assert [false] + z == z + [false];
    RunConcat(r, [false], z, p);
    RunConcat(r, z, [false], p);
  }

  lemma LastBitFromZero(bit: bool, k: nat, p: Bits)
    requires |p| >= 1
    ensures Run(Zeros(|p|), Zeros(k) + [bit], p) == Step(Zeros(|p|), bit, p)
  {
    RunConcat(Zeros(|p|), Zeros(k), [bit], p);
    RunZeroFromZero(|p|, k, p);
  }

  lemma UnitFallsOut(bit: bool, n: nat)
    requires n >= 1
    ensures Shl(Unit(n, bit), n) == Zeros(n) && Top(Unit(n, bit), n) == Zeros(n - 1) + [bit]
  {
  }

  lemma TimesXnUnit(bit: bool, p: Bits)
    requires |p| >= 1
    ensures TimesXn(Unit(|p|, bit), p) == Step(Zeros(|p|), bit, p)
  {
    var n, u := |p|, Unit(|p|, bit);
    calc {
      TimesXn(u, p);
      { RunZerosByTable(u, n, p); UnitFallsOut(bit, n); }
      Xor(Run(Zeros(n), Zeros(n - 1) + [bit], p), Zeros(n));
      { LastBitFromZero(bit, n - 1, p); }
      Xor(Step(Zeros(n), bit, p), Zeros(n));
      { ZerosXor(Step(Zeros(n), bit, p)); }
      Step(Zeros(n), bit, p);
    }
  }

  lemma TimesXnOfStep(r: Bits, bit: bool, p: Bits)
    requires |r| == |p| >= 1
    ensures TimesXn(AugmentedStep(r, bit, p), p) == Step(TimesXn(r, p), bit, p)
  {
    var n, z := |r|, Zeros(|r|);
    RunLinear(Step(r, false, p), Unit(n, bit), z, z, p);
    assert Xor(z, z) == z;
    TimesXnStep(r, p);
    TimesXnUnit(bit, p);
    StepLinear(TimesXn(r, p), z, false, bit, p);
    assert Xor(TimesXn(r, p), z) == TimesXn(r, p);
  }

  /** Feeding at the bottom and then multiplying by x^Bits is feeding at the top. */
  lemma {:induction false} TimesXnOfRun(r: Bits, message: seq<bool>, p: Bits)
    requires |r| == |p| >= 1
    ensures TimesXn(AugmentedRun(r, message, p), p) == Run(TimesXn(r, p), message, p)
    decreases |message|
  {
    if message != [] {
      TimesXnOfStep(r, message[0], p);
      TimesXnOfRun(AugmentedStep(r, message[0], p), message[1..], p);
    }
  }

  /** Appending Bits zero bits turns the augmented division into the ordinary one. */
  lemma AugmentedWithZeros(r: Bits, message: seq<bool>, p: Bits)
    requires |r| == |p| >= 1
    ensures AugmentedRun(r, message + Zeros(|r|), p) == Run(TimesXn(r, p), message, p)
  {
    AugmentedConcat(r, message, Zeros(|r|), p);
    AugmentedZeros(AugmentedRun(r, message, p), |r|, p);
    TimesXnOfRun(r, message, p);
  }

  /** The check: Bits further bits leave nothing exactly when they spell the remainder,
      highest coefficient first. */
  lemma AugmentedIsZeroIff(r: Bits, message: seq<bool>, check: seq<bool>, p: Bits)
    requires |r| == |p| == |check| >= 1
    ensures AugmentedRun(r, message + check, p) == Zeros(|r|)
       <==> check == Reversed(Run(TimesXn(r, p), message, p))
  {
    var n := |r|;
    var held, crc := AugmentedRun(r, message, p), Run(TimesXn(r, p), message, p);
    AugmentedConcat(r, message, check, p);
    AugmentedLinear(held, Zeros(n), Zeros(n), check, p);
    assert Xor(held, Zeros(n)) == held && Xor(Zeros(n), check) == check;
    AugmentedFill(check, p);
    AugmentedConcat(r, message, Zeros(n), p);
    AugmentedWithZeros(r, message, p);
    assert AugmentedRun(r, message + check, p) == Xor(crc, Reversed(check)) by {
      assert Placed(check, n) == Reversed(check);
    }
    ReversedTwice(check);
    ReversedTwice(crc);
    XorZeroIff(crc, Reversed(check));
  }

  // ---------------------------------------------------------- the function

  /** The value of `augmented_crc` for a buffer and an initial remainder. */
  function AugmentedOf(c: Parameters, buffer: seq<Byte>, initial: Bits): Bits
    requires c.Valid() && |initial| == c.width
  {
    Resize(AugmentedRun(initial[..c.bits], MessageBits(buffer, false), c.poly[..c.bits]), c.width)
  }

  lemma AlignedIsTop(rem: Bits, bits: nat)
    requires 8 <= bits <= |rem|
    ensures FeedOrder(AlignMsb(rem, bits), false) == Top(rem[..bits], 8)
  {
  }

  lemma InsertByte(rem: Bits, bits: nat, x: Byte)
    requires 8 <= bits <= |rem|
    ensures Or(Shl(rem, 8), Resize(x, |rem|))[..bits] == Xor(Shl(rem[..bits], 8), Placed(FeedOrder(x, false), bits))
  {
    ReversedTwice(x);
  }

  lemma XorPrefix(a: Bits, b: Bits, n: nat)
    requires n <= |a| == |b|
    ensures Xor(a, b)[..n] == Xor(a[..n], b[..n])
  {
  }

  /** One turn of the loop on the whole register acts on its significant bits. */
  lemma AugmentedByte(rem: Bits, bits: nat, x: Byte, entry: Bits, p: Bits)
    requires 8 <= bits <= |rem| == |entry| && |p| == bits
    requires entry[..bits] == Run(Zeros(bits), FeedOrder(AlignMsb(rem, bits), false), p)
    ensures Xor(Or(Shl(rem, 8), Resize(x, |rem|)), entry)[..bits]
         == AugmentedRun(rem[..bits], FeedOrder(x, false), p)
  {
    AugmentedByTable(rem[..bits], FeedOrder(x, false), p);
    AlignedIsTop(rem, bits);
    InsertByte(rem, bits, x);
    XorPrefix(Or(Shl(rem, 8), Resize(x, |rem|)), entry, bits);
  }

  lemma AugmentedOneMoreByte(r: Bits, buffer: seq<Byte>, i: nat, p: Bits)
    requires |r| == |p| >= 1 && i < |buffer|
    ensures AugmentedRun(r, MessageBits(buffer[..i + 1], false), p)
         == AugmentedRun(AugmentedRun(r, MessageBits(buffer[..i], false), p), FeedOrder(buffer[i], false), p)
  {
    assert buffer[..i + 1][..i] == buffer[..i];
    AugmentedConcat(r, MessageBits(buffer[..i], false), FeedOrder(buffer[i], false), p);
  }

  /** The body of the loop of `augmented_crc`. */
  method ShiftIn(c: Parameters, table: CrcTable, rem0: Bits, x: Byte) returns (rem: Bits)
    requires c.Valid() && c.bits >= 8 && |rem0| == c.width
    requires table.Valid() && table.didInit && table.Serves(c, false)
    ensures |rem| == c.width
    ensures rem[..c.bits] == AugmentedRun(rem0[..c.bits], FeedOrder(x, false), c.poly[..c.bits])
  {
    var byteIndex := AlignMsb(rem0, c.bits);
    assert table.Correct(byteIndex);
    var entry := table.entries[ToNat(byteIndex)];
    AugmentedByte(rem0, c.bits, x, entry, c.poly[..c.bits]);
    rem := Shl(rem0, 8);
    rem := Or(rem, Resize(x, c.width));
    rem := Xor(rem, entry);
  }

  /** `augmented_crc`. The shift by Bits - CHAR_BIT demands at least eight bits. */
  method Compute(c: Parameters, table: CrcTable, buffer: seq<Byte>, initialRemainder: Bits) returns (r: Bits)
    requires c.Valid() && c.bits >= 8 && |initialRemainder| == c.width
    requires table.Valid() && table.Serves(c, false)
    modifies table`didInit, table.entries
    ensures table.Valid() && table.didInit
    ensures r == AugmentedOf(c, buffer, initialRemainder)
  {
    ghost var start, poly := initialRemainder[..c.bits], c.poly[..c.bits];
    var rem := initialRemainder;
    table.InitTable();
    var p := 0;
    while p < |buffer|
      invariant 0 <= p <= |buffer|
      invariant table.Valid() && table.didInit
      invariant |rem| == c.width
      invariant rem[..c.bits] == AugmentedRun(start, MessageBits(buffer[..p], false), poly)
    {
      rem := ShiftIn(c, table, rem, buffer[p]);
      AugmentedOneMoreByte(start, buffer, p, poly);
      p := p + 1;
    }
    assert buffer[..p] == buffer;
    r := Mask(rem, c.bits);
    assert forall j :: 0 <= j < c.bits ==> rem[j] == rem[..c.bits][j];
  }

  // ------------------------------------------------------ whole byte messages

  function ZeroBytes(k: nat): seq<Byte> {
    seq(k, _ => Zeros(8))
  }

  /** A register written out most significant byte first. */
  function BigEndian(r: Bits): seq<Byte>
    requires |r| % 8 == 0
    decreases |r|
  {
    if r == [] then [] else BigEndian(r[8..]) + [r[..8]]
  }

  lemma {:induction false} BigEndianBits(r: Bits)
    requires |r| % 8 == 0
    ensures MessageBits(BigEndian(r), false) == Reversed(r)
    decreases |r|
  {
    if r != [] {
      BigEndianBits(r[8..]);
      var bytes := BigEndian(r);
      assert bytes[..|bytes| - 1] == BigEndian(r[8..]);
      assert Reversed(r) == Reversed(r[8..]) + Reversed(r[..8]);
    }
  }

  lemma {:induction false} ZeroBytesBits(k: nat)
    ensures MessageBits(ZeroBytes(k), false) == Zeros(8 * k)
  {
    if k > 0 {
      ZeroBytesBits(k - 1);
      assert ZeroBytes(k)[..k - 1] == ZeroBytes(k - 1);
      assert Reversed(Zeros(8)) == Zeros(8);
      assert Zeros(8 * (k - 1)) + Zeros(8) == Zeros(8 * k);
    }
  }

  /** The plain CRC with the same polynomial: nothing reflected, nothing added at the end. */
  function Plain(c: Parameters, init: Bits): Parameters {
    c.(init := init, final := Zeros(c.width), reflectIn := false, reflectRem := false)
  }

  lemma PlainChecksum(c: Parameters, init: Bits, message: seq<Byte>)
    requires c.Valid() && |init| == c.width
    ensures Plain(c, init).Valid()
    ensures ChecksumOf(Plain(c, init), message)
         == Resize(Run(init[..c.bits], MessageBits(message, false), c.poly[..c.bits]), c.width)
  {
    var r := Run(init[..c.bits], MessageBits(message, false), c.poly[..c.bits]);
    assert Zeros(c.width)[..c.bits] == Zeros(c.bits);
    assert Xor(r, Zeros(c.bits)) == r;
  }

  lemma ResizedPrefix(r: Bits, width: nat)
    requires |r| <= width
    ensures Resize(r, width)[..|r|] == r
  {
  }

  lemma ZeroTimesXn(c: Parameters)
    requires c.Valid()
    ensures Resize(TimesXn(Zeros(c.width)[..c.bits], c.poly[..c.bits]), c.width) == Zeros(c.width)
  {
    assert Zeros(c.width)[..c.bits] == Zeros(c.bits);
    RunZeroFromZero(c.bits, c.bits, c.poly[..c.bits]);
    assert Resize(Zeros(c.bits), c.width) == Zeros(c.width);
  }

  /** A message followed by Bits/8 zero bytes: the augmented CRC is the plain CRC.
      An initial remainder counts as if multiplied by x^Bits; zero stays zero. */
  lemma AugmentedIsPlainCrc(c: Parameters, message: seq<Byte>, initial: Bits)
    requires c.Valid() && c.bits % 8 == 0 && |initial| == c.width
    ensures var init := Resize(TimesXn(initial[..c.bits], c.poly[..c.bits]), c.width);
            AugmentedOf(c, message + ZeroBytes(c.bits / 8), initial) == ChecksumOf(Plain(c, init), message)
    ensures AugmentedOf(c, message + ZeroBytes(c.bits / 8), Zeros(c.width))
         == ChecksumOf(Plain(c, Zeros(c.width)), message)
  {
    AugmentedIsPlainCrcFrom(c, message, initial);
    AugmentedIsPlainCrcFrom(c, message, Zeros(c.width));
    ZeroTimesXn(c);
  }

  lemma AugmentedIsPlainCrcFrom(c: Parameters, message: seq<Byte>, initial: Bits)
    requires c.Valid() && c.bits % 8 == 0 && |initial| == c.width
    ensures var init := Resize(TimesXn(initial[..c.bits], c.poly[..c.bits]), c.width);
            AugmentedOf(c, message + ZeroBytes(c.bits / 8), initial) == ChecksumOf(Plain(c, init), message)
  {
    PaddedRemainder(c, message, initial);
    var multiplied := TimesXn(initial[..c.bits], c.poly[..c.bits]);
    ResizedPrefix(multiplied, c.width);
    PlainChecksum(c, Resize(multiplied, c.width), message);
  }

  lemma PaddedRemainder(c: Parameters, message: seq<Byte>, initial: Bits)
    requires c.Valid() && c.bits % 8 == 0 && |initial| == c.width
    ensures AugmentedOf(c, message + ZeroBytes(c.bits / 8), initial)
         == Resize(Run(TimesXn(initial[..c.bits], c.poly[..c.bits]),
                      MessageBits(message, false), c.poly[..c.bits]), c.width)
  {
    var n := c.bits;
    MessageBitsConcat(message, ZeroBytes(n / 8), false);
    ZeroBytesBits(n / 8);
    assert 8 * (n / 8) == n;
    AugmentedWithZeros(initial[..n], MessageBits(message, false), c.poly[..n]);
  }

  lemma CheckFromZero(message: seq<bool>, check: Bits, p: Bits)
    requires |check| == |p| >= 1
    ensures AugmentedRun(Zeros(|p|), message + Reversed(check), p) == Zeros(|p|)
       <==> check == Run(Zeros(|p|), message, p)
  {
    AugmentedIsZeroIff(Zeros(|p|), message, Reversed(check), p);
    RunZeroFromZero(|p|, |p|, p);
    ReversedTwice(check);
    ReversedTwice(Run(Zeros(|p|), message, p));
  }

  lemma AugmentedOfIsZero(c: Parameters, buffer: seq<Byte>)
    requires c.Valid()
    ensures AugmentedOf(c, buffer, Zeros(c.width)) == Zeros(c.width)
       <==> AugmentedRun(Zeros(c.bits), MessageBits(buffer, false), c.poly[..c.bits]) == Zeros(c.bits)
  {
    assert Zeros(c.width)[..c.bits] == Zeros(c.bits);
    assert Resize(Zeros(c.bits), c.width) == Zeros(c.width);
    var r := AugmentedRun(Zeros(c.bits), MessageBits(buffer, false), c.poly[..c.bits]);
    ResizeInjective(r, Zeros(c.bits), c.width);
  }

  lemma IsPlainChecksum(c: Parameters, message: seq<Byte>, check: Bits)
    requires c.Valid() && |check| == c.bits
    ensures Resize(check, c.width) == ChecksumOf(Plain(c, Zeros(c.width)), message)
       <==> check == Run(Zeros(c.bits), MessageBits(message, false), c.poly[..c.bits])
  {
    assert Zeros(c.width)[..c.bits] == Zeros(c.bits);
    PlainChecksum(c, Zeros(c.width), message);
    ResizeInjective(check, Run(Zeros(c.bits), MessageBits(message, false), c.poly[..c.bits]), c.width);
  }

  /** Codeword check, both ways: a message followed by a register's bytes leaves no
      remainder exactly when that register is the plain CRC of the message. */
  lemma CodewordCheck(c: Parameters, message: seq<Byte>, check: Bits)
    requires c.Valid() && c.bits % 8 == 0 && |check| == c.bits
    ensures AugmentedOf(c, message + BigEndian(check), Zeros(c.width)) == Zeros(c.width)
       <==> Resize(check, c.width) == ChecksumOf(Plain(c, Zeros(c.width)), message)
  {
    AugmentedOfIsZero(c, message + BigEndian(check));
    MessageBitsConcat(message, BigEndian(check), false);
    BigEndianBits(check);
    CheckFromZero(MessageBits(message, false), check, c.poly[..c.bits]);
    IsPlainChecksum(c, message, check);
  }

  lemma ResizeInjective(a: Bits, b: Bits, width: nat)
    requires |a| == |b| <= width
    ensures Resize(a, width) == Resize(b, width) <==> a == b
  {
    if Resize(a, width) == Resize(b, width) {
      forall i | 0 <= i < |a|
        ensures a[i] == b[i]
      {
        assert Resize(a, width)[i] == Resize(b, width)[i];
      }
    }
  }
}
