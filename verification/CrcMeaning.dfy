/** What the two computers report, bit by bit and as polynomials. */
module CrcMeaning {
  import opened Bits
  import opened CrcSpec
  import opened Crc
  import Gf2

  /** Bytes are fed in order, the bits of each from the top, or from the bottom if the input
      is reflected. */
  lemma {:induction false} MessageBitAt(message: seq<Byte>, reflectIn: bool, i: nat, j: nat)
    requires i < |message| && j < 8
    ensures |MessageBits(message, reflectIn)| == 8 * |message|
    ensures MessageBits(message, reflectIn)[8 * i + j] == message[i][if reflectIn then j else 7 - j]
    decreases |message|
  {
    var last := |message| - 1;
    var before := message[..last];
    MessageBitsLength(before, reflectIn);
    if i == last {
      assert FeedOrder(message[last], reflectIn)[j] == message[i][if reflectIn then j else 7 - j];
    } else {
      MessageBitAt(before, reflectIn, i, j);
      assert before[i] == message[i];
    }
  }

  lemma {:induction false} MessageBitsLength(message: seq<Byte>, reflectIn: bool)
    ensures |MessageBits(message, reflectIn)| == 8 * |message|
  {
    if message != [] {
      MessageBitsLength(message[..|message| - 1], reflectIn);
    }
  }

  /** The interim remainder is the remainder of the message, above the initial value, by the
      polynomial; the checksum is that remainder, mirrored if the flag says so, with every
      bit flipped where the final value has a one; and nothing stands above either. */
  lemma ReportMeans(c: Parameters, message: seq<Byte>)
    requires c.Valid()
    ensures var r := ReportOf(c, message);
            && |r.interim| == |r.checksum| == c.width
            && (forall j :: c.bits <= j < c.width ==> !r.interim[j] && !r.checksum[j])
            && (forall j :: 0 <= j < c.bits ==>
                  r.checksum[j] == (r.interim[if c.reflectRem then c.bits - 1 - j else j] != c.final[j]))
            && exists q: Bits ::
                 Gf2.Divides(c.init[..c.bits], MessageBits(message, c.reflectIn), c.poly[..c.bits],
                   q, r.interim[..c.bits])
  {
    var held := Remainder(c, message);
    assert ReportOf(c, message).interim[..c.bits] == held;
    Gf2.RegisterIsRemainder(c.init[..c.bits], MessageBits(message, c.reflectIn), c.poly[..c.bits], held);
  }

  /** The byte with the number one. */
  function One(): Byte {
    [true, false, false, false, false, false, false, false]
  }

  /** The remainder of the byte 1 by x^3 + x + 1. */
  lemma SmallRemainder()
    ensures Run([false, false, false], MessageBits([One()], false), [true, true, false]) == [true, true, false]
  {
    var p := [true, true, false];
    assert [One()][..0] == [] && MessageBits([], false) == [];
    assert MessageBits([One()], false) == Zeros(7) + [true];
    assert [false, false, false] == Zeros(3);
    RunConcat(Zeros(3), Zeros(7), [true], p);
    RunZeroFromZero(3, 7, p);
    assert Step(Zeros(3), true, p) == p;
    assert Run(Zeros(3), [true], p) == Run(p, [], p);
  }

  /** A CRC of three bits in a register of eight. */
  function Small(final: Bits, reflectRem: bool): Parameters {
    Parameters(8, 3, [true, true, false] + Zeros(5), Zeros(8), final, false, reflectRem)
  }

  lemma SmallChecksum(final: Bits, reflectRem: bool)
    requires |final| == 8
    ensures Small(final, reflectRem).Valid()
    ensures ChecksumOf(Small(final, reflectRem), [One()])[..3]
         == if reflectRem then [false != final[0], true != final[1], true != final[2]]
            else [true != final[0], true != final[1], false != final[2]]
  {
    var c := Small(final, reflectRem);
    assert c.poly[..3] == [true, true, false] && c.init[..3] == [false, false, false];
    SmallRemainder();
    assert Remainder(c, [One()]) == [true, true, false];
  }
}
