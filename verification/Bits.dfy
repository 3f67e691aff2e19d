/** Unsigned machine words as bit sequences: index 0 is the least significant bit.
    The length of the sequence is the width of the C++ type, so the operators
    below truncate exactly where the unsigned types of the CRC header do. */
module Bits {

  type Bits = seq<bool>

  /** An `unsigned char`. */
  type Byte = b: Bits | |b| == 8 witness seq(8, _ => false)

  function Zeros(width: nat): Bits {
    seq(width, _ => false)
  }

  function Xor(a: Bits, b: Bits): Bits
    requires |a| == |b|
  {
    seq(|a|, i requires 0 <= i < |a| => a[i] != b[i])
  }

  function Or(a: Bits, b: Bits): Bits
    requires |a| == |b|
  {
    seq(|a|, i requires 0 <= i < |a| => a[i] || b[i])
  }

  /** `1 << k` at the given width. */
  function OneHot(width: nat, k: nat): Bits {
    seq(width, i => i == k)
  }

  /** `a << k`, truncated to the width of `a`. */
  function Shl(a: Bits, k: nat): Bits {
    seq(|a|, i requires 0 <= i < |a| => i >= k && a[i - k])
  }

  /** `a >> k`. */
  function Shr(a: Bits, k: nat): Bits {
    seq(|a|, i requires 0 <= i < |a| => i + k < |a| && a[i + k])
  }

  /** Integral conversion: truncation or zero extension to the given width. */
  function Resize(a: Bits, width: nat): Bits {
    seq(width, i requires 0 <= i < width => i < |a| && a[i])
  }

  /** `a & sig_bits`: clears every bit from position `bits` on. */
  function Mask(a: Bits, bits: nat): Bits {
    seq(|a|, i requires 0 <= i < |a| => i < bits && a[i])
  }

  function Reversed(a: Bits): Bits {
    seq(|a|, i requires 0 <= i < |a| => a[|a| - 1 - i])
  }

  function Oriented(a: Bits, reflect: bool): Bits {
    if reflect then Reversed(a) else a
  }

  function Pow2(k: nat): nat {
    if k == 0 then 1 else 2 * Pow2(k - 1)
  }

  function ToNat(a: Bits): nat {
    if a == [] then 0 else (if a[0] then 1 else 0) + 2 * ToNat(a[1..])
  }

  function FromNat(x: nat, width: nat): (a: Bits)
    ensures |a| == width
  {
    if width == 0 then [] else [x % 2 == 1] + FromNat(x / 2, width - 1)
  }

  lemma {:induction false} ToNatFromNat(x: nat, width: nat)
    requires x < Pow2(width)
    ensures ToNat(FromNat(x, width)) == x
  {
    if width > 0 {
      ToNatFromNat(x / 2, width - 1);
      assert FromNat(x, width)[1..] == FromNat(x / 2, width - 1);
    }
  }

  lemma {:induction false} ToNatBounded(a: Bits)
    ensures ToNat(a) < Pow2(|a|)
  {
    if a != [] {
      ToNatBounded(a[1..]);
    }
  }

  lemma {:induction false} ToNatInjective(a: Bits, b: Bits)
    requires |a| == |b| && ToNat(a) == ToNat(b)
    ensures a == b
  {
    if a != [] {
      assert a[0] == b[0];
      ToNatInjective(a[1..], b[1..]);
      assert a == [a[0]] + a[1..] && b == [b[0]] + b[1..];
    }
  }

  lemma XorZeroIff(a: Bits, b: Bits)
    requires |a| == |b|
    ensures Xor(a, b) == Zeros(|a|) <==> a == b
  {
    if Xor(a, b) == Zeros(|a|) {
      forall i | 0 <= i < |a|
        ensures a[i] == b[i]
      {
        assert !Xor(a, b)[i];
      }
    }
  }

  lemma {:induction false} ToNatZeros(width: nat)
    ensures ToNat(Zeros(width)) == 0
  {
    if width > 0 {
      ToNatZeros(width - 1);
      assert Zeros(width)[1..] == Zeros(width - 1);
    }
  }

  /** Zero extension keeps the number. */
  lemma {:induction false} ToNatResize(a: Bits, width: nat)
    requires |a| <= width
    ensures ToNat(Resize(a, width)) == ToNat(a)
  {
    if a == [] {
      ToNatZeros(width);
      assert Resize(a, width) == Zeros(width);
    } else {
      ToNatResize(a[1..], width - 1);
      assert Resize(a, width)[1..] == Resize(a[1..], width - 1);
    }
  }

  lemma BytePow2()
    ensures Pow2(8) == 256
  {
    assert Pow2(4) == 16;
  }

  lemma ReversedTwice(a: Bits)
    ensures Reversed(Reversed(a)) == a
  {
  }
}
