/** The two CRC computers and their shared look-up table. Registers have the width
    of the C++ register type, which may exceed the number of significant bits:
    whatever stands above those bits is never read back. */
module Crc {
  import opened Bits
  import opened CrcSpec

  /** The template arguments. `width` is the width of the register type;
      poly, init and final may have anything above the low `bits` bits. */
  datatype Parameters = Parameters(
    width: nat, bits: nat, poly: Bits, init: Bits, final: Bits, reflectIn: bool, reflectRem: bool)
  {
    ghost predicate Valid() {
      && 1 <= bits <= width && 8 <= width
      && |poly| == |init| == |final| == width
    }
  }

  /** The remainder after a message: what both computers must hold. */
  function Remainder(c: Parameters, message: seq<Byte>): Bits
    requires c.Valid()
  {
    Run(c.init[..c.bits], MessageBits(message, c.reflectIn), c.poly[..c.bits])
  }

  /** The checksum of a message, as a value of the register type. */
  function ChecksumOf(c: Parameters, message: seq<Byte>): Bits
    requires c.Valid()
  {
    Resize(Output(Remainder(c, message), c.final[..c.bits], c.reflectRem), c.width)
  }

  /** `reflector<bits>::reflect`. */
  method Reflect(x: Bits, bits: nat) returns (reflection: Bits)
    requires 1 <= bits <= |x|
    ensures reflection == Resize(Reversed(x[..bits]), |x|)
    ensures |reflection| == |x| && forall j :: 0 <= j < |x| ==> reflection[j] == (j < bits && x[bits - 1 - j])
  {
    reflection := Zeros(|x|);
    var rest := x;
    var i := 0;
    while i < bits
      invariant 0 <= i <= bits
      invariant rest == Shr(x, i)
      invariant |reflection| == |x|
      invariant forall j :: 0 <= j < |x| ==> reflection[j] == (bits - i <= j < bits && x[bits - 1 - j])
    {
      if rest[0] {
        reflection := Or(reflection, OneHot(|x|, bits - 1 - i));
      }
      rest := Shr(rest, 1);
      i := i + 1;
    }
  }

  /** `crc_helper<bits, doReflect>::reflect`. */
  method HelperReflect(x: Bits, bits: nat, doReflect: bool) returns (r: Bits)
    requires 1 <= bits <= |x|
    ensures |r| == |x| && r[..bits] == Oriented(x[..bits], doReflect)
    ensures if doReflect then forall j :: bits <= j < |r| ==> !r[j] else r == x
  {
    if doReflect {
      r := Reflect(x, bits);
    } else {
      r := x;
    }
  }

  /** `remainder::align_msb`: the top eight significant bits as a byte; a register
      narrower than a byte is aligned to the top of the byte. */
  function AlignMsb(rem: Bits, bits: nat): Byte
    requires 1 <= bits <= |rem|
  {
    if bits > 8 then Resize(Shr(rem, bits - 8), 8) else Shl(Resize(rem, 8), 8 - bits)
  }

  /** `crc_helper::index`. */
  function Index(rem: Bits, bits: nat, x: Byte, reflect: bool): Byte
    requires 1 <= bits <= |rem|
  {
    Xor(x, if reflect then Resize(rem, 8) else AlignMsb(rem, bits))
  }

  /** `crc_helper::shift`. */
  function Shift(rem: Bits, reflect: bool): Bits {
    if reflect then Shr(rem, 8) else Shl(rem, 8)
  }

  /** A register value seen as a remainder: its significant bits, un-reflected
      when the computer keeps them reflected. A reflected register is clean above. */
  ghost predicate Holds(rem: Bits, bits: nat, reflect: bool, r: Bits) {
    && |r| == bits <= |rem|
    && rem[..bits] == Oriented(r, reflect)
    && (reflect ==> forall j :: bits <= j < |rem| ==> !rem[j])
  }

  /** A step on the whole register is a step on its significant bits: nothing above
      them comes down again. */
  lemma DivisionStep(rem: Bits, bit: bool, poly: Bits, bits: nat)
    requires 1 <= bits <= |rem| == |poly|
    ensures Xor(rem, Zeros(|rem|)) == rem
    ensures var x := if bit then Xor(rem, OneHot(|rem|, bits - 1)) else rem;
            var s := if x[bits - 1] then Xor(Shl(x, 1), poly) else Shl(x, 1);
            s[..bits] == Step(rem[..bits], bit, poly[..bits])
  {
    assert Xor(rem, Zeros(|rem|)) == rem;
  }

  /** The entry of a dividend is stored under one index, and no other byte shares it. */
  lemma StoredUnder(b: Byte, index: Byte, dividend: nat, reflect: bool)
    requires dividend < 256 && index == Oriented(FromNat(dividend, 8), reflect)
    ensures ToNat(Oriented(b, reflect)) == dividend <==> b == index
    ensures ToNat(b) == ToNat(index) <==> b == index
  {
    BytePow2();
    ToNatFromNat(dividend, 8);
    ReversedTwice(b);
    ReversedTwice(FromNat(dividend, 8));
    if ToNat(Oriented(b, reflect)) == dividend {
      ToNatInjective(Oriented(b, reflect), FromNat(dividend, 8));
    }
    if ToNat(b) == ToNat(index) {
      ToNatInjective(b, index);
    }
  }

  class CrcTable {
    const width: nat
    const bits: nat
    const poly: Bits
    const reflect: bool
    const entries: array<Bits>
    var didInit: bool

    ghost predicate Valid()
      reads this, entries
    {
      && 1 <= bits <= width && 8 <= width && |poly| == width
      && entries.Length == 256
      && (didInit ==> forall b: Byte :: Correct(b))
    }

    ghost predicate Correct(b: Byte)
      requires 1 <= bits <= width == |poly| && entries.Length == 256
      reads entries
    {
      var k := ToNat(b);
      && k < 256
      && |entries[k]| == width
      && Holds(entries[k], bits, reflect, Run(Zeros(bits), FeedOrder(b, reflect), poly[..bits]))
    }

    ghost predicate Serves(c: Parameters, reflectTable: bool)
      reads this
    {
      width == c.width && bits == c.bits && poly == c.poly && reflect == reflectTable
    }

    constructor (c: Parameters, reflect: bool)
      requires c.Valid()
      ensures Valid() && !didInit && Serves(c, reflect) && fresh(entries)
    {
      this.width, this.bits, this.poly, this.reflect := c.width, c.bits, c.poly, reflect;
      entries := new Bits[256](_ => Zeros(c.width));
      didInit := false;
    }

    /** `init_table`: fills the table on the first call only. */
    method InitTable()
      requires Valid()
      modifies this`didInit, entries
      ensures Valid() && didInit
      ensures old(didInit) ==> entries[..] == old(entries[..])
    {
      if didInit { return; }
      var dividend := 0;
      while dividend < 256
        invariant 0 <= dividend <= 256
        invariant forall b: Byte :: ToNat(Oriented(b, reflect)) < dividend ==> Correct(b)
      {
        FillEntry(dividend);
        dividend := dividend + 1;
      }
      forall b: Byte
        ensures Correct(b)
      {
        ToNatBounded(Oriented(b, reflect));
        BytePow2();
      }
      didInit := true;
    }

    /** One turn of the outer loop of `init_table`. */
    method FillEntry(dividend: nat)
      requires 1 <= bits <= width == |poly| && 8 <= width && entries.Length == 256
      requires dividend < 256
      modifies entries
      ensures forall b: Byte {:trigger Correct(b)} ::
        old(Correct(b)) || ToNat(Oriented(b, reflect)) == dividend ==> Correct(b)
    {
      var index, entry := EntryFor(dividend);
      Store(index, entry, dividend);
    }

    /** The index and the entry for one dividend. */
    method EntryFor(dividend: nat) returns (index: Byte, entry: Bits)
      requires 1 <= bits <= width == |poly| && 8 <= width && dividend < 256
      ensures index == Oriented(FromNat(dividend, 8), reflect) && |entry| == width
      ensures Holds(entry, bits, reflect, Run(Zeros(bits), FeedOrder(index, reflect), poly[..bits]))
    {
      var dividendBits := FromNat(dividend, 8);
      var remainder := DivideByte(dividendBits);
      index := HelperReflect(dividendBits, 8, reflect);
      entry := HelperReflect(remainder, bits, reflect);
      assert index == index[..8] == Oriented(dividendBits, reflect);
      assert FeedOrder(index, reflect) == Reversed(dividendBits);
    }

    method Store(index: Byte, entry: Bits, ghost dividend: nat)
      requires 1 <= bits <= width == |poly| && 8 <= width && entries.Length == 256
      requires dividend < 256 && index == Oriented(FromNat(dividend, 8), reflect) && |entry| == width
      requires Holds(entry, bits, reflect, Run(Zeros(bits), FeedOrder(index, reflect), poly[..bits]))
      modifies entries
      ensures forall b: Byte {:trigger Correct(b)} ::
        old(Correct(b)) || ToNat(Oriented(b, reflect)) == dividend ==> Correct(b)
    {
      BytePow2();
      ToNatBounded(index);
      entries[ToNat(index)] := entry;
      assert Correct(index);
      forall b: Byte | old(Correct(b)) || ToNat(Oriented(b, reflect)) == dividend
        ensures Correct(b)
      {
        StoredUnder(b, index, dividend, reflect);
      }
    }

    /** The inner loop of `init_table`: the eight bits of one dividend, top bit first. */
    method DivideByte(dividend: Byte) returns (remainder: Bits)
      requires 1 <= bits <= width == |poly|
      ensures |remainder| == width
      ensures remainder[..bits] == Run(Zeros(bits), Reversed(dividend), poly[..bits])
    {
      ghost var p := poly[..bits];
      remainder := Zeros(width);
      assert remainder[..bits] == Zeros(bits) && dividend[..8] == dividend;
      var mask := 8;
      while mask > 0
        invariant 0 <= mask <= 8
        invariant |remainder| == width
        invariant Run(remainder[..bits], Reversed(dividend[..mask]), p) == Run(Zeros(bits), Reversed(dividend), p)
      {
        RunHighest(remainder[..bits], dividend, mask, p);
        mask := mask - 1;
        remainder := DivideBit(remainder, dividend[mask]);
      }
    }

    /** One turn of the inner loop. */
    method DivideBit(rem: Bits, bit: bool) returns (remainder: Bits)
      requires 1 <= bits <= width == |poly| == |rem|
      ensures |remainder| == width
      ensures remainder[..bits] == Step(rem[..bits], bit, poly[..bits])
    {
      DivisionStep(rem, bit, poly, bits);
      var fastHiBit := OneHot(width, bits - 1);
      remainder := rem;
      if bit {
        remainder := Xor(remainder, fastHiBit);
      }
      if remainder[bits - 1] {
        remainder := Shl(remainder, 1);
        remainder := Xor(remainder, poly);
      } else {
        remainder := Shl(remainder, 1);
      }
    }
  }

  lemma BitOnTop(byte: Byte, rest: Byte, i: nat)
    requires 1 <= i <= 8 && rest == Shl(byte, 8 - i)
    ensures rest[7] == byte[i - 1] && Shl(rest, 1) == Shl(byte, 9 - i)
  {
  }

  /** The highest of the i bits left stands on top of the shifted byte, and is the next to
      be fed. */
  lemma HighestOnTop(held: Bits, byte: Byte, rest: Byte, i: nat, p: Bits)
    requires |held| == |p| >= 1 && 1 <= i <= 8 && rest == Shl(byte, 8 - i)
    ensures Shl(rest, 1) == Shl(byte, 9 - i)
    ensures Run(held, Reversed(byte[..i]), p) == Run(Step(held, rest[7], p), Reversed(byte[..i - 1]), p)
  {
    BitOnTop(byte, rest, i);
    RunHighest(held, byte, i, p);
  }

  lemma NothingLeft(held: Bits, byte: Byte, p: Bits)
    requires |held| == |p| >= 1
    ensures Run(held, Reversed(byte[..0]), p) == held
  {
  }

  /** `crc_basic`: one bit at a time. */
  class CrcBasic {
    const width: nat
    const bits: nat
    var rem: Bits
    var poly: Bits
    var init: Bits
    var final: Bits
    var reflectIn: bool
    var reflectRem: bool

    ghost predicate Valid()
      reads this
    {
      && 1 <= bits <= width && 8 <= width
      && |rem| == |poly| == |init| == |final| == width
    }

    ghost predicate Configured(c: Parameters)
      reads this
    {
      && c == Parameters(width, bits, poly, init, final, reflectIn, reflectRem)
    }

    /** The remainder held: the significant bits of the register. */
    ghost function Held(): (r: Bits)
      requires Valid()
      reads this
    {
      rem[..bits]
    }

    constructor (c: Parameters)
      requires c.Valid()
      ensures Valid() && Configured(c) && Held() == c.init[..c.bits]
    {
      width, bits := c.width, c.bits;
      rem, poly, init, final := c.init, c.poly, c.init, c.final;
      reflectIn, reflectRem := c.reflectIn, c.reflectRem;
    }

    method GetInterimRemainder() returns (r: Bits)
      requires Valid()
      ensures r == Resize(Held(), width)
    {
      r := Mask(rem, bits);
    }

    method ResetTo(newRem: Bits)
      requires Valid() && |newRem| == width
      modifies this`rem
      ensures Valid() && Held() == newRem[..bits]
    {
      rem := newRem;
    }

    method Reset()
      requires Valid()
      modifies this`rem
      ensures Valid() && Held() == init[..bits]
    {
      ResetTo(init);
    }

    method ProcessBit(bit: bool)
      requires Valid()
      modifies this`rem
      ensures Valid() && Held() == Step(old(Held()), bit, poly[..bits])
    {
      DivisionStep(rem, bit, poly, bits);
      var highBitMask := OneHot(width, bits - 1);
      rem := Xor(rem, if bit then highBitMask else Zeros(width));
      var doPolyDiv := rem[bits - 1];
      rem := Shl(rem, 1);
      if doPolyDiv {
        rem := Xor(rem, poly);
      }
    }

    /** Feeds the low `bitCount` bits of a byte, the highest of them first. */
    method ProcessBits(byte: Byte, bitCount: nat)
      requires Valid() && bitCount <= 8
      modifies this`rem
      ensures Valid() && Held() == Run(old(Held()), Reversed(byte[..bitCount]), poly[..bits])
    {
      ghost var p := poly[..bits];
      ghost var result := Run(Held(), Reversed(byte[..bitCount]), p);
      var rest := Shl(byte, 8 - bitCount);
      var i := bitCount;
      while i > 0
        invariant 0 <= i <= bitCount
        invariant Valid()
        invariant rest == Shl(byte, 8 - i)
        invariant Run(Held(), Reversed(byte[..i]), p) == result
      {
        rest := FeedHighest(byte, rest, i);
        i := i - 1;
      }
      NothingLeft(Held(), byte, p);
    }

    /** The body of the loop of `process_bits`. */
    method FeedHighest(ghost byte: Byte, rest: Byte, ghost i: nat) returns (shifted: Byte)
      requires Valid() && 1 <= i <= 8 && rest == Shl(byte, 8 - i)
      modifies this`rem
      ensures Valid() && shifted == Shl(byte, 9 - i)
      ensures Run(Held(), Reversed(byte[..i - 1]), poly[..bits]) == old(Run(Held(), Reversed(byte[..i]), poly[..bits]))
    {
      HighestOnTop(Held(), byte, rest, i, poly[..bits]);
      ProcessBit(rest[7]);
      shifted := Shl(rest, 1);
    }

    method ProcessByte(byte: Byte)
      requires Valid()
      modifies this`rem
      ensures Valid() && Held() == Run(old(Held()), FeedOrder(byte, reflectIn), poly[..bits])
    {
      var b := byte;
      if reflectIn {
        b := Reflect(byte, 8);
        assert b == Reversed(byte);
        ReversedTwice(byte);
      }
      ProcessBits(b, 8);
      assert b[..8] == b;
    }

    method ProcessBlock(block: seq<Byte>)
      requires Valid()
      modifies this`rem
      ensures Valid() && Held() == Run(old(Held()), MessageBits(block, reflectIn), poly[..bits])
    {
      var p := 0;
      while p < |block|
        invariant 0 <= p <= |block|
        invariant Valid()
        invariant Held() == Run(old(Held()), MessageBits(block[..p], reflectIn), poly[..bits])
      {
        RunOneMoreByte(old(Held()), block, p, reflectIn, poly[..bits]);
        ProcessByte(block[p]);
        p := p + 1;
      }
      assert block[..p] == block;
    }

    method Checksum() returns (r: Bits)
      requires Valid()
      ensures r == Resize(Output(Held(), final[..bits], reflectRem), width)
      ensures |r| == width && forall i :: 0 <= i < width ==>
                r[i] == (i < bits && Held()[if reflectRem then bits - 1 - i else i] != final[i])
    {
      var x := rem;
      if reflectRem {
        x := Reflect(rem, bits);
      }
      r := Mask(Xor(x, final), bits);
      assert r == Resize(Output(Held(), final[..bits], reflectRem), width);
      OutputBits(Held(), final[..bits], reflectRem, width);
    }
  }

  /** The reported value, bit by bit. */
  lemma OutputBits(held: Bits, final: Bits, reflectRem: bool, width: nat)
    requires |held| == |final| <= width
    ensures forall i :: 0 <= i < width ==>
              Resize(Output(held, final, reflectRem), width)[i]
              == (i < |held| && held[if reflectRem then |held| - 1 - i else i] != final[i])
  {
  }

  /** Shifting a register and adding an entry does the same to the remainders they hold. */
  lemma ShiftedSum(rem: Bits, bits: nat, reflect: bool, r: Bits, entry: Bits, looked: Bits)
    requires 1 <= bits <= |rem| == |entry|
    requires Holds(rem, bits, reflect, r) && Holds(entry, bits, reflect, looked)
    ensures Holds(Xor(Shift(rem, reflect), entry), bits, reflect, Xor(looked, Shl(r, 8)))
  {
    var left, right := Xor(Shift(rem, reflect), entry), Xor(looked, Shl(r, 8));
    forall i | 0 <= i < bits
      ensures left[i] == Oriented(right, reflect)[i]
    {
      assert entry[i] == entry[..bits][i] == Oriented(looked, reflect)[i];
      var source := if reflect then i + 8 else i - 8;
      if 0 <= source < bits {
        assert rem[source] == rem[..bits][source] == Oriented(r, reflect)[source];
      }
    }
    assert left[..bits] == Oriented(right, reflect);
  }

  /** One byte through the table is eight steps of the division, whether the register
      is kept straight or reflected, and also when it is narrower than a byte. */
  lemma ByteThroughTable(rem: Bits, bits: nat, reflect: bool, r: Bits, x: Byte, entry: Bits, p: Bits)
    requires 1 <= bits <= |rem| == |entry| && 8 <= |rem| && |p| == bits
    requires Holds(rem, bits, reflect, r)
    requires Holds(entry, bits, reflect, Run(Zeros(bits), FeedOrder(Index(rem, bits, x, reflect), reflect), p))
    ensures Holds(Xor(Shift(rem, reflect), entry), bits, reflect, Run(r, FeedOrder(x, reflect), p))
  {
    IndexMeetsTop(rem, bits, reflect, r, x);
    RunByTable(r, FeedOrder(x, reflect), p);
    ShiftedSum(rem, bits, reflect, r, entry, Run(Zeros(bits), FeedOrder(Index(rem, bits, x, reflect), reflect), p));
  }

  /** The index byte is the message byte plus the eight register bits it will meet. */
  lemma IndexMeetsTop(rem: Bits, bits: nat, reflect: bool, r: Bits, x: Byte)
    requires 1 <= bits <= |rem| && 8 <= |rem|
    requires Holds(rem, bits, reflect, r)
    ensures FeedOrder(Index(rem, bits, x, reflect), reflect) == Xor(FeedOrder(x, reflect), Top(r, 8))
  {
    if reflect {
      ReflectedLowByte(rem, bits, r);
    } else {
      AlignedTopByte(rem, bits, r);
      ReversedXor(x, AlignMsb(rem, bits));
    }
  }

  lemma ReversedXor(a: Bits, b: Bits)
    requires |a| == |b|
    ensures Reversed(Xor(a, b)) == Xor(Reversed(a), Reversed(b))
  {
  }

  lemma ReflectedLowByte(rem: Bits, bits: nat, r: Bits)
    requires 1 <= bits <= |rem| && 8 <= |rem| && Holds(rem, bits, true, r)
    ensures Resize(rem, 8) == Top(r, 8)
  {
    forall i | 0 <= i < 8
      ensures Resize(rem, 8)[i] == Top(r, 8)[i]
    {
      if i < bits {
        assert rem[..bits][i] == r[bits - 1 - i];
      }
    }
  }

  lemma AlignedTopByte(rem: Bits, bits: nat, r: Bits)
    requires 1 <= bits <= |rem| && 8 <= |rem| && Holds(rem, bits, false, r)
    ensures Reversed(AlignMsb(rem, bits)) == Top(r, 8)
  {
    forall i | 0 <= i < 8
      ensures Reversed(AlignMsb(rem, bits))[i] == Top(r, 8)[i]
    {
      if i < bits {
        assert rem[..bits][bits - 1 - i] == r[bits - 1 - i];
      }
    }
  }

  /** `crc_optimal`: one byte at a time, through the table. */
  class CrcOptimal {
    const c: Parameters
    const table: CrcTable
    var rem: Bits

    ghost predicate Valid()
      reads this, table, table.entries
    {
      && c.Valid()
      && table.Valid() && table.didInit && table.Serves(c, c.reflectIn)
      && |rem| == c.width
      && (c.reflectIn ==> forall j :: c.bits <= j < |rem| ==> !rem[j])
    }

    /** The remainder held: the register is kept reflected when the input is. */
    ghost function Held(): (r: Bits)
      requires c.Valid() && |rem| == c.width
      reads this
    {
      Oriented(rem[..c.bits], c.reflectIn)
    }

    constructor (c: Parameters, table: CrcTable, initRem: Bits)
      requires c.Valid() && table.Valid() && table.Serves(c, c.reflectIn) && |initRem| == c.width
      modifies table`didInit, table.entries
      ensures Valid() && this.c == c && this.table == table
      ensures Held() == initRem[..c.bits]
    {
      this.c, this.table := c, table;
      rem := initRem;
      new;
      rem := HelperReflect(initRem, c.bits, c.reflectIn);
      ReversedTwice(initRem[..c.bits]);
      table.InitTable();
    }

    method GetInterimRemainder() returns (r: Bits)
      requires Valid()
      ensures r == Resize(Held(), c.width)
    {
      var x := HelperReflect(rem, c.bits, c.reflectIn);
      r := Mask(x, c.bits);
      assert forall j :: 0 <= j < c.bits ==> x[j] == x[..c.bits][j];
    }

    method Reset(newRem: Bits)
      requires Valid() && |newRem| == c.width
      modifies this`rem
      ensures Valid() && Held() == newRem[..c.bits]
    {
      rem := HelperReflect(newRem, c.bits, c.reflectIn);
      ReversedTwice(newRem[..c.bits]);
    }

    method ProcessBlock(block: seq<Byte>)
      requires Valid()
      modifies this`rem
      ensures Valid() && Held() == Run(old(Held()), MessageBits(block, c.reflectIn), c.poly[..c.bits])
    {
      var p := 0;
      while p < |block|
        invariant 0 <= p <= |block|
        invariant Valid()
        invariant Held() == Run(old(Held()), MessageBits(block[..p], c.reflectIn), c.poly[..c.bits])
      {
        RunOneMoreByte(old(Held()), block, p, c.reflectIn, c.poly[..c.bits]);
        DivideThroughTable(block[p]);
        p := p + 1;
      }
      assert block[..p] == block;
    }

    /** The body of the loop of `process_block`. */
    method DivideThroughTable(x: Byte)
      requires Valid()
      modifies this`rem
      ensures Valid() && Held() == Run(old(Held()), FeedOrder(x, c.reflectIn), c.poly[..c.bits])
    {
      var byteIndex := Index(rem, c.bits, x, c.reflectIn);
      assert table.Correct(byteIndex);
      var entry := table.entries[ToNat(byteIndex)];
      ReversedTwice(rem[..c.bits]);
      ByteThroughTable(rem, c.bits, c.reflectIn, Held(), x, entry, c.poly[..c.bits]);
      ReversedTwice(Run(Held(), FeedOrder(x, c.reflectIn), c.poly[..c.bits]));
      rem := Shift(rem, c.reflectIn);
      rem := Xor(rem, entry);
    }

    method Checksum() returns (r: Bits)
      requires Valid()
      ensures r == Resize(Output(Held(), c.final[..c.bits], c.reflectRem), c.width)
      ensures |r| == c.width && forall i :: 0 <= i < c.width ==>
                r[i] == (i < c.bits && Held()[if c.reflectRem then c.bits - 1 - i else i] != c.final[i])
    {
      // the register is already reflected when the input is
      var x := HelperReflect(rem, c.bits, c.reflectRem != c.reflectIn);
      r := Mask(Xor(x, c.final), c.bits);
      assert x[..c.bits] == Oriented(Held(), c.reflectRem);
      assert forall j :: 0 <= j < c.bits ==> x[j] == x[..c.bits][j];
      OutputBits(Held(), c.final[..c.bits], c.reflectRem, c.width);
    }
  }

  /** The one-shot function `crc<...>( buffer, byte_count )`. */
  method CrcOf(c: Parameters, table: CrcTable, buffer: seq<Byte>) returns (r: Bits)
    requires c.Valid() && table.Valid() && table.Serves(c, c.reflectIn)
    modifies table`didInit, table.entries
    ensures r == ChecksumOf(c, buffer)
    ensures |r| == c.width && forall i :: 0 <= i < c.width ==>
              r[i] == (i < c.bits && Remainder(c, buffer)[if c.reflectRem then c.bits - 1 - i else i] != c.final[i])
  {
    var computer := new CrcOptimal(c, table, c.init);
    computer.ProcessBlock(buffer);
    r := computer.Checksum();
  }

  /** What the computers reported after the first blocks of a run. */
  datatype Report = Report(interim: Bits, checksum: Bits)

  function ReportOf(c: Parameters, message: seq<Byte>): Report
    requires c.Valid()
  {
    Report(Resize(Remainder(c, message), c.width), ChecksumOf(c, message))
  }

  function Reports(c: Parameters, blocks: seq<seq<Byte>>): (r: seq<Report>)
    requires c.Valid()
    ensures |r| == |blocks|
  {
    if blocks == [] then [] else Reports(c, blocks[..|blocks| - 1]) + [ReportOf(c, Joined(blocks))]
  }

  /** Two sets of parameters for the same CRC: the two computers use register types of
      different widths, and what stands above the significant bits may differ. */
  predicate SameCrc(b: Parameters, o: Parameters) {
    && b.bits == o.bits && b.reflectIn == o.reflectIn && b.reflectRem == o.reflectRem
    && b.bits <= |b.poly| && b.bits <= |b.init| && b.bits <= |b.final|
    && b.bits <= |o.poly| && b.bits <= |o.init| && b.bits <= |o.final|
    && b.poly[..b.bits] == o.poly[..b.bits]
    && b.init[..b.bits] == o.init[..b.bits]
    && b.final[..b.bits] == o.final[..b.bits]
  }

  /** The same numbers, in registers of whatever widths. */
  predicate SameNumbers(x: Report, y: Report) {
    ToNat(x.interim) == ToNat(y.interim) && ToNat(x.checksum) == ToNat(y.checksum)
  }

  /** Every bit of the checksum is the bit of the interim remainder in its place, or in the
      mirrored place, flipped where the final value has a one; nothing stands above. */
  ghost predicate BitsFit(c: Parameters, x: Report)
    requires c.Valid()
  {
    && |x.interim| == |x.checksum| == c.width
    && (forall j :: c.bits <= j < c.width ==> !x.interim[j] && !x.checksum[j])
    && (forall j :: 0 <= j < c.bits ==>
          x.checksum[j] == (x.interim[if c.reflectRem then c.bits - 1 - j else j] != c.final[j]))
  }

  lemma ReportFits(c: Parameters, message: seq<Byte>)
    requires c.Valid()
    ensures BitsFit(c, ReportOf(c, message))
  {
  }

  lemma SameCrcSameNumbers(b: Parameters, o: Parameters, message: seq<Byte>)
    requires b.Valid() && o.Valid() && SameCrc(b, o)
    ensures SameNumbers(ReportOf(b, message), ReportOf(o, message))
  {
    var r := Remainder(b, message);
    var out := Output(r, b.final[..b.bits], b.reflectRem);
    assert |r| == |out| == b.bits;
    ToNatResize(r, b.width);
    ToNatResize(r, o.width);
    ToNatResize(out, b.width);
    ToNatResize(out, o.width);
  }

  lemma {:induction false} ReportsAt(c: Parameters, blocks: seq<seq<Byte>>, i: nat)
    requires c.Valid() && i < |blocks|
    ensures Reports(c, blocks)[i] == ReportOf(c, Joined(blocks[..i + 1]))
    decreases |blocks|
  {
    var last := |blocks| - 1;
    var before, report := Reports(c, blocks[..last]), ReportOf(c, Joined(blocks));
    assert Reports(c, blocks) == before + [report];
    if i == last {
      assert blocks[..i + 1] == blocks;
    } else {
      ReportsAt(c, blocks[..last], i);
      assert blocks[..last][..i + 1] == blocks[..i + 1];
    }
  }

  /** Both computers, fed the same blocks one after the other, report the same numbers after
      each of them: the interim remainder and the checksum of everything fed so far. */
  method FeedBoth(b: Parameters, o: Parameters, blocks: seq<seq<Byte>>)
    returns (basicReports: seq<Report>, optimalReports: seq<Report>)
    requires b.Valid() && o.Valid() && SameCrc(b, o)
    ensures |basicReports| == |optimalReports| == |blocks|
    ensures forall i :: 0 <= i < |blocks| ==>
              && basicReports[i] == ReportOf(b, Joined(blocks[..i + 1]))
              && optimalReports[i] == ReportOf(o, Joined(blocks[..i + 1]))
              && SameNumbers(basicReports[i], optimalReports[i])
    ensures forall i :: 0 <= i < |blocks| ==> BitsFit(b, basicReports[i]) && BitsFit(o, optimalReports[i])
  {
    var table := new CrcTable(o, o.reflectIn);
    var basic := new CrcBasic(b);
    var optimal := new CrcOptimal(o, table, o.init);
    basicReports, optimalReports := ReportAll(b, basic, optimal, blocks);
    forall i | 0 <= i < |blocks|
      ensures basicReports[i] == ReportOf(b, Joined(blocks[..i + 1]))
      ensures optimalReports[i] == ReportOf(o, Joined(blocks[..i + 1]))
      ensures SameNumbers(basicReports[i], optimalReports[i])
      ensures BitsFit(b, basicReports[i]) && BitsFit(o, optimalReports[i])
    {
      ReportFits(b, Joined(blocks[..i + 1]));
      ReportFits(o, Joined(blocks[..i + 1]));
      ReportsAt(b, blocks, i);
      ReportsAt(o, blocks, i);
      SameCrcSameNumbers(b, o, Joined(blocks[..i + 1]));
    }
  }

  method ReportAll(ghost b: Parameters, basic: CrcBasic, optimal: CrcOptimal, blocks: seq<seq<Byte>>)
    returns (basicReports: seq<Report>, optimalReports: seq<Report>)
    requires optimal.Valid() && basic.Valid() && b.Valid() && basic.Configured(b)
    requires basic.Held() == Remainder(b, []) && optimal.Held() == Remainder(optimal.c, [])
    modifies basic`rem, optimal`rem
    ensures basicReports == Reports(b, blocks) && optimalReports == Reports(optimal.c, blocks)
  {
    basicReports, optimalReports := [], [];
    var i := 0;
    while i < |blocks|
      invariant 0 <= i <= |blocks|
      invariant optimal.Valid() && basic.Valid() && basic.Configured(b)
      invariant basic.Held() == Remainder(b, Joined(blocks[..i]))
      invariant optimal.Held() == Remainder(optimal.c, Joined(blocks[..i]))
      invariant basicReports == Reports(b, blocks[..i])
      invariant optimalReports == Reports(optimal.c, blocks[..i])
    {
      assert blocks[..i + 1][..i] == blocks[..i];
      var x, y := ReportBoth(b, basic, optimal, Joined(blocks[..i]), blocks[i]);
      assert Joined(blocks[..i + 1]) == Joined(blocks[..i]) + blocks[i];
      basicReports, optimalReports := basicReports + [x], optimalReports + [y];
      i := i + 1;
    }
    assert blocks[..i] == blocks;
  }

  method ReportBoth(ghost b: Parameters, basic: CrcBasic, optimal: CrcOptimal,
                    ghost before: seq<Byte>, block: seq<Byte>)
    returns (x: Report, y: Report)
    requires optimal.Valid() && basic.Valid() && b.Valid() && basic.Configured(b)
    requires basic.Held() == Remainder(b, before) && optimal.Held() == Remainder(optimal.c, before)
    modifies basic`rem, optimal`rem
    ensures optimal.Valid() && basic.Valid() && basic.Configured(b)
    ensures basic.Held() == Remainder(b, before + block) && optimal.Held() == Remainder(optimal.c, before + block)
    ensures x == ReportOf(b, before + block) && y == ReportOf(optimal.c, before + block)
  {
    x := ReportBasic(basic, b, before, block);
    y := ReportOptimal(optimal, before, block);
  }

  method ReportBasic(basic: CrcBasic, ghost c: Parameters, ghost before: seq<Byte>, block: seq<Byte>)
    returns (report: Report)
    requires c.Valid() && basic.Valid() && basic.Configured(c)
    requires basic.Held() == Remainder(c, before)
    modifies basic`rem
    ensures basic.Valid() && basic.Configured(c)
    ensures basic.Held() == Remainder(c, before + block)
    ensures report == ReportOf(c, before + block)
  {
    RemainderConcat(c, before, block);
    basic.ProcessBlock(block);
    var interim := basic.GetInterimRemainder();
    var checksum := basic.Checksum();
    report := Report(interim, checksum);
  }

  method ReportOptimal(optimal: CrcOptimal, ghost before: seq<Byte>, block: seq<Byte>) returns (report: Report)
    requires optimal.Valid() && optimal.Held() == Remainder(optimal.c, before)
    modifies optimal`rem
    ensures optimal.Valid()
    ensures optimal.Held() == Remainder(optimal.c, before + block)
    ensures report == ReportOf(optimal.c, before + block)
  {
    RemainderConcat(optimal.c, before, block);
    optimal.ProcessBlock(block);
    var interim := optimal.GetInterimRemainder();
    var checksum := optimal.Checksum();
    report := Report(interim, checksum);
  }

  function Joined(blocks: seq<seq<Byte>>): seq<Byte> {
    if blocks == [] then [] else Joined(blocks[..|blocks| - 1]) + blocks[|blocks| - 1]
  }

  /** Blocks are joined in order. */
  lemma {:induction false} JoinedConcat(a: seq<seq<Byte>>, b: seq<seq<Byte>>)
    ensures Joined(a + b) == Joined(a) + Joined(b)
    ensures |b| == 1 ==> Joined(b) == b[0]
    decreases |b|
  {
    if b == [] {
      assert a + b == a && Joined(a) + [] == Joined(a);
    } else {
      var k := |b| - 1;
      assert (a + b)[..|a + b| - 1] == a + b[..k];
      JoinedConcat(a, b[..k]);
      assert Joined(a) + Joined(b[..k]) + b[k] == Joined(a) + (Joined(b[..k]) + b[k]);
    }
  }

  lemma RemainderConcat(c: Parameters, a: seq<Byte>, b: seq<Byte>)
    requires c.Valid()
    ensures Remainder(c, a + b) == Run(Remainder(c, a), MessageBits(b, c.reflectIn), c.poly[..c.bits])
  {
    MessageBitsConcat(a, b, c.reflectIn);
    RunConcat(c.init[..c.bits], MessageBits(a, c.reflectIn), MessageBits(b, c.reflectIn), c.poly[..c.bits]);
  }
}
