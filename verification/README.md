# A verified model of the vendored Boost components

The application vendors a slim copy of the Boost libraries. Five of its components
carry real algorithms, and this project models them in Dafny and proves what they
promise, over all inputs and over whole runs.

- **CRC engine.** A bit-at-a-time computer, a byte-at-a-time computer that may keep its
  register mirrored, and the augmented-message function. A register is a bit sequence as
  wide as the C++ register type; only its low `Bits` bits are significant, and nothing is
  assumed of the others. All three are tied to one bitwise division (`CrcSpec`), which in
  turn is proved to be polynomial division over GF(2) (`Gf2`).
- **Exact rationals.** The normalized fraction class with its shortcuts, its
  continued-fraction comparison, its lifted gcd and lcm, and its text form; and the integer
  gcd algorithms it stands on.
- **Tokenizers.** Three scanners with state between calls and the iterator that drives them.
  A pure step function (`Tokenizing.Next`) specifies one call; `Yields` says which token
  list a run over a whole input returns.
- **Progress display.** Counters and printed text over arbitrary runs of increments.
- **Durations.** Conversion, mixed-period comparison and arithmetic, and rounding up.

What the source updates in place is a class here (`CrcTable`, `CrcBasic`, `CrcOptimal`,
`Rational`, the three separators, `TokenIterator`, `ProgressDisplay`); every such method is
proved against a specification function or against exact arithmetic, and the laws are
proved about those.

| file | content |
|---|---|
| `Bits.dfy`, `CrcSpec.dfy`, `Gf2.dfy` | machine words, the division register and its algebra, polynomials |
| `Crc.dfy`, `CrcMeaning.dfy`, `AugmentedCrc.dfy`, `Bursts.dfy` | the table and the two computers, what they report, the augmented-message function, error detection |
| `NumberTheory.dfy`, `IntegerGcd.dfy` | divisibility and coprimality, the gcd algorithms |
| `RationalLaws.dfy`, `RationalValues.dfy`, `Rationals.dfy`, `RationalRuns.dfy` | why the shortcuts reduce, fractions as real numbers, the class, whole runs |
| `RationalLattice.dfy`, `RationalText.dfy` | gcd and lcm of fractions, printing and reading |
| `Strings.dfy`, `Tokenizing.dfy`, `Separators.dfy` | shared string facts, the step and run specification, the classes |
| `EscapedListLaws.dfy`, `EscapedRoles.dfy`, `CharSeparatorLaws.dfy`, `DelimiterLaws.dfy`, `OffsetLaws.dfy`, `TokenRuns.dfy` | the laws of each scanner, in terms of its state and of the arguments it was constructed with; whole iterator loops |
| `Progress.dfy`, `Durations.dfy` | the progress display, durations |

`dafny verify dfyconfig.toml` checks the whole project.

Where the code and its own comments or evident intent part, the model follows the code:

- An escaped `n` reads as a line feed even when `n` is itself an escape, a quote or a
  separator, so such a field does not come back; `WriteThenTokenize` has the exact condition
  and `EscapedNExample` a field.
- `char_separator::reset` does nothing, so a separator whose call operator was used before
  may lose the empty token in front of a leading delimiter; `KeepYields` has the exact
  condition and `UsedTwice` a run. An iterator works on a copy, so iterating alone does not
  bring the caller's object into that state.
- `offset_separator` with partial last tokens refused still returns a last token that is one
  character short; `WrongLengthIff` has the exact condition on the input.
- The progress display ends its row only if the count stands at the expected count;
  `LineEndsIff` and `OvershootExample` show when it does not.
- `operator>>` refuses a bare integer at the end of the text: a slash is required.

## Model

| member | source | states |
|---|---|---|
| `Crc.FeedBoth` | OpenApoc/src/main/jni/boost_slim/boost/crc.hpp:784-997 | For every number of significant bits, polynomial, initial value, final xor and pair of reflect flags, and every list of blocks, the bitwise and the table-driven computer report the same numbers after each block, each in a register type of its own width; every bit of a checksum is the bit of the interim remainder in its place, or in the mirrored place, flipped where the final value has a one |
| `CrcMeaning.ReportMeans` | OpenApoc/src/main/jni/boost_slim/boost/crc.hpp:727-823 | What is reported after a message: the interim remainder is the polynomial remainder of initial value and message bits by the divisor, the checksum is that remainder mirrored as configured and flipped by the final value, and nothing stands above the significant bits |
| `CrcMeaning.MessageBitAt` | OpenApoc/src/main/jni/boost_slim/boost/crc.hpp:772-797 | Bit 8·i + j of what is fed is bit j of byte i if the input is reflected and bit 7 - j otherwise |
| `CrcMeaning.SmallChecksum` | OpenApoc/src/main/jni/boost_slim/boost/crc.hpp:727-823 | The byte 1 over x^3 + x + 1, in numbers, for any final value and either reflection of the remainder |
| `Crc.JoinedConcat` | OpenApoc/src/main/jni/boost_slim/boost/crc.hpp:784-797 | What several blocks come to is their concatenation in order |
| `Crc.SameCrcSameNumbers` | OpenApoc/src/main/jni/boost_slim/boost/crc.hpp:627-644 | The width of the register type and what stands above the significant bits of the parameters have no influence on the numbers reported |
| `Gf2.RegisterIsRemainder` | OpenApoc/src/main/jni/boost_slim/boost/crc.hpp:727-770 | A register value is what any message leaves if and only if it is a remainder of (register·x^m + M·x^Bits) by x^Bits plus the truncated polynomial, over GF(2) |
| `Gf2.RunDivides` | OpenApoc/src/main/jni/boost_slim/boost/crc.hpp:727-770 | The quotient of that division is the sequence of decisions to subtract, so the division identity holds with an explicit quotient |
| `Gf2.RemainderUnique` | OpenApoc/src/main/jni/boost_slim/boost/crc.hpp:727-770 | Two divisions by a monic divisor with the same dividend have the same quotient and the same remainder |
| `CrcSpec.RunByTable` | OpenApoc/src/main/jni/boost_slim/boost/crc.hpp:944-966 | Any number k of division steps, on a register of any width including one narrower than k, is one look-up (of the message plus the bits that fall out) added to the register shifted by k |
| `CrcSpec.RunLinear` | OpenApoc/src/main/jni/boost_slim/boost/crc.hpp:727-751 | The division register is linear over GF(2) in the register and the message together |
| `Crc.ByteThroughTable` | OpenApoc/src/main/jni/boost_slim/boost/crc.hpp:540-622 | Index, shift and table entry together perform eight division steps, in the straight and in the reflected register, for more and for fewer than eight significant bits, whatever stands above them |
| `Crc.IndexMeetsTop` | OpenApoc/src/main/jni/boost_slim/boost/crc.hpp:535-622 | The table index, in feeding order, is the message byte plus the eight register bits it is about to meet, zeros standing in below a narrow register |
| `Crc.DivisionStep` | OpenApoc/src/main/jni/boost_slim/boost/crc.hpp:500-529 | Masking, shifting and subtracting on the whole register type acts on the significant bits as one division step; higher junk never comes down |
| `Crc.Reflect` | OpenApoc/src/main/jni/boost_slim/boost/crc.hpp:307-326 | The result is the mirror image of the low bits, with nothing above them |
| `Crc.HelperReflect` | OpenApoc/src/main/jni/boost_slim/boost/crc.hpp:585-606 | The mirror image or the value itself, as the flag says |
| `Crc.CrcTable.InitTable` | OpenApoc/src/main/jni/boost_slim/boost/crc.hpp:488-536 | After the call every one of the 256 entries holds the remainder of its own index byte, in the orientation of the table; a second call changes nothing |
| `Crc.CrcTable.FillEntry` | OpenApoc/src/main/jni/boost_slim/boost/crc.hpp:503-533 | The entry of one dividend becomes right and no right entry is spoilt, though the entry is stored under the reflected index |
| `Crc.CrcTable.DivideByte` | OpenApoc/src/main/jni/boost_slim/boost/crc.hpp:507-529 | The remainder of a byte from an empty register |
| `Crc.CrcBasic.constructor` | OpenApoc/src/main/jni/boost_slim/boost/crc.hpp:627-644 | The register starts at the initial remainder |
| `Crc.CrcBasic.GetInterimRemainder` | OpenApoc/src/main/jni/boost_slim/boost/crc.hpp:696-704 | The significant bits alone |
| `Crc.CrcBasic.Reset` | OpenApoc/src/main/jni/boost_slim/boost/crc.hpp:717-725 | The register is back at the initial remainder |
| `Crc.CrcBasic.ProcessBit` | OpenApoc/src/main/jni/boost_slim/boost/crc.hpp:727-751 | One division step on the significant bits |
| `Crc.CrcBasic.ProcessBits` | OpenApoc/src/main/jni/boost_slim/boost/crc.hpp:753-770 | The low bits of the byte are fed, the highest of them first |
| `Crc.CrcBasic.ProcessByte` | OpenApoc/src/main/jni/boost_slim/boost/crc.hpp:772-782 | The byte's bits are fed in the configured order |
| `Crc.CrcBasic.ProcessBlock` | OpenApoc/src/main/jni/boost_slim/boost/crc.hpp:784-797 | The register is that of the whole block fed bit by bit |
| `Crc.CrcBasic.Checksum` | OpenApoc/src/main/jni/boost_slim/boost/crc.hpp:814-823 | Bit i is the bit of the remainder in place i, or mirrored, flipped where the final value has a one; nothing stands above the significant bits |
| `Crc.CrcOptimal.constructor` | OpenApoc/src/main/jni/boost_slim/boost/crc.hpp:832-843 | The remainder held is the initial one, and the table is filled, whether or not it was before |
| `Crc.CrcOptimal.GetInterimRemainder` | OpenApoc/src/main/jni/boost_slim/boost/crc.hpp:905-916 | The remainder held, in straight order although the register may be mirrored |
| `Crc.CrcOptimal.Reset` | OpenApoc/src/main/jni/boost_slim/boost/crc.hpp:918-930 | The remainder held is the given one |
| `Crc.CrcOptimal.ProcessBlock` | OpenApoc/src/main/jni/boost_slim/boost/crc.hpp:944-966 | The remainder held is that of the block fed bit by bit |
| `Crc.CrcOptimal.Checksum` | OpenApoc/src/main/jni/boost_slim/boost/crc.hpp:984-996 | The same, bit by bit, of the remainder held, for all four pairs of flags although the register may be mirrored |
| `Crc.CrcOf` | OpenApoc/src/main/jni/boost_slim/boost/crc.hpp:1025-1040 | The one-shot function returns, bit by bit, the remainder of bitwise division, mirrored as configured and flipped by the final value |
| `Crc.RemainderConcat` | OpenApoc/src/main/jni/boost_slim/boost/crc.hpp:784-797 | Feeding two blocks is feeding their concatenation |
| `AugmentedCrc.Compute` | OpenApoc/src/main/jni/boost_slim/boost/crc.hpp:1045-1076 | The table-driven loop computes the division in which message bits enter at the bottom of the register, junk above the significant bits notwithstanding |
| `AugmentedCrc.AugmentedIsPlainCrc` | OpenApoc/src/main/jni/boost_slim/boost/crc.hpp:1025-1076 | A message followed by Bits/8 zero bytes has the unreflected CRC of the message; a non-zero initial remainder counts as multiplied by x^Bits |
| `AugmentedCrc.CodewordCheck` | OpenApoc/src/main/jni/boost_slim/boost/crc.hpp:1045-1076 | A message followed by a register's bytes, highest first, leaves zero if and only if that register is the plain CRC of the message |
| `AugmentedCrc.TimesXnOfRun` | OpenApoc/src/main/jni/boost_slim/boost/crc.hpp:1060-1074 | Feeding at the bottom and then multiplying by x^Bits is feeding at the top |
| `AugmentedCrc.AugmentedWithZeros` | OpenApoc/src/main/jni/boost_slim/boost/crc.hpp:1060-1074 | Bits zero bits behind the message turn one kind of division into the other |
| `AugmentedCrc.AugmentedIsZeroIff` | OpenApoc/src/main/jni/boost_slim/boost/crc.hpp:1060-1074 | Bits further bits leave nothing if and only if they spell the remainder, highest first |
| `AugmentedCrc.AugmentedByTable` | OpenApoc/src/main/jni/boost_slim/boost/crc.hpp:1065-1074 | A chunk no longer than the register is one shift, one insertion and one look-up |
| `Bursts.BurstsDetectedIff` | OpenApoc/src/main/jni/boost_slim/boost/crc.hpp:727-770 | Every change of a message inside a window no wider than the register changes the remainder, whatever the register held before, if and only if the lowest bit of the truncated polynomial is set |
| `Bursts.ChecksumDetectsBurst` | OpenApoc/src/main/jni/boost_slim/boost/crc.hpp:814-823 | With that bit set, byte messages that differ by such a burst, in feeding order, have different checksums under every choice of flags and final value |
| `Bursts.EvenPolynomialMisses` | OpenApoc/src/main/jni/boost_slim/boost/crc.hpp:727-770 | With that bit clear, the polynomial without it is a non-zero message as wide as the register that leaves nothing |
| `IntegerGcd.MixedBinaryGcd` | OpenApoc/src/main/jni/boost_slim/boost/integer/common_factor_rt.hpp:331-360 | The result is a common divisor that every common divisor divides, zeros included |
| `IntegerGcd.SteinGcd` | OpenApoc/src/main/jni/boost_slim/boost/integer/common_factor_rt.hpp:366-389 | The same for the binary algorithm |
| `IntegerGcd.EuclidGcd` | OpenApoc/src/main/jni/boost_slim/boost/integer/common_factor_rt.hpp:397-406 | The same for the remainder algorithm |
| `IntegerGcd.MakeOdd` | OpenApoc/src/main/jni/boost_slim/boost/integer/common_factor_rt.hpp:127-142 | The odd part and the power of two that was taken out |
| `IntegerGcd.GcdOfPowers` | OpenApoc/src/main/jni/boost_slim/boost/integer/common_factor_rt.hpp:344-359 | The gcd of two odd numbers times powers of two is the gcd of the odd ones times the lesser power |
| `IntegerGcd.GcdOf` | OpenApoc/src/main/jni/boost_slim/boost/integer/common_factor_rt.hpp:444-452 | On numbers of either sign the result is the mathematical gcd |
| `IntegerGcd.LcmOf` | OpenApoc/src/main/jni/boost_slim/boost/integer/common_factor_rt.hpp:430-458 | On numbers of either sign, zeros included, the result is a non-negative common multiple that divides every common multiple |
| `IntegerGcd.LcmIsLcm` | OpenApoc/src/main/jni/boost_slim/boost/integer/common_factor_rt.hpp:430-439 | Dividing by the gcd before multiplying gives that least common multiple |
| `NumberTheory.GcdUnique` | OpenApoc/src/main/jni/boost_slim/boost/integer/common_factor_rt.hpp:444-452 | The gcd is the only non-negative common divisor that all common divisors divide |
| `Rationals.Rational.LessThan` | OpenApoc/src/main/jni/boost_slim/boost/rational.hpp:739-821 | The lockstep continued-fraction comparison ends and is true if and only if the one real number is below the other, that is num·r.den < r.num·den; no n, d, q or r on the way exceeds the largest input component in magnitude |
| `Rationals.QuotientsDecide` | OpenApoc/src/main/jni/boost_slim/boost/rational.hpp:775-781 | Different integer parts settle the order of the current pair of values |
| `Rationals.ReciprocalsReverse` | OpenApoc/src/main/jni/boost_slim/boost/rational.hpp:777-795 | Equal integer parts taken off and reciprocals taken, the order of the pair is reversed, not lost |
| `Rationals.ExpansionsEnd` | OpenApoc/src/main/jni/boost_slim/boost/rational.hpp:786-820 | Where an expansion ends, the order is that of the remainders, which is how the final flag test decides |
| `Rationals.Rational.LessThanInt` | OpenApoc/src/main/jni/boost_slim/boost/rational.hpp:352-368 | True if and only if the value is below the integer, although only the floor is looked at |
| `Rationals.Rational.EqualTo` | OpenApoc/src/main/jni/boost_slim/boost/rational.hpp:823-828 | Comparing components decides equality of the values |
| `RationalLaws.SameRatioSameTerms` | OpenApoc/src/main/jni/boost_slim/boost/rational.hpp:823-828 | Two normalized pairs of the same value are the same pair |
| `Rationals.Rational.AddAssign` | OpenApoc/src/main/jni/boost_slim/boost/rational.hpp:489-522 | In lowest terms, and as a real number the sum of the two numbers held before, also when the argument is the object itself |
| `Rationals.Rational.SubtractAssign` | OpenApoc/src/main/jni/boost_slim/boost/rational.hpp:524-541 | In lowest terms, and as a real number the difference, also when the argument is the object itself |
| `RationalLaws.SumReduced` | OpenApoc/src/main/jni/boost_slim/boost/rational.hpp:495-508 | Dividing the numerator of a sum by its gcd with g, and g by the same, reduces the sum fully |
| `Rationals.Rational.MultiplyAssign` | OpenApoc/src/main/jni/boost_slim/boost/rational.hpp:543-556 | In lowest terms, and as a real number the product; every intermediate is bounded by an input or result component |
| `Rationals.Rational.DivideAssign` | OpenApoc/src/main/jni/boost_slim/boost/rational.hpp:558-585 | Refused exactly for a zero divisor, leaving the object alone; otherwise in lowest terms the number whose product with the divisor is the dividend, with the same bound on every intermediate |
| `RationalLaws.ProductReduced` | OpenApoc/src/main/jni/boost_slim/boost/rational.hpp:550-554 | Two cross-cancellations before multiplying reduce the product fully |
| `Rationals.Rational.Normalize` | OpenApoc/src/main/jni/boost_slim/boost/rational.hpp:838-873 | Refused exactly for a zero denominator; otherwise the normal form of the pair it found |
| `RationalLaws.NormalFormUnique` | OpenApoc/src/main/jni/boost_slim/boost/rational.hpp:396-401 | A value has only one normal form, so contracts that name it fix both components |
| `RationalValues.SumsReal` | OpenApoc/src/main/jni/boost_slim/boost/rational.hpp:489-541 | Unreduced sums and differences stand for the sums and differences of the real numbers |
| `RationalValues.ProductReal` | OpenApoc/src/main/jni/boost_slim/boost/rational.hpp:543-556 | Unreduced products stand for the products of the real numbers |
| `RationalValues.FractionReal` | OpenApoc/src/main/jni/boost_slim/boost/rational.hpp:558-585 | The unreduced quotient times the divisor is the dividend, as real numbers |
| `RationalValues.LessReal` | OpenApoc/src/main/jni/boost_slim/boost/rational.hpp:739-821 | Cross-multiplied order is the order of the real numbers |
| `RationalValues.NormalFormReal` | OpenApoc/src/main/jni/boost_slim/boost/rational.hpp:396-401 | A normal form holds the real number of the fraction it reduces |
| `Rationals.Rational.constructor` | OpenApoc/src/main/jni/boost_slim/boost/rational.hpp:154-154 | Zero in normal form |
| `Rationals.Rational.FromInt` | OpenApoc/src/main/jni/boost_slim/boost/rational.hpp:155-158 | The integer in normal form |
| `Rationals.Rational.Create` | OpenApoc/src/main/jni/boost_slim/boost/rational.hpp:159-164 | No object for a zero denominator; otherwise the normal form of n/d |
| `Rationals.Rational.Assign` | OpenApoc/src/main/jni/boost_slim/boost/rational.hpp:187-194 | As the constructor, and the object survives a refusal unchanged |
| `Rationals.Rational.AddInt` | OpenApoc/src/main/jni/boost_slim/boost/rational.hpp:266-271 | The normal form of the exact sum, denominator untouched |
| `Rationals.Rational.SubtractInt` | OpenApoc/src/main/jni/boost_slim/boost/rational.hpp:272-277 | The normal form of the exact difference, denominator untouched |
| `Rationals.Rational.MultiplyInt` | OpenApoc/src/main/jni/boost_slim/boost/rational.hpp:278-286 | In lowest terms, and as a real number the product, for a zero or negative factor too |
| `Rationals.Rational.DivideInt` | OpenApoc/src/main/jni/boost_slim/boost/rational.hpp:287-307 | Refused exactly for zero; otherwise in lowest terms the number whose product with the divisor is the dividend |
| `Rationals.Rational.Increment` | OpenApoc/src/main/jni/boost_slim/boost/rational.hpp:310-310 | The value plus one in normal form |
| `Rationals.Rational.Decrement` | OpenApoc/src/main/jni/boost_slim/boost/rational.hpp:311-311 | The value minus one in normal form |
| `Rationals.IsNormalizedExactly` | OpenApoc/src/main/jni/boost_slim/boost/rational.hpp:403-409 | The test accepts a pair if and only if it satisfies the class invariant, that is den > 0 and gcd 1 |
| `Rationals.InnerGcdIsGcd` | OpenApoc/src/main/jni/boost_slim/boost/rational.hpp:386-390 | Euclid's recursion on sign-carrying remainders gives the gcd up to sign |
| `RationalRuns.RunFrom` | OpenApoc/src/main/jni/boost_slim/boost/rational.hpp:261-311 | After any sequence of operations, refused ones and self-application included, the object is the normal form, and holds the real number, of what arithmetic that never reduces gives, and exactly the operations that must throw did |
| `RationalRuns.ExactReal` | OpenApoc/src/main/jni/boost_slim/boost/rational.hpp:261-311 | What each operation of such a run does to the real number held: plus, minus, times, the quotient, plus one, minus one |
| `RationalRuns.RefusesExactly` | OpenApoc/src/main/jni/boost_slim/boost/rational.hpp:261-307 | Zero denominators and divisions by the real number zero are refused, nothing else, and change nothing |
| `RationalRuns.Apply` | OpenApoc/src/main/jni/boost_slim/boost/rational.hpp:261-311 | One such operation on any normalized object |
| `RationalRuns.ExactCongruent` | OpenApoc/src/main/jni/boost_slim/boost/rational.hpp:261-311 | Equal values are refused alike and have equal results, so reduction in between does not matter |
| `RationalLattice.GcdEvaluator` | OpenApoc/src/main/jni/boost_slim/boost/rational.hpp:970-982 | The result is a non-negative rational of which both inputs are integer multiples, and it is an integer multiple of every other such rational |
| `RationalLattice.LcmEvaluator` | OpenApoc/src/main/jni/boost_slim/boost/rational.hpp:984-996 | The result is a non-negative integer multiple of both inputs, and every other common multiple is an integer multiple of it |
| `RationalLattice.GcdOfNormal` | OpenApoc/src/main/jni/boost_slim/boost/rational.hpp:979-980 | gcd of numerators over lcm of denominators is already in lowest terms and is the greatest common divisor |
| `RationalLattice.LcmOfNormal` | OpenApoc/src/main/jni/boost_slim/boost/rational.hpp:993-994 | lcm of numerators over gcd of denominators is already in lowest terms and is the least common multiple |
| `RationalLattice.MultipleReal` | OpenApoc/src/main/jni/boost_slim/boost/rational.hpp:970-996 | Being an integer multiple, cross-multiplied, is being one as real numbers |
| `RationalText.Extract` | OpenApoc/src/main/jni/boost_slim/boost/rational.hpp:890-922 | Succeeds exactly on a readable fraction with a non-zero denominator and then holds its normal form; any failure leaves the object alone; in every case the stream stands where reading ended |
| `RationalText.ReadFractionExactly` | OpenApoc/src/main/jni/boost_slim/boost/rational.hpp:899-905 | Reading succeeds if and only if the text is blanks, an integer, a slash, an integer, and gives that pair and the end of it |
| `RationalText.ReadIntExactly` | OpenApoc/src/main/jni/boost_slim/boost/rational.hpp:899-905 | Reading an integer succeeds if and only if an optional sign and a maximal run of digits stand there, with their value |
| `RationalText.Decimal` | OpenApoc/src/main/jni/boost_slim/boost/rational.hpp:899-905 | Numerals are decimal: a front part counts ten to the number of digits behind it |
| `RationalText.LeadingNoughts` | OpenApoc/src/main/jni/boost_slim/boost/rational.hpp:899-905 | Leading noughts make no difference to the value read |
| `RationalText.DigitsAre` | OpenApoc/src/main/jni/boost_slim/boost/rational.hpp:899-948 | The ten digit characters and their values, for reading and printing |
| `RationalText.SignExample` | OpenApoc/src/main/jni/boost_slim/boost/rational.hpp:899-948 | Either sign, a missing digit, and the positions reached |
| `RationalText.NoSlashExample` | OpenApoc/src/main/jni/boost_slim/boost/rational.hpp:901-917 | Where the stream stands when there is no slash |
| `RationalText.Insert` | OpenApoc/src/main/jni/boost_slim/boost/rational.hpp:925-948 | The numerator, a slash and the denominator in decimal |
| `RationalText.TextRoundTrip` | OpenApoc/src/main/jni/boost_slim/boost/rational.hpp:890-948 | The printed form of any pair, followed by anything but a digit, is read back as that pair |
| `RationalText.PrintAndRead` | OpenApoc/src/main/jni/boost_slim/boost/rational.hpp:890-948 | Printing one object and reading into another copies it |
| `EscapedListLaws.YieldsExactlyWritten` | OpenApoc/src/main/jni/boost_slim/boost/token_functions.hpp:159-198 | On a non-empty text the iterator yields a list if and only if the text is a writing of that list: fields of plain characters, escapes and quotation marks, joined by separators |
| `EscapedListLaws.WriteThenTokenize` | OpenApoc/src/main/jni/boost_slim/boost/token_functions.hpp:126-198 | Write any fields, each escaped or quoted, with any separators: the iterator returns exactly that list if and only if the text is not empty and no letter n had to be escaped (an escaped n reads as a line feed) |
| `EscapedListLaws.RunOverRecord` | OpenApoc/src/main/jni/boost_slim/boost/token_functions.hpp:161-198 | A written record is read back field by field, the blank one behind a final separator included |
| `EscapedListLaws.RecordOfRun` | OpenApoc/src/main/jni/boost_slim/boost/token_functions.hpp:161-198 | Every run that ends without an exception has read such a record |
| `EscapedListLaws.FieldWritten` | OpenApoc/src/main/jni/boost_slim/boost/token_functions.hpp:126-148 | A field written in either style is well formed, and means what was written if and only if no n was escaped |
| `EscapedListLaws.EscapedNExample` | OpenApoc/src/main/jni/boost_slim/boost/token_functions.hpp:126-133 | With n as the separator the field "n" is written as an escaped n and comes back as a line feed |
| `EscapedRoles.EscapeExactly` | OpenApoc/src/main/jni/boost_slim/boost/token_functions.hpp:126-148 | By the strings given to the constructor: an escape before n is a line feed, before a character of one of the three strings that character, and before any other an error |
| `EscapedRoles.QuotedText` | OpenApoc/src/main/jni/boost_slim/boost/token_functions.hpp:156-198 | By the strings given: text between quotation marks is one token without the marks, separators included |
| `EscapedRoles.PlainText` | OpenApoc/src/main/jni/boost_slim/boost/token_functions.hpp:156-198 | By the strings given: on a text without escapes and quotation marks it yields what a keep_empty_tokens char_separator dropping the same separators yields; tokens hold none of them and nothing else is lost |
| `Separators.EscapedListSeparator.DoEscape` | OpenApoc/src/main/jni/boost_slim/boost/token_functions.hpp:126-148 | Which escapes are accepted, what they append, and which of the two errors the others raise |
| `Separators.EscapedListSeparator.Call` | OpenApoc/src/main/jni/boost_slim/boost/token_functions.hpp:161-198 | One call does what the specification step does, state and exceptions included |
| `TokenRuns.EscapedTokens` | OpenApoc/src/main/jni/boost_slim/boost/token_functions.hpp:152-198 | A whole iterator loop over any separator object delivers the one token list of the text, or the tokens in front of the first error and then the exception, and then no list is one |
| `CharSeparatorLaws.KeepYields` | OpenApoc/src/main/jni/boost_slim/boost/token_functions.hpp:490-527 | What the iterator yields under keep_empty_tokens in either state of `m_output_done`; the complete list if and only if the flag was clear or no delimiter leads |
| `CharSeparatorLaws.KeepIsLossless` | OpenApoc/src/main/jni/boost_slim/boost/token_functions.hpp:490-527 | The input is rebuilt from the tokens and the dropped delimiters alone |
| `CharSeparatorLaws.KeepTokenCount` | OpenApoc/src/main/jni/boost_slim/boost/token_functions.hpp:490-527 | One token, plus one per dropped delimiter, plus two per kept one |
| `CharSeparatorLaws.KeepNextTakesFirst` | OpenApoc/src/main/jni/boost_slim/boost/token_functions.hpp:490-527 | Every call takes exactly the first of the tokens still to come, in either state of the flag |
| `CharSeparatorLaws.LeadingDelimiterExample` | OpenApoc/src/main/jni/boost_slim/boost/token_functions.hpp:455-516 | The text ",x" with a comma dropped has two tokens for a separator not used before and one for a separator whose flag is set |
| `TokenRuns.DrainDirectly` | OpenApoc/src/main/jni/boost_slim/boost/token_functions.hpp:455-527 | Calling a keep_empty_tokens separator until it returns false delivers what is still to come for it and always leaves `m_output_done` set |
| `TokenRuns.UsedTwice` | OpenApoc/src/main/jni/boost_slim/boost/token_functions.hpp:455-527 | A separator called to the end loses the leading empty token of the same text the second time, by direct calls and in an iterator made from it |
| `CharSeparatorLaws.DropYields` | OpenApoc/src/main/jni/boost_slim/boost/token_functions.hpp:466-489 | Under drop_empty_tokens the iterator yields, in order, the texts of exactly the maximal spans of the input |
| `CharSeparatorLaws.SpansAreMaximal` | OpenApoc/src/main/jni/boost_slim/boost/token_functions.hpp:466-489 | A span is a token if and only if it is one kept delimiter or a delimiter-free stretch that cannot be extended |
| `CharSeparatorLaws.DropConserves` | OpenApoc/src/main/jni/boost_slim/boost/token_functions.hpp:466-489 | The tokens concatenate to the input without its dropped characters |
| `DelimiterLaws.GivenDrop` | OpenApoc/src/main/jni/boost_slim/boost/token_functions.hpp:433-489 | By the strings given to the constructor, under drop_empty_tokens: the tokens are in order the kept characters and the stretches without characters of either string that cannot be extended, and nothing is missing but the dropped characters |
| `DelimiterLaws.GivenKeep` | OpenApoc/src/main/jni/boost_slim/boost/token_functions.hpp:433-527 | By the strings given, under keep_empty_tokens: every token is one kept character or free of both strings, nothing is missing but dropped characters that are not kept as well, and there is one token more than those and two more for every kept one |
| `DelimiterLaws.GivenNothing` | OpenApoc/src/main/jni/boost_slim/boost/token_functions.hpp:448-489 | Without arguments: the six white-space characters are dropped and the 32 punctuation characters kept |
| `DelimiterLaws.RolesExactly` | OpenApoc/src/main/jni/boost_slim/boost/token_functions.hpp:537-554 | Which characters are kept and dropped, for given strings, empty ones included, and for none given |
| `DelimiterLaws.KeptBarExample` | OpenApoc/src/main/jni/boost_slim/boost/token_functions.hpp:433-527 | The text "a&#124;b" with a kept bar has three tokens under either policy |
| `Strings.PunctExactly` | OpenApoc/src/main/jni/boost_slim/boost/token_functions.hpp:541-542 | The punctuation characters, listed |
| `Strings.SpaceExactly` | OpenApoc/src/main/jni/boost_slim/boost/token_functions.hpp:550-551 | The white-space characters, listed |
| `Separators.CharSeparator.Call` | OpenApoc/src/main/jni/boost_slim/boost/token_functions.hpp:457-527 | Both iterator kinds, range assignment and character-wise growth, return the token of the specification step whatever the token variable held before |
| `Separators.CharSeparator.constructor` | OpenApoc/src/main/jni/boost_slim/boost/token_functions.hpp:433-446 | The delimiters and policy given, the locale classes off, the flag clear |
| `Separators.CharSeparator.Default` | OpenApoc/src/main/jni/boost_slim/boost/token_functions.hpp:448-453 | The locale classes on, and `m_output_done` in whatever state memory was |
| `TokenRuns.CharTokens` | OpenApoc/src/main/jni/boost_slim/boost/token_functions.hpp:433-527 | A char_separator however constructed and in whatever state delivers the same list for both kinds of iterator, under both policies |
| `OffsetLaws.OffsetYields` | OpenApoc/src/main/jni/boost_slim/boost/token_functions.hpp:366-405 | For every input and both options, a list is what the separator yields if and only if it is a prefix of the input cut at the offsets in turn (a negative one counting as zero), a piece is short only at the end of the input, and there is a reason to stop: nothing left, offsets used up, or too little left |
| `OffsetLaws.OffsetLengths` | OpenApoc/src/main/jni/boost_slim/boost/token_functions.hpp:366-405 | Under any options the tokens begin the input and the k-th is as long as offsets[k mod m], none below zero counting; only the last may be shorter |
| `OffsetLaws.WrapYields` | OpenApoc/src/main/jni/boost_slim/boost/token_functions.hpp:366-405 | Wrapping and with partial last tokens: a list is yielded if and only if it concatenates to the input, its k-th token has the length offsets[k mod m], and the last one is no longer than that and not empty |
| `OffsetLaws.OffsetEnds` | OpenApoc/src/main/jni/boost_slim/boost/token_functions.hpp:366-405 | The run ends if and only if the input is empty, the offsets are not used again, or some offset is positive |
| `OffsetLaws.NoWrapYields` | OpenApoc/src/main/jni/boost_slim/boost/token_functions.hpp:383-389 | Without wrapping every input has exactly one list, of at most m tokens; where the wrapping run ends too, it is the first m tokens of that |
| `OffsetLaws.StrictYields` | OpenApoc/src/main/jni/boost_slim/boost/token_functions.hpp:399-401 | With partial last tokens refused, the list is that of the other option without its last token, but only if that lacks more than one character |
| `OffsetLaws.WrongLengthIff` | OpenApoc/src/main/jni/boost_slim/boost/token_functions.hpp:399-401 | With partial last tokens refused, some token of a run has the wrong length if and only if the input is exactly one character short of a whole number of tokens, the last of them begun |
| `OffsetLaws.PartialLastOffByOne` | OpenApoc/src/main/jni/boost_slim/boost/token_functions.hpp:383-401 | For one call from any state that has an offset left, wrapped ones included, a short last token is returned if and only if exactly one character is missing |
| `OffsetLaws.PartialLastExample` | OpenApoc/src/main/jni/boost_slim/boost/token_functions.hpp:399-401 | Offset 3 on "ab" and on "abcde" yields a short token in the first and in the second round, and on "abcd" drops the rest |
| `Separators.OffsetSeparator.Call` | OpenApoc/src/main/jni/boost_slim/boost/token_functions.hpp:366-405 | Both iterator kinds return the token and reach the state of the specification step |
| `TokenRuns.OffsetTokens` | OpenApoc/src/main/jni/boost_slim/boost/token_functions.hpp:351-405 | A separator with any offsets and options, in any state, delivers the pieces of the input for both kinds of iterator, wherever such a run ends |
| `Tokenizing.NextDecreases` | OpenApoc/src/main/jni/boost_slim/boost/token_functions.hpp:161-527 | Every call of any of the three functions that returns a token decreases twice the remaining length plus one for a token still owed, unless it uses an offset that is not positive, which leaves that measure as it is |
| `Tokenizing.EndsUnique` | OpenApoc/src/main/jni/boost_slim/boost/token_iterator.hpp:53-75 | A run over an input ends with an exception or without, after one list of tokens, or not at all |
| `Tokenizing.IterationHasEnd` | OpenApoc/src/main/jni/boost_slim/boost/token_iterator.hpp:53-75 | Runs of the two delimiter-driven functions always end |
| `Tokenizing.YieldsUnique` | OpenApoc/src/main/jni/boost_slim/boost/token_iterator.hpp:53-75 | An input has at most one token list |
| `Separators.TokenIterator.constructor` | OpenApoc/src/main/jni/boost_slim/boost/token_iterator.hpp:79-80 | The iterator starts with a copy of its own of the function object, in the same state |
| `Separators.TokenIterator.Initialize` | OpenApoc/src/main/jni/boost_slim/boost/token_iterator.hpp:70-80 | What is ahead of a new iterator, a following exception included, is exactly what a run over the input comes to; it throws exactly when the first call does |
| `Separators.TokenIterator.Increment` | OpenApoc/src/main/jni/boost_slim/boost/token_iterator.hpp:53-56 | What is ahead loses its first token, the one that was current; it throws exactly when that was the last one before the exception |
| `TokenRuns.Collect` | OpenApoc/src/main/jni/boost_slim/boost/token_iterator.hpp:53-80 | A loop to the end delivers exactly the tokens of the run and throws exactly if the run does, for all three functions, and leaves the caller's function object alone |
| `TokenRuns.Advance` | OpenApoc/src/main/jni/boost_slim/boost/token_iterator.hpp:53-56 | One turn of such a loop, for any of the three functions, takes the first of what is ahead and comes closer to the end unless the offset used is not positive |
| `Progress.FullRow` | OpenApoc/src/main/jni/boost_slim/boost/progress.hpp:88-137 | Increments whose sum first reaches the expected count exactly print one star for each of the 51 characters of the scale and end the line |
| `Progress.LineEndsIff` | OpenApoc/src/main/jni/boost_slim/boost/progress.hpp:102-137 | The line is ever ended if and only if the count stands at the expected one after some increment; a run that jumps over it never ends it |
| `Progress.RunInv` | OpenApoc/src/main/jni/boost_slim/boost/progress.hpp:88-137 | After any run from restart the tic count lies between 50·count/expected rounded down and 50·(count+1)/expected rounded up, and the threshold belongs to it |
| `Progress.RunBounds` | OpenApoc/src/main/jni/boost_slim/boost/progress.hpp:88-137 | The same by the sum of the increments alone, with an expected count of zero standing for one |
| `Progress.RowBounds` | OpenApoc/src/main/jni/boost_slim/boost/progress.hpp:102-137 | Before completion nothing but stars is printed, at least 50·sum/expected rounded down and at most 50·(sum+1)/expected rounded up of them |
| `Progress.StepExample` | OpenApoc/src/main/jni/boost_slim/boost/progress.hpp:102-137 | A step of 60 out of 100 prints 30 stars |
| `Progress.AddedInv` | OpenApoc/src/main/jni/boost_slim/boost/progress.hpp:102-137 | Every increment keeps those bounds |
| `Progress.RowBefore` | OpenApoc/src/main/jni/boost_slim/boost/progress.hpp:102-137 | Before completion the row is as long as the tic count and has at most 50 stars |
| `Progress.NeverHit` | OpenApoc/src/main/jni/boost_slim/boost/progress.hpp:102-137 | A run that never stands at the expected count prints stars only, as many as the tic count, below and above it |
| `Progress.Overshoot` | OpenApoc/src/main/jni/boost_slim/boost/progress.hpp:102-137 | The increment that jumps over the expected count brings the row to the length the fraction demands, one more star at least, and no line end |
| `Progress.OvershootExample` | OpenApoc/src/main/jni/boost_slim/boost/progress.hpp:102-137 | A step of 101 out of 100 leaves 50 stars |
| `Progress.ProgressDisplay.constructor` | OpenApoc/src/main/jni/boost_slim/boost/progress.hpp:80-86 | The scale is printed and the counters are those of a restart |
| `Progress.ProgressDisplay.Restart` | OpenApoc/src/main/jni/boost_slim/boost/progress.hpp:88-100 | The scale is printed, the counters are zero, and the expected count is the one given, or one for zero |
| `Progress.ProgressDisplay.AddAssign` | OpenApoc/src/main/jni/boost_slim/boost/progress.hpp:102-137 | Returns the new count; below the threshold nothing else changes; from it on there is one more tic at least and 50·count/expected at least, the threshold is the count that belongs to the tics, and the stars and the line end follow from them |
| `Progress.ProgressDisplay.DisplayTic` | OpenApoc/src/main/jni/boost_slim/boost/progress.hpp:123-137 | The do-while loop prints one star at least and brings the tics to 50·count/expected at least; the closing star and the line end belong to the exact count |
| `Progress.RunDisplay` | OpenApoc/src/main/jni/boost_slim/boost/progress.hpp:80-137 | What an object prints over a whole run is the heading and the text of that run, its count is the sum, and before completion the stars behind the heading are as many as go with the count |
| `Progress.ScaleMarks` | OpenApoc/src/main/jni/boost_slim/boost/progress.hpp:95-97 | The two lines of the scale |
| `Durations.CastTruncates` | OpenApoc/src/main/jni/boost_slim/boost/chrono/duration.hpp:302-317 | The cast is the exact time value in target units truncated toward zero, for negative values too |
| `Durations.CastAuxUniform` | OpenApoc/src/main/jni/boost_slim/boost/chrono/duration.hpp:229-300 | All four specialised cases are one formula, count·num/den truncated toward zero |
| `Durations.RatioDivideExact` | OpenApoc/src/main/jni/boost_slim/boost/ratio/detail/overflow_helpers.hpp:271-285 | The cross-cancelled quotient of two periods is exact, reduced and positive |
| `Durations.ToCommonExact` | OpenApoc/src/main/jni/boost_slim/boost/chrono/duration.hpp:469-483 | The gcd period divides each period a whole number of times, so the converting constructor is allowed |
| `Durations.ToCommonValue` | OpenApoc/src/main/jni/boost_slim/boost/chrono/duration.hpp:401-407 | Conversion to the common period loses nothing |
| `Durations.CommonSymmetric` | OpenApoc/src/main/jni/boost_slim/boost/ratio/ratio.hpp:200-205 | The common period does not depend on the order |
| `Durations.ComparesExactly` | OpenApoc/src/main/jni/boost_slim/boost/chrono/duration.hpp:667-703 | Mixed-period equality and order hold if and only if they hold of the seconds, as real numbers |
| `Durations.AddsExactly` | OpenApoc/src/main/jni/boost_slim/boost/chrono/duration.hpp:539-561 | Mixed-period sums and differences have the exact sum and difference as their time values |
| `Durations.AddsSeconds` | OpenApoc/src/main/jni/boost_slim/boost/chrono/duration.hpp:539-561 | The same in seconds, as real numbers, counted in the common period |
| `Durations.CommonExactly` | OpenApoc/src/main/jni/boost_slim/boost/ratio/ratio.hpp:200-205 | A period is the common one if and only if it goes into both periods a whole number of times and every other that does goes into it |
| `Durations.GoesReal` | OpenApoc/src/main/jni/boost_slim/boost/ratio/ratio.hpp:200-205 | Going into a period is being a whole part of it, as real numbers |
| `Durations.HourAndMinute` | OpenApoc/src/main/jni/boost_slim/boost/chrono/duration.hpp:539-548 | One hour and one minute are 61 of the period of one minute |
| `Durations.Ceil` | OpenApoc/src/main/jni/boost_slim/boost/chrono/ceil.hpp:24-31 | The least duration of the target period that is not below the argument, negative ones included |

## Left out

- AugmentedCrc.Compute: requires at least 8 bits, because below that the source shifts by a negative amount, which C++ does not define.
- AugmentedCrc.AugmentedIsPlainCrc: is stated for widths that are a multiple of 8, since only there Bits zero bits are whole bytes; `AugmentedWithZeros` and `AugmentedIsZeroIff` hold for every width.
- TokenRuns.OffsetTokens: requires an empty input, no wrapping or a positive offset, without which the iterator loop of the source does not end either (`OffsetLaws.OffsetEnds`).
- TokenRuns.Collect: requires that the run ends, with a token list or with an exception; only an `offset_separator` can run for ever.
- Separators.OffsetSeparator.Call: requires a non-empty offset list, as the assertion in the source does.
- Named CRC types such as `crc_32_type`: the theorems hold for every set of parameters, so no single one is singled out.
- Older-compiler branches of the CRC header, `process_bytes` by pointer and count, and the call operators: they forward to the members modelled.
- The static table of the template is an object passed to the computer, filled once on first use; one object stands for each set of template arguments.
- Fixed-width overflow of the rational component type, of duration counts and of `unsigned long`: values are unbounded. The two bounds proved (`LessThan`, `MultiplyAssign`/`DivideAssign`) say that no overflow can arise in any symmetric range that holds inputs and results. The branches for the most negative integer in `normalize` and in the integer gcd are therefore not modelled.
- Conversions between rationals of different component types, `operator!`, `abs`, unary minus, postfix `++`/`--`, integer `==` and `>`, and the binary operators built on the assignment forms.
- Division by a component type that is not an integer, and `rational_cast`.
- Stream flags, field width, exception masks, bases other than ten and locales other than the classic one, in rational text and in the tokenizers' character classes.
- The rounding of `double` in the progress display: both expressions are exact fractions. Flushing is not modelled.
- Floating-point and mixed representation types of durations, and the member operators `++`, `--`, `+=`, `-=`, `*=`, `/=`, `%=`: one-step facts about the count.
- Copying and comparing token iterators, and the iterator facade: a union of the three functions stands for the template parameter.
- The deprecated `char_delimiters_separator`: it repeats the scanner that drops empty tokens.
- The variadic gcd and lcm and the gcd of a range of integers, which fold the two-argument form; `ratio` arithmetic beyond division and the common period.
- `bind`, `mem_fn`, `any`, `array`, allocators, `time_point`, type traits and configuration headers: plumbing or one-step facts.
- The Android activities and native glue: user interface and input/output.
