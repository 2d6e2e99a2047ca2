# cpu-bfloat16: a software binary32 adder, modelled in Dafny

The repository adds two IEEE 754 binary32 values without a hardware adder.
It takes each value apart into its sign, 8-bit biased exponent and 23-bit
fraction. It then aligns the significands, adds them, rounds the sum and
packs the result into a 32-bit word. There are four adders:

- `impl ops::Add for Float32` in src/lib.rs, the live one. It works on u64
  intermediates with 8 guard bits below the significand. It takes a sticky
  bit from the smaller operand and rounds to nearest, ties to even, from the
  guard, round and sticky bits and the last kept bit.
- Three drafts in snippets/float.c:
  - `add2`: special-value dispatch and the same-sign path;
  - `add_ref`: a SoftFloat-style alignment with 6 guard bits and the sticky
    shift `shift32RightJamming`, with its rounding removed;
  - the toy `add`: aligns and truncates.

The model works on unsigned words held as naturals. `Bits` defines shifts,
masks and `|` bit by bit. `Binary32` holds the word and its fields. There is
one module per adder: `LiveAdd`, `FloatC` (the macros, the sticky shift and
the toy `add`), `FloatAdd2` and `FloatAddRef`.

Every adder is modelled as its code is written, including the places where
the code departs from what it evidently intends. For each such place there
is also a corrected definition with the intended property proved about it
(see "## Findings"). The corrected live adder is `LiveAddCorrected`.
`LiveAddRounding` states what the live adder's rounding computes:
- round to nearest, ties to even (section 4.3.1 of IEEE 754-2008) of the
  exact significand sum while the rounded sum fits in 24 bits;
- truncation once the sum needs 25 bits.

`CrossCheck` relates the adders to each other. `LiveAddExamples` works
through the repository's own addition tests.

What the live adder does, measured against IEEE 754-2008:
- It never compares the signs. It always adds the significands and takes
  the sign of the left operand. So 1.0 + -2.0 gives 3.0 and -2.0 + 1.0
  gives -3.0, where IEEE 754 gives -1.0 for both
  (`LiveAddExamples.OppositeSigns`).
- It treats every operand with exponent field 0 as zero and returns the
  other operand unchanged, so subnormals are not added. With zeros the
  order matters: +0 + -0 gives -0 and -0 + +0 gives +0, where section 6.3
  gives +0 for both (`LiveAddExamples.SignedZeros`).
- For two operands with non-zero exponents and the same sign the order does
  not matter (`LiveAdd.SameSignCommutes`).
- Exponent 255 is not special. An overflow gives a NaN, not an infinity:
  0x7F7FFFFF + 0x7F7FFFFF gives 0x7FFFFFFF, where section 7.4 gives
  0x7F800000 (`LiveAddExamples.OverflowGivesNaN`). And +infinity +
  -infinity gives -0 (0x80000000), where section 7.2 gives a NaN
  (`LiveAddExamples.InfinitiesGiveNegativeZero`).
- 1.0 + 2^-24 is an exact tie whose truncated significand is even. Round to
  nearest, ties to even gives 1.0, and so does the code
  (`LiveAddRounding.AddRoundsToNearestEven`, `LiveAddRounding.NearestSumIsNearest`).

## Model

| member | source | states |
|---|---|---|
| Binary32.Float32.Sign | src/lib.rs:12-14 | the sign is 0 or 1, and 1 exactly when the word has bit 31 set |
| Binary32.Float32.Exp | src/lib.rs:16-18 | the biased exponent `(raw >> 23) & 0xFF` is at most 255 |
| Binary32.Float32.Frac | src/lib.rs:20-22 | the fraction `raw & 0x7FFFFF` is at most 2^23 - 1 |
| Binary32.Pack | src/lib.rs:434 | `sign << 31 \| exp << 23 \| frac` reads back as the fraction, the exponent modulo 256 and the sign ORed with the exponent's bit 8 |
| Binary32.FieldsRoundTrip | src/lib.rs:8-22 | packing a value's own sign, exponent and fraction gives the value back: encode(decode(x)) == x |
| FloatC.MacrosReadFields | snippets/float.c:20-22 | the C macros `exponent`, `mantissa` and `sign` (`FloatC.Exponent`, `FloatC.Mantissa`, `FloatC.SignOf`, with their u32 wrap-around) read the same fields as the Rust accessors |
| FloatC.ArithShiftRight | snippets/float.c:127 | `a >> count` on an `int`, shifting in copies of the sign bit, is a divided by 2^count rounded down, for every a |
| FloatC.ShiftedOutBits | snippets/float.c:127 | `(a << ((-count) & 31)) != 0` holds exactly when one of the `count` low bits of a is set |
| FloatC.StickyOf | snippets/float.c:127 | the C test `(a << ((-count) & 31)) != 0`, as a bit, is 1 exactly when one of the `count` low bits of a's 32-bit pattern is set |
| FloatC.ShiftRightJamming | snippets/float.c:124-129 | the three branches: `count == 0` gives a; `count < 32` gives the shift with the sticky bit ORed in; a larger count gives `a != 0` |
| FloatC.JammingBits | snippets/float.c:124-129 | the result halved is a shifted by count + 1; its lowest bit is bit `count` of a ORed with "some lower bit of a is set" |
| FloatC.JammingKeepsNonZero | snippets/float.c:124-129 | the sticky shift gives 0 exactly when a is 0 |
| FloatC.JammingExact | snippets/float.c:124-129 | when no set bit is shifted out, the sticky shift is the plain shift |
| FloatC.JammingNoLarger | snippets/float.c:124-129 | the sticky shift never increases its argument |
| FloatC.JammingHalves | snippets/float.c:124-129 | a value below 2^30 shifted by at least 1 is below 2^29 |
| FloatC.ToyExp | snippets/float.c:209 | `MAX(xi.exp, yi.exp)` is one of the two exponents and at least both |
| FloatC.ToyAdd | snippets/float.c:205-222 | with `ToyAligned`, `ToySum` and `ToyCarries` for lines 211-213, the toy `add` gives sign 0, the larger exponent plus the carry modulo 256, and the low 23 bits of the truncated significand sum, halved on a carry |
| FloatAdd2.Dispatch | snippets/float.c:33-48 | the special-value dispatch, with the NaN test `NaNBits` of lines 34-35, returns early exactly when an exponent field is all ones |
| FloatAdd2.ExpDifference | snippets/float.c:58-59 | on the same-sign path the exponent difference is the absolute difference of the exponents |
| FloatAdd2.SameSignExponent | snippets/float.c:63-80 | the result exponent is the larger exponent, and x's when x has the larger magnitude (`XBiggerAbs`, lines 63-67: exponent first, then mantissa) |
| FloatAdd2.SameSignMantissa | snippets/float.c:73-80 | the mantissa sum of lines 74 and 78, as written, is below 2^25 |
| FloatAdd2.FixedSameSignMantissa | snippets/float.c:78 | the mantissa sum with line 74 parenthesised as line 78 is below 2^25 |
| FloatAdd2.PackOr3 | snippets/float.c:120 | `sign << 31 \| exp << 23 \| mant` has the sign, the exponent ORed with the mantissa bits from 23 up, and the mantissa's low 23 bits as fraction |
| FloatAdd2.Add2 | snippets/float.c:24-121 | `add2` as written: a NaN x gives x; otherwise a NaN y gives y; infinities of opposite sign give 0x7F800001; otherwise an infinity is returned; on the same-sign path the result has x's sign and the packed exponent and mantissa |
| FloatAdd2.Add2Fixed | snippets/float.c:73-80 | `add2` with line 74 corrected: the same dispatch, and the corrected mantissa on the same-sign path |
| FloatAdd2.Add2SpecialValues | snippets/float.c:33-48 | against sections 6.1, 6.2 and 7.2 of IEEE 754-2008: a NaN operand or opposite infinities give a NaN; an infinity plus a finite value or the same infinity is that infinity |
| FloatAdd2.Add2NotCommutative | snippets/float.c:74 | as written, 1.5 + 0.75 gives 0x3F800000 and 0.75 + 1.5 gives 0x3FC00000 |
| FloatAdd2.Add2FixedExample | snippets/float.c:78 | corrected, both orders of 1.5 + 0.75 give 0x3FC00000 |
| FloatAdd2.Add2FixedCommutes | snippets/float.c:73-80 | corrected, `add2` is commutative on all operands that are not NaN |
| FloatAddRef.SmallGuarded | snippets/float.c:151-158 | the smaller operand's fraction with 6 guard bits and (if normal) the implicit bit 29 is below 2^30, and below 2^29 for a subnormal |
| FloatAddRef.AlignCount | snippets/float.c:155-168 | the shift count is below 255, and it is 0 only for a subnormal smaller operand |
| FloatAddRef.AlignedSmall | snippets/float.c:160 | the aligned smaller significand is below 2^29 |
| FloatAddRef.Align | snippets/float.c:139-170 | for unequal exponents: the larger operand's fraction shifted left 6, the smaller one guarded and aligned by the sticky shift, and `zExp` the larger exponent |
| FloatAddRef.SetBit29 | snippets/float.c:183 | `v \| 0x20000000` adds 2^29 to a v below 2^29 |
| FloatAddRef.RefSum | snippets/float.c:183-184 | the significand sum with 6 guard bits lies in [2^29, 3 * 2^29) |
| FloatAddRef.RefExp | snippets/float.c:185-190 | `zExp` is the larger exponent, or one less when the sum does not reach bit 30 (`RefCarries`, the test `(int)zFrac < 0` of line 187) |
| FloatAddRef.RefFrac | snippets/float.c:184-191 | `zFrac` has its leading bit at bit 30 |
| FloatAddRef.HalvedSubnormalSum | snippets/float.c:173 | line 173 gives the sign and the sum of the two fractions divided by 128 |
| FloatAddRef.PackedFields | snippets/float.c:194-199 | the bit-fields hold the sign, `zExp` and the low 23 bits of `zFrac` |
| FloatAddRef.AddRef | snippets/float.c:131-202 | `add_ref` as written: two subnormals give the sign and the fraction sum divided by 128; unequal exponents give a's sign, `zExp` and the low 23 bits of `zFrac` |
| FloatAddRef.FixedExp | snippets/float.c:185-191 | the corrected exponent (the larger one plus the carry) is in [1, 256] |
| FloatAddRef.FixedSignificand | snippets/float.c:184-191 | the corrected significand (the sum cut to 24 bits) has its leading bit at bit 23 |
| FloatAddRef.FixedSubnormal | snippets/float.c:173 | with `>> 6` in place of `>> 13`, two subnormals give the sign and the exact fraction sum |
| FloatAddRef.FixedNormal | snippets/float.c:201 | line 201 packs the sign, the larger exponent plus the carry, and the 24-bit sum with its leading bit added into the exponent field |
| FloatAddRef.AddRefFixed | snippets/float.c:131-201 | corrected `add_ref`: subnormals add exactly (a sum reaching 2^23 becomes exponent 1); otherwise the exponent is the larger one plus the carry and the 24-bit significand is the sum |
| FloatAddRef.OnePlusTwoSum | snippets/float.c:183-191 | for 1.0 + 2.0: sum 0x30000000, no carry, `zExp` 127 and `zFrac` 0x60000000 |
| FloatAddRef.OnePlusTwoAsWritten | snippets/float.c:194-199 | as written, 1.0 + 2.0 gives 0x3F800000 (1.0) |
| FloatAddRef.OnePlusTwoFixed | snippets/float.c:201 | corrected, 1.0 + 2.0 gives 0x40400000 (3.0) |
| FloatAddRef.AddRefCounterexamples | snippets/float.c:173 | as written, 1.0 + 2.0 is 0x3F800000 and the smallest subnormal doubled is 0; corrected, 0x40400000 and 2 |
| LiveAdd.ExpDiff | src/lib.rs:355 | `abs_diff` of the exponents: the difference, in either direction, at most 255 |
| LiveAdd.MaxExp | src/lib.rs:354 | the larger exponent |
| LiveAdd.WithLeadingOne | src/lib.rs:356-357 | `frac \| (1 << 23)` is a 24-bit significand whose low 23 bits are the fraction |
| LiveAdd.Bigger | src/lib.rs:359-385 | the significand of the operand with the larger magnitude (`LhsBiggerAbs`, lines 359-367: exponent first, then significand) has 24 bits |
| LiveAdd.Smaller | src/lib.rs:359-369 | `orig_smaller_frac`, the other operand's significand by `LhsBiggerAbs`, has 24 bits |
| LiveAdd.Sticky | src/lib.rs:370-379 | `s` is 1 exactly when the gap is at least 3 and one of the `exp_diff - 2` low bits of the smaller significand is set |
| LiveAdd.Aligned | src/lib.rs:381-385 | `(frac << 8) >> exp_diff` never exceeds the guarded significand |
| LiveAdd.AlignedSum | src/lib.rs:381-385 | the aligned sum is below 2^33, so no u64 step wraps |
| LiveAdd.RoundIncrement | src/lib.rs:386-399 | on `cfrac` (`Carried`: the sum halved when `SumCarries`, lines 386-387), `z` is 1 exactly when the guard bit is set and the last kept bit, the round bit or the sticky bit is set |
| LiveAdd.Kept | src/lib.rs:400-431 | the kept fraction, from the truncated sum plus z (`Incremented`) and the carry test of line 402 (`RoundCarries`), fits in 23 bits |
| LiveAdd.Finish | src/lib.rs:400-434 | the packed result has the kept fraction, the exponent plus the rounding carry, and the left sign (bit 8 of an exponent of 256 spills into it) |
| LiveAdd.PackIsOr | src/lib.rs:434 | `(sign << 31) \| (exp << 23) \| frac` on u32 with exp up to 256 is the word whose fraction is frac, whose exponent field is exp modulo 256, and whose bit 31 is the sign ORed with bit 8 of exp (`TopBit`) |
| LiveAdd.FinishIsOr | src/lib.rs:432-434 | the packed result of `add` is the word line 434 builds with `\|` from the left sign, the exponent plus the carry and the kept fraction |
| LiveAdd.SameSignCommutes | src/lib.rs:329-435 | for operands with non-zero exponents and the same sign, `add` gives the same word in both orders |
| LiveAdd.Add | src/lib.rs:329-435 | an exponent-0 left operand gives the right one and vice versa; otherwise the exponent is the larger one or one more, and the sign is the left one below exponent 255 |
| LiveAddRounding.RoundUpBit | src/lib.rs:399 | the round-to-nearest-even increment is 0 or 1 |
| LiveAddRounding.NearestEvenIsNearest | src/lib.rs:399-401 | the rounded value is within half a unit of the exact one, and even on a tie |
| LiveAddRounding.ExactSplit | src/lib.rs:381-385 | the truncated sum and the dropped bits make up the exact sum |
| LiveAddRounding.SumHigh | src/lib.rs:400 | `frac >> 8` is the larger significand plus the smaller one shifted by the gap |
| LiveAddRounding.SumBits | src/lib.rs:395-399 | bit 8 of the aligned sum is the last kept bit; bits 7 and 6 are the two top dropped bits of the smaller significand |
| LiveAddRounding.DroppedAgainstHalf | src/lib.rs:395-399 | the dropped bits exceed half a unit exactly when the guard bit and a lower bit are set, and equal it exactly when only the guard bit is set |
| LiveAddRounding.IncrementCore | src/lib.rs:388-399 | without a carry, the source's `z` is the round-to-nearest-even increment of the exact sum |
| LiveAddRounding.RoundBit | src/lib.rs:399 | the increment for a pair of operands is 0 or 1 |
| LiveAddRounding.NearestSumIsNearest | src/lib.rs:381-401 | the rounded significand sum is within half a unit of the exact sum, and even on a tie |
| LiveAddRounding.TruncatedOf | src/lib.rs:400 | the kept sum is the truncated sum, with 24 or 25 bits |
| LiveAddRounding.IncrementIsRoundBit | src/lib.rs:399 | without a carry, `z` is the round-to-nearest-even increment |
| LiveAddRounding.AddRoundsToNearestEven | src/lib.rs:329-435 | when the rounded sum fits in 24 bits, `add` gives the left sign, the larger exponent and the significand sum rounded to nearest, ties to even |
| LiveAddRounding.AddTruncatesOnCarry | src/lib.rs:386-432 | when the aligned sum needs 25 bits, `add` raises the exponent and truncates the sum, whatever the dropped bits |
| LiveAddRounding.RoundUpCarryIsWithdrawn | src/lib.rs:401-404 | a 24-bit sum of all ones that rounds up gives all ones at the next exponent, not 2^24 |
| LiveAddCorrected.CarrySticky | src/lib.rs:405-419 | after a carry the old round bit joins the sticky bit; without one the sticky bit is unchanged |
| LiveAddCorrected.KeptRounded | src/lib.rs:400-431 | the repaired kept fraction fits in 23 bits |
| LiveAddCorrected.FinishRounded | src/lib.rs:400-434 | the repaired packing keeps the increment on a rounding carry |
| LiveAddCorrected.AddRounded | src/lib.rs:329-435 | the repaired adder has the same shortcuts, exponent and sign as `add` |
| LiveAddCorrected.CarrySplit | src/lib.rs:386-387 | after a carry the halved sum and the d + 1 dropped bits still make up the exact sum |
| LiveAddCorrected.NearestHalvedSumIsNearest | src/lib.rs:386-387 | the halved rounded sum is within half of the coarser unit of the exact sum, and even on a tie |
| LiveAddCorrected.CarryIncrementCore | src/lib.rs:420-423 | after a carry, the increment taken one place higher, with the round bit in the sticky bit, is the round-to-nearest-even increment |
| LiveAddCorrected.RepairedIncrementIs | src/lib.rs:388-423 | the repaired increment is round-to-nearest-even at the right place with and without a carry |
| LiveAddCorrected.AddRoundedToNearestEven | src/lib.rs:329-435 | repaired, a rounded sum of 24 bits gives the left sign, the larger exponent and the nearest-even significand |
| LiveAddCorrected.AddRoundedUpToNextBinade | src/lib.rs:401-404 | repaired, a round-up to 2^24 gives significand 2^23 at the next exponent |
| LiveAddCorrected.AddRoundedSumCarry | src/lib.rs:386-432 | repaired, a carrying sum gives the next exponent and the sum rounded to nearest, ties to even, one place higher |
| CrossCheck.ToySumIsTruncated | snippets/float.c:211-213 | the toy sum is the live adder's truncated sum |
| CrossCheck.ToyAddMatchesLiveOnCarry | snippets/float.c:205-222 | on a carry the live adder and the toy `add` give the same exponent and fraction |
| CrossCheck.ToyAddIsUnrounded | snippets/float.c:205-222 | without a carry, the live significand is the toy one plus the round-to-nearest-even increment |
| CrossCheck.JammedGuardDropped | snippets/float.c:124-129 | the sticky shift of a guarded significand, with the guard bits dropped, is the plain shift |
| CrossCheck.AlignedSmallIsToyAligned | snippets/float.c:160-168 | `add_ref`'s aligned significand without guard bits is the toy's |
| CrossCheck.RefSumIsToySum | snippets/float.c:183-187 | `add_ref`'s sum without guard bits is the toy sum, and the carry tests agree |
| CrossCheck.AddRefFixedIsToyAdd | snippets/float.c:131-201 | on normal operands with different exponents, the corrected `add_ref` and the toy `add` give the same exponent and fraction |
| LiveAddExamples.Addition1 | src/lib.rs:458-470 | `addition_1`: 0x3F800000 + 0x40000000 == 0x40400000 |
| LiveAddExamples.Addition2 | src/lib.rs:473-485 | `addition_2`: 0x3FC00000 + 0x40000000 == 0x40600000 |
| LiveAddExamples.Addition3 | src/lib.rs:488-499 | `addition_3`: 0x41233333 + 0x3DCCCCCD == 0x4124CCCD, rounded up |
| LiveAddExamples.Addition4 | src/lib.rs:502-513 | `addition_4`: 0x3FA00000 + 0x40F00000 == 0x410C0000, a carry |
| LiveAddExamples.Addition5 | src/lib.rs:516-528 | `addition_5`: 0x45125852 + 0x428ECCCD == 0x4516CEB8, rounded down |
| LiveAddExamples.Addition6 | src/lib.rs:531-543 | `addition_6`: as written 0x47FFFD0B + 0x42BB6900 gives 0x480015F2; repaired, 0x480015F3 |
| LiveAddExamples.RoundUpToTwo | src/lib.rs:401-404 | as written 0x3FFFFFFF + 0x33800000 gives 0x407FFFFF; repaired, 0x40000000 |
| LiveAddExamples.SignedZeros | src/lib.rs:346-352 | 0x00000000 + 0x80000000 gives 0x80000000, and the other order gives 0x00000000 |
| LiveAddExamples.OppositeSigns | src/lib.rs:381-434 | 0x3F800000 + 0xC0000000 (1.0 + -2.0) gives 0x40400000, and the other order gives 0xC0400000 |
| LiveAddExamples.OverflowGivesNaN | src/lib.rs:386-434 | 0x7F7FFFFF + 0x7F7FFFFF gives 0x7FFFFFFF, a NaN |
| LiveAddExamples.InfinitiesGiveNegativeZero | src/lib.rs:386-434 | 0x7F800000 + 0xFF800000 gives 0x80000000 |

## Left out

- The commented-out `fadd` of src/lib.rs (lines 37-226) is not code the repository compiles, so it is not modelled.
- Formatting (`Display`, `Debug`), the `println!` diagnostics of the live adder and the `printf` calls of the C drafts are not modelled. They print and change no result.
- The `From<f32>` conversions reinterpret the bits without change. The model's operands are the bit patterns themselves.
- The randomised tests (`sum`, `sum_rand`) compare against the native f32 adder and a random generator, neither of which is part of the model. The fixed tests `addition_1` to `addition_6` are worked through in `LiveAddExamples`.
- The C drafts' reinterpretation of `float` through pointer casts, and the `f32` bit-field struct, are modelled as reading and packing the fields of the word.
- The `#if 0` block of the toy `add` and `main` in snippets/float.c are not modelled.
- FloatAdd2.Add2: models only the special-value dispatch and the same-sign path. The different-sign path (snippets/float.c:86-119), with its normalisation loop, is not modelled: the requires excludes two finite operands of different signs.
- FloatAdd2.Add2: requires finite same-sign exponents less than 32 apart. A `uint32_t` shift by 32 or more is undefined in C.
- FloatAddRef.AddRef: requires unequal exponents or two exponent-0 operands. Equal non-zero exponents reach `assert(0)` (snippets/float.c:178).
- FloatAddRef.AddRef: returns the 32-bit word that lines 173 and 194-199 compute. On line 173 the C function converts that word numerically to `float` (its return type), and this conversion is not modelled.
- LiveAdd.Add: requires exponents less than 64 apart on the generic path. There, `1 << exp_diff` and `>> exp_diff` on u64 panic in a debug build.
- FloatC.ToyAdd: requires exponents less than 32 apart. An `unsigned int` shift by 32 or more is undefined in C.
- Two `int` operations in snippets/float.c are outside ISO C, and the model fixes their meaning. The left shift `a << ((-count) & 31)` of line 127 overflows an `int` (for example a = 0x20000000 shifted by 31); the model wraps it modulo 2^32 (`FloatC.ShiftLeft32`). The conversion `(int)zFrac` of line 187 of a value at or above 2^31 is implementation-defined; the model reads it as two's complement, so the test is "bit 31 is set" (`FloatAddRef.RefCarries`).

## Findings

| source | as written | input that shows it | evidently intended | confidence | as-written member | corrected member |
|---|---|---|---|---|---|---|
| src/lib.rs:401-404 | a round-up that carries into bit 24 is subtracted again (`frac -= z`) and the sum is halved, so 24 ones become 24 ones at the next exponent | 0x3FFFFFFF + 0x33800000 gives 0x407FFFFF (almost 4.0) | 0x40000000 (2.0), the tie rounded to even | high; not executed | LiveAddRounding.RoundUpCarryIsWithdrawn | LiveAddCorrected.AddRoundedUpToNextBinade |
| src/lib.rs:386-428 | when the aligned sum carries, the round-up decision is computed (lines 420-423) but never used, so the result is truncated | the repository's own `addition_6`: 0x47FFFD0B + 0x42BB6900 gives 0x480015F2 | 0x480015F3, the sum rounded to nearest | high; not executed | LiveAddRounding.AddTruncatesOnCarry | LiveAddCorrected.AddRoundedSumCarry |
| snippets/float.c:74 | `+` binds tighter than `>>`, so the larger mantissa is shifted along with the smaller one | `add2` of 0x3FC00000 and 0x3F400000 gives 0x3F800000, the other order 0x3FC00000 | the form of line 78, which shifts only the smaller mantissa and gives the same result in both orders | high; not executed | FloatAdd2.Add2NotCommutative | FloatAdd2.Add2FixedCommutes |
| snippets/float.c:173 | the fractions were shifted left 6 on lines 151-152, and `>> 13` shifts right by 13, so two subnormals add to half their sum divided by 64 | 0x00000001 + 0x00000001 gives 0 | `>> 6`, giving the word 0x00000002 (the model returns the word; the C function's numeric conversion of that word to `float` is not modelled) | medium; not executed | FloatAddRef.AddRefCounterexamples | FloatAddRef.AddRefFixed |
| snippets/float.c:194-199 | the bit-fields take the low 23 bits of `zFrac`, whose leading bit is at bit 30, in place of line 201's `zFrac >> 7` with the leading bit added to the exponent | 0x3F800000 + 0x40000000 (1.0 + 2.0) gives 0x3F800000 | 0x40400000 (3.0), as line 201 packs it | medium; not executed | FloatAddRef.OnePlusTwoAsWritten | FloatAddRef.OnePlusTwoFixed |
