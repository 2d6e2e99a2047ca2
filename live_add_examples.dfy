/** The addition tests of src/lib.rs (lines 457-543) and the inputs that
    show the two rounding defects, worked through the model of
    `impl ops::Add`. Each operand is a parameter pinned to its bit pattern,
    so that the general lemmas about the adder do the work. */
module LiveAddExamples {
  import opened Bits
  import opened Binary32
  import opened LiveAdd
  import opened LiveAddRounding
  import opened LiveAddCorrected
  import FloatC

  /** A result read back from its sign, exponent and 24-bit significand. */
  lemma WordOf(r: Float32, sign: nat, e: nat, m: nat)
    requires 0x80_0000 <= m <= 0xFF_FFFF
    requires r.Sign() == sign && r.Exp() == e && Significand(r) == m
    ensures r.raw == sign * 0x8000_0000 + e * 0x80_0000 + (m - 0x80_0000)
  {
    FieldsRoundTrip(r);
  }

  /** `addition_1`: 1.0 + 2.0 == 3.0, exactly. */
  lemma Addition1(a: Float32, b: Float32)
    requires a.raw == 0x3F80_0000 && b.raw == 0x4000_0000
    ensures InRange(a, b) && Add(a, b).raw == 0x4040_0000
  {
    assert a.Exp() == 127 && a.Frac() == 0 && a.Sign() == 0;
    assert b.Exp() == 128 && b.Frac() == 0;
    assert Smaller(a, b) == 0x80_0000 && ExpDiff(a, b) == 1;
    assert Shr(0x80_0000, 1) == 0x40_0000 && LowBits(0x80_0000, 1) == 0;
    assert NearestSum(a, b) == 0xC0_0000;
    AddRoundsToNearestEven(a, b);
    WordOf(Add(a, b), 0, 128, 0xC0_0000);
  }

  /** `addition_2`: 1.5 + 2.0 == 3.5, exactly. */
  lemma Addition2(a: Float32, b: Float32)
    requires a.raw == 0x3FC0_0000 && b.raw == 0x4000_0000
    ensures InRange(a, b) && Add(a, b).raw == 0x4060_0000
  {
    assert a.Exp() == 127 && a.Frac() == 0x40_0000 && a.Sign() == 0;
    assert b.Exp() == 128 && b.Frac() == 0;
    assert Smaller(a, b) == 0xC0_0000 && ExpDiff(a, b) == 1;
    assert Shr(0xC0_0000, 1) == 0x60_0000 && LowBits(0xC0_0000, 1) == 0;
    assert NearestSum(a, b) == 0xE0_0000;
    AddRoundsToNearestEven(a, b);
    WordOf(Add(a, b), 0, 128, 0xE0_0000);
  }

  /** `addition_3`: 10.2f + 0.1f rounds up to 10.3f: 7 bits of 0.1f are
      dropped, and they are more than half a unit. */
  lemma Addition3(a: Float32, b: Float32)
    requires a.raw == 0x4123_3333 && b.raw == 0x3DCC_CCCD
    ensures InRange(a, b) && Add(a, b).raw == 0x4124_CCCD
  {
    Addition3Rounding(a, b);
    AddRoundsToNearestEven(a, b);
    WordOf(Add(a, b), 0, 130, 0xA4_CCCD);
  }

  /** The significand sum of `addition_3` and its rounding. */
  lemma Addition3Rounding(a: Float32, b: Float32)
    requires a.raw == 0x4123_3333 && b.raw == 0x3DCC_CCCD
    ensures a.Sign() == 0 && Generic(a, b) && InRange(a, b) && MaxExp(a, b) == 130
    ensures Truncated(a, b) == 0xA4_CCCC && Dropped(a, b) > Half(a, b)
    ensures NearestSum(a, b) == 0xA4_CCCD
  {
    Addition3Operands(a, b);
    assert Pow2(7) == 128;
    ShrDivMod(0xCC_CCCD, 7, 0x1_9999, 0x4D);
    assert Half(a, b) == 64;
  }

  /** The operands of `addition_3`: 0.1f is 7 binades below 10.2f. */
  lemma Addition3Operands(a: Float32, b: Float32)
    requires a.raw == 0x4123_3333 && b.raw == 0x3DCC_CCCD
    ensures a.Sign() == 0 && Generic(a, b) && InRange(a, b) && MaxExp(a, b) == 130
    ensures Bigger(a, b) == 0xA3_3333 && Smaller(a, b) == 0xCC_CCCD && ExpDiff(a, b) == 7
  {
    assert a.Exp() == 130 && a.Frac() == 0x23_3333 && a.Sign() == 0;
    assert b.Exp() == 123 && b.Frac() == 0x4C_CCCD;
  }

  /** `addition_4`: 1.25 + 7.5 == 8.75: the aligned sum carries, and the
      bit shifted out by the renormalisation is zero. */
  lemma Addition4(a: Float32, b: Float32)
    requires a.raw == 0x3FA0_0000 && b.raw == 0x40F0_0000
    ensures InRange(a, b) && Add(a, b).raw == 0x410C_0000
  {
    assert a.Exp() == 127 && a.Frac() == 0x20_0000 && a.Sign() == 0;
    assert b.Exp() == 129 && b.Frac() == 0x70_0000;
    assert Smaller(a, b) == 0xA0_0000 && ExpDiff(a, b) == 2;
    assert Shr(0xA0_0000, 2) == 0x28_0000;
    assert Truncated(a, b) == 0x118_0000;
    AddTruncatesOnCarry(a, b);
    WordOf(Add(a, b), 0, 130, 0x8C_0000);
  }

  /** `addition_5`: 2341.52f + 71.4f rounds down: 5 bits of 71.4f are
      dropped, and they are less than half a unit. */
  lemma Addition5(a: Float32, b: Float32)
    requires a.raw == 0x4512_5852 && b.raw == 0x428E_CCCD
    ensures InRange(a, b) && Add(a, b).raw == 0x4516_CEB8
  {
    Addition5Rounding(a, b);
    AddRoundsToNearestEven(a, b);
    WordOf(Add(a, b), 0, 138, 0x96_CEB8);
  }

  /** The significand sum of `addition_5` and its rounding. */
  lemma Addition5Rounding(a: Float32, b: Float32)
    requires a.raw == 0x4512_5852 && b.raw == 0x428E_CCCD
    ensures a.Sign() == 0 && Generic(a, b) && InRange(a, b) && MaxExp(a, b) == 138
    ensures NearestSum(a, b) == 0x96_CEB8
  {
    Addition5Operands(a, b);
    assert Pow2(5) == 32;
    ShrDivMod(0x8E_CCCD, 5, 0x4_7666, 0xD);
    assert Truncated(a, b) == 0x96_CEB8 && Half(a, b) == 16;
  }

  /** The operands of `addition_5`: 71.4f is 5 binades below 2341.52f. */
  lemma Addition5Operands(a: Float32, b: Float32)
    requires a.raw == 0x4512_5852 && b.raw == 0x428E_CCCD
    ensures a.Sign() == 0 && Generic(a, b) && InRange(a, b) && MaxExp(a, b) == 138
    ensures Bigger(a, b) == 0x92_5852 && Smaller(a, b) == 0x8E_CCCD && ExpDiff(a, b) == 5
  {
    assert a.Exp() == 138 && a.Frac() == 0x12_5852 && a.Sign() == 0;
    assert b.Exp() == 133 && b.Frac() == 0x0E_CCCD;
  }

  /** `addition_6`, 131066.086f + 93.70508f: the aligned sum carries and the
      adder truncates, giving 0x480015F2, where rounding to nearest gives
      0x480015F3; the repaired adder gives 0x480015F3. */
  lemma Addition6(a: Float32, b: Float32)
    requires a.raw == 0x47FF_FD0B && b.raw == 0x42BB_6900
    ensures InRange(a, b) && Add(a, b).raw == 0x4800_15F2
    ensures AddRounded(a, b).raw == 0x4800_15F3
  {
    assert a.Exp() == 143 && a.Frac() == 0x7F_FD0B && a.Sign() == 0;
    assert b.Exp() == 133 && b.Frac() == 0x3B_6900;
    assert Smaller(a, b) == 0xBB_6900 && ExpDiff(a, b) == 10;
    assert Pow2(10) == 0x400;
    ShrDivMod(0xBB_6900, 10, 0x2EDA, 0x100);
    assert Truncated(a, b) == 0x100_2BE5;
    AddTruncatesOnCarry(a, b);
    WordOf(Add(a, b), 0, 144, 0x80_15F2);
    assert CarryRoundBit(a, b) == 1;
    AddRoundedSumCarry(a, b);
    WordOf(AddRounded(a, b), 0, 144, 0x80_15F3);
  }

  /** 0x3FFFFFFF + 0x33800000 (2 - 2^-23 plus 2^-24): a tie whose truncated
      sum is odd, so it rounds up to 2.0; as written the round-up is taken
      back and the result is 0x407FFFFF, close to 4. The repaired adder
      gives 2.0. */
  lemma RoundUpToTwo(a: Float32, b: Float32)
    requires a.raw == 0x3FFF_FFFF && b.raw == 0x3380_0000
    ensures InRange(a, b) && Add(a, b).raw == 0x407F_FFFF
    ensures AddRounded(a, b).raw == 0x4000_0000
  {
    assert a.Exp() == 127 && a.Frac() == 0x7F_FFFF && a.Sign() == 0;
    assert b.Exp() == 103 && b.Frac() == 0;
    assert Smaller(a, b) == 0x80_0000;
    assert ExpDiff(a, b) == 24;
    FloatC.Pow2Widths();
    SmallShr(0x80_0000, 24);
    assert Truncated(a, b) == 0xFF_FFFF && Dropped(a, b) == Half(a, b);
    assert Half(a, b) != 0 && Odd(Truncated(a, b));
    assert NearestEvenRoundsUp(Truncated(a, b), Dropped(a, b), Half(a, b));
    assert RoundBit(a, b) == 1;
    RoundUpCarryIsWithdrawn(a, b);
    WordOf(Add(a, b), 0, 128, 0xFF_FFFF);
    AddRoundedUpToNextBinade(a, b);
    WordOf(AddRounded(a, b), 0, 128, 0x80_0000);
  }

  /** +0 + -0 gives -0 and -0 + +0 gives +0: an exponent-0 left operand
      returns the right one, so with zeros the order matters. Section 6.3
      of IEEE 754-2008 gives +0 for both. */
  lemma SignedZeros(a: Float32, b: Float32)
    requires a.raw == 0 && b.raw == 0x8000_0000
    ensures InRange(a, b) && Add(a, b).raw == 0x8000_0000
    ensures InRange(b, a) && Add(b, a).raw == 0
  {}

  /** 1.0 + -2.0 gives 3.0 and -2.0 + 1.0 gives -3.0: the magnitudes are
      added whatever the signs, and the sign is the left operand's. The
      IEEE 754 sum is -1.0 (0xBF800000) in both orders. */
  lemma OppositeSigns(a: Float32, b: Float32)
    requires a.raw == 0x3F80_0000 && b.raw == 0xC000_0000
    ensures InRange(a, b) && Add(a, b).raw == 0x4040_0000
    ensures InRange(b, a) && Add(b, a).raw == 0xC040_0000
  {
    assert a.Exp() == 127 && a.Frac() == 0 && a.Sign() == 0;
    assert b.Exp() == 128 && b.Frac() == 0 && b.Sign() == 1;
    assert Smaller(a, b) == 0x80_0000 && ExpDiff(a, b) == 1;
    assert Smaller(b, a) == 0x80_0000 && ExpDiff(b, a) == 1;
    assert Shr(0x80_0000, 1) == 0x40_0000 && LowBits(0x80_0000, 1) == 0;
    assert NearestSum(a, b) == 0xC0_0000 && NearestSum(b, a) == 0xC0_0000;
    AddRoundsToNearestEven(a, b);
    AddRoundsToNearestEven(b, a);
    WordOf(Add(a, b), 0, 128, 0xC0_0000);
    WordOf(Add(b, a), 1, 128, 0xC0_0000);
  }

  /** The largest finite value added to itself gives 0x7FFFFFFF, a NaN:
      the carry takes the exponent to 255 and the fraction keeps its ones.
      Section 7.4 of IEEE 754-2008 gives +infinity (0x7F800000). */
  lemma OverflowGivesNaN(a: Float32)
    requires a.raw == 0x7F7F_FFFF
    ensures InRange(a, a) && Add(a, a).raw == 0x7FFF_FFFF && Add(a, a).IsNaN()
  {
    MaxFiniteSum(a);
    AddTruncatesOnCarry(a, a);
    WordOf(Add(a, a), 0, 255, 0xFF_FFFF);
  }

  /** The significand sum of the largest finite value with itself. */
  lemma MaxFiniteSum(a: Float32)
    requires a.raw == 0x7F7F_FFFF
    ensures a.Sign() == 0 && Generic(a, a) && InRange(a, a) && MaxExp(a, a) == 254
    ensures Truncated(a, a) == 0x1FF_FFFE
  {
    assert a.Exp() == 254 && a.Frac() == 0x7F_FFFF && a.Sign() == 0;
    assert Smaller(a, a) == 0xFF_FFFF && ExpDiff(a, a) == 0;
  }

  /** +infinity + -infinity gives 0x80000000, -0: exponent 255 is an
      ordinary exponent, the carry takes it to 256, whose bit 8 lands in
      the sign bit. Section 7.2 of IEEE 754-2008 gives a NaN. */
  lemma InfinitiesGiveNegativeZero(a: Float32, b: Float32)
    requires a.raw == 0x7F80_0000 && b.raw == 0xFF80_0000
    ensures InRange(a, b) && Add(a, b).raw == 0x8000_0000
  {
    assert a.Exp() == 255 && a.Frac() == 0 && a.Sign() == 0;
    assert b.Exp() == 255 && b.Frac() == 0;
    assert Smaller(a, b) == 0x80_0000 && ExpDiff(a, b) == 0;
    assert Truncated(a, b) == 0x100_0000;
    AddTruncatesOnCarry(a, b);
    WordOf(Add(a, b), 1, 0, 0x80_0000);
  }
}
