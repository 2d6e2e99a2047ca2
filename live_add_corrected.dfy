/** The live adder of src/lib.rs with its renormalising carry repaired, and
    the proof that it then rounds the sum of the significands to nearest,
    ties to even, in every case, including those where the sum or the
    round-up needs a 25th bit.

    Two changes to lines 386-431 make it so:
    - the increment is kept when the rounded sum carries (line 404, which
      subtracts it again, is dropped): the rounded sum is shifted right once;
    - when the aligned sum itself carries, the guard moves up one place, so
      the bit that was the round bit joins the sticky bit (this is the
      recomputation with `exp_diff + 1` that lines 405-419 sketch). */
module LiveAddCorrected {
  import opened Bits
  import opened Binary32
  import opened LiveAdd
  import opened LiveAddRounding

  /** The sticky bit at the guard position actually used: when the aligned
      sum carries, bit 6 of the aligned sum (the round bit before the carry)
      is ORed in too, `s | ((frac >> 6) & 1)`. */
  function CarrySticky(frac: nat, s: nat): (s2: nat)
    requires s <= 1
    ensures s2 <= 1
    ensures !SumCarries(frac) ==> s2 == s
    ensures SumCarries(frac) ==> (s2 == 1 <==> s == 1 || Bit(frac, 6))
  {
    ShrConst(frac);
    if SumCarries(frac) then (if s == 1 || (frac / 64) % 2 == 1 then 1 else 0) else s
  }

  /** The fraction bits kept: add z to the truncated sum and shift right once
      if that needs 25 bits. */
  function KeptRounded(frac: nat, z: nat): (k: nat)
    ensures k <= 0x7F_FFFF
  {
    (if RoundCarries(frac, z) then Incremented(frac, z) / 2 else Incremented(frac, z)) % 0x80_0000
  }

  /** Packing as on lines 432-434, with the repaired fraction. */
  function FinishRounded(sign: nat, exp: nat, frac: nat, z: nat): (r: Float32)
    requires sign <= 1 && exp <= 0xFF
    ensures r.Frac() == KeptRounded(frac, z)
    ensures r.Exp() == (if RoundCarries(frac, z) then (exp + 1) % 0x100 else exp)
    ensures r.Sign() == (if RoundCarries(frac, z) && exp == 0xFF then 1 else sign)
  {
    var carry := if RoundCarries(frac, z) then 1 else 0;
    Pack(sign, exp + carry, KeptRounded(frac, z))
  }

  /** The repaired round-up increment for a pair of operands. */
  function RepairedIncrementOf(lhs: Float32, rhs: Float32): (z: nat)
    ensures z <= 1
  {
    var frac := SumOf(lhs, rhs);
    RoundIncrement(frac, CarrySticky(frac, Sticky(Smaller(lhs, rhs), ExpDiff(lhs, rhs))))
  }

  /** The repaired adder: the same shortcuts, alignment and rounding bits as
      `add`, with the two changes above. */
  function AddRounded(lhs: Float32, rhs: Float32): (r: Float32)
    requires InRange(lhs, rhs)
    ensures lhs.Exp() == 0 ==> r == rhs
    ensures lhs.Exp() != 0 && rhs.Exp() == 0 ==> r == lhs
    ensures Generic(lhs, rhs) ==>
      r.Exp() == MaxExp(lhs, rhs) || r.Exp() == (MaxExp(lhs, rhs) + 1) % 0x100
    ensures Generic(lhs, rhs) && MaxExp(lhs, rhs) < 0xFF ==> r.Sign() == lhs.Sign()
  {
    if lhs.Exp() == 0 then rhs
    else if rhs.Exp() == 0 then lhs
    else FinishRounded(lhs.Sign(), MaxExp(lhs, rhs), SumOf(lhs, rhs), RepairedIncrementOf(lhs, rhs))
  }

  /** After a carry the d + 1 dropped bits are the lowest bit of the
      truncated sum above the d bits the alignment dropped. */
  function CarryRemainder(t: nat, small: nat, d: nat): nat {
    (if Odd(t) then Pow2(d) else 0) + DroppedBits(small, d)
  }

  /** The round-to-nearest-even increment once the aligned sum has carried:
      one more bit is dropped, so half a unit is 2^d. */
  function CarryRoundBit(lhs: Float32, rhs: Float32): (b: nat)
    ensures b <= 1
  {
    var d := ExpDiff(lhs, rhs);
    RoundUpBit(Truncated(lhs, rhs) / 2, CarryRemainder(Truncated(lhs, rhs), Smaller(lhs, rhs), d), HalfUnit(d + 1))
  }

  /** The significand sum rounded to nearest, ties to even, one place
      higher than NearestSum: the rounding a carry of the aligned sum calls for. */
  function NearestHalvedSum(lhs: Float32, rhs: Float32): nat {
    Truncated(lhs, rhs) / 2 + CarryRoundBit(lhs, rhs)
  }

  /** With one more bit dropped, the truncated sum halved and the new
      remainder are still the exact sum. */
  lemma CarrySplit(t: nat, small: nat, d: nat)
    ensures t * Pow2(d) + DroppedBits(small, d) == (t / 2) * Pow2(d + 1) + CarryRemainder(t, small, d)
    ensures CarryRemainder(t, small, d) < Pow2(d + 1)
  {
    var p := Pow2(d);
    assert Pow2(d + 1) == 2 * p;
    assert t == 2 * (t / 2) + t % 2;
    assert t * p == (t / 2) * (2 * p) + (t % 2) * p;
  }

  /** NearestHalvedSum is the sum of the significands rounded to nearest,
      ties to even, at the place one above the larger operand's last
      fraction bit. */
  lemma NearestHalvedSumIsNearest(lhs: Float32, rhs: Float32)
    ensures var d := ExpDiff(lhs, rhs);
      var exact := ExactSum(Bigger(lhs, rhs), Smaller(lhs, rhs), d);
      exact - HalfUnit(d + 1) <= NearestHalvedSum(lhs, rhs) * Pow2(d + 1) <= exact + HalfUnit(d + 1)
    ensures CarryRemainder(Truncated(lhs, rhs), Smaller(lhs, rhs), ExpDiff(lhs, rhs)) == HalfUnit(ExpDiff(lhs, rhs) + 1) ==>
      !Odd(NearestHalvedSum(lhs, rhs))
  {
    var d := ExpDiff(lhs, rhs);
    ExactSplit(Bigger(lhs, rhs), Smaller(lhs, rhs), d);
    CarrySplit(Truncated(lhs, rhs), Smaller(lhs, rhs), d);
    NearestEvenIsNearest(Truncated(lhs, rhs) / 2, CarryRemainder(Truncated(lhs, rhs), Smaller(lhs, rhs), d), d + 1);
  }

  /** The bits the source reads from `cfrac` after a carry are one place
      higher in the aligned sum. */
  lemma HalvedBits(frac: nat)
    ensures Bit(frac / 2, 8) == Bit(frac, 9)
    ensures Bit(frac / 2, 7) == Bit(frac, 8)
    ensures Bit(frac / 2, 6) == Bit(frac, 7)
  {}

  /** Bit 9 of an aligned sum is the second lowest bit of its truncated sum. */
  lemma SecondLastKept(frac: nat)
    ensures Bit(frac, 9) <==> Odd(AboveGuard(frac) / 2)
  {
    ShrShr(frac, 8, 1);
    ShrConst(frac);
    ShrConst(Shr(frac, 8));
  }

  /** Something is dropped exactly when the top dropped bit, the one below
      it, or the source's sticky bit is set. */
  lemma DroppedSplit(small: nat, d: nat)
    ensures DroppedBits(small, d) != 0 <==>
      (d >= 1 && Bit(small, d - 1)) || (d >= 2 && Bit(small, d - 2)) || Sticky(small, d) == 1
  {
    if d >= 1 {
      LowNonZero(small, d);
    }
    if d >= 2 {
      LowNonZero(small, d - 1);
    }
  }

  /** After a carry, round to nearest even rounds up exactly when the
      lowest bit of the truncated sum (the new guard bit) is set and either
      something below it is dropped or the new last kept bit is odd. */
  lemma CarryNearestEven(t: nat, small: nat, d: nat)
    ensures NearestEvenRoundsUp(t / 2, CarryRemainder(t, small, d), HalfUnit(d + 1)) <==>
      Odd(t) && (Odd(t / 2) || DroppedBits(small, d) != 0)
  {}

  /** The repaired rounding decision on the bits the source computes with,
      when the aligned sum carries. */
  lemma CarryIncrementCore(big: nat, small: nat, d: nat)
    requires big <= 0xFF_FFFF && small <= 0xFF_FFFF
    requires SumCarries(AlignedSum(big, small, d))
    ensures RoundIncrement(AlignedSum(big, small, d), CarrySticky(AlignedSum(big, small, d), Sticky(small, d))) == 1 <==>
      NearestEvenRoundsUp(TruncSum(big, small, d) / 2, CarryRemainder(TruncSum(big, small, d), small, d), HalfUnit(d + 1))
  {
    var frac := AlignedSum(big, small, d);
    HalvedBits(frac);
    SumBits(big, small, d);
    SumHigh(big, small, d);
    SecondLastKept(frac);
    DroppedSplit(small, d);
    CarryNearestEven(TruncSum(big, small, d), small, d);
  }

  /** The repaired increment is the round-to-nearest-even one: at the
      larger operand's last fraction bit without a carry of the aligned sum,
      one place higher with one. */
  lemma RepairedIncrementIs(lhs: Float32, rhs: Float32)
    ensures Truncated(lhs, rhs) <= 0xFF_FFFF ==> RepairedIncrementOf(lhs, rhs) == RoundBit(lhs, rhs)
    ensures Truncated(lhs, rhs) > 0xFF_FFFF ==> RepairedIncrementOf(lhs, rhs) == CarryRoundBit(lhs, rhs)
  {
    TruncatedOf(lhs, rhs);
    if Truncated(lhs, rhs) <= 0xFF_FFFF {
      IncrementIsRoundBit(lhs, rhs);
    } else {
      CarryIncrementCore(Bigger(lhs, rhs), Smaller(lhs, rhs), ExpDiff(lhs, rhs));
    }
  }

  /** On the generic path the repaired adder is the packing of its stages. */
  lemma AddRoundedIsFinish(lhs: Float32, rhs: Float32)
    requires Generic(lhs, rhs) && InRange(lhs, rhs)
    ensures AddRounded(lhs, rhs) ==
      FinishRounded(lhs.Sign(), MaxExp(lhs, rhs), SumOf(lhs, rhs), RepairedIncrementOf(lhs, rhs))
  {}

  /** Repaired adder, rounded sum of 24 bits: the left operand's sign, the
      larger exponent and the sum rounded to nearest, ties to even. */
  lemma AddRoundedToNearestEven(lhs: Float32, rhs: Float32)
    requires Generic(lhs, rhs) && InRange(lhs, rhs) && NearestSum(lhs, rhs) <= 0xFF_FFFF
    ensures AddRounded(lhs, rhs).Sign() == lhs.Sign()
    ensures AddRounded(lhs, rhs).Exp() == MaxExp(lhs, rhs)
    ensures Significand(AddRounded(lhs, rhs)) == NearestSum(lhs, rhs)
  {
    TruncatedOf(lhs, rhs);
    RepairedIncrementIs(lhs, rhs);
    AddRoundedIsFinish(lhs, rhs);
    SignificandOfFrac(AddRounded(lhs, rhs), NearestSum(lhs, rhs));
  }

  /** Repaired adder, a 24-bit truncated sum that rounds up to 2^24: the
      significand is 2^23 at the next exponent. */
  lemma AddRoundedUpToNextBinade(lhs: Float32, rhs: Float32)
    requires Generic(lhs, rhs) && InRange(lhs, rhs)
    requires Truncated(lhs, rhs) <= 0xFF_FFFF && NearestSum(lhs, rhs) > 0xFF_FFFF
    ensures AddRounded(lhs, rhs).Sign() == (if MaxExp(lhs, rhs) == 0xFF then 1 else lhs.Sign())
    ensures AddRounded(lhs, rhs).Exp() == (MaxExp(lhs, rhs) + 1) % 0x100
    ensures Significand(AddRounded(lhs, rhs)) == 0x80_0000
  {
    TruncatedOf(lhs, rhs);
    RepairedIncrementIs(lhs, rhs);
    AddRoundedIsFinish(lhs, rhs);
    SignificandOfFrac(AddRounded(lhs, rhs), 0x80_0000);
  }

  /** Repaired adder, aligned sum with a carry: the exponent goes up by one
      and the significand is the sum rounded to nearest, ties to even, at the
      coarser position. */
  lemma AddRoundedSumCarry(lhs: Float32, rhs: Float32)
    requires Generic(lhs, rhs) && InRange(lhs, rhs) && Truncated(lhs, rhs) > 0xFF_FFFF
    ensures AddRounded(lhs, rhs).Sign() == (if MaxExp(lhs, rhs) == 0xFF then 1 else lhs.Sign())
    ensures AddRounded(lhs, rhs).Exp() == (MaxExp(lhs, rhs) + 1) % 0x100
    ensures Significand(AddRounded(lhs, rhs)) == NearestHalvedSum(lhs, rhs)
  {
    CarryKept(lhs, rhs);
    AddRoundedIsFinish(lhs, rhs);
    SignificandOfFrac(AddRounded(lhs, rhs), NearestHalvedSum(lhs, rhs));
  }

  /** When the aligned sum carries, the repaired adder's fraction is the
      halved sum rounded to nearest, ties to even: a round-up only happens
      on an odd truncated sum, so it survives the halving. */
  lemma CarryKept(lhs: Float32, rhs: Float32)
    requires Generic(lhs, rhs) && InRange(lhs, rhs) && Truncated(lhs, rhs) > 0xFF_FFFF
    ensures RoundCarries(SumOf(lhs, rhs), RepairedIncrementOf(lhs, rhs))
    ensures 0x80_0000 <= NearestHalvedSum(lhs, rhs) <= 0xFF_FFFF
    ensures KeptRounded(SumOf(lhs, rhs), RepairedIncrementOf(lhs, rhs)) == NearestHalvedSum(lhs, rhs) % 0x80_0000
  {
    var t := Truncated(lhs, rhs);
    var z := RepairedIncrementOf(lhs, rhs);
    TruncatedOf(lhs, rhs);
    RepairedIncrementIs(lhs, rhs);
    CarryNearestEven(t, Smaller(lhs, rhs), ExpDiff(lhs, rhs));
    assert z == 1 ==> Odd(t);
    assert Incremented(SumOf(lhs, rhs), z) == t + z;
    assert (t + z) / 2 == t / 2 + z;
  }
}
