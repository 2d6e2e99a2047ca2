/** What the live adder's rounding computes: round to nearest, ties to even,
    of the exact sum of the aligned significands as long as the rounded sum
    fits in 24 bits, and truncation once it needs a 25th. */
module LiveAddRounding {
  import opened Bits
  import opened Binary32
  import opened LiveAdd

  /** The exact sum of the two significands, in units of the smaller
      operand's last fraction bit: the larger one is worth 2^d of them. */
  function ExactSum(big: nat, small: nat, d: nat): nat {
    big * Pow2(d) + small
  }

  /** The exact sum's leading bits: the larger significand plus the smaller
      one shifted right by the exponent gap d. */
  function TruncSum(big: nat, small: nat, d: nat): nat {
    big + Shr(small, d)
  }

  /** The bits of the smaller significand that the alignment shifts out. */
  function DroppedBits(small: nat, d: nat): nat {
    LowBits(small, d)
  }

  /** Half a unit in the last kept place, in the units of the dropped bits;
      zero when nothing is dropped. */
  function HalfUnit(d: nat): nat {
    if d == 0 then 0 else Pow2(d - 1)
  }

  /** Round to nearest, ties to even (section 4.3.1 of IEEE 754-2008): a
      truncated value t with remainder rem is incremented exactly when rem is
      more than half a unit, or exactly half and t is odd. */
  predicate NearestEvenRoundsUp(t: nat, rem: nat, half: nat) {
    half != 0 && (rem > half || (rem == half && Odd(t)))
  }

  /** The increment round to nearest, ties to even asks for, as 0 or 1. */
  function RoundUpBit(t: nat, rem: nat, half: nat): (b: nat)
    ensures b <= 1
  {
    if NearestEvenRoundsUp(t, rem, half) then 1 else 0
  }

  /** The truncated sum and the dropped bits together are the exact sum. */
  lemma ExactSplit(big: nat, small: nat, d: nat)
    ensures ExactSum(big, small, d) == TruncSum(big, small, d) * Pow2(d) + DroppedBits(small, d)
    ensures DroppedBits(small, d) < Pow2(d)
  {
    var p := Pow2(d);
    var s := Shr(small, d);
    ShrLowSplit(small, d);
    MulDistrib(big, s, p);
    assert ExactSum(big, small, d) == big * p + small;
    assert TruncSum(big, small, d) == big + s;
  }

  /** Rounding t with remainder rem (below 2^d) to nearest, ties to even,
      lands within half a unit of the exact value t * 2^d + rem, and on a tie
      it lands on an even value. */
  lemma {:induction false} NearestEvenIsNearest(t: nat, rem: nat, d: nat)
    requires rem < Pow2(d)
    ensures var r := t + RoundUpBit(t, rem, HalfUnit(d));
      t * Pow2(d) + rem - HalfUnit(d) <= r * Pow2(d) <= t * Pow2(d) + rem + HalfUnit(d)
    ensures d >= 1 && rem == HalfUnit(d) ==> !Odd(t + RoundUpBit(t, rem, HalfUnit(d)))
  {
    if d == 0 {
      assert rem == 0;
    } else {
      assert Pow2(d) == 2 * HalfUnit(d);
      assert (t + 1) * Pow2(d) == t * Pow2(d) + Pow2(d);
    }
  }

  /** Above the guard byte, the aligned sum is the truncated sum. */
  lemma SumHigh(big: nat, small: nat, d: nat)
    requires big <= 0xFF_FFFF && small <= 0xFF_FFFF
    ensures AboveGuard(AlignedSum(big, small, d)) == TruncSum(big, small, d)
  {
    var a := Aligned(small, d);
    assert (big * 256 + a) / 256 == big + a / 256;
    ShrConst(a);
    ShrShr(small * 256, d, 8);
    ShrShr(small * 256, 8, d);
    ShrGuardByte(small);
  }

  /** The guard byte of the aligned sum is that of the aligned smaller significand. */
  lemma SumLow(big: nat, small: nat, d: nat)
    requires big <= 0xFF_FFFF && small <= 0xFF_FFFF
    ensures AlignedSum(big, small, d) % 256 == Aligned(small, d) % 256
  {
    var a := Aligned(small, d);
    assert (big * 256 + a) % 256 == a % 256;
  }

  /** Bits 7 and 6 of the aligned smaller significand are the top two bits
      the alignment drops; they are clear when it drops fewer. */
  lemma AlignedBits(small: nat, d: nat)
    ensures Bit(Aligned(small, d), 7) <==> d >= 1 && Bit(small, d - 1)
    ensures Bit(Aligned(small, d), 6) <==> d >= 2 && Bit(small, d - 2)
  {
    var g := small * 256;
    ShrShr(g, d, 7);
    ShrShr(g, d, 6);
    ShrGuardByte(small);
    if d >= 1 {
      ShrShr(g, 8, d - 1);
    } else {
      ShrConst(g);
      assert g / 128 == 2 * small;
      assert g / 64 == 2 * (2 * small);
    }
    if d >= 2 {
      ShrShr(g, 8, d - 2);
    } else if d == 1 {
      ShrConst(g);
      assert g / 128 == 2 * small;
    }
  }

  /** Bits 7 and 6 of two numbers with the same low byte agree. */
  lemma SameLowByte(x: nat, y: nat)
    requires x % 256 == y % 256
    ensures Bit(x, 7) <==> Bit(y, 7)
    ensures Bit(x, 6) <==> Bit(y, 6)
  {
    LowByteBits(x);
    LowByteBits(y);
  }

  /** `ulp`, `g` and `r` of an aligned sum that does not carry: the last
      kept bit of the truncated sum and the top two dropped bits. */
  lemma SumBits(big: nat, small: nat, d: nat)
    requires big <= 0xFF_FFFF && small <= 0xFF_FFFF
    ensures Bit(AlignedSum(big, small, d), 8) <==> Odd(TruncSum(big, small, d))
    ensures Bit(AlignedSum(big, small, d), 7) <==> d >= 1 && Bit(small, d - 1)
    ensures Bit(AlignedSum(big, small, d), 6) <==> d >= 2 && Bit(small, d - 2)
  {
    SumHigh(big, small, d);
    LowByteBits(AlignedSum(big, small, d));
    SumLow(big, small, d);
    SameLowByte(AlignedSum(big, small, d), Aligned(small, d));
    AlignedBits(small, d);
  }

  /** The dropped bits against half a unit: above half exactly when the top
      dropped bit and some bit below it are set, exactly half when only the
      top one is. */
  lemma DroppedAgainstHalf(small: nat, d: nat)
    requires d >= 1
    ensures DroppedBits(small, d) > HalfUnit(d) <==> Bit(small, d - 1) && LowBits(small, d - 1) != 0
    ensures DroppedBits(small, d) == HalfUnit(d) <==> Bit(small, d - 1) && LowBits(small, d - 1) == 0
  {
    LowStep(small, d - 1);
  }

  /** The rounding decision on the bits the source computes with. */
  lemma IncrementCore(big: nat, small: nat, d: nat)
    requires big <= 0xFF_FFFF && small <= 0xFF_FFFF
    requires !SumCarries(AlignedSum(big, small, d))
    ensures RoundIncrement(AlignedSum(big, small, d), Sticky(small, d)) == 1 <==>
      NearestEvenRoundsUp(TruncSum(big, small, d), DroppedBits(small, d), HalfUnit(d))
  {
    SumBits(big, small, d);
    if d >= 1 {
      DroppedAgainstHalf(small, d);
    }
    if d >= 2 {
      LowNonZero(small, d - 1);
    }
  }

  /** TruncSum for a pair of operands. */
  function Truncated(lhs: Float32, rhs: Float32): nat {
    TruncSum(Bigger(lhs, rhs), Smaller(lhs, rhs), ExpDiff(lhs, rhs))
  }

  /** DroppedBits for a pair of operands. */
  function Dropped(lhs: Float32, rhs: Float32): nat {
    DroppedBits(Smaller(lhs, rhs), ExpDiff(lhs, rhs))
  }

  /** HalfUnit for a pair of operands. */
  function Half(lhs: Float32, rhs: Float32): nat {
    HalfUnit(ExpDiff(lhs, rhs))
  }

  /** The round-to-nearest-even increment for a pair of operands. */
  function RoundBit(lhs: Float32, rhs: Float32): (b: nat)
    ensures b <= 1
  {
    RoundUpBit(Truncated(lhs, rhs), Dropped(lhs, rhs), Half(lhs, rhs))
  }

  /** The significand sum rounded to nearest, ties to even, at the place of
      the larger operand's last fraction bit. */
  function NearestSum(lhs: Float32, rhs: Float32): nat {
    Truncated(lhs, rhs) + RoundBit(lhs, rhs)
  }

  /** NearestSum is the sum of the significands rounded to nearest, ties to
      even: scaled back, it is within half a unit of the exact sum, and on a
      tie it is even. */
  lemma NearestSumIsNearest(lhs: Float32, rhs: Float32)
    ensures var d := ExpDiff(lhs, rhs);
      var exact := ExactSum(Bigger(lhs, rhs), Smaller(lhs, rhs), d);
      exact - HalfUnit(d) <= NearestSum(lhs, rhs) * Pow2(d) <= exact + HalfUnit(d)
    ensures ExpDiff(lhs, rhs) >= 1 && Dropped(lhs, rhs) == Half(lhs, rhs) ==> !Odd(NearestSum(lhs, rhs))
  {
    var d := ExpDiff(lhs, rhs);
    ExactSplit(Bigger(lhs, rhs), Smaller(lhs, rhs), d);
    NearestEvenIsNearest(Truncated(lhs, rhs), Dropped(lhs, rhs), d);
  }

  /** The truncated sum of a pair of operands is what the source keeps above
      the guard byte, and it has 24 or 25 bits. */
  lemma TruncatedOf(lhs: Float32, rhs: Float32)
    ensures AboveGuard(SumOf(lhs, rhs)) == Truncated(lhs, rhs)
    ensures 0x80_0000 <= Truncated(lhs, rhs) <= 0x1FF_FFFE
  {
    SumHigh(Bigger(lhs, rhs), Smaller(lhs, rhs), ExpDiff(lhs, rhs));
    ShrNoLarger(Smaller(lhs, rhs), ExpDiff(lhs, rhs));
  }

  /** When the aligned sum does not carry, the source's increment z is the
      round-to-nearest-even increment. */
  lemma IncrementIsRoundBit(lhs: Float32, rhs: Float32)
    requires Truncated(lhs, rhs) <= 0xFF_FFFF
    ensures IncrementOf(lhs, rhs) == RoundBit(lhs, rhs)
  {
    TruncatedOf(lhs, rhs);
    IncrementCore(Bigger(lhs, rhs), Smaller(lhs, rhs), ExpDiff(lhs, rhs));
  }

  /** A 24-bit significand is recovered from its 23 fraction bits. */
  lemma SignificandOfFrac(r: Float32, v: nat)
    requires 0x80_0000 <= v <= 0xFF_FFFF && r.Frac() == v % 0x80_0000
    ensures Significand(r) == v
  {}

  /** On the generic path `add` is the packing of its stages. */
  lemma AddIsFinish(lhs: Float32, rhs: Float32)
    requires Generic(lhs, rhs) && InRange(lhs, rhs)
    ensures Add(lhs, rhs) == Finish(lhs.Sign(), MaxExp(lhs, rhs), SumOf(lhs, rhs), IncrementOf(lhs, rhs))
  {}

  /** When the rounded sum fits in 24 bits, `add` returns the left operand's
      sign, the larger exponent and the sum of the significands rounded to
      nearest, ties to even. */
  lemma AddRoundsToNearestEven(lhs: Float32, rhs: Float32)
    requires Generic(lhs, rhs) && InRange(lhs, rhs) && NearestSum(lhs, rhs) <= 0xFF_FFFF
    ensures Add(lhs, rhs).Sign() == lhs.Sign()
    ensures Add(lhs, rhs).Exp() == MaxExp(lhs, rhs)
    ensures Significand(Add(lhs, rhs)) == NearestSum(lhs, rhs)
  {
    TruncatedOf(lhs, rhs);
    IncrementIsRoundBit(lhs, rhs);
    AddIsFinish(lhs, rhs);
    SignificandOfFrac(Add(lhs, rhs), NearestSum(lhs, rhs));
  }

  /** When the aligned sum needs 25 bits, `add` truncates: the exponent goes
      up by one and the significand is the truncated sum shifted right once,
      whatever the dropped bits are. */
  lemma AddTruncatesOnCarry(lhs: Float32, rhs: Float32)
    requires Generic(lhs, rhs) && InRange(lhs, rhs) && Truncated(lhs, rhs) > 0xFF_FFFF
    ensures Add(lhs, rhs).Sign() == (if MaxExp(lhs, rhs) == 0xFF then 1 else lhs.Sign())
    ensures Add(lhs, rhs).Exp() == (MaxExp(lhs, rhs) + 1) % 0x100
    ensures Significand(Add(lhs, rhs)) == Truncated(lhs, rhs) / 2
  {
    TruncatedOf(lhs, rhs);
    AddIsFinish(lhs, rhs);
    SignificandOfFrac(Add(lhs, rhs), Truncated(lhs, rhs) / 2);
  }

  /** As written, a round-up that carries is taken back: a truncated sum of
      24 ones that round to nearest even increments gives 24 ones at the next
      exponent, not 2^24. */
  lemma RoundUpCarryIsWithdrawn(lhs: Float32, rhs: Float32)
    requires Generic(lhs, rhs) && InRange(lhs, rhs)
    requires Truncated(lhs, rhs) == 0xFF_FFFF && RoundBit(lhs, rhs) == 1
    ensures Add(lhs, rhs).Exp() == (MaxExp(lhs, rhs) + 1) % 0x100
    ensures Significand(Add(lhs, rhs)) == 0xFF_FFFF
  {
    TruncatedOf(lhs, rhs);
    IncrementIsRoundBit(lhs, rhs);
    AddIsFinish(lhs, rhs);
    SignificandOfFrac(Add(lhs, rhs), 0xFF_FFFF);
  }
}
