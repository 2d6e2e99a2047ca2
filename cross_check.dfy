/** The three adders of the repository side by side. Before rounding, all
    of them form the same significand sum: the larger significand plus the
    smaller one shifted right by the exponent gap. The toy `add` of
    snippets/float.c keeps that sum truncated, `impl ops::Add` of
    src/lib.rs rounds it, and the corrected `add_ref` carries 6 guard bits
    and a sticky bit below it but, having no rounding, drops them again. */
module CrossCheck {
  import opened Bits
  import opened Binary32
  import FloatC
  import FloatAddRef
  import LiveAdd
  import LiveAddRounding

  /** Two normal operands whose exponents are less than 32 apart. */
  predicate NormalPair(x: Float32, y: Float32) {
    x.Exp() != 0 && y.Exp() != 0 && FloatC.ToyInRange(x, y)
  }

  /** The toy sum is the live adder's truncated sum: the significand of the
      operand with the larger exponent plus the other one shifted right by
      the gap. On equal exponents the two orders give the same sum. */
  lemma ToySumIsTruncated(x: Float32, y: Float32)
    requires NormalPair(x, y)
    ensures FloatC.ToySum(x, y) == LiveAddRounding.Truncated(x, y)
  {
    assert LiveAdd.Significand(x) == x.Frac() + 0x80_0000;
    assert LiveAdd.Significand(y) == y.Frac() + 0x80_0000;
  }

  /** When the significand sum carries out of 24 bits, the live adder
      truncates (it never rounds there), so it agrees with the toy `add` on
      the exponent and the fraction. */
  lemma ToyAddMatchesLiveOnCarry(x: Float32, y: Float32)
    requires NormalPair(x, y) && FloatC.ToyCarries(x, y)
    ensures LiveAdd.Add(x, y).Exp() == FloatC.ToyAdd(x, y).Exp()
    ensures LiveAdd.Add(x, y).Frac() == FloatC.ToyAdd(x, y).Frac()
  {
    ToySumIsTruncated(x, y);
    LiveAddRounding.AddTruncatesOnCarry(x, y);
  }

  /** Without a carry, the live adder's significand is the toy's plus the
      round-to-nearest-even increment: the toy `add` is the live one with
      the rounding left out. */
  lemma ToyAddIsUnrounded(x: Float32, y: Float32)
    requires NormalPair(x, y) && !FloatC.ToyCarries(x, y)
    requires LiveAddRounding.NearestSum(x, y) <= 0xFF_FFFF
    ensures FloatC.ToyAdd(x, y).Exp() == LiveAdd.Add(x, y).Exp()
    ensures LiveAdd.Significand(LiveAdd.Add(x, y))
         == FloatC.ToyAdd(x, y).Frac() + 0x80_0000 + LiveAddRounding.RoundBit(x, y)
  {
    ToySumIsTruncated(x, y);
    LiveAddRounding.TruncatedOf(x, y);
    LiveAddRounding.AddRoundsToNearestEven(x, y);
    assert FloatC.ToyExp(x, y) == LiveAdd.MaxExp(x, y);
    assert LiveAdd.WithLeadingOne(FloatC.ToySum(x, y) - 0x80_0000) == FloatC.ToySum(x, y);
  }

  /** The sticky shift by d of a significand with 6 guard bits, with the
      guard bits dropped, is the plain shift of the significand by d. */
  lemma JammedGuardDropped(m: nat, d: nat)
    requires m <= 0xFF_FFFF && 1 <= d < 32
    ensures FloatC.ShiftRightJamming(m * 64, d) / 64 == Shr(m, d)
  {
    FloatC.JammingBits(m * 64, d);
    HalfThenDrop(FloatC.ShiftRightJamming(m * 64, d), m, d);
  }

  /** A value whose half is `(m << 6) >> (d + 1)`, with 6 bits dropped, is
      `m >> d`. */
  lemma HalfThenDrop(j: nat, m: nat, d: nat)
    requires j / 2 == Shr(m * 64, d + 1)
    ensures j / 64 == Shr(m, d)
  {
    ShrConst(j);
    ShrShr(j, 1, 5);
    ShrShr(m * 64, d + 1, 5);
    ShrShr(m * 64, 6, d);
    FloatAddRef.UndoGuard(m);
  }

  /** The smaller operand's significand as `add_ref` aligns it, with the
      guard bits dropped, is the toy's aligned significand. */
  lemma AlignedSmallIsToyAligned(a: Float32, b: Float32)
    requires NormalPair(a, b) && a.Exp() != b.Exp()
    ensures FloatAddRef.AlignedSmall(a, b) / 64
         == FloatC.ToyAligned(FloatAddRef.Small(a, b), FloatC.ToyExp(a, b))
  {
    var s := FloatAddRef.Small(a, b);
    assert FloatAddRef.SmallGuarded(s) == (s.Frac() + 0x80_0000) * 64;
    JammedGuardDropped(s.Frac() + 0x80_0000, FloatAddRef.AlignCount(a, b));
  }

  /** `add_ref`'s sum with its 6 guard bits dropped is the toy sum, and the
      two carry tests agree. */
  lemma RefSumIsToySum(a: Float32, b: Float32)
    requires NormalPair(a, b) && a.Exp() != b.Exp()
    ensures FloatAddRef.RefSum(a, b) / 64 == FloatC.ToySum(a, b)
    ensures FloatAddRef.RefCarries(a, b) <==> FloatC.ToyCarries(a, b)
  {
    AlignedSmallIsToyAligned(a, b);
    var big := FloatAddRef.Big(a, b);
    var r := FloatAddRef.RefSum(a, b);
    var j := FloatAddRef.AlignedSmall(a, b);
    assert r == (big.Frac() + 0x80_0000) * 64 + j;
    assert r / 64 == big.Frac() + 0x80_0000 + j / 64;
  }

  /** The corrected `add_ref` and the toy `add` agree on the exponent and
      the fraction of two normal operands with different exponents: with
      the rounding removed, the guard and sticky bits are dropped and the
      result is the truncated sum. */
  lemma AddRefFixedIsToyAdd(a: Float32, b: Float32)
    requires NormalPair(a, b) && a.Exp() != b.Exp()
    ensures Float32(FloatAddRef.AddRefFixed(a, b)).Exp() == FloatC.ToyAdd(a, b).Exp()
    ensures Float32(FloatAddRef.AddRefFixed(a, b)).Frac() == FloatC.ToyAdd(a, b).Frac()
  {
    FixedExpIsToyExp(a, b);
    var m := FloatAddRef.FixedSignificand(a, b);
    FixedSignificandIsToySum(a, b);
    assert LiveAdd.WithLeadingOne(m - 0x80_0000) == m;
  }

  /** The corrected exponent is the toy's: the larger exponent plus the
      carry. */
  lemma FixedExpIsToyExp(a: Float32, b: Float32)
    requires NormalPair(a, b) && a.Exp() != b.Exp()
    ensures FloatAddRef.FixedExp(a, b) % 0x100 == FloatC.ToyAdd(a, b).Exp()
  {
    RefSumIsToySum(a, b);
    assert FloatAddRef.Big(a, b).Exp() == FloatC.ToyExp(a, b);
    assert FloatAddRef.FixedExp(a, b) == FloatC.ToyExp(a, b) + (if FloatC.ToyCarries(a, b) then 1 else 0);
  }

  /** The corrected significand is the toy sum, halved on a carry. */
  lemma FixedSignificandIsToySum(a: Float32, b: Float32)
    requires NormalPair(a, b) && a.Exp() != b.Exp()
    ensures FloatAddRef.FixedSignificand(a, b)
         == (if FloatC.ToyCarries(a, b) then FloatC.ToySum(a, b) / 2 else FloatC.ToySum(a, b))
  {
    RefSumIsToySum(a, b);
    HalfOfSixtyFourth(FloatAddRef.RefSum(a, b));
  }

  lemma HalfOfSixtyFourth(r: nat)
    ensures r / 128 == (r / 64) / 2
  {}
}
