/** The live `impl ops::Add for Float32` of src/lib.rs (lines 326-436): a
    software binary32 adder on u64 intermediates. It short-cuts any operand
    whose exponent field is zero, aligns the significands with 8 guard bits,
    takes a sticky bit from the smaller significand, decides a round-up from
    guard/round/sticky and the last kept bit, renormalises a carry and packs
    the left operand's sign, the exponent and the fraction.

    The model follows the code, not IEEE 754: the significands are always
    added (the signs are never compared), exponent 255 is not special, and
    every exponent-0 operand counts as zero. Every u64 intermediate stays
    below 2^34, so no u64 operation wraps and the naturals here are the
    u64 values. */
module LiveAdd {
  import opened Bits
  import opened Binary32
  import FloatC

  /** `exp_diff`, `lhs_exp.abs_diff(rhs_exp)` (line 355). */
  function ExpDiff(lhs: Float32, rhs: Float32): (d: nat)
    ensures d <= 0xFF
    ensures lhs.Exp() == rhs.Exp() + d || rhs.Exp() == lhs.Exp() + d
  {
    if lhs.Exp() >= rhs.Exp() then lhs.Exp() - rhs.Exp() else rhs.Exp() - lhs.Exp()
  }

  /** `exp`, `lhs_exp.max(rhs_exp)` (line 354): the result exponent before
      renormalisation. */
  function MaxExp(lhs: Float32, rhs: Float32): (e: nat)
    ensures e <= 0xFF
    ensures e >= lhs.Exp() && e >= rhs.Exp()
    ensures e == lhs.Exp() || e == rhs.Exp()
  {
    if lhs.Exp() >= rhs.Exp() then lhs.Exp() else rhs.Exp()
  }

  /** A fraction field widened to u64 with the implicit bit inserted:
      `frac | (1 << 23)` (lines 356-357); bit 23 of a fraction is clear, so
      the `|` adds 2^23. */
  function WithLeadingOne(f: nat): (m: nat)
    requires f <= 0x7F_FFFF
    ensures 0x80_0000 <= m <= 0xFF_FFFF
    ensures m % 0x80_0000 == f
  {
    f + 0x80_0000
  }

  /** The significand of an operand. */
  function Significand(x: Float32): (m: nat)
    ensures 0x80_0000 <= m <= 0xFF_FFFF
  {
    WithLeadingOne(x.Frac())
  }

  /** Neither shortcut applies. */
  predicate Generic(lhs: Float32, rhs: Float32) {
    lhs.Exp() != 0 && rhs.Exp() != 0
  }

  /** What the source demands: on the generic path `1 << exp_diff` and
      `>> exp_diff` on u64 panic (debug build) once the exponents are 64 or
      more apart. */
  predicate InRange(lhs: Float32, rhs: Float32) {
    Generic(lhs, rhs) ==> ExpDiff(lhs, rhs) < 64
  }

  /** `lhs_bigger_abs` (lines 359-367): exponent first, then significand. */
  predicate LhsBiggerAbs(lhs: Float32, rhs: Float32) {
    if lhs.Exp() > rhs.Exp() then true
    else if lhs.Exp() < rhs.Exp() then false
    else Significand(lhs) > Significand(rhs)
  }

  /** The significand of the operand judged larger. */
  function Bigger(lhs: Float32, rhs: Float32): (m: nat)
    ensures 0x80_0000 <= m <= 0xFF_FFFF
  {
    if LhsBiggerAbs(lhs, rhs) then Significand(lhs) else Significand(rhs)
  }

  /** `orig_smaller_frac` (line 369). */
  function Smaller(lhs: Float32, rhs: Float32): (m: nat)
    ensures 0x80_0000 <= m <= 0xFF_FFFF
  {
    if LhsBiggerAbs(lhs, rhs) then Significand(rhs) else Significand(lhs)
  }

  /** The sticky bit `s` (lines 370-380), from the smaller significand and the
      exponent gap: the `exp_diff - 2` lowest of the `exp_diff` lowest bits
      (`saturating_sub` is plain subtraction once `exp_diff >= 3`), tested
      for non-zero. */
  function Sticky(small: nat, d: nat): (s: nat)
    ensures s <= 1
    ensures s == 1 <==> d >= 3 && LowBits(small, d - 2) != 0
  {
    if d >= 3 then
      LowLow(small, d, d - 2);
      if LowBits(LowBits(small, d), d - 2) > 0 then 1 else 0
    else
      0
  }

  /** A significand with 8 guard bits below it: `frac << 8`. */
  function Guarded(m: nat): nat {
    m * 256
  }

  /** The smaller significand with 8 guard bits, shifted right by the
      exponent gap: `(frac << 8) >> exp_diff`. */
  function Aligned(small: nat, d: nat): (a: nat)
    ensures a <= Guarded(small)
  {
    ShrNoLarger(Guarded(small), d);
    Shr(Guarded(small), d)
  }

  /** `frac` of lines 381-385: the larger significand and the aligned smaller
      one, both with 8 guard bits, added whatever the signs. */
  function AlignedSum(big: nat, small: nat, d: nat): (f: nat)
    requires big <= 0xFF_FFFF && small <= 0xFF_FFFF
    ensures f < 0x2_0000_0000
  {
    Guarded(big) + Aligned(small, d)
  }

  /** `frac >> 8`: the bits of an aligned sum above its guard byte. */
  function AboveGuard(frac: nat): nat {
    frac / 256
  }

  /** `carry` of line 386: the sum needs 25 bits. */
  predicate SumCarries(frac: nat) {
    AboveGuard(frac) > 0xFF_FFFF
  }

  /** `cfrac` of line 387. */
  function Carried(frac: nat): nat {
    if SumCarries(frac) then frac / 2 else frac
  }

  lemma GuardOfLowByte(c: nat)
    ensures (c / 128) % 2 == ((c % 256) / 128) % 2
  {
    var h := c / 256;
    var l := c % 256;
    assert c == 256 * h + l;
    assert 0 <= l / 128 <= 1;
    assert c / 128 == 2 * h + l / 128;
  }

  lemma SixAboveLowByte(c: nat)
    ensures c / 64 == 4 * (c / 256) + (c % 256) / 64
  {
    var h := c / 256;
    var l := c % 256;
    assert c == 256 * h + l;
  }

  lemma RoundOfLowByte(c: nat)
    ensures (c / 64) % 2 == ((c % 256) / 64) % 2
  {
    SixAboveLowByte(c);
    EvenPlus(2 * (c / 256), (c % 256) / 64);
  }

  lemma EvenPlus(k: nat, x: nat)
    ensures (2 * k + x) % 2 == x % 2
  {}

  /** Bits 7 and 6 of the low byte of c are bits 7 and 6 of c. */
  lemma LowByteBits(c: nat)
    ensures Bit(c, 8) <==> (c / 256) % 2 == 1
    ensures Bit(c, 7) <==> ((c % 256) / 128) % 2 == 1
    ensures Bit(c, 6) <==> ((c % 256) / 64) % 2 == 1
  {
    ShrConst(c);
    GuardOfLowByte(c);
    RoundOfLowByte(c);
  }

  /** The round-up increment `z = g & (ulp | r | s)` of lines 388-399: g and
      r are bits 7 and 6 of `q`, the low byte of `cfrac`, and ulp is bit 8
      of `cfrac`. */
  function RoundIncrement(frac: nat, s: nat): (z: nat)
    requires s <= 1
    ensures z <= 1
    ensures z == 1 <==> Bit(Carried(frac), 7) && (Bit(Carried(frac), 8) || Bit(Carried(frac), 6) || s == 1)
  {
    var cfrac := Carried(frac);
    var q := cfrac % 256;
    var g := (q / 128) % 2;
    var r := (q / 64) % 2;
    var ulp := (cfrac / 256) % 2;
    LowByteBits(cfrac);
    if g == 1 && (ulp == 1 || r == 1 || s == 1) then 1 else 0
  }

  /** `frac >> 8` and `frac + z` of lines 400-401: the truncated sum plus
      the increment. */
  function Incremented(frac: nat, z: nat): nat {
    AboveGuard(frac) + z
  }

  /** `carry` of line 402: the truncated sum plus the increment needs 25 bits. */
  predicate RoundCarries(frac: nat, z: nat) {
    Incremented(frac, z) > 0xFF_FFFF
  }

  /** The fraction bits kept by lines 400-431 as written: add z to the
      truncated sum; if that needs 25 bits, take z back (`frac -= z`, line
      404) and shift right once (line 426); keep the low 23 bits (line 431). */
  function Kept(frac: nat, z: nat): (k: nat)
    ensures k <= 0x7F_FFFF
  {
    (if RoundCarries(frac, z) then (Incremented(frac, z) - z) / 2 else Incremented(frac, z)) % 0x80_0000
  }

  /** `frac` of line 381 for a pair of operands. */
  function SumOf(lhs: Float32, rhs: Float32): nat {
    AlignedSum(Bigger(lhs, rhs), Smaller(lhs, rhs), ExpDiff(lhs, rhs))
  }

  /** `z` of line 399 for a pair of operands. */
  function IncrementOf(lhs: Float32, rhs: Float32): (z: nat)
    ensures z <= 1
  {
    RoundIncrement(SumOf(lhs, rhs), Sticky(Smaller(lhs, rhs), ExpDiff(lhs, rhs)))
  }

  /** The packing of lines 432-434 after renormalisation: the left operand's
      sign, the larger exponent plus the carry (as u32, so 256 spills into
      the sign bit), the kept fraction bits. */
  function Finish(sign: nat, exp: nat, frac: nat, z: nat): (r: Float32)
    requires sign <= 1 && exp <= 0xFF
    ensures r.Frac() == Kept(frac, z)
    ensures r.Exp() == (if RoundCarries(frac, z) then (exp + 1) % 0x100 else exp)
    ensures r.Sign() == (if RoundCarries(frac, z) && exp == 0xFF then 1 else sign)
  {
    var carry := if RoundCarries(frac, z) then 1 else 0;
    Pack(sign, exp + carry, Kept(frac, z))
  }

  /** Line 434, `(sign << 31) | (exp << 23) | frac` on u32 for an exponent
      up to 256 and a 23-bit fraction, is `Pack`: the fraction fills bits
      0-22, the exponent's low 8 bits fill bits 23-30, and its bit 8 is ORed
      with the sign into bit 31. */
  lemma PackIsOr(sign: nat, exp: nat, frac: nat)
    requires sign <= 1 && exp <= 0x100 && frac <= 0x7F_FFFF
    ensures Or(Or(sign * 0x8000_0000, exp * 0x80_0000), frac) == Pack(sign, exp, frac).raw
  {
    var w := TopBit(sign, exp) * 0x100 + exp % 0x100;
    SignOrExp(sign, exp);
    OrFraction(w, frac);
  }

  /** `(sign << 31) | (exp << 23)`: the exponent's bit 8 meets the sign. */
  lemma SignOrExp(sign: nat, exp: nat)
    requires sign <= 1 && exp <= 0x100
    ensures Or(sign * 0x8000_0000, exp * 0x80_0000) == (TopBit(sign, exp) * 0x100 + exp % 0x100) * 0x80_0000
  {
    var v := exp * 0x80_0000;
    var top := if sign == 1 || v >= 0x8000_0000 then 0x8000_0000 else 0;
    FloatC.OrSignBit(sign, v);
    SignAboveExp(sign, exp, v, top);
  }

  lemma SignAboveExp(sign: nat, exp: nat, v: nat, top: nat)
    requires sign <= 1 && exp <= 0x100 && v == exp * 0x80_0000
    requires top == if sign == 1 || v >= 0x8000_0000 then 0x8000_0000 else 0
    ensures top + v % 0x8000_0000 == (TopBit(sign, exp) * 0x100 + exp % 0x100) * 0x80_0000
  {
    if exp == 0x100 {
      assert v % 0x8000_0000 == 0;
    } else {
      assert v % 0x8000_0000 == v;
    }
  }

  /** `| frac` for a 23-bit fraction below a value shifted left by 23. */
  lemma OrFraction(w: nat, frac: nat)
    requires frac <= 0x7F_FFFF
    ensures Or(w * 0x80_0000, frac) == w * 0x80_0000 + frac
  {
    FloatC.Pow2Widths();
    SmallShr(frac, 23);
    OrSplit(w, 0, frac, 23);
    assert w * 0x80_0000 + 0 == w * 0x80_0000;
    assert Or(w, 0) == w;
    assert Or(0, frac) == frac;
  }

  /** The packed result is the word line 434 builds with `|`. */
  lemma FinishIsOr(sign: nat, exp: nat, frac: nat, z: nat)
    requires sign <= 1 && exp <= 0xFF
    ensures Finish(sign, exp, frac, z).raw
         == Or(Or(sign * 0x8000_0000, (exp + (if RoundCarries(frac, z) then 1 else 0)) * 0x80_0000), Kept(frac, z))
  {
    PackIsOr(sign, exp + (if RoundCarries(frac, z) then 1 else 0), Kept(frac, z));
  }

  /** `<Float32 as Add>::add` (lines 329-435). */
  function Add(lhs: Float32, rhs: Float32): (r: Float32)
    requires InRange(lhs, rhs)
    ensures lhs.Exp() == 0 ==> r == rhs
    ensures lhs.Exp() != 0 && rhs.Exp() == 0 ==> r == lhs
    ensures Generic(lhs, rhs) ==>
      r.Exp() == MaxExp(lhs, rhs) || r.Exp() == (MaxExp(lhs, rhs) + 1) % 0x100
    ensures Generic(lhs, rhs) && MaxExp(lhs, rhs) < 0xFF ==> r.Sign() == lhs.Sign()
  {
    if lhs.Exp() == 0 then rhs
    else if rhs.Exp() == 0 then lhs
    else Finish(lhs.Sign(), MaxExp(lhs, rhs), SumOf(lhs, rhs), IncrementOf(lhs, rhs))
  }

  /** With operands of the same sign the order does not matter: the larger
      and the smaller significand are picked by magnitude, and on equal
      magnitudes the two significands are the same. */
  lemma SameSignCommutes(a: Float32, b: Float32)
    requires Generic(a, b) && InRange(a, b) && a.Sign() == b.Sign()
    ensures InRange(b, a) && Add(a, b) == Add(b, a)
  {
    assert ExpDiff(a, b) == ExpDiff(b, a) && MaxExp(a, b) == MaxExp(b, a);
    assert Bigger(a, b) == Bigger(b, a) && Smaller(a, b) == Smaller(b, a);
  }
}
