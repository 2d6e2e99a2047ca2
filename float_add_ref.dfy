/** `add_ref` of snippets/float.c (lines 131-202): the alignment and
    addition of a SoftFloat-style adder for operands of the same sign, on
    significands with 6 guard bits and the sticky right shift, with the
    rounding removed. Its locals are updated in place, so it is a method
    here; the functions beside it state what the locals hold at the end. */
module FloatAddRef {
  import opened Bits
  import opened Binary32
  import opened FloatC

  /** The operand with the larger exponent field. */
  function Big(a: Float32, b: Float32): Float32 {
    if a.Exp() > b.Exp() then a else b
  }

  /** The operand with the smaller exponent field. */
  function Small(a: Float32, b: Float32): Float32 {
    if a.Exp() > b.Exp() then b else a
  }

  /** The smaller operand's fraction after `<<= 6` (lines 151-152) and,
      for a normal operand, `|= 0x20000000` (lines 158, 166): its
      significand with 6 guard bits. */
  function SmallGuarded(x: Float32): (g: nat)
    ensures g < 0x4000_0000
    ensures x.Exp() == 0 ==> g < 0x2000_0000
  {
    x.Frac() * 64 + (if x.Exp() != 0 then 0x2000_0000 else 0)
  }

  /** The count passed to the sticky shift (lines 157, 160, 165, 168): the
      exponent gap, one less for a subnormal smaller operand, whose
      exponent field 0 stands for exponent 1. */
  function AlignCount(a: Float32, b: Float32): (c: nat)
    requires a.Exp() != b.Exp()
    ensures c < 0xFF
    ensures c == 0 ==> Small(a, b).Exp() == 0
  {
    var gap := Big(a, b).Exp() - Small(a, b).Exp();
    if Small(a, b).Exp() == 0 then gap - 1 else gap
  }

  /** The smaller operand aligned to the larger exponent by the sticky
      shift: `shift32RightJamming(frac, count)`. */
  function AlignedSmall(a: Float32, b: Float32): (s: U32)
    requires a.Exp() != b.Exp()
    ensures s < 0x2000_0000
  {
    var g := SmallGuarded(Small(a, b));
    var c := AlignCount(a, b);
    if c >= 1 then
      JammingHalves(g, c);
      ShiftRightJamming(g, c)
    else
      ShiftRightJamming(g, c)
  }

  /** `aFrac + bFrac` after line 183: the larger operand's significand with
      its implicit bit 29 and 6 guard bits, plus the aligned smaller one. */
  function RefSum(a: Float32, b: Float32): (s: nat)
    requires a.Exp() != b.Exp()
    ensures 0x2000_0000 <= s < 0x6000_0000
  {
    0x2000_0000 + Big(a, b).Frac() * 64 + AlignedSmall(a, b)
  }

  /** The test `(int)zFrac < 0` of line 187 on `zFrac = (aFrac + bFrac) << 1`:
      the sum has reached bit 30. */
  predicate RefCarries(a: Float32, b: Float32)
    requires a.Exp() != b.Exp()
  {
    RefSum(a, b) >= 0x4000_0000
  }

  /** `zExp` at line 194: the larger exponent, decremented (line 185) and
      incremented back on a carry (line 190). */
  function RefExp(a: Float32, b: Float32): (e: nat)
    requires a.Exp() != b.Exp()
    ensures e <= 0xFF
    ensures e == Big(a, b).Exp() - 1 || e == Big(a, b).Exp()
  {
    Big(a, b).Exp() - 1 + (if RefCarries(a, b) then 1 else 0)
  }

  /** `zFrac` at line 194: the sum with its leading bit at bit 30. */
  function RefFrac(a: Float32, b: Float32): (f: nat)
    requires a.Exp() != b.Exp()
    ensures 0x4000_0000 <= f < 0x8000_0000
  {
    if RefCarries(a, b) then RefSum(a, b) else 2 * RefSum(a, b)
  }

  /** Line 173 on two fractions shifted left 6: the word holds the sign
      and the sum of the fractions shifted right 7. */
  lemma HalvedSubnormalSum(sign: nat, fa: nat, fb: nat)
    requires sign <= 1 && fa <= 0x7F_FFFF && fb <= 0x7F_FFFF
    ensures Or(sign * 0x8000_0000, Shr(fa * 64 + fb * 64, 13)) == sign * 0x8000_0000 + (fa + fb) / 128
  {
    var s := fa + fb;
    GuardedSum(fa, fb);
    ShrShr(fa * 64 + fb * 64, 6, 7);
    ShrConst(s);
    assert Shr(fa * 64 + fb * 64, 13) == s / 128;
    OrSignBelow(sign, s / 128);
  }

  /** `(s << 6) >> 6 == s`. */
  lemma UndoGuard(s: nat)
    ensures Shr(s * 64, 6) == s
  {
    assert Pow2(6) == 64;
    ShrUndoesShl(s, 6);
  }

  /** `v | 0x20000000` for v below 2^29 sets the implicit bit 29. */
  lemma SetBit29(v: nat)
    requires v < 0x2000_0000
    ensures Or(v, 0x2000_0000) == v + 0x2000_0000
  {
    Pow2Widths();
    OrHighBit(v, 29);
  }

  /** The bit-fields of lines 194-198 hold the sign, `zExp` and the low 23
      bits of `zFrac`. */
  lemma PackedFields(sign: nat, e: int, f: nat)
    requires sign <= 1 && 0 <= e <= 0xFF
    ensures Float32(Pack(sign, e % 0x100, f % 0x80_0000).raw).Sign() == sign
    ensures Float32(Pack(sign, e % 0x100, f % 0x80_0000).raw).Exp() == e
    ensures Float32(Pack(sign, e % 0x100, f % 0x80_0000).raw).Frac() == f % 0x80_0000
  {
    var p := Pack(sign, e % 0x100, f % 0x80_0000);
    assert Float32(p.raw) == p;
  }

  /** Lines 139-170 for unequal exponent fields: both fractions shifted
      left 6, the smaller operand's with its implicit bit (if normal) and
      aligned by the sticky shift, and `zExp` the larger exponent. */
  method Align(a: Float32, b: Float32) returns (aFrac: U32, bFrac: U32, zExp: int)
    requires a.Exp() != b.Exp()
    ensures a.Exp() > b.Exp() ==> aFrac == a.Frac() * 64 && bFrac == AlignedSmall(a, b)
    ensures a.Exp() < b.Exp() ==> aFrac == AlignedSmall(a, b) && bFrac == b.Frac() * 64
    ensures zExp == Big(a, b).Exp()
  {
    aFrac := a.Frac();
    bFrac := b.Frac();
    var aExp: I32 := a.Exp();
    var bExp: I32 := b.Exp();
    var expDiff: I32 := aExp - bExp;
    aFrac := aFrac * 64;
    bFrac := bFrac * 64;
    if expDiff > 0 {
      if bExp == 0 {
        expDiff := expDiff - 1;
      } else {
        SetBit29(bFrac);
        bFrac := Or(bFrac, 0x2000_0000);
      }
      assert Small(a, b) == b && AlignCount(a, b) == expDiff && bFrac == SmallGuarded(b);
      bFrac := ShiftRightJamming(bFrac, expDiff);
      zExp := aExp;
    } else {
      if aExp == 0 {
        expDiff := expDiff + 1;
      } else {
        SetBit29(aFrac);
        aFrac := Or(aFrac, 0x2000_0000);
      }
      assert Small(a, b) == a && AlignCount(a, b) == -expDiff && aFrac == SmallGuarded(a);
      aFrac := ShiftRightJamming(aFrac, -expDiff);
      zExp := bExp;
    }
  }

  /** `add_ref(a, b)` as written, returning the bits the function computes.
      Equal non-zero exponents reach `assert(0)` (line 178). With both
      exponents 0 it returns `(zSign << 31) | ((aFrac + bFrac) >> 13)`; as
      `aFrac` and `bFrac` are the fractions shifted left 6, that is the sum
      of the fractions halved. Otherwise the bit-fields of lines 194-198
      keep the low 8 bits of `zExp` and the low 23 bits of `zFrac`. */
  method AddRef(a: Float32, b: Float32) returns (z: U32)
    requires a.Exp() != b.Exp() || a.Exp() == 0
    ensures a.Exp() == b.Exp() ==> z == a.Sign() * 0x8000_0000 + (a.Frac() + b.Frac()) / 128
    ensures a.Exp() != b.Exp() ==>
      && Float32(z).Sign() == a.Sign()
      && Float32(z).Exp() == RefExp(a, b)
      && Float32(z).Frac() == RefFrac(a, b) % 0x80_0000
  {
    var zSign := a.Sign();
    if a.Exp() == b.Exp() {
      if a.Exp() != 0 {
        assert false;
      }
      var aFrac: U32 := a.Frac() * 64;
      var bFrac: U32 := b.Frac() * 64;
      HalvedSubnormalSum(zSign, a.Frac(), b.Frac());
      z := Or(zSign * 0x8000_0000, Shr(aFrac + bFrac, 13));
      return;
    }
    var aFrac, bFrac, zExp := Align(a, b);
    assert aFrac + bFrac + 0x2000_0000 == RefSum(a, b);
    SetBit29(aFrac);
    aFrac := Or(aFrac, 0x2000_0000);
    var zFrac: U32 := (aFrac + bFrac) * 2;
    zExp := zExp - 1;
    if zFrac >= 0x8000_0000 {
      zFrac := aFrac + bFrac;
      zExp := zExp + 1;
    }
    assert zExp == RefExp(a, b) && zFrac == RefFrac(a, b);
    PackedFields(zSign, zExp, zFrac);
    z := Pack(zSign, zExp % 0x100, zFrac % 0x80_0000).raw;
  }

  /** `(sign << 31) | v` for a v whose bits 23 and up hold e - 1 and the
      24-bit significand m: adding m's leading bit moves the exponent to e,
      and an e of 256 meets the sign in bit 31. */
  lemma PackLeadingBit(sign: nat, e: nat, m: nat)
    requires sign <= 1 && 1 <= e <= 0x100 && 0x80_0000 <= m <= 0xFF_FFFF
    ensures Or(sign * 0x8000_0000, (e - 1) * 0x80_0000 + m) == Pack(sign, e, m - 0x80_0000).raw
  {
    var v := (e - 1) * 0x80_0000 + m;
    assert v == e * 0x80_0000 + (m - 0x80_0000);
    OrSignBit(sign, v);
    assert v >= 0x8000_0000 <==> e == 0x100;
  }

  /** The fields of a packed pattern. */
  lemma PackFieldsOf(sign: nat, e: nat, f: nat)
    requires sign <= 1 && e < 0x200 && f <= 0x7F_FFFF
    ensures Float32(Pack(sign, e, f).raw) == Pack(sign, e, f)
  {}

  /** The exponent of the corrected result: the larger exponent plus the
      carry. */
  function FixedExp(a: Float32, b: Float32): (e: nat)
    requires a.Exp() != b.Exp()
    ensures 1 <= e <= 0x100
  {
    Big(a, b).Exp() + (if RefCarries(a, b) then 1 else 0)
  }

  /** The significand of the corrected result: the sum cut to 24 bits. */
  function FixedSignificand(a: Float32, b: Float32): (m: nat)
    requires a.Exp() != b.Exp()
    ensures 0x80_0000 <= m <= 0xFF_FFFF
  {
    RefSum(a, b) / (if RefCarries(a, b) then 128 else 64)
  }

  /** Line 173 with the shift corrected packs the exact subnormal sum:
      its bit 23, if set, lands in the exponent field as exponent 1. */
  lemma FixedSubnormal(sign: nat, fa: nat, fb: nat)
    requires sign <= 1 && fa <= 0x7F_FFFF && fb <= 0x7F_FFFF
    ensures Or(sign * 0x8000_0000, Shr(fa * 64 + fb * 64, 6)) == sign * 0x8000_0000 + (fa + fb)
  {
    GuardedSum(fa, fb);
    OrSignBelow(sign, fa + fb);
  }

  /** Two fractions shifted left 6, added and shifted back right 6. */
  lemma GuardedSum(fa: nat, fb: nat)
    ensures Shr(fa * 64 + fb * 64, 6) == fa + fb
  {
    assert fa * 64 + fb * 64 == (fa + fb) * 64;
    UndoGuard(fa + fb);
  }

  /** A word below 2^24 under a sign bit, read as fields. */
  lemma SmallFields(sign: nat, s: nat)
    requires sign <= 1 && s <= 0xFF_FFFF
    ensures Float32(sign * 0x8000_0000 + s).Sign() == sign
    ensures Float32(sign * 0x8000_0000 + s).Exp() * 0x80_0000 + Float32(sign * 0x8000_0000 + s).Frac() == s
  {
    var q := s / 0x80_0000;
    var r := s % 0x80_0000;
    assert sign * 0x8000_0000 + s == (sign * 0x100 + q) * 0x80_0000 + r;
  }

  /** Line 201 packs the larger exponent plus the carry and the sum cut to
      24 bits, its leading bit added into the exponent field. */
  lemma FixedNormal(a: Float32, b: Float32)
    requires a.Exp() != b.Exp()
    ensures Or(a.Sign() * 0x8000_0000, RefExp(a, b) * 0x80_0000 + RefFrac(a, b) / 128)
         == Pack(a.Sign(), FixedExp(a, b), FixedSignificand(a, b) - 0x80_0000).raw
  {
    assert RefFrac(a, b) / 128 == FixedSignificand(a, b);
    assert RefExp(a, b) == FixedExp(a, b) - 1;
    PackLeadingBit(a.Sign(), FixedExp(a, b), FixedSignificand(a, b));
  }

  /** `add_ref` with its two packings corrected: line 173 shifts right by
      6, undoing the `<<= 6` of lines 151-152, and the result is the return
      of line 201, `(zSign << 31) | ((zExp << 23) + (zFrac >> 7))`, in place
      of the bit-fields of lines 194-198. Two subnormals then add exactly,
      a sum reaching 2^23 becoming the smallest normal, and otherwise the
      exponent is the larger one plus the carry and the significand is the
      sum cut to 24 bits. */
  function AddRefFixed(a: Float32, b: Float32): (z: U32)
    requires a.Exp() != b.Exp() || a.Exp() == 0
    ensures a.Exp() == b.Exp() ==>
      && Float32(z).Sign() == a.Sign()
      && Float32(z).Exp() * 0x80_0000 + Float32(z).Frac() == a.Frac() + b.Frac()
    ensures a.Exp() != b.Exp() ==>
      && Float32(z).Sign() == TopBit(a.Sign(), FixedExp(a, b))
      && Float32(z).Exp() == FixedExp(a, b) % 0x100
      && Float32(z).Frac() + 0x80_0000 == FixedSignificand(a, b)
  {
    if a.Exp() == b.Exp() then
      FixedSubnormal(a.Sign(), a.Frac(), b.Frac());
      SmallFields(a.Sign(), a.Frac() + b.Frac());
      Or(a.Sign() * 0x8000_0000, Shr(a.Frac() * 64 + b.Frac() * 64, 6))
    else
      FixedNormal(a, b);
      PackFieldsOf(a.Sign(), FixedExp(a, b), FixedSignificand(a, b) - 0x80_0000);
      Or(a.Sign() * 0x8000_0000, RefExp(a, b) * 0x80_0000 + RefFrac(a, b) / 128)
  }

  /** The two packings as written, on 1 + 2 and on the smallest subnormal
      added to itself: the first gives 1.0 (0x3F800000, the low fraction
      bits of `zFrac` land in the fraction field), the second 0 (the
      fraction sum is halved). Corrected, they give 3.0 (0x40400000) and
      twice the smallest subnormal. */
  method AddRefCounterexamples(one: Float32, two: Float32, tiny: Float32)
    returns (onePlusTwo: U32, onePlusTwoFixed: U32, tinyTwice: U32, tinyTwiceFixed: U32)
    requires one.raw == 0x3F80_0000 && two.raw == 0x4000_0000 && tiny.raw == 1
    ensures onePlusTwo == 0x3F80_0000 && onePlusTwoFixed == 0x4040_0000
    ensures tinyTwice == 0 && tinyTwiceFixed == 2
  {
    onePlusTwo := OnePlusTwoAsWritten(one, two);
    OnePlusTwoFixed(one, two);
    onePlusTwoFixed := AddRefFixed(one, two);
    TinyFields(tiny);
    tinyTwice := AddRef(tiny, tiny);
    tinyTwiceFixed := AddRefFixed(tiny, tiny);
    WordOfFields(Float32(tinyTwiceFixed), 0, 0, 2);
  }

  /** `add_ref(1.0f, 2.0f)` as written. */
  method OnePlusTwoAsWritten(one: Float32, two: Float32) returns (z: U32)
    requires one.raw == 0x3F80_0000 && two.raw == 0x4000_0000
    ensures z == 0x3F80_0000
  {
    OnePlusTwoSum(one, two);
    z := AddRef(one, two);
    WordOfFields(Float32(z), 0, 127, 0);
  }

  /** 1 + 2 with the packing of line 201 is 3. */
  lemma OnePlusTwoFixed(one: Float32, two: Float32)
    requires one.raw == 0x3F80_0000 && two.raw == 0x4000_0000
    ensures one.Exp() != two.Exp() && AddRefFixed(one, two) == 0x4040_0000
  {
    OnePlusTwoSum(one, two);
    assert AddRefFixed(one, two) == Or(0, 127 * 0x80_0000 + 0x6000_0000 / 128);
  }

  /** The smallest subnormal. */
  lemma TinyFields(tiny: Float32)
    requires tiny.raw == 1
    ensures tiny.Sign() == 0 && tiny.Exp() == 0 && tiny.Frac() == 1
  {}

  /** A pattern is determined by its fields. */
  lemma WordOfFields(x: Float32, sign: nat, e: nat, f: nat)
    requires x.Sign() == sign && x.Exp() == e && x.Frac() == f
    ensures x.raw == sign * 0x8000_0000 + e * 0x80_0000 + f
  {
    FieldsRoundTrip(x);
  }

  /** The sums `add_ref` forms for 1 + 2: 1.0's significand aligned one
      place right, plus 2.0's, with 6 guard bits; no carry. */
  lemma OnePlusTwoSum(one: Float32, two: Float32)
    requires one.raw == 0x3F80_0000 && two.raw == 0x4000_0000
    ensures one.Exp() != two.Exp()
    ensures RefSum(one, two) == 0x3000_0000 && !RefCarries(one, two)
    ensures RefExp(one, two) == 127 && RefFrac(one, two) == 0x6000_0000
    ensures one.Sign() == 0 && RefFrac(one, two) % 0x80_0000 == 0
    ensures FixedExp(one, two) == 128 && FixedSignificand(one, two) == 0xC0_0000
  {
    assert one.Exp() == 127 && one.Frac() == 0 && two.Exp() == 128 && two.Frac() == 0;
    assert AlignCount(one, two) == 1 && SmallGuarded(one) == 0x2000_0000;
    ShrConst(0x2000_0000);
    assert LowBits(0x2000_0000, 1) == 0;
  }
}
