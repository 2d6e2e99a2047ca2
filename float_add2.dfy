/** `add2` of snippets/float.c (lines 24-122): an adder on raw binary32
    patterns read with the `exponent`, `mantissa` and `sign` macros. It first
    dispatches NaN and infinite operands, then, for operands of the same sign,
    adds the mantissas (without their implicit bits) shifted left once, the
    smaller one aligned to the larger, and ORs sign, exponent and mantissa
    together. The path for operands of different signs is not part of this
    model. On the paths modelled every local is assigned once, so `add2` is a
    function here. */
module FloatAdd2 {
  import opened Bits
  import opened Binary32
  import opened FloatC

  /** `!(exponent(x) ^ 0xFF)`: the exponent field is all ones. */
  predicate ExpAllOnes(x: U32) {
    Exponent(x) == 0xFF
  }

  /** The NaN test of lines 34-35: exponent all ones, mantissa non-zero. */
  predicate NaNBits(x: U32) {
    ExpAllOnes(x) && Mantissa(x) != 0
  }

  /** `different_sign` of line 31. */
  predicate DifferentSign(x: U32, y: U32) {
    SignOf(x) != SignOf(y)
  }

  /** `0x7F800000 + 1`, returned for an infinity plus the opposite infinity
      (line 42). */
  const InfMinusInf: U32 := 0x7F80_0001

  datatype Option<T> = None | Some(value: T)

  /** The special-case dispatch of lines 33-48: the value returned when an
      operand has an all-ones exponent, None when both are finite. */
  function Dispatch(x: U32, y: U32): (r: Option<U32>)
    ensures r.None? <==> !ExpAllOnes(x) && !ExpAllOnes(y)
  {
    if NaNBits(x) then Some(x)
    else if NaNBits(y) then Some(y)
    else if ExpAllOnes(x) && ExpAllOnes(y) then
      Some(if DifferentSign(x, y) then InfMinusInf else x)
    else if ExpAllOnes(x) then Some(x)
    else if ExpAllOnes(y) then Some(y)
    else None
  }

  /** `exp_difference` for operands of the same sign (lines 58-59). */
  function ExpDifference(x: U32, y: U32): (d: nat)
    ensures Exponent(x) == Exponent(y) + d || Exponent(y) == Exponent(x) + d
  {
    if Exponent(x) > Exponent(y) then Exponent(x) - Exponent(y) else Exponent(y) - Exponent(x)
  }

  /** `x_bigger_abs` (lines 63-67): exponent first, then mantissa. */
  predicate XBiggerAbs(x: U32, y: U32) {
    if Exponent(x) > Exponent(y) then true
    else if Exponent(x) < Exponent(y) then false
    else Mantissa(x) > Mantissa(y)
  }

  /** What the modelled part of `add2` demands: an operand is special, or
      both have the same sign and exponents less than 32 apart, since a shift
      of a `uint32_t` by 32 or more is undefined in C. */
  predicate Add2Defined(x: U32, y: U32) {
    ExpAllOnes(x) || ExpAllOnes(y) || (!DifferentSign(x, y) && ExpDifference(x, y) < 32)
  }

  /** `result_exponent` of lines 75 and 79: the exponent of the operand
      judged larger, which is the larger exponent. */
  function SameSignExponent(x: U32, y: U32): (e: nat)
    ensures e == Exponent(x) || e == Exponent(y)
    ensures e >= Exponent(x) && e >= Exponent(y)
    ensures XBiggerAbs(x, y) ==> e == Exponent(x)
  {
    if XBiggerAbs(x, y) then Exponent(x) else Exponent(y)
  }

  /** `result_mantissa` of lines 73-80 as written. `<<` binds tighter than
      `+` only on its own side: `+` binds tighter than `>>`, so line 74 shifts
      the whole sum right, the larger mantissa included, where line 78
      shifts only the smaller one. */
  function SameSignMantissa(x: U32, y: U32): (m: nat)
    requires ExpDifference(x, y) < 32
    ensures m < 0x200_0000
  {
    ShrNoLarger(Mantissa(x) * 2 + Mantissa(y) * 2, ExpDifference(x, y));
    ShrNoLarger(Mantissa(x) * 2, ExpDifference(x, y));
    if XBiggerAbs(x, y) then Shr(Mantissa(x) * 2 + Mantissa(y) * 2, ExpDifference(x, y))
    else Mantissa(y) * 2 + Shr(Mantissa(x) * 2, ExpDifference(x, y))
  }

  /** `result_mantissa` with line 74 parenthesised as line 78 is: the
      larger mantissa doubled plus the smaller one doubled and aligned. */
  function FixedSameSignMantissa(x: U32, y: U32): (m: nat)
    requires ExpDifference(x, y) < 32
    ensures m < 0x200_0000
  {
    ShrNoLarger(Mantissa(y) * 2, ExpDifference(x, y));
    ShrNoLarger(Mantissa(x) * 2, ExpDifference(x, y));
    if XBiggerAbs(x, y) then Mantissa(x) * 2 + Shr(Mantissa(y) * 2, ExpDifference(x, y))
    else Mantissa(y) * 2 + Shr(Mantissa(x) * 2, ExpDifference(x, y))
  }

  /** `(sign << 31) | (exp << 23)` for an 8-bit exponent: disjoint bits. */
  lemma SignOrExp(sign: nat, exp: nat)
    requires sign <= 1 && exp <= 0xFF
    ensures Or(sign * 0x8000_0000, exp * 0x80_0000) == (sign * 0x100 + exp) * 0x80_0000
  {
    Pow2Widths();
    SmallShr(exp * 0x80_0000, 31);
    OrSplit(sign, 0, exp * 0x80_0000, 31);
    assert Or(sign, 0) == sign;
    assert sign * 0x8000_0000 + 0 == sign * 0x8000_0000;
  }

  /** `| mant` on a value shifted left by 23: the bits of mant from 23 up
      join the shifted value, its 23 low bits fill the gap. */
  lemma OrMantissa(w: nat, mant: nat)
    ensures Or(w * 0x80_0000, mant) == Or(w, mant / 0x80_0000) * 0x80_0000 + mant % 0x80_0000
  {
    Pow2Widths();
    OrSplit(w, 0, mant, 23);
    ShrBy23(mant);
    assert w * 0x80_0000 + 0 == w * 0x80_0000;
    assert Or(0, LowBits(mant, 23)) == LowBits(mant, 23);
  }

  /** A sign bit above an 8-bit exponent stays apart from the small value
      ORed into the exponent. */
  lemma OrBelowSign(sign: nat, exp: nat, q: nat)
    requires sign <= 1 && exp <= 0xFF && q <= 0xFF
    ensures Or(sign * 0x100 + exp, q) == sign * 0x100 + Or(exp, q)
    ensures Or(exp, q) <= 0xFF
  {
    Pow2Widths();
    SmallShr(q, 8);
    OrSplit(sign, exp, q, 8);
    assert Or(sign, 0) == sign;
    OrBelow(exp, q, 8);
  }

  /** `a | b | c` for the three parts of line 120 splits into the sign bit,
      the exponent field ORed with the mantissa's bits 23 and up, and the
      mantissa's 23 low bits. */
  lemma PackOr(sign: nat, exp: nat, mant: nat)
    requires sign <= 1 && exp <= 0xFF && mant < 0x200_0000
    ensures Or(exp, mant / 0x80_0000) <= 0xFF
    ensures Or(Or(sign * 0x8000_0000, exp * 0x80_0000), mant)
         == Pack(sign, Or(exp, mant / 0x80_0000), mant % 0x80_0000).raw
  {
    var q := mant / 0x80_0000;
    var f := mant % 0x80_0000;
    SignOrExp(sign, exp);
    OrMantissa(sign * 0x100 + exp, mant);
    OrBelowSign(sign, exp, q);
    PackBelowSign(sign, Or(exp, q), f);
  }

  lemma PackBelowSign(sign: nat, e: nat, f: nat)
    requires sign <= 1 && e <= 0xFF && f <= 0x7F_FFFF
    ensures (sign * 0x100 + e) * 0x80_0000 + f == Pack(sign, e, f).raw
  {
    assert TopBit(sign, e) == sign;
  }

  /** `result_sign << 31 | result_exponent << 23 | result_mantissa` (line
      120): the mantissa's bits 23 and 24 are ORed into the low bits of the
      exponent field. */
  function PackOr3(sign: nat, exp: nat, mant: nat): (r: U32)
    requires sign <= 1 && exp <= 0xFF && mant < 0x200_0000
    ensures Float32(r).Sign() == sign
    ensures Float32(r).Exp() == Or(exp, mant / 0x80_0000)
    ensures Float32(r).Frac() == mant % 0x80_0000
  {
    var e := Or(exp, mant / 0x80_0000);
    PackOr(sign, exp, mant);
    TopBitBelow(sign, e);
    var p := Pack(sign, e, mant % 0x80_0000);
    assert Float32(p.raw) == p;
    Or(Or(sign * 0x8000_0000, exp * 0x80_0000), mant)
  }

  /** `add2(x, y)` as written, on the dispatch and the same-sign path. */
  function Add2(x: U32, y: U32): (r: U32)
    requires Add2Defined(x, y)
    ensures NaNBits(x) ==> r == x
    ensures !NaNBits(x) && NaNBits(y) ==> r == y
    ensures !NaNBits(x) && !NaNBits(y) && ExpAllOnes(x) && ExpAllOnes(y) ==>
      r == (if DifferentSign(x, y) then InfMinusInf else x)
    ensures !NaNBits(x) && ExpAllOnes(x) && !ExpAllOnes(y) ==> r == x
    ensures !NaNBits(y) && !ExpAllOnes(x) && ExpAllOnes(y) ==> r == y
    ensures !ExpAllOnes(x) && !ExpAllOnes(y) ==>
      && Float32(r).Sign() == SignOf(x)
      && Float32(r).Exp() == Or(SameSignExponent(x, y), SameSignMantissa(x, y) / 0x80_0000)
      && Float32(r).Frac() == SameSignMantissa(x, y) % 0x80_0000
  {
    match Dispatch(x, y)
    case Some(v) => v
    case None =>
      assert SignOf(x) <= 1;
      PackOr3(SignOf(x), SameSignExponent(x, y), SameSignMantissa(x, y))
  }

  /** `add2` with line 74 parenthesised as line 78. */
  function Add2Fixed(x: U32, y: U32): (r: U32)
    requires Add2Defined(x, y)
    ensures Dispatch(x, y).Some? ==> r == Dispatch(x, y).value
    ensures !ExpAllOnes(x) && !ExpAllOnes(y) ==>
      && Float32(r).Sign() == SignOf(x)
      && Float32(r).Exp() == Or(SameSignExponent(x, y), FixedSameSignMantissa(x, y) / 0x80_0000)
      && Float32(r).Frac() == FixedSameSignMantissa(x, y) % 0x80_0000
  {
    match Dispatch(x, y)
    case Some(v) => v
    case None =>
      assert SignOf(x) <= 1;
      PackOr3(SignOf(x), SameSignExponent(x, y), FixedSameSignMantissa(x, y))
  }

  /** The dispatch against sections 6.1, 6.2 and 7.2 of IEEE 754-2008: a
      NaN operand gives a NaN, the sum of opposite infinities is the invalid
      operation and gives a NaN, and an infinity plus a finite value or the
      same infinity is that infinity. */
  lemma Add2SpecialValues(x: U32, y: U32)
    requires Add2Defined(x, y)
    ensures Float32(x).IsNaN() || Float32(y).IsNaN() ==> Float32(Add2(x, y)).IsNaN()
    ensures Float32(x).IsInfinite() && Float32(y).IsInfinite() && Float32(x).Sign() != Float32(y).Sign() ==>
      Float32(Add2(x, y)).IsNaN()
    ensures Float32(x).IsInfinite() && !Float32(y).IsNaN() && !Float32(y).IsInfinite() ==> Add2(x, y) == x
    ensures Float32(y).IsInfinite() && !Float32(x).IsNaN() && !Float32(x).IsInfinite() ==> Add2(x, y) == y
    ensures Float32(x).IsInfinite() && Float32(y).IsInfinite() && Float32(x).Sign() == Float32(y).Sign() ==>
      Add2(x, y) == x == y
  {
    MacrosReadFields(Float32(x));
    MacrosReadFields(Float32(y));
    assert Float32(InfMinusInf).IsNaN();
    if Float32(x).IsInfinite() && Float32(y).IsInfinite() && Float32(x).Sign() == Float32(y).Sign() {
      FieldsRoundTrip(Float32(x));
      FieldsRoundTrip(Float32(y));
    }
  }

  /** Line 74 as written: 1.5 + 0.75 and 0.75 + 1.5 differ, because with x
      the larger operand the larger mantissa is shifted out of place too. */
  lemma Add2NotCommutative()
    ensures Add2(0x3FC0_0000, 0x3F40_0000) == 0x3F80_0000
    ensures Add2(0x3F40_0000, 0x3FC0_0000) == 0x3FC0_0000
  {
    var x, y := 0x3FC0_0000, 0x3F40_0000;
    assert Exponent(x) == 127 && Mantissa(x) == 0x40_0000 && SignOf(x) == 0;
    assert Exponent(y) == 126 && Mantissa(y) == 0x40_0000 && SignOf(y) == 0;
    ShrConst(0x100_0000);
    ShrConst(0x80_0000);
    assert SameSignMantissa(x, y) == 0x80_0000;
    assert SameSignMantissa(y, x) == 0xC0_0000;
    assert Or(127, 1) == 127;
    FieldsRoundTrip(Float32(Add2(x, y)));
    FieldsRoundTrip(Float32(Add2(y, x)));
  }

  /** With line 74 parenthesised, the same 1.5 + 0.75 keeps the larger
      mantissa in place. */
  lemma Add2FixedExample()
    ensures Add2Fixed(0x3FC0_0000, 0x3F40_0000) == Add2Fixed(0x3F40_0000, 0x3FC0_0000) == 0x3FC0_0000
  {
    var x, y := 0x3FC0_0000, 0x3F40_0000;
    assert Exponent(x) == 127 && Mantissa(x) == 0x40_0000 && SignOf(x) == 0;
    assert Exponent(y) == 126 && Mantissa(y) == 0x40_0000 && SignOf(y) == 0;
    ShrConst(0x80_0000);
    assert FixedSameSignMantissa(x, y) == 0xC0_0000;
    assert Or(127, 1) == 127;
    FieldsRoundTrip(Float32(Add2Fixed(x, y)));
    Add2FixedCommutes(x, y);
  }

  /** With line 74 parenthesised, `add2` is commutative whenever neither
      operand is a NaN (a NaN operand is returned as it is, so two NaNs with
      different payloads give different results in the two orders). */
  lemma Add2FixedCommutes(x: U32, y: U32)
    requires Add2Defined(x, y) && !NaNBits(x) && !NaNBits(y)
    ensures Add2Defined(y, x)
    ensures Add2Fixed(x, y) == Add2Fixed(y, x)
  {
    if ExpAllOnes(x) && ExpAllOnes(y) && !DifferentSign(x, y) {
      MacrosReadFields(Float32(x));
      MacrosReadFields(Float32(y));
      FieldsRoundTrip(Float32(x));
      FieldsRoundTrip(Float32(y));
    } else if !ExpAllOnes(x) && !ExpAllOnes(y) {
      assert FixedSameSignMantissa(x, y) == FixedSameSignMantissa(y, x);
      assert SameSignExponent(x, y) == SameSignExponent(y, x);
    }
  }
}
