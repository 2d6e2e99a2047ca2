/** The pure helpers of snippets/float.c: the field macros, the sticky right
    shift `shift32RightJamming` and the truncating toy `add`. A `float`
    argument read through a `uint32_t` or bit-field pointer is its raw
    binary32 pattern, so every operand here is a `Float32` or its `raw`
    word. C `int` values are integers in [-2^31, 2^31); an `int` converted
    to `u32` is taken modulo 2^32, and a shift of a 32-bit pattern wraps
    modulo 2^32. */
module FloatC {
  import opened Bits
  import opened Binary32

  /** The values of a C `int`. */
  type I32 = x: int | -0x8000_0000 <= x < 0x8000_0000

  /** Conversion of an integer to `u32`: modulo 2^32. */
  function AsU32(v: int): (u: U32)
    ensures 0 <= v < 0x1_0000_0000 ==> u == v
  {
    v % 0x1_0000_0000
  }

  /** `exponent(x)`: `(x << 1) >> 24` on u32 (line 20). */
  function Exponent(x: U32): nat {
    AsU32(x * 2) / 0x100_0000
  }

  /** `mantissa(x)`: `(x << 9) >> 9` (line 21). */
  function Mantissa(x: U32): nat {
    AsU32(x * 512) / 512
  }

  /** `sign(x)`: `x >> 31` (line 22). */
  function SignOf(x: U32): nat {
    x / 0x8000_0000
  }

  /** The macros read the same fields as the accessors of src/lib.rs. */
  lemma MacrosReadFields(x: Float32)
    ensures Exponent(x.raw) == x.Exp()
    ensures Mantissa(x.raw) == x.Frac()
    ensures SignOf(x.raw) == x.Sign()
  {
    var h := x.raw / 0x8000_0000;
    var l := x.raw % 0x8000_0000;
    assert x.raw * 2 == 0x1_0000_0000 * h + 2 * l;
    assert AsU32(x.raw * 2) == 2 * l;
    var q := x.raw / 0x80_0000;
    var f := x.raw % 0x80_0000;
    assert x.raw * 512 == 0x1_0000_0000 * q + 512 * f;
    assert AsU32(x.raw * 512) == 512 * f;
    assert l / 0x80_0000 == q % 0x100;
  }

  /** 2^32, the modulus of a 32-bit word. */
  lemma Pow2Of32()
    ensures Pow2(32) == 0x1_0000_0000
  {
    assert Pow2(8) == 256;
    Pow2Add(8, 8);
    Pow2Add(16, 16);
  }

  /** The widths of the binary32 fields as powers of two. */
  lemma Pow2Widths()
    ensures Pow2(8) == 0x100
    ensures Pow2(23) == 0x80_0000
    ensures Pow2(29) == 0x2000_0000
    ensures Pow2(31) == 0x8000_0000
  {
    assert Pow2(8) == 256;
    assert Pow2(7) == 128;
    Pow2Add(8, 8);
    Pow2Add(16, 7);
    Pow2Add(16, 8);
    Pow2Add(24, 7);
    Pow2Add(24, 5);
  }

  /** The shift by 23 and the 23-bit mask are the division and remainder. */
  lemma ShrBy23(mant: nat)
    ensures Shr(mant, 23) == mant / 0x80_0000 && LowBits(mant, 23) == mant % 0x80_0000
  {
    Pow2Widths();
    ShrLowSplit(mant, 23);
    var s := Shr(mant, 23);
    var l := LowBits(mant, 23);
    assert mant == s * 0x80_0000 + l && l < 0x80_0000;
  }

  /** The shift by 31 and the 31-bit mask are the division and remainder. */
  lemma ShrBy31(v: nat)
    ensures Shr(v, 31) == v / 0x8000_0000 && LowBits(v, 31) == v % 0x8000_0000
  {
    Pow2Widths();
    ShrLowSplit(v, 31);
    var s := Shr(v, 31);
    var l := LowBits(v, 31);
    assert v == s * 0x8000_0000 + l && l < 0x8000_0000;
  }

  /** `(s << 31) | v` for a sign bit s and a 32-bit v: bit 31 is set when
      either has it set, the bits below are v's. */
  lemma OrSignBit(s: nat, v: nat)
    requires s <= 1 && v < 0x1_0000_0000
    ensures Or(s * 0x8000_0000, v) == (if s == 1 || v >= 0x8000_0000 then 0x8000_0000 else 0) + v % 0x8000_0000
  {
    Pow2Widths();
    OrSplit(s, 0, v, 31);
    ShrBy31(v);
    assert s * 0x8000_0000 + 0 == s * 0x8000_0000;
    assert Or(0, LowBits(v, 31)) == LowBits(v, 31);
    OrOfBits(s, v / 0x8000_0000);
  }

  /** `(s << 31) | v` for a v below 2^31 is the sum. */
  lemma OrSignBelow(s: nat, v: nat)
    requires s <= 1 && v < 0x8000_0000
    ensures Or(s * 0x8000_0000, v) == s * 0x8000_0000 + v
  {
    OrSignBit(s, v);
  }

  lemma OrOfBits(s: nat, t: nat)
    requires s <= 1 && t <= 1
    ensures Or(s, t) == if s == 1 || t == 1 then 1 else 0
  {
    assert Or(1, 1) == 1;
  }

  /** `>>` on a signed `int`: the compilers the snippet targets shift in
      copies of the sign bit, so a negative value is the complement of the
      shifted complement. The result is a divided by 2^n, rounded down
      (Dafny's `/` rounds down for a positive divisor). */
  function ArithShiftRight(a: int, n: nat): (r: int)
    ensures r == a / Pow2(n)
  {
    ShrIsDiv(if a >= 0 then a else -1 - a, n);
    if a >= 0 then Shr(a, n)
    else
      ComplementDiv(-1 - a, Pow2(n));
      -1 - Shr(-1 - a, n)
  }

  /** A shift right by n is a division by 2^n. */
  lemma ShrIsDiv(x: nat, n: nat)
    ensures Shr(x, n) == x / Pow2(n)
  {
    ShrLowSplit(x, n);
    DivUnique(x, Pow2(n), Shr(x, n), LowBits(x, n));
  }

  /** Dividing the complement `-1 - x` rounds down to the complement of
      the quotient. */
  lemma ComplementDiv(x: nat, p: nat)
    requires p >= 1
    ensures (-1 - x) / p == -1 - x / p
  {
    var q := x / p;
    var m := x % p;
    assert x == q * p + m;
    assert -1 - x == (-1 - q) * p + (p - 1 - m);
    DivUnique(-1 - x, p, -1 - q, p - 1 - m);
  }

  /** The quotient of a by p is the q of any a == q * p + r with 0 <= r < p. */
  lemma DivUnique(a: int, p: nat, q: int, r: int)
    requires p >= 1 && a == q * p + r && 0 <= r < p
    ensures a / p == q
  {
    var t := a / p;
    MulDiff(t, q, p);
    if t > q {
      MulAtLeast(t - q, p);
    }
    MulDiff(q, t, p);
    if q > t {
      MulAtLeast(q - t, p);
    }
  }

  lemma MulDiff(t: int, q: int, p: nat)
    ensures (t - q) * p == t * p - q * p
  {}

  lemma MulAtLeast(k: int, p: nat)
    requires k >= 1
    ensures k * p >= p
  {}

  /** `v | b` for a bit b: sets bit 0 (the two's-complement bits of a
      negative v end in the same bit as v % 2). */
  function OrBit(v: int, b: nat): (r: int)
    requires b <= 1
    ensures b == 0 ==> r == v
    ensures b == 1 ==> r % 2 == 1 && (r == v || r == v + 1)
  {
    if b == 1 && v % 2 == 0 then v + 1 else v
  }

  /** `u << k` on a 32-bit pattern. */
  function ShiftLeft32(u: U32, k: nat): U32 {
    AsU32(u * Pow2(k))
  }

  /** The test of line 127 as written: `(a << ((-count) & 31)) != 0`, the
      `& 31` of a two's-complement value being its remainder modulo 32. A
      shift that carries a set bit out of an `int` is undefined in ISO C;
      it is taken here as the shift of the 32-bit pattern, wrapping. */
  predicate ShiftedOutTest(a: I32, count: nat) {
    ShiftLeft32(AsU32(a), (-(count as int)) % 32) != 0
  }

  /** Some of the count lowest bits of a's 32-bit pattern are set. */
  predicate SomeLowBit(a: I32, count: nat) {
    LowBits(AsU32(a), count) != 0
  }

  lemma MulSplit(s: nat, p: nat, l: nat, q: nat)
    ensures (s * p + l) * q == s * (p * q) + l * q
  {}

  lemma MulBelow(l: nat, p: nat, q: nat)
    requires l < p && q >= 1
    ensures l * q < p * q
    ensures l * q == 0 <==> l == 0
  {}

  lemma WrapDropsHigh(s: nat, v: nat)
    requires v < 0x1_0000_0000
    ensures AsU32(s * 0x1_0000_0000 + v) == v
  {}

  /** A shift left by 32 - k wraps away every bit but the k lowest. */
  lemma LowBitsSurvive(u: U32, k: nat)
    requires 0 < k < 32
    ensures ShiftLeft32(u, 32 - k) != 0 <==> LowBits(u, k) != 0
  {
    ShrLowSplit(u, k);
    Pow2Add(k, 32 - k);
    Pow2Of32();
    WrapSplit(u, Shr(u, k), LowBits(u, k), Pow2(k), Pow2(32 - k));
  }

  /** For u == s * p + l with l < p and p * q == 2^32, `u * q` wrapped to
      32 bits is `l * q`, which is 0 only when l is. */
  lemma WrapSplit(u: nat, s: nat, l: nat, p: nat, q: nat)
    requires u == s * p + l && l < p && q >= 1 && p * q == 0x1_0000_0000
    ensures l * q < 0x1_0000_0000
    ensures AsU32(u * q) == l * q
    ensures l * q == 0 <==> l == 0
  {
    MulSplit(s, p, l, q);
    MulBelow(l, p, q);
    WrapDropsHigh(s, l * q);
  }

  /** `(-count) & 31` is `32 - count` for 0 < count < 32, so the shift
      left keeps exactly the bits the shift right drops. */
  lemma ShiftedOutBits(a: I32, count: nat)
    requires 0 < count < 32
    ensures ShiftedOutTest(a, count) <==> SomeLowBit(a, count)
  {
    assert (-(count as int)) % 32 == 32 - count;
    LowBitsSurvive(AsU32(a), count);
  }

  /** The bit ORed into bit 0 by line 127, the C test
      `(a << ((-count) & 31)) != 0` as a bit: 1 exactly when one of the
      count lowest bits of a's pattern, the bits the shift drops, is set. */
  function StickyOf(a: I32, count: nat): (s: nat)
    requires 0 < count < 32
    ensures s <= 1
    ensures s == 1 <==> LowBits(AsU32(a), count) != 0
  {
    ShiftedOutBits(a, count);
    if ShiftedOutTest(a, count) then 1 else 0
  }

  /** `shift32RightJamming(a, count)` (lines 124-129): `a` shifted right by
      count, with every bit shifted out ORed into bit 0 of the result, which
      is returned as a `u32`. A negative count would be a shift by a
      negative amount, which C leaves undefined. */
  function ShiftRightJamming(a: I32, count: I32): (r: U32)
    requires count >= 0
    ensures count == 0 ==> r == AsU32(a)
    ensures 0 < count < 32 ==> r == AsU32(OrBit(ArithShiftRight(a, count), StickyOf(a, count)))
    ensures count >= 32 ==> (r == 1 <==> a != 0) && r <= 1
  {
    if count == 0 then AsU32(a)
    else if count < 32 then
      AsU32(OrBit(ArithShiftRight(a, count), StickyOf(a, count)))
    else if a != 0 then 1 else 0
  }

  /** For a non-negative argument and 0 < count < 32, the jamming shift
      keeps every bit above bit 0 of the plain shift, and its bit 0 is set
      exactly when bit count or any bit below it is. */
  lemma JammingBits(a: nat, count: nat)
    requires a < 0x8000_0000 && 0 < count < 32
    ensures ShiftRightJamming(a, count) / 2 == Shr(a, count + 1)
    ensures Odd(ShiftRightJamming(a, count)) <==> Bit(a, count) || LowBits(a, count) != 0
  {
    ShrLast(a, count);
    ShrNoLarger(a, count);
  }

  /** A non-negative argument jams to zero exactly when it is zero: the
      sticky shift never loses the fact that something was there. */
  lemma JammingKeepsNonZero(a: nat, count: nat)
    requires a < 0x8000_0000 && count < 0x8000_0000
    ensures ShiftRightJamming(a, count) == 0 <==> a == 0
  {
    if 0 < count < 32 {
      ShrLowSplit(a, count);
      ShrNoLarger(a, count);
    }
  }

  /** When nothing is shifted out, the jamming shift is the plain shift. */
  lemma JammingExact(a: nat, count: nat)
    requires a < 0x8000_0000 && 0 < count < 32 && LowBits(a, count) == 0
    ensures ShiftRightJamming(a, count) == Shr(a, count)
  {
    ShrNoLarger(a, count);
  }

  lemma MulAtLeastDouble(s: nat, p: nat)
    requires p >= 2
    ensures s * p >= 2 * s
  {}

  /** The jamming shift never makes a non-negative argument larger. */
  lemma JammingNoLarger(a: nat, count: nat)
    requires a < 0x8000_0000 && count < 0x8000_0000
    ensures ShiftRightJamming(a, count) <= a
  {
    if 0 < count < 32 {
      ShrLowSplit(a, count);
      ShrNoLarger(a, count);
      assert Pow2(count) == 2 * Pow2(count - 1);
      MulAtLeastDouble(Shr(a, count), Pow2(count));
    }
  }

  /** The larger of two exponent fields, `MAX(xi.exp, yi.exp)` (line 209). */
  function ToyExp(x: Float32, y: Float32): (e: nat)
    ensures e <= 0xFF && e >= x.Exp() && e >= y.Exp()
    ensures e == x.Exp() || e == y.Exp()
  {
    if x.Exp() > y.Exp() then x.Exp() else y.Exp()
  }

  /** What the toy `add` demands: both significands are shifted right by the
      distance to the larger exponent, and an `unsigned int` shift by 32 or
      more is undefined. */
  predicate ToyInRange(x: Float32, y: Float32) {
    ToyExp(x, y) - x.Exp() < 32 && ToyExp(x, y) - y.Exp() < 32
  }

  /** `xi_frac` and `yi_frac` (lines 211-212): the fraction with the implicit
      bit set, `frac | (1 << 23)`, shifted right by the distance to the
      larger exponent. */
  function ToyAligned(x: Float32, e: nat): nat
    requires e >= x.Exp()
  {
    Shr(x.Frac() + 0x80_0000, e - x.Exp())
  }

  /** `xi_frac + yi_frac`. */
  function ToySum(x: Float32, y: Float32): nat {
    ToyAligned(x, ToyExp(x, y)) + ToyAligned(y, ToyExp(x, y))
  }

  /** `carry` of line 213. */
  predicate ToyCarries(x: Float32, y: Float32) {
    ToySum(x, y) > 0xFF_FFFF
  }

  /** The toy `add` (lines 205-222): sign 0, the larger exponent plus the
      carry out of 24 bits, and the sum shifted right by the carry and cut to
      23 fraction bits. The bit-fields keep the low 8 exponent bits and the
      low 23 fraction bits. */
  function ToyAdd(x: Float32, y: Float32): (r: Float32)
    requires ToyInRange(x, y)
    ensures r.Sign() == 0
    ensures r.Exp() == (ToyExp(x, y) + (if ToyCarries(x, y) then 1 else 0)) % 0x100
    ensures r.Frac() == (if ToyCarries(x, y) then ToySum(x, y) / 2 else ToySum(x, y)) % 0x80_0000
  {
    var carry := if ToyCarries(x, y) then 1 else 0;
    var sum := ToySum(x, y);
    var e := (ToyExp(x, y) + carry) % 0x100;
    assert e % 0x100 == e;
    TopBitBelow(0, e);
    Pack(0, e, (if carry == 1 then sum / 2 else sum) % 0x80_0000)
  }

  /** A shift by at least one of a value below 2^30 lands below 2^29, the
      sticky bit included. */
  lemma JammingHalves(a: nat, count: nat)
    requires a < 0x4000_0000 && 1 <= count < 0x8000_0000
    ensures ShiftRightJamming(a, count) < 0x2000_0000
  {
    if count < 32 {
      JammingBits(a, count);
      ShrConst(a);
      ShrLast(a, 1);
      ShrShr(a, 2, count - 1);
      ShrNoLarger(Shr(a, 2), count - 1);
    }
  }
}
