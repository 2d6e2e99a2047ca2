/** The `Float32` value type of src/lib.rs: a raw 32-bit pattern read through
    the binary32 layout of section 3.4 of IEEE 754-2008 (bit 31 the sign,
    bits 30..23 the biased exponent, bits 22..0 the fraction).

    Unsigned machine words are held as bounded naturals: a right shift by a
    constant k is a division by 2^k and a mask of the k lowest bits is the
    remainder modulo 2^k. */
module Binary32 {

  /** The values of a u32. */
  type U32 = x: int | 0 <= x < 0x1_0000_0000

  /** A binary32 value held as its raw bit pattern; `raw` is the source's `raw()`.
      Converting from and to a native f32 is a bit-for-bit reinterpretation, so
      both conversions are this constructor and this destructor. */
  datatype Float32 = Float32(raw: U32) {

    /** `self.0 >> 31` */
    function Sign(): (s: nat)
      ensures s <= 1
      ensures s == 1 <==> raw >= 0x8000_0000
    {
      raw / 0x8000_0000
    }

    /** `(self.0 >> 23) & 0xFF` */
    function Exp(): (e: nat)
      ensures e <= 0xFF
    {
      (raw / 0x80_0000) % 0x100
    }

    /** `self.0 & 0x7FFFFF` */
    function Frac(): (f: nat)
      ensures f <= 0x7F_FFFF
    {
      raw % 0x80_0000
    }

    /** Exponent field all ones and a non-zero fraction. */
    predicate IsNaN() {
      Exp() == 0xFF && Frac() != 0
    }

    /** Exponent field all ones and a zero fraction. */
    predicate IsInfinite() {
      Exp() == 0xFF && Frac() == 0
    }
  }

  /** The top bit of `(sign << 31) | (exp << 23)`: the sign, or bit 8 of an
      exponent that has overflowed its field. */
  function TopBit(sign: nat, exp: nat): (b: nat)
    ensures b <= 1
    ensures b == 1 <==> sign == 1 || exp >= 0x100
  {
    if sign == 1 || exp >= 0x100 then 1 else 0
  }

  /** Below exponent 256 the top bit is the sign. */
  lemma TopBitBelow(sign: nat, exp: nat)
    requires sign <= 1 && exp < 0x100
    ensures TopBit(sign, exp) == sign
  {}

  /** The packing `(sign << 31) | (exp << 23) | frac` on u32 that both adders of
      src/lib.rs end with. The three parts occupy disjoint bits except that an
      exponent of 256 or more spills into the sign bit, where the `|` merges
      the two. */
  function Pack(sign: nat, exp: nat, frac: nat): (r: Float32)
    requires sign <= 1 && exp < 0x200 && frac <= 0x7F_FFFF
    ensures r.Frac() == frac
    ensures r.Exp() == exp % 0x100
    ensures r.Sign() == TopBit(sign, exp)
  {
    Float32(TopBit(sign, exp) * 0x8000_0000 + (exp % 0x100) * 0x80_0000 + frac)
  }

  /** The three fields reconstruct the pattern they were read from. */
  lemma FieldsRoundTrip(x: Float32)
    ensures Pack(x.Sign(), x.Exp(), x.Frac()) == x
  {
    assert x.raw / 0x8000_0000 == (x.raw / 0x80_0000) / 0x100;
  }
}
