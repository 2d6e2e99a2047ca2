/** Bit-level vocabulary of the adders on unsigned words held as naturals:
    powers of two, the right shift `x >> n`, the mask of the n lowest bits
    `x & ((1 << n) - 1)`, and single bits. Shifts and masks by a variable
    amount are defined one bit at a time, so that facts about them are
    proved by induction on the amount. */
module Bits {

  /** `1 << n`. */
  function Pow2(n: nat): (p: nat)
    ensures p >= 1
  {
    if n == 0 then 1 else 2 * Pow2(n - 1)
  }

  /** `x >> n`: n times the lowest bit dropped. */
  function Shr(x: nat, n: nat): nat {
    if n == 0 then x else Shr(x / 2, n - 1)
  }

  /** `x & ((1 << n) - 1)`: the n lowest bits of x. */
  function LowBits(x: nat, n: nat): (l: nat)
    ensures l < Pow2(n)
  {
    if n == 0 then 0 else x % 2 + 2 * LowBits(x / 2, n - 1)
  }

  /** Bit n of x is set: `(x >> n) & 1 == 1`. */
  predicate Bit(x: nat, n: nat) {
    Shr(x, n) % 2 == 1
  }

  /** The lowest bit of x is set. */
  predicate Odd(x: nat) {
    x % 2 == 1
  }

  /** Two shifts in a row are one shift by the total amount. */
  lemma {:induction false} ShrShr(x: nat, a: nat, b: nat)
    ensures Shr(Shr(x, a), b) == Shr(x, a + b)
  {
    if a > 0 {
      ShrShr(x / 2, a - 1, b);
    }
  }

  /** The last bit dropped by a shift. */
  lemma ShrLast(x: nat, n: nat)
    ensures Shr(x, n + 1) == Shr(x, n) / 2
  {
    ShrShr(x, n, 1);
  }

  /** A shift never makes a value larger. */
  lemma {:induction false} ShrNoLarger(x: nat, n: nat)
    ensures Shr(x, n) <= x
  {
    if n > 0 {
      ShrNoLarger(x / 2, n - 1);
    }
  }

  /** The constant shifts the adders use are divisions by constants. */
  lemma ShrConst(x: nat)
    ensures Shr(x, 1) == x / 2
    ensures Shr(x, 6) == x / 64
    ensures Shr(x, 7) == x / 128
    ensures Shr(x, 8) == x / 256
  {
    ShrLast(x, 0);
    ShrLast(x, 1);
    ShrLast(x, 2);
    ShrLast(x, 3);
    ShrLast(x, 4);
    ShrLast(x, 5);
    ShrLast(x, 6);
    ShrLast(x, 7);
  }

  /** A value moved up by 8 bits and back down is unchanged. */
  lemma ShrGuardByte(y: nat)
    ensures Shr(y * 256, 8) == y
  {
    ShrConst(y * 256);
  }

  lemma MulDouble(a: nat, p: nat)
    ensures a * (2 * p) == 2 * (a * p)
  {}

  lemma HalfBelow(l: nat, p: nat)
    requires l < 2 * p
    ensures l / 2 < p
  {}

  /** Doubling a split value and adding a bit below it. */
  lemma DoubleSplit(o: nat, p: nat, l: nat, bit: nat)
    ensures 2 * (o * p + l) + bit == o * (2 * p) + (bit + 2 * l)
  {}

  /** Shifting right by n splits x into the part kept and the n bits
      dropped: `x == (x >> n) * 2^n + (x & (2^n - 1))`. */
  lemma {:induction false} ShrLowSplit(x: nat, n: nat)
    ensures x == Shr(x, n) * Pow2(n) + LowBits(x, n)
  {
    if n > 0 {
      ShrLowSplit(x / 2, n - 1);
      DoubleSplit(Shr(x, n), Pow2(n - 1), LowBits(x / 2, n - 1), x % 2);
    }
  }

  /** One more low bit: the mask of k + 1 bits adds bit k, worth 2^k. */
  lemma {:induction false} LowStep(x: nat, k: nat)
    ensures LowBits(x, k + 1) == LowBits(x, k) + (if Bit(x, k) then Pow2(k) else 0)
  {
    if k > 0 {
      LowStep(x / 2, k - 1);
      assert Shr(x / 2, k - 1) == Shr(x, k);
    }
  }

  /** A mask of the k lowest bits is non-zero exactly when bit k - 1 or a
      bit below it is set. */
  lemma LowNonZero(x: nat, k: nat)
    requires k >= 1
    ensures LowBits(x, k) != 0 <==> Bit(x, k - 1) || LowBits(x, k - 1) != 0
  {
    LowStep(x, k - 1);
  }

  /** Masking with a smaller mask after a larger one is masking with the
      smaller one alone. */
  lemma {:induction false} LowLow(x: nat, a: nat, b: nat)
    requires b <= a
    ensures LowBits(LowBits(x, a), b) == LowBits(x, b)
  {
    if b > 0 {
      LowLow(x / 2, a - 1, b - 1);
      assert LowBits(x, a) / 2 == LowBits(x / 2, a - 1);
      assert LowBits(x, a) % 2 == x % 2;
    }
  }

  /** Powers of two multiply by adding exponents. */
  lemma {:induction false} Pow2Add(a: nat, b: nat)
    ensures Pow2(a + b) == Pow2(a) * Pow2(b)
  {
    if a > 0 {
      Pow2Add(a - 1, b);
      assert Pow2(a + b) == 2 * Pow2(a - 1 + b);
    }
  }

  /** A value below 2^n has nothing above bit n - 1. */
  lemma {:induction false} SmallShr(x: nat, n: nat)
    requires x < Pow2(n)
    ensures Shr(x, n) == 0 && LowBits(x, n) == x
  {
    if n > 0 {
      SmallShr(x / 2, n - 1);
    }
  }

  /** `a | b`, bit by bit. */
  function Or(a: nat, b: nat): nat
    decreases a + b
  {
    if a == 0 then b
    else if b == 0 then a
    else 2 * Or(a / 2, b / 2) + (if a % 2 == 1 || b % 2 == 1 then 1 else 0)
  }

  /** Bit 0 of `a | b` is the OR of the bits 0, the bits above are the OR of
      the bits above. */
  lemma OrStep(a: nat, b: nat)
    ensures Or(a, b) == 2 * Or(a / 2, b / 2) + (if Odd(a) || Odd(b) then 1 else 0)
  {
    if a == 0 {
      assert Or(0, b / 2) == b / 2;
    } else if b == 0 {
      assert Or(a / 2, 0) == a / 2;
    }
  }

  /** The OR of two values below 2^n is below 2^n. */
  lemma {:induction false} OrBelow(a: nat, b: nat, n: nat)
    requires a < Pow2(n) && b < Pow2(n)
    ensures Or(a, b) < Pow2(n)
  {
    OrStep(a, b);
    if n > 0 {
      OrBelow(a / 2, b / 2, n - 1);
    }
  }

  /** Zero has no bits. */
  lemma {:induction false} ZeroBits(k: nat)
    ensures Shr(0, k) == 0 && LowBits(0, k) == 0
  {
    if k > 0 {
      ZeroBits(k - 1);
    }
  }

  /** `|` works bit by bit, so it can be taken separately above and below
      bit k: for h * 2^k + l with l < 2^k, the high part ORs with b's bits
      from k up and the low part with b's k lowest bits. */
  lemma {:induction false} OrSplit(h: nat, l: nat, b: nat, k: nat)
    requires l < Pow2(k)
    ensures Or(h * Pow2(k) + l, b) == Or(h, Shr(b, k)) * Pow2(k) + Or(l, LowBits(b, k))
  {
    if k > 0 {
      var p := Pow2(k - 1);
      var x: nat := h * Pow2(k) + l;
      var lb := LowBits(b, k);
      var o: nat := Or(h, Shr(b, k));
      var bit: nat := if Odd(l) || Odd(b) then 1 else 0;
      assert Pow2(k) == 2 * p;
      MulDouble(h, p);
      assert x / 2 == h * p + l / 2 && x % 2 == l % 2;
      HalfBelow(l, p);
      OrSplit(h, l / 2, b / 2, k - 1);
      assert Or(x / 2, b / 2) == o * p + Or(l / 2, LowBits(b / 2, k - 1));
      OrStep(x, b);
      OrStep(l, lb);
      assert lb / 2 == LowBits(b / 2, k - 1) && lb % 2 == b % 2;
      assert Or(l, lb) == 2 * Or(l / 2, lb / 2) + bit;
      assert Or(x, b) == 2 * (o * p + Or(l / 2, lb / 2)) + bit;
      DoubleSplit(o, p, Or(l / 2, lb / 2), bit);
      MulDouble(o, p);
    }
  }

  /** Setting bit k of a value below 2^k adds 2^k. */
  lemma {:induction false} OrHighBit(v: nat, k: nat)
    requires v < Pow2(k)
    ensures Or(v, Pow2(k)) == v + Pow2(k)
  {
    OrStep(v, Pow2(k));
    if k > 0 {
      HalfBelow(v, Pow2(k - 1));
      OrHighBit(v / 2, k - 1);
    }
  }

  /** A value shifted left by k and back right by k is unchanged. */
  lemma {:induction false} ShrUndoesShl(y: nat, k: nat)
    ensures Shr(y * Pow2(k), k) == y
  {
    if k > 0 {
      MulDouble(y, Pow2(k - 1));
      ShrUndoesShl(y, k - 1);
    }
  }

  lemma MulDistrib(a: nat, b: nat, p: nat)
    ensures (a + b) * p == a * p + b * p
  {}

  lemma MulSucc(c: nat, p: nat)
    ensures (c + 1) * p == c * p + p
  {}

  /** A larger factor gives a product larger by at least p. */
  lemma {:induction false} MulStep(a: nat, b: nat, p: nat)
    requires a < b
    ensures a * p + p <= b * p
    decreases b - a
  {
    MulSucc(b - 1, p);
    if a + 1 < b {
      MulStep(a, b - 1, p);
    }
  }

  /** For x == q * 2^n + r with r < 2^n, `x >> n` is the quotient q and the
      n low bits are the remainder r. */
  lemma ShrDivMod(x: nat, n: nat, q: nat, r: nat)
    requires x == q * Pow2(n) + r && r < Pow2(n)
    ensures Shr(x, n) == q && LowBits(x, n) == r
  {
    ShrLowSplit(x, n);
    if Shr(x, n) > q {
      MulStep(q, Shr(x, n), Pow2(n));
    } else if Shr(x, n) < q {
      MulStep(Shr(x, n), q, Pow2(n));
    }
  }
}
