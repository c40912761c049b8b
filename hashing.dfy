/** Backing-array sizing, the supplemental hash and the bitmask index of
    `FixedSizeHashmap` (src/FixedSizeHashmap.java).

    Java `int` hash values are `bv32`; Java's unsigned shift `>>>` is the
    `>>` of `bv32`.  The backing-array size is kept as the number `2^k`
    together with its exponent `k`. */
module Hashing {

  /** 2 to the power k. */
  function Pow2(k: nat): (p: nat)
    ensures p >= 1
  {
    if k == 0 then 1 else 2 * Pow2(k - 1)
  }

  lemma {:induction false} Pow2Monotone(i: nat, j: nat)
    requires i <= j
    ensures Pow2(i) <= Pow2(j)
    decreases j
  {
    if i < j {
      Pow2Monotone(i, j - 1);
    }
  }

  /** A power of two whose half is below the capacity is the smallest power
      of two at least the capacity. */
  lemma {:induction false} SmallestPowerOfTwo(capacity: int, k: nat, j: nat)
    requires k > 0 ==> Pow2(k - 1) < capacity
    requires capacity <= Pow2(j)
    ensures Pow2(k) <= Pow2(j)
  {
    if j < k {
      Pow2Monotone(j, k - 1);
    } else {
      Pow2Monotone(k, j);
    }
  }

  lemma Pow2Plus5(k: nat)
    ensures Pow2(k + 5) == 32 * Pow2(k)
  {
    assert Pow2(k + 5) == 2 * Pow2(k + 4);
    assert Pow2(k + 4) == 2 * Pow2(k + 3);
    assert Pow2(k + 3) == 2 * Pow2(k + 2);
    assert Pow2(k + 2) == 2 * Pow2(k + 1);
  }

  /** The largest power of two a Java `int` holds, `1 << 30`. */
  const MaxArraySize: int := 0x4000_0000

  lemma Pow2Of30()
    ensures Pow2(30) == MaxArraySize
  {
    Pow2Plus5(0); Pow2Plus5(5); Pow2Plus5(10);
    Pow2Plus5(15); Pow2Plus5(20); Pow2Plus5(25);
  }

  /** The table size the constructor's doubling loop computes: starting from
      1 it doubles while the size is below the capacity.  The result is a
      power of two, at least the capacity, and (by SmallestPowerOfTwo) the
      smallest such.  Java's `int` doubling overflows past 2^30 and the loop
      then never ends (module `AsWritten`); here the doubling stops at 2^30,
      the largest power of two an `int` holds, so a larger capacity gets a
      table of 2^30 buckets. */
  method ArraySizeFor(capacity: int) returns (size: nat, k: nat)
    ensures size == Pow2(k) && k <= 30
    ensures capacity <= MaxArraySize ==> capacity <= size
    ensures capacity > MaxArraySize ==> size == MaxArraySize
    ensures k > 0 ==> Pow2(k - 1) < capacity
  {
    size, k := 1, 0;
    while size < capacity && k < 30
      invariant size == Pow2(k) && k <= 30
      invariant k > 0 ==> Pow2(k - 1) < capacity
      decreases 30 - k
    {
      size, k := 2 * size, k + 1;
    }
    Pow2Monotone(k, 30);
    Pow2Of30();
  }

  // ---------------------------------------------------------------------
  // The supplemental hash `hash(h)`.

  /** First statement of `hash`: `h ^= (h >>> 20) ^ (h >>> 12)`.  The top
      12 bits pass through; every lower bit takes in bits from above. */
  function MixHigh(h: bv32): (r: bv32)
    ensures r >> 20 == h >> 20
    ensures r >> 28 == h >> 28
  {
    h ^ ((h >> 20) ^ (h >> 12))
  }

  /** Second statement of `hash`: `h ^ (h >>> 7) ^ (h >>> 4)`.  The top
      4 bits pass through. */
  function MixLow(h: bv32): (r: bv32)
    ensures r >> 28 == h >> 28
  {
    (h ^ (h >> 7)) ^ (h >> 4)
  }

  /** `hash(h)`: spreads the high-order bits of a hash code into the low-order
      bits, which are the only ones the bitmask index keeps. */
  function SupplementalHash(h: bv32): (r: bv32)
    ensures r >> 28 == h >> 28
  {
    MixLow(MixHigh(h))
  }

  // Both mixing steps are linear over GF(2) and have a trivial kernel, hence
  // are injective.  These facts are stated on the bare bit-vector expressions.

  lemma HighKernel(e: bv32)
    requires e ^ ((e >> 20) ^ (e >> 12)) == 0
    ensures e == 0
  {}

  lemma HighLinear(a: bv32, b: bv32)
    ensures (a ^ ((a >> 20) ^ (a >> 12))) ^ (b ^ ((b >> 20) ^ (b >> 12)))
         == (a ^ b) ^ (((a ^ b) >> 20) ^ ((a ^ b) >> 12))
  {}

  lemma HighCancel(a: bv32, b: bv32)
    requires a ^ ((a >> 20) ^ (a >> 12)) == b ^ ((b >> 20) ^ (b >> 12))
    ensures a == b
  {
    HighLinear(a, b);
    HighKernel(a ^ b);
  }

  lemma LowKernel(e: bv32)
    requires (e ^ (e >> 7)) ^ (e >> 4) == 0
    ensures e == 0
  {}

  lemma LowLinear(a: bv32, b: bv32)
    ensures ((a ^ (a >> 7)) ^ (a >> 4)) ^ ((b ^ (b >> 7)) ^ (b >> 4))
         == ((a ^ b) ^ ((a ^ b) >> 7)) ^ ((a ^ b) >> 4)
  {}

  lemma LowCancel(a: bv32, b: bv32)
    requires (a ^ (a >> 7)) ^ (a >> 4) == (b ^ (b >> 7)) ^ (b >> 4)
    ensures a == b
  {
    LowLinear(a, b);
    LowKernel(a ^ b);
  }

  lemma MixHighEqual(a: bv32, b: bv32)
    requires MixHigh(a) == MixHigh(b)
    ensures a ^ ((a >> 20) ^ (a >> 12)) == b ^ ((b >> 20) ^ (b >> 12))
  {}

  lemma MixLowEqual(a: bv32, b: bv32)
    requires MixLow(a) == MixLow(b)
    ensures (a ^ (a >> 7)) ^ (a >> 4) == (b ^ (b >> 7)) ^ (b >> 4)
  {}

  lemma MixHighInjective(a: bv32, b: bv32)
    requires MixHigh(a) == MixHigh(b)
    ensures a == b
  {
    MixHighEqual(a, b);
    HighCancel(a, b);
  }

  lemma MixLowInjective(a: bv32, b: bv32)
    requires MixLow(a) == MixLow(b)
    ensures a == b
  {
    MixLowEqual(a, b);
    LowCancel(a, b);
  }

  /** The supplemental hash never makes two different hash codes collide: it
      is a permutation of the 32-bit values, so every collision in a bucket
      comes from the index mask, never from the mix. */
  lemma SupplementalHashInjective(a: bv32, b: bv32)
    requires SupplementalHash(a) == SupplementalHash(b)
    ensures a == b
  {
    MixLowInjective(MixHigh(a), MixHigh(b));
    MixHighInjective(a, b);
  }

  // ---------------------------------------------------------------------
  // Bit values: the number that the lowest w bits of a bit-vector stand for.

  function Bits(x: bv32, w: nat): nat
    decreases w
  {
    if w == 0 then 0 else 2 * Bits(x >> 1, w - 1) + (if x & 1 == 0 then 0 else 1)
  }

  /** The unsigned value of a 32-bit word. */
  function Unsigned(x: bv32): nat {
    Bits(x, 32)
  }

  /** m has exactly its lowest k bits set. */
  predicate IsLowMask(m: bv32, k: nat)
    decreases k
  {
    if k == 0 then m == 0 else m & 1 == 1 && IsLowMask(m >> 1, k - 1)
  }

  /** The exponent k as a 32-bit shift distance.  It is built by counting
      up rather than written `k as bv32`, because the solver handles the
      int-to-bit-vector conversion poorly and the proofs about the mask
      become far more expensive with it. */
  function Word(k: nat): bv32
    decreases k
  {
    if k == 0 then 0 else Word(k - 1) + 1
  }

  lemma IncValue(e: bv32)
    requires e as int < 30
    ensures (e + 1) as int == e as int + 1
  {}

  lemma {:induction false} WordValue(k: nat)
    requires k <= 30
    ensures Word(k) as int == k
  {
    if k > 0 {
      WordValue(k - 1);
      IncValue(Word(k - 1));
    }
  }

  lemma SmallWord(e: bv32)
    requires 0 < e as int <= 30
    ensures 0 < e <= 30
  {}

  lemma DecInc(e: bv32)
    ensures (e + 1) - 1 == e
  {}

  lemma WordRange(k: nat)
    requires 0 < k <= 30
    ensures 0 < Word(k) <= 30 && Word(k) - 1 == Word(k - 1)
  {
    WordValue(k);
    SmallWord(Word(k));
    DecInc(Word(k - 1));
  }

  lemma WordBelow(k: nat)
    requires k <= 30
    ensures Word(k) <= 30
  {
    if k > 0 {
      WordRange(k);
    }
  }

  /** `(1 << k) - 1` computed on 32-bit words. */
  function LowOnes(k: nat): bv32
    requires k <= 30
  {
    WordBelow(k);
    ((1 as bv32) << Word(k)) - 1
  }

  lemma MaskHalf(e: bv32)
    requires 0 < e <= 30
    ensures (((1 as bv32) << e) - 1) >> 1 == ((1 as bv32) << (e - 1)) - 1
    ensures (((1 as bv32) << e) - 1) & 1 == 1
  {}

  lemma MaskEmpty()
    ensures ((1 as bv32) << (0 as bv32)) - 1 == 0
  {}

  lemma LowOnesStep(k: nat)
    requires 0 < k <= 30
    ensures LowOnes(k) >> 1 == LowOnes(k - 1) && LowOnes(k) & 1 == 1
  {
    WordRange(k);
    MaskHalf(Word(k));
  }

  lemma {:induction false} LowOnesIsLowMask(k: nat)
    requires k <= 30
    ensures IsLowMask(LowOnes(k), k)
  {
    if k == 0 {
      MaskEmpty();
    } else {
      LowOnesStep(k);
      LowOnesIsLowMask(k - 1);
    }
  }

  lemma ShiftZero(x: bv32)
    requires x == 0
    ensures x >> 1 == 0 && x & 1 == 0
  {}

  lemma {:induction false} BitsOfZero(x: bv32, w: nat)
    requires x == 0
    ensures Bits(x, w) == 0
    decreases w
  {
    if w > 0 {
      ShiftZero(x);
      BitsOfZero(x >> 1, w - 1);
    }
  }

  lemma LowMaskValueEmpty(m: bv32, w: nat)
    requires IsLowMask(m, 0)
    ensures Bits(m, w) == 0
  {
    BitsOfZero(m, w);
  }

  lemma LowMaskValueStep(m: bv32, k: nat, w: nat)
    requires 0 < k && 0 < w && IsLowMask(m, k)
    requires Bits(m >> 1, w - 1) == Pow2(if k - 1 < w - 1 then k - 1 else w - 1) - 1
    ensures Bits(m, w) == Pow2(if k < w then k else w) - 1
  {}

  /** The lowest w bits of a k-bit low mask stand for 2^min(k, w) - 1. */
  lemma {:induction false} LowMaskValue(m: bv32, k: nat, w: nat)
    requires IsLowMask(m, k)
    ensures Bits(m, w) == Pow2(if k < w then k else w) - 1
    decreases k
  {
    if k == 0 {
      LowMaskValueEmpty(m, w);
    } else if w > 0 {
      LowMaskValue(m >> 1, k - 1, w - 1);
      LowMaskValueStep(m, k, w);
    }
  }

  /** `_arraySize - 1` for the table size `_arraySize == 2^k`: the 32-bit
      word with exactly its lowest k bits set, whose value is `2^k - 1`. */
  function SizeMask(k: nat): (m: bv32)
    requires k <= 30
    ensures IsLowMask(m, k)
    ensures Unsigned(m) == Pow2(k) - 1
  {
    LowOnesIsLowMask(k);
    LowMaskValue(LowOnes(k), k, 32);
    LowOnes(k)
  }

  lemma AndShift(x: bv32, m: bv32)
    ensures (x & m) >> 1 == (x >> 1) & (m >> 1)
  {}

  lemma AndLowBit(x: bv32, m: bv32)
    requires m & 1 == 1
    ensures ((x & m) & 1 == 0) == (x & 1 == 0)
  {}

  lemma AndBitBound(x: bv32, m: bv32)
    ensures (x & m) & 1 == 0 || m & 1 != 0
  {}

  /** Masking never increases a value. */
  lemma BitsAndBoundStep(x: bv32, m: bv32, w: nat)
    requires 0 < w
    requires Bits((x >> 1) & (m >> 1), w - 1) <= Bits(m >> 1, w - 1)
    ensures Bits(x & m, w) <= Bits(m, w)
  {
    AndShift(x, m);
    AndBitBound(x, m);
  }

  lemma {:induction false} BitsAndBound(x: bv32, m: bv32, w: nat)
    ensures Bits(x & m, w) <= Bits(m, w)
    decreases w
  {
    if w > 0 {
      BitsAndBound(x >> 1, m >> 1, w - 1);
      BitsAndBoundStep(x, m, w);
    }
  }

  lemma MaskedBitsStep(x: bv32, m: bv32, w: nat)
    requires 0 < w && m & 1 == 1
    requires Bits((x >> 1) & (m >> 1), w - 1) == Bits(x >> 1, w - 1)
    ensures Bits(x & m, w) == Bits(x, w)
  {
    AndShift(x, m);
    AndLowBit(x, m);
  }

  /** Masking with a k-bit low mask keeps the lowest k bits. */
  lemma {:induction false} MaskedBits(x: bv32, m: bv32, k: nat, w: nat)
    requires IsLowMask(m, k) && w <= k
    ensures Bits(x & m, w) == Bits(x, w)
    decreases w
  {
    if w > 0 {
      MaskedBits(x >> 1, m >> 1, k - 1, w - 1);
      MaskedBitsStep(x, m, w);
    }
  }

  lemma MulAtLeast(d: int, t: int)
    requires d > 0 && t >= 1
    ensures d * t >= d
  {}

  /** A non-zero multiple of `d` is at least `d` away from zero. */
  lemma MultipleApart(d: int, t: int)
    requires d > 0
    ensures t == 0 || d * t >= d || d * t <= -d
  {
    if t >= 1 {
      MulAtLeast(d, t);
    } else if t <= -1 {
      MulAtLeast(d, -t);
      assert d * (-t) == -(d * t);
    }
  }

  lemma ModUnique(n: int, d: int, q: int, r: int)
    requires d > 0 && n == d * q + r && 0 <= r < d
    ensures n % d == r
  {
    var q', r' := n / d, n % d;
    assert d * (q - q') == r' - r;
    MultipleApart(d, q - q');
  }

  lemma ModDouble(a: nat, b: nat, p: nat)
    requires b < 2 && p >= 1
    ensures (2 * a + b) % (2 * p) == 2 * (a % p) + b
  {
    ModUnique(2 * a + b, 2 * p, a / p, 2 * (a % p) + b);
  }

  lemma BitsModuloStep(x: bv32, k: nat, w: nat)
    requires 0 < k <= w
    requires Bits(x >> 1, w - 1) % Pow2(k - 1) == Bits(x >> 1, k - 1)
    ensures Bits(x, w) % Pow2(k) == Bits(x, k)
  {
    ModDouble(Bits(x >> 1, w - 1), if x & 1 == 0 then 0 else 1, Pow2(k - 1));
  }

  /** The lowest k bits stand for the value modulo 2^k. */
  lemma {:induction false} BitsModulo(x: bv32, k: nat, w: nat)
    requires k <= w
    ensures Bits(x, w) % Pow2(k) == Bits(x, k)
    decreases k
  {
    if k > 0 {
      BitsModulo(x >> 1, k - 1, w - 1);
      BitsModuloStep(x, k, w);
    }
  }

  lemma SmallRemainder(v: nat, u: nat, p: nat, low: nat)
    requires p >= 1 && v <= p - 1
    requires v % p == low && u % p == low
    ensures v < p && v == u % p
  {
    ModUnique(v, p, 0, v);
  }

  lemma MaskBoundAt(h: bv32, k: nat, w: nat)
    requires k <= 30 && k <= w
    ensures Bits(h & SizeMask(k), w) < Pow2(k)
  {
    LowMaskValue(SizeMask(k), k, w);
    BitsAndBound(h, SizeMask(k), w);
  }

  lemma MaskBound(h: bv32, k: nat)
    requires k <= 30
    ensures Bits(h & SizeMask(k), 32) < Pow2(k)
  {
    MaskBoundAt(h, k, 32);
  }

  lemma MaskKeepsLowBits(h: bv32, k: nat)
    requires k <= 30
    ensures Bits(h & SizeMask(k), k) == Bits(h, k)
  {
    var m := SizeMask(k);
    MaskedBits(h, m, k, k);
    assert Bits(h & m, k) == Bits(h, k);
  }

  /** The bitmask index is the unsigned hash modulo the table size. */
  lemma MaskIsModulo(h: bv32, k: nat)
    requires k <= 30
    ensures Bits(h & SizeMask(k), 32) < Pow2(k)
    ensures Bits(h & SizeMask(k), 32) == Unsigned(h) % Pow2(k)
  {
    MaskBound(h, k);
    MaskKeepsLowBits(h, k);
    BitsModulo(h & SizeMask(k), k, 32);
    BitsModulo(h, k, 32);
    SmallRemainder(Bits(h & SizeMask(k), 32), Bits(h, 32), Pow2(k), Bits(h, k));
  }

  /** `index(hash)` for a table of `2^k` slots: `hash & (arraySize - 1)`.
      As the comment on `index` says, this is the hash taken modulo the
      table size (read as an unsigned number), so it always names a slot. */
  function Index(h: bv32, k: nat): (i: nat)
    requires k <= 30
    ensures i < Pow2(k)
    ensures i == Unsigned(h) % Pow2(k)
  {
    MaskIsModulo(h, k);
    Bits(h & SizeMask(k), 32)
  }

  /** The slot of a key: `index(hash(key.hashCode()))`. */
  function Slot(code: bv32, k: nat): (i: nat)
    requires k <= 30
    ensures i < Pow2(k)
  {
    Index(SupplementalHash(code), k)
  }

  /** `Slot` for one hash function and table size, as a function of the key. */
  function SlotFunction(hashCode: string -> bv32, k: nat): (f: string -> nat)
    requires k <= 30
    ensures forall key :: f(key) == Slot(hashCode(key), k) && f(key) < Pow2(k)
  {
    key => Slot(hashCode(key), k)
  }
}
