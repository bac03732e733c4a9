/** Fixed-width unsigned integers and the bit-level operations the DAA
    transform applies to them: wrapping addition, nibble extraction, the
    sign-bit test and the population count behind the parity flag.

    Values are unbounded `int`s restricted by subset types; every
    wrap-around is written out as an explicit modulus. The operations are
    defined arithmetically. For each bitwise expression of the service's
    code (`>> 4`, `& 0x0F`, `& 0x80` on a byte, and the `& 1` on the `u32`
    bit count) a lemma on `bv8` or `bv32` proves that it computes the
    same, and a lemma proves that the bit count of a byte is the number of
    its bits that are set. */
module Bits {

  const BYTE_MODULUS: int := 0x100
  const WORD_MODULUS: int := 0x1_0000
  const CYCLE_MODULUS: int := 0x1_0000_0000_0000_0000
  /** The largest value a 64-bit counter can hold. */
  const U64_MAX: int := CYCLE_MODULUS - 1

  type U8 = x: int | 0 <= x < BYTE_MODULUS
  type U16 = x: int | 0 <= x < WORD_MODULUS
  type U64 = x: int | 0 <= x < CYCLE_MODULUS

  /** `u8::wrapping_add`: the sum, less 256 when it does not fit a byte. */
  function WrappingAdd8(x: U8, y: U8): (r: U8)
    ensures x + y < BYTE_MODULUS ==> r == x + y
    ensures x + y >= BYTE_MODULUS ==> r == x + y - BYTE_MODULUS
  {
    (x + y) % BYTE_MODULUS
  }

  /** `u64::wrapping_add`: the sum, less 2^64 when it does not fit 64 bits. */
  function WrappingAdd64(x: U64, y: U64): (r: U64)
    ensures x + y < CYCLE_MODULUS ==> r == x + y
    ensures x + y >= CYCLE_MODULUS ==> r == x + y - CYCLE_MODULUS
  {
    (x + y) % CYCLE_MODULUS
  }

  /** The high nibble of a byte, bits 7..4 (`a >> 4` in `execute`). */
  function HighNibble(x: U8): (n: int)
    ensures 0 <= n < 16
  {
    x / 16
  }

  /** The low nibble of a byte, bits 3..0 (`a & 0x0F` in `execute`). */
  function LowNibble(x: U8): (n: int)
    ensures 0 <= n < 16
  {
    x % 16
  }

  /** A byte is its two nibbles side by side. */
  lemma NibblesCompose(x: U8)
    ensures x == 16 * HighNibble(x) + LowNibble(x)
  {
  }

  /** Bit 7 of the byte is set (`(result & 0x80) == 0x80` in `execute`). */
  predicate SignBit(x: U8)
  {
    HighNibble(x) >= 8
  }

  /** The shift `execute` writes computes the high nibble. */
  lemma ShiftRightIsHighNibble(x: bv8)
    ensures (x >> 4) as int == HighNibble(x as int)
  {
  }

  /** The mask `execute` writes computes the low nibble. */
  lemma MaskIsLowNibble(x: bv8)
    ensures (x & 0x0F) as int == LowNibble(x as int)
  {
  }

  /** The sign test `execute` writes holds exactly for bytes of 0x80 and
      above. */
  lemma SignMaskIsSignBit(x: bv8)
    ensures ((x & 0x80) == 0x80) <==> SignBit(x as int)
    ensures SignBit(x as int) <==> x as int >= 0x80
  {
  }

  function Pow2(k: nat): nat
  {
    if k == 0 then 1 else 2 * Pow2(k - 1)
  }

  /** `count_ones`: the number of set bits in the binary form of `x`. */
  function CountOnes(x: nat): nat
  {
    if x == 0 then 0 else x % 2 + CountOnes(x / 2)
  }

  /** The number of bits `i`, from bit `from` up to bit 7, with
      `(x >> i) & 1 == 1`. */
  function SetBitsFrom(x: bv8, from: nat): nat
    requires from <= 8
    decreases 8 - from
  {
    if from == 8 then 0 else ((x >> from) & 1) as nat + SetBitsFrom(x, from + 1)
  }

  /** One step of the binary expansion of a byte: its parity is its bit 0,
      and halving it shifts it right once. */
  lemma HalveIsShift(y: bv8)
    ensures (y as int) % 2 == (y & 1) as int
    ensures (y as int) / 2 == (y >> 1) as int
  {
  }

  /** Shifting once more is shifting by one further bit. */
  lemma ShiftOnceMore(x: bv8, i: nat)
    requires i < 8
    ensures x >> (i + 1) == (x >> i) >> 1
  {
  }

  /** The bit count of `x >> from` is the number of set bits from bit
      `from` up. */
  lemma {:induction false} CountOnesFrom(x: bv8, from: nat)
    requires from <= 8
    ensures CountOnes((x >> from) as int) == SetBitsFrom(x, from)
    decreases 8 - from
  {
    if from == 8 {
      assert x >> from == 0;
    } else {
      HalveIsShift(x >> from);
      ShiftOnceMore(x, from);
      CountOnesFrom(x, from + 1);
    }
  }

  /** `count_ones` on a byte: `CountOnes` counts exactly the bits `i < 8`
      with `(x >> i) & 1 == 1`. */
  lemma CountOnesIsSetBits(x: bv8)
    ensures CountOnes(x as int) == SetBitsFrom(x, 0)
  {
    CountOnesFrom(x, 0);
    assert x >> 0 == x;
  }

  /** A number below 2^k has at most k set bits; a byte has at most 8. */
  lemma {:induction false} CountOnesBound(x: nat, k: nat)
    requires x < Pow2(k)
    ensures CountOnes(x) <= k
  {
    if x != 0 {
      assert k > 0;
      CountOnesBound(x / 2, k - 1);
    }
  }

  /** The byte has an even number of set bits. */
  predicate EvenOnes(x: U8)
  {
    CountOnes(x) % 2 == 0
  }

  /** `execute` tests evenness of a bit count `n`, a `u32`, as
      `(n & 1) == 0`. */
  lemma LowBitClearIsEven(n: nat)
    requires n < 0x1_0000_0000
    ensures (((n as bv32) & 1) == 0) <==> n % 2 == 0
  {
  }

  /** The parity test of `execute`, `(x.count_ones() & 1) == 0` with the
      count a `u32`, means `EvenOnes`. */
  lemma ParityMaskIsEvenOnes(x: U8)
    ensures CountOnes(x) <= 8
    ensures (((CountOnes(x) as bv32) & 1) == 0) <==> EvenOnes(x)
  {
    CountOnesBound(x, 8);
    LowBitClearIsEven(CountOnes(x));
  }

  /** Reference definition of parity, as parity hardware computes it: the
      exclusive or of the low `k` bits of `x`, taken from bit 0 upwards. */
  function XorOfBits(x: nat, k: nat): bool
  {
    if k == 0 then false else (x % 2 == 1) != XorOfBits(x / 2, k - 1)
  }

  /** Counting the set bits of a number below 2^k and folding them with
      exclusive or agree on parity: the count is even exactly when the
      exclusive or of the k bits is 0. */
  lemma {:induction false} EvenCountIsZeroXor(x: nat, k: nat)
    requires x < Pow2(k)
    ensures (CountOnes(x) % 2 == 0) <==> !XorOfBits(x, k)
  {
    if k == 0 {
      assert x == 0;
    } else {
      EvenCountIsZeroXor(x / 2, k - 1);
    }
  }

  /** For a byte: an even number of set bits exactly when the exclusive or
      of its eight bits is 0. */
  lemma EvenOnesIsZeroXor(x: U8)
    ensures EvenOnes(x) <==> !XorOfBits(x, 8)
  {
    EvenCountIsZeroXor(x, 8);
  }
}
