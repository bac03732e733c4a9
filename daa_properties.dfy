/** What the DAA transform promises about its result, proved of `Adjust`
    (and so, through `Execute`'s postcondition, of the executed update). */
module DaaProperties {
  import opened Bits
  import opened Machine
  import opened Daa

  /** The cycle counter advances by 4 modulo 2^64. */
  lemma CyclesAdvanceByFour(s: CpuState)
    ensures Adjust(s).cycles == (s.cycles + 4) % CYCLE_MODULUS
  {
  }

  /** At the top of its range the cycle counter wraps round to 3. */
  lemma CyclesWrapAtMaximum(s: CpuState)
    requires s.cycles == U64_MAX
    ensures Adjust(s).cycles == 3
  {
  }

  /** The accumulator receives the input accumulator plus the correction,
      modulo 256. */
  lemma AccumulatorGetsCorrection(s: CpuState)
    ensures Adjust(s).a == (s.a + Correction(s.a, s.flags.auxCarry, s.flags.carry)) % BYTE_MODULUS
  {
  }

  /** A byte whose two nibbles are decimal digits, with both carries
      clear, is left as it is and raises no carry. */
  lemma DecimalInputUnchanged(s: CpuState)
    requires !s.flags.auxCarry && !s.flags.carry
    requires HighNibble(s.a) <= 9 && LowNibble(s.a) <= 9
    ensures Adjust(s).a == s.a
    ensures !Adjust(s).flags.carry
  {
  }

  /** A set carry stays set. */
  lemma CarryIsSticky(s: CpuState)
    requires s.flags.carry
    ensures Adjust(s).flags.carry
  {
  }

  /** The carry out is set exactly when the input carry is set, the high
      nibble is above 9, or it is 9 with a low nibble above 9; that is,
      exactly when the correction includes 0x60. Otherwise the carry is
      left as it was. */
  lemma CarryOutCharacterized(s: CpuState)
    ensures Adjust(s).flags.carry <==>
      (s.flags.carry || HighNibble(s.a) > 9 || (HighNibble(s.a) == 9 && LowNibble(s.a) > 9))
    ensures Adjust(s).flags.carry <==> Correction(s.a, s.flags.auxCarry, s.flags.carry) >= 0x60
    ensures !HighAdjust(s.a, s.flags.carry) ==> Adjust(s).flags.carry == s.flags.carry
  {
  }

  /** Sign is bit 7 of the new accumulator; zero says it is 0. */
  lemma SignAndZeroDescribeResult(s: CpuState)
    ensures Adjust(s).flags.sign <==> ((Adjust(s).a as bv8) & 0x80) == 0x80
    ensures Adjust(s).flags.sign <==> Adjust(s).a >= 0x80
    ensures Adjust(s).flags.zero <==> Adjust(s).a == 0
  {
    SignMaskIsSignBit(Adjust(s).a as bv8);
  }

  /** The half carry is the carry out of the low nibble when the
      correction is added to the ORIGINAL accumulator. It is set exactly
      when the 0x06 part was applied to a low nibble of 10 or more, which
      is exactly when the original low nibble is 10 or more. */
  lemma AuxCarryFromOriginalLowNibble(s: CpuState)
    ensures Adjust(s).flags.auxCarry <==>
      LowNibble(s.a) + LowNibble(Correction(s.a, s.flags.auxCarry, s.flags.carry)) > 0x0F
    ensures Adjust(s).flags.auxCarry <==> (LowAdjust(s.a, s.flags.auxCarry) && LowNibble(s.a) >= 10)
    ensures Adjust(s).flags.auxCarry <==> LowNibble(s.a) >= 10
  {
  }

  /** Parity is set exactly when the new accumulator has an even number of
      set bits, that is, when the exclusive or of its eight bits is 0. */
  lemma ParityDescribesResult(s: CpuState)
    ensures Adjust(s).flags.parity <==> CountOnes(Adjust(s).a) % 2 == 0
    ensures Adjust(s).flags.parity <==> !XorOfBits(Adjust(s).a, 8)
  {
    EvenOnesIsZeroXor(Adjust(s).a);
  }

  /** Only the accumulator, the cycle counter and the flags are written. */
  lemma OnlyAccumulatorCyclesAndFlagsChange(s: CpuState)
    ensures Adjust(s).b == s.b && Adjust(s).c == s.c && Adjust(s).d == s.d
    ensures Adjust(s).e == s.e && Adjust(s).h == s.h && Adjust(s).l == s.l
    ensures Adjust(s).stackPointer == s.stackPointer
    ensures Adjust(s).programCounter == s.programCounter
  {
  }

  // Packed binary-coded decimal: one decimal digit per nibble.

  predicate IsBcd(x: U8)
  {
    HighNibble(x) <= 9 && LowNibble(x) <= 9
  }

  function BcdValue(x: U8): (v: nat)
    requires IsBcd(x)
    ensures v < 100
  {
    10 * HighNibble(x) + LowNibble(x)
  }

  /** The nibbles of a byte written as `16 * h + l`. */
  lemma NibblesOf(v: U8, h: int, l: int)
    requires 0 <= l < 16 && v == 16 * h + l
    ensures HighNibble(v) == h && LowNibble(v) == l
  {
  }

  /** The decimal digits of `10 * highSum + lowSum`, where `highSum` and
      `lowSum` are the sums of the high and the low digits of two packed-BCD
      bytes: the tens digit (modulo 10, as a byte holds two digits) and the
      units digit. */
  function TensDigit(highSum: int, lowSum: int): int
  {
    var tens := highSum + (if lowSum >= 10 then 1 else 0);
    if tens >= 10 then tens - 10 else tens
  }

  function UnitsDigit(lowSum: int): int
  {
    if lowSum >= 10 then lowSum - 10 else lowSum
  }

  /** The correction DAA picks after the binary addition of two packed-BCD
      bytes, in terms of the sums of their digits: 0x06 for a low digit sum
      of 10 or more, 0x60 when the high digit sum, with the decimal carry
      from the low digits, reaches 10. */
  lemma CorrectionAfterBcdAddition(x: U8, y: U8)
    requires IsBcd(x) && IsBcd(y)
    ensures var highSum, lowSum := HighNibble(x) + HighNibble(y), LowNibble(x) + LowNibble(y);
      var a := WrappingAdd8(x, y);
      var decimalCarry := highSum + (if lowSum >= 10 then 1 else 0) >= 10;
      && x + y == 16 * highSum + lowSum
      && HighAdjust(a, x + y >= BYTE_MODULUS) == decimalCarry
      && Correction(a, lowSum > 0x0F, x + y >= BYTE_MODULUS)
         == (if lowSum >= 10 then 0x06 else 0x00) + (if decimalCarry then 0x60 else 0x00)
  {
    NibblesCompose(x);
    NibblesCompose(y);
    var highSum, lowSum := HighNibble(x) + HighNibble(y), LowNibble(x) + LowNibble(y);
    var a := WrappingAdd8(x, y);
    var wrap := if x + y >= BYTE_MODULUS then BYTE_MODULUS else 0;
    assert a == 16 * highSum + lowSum - wrap;
    // A low digit sum of 16 or more has carried into the high nibble.
    if lowSum < 16 {
      NibblesOf(a, highSum - wrap / 16, lowSum);
    } else {
      NibblesOf(a, highSum + 1 - wrap / 16, lowSum - 16);
    }
  }

  /** Adding that correction to the binary sum gives the packed-BCD digits
      of the decimal sum, modulo 256. */
  lemma CorrectionRestoresDigits(a: U8, c: U8, highSum: int, lowSum: int)
    requires 0 <= highSum <= 18 && 0 <= lowSum <= 18
    requires a == 16 * highSum + lowSum || a == 16 * highSum + lowSum - BYTE_MODULUS
    requires c == (if lowSum >= 10 then 0x06 else 0x00)
      + (if highSum + (if lowSum >= 10 then 1 else 0) >= 10 then 0x60 else 0x00)
    ensures WrappingAdd8(a, c) == 16 * TensDigit(highSum, lowSum) + UnitsDigit(lowSum)
  {
    var tens := highSum + (if lowSum >= 10 then 1 else 0);
    var bcd := 16 * TensDigit(highSum, lowSum) + UnitsDigit(lowSum);
    // Without the wrap at 256, the sum is the BCD digits plus 0x100 for a
    // decimal carry out.
    if lowSum >= 10 {
      assert 16 * highSum + lowSum + c == 16 * tens + (lowSum - 10) + (if tens >= 10 then 0x60 else 0);
    } else {
      assert 16 * highSum + lowSum + c == 16 * tens + lowSum + (if tens >= 10 then 0x60 else 0);
    }
    assert 16 * highSum + lowSum + c == bcd + (if tens >= 10 then BYTE_MODULUS else 0);
  }

  /** A number below 200 is its remainder modulo 100, or that plus 100. */
  lemma BelowTwoHundred(n: nat, rest: nat)
    requires rest < 100 && (n == rest || n == rest + 100)
    ensures n % 100 == rest
  {
  }

  /** The decimal sum modulo 100 has those digits. */
  lemma DecimalDigitsOfSum(highSum: int, lowSum: int, sum: nat)
    requires 0 <= highSum <= 18 && 0 <= lowSum <= 18
    requires sum == 10 * highSum + lowSum
    ensures sum % 100 == 10 * TensDigit(highSum, lowSum) + UnitsDigit(lowSum)
    ensures (sum >= 100) == (highSum + (if lowSum >= 10 then 1 else 0) >= 10)
  {
    var tens := highSum + (if lowSum >= 10 then 1 else 0);
    var rest := 10 * TensDigit(highSum, lowSum) + UnitsDigit(lowSum);
    assert sum == rest + (if tens >= 10 then 100 else 0);
    BelowTwoHundred(sum, rest);
  }

  /** The decimal sum, and its decimal carry, from the accumulator and
      carries that the binary addition of two packed-BCD bytes leaves. */
  lemma CorrectedBcdSum(x: U8, y: U8, a: U8, auxCarry: bool, carry: bool)
    requires IsBcd(x) && IsBcd(y)
    requires a == WrappingAdd8(x, y)
    requires auxCarry == (LowNibble(x) + LowNibble(y) > 0x0F)
    requires carry == (x + y >= BYTE_MODULUS)
    ensures IsBcd(WrappingAdd8(a, Correction(a, auxCarry, carry)))
    ensures BcdValue(WrappingAdd8(a, Correction(a, auxCarry, carry))) == (BcdValue(x) + BcdValue(y)) % 100
    ensures HighAdjust(a, carry) == (BcdValue(x) + BcdValue(y) >= 100)
  {
    var highSum, lowSum := HighNibble(x) + HighNibble(y), LowNibble(x) + LowNibble(y);
    CorrectionAfterBcdAddition(x, y);
    var c := Correction(a, auxCarry, carry);
    CorrectionRestoresDigits(a, c, highSum, lowSum);
    NibblesOf(WrappingAdd8(a, c), TensDigit(highSum, lowSum), UnitsDigit(lowSum));
    DecimalDigitsOfSum(highSum, lowSum, BcdValue(x) + BcdValue(y));
  }

  /** What DAA is for: after a binary addition of two packed-BCD bytes, with
      carry and half carry as that addition leaves them, DAA leaves in the
      accumulator the packed-BCD form of the decimal sum modulo 100, and
      the carry says whether the decimal sum reached 100. */
  lemma DaaAfterBcdAddition(x: U8, y: U8, s: CpuState)
    requires IsBcd(x) && IsBcd(y)
    requires s.a == WrappingAdd8(x, y)
    requires s.flags.carry == (x + y >= BYTE_MODULUS)
    requires s.flags.auxCarry == (LowNibble(x) + LowNibble(y) > 0x0F)
    ensures IsBcd(Adjust(s).a)
    ensures BcdValue(Adjust(s).a) == (BcdValue(x) + BcdValue(y)) % 100
    ensures Adjust(s).flags.carry == (BcdValue(x) + BcdValue(y) >= 100)
  {
    CorrectedBcdSum(x, y, s.a, s.flags.auxCarry, s.flags.carry);
  }

  // The worked examples of the transform.

  lemma Example9A(s: CpuState)
    requires s.a == 0x9A && !s.flags.carry && !s.flags.auxCarry
    ensures Adjust(s).a == 0x00
    ensures Adjust(s).flags == CpuFlags(sign := false, zero := true, auxCarry := true, parity := true, carry := true)
  {
  }

  lemma Example05(s: CpuState)
    requires s.a == 0x05 && !s.flags.carry && !s.flags.auxCarry
    ensures Adjust(s).a == 0x05
    ensures Adjust(s).flags == CpuFlags(sign := false, zero := false, auxCarry := false, parity := true, carry := false)
  {
  }

  lemma Example00WithCarry(s: CpuState)
    requires s.a == 0x00 && s.flags.carry && !s.flags.auxCarry
    ensures Adjust(s).a == 0x60
    ensures Adjust(s).flags == CpuFlags(sign := false, zero := false, auxCarry := false, parity := true, carry := true)
  {
  }
}
