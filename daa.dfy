/** The DAA ("decimal adjust accumulator") instruction as the service
    implements it: the correction it adds to the accumulator, the new
    state as a function of the old one, and the step-by-step update. */
module Daa {
  import opened Bits
  import opened Machine

  /** The low-nibble adjustment applies when the input half carry is set
      or the low nibble is not a decimal digit. */
  predicate LowAdjust(a: U8, auxCarry: bool)
  {
    auxCarry || LowNibble(a) > 9
  }

  /** The high-nibble adjustment applies when the input carry is set, the
      high nibble is not a decimal digit, or it is 9 and the low nibble is
      not a decimal digit (so the low adjustment would carry into it). */
  predicate HighAdjust(a: U8, carry: bool)
  {
    carry || HighNibble(a) > 9 || (HighNibble(a) == 9 && LowNibble(a) > 9)
  }

  /** The byte DAA adds to the accumulator: 0x06 in its low nibble for the
      low adjustment, 0x60 for the high adjustment. */
  function Correction(a: U8, auxCarry: bool, carry: bool): (c: U8)
    ensures c == 0x00 || c == 0x06 || c == 0x60 || c == 0x66
    ensures LowNibble(c) == (if LowAdjust(a, auxCarry) then 0x06 else 0x00)
    ensures HighNibble(c) == (if HighAdjust(a, carry) then 0x06 else 0x00)
  {
    (if LowAdjust(a, auxCarry) then 0x06 else 0x00)
      + (if HighAdjust(a, carry) then 0x60 else 0x00)
  }

  /** The state after DAA, field by field: the specification that
      `Execute` is proved against. */
  function Adjust(s: CpuState): CpuState
  {
    var correction := Correction(s.a, s.flags.auxCarry, s.flags.carry);
    var result := WrappingAdd8(s.a, correction);
    s.(a := result,
       cycles := WrappingAdd64(s.cycles, 4),
       flags := CpuFlags(
         sign := SignBit(result),
         zero := result == 0,
         auxCarry := LowNibble(s.a) + LowNibble(correction) > 0x0F,
         parity := EvenOnes(result),
         carry := HighAdjust(s.a, s.flags.carry)))
  }

  /** Executes DAA on a request, updating its state in the order the
      service does: the cycle counter, then the carry together with the
      correction, then sign, zero, half carry and parity, then the
      accumulator. The identifier and the opcode are returned as given. */
  method Execute(cpu: Cpu) returns (out: Cpu)
    ensures out.state == Adjust(cpu.state)
    ensures out.id == cpu.id && out.opcode == cpu.opcode
  {
    var state := cpu.state;
    var flags := state.flags;
    state := state.(cycles := WrappingAdd64(state.cycles, 4));

    var msn := HighNibble(state.a);
    var lsn := LowNibble(state.a);

    var correction: U8 := if flags.auxCarry || lsn > 9 then 0x06 else 0x00;
    if flags.carry || msn > 9 || (msn == 9 && lsn > 9) {
      correction := correction + 0x60;
      flags := flags.(carry := true);
    }
    assert correction == Correction(cpu.state.a, cpu.state.flags.auxCarry, cpu.state.flags.carry);
    assert flags.carry == HighAdjust(cpu.state.a, cpu.state.flags.carry);

    var result := WrappingAdd8(state.a, correction);
    flags := flags.(sign := SignBit(result));
    flags := flags.(zero := result == 0);
    flags := flags.(auxCarry := LowNibble(state.a) + LowNibble(correction) > 0x0F);
    flags := flags.(parity := EvenOnes(result));
    state := state.(a := result, flags := flags);

    out := cpu.(state := state);
  }
}
