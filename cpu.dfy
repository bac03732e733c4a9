/** The records the DAA service receives and returns: the flag register,
    the register file with its counters, and the request wrapper. */
module Machine {
  import opened Bits

  /** The five condition flags of an 8080-style CPU. */
  datatype CpuFlags = CpuFlags(
    sign: bool,
    zero: bool,
    auxCarry: bool,
    parity: bool,
    carry: bool)

  /** Seven 8-bit registers, the 16-bit stack pointer and program counter,
      the 64-bit cycle counter and the flags. */
  datatype CpuState = CpuState(
    a: U8,
    b: U8,
    c: U8,
    d: U8,
    e: U8,
    h: U8,
    l: U8,
    stackPointer: U16,
    programCounter: U16,
    cycles: U64,
    flags: CpuFlags)

  /** A request: the state, an identifier the caller chooses and the
      transform never looks at, and the opcode byte, which is not
      dispatched on either. */
  datatype Cpu = Cpu(state: CpuState, id: string, opcode: U8)
}
