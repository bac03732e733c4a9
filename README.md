# DAA: decimal adjust accumulator

This project models a small 8080-style CPU emulation service. The service takes
a CPU record, applies the DAA ("decimal adjust accumulator") instruction to it
and returns the updated record. The model covers that instruction and the
records it works on. It also proves the properties the instruction promises.

- `bits.dfy` (module `Bits`): fixed-width integers (`U8`, `U16`, `U64`). Also
  wrapping addition, the high and low nibble, the sign bit, and the set-bit
  count behind the parity flag. These are defined arithmetically. Lemmas on
  `bv8` prove that the code's `>> 4`, `& 0x0F` and `& 0x80` compute the same
  values. `count_ones()` is modelled by `CountOnes`, the sum of the binary
  digits; a lemma proves that on a byte this is the number of bits `i < 8`
  with `(x >> i) & 1 == 1`. The `& 1` the code applies to the count, a
  `u32`, is bridged by a lemma on `bv32`.
- `cpu.dfy` (module `Machine`): the records `CpuFlags`, `CpuState` and `Cpu`,
  from `src/main.rs:7-36`. Every field keeps its width as a subset type:
  registers `a` to `l` are `U8`, the stack pointer and program counter are
  `U16`, and `cycles` is `U64`. The request's `id` is a string that nothing
  reads. The `opcode` is a byte that nothing reads either.
- `daa.dfy` (module `Daa`): the correction byte, and `Adjust`, the new state
  as a pure function of the old one. Also `Execute`, a method that updates
  the record step by step in the program's own order. It is proved to produce
  exactly `Adjust` of the input state, with `id` and `opcode` unchanged.
- `daa_properties.dfy` (module `DaaProperties`): what DAA promises, proved
  about `Adjust` for every input. This covers the cycle wrap-around, the carry
  rules, the meaning of each flag, which fields change, and the worked
  examples. It also proves what DAA is for: after a binary addition of two
  packed-BCD bytes, DAA leaves the packed-BCD decimal sum in the accumulator.
  Packed BCD holds one decimal digit per nibble.

The record is a value here. In the program, `execute` takes the record by
value (`mut cpu: Cpu`), changes its fields one at a time and hands it on to
the reply. Nothing else can see it, so nothing is aliased. `Execute` follows
the same order. It first adds 4 to the cycle counter. It then builds the
correction in a mutable local, adding 0x60 and setting the carry together.
It then writes sign, zero, aux carry and parity, computing aux carry from the
*original* accumulator. It writes the accumulator last.

The model follows the code of `execute` (src/main.rs:38-55).

One consequence of the code, proved in
`DaaProperties.AuxCarryFromOriginalLowNibble`: the output aux carry depends
only on the input low nibble (set exactly when it is 10 or more). The input
aux carry only decides whether 0x06 is added.

## Model

| member | source | states |
|---|---|---|
| `Bits.WrappingAdd8` | src/main.rs:50 | `u8::wrapping_add`: the sum if it is below 256, otherwise the sum less 256 |
| `Bits.WrappingAdd64` | src/main.rs:39 | `u64::wrapping_add`: the sum if it is below 2^64, otherwise the sum less 2^64 |
| `Bits.HighNibble` | src/main.rs:41 | `msn`: the byte divided by 16, always in 0..15 |
| `Bits.LowNibble` | src/main.rs:42 | `lsn`: the byte modulo 16, always in 0..15 |
| `Bits.ShiftRightIsHighNibble` | src/main.rs:41 | `a >> 4` on a byte is the high nibble, `a / 16` |
| `Bits.MaskIsLowNibble` | src/main.rs:42 | `a & 0x0F` on a byte is the low nibble, `a % 16` |
| `Bits.NibblesCompose` | src/main.rs:41-42 | a byte is 16 times its high nibble plus its low nibble |
| `Bits.SignMaskIsSignBit` | src/main.rs:51 | `(r & 0x80) == 0x80` holds exactly when bit 7 is set, that is, when `r >= 0x80` |
| `Bits.SignBit` | src/main.rs:51 | the sign test: the high nibble is 8 or more, that is, bit 7 is set |
| `Bits.CountOnes` | src/main.rs:54 | `count_ones()`: the sum of the binary digits of its argument |
| `Bits.CountOnesIsSetBits` | src/main.rs:54 | on a byte, `CountOnes` equals the number of bits `i` in 0..7 with `(x >> i) & 1 == 1`, which is what `count_ones()` returns |
| `Bits.CountOnesBound` | src/main.rs:54 | a number below 2^k has at most k set bits, so a byte has at most 8 |
| `Bits.EvenOnes` | src/main.rs:54 | the parity flag's value: the byte's set-bit count is even |
| `Bits.LowBitClearIsEven` | src/main.rs:54 | for every `n` that fits a `u32`, `(n & 1) == 0` on 32 bits holds exactly when `n` is even |
| `Bits.ParityMaskIsEvenOnes` | src/main.rs:54 | a byte has at most 8 set bits, and `(r.count_ones() & 1) == 0`, masked as a `u32`, holds exactly when the set-bit count is even |
| `Bits.EvenCountIsZeroXor` | src/main.rs:54 | for a number below 2^k, the set-bit count is even exactly when the exclusive or of its k bits is 0 (the reference definition of parity) |
| `Bits.EvenOnesIsZeroXor` | src/main.rs:54 | a byte has an even number of set bits exactly when the exclusive or of its eight bits is 0 |
| `Machine.CpuFlags` | src/main.rs:7-14 | the five flags, each a boolean |
| `Machine.CpuState` | src/main.rs:16-29 | registers `a` to `l` as bytes, stack pointer and program counter as 16-bit values, the cycle counter as a 64-bit value, and the flags |
| `Machine.Cpu` | src/main.rs:31-36 | the request: the state, the caller's identifier string and the opcode byte |
| `Daa.Adjust` | src/main.rs:39-55 | the whole transform as a function of the input state; what it promises is proved in the `DaaProperties` lemmas below, and `Daa.Execute` is proved equal to it |
| `Daa.LowAdjust` | src/main.rs:44 | the 0x06 condition: the input aux carry is set or `lsn > 9` |
| `Daa.HighAdjust` | src/main.rs:45 | the 0x60 and carry condition: the input carry is set, `msn > 9`, or `msn == 9 && lsn > 9` |
| `Daa.Correction` | src/main.rs:44-46 | the correction is one of 0x00, 0x06, 0x60, 0x66; its low nibble is 6 exactly when aux carry is set or the low nibble is above 9; its high nibble is 6 exactly when carry is set, the high nibble is above 9, or it is 9 with a low nibble above 9; `+= 0x60` cannot overflow the byte |
| `Daa.Execute` | src/main.rs:38-57 | the step-by-step update yields exactly `Adjust` of the input state; `id` and `opcode` come back unchanged |
| `DaaProperties.CyclesAdvanceByFour` | src/main.rs:39 | output cycles = (input cycles + 4) mod 2^64 |
| `DaaProperties.CyclesWrapAtMaximum` | src/main.rs:39 | input cycles `u64::MAX` gives output cycles 3 |
| `DaaProperties.AccumulatorGetsCorrection` | src/main.rs:44-55 | output `a` = (input `a` + correction) mod 256 |
| `DaaProperties.DecimalInputUnchanged` | src/main.rs:44-55 | with both carries clear and both nibbles at most 9, `a` is unchanged and carry stays clear |
| `DaaProperties.CarryIsSticky` | src/main.rs:45-48 | a set input carry gives a set output carry |
| `DaaProperties.CarryOutCharacterized` | src/main.rs:45-48 | output carry holds exactly when input carry is set, the high nibble is above 9, or it is 9 with a low nibble above 9; equivalently, when the correction includes 0x60; otherwise the carry keeps its input value |
| `DaaProperties.SignAndZeroDescribeResult` | src/main.rs:51-52 | output sign holds exactly when `(a & 0x80) == 0x80`, that is `a >= 0x80`, for the output `a`; output zero holds exactly when the output `a` is 0 |
| `DaaProperties.AuxCarryFromOriginalLowNibble` | src/main.rs:53 | output aux carry holds exactly when the original low nibble plus the correction's low nibble exceeds 0x0F; equivalently, when 0x06 was applied to a low nibble of 10 or more; equivalently, when the original low nibble is at least 10 |
| `DaaProperties.ParityDescribesResult` | src/main.rs:54 | output parity holds exactly when the output `a` has an even number of set bits, that is, when the exclusive or of its bits is 0 |
| `DaaProperties.OnlyAccumulatorCyclesAndFlagsChange` | src/main.rs:38-57 | `b`, `c`, `d`, `e`, `h`, `l`, the stack pointer and the program counter keep their input values |
| `DaaProperties.CorrectionAfterBcdAddition` | src/main.rs:41-48 | after adding two packed-BCD bytes, the correction is 0x06 for a low digit sum of 10 or more, plus 0x60 when the high digit sum, with the decimal carry from the low digits, reaches 10 |
| `DaaProperties.CorrectionRestoresDigits` | src/main.rs:44-50 | adding that correction to the binary sum, modulo 256, gives the packed-BCD digits of the decimal sum |
| `DaaProperties.CorrectedBcdSum` | src/main.rs:41-50 | from the accumulator and carries that adding two packed-BCD bytes leaves, the corrected byte is packed BCD and encodes the decimal sum mod 100; the 0x60 part is applied exactly when the sum reaches 100 |
| `DaaProperties.DaaAfterBcdAddition` | src/main.rs:38-55 | after a binary addition of two packed-BCD bytes, the output `a` is packed BCD for the decimal sum mod 100, and the output carry holds exactly when the decimal sum is at least 100 |
| `DaaProperties.Example9A` | src/main.rs:38-55 | `a = 0x9A` with both carries clear: `a = 0x00`, zero, carry, aux carry and parity set, sign clear |
| `DaaProperties.Example05` | src/main.rs:38-55 | `a = 0x05` with both carries clear: `a` is unchanged, parity set, every other flag clear |
| `DaaProperties.Example00WithCarry` | src/main.rs:38-55 | `a = 0x00` with carry set: `a = 0x60`, carry and parity set, sign, zero and aux carry clear |

## Left out

- The HTTP server is not part of this model. That covers the `/status` health
  route, the `/api/v1/execute` route, the 16 KiB body limit and the bind
  address (src/main.rs:60-75). They are network plumbing around the
  transform.
- JSON (de)serialization is not modelled. That covers the serde derives, the
  field renames (`auxCarry`, `stackPointer`, `programCounter`) and
  `warp::reply::json` (src/main.rs:4, 7-36, 57). `Execute` returns the updated
  record; turning it into a reply is foreign serialization. A malformed
  payload is rejected by that layer before `execute` runs. So the model has no
  error path, and none of its members has a precondition on the record.
- The `async` function, the `tokio` runtime and the unused `reqwest` crate are
  not modelled (src/main.rs:1-2, 38, 60). The transform has no suspension
  point and shares no state.
- Opcode dispatch is not modelled because the program has none. `opcode` is
  carried through unread, and so is `id`. The program gives DAA semantics to
  every opcode value.
- Overflow panics in debug builds are not modelled, because the program
  cannot reach one. `correction += 0x60` stays within a byte: `Execute`
  checks this as a subset-type obligation, and `Daa.Correction` states it.
  `(a & 0x0f) + (correction & 0x0f)` is at most 21.
