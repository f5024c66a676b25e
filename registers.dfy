/**
 * The register file of the simulator: 32 general-purpose 32-bit registers
 * plus the program counter, the `reg_t` register numbering with its ABI
 * names, and the table that prints them.
 */
module Registers {
  import opened Bits

  const NUM_REGS: nat := 32

  /** A register number, `reg_t`; every value indexes the register file. */
  type Reg = r: int | 0 <= r < 32

  const ZERO: Reg := 0
  const RA: Reg := 1
  const SP: Reg := 2
  const GP: Reg := 3
  const TP: Reg := 4
  const T0: Reg := 5
  const T1: Reg := 6
  const T2: Reg := 7
  const S0: Reg := 8
  const FP: Reg := 8  // frame pointer: the same register as S0
  const S1: Reg := 9
  const A0: Reg := 10
  const A1: Reg := 11
  const A2: Reg := 12
  const A3: Reg := 13
  const A4: Reg := 14
  const A5: Reg := 15
  const A6: Reg := 16
  const A7: Reg := 17
  const S2: Reg := 18
  const S3: Reg := 19
  const S4: Reg := 20
  const S5: Reg := 21
  const S6: Reg := 22
  const S7: Reg := 23
  const S8: Reg := 24
  const S9: Reg := 25
  const S10: Reg := 26
  const S11: Reg := 27
  const T3: Reg := 28
  const T4: Reg := 29
  const T5: Reg := 30
  const T6: Reg := 31

  const REG_NAMES: seq<string> := [
    "ZERO", "RA", "SP", "GP", "TP", "T0", "T1", "T2",
    "S0/FP", "S1", "A0", "A1", "A2", "A3", "A4", "A5",
    "A6", "A7", "S2", "S3", "S4", "S5", "S6", "S7",
    "S8", "S9", "S10", "S11", "T3", "T4", "T5", "T6"
  ]

  /** The decimal digit character for `d`. */
  function DecimalDigit(d: nat): char
    requires d < 10
  {
    ('0' as int + d) as char
  }

  /**
   * The printable name of register `r`. The table has exactly `NUM_REGS`
   * entries, so only register numbers 0..31 have a name.
   */
  function RegName(r: Reg): (name: string)
    ensures |REG_NAMES| == NUM_REGS
    ensures name == "ZERO" <==> r == ZERO
    ensures r == S0 && r == FP ==> name == "S0/FP"
    ensures A0 <= r <= A7 ==> name == ['A', DecimalDigit(r - A0)]
    ensures T0 <= r <= T2 ==> name == ['T', DecimalDigit(r - T0)]
    ensures T3 <= r <= T6 ==> name == ['T', DecimalDigit(r - T3 + 3)]
  {
    REG_NAMES[r]
  }

  /**
   * The register state: `regs[NUM_REGS]` and `PC`. Register x0 is never
   * written by any handler, so it keeps the zero it starts with.
   */
  class RegisterFile {
    var regs: array<uint32>
    var pc: uint32

    ghost predicate Valid()
      reads this, regs
    {
      regs.Length == NUM_REGS && regs[ZERO] == 0
    }

    /** Statically allocated globals start out zero. */
    constructor ()
      ensures Valid() && fresh(regs)
      ensures regs[..] == seq(NUM_REGS, _ => 0) && pc == 0
    {
      regs := new uint32[NUM_REGS](_ => 0);
      pc := 0;
    }
  }
}
