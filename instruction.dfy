/**
 * Instruction classes, opcode/funct3/funct7 numbering, the per-format field
 * records and the name tables used when printing a decoded instruction.
 */
module Instruction {
  import opened Bits
  import opened Registers

  /** `instruction_t`: the six base formats and an unrecognised opcode. */
  datatype InstrType = RType | IType | SType | UType | BType | JType | UnknownType

  /** `opcode_t`: any 7-bit value, named or not. */
  type Opcode = x: int | 0 <= x < 0x80

  const LOAD: Opcode := 0x03
  const IMM: Opcode := 0x13
  const AUIPC: Opcode := 0x17
  const STORE: Opcode := 0x23
  const BRANCH: Opcode := 0x63
  const JALR: Opcode := 0x67
  const NONIMM: Opcode := 0x33
  const LUI: Opcode := 0x37
  const JAL: Opcode := 0x6F
  const SYSTEM: Opcode := 0x73

  /** The ten opcodes the simulator names. */
  const NAMED_OPCODES: set<Opcode> :=
    {LOAD, IMM, AUIPC, STORE, BRANCH, JALR, NONIMM, LUI, JAL, SYSTEM}

  /** `funct3_t`: a 3-bit minor opcode. */
  type Funct3 = x: int | 0 <= x < 8

  const F3_000: Funct3 := 0x0
  const F3_001: Funct3 := 0x1
  const F3_010: Funct3 := 0x2
  const F3_011: Funct3 := 0x3
  const F3_100: Funct3 := 0x4
  const F3_101: Funct3 := 0x5
  const F3_110: Funct3 := 0x6
  const F3_111: Funct3 := 0x7

  /** `funct7_t`: a 7-bit minor opcode; only two values are named. */
  type Funct7 = x: int | 0 <= x < 0x80

  const F7_0000000: Funct7 := 0x00
  const F7_0100000: Funct7 := 0x20

  // The operation names the executor switches on, with the values listed
  // beside the two enums.
  const F3_ADD_SUB: Funct3 := F3_000
  const F3_SLL: Funct3 := F3_001
  const F3_SLT: Funct3 := F3_010
  const F3_SLTU: Funct3 := F3_011
  const F3_XOR: Funct3 := F3_100
  const F3_SRL_SRA: Funct3 := F3_101
  const F3_OR: Funct3 := F3_110
  const F3_AND: Funct3 := F3_111
  const F7_SUB: Funct7 := F7_0100000
  const F7_SRA: Funct7 := F7_0100000

  /** `imm_t`: every immediate is held sign-extended in an `int32_t`. */
  type Imm = int32

  /**
   * The per-format field records `r_fields` ... `j_fields`. `NoFields`
   * stands for the union that the decoder leaves unset for an unknown opcode.
   */
  datatype FormatFields =
    | RFields(rd: Reg, rs1: Reg, rs2: Reg, funct3: Funct3, funct7: Funct7)
    | IFields(rd: Reg, rs1: Reg, funct3: Funct3, imm: Imm)
    | SFields(rs1: Reg, rs2: Reg, funct3: Funct3, imm: Imm)
    | UFields(rd: Reg, imm: Imm)
    | BFields(rs1: Reg, rs2: Reg, funct3: Funct3, imm: Imm)
    | JFields(rd: Reg, imm: Imm)
    | NoFields

  /** The mnemonic selected by `f3` under opcode `opcode`, or "UNKNOWN". */
  function Funct3Name(opcode: Opcode, f3: Funct3): (name: string)
    ensures opcode == NONIMM || opcode == IMM ==> name != "UNKNOWN"
    ensures opcode == LOAD ==> (name == "LW" <==> f3 == F3_010) && (name == "UNKNOWN" <==> f3 != F3_010)
    ensures opcode == STORE ==> (name == "SW" <==> f3 == F3_010) && (name == "UNKNOWN" <==> f3 != F3_010)
    ensures opcode == BRANCH ==> (name == "UNKNOWN" <==> f3 == F3_010 || f3 == F3_011)
    ensures opcode !in {NONIMM, IMM, LOAD, STORE, BRANCH} ==> name == "UNKNOWN"
    ensures opcode == NONIMM && f3 == F3_000 ==> name == "ADD/SUB"
    ensures opcode == NONIMM && f3 == F3_101 ==> name == "SRL/SRA"
    ensures opcode == IMM && f3 == F3_101 ==> name == "SRLI/SRAI"
  {
    if opcode == NONIMM then
      match f3
      case 0 => "ADD/SUB"
      case 1 => "SLL"
      case 2 => "SLT"
      case 3 => "SLTU"
      case 4 => "XOR"
      case 5 => "SRL/SRA"
      case 6 => "OR"
      case 7 => "AND"
    else if opcode == IMM then
      match f3
      case 0 => "ADDI"
      case 2 => "SLTI"
      case 3 => "SLTIU"
      case 4 => "XORI"
      case 6 => "ORI"
      case 7 => "ANDI"
      case 1 => "SLLI"
      case 5 => "SRLI/SRAI"
    else if opcode == LOAD then
      if f3 == F3_010 then "LW" else "UNKNOWN"
    else if opcode == STORE then
      if f3 == F3_010 then "SW" else "UNKNOWN"
    else if opcode == BRANCH then
      match f3
      case 0 => "BEQ"
      case 1 => "BNE"
      case 4 => "BLT"
      case 5 => "BGE"
      case 6 => "BLTU"
      case 7 => "BGEU"
      case _ => "UNKNOWN"
    else
      "UNKNOWN"
  }

  /** The register-register operation that `funct7` selects, for NONIMM only. */
  function Funct7Name(opcode: Opcode, f3: Funct3, f7: Funct7): (name: string)
    ensures opcode != NONIMM ==> name == "UNUSED"
    ensures opcode == NONIMM && f3 == F3_000 ==>
      (name == "SUB" <==> f7 == F7_0100000) && (name == "ADD" <==> f7 != F7_0100000)
    ensures opcode == NONIMM && f3 == F3_101 ==>
      (name == "SRA" <==> f7 == F7_0100000) && (name == "SRL" <==> f7 != F7_0100000)
    ensures opcode == NONIMM && f3 != F3_000 && f3 != F3_101 ==> name == "STANDARD"
  {
    if opcode == NONIMM then
      if f3 == F3_000 then
        (if f7 == F7_0100000 then "SUB" else "ADD")
      else if f3 == F3_101 then
        (if f7 == F7_0100000 then "SRA" else "SRL")
      else
        "STANDARD"
    else
      "UNUSED"
  }

  /** The name of a major opcode, or "UNKNOWN" for the 118 unnamed values. */
  function OpcodeName(opcode: Opcode): (name: string)
    ensures name == "UNKNOWN" <==> opcode !in NAMED_OPCODES
    ensures opcode == SYSTEM <==> name == "SYSTEM"
    ensures opcode == NONIMM <==> name == "NONIMM"
    ensures opcode == IMM <==> name == "IMM"
    ensures opcode == LOAD <==> name == "LOAD"
    ensures opcode == STORE <==> name == "STORE"
    ensures opcode == BRANCH <==> name == "BRANCH"
    ensures opcode == AUIPC <==> name == "AUIPC"
    ensures opcode == JALR <==> name == "JALR"
    ensures opcode == LUI <==> name == "LUI"
    ensures opcode == JAL <==> name == "JAL"
  {
    if opcode == LOAD then "LOAD"
    else if opcode == IMM then "IMM"
    else if opcode == AUIPC then "AUIPC"
    else if opcode == STORE then "STORE"
    else if opcode == BRANCH then "BRANCH"
    else if opcode == JALR then "JALR"
    else if opcode == NONIMM then "NONIMM"
    else if opcode == LUI then "LUI"
    else if opcode == JAL then "JAL"
    else if opcode == SYSTEM then "SYSTEM"
    else "UNKNOWN"
  }
}
