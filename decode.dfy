/**
 * The modular decoder: classify the opcode into one of the six base formats,
 * then fill the record variant of that format from the word.
 */
module Decode {
  import opened Bits
  import opened Registers
  import opened Instruction
  import opened Fields

  /** `decoded_fields`: the class, the opcode and the format's fields. */
  datatype DecodedFields = DecodedFields(instrType: InstrType, opcode: Opcode, fields: FormatFields)

  /** The record variant that belongs to each class; an unknown class has none. */
  predicate FieldsFit(t: InstrType, f: FormatFields) {
    match t
    case RType => f.RFields?
    case IType => f.IFields?
    case SType => f.SFields?
    case UType => f.UFields?
    case BType => f.BFields?
    case JType => f.JFields?
    case UnknownType => f.NoFields?
  }

  /** The values an immediate of each format can take (section 2.3 of the RISC-V ISA). */
  predicate ImmInRange(f: FormatFields) {
    match f
    case IFields(_, _, _, imm) => -0x800 <= imm < 0x800
    case SFields(_, _, _, imm) => -0x800 <= imm < 0x800
    case UFields(_, imm) => imm % 0x1000 == 0
    case BFields(_, _, _, imm) => -0x1000 <= imm < 0x1000 && imm % 2 == 0
    case JFields(_, imm) => -0x10_0000 <= imm < 0x10_0000 && imm % 2 == 0
    case _ => true
  }

  /** A record the decoder can produce: consistent class, variant and immediate. */
  predicate WellFormed(d: DecodedFields) {
    d.instrType == GetInstructionType(d.opcode)
    && FieldsFit(d.instrType, d.fields)
    && ImmInRange(d.fields)
  }

  /** The class of an opcode; every 7-bit value has one. */
  function GetInstructionType(opcode: Opcode): (t: InstrType)
    ensures t == RType <==> opcode == NONIMM
    ensures t == IType <==> opcode in {LOAD, IMM, JALR, SYSTEM}
    ensures t == SType <==> opcode == STORE
    ensures t == UType <==> opcode in {AUIPC, LUI}
    ensures t == BType <==> opcode == BRANCH
    ensures t == JType <==> opcode == JAL
    ensures t == UnknownType <==> opcode !in NAMED_OPCODES
  {
    if opcode == NONIMM then RType
    else if opcode == LOAD then IType
    else if opcode == IMM then IType
    else if opcode == JALR then IType
    else if opcode == SYSTEM then IType
    else if opcode == STORE then SType
    else if opcode == AUIPC then UType
    else if opcode == LUI then UType
    else if opcode == BRANCH then BType
    else if opcode == JAL then JType
    else UnknownType
  }

  /**
   * Fill the record of class `instrType` from `instr`. Each immediate is the
   * format's bit pattern sign-extended from bit 31 of the word (U keeps the
   * upper 20 bits in place).
   */
  function GetRelevantFields(instrType: InstrType, opcode: Opcode, instr: uint32): (d: DecodedFields)
    ensures d.instrType == instrType && d.opcode == opcode
    ensures FieldsFit(instrType, d.fields) && ImmInRange(d.fields)
    ensures (d.fields.RFields? || d.fields.IFields? || d.fields.UFields? || d.fields.JFields?) ==>
      d.fields.rd == (instr / 0x80) % 0x20
    ensures (d.fields.RFields? || d.fields.IFields? || d.fields.SFields? || d.fields.BFields?) ==>
      d.fields.rs1 == (instr / 0x8000) % 0x20 && d.fields.funct3 == (instr / 0x1000) % 0x8
    ensures (d.fields.RFields? || d.fields.SFields? || d.fields.BFields?) ==>
      d.fields.rs2 == (instr / 0x10_0000) % 0x20
    ensures d.fields.RFields? ==> d.fields.funct7 == instr / 0x200_0000
    ensures d.fields.IFields? ==> d.fields.imm == SignExtend(IImmBits(instr), 12)
    ensures d.fields.SFields? ==> d.fields.imm == SignExtend(SImmBits(instr), 12)
    ensures d.fields.UFields? ==> ToUint32(d.fields.imm) == UImmBits(instr)
    ensures d.fields.BFields? ==> d.fields.imm == SignExtend(BImmBits(instr), 13)
    ensures d.fields.JFields? ==> d.fields.imm == SignExtend(JImmBits(instr), 21)
  {
    var fields :=
      match instrType
      case RType => RFields(GetRd(instr), GetRs1(instr), GetRs2(instr), GetFunct3(instr), GetFunct7(instr))
      case IType => IFields(GetRd(instr), GetRs1(instr), GetFunct3(instr), GetImmIFormat(instr))
      case SType => SFields(GetRs1(instr), GetRs2(instr), GetFunct3(instr), GetImmSFormat(instr))
      case UType => UFields(GetRd(instr), GetImmUFormat(instr))
      case BType => BFields(GetRs1(instr), GetRs2(instr), GetFunct3(instr), GetImmBFormat(instr))
      case JType => JFields(GetRd(instr), GetImmJFormat(instr))
      case UnknownType => NoFields;
    DecodedFields(instrType, opcode, fields)
  }

  /** Decode a word: opcode from bits [6:0], class from the opcode, then the fields. */
  function DecodeInstruction(instr: uint32): (d: DecodedFields)
    ensures d.opcode == instr % 0x80
    ensures d.instrType == GetInstructionType(instr % 0x80)
    ensures WellFormed(d)
  {
    var opcode := GetOpcode(instr);
    var instrType := GetInstructionType(opcode);
    GetRelevantFields(instrType, opcode, instr)
  }
}
