/**
 * The stand-alone decoder: one flat record holding every raw field of the
 * word and one immediate chosen by a switch on the opcode. The immediates are
 * sign-extended the second way the simulator knows: test the pattern's top
 * bit and OR ones into the bits above it.
 */
module Decoder {
  import opened Bits
  import opened Registers
  import opened Instruction
  import opened Fields
  import opened Decode

  /** The `Instruction` record: all six raw fields and the immediate. */
  datatype FlatInstruction = FlatInstruction(
    opcode: Opcode, rd: Reg, funct3: Funct3, rs1: Reg, rs2: Reg, funct7: Funct7, imm: Imm)

  /** I-type: the word read as `int32_t` and shifted right arithmetically by 20. */
  function RiscvImmI(w: uint32): (imm: Imm)
    ensures imm == SignExtend(IImmBits(w), 12)
  {
    TopFieldSignExtends(w);
    Asr(ToInt32(w), 20)
  }

  /** S-type: imm[11:5] and imm[4:0] ORed together, then bits 31..12 set when bit 11 is. */
  function RiscvImmS(w: uint32): (imm: Imm)
    ensures imm == SignExtend(SImmBits(w), 12)
  {
    var imm11_5 := And(Shr(w, 25), 0x7F);
    var imm4_0 := And(Shr(w, 7), 0x1F);
    var raw := Or(Shl32(imm11_5, 5), imm4_0);
    PackedS(w);
    assert Pow2(11) == 0x800 && Pow2(12) == 0x1000 by {
      Pow2Small();
    }
    OrSignExtends(raw, 12, 0x800, 0xFFFF_F000);
    if And(raw, 0x800) != 0 then ToInt32(Or(raw, 0xFFFF_F000)) else raw
  }

  /** B-type: imm[12|11|10:5|4:1] ORed together, then bits 31..13 set when bit 12 is. */
  function RiscvImmB(w: uint32): (imm: Imm)
    ensures imm == SignExtend(BImmBits(w), 13)
  {
    var imm12 := And(Shr(w, 31), 0x1);
    var imm10_5 := And(Shr(w, 25), 0x3F);
    var imm4_1 := And(Shr(w, 8), 0x0F);
    var imm11 := And(Shr(w, 7), 0x01);
    var raw := Or(Or(Or(Shl32(imm12, 12), Shl32(imm11, 11)), Shl32(imm10_5, 5)), Shl32(imm4_1, 1));
    PackedB(w);
    assert Pow2(12) == 0x1000 && Pow2(13) == 0x2000 by {
      Pow2Small();
    }
    OrSignExtends(raw, 13, 0x1000, 0xFFFF_E000);
    if And(raw, 0x1000) != 0 then ToInt32(Or(raw, 0xFFFF_E000)) else raw
  }

  /** U-type: the word with its low 12 bits cleared, read as `int32_t`. */
  function RiscvImmU(w: uint32): (imm: Imm)
    ensures ToUint32(imm) == UImmBits(w)
  {
    assert And(w, 0xFFFF_F000) == UImmBits(w) by {
      Pow2Small();
      Pow2Large();
      AndHighMask(w, 32, 12);
    }
    CastRoundTrip(And(w, 0xFFFF_F000));
    ToInt32(And(w, 0xFFFF_F000))
  }

  /** J-type: imm[20|19:12|11|10:1] ORed together, then bits 31..21 set when bit 20 is. */
  function RiscvImmJ(w: uint32): (imm: Imm)
    ensures imm == SignExtend(JImmBits(w), 21)
  {
    var imm20 := And(Shr(w, 31), 0x1);
    var imm10_1 := And(Shr(w, 21), 0x3FF);
    var imm11 := And(Shr(w, 20), 0x1);
    var imm19_12 := And(Shr(w, 12), 0xFF);
    var raw := Or(Or(Or(Shl32(imm20, 20), Shl32(imm19_12, 12)), Shl32(imm11, 11)), Shl32(imm10_1, 1));
    PackedJ(w);
    assert Pow2(20) == 0x10_0000 && Pow2(21) == 0x20_0000 by {
      Pow2Small();
      Pow2Large();
    }
    OrSignExtends(raw, 21, 0x10_0000, 0xFFE0_0000);
    if And(raw, 0x10_0000) != 0 then ToInt32(Or(raw, 0xFFE0_0000)) else raw
  }

  /**
   * `decode_riscv`: the six raw fields always, the immediate of the format
   * the opcode selects, and 0 for any other opcode (SYSTEM included).
   */
  function DecodeRiscv(instr: uint32): (d: FlatInstruction)
    ensures d.opcode == instr % 0x80 && d.rd == (instr / 0x80) % 0x20
    ensures d.funct3 == (instr / 0x1000) % 8 && d.rs1 == (instr / 0x8000) % 0x20
    ensures d.rs2 == (instr / 0x10_0000) % 0x20 && d.funct7 == instr / 0x200_0000
    ensures d.opcode in {LOAD, IMM, JALR} ==> d.imm == SignExtend(IImmBits(instr), 12)
    ensures d.opcode == STORE ==> d.imm == SignExtend(SImmBits(instr), 12)
    ensures d.opcode == BRANCH ==> d.imm == SignExtend(BImmBits(instr), 13)
    ensures d.opcode in {AUIPC, LUI} ==> ToUint32(d.imm) == UImmBits(instr)
    ensures d.opcode == JAL ==> d.imm == SignExtend(JImmBits(instr), 21)
    ensures d.opcode !in {LOAD, IMM, JALR, STORE, BRANCH, AUIPC, LUI, JAL} ==> d.imm == 0
  {
    var opcode := GetOpcode(instr);
    var imm :=
      if opcode == LOAD || opcode == IMM || opcode == JALR then RiscvImmI(instr)
      else if opcode == STORE then RiscvImmS(instr)
      else if opcode == BRANCH then RiscvImmB(instr)
      else if opcode == AUIPC || opcode == LUI then RiscvImmU(instr)
      else if opcode == JAL then RiscvImmJ(instr)
      else 0;
    FlatInstruction(opcode, GetRd(instr), GetFunct3(instr), GetRs1(instr), GetRs2(instr), GetFunct7(instr), imm)
  }

  /** The S-type fields ORed together form the S-type pattern. */
  lemma PackedS(w: uint32)
    ensures Or(Shl32(And(Shr(w, 25), 0x7F), 5), And(Shr(w, 7), 0x1F)) == SImmBits(w)
  {
    Pow2Small();
    Pow2Large();
    AndLowMask(Shr(w, 25), 7);
    AndLowMask(Shr(w, 7), 5);
    PackS(And(Shr(w, 25), 0x7F), And(Shr(w, 7), 0x1F));
  }

  /** The B-type fields ORed together form the B-type pattern. */
  lemma PackedB(w: uint32)
    ensures Or(Or(Or(Shl32(And(Shr(w, 31), 0x1), 12), Shl32(And(Shr(w, 7), 0x01), 11)),
                  Shl32(And(Shr(w, 25), 0x3F), 5)), Shl32(And(Shr(w, 8), 0x0F), 1))
         == BImmBits(w)
  {
    var imm12, imm11 := And(Shr(w, 31), 0x1), And(Shr(w, 7), 0x01);
    var imm10_5, imm4_1 := And(Shr(w, 25), 0x3F), And(Shr(w, 8), 0x0F);
    assert imm12 == (w / 0x8000_0000) % 2 && imm11 == (w / 0x80) % 2 by {
      Pow2Small();
      Pow2Large();
      AndLowMask(Shr(w, 31), 1);
      AndLowMask(Shr(w, 7), 1);
    }
    assert imm10_5 == (w / 0x200_0000) % 0x40 && imm4_1 == (w / 0x100) % 0x10 by {
      Pow2Small();
      Pow2Large();
      AndLowMask(Shr(w, 25), 6);
      AndLowMask(Shr(w, 8), 4);
    }
    PackB(imm12, imm11, imm10_5, imm4_1);
  }

  /** The J-type fields ORed together form the J-type pattern. */
  lemma PackedJ(w: uint32)
    ensures Or(Or(Or(Shl32(And(Shr(w, 31), 0x1), 20), Shl32(And(Shr(w, 12), 0xFF), 12)),
                  Shl32(And(Shr(w, 20), 0x1), 11)), Shl32(And(Shr(w, 21), 0x3FF), 1))
         == JImmBits(w)
  {
    var imm20, imm10_1 := And(Shr(w, 31), 0x1), And(Shr(w, 21), 0x3FF);
    var imm11, imm19_12 := And(Shr(w, 20), 0x1), And(Shr(w, 12), 0xFF);
    assert imm20 == (w / 0x8000_0000) % 2 && imm10_1 == (w / 0x20_0000) % 0x400 by {
      Pow2Small();
      Pow2Large();
      AndLowMask(Shr(w, 31), 1);
      AndLowMask(Shr(w, 21), 10);
    }
    assert imm11 == (w / 0x10_0000) % 2 && imm19_12 == (w / 0x1000) % 0x100 by {
      Pow2Small();
      Pow2Large();
      AndLowMask(Shr(w, 20), 1);
      AndLowMask(Shr(w, 12), 8);
    }
    PackJ(imm20, imm19_12, imm11, imm10_1);
  }

  /** The top 12 bits of a word, as an arithmetic shift of `(int32_t)w` by 20 leaves them. */
  lemma TopFieldSignExtends(w: uint32)
    ensures ToInt32(w) / Pow2(20) == SignExtend(IImmBits(w), 12)
  {
    var q := w / 0x10_0000;
    assert Pow2(11) == 0x800 && Pow2(12) == 0x1000 && Pow2(20) == 0x10_0000 by {
      Pow2Small();
      Pow2Large();
    }
    SignBitField(w, 0x10_0000, 0x800);
    assert IImmBits(w) == q;
    if w >= 0x8000_0000 {
      DivSubMultiple(w, 0x1000, 0x10_0000);
    }
  }

  // ---------------------------------------------------------------------
  // The two decoders side by side.

  /**
   * For every opcode but SYSTEM the stand-alone decoder agrees with the
   * modular one: the same registers, minor opcodes and immediate for every
   * format, and immediate 0 for R-type and unknown opcodes.
   */
  lemma DecodersAgree(w: uint32)
    requires w % 0x80 != SYSTEM
    ensures var flat, d := DecodeRiscv(w), DecodeInstruction(w);
      flat.opcode == d.opcode
      && (d.fields.RFields? ==>
            flat.imm == 0 && d.fields == RFields(flat.rd, flat.rs1, flat.rs2, flat.funct3, flat.funct7))
      && (d.fields.IFields? ==> d.fields == IFields(flat.rd, flat.rs1, flat.funct3, flat.imm))
      && (d.fields.SFields? ==> d.fields == SFields(flat.rs1, flat.rs2, flat.funct3, flat.imm))
      && (d.fields.UFields? ==> d.fields == UFields(flat.rd, flat.imm))
      && (d.fields.BFields? ==> d.fields == BFields(flat.rs1, flat.rs2, flat.funct3, flat.imm))
      && (d.fields.JFields? ==> d.fields == JFields(flat.rd, flat.imm))
      && (d.fields.NoFields? ==> flat.imm == 0)
  {
    var flat, d := DecodeRiscv(w), DecodeInstruction(w);
    if d.fields.UFields? {
      Int32RoundTrip(flat.imm);
      Int32RoundTrip(d.fields.imm);
    }
  }

  /**
   * On a SYSTEM word the two decoders part: the modular one treats it as
   * I-type and sign-extends bits [31:20], the stand-alone one leaves 0. They
   * agree exactly when those bits are clear (ECALL, 0x00000073), and differ
   * otherwise (EBREAK, 0x00100073: 1 against 0).
   */
  lemma SystemImmediates(w: uint32)
    requires w % 0x80 == SYSTEM
    ensures DecodeRiscv(w).imm == 0
    ensures DecodeInstruction(w).fields.IFields?
    ensures DecodeInstruction(w).fields.imm == SignExtend(IImmBits(w), 12)
    ensures DecodeInstruction(w).fields.imm == DecodeRiscv(w).imm <==> w < 0x10_0000
  {
    assert Pow2(11) == 0x800 && Pow2(12) == 0x1000 by {
      Pow2Small();
    }
    SignBitField(w, 0x10_0000, 0x800);
    DivLess(w, 0x10_0000, 1);
  }
}
