/**
 * A reference encoder for the six base formats, written from the layouts of
 * section 2.2 and 2.3 of the RISC-V Unprivileged ISA. It is the inverse that
 * the decoder is checked against: decoding an encoded record gives the record
 * back, and encoding a decoded word gives the word back, for every word whose
 * opcode names a format.
 */
module Encode {
  import opened Bits
  import opened Registers
  import opened Instruction
  import opened Fields
  import opened Decode

  /** The word with the six raw fields at bits [6:0], [11:7], [14:12], [19:15], [24:20], [31:25]. */
  function Assemble(opcode: Opcode, rd: Reg, funct3: Funct3, rs1: Reg, rs2: Reg, funct7: Funct7): uint32 {
    funct7 * 0x200_0000 + rs2 * 0x10_0000 + rs1 * 0x8000 + funct3 * 0x1000 + rd * 0x80 + opcode
  }

  /** Every extractor reads back the field that was put in its place. */
  lemma AssembleFields(opcode: Opcode, rd: Reg, funct3: Funct3, rs1: Reg, rs2: Reg, funct7: Funct7)
    ensures var w := Assemble(opcode, rd, funct3, rs1, rs2, funct7);
      GetOpcode(w) == opcode && GetRd(w) == rd && GetFunct3(w) == funct3
      && GetRs1(w) == rs1 && GetRs2(w) == rs2 && GetFunct7(w) == funct7
  {
    var w := Assemble(opcode, rd, funct3, rs1, rs2, funct7);
    Digit(w, 1, 0x80, (w - opcode) / 0x80, opcode, 0);
    Digit(w, 0x80, 0x20, funct7 * 0x2000 + rs2 * 0x100 + rs1 * 8 + funct3, rd, opcode);
    Digit(w, 0x1000, 8, funct7 * 0x400 + rs2 * 0x20 + rs1, funct3, rd * 0x80 + opcode);
    Digit(w, 0x8000, 0x20, funct7 * 0x20 + rs2, rs1, funct3 * 0x1000 + rd * 0x80 + opcode);
    Digit(w, 0x10_0000, 0x20, funct7, rs2, rs1 * 0x8000 + funct3 * 0x1000 + rd * 0x80 + opcode);
    Digit(w, 0x200_0000, 0x80, 0, funct7, rs2 * 0x10_0000 + rs1 * 0x8000 + funct3 * 0x1000 + rd * 0x80 + opcode);
  }

  /** The six raw fields cover the whole word. */
  lemma {:induction false} Partition(w: uint32)
    ensures Assemble(GetOpcode(w), GetRd(w), GetFunct3(w), GetRs1(w), GetRs2(w), GetFunct7(w)) == w
  {
    DivDiv(w, 0x80, 0x20);
    DivDiv(w, 0x1000, 8);
    DivDiv(w, 0x8000, 0x20);
    DivDiv(w, 0x10_0000, 0x20);
  }

  // ---------------------------------------------------------------------
  // Where each format keeps its immediate, stated on an assembled word.

  /** B-type: imm[12] and imm[10:5] sit in funct7, imm[4:1] and imm[11] in rd. */
  function BLayout(rd: Reg, funct7: Funct7): nat {
    (funct7 / 0x40) * 0x1000 + (rd % 2) * 0x800 + (funct7 % 0x40) * 0x20 + (rd / 2) * 2
  }

  /** J-type: imm[19:12] in funct3 and rs1, imm[11] and imm[4:1] in rs2, imm[20] and imm[10:5] in funct7. */
  function JLayout(funct3: Funct3, rs1: Reg, rs2: Reg, funct7: Funct7): nat {
    (funct7 / 0x40) * 0x10_0000 + (rs1 * 8 + funct3) * 0x1000
      + (rs2 % 2) * 0x800 + ((funct7 % 0x40) * 0x10 + rs2 / 2) * 2
  }

  lemma LayoutI(opcode: Opcode, rd: Reg, funct3: Funct3, rs1: Reg, rs2: Reg, funct7: Funct7)
    ensures IImmBits(Assemble(opcode, rd, funct3, rs1, rs2, funct7)) == funct7 * 0x20 + rs2
  {
    var w := Assemble(opcode, rd, funct3, rs1, rs2, funct7);
    Digit(w, 0x10_0000, 0x1000, 0, funct7 * 0x20 + rs2, rs1 * 0x8000 + funct3 * 0x1000 + rd * 0x80 + opcode);
  }

  lemma LayoutS(opcode: Opcode, rd: Reg, funct3: Funct3, rs1: Reg, rs2: Reg, funct7: Funct7)
    ensures SImmBits(Assemble(opcode, rd, funct3, rs1, rs2, funct7)) == funct7 * 0x20 + rd
  {
    AssembleFields(opcode, rd, funct3, rs1, rs2, funct7);
    var w := Assemble(opcode, rd, funct3, rs1, rs2, funct7);
    Digit(w, 0x200_0000, 0x80, 0, funct7, rs2 * 0x10_0000 + rs1 * 0x8000 + funct3 * 0x1000 + rd * 0x80 + opcode);
  }

  lemma LayoutU(opcode: Opcode, rd: Reg, funct3: Funct3, rs1: Reg, rs2: Reg, funct7: Funct7)
    ensures UImmBits(Assemble(opcode, rd, funct3, rs1, rs2, funct7)) == Assemble(0, 0, funct3, rs1, rs2, funct7)
  {
    var w := Assemble(opcode, rd, funct3, rs1, rs2, funct7);
    Digit(w, 0x1000, 0x10_0000, 0, funct7 * 0x2000 + rs2 * 0x100 + rs1 * 8 + funct3, rd * 0x80 + opcode);
  }

  lemma LayoutB(opcode: Opcode, rd: Reg, funct3: Funct3, rs1: Reg, rs2: Reg, funct7: Funct7)
    ensures BImmBits(Assemble(opcode, rd, funct3, rs1, rs2, funct7)) == BLayout(rd, funct7)
  {
    var w := Assemble(opcode, rd, funct3, rs1, rs2, funct7);
    var upper := rs2 * 0x10_0000 + rs1 * 0x8000 + funct3 * 0x1000;
    var high := funct7 * 0x2000 + rs2 * 0x100 + rs1 * 8 + funct3;
    Digit(w, 0x8000_0000, 2, 0, funct7 / 0x40, (funct7 % 0x40) * 0x200_0000 + upper + rd * 0x80 + opcode);
    Digit(w, 0x200_0000, 0x40, funct7 / 0x40, funct7 % 0x40, upper + rd * 0x80 + opcode);
    Digit(w, 0x100, 0x10, high, rd / 2, (rd % 2) * 0x80 + opcode);
    Digit(w, 0x80, 2, high * 0x10 + rd / 2, rd % 2, opcode);
  }

  lemma LayoutJ(opcode: Opcode, rd: Reg, funct3: Funct3, rs1: Reg, rs2: Reg, funct7: Funct7)
    ensures JImmBits(Assemble(opcode, rd, funct3, rs1, rs2, funct7)) == JLayout(funct3, rs1, rs2, funct7)
  {
    var w := Assemble(opcode, rd, funct3, rs1, rs2, funct7);
    var lower := rs1 * 0x8000 + funct3 * 0x1000 + rd * 0x80 + opcode;
    Digit(w, 0x8000_0000, 2, 0, funct7 / 0x40, (funct7 % 0x40) * 0x200_0000 + rs2 * 0x10_0000 + lower);
    Digit(w, 0x1000, 0x100, funct7 * 0x20 + rs2, rs1 * 8 + funct3, rd * 0x80 + opcode);
    Digit(w, 0x10_0000, 2, funct7 * 0x10 + rs2 / 2, rs2 % 2, lower);
    Digit(w, 0x20_0000, 0x400, funct7 / 0x40, (funct7 % 0x40) * 0x10 + rs2 / 2, (rs2 % 2) * 0x10_0000 + lower);
  }

  // ---------------------------------------------------------------------
  // Scattering an immediate pattern over the register and funct fields.

  /** I- and S-type: imm[4:0] goes to rs2 or rd. */
  function Low5(u: nat): Reg {
    u % 0x20
  }

  /** I- and S-type: imm[11:5] goes to funct7. */
  function High7(u: nat): Funct7
    requires u < 0x1000
  {
    u / 0x20
  }

  lemma SplitGather(u: nat)
    requires u < 0x1000
    ensures High7(u) * 0x20 + Low5(u) == u
  {
  }

  lemma GatherSplit(high: Funct7, low: Reg)
    ensures High7(high * 0x20 + low) == high && Low5(high * 0x20 + low) == low
  {
    DivModUnique(high * 0x20 + low, 0x20, high, low);
  }

  function BSlotRd(u: nat): Reg
    requires u < 0x2000
  {
    ((u / 2) % 0x10) * 2 + (u / 0x800) % 2
  }

  function BSlotFunct7(u: nat): Funct7
    requires u < 0x2000
  {
    (u / 0x1000) * 0x40 + (u / 0x20) % 0x40
  }

  function JSlotFunct3(u: nat): Funct3 {
    (u / 0x1000) % 8
  }

  function JSlotRs1(u: nat): Reg {
    (u / 0x8000) % 0x20
  }

  function JSlotRs2(u: nat): Reg {
    ((u / 2) % 0x10) * 2 + (u / 0x800) % 2
  }

  function JSlotFunct7(u: nat): Funct7
    requires u < 0x20_0000
  {
    (u / 0x10_0000) * 0x40 + (u / 0x20) % 0x40
  }

  /** Scattering an even 13-bit pattern and gathering it again gives it back. */
  lemma BSlotsGather(u: nat)
    requires u < 0x2000 && u % 2 == 0
    ensures BLayout(BSlotRd(u), BSlotFunct7(u)) == u
  {
    // u == 2 * q1, q1 == 0x10 * q2 + e, q2 == 0x40 * q3 + c, q3 == 2 * a + b
    var q1, q2, q3 := u / 2, u / 0x20, u / 0x800;
    var e, c, b, a := q1 % 0x10, q2 % 0x40, q3 % 2, u / 0x1000;
    DivDiv(u, 2, 0x10);
    DivDiv(u, 0x20, 0x40);
    DivDiv(u, 0x800, 2);
    assert u == 2 * q1 && q1 == 0x10 * q2 + e && q2 == 0x40 * q3 + c && q3 == 2 * a + b;
    DivModUnique(BSlotRd(u), 2, e, b);
    DivModUnique(BSlotFunct7(u), 0x40, a, c);
  }

  /** Gathering the B-type bits of `rd` and `funct7` and scattering them again gives them back. */
  lemma BGatherSlots(rd: Reg, funct7: Funct7)
    ensures BSlotRd(BLayout(rd, funct7)) == rd && BSlotFunct7(BLayout(rd, funct7)) == funct7
  {
    var a, b, c, e := funct7 / 0x40, rd % 2, funct7 % 0x40, rd / 2;
    var u := BLayout(rd, funct7);
    Digit(u, 2, 0x10, a * 0x80 + b * 0x40 + c, e, 0);
    Digit(u, 0x800, 2, a, b, c * 0x20 + e * 2);
    Digit(u, 0x20, 0x40, a * 2 + b, c, e * 2);
    DivModUnique(u, 0x1000, a, b * 0x800 + c * 0x20 + e * 2);
  }

  /** Scattering an even 21-bit pattern and gathering it again gives it back. */
  lemma JSlotsGather(u: nat)
    requires u < 0x20_0000 && u % 2 == 0
    ensures JLayout(JSlotFunct3(u), JSlotRs1(u), JSlotRs2(u), JSlotFunct7(u)) == u
  {
    var q1, q2, q3, q4, q5 := u / 2, u / 0x20, u / 0x800, u / 0x1000, u / 0x8000;
    var e, c, b, f3, rs1, a := q1 % 0x10, q2 % 0x40, q3 % 2, q4 % 8, q5 % 0x20, u / 0x10_0000;
    DivDiv(u, 2, 0x10);
    DivDiv(u, 0x20, 0x40);
    DivDiv(u, 0x800, 2);
    DivDiv(u, 0x1000, 8);
    DivDiv(u, 0x8000, 0x20);
    assert u == 2 * q1 && q1 == 0x10 * q2 + e && q2 == 0x40 * q3 + c && q3 == 2 * q4 + b;
    assert q4 == 8 * q5 + f3 && q5 == 0x20 * a + rs1;
    DivModUnique(JSlotRs2(u), 2, e, b);
    DivModUnique(JSlotFunct7(u), 0x40, a, c);
  }

  /** Gathering the J-type bits of the four fields and scattering them again gives them back. */
  lemma JGatherSlots(funct3: Funct3, rs1: Reg, rs2: Reg, funct7: Funct7)
    ensures var u := JLayout(funct3, rs1, rs2, funct7);
      JSlotFunct3(u) == funct3 && JSlotRs1(u) == rs1 && JSlotRs2(u) == rs2 && JSlotFunct7(u) == funct7
  {
    var a, b, c, e := funct7 / 0x40, rs2 % 2, funct7 % 0x40, rs2 / 2;
    var mid := rs1 * 8 + funct3;
    var u := JLayout(funct3, rs1, rs2, funct7);
    assert u == a * 0x10_0000 + mid * 0x1000 + b * 0x800 + c * 0x20 + e * 2;
    Digit(u, 0x1000, 8, a * 0x20 + rs1, funct3, b * 0x800 + c * 0x20 + e * 2);
    Digit(u, 0x8000, 0x20, a, rs1, funct3 * 0x1000 + b * 0x800 + c * 0x20 + e * 2);
    Digit(u, 2, 0x10, a * 0x8000 + mid * 0x80 + b * 0x40 + c, e, 0);
    Digit(u, 0x800, 2, a * 0x100 + mid, b, c * 0x20 + e * 2);
    Digit(u, 0x20, 0x40, a * 0x200 + mid * 2 + b, c, e * 2);
    DivModUnique(u, 0x10_0000, a, mid * 0x1000 + b * 0x800 + c * 0x20 + e * 2);
  }

  // ---------------------------------------------------------------------
  // The encoder and the two round trips.

  /** The word whose decoding is `d`, for a record of a known class. */
  function Encode(d: DecodedFields): uint32
    requires WellFormed(d) && d.instrType != UnknownType
  {
    match d.fields
    case RFields(rd, rs1, rs2, funct3, funct7) =>
      Assemble(d.opcode, rd, funct3, rs1, rs2, funct7)
    case IFields(rd, rs1, funct3, imm) =>
      var u := imm % 0x1000;
      Assemble(d.opcode, rd, funct3, rs1, Low5(u), High7(u))
    case SFields(rs1, rs2, funct3, imm) =>
      var u := imm % 0x1000;
      Assemble(d.opcode, Low5(u), funct3, rs1, rs2, High7(u))
    case UFields(rd, imm) =>
      var u := ToUint32(imm);
      Assemble(d.opcode, rd, GetFunct3(u), GetRs1(u), GetRs2(u), GetFunct7(u))
    case BFields(rs1, rs2, funct3, imm) =>
      var u := imm % 0x2000;
      Assemble(d.opcode, BSlotRd(u), funct3, rs1, rs2, BSlotFunct7(u))
    case JFields(rd, imm) =>
      var u := imm % 0x20_0000;
      Assemble(d.opcode, rd, JSlotFunct3(u), JSlotRs1(u), JSlotRs2(u), JSlotFunct7(u))
  }

  /** Decoding an encoded record gives the record back. */
  lemma DecodeEncode(d: DecodedFields)
    requires WellFormed(d) && d.instrType != UnknownType
    ensures DecodeInstruction(Encode(d)) == d
  {
    match d.fields
    case RFields(rd, rs1, rs2, funct3, funct7) =>
      AssembleFields(d.opcode, rd, funct3, rs1, rs2, funct7);
    case IFields(_, _, _, _) => DecodeEncodeI(d);
    case SFields(_, _, _, _) => DecodeEncodeS(d);
    case UFields(_, _) => DecodeEncodeU(d);
    case BFields(_, _, _, _) => DecodeEncodeB(d);
    case JFields(_, _) => DecodeEncodeJ(d);
  }

  /** The fields of an encoded I-type word. */
  lemma EncodedI(opcode: Opcode, rd: Reg, funct3: Funct3, rs1: Reg, imm: Imm)
    requires -0x800 <= imm < 0x800
    ensures var u := imm % 0x1000;
      var w := Assemble(opcode, rd, funct3, rs1, Low5(u), High7(u));
      GetOpcode(w) == opcode && GetRd(w) == rd && GetFunct3(w) == funct3 && GetRs1(w) == rs1
      && SignExtend(IImmBits(w), 12) == imm
  {
    var u := imm % 0x1000;
    assert Pow2(11) == 0x800 && Pow2(12) == 0x1000 by {
      Pow2Small();
    }
    SplitGather(u);
    AssembleFields(opcode, rd, funct3, rs1, Low5(u), High7(u));
    LayoutI(opcode, rd, funct3, rs1, Low5(u), High7(u));
    SignExtendMod(imm, 12);
  }

  /** The fields of an encoded S-type word. */
  lemma EncodedS(opcode: Opcode, funct3: Funct3, rs1: Reg, rs2: Reg, imm: Imm)
    requires -0x800 <= imm < 0x800
    ensures var u := imm % 0x1000;
      var w := Assemble(opcode, Low5(u), funct3, rs1, rs2, High7(u));
      GetOpcode(w) == opcode && GetFunct3(w) == funct3 && GetRs1(w) == rs1 && GetRs2(w) == rs2
      && SignExtend(SImmBits(w), 12) == imm
  {
    var u := imm % 0x1000;
    assert Pow2(11) == 0x800 && Pow2(12) == 0x1000 by {
      Pow2Small();
    }
    SplitGather(u);
    AssembleFields(opcode, Low5(u), funct3, rs1, rs2, High7(u));
    LayoutS(opcode, Low5(u), funct3, rs1, rs2, High7(u));
    SignExtendMod(imm, 12);
  }

  lemma DecodeEncodeI(d: DecodedFields)
    requires WellFormed(d) && d.fields.IFields?
    ensures DecodeInstruction(Encode(d)) == d
  {
    var IFields(rd, rs1, funct3, imm) := d.fields;
    EncodedI(d.opcode, rd, funct3, rs1, imm);
  }

  lemma DecodeEncodeS(d: DecodedFields)
    requires WellFormed(d) && d.fields.SFields?
    ensures DecodeInstruction(Encode(d)) == d
  {
    var SFields(rs1, rs2, funct3, imm) := d.fields;
    EncodedS(d.opcode, funct3, rs1, rs2, imm);
  }

  lemma DecodeEncodeU(d: DecodedFields)
    requires WellFormed(d) && d.fields.UFields?
    ensures DecodeInstruction(Encode(d)) == d
  {
    var UFields(rd, imm) := d.fields;
    var u := ToUint32(imm);
    var w := Encode(d);
    UpperPattern(imm);
    LowFieldsZero(u);
    Partition(u);
    AssembleFields(d.opcode, rd, GetFunct3(u), GetRs1(u), GetRs2(u), GetFunct7(u));
    LayoutU(d.opcode, rd, GetFunct3(u), GetRs1(u), GetRs2(u), GetFunct7(u));
    Int32RoundTrip(imm);
    Int32RoundTrip(DecodeInstruction(w).fields.imm);
  }

  lemma DecodeEncodeB(d: DecodedFields)
    requires WellFormed(d) && d.fields.BFields?
    ensures DecodeInstruction(Encode(d)) == d
  {
    var BFields(rs1, rs2, funct3, imm) := d.fields;
    var u := imm % 0x2000;
    assert Pow2(12) == 0x1000 && Pow2(13) == 0x2000 by {
      Pow2Small();
    }
    SignExtendMod(imm, 13);
    AssembleFields(d.opcode, BSlotRd(u), funct3, rs1, rs2, BSlotFunct7(u));
    LayoutB(d.opcode, BSlotRd(u), funct3, rs1, rs2, BSlotFunct7(u));
    BSlotsGather(u);
  }

  lemma DecodeEncodeJ(d: DecodedFields)
    requires WellFormed(d) && d.fields.JFields?
    ensures DecodeInstruction(Encode(d)) == d
  {
    var JFields(rd, imm) := d.fields;
    var u := imm % 0x20_0000;
    assert Pow2(20) == 0x10_0000 && Pow2(21) == 0x20_0000 by {
      Pow2Small();
      Pow2Large();
    }
    SignExtendMod(imm, 21);
    AssembleFields(d.opcode, rd, JSlotFunct3(u), JSlotRs1(u), JSlotRs2(u), JSlotFunct7(u));
    LayoutJ(d.opcode, rd, JSlotFunct3(u), JSlotRs1(u), JSlotRs2(u), JSlotFunct7(u));
    JSlotsGather(u);
  }

  /** A multiple of 0x1000 stays one when reduced modulo 2^32. */
  lemma UpperPattern(imm: int32)
    requires imm % 0x1000 == 0
    ensures ToUint32(imm) % 0x1000 == 0
  {
    if imm >= 0 {
      ModSmall(imm, 0x1_0000_0000);
    } else {
      DivModUnique(imm, 0x1_0000_0000, -1, imm + 0x1_0000_0000);
      DivModUnique(imm + 0x1_0000_0000, 0x1000, imm / 0x1000 + 0x10_0000, 0);
    }
  }

  /** A word whose low 12 bits are clear has opcode and rd zero. */
  lemma LowFieldsZero(u: uint32)
    requires u % 0x1000 == 0
    ensures GetOpcode(u) == 0 && GetRd(u) == 0
  {
    DivDiv(u, 0x80, 0x20);
  }

  /** Encoding a decoded word gives the word back, whenever its opcode is named. */
  lemma EncodeDecode(w: uint32)
    requires w % 0x80 in NAMED_OPCODES
    ensures DecodeInstruction(w).instrType != UnknownType
    ensures Encode(DecodeInstruction(w)) == w
  {
    var t := GetInstructionType(w % 0x80);
    Partition(w);
    if t == IType {
      EncodeDecodeI(w);
    } else if t == SType {
      EncodeDecodeS(w);
    } else if t == UType {
      EncodeDecodeU(w);
    } else if t == BType {
      EncodeDecodeB(w);
    } else if t == JType {
      EncodeDecodeJ(w);
    }
  }

  /** Re-encoding I-type fields whose immediate holds `funct7` and `rs2` in its low 12 bits. */
  lemma ReencodeI(opcode: Opcode, rd: Reg, funct3: Funct3, rs1: Reg, rs2: Reg, funct7: Funct7, imm: Imm)
    requires GetInstructionType(opcode) == IType && -0x800 <= imm < 0x800
    requires imm % 0x1000 == funct7 * 0x20 + rs2
    ensures Encode(DecodedFields(IType, opcode, IFields(rd, rs1, funct3, imm)))
      == Assemble(opcode, rd, funct3, rs1, rs2, funct7)
  {
    GatherSplit(funct7, rs2);
  }

  lemma ReencodeS(opcode: Opcode, rd: Reg, funct3: Funct3, rs1: Reg, rs2: Reg, funct7: Funct7, imm: Imm)
    requires GetInstructionType(opcode) == SType && -0x800 <= imm < 0x800
    requires imm % 0x1000 == funct7 * 0x20 + rd
    ensures Encode(DecodedFields(SType, opcode, SFields(rs1, rs2, funct3, imm)))
      == Assemble(opcode, rd, funct3, rs1, rs2, funct7)
  {
    GatherSplit(funct7, rd);
  }

  lemma ReencodeU(opcode: Opcode, rd: Reg, funct3: Funct3, rs1: Reg, rs2: Reg, funct7: Funct7, imm: Imm)
    requires GetInstructionType(opcode) == UType && imm % 0x1000 == 0
    requires ToUint32(imm) == Assemble(0, 0, funct3, rs1, rs2, funct7)
    ensures Encode(DecodedFields(UType, opcode, UFields(rd, imm)))
      == Assemble(opcode, rd, funct3, rs1, rs2, funct7)
  {
    AssembleFields(0, 0, funct3, rs1, rs2, funct7);
  }

  lemma ReencodeB(opcode: Opcode, rd: Reg, funct3: Funct3, rs1: Reg, rs2: Reg, funct7: Funct7, imm: Imm)
    requires GetInstructionType(opcode) == BType && -0x1000 <= imm < 0x1000 && imm % 2 == 0
    requires imm % 0x2000 == BLayout(rd, funct7)
    ensures Encode(DecodedFields(BType, opcode, BFields(rs1, rs2, funct3, imm)))
      == Assemble(opcode, rd, funct3, rs1, rs2, funct7)
  {
    BGatherSlots(rd, funct7);
  }

  lemma ReencodeJ(opcode: Opcode, rd: Reg, funct3: Funct3, rs1: Reg, rs2: Reg, funct7: Funct7, imm: Imm)
    requires GetInstructionType(opcode) == JType && -0x10_0000 <= imm < 0x10_0000 && imm % 2 == 0
    requires imm % 0x20_0000 == JLayout(funct3, rs1, rs2, funct7)
    ensures Encode(DecodedFields(JType, opcode, JFields(rd, imm)))
      == Assemble(opcode, rd, funct3, rs1, rs2, funct7)
  {
    JGatherSlots(funct3, rs1, rs2, funct7);
  }

  lemma EncodeDecodeI(w: uint32)
    requires GetInstructionType(w % 0x80) == IType
    ensures Encode(DecodeInstruction(w)) == w
  {
    var opcode, rd, funct3, rs1, rs2, funct7 := GetOpcode(w), GetRd(w), GetFunct3(w), GetRs1(w), GetRs2(w), GetFunct7(w);
    var d := DecodeInstruction(w);
    var imm := d.fields.imm;
    assert d == DecodedFields(IType, opcode, IFields(rd, rs1, funct3, imm));
    assert imm % 0x1000 == IImmBits(w) by {
      Pow2Small();
    }
    Partition(w);
    LayoutI(opcode, rd, funct3, rs1, rs2, funct7);
    ReencodeI(opcode, rd, funct3, rs1, rs2, funct7, imm);
  }

  lemma EncodeDecodeS(w: uint32)
    requires GetInstructionType(w % 0x80) == SType
    ensures Encode(DecodeInstruction(w)) == w
  {
    var opcode, rd, funct3, rs1, rs2, funct7 := GetOpcode(w), GetRd(w), GetFunct3(w), GetRs1(w), GetRs2(w), GetFunct7(w);
    var d := DecodeInstruction(w);
    var imm := d.fields.imm;
    assert d == DecodedFields(SType, opcode, SFields(rs1, rs2, funct3, imm));
    assert imm % 0x1000 == SImmBits(w) by {
      Pow2Small();
    }
    Partition(w);
    LayoutS(opcode, rd, funct3, rs1, rs2, funct7);
    ReencodeS(opcode, rd, funct3, rs1, rs2, funct7, imm);
  }

  lemma EncodeDecodeU(w: uint32)
    requires GetInstructionType(w % 0x80) == UType
    ensures Encode(DecodeInstruction(w)) == w
  {
    var opcode, rd, funct3, rs1, rs2, funct7 := GetOpcode(w), GetRd(w), GetFunct3(w), GetRs1(w), GetRs2(w), GetFunct7(w);
    var d := DecodeInstruction(w);
    var imm := d.fields.imm;
    assert d == DecodedFields(UType, opcode, UFields(rd, imm)) && imm % 0x1000 == 0
      && ToUint32(imm) == UImmBits(w) by {
      assert WellFormed(d);
    }
    assert w == Assemble(opcode, rd, funct3, rs1, rs2, funct7)
      && UImmBits(w) == Assemble(0, 0, funct3, rs1, rs2, funct7) by {
      Partition(w);
      LayoutU(opcode, rd, funct3, rs1, rs2, funct7);
    }
    ReencodeU(opcode, rd, funct3, rs1, rs2, funct7, imm);
  }

  lemma EncodeDecodeB(w: uint32)
    requires GetInstructionType(w % 0x80) == BType
    ensures Encode(DecodeInstruction(w)) == w
  {
    var opcode, rd, funct3, rs1, rs2, funct7 := GetOpcode(w), GetRd(w), GetFunct3(w), GetRs1(w), GetRs2(w), GetFunct7(w);
    var d := DecodeInstruction(w);
    var imm := d.fields.imm;
    assert d == DecodedFields(BType, opcode, BFields(rs1, rs2, funct3, imm))
      && -0x1000 <= imm < 0x1000 && imm % 2 == 0 && imm % 0x2000 == BImmBits(w) by {
      assert WellFormed(d);
      Pow2Small();
    }
    assert w == Assemble(opcode, rd, funct3, rs1, rs2, funct7)
      && BImmBits(w) == BLayout(rd, funct7) by {
      Partition(w);
      LayoutB(opcode, rd, funct3, rs1, rs2, funct7);
    }
    ReencodeB(opcode, rd, funct3, rs1, rs2, funct7, imm);
  }

  lemma EncodeDecodeJ(w: uint32)
    requires GetInstructionType(w % 0x80) == JType
    ensures Encode(DecodeInstruction(w)) == w
  {
    var opcode, rd, funct3, rs1, rs2, funct7 := GetOpcode(w), GetRd(w), GetFunct3(w), GetRs1(w), GetRs2(w), GetFunct7(w);
    var d := DecodeInstruction(w);
    var imm := d.fields.imm;
    assert d == DecodedFields(JType, opcode, JFields(rd, imm))
      && -0x10_0000 <= imm < 0x10_0000 && imm % 2 == 0 && imm % 0x20_0000 == JImmBits(w) by {
      assert WellFormed(d);
      Pow2Small();
      Pow2Large();
    }
    assert w == Assemble(opcode, rd, funct3, rs1, rs2, funct7)
      && JImmBits(w) == JLayout(funct3, rs1, rs2, funct7) by {
      Partition(w);
      LayoutJ(opcode, rd, funct3, rs1, rs2, funct7);
    }
    ReencodeJ(opcode, rd, funct3, rs1, rs2, funct7, imm);
  }
}
