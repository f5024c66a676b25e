/**
 * Execution of a decoded instruction against the register file. Only the
 * register-register (R-type) operations are carried out; the branch and jump
 * handlers are stubs that do nothing and report success.
 */
module Execute {
  import opened Bits
  import opened Registers
  import opened Instruction
  import opened Decode

  /**
   * The value an R-type instruction computes from `rs1_val` and `rs2_val`,
   * written as the simulator's switch: every operand is a `uint32_t`, shift
   * amounts are masked to five bits, and SRA shifts the `int32_t` reading.
   */
  function AluR(funct3: Funct3, funct7: Funct7, rs1Val: uint32, rs2Val: uint32): (r: uint32)
    ensures funct3 == F3_ADD_SUB ==>
      r == (if funct7 == F7_SUB then rs1Val - rs2Val else rs1Val + rs2Val) % 0x1_0000_0000
    ensures funct3 == F3_SLT ==> r <= 1 && (r == 1 <==> ToInt32(rs1Val) < ToInt32(rs2Val))
    ensures funct3 == F3_SLTU ==> r <= 1 && (r == 1 <==> rs1Val < rs2Val)
    ensures funct3 == F3_SLL ==> r == (rs1Val * Pow2(rs2Val % 32)) % 0x1_0000_0000
    ensures funct3 == F3_SRL_SRA && funct7 != F7_SRA ==> r == rs1Val / Pow2(rs2Val % 32)
  {
    Pow2Large();
    AndLowMask(rs2Val, 5);
    assert Pow2(5) == 32;
    var shamt := And(rs2Val, 0x1F);
    if funct3 == F3_ADD_SUB then
      (if funct7 == F7_SUB then ToUint32(rs1Val - rs2Val) else ToUint32(rs1Val + rs2Val))
    else if funct3 == F3_SLL then
      Shl32(rs1Val, shamt)
    else if funct3 == F3_SLT then
      (if ToInt32(rs1Val) < ToInt32(rs2Val) then 1 else 0)
    else if funct3 == F3_SLTU then
      (if rs1Val < rs2Val then 1 else 0)
    else if funct3 == F3_XOR then
      XorBound(rs1Val, rs2Val, 32);
      Xor(rs1Val, rs2Val)
    else if funct3 == F3_SRL_SRA then
      (if funct7 == F7_SRA then ToUint32(Asr(ToInt32(rs1Val), shamt))
       else ShrAtMost(rs1Val, shamt); Shr(rs1Val, shamt))
    else if funct3 == F3_OR then
      OrBound(rs1Val, rs2Val, 32);
      Or(rs1Val, rs2Val)
    else
      AndBound(rs1Val, rs2Val);
      And(rs1Val, rs2Val)
  }

  // ---------------------------------------------------------------------
  // What each operation computes, stated against its mathematical meaning.

  /** Adding a multiple of 2^32 does not change a value modulo 2^32. */
  lemma ModWord(x: int, m: int)
    ensures ToUint32(x + m * 0x1_0000_0000) == ToUint32(x)
  {
    DivModUnique(x + m * 0x1_0000_0000, 0x1_0000_0000, x / 0x1_0000_0000 + m, x % 0x1_0000_0000);
  }

  /**
   * ADD and SUB on the unsigned words are two's complement addition and
   * subtraction of their `int32_t` readings: the same word, and the exact
   * result whenever it fits in 32 bits.
   */
  lemma AddSubSigned(funct7: Funct7, a: uint32, b: uint32)
    ensures var s := if funct7 == F7_SUB then ToInt32(a) - ToInt32(b) else ToInt32(a) + ToInt32(b);
      AluR(F3_ADD_SUB, funct7, a, b) == ToUint32(s)
      && (-0x8000_0000 <= s < 0x8000_0000 ==> ToInt32(AluR(F3_ADD_SUB, funct7, a, b)) == s)
  {
    var ka := if a < 0x8000_0000 then 0 else 1;
    var kb := if b < 0x8000_0000 then 0 else 1;
    assert ToInt32(a) == a - ka * 0x1_0000_0000 && ToInt32(b) == b - kb * 0x1_0000_0000;
    var s := if funct7 == F7_SUB then ToInt32(a) - ToInt32(b) else ToInt32(a) + ToInt32(b);
    if funct7 == F7_SUB {
      ModWord(s, ka - kb);
    } else {
      ModWord(s, ka + kb);
    }
    if -0x8000_0000 <= s < 0x8000_0000 {
      Int32RoundTrip(s);
    }
  }

  /** SUB followed by ADD of the same register gives the first operand back. */
  lemma SubThenAdd(a: uint32, b: uint32)
    ensures AluR(F3_ADD_SUB, F7_0000000, AluR(F3_ADD_SUB, F7_SUB, a, b), b) == a
  {
    var d := AluR(F3_ADD_SUB, F7_SUB, a, b);
    var m := if a >= b then 0 else 1;
    DivModUnique(a - b, 0x1_0000_0000, -m, a - b + m * 0x1_0000_0000);
    ModSmall(a, 0x1_0000_0000);
    ModWord(a, m);
  }

  /**
   * The shifts use the low five bits of `rs2` as the amount: SLL multiplies
   * by 2^amount modulo 2^32, SRL divides, and SRA divides the `int32_t`
   * reading rounding towards minus infinity.
   */
  lemma ShiftSemantics(funct7: Funct7, a: uint32, b: uint32)
    ensures AluR(F3_SLL, funct7, a, b) == (a * Pow2(b % 32)) % 0x1_0000_0000
    ensures funct7 != F7_SRA ==> AluR(F3_SRL_SRA, funct7, a, b) == a / Pow2(b % 32)
    ensures funct7 == F7_SRA ==> ToInt32(AluR(F3_SRL_SRA, funct7, a, b)) == ToInt32(a) / Pow2(b % 32)
  {
    assert And(b, 0x1F) == b % 32 by {
      AndLowMask(b, 5);
      assert Pow2(5) == 32;
    }
    if funct7 == F7_SRA {
      Int32RoundTrip(Asr(ToInt32(a), b % 32));
    }
  }

  /** Adding 2^31 modulo 2^32 maps the `int32_t` order onto the unsigned one. */
  lemma Biased(a: uint32)
    ensures ToUint32(a + 0x8000_0000) == ToInt32(a) + 0x8000_0000
  {
    if a < 0x8000_0000 {
      ModSmall(a + 0x8000_0000, 0x1_0000_0000);
    } else {
      DivModUnique(a + 0x8000_0000, 0x1_0000_0000, 1, a - 0x8000_0000);
    }
  }

  /**
   * SLT is the unsigned comparison of the operands with bit 31 flipped, and
   * agrees with SLTU when both operands have the same sign bit. SLTU is the
   * unsigned comparison.
   */
  lemma CompareSemantics(funct7: Funct7, a: uint32, b: uint32)
    ensures AluR(F3_SLT, funct7, a, b) == 1 <==> ToUint32(a + 0x8000_0000) < ToUint32(b + 0x8000_0000)
    ensures AluR(F3_SLT, funct7, a, b) == 0 <==> ToUint32(a + 0x8000_0000) >= ToUint32(b + 0x8000_0000)
    ensures (a < 0x8000_0000 <==> b < 0x8000_0000) ==> AluR(F3_SLT, funct7, a, b) == AluR(F3_SLTU, funct7, a, b)
    ensures AluR(F3_SLTU, funct7, a, b) == 1 <==> a < b
    ensures AluR(F3_SLTU, funct7, a, b) == 0 <==> a >= b
  {
    Biased(a);
    Biased(b);
  }

  /** XOR, OR and AND work bit by bit. */
  lemma BitwiseSemantics(funct7: Funct7, a: uint32, b: uint32, i: nat)
    ensures Bit(AluR(F3_XOR, funct7, a, b), i) <==> Bit(a, i) != Bit(b, i)
    ensures Bit(AluR(F3_OR, funct7, a, b), i) <==> Bit(a, i) || Bit(b, i)
    ensures Bit(AluR(F3_AND, funct7, a, b), i) <==> Bit(a, i) && Bit(b, i)
  {
    XorBits(a, b, i);
    OrBits(a, b, i);
    AndBits(a, b, i);
  }

  // ---------------------------------------------------------------------
  // The handlers and the dispatcher.

  /**
   * `handleRType`: read both source registers, compute, and write the result
   * to `rd` unless `rd` is x0. Every funct3 value names an operation, so the
   * status is always 0.
   */
  method HandleRType(rf: RegisterFile, instr: DecodedFields) returns (status: int)
    requires rf.Valid() && instr.fields.RFields?
    modifies rf.regs
    ensures rf.Valid() && status == 0
    ensures var f := instr.fields;
      var result := AluR(f.funct3, f.funct7, old(rf.regs[f.rs1]), old(rf.regs[f.rs2]));
      rf.regs[..] == if f.rd == ZERO then old(rf.regs[..]) else old(rf.regs[..])[f.rd := result]
  {
    var f := instr.fields;
    var rs1Val := rf.regs[f.rs1];
    var rs2Val := rf.regs[f.rs2];
    var result := AluR(f.funct3, f.funct7, rs1Val, rs2Val);
    if f.rd != ZERO {
      rf.regs[f.rd] := result;
    }
    status := 0;
  }

  /** `handleBType`: a stub that reports success. */
  method HandleBType(instr: DecodedFields) returns (status: int)
    ensures status == 0
  {
    status := 0;
  }

  /** `handleJType`: a stub that reports success. */
  method HandleJType(instr: DecodedFields) returns (status: int)
    ensures status == 0
  {
    status := 0;
  }

  /**
   * `executeInstruction`: dispatch on the class. An unknown class gives -1
   * and changes nothing; R-type updates `rd` as `HandleRType` does; branch
   * and jump change nothing.
   */
  method ExecuteInstruction(rf: RegisterFile, instr: DecodedFields) returns (status: int)
    requires rf.Valid() && FieldsFit(instr.instrType, instr.fields)
    modifies rf.regs
    ensures rf.Valid()
    ensures status == (if instr.instrType == UnknownType then -1 else 0)
    ensures instr.instrType == RType ==>
      var f := instr.fields;
      var result := AluR(f.funct3, f.funct7, old(rf.regs[f.rs1]), old(rf.regs[f.rs2]));
      rf.regs[..] == if f.rd == ZERO then old(rf.regs[..]) else old(rf.regs[..])[f.rd := result]
    ensures instr.instrType in {BType, JType, UnknownType} ==> rf.regs[..] == old(rf.regs[..])
  {
    status := 0;
    match instr.instrType
    case RType =>
      var _ := HandleRType(rf, instr);
    case IType =>
    case SType =>
    case UType =>
    case BType =>
      var _ := HandleBType(instr);
    case JType =>
      var _ := HandleJType(instr);
    case UnknownType =>
      status := -1;
  }
}
