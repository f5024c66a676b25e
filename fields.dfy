/**
 * Field extraction and immediate reconstruction for a 32-bit RV32I word,
 * following section 2.2 ("Base Instruction Formats") and section 2.3
 * ("Immediate Encoding Variants") of the RISC-V Unprivileged ISA.
 *
 * Each function follows the mask-and-shift expression of the simulator; the
 * contracts and lemmas say which word bits each result holds.
 */
module Fields {
  import opened Bits
  import opened Registers
  import opened Instruction

  function GetOpcode(w: uint32): (op: Opcode)
    ensures op == w % 0x80
  {
    Pow2Small();
    Pow2Large();
    AndLowMask(w, 7);
    And(w, 0x7F)
  }

  function GetRd(w: uint32): (r: Reg)
    ensures r == (w / 0x80) % 0x20
  {
    Pow2Small();
    Pow2Large();
    AndLowMask(Shr(w, 7), 5);
    And(Shr(w, 7), 0x1F)
  }

  function GetFunct3(w: uint32): (f3: Funct3)
    ensures f3 == (w / 0x1000) % 0x8
  {
    Pow2Small();
    Pow2Large();
    AndLowMask(Shr(w, 12), 3);
    And(Shr(w, 12), 0x7)
  }

  function GetRs1(w: uint32): (r: Reg)
    ensures r == (w / 0x8000) % 0x20
  {
    Pow2Small();
    Pow2Large();
    AndLowMask(Shr(w, 15), 5);
    And(Shr(w, 15), 0x1F)
  }

  function GetRs2(w: uint32): (r: Reg)
    ensures r == (w / 0x10_0000) % 0x20
  {
    Pow2Small();
    Pow2Large();
    AndLowMask(Shr(w, 20), 5);
    And(Shr(w, 20), 0x1F)
  }

  function GetFunct7(w: uint32): (f7: Funct7)
    ensures f7 == w / 0x200_0000
  {
    Pow2Small();
    Pow2Large();
    assert Shr(w, 25) < 0x80;
    AndLowMask(Shr(w, 25), 7);
    DivModUnique(Shr(w, 25), 0x80, 0, Shr(w, 25));
    And(Shr(w, 25), 0x7F)
  }

  /** I-type: bits [31:20], sign-extended. */
  function GetImmIFormat(w: uint32): (imm: Imm)
    ensures imm == SignExtend(IImmBits(w), 12)
    ensures -0x800 <= imm < 0x800
    ensures imm < 0 <==> w >= 0x8000_0000
  {
    var imm_11_0 := And(Shr(w, 20), 0xFFF);
    Pow2Small();
    assert imm_11_0 == IImmBits(w) by {
      Pow2Small();
      Pow2Large();
      AndLowMask(Shr(w, 20), 12);
    }
    ShiftPairSignExtends(IImmBits(w), 12);
    SignExtendFacts(IImmBits(w), 12);
    SignBitField(w, 0x10_0000, 0x800);
    Asr(ToInt32(Shl32(imm_11_0, 20)), 20)
  }

  /** S-type: imm[11:5|4:0] from bits [31:25|11:7], sign-extended. */
  function GetImmSFormat(w: uint32): (imm: Imm)
    ensures imm == SignExtend(SImmBits(w), 12)
    ensures -0x800 <= imm < 0x800
    ensures imm < 0 <==> w >= 0x8000_0000
  {
    var imm_11_5 := And(Shr(w, 25), 0x7F);
    var imm_4_0 := And(Shr(w, 7), 0x1F);
    var imm := Or(Shl32(imm_11_5, 5), imm_4_0);
    Pow2Small();
    assert imm_11_5 == (w / 0x200_0000) % 0x80 && imm_4_0 == (w / 0x80) % 0x20 by {
      Pow2Small();
      Pow2Large();
      AndLowMask(Shr(w, 25), 7);
      AndLowMask(Shr(w, 7), 5);
    }
    PackS(imm_11_5, imm_4_0);
    ShiftPairSignExtends(SImmBits(w), 12);
    SignExtendFacts(SImmBits(w), 12);
    SignBitField(w, 0x200_0000, 0x40);
    Asr(ToInt32(Shl32(imm, 20)), 20)
  }

  /** U-type: bits [31:12] kept in place, low 12 bits zero. */
  function GetImmUFormat(w: uint32): (imm: Imm)
    ensures imm == ToInt32(UImmBits(w))
    ensures ToUint32(imm) == UImmBits(w) == w - w % 0x1000
    ensures imm % 0x1000 == 0
  {
    var imm_31_12 := And(Shr(w, 12), 0xFFFFF);
    assert imm_31_12 == (w / 0x1000) % 0x10_0000 by {
      Pow2Small();
      Pow2Large();
      AndLowMask(Shr(w, 12), 20);
    }
    assert Shl32(imm_31_12, 12) == UImmBits(w) by {
      Pow2Small();
      Pow2Large();
      Shl32Value(imm_31_12, 20, 12, 0x1000);
    }
    CastRoundTrip(UImmBits(w));
    assert ToInt32(UImmBits(w)) % 0x1000 == 0 by {
      if UImmBits(w) >= 0x8000_0000 {
        MulMod(imm_31_12 - 0x10_0000, 0x1000);
      }
    }
    ToInt32(Shl32(imm_31_12, 12))
  }

  /** B-type: imm[12|11|10:5|4:1] from bits 31|7|30:25|11:8, sign-extended. */
  function GetImmBFormat(w: uint32): (imm: Imm)
    ensures imm == SignExtend(BImmBits(w), 13)
    ensures imm % 2 == 0
    ensures -0x1000 <= imm < 0x1000
    ensures imm < 0 <==> w >= 0x8000_0000
  {
    var imm12 := And(Shr(w, 31), 0x1);
    var imm11 := And(Shr(w, 7), 0x1);
    var imm10_5 := And(Shr(w, 25), 0x3F);
    var imm4_1 := And(Shr(w, 8), 0xF);
    var imm := Or(Or(Or(Shl32(imm12, 12), Shl32(imm11, 11)), Shl32(imm10_5, 5)), Shl32(imm4_1, 1));
    Pow2Small();
    assert imm12 == (w / 0x8000_0000) % 2 && imm11 == (w / 0x80) % 2 by {
      Pow2Small();
      Pow2Large();
      AndLowMask(Shr(w, 31), 1);
      AndLowMask(Shr(w, 7), 1);
    }
    assert imm10_5 == (w / 0x200_0000) % 0x40 && imm4_1 == (w / 0x100) % 0x10 by {
      Pow2Small();
      Pow2Large();
      AndLowMask(Shr(w, 25), 6);
      AndLowMask(Shr(w, 8), 4);
    }
    PackB(imm12, imm11, imm10_5, imm4_1);
    ShiftPairSignExtends(BImmBits(w), 13);
    SignExtendFacts(BImmBits(w), 13);
    SignExtendEven(BImmBits(w), 13);
    SignBitField(w, 0x8000_0000, 1);
    Asr(ToInt32(Shl32(imm, 19)), 19)
  }

  /** J-type: imm[20|19:12|11|10:1] from bits 31|19:12|20|30:21, sign-extended. */
  function GetImmJFormat(w: uint32): (imm: Imm)
    ensures imm == SignExtend(JImmBits(w), 21)
    ensures imm % 2 == 0
    ensures -0x10_0000 <= imm < 0x10_0000
    ensures imm < 0 <==> w >= 0x8000_0000
  {
    var imm20 := And(Shr(w, 31), 0x1);
    var imm10_1 := And(Shr(w, 21), 0x3FF);
    var imm11 := And(Shr(w, 20), 0x1);
    var imm19_12 := And(Shr(w, 12), 0xFF);
    var imm := Or(Or(Or(Shl32(imm20, 20), Shl32(imm19_12, 12)), Shl32(imm11, 11)), Shl32(imm10_1, 1));
    Pow2Small();
    Pow2Large();
    assert imm20 == (w / 0x8000_0000) % 2 && imm10_1 == (w / 0x20_0000) % 0x400 by {
      AndLowMask(Shr(w, 31), 1);
      AndLowMask(Shr(w, 21), 10);
    }
    assert imm11 == (w / 0x10_0000) % 2 && imm19_12 == (w / 0x1000) % 0x100 by {
      AndLowMask(Shr(w, 20), 1);
      AndLowMask(Shr(w, 12), 8);
    }
    PackJ(imm20, imm19_12, imm11, imm10_1);
    ShiftPairSignExtends(JImmBits(w), 21);
    SignExtendFacts(JImmBits(w), 21);
    SignExtendEven(JImmBits(w), 21);
    SignBitField(w, 0x8000_0000, 1);
    Asr(ToInt32(Shl32(imm, 11)), 11)
  }

  // ---------------------------------------------------------------------
  // Reference layouts: the unsigned immediate pattern that each format
  // scatters over the word. Bits [a:b] of `w` are `(w / 2^b) % 2^(a-b+1)`.

  /** imm[11:0] = w[31:20]. */
  function IImmBits(w: uint32): (u: nat)
    ensures u < 0x1000
    ensures u < Pow2(12)
  {
    Pow2Small();
    (w / 0x10_0000) % 0x1000
  }

  /** imm[11:5] = w[31:25], imm[4:0] = w[11:7]. */
  function SImmBits(w: uint32): (u: nat)
    ensures u < 0x1000
    ensures u < Pow2(12)
  {
    Pow2Small();
    ((w / 0x200_0000) % 0x80) * 0x20 + (w / 0x80) % 0x20
  }

  /** imm[31:12] = w[31:12], imm[11:0] = 0. */
  function UImmBits(w: uint32): (u: nat)
    ensures u < 0x1_0000_0000 && u % 0x1000 == 0
    ensures u == w - w % 0x1000
  {
    ModSmall(w / 0x1000, 0x10_0000);
    ((w / 0x1000) % 0x10_0000) * 0x1000
  }

  /** imm[12] = w[31], imm[11] = w[7], imm[10:5] = w[30:25], imm[4:1] = w[11:8], imm[0] = 0. */
  function BImmBits(w: uint32): (u: nat)
    ensures u < 0x2000 && u % 2 == 0
    ensures u < Pow2(13)
  {
    Pow2Small();
    ((w / 0x8000_0000) % 2) * 0x1000 + ((w / 0x80) % 2) * 0x800
      + ((w / 0x200_0000) % 0x40) * 0x20 + ((w / 0x100) % 0x10) * 2
  }

  /** imm[20] = w[31], imm[19:12] = w[19:12], imm[11] = w[20], imm[10:1] = w[30:21], imm[0] = 0. */
  function JImmBits(w: uint32): (u: nat)
    ensures u < 0x20_0000 && u % 2 == 0
    ensures u < Pow2(21)
  {
    Pow2Small();
    Pow2Large();
    ((w / 0x8000_0000) % 2) * 0x10_0000 + ((w / 0x1000) % 0x100) * 0x1000
      + ((w / 0x10_0000) % 2) * 0x800 + ((w / 0x20_0000) % 0x400) * 2
  }

  // ---------------------------------------------------------------------
  // ORing shifted fields that do not overlap adds them.

  lemma PackS(hi: nat, lo: nat)
    requires hi < 0x80 && lo < 0x20
    ensures Or(Shl32(hi, 5), lo) == hi * 0x20 + lo
  {
    Pow2Small();
    Shl32Value(hi, 7, 5, 0x20);
    OrAligned(hi * 0x20, lo, hi, 5, 0x20);
  }

  lemma PackB(i12: nat, i11: nat, i10_5: nat, i4_1: nat)
    requires i12 < 2 && i11 < 2 && i10_5 < 0x40 && i4_1 < 0x10
    ensures Or(Or(Or(Shl32(i12, 12), Shl32(i11, 11)), Shl32(i10_5, 5)), Shl32(i4_1, 1))
         == i12 * 0x1000 + i11 * 0x800 + i10_5 * 0x20 + i4_1 * 2
  {
    Pow2Small();
    var a, b, c, d := i12 * 0x1000, i11 * 0x800, i10_5 * 0x20, i4_1 * 2;
    Shl32Value(i12, 1, 12, 0x1000);
    Shl32Value(i11, 1, 11, 0x800);
    Shl32Value(i10_5, 6, 5, 0x20);
    Shl32Value(i4_1, 4, 1, 2);
    OrAligned3(a, b, c, d, i12, 2 * i12 + i11, (2 * i12 + i11) * 0x40 + i10_5,
               12, 11, 5, 0x1000, 0x800, 0x20);
  }

  lemma PackJ(i20: nat, i19_12: nat, i11: nat, i10_1: nat)
    requires i20 < 2 && i19_12 < 0x100 && i11 < 2 && i10_1 < 0x400
    ensures Or(Or(Or(Shl32(i20, 20), Shl32(i19_12, 12)), Shl32(i11, 11)), Shl32(i10_1, 1))
         == i20 * 0x10_0000 + i19_12 * 0x1000 + i11 * 0x800 + i10_1 * 2
  {
    Pow2Small();
    Pow2Large();
    var a, b, c, d := i20 * 0x10_0000, i19_12 * 0x1000, i11 * 0x800, i10_1 * 2;
    Shl32Value(i20, 1, 20, 0x10_0000);
    Shl32Value(i19_12, 8, 12, 0x1000);
    Shl32Value(i11, 1, 11, 0x800);
    Shl32Value(i10_1, 10, 1, 2);
    OrAligned3(a, b, c, d, i20, i20 * 0x100 + i19_12, (i20 * 0x100 + i19_12) * 2 + i11,
               20, 12, 11, 0x10_0000, 0x1000, 0x800);
  }
}
