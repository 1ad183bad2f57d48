/** Instruction words: their fields, the immediates both decoders extract, the
    encoders of the standalone test, and the profiler's instruction classes. */
module Isa {
  import opened Words

  datatype InsnType = Unknown | Alu | Mul | Div | Load | Store | Branch | Jump | Csr | Sys | Compressed

  // ----- fields of a 32-bit instruction -----

  function Opcode(insn: Word): nat { insn % 0x80 }
  function Rd(insn: Word): nat { insn / 0x80 % 32 }
  function Funct3(insn: Word): nat { insn / 0x1000 % 8 }
  function Rs1(insn: Word): nat { insn / 0x8000 % 32 }
  function Rs2(insn: Word): nat { insn / 0x10_0000 % 32 }
  function Funct7(insn: Word): nat { insn / 0x200_0000 }
  function CsrAddr(insn: Word): nat { insn / 0x10_0000 }

  function ImmI(insn: Word): Word { SignExtend(insn / 0x10_0000, 0x1000) }

  function ImmS(insn: Word): Word { SignExtend(Rd(insn) + Funct7(insn) * 32, 0x1000) }

  function ImmB(insn: Word): Word
  {
    SignExtend(insn / 0x100 % 16 * 2 + Funct7(insn) % 64 * 32 + insn / 0x80 % 2 * 0x800 + insn / 0x8000_0000 * 0x1000,
               0x2000)
  }

  function ImmU(insn: Word): Word { insn - insn % 0x1000 }

  function ImmJ(insn: Word): Word
  {
    SignExtend(insn / 0x20_0000 % 0x400 * 2 + insn / 0x10_0000 % 2 * 0x800 + insn / 0x1000 % 0x100 * 0x1000
               + insn / 0x8000_0000 * 0x10_0000, 0x20_0000)
  }

  // ----- fields of a 16-bit instruction -----

  function CFunct3(c: Half): nat { c / 0x2000 }
  function CFunct4(c: Half): nat { c / 0x1000 }
  function CRd(c: Half): nat { c / 0x80 % 32 }
  function CRs2(c: Half): nat { c / 4 % 32 }
  /** The three-bit register fields name x8..x15. */
  function CRs1Prime(c: Half): nat { c / 0x80 % 8 + 8 }
  function CRs2Prime(c: Half): nat { c / 4 % 8 + 8 }
  function CBit(c: Half, weight: nat): (b: nat)
    requires weight > 0
    ensures b < 2
  {
    c / weight % 2
  }

  /** The shift amount, and before sign extension the immediate, of the CI format. */
  function CShamt(c: Half): nat { CBit(c, 0x1000) * 32 + c / 4 % 32 }

  function CImm6(c: Half): Word { SignExtend(CShamt(c), 64) }

  function CAddi4spnImm(c: Half): Word
  {
    CBit(c, 0x1000) * 32 + CBit(c, 0x800) * 16 + CBit(c, 0x400) * 512 + CBit(c, 0x200) * 256 + CBit(c, 0x100) * 128
    + CBit(c, 0x80) * 64 + CBit(c, 0x40) * 4 + CBit(c, 0x20) * 8
  }

  /** Offset of C.LW and C.SW as the simulator decodes it. */
  function CLwOffset(c: Half): Word { c / 0x400 % 8 * 8 + c / 0x20 % 4 * 2 }

  function CJumpOffset(c: Half): Word
  {
    SignExtend(c / 8 % 8 * 2 + CBit(c, 0x800) * 16 + CBit(c, 4) * 32 + CBit(c, 0x80) * 64 + CBit(c, 0x40) * 128
               + c / 0x200 % 4 * 256 + CBit(c, 0x100) * 1024 + CBit(c, 0x1000) * 2048, 0x1000)
  }

  /** Offset of C.BEQZ and C.BNEZ as the simulator decodes it. */
  function CBranchOffset(c: Half): Word
  {
    SignExtend(c / 8 % 4 * 2 + c / 0x400 % 4 * 8 + CBit(c, 4) * 32 + CBit(c, 0x20) * 64 + CBit(c, 0x1000) * 256, 512)
  }

  function CAddi16spImm(c: Half): Word
  {
    SignExtend(CBit(c, 0x1000) * 512 + CBit(c, 0x40) * 256 + CBit(c, 0x20) * 128 + CBit(c, 0x10) * 64
               + CBit(c, 8) * 32 + CBit(c, 4) * 16, 1024)
  }

  function CLwspOffset(c: Half): Word { c / 0x20 % 4 * 64 + CBit(c, 0x1000) * 32 + c / 4 % 8 * 4 }

  function CSwspOffset(c: Half): Word { c / 0x400 % 4 * 64 + c / 0x20 % 4 * 16 }

  // ----- encoders -----

  function EncodeR(funct7: nat, rs2: nat, rs1: nat, funct3: nat, rd: nat, opcode: nat): Word
    requires funct7 < 128 && rs2 < 32 && rs1 < 32 && funct3 < 8 && rd < 32 && opcode < 128
  {
    funct7 * 0x200_0000 + rs2 * 0x10_0000 + rs1 * 0x8000 + funct3 * 0x1000 + rd * 0x80 + opcode
  }

  /** imm is the raw 12-bit field. */
  function EncodeI(imm: nat, rs1: nat, funct3: nat, rd: nat, opcode: nat): Word
    requires imm < 0x1000 && rs1 < 32 && funct3 < 8 && rd < 32 && opcode < 128
  {
    imm * 0x10_0000 + rs1 * 0x8000 + funct3 * 0x1000 + rd * 0x80 + opcode
  }

  function EncodeS(imm: nat, rs2: nat, rs1: nat, funct3: nat): Word
    requires imm < 0x1000 && rs2 < 32 && rs1 < 32 && funct3 < 8
  {
    EncodeR(imm / 32, rs2, rs1, funct3, imm % 32, 0x23)
  }

  function EncodeU(imm20: nat, rd: nat, opcode: nat): Word
    requires imm20 < 0x10_0000 && rd < 32 && opcode < 128
  {
    imm20 * 0x1000 + rd * 0x80 + opcode
  }

  /** imm is the even 21-bit jump offset as an unsigned number. */
  function EncodeJ(imm: nat, rd: nat): Word
    requires imm < 0x20_0000 && rd < 32
  {
    imm / 0x10_0000 * 0x8000_0000 + imm / 2 % 0x400 * 0x20_0000 + imm / 0x800 % 2 * 0x10_0000
    + imm / 0x1000 % 0x100 * 0x1000 + rd * 0x80 + 0x6F
  }

  /** imm is the even 13-bit branch offset as an unsigned number. */
  function EncodeB(imm: nat, rs2: nat, rs1: nat, funct3: nat): Word
    requires imm < 0x2000 && rs2 < 32 && rs1 < 32 && funct3 < 8
  {
    imm / 0x1000 * 0x8000_0000 + imm / 0x20 % 64 * 0x200_0000 + rs2 * 0x10_0000 + rs1 * 0x8000 + funct3 * 0x1000
    + imm / 2 % 16 * 0x100 + imm / 0x800 % 2 * 0x80 + 0x63
  }

  // ----- decoding undoes encoding -----

  lemma DecodeR(funct7: nat, rs2: nat, rs1: nat, funct3: nat, rd: nat, opcode: nat)
    requires funct7 < 128 && rs2 < 32 && rs1 < 32 && funct3 < 8 && rd < 32 && opcode < 128
    ensures var i := EncodeR(funct7, rs2, rs1, funct3, rd, opcode);
            && Opcode(i) == opcode && Rd(i) == rd && Funct3(i) == funct3 && Rs1(i) == rs1 && Rs2(i) == rs2
            && Funct7(i) == funct7
  {
    var i := EncodeR(funct7, rs2, rs1, funct3, rd, opcode);
    assert i / 0x80 == funct7 * 0x4_0000 + rs2 * 0x2000 + rs1 * 0x100 + funct3 * 0x20 + rd;
    assert i / 0x1000 == funct7 * 0x2000 + rs2 * 0x100 + rs1 * 8 + funct3;
    assert i / 0x8000 == funct7 * 0x400 + rs2 * 32 + rs1;
    assert i / 0x10_0000 == funct7 * 32 + rs2;
  }

  lemma DecodeI(imm: nat, rs1: nat, funct3: nat, rd: nat, opcode: nat)
    requires imm < 0x1000 && rs1 < 32 && funct3 < 8 && rd < 32 && opcode < 128
    ensures var i := EncodeI(imm, rs1, funct3, rd, opcode);
            && Opcode(i) == opcode && Rd(i) == rd && Funct3(i) == funct3 && Rs1(i) == rs1 && CsrAddr(i) == imm
            && Funct7(i) == imm / 32 && ImmI(i) == SignExtend(imm, 0x1000)
  {
    DecodeR(imm / 32, imm % 32, rs1, funct3, rd, opcode);
    assert EncodeI(imm, rs1, funct3, rd, opcode) == EncodeR(imm / 32, imm % 32, rs1, funct3, rd, opcode);
  }

  lemma DecodeS(imm: nat, rs2: nat, rs1: nat, funct3: nat)
    requires imm < 0x1000 && rs2 < 32 && rs1 < 32 && funct3 < 8
    ensures var i := EncodeS(imm, rs2, rs1, funct3);
            && Opcode(i) == 0x23 && Funct3(i) == funct3 && Rs1(i) == rs1 && Rs2(i) == rs2
            && ImmS(i) == SignExtend(imm, 0x1000)
  {
    hide EncodeR, Opcode, Funct3, Rs1, Rs2, Rd, Funct7, SignExtend;
    var high, low := imm / 32, imm % 32;
    DecodeR(high, rs2, rs1, funct3, low, 0x23);
    assert low + high * 32 == imm;
  }

  lemma DecodeU(imm20: nat, rd: nat, opcode: nat)
    requires imm20 < 0x10_0000 && rd < 32 && opcode < 128
    ensures var i := EncodeU(imm20, rd, opcode);
            Opcode(i) == opcode && Rd(i) == rd && ImmU(i) == imm20 * 0x1000
  {
    var i := EncodeU(imm20, rd, opcode);
    assert i / 0x80 == imm20 * 32 + rd;
  }

  /** The 20-bit field that holds a jump offset. */
  function JumpField(top: nat, mid: nat, bit: nat, high: nat): nat
    requires top < 2 && mid < 0x400 && bit < 2 && high < 0x100
  {
    top * 0x8_0000 + mid * 0x200 + bit * 0x100 + high
  }

  lemma JumpFieldParts(top: nat, mid: nat, bit: nat, high: nat, rd: nat)
    requires top < 2 && mid < 0x400 && bit < 2 && high < 0x100 && rd < 32
    ensures var i := EncodeU(JumpField(top, mid, bit, high), rd, 0x6F);
            && i / 0x20_0000 % 0x400 == mid && i / 0x10_0000 % 2 == bit && i / 0x1000 % 0x100 == high
            && i / 0x8000_0000 == top
  {
    var low := rd * 0x80 + 0x6F;
    var i := EncodeU(JumpField(top, mid, bit, high), rd, 0x6F);
    assert i == top * 0x8000_0000 + mid * 0x20_0000 + bit * 0x10_0000 + high * 0x1000 + low;
    Euclid(JumpField(top, mid, bit, high), 0x1000, low);
    Euclid(top * 0x800 + mid * 2 + bit, 0x10_0000, high * 0x1000 + low);
    Euclid(top * 0x400 + mid, 0x20_0000, bit * 0x10_0000 + high * 0x1000 + low);
    Euclid(top, 0x8000_0000, mid * 0x20_0000 + bit * 0x10_0000 + high * 0x1000 + low);
    Euclid(top, 0x400, mid);
    Euclid(top * 0x400 + mid, 2, bit);
    Euclid(top * 0x800 + mid * 2 + bit, 0x100, high);
  }

  lemma JumpImmParts(imm: nat)
    requires imm < 0x20_0000 && imm % 2 == 0
    ensures imm == imm / 2 % 0x400 * 2 + imm / 0x800 % 2 * 0x800 + imm / 0x1000 % 0x100 * 0x1000
                   + imm / 0x10_0000 * 0x10_0000
  {
    var half := imm / 2;
    assert imm / 0x800 == half / 0x400;
    assert imm / 0x1000 == half / 0x400 / 2;
    assert imm / 0x10_0000 == half / 0x400 / 2 / 0x100;
  }

  lemma DecodeJ(imm: nat, rd: nat)
    requires imm < 0x20_0000 && imm % 2 == 0 && rd < 32
    ensures var i := EncodeJ(imm, rd);
            Opcode(i) == 0x6F && Rd(i) == rd && ImmJ(i) == SignExtend(imm, 0x20_0000)
  {
    var top, mid, bit, high := imm / 0x10_0000, imm / 2 % 0x400, imm / 0x800 % 2, imm / 0x1000 % 0x100;
    assert EncodeJ(imm, rd) == EncodeU(JumpField(top, mid, bit, high), rd, 0x6F);
    DecodeU(JumpField(top, mid, bit, high), rd, 0x6F);
    JumpFieldParts(top, mid, bit, high, rd);
    JumpImmParts(imm);
  }

  lemma BranchImmParts(imm: nat)
    requires imm < 0x2000 && imm % 2 == 0
    ensures imm == imm / 2 % 16 * 2 + imm / 0x20 % 64 * 0x20 + imm / 0x800 % 2 * 0x800 + imm / 0x1000 * 0x1000
  {
    var half := imm / 2;
    assert imm / 0x20 == half / 16;
    assert imm / 0x800 == half / 16 / 64;
    assert imm / 0x1000 == half / 16 / 64 / 2;
  }

  lemma BranchWordParts(top: nat, mid: nat, low: nat, bit: nat, rs2: nat, rs1: nat, funct3: nat)
    requires top < 2 && mid < 64 && low < 16 && bit < 2 && rs2 < 32 && rs1 < 32 && funct3 < 8
    ensures var i := EncodeR(top * 64 + mid, rs2, rs1, funct3, low * 2 + bit, 0x63);
            && i / 0x100 % 16 == low && i / 0x80 % 2 == bit && i / 0x8000_0000 == top && Funct7(i) % 64 == mid
  {
    var i := EncodeR(top * 64 + mid, rs2, rs1, funct3, low * 2 + bit, 0x63);
    var upper := ((top * 64 + mid) * 32 + rs2) * 0x100 + rs1 * 8 + funct3;
    assert i == upper * 0x1000 + low * 0x100 + bit * 0x80 + 0x63;
    Euclid(upper * 16 + low, 0x100, bit * 0x80 + 0x63);
    Euclid(upper, 16, low);
    Euclid(upper * 32 + low * 2 + bit, 0x80, 0x63);
    Euclid(upper * 16 + low, 2, bit);
    var rest := rs2 * 0x10_0000 + rs1 * 0x8000 + funct3 * 0x1000 + low * 0x100 + bit * 0x80 + 0x63;
    assert i == (top * 64 + mid) * 0x200_0000 + rest;
    Euclid(top * 64 + mid, 0x200_0000, rest);
    Euclid(top, 0x8000_0000, mid * 0x200_0000 + rest);
    Euclid(top, 64, mid);
  }

  lemma DecodeB(imm: nat, rs2: nat, rs1: nat, funct3: nat)
    requires imm < 0x2000 && imm % 2 == 0 && rs2 < 32 && rs1 < 32 && funct3 < 8
    ensures var i := EncodeB(imm, rs2, rs1, funct3);
            && Opcode(i) == 0x63 && Funct3(i) == funct3 && Rs1(i) == rs1 && Rs2(i) == rs2
            && ImmB(i) == SignExtend(imm, 0x2000)
  {
    var top, mid, low, bit := imm / 0x1000, imm / 0x20 % 64, imm / 2 % 16, imm / 0x800 % 2;
    var i := EncodeR(top * 64 + mid, rs2, rs1, funct3, low * 2 + bit, 0x63);
    assert EncodeB(imm, rs2, rs1, funct3) == i;
    assert imm == low * 2 + mid * 0x20 + bit * 0x800 + top * 0x1000 by {
      BranchImmParts(imm);
    }
    assert ImmB(i) == SignExtend(imm, 0x2000) by {
      BranchWordParts(top, mid, low, bit, rs2, rs1, funct3);
    }
    DecodeR(top * 64 + mid, rs2, rs1, funct3, low * 2 + bit, 0x63);
  }
}
