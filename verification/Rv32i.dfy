/** The 32-bit decoder against the RISC-V Unprivileged ISA (20191213): what every encoded instruction of chapters 2
    and 9 and MRET do to the hart, in integers and bits. */
module Rv32i {
  import opened Words
  import opened Bits
  import opened Isa
  import opened HartState
  import opened Execute

  const WORD := 0x1_0000_0000

  /** h after an instruction of four bytes that gives rd the value r; x0 stays. */
  function Next(h: Hart, rd: nat, r: Word): Hart
    requires rd < 32
  {
    h.(regs := if rd == 0 then h.regs else h.regs[rd := r], pc := (h.pc + 4) % WORD)
  }

  // ----- register and immediate operations, section 2.4 -----

  datatype Operation = AddOp | SubOp | SllOp | SltOp | SltuOp | XorOp | SrlOp | SraOp | OrOp | AndOp

  function OperationFunct3(op: Operation): (f: nat)
    ensures f < 8
  {
    match op
    case AddOp => 0
    case SubOp => 0
    case SllOp => 1
    case SltOp => 2
    case SltuOp => 3
    case XorOp => 4
    case SrlOp => 5
    case SraOp => 5
    case OrOp => 6
    case AndOp => 7
  }

  function OperationFunct7(op: Operation): (f: nat)
    ensures f < 128
  {
    if op.SubOp? || op.SraOp? then 0x20 else 0
  }

  /** Bit i of the result of an operation that is defined bit by bit; shifts take the low five bits of b. */
  ghost predicate BitMeets(op: Operation, a: Word, b: Word, r: Word, i: nat)
  {
    match op
    case SllOp => Bit(r, i) <==> i >= b % 32 && Bit(a, i - b % 32)
    case SrlOp => Bit(r, i) <==> i + b % 32 < 32 && Bit(a, i + b % 32)
    case SraOp => Bit(r, i) <==> if i + b % 32 < 32 then Bit(a, i + b % 32) else Bit(a, 31)
    case XorOp => Bit(r, i) <==> Bit(a, i) != Bit(b, i)
    case OrOp => Bit(r, i) <==> Bit(a, i) || Bit(b, i)
    case AndOp => Bit(r, i) <==> Bit(a, i) && Bit(b, i)
    case _ => true
  }

  /** r is the result of the operation on a and b. */
  ghost predicate Result(op: Operation, a: Word, b: Word, r: Word)
  {
    match op
    case AddOp => (r - a - b) % WORD == 0
    case SubOp => (r - a + b) % WORD == 0
    case SltOp => r == if Signed(a) < Signed(b) then 1 else 0
    case SltuOp => r == if a < b then 1 else 0
    case _ => forall i: nat :: i < 32 ==> BitMeets(op, a, b, r, i)
  }

  /** The result is the only word that fits. */
  lemma ResultIsUnique(op: Operation, a: Word, b: Word, r: Word, s: Word)
    requires Result(op, a, b, r) && Result(op, a, b, s)
    ensures r == s
  {
    if op.AddOp? || op.SubOp? {
      var d := r - s;
      assert d % WORD == 0 by {
        DifferenceModulo(r, s, if op.AddOp? then a + b else a - b);
      }
    } else if !op.SltOp? && !op.SltuOp? {
      forall i: nat | i < 32 ensures Bit(r, i) == Bit(s, i) {
        assert BitMeets(op, a, b, r, i) && BitMeets(op, a, b, s, i);
      }
      WordsEqual(r, s);
    }
  }

  lemma DifferenceModulo(r: int, s: int, t: int)
    requires (r - t) % WORD == 0 && (s - t) % WORD == 0
    ensures (r - s) % WORD == 0
  {
  }

  lemma WordsEqual(r: Word, s: Word)
    requires forall i: nat :: i < 32 ==> Bit(r, i) == Bit(s, i)
    ensures r == s
  {
    Pow2Word();
    forall i: nat ensures Bit(r, i) == Bit(s, i) {
      if i >= 32 {
        HighBit(r, 32, i);
        HighBit(s, 32, i);
      }
    }
    BitsDetermine(r, s);
  }

  lemma AluMeets(op: Operation, a: Word, b: Word)
    ensures var r := AluOp(OperationFunct3(op), OperationFunct7(op), a, b); r.Some? && Result(op, a, b, r.value)
  {
    hide Bit, Pow2, And, Or, Xor, ShiftLeft, ShiftRight, ShiftRightArith, OrWord, XorWord;
    var r := AluOp(OperationFunct3(op), OperationFunct7(op), a, b).value;
    match op
    case AddOp =>
    case SubOp =>
    case SltOp =>
    case SltuOp =>
    case _ =>
      forall i: nat | i < 32 ensures BitMeets(op, a, b, r, i) {
        BitsMeet(op, a, b, i);
      }
  }

  lemma BitsMeet(op: Operation, a: Word, b: Word, i: nat)
    requires i < 32
    ensures var r := AluOp(OperationFunct3(op), OperationFunct7(op), a, b); r.Some? && BitMeets(op, a, b, r.value, i)
  {
    hide Bit, Pow2, And, Or, Xor, ShiftLeft, ShiftRight, ShiftRightArith;
    ShiftLeftBit(a, b % 32, i);
    ShiftRightBit(a, b % 32, i);
    ShiftRightArithBit(a, b % 32, i);
    XorBit(a, b, i);
    OrBit(a, b, i);
    AndBit(a, b, i);
  }

  /** OP: the ten register operations. */
  lemma RegisterOperation(h: Hart, op: Operation, rd: nat, rs1: nat, rs2: nat)
    requires rd < 32 && rs1 < 32 && rs2 < 32
    ensures exists r: Word ::
              && Result(op, h.regs[rs1], h.regs[rs2], r)
              && Execute32(h, EncodeR(OperationFunct7(op), rs2, rs1, OperationFunct3(op), rd, 0x33))
                 == Retire(Next(h, rd, r), Some(Alu))
  {
    AluMeets(op, h.regs[rs1], h.regs[rs2]);
    hide Opcode, Rd, Rs1, Rs2, Funct3, Funct7, AluOp, MulDiv, Result, EncodeR;
    DecodeR(OperationFunct7(op), rs2, rs1, OperationFunct3(op), rd, 0x33);
    var r := AluOp(OperationFunct3(op), OperationFunct7(op), h.regs[rs1], h.regs[rs2]).value;
    assert Result(op, h.regs[rs1], h.regs[rs2], r);
  }

  predicate IsShift(op: Operation) { op.SllOp? || op.SrlOp? || op.SraOp? }

  /** An immediate that the instruction can hold; there is no subtraction of one. */
  predicate HasImmediate(op: Operation, imm: int)
  {
    if IsShift(op) then 0 <= imm < 32 else !op.SubOp? && -0x800 <= imm < 0x800
  }

  /** The upper twelve bits of the instruction. */
  function ImmediateField(op: Operation, imm: int): (field: nat)
    requires HasImmediate(op, imm)
    ensures field < 0x1000
  {
    if op.SraOp? then imm + 0x400 else imm % 0x1000
  }

  lemma ImmediateOperand(imm: int)
    requires -0x800 <= imm < 0x800
    ensures SignExtend(imm % 0x1000, 0x1000) == imm % WORD
  {
    ExtendIsTwosComplement(imm, 0x1000);
    SignedIsTwosComplement(SignExtend(imm % 0x1000, 0x1000), imm);
  }

  /** The immediate operations are the register operations on the immediate. */
  lemma AluImmIsAluOp(op: Operation, a: Word, imm: int)
    requires HasImmediate(op, imm)
    ensures var field := ImmediateField(op, imm);
            AluImm(OperationFunct3(op), field, a, SignExtend(field, 0x1000))
            == AluOp(OperationFunct3(op), OperationFunct7(op), a, imm % WORD)
  {
    hide And, ShiftLeft, ShiftRight, ShiftRightArith, OrWord, XorWord, SignExtend, Signed;
    if IsShift(op) {
      ShiftField(op, imm);
    } else {
      ImmediateOperand(imm);
    }
  }

  lemma ShiftField(op: Operation, imm: int)
    requires IsShift(op) && HasImmediate(op, imm)
    ensures var field := ImmediateField(op, imm);
            field / 32 == OperationFunct7(op) && field % 32 == imm == imm % WORD % 32 && (!op.SraOp? ==> field == imm)
  {
  }

  /** OP-IMM: the operand is the sign-extended immediate, or the shift amount. */
  lemma ImmediateOperation(h: Hart, op: Operation, rd: nat, rs1: nat, imm: int)
    requires rd < 32 && rs1 < 32 && HasImmediate(op, imm)
    ensures exists r: Word ::
              && Result(op, h.regs[rs1], imm % WORD, r)
              && Execute32(h, EncodeI(ImmediateField(op, imm), rs1, OperationFunct3(op), rd, 0x13))
                 == Retire(Next(h, rd, r), Some(Alu))
  {
    var field := ImmediateField(op, imm);
    AluMeets(op, h.regs[rs1], imm % WORD);
    AluImmIsAluOp(op, h.regs[rs1], imm);
    hide Opcode, Rd, Rs1, Rs2, Funct3, CsrAddr, ImmI, AluImm, AluOp, Result, EncodeI, SignExtend, ImmediateField;
    DecodeI(field, rs1, OperationFunct3(op), rd, 0x13);
    var r := AluImm(OperationFunct3(op), field, h.regs[rs1], SignExtend(field, 0x1000)).value;
    assert Result(op, h.regs[rs1], imm % WORD, r);
  }

  /** LUI and AUIPC. */
  lemma UpperImmediate(h: Hart, rd: nat, imm20: nat)
    requires rd < 32 && imm20 < 0x10_0000
    ensures Execute32(h, EncodeU(imm20, rd, 0x37)) == Retire(Next(h, rd, imm20 * 0x1000), Some(Alu))
    ensures Execute32(h, EncodeU(imm20, rd, 0x17)) == Retire(Next(h, rd, (h.pc + imm20 * 0x1000) % WORD), Some(Alu))
  {
    hide Opcode, Rd, Rs1, Rs2, Funct3, ImmU, EncodeU;
    DecodeU(imm20, rd, 0x37);
    DecodeU(imm20, rd, 0x17);
  }

  /** The M instructions compute MulDiv of the two registers, in this order. */
  lemma MultiplyDivide(h: Hart, funct3: nat, rd: nat, rs1: nat, rs2: nat)
    requires funct3 < 8 && rd < 32 && rs1 < 32 && rs2 < 32
    ensures Execute32(h, EncodeR(1, rs2, rs1, funct3, rd, 0x33))
            == Retire(Next(h, rd, MulDiv(funct3, h.regs[rs1], h.regs[rs2])), Some(if funct3 < 4 then Mul else Div))
  {
    hide Opcode, Rd, Rs1, Rs2, Funct3, Funct7, MulDiv, EncodeR;
    DecodeR(1, rs2, rs1, funct3, rd, 0x33);
  }

  // ----- transfers of control, section 2.5 -----

  datatype Condition = Equal | NotEqual | Less | NotLess | LessUnsigned | NotLessUnsigned

  function ConditionFunct3(c: Condition): (f: nat)
    ensures f < 8
  {
    match c
    case Equal => 0
    case NotEqual => 1
    case Less => 4
    case NotLess => 5
    case LessUnsigned => 6
    case NotLessUnsigned => 7
  }

  predicate Holds(c: Condition, a: Word, b: Word)
  {
    match c
    case Equal => a == b
    case NotEqual => a != b
    case Less => Signed(a) < Signed(b)
    case NotLess => Signed(a) >= Signed(b)
    case LessUnsigned => a < b
    case NotLessUnsigned => a >= b
  }

  lemma Offset(v: int, modulus: int, pc: Word)
    requires modulus in {0x1000, 0x2000, 0x20_0000} && -modulus / 2 <= v < modulus / 2
    ensures (pc + SignExtend(v % modulus, modulus)) % WORD == (pc + v) % WORD
  {
    ExtendIsTwosComplement(v, modulus);
    SignedIsTwosComplement(SignExtend(v % modulus, modulus), v);
    var x := SignExtend(v % modulus, modulus);
    assert x == v % WORD;
  }

  /** A branch goes to pc + offset if and only if its condition holds, else to pc + 4, and writes nothing. */
  lemma BranchGoes(h: Hart, c: Condition, rs1: nat, rs2: nat, offset: int)
    requires rs1 < 32 && rs2 < 32 && -0x1000 <= offset < 0x1000 && offset % 2 == 0
    ensures var target := if Holds(c, h.regs[rs1], h.regs[rs2]) then h.pc + offset else h.pc + 4;
            Execute32(h, EncodeB(offset % 0x2000, rs2, rs1, ConditionFunct3(c)))
            == Retire(h.(pc := target % WORD), Some(Branch))
  {
    hide Opcode, Rd, Rs1, Rs2, Funct3, ImmB, EncodeB, SignExtend, ImmI, ImmJ;
    DecodeB(offset % 0x2000, rs2, rs1, ConditionFunct3(c));
    Offset(offset, 0x2000, h.pc);
  }

  /** JAL links pc + 4 and jumps by its offset. */
  lemma JumpLinks(h: Hart, rd: nat, offset: int)
    requires rd < 32 && -0x10_0000 <= offset < 0x10_0000 && offset % 2 == 0
    ensures Execute32(h, EncodeJ(offset % 0x20_0000, rd))
            == Retire(Next(h, rd, (h.pc + 4) % WORD).(pc := (h.pc + offset) % WORD), Some(Jump))
  {
    hide Opcode, Rd, Rs1, Rs2, Funct3, ImmJ, EncodeJ, SignExtend, ImmI, ImmB;
    DecodeJ(offset % 0x20_0000, rd);
    Offset(offset, 0x20_0000, h.pc);
  }

  /** JALR links pc + 4 and jumps to the old rs1 plus the immediate, its lowest bit cleared. */
  lemma JumpRegisterLinks(h: Hart, rd: nat, rs1: nat, imm: int)
    requires rd < 32 && rs1 < 32 && -0x800 <= imm < 0x800
    ensures var target := (h.regs[rs1] + imm) % WORD;
            Execute32(h, EncodeI(imm % 0x1000, rs1, 0, rd, 0x67))
            == Retire(Next(h, rd, (h.pc + 4) % WORD).(pc := target - target % 2), Some(Jump))
  {
    hide Opcode, Rd, Rs1, Rs2, Funct3, ImmI, EncodeI, SignExtend, Execute32, SetPc, WriteReg, Next, Wrap;
    var word, target := EncodeI(imm % 0x1000, rs1, 0, rd, 0x67), (h.regs[rs1] + imm) % WORD;
    DecodeI(imm % 0x1000, rs1, 0, rd, 0x67);
    Offset(imm, 0x1000, h.regs[rs1]);
    WrapIsModulo(h.regs[rs1] + ImmI(word));
    RegisterJump(h, word);
    JumpedTo(h, rd, target);
  }

  lemma WrapIsModulo(x: int)
    ensures Wrap(x) == x % WORD
  {
  }

  lemma JumpedTo(h: Hart, rd: nat, target: Word)
    requires rd < 32
    ensures SetPc(WriteReg(h, rd, Wrap(h.pc + 4)), target - target % 2)
            == Next(h, rd, (h.pc + 4) % WORD).(pc := target - target % 2)
  {
  }

  lemma RegisterJump(h: Hart, insn: Word)
    requires Opcode(insn) == 0x67
    ensures var target := Wrap(h.regs[Rs1(insn)] + ImmI(insn));
            Execute32(h, insn) == Retire(SetPc(WriteReg(h, Rd(insn), Wrap(h.pc + 4)), target - target % 2), Some(Jump))
  {
    hide Opcode, Rd, Rs1, Rs2, Funct3, ImmI, ImmB, ImmJ, LoadInsn, StoreInsn, System, ComputeInsn, Taken, WriteReg, SetPc;
  }

  // ----- loads and stores, section 2.6 -----

  datatype Width = ByteWide | HalfWide | WordWide

  function LoadFunct3(width: Width, unsigned: bool): (f: nat)
    ensures f < 8
  {
    match width
    case ByteWide => if unsigned then 4 else 0
    case HalfWide => if unsigned then 5 else 1
    case WordWide => 2
  }

  /** What the memory system returns, before extension. */
  function Read(h: Hart, width: Width, addr: Word): Loaded
  {
    match width
    case ByteWide => ReadU8(h, addr)
    case HalfWide => ReadU16(h, addr)
    case WordWide => ReadU32(h, addr)
  }

  function Write(h: Hart, width: Width, addr: Word, value: Word): Hart
  {
    match width
    case ByteWide => WriteU8(h, addr, value % 0x100)
    case HalfWide => WriteU16(h, addr, value % 0x1_0000)
    case WordWide => WriteU32(h, addr, value)
  }

  /** r is the value read, sign-extended from its width unless the load is unsigned. */
  predicate Extends(width: Width, unsigned: bool, value: Word, r: Word)
  {
    if unsigned || width.WordWide? then r == value
    else
      var modulus := if width.ByteWide? then 0x100 else 0x1_0000;
      -modulus / 2 <= Signed(r) < modulus / 2 && (Signed(r) - value) % modulus == 0
  }

  lemma LoadFromReads(h: Hart, width: Width, unsigned: bool, addr: Word)
    requires unsigned ==> !width.WordWide?
    ensures var loaded := LoadFrom(h, LoadFunct3(width, unsigned), addr);
            loaded.hart == Read(h, width, addr).hart && Extends(width, unsigned, Read(h, width, addr).value, loaded.value)
  {
    hide ReadU8, ReadU16, ReadU32, Signed, SignExtend;
    ByteExtends(Read(h, width, addr).value);
    HalfExtends(Read(h, width, addr).value);
  }

  lemma ByteExtends(value: Word)
    ensures var r := Signed(SignExtend(value, 0x100)); -0x80 <= r < 0x80 && (r - value) % 0x100 == 0
  {
  }

  lemma HalfExtends(value: Word)
    ensures var r := Signed(SignExtend(value, 0x1_0000)); -0x8000 <= r < 0x8000 && (r - value) % 0x1_0000 == 0
  {
  }

  lemma LoadExecutes(h: Hart, funct3: nat, rd: nat, rs1: nat, imm: int, addr: Word)
    requires funct3 < 8 && rd < 32 && rs1 < 32 && -0x800 <= imm < 0x800 && addr == (h.regs[rs1] + imm) % WORD
    ensures var loaded := LoadFrom(h, funct3, addr);
            Execute32(h, EncodeI(imm % 0x1000, rs1, funct3, rd, 0x03))
            == Retire(Next(loaded.hart, rd, loaded.value).(pc := (h.pc + 4) % WORD), Some(Load))
  {
    hide LoadFrom, SignExtend, Opcode, Rd, Rs1, Rs2, Funct3, ImmI, EncodeI, StoreInsn, TransferInsn, System, ComputeInsn;
    DecodeI(imm % 0x1000, rs1, funct3, rd, 0x03);
    Offset(imm, 0x1000, h.regs[rs1]);
  }

  /** A load reads at rs1 plus the immediate and puts the extended value in rd. */
  lemma LoadReads(h: Hart, width: Width, unsigned: bool, rd: nat, rs1: nat, imm: int, addr: Word)
    requires rd < 32 && rs1 < 32 && -0x800 <= imm < 0x800 && (unsigned ==> !width.WordWide?)
    requires addr == (h.regs[rs1] + imm) % WORD
    ensures exists r: Word ::
              && Extends(width, unsigned, Read(h, width, addr).value, r)
              && Execute32(h, EncodeI(imm % 0x1000, rs1, LoadFunct3(width, unsigned), rd, 0x03))
                 == Retire(Next(Read(h, width, addr).hart, rd, r).(pc := (h.pc + 4) % WORD), Some(Load))
  {
    LoadFromReads(h, width, unsigned, addr);
    LoadExecutes(h, LoadFunct3(width, unsigned), rd, rs1, imm, addr);
    hide LoadFrom, Read, Extends, LoadFunct3, EncodeI, Execute32, Next;
    var r := LoadFrom(h, LoadFunct3(width, unsigned), addr).value;
    assert Extends(width, unsigned, Read(h, width, addr).value, r);
  }

  /** A store writes the low bytes of rs2 at rs1 plus the immediate, and no register. */
  lemma StoreWrites(h: Hart, width: Width, rs2: nat, rs1: nat, imm: int)
    requires rs2 < 32 && rs1 < 32 && -0x800 <= imm < 0x800
    ensures Execute32(h, EncodeS(imm % 0x1000, rs2, rs1, LoadFunct3(width, false)))
            == Retire(Write(h, width, (h.regs[rs1] + imm) % WORD, h.regs[rs2]).(pc := (h.pc + 4) % WORD), Some(Store))
  {
    hide WriteU8, WriteU16, WriteU32, SignExtend, Opcode, Rd, Rs1, Rs2, Funct3, ImmS, EncodeS;
    DecodeS(imm % 0x1000, rs2, rs1, LoadFunct3(width, false));
    Offset(imm, 0x1000, h.regs[rs1]);
  }

  /** FENCE, and every opcode the decoder does not list, only moves the pc. */
  lemma OtherOpcodesDoNothing(h: Hart, insn: Word)
    requires Opcode(insn) !in {0x33, 0x13, 0x37, 0x17, 0x03, 0x23, 0x63, 0x6F, 0x67, 0x73}
    ensures Execute32(h, insn) == Retire(h.(pc := (h.pc + 4) % WORD), Some(Alu))
  {
    hide Opcode, Rd, Rs1, Rs2, Funct3, ImmI;
  }

  // ----- codes that the standard does not list -----

  /** OP with another funct7: the shift left leaves rd alone, and every other operation goes on as with funct7 zero. */
  lemma OtherFunct7(h: Hart, funct7: nat, funct3: nat, rd: nat, rs1: nat, rs2: nat)
    requires funct7 < 128 && funct3 < 8 && rd < 32 && rs1 < 32 && rs2 < 32
    requires funct7 !in {0, 1} && !(funct7 == 0x20 && funct3 in {0, 5})
    ensures Execute32(h, EncodeR(funct7, rs2, rs1, funct3, rd, 0x33))
            == if funct3 == 1 then Retire(h.(pc := (h.pc + 4) % WORD), Some(Alu))
               else Execute32(h, EncodeR(0, rs2, rs1, funct3, rd, 0x33))
  {
    hide Opcode, Rd, Rs1, Rs2, Funct3, Funct7, MulDiv, EncodeR, And, OrWord, XorWord, ShiftLeft, ShiftRight, ShiftRightArith;
    hide LoadInsn, StoreInsn, TransferInsn, System;
    DecodeR(funct7, rs2, rs1, funct3, rd, 0x33);
    DecodeR(0, rs2, rs1, funct3, rd, 0x33);
  }

  /** An immediate shift whose upper seven bits are neither those of a logical nor of an arithmetic one does nothing. */
  lemma OtherShifts(h: Hart, funct3: nat, rd: nat, rs1: nat, field: nat)
    requires funct3 in {1, 5} && rd < 32 && rs1 < 32 && 32 <= field < 0x1000 && (funct3 == 5 ==> field / 32 != 0x20)
    ensures Execute32(h, EncodeI(field, rs1, funct3, rd, 0x13)) == Retire(h.(pc := (h.pc + 4) % WORD), Some(Alu))
  {
    hide Opcode, Rd, Rs1, Rs2, Funct3, CsrAddr, ImmI, EncodeI, SignExtend, ShiftLeft, ShiftRight, ShiftRightArith;
    hide LoadInsn, StoreInsn, TransferInsn, System;
    DecodeI(field, rs1, funct3, rd, 0x13);
  }

  /** A load of no listed width reads nothing and gives zero; a store of none stores nothing; a branch on no listed
      condition is not taken. */
  lemma OtherWidths(h: Hart, funct3: nat, rd: nat, rs1: nat, rs2: nat, imm: int, offset: int)
    requires rd < 32 && rs1 < 32 && rs2 < 32 && -0x800 <= imm < 0x800 && -0x1000 <= offset < 0x1000 && offset % 2 == 0
    ensures funct3 in {3, 6, 7} ==>
              Execute32(h, EncodeI(imm % 0x1000, rs1, funct3, rd, 0x03)) == Retire(Next(h, rd, 0), Some(Load))
    ensures 3 <= funct3 < 8 ==>
              Execute32(h, EncodeS(imm % 0x1000, rs2, rs1, funct3)) == Retire(h.(pc := (h.pc + 4) % WORD), Some(Store))
    ensures funct3 in {2, 3} ==>
              Execute32(h, EncodeB(offset % 0x2000, rs2, rs1, funct3)) == Retire(h.(pc := (h.pc + 4) % WORD), Some(Branch))
  {
    hide Opcode, Rd, Rs1, Rs2, Funct3, ImmI, ImmS, ImmB, EncodeI, EncodeS, EncodeB, SignExtend, System, ComputeInsn;
    if funct3 < 8 {
      DecodeI(imm % 0x1000, rs1, funct3, rd, 0x03);
      DecodeS(imm % 0x1000, rs2, rs1, funct3);
      DecodeB(offset % 0x2000, rs2, rs1, funct3);
    }
  }
}
