/** The instruction semantics of the simulator, 32-bit and compressed. */
module Execute {
  import opened Words
  import opened Isa
  import opened HartState

  /** Retire: the C function returned true; event is the class recorded by the
      profiler, absent for MRET.  Stop: it returned false. */
  datatype Outcome = Retire(hart: Hart, event: Option<InsnType>) | Stop(hart: Hart)

  predicate MieSet(mstatus: Word) { mstatus / 8 % 2 == 1 }

  function SetMie(mstatus: Word): Word { if MieSet(mstatus) then mstatus else mstatus + 8 }

  function ClearMie(mstatus: Word): Word { if MieSet(mstatus) then mstatus - 8 else mstatus }

  function SetPc(h: Hart, target: int): Hart { h.(pc := Wrap(target)) }

  // ----- M extension -----

  /** Division as in C: rounded toward zero. */
  function TruncDiv(a: int, b: int): int
    requires b != 0
  {
    if (a >= 0) == (b > 0) then Abs(a) / Abs(b) else -(Abs(a) / Abs(b))
  }

  function TruncRem(a: int, b: int): int
    requires b != 0
  {
    if a >= 0 then Abs(a) % Abs(b) else -(Abs(a) % Abs(b))
  }

  function Abs(x: int): nat { if x < 0 then -x else x }

  const ALL_ONES: Word := 0xFFFF_FFFF
  const INT32_MIN: int := -0x8000_0000

  function MulDiv(funct3: nat, a: Word, b: Word): Word
  {
    match funct3
    case 0 => Wrap(Signed(a) * Signed(b))
    case 1 => Wrap(Signed(a) * Signed(b) / 0x1_0000_0000)
    case 2 => (Signed(a) % 0x1_0000_0000_0000_0000 * b) % 0x1_0000_0000_0000_0000 / 0x1_0000_0000
    case 3 => Wrap(a * b / 0x1_0000_0000)
    case 4 =>
      if b == 0 then ALL_ONES
      else if Signed(a) == INT32_MIN && Signed(b) == -1 then 0x8000_0000
      else Wrap(TruncDiv(Signed(a), Signed(b)))
    case 5 => if b == 0 then ALL_ONES else Wrap(a / b)
    case 6 =>
      if b == 0 then a
      else if Signed(a) == INT32_MIN && Signed(b) == -1 then 0
      else Wrap(TruncRem(Signed(a), Signed(b)))
    case _ => if b == 0 then a else Wrap(a % b)
  }

  // ----- RV32I -----

  /** Result of a register-register operation; None when rd is left alone. */
  function AluOp(funct3: nat, funct7: nat, a: Word, b: Word): Option<Word>
  {
    match funct3
    case 0 => Some(if funct7 == 0x20 then Wrap(a - b) else Wrap(a + b))
    case 1 => if funct7 == 0 then Some(ShiftLeft(a, b % 32)) else None
    case 2 => Some(if Signed(a) < Signed(b) then 1 else 0)
    case 3 => Some(if a < b then 1 else 0)
    case 4 => Some(XorWord(a, b))
    case 5 => Some(if funct7 == 0x20 then ShiftRightArith(a, b % 32) else ShiftRight(a, b % 32))
    case 6 => Some(OrWord(a, b))
    case _ => Some(And(a, b))
  }

  /** Result of a register-immediate operation; field is the raw 12-bit immediate. */
  function AluImm(funct3: nat, field: nat, a: Word, imm: Word): Option<Word>
  {
    match funct3
    case 0 => Some(Wrap(a + imm))
    case 1 => if field / 32 == 0 then Some(ShiftLeft(a, field)) else None
    case 2 => Some(if Signed(a) < Signed(imm) then 1 else 0)
    case 3 => Some(if a < imm then 1 else 0)
    case 4 => Some(XorWord(a, imm))
    case 5 =>
      if field / 32 == 0 then Some(ShiftRight(a, field % 32))
      else if field / 32 == 0x20 then Some(ShiftRightArith(a, field % 32))
      else None
    case 6 => Some(OrWord(a, imm))
    case _ => Some(And(a, imm))
  }

  predicate Taken(funct3: nat, a: Word, b: Word)
  {
    match funct3
    case 0 => a == b
    case 1 => a != b
    case 4 => Signed(a) < Signed(b)
    case 5 => Signed(a) >= Signed(b)
    case 6 => a < b
    case 7 => a >= b
    case _ => false
  }

  function WriteOption(h: Hart, rd: nat, v: Option<Word>): Hart
    requires rd < 32
  {
    match v
    case None => h
    case Some(x) => WriteReg(h, rd, x)
  }

  function LoadFrom(h: Hart, funct3: nat, addr: Word): Loaded
  {
    match funct3
    case 0 => var r := ReadU8(h, addr); Loaded(r.hart, SignExtend(r.value, 0x100))
    case 1 => var r := ReadU16(h, addr); Loaded(r.hart, SignExtend(r.value, 0x1_0000))
    case 2 => ReadU32(h, addr)
    case 4 => ReadU8(h, addr)
    case 5 => ReadU16(h, addr)
    case _ => Loaded(h, 0)
  }

  function StoreTo(h: Hart, funct3: nat, addr: Word, value: Word): Hart
  {
    match funct3
    case 0 => WriteU8(h, addr, value % 0x100)
    case 1 => WriteU16(h, addr, value % 0x1_0000)
    case 2 => WriteU32(h, addr, value)
    case _ => h
  }

  function ReadCsr(h: Hart, addr: nat): Word
  {
    match addr
    case 0x300 => h.csr.mstatus
    case 0x304 => h.csr.mie
    case 0x305 => h.csr.mtvec
    case 0x341 => h.csr.mepc
    case 0x342 => h.csr.mcause
    case 0x344 => if h.irq / 0x80 % 2 == 1 then 0x80 else 0
    case 0xB00 => Wrap(h.csr.mcycle)
    case 0xB02 => Wrap(h.csr.mcycle)
    case 0xF12 => 1
    case _ => 0
  }

  function WriteCsr(h: Hart, addr: nat, v: Word): Hart
  {
    match addr
    case 0x300 => h.(csr := h.csr.(mstatus := v))
    case 0x304 => h.(csr := h.csr.(mie := v))
    case 0x305 => h.(csr := h.csr.(mtvec := v))
    case 0x341 => h.(csr := h.csr.(mepc := v))
    case 0x342 => h.(csr := h.csr.(mcause := v))
    case _ => h
  }

  function CsrValue(funct3: nat, current: Word, operand: Word): Word
  {
    match funct3 % 4
    case 1 => operand
    case 2 => OrWord(current, operand)
    case 3 => AndNot(current, operand)
    case _ => current
  }

  const ECALL: Word := 0x0000_0073
  const EBREAK: Word := 0x0010_0073
  const MRET: Word := 0x3020_0073

  function System(h: Hart, insn: Word): Outcome
  {
    if Funct3(insn) == 0 then
      if insn == EBREAK || insn == ECALL then Stop(h)
      else if insn == MRET then Retire(h.(pc := h.csr.mepc, csr := h.csr.(mstatus := SetMie(h.csr.mstatus))), None)
      else if MieSet(h.csr.mstatus) && h.irq != 0 then Retire(SetPc(h, h.pc + 4), Some(Sys))
      else Stop(h.(sleeping := true))
    else
      // the immediate forms take their operand from the rd field
      var operand := if Funct3(insn) >= 4 then Rd(insn) else h.regs[Rs1(insn)];
      var current := ReadCsr(h, CsrAddr(insn));
      var w := WriteCsr(h, CsrAddr(insn), CsrValue(Funct3(insn), current, operand));
      Retire(SetPc(WriteReg(w, Rd(insn), current), h.pc + 4), Some(Csr))
  }

  /** Instructions that compute a register from registers. */
  function ComputeInsn(h: Hart, insn: Word): Outcome
  {
    var rd, a, b := Rd(insn), h.regs[Rs1(insn)], h.regs[Rs2(insn)];
    match Opcode(insn)
    case 0x33 =>
      if Funct7(insn) == 1 then
        Retire(SetPc(WriteReg(h, rd, MulDiv(Funct3(insn), a, b)), h.pc + 4), Some(if Funct3(insn) < 4 then Mul else Div))
      else Retire(SetPc(WriteOption(h, rd, AluOp(Funct3(insn), Funct7(insn), a, b)), h.pc + 4), Some(Alu))
    case 0x13 =>
      Retire(SetPc(WriteOption(h, rd, AluImm(Funct3(insn), CsrAddr(insn), a, ImmI(insn))), h.pc + 4), Some(Alu))
    case 0x37 => Retire(SetPc(WriteReg(h, rd, ImmU(insn)), h.pc + 4), Some(Alu))
    case 0x17 => Retire(SetPc(WriteReg(h, rd, Wrap(h.pc + ImmU(insn))), h.pc + 4), Some(Alu))
    case _ => Retire(SetPc(h, h.pc + 4), Some(Alu))
  }

  function LoadInsn(h: Hart, insn: Word): Outcome
  {
    var r := LoadFrom(h, Funct3(insn), Wrap(h.regs[Rs1(insn)] + ImmI(insn)));
    Retire(SetPc(WriteReg(r.hart, Rd(insn), r.value), h.pc + 4), Some(Load))
  }

  function StoreInsn(h: Hart, insn: Word): Outcome
  {
    var addr := Wrap(h.regs[Rs1(insn)] + ImmS(insn));
    Retire(SetPc(StoreTo(h, Funct3(insn), addr, h.regs[Rs2(insn)]), h.pc + 4), Some(Store))
  }

  /** Branches and jumps. */
  function TransferInsn(h: Hart, insn: Word): Outcome
  {
    var rd, a, b := Rd(insn), h.regs[Rs1(insn)], h.regs[Rs2(insn)];
    match Opcode(insn)
    case 0x63 => Retire(SetPc(h, h.pc + (if Taken(Funct3(insn), a, b) then ImmB(insn) else 4)), Some(Branch))
    case 0x6F => Retire(SetPc(WriteReg(h, rd, Wrap(h.pc + 4)), h.pc + ImmJ(insn)), Some(Jump))
    case _ =>
      var target := Wrap(a + ImmI(insn));
      Retire(SetPc(WriteReg(h, rd, Wrap(h.pc + 4)), target - target % 2), Some(Jump))
  }

  function Execute32(h: Hart, insn: Word): Outcome
  {
    match Opcode(insn)
    case 0x03 => LoadInsn(h, insn)
    case 0x23 => StoreInsn(h, insn)
    case 0x63 => TransferInsn(h, insn)
    case 0x6F => TransferInsn(h, insn)
    case 0x67 => TransferInsn(h, insn)
    case 0x73 => System(h, insn)
    case _ => ComputeInsn(h, insn)
  }

  // ----- RV32C; None when the C function returns false -----

  function Quadrant0(h: Hart, c: Half): Option<Hart>
  {
    var addr := Wrap(h.regs[CRs1Prime(c)] + CLwOffset(c));
    match CFunct3(c)
    case 0 =>
      if CAddi4spnImm(c) == 0 then None
      else Some(WriteReg(h, CRs2Prime(c), Wrap(h.regs[2] + CAddi4spnImm(c))))
    case 2 => var r := ReadU32(h, addr); Some(WriteReg(r.hart, CRs2Prime(c), r.value))
    case 6 => Some(WriteU32(h, addr, h.regs[CRs2Prime(c)]))
    case _ => None
  }

  /** C.SRLI, C.SRAI, C.ANDI, C.SUB, C.XOR, C.OR and C.AND. */
  function Quadrant1Alu(h: Hart, c: Half): Option<Hart>
  {
    var rd := CRs1Prime(c);
    var a, b := h.regs[rd], h.regs[CRs2Prime(c)];
    match c / 0x400 % 4
    case 0 => Some(if CShamt(c) == 0 then h else WriteReg(h, rd, ShiftRight(a, CShamt(c))))
    case 1 => Some(if CShamt(c) == 0 then h else WriteReg(h, rd, ShiftRightArith(a, CShamt(c))))
    case 2 => Some(WriteReg(h, rd, And(a, CImm6(c))))
    case _ =>
      if CBit(c, 0x1000) == 1 then None
      else match c / 0x20 % 4
        case 0 => Some(WriteReg(h, rd, Wrap(a as int - b)))
        case 1 => Some(WriteReg(h, rd, XorWord(a, b)))
        case 2 => Some(WriteReg(h, rd, OrWord(a, b)))
        case _ => Some(WriteReg(h, rd, And(a, b)))
  }

  function Quadrant1(h: Hart, c: Half): Option<Hart>
  {
    match CFunct3(c)
    case 0 => Some(if CRd(c) == 0 then h else WriteReg(h, CRd(c), Wrap(h.regs[CRd(c)] + CImm6(c))))
    case 1 => Some(SetPc(WriteReg(h, 1, Wrap(h.pc + 2)), h.pc + CJumpOffset(c)))
    case 2 => Some(WriteReg(h, CRd(c), CImm6(c)))
    case 3 =>
      if CRd(c) == 2 then Some(WriteReg(h, 2, Wrap(h.regs[2] + CAddi16spImm(c))))
      else if CRd(c) == 0 then Some(h)
      else
        var imm := Wrap(CImm6(c) * 0x1000);
        if imm == 0 then None else Some(WriteReg(h, CRd(c), imm))
    case 4 => Quadrant1Alu(h, c)
    case 5 => Some(SetPc(h, h.pc + CJumpOffset(c)))
    case 6 => Some(if h.regs[CRs1Prime(c)] == 0 then SetPc(h, h.pc + CBranchOffset(c)) else h)
    case _ => Some(if h.regs[CRs1Prime(c)] != 0 then SetPc(h, h.pc + CBranchOffset(c)) else h)
  }

  function Quadrant2(h: Hart, c: Half): Option<Hart>
  {
    var rd, rs2 := CRd(c), CRs2(c);
    match CFunct3(c)
    case 0 => Some(if CShamt(c) == 0 then h else WriteReg(h, rd, ShiftLeft(h.regs[rd], CShamt(c))))
    case 2 =>
      var r := ReadU32(h, Wrap(h.regs[2] + CLwspOffset(c)));
      Some(WriteReg(r.hart, rd, r.value))
    case 4 =>
      if CFunct4(c) == 8 then
        if rs2 == 0 then if rd == 0 then None else Some(h.(pc := h.regs[rd]))
        else Some(WriteReg(h, rd, h.regs[rs2]))
      else if rs2 == 0 then
        if rd == 0 then None
        else var w := WriteReg(h, 1, Wrap(h.pc + 2)); Some(w.(pc := w.regs[rd]))
      else Some(WriteReg(h, rd, Wrap(h.regs[rd] as int + h.regs[rs2])))
    case 6 => Some(WriteU32(h, Wrap(h.regs[2] + CSwspOffset(c)), h.regs[rd]))
    case _ => None
  }

  function Execute16(h: Hart, c: Half): Option<Hart>
  {
    match c % 4
    case 0 => Quadrant0(h, c)
    case 1 => Quadrant1(h, c)
    case 2 => Quadrant2(h, c)
    case _ => None
  }

  /** One instruction as rv_step runs it: a compressed instruction that left the pc
      where it was advances by two. */
  function Execute(h: Hart, insn: Word): Outcome
  {
    if insn % 4 == 3 then Execute32(h, insn)
    else
      match Execute16(h, insn % 0x1_0000)
      case None => Stop(h)
      case Some(next) => Retire(if next.pc == h.pc then SetPc(next, next.pc + 2) else next, Some(Compressed))
  }
}
