/** The CSR instructions, interrupt entry and return, bit by bit: chapter 9 of the RISC-V Unprivileged ISA (20191213)
    and what a handler finds when rv_step enters it. */
module Traps {
  import opened Words
  import opened Bits
  import opened Isa
  import opened HartState
  import opened Execute
  import opened Step
  import opened Rv32i

  // ----- the writable CSRs -----

  datatype CsrName = Mstatus | Mie | Mtvec | Mepc | Mcause

  function Address(name: CsrName): (a: nat)
    ensures a < 0x1000
  {
    match name
    case Mstatus => 0x300
    case Mie => 0x304
    case Mtvec => 0x305
    case Mepc => 0x341
    case Mcause => 0x342
  }

  function Get(c: Csrs, name: CsrName): Word
  {
    match name
    case Mstatus => c.mstatus
    case Mie => c.mie
    case Mtvec => c.mtvec
    case Mepc => c.mepc
    case Mcause => c.mcause
  }

  function Put(c: Csrs, name: CsrName, v: Word): Csrs
  {
    match name
    case Mstatus => c.(mstatus := v)
    case Mie => c.(mie := v)
    case Mtvec => c.(mtvec := v)
    case Mepc => c.(mepc := v)
    case Mcause => c.(mcause := v)
  }

  datatype CsrOp = WriteOp | SetOp | ClearOp

  function CsrFunct3(op: CsrOp): (f: nat)
    ensures 1 <= f < 4
  {
    match op
    case WriteOp => 1
    case SetOp => 2
    case ClearOp => 3
  }

  ghost predicate BitUpdated(op: CsrOp, before: Word, operand: Word, r: Word, i: nat)
  {
    match op
    case WriteOp => Bit(r, i) <==> Bit(operand, i)
    case SetOp => Bit(r, i) <==> Bit(before, i) || Bit(operand, i)
    case ClearOp => Bit(r, i) <==> Bit(before, i) && !Bit(operand, i)
  }

  /** r is the value after the operation, bit by bit. */
  ghost predicate Updated(op: CsrOp, before: Word, operand: Word, r: Word)
  {
    forall i: nat :: i < 32 ==> BitUpdated(op, before, operand, r, i)
  }

  lemma CsrValueUpdates(op: CsrOp, immediate: bool, before: Word, operand: Word)
    ensures Updated(op, before, operand, CsrValue(CsrFunct3(op) + (if immediate then 4 else 0), before, operand))
  {
    hide Bit, And, Or, AndNot;
    var r := CsrValue(CsrFunct3(op) + (if immediate then 4 else 0), before, operand);
    forall i: nat | i < 32 ensures BitUpdated(op, before, operand, r, i) {
      OrBit(before, operand, i);
      AndNotBit(before, operand, i);
    }
  }

  lemma SystemWord(addr: nat, rs1: nat, funct3: nat, rd: nat)
    requires addr < 0x1000 && rs1 < 32 && funct3 < 8 && rd < 32
    ensures var i := EncodeI(addr, rs1, funct3, rd, 0x73);
            Opcode(i) == 0x73 && Rd(i) == rd && Funct3(i) == funct3 && Rs1(i) == rs1 && CsrAddr(i) == addr
  {
    hide EncodeI, Opcode, Rd, Rs1, Funct3, CsrAddr, ImmI, SignExtend;
    DecodeI(addr, rs1, funct3, rd, 0x73);
  }

  lemma CsrExecutes(h: Hart, addr: nat, rs1: nat, funct3: nat, rd: nat)
    requires addr < 0x1000 && rs1 < 32 && 0 < funct3 < 8 && rd < 32
    ensures var current := ReadCsr(h, addr);
            var next := WriteCsr(h, addr, CsrValue(funct3, current, if funct3 >= 4 then rd else h.regs[rs1]));
            Execute32(h, EncodeI(addr, rs1, funct3, rd, 0x73)) == Retire(Next(next, rd, current), Some(Csr))
  {
    SystemWord(addr, rs1, funct3, rd);
    hide CsrValue, ReadCsr, EncodeI, Opcode, Rd, Rs1, Rs2, Funct3, CsrAddr, ComputeInsn, LoadInsn, StoreInsn, TransferInsn;
  }

  /** CSRRW, CSRRS and CSRRC: rd gets the old value, the CSR the new one, and nothing else changes. */
  lemma CsrAccess(h: Hart, name: CsrName, op: CsrOp, rd: nat, rs1: nat)
    requires rd < 32 && rs1 < 32
    ensures exists v: Word ::
              && Updated(op, Get(h.csr, name), h.regs[rs1], v)
              && Execute32(h, EncodeI(Address(name), rs1, CsrFunct3(op), rd, 0x73))
                 == Retire(Next(h.(csr := Put(h.csr, name, v)), rd, Get(h.csr, name)), Some(Csr))
  {
    CsrValueUpdates(op, false, Get(h.csr, name), h.regs[rs1]);
    CsrExecutes(h, Address(name), rs1, CsrFunct3(op), rd);
    hide Updated, CsrValue, EncodeI, Execute32;
    var v := CsrValue(CsrFunct3(op), Get(h.csr, name), h.regs[rs1]);
    assert Updated(op, Get(h.csr, name), h.regs[rs1], v);
  }

  /** The immediate forms take the number of rd where the standard takes the field of rs1. */
  lemma CsrImmediateAccess(h: Hart, name: CsrName, op: CsrOp, rd: nat, uimm: nat)
    requires rd < 32 && uimm < 32
    ensures exists v: Word ::
              && Updated(op, Get(h.csr, name), rd, v)
              && (Updated(op, Get(h.csr, name), uimm, v) <==> SameUpdate(op, Get(h.csr, name), rd, uimm))
              && Execute32(h, EncodeI(Address(name), uimm, CsrFunct3(op) + 4, rd, 0x73))
                 == Retire(Next(h.(csr := Put(h.csr, name, v)), rd, Get(h.csr, name)), Some(Csr))
  {
    CsrValueUpdates(op, true, Get(h.csr, name), rd);
    CsrExecutes(h, Address(name), uimm, CsrFunct3(op) + 4, rd);
    hide CsrValue, EncodeI, Execute32;
    var v := CsrValue(CsrFunct3(op) + 4, Get(h.csr, name), rd);
    SameUpdateIff(op, Get(h.csr, name), rd, uimm, v);
    hide Updated, SameUpdate;
    assert Updated(op, Get(h.csr, name), rd, v);
  }

  ghost predicate SameBit(op: CsrOp, before: Word, a: Word, b: Word, i: nat)
  {
    || Bit(a, i) == Bit(b, i)
    || match op case WriteOp => false case SetOp => Bit(before, i) case ClearOp => !Bit(before, i)
  }

  /** Two operands make the same update: they differ only in bits that it leaves as they are. */
  ghost predicate SameUpdate(op: CsrOp, before: Word, a: Word, b: Word)
  {
    forall i: nat :: i < 32 ==> SameBit(op, before, a, b, i)
  }

  lemma SameUpdateIff(op: CsrOp, before: Word, a: Word, b: Word, v: Word)
    requires Updated(op, before, a, v)
    ensures Updated(op, before, b, v) <==> SameUpdate(op, before, a, b)
  {
    hide Bit;
    forall i: nat | i < 32 ensures BitUpdated(op, before, b, v, i) <==> SameBit(op, before, a, b, i) {
      assert BitUpdated(op, before, a, v, i);
    }
  }

  /** What the other CSRs read as: the timer bit of mip, the cycle counter twice, and marchid. */
  function ReadOnlyValue(h: Hart, addr: nat): Word
  {
    match addr
    case 0x344 => if Bit(h.irq, 7) then 0x80 else 0
    case 0xB00 => h.csr.mcycle % WORD
    case 0xB02 => h.csr.mcycle % WORD
    case 0xF12 => 1
    case _ => 0
  }

  /** Every other CSR number is read-only: it changes nothing but rd. */
  lemma ReadOnlyCsrs(h: Hart, addr: nat, op: CsrOp, immediate: bool, rd: nat, rs1: nat)
    requires addr < 0x1000 && rd < 32 && rs1 < 32 && addr !in {0x300, 0x304, 0x305, 0x341, 0x342}
    ensures Execute32(h, EncodeI(addr, rs1, CsrFunct3(op) + (if immediate then 4 else 0), rd, 0x73))
            == Retire(Next(h, rd, ReadOnlyValue(h, addr)), Some(Csr))
  {
    CsrExecutes(h, addr, rs1, CsrFunct3(op) + (if immediate then 4 else 0), rd);
    BitSeven(h.irq);
    hide Bit, CsrValue, EncodeI, Execute32;
  }

  lemma BitSeven(x: nat)
    ensures Bit(x, 7) <==> x / 0x80 % 2 == 1
  {
    assert Pow2(7) == 0x80;
    QuotientBit(x, 7, 0);
  }

  /** The code that names no operation only reads. */
  lemma NoOperation(h: Hart, addr: nat, rd: nat, rs1: nat)
    requires addr < 0x1000 && rd < 32 && rs1 < 32
    ensures Execute32(h, EncodeI(addr, rs1, 4, rd, 0x73)) == Retire(Next(h, rd, ReadCsr(h, addr)), Some(Csr))
  {
    CsrExecutes(h, addr, rs1, 4, rd);
    hide EncodeI, Execute32;
  }

  // ----- MIE -----

  lemma MieIsBitThree(m: Word)
    ensures MieSet(m) <==> Bit(m, 3)
  {
    assert Pow2(3) == 8;
    QuotientBit(m, 3, 0);
  }

  ghost predicate OnlyBit(m: Word, n: Word, k: nat, on: bool)
  {
    forall i: nat :: i < 32 ==> BitIs(m, n, k, on, i)
  }

  /** Bit i of n is that of m, but bit k is on. */
  ghost predicate BitIs(m: Word, n: Word, k: nat, on: bool, i: nat) { Bit(n, i) <==> if i == k then on else Bit(m, i) }

  lemma EightHasBitThree(i: nat)
    ensures Bit(8, i) <==> i == 3
  {
    assert Pow2(3) == 8;
    ProductBit(1, 3, i);
    OneBit(i - 3);
  }

  lemma OneBit(i: int)
    ensures i >= 0 ==> (Bit(1, i) <==> i == 0)
  {
    if i > 0 {
      ZeroBit(i - 1);
    }
  }

  lemma ClearMieIsAndNot(m: Word)
    ensures ClearMie(m) == AndNot(m, 8)
  {
    var a, b, c := m / 2, m / 4, m / 8;
    assert And(c, 1) == c % 2;
    assert And(b, 2) == 2 * And(c, 1);
    assert And(a, 4) == 2 * And(b, 2);
    assert And(m, 8) == 2 * And(a, 4);
  }

  lemma SetMieIsOr(m: Word)
    ensures SetMie(m) == Or(m, 8)
  {
    var a := m / 2;
    var b := a / 2;
    var c := b / 2;
    OrStep(m, 4);
    OrStep(a, 2);
    OrStep(b, 1);
    OrOne(c);
    hide Or;
    assert c == m / 8;
    assert Or(m, 8) == 8 * Or(c, 1) + 4 * (b % 2) + 2 * (a % 2) + m % 2;
  }

  lemma OrOne(x: nat)
    ensures Or(x, 1) == x - x % 2 + 1
  {
  }

  lemma OrStep(x: nat, y: nat)
    ensures Or(x, 2 * y) == 2 * Or(x / 2, y) + x % 2
  {
  }

  lemma ClearMieBits(m: Word)
    ensures OnlyBit(m, ClearMie(m), 3, false)
  {
    forall i: nat | i < 32 ensures BitIs(m, ClearMie(m), 3, false, i) {
      EightHasBitThree(i);
      AndNotBit(m, 8, i);
      MieIsBitThree(m);
      ClearMieIsAndNot(m);
      hide Bit;
    }
  }

  lemma SetMieBits(m: Word)
    ensures OnlyBit(m, SetMie(m), 3, true)
  {
    forall i: nat | i < 32 ensures BitIs(m, SetMie(m), 3, true, i) {
      EightHasBitThree(i);
      OrBit(m, 8, i);
      MieIsBitThree(m);
      SetMieIsOr(m);
      hide Bit;
    }
  }

  // ----- system instructions -----

  /** MRET goes to mepc and sets MIE; it is not recorded as an instruction. */
  lemma MretReturns(h: Hart)
    ensures exists m: Word ::
              OnlyBit(h.csr.mstatus, m, 3, true)
              && Execute32(h, MRET) == Retire(h.(pc := h.csr.mepc, csr := h.csr.(mstatus := m)), None)
  {
    SetMieBits(h.csr.mstatus);
    assert Opcode(MRET) == 0x73 && Funct3(MRET) == 0;
    hide SetMie, OnlyBit, ComputeInsn, LoadInsn, StoreInsn, TransferInsn;
    assert OnlyBit(h.csr.mstatus, SetMie(h.csr.mstatus), 3, true);
  }

  /** ECALL and EBREAK stop the batch; every other word of SYSTEM without a CSR but MRET waits for an interrupt: it
      moves on when MIE is set and any line is pending, and otherwise sleeps where it is. */
  lemma SystemWaits(h: Hart, insn: Word)
    requires Opcode(insn) == 0x73 && Funct3(insn) == 0 && insn != MRET
    ensures Execute32(h, insn)
            == if insn == ECALL || insn == EBREAK then Stop(h)
               else if Bit(h.csr.mstatus, 3) && h.irq != 0 then Retire(h.(pc := (h.pc + 4) % WORD), Some(Sys))
               else Stop(h.(sleeping := true))
  {
    MieIsBitThree(h.csr.mstatus);
    hide Opcode, Funct3, Rd, Rs1, Rs2, Bit, ComputeInsn, LoadInsn, StoreInsn, TransferInsn;
  }

  // ----- interrupt entry -----

  /** Line j is pending and enabled. */
  predicate Ready(h: Hart, j: nat) { Bit(h.irq, j) && Bit(h.csr.mie, j) }

  /** The lowest such line. */
  ghost predicate Lowest(h: Hart, j: nat) { j < 32 && Ready(h, j) && forall i: nat :: i < j ==> !Ready(h, i) }

  /** Direct mode goes to the base in mtvec, any other to the base plus four times the cause. */
  function Vector(mtvec: Word, j: nat): int { mtvec - mtvec % 4 + (if mtvec % 4 == 0 then 0 else 4 * j) }

  /** next is h after the entry for line j. */
  ghost predicate Enters(h: Hart, j: nat, next: Hart)
    requires j < 32
  {
    && next == h.(sleeping := false, irq := next.irq, pc := Vector(h.csr.mtvec, j) % WORD,
                  csr := h.csr.(mcause := j, mepc := h.pc, mstatus := next.csr.mstatus))
    && OnlyBit(h.irq, next.irq, j, false) && OnlyBit(h.csr.mstatus, next.csr.mstatus, 3, false)
  }

  lemma ReadyIsPending(h: Hart, j: nat)
    ensures Ready(h, j) <==> Bit(Pending(h), j)
  {
    AndBit(h.irq, h.csr.mie, j);
  }

  lemma {:induction false} SomeBit(x: nat)
    ensures x > 0 ==> Bit(x, Ctz(x))
    ensures x == 0 ==> forall j: nat :: !Bit(x, j)
  {
    if x > 0 {
      CtzIsLowest(x);
    } else {
      forall j: nat ensures !Bit(x, j) { ZeroBit(j); }
    }
  }

  /** The cause is the lowest ready line, and there is one exactly when something is pending. */
  lemma CauseIsLowest(h: Hart)
    ensures Pending(h) != 0 ==> Lowest(h, Cause(h))
    ensures Pending(h) == 0 ==> forall j: nat :: !Ready(h, j)
  {
    hide Bit, Ctz, And;
    SomeBit(Pending(h));
    forall j: nat ensures Ready(h, j) <==> Bit(Pending(h), j) { ReadyIsPending(h, j); }
    if Pending(h) != 0 {
      CtzIsLowest(Pending(h));
    }
  }

  lemma {:induction false} PowerBit(k: nat, i: nat)
    ensures Bit(Pow2(k), i) <==> i == k
  {
    ProductBit(1, k, i);
    OneBit(i - k);
  }

  lemma ClearBitBits(x: Word, j: nat)
    ensures OnlyBit(x, ClearBit(x, j), j, false)
  {
    hide Bit, AndNot;
    forall i: nat | i < 32 ensures BitIs(x, ClearBit(x, j), j, false, i) {
      AndNotBit(x, Pow2(j), i);
      PowerBit(j, i);
    }
  }

  /** A call for at least one instruction takes an interrupt exactly when a line is ready with MIE set.  It takes the
      lowest one: mcause is its number, mepc the pc it interrupted, its bit of the mask and MIE are cleared, the hart is
      awake at its vector, and nothing else changes; the call returns 1.  Otherwise a sleeping hart, and a call for no
      instruction, leave everything as it is. */
  lemma InterruptEntry(h: Hart, max: int)
    ensures var s := RvStep(h, max);
            if h.initialized && max > 0 && Bit(h.csr.mstatus, 3) && exists j: nat :: Ready(h, j) then
              exists j: nat :: j < 32 && Lowest(h, j) && Enters(h, j, s.hart)
                               && s.count == 1 && s.cause == Some(j) && s.trace == []
            else
              s.cause == None && (!h.initialized || max <= 0 || h.sleeping ==> s.hart == h && s.count == 0 && s.trace == [])
  {
    hide Bit, Ctz, And, RunBatch, Cause, ClearBit, ClearMie, Lowest, MieSet;
    CauseIsLowest(h);
    MieIsBitThree(h.csr.mstatus);
    if h.initialized && max > 0 && CanDispatch(h) {
      var j := Cause(h);
      assert Ready(h, j) by { LowestIsReady(h, j); }
      ClearBitBits(h.irq, j);
      ClearMieBits(h.csr.mstatus);
      DispatchEnters(h);
      assert Lowest(h, j) && Enters(h, j, RvStep(h, max).hart);
    }
  }

  lemma LowestIsReady(h: Hart, j: nat)
    requires Lowest(h, j)
    ensures Ready(h, j)
  {
  }

  lemma DispatchEnters(h: Hart)
    requires CanDispatch(h)
    requires OnlyBit(h.irq, ClearBit(h.irq, Cause(h)), Cause(h), false)
    requires OnlyBit(h.csr.mstatus, ClearMie(h.csr.mstatus), 3, false)
    ensures Enters(h, Cause(h), Dispatch(h))
  {
    hide OnlyBit, ClearBit, ClearMie, Cause, CanDispatch;
  }

  /** At most one line is the lowest. */
  lemma LowestIsUnique(h: Hart, i: nat, j: nat)
    requires Lowest(h, i) && Lowest(h, j)
    ensures i == j
  {
  }

  /** The comment on the vector asks for vectored entry when bit 0 of mtvec is set; the code does it for any mode but
      zero, which is the same exactly unless the mode is 2 and the cause is not zero. */
  lemma VectorCommentIff(mtvec: Word, j: nat)
    requires j < 32
    ensures Vector(mtvec, j) == mtvec - mtvec % 4 + (if Bit(mtvec, 0) then 4 * j else 0)
            <==> mtvec % 4 != 2 || j == 0
  {
    var mode := mtvec % 4;
    assert Bit(mtvec, 0) <==> mode % 2 == 1;
  }

  /** An MRET right after the entry undoes it: the interrupted pc and mstatus are back. */
  lemma MretUndoesEntry(h: Hart, max: int)
    requires RvStep(h, max).cause.Some?
    ensures var back := Execute32(RvStep(h, max).hart, MRET);
            back.Retire? && back.hart.pc == h.pc && back.hart.csr.mstatus == h.csr.mstatus
            && back.hart.regs == h.regs && back.hart.ram == h.ram
  {
    assert Opcode(MRET) == 0x73 && Funct3(MRET) == 0;
    hide RunBatch, Cause, ClearBit, ComputeInsn, LoadInsn, StoreInsn, TransferInsn, SetMie, ClearMie, TrapVector;
    ClearedIsSetAgain(h.csr.mstatus);
  }

  lemma ClearedIsSetAgain(m: Word)
    ensures MieSet(m) ==> SetMie(ClearMie(m)) == m
  {
  }
}
