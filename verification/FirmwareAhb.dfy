/** The AHB self-test end to end: firmware_ahb on the simulator, with the AHB
    bench behind its MMIO window and a harness that may toggle the clock and
    call rv_step in any order. */
module FirmwareAhb {
  import opened Words
  import opened Isa
  import opened HartState
  import opened Execute
  import opened Step
  import opened AhbBus

  // ----- the program -----

  const GPIO := 0x1000_0000
  const HANDLER := 0x100
  const T0 := 5
  const T1 := 6
  const T2 := 7

  /** The assembled words; zero stands for the padding in front of the handler. */
  function Code(pc: nat): Word
  {
    match pc
    case 0x00 => 0x1000_02B7  // lui  t0, 0x10000
    case 0x04 => 0x1000_0313  // addi t1, x0, 0x100
    case 0x08 => 0x3053_1073  // csrw mtvec, t1
    case 0x0C => 0x0080_0313  // addi t1, x0, 8
    case 0x10 => 0x3003_2073  // csrs mstatus, t1
    case 0x14 => 0x0010_0313  // addi t1, x0, 1
    case 0x18 => 0x0062_A223  // sw   t1, 4(t0)
    case 0x1C => 0x0010_0313  // addi t1, x0, 1
    case 0x20 => 0x0062_A023  // sw   t1, 0(t0)
    case 0x24 => 0x0002_A383  // lw   t2, 0(t0)
    case 0x28 => 0xFE03_9EE3  // bne  t2, x0, -4
    case 0x2C => 0x0010_0313  // addi t1, x0, 1
    case 0x30 => 0x1062_A023  // sw   t1, 0x100(t0)
    case 0x34 => 0x0010_0073  // ebreak
    case 0x100 => 0x0082_A303 // lw   t1, 8(t0)
    case 0x104 => 0x0002_A023 // sw   x0, 0(t0)
    case 0x108 => 0x3020_0073 // mret
    case _ => 0
  }

  predicate InCode(pc: nat) { pc % 4 == 0 && (pc <= 0x34 || 0x100 <= pc <= 0x108) }

  /** RAM holds the firmware image. */
  ghost predicate HoldsFirmware(ram: Ram)
  {
    |ram| >= 0x10C && forall pc: nat :: InCode(pc) ==> Peek32(ram, pc) == Code(pc)
  }

  // ----- the system -----

  /** dispatches counts the interrupts taken so far. */
  datatype World = World(hart: Hart, dispatches: nat)

  datatype Op = ClockEdge | Steps(max: int)

  function Sim(h: Hart): Sim
    requires h.dev.Ahb?
  {
    h.dev.bench.sim
  }

  function EdgeHart(h: Hart): Hart
  {
    match h.dev
    case Registers(_) => h
    case Ahb(bench) =>
      var s := AhbBus.Tick(bench.sim.(irq := h.irq));
      h.(dev := Ahb(bench.(sim := s)), irq := s.irq)
  }

  function WorldStep(w: World, op: Op): World
  {
    match op
    case ClockEdge => w.(hart := EdgeHart(w.hart))
    case Steps(max) =>
      var s := RvStep(w.hart, max);
      World(s.hart, w.dispatches + (if s.cause.Some? then 1 else 0))
  }

  function WorldRun(w: World, ops: seq<Op>): World
    decreases |ops|
  {
    if ops == [] then w else WorldRun(WorldStep(w, ops[0]), ops[1..])
  }

  /** The harness after loading the firmware and the reset phase, from any power-up state. */
  function Start(ram: Ram, powerUp: Sim): World
  {
    var bench := Bench(Boot(powerUp), 0);
    World(Hart(true, [0, 0, 0, 0, 0, 0, 0, 0, 0, 0, 0, 0, 0, 0, 0, 0, 0, 0, 0, 0, 0, 0, 0, 0, 0, 0, 0, 0, 0, 0, 0, 0], ram,
               0, 0, bench.sim.irq, false, Csrs(0, 0, 0, 0, ALL_ONES, 0), Htif(0, 0, 0, 0, false, 0, false), Ahb(bench)), 0)
  }

  // ----- the invariant -----

  /** What holds everywhere. */
  ghost predicate Common(h: Hart)
  {
    && h.initialized && !h.sleeping && !h.htif.halted && h.base == 0 && HoldsFirmware(h.ram)
    && h.csr.mie == ALL_ONES && h.dev.Ahb? && Quiet(Sim(h)) && h.regs[0] == 0
  }

  function Out(h: Hart): Word
    requires h.dev.Ahb?
  {
    Sim(h).gpio.out
  }

  function Indicator(h: Hart): Word
    requires h.dev.Ahb?
  {
    h.dev.bench.indicator
  }

  /** Before the interrupt is raised: GPIO_OUT and the mask are clear. */
  ghost predicate Booting(h: Hart, d: nat)
    requires Common(h)
  {
    && d == 0 && Out(h) == 0 && h.irq == 0 && Indicator(h) == 0
    && (h.pc >= 0x04 ==> h.regs[T0] == GPIO)
    && (h.pc == 0x08 ==> h.regs[T1] == HANDLER)
    && (h.pc >= 0x0C ==> h.csr.mtvec == HANDLER)
    && (h.pc == 0x10 ==> h.regs[T1] == 8)
    && h.csr.mstatus == (if h.pc >= 0x14 then 8 else 0)
    && (h.pc == 0x18 || h.pc == 0x20 ==> h.regs[T1] == 1)
    && (h.pc >= 0x1C ==> Sim(h).gpio.ie == 1)
  }

  ghost predicate Armed(h: Hart)
    requires Common(h)
  {
    h.regs[T0] == GPIO && h.csr.mtvec == HANDLER && Sim(h).gpio.ie == 1
  }

  /** In the polling loop, before (d = 0) or after (d = 1) the only dispatch. */
  ghost predicate Polling(h: Hart, d: nat)
    requires Common(h)
  {
    && Armed(h) && h.csr.mstatus == 8 && Indicator(h) == 0 && d <= 1
    && Out(h) == 1 - d && h.irq == Out(h) && (h.pc == 0x28 && d == 0 ==> h.regs[T2] == 1)
  }

  /** In the handler, with interrupts off until MRET returns to the polling loop. */
  ghost predicate Handling(h: Hart, d: nat)
    requires Common(h)
  {
    && Armed(h) && h.csr.mstatus == 0 && Indicator(h) == 0 && d == 1 && (h.csr.mepc == 0x24 || h.csr.mepc == 0x28)
    && (if h.pc == 0x108 then Out(h) == 0 && h.irq == 0 else Out(h) == 1 && h.irq <= 1)
  }

  /** Past the loop: the interrupt was taken once and GPIO_OUT is clear. */
  ghost predicate Finishing(h: Hart, d: nat)
    requires Common(h)
  {
    && Armed(h) && h.csr.mstatus == 8 && d == 1 && Out(h) == 0 && h.irq == 0
    && (h.pc == 0x30 ==> h.regs[T1] == 1) && Indicator(h) == (if h.pc == 0x34 then 1 else 0)
  }

  ghost predicate Inv(h: Hart, d: nat)
  {
    && Common(h) && InCode(h.pc)
    && (if h.pc <= 0x20 then Booting(h, d)
        else if h.pc <= 0x28 then Polling(h, d)
        else if h.pc <= 0x34 then Finishing(h, d)
        else Handling(h, d))
  }

  // ----- MMIO seen from the hart -----

  lemma AhbLoad(h: Hart, addr: Word)
    requires h.dev.Ahb? && Quiet(Sim(h)) && IsMmio(addr) && addr != INDICATOR
    ensures var r := ReadU32(h, addr);
            && r.hart == h.(dev := r.hart.dev, irq := r.hart.irq) && r.hart.dev.Ahb? && Quiet(Sim(r.hart))
            && Sim(r.hart).gpio == Sim(h).gpio && Indicator(r.hart) == Indicator(h)
            && r.value == RegisterRead(Sim(h).gpio, addr) && r.hart.irq == Out(h) % 2
  {
    hide MmioRead;
    MmioIsAtomic(WithIrq(h.dev.bench, h.irq), addr, 0);
  }

  lemma AhbStore(h: Hart, addr: Word, value: Word)
    requires h.dev.Ahb? && Quiet(Sim(h)) && IsMmio(addr)
    ensures var w := WriteU32(h, addr, value);
            && w == h.(dev := w.dev, irq := w.irq) && w.dev.Ahb? && Quiet(Sim(w))
            && Sim(w).gpio == RegisterWrite(Sim(h).gpio, addr, value)
            && Indicator(w) == (if addr == INDICATOR then value else Indicator(h)) && w.irq == Out(w) % 2
  {
    hide MmioWrite;
    MmioIsAtomic(WithIrq(h.dev.bench, h.irq), addr, value);
  }

  lemma FetchesCode(h: Hart)
    requires Common(h) && InCode(h.pc)
    ensures CanFetch(h) && ReadU32(h, h.pc) == Loaded(h, Code(h.pc))
  {
    hide Code;
  }

  /** A turn of the loop is the execution of the word at pc. */
  lemma TurnRunsCode(h: Hart)
    requires Common(h) && InCode(h.pc) && Code(h.pc) % 4 == 3
    ensures match Execute32(h, Code(h.pc))
            case Stop(s) => Turn(h) == Ended(s)
            case Retire(next, e) => Turn(h) == Turned(CountCycle(next), Retired(h.pc, Code(h.pc), e))
  {
    hide Code, Execute32, ReadU32, HoldsFirmware;
    FetchesCode(h);
  }

  /** The words are the encodings of the instructions in the comments. */
  lemma CodeIsAssembled()
    ensures Code(0x00) == EncodeU(0x10000, T0, 0x37)
    ensures Code(0x04) == EncodeI(0x100, 0, 0, T1, 0x13) && Code(0x08) == EncodeI(0x305, T1, 1, 0, 0x73)
    ensures Code(0x0C) == EncodeI(8, 0, 0, T1, 0x13) && Code(0x10) == EncodeI(0x300, T1, 2, 0, 0x73)
    ensures Code(0x14) == Code(0x1C) == Code(0x2C) == EncodeI(1, 0, 0, T1, 0x13)
    ensures Code(0x18) == EncodeS(4, T1, T0, 2) && Code(0x20) == EncodeS(0, T1, T0, 2)
    ensures Code(0x24) == EncodeI(0, T0, 2, T2, 0x03) && Code(0x28) == EncodeB(0x2000 - 4, 0, T2, 1)
    ensures Code(0x30) == EncodeS(0x100, T1, T0, 2) && Code(0x34) == EBREAK
    ensures Code(0x100) == EncodeI(8, T0, 2, T1, 0x03) && Code(0x104) == EncodeS(0, 0, T0, 2) && Code(0x108) == MRET
  {
  }

  // ----- one instruction -----

  /** Where control goes, and that only the loop's load writes t2, with GPIO_OUT. */
  ghost predicate Flows(h: Hart, next: Hart)
    requires Common(h)
  {
    && next.regs[T2] == (if h.pc == 0x24 then Out(h) else h.regs[T2]) && next.csr.mepc == h.csr.mepc
    && next.pc == (match h.pc
                   case 0x28 => if h.regs[T2] != 0 then 0x24 else 0x2C
                   case 0x108 => h.csr.mepc
                   case _ => h.pc + 4)
  }

  ghost predicate TurnKeeps(h: Hart, d: nat)
    requires Common(h)
  {
    match Turn(h)
    case Turned(next, _) => Inv(next, d) && Flows(h, next)
    case Ended(last) => last == h && h.pc == 0x34
  }

  /** The effect of the word at pc, the cycle counter aside. */
  lemma TurnKeepsIf(h: Hart, d: nat, next: Hart)
    requires Common(h) && InCode(h.pc) && Code(h.pc) % 4 == 3
    requires Execute32(h, Code(h.pc)).Retire? && Execute32(h, Code(h.pc)).hart == next && Inv(next, d) && Flows(h, next)
    ensures TurnKeeps(h, d)
  {
    TurnRunsCode(h);
    hide Turn, Execute32, HoldsFirmware, Code, Wrap64;
  }

  lemma NoWrap(imm: nat)
    requires imm < 0x800
    ensures Wrap(imm) == imm && Wrap(GPIO + imm) == GPIO + imm
  {
  }

  lemma LoadImmediate(h: Hart, rd: nat, imm: nat)
    requires rd < 32 && imm < 0x800 && h.regs[0] == 0
    ensures Execute32(h, EncodeI(imm, 0, 0, rd, 0x13))
            == Retire(SetPc(WriteReg(h, rd, imm), h.pc + 4), Some(Alu))
  {
    hide EncodeI, Opcode, Funct3, Funct7, Rs1, Rd, ImmI, CsrAddr, SignExtend, Wrap, MulDiv, AluOp;
    hide LoadInsn, StoreInsn, TransferInsn, System;
    DecodeI(imm, 0, 0, rd, 0x13);
    SmallExtend(imm);
    NoWrap(imm);
    var i := EncodeI(imm, 0, 0, rd, 0x13);
    assert Execute32(h, i) == ComputeInsn(h, i);
    assert AluImm(0, imm, h.regs[0], imm) == Some(imm);
  }

  lemma StoreWord(h: Hart, imm: nat, rs2: nat)
    requires imm < 0x800 && rs2 < 32 && h.regs[T0] == GPIO
    ensures Execute32(h, EncodeS(imm, rs2, T0, 2))
            == Retire(SetPc(WriteU32(h, GPIO + imm, h.regs[rs2]), h.pc + 4), Some(Store))
  {
    hide EncodeS, Opcode, Funct3, Rs1, Rs2, ImmS, SignExtend, Wrap;
    hide WriteU32, WriteU16, WriteU8, LoadInsn, TransferInsn, System, ComputeInsn;
    DecodeS(imm, rs2, T0, 2);
    SmallExtend(imm);
    NoWrap(imm);
  }

  lemma LoadWord(h: Hart, imm: nat, rd: nat)
    requires imm < 0x800 && rd < 32 && h.regs[T0] == GPIO
    ensures var r := ReadU32(h, GPIO + imm);
            Execute32(h, EncodeI(imm, T0, 2, rd, 0x03)) == Retire(SetPc(WriteReg(r.hart, rd, r.value), h.pc + 4), Some(Load))
  {
    hide EncodeI, Opcode, Funct3, Rs1, Rd, ImmI, SignExtend, Wrap;
    hide ReadU32, ReadU16, ReadU8, StoreInsn, TransferInsn, System, ComputeInsn;
    DecodeI(imm, T0, 2, rd, 0x03);
    SmallExtend(imm);
    NoWrap(imm);
  }

  /** CSRRW and CSRRS without a destination register. */
  lemma CsrAccess(h: Hart, addr: nat, rs1: nat, funct3: nat)
    requires addr < 0x1000 && rs1 < 32 && 1 <= funct3 <= 3
    ensures Execute32(h, EncodeI(addr, rs1, funct3, 0, 0x73))
            == Retire(SetPc(WriteCsr(h, addr, CsrValue(funct3, ReadCsr(h, addr), h.regs[rs1])), h.pc + 4), Some(Csr))
  {
    DecodeI(addr, rs1, funct3, 0, 0x73);
    hide EncodeI, Opcode, Funct3, Rs1, Rd, CsrAddr;
    hide LoadInsn, StoreInsn, TransferInsn, ComputeInsn, CsrValue, ReadCsr;
    assert WriteCsr(h, addr, CsrValue(funct3, ReadCsr(h, addr), h.regs[rs1])).pc == h.pc;
  }

  lemma BreakStops(h: Hart)
    ensures Execute32(h, EBREAK) == Stop(h)
  {
    hide LoadInsn, StoreInsn, TransferInsn, ComputeInsn, ReadCsr, WriteCsr, CsrValue;
  }

  lemma ReturnResumes(h: Hart)
    ensures Execute32(h, MRET)
            == Retire(h.(pc := h.csr.mepc, csr := h.csr.(mstatus := SetMie(h.csr.mstatus))), None)
  {
    hide LoadInsn, StoreInsn, TransferInsn, ComputeInsn, ReadCsr, WriteCsr, CsrValue;
  }

  lemma BranchTests(h: Hart)
    ensures Execute32(h, Code(0x28))
            == Retire(SetPc(h, h.pc + (if h.regs[T2] != h.regs[0] then ALL_ONES - 3 else 4)), Some(Branch))
  {
    hide LoadInsn, StoreInsn, ComputeInsn, System, Wrap, EncodeB, Opcode, Funct3, Rs1, Rs2, ImmB;
    CodeIsAssembled();
    DecodeB(0x2000 - 4, 0, T2, 1);
  }

  lemma UpperImmediate(h: Hart)
    ensures Execute32(h, Code(0)) == Retire(SetPc(WriteReg(h, T0, GPIO), h.pc + 4), Some(Alu))
  {
    hide LoadInsn, StoreInsn, TransferInsn, System, Wrap, MulDiv, AluOp, AluImm;
    assert ImmU(Code(0)) == GPIO;
  }

  lemma OrEight()
    ensures CsrValue(2, 0, 8) == 8
  {
  }

  lemma TurnImmediate(h: Hart, d: nat)
    requires Inv(h, d) && h.pc in {0x00, 0x04, 0x0C, 0x14, 0x1C, 0x2C}
    ensures TurnKeeps(h, d)
  {
    hide Turn, HoldsFirmware, EncodeI, Quiet, Execute32;
    CodeIsAssembled();
    if h.pc == 0 {
      UpperImmediate(h);
      TurnKeepsIf(h, d, SetPc(WriteReg(h, T0, GPIO), 4));
    } else {
      var imm := if h.pc == 0x04 then 0x100 else if h.pc == 0x0C then 8 else 1;
      LoadImmediate(h, T1, imm);
      TurnKeepsIf(h, d, SetPc(WriteReg(h, T1, imm), h.pc + 4));
    }
  }

  lemma TurnCsr(h: Hart, d: nat)
    requires Inv(h, d) && h.pc in {0x08, 0x10}
    ensures TurnKeeps(h, d)
  {
    hide Turn, HoldsFirmware, Quiet;
    CodeIsAssembled();
    OrEight();
    var csr := if h.pc == 0x08 then h.csr.(mtvec := HANDLER) else h.csr.(mstatus := 8);
    CsrAccess(h, 0x305, T1, 1);
    CsrAccess(h, 0x300, T1, 2);
    hide Execute32, EncodeI;
    TurnKeepsIf(h, d, h.(csr := csr, pc := h.pc + 4));
  }

  lemma TurnStore(h: Hart, d: nat)
    requires Inv(h, d) && h.pc in {0x18, 0x20, 0x30, 0x104}
    ensures TurnKeeps(h, d)
  {
    hide Turn, HoldsFirmware, Quiet, Execute32, EncodeS, EncodeI, WriteU32;
    CodeIsAssembled();
    var imm := if h.pc == 0x18 then 4 else if h.pc == 0x30 then 0x100 else 0;
    var rs2 := if h.pc == 0x104 then 0 else T1;
    StoreWord(h, imm, rs2);
    AhbStore(h, GPIO + imm, h.regs[rs2]);
    TurnKeepsIf(h, d, SetPc(WriteU32(h, GPIO + imm, h.regs[rs2]), h.pc + 4));
  }

  lemma TurnLoad(h: Hart, d: nat)
    requires Inv(h, d) && h.pc in {0x24, 0x100}
    ensures TurnKeeps(h, d)
  {
    hide Turn, HoldsFirmware, Quiet, Execute32, EncodeS, EncodeI, ReadU32;
    CodeIsAssembled();
    var imm := if h.pc == 0x24 then 0 else 8;
    var rd := if h.pc == 0x24 then T2 else T1;
    LoadWord(h, imm, rd);
    AhbLoad(h, GPIO + imm);
    var r := ReadU32(h, GPIO + imm);
    TurnKeepsIf(h, d, SetPc(WriteReg(r.hart, rd, r.value), h.pc + 4));
  }

  /** The loop is left only when GPIO_OUT was read as zero, so after the dispatch. */
  lemma TurnBranch(h: Hart, d: nat)
    requires Inv(h, d) && h.pc == 0x28
    ensures TurnKeeps(h, d)
  {
    hide Turn, HoldsFirmware, Quiet, Execute32;
    var target := if h.regs[T2] != 0 then 0x24 else 0x2C;
    BranchTests(h);
    TurnKeepsIf(h, d, h.(pc := target));
  }

  lemma TurnReturn(h: Hart, d: nat)
    requires Inv(h, d) && h.pc == 0x108
    ensures TurnKeeps(h, d)
  {
    hide Turn, HoldsFirmware, Quiet, Execute32;
    var next := h.(pc := h.csr.mepc, csr := h.csr.(mstatus := 8));
    ReturnResumes(h);
    TurnKeepsIf(h, d, next);
  }

  lemma TurnBreak(h: Hart, d: nat)
    requires Inv(h, d) && h.pc == 0x34
    ensures Turn(h) == Ended(h) && TurnKeeps(h, d)
  {
    hide Turn, HoldsFirmware, Quiet, Execute32;
    BreakStops(h);
    TurnRunsCode(h);
  }

  lemma TurnKeepsInv(h: Hart, d: nat)
    requires Inv(h, d)
    ensures TurnKeeps(h, d)
  {
    hide TurnKeeps, HoldsFirmware, Quiet, Booting, Polling, Handling, Finishing;
    match h.pc
    case 0x08 => TurnCsr(h, d);
    case 0x10 => TurnCsr(h, d);
    case 0x18 => TurnStore(h, d);
    case 0x20 => TurnStore(h, d);
    case 0x24 => TurnLoad(h, d);
    case 0x28 => TurnBranch(h, d);
    case 0x30 => TurnStore(h, d);
    case 0x34 => TurnBreak(h, d);
    case 0x100 => TurnLoad(h, d);
    case 0x104 => TurnStore(h, d);
    case 0x108 => TurnReturn(h, d);
    case _ => TurnImmediate(h, d);
  }

  // ----- calls and runs -----

  lemma {:induction false} BatchKeepsInv(h: Hart, n: nat, d: nat)
    requires Inv(h, d)
    ensures Inv(RunBatch(h, n).hart, d)
    decreases n
  {
    hide Turn, Inv;
    if n > 0 {
      TurnKeepsInv(h, d);
      if Turn(h).Turned? {
        BatchKeepsInv(Turn(h).hart, n - 1, d);
      }
    }
  }

  /** An interrupt can only be taken in the polling loop before the first dispatch, and it
      leads to the handler. */
  lemma DispatchKeepsInv(h: Hart, d: nat)
    requires Inv(h, d) && CanDispatch(h)
    ensures d == 0 && Inv(Dispatch(h), 1)
  {
    hide HoldsFirmware, Quiet;
    assert h.irq == 1 && h.csr.mstatus == 8;
    assert And(1, ALL_ONES) == 1;
    assert Ctz(1) == 0 && Pow2(0) == 1 && And(1, 1) == 1;
  }

  lemma EdgeKeepsInv(h: Hart, d: nat)
    requires Inv(h, d)
    ensures Inv(EdgeHart(h), d)
  {
    QuietTick(h.dev.bench.sim.(irq := h.irq));
    hide HoldsFirmware, Tick;
  }

  lemma StepKeepsInv(w: World, op: Op)
    requires Inv(w.hart, w.dispatches)
    ensures Inv(WorldStep(w, op).hart, WorldStep(w, op).dispatches)
  {
    hide Inv, Dispatch, RunBatch, CanDispatch, Cause, EdgeHart;
    match op
    case ClockEdge =>
      EdgeKeepsInv(w.hart, w.dispatches);
    case Steps(max) =>
      if CanDispatch(w.hart) {
        DispatchKeepsInv(w.hart, w.dispatches);
      }
      if max > 0 {
        BatchKeepsInv(w.hart, max, w.dispatches);
      }
  }

  lemma {:induction false} RunKeepsInv(w: World, ops: seq<Op>)
    requires Inv(w.hart, w.dispatches)
    ensures Inv(WorldRun(w, ops).hart, WorldRun(w, ops).dispatches)
    decreases |ops|
  {
    hide Inv, WorldStep;
    if ops != [] {
      StepKeepsInv(w, ops[0]);
      RunKeepsInv(WorldStep(w, ops[0]), ops[1..]);
    }
  }

  lemma StartsInInv(ram: Ram, powerUp: Sim)
    requires HoldsFirmware(ram)
    ensures Inv(Start(ram, powerUp).hart, 0)
  {
    hide HoldsFirmware, Boot;
    BootIsQuiet(powerUp);
  }

  /** After any interleaving of clock edges and rv_step calls: at most one interrupt was ever
      taken; the indicator is 0 or 1, and 1 only after exactly one dispatch with GPIO_OUT clear;
      from then on nothing is pending and no later operation dispatches or changes the
      indicator or GPIO_OUT; the mask follows GPIO_OUT outside the handler. */
  lemma PassIndicatorIsSafe(ram: Ram, powerUp: Sim, before: seq<Op>, after: seq<Op>)
    requires HoldsFirmware(ram)
    ensures var w := WorldRun(Start(ram, powerUp), before);
            && w.hart.dev.Ahb? && Quiet(Sim(w.hart)) && w.dispatches <= 1
            && (Indicator(w.hart) != 0 ==> Indicator(w.hart) == 1 && w.dispatches == 1 && Out(w.hart) == 0)
            && (w.hart.pc < HANDLER ==> w.hart.irq == Out(w.hart) % 2)
    ensures var w := WorldRun(Start(ram, powerUp), before);
            var v := WorldRun(w, after);
            Indicator(w.hart) != 0 ==>
              v.hart.dev.Ahb? && Indicator(v.hart) == 1 && v.dispatches == 1 && Out(v.hart) == 0
  {
    var s := Start(ram, powerUp);
    var w := WorldRun(s, before);
    hide Start, WorldRun, HoldsFirmware, Quiet;
    StartsInInv(ram, powerUp);
    assert Inv(s.hart, s.dispatches) by {
      StartPoint(ram, powerUp);
    }
    RunKeepsInv(s, before);
    RunKeepsInv(w, after);
    if Indicator(w.hart) != 0 {
      StaysAtBreak(w, after);
    }
  }

  lemma StartPoint(ram: Ram, powerUp: Sim)
    ensures Start(ram, powerUp).dispatches == 0 && Start(ram, powerUp).hart.pc == 0
  {
    hide Boot;
  }

  /** At the final EBREAK nothing moves any more. */
  lemma {:induction false} StaysAtBreak(w: World, ops: seq<Op>)
    requires Inv(w.hart, w.dispatches) && w.hart.pc == 0x34
    ensures WorldRun(w, ops).hart.pc == 0x34 && WorldRun(w, ops).dispatches == w.dispatches
    ensures Inv(WorldRun(w, ops).hart, w.dispatches)
    decreases |ops|
  {
    if ops != [] {
      var next := WorldStep(w, ops[0]);
      StepKeepsInv(w, ops[0]);
      BreakStep(w, ops[0]);
      hide WorldStep, Inv;
      StaysAtBreak(next, ops[1..]);
    }
  }

  lemma NoDispatchAtBreak(h: Hart, d: nat)
    requires Inv(h, d) && h.pc == 0x34
    ensures !CanDispatch(h)
  {
    hide HoldsFirmware, Quiet;
  }

  lemma BreakStep(w: World, op: Op)
    requires Inv(w.hart, w.dispatches) && w.hart.pc == 0x34
    ensures WorldStep(w, op).hart.pc == 0x34 && WorldStep(w, op).dispatches == w.dispatches
  {
    hide Turn, Inv, Tick, Dispatch, Cause;
    if op.Steps? {
      assert Turn(w.hart) == Ended(w.hart) by {
        TurnBreak(w.hart, w.dispatches);
      }
      assert !CanDispatch(w.hart) by {
        NoDispatchAtBreak(w.hart, w.dispatches);
      }
    }
  }

  // ----- progress of the firmware -----

  lemma TurnAdvances(h: Hart, d: nat)
    requires Inv(h, d) && h.pc != 0x34
    ensures Turn(h).Turned? && Inv(Turn(h).hart, d) && Flows(h, Turn(h).hart)
  {
    TurnKeepsInv(h, d);
    hide Turn, HoldsFirmware, Quiet, Booting, Polling, Finishing, Handling, Flows;
  }

  /** Where n instructions lead before the dispatch: through the boot code, then round the loop of two. */
  function BootPc(pc: nat, n: nat): nat
  {
    var next := pc + 4 * n;
    if next < 0x24 then next else 0x24 + (next - 0x24) % 8
  }

  lemma BootAdvances(h: Hart)
    requires Inv(h, 0)
    ensures Turn(h).Turned? && Inv(Turn(h).hart, 0) && h.pc <= 0x28
    ensures Turn(h).hart.pc == if h.pc == 0x28 then 0x24 else h.pc + 4
  {
    hide Turn, HoldsFirmware, Quiet;
    TurnAdvances(h, 0);
  }

  lemma BeforeDispatch(h: Hart)
    requires Inv(h, 0)
    ensures h.pc <= 0x28 && h.pc % 4 == 0
  {
    hide HoldsFirmware, Quiet;
  }

  lemma {:induction false} BootsTo(h: Hart, n: nat)
    requires Inv(h, 0)
    ensures var b := RunBatch(h, n).hart; Inv(b, 0) && b.pc == BootPc(h.pc, n)
    decreases n
  {
    hide Turn, Inv;
    BeforeDispatch(h);
    if n > 0 {
      BootAdvances(h);
      BootsTo(Turn(h).hart, n - 1);
    }
  }

  /** Instructions from the end of the handler to the final EBREAK. */
  function AfterReturn(h: Hart): nat { if h.csr.mepc == 0x24 then 4 else if h.regs[T2] == 0 then 3 else 5 }

  /** Instructions left until the final EBREAK after the dispatch. */
  function Remaining(h: Hart): nat
  {
    match h.pc
    case 0x34 => 0
    case 0x30 => 1
    case 0x2C => 2
    case 0x28 => if h.regs[T2] == 0 then 3 else 5
    case 0x24 => 4
    case 0x108 => AfterReturn(h) + 1
    case 0x104 => AfterReturn(h) + 2
    case _ => AfterReturn(h) + 3
  }

  lemma RemainingDrops(h: Hart)
    requires Inv(h, 1) && h.pc != 0x34
    ensures Turn(h).Turned? && Inv(Turn(h).hart, 1) && Remaining(Turn(h).hart) == Remaining(h) - 1
  {
    hide Turn, HoldsFirmware, Quiet;
    TurnAdvances(h, 1);
  }

  lemma NothingRemains(h: Hart)
    requires Inv(h, 1)
    ensures Remaining(h) == 0 <==> h.pc == 0x34
  {
    hide HoldsFirmware, Quiet;
  }

  /** Every instruction after the dispatch brings the final EBREAK one step nearer. */
  lemma {:induction false} RunsRemaining(h: Hart, n: nat)
    requires Inv(h, 1)
    ensures var b := RunBatch(h, n).hart;
            Inv(b, 1) && Remaining(b) == (if n >= Remaining(h) then 0 else Remaining(h) - n)
    decreases n
  {
    hide Turn, Inv, Remaining;
    NothingRemains(h);
    if n > 0 {
      if h.pc == 0x34 {
        TurnBreak(h, 1);
      } else {
        RemainingDrops(h);
        RunsRemaining(Turn(h).hart, n - 1);
      }
    }
  }

  /** A call while the firmware boots runs all its instructions. */
  lemma BootStep(w: World, max: int)
    requires Inv(w.hart, 0) && w.dispatches == 0 && w.hart.pc <= 0x20
    ensures var s := WorldStep(w, Steps(max));
            s.dispatches == 0 && s.hart.pc == BootPc(w.hart.pc, if max > 0 then max else 0)
  {
    hide RunBatch, Inv, CanDispatch;
    RunsOn(w.hart, 0);
    if max > 0 {
      BootsTo(w.hart, max);
    }
  }

  /** Before the interrupt is raised and after it is taken, a call runs instructions. */
  lemma RunsOn(h: Hart, dispatches: nat)
    requires Inv(h, dispatches) && ((dispatches == 0 && h.pc <= 0x20) || dispatches == 1)
    ensures !CanDispatch(h) && h.initialized && !h.sleeping
  {
    hide HoldsFirmware, Quiet;
    assert h.irq == 0 || h.csr.mstatus == 0;
    assert And(0, h.csr.mie) == 0;
  }

  /** A call from the polling loop takes the interrupt, from where 7 or 8 instructions are left. */
  lemma LoopStep(w: World, max: int)
    requires Inv(w.hart, 0) && w.dispatches == 0 && 0x24 <= w.hart.pc <= 0x28 && max > 0
    ensures var s := WorldStep(w, Steps(max));
            s.dispatches == 1 && s.hart.pc == HANDLER && Remaining(s.hart) == if w.hart.pc == 0x24 then 7 else 8
  {
    hide Inv, RunBatch, And, Ctz, ClearBit;
    LoopFacts(w.hart);
    OnlyLineZero();
  }

  lemma LoopFacts(h: Hart)
    requires Inv(h, 0) && 0x24 <= h.pc <= 0x28
    ensures h.initialized && h.irq == 1 && h.csr.mie == ALL_ONES && h.csr.mstatus == 8 && h.csr.mtvec == HANDLER
    ensures h.pc == 0x24 || (h.pc == 0x28 && h.regs[T2] == 1)
  {
    hide HoldsFirmware, Quiet;
  }

  lemma OnlyLineZero()
    ensures And(1, ALL_ONES) == 1 && Ctz(1) == 0
  {
  }

  /** A call after the dispatch. */
  lemma HandlerStep(w: World, max: int)
    requires Inv(w.hart, 1) && w.dispatches == 1
    ensures var s := WorldStep(w, Steps(max));
            s.dispatches == 1
            && Remaining(s.hart) == (if max >= Remaining(w.hart) then 0 else if max > 0 then Remaining(w.hart) - max
                                     else Remaining(w.hart))
  {
    hide RunBatch, Inv, CanDispatch, Remaining;
    RunsOn(w.hart, 1);
    if max > 0 {
      RunsRemaining(w.hart, max);
    }
  }

  // ----- the system as a counter -----

  /** What decides the rest of a run: the program point before the dispatch, the instructions left after it. */
  datatype Stage = BeforeIrq(pc: nat) | AfterIrq(left: nat)

  function StageOf(w: World): Stage { if w.dispatches == 0 then BeforeIrq(w.hart.pc) else AfterIrq(Remaining(w.hart)) }

  /** One operation on the counter: only the length of a call matters, and edges do not. */
  function Advance(s: Stage, op: Op): Stage
  {
    if op.ClockEdge? || op.max <= 0 then s
    else
      match s
      case BeforeIrq(pc) => if pc < 0x24 then BeforeIrq(BootPc(pc, op.max)) else AfterIrq(if pc == 0x24 then 7 else 8)
      case AfterIrq(left) => AfterIrq(if op.max >= left then 0 else left - op.max)
  }

  function AdvanceAll(s: Stage, ops: seq<Op>): Stage
    decreases |ops|
  {
    if ops == [] then s else AdvanceAll(Advance(s, ops[0]), ops[1..])
  }

  lemma DispatchBound(h: Hart, d: nat)
    requires Inv(h, d)
    ensures d <= 1
  {
    hide HoldsFirmware, Quiet;
  }

  lemma EdgeStage(w: World)
    ensures StageOf(WorldStep(w, ClockEdge)) == StageOf(w)
  {
    hide Tick;
  }

  lemma StageStep(w: World, op: Op)
    requires Inv(w.hart, w.dispatches)
    ensures StageOf(WorldStep(w, op)) == Advance(StageOf(w), op)
  {
    hide Inv, RunBatch, Dispatch, CanDispatch, Remaining, BootPc, Cause;
    DispatchBound(w.hart, w.dispatches);
    match op
    case ClockEdge =>
      EdgeStage(w);
    case Steps(max) =>
      if max > 0 {
        if w.dispatches == 1 {
          HandlerStep(w, max);
        } else {
          BeforeDispatch(w.hart);
          if w.hart.pc <= 0x20 {
            BootStep(w, max);
          } else {
            LoopStep(w, max);
          }
        }
      }
  }

  /** The whole system, bus and clock included, refines the counter on every series of operations. */
  lemma {:induction false} RunRefinesCounter(w: World, ops: seq<Op>)
    requires Inv(w.hart, w.dispatches)
    ensures StageOf(WorldRun(w, ops)) == AdvanceAll(StageOf(w), ops)
    decreases |ops|
  {
    hide Inv, WorldStep, StageOf, Advance;
    if ops != [] {
      StageStep(w, ops[0]);
      StepKeepsInv(w, ops[0]);
      RunRefinesCounter(WorldStep(w, ops[0]), ops[1..]);
    }
  }

  /** The self-test passes: the harness reads the indicator as 1, GPIO_OUT as 0 and GPIO_IE as 1. */
  ghost predicate Passes(w: World)
  {
    w.hart.dev.Ahb? && Indicator(w.hart) == 1 && Sim(w.hart).gpio == Gpio(0, 1) && w.dispatches == 1
  }

  /** It passes exactly at the final EBREAK. */
  lemma PassesAtBreak(w: World)
    requires Inv(w.hart, w.dispatches)
    ensures Passes(w) <==> w.hart.pc == 0x34
    ensures Passes(w) <==> StageOf(w) == AfterIrq(0)
  {
    hide HoldsFirmware, Quiet;
  }

  /** After any interleaving of edges and calls, from every power-up state, the self-test has passed if and only if
      the counter says so, which looks at the lengths of the calls alone. */
  lemma PassesIff(ram: Ram, powerUp: Sim, ops: seq<Op>)
    requires HoldsFirmware(ram)
    ensures Passes(WorldRun(Start(ram, powerUp), ops)) <==> AdvanceAll(BeforeIrq(0), ops) == AfterIrq(0)
  {
    var s := Start(ram, powerUp);
    StartsInInv(ram, powerUp);
    StartPoint(ram, powerUp);
    hide Start, WorldRun, HoldsFirmware, Inv, Passes, AdvanceAll;
    RunKeepsInv(s, ops);
    RunRefinesCounter(s, ops);
    PassesAtBreak(WorldRun(s, ops));
  }

  // ----- how many calls it takes -----

  /** Calls that run anything. */
  function Calls(ops: seq<Op>): nat
    decreases |ops|
  {
    if ops == [] then 0 else (if ops[0].Steps? && ops[0].max > 0 then 1 else 0) + Calls(ops[1..])
  }

  /** Calls of one instruction that are still enough. */
  function CallsLeft(s: Stage): nat
  {
    match s
    case BeforeIrq(pc) => if pc < 0x24 then (0x24 - pc) / 4 + 9 else 9
    case AfterIrq(left) => left
  }

  ghost predicate Reachable(s: Stage)
  {
    match s
    case BeforeIrq(pc) => pc % 4 == 0 && pc <= 0x28
    case AfterIrq(left) => left <= 8
  }

  lemma BootPcMoves(pc: nat, n: nat)
    requires pc % 4 == 0 && pc < 0x24 && n > 0
    ensures var next := BootPc(pc, n); next % 4 == 0 && pc + 4 <= next <= 0x28
  {
  }

  lemma CallsLeftDrop(s: Stage, op: Op)
    requires Reachable(s)
    ensures Reachable(Advance(s, op))
    ensures CallsLeft(Advance(s, op))
            <= if op.Steps? && op.max > 0 && CallsLeft(s) > 0 then CallsLeft(s) - 1 else CallsLeft(s)
  {
    hide BootPc;
    if s.BeforeIrq? && s.pc < 0x24 && op.Steps? && op.max > 0 {
      BootPcMoves(s.pc, op.max);
    }
  }

  lemma {:induction false} CallsSuffice(s: Stage, ops: seq<Op>)
    requires Reachable(s) && Calls(ops) >= CallsLeft(s)
    ensures AdvanceAll(s, ops) == AfterIrq(0)
    decreases |ops|
  {
    hide Advance, CallsLeft, Reachable;
    if ops == [] {
      NoCallsLeft(s);
    } else {
      CallsLeftDrop(s, ops[0]);
      CallsSuffice(Advance(s, ops[0]), ops[1..]);
    }
  }

  lemma NoCallsLeft(s: Stage)
    ensures CallsLeft(s) == 0 <==> s == AfterIrq(0)
  {
  }

  /** Whatever their lengths and however edges fall between them, eighteen calls that run anything pass the test. */
  lemma EighteenCallsPass(ram: Ram, powerUp: Sim, ops: seq<Op>)
    requires HoldsFirmware(ram) && Calls(ops) >= 18
    ensures Passes(WorldRun(Start(ram, powerUp), ops))
  {
    hide Start, WorldRun, HoldsFirmware, Passes, AdvanceAll, Calls;
    PassesIff(ram, powerUp, ops);
    CallsSuffice(BeforeIrq(0), ops);
  }

  lemma {:induction false} AdvanceConcat(s: Stage, a: seq<Op>, b: seq<Op>)
    ensures AdvanceAll(s, a + b) == AdvanceAll(AdvanceAll(s, a), b)
    decreases |a|
  {
    hide Advance;
    if a != [] {
      assert (a + b)[0] == a[0] && (a + b)[1..] == a[1..] + b;
      AdvanceConcat(Advance(s, a[0]), a[1..], b);
    } else {
      assert a + b == b;
    }
  }

  function Singles(n: nat): seq<Op> { if n == 0 then [] else [Steps(1)] + Singles(n - 1) }

  lemma {:induction false} SinglesAdvance(s: Stage, n: nat, rest: seq<Op>)
    requires match s case BeforeIrq(pc) => pc + 4 * n < 0x24 case AfterIrq(left) => n < left
    ensures AdvanceAll(s, Singles(n) + rest)
            == AdvanceAll(match s
                          case BeforeIrq(pc) => BeforeIrq(pc + 4 * n)
                          case AfterIrq(left) => AfterIrq(left - n), rest)
    ensures Calls(Singles(n) + rest) == n + Calls(rest)
    decreases n
  {
    if n == 0 {
      assert [] + rest == rest;
    } else {
      assert (Singles(n) + rest)[1..] == Singles(n - 1) + rest;
      SinglesAdvance(Advance(s, Steps(1)), n - 1, rest);
    }
  }

  /** Seventeen may not: eight single instructions, a call of two, the dispatch, and seven single ones leave one. */
  lemma SeventeenCallsMayFail(ram: Ram, powerUp: Sim)
    requires HoldsFirmware(ram)
    ensures var ops := Singles(8) + ([Steps(2), Steps(1)] + Singles(7));
            Calls(ops) == 17 && !Passes(WorldRun(Start(ram, powerUp), ops))
  {
    hide Start, WorldRun, HoldsFirmware, Passes, Singles;
    var ops := [Steps(2), Steps(1)] + Singles(7);
    PassesIff(ram, powerUp, Singles(8) + ops);
    SinglesAdvance(BeforeIrq(0), 8, ops);
    assert ops[1..] == [Steps(1)] + Singles(7) && ops[1..][1..] == Singles(7);
    assert Singles(7) == Singles(7) + [];
    SinglesAdvance(AfterIrq(8), 7, []);
  }

  // ----- the harness's own schedule -----

  /** One phase of the harness: a call, then four clock edges. */
  function Phase(batch: int): seq<Op> { [Steps(batch), ClockEdge, ClockEdge, ClockEdge, ClockEdge] }

  lemma PhaseAdvances(s: Stage, batch: int)
    ensures AdvanceAll(s, Phase(batch)) == Advance(s, Steps(batch)) == AdvanceAll(s, [Steps(batch)])
  {
    EdgesAdvance(Advance(s, Steps(batch)));
    assert Phase(batch)[1..] == [ClockEdge, ClockEdge, ClockEdge, ClockEdge];
    assert AdvanceAll(Advance(s, Steps(batch)), []) == Advance(s, Steps(batch));
    assert [Steps(batch)][1..] == [];
  }

  lemma EdgesAdvance(s: Stage)
    ensures AdvanceAll(s, [ClockEdge, ClockEdge, ClockEdge, ClockEdge]) == s
  {
    assert [ClockEdge, ClockEdge, ClockEdge, ClockEdge][1..] == [ClockEdge, ClockEdge, ClockEdge];
    assert [ClockEdge, ClockEdge, ClockEdge][1..] == [ClockEdge, ClockEdge];
    assert AdvanceAll(s, [ClockEdge, ClockEdge]) == s;
  }

  /** Four calls of one length finish exactly when it is at least eight. */
  lemma FourCalls(batch: int)
    ensures var op := Steps(batch);
            Advance(Advance(Advance(Advance(BeforeIrq(0), op), op), op), op) == AfterIrq(0) <==> batch >= 8
  {
  }

  /** The four phases of the harness pass its own checks if and only if the batch size is at least eight. */
  lemma HarnessPasses(ram: Ram, powerUp: Sim, batch: int)
    requires HoldsFirmware(ram)
    ensures Passes(WorldRun(Start(ram, powerUp), Phase(batch) + Phase(batch) + Phase(batch) + [Steps(batch)]))
            <==> batch >= 8
  {
    hide Start, WorldRun, HoldsFirmware, Passes, Phase, Advance, AdvanceAll;
    var phase, op, s0 := Phase(batch), Steps(batch), BeforeIrq(0);
    PassesIff(ram, powerUp, phase + phase + phase + [op]);
    AdvanceConcat(s0, phase, phase);
    AdvanceConcat(s0, phase + phase, phase);
    AdvanceConcat(s0, phase + phase + phase, [op]);
    PhaseAdvances(s0, batch);
    PhaseAdvances(Advance(s0, op), batch);
    PhaseAdvances(Advance(Advance(s0, op), op), batch);
    PhaseAdvances(Advance(Advance(Advance(s0, op), op), op), batch);
    FourCalls(batch);
  }
}
