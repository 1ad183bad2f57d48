/** Whole runs of the simulator: series of rv_step and rv_set_irq calls. */
module Runs {
  import opened Words
  import opened Isa
  import opened HartState
  import opened Execute
  import opened Step
  import AhbBus

  // ----- what one turn of the instruction loop can change -----

  /** An instruction that can set the MIE bit: MRET, or a CSR access to mstatus. */
  predicate SetsMie(insn: Word)
  {
    insn == MRET || (Opcode(insn) == 0x73 && Funct3(insn) != 0 && CsrAddr(insn) == 0x300)
  }

  /** WFI, and every other SYSTEM word with funct3 zero the decoder does not know. */
  predicate IsWfi(insn: Word)
  {
    Opcode(insn) == 0x73 && Funct3(insn) == 0 && insn != EBREAK && insn != ECALL && insn != MRET
  }

  /** Kept by every instruction, whatever the device.  A register file does not move the interrupt mask. */
  ghost predicate Frame(h: Hart, next: Hart)
  {
    && next.initialized == h.initialized && next.base == h.base && |next.ram| == |h.ram|
    && next.csr.mcycle == h.csr.mcycle && (h.dev.Registers? ==> next.dev.Registers? && next.irq == h.irq)
  }

  /** Kept by loads and stores as well as by register results. */
  ghost predicate DataFrame(h: Hart, next: Hart)
  {
    Frame(h, next) && next.sleeping == h.sleeping && next.csr == h.csr
  }

  lemma ReadFrame(h: Hart, addr: Word)
    ensures DataFrame(h, ReadU32(h, addr).hart) && ReadU32(h, addr).hart.pc == h.pc
    ensures DataFrame(h, ReadU16(h, addr).hart) && DataFrame(h, ReadU8(h, addr).hart)
    ensures h.dev.Registers? ==> ReadU32(h, addr).hart == h
  {
    hide AhbBus.MmioRead;
  }

  lemma WriteFrame(h: Hart, addr: Word, value: Word)
    ensures DataFrame(h, WriteU32(h, addr, value))
    ensures DataFrame(h, WriteU16(h, addr, value % 0x1_0000))
    ensures DataFrame(h, WriteU8(h, addr, value % 0x100))
  {
    hide MergeHalf, MergeByte, GuestWord, AhbBus.MmioRead, AhbBus.MmioWrite;
  }

  lemma ComputeFrame(h: Hart, insn: Word)
    ensures ComputeInsn(h, insn).Retire? && DataFrame(h, ComputeInsn(h, insn).hart)
  {
    hide MulDiv, AluOp, AluImm;
  }

  lemma AccessFrame(h: Hart, insn: Word)
    ensures DataFrame(h, LoadInsn(h, insn).hart) && DataFrame(h, StoreInsn(h, insn).hart)
  {
    hide ReadU32, ReadU16, ReadU8, WriteU32, WriteU16, WriteU8;
    ReadFrame(h, Wrap(h.regs[Rs1(insn)] + ImmI(insn)));
    WriteFrame(h, Wrap(h.regs[Rs1(insn)] + ImmS(insn)), h.regs[Rs2(insn)]);
  }

  ghost predicate InstructionFrame(h: Hart, insn: Word, o: Outcome)
  {
    match o
    case Stop(s) => s == h || (IsWfi(insn) && s == h.(sleeping := true) && !(MieSet(h.csr.mstatus) && h.irq != 0))
    case Retire(next, _) =>
      && Frame(h, next) && next.sleeping == h.sleeping
      && (!MieSet(h.csr.mstatus) && MieSet(next.csr.mstatus) ==> SetsMie(insn))
  }

  lemma SystemFrame(h: Hart, insn: Word)
    requires Opcode(insn) == 0x73
    ensures InstructionFrame(h, insn, System(h, insn))
  {
    hide CsrValue;
  }

  lemma Frame32(h: Hart, insn: Word)
    ensures InstructionFrame(h, insn, Execute32(h, insn))
  {
    hide ComputeInsn, LoadInsn, StoreInsn, System, SetsMie;
    ComputeFrame(h, insn);
    assert LoadInsn(h, insn).Retire? && StoreInsn(h, insn).Retire? by {
      RetiresAccess(h, insn);
    }
    AccessFrame(h, insn);
    if Opcode(insn) == 0x73 {
      SystemFrame(h, insn);
    }
  }

  lemma RetiresAccess(h: Hart, insn: Word)
    ensures LoadInsn(h, insn).Retire? && StoreInsn(h, insn).Retire?
  {
    hide LoadFrom, StoreTo;
  }

  lemma FrameQuadrant0(h: Hart, c: Half)
    ensures match Quadrant0(h, c)
            case None => true
            case Some(next) => DataFrame(h, next)
  {
    hide ReadU32, WriteU32, CLwOffset, CAddi4spnImm;
    ReadFrame(h, Wrap(h.regs[CRs1Prime(c)] + CLwOffset(c)));
    WriteFrame(h, Wrap(h.regs[CRs1Prime(c)] + CLwOffset(c)), h.regs[CRs2Prime(c)]);
  }

  lemma FrameQuadrant1(h: Hart, c: Half)
    ensures match Quadrant1(h, c)
            case None => true
            case Some(next) => DataFrame(h, next)
  {
    hide ShiftRight, ShiftRightArith, And, OrWord, XorWord, CImm6, CShamt, CJumpOffset, CBranchOffset, CAddi16spImm;
  }

  lemma FrameQuadrant2(h: Hart, c: Half)
    ensures match Quadrant2(h, c)
            case None => true
            case Some(next) => DataFrame(h, next)
  {
    hide ReadU32, WriteU32, ShiftLeft, CLwspOffset, CSwspOffset, CShamt, CFunct4, CFunct3, Wrap;
    FrameStack(h, Wrap(h.regs[2] + CLwspOffset(c)), 0, CRd(c));
    FrameStack(h, Wrap(h.regs[2] + CSwspOffset(c)), h.regs[CRd(c)], 0);
  }

  lemma FrameStack(h: Hart, at: Word, value: Word, rd: nat)
    requires rd < 32
    ensures DataFrame(h, WriteReg(ReadU32(h, at).hart, rd, ReadU32(h, at).value)) && DataFrame(h, WriteU32(h, at, value))
  {
    hide ReadU32, ReadU16, ReadU8, WriteU32, WriteU16, WriteU8;
    ReadFrame(h, at);
    WriteFrame(h, at, value);
  }

  lemma Frame16(h: Hart, c: Half)
    ensures match Execute16(h, c)
            case None => true
            case Some(next) => DataFrame(h, next)
  {
    hide Quadrant0, Quadrant1, Quadrant2, DataFrame;
    FrameQuadrant0(h, c);
    FrameQuadrant1(h, c);
    FrameQuadrant2(h, c);
  }

  // ----- x0 -----

  lemma AccessKeepsRegisters(h: Hart, addr: Word, value: Word)
    ensures ReadU32(h, addr).hart.regs == ReadU16(h, addr).hart.regs == ReadU8(h, addr).hart.regs == h.regs
    ensures WriteU32(h, addr, value).regs == h.regs
    ensures WriteU16(h, addr, value % 0x1_0000).regs == h.regs
    ensures WriteU8(h, addr, value % 0x100).regs == h.regs
  {
    hide MergeHalf, MergeByte, GuestWord, ReadDevice, WriteDevice;
  }

  lemma ZeroRegisterAccess(h: Hart, insn: Word)
    requires h.regs[0] == 0
    ensures LoadInsn(h, insn).hart.regs[0] == 0 && StoreInsn(h, insn).hart.regs[0] == 0
  {
    hide ReadU32, ReadU16, ReadU8, WriteU32, WriteU16, WriteU8, ImmI, ImmS, SignExtend;
    AccessKeepsRegisters(h, Wrap(h.regs[Rs1(insn)] + ImmI(insn)), 0);
    AccessKeepsRegisters(h, Wrap(h.regs[Rs1(insn)] + ImmS(insn)), h.regs[Rs2(insn)]);
  }

  lemma ZeroRegisterCompute(h: Hart, insn: Word)
    requires h.regs[0] == 0
    ensures ComputeInsn(h, insn).hart.regs[0] == 0 && TransferInsn(h, insn).hart.regs[0] == 0
  {
    hide MulDiv, AluOp, AluImm, ImmI, ImmB, ImmJ, ImmU, Taken;
  }

  lemma ZeroRegister32(h: Hart, insn: Word)
    requires h.regs[0] == 0
    ensures Execute32(h, insn).hart.regs[0] == 0
  {
    hide ComputeInsn, TransferInsn, LoadInsn, StoreInsn, CsrValue, ReadCsr;
    ZeroRegisterAccess(h, insn);
    ZeroRegisterCompute(h, insn);
  }

  lemma ZeroRegisterQuadrant1(h: Hart, c: Half)
    requires h.regs[0] == 0
    ensures match Quadrant1(h, c)
            case None => true
            case Some(next) => next.regs[0] == 0
  {
    hide ShiftRight, ShiftRightArith, And, OrWord, XorWord, CImm6, CShamt, CJumpOffset, CBranchOffset, CAddi16spImm;
  }

  lemma ZeroRegisterQuadrant0(h: Hart, c: Half)
    requires h.regs[0] == 0
    ensures match Quadrant0(h, c)
            case None => true
            case Some(next) => next.regs[0] == 0
  {
    hide ReadU32, WriteU32, CLwOffset, CAddi4spnImm;
    AccessKeepsRegisters(h, Wrap(h.regs[CRs1Prime(c)] + CLwOffset(c)), h.regs[CRs2Prime(c)]);
  }

  lemma ZeroRegisterStack(h: Hart, at: Word, value: Word, rd: nat)
    requires h.regs[0] == 0 && rd < 32
    ensures WriteReg(ReadU32(h, at).hart, rd, ReadU32(h, at).value).regs[0] == 0 && WriteU32(h, at, value).regs[0] == 0
  {
    hide ReadU32, ReadU16, ReadU8, WriteU32, WriteU16, WriteU8;
    AccessKeepsRegisters(h, at, value);
  }

  lemma ZeroRegisterQuadrant2(h: Hart, c: Half)
    requires h.regs[0] == 0
    ensures match Quadrant2(h, c)
            case None => true
            case Some(next) => next.regs[0] == 0
  {
    hide ReadU32, WriteU32, ShiftLeft, CLwspOffset, CSwspOffset, CShamt, CFunct4, CFunct3, Wrap;
    ZeroRegisterStack(h, Wrap(h.regs[2] + CLwspOffset(c)), 0, CRd(c));
    ZeroRegisterStack(h, Wrap(h.regs[2] + CSwspOffset(c)), h.regs[CRd(c)], 0);
  }

  lemma ZeroRegister16(h: Hart, c: Half)
    requires h.regs[0] == 0
    ensures match Execute16(h, c)
            case None => true
            case Some(next) => next.regs[0] == 0
  {
    hide Quadrant0, Quadrant1, Quadrant2;
    ZeroRegisterQuadrant0(h, c);
    ZeroRegisterQuadrant1(h, c);
    ZeroRegisterQuadrant2(h, c);
  }

  lemma ZeroRegisterTurn(h: Hart)
    requires h.regs[0] == 0
    ensures Turn(h).hart.regs[0] == 0
  {
    hide Execute32, Execute16, ReadU32;
    AccessKeepsRegisters(h, h.pc, 0);
    var fetched := ReadU32(h, h.pc);
    ZeroRegister32(fetched.hart, fetched.value);
    ZeroRegister16(fetched.hart, fetched.value % 0x1_0000);
  }

  lemma {:induction false} ZeroRegisterBatch(h: Hart, n: nat)
    requires h.regs[0] == 0
    ensures RunBatch(h, n).hart.regs[0] == 0
    decreases n
  {
    hide Turn;
    if n > 0 {
      ZeroRegisterTurn(h);
      if Turn(h).Turned? {
        ZeroRegisterBatch(Turn(h).hart, n - 1);
      }
    }
  }

  /** The hart once the word at pc has been fetched; only a device can tell the difference. */
  function Fetched(h: Hart): Hart { if CanFetch(h) then ReadU32(h, h.pc).hart else h }

  predicate AtWfi(h: Hart) { CanFetch(h) && IsWfi(ReadU32(h, h.pc).value) }

  lemma TurnFrame(h: Hart)
    ensures DataFrame(h, Fetched(h)) && Fetched(h).pc == h.pc && (h.dev.Registers? ==> Fetched(h) == h)
    ensures match Turn(h)
            case Ended(last) => last == Fetched(h) || (AtWfi(h) && last == Fetched(h).(sleeping := true))
            case Turned(next, retired) =>
              && Frame(h.(csr := h.csr.(mcycle := next.csr.mcycle)), next) && next.sleeping == h.sleeping
              && next.csr.mcycle == Wrap64(h.csr.mcycle + 1)
              && (!MieSet(h.csr.mstatus) && MieSet(next.csr.mstatus) ==> SetsMie(retired.insn))
  {
    hide Execute.Execute, ReadU32, Wrap64, SetsMie, IsWfi, MieSet;
    if CanFetch(h) {
      ReadFrame(h, h.pc);
      var f := ReadU32(h, h.pc);
      ExecuteFrame(f.hart, f.value);
    }
  }

  lemma ExecuteFrame(h: Hart, insn: Word)
    ensures InstructionFrame(h, insn, Execute.Execute(h, insn))
  {
    hide Execute32, Execute16, SetsMie, IsWfi;
    Frame32(h, insn);
    Frame16(h, insn % 0x1_0000);
  }

  // ----- batches -----

  lemma Wrap64Same(x: Dword)
    ensures Wrap64(x) == x
  {
  }

  lemma {:induction false} BatchFrame(h: Hart, n: nat)
    ensures var b := RunBatch(h, n);
            && Frame(h.(csr := h.csr.(mcycle := b.hart.csr.mcycle)), b.hart)
            && b.hart.csr.mcycle == Wrap64(h.csr.mcycle + |b.trace|)
            && |b.trace| <= n
    decreases n
  {
    hide Turn, Wrap64;
    Wrap64Same(h.csr.mcycle);
    if n > 0 {
      TurnFrame(h);
      if Turn(h).Turned? {
        BatchFrame(Turn(h).hart, n - 1);
        Wrap64Add(h.csr.mcycle + 1, |RunBatch(h, n).trace| - 1);
      }
    }
  }

  /** A batch that retired all its instructions is continued by the next one. */
  lemma {:induction false} FullBatchContinues(h: Hart, n: nat, m: nat)
    requires |RunBatch(h, n).trace| == n
    ensures RunBatch(h, n + m) == Prepend(RunBatch(h, n).trace, RunBatch(RunBatch(h, n).hart, m))
    decreases n
  {
    hide Turn;
    if n > 0 {
      var next := Turn(h).hart;
      FullBatchContinues(next, n - 1, m);
      PrependTurn([], h, next, Turn(h).retired, n + m);
      var rest := RunBatch(RunBatch(h, n).hart, m);
      assert RunBatch(h, n).trace + rest.trace == [Turn(h).retired] + (RunBatch(next, n - 1).trace + rest.trace);
    } else {
      assert [] + RunBatch(h, m).trace == RunBatch(h, m).trace;
    }
  }

  /** A batch that ended early ends there whatever its length: the hart is asleep, or the next
      turn ends again without effect. */
  lemma {:induction false} ShortBatchEnds(h: Hart, n: nat, m: nat)
    requires h.dev.Registers? && |RunBatch(h, n).trace| < n
    ensures RunBatch(h, n + m) == RunBatch(h, n)
    ensures var last := RunBatch(h, n).hart; last.sleeping || Turn(last) == Ended(last)
    decreases n
  {
    hide Turn;
    TurnFrame(h);
    if Turn(h).Turned? {
      ShortBatchEnds(Turn(h).hart, n - 1, m);
    } else {
      TurnFrame(Turn(h).hart);
    }
  }

  lemma {:induction false} AwakeBatch(h: Hart, n: nat)
    requires h.dev.Registers? && !h.sleeping && |RunBatch(h, n).trace| == n
    ensures !RunBatch(h, n).hart.sleeping
    decreases n
  {
    hide Turn;
    if n > 0 {
      TurnFrame(h);
      AwakeBatch(Turn(h).hart, n - 1);
    }
  }

  lemma NothingPending(h: Hart)
    requires h.irq == 0
    ensures !CanDispatch(h)
  {
  }

  /** With no interrupt pending and a plain register file behind MMIO, two calls do exactly what
      one call of the summed length does. */
  lemma BatchesCompose(h: Hart, n: nat, m: nat)
    requires n > 0 && m > 0 && h.irq == 0 && h.dev.Registers?
    ensures var first := RvStep(h, n);
            var second := RvStep(first.hart, m);
            RvStep(h, n + m) == Stepped(second.hart, first.count + second.count, None, first.trace + second.trace)
  {
    hide RunBatch, Turn;
    NothingPending(h);
    if h.initialized && !h.sleeping {
      var b := RunBatch(h, n);
      BatchFrame(h, n);
      NothingPending(b.hart);
      if |b.trace| == n {
        AwakeBatch(h, n);
        FullBatchContinues(h, n, m);
      } else {
        ShortBatchEnds(h, n, m);
        assert Turn(b.hart) == Ended(b.hart) ==> RunBatch(b.hart, m) == Batch(b.hart, []) by {
          EndedBatch(b.hart, m);
        }
        assert b.trace + [] == b.trace;
      }
    }
  }

  lemma EndedBatch(h: Hart, m: nat)
    ensures Turn(h) == Ended(h) ==> RunBatch(h, m) == Batch(h, [])
  {
    hide Turn;
  }

  // ----- calls -----

  datatype Call = StepCall(max: int) | IrqCall(mask: Word)

  function Apply(h: Hart, call: Call): Stepped
  {
    match call
    case StepCall(max) => RvStep(h, max)
    case IrqCall(mask) => Stepped(SetIrq(h, mask), 0, None, [])
  }

  /** The state before call k of a run. */
  function StateAt(h: Hart, calls: seq<Call>, k: nat): Hart
    requires k <= |calls|
  {
    if k == 0 then h else Apply(StateAt(h, calls, k - 1), calls[k - 1]).hart
  }

  /** What call k of a run does. */
  function CallAt(h: Hart, calls: seq<Call>, k: nat): Stepped
    requires k < |calls|
  {
    Apply(StateAt(h, calls, k), calls[k])
  }

  // ----- sleep -----

  /** No call before k finds an enabled interrupt pending with MIE set. */
  ghost predicate Undisturbed(h: Hart, calls: seq<Call>, k: nat)
    requires k <= |calls|
  {
    forall i :: 0 <= i < k ==> calls[i].IrqCall? || calls[i].max <= 0 || !CanDispatch(StateAt(h, calls, i))
  }

  /** Only rv_set_irq has any effect on a sleeping hart that is not woken. */
  lemma {:induction false} SleepIsAbsorbing(h: Hart, calls: seq<Call>, k: nat)
    requires h.sleeping && k <= |calls| && Undisturbed(h, calls, k)
    ensures StateAt(h, calls, k) == h.(irq := StateAt(h, calls, k).irq)
    ensures forall i :: 0 <= i < k ==> CallAt(h, calls, i).count == 0 && CallAt(h, calls, i).trace == []
  {
    hide RunBatch;
    if k > 0 {
      SleepIsAbsorbing(h, calls, k - 1);
    }
  }

  /** With MIE clear nothing wakes the hart. */
  lemma {:induction false} SleepWithoutMieIsForever(h: Hart, calls: seq<Call>, k: nat)
    requires h.sleeping && !MieSet(h.csr.mstatus) && k <= |calls|
    ensures StateAt(h, calls, k) == h.(irq := StateAt(h, calls, k).irq)
  {
    hide RunBatch;
    if k > 0 {
      SleepWithoutMieIsForever(h, calls, k - 1);
    }
  }

  /** The first call that can wake the hart dispatches, and mepc is where it slept. */
  lemma WakingCallDispatches(h: Hart, calls: seq<Call>, k: nat)
    requires h.sleeping && h.initialized && k < |calls| && Undisturbed(h, calls, k)
    requires calls[k].StepCall? && calls[k].max > 0 && CanDispatch(StateAt(h, calls, k))
    ensures var s := CallAt(h, calls, k);
            && s.count == 1 && s.cause == Some(Cause(StateAt(h, calls, k))) && s.trace == []
            && s.hart.csr.mepc == h.pc && !s.hart.sleeping && !MieSet(s.hart.csr.mstatus) && s.hart.regs == h.regs
            && s.hart.ram == h.ram
  {
    hide RunBatch, StateAt, And, ClearBit, TrapVector, Cause;
    SleepIsAbsorbing(h, calls, k);
  }

  /** A batch puts the hart to sleep only by a WFI: the instruction after the k that retired, which was fetched at
      the pc the hart sleeps at. */
  lemma {:induction false} SleepsAtWfi(h: Hart, n: nat)
    requires !h.sleeping && RunBatch(h, n).hart.sleeping
    ensures var b := RunBatch(h, n);
            && |b.trace| < n
            && var s := RunBatch(h, |b.trace|).hart;
               AtWfi(s) && b.hart == Fetched(s).(sleeping := true) && b.hart.pc == s.pc
    ensures h.dev.Registers? ==> AtWfi(RunBatch(h, n).hart)
    decreases n
  {
    hide Turn, AtWfi, Fetched;
    if n > 0 {
      TurnFrame(h);
      if Turn(h).Turned? {
        SleepsAtWfi(Turn(h).hart, n - 1);
      } else if h.dev.Registers? {
        SameFetch(h, Turn(h).hart);
      }
    }
  }

  lemma SameFetch(h: Hart, last: Hart)
    requires h.dev.Registers? && last == h.(sleeping := true)
    ensures AtWfi(last) == AtWfi(h)
  {
  }

  // ----- halt -----

  /** SW, C.SW or C.SWSP storing v to the low half of tohost. */
  predicate StoresWord(h: Hart, insn: Word, v: Word)
  {
    var c := insn % 0x1_0000;
    if insn % 4 == 3 then
      && Opcode(insn) == 0x23 && Funct3(insn) == 2
      && Wrap(h.regs[Rs1(insn)] + ImmS(insn)) == HTIF_BASE && h.regs[Rs2(insn)] == v
    else if insn % 4 == 0 then
      CFunct3(c) == 6 && Wrap(h.regs[CRs1Prime(c)] + CLwOffset(c)) == HTIF_BASE && h.regs[CRs2Prime(c)] == v
    else
      insn % 4 == 2 && CFunct3(c) == 6 && Wrap(h.regs[2] + CSwspOffset(c)) == HTIF_BASE && h.regs[CRd(c)] == v
  }

  predicate StoresTohost(h: Hart, v: Word) { CanFetch(h) && StoresWord(h, ReadU32(h, h.pc).value, v) }

  lemma TohostWrite(h: Hart, v: Word)
    ensures var w := WriteU32(h, HTIF_BASE, v);
            v % 2 == 1 ==> w.htif.halted && w.htif.exit && w.htif.exitCode == v / 2
  {
    hide GuestWord;
  }

  lemma StoreRuns(h: Hart, insn: Word, v: Word)
    requires StoresWord(h, insn, v)
    ensures var o := Execute.Execute(h, insn); o.Retire? && o.hart.htif == WriteU32(h, HTIF_BASE, v).htif
  {
    hide Execute.Execute, Execute16, Execute32, WriteU32, ImmS, CLwOffset, CSwspOffset, CFunct3, Opcode, Funct3, Wrap,
         Rs1, Rs2, CRd, CRs1Prime, CRs2Prime;
    ExecuteParts(h, insn);
    if insn % 4 == 3 {
      WordStoreRuns(h, insn, v);
    } else {
      var c := insn % 0x1_0000;
      assert c % 4 == insn % 4;
      CompressedStoreRuns(h, c, v);
    }
  }

  lemma ExecuteParts(h: Hart, insn: Word)
    ensures insn % 4 == 3 ==> Execute.Execute(h, insn) == Execute32(h, insn)
    ensures insn % 4 != 3 ==> match Execute16(h, insn % 0x1_0000)
              case None => true
              case Some(next) => var o := Execute.Execute(h, insn); o.Retire? && o.hart.htif == next.htif
  {
    hide Execute16, Execute32;
  }

  lemma WordStoreRuns(h: Hart, insn: Word, v: Word)
    requires Opcode(insn) == 0x23 && Funct3(insn) == 2
    requires Wrap(h.regs[Rs1(insn)] + ImmS(insn)) == HTIF_BASE && h.regs[Rs2(insn)] == v
    ensures var o := Execute32(h, insn); o.Retire? && o.hart.htif == WriteU32(h, HTIF_BASE, v).htif
  {
    hide ReadU32, WriteU32, WriteU16, WriteU8, ImmS, LoadInsn, ComputeInsn, TransferInsn, System;
  }

  lemma CompressedStoreRuns(h: Hart, c: Half, v: Word)
    requires CFunct3(c) == 6
    requires if c % 4 == 0 then Wrap(h.regs[CRs1Prime(c)] + CLwOffset(c)) == HTIF_BASE && h.regs[CRs2Prime(c)] == v
             else c % 4 == 2 && Wrap(h.regs[2] + CSwspOffset(c)) == HTIF_BASE && h.regs[CRd(c)] == v
    ensures Execute16(h, c) == Some(WriteU32(h, HTIF_BASE, v))
  {
    hide ReadU32, WriteU32, CLwOffset, CSwspOffset, Wrap;
  }

  lemma TohostTurn(h: Hart, v: Word)
    requires StoresTohost(h, v) && v % 2 == 1
    ensures Turn(h).Turned? && Turn(h).hart.htif.halted && Turn(h).hart.htif.exit && Turn(h).hart.htif.exitCode == v / 2
  {
    hide Execute.Execute, StoresWord, ReadU32, WriteU32, Wrap64;
    var f := ReadU32(h, h.pc);
    SameStore(h, f.hart, f.value, v);
    StoreRuns(f.hart, f.value, v);
    TohostWrite(f.hart, v);
  }

  lemma SameStore(h: Hart, f: Hart, insn: Word, v: Word)
    requires CanFetch(h) && f == ReadU32(h, h.pc).hart
    ensures StoresWord(h, insn, v) == StoresWord(f, insn, v)
  {
    hide ReadU32, ReadU16, ReadU8, WriteU32, WriteU16, WriteU8, ImmS, CLwOffset, CSwspOffset;
    AccessKeepsRegisters(h, h.pc, 0);
  }

  /** Instruction t of a batch is what Turn does to the state after the t before it. */
  lemma {:induction false} BatchTurn(h: Hart, n: nat, t: nat)
    requires t < n && |RunBatch(h, t).trace| == t
    ensures match Turn(RunBatch(h, t).hart)
            case Ended(last) => RunBatch(h, n) == Batch(last, RunBatch(h, t).trace)
            case Turned(next, retired) => RunBatch(h, t + 1) == Batch(next, RunBatch(h, t).trace + [retired])
    decreases t
  {
    hide Turn;
    if t > 0 {
      BatchTurn(Turn(h).hart, n - 1, t - 1);
    } else if Turn(h).Turned? {
      assert RunBatch(Turn(h).hart, 0) == Batch(Turn(h).hart, []);
    }
  }

  /** Once a batch has halted the hart, the rest of that batch does nothing. */
  lemma {:induction false} HaltEndsBatch(h: Hart, n: nat, t: nat)
    requires t <= n && RunBatch(h, t).hart.htif.halted
    ensures RunBatch(h, n) == RunBatch(h, t)
    decreases t
  {
    hide Turn;
    if t == 0 {
      HaltedTurn(h);
    } else if Turn(h).Turned? {
      HaltEndsBatch(Turn(h).hart, n - 1, t - 1);
    }
  }

  /** An odd word stored to tohost by instruction t of a batch halts the hart with the upper bits as exit code,
      and that store is the last thing the batch does. */
  lemma OddTohostHalts(h: Hart, n: nat, t: nat, v: Word)
    requires t < n && |RunBatch(h, t).trace| == t && StoresTohost(RunBatch(h, t).hart, v) && v % 2 == 1
    ensures var last := RunBatch(h, n).hart; last.htif.halted && last.htif.exit && last.htif.exitCode == v / 2
    ensures RunBatch(h, n) == RunBatch(h, t + 1) && |RunBatch(h, n).trace| == t + 1
  {
    hide Turn, StoresTohost;
    TohostTurn(RunBatch(h, t).hart, v);
    BatchTurn(h, n, t);
    HaltEndsBatch(h, n, t + 1);
  }

  /** A halted hart only takes interrupts: no register, RAM byte, HTIF field (the exit code
      among them), device register or cycle count changes again, and nothing retires. */
  lemma {:induction false} HaltIsAbsorbing(h: Hart, calls: seq<Call>, k: nat)
    requires h.htif.halted && k <= |calls|
    ensures var s := StateAt(h, calls, k);
            && s.htif == h.htif && s.regs == h.regs && s.ram == h.ram && s.dev == h.dev
            && s.csr.mcycle == h.csr.mcycle
    ensures forall i :: 0 <= i < k ==> CallAt(h, calls, i).trace == []
  {
    hide Turn;
    if k > 0 {
      var s := StateAt(h, calls, k - 1);
      HaltIsAbsorbing(h, calls, k - 1);
      HaltedTurn(s);
    }
  }

  lemma HaltedTurn(h: Hart)
    requires h.htif.halted
    ensures Turn(h) == Ended(h)
  {
    hide Execute.Execute, ReadU32;
  }

  // ----- x0 over runs -----

  /** x0 reads as zero after any series of rv_step and rv_set_irq calls. */
  lemma {:induction false} ZeroRegisterRuns(h: Hart, calls: seq<Call>, k: nat)
    requires h.regs[0] == 0 && k <= |calls|
    ensures StateAt(h, calls, k).regs[0] == 0
    decreases k
  {
    hide RunBatch;
    if k > 0 {
      ZeroRegisterRuns(h, calls, k - 1);
      match calls[k - 1]
      case StepCall(n) => if n > 0 { ZeroRegisterBatch(StateAt(h, calls, k - 1), n); }
      case _ =>
    }
  }

  // ----- interrupts -----

  function PopCount(x: nat): nat
  {
    if x == 0 then 0 else x % 2 + PopCount(x / 2)
  }

  lemma {:induction false} AndPow2(x: nat, c: nat)
    ensures And(x, Pow2(c)) == if Bit(x, c) then Pow2(c) else 0
  {
    if x == 0 {
      ZeroBit(c);
    } else if c > 0 {
      AndPow2(x / 2, c - 1);
      assert Pow2(c) / 2 == Pow2(c - 1);
    }
  }

  /** Taking away a set bit clears that bit only, and one from the population count. */
  lemma {:induction false} MinusBit(x: nat, c: nat)
    requires Bit(x, c)
    ensures Pow2(c) <= x && PopCount(x - Pow2(c)) == PopCount(x) - 1
    ensures forall j: nat :: Bit(x - Pow2(c), j) <==> Bit(x, j) && j != c
  {
    if c > 0 {
      MinusBit(x / 2, c - 1);
      var y := x - Pow2(c);
      assert y / 2 == x / 2 - Pow2(c - 1) && y % 2 == x % 2;
      forall j: nat ensures Bit(y, j) <==> Bit(x, j) && j != c {
        if j > 0 {
          assert Bit(y / 2, j - 1) <==> Bit(x / 2, j - 1) && j - 1 != c - 1;
        }
      }
    } else {
      assert (x - 1) / 2 == x / 2 && (x - 1) % 2 == 0;
      forall j: nat ensures Bit(x - 1, j) <==> Bit(x, j) && j != 0 {
      }
    }
  }

  /** Clearing the lowest bit of irq & mie in irq takes just that bit out of irq & mie. */
  lemma PendingAfterClear(irq: Word, mie: Word)
    requires And(irq, mie) != 0
    ensures var p := And(irq, mie);
            && Bit(irq, Ctz(p)) && Bit(p, Ctz(p)) && ClearBit(irq, Ctz(p)) == irq - Pow2(Ctz(p))
            && And(ClearBit(irq, Ctz(p)), mie) == p - Pow2(Ctz(p))
  {
    var p := And(irq, mie);
    var c := Ctz(p);
    hide And, Ctz, Bit, Pow2, PopCount;
    CtzIsLowest(p);
    AndBit(irq, mie, c);
    AndPow2(irq, c);
    MinusBit(irq, c);
    MinusBit(p, c);
    var next := irq - Pow2(c);
    forall j: nat ensures Bit(And(next, mie), j) == Bit(p - Pow2(c), j) {
      AndBit(next, mie, j);
      AndBit(irq, mie, j);
    }
    BitsDetermine(And(next, mie), p - Pow2(c));
  }

  /** A dispatch clears exactly the lowest pending enabled bit. */
  lemma DispatchClearsOneBit(h: Hart)
    requires CanDispatch(h)
    ensures var next := Dispatch(h);
            && Bit(h.irq, Cause(h)) && next.irq == h.irq - Pow2(Cause(h))
            && (forall j: nat :: Bit(next.irq, j) <==> Bit(h.irq, j) && j != Cause(h))
            && (forall j: nat :: Bit(Pending(next), j) ==> Bit(Pending(h), j) && j > Cause(h))
            && PopCount(Pending(next)) == PopCount(Pending(h)) - 1
            && next.csr.mie == h.csr.mie && !MieSet(next.csr.mstatus)
  {
    hide And, Ctz, Bit, Pow2, PopCount, TrapVector, ClearBit;
    PendingAfterClear(h.irq, h.csr.mie);
    MinusBit(h.irq, Cause(h));
    var p := Pending(h);
    MinusBit(p, Cause(h));
    CtzIsLowest(p);
    forall j: nat | Bit(Pending(Dispatch(h)), j) ensures Bit(p, j) && j > Cause(h) {
      assert Bit(p - Pow2(Cause(h)), j);
    }
  }

  /** A run of rv_step calls during which mie stays the same, on a register-file device. */
  ghost predicate StepsOnly(h: Hart, calls: seq<Call>)
  {
    && h.dev.Registers?
    && (forall i :: 0 <= i < |calls| ==> calls[i].StepCall?)
    && (forall i :: 0 <= i <= |calls| ==> StateAt(h, calls, i).csr.mie == h.csr.mie)
  }

  ghost predicate DispatchedAt(h: Hart, calls: seq<Call>, k: nat)
    requires k < |calls|
  {
    CallAt(h, calls, k).cause.Some?
  }

  /** What one rv_step call does to mcycle, and to the mask when the device is a register file. */
  lemma StepFrame(h: Hart, max: int)
    ensures var s := RvStep(h, max);
            && (h.dev.Registers? ==> s.hart.dev.Registers? && (s.cause.None? ==> s.hart.irq == h.irq))
            && (s.cause.Some? ==> CanDispatch(h) && s.hart == Dispatch(h) && s.cause.value == Cause(h) && s.trace == []
                                  && s.count == 1)
            && s.hart.csr.mcycle == Wrap64(h.csr.mcycle + s.count - (if s.cause.Some? then 1 else 0))
            && (s.cause.None? ==> s.count == |s.trace|)
  {
    hide RunBatch, Dispatch, Cause, CanDispatch, Wrap64;
    Wrap64Same(h.csr.mcycle);
    if max > 0 {
      BatchFrame(h, max);
    }
    assert CanDispatch(h) ==> Dispatch(h).dev == h.dev && Dispatch(h).csr.mcycle == h.csr.mcycle by {
      DispatchKeeps(h);
    }
  }

  lemma DispatchKeeps(h: Hart)
    ensures CanDispatch(h) ==> Dispatch(h).dev == h.dev && Dispatch(h).csr.mcycle == h.csr.mcycle
  {
    hide ClearBit, Cause, TrapVector;
  }

  /** Dispatches among the first k calls. */
  function DispatchCount(h: Hart, calls: seq<Call>, k: nat): nat
    requires k <= |calls|
  {
    if k == 0 then 0
    else DispatchCount(h, calls, k - 1) + (if CallAt(h, calls, k - 1).cause.Some? then 1 else 0)
  }

  /** Sum of the values returned by the first k calls. */
  function ReturnSum(h: Hart, calls: seq<Call>, k: nat): nat
    requires k <= |calls|
  {
    if k == 0 then 0 else ReturnSum(h, calls, k - 1) + CallAt(h, calls, k - 1).count
  }

  /** Each dispatch uses up one enabled pending bit, so there are never more of them than bits. */
  lemma {:induction false} DispatchesConsumePending(h: Hart, calls: seq<Call>, k: nat)
    requires StepsOnly(h, calls) && k <= |calls|
    ensures StateAt(h, calls, k).dev.Registers?
    ensures DispatchCount(h, calls, k) + PopCount(Pending(StateAt(h, calls, k))) == PopCount(Pending(h))
  {
    hide RvStep, PopCount, Dispatch, CanDispatch, Cause, And;
    if k > 0 {
      DispatchesConsumePending(h, calls, k - 1);
      var s := StateAt(h, calls, k - 1);
      assert calls[k - 1].StepCall? && StateAt(h, calls, k).csr.mie == h.csr.mie && s.csr.mie == h.csr.mie;
      StepFrame(s, calls[k - 1].max);
      if CallAt(h, calls, k - 1).cause.Some? {
        DispatchClearsOneBit(s);
      }
    }
  }

  /** Pending bits only disappear, and after a dispatch only higher ones are left. */
  lemma {:induction false} PendingShrinks(h: Hart, calls: seq<Call>, i: nat, j: nat)
    requires StepsOnly(h, calls) && i <= j <= |calls|
    ensures forall b: nat :: Bit(Pending(StateAt(h, calls, j)), b) ==> Bit(Pending(StateAt(h, calls, i)), b)
    decreases j
  {
    hide RvStep, PopCount, Dispatch, CanDispatch, Cause, And, Bit;
    if i < j {
      PendingShrinks(h, calls, i, j - 1);
      var s := StateAt(h, calls, j - 1);
      assert calls[j - 1].StepCall? && StateAt(h, calls, j).csr.mie == h.csr.mie && s.csr.mie == h.csr.mie;
      DispatchesConsumePending(h, calls, j - 1);
      StepFrame(s, calls[j - 1].max);
      if CallAt(h, calls, j - 1).cause.Some? {
        DispatchClearsOneBit(s);
      }
    }
  }

  /** Dispatch causes strictly increase over the run. */
  lemma CausesIncrease(h: Hart, calls: seq<Call>, i: nat, j: nat)
    requires StepsOnly(h, calls) && i < j < |calls|
    requires DispatchedAt(h, calls, i) && DispatchedAt(h, calls, j)
    ensures CallAt(h, calls, i).cause.value < CallAt(h, calls, j).cause.value
  {
    hide RvStep, PopCount, Dispatch, And, Bit;
    var s, t := StateAt(h, calls, i), StateAt(h, calls, j);
    DispatchesConsumePending(h, calls, i);
    DispatchesConsumePending(h, calls, j);
    assert calls[i].StepCall? && calls[j].StepCall?;
    StepFrame(s, calls[i].max);
    StepFrame(t, calls[j].max);
    DispatchClearsOneBit(s);
    CtzIsLowest(Pending(t));
    PendingShrinks(h, calls, i + 1, j);
    assert Bit(Pending(StateAt(h, calls, i + 1)), Cause(t));
  }

  /** Values returned count retired instructions and dispatches: their sum is the growth of
      mcycle plus the number of dispatches. */
  lemma {:induction false} ReturnsAreCyclesAndDispatches(h: Hart, calls: seq<Call>, k: nat)
    requires k <= |calls|
    ensures DispatchCount(h, calls, k) <= ReturnSum(h, calls, k)
    ensures StateAt(h, calls, k).csr.mcycle
            == Wrap64(h.csr.mcycle + ReturnSum(h, calls, k) - DispatchCount(h, calls, k))
  {
    hide RvStep, Wrap64;
    Wrap64Same(h.csr.mcycle);
    if k > 0 {
      ReturnsAreCyclesAndDispatches(h, calls, k - 1);
      var gained := ReturnSum(h, calls, k - 1) - DispatchCount(h, calls, k - 1);
      var s := CallAt(h, calls, k - 1);
      Wrap64Add(h.csr.mcycle + gained, s.count - (if s.cause.Some? then 1 else 0));
      if calls[k - 1].StepCall? {
        StepFrame(StateAt(h, calls, k - 1), calls[k - 1].max);
      }
    }
  }

  // ----- no nesting -----

  /** Instruction t of the batch of length n turned MIE on. */
  ghost predicate TurnsMieOn(h: Hart, n: nat, t: nat)
  {
    && t < |RunBatch(h, n).trace| && SetsMie(RunBatch(h, n).trace[t].insn)
    && !MieSet(RunBatch(h, t).hart.csr.mstatus) && MieSet(RunBatch(h, t + 1).hart.csr.mstatus)
  }

  /** Call k of a run was a batch in which some instruction turned MIE on. */
  ghost predicate CallTurnsMieOn(h: Hart, calls: seq<Call>, k: nat)
    requires k < |calls|
  {
    && calls[k].StepCall? && calls[k].max > 0
    && CallAt(h, calls, k).trace == RunBatch(StateAt(h, calls, k), calls[k].max).trace
    && exists t: nat :: TurnsMieOn(StateAt(h, calls, k), calls[k].max, t)
  }

  lemma {:induction false} BatchTurnsMieOn(h: Hart, n: nat) returns (t: nat)
    requires !MieSet(h.csr.mstatus) && MieSet(RunBatch(h, n).hart.csr.mstatus)
    ensures TurnsMieOn(h, n, t)
    decreases n
  {
    hide Turn, SetsMie, MieSet;
    TurnFrame(h);
    assert n > 0 && Turn(h).Turned?;
    var next := Turn(h).hart;
    if MieSet(next.csr.mstatus) {
      t := 0;
      assert RunBatch(next, 0).hart == next;
    } else {
      var u := BatchTurnsMieOn(next, n - 1);
      t := u + 1;
    }
  }

  lemma {:induction false} RunTurnsMieOn(h: Hart, calls: seq<Call>, i: nat, j: nat)
    requires i <= j <= |calls|
    requires !MieSet(StateAt(h, calls, i).csr.mstatus) && MieSet(StateAt(h, calls, j).csr.mstatus)
    ensures exists k :: i <= k < j && CallTurnsMieOn(h, calls, k)
    decreases j
  {
    hide RunBatch, MieSet, SetsMie, Dispatch, Cause, TurnsMieOn;
    if i < j {
      var s := StateAt(h, calls, j - 1);
      if MieSet(s.csr.mstatus) {
        RunTurnsMieOn(h, calls, i, j - 1);
      } else {
        assert calls[j - 1].StepCall? && calls[j - 1].max > 0;
        var t := BatchTurnsMieOn(s, calls[j - 1].max);
        assert CallTurnsMieOn(h, calls, j - 1);
      }
    }
  }

  /** Interrupts never nest: between two dispatches some retired MRET or mstatus access turned MIE from clear
      to set. */
  lemma DispatchesNeverNest(h: Hart, calls: seq<Call>, i: nat, j: nat)
    requires i < j < |calls|
    requires DispatchedAt(h, calls, i) && DispatchedAt(h, calls, j)
    ensures exists k :: i < k < j && CallTurnsMieOn(h, calls, k)
  {
    hide RunBatch, SetsMie, Dispatch, And;
    var s, t := StateAt(h, calls, i), StateAt(h, calls, j);
    assert calls[i].StepCall? && calls[j].StepCall?;
    StepFrame(s, calls[i].max);
    StepFrame(t, calls[j].max);
    DispatchClearsOneBit(s);
    RunTurnsMieOn(h, calls, i + 1, j);
  }

  // ----- what reaches the profiler -----

  /** Only MRET retires without being recorded. */
  lemma OnlyMretIsUnrecorded(h: Hart)
    requires Turn(h).Turned?
    ensures Turn(h).retired.event.None? <==> Turn(h).retired.insn == MRET
  {
    hide ReadU32, Execute32, Execute16, Wrap64;
    var f := ReadU32(h, h.pc);
    if f.value % 4 == 3 {
      WordRecorded(f.hart, f.value);
    }
  }

  lemma WordRecorded(h: Hart, insn: Word)
    requires Execute32(h, insn).Retire?
    ensures Execute32(h, insn).event.None? <==> insn == MRET
  {
    hide ComputeInsn, LoadInsn, StoreInsn, TransferInsn, WriteReg, WriteCsr, ReadCsr, CsrValue, SetMie, MieSet, Wrap;
    AccessRecorded(h, insn);
    ComputeRecorded(h, insn);
    TransferRecorded(h, insn);
  }

  lemma TransferRecorded(h: Hart, insn: Word)
    ensures TransferInsn(h, insn).Retire? && TransferInsn(h, insn).event.Some?
  {
    hide WriteReg, Taken, ImmB, ImmI, ImmJ, Wrap;
  }

  lemma AccessRecorded(h: Hart, insn: Word)
    ensures LoadInsn(h, insn).Retire? && LoadInsn(h, insn).event == Some(Load)
    ensures StoreInsn(h, insn).Retire? && StoreInsn(h, insn).event == Some(Store)
  {
    hide LoadFrom, StoreTo;
  }

  lemma ComputeRecorded(h: Hart, insn: Word)
    ensures ComputeInsn(h, insn).Retire? && ComputeInsn(h, insn).event.Some?
  {
    hide MulDiv, AluOp, AluImm;
  }

  function Mrets(trace: seq<Retired>): nat
    decreases |trace|
  {
    if trace == [] then 0
    else Mrets(trace[..|trace| - 1]) + (if trace[|trace| - 1].insn == MRET then 1 else 0)
  }

  ghost predicate RecordedButMret(trace: seq<Retired>)
  {
    forall i :: 0 <= i < |trace| ==> (trace[i].event.None? <==> trace[i].insn == MRET)
  }

  lemma {:induction false} BatchRecordsButMret(h: Hart, n: nat)
    ensures RecordedButMret(RunBatch(h, n).trace)
    decreases n
  {
    hide Turn;
    if n > 0 && Turn(h).Turned? {
      OnlyMretIsUnrecorded(h);
      BatchRecordsButMret(Turn(h).hart, n - 1);
    }
  }

  lemma {:induction false} EventsAndMrets(trace: seq<Retired>)
    requires RecordedButMret(trace)
    ensures |EventsOf(trace)| + Mrets(trace) == |trace|
    decreases |trace|
  {
    if trace != [] {
      EventsAndMrets(trace[..|trace| - 1]);
    }
  }

  /** Events handed to the profiler, and MRETs executed, by the first k calls. */
  function EventTotal(h: Hart, calls: seq<Call>, k: nat): nat
    requires k <= |calls|
  {
    if k == 0 then 0 else EventTotal(h, calls, k - 1) + |EventsOf(CallAt(h, calls, k - 1).trace)|
  }

  function MretTotal(h: Hart, calls: seq<Call>, k: nat): nat
    requires k <= |calls|
  {
    if k == 0 then 0 else MretTotal(h, calls, k - 1) + Mrets(CallAt(h, calls, k - 1).trace)
  }

  lemma StepRecords(h: Hart, max: int)
    ensures var s := RvStep(h, max);
            s.hart.csr.mcycle == Wrap64(h.csr.mcycle + |EventsOf(s.trace)| + Mrets(s.trace))
  {
    hide RunBatch, Dispatch, CanDispatch, Cause, Wrap64;
    Wrap64Same(h.csr.mcycle);
    StepFrame(h, max);
    if max > 0 {
      BatchRecordsButMret(h, max);
      EventsAndMrets(RunBatch(h, max).trace);
    }
  }

  /** Recorded instructions are the growth of mcycle less the executed MRETs. */
  lemma {:induction false} RecordedIsCyclesLessMrets(h: Hart, calls: seq<Call>, k: nat)
    requires k <= |calls|
    ensures StateAt(h, calls, k).csr.mcycle
            == Wrap64(h.csr.mcycle + EventTotal(h, calls, k) + MretTotal(h, calls, k))
  {
    hide RvStep, Wrap64, EventsOf, Mrets;
    Wrap64Same(h.csr.mcycle);
    if k > 0 {
      RecordedIsCyclesLessMrets(h, calls, k - 1);
      var trace := CallAt(h, calls, k - 1).trace;
      Wrap64Add(h.csr.mcycle + EventTotal(h, calls, k - 1) + MretTotal(h, calls, k - 1), |EventsOf(trace)| + Mrets(trace));
      NoEvents();
      var s := StateAt(h, calls, k - 1);
      if calls[k - 1].StepCall? {
        StepRecords(s, calls[k - 1].max);
      }
    }
  }

  lemma NoEvents()
    ensures EventsOf([]) == [] && Mrets([]) == 0
  {
  }
}
