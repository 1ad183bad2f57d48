/** The simulator as the program holds it: registers, RAM and control state
    updated in place.  Each method is proved equal to the function of modules
    HartState, Execute or Step that specifies it. */
module Iss {
  import opened Words
  import opened Isa
  import opened HartState
  import opened Execute
  import opened Step
  import opened Profiles
  import opened ProfilerObject

  class Simulator {
    const regs: array<Word>
    const memory: array<Byte>
    const memoryBase: Word
    const profiler: Profiler
    var initialized: bool
    var pc: Word
    var irqMask: Word
    var wfiSleep: bool
    var mstatus: Word
    var mtvec: Word
    var mepc: Word
    var mcause: Word
    var mie: Word
    var mcycle: Dword
    var tohostLo: Word
    var tohostHi: Word
    var fromhostLo: Word
    var fromhostHi: Word
    var htifExit: bool
    var htifExitCode: Word
    var htifHalted: bool
    /** What the MMIO callbacks reach. */
    var device: Device

    ghost predicate Shape()
    {
      regs.Length == 32 && memory.Length < 0x1_0000_0000 && (regs as object) != memory
    }

    ghost predicate Valid()
      reads this, profiler
    {
      Shape() && profiler.Valid()
    }

    ghost function CsrsNow(): Csrs
      reads this
    {
      Csrs(mstatus, mtvec, mepc, mcause, mie, mcycle)
    }

    ghost function HtifNow(): Htif
      reads this
    {
      Htif(tohostLo, tohostHi, fromhostLo, fromhostHi, htifExit, htifExitCode, htifHalted)
    }

    ghost function Now(): Hart
      requires Shape()
      reads this, regs, memory
    {
      Hart(initialized, regs[..], memory[..], memoryBase, pc, irqMask, wfiSleep, CsrsNow(), HtifNow(), device)
    }

    /** rv_init_from_buffer: fresh zeroed RAM holding the image, cut off at the end of RAM, and
        the default RAM size when none is given.  The process starts with every other variable
        zero and all interrupts enabled. */
    constructor (image: seq<Byte>, ramSize: Word, device: Device, profiler: Profiler)
      requires profiler.Valid()
      ensures Valid() && this.profiler == profiler && fresh(regs) && fresh(memory)
      ensures var size := if ramSize == 0 then 0x10_0000 else ramSize;
              && memory.Length == size
              && (forall i :: 0 <= i < size ==> memory[i] == if i < |image| then image[i] else 0)
              && Now() == Hart(true, seq(32, _ => 0), memory[..], 0, 0, 0, false, Csrs(0, 0, 0, 0, ALL_ONES, 0),
                               Htif(0, 0, 0, 0, false, 0, false), device)
    {
      var size := if ramSize == 0 then 0x10_0000 else ramSize;
      var ram := new Byte[size](i => if 0 <= i < |image| then image[i] else 0);
      var file := new Word[32](_ => 0);
      regs, memory, memoryBase := file, ram, 0;
      this.profiler, this.device := profiler, device;
      initialized, pc, irqMask, wfiSleep := true, 0, 0, false;
      mstatus, mtvec, mepc, mcause, mie, mcycle := 0, 0, 0, 0, ALL_ONES, 0;
      tohostLo, tohostHi, fromhostLo, fromhostHi := 0, 0, 0, 0;
      htifExit, htifExitCode, htifHalted := false, 0, false;
    }

    // ----- memory system -----

    method WriteReg(rd: nat, value: Word)
      requires Shape() && rd < 32
      modifies regs
      ensures Now() == HartState.WriteReg(old(Now()), rd, value)
    {
      if rd != 0 {
        regs[rd] := value;
      }
    }

    method DpiMmioRead(addr: Word) returns (value: Word)
      requires Shape()
      modifies this`device, this`irqMask
      ensures Loaded(Now(), value) == MmioLoad(old(Now()), addr)
    {
      var r := ReadDevice(device, irqMask, addr);
      device, irqMask, value := r.dev, r.irq, r.value;
    }

    method DpiMmioWrite(addr: Word, value: Word)
      requires Shape()
      modifies this`device, this`irqMask
      ensures Now() == MmioStore(old(Now()), addr, value)
    {
      var w := WriteDevice(device, irqMask, addr, value);
      device, irqMask := w.dev, w.irq;
    }

    method HtifProcessRequest()
      requires Shape()
      modifies this`htifExit, this`htifExitCode, this`htifHalted, this`fromhostLo, this`fromhostHi
      ensures Now() == HtifRequest(old(Now()))
    {
      if tohostLo % 2 == 1 {
        htifExitCode := tohostLo / 2;
        htifExit := true;
        htifHalted := true;
        return;
      }
      if tohostLo == 0 {
        return;
      }
      if tohostLo < memoryBase || tohostLo >= Wrap(memoryBase + memory.Length) {
        return;
      }
      var magic := GuestWord(memory[..], tohostLo - memoryBase);
      if magic != 64 {
        return;
      }
      fromhostLo := 1;
      fromhostHi := 0;
    }

    method ReadU32(addr: Word) returns (value: Word)
      requires Shape()
      modifies this`device, this`irqMask
      ensures Loaded(Now(), value) == HartState.ReadU32(old(Now()), addr)
    {
      if IsHtif(addr) {
        match addr {
          case 0x8000_1008 => return fromhostLo;
          case 0x8000_100C => return fromhostHi;
          case _ => return 0;
        }
      }
      if IsMmio(addr) {
        value := DpiMmioRead(addr);
        return;
      }
      if !InRam(memoryBase, memory.Length, addr, 4) {
        return 0;
      }
      var at := addr - memoryBase;
      return Bytes4(memory[at], memory[at + 1], memory[at + 2], memory[at + 3]);
    }

    method ReadU16(addr: Word) returns (value: Word)
      requires Shape()
      modifies this`device, this`irqMask
      ensures Loaded(Now(), value) == HartState.ReadU16(old(Now()), addr)
    {
      if IsHtif(addr) {
        value := ReadU32(addr);
        return;
      }
      if IsMmio(addr) {
        value := DpiMmioRead(addr - addr % 4);
        if addr % 4 >= 2 {
          value := value / 0x1_0000;
        }
        return;
      }
      if !InRam(memoryBase, memory.Length, addr, 2) {
        return 0;
      }
      return Peek16(memory[..], addr - memoryBase);
    }

    method ReadU8(addr: Word) returns (value: Word)
      requires Shape()
      modifies this`device, this`irqMask
      ensures Loaded(Now(), value) == HartState.ReadU8(old(Now()), addr)
    {
      if IsHtif(addr) {
        value := ReadU32(addr);
        return;
      }
      if IsMmio(addr) {
        value := DpiMmioRead(addr - addr % 4);
        match addr % 4 {
          case 0 =>
          case 1 => value := value / 0x100;
          case 2 => value := value / 0x1_0000;
          case _ => value := value / 0x100_0000;
        }
        return;
      }
      if !InRam(memoryBase, memory.Length, addr, 1) {
        return 0;
      }
      return memory[addr - memoryBase];
    }

    method HtifWrite(addr: Word, value: Word)
      requires Shape()
      modifies this`tohostLo, this`tohostHi, this`fromhostLo, this`fromhostHi
      modifies this`htifExit, this`htifExitCode, this`htifHalted
      ensures Now() == HtifStore(old(Now()), addr, value)
    {
      match addr {
        case 0x8000_1000 =>
          tohostLo := value;
          if value != 0 {
            HtifProcessRequest();
          }
        case 0x8000_1004 => tohostHi := value;
        case 0x8000_1008 => fromhostLo := value;
        case 0x8000_100C => fromhostHi := value;
        case _ =>
      }
    }

    method WriteU32(addr: Word, value: Word)
      requires Shape()
      modifies this, memory
      ensures Now() == HartState.WriteU32(old(Now()), addr, value)
    {
      if IsHtif(addr) {
        HtifWrite(addr, value);
        return;
      }
      if IsMmio(addr) {
        DpiMmioWrite(addr, value);
        return;
      }
      if !InRam(memoryBase, memory.Length, addr, 4) {
        return;
      }
      var at := addr - memoryBase;
      memory[at] := value % 0x100;
      memory[at + 1] := value / 0x100 % 0x100;
      memory[at + 2] := value / 0x1_0000 % 0x100;
      memory[at + 3] := value / 0x100_0000;
    }

    method WriteU16(addr: Word, value: Half)
      requires Shape()
      modifies this, memory
      ensures Now() == HartState.WriteU16(old(Now()), addr, value)
    {
      if IsMmio(addr) {
        var before := DpiMmioRead(addr - addr % 4);
        DpiMmioWrite(addr - addr % 4, MergeHalf(before, addr % 4, value));
        return;
      }
      if !InRam(memoryBase, memory.Length, addr, 2) {
        return;
      }
      var at := addr - memoryBase;
      memory[at] := value % 0x100;
      memory[at + 1] := value / 0x100;
    }

    method WriteU8(addr: Word, value: Byte)
      requires Shape()
      modifies this, memory
      ensures Now() == HartState.WriteU8(old(Now()), addr, value)
    {
      if IsMmio(addr) {
        var before := DpiMmioRead(addr - addr % 4);
        DpiMmioWrite(addr - addr % 4, MergeByte(before, addr % 4, value));
        return;
      }
      if !InRam(memoryBase, memory.Length, addr, 1) {
        return;
      }
      memory[addr - memoryBase] := value;
    }

    // ----- instructions -----

    method WriteOptional(rd: nat, value: Option<Word>)
      requires Shape() && rd < 32
      modifies regs
      ensures Now() == WriteOption(old(Now()), rd, value)
    {
      if value.Some? {
        WriteReg(rd, value.value);
      }
    }

    method ExecuteLoad(funct3: nat, rd: nat, addr: Word)
      requires Shape() && rd < 32
      modifies this`device, this`irqMask, regs
      ensures var r := LoadFrom(old(Now()), funct3, addr); Now() == HartState.WriteReg(r.hart, rd, r.value)
    {
      var data := 0;
      match funct3 {
        case 0 =>
          data := ReadU8(addr);
          data := SignExtend(data, 0x100);
        case 1 =>
          data := ReadU16(addr);
          data := SignExtend(data, 0x1_0000);
        case 2 => data := ReadU32(addr);
        case 4 => data := ReadU8(addr);
        case 5 => data := ReadU16(addr);
        case _ =>
      }
      WriteReg(rd, data);
    }

    method ExecuteStore(funct3: nat, addr: Word, value: Word)
      requires Shape()
      modifies this, memory
      ensures Now() == StoreTo(old(Now()), funct3, addr, value)
    {
      match funct3 {
        case 0 => WriteU8(addr, value % 0x100);
        case 1 => WriteU16(addr, value % 0x1_0000);
        case 2 => WriteU32(addr, value);
        case _ =>
      }
    }

    method WriteCsrField(addr: nat, value: Word)
      requires Shape()
      modifies this`mstatus, this`mie, this`mtvec, this`mepc, this`mcause
      ensures Now() == WriteCsr(old(Now()), addr, value)
    {
      match addr {
        case 0x300 => mstatus := value;
        case 0x304 => mie := value;
        case 0x305 => mtvec := value;
        case 0x341 => mepc := value;
        case 0x342 => mcause := value;
        case _ =>
      }
    }

    method ReadCsrField(addr: nat) returns (value: Word)
      requires Shape()
      ensures value == ReadCsr(Now(), addr)
    {
      match addr {
        case 0x300 => value := mstatus;
        case 0x304 => value := mie;
        case 0x305 => value := mtvec;
        case 0x341 => value := mepc;
        case 0x342 => value := mcause;
        case 0x344 => value := if irqMask / 0x80 % 2 == 1 then 0x80 else 0;
        case 0xB00 => value := Wrap(mcycle);
        case 0xB02 => value := Wrap(mcycle);
        case 0xF12 => value := 1;
        case _ => value := 0;
      }
    }

    /** A SYSTEM instruction.  ok is the C function's result and recorded the class it hands to
        the profiler, if any. */
    method ExecuteSystem(insn: Word) returns (ok: bool, recorded: Option<InsnType>)
      requires Shape()
      modifies this, regs
      ensures (if ok then Retire(Now(), recorded) else Stop(Now())) == System(old(Now()), insn)
      ensures recorded != Some(Compressed)
    {
      recorded := None;
      if Funct3(insn) == 0 {
        if insn == EBREAK || insn == ECALL {
          return false, None;
        }
        if insn == MRET {
          pc := mepc;
          mstatus := SetMie(mstatus);
          return true, None;
        }
        if MieSet(mstatus) && irqMask != 0 {
          pc := Wrap(pc + 4);
          return true, Some(Sys);
        }
        wfiSleep := true;
        return false, None;
      }
      var operand := if Funct3(insn) >= 4 then Rd(insn) else regs[Rs1(insn)];
      var current := ReadCsrField(CsrAddr(insn));
      WriteCsrField(CsrAddr(insn), CsrValue(Funct3(insn), current, operand));
      WriteReg(Rd(insn), current);
      pc := Wrap(pc + 4);
      return true, Some(Csr);
    }

    method ExecuteCompute(insn: Word) returns (recorded: Option<InsnType>)
      requires Shape()
      modifies this`pc, regs
      ensures Retire(Now(), recorded) == ComputeInsn(old(Now()), insn)
      ensures recorded != Some(Compressed)
    {
      var rd, src1, src2 := Rd(insn), regs[Rs1(insn)], regs[Rs2(insn)];
      recorded := Some(Alu);
      match Opcode(insn) {
        case 0x33 =>
          if Funct7(insn) == 1 {
            WriteReg(rd, MulDiv(Funct3(insn), src1, src2));
            recorded := Some(if Funct3(insn) < 4 then Mul else Div);
          } else {
            WriteOptional(rd, AluOp(Funct3(insn), Funct7(insn), src1, src2));
          }
        case 0x13 => WriteOptional(rd, AluImm(Funct3(insn), CsrAddr(insn), src1, ImmI(insn)));
        case 0x37 => WriteReg(rd, ImmU(insn));
        case 0x17 => WriteReg(rd, Wrap(pc + ImmU(insn)));
        case _ =>
      }
      pc := Wrap(pc + 4);
    }

    method ExecuteLoadInsn(insn: Word) returns (recorded: Option<InsnType>)
      requires Shape()
      modifies this`device, this`irqMask, this`pc, regs
      ensures Retire(Now(), recorded) == LoadInsn(old(Now()), insn)
      ensures recorded != Some(Compressed)
    {
      ExecuteLoad(Funct3(insn), Rd(insn), Wrap(regs[Rs1(insn)] + ImmI(insn)));
      pc := Wrap(pc + 4);
      return Some(Load);
    }

    method ExecuteStoreInsn(insn: Word) returns (recorded: Option<InsnType>)
      requires Shape()
      modifies this, memory
      ensures Retire(Now(), recorded) == StoreInsn(old(Now()), insn)
      ensures recorded != Some(Compressed)
    {
      var nextPc := pc + 4;
      ExecuteStore(Funct3(insn), Wrap(regs[Rs1(insn)] + ImmS(insn)), regs[Rs2(insn)]);
      pc := Wrap(nextPc);
      return Some(Store);
    }

    method ExecuteTransfer(insn: Word) returns (recorded: Option<InsnType>)
      requires Shape()
      modifies this`pc, regs
      ensures Retire(Now(), recorded) == TransferInsn(old(Now()), insn)
      ensures recorded != Some(Compressed)
    {
      var rd, src1, src2 := Rd(insn), regs[Rs1(insn)], regs[Rs2(insn)];
      var nextPc := pc + 4;
      recorded := Some(Jump);
      match Opcode(insn) {
        case 0x63 =>
          if Taken(Funct3(insn), src1, src2) {
            nextPc := pc + ImmB(insn);
          }
          recorded := Some(Branch);
        case 0x6F =>
          nextPc := pc + ImmJ(insn);
          WriteReg(rd, Wrap(pc + 4));
        case _ =>
          var target := Wrap(src1 + ImmI(insn));
          nextPc := target - target % 2;
          WriteReg(rd, Wrap(pc + 4));
      }
      pc := Wrap(nextPc);
    }

    /** Everything execute_instruction does but the call of the profiler. */
    method ExecuteDecoded(insn: Word) returns (ok: bool, recorded: Option<InsnType>)
      requires Shape()
      modifies this, regs, memory
      ensures (if ok then Retire(Now(), recorded) else Stop(Now())) == Execute32(old(Now()), insn)
      ensures recorded != Some(Compressed)
    {
      ok := true;
      match Opcode(insn) {
        case 0x03 => recorded := ExecuteLoadInsn(insn);
        case 0x23 => recorded := ExecuteStoreInsn(insn);
        case 0x63 => recorded := ExecuteTransfer(insn);
        case 0x6F => recorded := ExecuteTransfer(insn);
        case 0x67 => recorded := ExecuteTransfer(insn);
        case 0x73 => ok, recorded := ExecuteSystem(insn);
        case _ => recorded := ExecuteCompute(insn);
      }
    }

    method ExecuteInstruction(insn: Word) returns (ok: bool, ghost recorded: Option<InsnType>)
      requires Valid()
      modifies this, regs, memory, profiler
      ensures Valid() && profiler.enabled == old(profiler.enabled)
      ensures (if ok then Retire(Now(), recorded) else Stop(Now())) == Execute32(old(Now()), insn)
      ensures recorded != Some(Compressed)
      ensures profiler.log == old(profiler.log) + (if ok && recorded.Some? && profiler.enabled
                                                   then [Event(recorded.value, old(pc), insn)] else [])
    {
      var at := pc;
      var kind;
      ok, kind := ExecuteDecoded(insn);
      recorded := kind;
      if ok && kind.Some? && profiler.enabled {
        profiler.RecordInsn(kind.value, at, insn);
      }
    }

    method CompressedQuadrant0(c: Half) returns (ok: bool)
      requires Shape()
      modifies this, regs, memory
      ensures var r := Quadrant0(old(Now()), c); ok == r.Some? && Now() == if ok then r.value else old(Now())
    {
      match CFunct3(c) {
        case 0 =>
          if CAddi4spnImm(c) == 0 {
            return false;
          }
          WriteReg(CRs2Prime(c), Wrap(regs[2] + CAddi4spnImm(c)));
          return true;
        case 2 =>
          var value := ReadU32(Wrap(regs[CRs1Prime(c)] + CLwOffset(c)));
          WriteReg(CRs2Prime(c), value);
          return true;
        case 6 =>
          WriteU32(Wrap(regs[CRs1Prime(c)] + CLwOffset(c)), regs[CRs2Prime(c)]);
          return true;
        case _ =>
          return false;
      }
    }

    method CompressedAlu(c: Half) returns (ok: bool)
      requires Shape()
      modifies regs
      ensures var r := Quadrant1Alu(old(Now()), c); ok == r.Some? && Now() == if ok then r.value else old(Now())
    {
      var rd := CRs1Prime(c);
      var a: Word, b: Word := regs[rd], regs[CRs2Prime(c)];
      match c / 0x400 % 4 {
        case 0 =>
          if CShamt(c) != 0 {
            WriteReg(rd, ShiftRight(a, CShamt(c)));
          }
          return true;
        case 1 =>
          if CShamt(c) != 0 {
            WriteReg(rd, ShiftRightArith(a, CShamt(c)));
          }
          return true;
        case 2 =>
          WriteReg(rd, And(a, CImm6(c)));
          return true;
        case _ =>
          if CBit(c, 0x1000) != 0 {
            return false;
          }
          match c / 0x20 % 4 {
            case 0 => WriteReg(rd, Wrap(a as int - b));
            case 1 => WriteReg(rd, XorWord(a, b));
            case 2 => WriteReg(rd, OrWord(a, b));
            case _ => WriteReg(rd, And(a, b));
          }
          return true;
      }
    }

    method CompressedQuadrant1(c: Half) returns (ok: bool)
      requires Shape()
      modifies this`pc, regs
      ensures var r := Quadrant1(old(Now()), c); ok == r.Some? && Now() == if ok then r.value else old(Now())
    {
      ok := true;
      match CFunct3(c) {
        case 0 =>
          if CRd(c) != 0 {
            WriteReg(CRd(c), Wrap(regs[CRd(c)] + CImm6(c)));
          }
        case 1 =>
          WriteReg(1, Wrap(pc + 2));
          pc := Wrap(pc + CJumpOffset(c));
        case 2 =>
          WriteReg(CRd(c), CImm6(c));
        case 3 =>
          if CRd(c) == 2 {
            WriteReg(2, Wrap(regs[2] + CAddi16spImm(c)));
          } else if CRd(c) != 0 {
            var imm := Wrap(CImm6(c) * 0x1000);
            if imm == 0 {
              return false;
            }
            WriteReg(CRd(c), imm);
          }
        case 4 =>
          ok := CompressedAlu(c);
        case 5 =>
          pc := Wrap(pc + CJumpOffset(c));
        case 6 =>
          if regs[CRs1Prime(c)] == 0 {
            pc := Wrap(pc + CBranchOffset(c));
          }
        case _ =>
          if regs[CRs1Prime(c)] != 0 {
            pc := Wrap(pc + CBranchOffset(c));
          }
      }
    }

    method CompressedQuadrant2(c: Half) returns (ok: bool)
      requires Shape()
      modifies this, regs, memory
      ensures var r := Quadrant2(old(Now()), c); ok == r.Some? && Now() == if ok then r.value else old(Now())
    {
      hide HartState.ReadU32, HartState.WriteU32, ShiftLeft, CShamt, CLwspOffset, CSwspOffset, Wrap, CFunct3, CFunct4;
      var rd, rs2 := CRd(c), CRs2(c);
      match CFunct3(c) {
        case 0 =>
          if CShamt(c) != 0 {
            WriteReg(rd, ShiftLeft(regs[rd], CShamt(c)));
          }
          return true;
        case 2 =>
          var value := ReadU32(Wrap(regs[2] + CLwspOffset(c)));
          WriteReg(rd, value);
          return true;
        case 4 =>
          if CFunct4(c) == 8 {
            if rs2 != 0 {
              WriteReg(rd, regs[rs2]);
              return true;
            }
            if rd == 0 {
              return false;
            }
            pc := regs[rd];
            return true;
          }
          if rs2 != 0 {
            WriteReg(rd, Wrap(regs[rd] as int + regs[rs2]));
            return true;
          }
          if rd == 0 {
            return false;
          }
          WriteReg(1, Wrap(pc + 2));
          pc := regs[rd];
          return true;
        case 6 =>
          WriteU32(Wrap(regs[2] + CSwspOffset(c)), regs[rd]);
          return true;
        case _ =>
          return false;
      }
    }

    method ExecuteCompressed(c: Half) returns (ok: bool)
      requires Shape()
      modifies this, regs, memory
      ensures var r := Execute16(old(Now()), c); ok == r.Some? && Now() == if ok then r.value else old(Now())
    {
      match c % 4 {
        case 0 => ok := CompressedQuadrant0(c);
        case 1 => ok := CompressedQuadrant1(c);
        case 2 => ok := CompressedQuadrant2(c);
        case _ => ok := false;
      }
    }

    // ----- rv_step -----

    /** One pass of the profiled loop; 32-bit instructions report themselves. */
    method ProfiledTurn() returns (ok: bool, ghost retired: Retired)
      requires Valid() && profiler.enabled
      requires CanFetch(Now())
      modifies this, regs, memory, profiler
      ensures Valid() && profiler.enabled == old(profiler.enabled)
      ensures (if ok then Turned(Now(), retired) else Ended(Now())) == Turn(old(Now()))
      ensures profiler.log == old(profiler.log) + (if ok then EventOf(retired) else [])
    {
      hide Profiler.Valid, Execute16, Execute32, HartState.ReadU32, Wrap64;
      var insn := ReadU32(pc);
      var pcBefore := pc;
      if insn % 4 != 3 {
        ok := ExecuteCompressed(insn % 0x1_0000);
        retired := Retired(pcBefore, insn, Some(Compressed));
        if !ok {
          return;
        }
        if pc == pcBefore {
          pc := Wrap(pc + 2);
        }
        profiler.RecordInsn(Compressed, pcBefore, insn % 0x1_0000);
      } else {
        ghost var recorded;
        ok, recorded := ExecuteInstruction(insn);
        retired := Retired(pcBefore, insn, recorded);
        if !ok {
          return;
        }
      }
      mcycle := Wrap64(mcycle + 1);
    }

    /** One pass of the unprofiled loop. */
    method PlainTurn() returns (ok: bool, ghost retired: Retired)
      requires Valid() && !profiler.enabled
      requires CanFetch(Now())
      modifies this, regs, memory, profiler
      ensures Valid() && profiler.enabled == old(profiler.enabled)
      ensures (if ok then Turned(Now(), retired) else Ended(Now())) == Turn(old(Now()))
      ensures profiler.log == old(profiler.log)
    {
      hide Profiler.Valid, Execute16, Execute32, HartState.ReadU32, Wrap64;
      var insn := ReadU32(pc);
      var pcBefore := pc;
      if insn % 4 != 3 {
        ok := ExecuteCompressed(insn % 0x1_0000);
        retired := Retired(pcBefore, insn, Some(Compressed));
        if !ok {
          return;
        }
        if pc == pcBefore {
          pc := Wrap(pc + 2);
        }
      } else {
        ghost var recorded;
        ok, recorded := ExecuteInstruction(insn);
        retired := Retired(pcBefore, insn, recorded);
        if !ok {
          return;
        }
      }
      mcycle := Wrap64(mcycle + 1);
    }

    /** The loop of rv_step while profiling. */
    method RunProfiledLoop(maxInstructions: nat) returns (executed: nat, ghost trace: seq<Retired>)
      requires Valid() && profiler.enabled
      modifies this, regs, memory, profiler
      ensures Valid() && profiler.enabled == old(profiler.enabled)
      ensures Batch(Now(), trace) == RunBatch(old(Now()), maxInstructions) && executed == |trace|
      ensures profiler.log == old(profiler.log) + EventsOf(trace)
    {
      hide Profiler.Valid, Execute.Execute;
      executed, trace := 0, [];
      for i := 0 to maxInstructions
        invariant Valid() && profiler.enabled == old(profiler.enabled)
        invariant executed == |trace| == i
        invariant RunBatch(old(Now()), maxInstructions) == Prepend(trace, RunBatch(Now(), maxInstructions - i))
        invariant profiler.log == old(profiler.log) + EventsOf(trace)
      {
        if htifHalted {
          break;
        }
        if !InRam(memoryBase, memory.Length, pc, 4) {
          break;
        }
        ghost var before := Now();
        var ok;
        ghost var retired;
        ok, retired := ProfiledTurn();
        if !ok {
          PrependEnd(trace, before, Now(), maxInstructions - i);
          break;
        }
        executed := executed + 1;
        PrependTurn(trace, before, Now(), retired, maxInstructions - i);
        EventsOfSnoc(trace, retired);
        trace := trace + [retired];
      }
    }

    /** The loop of rv_step otherwise. */
    method RunPlainLoop(maxInstructions: nat) returns (executed: nat, ghost trace: seq<Retired>)
      requires Valid() && !profiler.enabled
      modifies this, regs, memory, profiler
      ensures Valid() && profiler.enabled == old(profiler.enabled)
      ensures Batch(Now(), trace) == RunBatch(old(Now()), maxInstructions) && executed == |trace|
      ensures profiler.log == old(profiler.log)
    {
      hide Profiler.Valid, Execute.Execute;
      executed, trace := 0, [];
      for i := 0 to maxInstructions
        invariant Valid() && profiler.enabled == old(profiler.enabled)
        invariant executed == |trace| == i
        invariant RunBatch(old(Now()), maxInstructions) == Prepend(trace, RunBatch(Now(), maxInstructions - i))
        invariant profiler.log == old(profiler.log)
      {
        if htifHalted {
          break;
        }
        if !InRam(memoryBase, memory.Length, pc, 4) {
          break;
        }
        ghost var before := Now();
        var ok;
        ghost var retired;
        ok, retired := PlainTurn();
        if !ok {
          PrependEnd(trace, before, Now(), maxInstructions - i);
          break;
        }
        executed := executed + 1;
        PrependTurn(trace, before, Now(), retired, maxInstructions - i);
        trace := trace + [retired];
      }
    }

    method Ctz32(x: Word) returns (n: nat)
      ensures x == 0 ==> n == 32
      ensures x != 0 ==> n == Ctz(x)
    {
      if x == 0 {
        return 32;
      }
      n := 0;
      var y := x;
      while y % 2 == 0
        invariant 0 < y && n + Ctz(y) == Ctz(x)
        decreases y
      {
        n := n + 1;
        y := y / 2;
      }
    }

    /** The interrupt entry of rv_step. */
    method TakeInterrupt(pending: Word)
      requires Shape() && pending == Pending(Now()) && CanDispatch(Now())
      modifies this`mcause, this`mepc, this`irqMask, this`mstatus, this`pc
      ensures Now() == Dispatch(old(Now())).(sleeping := wfiSleep)
    {
      hide Ctz, And, AndNot, ClearBit, MieSet, Pow2, ClearMie, Wrap;
      var cause := Ctz32(pending);
      Pow2Word();
      CtzBound(pending, 32);
      mcause := cause;
      mepc := pc;
      irqMask := ClearBit(irqMask, cause);
      mstatus := ClearMie(mstatus);
      if mtvec % 4 != 0 {
        pc := Wrap(mtvec - mtvec % 4 + cause * 4);
      } else {
        pc := Wrap(mtvec - mtvec % 4);
      }
    }

    method RvStep(maxInstructions: int) returns (count: nat, ghost trace: seq<Retired>)
      requires Valid()
      modifies this, regs, memory, profiler
      ensures Valid() && profiler.enabled == old(profiler.enabled)
      ensures var s := Step.RvStep(old(Now()), maxInstructions); Now() == s.hart && count == s.count && trace == s.trace
      ensures profiler.log == old(profiler.log) + (if profiler.enabled then EventsOf(trace) else [])
    {
      hide Profiler.Valid, RunBatch;
      trace := [];
      if !initialized || maxInstructions <= 0 {
        return 0, [];
      }
      var pending := And(irqMask, mie);
      if wfiSleep {
        if pending != 0 && MieSet(mstatus) {
          wfiSleep := false;
        } else {
          return 0, [];
        }
      }
      if pending != 0 && MieSet(mstatus) {
        TakeInterrupt(pending);
        return 1, [];
      }
      if profiler.enabled {
        count, trace := RunProfiledLoop(maxInstructions);
      } else {
        count, trace := RunPlainLoop(maxInstructions);
      }
    }

    method RvSetIrq(mask: Word)
      requires Shape()
      modifies this`irqMask
      ensures Now() == SetIrq(old(Now()), mask)
    {
      irqMask := mask;
    }

    /** rv_reset keeps RAM, HTIF and the trap CSRs. */
    method RvReset(startPc: Word)
      requires Shape()
      modifies this, regs
      ensures var h := old(Now());
              Now() == if !h.initialized then h
                       else h.(regs := seq(32, _ => 0), pc := startPc, irq := 0, sleeping := false,
                               csr := h.csr.(mcycle := 0, mie := ALL_ONES))
    {
      if !initialized {
        return;
      }
      forall i | 0 <= i < regs.Length {
        regs[i] := 0;
      }
      pc, irqMask, wfiSleep, mcycle, mie := startPc, 0, false, 0, ALL_ONES;
    }
  }
}
