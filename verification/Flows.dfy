/** The profiler's classification of control transfers against what the instructions do: a call writes a link register
    in every state, a return goes through x1 and links nothing. */
module Flows {
  import opened Words
  import opened Isa
  import opened HartState
  import opened Execute
  import opened Profiles
  import opened Step
  import Rv32i
  import Compressed

  const WORD := 0x1_0000_0000

  function Even(x: int): int { x - x % 2 }

  // ----- 32-bit instructions -----

  /** In every state the instruction leaves the address after it in register r. */
  ghost predicate Links(insn: Word, r: nat)
  {
    0 < r < 32 && forall h: Hart :: Execute32(h, insn).Retire? && Execute32(h, insn).hart.regs[r] == (h.pc + 4) % WORD
  }

  ghost predicate IsCall(insn: Word) { exists r: nat :: Links(insn, r) }

  /** In every state it goes to x1 plus a constant, lowest bit cleared. */
  ghost predicate GoesThroughRa(insn: Word, imm: int)
  {
    forall h: Hart :: Execute32(h, insn).Retire? && Execute32(h, insn).hart.pc == Even((h.regs[1] + imm) % WORD)
  }

  ghost predicate IsReturn(insn: Word) { !IsCall(insn) && exists imm: int :: GoesThroughRa(insn, imm) }

  /** In every state it retires as a jump. */
  ghost predicate IsJump(insn: Word)
  {
    forall h: Hart :: Execute32(h, insn).Retire? && Execute32(h, insn).event == Some(Jump)
  }

  lemma ReadsIgnorePc(h: Hart, addr: Word, p: Word)
    ensures var g := h.(pc := p);
            && ReadU8(g, addr).value == ReadU8(h, addr).value && ReadU8(g, addr).hart.regs == h.regs
            && ReadU16(g, addr).value == ReadU16(h, addr).value && ReadU16(g, addr).hart.regs == h.regs
            && ReadU32(g, addr).value == ReadU32(h, addr).value && ReadU32(g, addr).hart.regs == h.regs
    ensures ReadU8(h, addr).hart.regs == ReadU16(h, addr).hart.regs == ReadU32(h, addr).hart.regs == h.regs
  {
    hide ReadDevice, Peek16, Peek32;
  }

  lemma StoresKeepRegs(h: Hart, addr: Word, v: Word)
    ensures WriteU8(h, addr, v % 0x100).regs == WriteU16(h, addr, v % 0x1_0000).regs == WriteU32(h, addr, v).regs == h.regs
  {
    hide ReadDevice, WriteDevice, MergeByte, MergeHalf, Poke16, Poke32;
  }

  lemma LoadsIgnorePc(h: Hart, funct3: nat, addr: Word, p: Word)
    ensures LoadFrom(h.(pc := p), funct3, addr).value == LoadFrom(h, funct3, addr).value
    ensures LoadFrom(h.(pc := p), funct3, addr).hart.regs == LoadFrom(h, funct3, addr).hart.regs == h.regs
  {
    ReadsIgnorePc(h, addr, p);
    hide ReadU8, ReadU16, ReadU32, SignExtend;
  }

  lemma StoreToKeepsRegs(h: Hart, funct3: nat, addr: Word, v: Word)
    ensures StoreTo(h, funct3, addr, v).regs == h.regs
  {
    StoresKeepRegs(h, addr, v);
    hide WriteU8, WriteU16, WriteU32;
  }

  lemma CsrsIgnorePc(h: Hart, insn: Word, p: Word)
    requires Opcode(insn) == 0x73 && Execute32(h, insn).Retire? && Execute32(h.(pc := p), insn).Retire?
    ensures Execute32(h.(pc := p), insn).hart.regs == Execute32(h, insn).hart.regs
  {
    hide Opcode, Rd, Rs1, Funct3, CsrAddr, CsrValue, ComputeInsn, LoadInsn, StoreInsn, TransferInsn;
  }

  lemma ComputingIgnoresPc(h: Hart, insn: Word, p: Word)
    requires Opcode(insn) !in {0x03, 0x23, 0x63, 0x6F, 0x67, 0x73, 0x17}
    ensures Execute32(h, insn).Retire? && Execute32(h.(pc := p), insn).Retire?
    ensures Execute32(h.(pc := p), insn).hart.regs == Execute32(h, insn).hart.regs
  {
    hide Opcode, Rd, Rs1, Rs2, Funct3, Funct7, CsrAddr, ImmI, ImmU, AluOp, AluImm, MulDiv, LoadInsn, StoreInsn,
         TransferInsn, System;
  }

  lemma LoadRegs(h: Hart, insn: Word)
    requires Opcode(insn) == 0x03
    ensures Execute32(h, insn).Retire?
    ensures var loaded := LoadFrom(h, Funct3(insn), Wrap(h.regs[Rs1(insn)] + ImmI(insn)));
            Execute32(h, insn).hart.regs == WriteReg(loaded.hart, Rd(insn), loaded.value).regs
  {
    hide Wrap, Opcode, Rd, Rs1, Funct3, ImmI, LoadFrom, StoreInsn, TransferInsn, System, ComputeInsn, WriteReg;
  }

  lemma StoreRegs(h: Hart, insn: Word)
    requires Opcode(insn) == 0x23
    ensures Execute32(h, insn).Retire? && Execute32(h, insn).hart.regs == h.regs
  {
    StoreToKeepsRegs(h, Funct3(insn), Wrap(h.regs[Rs1(insn)] + ImmS(insn)), h.regs[Rs2(insn)]);
    hide Wrap, Opcode, Rd, Rs1, Rs2, Funct3, ImmS, StoreTo, LoadInsn, TransferInsn, System, ComputeInsn;
  }

  lemma BranchRegs(h: Hart, insn: Word)
    requires Opcode(insn) == 0x63
    ensures Execute32(h, insn).Retire? && Execute32(h, insn).hart.regs == h.regs
  {
    hide Wrap, Opcode, Rd, Rs1, Rs2, Funct3, ImmI, ImmB, ImmJ, StoreInsn, LoadInsn, System, ComputeInsn, WriteReg, Taken;
  }

  lemma AccessIgnoresPc(h: Hart, insn: Word, p: Word)
    requires Opcode(insn) in {0x03, 0x23, 0x63}
    ensures Execute32(h, insn).Retire? && Execute32(h.(pc := p), insn).Retire?
    ensures Execute32(h.(pc := p), insn).hart.regs == Execute32(h, insn).hart.regs
  {
    assert Rd(insn) < 32 && Rs1(insn) < 32;
    hide LoadFrom, Execute32, Opcode, Funct3, Rs1, Rd, ImmI, Wrap, WriteReg;
    var g := h.(pc := p);
    if Opcode(insn) == 0x03 {
      LoadRegs(h, insn);
      LoadRegs(g, insn);
      var addr, f := Wrap(h.regs[Rs1(insn)] + ImmI(insn)), Funct3(insn);
      LoadsIgnorePc(h, f, addr, p);
      SameWrite(LoadFrom(h, f, addr).hart, LoadFrom(g, f, addr).hart, Rd(insn), LoadFrom(h, f, addr).value);
    } else if Opcode(insn) == 0x23 {
      StoreRegs(h, insn);
      StoreRegs(g, insn);
    } else {
      BranchRegs(h, insn);
      BranchRegs(g, insn);
    }
  }

  lemma SameWrite(h: Hart, g: Hart, rd: nat, v: Word)
    requires h.regs == g.regs && rd < 32
    ensures WriteReg(h, rd, v).regs == WriteReg(g, rd, v).regs
  {
  }

  /** Except for jumps and AUIPC the registers after an instruction do not depend on where it stands. */
  lemma RegsIgnorePc(h: Hart, insn: Word, p: Word)
    requires Opcode(insn) !in {0x6F, 0x67, 0x17}
    requires Execute32(h, insn).Retire? && Execute32(h.(pc := p), insn).Retire?
    ensures Execute32(h.(pc := p), insn).hart.regs == Execute32(h, insn).hart.regs
  {
    hide Opcode, Execute32;
    if Opcode(insn) == 0x73 {
      CsrsIgnorePc(h, insn, p);
    } else if Opcode(insn) in {0x03, 0x23, 0x63} {
      AccessIgnoresPc(h, insn, p);
    } else {
      ComputingIgnoresPc(h, insn, p);
    }
  }

  /** Where an instruction goes when it is no JALR. */
  lemma Targets(h: Hart, insn: Word)
    requires Opcode(insn) != 0x67 && Execute32(h, insn).Retire?
    ensures var next := Execute32(h, insn).hart.pc;
            next in {(h.pc + 4) % WORD, (h.pc + ImmB(insn)) % WORD, (h.pc + ImmJ(insn)) % WORD, h.csr.mepc}
  {
    hide Opcode, Rd, Rs1, Rs2, Funct3, Funct7, CsrAddr, ImmI, ImmS, ImmB, ImmJ, ImmU, AluOp, AluImm, MulDiv, CsrValue,
         LoadFrom, StoreTo, Taken;
  }

  lemma JumpsRetire(h: Hart, insn: Word)
    ensures Opcode(insn) in {0x6F, 0x67} ==> Execute32(h, insn).Retire? && Execute32(h, insn).event == Some(Jump)
    ensures Opcode(insn) !in {0x6F, 0x67} ==> !(Execute32(h, insn).Retire? && Execute32(h, insn).event == Some(Jump))
    ensures Opcode(insn) == 0x67 ==> Execute32(h, insn).hart.pc == Even((h.regs[Rs1(insn)] + ImmI(insn)) % WORD)
    ensures Opcode(insn) in {0x6F, 0x67} ==>
              Execute32(h, insn).hart.regs == if Rd(insn) == 0 then h.regs else h.regs[Rd(insn) := (h.pc + 4) % WORD]
  {
    hide Opcode, Rd, Rs1, Execute32;
    if Opcode(insn) in {0x6F, 0x67} {
      JumpFields(h, insn);
    } else {
      OthersAreNoJumps(h, insn);
    }
  }

  lemma JumpFields(h: Hart, insn: Word)
    requires Opcode(insn) in {0x6F, 0x67}
    ensures Execute32(h, insn).Retire? && Execute32(h, insn).event == Some(Jump)
    ensures Opcode(insn) == 0x67 ==> Execute32(h, insn).hart.pc == Even((h.regs[Rs1(insn)] + ImmI(insn)) % WORD)
    ensures Execute32(h, insn).hart.regs == if Rd(insn) == 0 then h.regs else h.regs[Rd(insn) := (h.pc + 4) % WORD]
  {
    hide Opcode, Rd, Rs1, Rs2, Funct3, ImmI, ImmB, ImmJ, Taken, LoadInsn, StoreInsn, System, ComputeInsn;
  }

  lemma OthersAreNoJumps(h: Hart, insn: Word)
    requires Opcode(insn) !in {0x6F, 0x67}
    ensures !(Execute32(h, insn).Retire? && Execute32(h, insn).event == Some(Jump))
  {
    hide Opcode, Rd, Rs1, Rs2, Funct3, Funct7, CsrAddr, ImmI, ImmS, ImmB, ImmJ, ImmU, AluOp, AluImm, MulDiv, CsrValue,
         LoadFrom, StoreTo, Taken, SetPc, WriteReg, WriteOption, WriteCsr, ReadCsr, SetMie, MieSet;
  }

  /** AUIPC never leaves the address after itself. */
  lemma AuipcIsNoLink(h: Hart, insn: Word)
    requires Opcode(insn) == 0x17
    ensures Execute32(h, insn).Retire?
    ensures Execute32(h, insn).hart.regs
            == if Rd(insn) == 0 then h.regs else h.regs[Rd(insn) := (h.pc + ImmU(insn)) % WORD]
    ensures (h.pc + ImmU(insn)) % WORD != (h.pc + 4) % WORD
  {
    hide Execute32, ImmU;
    AuipcWrites(h, insn);
    UpperIsNotFour(insn, h.pc);
  }

  lemma AuipcWrites(h: Hart, insn: Word)
    requires Opcode(insn) == 0x17
    ensures Execute32(h, insn).Retire?
    ensures Execute32(h, insn).hart.regs
            == if Rd(insn) == 0 then h.regs else h.regs[Rd(insn) := (h.pc + ImmU(insn)) % WORD]
  {
    hide Opcode, Rs1, Rs2, Funct3, ImmU, LoadInsn, StoreInsn, TransferInsn, System, AluOp, AluImm, MulDiv;
  }

  lemma UpperIsNotFour(insn: Word, pc: Word)
    ensures (pc + ImmU(insn)) % WORD != (pc + 4) % WORD
  {
    var u := insn / 0x1000;
    assert ImmU(insn) == u * 0x1000;
    assert u * 0x1000 - 4 == (u - 1) * 0x1000 + (0x1000 - 4);
    Euclid(u - 1, 0x1000, 0x1000 - 4);
    if (pc + u * 0x1000) % WORD == (pc + 4) % WORD {
      SameModulo(pc + u * 0x1000, pc + 4);
    }
  }

  lemma SameModulo(x: int, y: int)
    requires x % WORD == y % WORD
    ensures (x - y) % 4096 == 0
  {
    var q := (x / WORD - y / WORD) * 0x10_0000;
    assert x == x / WORD * WORD + x % WORD && y == y / WORD * WORD + y % WORD;
    Euclid(q, 4096, 0);
  }

  /** A state at p whose registers are zero but for x1, and whose mepc is zero. */
  function At(h: Hart, p: Word, ra: Word): Hart
  {
    h.(pc := p, csr := h.csr.(mepc := 0),
       regs := [0, ra, 0, 0, 0, 0, 0, 0, 0, 0, 0, 0, 0, 0, 0, 0, 0, 0, 0, 0, 0, 0, 0, 0, 0, 0, 0, 0, 0, 0, 0, 0])
  }

  lemma AtFields(h: Hart, p: Word, ra: Word)
    ensures var g := At(h, p, ra); g.pc == p && g.csr.mepc == 0 && g.regs[1] == ra && g == At(h, 0, ra).(pc := p)
    ensures forall i :: 0 <= i < 32 && i != 1 ==> At(h, p, ra).regs[i] == 0
  {
  }

  lemma LinkerIsCall(insn: Word)
    requires Opcode(insn) in {0x6F, 0x67} && Rd(insn) != 0
    ensures IsCall(insn)
  {
    var r := Rd(insn);
    assert r < 32;
    hide Opcode, Rd, Execute32;
    forall h: Hart ensures Execute32(h, insn).Retire? && Execute32(h, insn).hart.regs[r] == (h.pc + 4) % WORD {
      JumpsRetire(h, insn);
    }
    assert Links(insn, r);
  }

  lemma OnlyLinkersCall(insn: Word, r: nat)
    requires Links(insn, r)
    ensures Opcode(insn) in {0x6F, 0x67} && Rd(insn) != 0
  {
    var h: Hart := *;
    var g, k := At(h, 0, 0), At(h, 8, 0);
    AtFields(h, 0, 0);
    AtFields(h, 8, 0);
    assert Rd(insn) < 32;
    hide Opcode, Rd, Execute32, At;
    assert Execute32(g, insn).hart.regs[r] == 4 && Execute32(k, insn).hart.regs[r] == 12;
    if Opcode(insn) in {0x6F, 0x67} {
      JumpsRetire(g, insn);
    } else if Opcode(insn) == 0x17 {
      AuipcIsNoLink(g, insn);
    } else {
      RegsIgnorePc(g, insn, 8);
    }
  }

  /** Calls are JAL and JALR with a link register. */
  lemma CallsIff(insn: Word)
    ensures IsCall(insn) <==> Opcode(insn) in {0x6F, 0x67} && Rd(insn) != 0
  {
    hide Opcode, Rd, Links;
    if IsCall(insn) {
      var r: nat :| Links(insn, r);
      OnlyLinkersCall(insn, r);
    } else if Opcode(insn) in {0x6F, 0x67} && Rd(insn) != 0 {
      LinkerIsCall(insn);
    }
  }

  lemma JalrGoesThrough(insn: Word)
    requires Opcode(insn) == 0x67 && Rs1(insn) == 1
    ensures GoesThroughRa(insn, ImmI(insn))
  {
    hide Opcode, Rs1, ImmI, Execute32;
    forall h: Hart
      ensures Execute32(h, insn).Retire? && Execute32(h, insn).hart.pc == Even((h.regs[1] + ImmI(insn)) % WORD)
    {
      JumpsRetire(h, insn);
    }
  }

  /** An instruction that goes through x1 reaches any even address, so it is no branch, no JAL and no MRET. */
  lemma OnlyJalrGoesThrough(insn: Word, imm: int)
    requires GoesThroughRa(insn, imm)
    ensures Opcode(insn) == 0x67 && Rs1(insn) == 1
  {
    var h: Hart := *;
    assert Rs1(insn) < 32;
    hide Opcode, Rs1, ImmI, ImmB, ImmJ, Execute32;
    if Opcode(insn) != 0x67 || Rs1(insn) != 1 {
      Reaches(h, insn, imm, 2);
      Reaches(h, insn, imm, 6);
      Reaches(h, insn, imm, 8);
      Reaches(h, insn, imm, 10);
      assert false;
    }
  }

  /** With x1 chosen so, the instruction goes to t, which is one of a few places. */
  lemma Reaches(h: Hart, insn: Word, imm: int, t: Word)
    requires GoesThroughRa(insn, imm) && t % 2 == 0 && !(Opcode(insn) == 0x67 && Rs1(insn) == 1)
    ensures t in {4, ImmB(insn), ImmJ(insn), 0} || (Opcode(insn) == 0x67 && t == Even(ImmI(insn)))
  {
    hide Execute32, GoesThroughRa, ImmB, ImmJ, ImmI;
    var ra := (t - imm) % WORD;
    ThereAndBack(t, imm);
    assert Even(t) == t && Rs1(insn) < 32;
    ReachesBy(At(h, 0, ra), insn, imm, t, ra) by {
      AtFields(h, 0, ra);
    }
  }

  lemma ReachesBy(g: Hart, insn: Word, imm: int, t: Word, ra: Word)
    requires GoesThroughRa(insn, imm) && Even(t) == t && (ra + imm) % WORD == t
    requires g.pc == 0 && g.csr.mepc == 0 && g.regs[1] == ra
    requires Rs1(insn) < 32 && (Opcode(insn) == 0x67 ==> g.regs[Rs1(insn)] == 0)
    ensures t in {4, ImmB(insn), ImmJ(insn), 0} || (Opcode(insn) == 0x67 && t == Even(ImmI(insn)))
  {
    hide *;
    GoesTo(g, insn, imm);
    FewPlaces(g, insn);
  }

  lemma FewPlaces(g: Hart, insn: Word)
    requires g.pc == 0 && g.csr.mepc == 0 && Execute32(g, insn).Retire?
    requires Opcode(insn) == 0x67 ==> Rs1(insn) < 32 && g.regs[Rs1(insn)] == 0
    ensures var t := Execute32(g, insn).hart.pc;
            t in {4, ImmB(insn), ImmJ(insn), 0} || (Opcode(insn) == 0x67 && t == Even(ImmI(insn)))
  {
    hide Opcode, Rs1, ImmI, ImmB, ImmJ, Execute32;
    if Opcode(insn) == 0x67 {
      JumpsRetire(g, insn);
    } else {
      Targets(g, insn);
    }
  }

  lemma GoesTo(h: Hart, insn: Word, imm: int)
    requires GoesThroughRa(insn, imm)
    ensures Execute32(h, insn).Retire? && Execute32(h, insn).hart.pc == Even((h.regs[1] + imm) % WORD)
  {
    hide Execute32;
  }

  lemma ThereAndBack(t: Word, imm: int)
    ensures ((t - imm) % WORD + imm) % WORD == t
  {
  }

  /** Returns are JALR through x1 without a link register. */
  lemma ReturnsIff(insn: Word)
    ensures IsReturn(insn) <==> Opcode(insn) == 0x67 && Rd(insn) == 0 && Rs1(insn) == 1
  {
    hide Opcode, Rd, Rs1, ImmI, IsCall, GoesThroughRa;
    CallsIff(insn);
    if IsReturn(insn) {
      var imm: int :| GoesThroughRa(insn, imm);
      OnlyJalrGoesThrough(insn, imm);
    } else if Opcode(insn) == 0x67 && Rs1(insn) == 1 {
      JalrGoesThrough(insn);
    }
  }

  lemma JumpShows(h: Hart, insn: Word)
    requires IsJump(insn)
    ensures Execute32(h, insn).Retire? && Execute32(h, insn).event == Some(Jump)
  {
    hide Execute32;
  }

  lemma JumpsIff(insn: Word)
    ensures IsJump(insn) <==> Opcode(insn) in {0x6F, 0x67}
  {
    hide Opcode, Execute32;
    if Opcode(insn) in {0x6F, 0x67} {
      forall g: Hart ensures Execute32(g, insn).Retire? && Execute32(g, insn).event == Some(Jump) {
        JumpsRetire(g, insn);
      }
      assert IsJump(insn);
    } else {
      var h: Hart := *;
      JumpsRetire(h, insn);
      if IsJump(insn) {
        JumpShows(h, insn);
      }
    }
  }

  /** The class of every 32-bit instruction is what it does. */
  lemma Flow32(insn: Word)
    ensures Classify32(insn) == CallFlow <==> IsCall(insn)
    ensures Classify32(insn) == RetFlow <==> IsReturn(insn)
    ensures Classify32(insn) == JumpFlow <==> IsJump(insn) && !IsCall(insn) && !IsReturn(insn)
  {
    CallsIff(insn);
    ReturnsIff(insn);
    JumpsIff(insn);
    hide Opcode, Rd, Rs1, IsCall, IsReturn, IsJump;
  }

  // ----- compressed instructions -----

  ghost predicate Links16(c: Half, r: nat)
  {
    0 < r < 32 && forall h: Hart :: Execute16(h, c).Some? && Execute16(h, c).value.regs[r] == (h.pc + 2) % WORD
  }

  ghost predicate IsCall16(c: Half) { exists r: nat :: Links16(c, r) }

  ghost predicate GoesThroughRa16(c: Half)
  {
    forall h: Hart :: Execute16(h, c).Some? && Execute16(h, c).value.pc == h.regs[1]
  }

  ghost predicate IsReturn16(c: Half) { !IsCall16(c) && GoesThroughRa16(c) }

  predicate IsJal16(c: Half) { c % 4 == 1 && CFunct3(c) == 1 }

  predicate IsJr16(c: Half) { c % 4 == 2 && CFunct4(c) == 8 && CRs2(c) == 0 && CRd(c) != 0 }

  predicate IsJalr16(c: Half) { c % 4 == 2 && CFunct4(c) == 9 && CRs2(c) == 0 && CRd(c) != 0 }

  lemma JumpFunct3(c: Half)
    ensures CFunct3(c) == 4 <==> CFunct4(c) == 8 || CFunct4(c) == 9
  {
  }

  lemma Links16Do(h: Hart, c: Half)
    ensures IsJal16(c) || IsJalr16(c) ==> Execute16(h, c).Some? && Execute16(h, c).value.regs[1] == (h.pc + 2) % WORD
    ensures IsJr16(c) ==> Execute16(h, c) == Some(h.(pc := h.regs[CRd(c)]))
  {
    JumpFunct3(c);
    hide CBit, CJumpOffset, CRd, CRs2, CRs1Prime, CRs2Prime, CFunct3, CFunct4;
  }

  lemma Regs16IgnorePc(h: Hart, c: Half, p: Word)
    requires !IsJal16(c) && !IsJalr16(c) && Execute16(h, c).Some? && Execute16(h.(pc := p), c).Some?
    ensures Execute16(h.(pc := p), c).value.regs == Execute16(h, c).value.regs
  {
    if c % 4 == 0 {
      Regs0IgnorePc(h, c, p);
    } else if c % 4 == 1 {
      Regs1IgnorePc(h, c, p);
    } else {
      Regs2IgnorePc(h, c, p);
    }
    hide Quadrant0, Quadrant1, Quadrant2;
  }

  /** A load into a register, wherever the instruction stands. */
  lemma LoadIgnoresPc(h: Hart, addr: Word, rd: nat, p: Word)
    requires rd < 32
    ensures WriteReg(ReadU32(h.(pc := p), addr).hart, rd, ReadU32(h.(pc := p), addr).value).regs
            == WriteReg(ReadU32(h, addr).hart, rd, ReadU32(h, addr).value).regs
  {
    ReadsIgnorePc(h, addr, p);
    hide ReadU8, ReadU16, ReadU32;
  }

  lemma StoreWordKeepsRegs(h: Hart, addr: Word, v: Word)
    ensures WriteU32(h, addr, v).regs == h.regs
  {
    StoresKeepRegs(h, addr, v);
    hide WriteU8, WriteU16, WriteU32;
  }

  lemma Regs0IgnorePc(h: Hart, c: Half, p: Word)
    requires Quadrant0(h, c).Some? && Quadrant0(h.(pc := p), c).Some?
    ensures Quadrant0(h.(pc := p), c).value.regs == Quadrant0(h, c).value.regs
  {
    hide ReadU32, WriteU32, CLwOffset, CAddi4spnImm, CFunct3, Wrap;
    var g, addr := h.(pc := p), Wrap(h.regs[CRs1Prime(c)] + CLwOffset(c));
    if CFunct3(c) == 2 {
      LoadIgnoresPc(h, addr, CRs2Prime(c), p);
    } else if CFunct3(c) == 6 {
      StoreWordKeepsRegs(h, addr, h.regs[CRs2Prime(c)]);
      StoreWordKeepsRegs(g, addr, h.regs[CRs2Prime(c)]);
    }
  }

  lemma Regs1IgnorePc(h: Hart, c: Half, p: Word)
    requires CFunct3(c) != 1 && Quadrant1(h, c).Some? && Quadrant1(h.(pc := p), c).Some?
    ensures Quadrant1(h.(pc := p), c).value.regs == Quadrant1(h, c).value.regs
  {
    hide CFunct3, CImm6, CJumpOffset, CBranchOffset, CAddi16spImm, CShamt, CBit, ShiftRight, ShiftRightArith, And, OrWord,
         XorWord, Wrap;
  }

  lemma Regs2IgnorePc(h: Hart, c: Half, p: Word)
    requires !(CFunct4(c) == 9 && CRs2(c) == 0 && CRd(c) != 0)
    requires Quadrant2(h, c).Some? && Quadrant2(h.(pc := p), c).Some?
    ensures Quadrant2(h.(pc := p), c).value.regs == Quadrant2(h, c).value.regs
  {
    hide ReadU32, WriteU32, CLwspOffset, CSwspOffset, CFunct3, CFunct4, CRs2, CRd, ShiftLeft, Wrap, CShamt;
    RdBound(c);
    var g := h.(pc := p);
    if CFunct3(c) == 2 {
      LoadIgnoresPc(h, Wrap(h.regs[2] + CLwspOffset(c)), CRd(c), p);
    } else if CFunct3(c) == 6 {
      StoreWordKeepsRegs(h, Wrap(h.regs[2] + CSwspOffset(c)), h.regs[CRd(c)]);
      StoreWordKeepsRegs(g, Wrap(h.regs[2] + CSwspOffset(c)), h.regs[CRd(c)]);
    } else {
      MoveIgnoresPc(h, c, p);
    }
  }

  lemma MoveIgnoresPc(h: Hart, c: Half, p: Word)
    requires CFunct3(c) != 2 && CFunct3(c) != 6 && !(CFunct4(c) == 9 && CRs2(c) == 0 && CRd(c) != 0)
    requires Quadrant2(h, c).Some? && Quadrant2(h.(pc := p), c).Some?
    ensures Quadrant2(h.(pc := p), c).value.regs == Quadrant2(h, c).value.regs
  {
    JumpFunct3(c);
    hide ReadU32, WriteU32, CShamt, ShiftLeft, Wrap, CFunct3, CFunct4, CRd, CRs2;
  }

  lemma Targets0(h: Hart, c: Half)
    requires Quadrant0(h, c).Some?
    ensures Quadrant0(h, c).value.pc == h.pc
  {
    Compressed.AccessKeepsPc(h, Wrap(h.regs[CRs1Prime(c)] + CLwOffset(c)), h.regs[CRs2Prime(c)]);
    hide ReadU32, WriteU32, CLwOffset, CAddi4spnImm, CFunct3, Wrap;
  }

  lemma Targets1(h: Hart, c: Half)
    requires Quadrant1(h, c).Some?
    ensures Quadrant1(h, c).value.pc in {h.pc, (h.pc + CJumpOffset(c)) % WORD, (h.pc + CBranchOffset(c)) % WORD}
  {
    hide CFunct3, CImm6, CJumpOffset, CBranchOffset, CAddi16spImm, CShamt, CBit, ShiftRight, ShiftRightArith, And, OrWord,
         XorWord;
  }

  lemma Targets2(h: Hart, c: Half)
    requires !(CRs2(c) == 0 && CRd(c) != 0 && CFunct3(c) == 4) && Quadrant2(h, c).Some?
    ensures Quadrant2(h, c).value.pc == h.pc
  {
    hide ReadU32, WriteU32, CLwspOffset, CSwspOffset, CShamt, ShiftLeft, Wrap, CFunct3, CFunct4, CRd, CRs2;
    RdBound(c);
    if CFunct3(c) == 2 {
      Compressed.AccessKeepsPc(h, Wrap(h.regs[2] + CLwspOffset(c)), 0);
    } else if CFunct3(c) == 6 {
      Compressed.AccessKeepsPc(h, Wrap(h.regs[2] + CSwspOffset(c)), h.regs[CRd(c)]);
    }
  }

  lemma Targets16(h: Hart, c: Half)
    requires !IsJr16(c) && !IsJalr16(c) && Execute16(h, c).Some?
    ensures Execute16(h, c).value.pc in {h.pc, (h.pc + CJumpOffset(c)) % WORD, (h.pc + CBranchOffset(c)) % WORD}
  {
    JumpFunct3(c);
    hide Quadrant0, Quadrant1, Quadrant2, CFunct3, CFunct4, CRd, CRs2, CJumpOffset, CBranchOffset;
    if c % 4 == 0 {
      Targets0(h, c);
    } else if c % 4 == 1 {
      Targets1(h, c);
    } else {
      Targets2(h, c);
    }
  }

  lemma OnlyLinkersCall16(c: Half, r: nat)
    requires Links16(c, r)
    ensures IsJal16(c) || IsJalr16(c)
  {
    hide Execute16, At, IsJal16, IsJalr16;
    var h: Hart := *;
    var g, k := At(h, 0, 0), At(h, 8, 0);
    AtFields(h, 0, 0);
    AtFields(h, 8, 0);
    assert Execute16(g, c).value.regs[r] == 2 && Execute16(k, c).value.regs[r] == 10;
    if !IsJal16(c) && !IsJalr16(c) {
      Regs16IgnorePc(g, c, 8);
    }
  }

  /** C.JAL and C.JALR are the calls. */
  lemma Calls16Iff(c: Half)
    ensures IsCall16(c) <==> IsJal16(c) || IsJalr16(c)
  {
    hide Execute16, IsJal16, IsJalr16;
    if IsJal16(c) || IsJalr16(c) {
      forall h: Hart ensures Execute16(h, c).Some? && Execute16(h, c).value.regs[1] == (h.pc + 2) % WORD {
        Links16Do(h, c);
      }
      assert Links16(c, 1);
    } else if IsCall16(c) {
      var r: nat :| Links16(c, r);
      OnlyLinkersCall16(c, r);
    }
  }

  lemma GoesTo16(h: Hart, c: Half)
    requires GoesThroughRa16(c)
    ensures Execute16(h, c).Some? && Execute16(h, c).value.pc == h.regs[1]
  {
    hide Execute16;
  }

  lemma RdBound(c: Half)
    ensures CRd(c) < 32
  {
  }

  lemma Reaches16(h: Hart, c: Half, t: Word)
    requires GoesThroughRa16(c) && !IsJalr16(c) && !(IsJr16(c) && CRd(c) == 1)
    ensures t in {0, CJumpOffset(c), CBranchOffset(c)}
  {
    hide Execute16, GoesThroughRa16, IsJr16, IsJalr16, CRd, CJumpOffset, CBranchOffset, At;
    RdBound(c);
    var g := At(h, 0, t);
    AtFields(h, 0, t);
    GoesTo16(g, c);
    if IsJr16(c) {
      Links16Do(g, c);
    } else {
      Targets16(g, c);
    }
  }

  /** C.JR through x1 is the return. */
  lemma Returns16Iff(c: Half)
    ensures IsReturn16(c) <==> IsJr16(c) && CRd(c) == 1
  {
    Calls16Iff(c);
    if IsJr16(c) {
      JrIsNoCall(c);
    }
    hide Execute16, IsCall16, IsJr16, IsJalr16, IsJal16, CRd, CJumpOffset, CBranchOffset, GoesThroughRa16;
    if IsJr16(c) && CRd(c) == 1 {
      JrGoesThrough(c);
    } else if IsReturn16(c) {
      var h: Hart := *;
      Reaches16(h, c, 2);
      Reaches16(h, c, 4);
      Reaches16(h, c, 6);
    }
  }

  lemma JrIsNoCall(c: Half)
    requires IsJr16(c)
    ensures !IsJal16(c) && !IsJalr16(c)
  {
  }

  lemma JrGoesThrough(c: Half)
    requires IsJr16(c) && CRd(c) == 1
    ensures GoesThroughRa16(c)
  {
    hide Execute16, IsJr16, CRd;
    forall h: Hart ensures Execute16(h, c).Some? && Execute16(h, c).value.pc == h.regs[1] {
      Links16Do(h, c);
    }
  }

  /** The class of every compressed instruction is what it does; C.EBREAK, which is classed as a call, never retires. */
  lemma Flow16(c: Half)
    ensures Classify16(c) == CallFlow <==> IsCall16(c) || c == 0x9002
    ensures Classify16(c) == RetFlow <==> IsReturn16(c)
  {
    Calls16Iff(c);
    Returns16Iff(c);
    hide IsCall16, IsReturn16;
  }

  // ----- recorded events -----

  /** The instruction of an event as a 32-bit word: a compressed one by its expansion. */
  function Expanded(e: Event): Option<Word>
  {
    if e.kind == InsnType.Compressed then Compressed.Expand(e.insn % 0x1_0000) else Some(e.insn)
  }

  ghost predicate Returns(e: Event) { Expanded(e).Some? && IsReturn(Expanded(e).value) }

  /** Calls, and jumps without a link that are no return. */
  ghost predicate Transfers(e: Event) { Expanded(e).Some? && IsJump(Expanded(e).value) && !IsReturn(Expanded(e).value) }

  /** A compressed event is of an instruction that retires in some state; others can be any word. */
  ghost predicate Executed(e: Event)
  {
    e.kind == InsnType.Compressed ==> exists h: Hart :: Execute16(h, e.insn % 0x1_0000).Some?
  }

  lemma PlainWord(w: Word)
    requires Opcode(w) !in {0x6F, 0x67}
    ensures Classify32(w) == Plain
  {
  }

  lemma Plain0(c: Half)
    requires c % 4 == 0 && Compressed.Expand0(c).Some?
    ensures Classify32(Compressed.Expand0(c).value) == Plain
  {
    hide EncodeI, EncodeS, Opcode, ImmI, ImmS, SignExtend, CAddi4spnImm, Compressed.Lw, CFunct3, Classify32;
    var w, base, r := Compressed.Expand0(c).value, CRs1Prime(c), CRs2Prime(c);
    Compressed.ImmediateBounds(c);
    Compressed.Addi4spnSmall(c);
    DecodeI(CAddi4spnImm(c), 2, 0, r, 0x13);
    DecodeI(Compressed.Lw(c), base, 2, r, 0x03);
    DecodeS(Compressed.Lw(c), r, base, 2);
    PlainWord(w);
  }

  lemma PlainAlu(c: Half)
    requires Compressed.ExpandAlu(c).Some?
    ensures Classify32(Compressed.ExpandAlu(c).value) == Plain
  {
    hide EncodeI, EncodeR, Opcode, ImmI, SignExtend, Compressed.Imm6, Compressed.Widen, Classify32;
    var w, rd, rs2 := Compressed.ExpandAlu(c).value, CRs1Prime(c), CRs2Prime(c);
    Compressed.ImmediateBounds(c);
    if c / 0x400 % 4 == 3 {
      DecodeR(0x20, rs2, rd, 0, rd, 0x33);
      DecodeR(0, rs2, rd, 4, rd, 0x33);
      DecodeR(0, rs2, rd, 6, rd, 0x33);
      DecodeR(0, rs2, rd, 7, rd, 0x33);
    } else {
      DecodeI(Compressed.Imm6(c), rd, 5, rd, 0x13);
      DecodeI(0x400 + Compressed.Imm6(c), rd, 5, rd, 0x13);
      DecodeI(Compressed.Widen(Compressed.Imm6(c), 64, 0x1000), rd, 7, rd, 0x13);
    }
    PlainWord(w);
  }

  lemma Flow1(c: Half)
    requires c % 4 == 1 && Compressed.Expand1(c).Some?
    ensures Classify32(Compressed.Expand1(c).value)
            == if CFunct3(c) == 1 then CallFlow else if CFunct3(c) == 5 then JumpFlow else Plain
  {
    var w, rd := Compressed.Expand1(c).value, CRd(c);
    Compressed.ImmediateBounds(c);
    Compressed.JumpEven(c);
    var j := Compressed.Widen(Compressed.Jump(c), 0x1000, 0x20_0000);
    var b := Compressed.Widen(Compressed.Branch(c), 512, 0x2000);
    assert j % 2 == 0 && b % 2 == 0;
    hide EncodeI, EncodeJ, EncodeB, EncodeU, Opcode, Rd, Rs1, ImmI, ImmJ, ImmB, ImmU, SignExtend, Compressed.ExpandAlu,
         Compressed.Imm6, Compressed.Jump, Compressed.Branch, Compressed.Addi16sp, Compressed.Widen, CFunct3;
    if CFunct3(c) == 4 {
      PlainAlu(c);
    } else if CFunct3(c) == 1 {
      DecodeJ(j, 1);
    } else if CFunct3(c) == 5 {
      DecodeJ(j, 0);
    } else if CFunct3(c) >= 6 {
      DecodeB(b, 0, CRs1Prime(c), if CFunct3(c) == 6 then 0 else 1);
    } else if CFunct3(c) == 3 {
      DecodeI(Compressed.Widen(Compressed.Addi16sp(c), 1024, 0x1000), 2, 0, 2, 0x13);
      DecodeU(Compressed.Widen(Compressed.Imm6(c), 64, 0x10_0000), rd, 0x37);
    } else {
      DecodeI(Compressed.Widen(Compressed.Imm6(c), 64, 0x1000), if CFunct3(c) == 0 then rd else 0, 0, rd, 0x13);
    }
  }

  lemma Flow2(c: Half)
    requires c % 4 == 2 && Compressed.Expand2(c).Some? && c != 0x9002
    ensures Classify32(Compressed.Expand2(c).value)
            == if IsJr16(c) then (if CRd(c) == 1 then RetFlow else JumpFlow) else if IsJalr16(c) then CallFlow else Plain
  {
    var w, rd, rs2 := Compressed.Expand2(c).value, CRd(c), CRs2(c);
    Compressed.ImmediateBounds(c);
    JumpFunct3(c);
    BreakWord(c);
    assert CFunct3(c) == 4 ==> CFunct4(c) == 8 + CBit(c, 0x1000);
    hide EncodeI, EncodeR, EncodeS, Opcode, Rd, Rs1, ImmI, ImmS, SignExtend, Compressed.Imm6, Compressed.Lwsp,
         Compressed.Swsp, CFunct3, CFunct4, CBit, CRd, CRs2;
    if CFunct3(c) == 4 {
      DecodeR(0, rs2, 0, 0, rd, 0x33);
      DecodeR(0, rs2, rd, 0, rd, 0x33);
      DecodeI(0, rd, 0, 0, 0x67);
      DecodeI(0, rd, 0, 1, 0x67);
    } else if CFunct3(c) == 6 {
      DecodeS(Compressed.Swsp(c), rs2, 2, 2);
    } else {
      DecodeI(Compressed.Imm6(c), rd, 1, rd, 0x13);
      DecodeI(Compressed.Lwsp(c), 2, 2, rd, 0x03);
    }
  }

  lemma BreakWord(c: Half)
    ensures c % 4 == 2 && CFunct4(c) == 9 && CRs2(c) == 0 && CRd(c) == 0 ==> c == 0x9002
  {
    assert c == c / 0x1000 * 0x1000 + c / 0x80 % 32 * 0x80 + c / 4 % 32 * 4 + c % 4;
  }

  /** Both classifiers agree across expansion, but for C.EBREAK. */
  lemma ClassifiersAgree(c: Half)
    requires c != 0x9002
    ensures Compressed.Expand(c).Some? ==> Classify16(c) == Classify32(Compressed.Expand(c).value)
  {
    if Compressed.Expand(c).Some? {
      if c % 4 == 0 {
        Plain0(c);
      } else if c % 4 == 1 {
        Flow1(c);
      } else {
        Flow2(c);
        Class2(c);
      }
    }
    hide Compressed.Expand0, Compressed.Expand1, Compressed.Expand2, Classify32;
  }

  lemma Class2(c: Half)
    requires c % 4 == 2 && c != 0x9002 && Compressed.Expand2(c).Some?
    ensures Classify16(c)
            == if IsJr16(c) then (if CRd(c) == 1 then RetFlow else JumpFlow) else if IsJalr16(c) then CallFlow else Plain
  {
    JumpFunct3(c);
    BreakWord(c);
    assert CFunct3(c) == 4 ==> CFunct4(c) == 8 + CBit(c, 0x1000);
    hide EncodeI, EncodeR, EncodeS, Compressed.Imm6, Compressed.Lwsp, Compressed.Swsp, CFunct3, CFunct4, CBit, CRd, CRs2;
  }

  /** A word without expansion that retires all the same is no transfer. */
  lemma ReservedIsPlain(h: Hart, c: Half)
    requires Compressed.Expand(c).None? && Execute16(h, c).Some?
    ensures Classify16(c) == Plain
  {
    Compressed.ReservedStops(h, c);
    JumpFunct3(c);
    hide Compressed.Expand, Execute16;
  }

  lemma BreakStops(h: Hart)
    ensures Execute16(h, 0x9002).None?
  {
  }

  /** The class of every recorded instruction is what it does. */
  lemma FlowMeans(e: Event)
    requires Executed(e)
    ensures FlowOf(e) == RetFlow <==> Returns(e)
    ensures FlowOf(e) == CallFlow || FlowOf(e) == JumpFlow <==> Transfers(e)
  {
    hide Classify16, Classify32, IsReturn, IsJump, IsCall, Execute16, Compressed.Expand;
    if e.kind == InsnType.Compressed {
      var c: Half := e.insn % 0x1_0000;
      var h: Hart :| Execute16(h, c).Some?;
      BreakStops(h);
      ClassifiersAgree(c);
      if Compressed.Expand(c).Some? {
        Flow32(Compressed.Expand(c).value);
        CallsAreJumps(Compressed.Expand(c).value);
      } else {
        ReservedIsPlain(h, c);
      }
    } else {
      Flow32(e.insn);
      CallsAreJumps(e.insn);
    }
  }

  lemma CallsAreJumps(insn: Word)
    ensures IsCall(insn) || IsReturn(insn) ==> IsJump(insn)
    ensures !(IsCall(insn) && IsReturn(insn))
  {
    CallsIff(insn);
    ReturnsIff(insn);
    JumpsIff(insn);
    hide Opcode, Rd, Rs1, IsCall, IsJump;
  }

  ghost predicate Genuine(r: Retired) { forall e :: e in EventOf(r) ==> Executed(e) }

  lemma TurnIsGenuine(h: Hart)
    requires Turn(h).Turned?
    ensures Genuine(Turn(h).retired)
  {
    hide Execute16, Execute32, ReadU32, CanFetch;
    var fetched := ReadU32(h, h.pc);
    forall e | e in EventOf(Turn(h).retired) ensures Executed(e) {
      if e.kind == InsnType.Compressed && fetched.value % 4 == 3 {
        NoCompressed32(fetched.hart, fetched.value);
      }
      assert e.kind == InsnType.Compressed ==> Execute16(fetched.hart, e.insn % 0x1_0000).Some?;
    }
  }

  lemma NoCompressed32(h: Hart, insn: Word)
    ensures Execute32(h, insn).Retire? ==> Execute32(h, insn).event != Some(InsnType.Compressed)
  {
    hide Opcode, Rd, Rs1, Rs2, Funct3, Funct7, CsrAddr, ImmI, ImmS, ImmB, ImmJ, ImmU, AluOp, AluImm, MulDiv, CsrValue,
         LoadFrom, StoreTo, Taken;
  }

  lemma {:induction false} TraceIsGenuine(h: Hart, n: nat)
    ensures forall r :: r in RunBatch(h, n).trace ==> Genuine(r)
    decreases n
  {
    hide Turn, Genuine;
    if n > 0 && Turn(h).Turned? {
      TurnIsGenuine(h);
      TraceIsGenuine(Turn(h).hart, n - 1);
    }
  }

  lemma {:induction false} EventsAreOf(trace: seq<Retired>, e: Event)
    requires e in EventsOf(trace)
    ensures exists r :: r in trace && e in EventOf(r)
    decreases |trace|
  {
    var front, last := trace[..|trace| - 1], trace[|trace| - 1];
    if e in EventOf(last) {
      assert last in trace;
    } else {
      EventsAreOf(front, e);
      var r :| r in front && e in EventOf(r);
      assert r in trace;
    }
  }

  /** What the simulator hands to the profiler has retired. */
  lemma TraceIsExecuted(h: Hart, n: nat)
    ensures forall e :: e in EventsOf(RunBatch(h, n).trace) ==> Executed(e)
  {
    TraceIsGenuine(h, n);
    hide RunBatch, EventOf, Executed;
    forall e | e in EventsOf(RunBatch(h, n).trace) ensures Executed(e) {
      EventsAreOf(RunBatch(h, n).trace, e);
      var r :| r in RunBatch(h, n).trace && e in EventOf(r);
      assert Genuine(r);
    }
  }

  /** An instruction is recorded at its own address with its class and the bytes it was fetched as, two of them when it is
      compressed; MRET is not recorded. */
  lemma TurnIsRecorded(h: Hart)
    requires Turn(h).Turned? && !IsHtif(h.pc) && !IsMmio(h.pc)
    ensures h.base <= h.pc && h.pc - h.base + 4 <= |h.ram|
    ensures var at, kind := h.pc - h.base, Turn(h).retired.event;
            EventOf(Turn(h).retired)
            == match kind
               case None => []
               case Some(k) => [Event(k, h.pc, if k == InsnType.Compressed then Peek16(h.ram, at) else Peek32(h.ram, at))]
    ensures Turn(h).retired.event == None <==> Peek32(h.ram, h.pc - h.base) == MRET
  {
    hide Execute16, Execute32, Peek32, Peek16;
    var w := Peek32(h.ram, h.pc - h.base);
    LowHalf(h.ram, h.pc - h.base);
    assert ReadU32(h, h.pc) == Loaded(h, w);
    OnlyMretIsSilent(h, w);
  }

  lemma LowHalf(ram: Ram, at: nat)
    requires at + 4 <= |ram|
    ensures Peek32(ram, at) % 0x1_0000 == Peek16(ram, at)
  {
    var b0: int, b1: int, b2: int, b3: int := ram[at], ram[at + 1], ram[at + 2], ram[at + 3];
    Euclid(b2 + b3 * 0x100, 0x1_0000, b0 + b1 * 0x100);
  }

  lemma OnlyMretIsSilent(h: Hart, insn: Word)
    ensures MRET % 4 == 3
    ensures Execute32(h, insn).Retire? ==> (Execute32(h, insn).event == None <==> insn == MRET)
  {
    assert Opcode(MRET) == 0x73 && Funct3(MRET) == 0;
    hide Opcode, Rd, Rs1, Rs2, Funct3, Funct7, CsrAddr, ImmI, ImmS, ImmB, ImmJ, ImmU, AluOp, AluImm, MulDiv, CsrValue,
         LoadFrom, StoreTo, Taken;
  }
}
