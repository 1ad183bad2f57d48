/** The code generator of the standalone test: the pair of instructions load_imm
    emits puts its value into its register, whatever the value. */
module LoadImm {
  import opened Words
  import opened Isa
  import opened HartState
  import opened Execute
  import opened Step

  function MakeAddi(rd: nat, rs1: nat, imm: int): Word
    requires rd < 32 && rs1 < 32
  {
    imm % 0x1000 * 0x10_0000 + rs1 * 0x8000 + rd * 0x80 + 0x13
  }

  /** The shift drops what does not fit 20 bits. */
  function MakeLui(rd: nat, imm20: Word): Word
    requires rd < 32
  {
    assert Wrap(imm20 * 0x1000) == imm20 % 0x10_0000 * 0x1000;
    Wrap(imm20 * 0x1000) + rd * 0x80 + 0x37
  }

  function Upper(value: Word): Word { value / 0x1000 + (if value % 0x1000 >= 0x800 then 1 else 0) }

  /** The low twelve bits as a signed number. */
  function Lower(value: Word): int
  {
    if value % 0x1000 >= 0x800 then value % 0x1000 - 0x1000 else value % 0x1000
  }

  lemma HalvesMakeValue(value: Word)
    ensures Wrap(Upper(value) * 0x1000 + Lower(value)) == value
  {
  }

  method Emit(ram: array<Word>, addr: nat, rd: nat, value: Word) returns (next: nat)
    requires addr + 2 <= ram.Length && rd < 32
    modifies ram
    ensures next == addr + 2
    ensures ram[..] == old(ram[..])[addr := MakeLui(rd, Upper(value))][addr + 1 := MakeAddi(rd, rd, Lower(value))]
  {
    var upper: Word := value / 0x1000;
    var lower: int := value % 0x1000;
    next := addr;
    if lower >= 0x800 {
      upper := upper + 1;
      lower := Signed(lower + 0xFFFF_F000);
      ram[next] := MakeLui(rd, upper);
      next := next + 1;
      ram[next] := MakeAddi(rd, rd, lower);
      next := next + 1;
    } else {
      ram[next] := MakeLui(rd, upper);
      next := next + 1;
      ram[next] := MakeAddi(rd, rd, lower);
      next := next + 1;
    }
  }

  lemma LuiRuns(h: Hart, rd: nat, imm20: Word)
    requires rd < 32
    ensures MakeLui(rd, imm20) % 4 == 3
    ensures Execute.Execute(h, MakeLui(rd, imm20))
            == Retire(SetPc(WriteReg(h, rd, Wrap(imm20 * 0x1000)), h.pc + 4), Some(Alu))
  {
    hide EncodeU, Opcode, Rd, ImmU, Rs1, Rs2, MakeLui;
    LuiWord(rd, imm20);
    DecodeU(imm20 % 0x10_0000, rd, 0x37);
  }

  lemma LuiWord(rd: nat, imm20: Word)
    requires rd < 32
    ensures MakeLui(rd, imm20) == EncodeU(imm20 % 0x10_0000, rd, 0x37) && MakeLui(rd, imm20) % 4 == 3
    ensures Wrap(imm20 * 0x1000) == imm20 % 0x10_0000 * 0x1000
  {
  }

  lemma AddiRuns(h: Hart, rd: nat, rs1: nat, imm: int)
    requires rd < 32 && rs1 < 32 && -0x800 <= imm < 0x800
    ensures MakeAddi(rd, rs1, imm) % 4 == 3
    ensures Execute.Execute(h, MakeAddi(rd, rs1, imm))
            == Retire(SetPc(WriteReg(h, rd, Wrap(h.regs[rs1] as int + imm)), h.pc + 4), Some(Alu))
  {
    hide EncodeI, Opcode, Rd, Rs1, Rs2, Funct3, CsrAddr, ImmI, Funct7, SignExtend, MakeAddi;
    AddiWord(rd, rs1, imm);
    DecodeI(imm % 0x1000, rs1, 0, rd, 0x13);
    ExtendImm(h.regs[rs1], imm);
  }

  lemma AddiWord(rd: nat, rs1: nat, imm: int)
    requires rd < 32 && rs1 < 32
    ensures MakeAddi(rd, rs1, imm) == EncodeI(imm % 0x1000, rs1, 0, rd, 0x13) && MakeAddi(rd, rs1, imm) % 4 == 3
  {
  }

  lemma ExtendImm(a: Word, imm: int)
    requires -0x800 <= imm < 0x800
    ensures Wrap(a + SignExtend(imm % 0x1000, 0x1000)) == Wrap(a as int + imm)
  {
  }

  /** The word at addr is an instruction in plain RAM. */
  ghost predicate Holds(h: Hart, addr: Word, insn: Word)
  {
    !IsHtif(addr) && !IsMmio(addr) && ValidAccess(h, addr, 4) && Peek32(h.ram, addr - h.base) == insn
  }

  lemma TurnsOne(h: Hart, insn: Word, next: Hart, kind: InsnType)
    requires !h.htif.halted && Holds(h, h.pc, insn) && Execute.Execute(h, insn) == Retire(next, Some(kind))
    ensures Turn(h) == Turned(CountCycle(next), Retired(h.pc, insn, Some(kind)))
  {
    hide Execute.Execute, Peek32, MmioLoad;
  }

  /** load_imm is correct: for every value and every register but x0, running the two emitted words from an
      awake, running hart with nothing to dispatch loads the value, and changes nothing else but the pc and
      the cycle count. */
  lemma LoadImmLoads(h: Hart, rd: nat, value: Word)
    requires 1 <= rd < 32 && h.initialized && !h.sleeping && !h.htif.halted && !CanDispatch(h)
    requires Holds(h, h.pc, MakeLui(rd, Upper(value)))
    requires h.pc + 4 < 0x1_0000_0000 && Holds(h, h.pc + 4, MakeAddi(rd, rd, Lower(value)))
    ensures var r := RvStep(h, 2);
            && r.hart == h.(regs := h.regs[rd := value], pc := Wrap(h.pc + 8),
                            csr := h.csr.(mcycle := Wrap64(h.csr.mcycle + 2)))
            && r.count == 2 && r.cause == None
  {
    hide Execute.Execute, Turn, MakeAddi, MakeLui, Upper, Lower, Peek32, Wrap64, CanDispatch;
    var lui, addi := MakeLui(rd, Upper(value)), MakeAddi(rd, rd, Lower(value));
    var a := SetPc(WriteReg(h, rd, Wrap(Upper(value) * 0x1000)), h.pc + 4);
    LuiRuns(h, rd, Upper(value));
    TurnsOne(h, lui, a, Alu);
    var mid := CountCycle(a);
    var b := SetPc(WriteReg(mid, rd, Wrap(mid.regs[rd] as int + Lower(value))), mid.pc + 4);
    LowerRange(value);
    AddiRuns(mid, rd, rd, Lower(value));
    TurnsOne(mid, addi, b, Alu);
    HalvesMakeValue(value);
    WrapSum(Upper(value) * 0x1000, Lower(value));
    assert h.regs[rd := Wrap(Upper(value) * 0x1000)][rd := value] == h.regs[rd := value];
    Wrap64Add(h.csr.mcycle + 1, 1);
    TwoTurns(h, mid, CountCycle(b), Retired(h.pc, lui, Some(Alu)), Retired(mid.pc, addi, Some(Alu)));
  }

  lemma LowerRange(value: Word)
    ensures -0x800 <= Lower(value) < 0x800
  {
  }

  lemma WrapSum(x: int, y: int)
    ensures Wrap(Wrap(x) as int + y) == Wrap(x + y)
  {
  }

  lemma TwoTurns(h: Hart, mid: Hart, last: Hart, first: Retired, second: Retired)
    requires Turn(h) == Turned(mid, first) && Turn(mid) == Turned(last, second)
    ensures RunBatch(h, 2) == Batch(last, [first, second])
  {
    hide Turn;
    assert RunBatch(last, 0) == Batch(last, []);
    assert RunBatch(mid, 1) == Prepend([second], RunBatch(last, 0));
    assert RunBatch(h, 2) == Prepend([first], RunBatch(mid, 1));
  }

  // ----- from the array to RAM -----

  function ByteOf(w: Word, lane: nat): Byte
  {
    match lane
    case 0 => w % 0x100
    case 1 => w / 0x100 % 0x100
    case 2 => w / 0x1_0000 % 0x100
    case _ => w / 0x100_0000
  }

  /** RAM starts with the words of the array, as a little-endian host lays them out. */
  ghost predicate Image(h: Hart, words: seq<Word>)
  {
    && h.base == 0 && 4 * |words| <= |h.ram| && 4 * |words| <= MMIO_BASE
    && forall i :: 0 <= i < 4 * |words| ==> h.ram[i] == ByteOf(words[i / 4], i % 4)
  }

  lemma ImageHolds(h: Hart, words: seq<Word>, k: nat)
    requires Image(h, words) && k < |words|
    ensures Holds(h, 4 * k, words[k])
  {
    var at, w := 4 * k, words[k];
    hide ByteOf;
    assert h.ram[at] == ByteOf(w, 0);
    assert h.ram[at + 1] == ByteOf(w, 1);
    assert h.ram[at + 2] == ByteOf(w, 2);
    assert h.ram[at + 3] == ByteOf(w, 3);
    BytesMakeWord(w);
  }

  lemma BytesMakeWord(w: Word)
    ensures Bytes4(ByteOf(w, 0), ByteOf(w, 1), ByteOf(w, 2), ByteOf(w, 3)) == w
  {
    assert w / 0x1_0000 == w / 0x100 / 0x100;
    assert w / 0x100_0000 == w / 0x100 / 0x100 / 0x100;
  }

  /** The generator end to end: the array after Emit, taken as the start of RAM, loads the value when it runs. */
  lemma EmittedCodeLoads(h: Hart, words: seq<Word>, addr: nat, rd: nat, value: Word)
    requires addr + 2 <= |words| && 1 <= rd < 32
    requires Image(h, words[addr := MakeLui(rd, Upper(value))][addr + 1 := MakeAddi(rd, rd, Lower(value))])
    requires h.pc == 4 * addr && h.initialized && !h.sleeping && !h.htif.halted && !CanDispatch(h)
    ensures var r := RvStep(h, 2);
            && r.hart == h.(regs := h.regs[rd := value], pc := 4 * addr + 8,
                            csr := h.csr.(mcycle := Wrap64(h.csr.mcycle + 2)))
            && r.count == 2 && r.cause == None
  {
    hide Image, Holds, MakeLui, MakeAddi, Upper, Lower, RvStep, CanDispatch, Wrap64;
    var image := words[addr := MakeLui(rd, Upper(value))][addr + 1 := MakeAddi(rd, rd, Lower(value))];
    ImageHolds(h, image, addr);
    ImageHolds(h, image, addr + 1);
    ImageSmall(h, image);
    LoadImmLoads(h, rd, value);
  }

  lemma ImageSmall(h: Hart, words: seq<Word>)
    requires Image(h, words)
    ensures 4 * |words| <= MMIO_BASE
  {
  }
}
