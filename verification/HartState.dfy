/** The state of the simulated hart and its memory system: RAM, the HTIF
    mailbox and memory-mapped devices. */
module HartState {
  import opened Words
  import AhbBus

  const MMIO_BASE := 0x1000_0000
  const MMIO_SIZE := 0x10_0000
  const HTIF_BASE := 0x8000_1000
  const HTIF_SIZE := 0x10

  type RegFile = s: seq<Word> | |s| == 32 witness seq(32, _ => 0)
  type MmioFile = s: seq<Word> | |s| == 64 witness seq(64, _ => 0)
  type Ram = s: seq<Byte> | |s| < 0x1_0000_0000

  /** What stands behind dpi_mmio_read and dpi_mmio_write: a plain register file
      or the AHB bench, whose clock calls rv_set_irq. */
  datatype Device = Registers(mmio: MmioFile) | Ahb(bench: AhbBus.Bench)

  datatype Htif = Htif(tohostLo: Word, tohostHi: Word, fromhostLo: Word, fromhostHi: Word,
                       exit: bool, exitCode: Word, halted: bool)

  datatype Csrs = Csrs(mstatus: Word, mtvec: Word, mepc: Word, mcause: Word, mie: Word, mcycle: Dword)

  datatype Hart = Hart(initialized: bool, regs: RegFile, ram: Ram, base: Word, pc: Word, irq: Word, sleeping: bool,
                       csr: Csrs, htif: Htif, dev: Device)

  datatype Loaded = Loaded(hart: Hart, value: Word)

  predicate IsHtif(addr: Word) { HTIF_BASE <= addr < HTIF_BASE + HTIF_SIZE }

  predicate IsMmio(addr: Word) { MMIO_BASE <= addr < MMIO_BASE + MMIO_SIZE }

  /** Access inside RAM; the sum is taken without wrap-around. */
  predicate InRam(base: Word, size: nat, addr: Word, width: nat) { base <= addr && addr - base + width <= size }

  predicate ValidAccess(h: Hart, addr: Word, width: nat) { InRam(h.base, |h.ram|, addr, width) }

  // ----- devices -----

  datatype DeviceRead = DeviceRead(dev: Device, irq: Word, value: Word)
  datatype DeviceWrite = DeviceWrite(dev: Device, irq: Word)

  function WithIrq(b: AhbBus.Bench, irq: Word): AhbBus.Bench { b.(sim := b.sim.(irq := irq)) }

  function ReadDevice(d: Device, irq: Word, addr: Word): DeviceRead
  {
    match d
    case Registers(mmio) =>
      DeviceRead(d, irq, if MMIO_BASE <= addr < MMIO_BASE + 0x100 then mmio[(addr - MMIO_BASE) / 4] else 0)
    case Ahb(bench) =>
      var r := AhbBus.MmioRead(WithIrq(bench, irq), addr);
      DeviceRead(Ahb(r.bench), r.bench.sim.irq, r.value)
  }

  function WriteDevice(d: Device, irq: Word, addr: Word, value: Word): DeviceWrite
  {
    match d
    case Registers(mmio) =>
      DeviceWrite(if MMIO_BASE <= addr < MMIO_BASE + 0x100 then Registers(mmio[(addr - MMIO_BASE) / 4 := value]) else d,
                  irq)
    case Ahb(bench) =>
      var b := AhbBus.MmioWrite(WithIrq(bench, irq), addr, value);
      DeviceWrite(Ahb(b), b.sim.irq)
  }

  function MmioLoad(h: Hart, addr: Word): Loaded
  {
    var r := ReadDevice(h.dev, h.irq, addr);
    Loaded(h.(dev := r.dev, irq := r.irq), r.value)
  }

  function MmioStore(h: Hart, addr: Word, value: Word): Hart
  {
    var w := WriteDevice(h.dev, h.irq, addr, value);
    h.(dev := w.dev, irq := w.irq)
  }

  // ----- RAM, little-endian -----

  function Bytes4(b0: Byte, b1: Byte, b2: Byte, b3: Byte): Word { b0 + b1 * 0x100 + b2 * 0x1_0000 + b3 * 0x100_0000 }

  function Peek32(ram: Ram, at: nat): Word
    requires at + 4 <= |ram|
  {
    Bytes4(ram[at], ram[at + 1], ram[at + 2], ram[at + 3])
  }

  function Peek16(ram: Ram, at: nat): Word
    requires at + 2 <= |ram|
  {
    ram[at] as int + ram[at + 1] as int * 0x100
  }

  function Poke32(ram: Ram, at: nat, v: Word): Ram
    requires at + 4 <= |ram|
  {
    ram[at := v % 0x100][at + 1 := v / 0x100 % 0x100][at + 2 := v / 0x1_0000 % 0x100][at + 3 := v / 0x100_0000]
  }

  function Poke16(ram: Ram, at: nat, v: Half): Ram
    requires at + 2 <= |ram|
  {
    ram[at := v % 0x100][at + 1 := v / 0x100]
  }

  lemma PeekPoke(ram: Ram, at: nat, v: Word)
    requires at + 4 <= |ram|
    ensures Peek32(Poke32(ram, at, v), at) == v
    ensures forall i :: 0 <= i < |ram| && !(at <= i < at + 4) ==> Poke32(ram, at, v)[i] == ram[i]
  {
    assert v / 0x1_0000 == v / 0x100 / 0x100;
    assert v / 0x100_0000 == v / 0x100 / 0x100 / 0x100;
  }

  // ----- HTIF -----

  /** Bytes past the end of RAM read as zero; the C code reads out of bounds there. */
  function GuestWord(ram: Ram, at: nat): Word
  {
    if at + 4 <= |ram| then Peek32(ram, at) else 0
  }

  /** Effect of a non-zero write to tohost: an odd value halts with its upper bits as exit code; an even
      one names a request block, acknowledged through fromhost when its magic is 64. */
  function HtifRequest(h: Hart): Hart
  {
    if h.htif.tohostLo % 2 == 1 then
      h.(htif := h.htif.(exitCode := h.htif.tohostLo / 2, exit := true, halted := true))
    else if h.htif.tohostLo != 0 && h.base <= h.htif.tohostLo < Wrap(h.base + |h.ram|)
            && GuestWord(h.ram, h.htif.tohostLo - h.base) == 64 then
      h.(htif := h.htif.(fromhostLo := 1, fromhostHi := 0))
    else h
  }

  function HtifStore(h: Hart, addr: Word, value: Word): Hart
  {
    match addr
    case 0x8000_1000 =>
      var w := h.(htif := h.htif.(tohostLo := value));
      if value != 0 then HtifRequest(w) else w
    case 0x8000_1004 => h.(htif := h.htif.(tohostHi := value))
    case 0x8000_1008 => h.(htif := h.htif.(fromhostLo := value))
    case 0x8000_100C => h.(htif := h.htif.(fromhostHi := value))
    case _ => h
  }

  // ----- loads and stores -----

  function ReadU32(h: Hart, addr: Word): Loaded
  {
    if IsHtif(addr) then
      Loaded(h, if addr == 0x8000_1008 then h.htif.fromhostLo else if addr == 0x8000_100C then h.htif.fromhostHi else 0)
    else if IsMmio(addr) then MmioLoad(h, addr)
    else if !ValidAccess(h, addr, 4) then Loaded(h, 0)
    else Loaded(h, Peek32(h.ram, addr - h.base))
  }

  function ReadU16(h: Hart, addr: Word): Loaded
  {
    if IsHtif(addr) then ReadU32(h, addr)
    else if IsMmio(addr) then
      var r := MmioLoad(h, addr - addr % 4);
      Loaded(r.hart, if addr % 4 >= 2 then r.value / 0x1_0000 else r.value)
    else if !ValidAccess(h, addr, 2) then Loaded(h, 0)
    else Loaded(h, Peek16(h.ram, addr - h.base))
  }

  function ReadU8(h: Hart, addr: Word): Loaded
  {
    if IsHtif(addr) then ReadU32(h, addr)
    else if IsMmio(addr) then
      var r := MmioLoad(h, addr - addr % 4);
      Loaded(r.hart, match addr % 4
                     case 0 => r.value
                     case 1 => r.value / 0x100
                     case 2 => r.value / 0x1_0000
                     case _ => r.value / 0x100_0000)
    else if !ValidAccess(h, addr, 1) then Loaded(h, 0)
    else Loaded(h, h.ram[addr - h.base])
  }

  function WriteU32(h: Hart, addr: Word, value: Word): Hart
  {
    if IsHtif(addr) then HtifStore(h, addr, value)
    else if IsMmio(addr) then MmioStore(h, addr, value)
    else if !ValidAccess(h, addr, 4) then h
    else h.(ram := Poke32(h.ram, addr - h.base, value))
  }

  /** Replace the half word of w that contains byte lane (0..3) by v. */
  function MergeHalf(w: Word, lane: nat, v: Half): Word
  {
    if lane >= 2 then w % 0x1_0000 + v * 0x1_0000 else w - w % 0x1_0000 + v
  }

  /** Replace byte lane (0..3) of w by v. */
  function MergeByte(w: Word, lane: nat, v: Byte): Word
  {
    match lane
    case 0 => w - w % 0x100 + v
    case 1 => w / 0x1_0000 * 0x1_0000 + v * 0x100 + w % 0x100
    case 2 => w / 0x100_0000 * 0x100_0000 + v * 0x1_0000 + w % 0x1_0000
    case _ => v * 0x100_0000 + w % 0x100_0000
  }

  function WriteU16(h: Hart, addr: Word, value: Half): Hart
  {
    if IsMmio(addr) then
      var r := MmioLoad(h, addr - addr % 4);
      MmioStore(r.hart, addr - addr % 4, MergeHalf(r.value, addr % 4, value))
    else if !ValidAccess(h, addr, 2) then h
    else h.(ram := Poke16(h.ram, addr - h.base, value))
  }

  function WriteU8(h: Hart, addr: Word, value: Byte): Hart
  {
    if IsMmio(addr) then
      var r := MmioLoad(h, addr - addr % 4);
      MmioStore(r.hart, addr - addr % 4, MergeByte(r.value, addr % 4, value))
    else if !ValidAccess(h, addr, 1) then h
    else h.(ram := h.ram[addr - h.base := value])
  }

  /** x0 is never written. */
  function WriteReg(h: Hart, rd: nat, value: Word): Hart
    requires rd < 32
  {
    if rd == 0 then h else h.(regs := h.regs[rd := value])
  }
}
