/** Bytes, half-words and words of the memory system: every load and store against the bytes of RAM, the byte lanes of
    a device register and the HTIF mailbox. */
module Memory {
  import opened Words
  import opened HartState

  // ----- byte lanes -----

  /** Byte k of a word, the least significant first. */
  function Lane(w: Word, k: nat): Byte
    requires k < 4
  {
    match k
    case 0 => w % 0x100
    case 1 => w / 0x100 % 0x100
    case 2 => w / 0x1_0000 % 0x100
    case _ => w / 0x100_0000
  }

  lemma LanesMakeWord(w: Word)
    ensures w == Lane(w, 0) + Lane(w, 1) * 0x100 + Lane(w, 2) * 0x1_0000 + Lane(w, 3) * 0x100_0000
  {
    var a := w / 0x100;
    var b := a / 0x100;
    assert w / 0x1_0000 == b && w / 0x100_0000 == b / 0x100;
    assert w == a * 0x100 + w % 0x100 && a == b * 0x100 + a % 0x100 && b == b / 0x100 * 0x100 + b % 0x100;
  }

  lemma LanesOfWord(b0: Byte, b1: Byte, b2: Byte, b3: Byte)
    ensures var w := Bytes4(b0, b1, b2, b3); Lane(w, 0) == b0 && Lane(w, 1) == b1 && Lane(w, 2) == b2 && Lane(w, 3) == b3
  {
    var w := Bytes4(b0, b1, b2, b3);
    assert w / 0x100 == b1 + b2 * 0x100 + b3 * 0x1_0000;
    assert w / 0x1_0000 == b2 + b3 * 0x100;
    assert w / 0x100_0000 == b3;
  }

  /** The lanes of a word in RAM are its bytes, little-endian. */
  lemma PeekLanes(ram: Ram, at: nat, k: nat)
    requires at + 4 <= |ram| && k < 4
    ensures Lane(Peek32(ram, at), k) == ram[at + k]
  {
    LanesOfWord(ram[at], ram[at + 1], ram[at + 2], ram[at + 3]);
  }

  lemma MergeByteLanes(w: Word, lane: nat, v: Byte, k: nat)
    requires lane < 4 && k < 4
    ensures Lane(MergeByte(w, lane, v), k) == if k == lane then v else Lane(w, k)
  {
    LanesMakeWord(w);
    var b0, b1, b2, b3 := Lane(w, 0), Lane(w, 1), Lane(w, 2), Lane(w, 3);
    LanesOfWord(if lane == 0 then v else b0, if lane == 1 then v else b1, if lane == 2 then v else b2,
                if lane == 3 then v else b3);
    UpperLanes(w);
  }

  lemma UpperLanes(w: Word)
    ensures w % 0x1_0000 == Lane(w, 0) + Lane(w, 1) * 0x100
    ensures w % 0x100_0000 == Lane(w, 0) + Lane(w, 1) * 0x100 + Lane(w, 2) * 0x1_0000
    ensures w / 0x1_0000 == Lane(w, 2) + Lane(w, 3) * 0x100
  {
    LanesMakeWord(w);
    var b0: int, b1: int, b2: int, b3: int := Lane(w, 0), Lane(w, 1), Lane(w, 2), Lane(w, 3);
    hide Lane;
    Euclid(b2 + b3 * 0x100, 0x1_0000, b0 + b1 * 0x100);
    Euclid(b3, 0x100_0000, b0 + b1 * 0x100 + b2 * 0x1_0000);
  }

  /** A half-word goes to lanes 0 and 1, or to 2 and 3 from lane 2 on, and leaves the other two. */
  lemma MergeHalfLanes(w: Word, lane: nat, v: Half, k: nat)
    requires lane < 4 && k < 4
    ensures Lane(MergeHalf(w, lane, v), k)
            == if k / 2 == lane / 2 then (if k % 2 == 0 then v % 0x100 else v / 0x100) else Lane(w, k)
  {
    LanesMakeWord(w);
    UpperLanes(w);
    var b0, b1, b2, b3 := Lane(w, 0), Lane(w, 1), Lane(w, 2), Lane(w, 3);
    if lane >= 2 {
      LanesOfWord(b0, b1, v % 0x100, v / 0x100);
    } else {
      LanesOfWord(v % 0x100, v / 0x100, b2, b3);
    }
  }

  // ----- windows -----

  /** Devices have the megabyte from 0x1000_0000 on, the mailbox the 16 bytes from 0x8000_1000 on. */
  lemma WindowsAre(addr: Word)
    ensures IsMmio(addr) <==> addr / 0x10_0000 == 0x100
    ensures IsHtif(addr) <==> addr / 0x10 == 0x800_0100
  {
  }

  // ----- RAM -----

  /** width bytes from addr on lie in RAM. */
  predicate Backed(h: Hart, addr: Word, width: nat) { h.base <= addr && addr - h.base + width <= |h.ram| }

  /** They do, outside the mailbox and the device window. */
  predicate OnRam(h: Hart, addr: Word, width: nat) { !IsHtif(addr) && !IsMmio(addr) && Backed(h, addr, width) }

  function RamByte(h: Hart, addr: Word, k: nat): Byte
    requires h.base <= addr && addr - h.base + k < |h.ram|
  {
    h.ram[addr - h.base + k]
  }

  /** Loads from RAM return its bytes and change nothing. */
  lemma RamLoads(h: Hart, addr: Word)
    ensures OnRam(h, addr, 1) ==> ReadU8(h, addr) == Loaded(h, RamByte(h, addr, 0))
    ensures OnRam(h, addr, 2) ==> ReadU16(h, addr) == Loaded(h, RamByte(h, addr, 0) + RamByte(h, addr, 1) * 0x100)
    ensures OnRam(h, addr, 4) ==>
              ReadU32(h, addr).hart == h && forall k :: 0 <= k < 4 ==> Lane(ReadU32(h, addr).value, k) == RamByte(h, addr, k)
  {
    if OnRam(h, addr, 4) {
      forall k | 0 <= k < 4 ensures Lane(ReadU32(h, addr).value, k) == RamByte(h, addr, k) {
        PeekLanes(h.ram, addr - h.base, k);
      }
    }
  }

  /** next is h with the first width bytes at addr those of v. */
  ghost predicate Stored(h: Hart, addr: Word, width: nat, v: Word, next: Hart)
    requires width <= 4 && h.base <= addr
  {
    && next == h.(ram := next.ram) && |next.ram| == |h.ram|
    && forall i :: 0 <= i < |h.ram| ==>
         next.ram[i] == if addr - h.base <= i < addr - h.base + width then Lane(v, i - (addr - h.base)) else h.ram[i]
  }

  lemma SmallLanes(v: Half)
    ensures Lane(v, 0) == v % 0x100 && Lane(v, 1) == v / 0x100 && Lane(v, 2) == 0 && Lane(v, 3) == 0
  {
  }

  /** Stores to RAM change exactly the bytes they cover.  Narrow ones do not see the mailbox: they reach RAM behind it. */
  lemma RamStores(h: Hart, addr: Word, v: Word)
    ensures !IsMmio(addr) && Backed(h, addr, 1) ==> Stored(h, addr, 1, v, WriteU8(h, addr, v % 0x100))
    ensures !IsMmio(addr) && Backed(h, addr, 2) ==> Stored(h, addr, 2, v, WriteU16(h, addr, v % 0x1_0000))
    ensures OnRam(h, addr, 4) ==> Stored(h, addr, 4, v, WriteU32(h, addr, v))
  {
    UpperLanes(v);
    SmallLanes(v % 0x1_0000);
    assert v % 0x1_0000 % 0x100 == v % 0x100;
  }

  /** A load of the width just stored returns the stored bytes. */
  lemma StoreThenLoad(h: Hart, addr: Word, v: Word)
    ensures OnRam(h, addr, 1) ==> ReadU8(WriteU8(h, addr, v % 0x100), addr).value == v % 0x100
    ensures OnRam(h, addr, 2) ==> ReadU16(WriteU16(h, addr, v % 0x1_0000), addr).value == v % 0x1_0000
    ensures OnRam(h, addr, 4) ==> ReadU32(WriteU32(h, addr, v), addr).value == v
  {
    UpperLanes(v);
    LanesMakeWord(v);
    hide Lane;
    if OnRam(h, addr, 4) {
      PeekPoke(h.ram, addr - h.base, v);
    }
  }

  /** Outside RAM, the mailbox and the device window loads give zero and nothing is stored. */
  lemma NowhereIsEmpty(h: Hart, addr: Word, v: Word)
    requires !IsMmio(addr)
    ensures !IsHtif(addr) && !Backed(h, addr, 1) ==> ReadU8(h, addr) == Loaded(h, 0)
    ensures !IsHtif(addr) && !Backed(h, addr, 2) ==> ReadU16(h, addr) == Loaded(h, 0)
    ensures !IsHtif(addr) && !Backed(h, addr, 4) ==> ReadU32(h, addr) == Loaded(h, 0) && WriteU32(h, addr, v) == h
    ensures !Backed(h, addr, 1) ==> WriteU8(h, addr, v % 0x100) == h
    ensures !Backed(h, addr, 2) ==> WriteU16(h, addr, v % 0x1_0000) == h
  {
  }

  // ----- devices -----

  /** The aligned register an address lies in. */
  function Aligned(addr: Word): Word { addr - addr % 4 }

  lemma ShiftedLanes(w: Word)
    ensures w / 0x100 == Lane(w, 1) + Lane(w, 2) * 0x100 + Lane(w, 3) * 0x1_0000
    ensures w / 0x1_0000 == Lane(w, 2) + Lane(w, 3) * 0x100
  {
    LanesMakeWord(w);
    UpperLanes(w);
    var b0: int, b1: int, b2: int, b3: int := Lane(w, 0), Lane(w, 1), Lane(w, 2), Lane(w, 3);
    hide Lane;
    Euclid(b1 + b2 * 0x100 + b3 * 0x1_0000, 0x100, b0);
  }

  lemma WordLoadsDevice(h: Hart, addr: Word)
    requires IsMmio(addr)
    ensures ReadU32(h, addr) == MmioLoad(h, addr)
  {
  }

  /** A byte load reads the whole register and shifts it, so that the lanes above the one asked for stay. */
  lemma ByteLoadsDevice(h: Hart, addr: Word)
    requires IsMmio(addr)
    ensures var word, byte := MmioLoad(h, Aligned(addr)), ReadU8(h, addr);
            && byte.hart == word.hart && byte.value % 0x100 == Lane(word.value, addr % 4)
            && (byte.value == Lane(word.value, addr % 4)
                <==> forall k :: addr % 4 < k < 4 ==> Lane(word.value, k) == 0)
  {
    hide MmioLoad;
    var w := MmioLoad(h, Aligned(addr)).value;
    LanesMakeWord(w);
    ShiftedLanes(w);
    assert Lane(w, 1) == 0 && Lane(w, 2) == 0 && Lane(w, 3) == 0 <==> w < 0x100;
    hide Lane;
    assert addr % 4 == 0 || addr % 4 == 1 || addr % 4 == 2 || addr % 4 == 3;
  }

  /** A half-word load takes the lower or the upper half as bit 1 of the address says; only the upper one is exact. */
  lemma HalfLoadsDevice(h: Hart, addr: Word)
    requires IsMmio(addr)
    ensures var word, half := MmioLoad(h, Aligned(addr)), ReadU16(h, addr);
            var first := addr % 4 / 2 * 2;
            && half.hart == word.hart
            && half.value % 0x1_0000 == Lane(word.value, first) + Lane(word.value, first + 1) * 0x100
            && (half.value < 0x1_0000 <==> first == 2 || (Lane(word.value, 2) == 0 && Lane(word.value, 3) == 0))
  {
    hide MmioLoad;
    var w := MmioLoad(h, Aligned(addr)).value;
    UpperLanes(w);
    ShiftedLanes(w);
  }

  /** Narrow device stores read the register, replace their own lanes and write it back. */
  lemma DeviceStores(h: Hart, addr: Word, v: Word)
    requires IsMmio(addr)
    ensures WriteU32(h, addr, v) == MmioStore(h, addr, v)
    ensures exists w: Word ::
              && WriteU8(h, addr, v % 0x100) == MmioStore(MmioLoad(h, Aligned(addr)).hart, Aligned(addr), w)
              && forall k :: 0 <= k < 4 ==>
                   Lane(w, k) == if k == addr % 4 then v % 0x100 else Lane(MmioLoad(h, Aligned(addr)).value, k)
    ensures exists w: Word ::
              && WriteU16(h, addr, v % 0x1_0000) == MmioStore(MmioLoad(h, Aligned(addr)).hart, Aligned(addr), w)
              && forall k :: 0 <= k < 4 ==>
                   Lane(w, k) == if k / 2 == addr % 4 / 2 then Lane(v, k % 2) else Lane(MmioLoad(h, Aligned(addr)).value, k)
  {
    hide MmioLoad, MmioStore, MergeByte, MergeHalf;
    var was := MmioLoad(h, Aligned(addr));
    var byte := MergeByte(was.value, addr % 4, v % 0x100);
    var half := MergeHalf(was.value, addr % 4, v % 0x1_0000);
    UpperLanes(v);
    forall k | 0 <= k < 4
      ensures Lane(byte, k) == if k == addr % 4 then v % 0x100 else Lane(was.value, k)
      ensures Lane(half, k) == if k / 2 == addr % 4 / 2 then Lane(v, k % 2) else Lane(was.value, k)
    {
      MergeByteLanes(was.value, addr % 4, v % 0x100, k);
      MergeHalfLanes(was.value, addr % 4, v % 0x1_0000, k);
    }
    assert WriteU8(h, addr, v % 0x100) == MmioStore(was.hart, Aligned(addr), byte);
    assert WriteU16(h, addr, v % 0x1_0000) == MmioStore(was.hart, Aligned(addr), half);
  }

  /** The plain register file of the VPI bench: 64 registers, zero and deaf beyond them, and the mask is untouched. */
  lemma PlainRegisters(h: Hart, addr: Word, v: Word, other: Word)
    requires h.dev.Registers? && IsMmio(addr) && IsMmio(other) && addr % 4 == 0 && other % 4 == 0
    ensures var next := MmioStore(h, addr, v);
            && next == h.(dev := next.dev) && next.dev.Registers?
            && MmioLoad(next, other)
               == Loaded(next, if other == addr && addr < MMIO_BASE + 0x100 then v else MmioLoad(h, other).value)
    ensures MmioLoad(h, addr).hart == h && (addr >= MMIO_BASE + 0x100 ==> MmioLoad(h, addr).value == 0)
  {
  }

  // ----- the HTIF mailbox -----

  /** Words of the mailbox: fromhost reads back what was stored there, tohost reads as zero, and narrow loads take the
      whole word at exactly these addresses. */
  lemma MailboxReads(h: Hart, v: Word)
    ensures ReadU32(HtifStore(h, 0x8000_1008, v), 0x8000_1008).value == v
    ensures ReadU32(HtifStore(h, 0x8000_100C, v), 0x8000_100C).value == v
    ensures HtifStore(h, 0x8000_1004, v) == h.(htif := h.htif.(tohostHi := v))
    ensures forall addr: Word :: IsHtif(addr) ==>
              && ReadU32(h, addr).hart == h && ReadU16(h, addr) == ReadU8(h, addr) == ReadU32(h, addr)
              && (addr != 0x8000_1008 && addr != 0x8000_100C ==> ReadU32(h, addr).value == 0)
  {
  }

  /** The word at v, read as the code reads it, is 64: the request block of a system call. */
  ghost predicate NamesRequest(h: Hart, v: Word)
  {
    && h.base <= v < (h.base + |h.ram|) % 0x1_0000_0000 && v - h.base + 4 <= |h.ram|
    && RamByte(h, v, 0) == 64 && RamByte(h, v, 1) == 0 && RamByte(h, v, 2) == 0 && RamByte(h, v, 3) == 0
  }

  lemma SixtyFour(ram: Ram, at: nat)
    requires at + 4 <= |ram|
    ensures Peek32(ram, at) == 64 <==> ram[at] == 64 && ram[at + 1] == 0 && ram[at + 2] == 0 && ram[at + 3] == 0
  {
    LanesOfWord(ram[at], ram[at + 1], ram[at + 2], ram[at + 3]);
    LanesOfWord(64, 0, 0, 0);
  }

  /** What a store to tohost does: zero is only kept, an odd word halts with its upper bits as exit code, and an even
      one is acknowledged through fromhost exactly when it names a request block. */
  lemma TohostStores(h: Hart, v: Word)
    ensures var t := h.htif.(tohostLo := v);
            WriteU32(h, 0x8000_1000, v)
            == h.(htif := if v % 2 == 1 then t.(exit := true, exitCode := v / 2, halted := true)
                          else if v != 0 && NamesRequest(h, v) then t.(fromhostLo := 1, fromhostHi := 0)
                          else t)
  {
    hide Peek32;
    if h.base <= v && v - h.base + 4 <= |h.ram| {
      SixtyFour(h.ram, v - h.base);
    }
  }
}
