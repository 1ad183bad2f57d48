/** rv_load_elf: loading the segments of an ELF image into RAM. */
module ElfLoad {
  import opened Words

  /** elf_data: the image, shorter than 2^32 bytes so that size_t comparisons are those of uint32_t. */
  type Image = s: seq<Byte> | |s| < 0x1_0000_0000

  const EHDR_SIZE := 52
  const PHDR_SIZE := 32
  const EM_RISCV := 0xF3
  const PT_LOAD := 1

  function U16At(elf: Image, at: nat): Half
    requires at + 2 <= |elf|
  {
    elf[at] as int + elf[at + 1] as int * 0x100
  }

  function U32At(elf: Image, at: nat): Word
    requires at + 4 <= |elf|
  {
    elf[at] as int + elf[at + 1] as int * 0x100 + elf[at + 2] as int * 0x1_0000 + elf[at + 3] as int * 0x100_0000
  }

  datatype Phdr = Phdr(kind: Word, offset: Word, vaddr: Word, filesz: Word, memsz: Word)

  function PhdrAt(elf: Image, at: nat): Phdr
    requires at + PHDR_SIZE <= |elf|
  {
    Phdr(U32At(elf, at), U32At(elf, at + 4), U32At(elf, at + 8), U32At(elf, at + 16), U32At(elf, at + 20))
  }

  predicate Identified(elf: Image)
    requires |elf| >= EHDR_SIZE
  {
    && elf[0] == 0x7F && elf[1] == 0x45 && elf[2] == 0x4C && elf[3] == 0x46
    && elf[4] == 1 && elf[5] == 1 && U16At(elf, 18) == EM_RISCV
  }

  function Entry(elf: Image): Word
    requires |elf| >= EHDR_SIZE
  {
    U32At(elf, 24)
  }

  function Phoff(elf: Image): Word
    requires |elf| >= EHDR_SIZE
  {
    U32At(elf, 28)
  }

  function Phentsize(elf: Image): Half
    requires |elf| >= EHDR_SIZE
  {
    U16At(elf, 42)
  }

  function Phnum(elf: Image): Half
    requires |elf| >= EHDR_SIZE
  {
    U16At(elf, 44)
  }

  /** The end of the program header table, as the code adds it up in 32 bits. */
  function TableEnd(elf: Image): Word
    requires |elf| >= EHDR_SIZE
  {
    Wrap(Phoff(elf) + Phnum(elf) * Phentsize(elf))
  }

  /** The checks that come before any segment is loaded. */
  predicate Accepted(elf: Image)
  {
    |elf| >= EHDR_SIZE && Identified(elf) && TableEnd(elf) <= |elf| && Phentsize(elf) >= PHDR_SIZE
  }

  /** The table address does not wrap around 32 bits. */
  predicate TableFits(elf: Image)
  {
    Accepted(elf) ==> Phoff(elf) + Phnum(elf) * Phentsize(elf) < 0x1_0000_0000
  }

  /** Where program header i starts. */
  function HeaderOffset(elf: Image, i: nat): nat
    requires |elf| >= EHDR_SIZE
  {
    Phoff(elf) + i * Phentsize(elf)
  }

  lemma HeaderInTable(elf: Image, i: nat)
    requires Accepted(elf) && TableFits(elf) && i < Phnum(elf)
    ensures HeaderOffset(elf, i) + PHDR_SIZE <= |elf|
  {
    hide U16At, U32At, Identified;
    var size := Phentsize(elf) as int;
    MulAtLeast(Phnum(elf) as int - i, size);
    assert (Phnum(elf) as int - i) * size == Phnum(elf) * size - i * size;
  }

  function Header(elf: Image, i: nat): Phdr
    requires Accepted(elf) && TableFits(elf) && i < Phnum(elf)
  {
    HeaderInTable(elf, i);
    PhdrAt(elf, HeaderOffset(elf, i))
  }

  // ----- the headers as the ELF format lays them out -----

  function HalfBytes(v: Half): seq<Byte> { [v % 0x100, v / 0x100] }

  function WordBytes(v: Word): seq<Byte> { [v % 0x100, v / 0x100 % 0x100, v / 0x1_0000 % 0x100, v / 0x100_0000] }

  /** The fields after the identification that the loader looks at, among all of them in their order. */
  datatype Ehdr = Ehdr(kind: Half, machine: Half, version: Word, entry: Word, phoff: Word, shoff: Word, flags: Word,
                       ehsize: Half, phentsize: Half, phnum: Half, shentsize: Half, shnum: Half, shstrndx: Half)

  function EncodeEhdr(ident: seq<Byte>, h: Ehdr): (bytes: seq<Byte>)
    requires |ident| == 16
    ensures |bytes| == EHDR_SIZE
  {
    ident + (HalfBytes(h.kind) + HalfBytes(h.machine) + WordBytes(h.version))
    + (WordBytes(h.entry) + WordBytes(h.phoff) + WordBytes(h.shoff) + WordBytes(h.flags))
    + (HalfBytes(h.ehsize) + HalfBytes(h.phentsize) + HalfBytes(h.phnum) + HalfBytes(h.shentsize) + HalfBytes(h.shnum)
       + HalfBytes(h.shstrndx))
  }

  function EncodePhdr(p: Phdr, paddr: Word, flags: Word, align: Word): (bytes: seq<Byte>)
    ensures |bytes| == PHDR_SIZE
  {
    WordBytes(p.kind) + WordBytes(p.offset) + WordBytes(p.vaddr) + WordBytes(paddr) + WordBytes(p.filesz)
    + WordBytes(p.memsz) + WordBytes(flags) + WordBytes(align)
  }

  lemma WordDecodes(elf: Image, at: nat, v: Word)
    requires at + 4 <= |elf| && elf[at..at + 4] == WordBytes(v)
    ensures U32At(elf, at) == v
  {
    var b := elf[at..at + 4];
    assert elf[at] == b[0] && elf[at + 1] == b[1] && elf[at + 2] == b[2] && elf[at + 3] == b[3];
    assert v / 0x1_0000 == v / 0x100 / 0x100 && v / 0x100_0000 == v / 0x100 / 0x100 / 0x100;
  }

  lemma HalfDecodes(elf: Image, at: nat, v: Half)
    requires at + 2 <= |elf| && elf[at..at + 2] == HalfBytes(v)
    ensures U16At(elf, at) == v
  {
    var b := elf[at..at + 2];
    assert elf[at] == b[0] && elf[at + 1] == b[1];
  }

  /** An image that starts with a header is read back field by field, and identified by its first six bytes and its
      machine. */
  lemma EhdrDecodes(ident: seq<Byte>, h: Ehdr, rest: seq<Byte>)
    requires |ident| == 16 && EHDR_SIZE + |rest| < 0x1_0000_0000
    ensures var elf: Image := EncodeEhdr(ident, h) + rest;
            && Entry(elf) == h.entry && Phoff(elf) == h.phoff && Phentsize(elf) == h.phentsize && Phnum(elf) == h.phnum
            && (Identified(elf) <==> ident[..6] == [0x7F, 0x45, 0x4C, 0x46, 1, 1] && h.machine == 0xF3)
  {
    var elf: Image := EncodeEhdr(ident, h) + rest;
    hide U16At, U32At, HalfBytes, WordBytes;
    FieldSizes();
    assert elf[18..20] == HalfBytes(h.machine);
    assert elf[24..28] == WordBytes(h.entry);
    assert elf[28..32] == WordBytes(h.phoff);
    assert elf[42..44] == HalfBytes(h.phentsize);
    assert elf[44..46] == HalfBytes(h.phnum);
    HalfDecodes(elf, 18, h.machine);
    WordDecodes(elf, 24, h.entry);
    WordDecodes(elf, 28, h.phoff);
    HalfDecodes(elf, 42, h.phentsize);
    HalfDecodes(elf, 44, h.phnum);
    assert elf[..6] == ident[..6];
    SixBytes(elf);
  }

  lemma SixBytes(elf: Image)
    requires |elf| >= 6
    ensures elf[..6] == [0x7F, 0x45, 0x4C, 0x46, 1, 1]
            <==> elf[0] == 0x7F && elf[1] == 0x45 && elf[2] == 0x4C && elf[3] == 0x46 && elf[4] == 1 && elf[5] == 1
  {
    var b := elf[..6];
    assert forall i :: 0 <= i < 6 ==> b[i] == elf[i];
    if b == [0x7F, 0x45, 0x4C, 0x46, 1, 1] {
      assert b[0] == 0x7F && b[1] == 0x45 && b[2] == 0x4C && b[3] == 0x46 && b[4] == 1 && b[5] == 1;
    }
  }

  lemma FieldSizes()
    ensures forall v: Half :: |HalfBytes(v)| == 2
    ensures forall v: Word :: |WordBytes(v)| == 4
  {
  }

  /** A program header is read back wherever it stands in the image. */
  lemma PhdrDecodes(before: seq<Byte>, p: Phdr, paddr: Word, flags: Word, align: Word, after: seq<Byte>)
    requires |before| + PHDR_SIZE + |after| < 0x1_0000_0000
    ensures PhdrAt(before + EncodePhdr(p, paddr, flags, align) + after, |before|) == p
  {
    var bytes := EncodePhdr(p, paddr, flags, align);
    var elf: Image := before + bytes + after;
    var n := |before|;
    PhdrFields(p, paddr, flags, align);
    hide EncodePhdr, U32At, WordBytes;
    assert elf[n..n + PHDR_SIZE] == bytes;
    FieldAt(elf, n, bytes, 0, p.kind);
    FieldAt(elf, n, bytes, 4, p.offset);
    FieldAt(elf, n, bytes, 8, p.vaddr);
    FieldAt(elf, n, bytes, 16, p.filesz);
    FieldAt(elf, n, bytes, 20, p.memsz);
  }

  lemma PhdrFields(p: Phdr, paddr: Word, flags: Word, align: Word)
    ensures var bytes := EncodePhdr(p, paddr, flags, align);
            && bytes[0..4] == WordBytes(p.kind) && bytes[4..8] == WordBytes(p.offset) && bytes[8..12] == WordBytes(p.vaddr)
            && bytes[16..20] == WordBytes(p.filesz) && bytes[20..24] == WordBytes(p.memsz)
  {
    FieldSizes();
    hide WordBytes;
  }

  /** A word of a header that stands at n in the image. */
  lemma FieldAt(elf: Image, n: nat, bytes: seq<Byte>, k: nat, v: Word)
    requires n + |bytes| <= |elf| && elf[n..n + |bytes|] == bytes && k + 4 <= |bytes| && bytes[k..k + 4] == WordBytes(v)
    ensures U32At(elf, n + k) == v
  {
    hide U32At, WordBytes;
    var field := elf[n + k..n + k + 4];
    assert |field| == 4;
    forall i | 0 <= i < 4 ensures field[i] == bytes[k..k + 4][i] {
      assert field[i] == elf[n + (k + i)] == elf[n..n + |bytes|][k + i];
    }
    assert field == bytes[k..k + 4];
    WordDecodes(elf, n + k, v);
  }

  /** A segment that is copied; any other is passed over. */
  predicate Loads(elf: Image, size: nat, p: Phdr)
  {
    p.kind == PT_LOAD && p.vaddr + p.memsz <= size && (p.filesz > 0 ==> p.offset + p.filesz <= |elf|)
  }

  /** What the loader presumes of a segment: ranges that do not wrap, and file bytes that fit RAM even where
      they exceed the memory size, which alone is checked. */
  predicate Sound(elf: Image, size: nat, p: Phdr)
  {
    p.kind == PT_LOAD ==>
      && p.vaddr + p.memsz < 0x1_0000_0000 && p.offset + p.filesz < 0x1_0000_0000
      && (Loads(elf, size, p) ==> p.vaddr + p.filesz <= size)
  }

  ghost predicate AllSound(elf: Image, size: nat)
  {
    Accepted(elf) ==> TableFits(elf) && forall i :: 0 <= i < Phnum(elf) ==> Sound(elf, size, Header(elf, i))
  }

  /** How many bytes a loaded segment writes: its memory size, or its file size when that is larger. */
  function Extent(p: Phdr): nat { if p.filesz > p.memsz then p.filesz else p.memsz }

  predicate Covers(p: Phdr, at: nat) { p.vaddr <= at < p.vaddr + Extent(p) }

  /** The byte a segment puts at one of its addresses. */
  function SegmentByte(elf: Image, p: Phdr, at: nat): Byte
    requires Covers(p, at) && p.filesz > 0 ==> p.offset + p.filesz <= |elf|
  {
    if Covers(p, at) && at - p.vaddr < p.filesz then elf[p.offset + (at - p.vaddr)] else 0
  }

  function LoadSegment(ram: seq<Byte>, elf: Image, p: Phdr): (loaded: seq<Byte>)
    requires Sound(elf, |ram|, p)
    ensures |loaded| == |ram|
  {
    if Loads(elf, |ram|, p) then
      seq(|ram|, at requires 0 <= at < |ram| => if Covers(p, at) then SegmentByte(elf, p, at) else ram[at])
    else ram
  }

  /** RAM after the first n program headers. */
  function LoadSegments(ram: seq<Byte>, elf: Image, n: nat): (loaded: seq<Byte>)
    requires Accepted(elf) && AllSound(elf, |ram|) && n <= Phnum(elf)
    ensures |loaded| == |ram|
  {
    if n == 0 then ram else LoadSegment(LoadSegments(ram, elf, n - 1), elf, Header(elf, n - 1))
  }

  ghost predicate Disjoint(p: Phdr, q: Phdr) { forall at: nat :: !(Covers(p, at) && Covers(q, at)) }

  ghost predicate SegmentsDisjoint(elf: Image, size: nat)
    requires Accepted(elf) && AllSound(elf, size)
  {
    forall i, j :: 0 <= i < j < Phnum(elf) && Loads(elf, size, Header(elf, i)) && Loads(elf, size, Header(elf, j))
      ==> Disjoint(Header(elf, i), Header(elf, j))
  }

  /** Some segment among the first n that is loaded covers the address. */
  ghost predicate Loaded(elf: Image, size: nat, n: nat, at: nat)
    requires Accepted(elf) && AllSound(elf, size) && n <= Phnum(elf)
  {
    exists i :: 0 <= i < n && Loads(elf, size, Header(elf, i)) && Covers(Header(elf, i), at)
  }

  /** Loading is exact: with disjoint segments every loaded one holds its file bytes and then zeros, and every
      other byte of RAM is what it was. */
  lemma {:induction false} LoadingIsExact(ram: seq<Byte>, elf: Image, n: nat, at: nat)
    requires Accepted(elf) && AllSound(elf, |ram|) && n <= Phnum(elf) && SegmentsDisjoint(elf, |ram|) && at < |ram|
    ensures !Loaded(elf, |ram|, n, at) ==> LoadSegments(ram, elf, n)[at] == ram[at]
    ensures forall i :: 0 <= i < n && Loads(elf, |ram|, Header(elf, i)) && Covers(Header(elf, i), at)
              ==> LoadSegments(ram, elf, n)[at] == SegmentByte(elf, Header(elf, i), at)
  {
    hide Header, Loads, Covers, SegmentByte, Identified, TableEnd, LoadSegment, U16At, U32At, Sound;
    if n > 0 {
      LoadingIsExact(ram, elf, n - 1, at);
      SegmentAt(LoadSegments(ram, elf, n - 1), elf, Header(elf, n - 1), at);
    }
  }

  lemma SegmentAt(ram: seq<Byte>, elf: Image, p: Phdr, at: nat)
    requires Sound(elf, |ram|, p) && at < |ram|
    ensures LoadSegment(ram, elf, p)[at]
            == if Loads(elf, |ram|, p) && Covers(p, at) then SegmentByte(elf, p, at) else ram[at]
  {
  }

  /** The same for one segment in the terms of its header: a PT_LOAD segment is loaded if and only if it fits RAM and its
      file bytes lie in the image; then the file bytes come first, and zeros fill it up. */
  lemma SegmentIsLoaded(ram: seq<Byte>, elf: Image, p: Phdr, at: nat)
    requires Sound(elf, |ram|, p) && at < |ram|
    ensures Loads(elf, |ram|, p)
            <==> p.kind == 1 && p.vaddr + p.memsz <= |ram| && (p.filesz == 0 || p.offset + p.filesz <= |elf|)
    ensures LoadSegment(ram, elf, p)[at]
            == if !Loads(elf, |ram|, p) then ram[at]
               else if p.vaddr <= at < p.vaddr + p.filesz then elf[p.offset + at - p.vaddr]
               else if p.vaddr <= at < p.vaddr + p.memsz then 0
               else ram[at]
  {
  }

  /** Header i stands i entries after the start of the table; the image is accepted exactly when it is identified, its
      table ends inside it and the entries are large enough. */
  lemma TableIsRead(elf: Image, i: nat)
    requires |elf| >= EHDR_SIZE
    ensures Accepted(elf)
            <==> Identified(elf) && (Phoff(elf) + Phnum(elf) * Phentsize(elf)) % 0x1_0000_0000 <= |elf| && Phentsize(elf) >= 32
    ensures Accepted(elf) && TableFits(elf) && i < Phnum(elf) ==>
              Phoff(elf) + i * Phentsize(elf) + PHDR_SIZE <= |elf|
              && Header(elf, i) == PhdrAt(elf, Phoff(elf) + i * Phentsize(elf))
  {
    hide U16At, U32At, Identified, PhdrAt;
    if Accepted(elf) && TableFits(elf) && i < Phnum(elf) {
      HeaderInTable(elf, i);
    }
  }

  /** memcpy from the image. */
  method Memcpy(memory: array<Byte>, at: nat, elf: Image, offset: nat, n: nat)
    requires at + n <= memory.Length && offset + n <= |elf|
    modifies memory
    ensures forall k :: 0 <= k < memory.Length ==>
              memory[k] == if at <= k < at + n then elf[offset + (k - at)] else old(memory[k])
  {
    for i := 0 to n
      invariant forall k :: 0 <= k < memory.Length ==>
                  memory[k] == if at <= k < at + i then elf[offset + (k - at)] else old(memory[k])
    {
      memory[at + i] := elf[offset + i];
    }
  }

  method Memset(memory: array<Byte>, at: nat, n: nat)
    requires at + n <= memory.Length
    modifies memory
    ensures forall k :: 0 <= k < memory.Length ==> memory[k] == if at <= k < at + n then 0 else old(memory[k])
  {
    for i := 0 to n
      invariant forall k :: 0 <= k < memory.Length ==> memory[k] == if at <= k < at + i then 0 else old(memory[k])
    {
      memory[at + i] := 0;
    }
  }

  /** The body of the segment loop. */
  method CopySegment(memory: array<Byte>, elf: Image, phdr: Phdr)
    requires Sound(elf, memory.Length, phdr)
    modifies memory
    ensures memory[..] == LoadSegment(old(memory[..]), elf, phdr)
  {
    if phdr.kind != PT_LOAD { return; }
    var end := Wrap(phdr.vaddr + phdr.memsz);
    if end > memory.Length { return; }
    if phdr.filesz > 0 {
      if Wrap(phdr.offset + phdr.filesz) > |elf| { return; }
      Memcpy(memory, phdr.vaddr, elf, phdr.offset, phdr.filesz);
    }
    if phdr.memsz > phdr.filesz {
      Memset(memory, phdr.vaddr + phdr.filesz, phdr.memsz - phdr.filesz);
    }
  }

  method CopySegments(memory: array<Byte>, elf: Image)
    requires Accepted(elf) && AllSound(elf, memory.Length)
    modifies memory
    ensures memory[..] == LoadSegments(old(memory[..]), elf, Phnum(elf))
  {
    hide LoadSegment, Identified, TableEnd, U16At, U32At, Sound, HeaderOffset;
    var i := 0;
    while i < Phnum(elf)
      invariant 0 <= i <= Phnum(elf)
      invariant memory[..] == LoadSegments(old(memory[..]), elf, i)
    {
      HeaderInTable(elf, i);
      var phdr := PhdrAt(elf, HeaderOffset(elf, i));
      assert phdr == Header(elf, i);
      CopySegment(memory, elf, phdr);
      i := i + 1;
    }
  }

  /** rv_load_elf: the entry point, or 0 for an image it refuses. */
  method RvLoadElf(memory: array<Byte>, elf: Image) returns (entry: Word)
    requires AllSound(elf, memory.Length)
    modifies memory
    ensures !Accepted(elf) ==> entry == 0 && memory[..] == old(memory[..])
    ensures Accepted(elf) ==> entry == Entry(elf) && memory[..] == LoadSegments(old(memory[..]), elf, Phnum(elf))
  {
    hide LoadSegments, U16At, U32At, AllSound;
    if |elf| < EHDR_SIZE { return 0; }
    if elf[0] != 0x7F || elf[1] != 0x45 || elf[2] != 0x4C || elf[3] != 0x46 { return 0; }
    if elf[4] != 1 { return 0; }
    if elf[5] != 1 { return 0; }
    if U16At(elf, 18) != EM_RISCV { return 0; }
    var tableEnd := TableEnd(elf);
    if tableEnd > |elf| || Phentsize(elf) < PHDR_SIZE { return 0; }
    CopySegments(memory, elf);
    entry := Entry(elf);
  }
}
