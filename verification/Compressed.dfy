/** The compressed decoder against chapter 16 of the RISC-V Unprivileged ISA
    (20191213): an independent table of expansions into 32-bit instructions, and
    exactly where running the 16-bit form equals running its expansion. */
module Compressed {
  import opened Words
  import opened Isa
  import opened HartState
  import opened Execute

  // ----- immediates, bit by bit as tables 16.4 to 16.7 lay them out -----

  function Lw(c: Half): nat
  {
    CBit(c, 0x1000) * 32 + CBit(c, 0x800) * 16 + CBit(c, 0x400) * 8 + CBit(c, 0x40) * 4 + CBit(c, 0x20) * 64
  }

  function Lwsp(c: Half): nat
  {
    CBit(c, 0x1000) * 32 + CBit(c, 0x40) * 16 + CBit(c, 0x20) * 8 + CBit(c, 0x10) * 4 + CBit(c, 8) * 128
    + CBit(c, 4) * 64
  }

  function Swsp(c: Half): nat
  {
    CBit(c, 0x1000) * 32 + CBit(c, 0x800) * 16 + CBit(c, 0x400) * 8 + CBit(c, 0x200) * 4 + CBit(c, 0x100) * 128
    + CBit(c, 0x80) * 64
  }

  function Jump(c: Half): nat
  {
    CBit(c, 0x1000) * 2048 + CBit(c, 0x800) * 16 + CBit(c, 0x400) * 512 + CBit(c, 0x200) * 256 + CBit(c, 0x100) * 1024
    + CBit(c, 0x80) * 64 + CBit(c, 0x40) * 128 + CBit(c, 0x20) * 8 + CBit(c, 0x10) * 4 + CBit(c, 8) * 2
    + CBit(c, 4) * 32
  }

  function Branch(c: Half): nat
  {
    CBit(c, 0x1000) * 256 + CBit(c, 0x800) * 16 + CBit(c, 0x400) * 8 + CBit(c, 0x40) * 128 + CBit(c, 0x20) * 64
    + CBit(c, 0x10) * 4 + CBit(c, 8) * 2 + CBit(c, 4) * 32
  }

  function Addi16sp(c: Half): nat
  {
    CBit(c, 0x1000) * 512 + CBit(c, 0x40) * 16 + CBit(c, 0x20) * 64 + CBit(c, 0x10) * 256 + CBit(c, 8) * 128
    + CBit(c, 4) * 32
  }

  function Imm6(c: Half): nat
  {
    CBit(c, 0x1000) * 32 + CBit(c, 0x40) * 16 + CBit(c, 0x20) * 8 + CBit(c, 0x10) * 4 + CBit(c, 8) * 2 + CBit(c, 4)
  }

  /** A two's complement field of the given size inside a wider one. */
  function Widen(value: nat, size: nat, wide: nat): (r: nat)
    requires value < size <= wide
    ensures r < wide
  {
    if value < size / 2 then value else value + wide - size
  }

  lemma WidenKeepsValue(value: nat, size: nat, wide: nat)
    requires value < size <= wide <= 0x1_0000_0000 && size % 2 == 0 && wide % 2 == 0
    ensures 2 <= size && SignExtend(Widen(value, size, wide), wide) == SignExtend(value, size)
  {
    Euclid(0, wide, Widen(value, size, wide));
    Euclid(0, size, value);
  }

  // ----- the expansion table; None for a reserved or floating-point encoding -----

  function Expand0(c: Half): Option<Word>
  {
    var base, r := CRs1Prime(c), CRs2Prime(c);
    match CFunct3(c)
    case 0 => if CAddi4spnImm(c) == 0 then None else Some(EncodeI(CAddi4spnImm(c), 2, 0, r, 0x13))
    case 2 => Some(EncodeI(Lw(c), base, 2, r, 0x03))
    case 6 => Some(EncodeS(Lw(c), r, base, 2))
    case _ => None
  }

  function ExpandAlu(c: Half): Option<Word>
  {
    var rd, rs2 := CRs1Prime(c), CRs2Prime(c);
    match c / 0x400 % 4
    case 0 => if CBit(c, 0x1000) == 1 then None else Some(EncodeI(Imm6(c), rd, 5, rd, 0x13))
    case 1 => if CBit(c, 0x1000) == 1 then None else Some(EncodeI(0x400 + Imm6(c), rd, 5, rd, 0x13))
    case 2 => Some(EncodeI(Widen(Imm6(c), 64, 0x1000), rd, 7, rd, 0x13))
    case _ =>
      if CBit(c, 0x1000) == 1 then None
      else match c / 0x20 % 4
        case 0 => Some(EncodeR(0x20, rs2, rd, 0, rd, 0x33))
        case 1 => Some(EncodeR(0, rs2, rd, 4, rd, 0x33))
        case 2 => Some(EncodeR(0, rs2, rd, 6, rd, 0x33))
        case _ => Some(EncodeR(0, rs2, rd, 7, rd, 0x33))
  }

  function Expand1(c: Half): Option<Word>
  {
    var rd := CRd(c);
    match CFunct3(c)
    case 0 => Some(EncodeI(Widen(Imm6(c), 64, 0x1000), rd, 0, rd, 0x13))
    case 1 => Some(EncodeJ(Widen(Jump(c), 0x1000, 0x20_0000), 1))
    case 2 => Some(EncodeI(Widen(Imm6(c), 64, 0x1000), 0, 0, rd, 0x13))
    case 3 =>
      if Imm6(c) == 0 then None
      else if rd == 2 then Some(EncodeI(Widen(Addi16sp(c), 1024, 0x1000), 2, 0, 2, 0x13))
      else Some(EncodeU(Widen(Imm6(c), 64, 0x10_0000), rd, 0x37))
    case 4 => ExpandAlu(c)
    case 5 => Some(EncodeJ(Widen(Jump(c), 0x1000, 0x20_0000), 0))
    case 6 => Some(EncodeB(Widen(Branch(c), 512, 0x2000), 0, CRs1Prime(c), 0))
    case _ => Some(EncodeB(Widen(Branch(c), 512, 0x2000), 0, CRs1Prime(c), 1))
  }

  function Expand2(c: Half): Option<Word>
  {
    var rd, rs2 := CRd(c), CRs2(c);
    match CFunct3(c)
    case 0 => if CBit(c, 0x1000) == 1 then None else Some(EncodeI(Imm6(c), rd, 1, rd, 0x13))
    case 2 => if rd == 0 then None else Some(EncodeI(Lwsp(c), 2, 2, rd, 0x03))
    case 4 =>
      if CBit(c, 0x1000) == 0 then
        if rs2 != 0 then Some(EncodeR(0, rs2, 0, 0, rd, 0x33))
        else if rd == 0 then None else Some(EncodeI(0, rd, 0, 0, 0x67))
      else
        if rs2 != 0 then Some(EncodeR(0, rs2, rd, 0, rd, 0x33))
        else if rd == 0 then Some(EBREAK) else Some(EncodeI(0, rd, 0, 1, 0x67))
    case 6 => Some(EncodeS(Swsp(c), rs2, 2, 2))
    case _ => None
  }

  function Expand(c: Half): Option<Word>
  {
    match c % 4
    case 0 => Expand0(c)
    case 1 => Expand1(c)
    case 2 => Expand2(c)
    case _ => None
  }

  // ----- running an expansion at half length -----

  predicate IsJump(w: Word) { Opcode(w) == 0x6F || Opcode(w) == 0x67 }

  /** The outcome of the 32-bit instruction w when it occupies two bytes: the next pc and the link are pc + 2. */
  function AsHalf(h: Hart, w: Word): Outcome
  {
    match Execute32(h, w)
    case Stop(s) => Stop(s)
    case Retire(next, _) =>
      var linked := if IsJump(w) then WriteReg(next, Rd(w), Wrap(h.pc + 2)) else next;
      var taken := Opcode(w) == 0x63 && Taken(Funct3(w), h.regs[Rs1(w)], h.regs[Rs2(w)]);
      Retire(if IsJump(w) || taken then linked else SetPc(linked, h.pc + 2), Some(InsnType.Compressed))
  }

  /** The 16-bit words whose immediate the simulator assembles as the standard does.  Only loads and stores,
      branches and stack adjustments can fail this. */
  predicate Conforms(c: Half)
  {
    match (c % 4, CFunct3(c))
    case (0, 2) => CBit(c, 0x20) == 0
    case (0, 6) => CBit(c, 0x20) == 0
    case (1, 3) => CRd(c) == 2 ==> SameBits(c)
    case (1, 6) => CBit(c, 0x40) == 0
    case (1, 7) => CBit(c, 0x40) == 0
    case (2, 2) => SameBits(c)
    case (2, 6) => c == 0xC002
    case _ => true
  }

  /** Bits 2 to 6 agree. */
  predicate SameBits(c: Half) { c / 4 % 32 == 0 || c / 4 % 32 == 31 }

  /** The jumps on which rv_step's test "pc unchanged, so advance" and the missing clearing of bit 0 do no
      harm: a jump not to itself, an even register target, and no C.JALR through its own link register
      unless that register already holds the link. */
  predicate Lands(h: Hart, c: Half)
  {
    match (c % 4, CFunct3(c))
    case (1, 1) => Jump(c) != 0
    case (1, 5) => Jump(c) != 0
    case (1, 6) => h.regs[CRs1Prime(c)] == 0 ==> Branch(c) != 0
    case (1, 7) => h.regs[CRs1Prime(c)] != 0 ==> Branch(c) != 0
    case (2, 4) =>
      if CRs2(c) != 0 || CRd(c) == 0 then true
      else if CFunct4(c) == 9 && CRd(c) == 1 then h.regs[1] - h.regs[1] % 2 == Wrap(h.pc + 2)
      else h.regs[CRd(c)] % 2 == 0 && h.regs[CRd(c)] != h.pc
    case _ => true
  }

  // ----- the simulator's immediates against the tables -----

  lemma SplitParts(q: nat, high: nat, low: nat, w: nat, r: nat, k: nat)
    requires q == high * k + low && r < w && low < k
    ensures q * w + r == high * (k * w) + (low * w + r)
    ensures 0 <= low * w && low * w + r < k * w
  {
    MulAtLeast(k - 1 - low, w);
    assert k * w - w - low * w == (k - 1 - low) * w;
    assert (high * k + low) * w == high * (k * w) + low * w;
  }

  lemma QuotientOf(x: nat, d: nat)
    requires d > 0
    ensures x == x / d * d + x % d && x % d < d
  {
  }

  lemma QuotientIs(x: nat, q: nat, d: nat, r: nat)
    requires x == q * d + r && r < d
    ensures x / d == q
  {
    Euclid(q, d, r);
  }

  /** Dividing by w and then by k divides by k * w. */
  lemma Split(x: nat, w: nat, k: nat)
    requires 0 < w && 0 < k
    ensures k * w > 0 && x / (k * w) == x / w / k
  {
    QuotientOf(x, w);
    QuotientOf(x / w, k);
    SplitParts(x / w, x / w / k, x / w % k, w, x % w, k);
    QuotientIs(x, x / w / k, k * w, x / w % k * w + x % w);
  }

  lemma TwoBits(c: Half, w: nat)
    requires w > 0
    ensures c / w % 4 == CBit(c, 2 * w) * 2 + CBit(c, w)
    ensures c / w / 4 == c / (4 * w)
  {
    Split(c, w, 2);
    Split(c, w, 4);
    LowBits(c / w);
  }

  lemma LowBits(q: nat)
    ensures q % 4 == q / 2 % 2 * 2 + q % 2 && q % 8 == q / 4 % 2 * 4 + q % 4
  {
    Euclid(q / 2 / 2, 4, q / 2 % 2 * 2 + q % 2);
    Euclid(q / 4 / 2, 8, q / 4 % 2 * 4 + q % 4);
  }

  lemma ThreeBits(c: Half, w: nat)
    requires w > 0
    ensures c / w % 8 == CBit(c, 4 * w) * 4 + CBit(c, 2 * w) * 2 + CBit(c, w)
  {
    TwoBits(c, w);
    LowBits(c / w);
  }

  lemma FiveBits(c: Half)
    ensures CShamt(c) == Imm6(c)
    ensures c / 4 % 32 == CBit(c, 0x40) * 16 + CBit(c, 0x20) * 8 + CBit(c, 0x10) * 4 + CBit(c, 8) * 2 + CBit(c, 4)
  {
    hide CBit;
    ThreeBits(c, 4);
    TwoBits(c, 0x20);
    Split(c, 4, 8);
    FiveOf(c / 4);
  }

  /** The offset of C.LW and C.SW is the standard's exactly when bit 5 is clear. */
  lemma LwOffsetIff(c: Half)
    ensures CLwOffset(c) == Lw(c) <==> CBit(c, 0x20) == 0
  {
    hide CBit;
    ThreeBits(c, 0x400);
    TwoBits(c, 0x20);
  }

  lemma JumpOffsetAgrees(c: Half)
    ensures CJumpOffset(c) == SignExtend(Jump(c), 0x1000)
  {
    hide CBit, SignExtend;
    ThreeBits(c, 8);
    TwoBits(c, 0x200);
  }

  /** A two's complement field below its modulus determines its sign extension. */
  lemma SignExtendInjective(a: nat, b: nat, modulus: nat)
    requires a < modulus && b < modulus && 2 <= modulus <= 0x1_0000_0000
    ensures SignExtend(a, modulus) == SignExtend(b, modulus) <==> a == b
  {
    Euclid(0, modulus, a);
    Euclid(0, modulus, b);
  }

  lemma SignExtendZero(a: nat, modulus: nat)
    requires a < modulus && 2 <= modulus <= 0x1_0000_0000
    ensures SignExtend(a, modulus) == 0 <==> a == 0
  {
    Euclid(0, modulus, a);
  }

  /** The offset of C.BEQZ and C.BNEZ is the standard's exactly when bit 6 is clear. */
  lemma BranchOffsetIff(c: Half)
    ensures CBranchOffset(c) == SignExtend(Branch(c), 512) <==> CBit(c, 0x40) == 0
  {
    hide CBit, SignExtend;
    TwoBits(c, 8);
    TwoBits(c, 0x400);
    var simulated := c / 8 % 4 * 2 + c / 0x400 % 4 * 8 + CBit(c, 4) * 32 + CBit(c, 0x20) * 64 + CBit(c, 0x1000) * 256;
    SignExtendInjective(simulated, Branch(c), 512);
  }

  /** The bit equations behind C.ADDI16SP and C.LWSP. */
  lemma RotatedBits(b6: nat, b5: nat, b4: nat, b3: nat, b2: nat)
    requires b6 < 2 && b5 < 2 && b4 < 2 && b3 < 2 && b2 < 2
    ensures b6 * 256 + b5 * 128 + b4 * 64 + b3 * 32 + b2 * 16 == b6 * 16 + b5 * 64 + b4 * 256 + b3 * 128 + b2 * 32
            <==> b6 == b5 == b4 == b3 == b2
    ensures b6 * 128 + b5 * 64 + b4 * 16 + b3 * 8 + b2 * 4 == b6 * 16 + b5 * 8 + b4 * 4 + b3 * 128 + b2 * 64
            <==> b6 == b5 == b4 == b3 == b2
    ensures b6 * 16 + b5 * 8 + b4 * 4 + b3 * 2 + b2 in {0, 31} <==> b6 == b5 == b4 == b3 == b2
  {
  }

  lemma StackOffsetBits(c: Half)
    ensures CLwspOffset(c) == CBit(c, 0x40) * 128 + CBit(c, 0x20) * 64 + CBit(c, 0x1000) * 32 + CBit(c, 0x10) * 16
                              + CBit(c, 8) * 8 + CBit(c, 4) * 4
    ensures CSwspOffset(c) == CBit(c, 0x800) * 128 + CBit(c, 0x400) * 64 + CBit(c, 0x40) * 32 + CBit(c, 0x20) * 16
  {
    hide CBit;
    TwoBits(c, 0x20);
    ThreeBits(c, 4);
    TwoBits(c, 0x400);
  }

  lemma SameBitsIff(c: Half)
    ensures SameBits(c) <==> CBit(c, 0x40) == CBit(c, 0x20) == CBit(c, 0x10) == CBit(c, 8) == CBit(c, 4)
  {
    hide CBit;
    FiveBits(c);
    RotatedBits(CBit(c, 0x40), CBit(c, 0x20), CBit(c, 0x10), CBit(c, 8), CBit(c, 4));
  }

  /** C.ADDI16SP and C.LWSP decode as in the standard exactly when bits 2 to 6 agree. */
  lemma StackOffsetsIff(c: Half)
    ensures CAddi16spImm(c) == SignExtend(Addi16sp(c), 1024) <==> SameBits(c)
    ensures CLwspOffset(c) == Lwsp(c) <==> SameBits(c)
  {
    hide CBit, SignExtend, SameBits, CLwspOffset, CSwspOffset;
    SameBitsIff(c);
    StackOffsetBits(c);
    RotatedBits(CBit(c, 0x40), CBit(c, 0x20), CBit(c, 0x10), CBit(c, 8), CBit(c, 4));
    var simulated := CBit(c, 0x1000) * 512 + CBit(c, 0x40) * 256 + CBit(c, 0x20) * 128 + CBit(c, 0x10) * 64
                     + CBit(c, 8) * 32 + CBit(c, 4) * 16;
    SignExtendInjective(simulated, Addi16sp(c), 1024);
  }

  lemma SwspFields(c: Half)
    requires c % 4 == 2 && CFunct3(c) == 6
    ensures CRd(c) == CBit(c, 0x800) * 16 + CBit(c, 0x400) * 8 + CBit(c, 0x200) * 4 + CBit(c, 0x100) * 2 + CBit(c, 0x80)
    ensures c == 0xC000 + CBit(c, 0x1000) * 0x1000 + CRd(c) * 0x80 + CRs2(c) * 4 + 2
  {
    SwspWord(c);
    hide CBit, CFunct3, CRs2;
    TwoBits(c, 0x400);
    ThreeBits(c, 0x80);
    FiveOf(c / 0x80);
  }

  lemma FiveOf(q: nat)
    ensures q % 32 == q / 8 % 4 * 8 + q % 8
  {
    Euclid(q / 8 / 4, 32, q / 8 % 4 * 8 + q % 8);
  }

  lemma SwspWord(c: Half)
    requires c % 4 == 2 && CFunct3(c) == 6
    ensures c == 0xC000 + CBit(c, 0x1000) * 0x1000 + CRd(c) * 0x80 + CRs2(c) * 4 + 2
  {
    assert c / 0x1000 == 12 + CBit(c, 0x1000);
    assert c / 0x80 == c / 0x1000 * 32 + CRd(c);
    assert c / 4 == c / 0x80 * 32 + CRs2(c);
  }

  lemma SwspEquations(b12: nat, b11: nat, b10: nat, b9: nat, b8: nat, b7: nat, b6: nat, b5: nat, b4: nat, b3: nat,
                      b2: nat)
    requires b12 < 2 && b11 < 2 && b10 < 2 && b9 < 2 && b8 < 2 && b7 < 2
    requires b6 < 2 && b5 < 2 && b4 < 2 && b3 < 2 && b2 < 2
    requires b11 * 128 + b10 * 64 + b6 * 32 + b5 * 16 == b12 * 32 + b11 * 16 + b10 * 8 + b9 * 4 + b8 * 128 + b7 * 64
    requires b11 * 16 + b10 * 8 + b9 * 4 + b8 * 2 + b7 == b6 * 16 + b5 * 8 + b4 * 4 + b3 * 2 + b2
    ensures b12 == b11 == b10 == b9 == b8 == b7 == b6 == b5 == b4 == b3 == b2 == 0
  {
    assert b10 == 0 && b9 == 0;
    assert b11 == b5 && b12 == b6;
  }

  /** C.SWSP stores the standard's register at the standard's offset for one encoding only. */
  lemma SwspIff(c: Half)
    requires c % 4 == 2 && CFunct3(c) == 6
    ensures CSwspOffset(c) == Swsp(c) && CRd(c) == CRs2(c) <==> c == 0xC002
  {
    if CSwspOffset(c) == Swsp(c) && CRd(c) == CRs2(c) {
      SwspOnly(c);
    }
  }

  lemma SwspOnly(c: Half)
    requires c % 4 == 2 && CFunct3(c) == 6 && CSwspOffset(c) == Swsp(c) && CRd(c) == CRs2(c)
    ensures c == 0xC002
  {
    hide *;
    assert CBit(c, 0x1000) == 0 && CRd(c) == 0 by {
      SwspRegisterBits(c);
      SwspOffsetBits(c);
      SwspEquations(CBit(c, 0x1000), CBit(c, 0x800), CBit(c, 0x400), CBit(c, 0x200), CBit(c, 0x100), CBit(c, 0x80),
                    CBit(c, 0x40), CBit(c, 0x20), CBit(c, 0x10), CBit(c, 8), CBit(c, 4));
      Rs2Bits(c);
    }
    SwspFields(c);
  }

  lemma SwspRegisterBits(c: Half)
    requires c % 4 == 2 && CFunct3(c) == 6 && CRd(c) == CRs2(c)
    ensures CBit(c, 0x800) * 16 + CBit(c, 0x400) * 8 + CBit(c, 0x200) * 4 + CBit(c, 0x100) * 2 + CBit(c, 0x80)
            == CBit(c, 0x40) * 16 + CBit(c, 0x20) * 8 + CBit(c, 0x10) * 4 + CBit(c, 8) * 2 + CBit(c, 4)
  {
    hide *;
    SwspFields(c);
    Rs2Bits(c);
  }

  lemma SwspOffsetBits(c: Half)
    requires CSwspOffset(c) == Swsp(c)
    ensures CBit(c, 0x800) * 128 + CBit(c, 0x400) * 64 + CBit(c, 0x40) * 32 + CBit(c, 0x20) * 16
            == CBit(c, 0x1000) * 32 + CBit(c, 0x800) * 16 + CBit(c, 0x400) * 8 + CBit(c, 0x200) * 4
               + CBit(c, 0x100) * 128 + CBit(c, 0x80) * 64
  {
    hide CBit, CSwspOffset;
    StackOffsetBits(c);
  }

  lemma Rs2Bits(c: Half)
    ensures CRs2(c) == CBit(c, 0x40) * 16 + CBit(c, 0x20) * 8 + CBit(c, 0x10) * 4 + CBit(c, 8) * 2 + CBit(c, 4)
  {
    hide CBit;
    FiveBits(c);
  }

  // ----- what each expansion does at half length -----

  lemma HalfImm(h: Hart, imm: nat, rs1: nat, funct3: nat, rd: nat)
    requires imm < 0x1000 && rs1 < 32 && funct3 < 8 && rd < 32
    ensures AsHalf(h, EncodeI(imm, rs1, funct3, rd, 0x13))
            == Retire(SetPc(WriteOption(h, rd, AluImm(funct3, imm, h.regs[rs1], SignExtend(imm, 0x1000))), h.pc + 2),
                      Some(InsnType.Compressed))
  {
    hide EncodeI, Opcode, Rd, Rs1, Funct3, CsrAddr, ImmI, SignExtend, AluImm;
    DecodeI(imm, rs1, funct3, rd, 0x13);
  }

  lemma HalfReg(h: Hart, funct7: nat, rs2: nat, rs1: nat, funct3: nat, rd: nat)
    requires funct7 < 128 && funct7 != 1 && rs2 < 32 && rs1 < 32 && funct3 < 8 && rd < 32
    ensures AsHalf(h, EncodeR(funct7, rs2, rs1, funct3, rd, 0x33))
            == Retire(SetPc(WriteOption(h, rd, AluOp(funct3, funct7, h.regs[rs1], h.regs[rs2])), h.pc + 2),
                      Some(InsnType.Compressed))
  {
    hide EncodeR, Opcode, Rd, Rs1, Rs2, Funct3, Funct7, AluOp, MulDiv;
    DecodeR(funct7, rs2, rs1, funct3, rd, 0x33);
  }

  lemma HalfLui(h: Hart, imm20: nat, rd: nat)
    requires imm20 < 0x10_0000 && rd < 32
    ensures AsHalf(h, EncodeU(imm20, rd, 0x37))
            == Retire(SetPc(WriteReg(h, rd, imm20 * 0x1000), h.pc + 2), Some(InsnType.Compressed))
  {
    hide EncodeU, Opcode, Rd, ImmU, Rs1, Rs2;
    DecodeU(imm20, rd, 0x37);
  }

  lemma HalfLoad(h: Hart, imm: nat, rs1: nat, rd: nat)
    requires imm < 0x800 && rs1 < 32 && rd < 32
    ensures var r := ReadU32(h, Wrap(h.regs[rs1] + imm));
            AsHalf(h, EncodeI(imm, rs1, 2, rd, 0x03))
            == Retire(SetPc(WriteReg(r.hart, rd, r.value), h.pc + 2), Some(InsnType.Compressed))
  {
    hide EncodeI, Opcode, Rd, Rs1, Rs2, Funct3, ImmI, ReadU32, SignExtend;
    DecodeI(imm, rs1, 2, rd, 0x03);
    SmallExtend(imm);
  }

  lemma HalfStore(h: Hart, imm: nat, rs2: nat, rs1: nat)
    requires imm < 0x800 && rs1 < 32 && rs2 < 32
    ensures AsHalf(h, EncodeS(imm, rs2, rs1, 2))
            == Retire(SetPc(WriteU32(h, Wrap(h.regs[rs1] + imm), h.regs[rs2]), h.pc + 2), Some(InsnType.Compressed))
  {
    hide EncodeS, Opcode, Rs1, Rs2, Rd, Funct3, ImmS, WriteU32, SignExtend;
    DecodeS(imm, rs2, rs1, 2);
    SmallExtend(imm);
  }

  /** The second write of a register is the one that stays. */
  lemma Relink(h: Hart, rd: nat, a: Word, b: Word, target: int)
    requires rd < 32
    ensures WriteReg(SetPc(WriteReg(h, rd, a), target), rd, b) == SetPc(WriteReg(h, rd, b), target)
  {
    assert rd != 0 ==> h.regs[rd := a][rd := b] == h.regs[rd := b];
  }

  lemma HalfJal(h: Hart, imm: nat, rd: nat)
    requires imm < 0x20_0000 && imm % 2 == 0 && rd < 32
    ensures AsHalf(h, EncodeJ(imm, rd))
            == Retire(SetPc(WriteReg(h, rd, Wrap(h.pc + 2)), h.pc + SignExtend(imm, 0x20_0000)),
                      Some(InsnType.Compressed))
  {
    hide EncodeJ, Opcode, Rd, Rs1, Rs2, ImmJ, SignExtend, WriteReg, SetPc;
    DecodeJ(imm, rd);
    Relink(h, rd, Wrap(h.pc + 4), Wrap(h.pc + 2), h.pc + SignExtend(imm, 0x20_0000));
  }

  lemma HalfJalr(h: Hart, rs1: nat, rd: nat)
    requires rs1 < 32 && rd < 32
    ensures AsHalf(h, EncodeI(0, rs1, 0, rd, 0x67))
            == Retire(SetPc(WriteReg(h, rd, Wrap(h.pc + 2)), h.regs[rs1] - h.regs[rs1] % 2), Some(InsnType.Compressed))
  {
    hide EncodeI, Opcode, Rd, Rs1, Rs2, ImmI, SignExtend, WriteReg, SetPc;
    DecodeI(0, rs1, 0, rd, 0x67);
    SmallExtend(0);
    Relink(h, rd, Wrap(h.pc + 4), Wrap(h.pc + 2), h.regs[rs1] - h.regs[rs1] % 2);
  }

  lemma HalfBranch(h: Hart, imm: nat, rs1: nat, funct3: nat)
    requires imm < 0x2000 && imm % 2 == 0 && rs1 < 32 && funct3 < 8
    ensures AsHalf(h, EncodeB(imm, 0, rs1, funct3))
            == Retire(SetPc(h, h.pc + (if Taken(funct3, h.regs[rs1], h.regs[0]) then SignExtend(imm, 0x2000) else 2)),
                      Some(InsnType.Compressed))
  {
    hide EncodeB, Opcode, Rd, Rs1, Rs2, Funct3, ImmB, SignExtend, Taken;
    DecodeB(imm, 0, rs1, funct3);
  }

  // ----- the refinement -----

  /** A compressed instruction as rv_step runs it. */
  function Run(h: Hart, c: Half): Outcome
  {
    match Execute16(h, c)
    case None => Stop(h)
    case Some(next) => Retire(if next.pc == h.pc then SetPc(next, next.pc + 2) else next, Some(InsnType.Compressed))
  }

  lemma AccessKeepsPc(h: Hart, addr: Word, value: Word)
    ensures ReadU32(h, addr).hart.pc == h.pc && WriteU32(h, addr, value).pc == h.pc
  {
  }

  lemma Refines0(h: Hart, c: Half)
    requires c % 4 == 0 && Expand0(c).Some? && Conforms(c)
    ensures Run(h, c) == AsHalf(h, Expand0(c).value)
  {
    hide AsHalf, ReadU32, WriteU32, CLwOffset, Lw, CAddi4spnImm, EncodeI, EncodeS;
    var addr := Wrap(h.regs[CRs1Prime(c)] + CLwOffset(c));
    if CFunct3(c) == 0 {
      Addi4spnSmall(c);
      HalfImm(h, CAddi4spnImm(c), 2, 0, CRs2Prime(c));
    } else {
      LwOffsetIff(c);
      ImmediateBounds(c);
      AccessKeepsPc(h, addr, h.regs[CRs2Prime(c)]);
      if CFunct3(c) == 2 {
        HalfLoad(h, Lw(c), CRs1Prime(c), CRs2Prime(c));
      } else {
        HalfStore(h, Lw(c), CRs2Prime(c), CRs1Prime(c));
      }
    }
  }

  lemma Addi4spnSmall(c: Half)
    ensures CAddi4spnImm(c) < 0x800 && SignExtend(CAddi4spnImm(c), 0x1000) == CAddi4spnImm(c)
  {
    hide CBit;
  }

  lemma ImmediateBounds(c: Half)
    ensures Lw(c) < 0x800 && Lwsp(c) < 0x800 && Swsp(c) < 0x800 && Addi16sp(c) < 1024 && Imm6(c) < 64
  {
    hide CBit;
  }

  lemma Imm6Extends(c: Half)
    ensures SignExtend(Widen(Imm6(c), 64, 0x1000), 0x1000) == CImm6(c)
    ensures Widen(Imm6(c), 64, 0x10_0000) * 0x1000 == Wrap(CImm6(c) * 0x1000)
  {
    hide CBit;
    FiveBits(c);
    WidenKeepsValue(Imm6(c), 64, 0x1000);
    var v := Imm6(c);
    assert CImm6(c) == if v < 32 then v else v + 0x1_0000_0000 - 64;
    if v >= 32 {
      assert CImm6(c) * 0x1000 == 0xFFF * 0x1_0000_0000 + (v + 0x10_0000 - 64) * 0x1000;
    }
  }

  lemma RefinesAlu(h: Hart, c: Half)
    requires c % 4 == 1 && CFunct3(c) == 4 && ExpandAlu(c).Some?
    ensures Run(h, c) == AsHalf(h, ExpandAlu(c).value)
  {
    hide AsHalf, EncodeI, EncodeR, ShiftRight, ShiftRightArith, And, OrWord, XorWord, Imm6, CImm6, Widen, SignExtend,
         CBit;
    var rd, rs2 := CRs1Prime(c), CRs2Prime(c);
    FiveBits(c);
    Imm6Extends(c);
    match c / 0x400 % 4
    case 0 => HalfImm(h, Imm6(c), rd, 5, rd); ShiftByZero(h, rd);
    case 1 => HalfImm(h, 0x400 + Imm6(c), rd, 5, rd); ShiftByZero(h, rd);
    case 2 => HalfImm(h, Widen(Imm6(c), 64, 0x1000), rd, 7, rd);
    case _ =>
      match c / 0x20 % 4
      case 0 => HalfReg(h, 0x20, rs2, rd, 0, rd);
      case 1 => HalfReg(h, 0, rs2, rd, 4, rd);
      case 2 => HalfReg(h, 0, rs2, rd, 6, rd);
      case _ => HalfReg(h, 0, rs2, rd, 7, rd);
  }

  lemma ShiftByZero(h: Hart, rd: nat)
    requires rd < 32
    ensures WriteReg(h, rd, ShiftRight(h.regs[rd], 0)) == h
    ensures WriteReg(h, rd, ShiftRightArith(h.regs[rd], 0)) == h
    ensures WriteReg(h, rd, ShiftLeft(h.regs[rd], 0)) == h
  {
    assert h.regs[rd := h.regs[rd]] == h.regs;
  }

  lemma ImmediateSum(field: nat, a: Word, imm: Word)
    ensures AluImm(0, field, a, imm) == Some(Wrap(a + imm)) && Wrap(0 + imm) == imm
  {
  }

  lemma RunsInPlace(h: Hart, c: Half, next: Hart)
    requires Execute16(h, c) == Some(next) && next.pc == h.pc
    ensures Run(h, c) == Retire(SetPc(next, h.pc + 2), Some(InsnType.Compressed))
  {
    hide Execute16;
  }

  lemma AddiRuns(h: Hart, c: Half)
    requires c % 4 == 1 && CFunct3(c) in {0, 2}
    ensures Execute16(h, c)
            == Some(WriteReg(h, CRd(c), if CFunct3(c) == 0 then Wrap(h.regs[CRd(c)] + CImm6(c)) else CImm6(c)))
  {
    hide CImm6, Quadrant0, Quadrant2, Quadrant1Alu, Wrap;
  }

  /** C.ADDI and C.LI. */
  lemma RefinesAddi(h: Hart, c: Half)
    requires h.regs[0] == 0
    requires c % 4 == 1 && CFunct3(c) in {0, 2}
    ensures Expand1(c).Some? && Run(h, c) == AsHalf(h, Expand1(c).value)
  {
    hide AsHalf, EncodeI, Imm6, CImm6, Widen, SignExtend, Run, Execute16, AluImm, Wrap;
    ImmediateBounds(c);
    Imm6Extends(c);
    AddiRuns(h, c);
    var from := if CFunct3(c) == 0 then CRd(c) else 0;
    var field := Widen(Imm6(c), 64, 0x1000);
    ImmediateSum(field, h.regs[from], CImm6(c));
    RunsInPlace(h, c, WriteReg(h, CRd(c), Wrap(h.regs[from] + CImm6(c))));
    HalfImm(h, field, from, 0, CRd(c));
  }

  /** C.LUI and C.ADDI16SP. */
  lemma RefinesUpper(h: Hart, c: Half)
    requires c % 4 == 1 && CFunct3(c) == 3 && Expand1(c).Some? && Conforms(c)
    ensures Run(h, c) == AsHalf(h, Expand1(c).value)
  {
    hide AsHalf, EncodeI, EncodeU, Imm6, CImm6, CAddi16spImm, Addi16sp, Widen, SignExtend, SameBits;
    ImmediateBounds(c);
    Imm6Extends(c);
    if CRd(c) == 2 {
      StackOffsetsIff(c);
      WidenKeepsValue(Addi16sp(c), 1024, 0x1000);
      HalfImm(h, Widen(Addi16sp(c), 1024, 0x1000), 2, 0, 2);
    } else {
      LuiNonzero(c);
      HalfLui(h, Widen(Imm6(c), 64, 0x10_0000), CRd(c));
    }
  }

  lemma LuiNonzero(c: Half)
    ensures Imm6(c) == 0 <==> Wrap(CImm6(c) * 0x1000) == 0
  {
    hide CBit;
    Imm6Extends(c);
  }

  lemma JumpEven(c: Half)
    ensures Jump(c) < 0x1000 && Widen(Jump(c), 0x1000, 0x20_0000) % 2 == 0
    ensures Branch(c) < 512 && Widen(Branch(c), 512, 0x2000) % 2 == 0
  {
    hide CBit;
  }

  /** Landing on pc + offset: rv_step takes an unchanged pc for a sequential instruction. */
  lemma SelfJump(pc: Word, offset: Word)
    ensures Wrap(pc + offset) == pc <==> offset == 0
    ensures Wrap(pc + 2) != pc
  {
  }

  /** C.J and C.JAL. */
  lemma RefinesJump(h: Hart, c: Half)
    requires c % 4 == 1 && CFunct3(c) in {1, 5}
    ensures Expand1(c).Some? && (Run(h, c) == AsHalf(h, Expand1(c).value) <==> Lands(h, c))
  {
    hide AsHalf, EncodeJ, Jump, CJumpOffset, Widen, SignExtend;
    JumpEven(c);
    JumpOffsetAgrees(c);
    WidenKeepsValue(Jump(c), 0x1000, 0x20_0000);
    SelfJump(h.pc, CJumpOffset(c));
    SignExtendZero(Jump(c), 0x1000);
    HalfJal(h, Widen(Jump(c), 0x1000, 0x20_0000), if CFunct3(c) == 1 then 1 else 0);
  }

  /** C.BEQZ and C.BNEZ. */
  lemma RefinesBranch(h: Hart, c: Half)
    requires h.regs[0] == 0
    requires c % 4 == 1 && CFunct3(c) in {6, 7} && Conforms(c)
    ensures Expand1(c).Some? && (Run(h, c) == AsHalf(h, Expand1(c).value) <==> Lands(h, c))
  {
    hide AsHalf, EncodeB, Branch, CBranchOffset, Widen, SignExtend, CBit;
    JumpEven(c);
    BranchOffsetIff(c);
    WidenKeepsValue(Branch(c), 512, 0x2000);
    SelfJump(h.pc, CBranchOffset(c));
    SignExtendZero(Branch(c), 512);
    HalfBranch(h, Widen(Branch(c), 512, 0x2000), CRs1Prime(c), if CFunct3(c) == 6 then 0 else 1);
  }

  /** C.SLLI, C.LWSP and C.SWSP. */
  lemma RefinesStack(h: Hart, c: Half)
    requires c % 4 == 2 && CFunct3(c) != 4 && Expand2(c).Some? && Conforms(c)
    ensures Run(h, c) == AsHalf(h, Expand2(c).value)
  {
    hide AsHalf, EncodeI, EncodeS, ShiftLeft, Imm6, Lwsp, Swsp, CLwspOffset, CSwspOffset, ReadU32, WriteU32, SameBits,
         CBit;
    ImmediateBounds(c);
    match CFunct3(c)
    case 0 =>
      FiveBits(c);
      ShiftByZero(h, CRd(c));
      HalfImm(h, Imm6(c), CRd(c), 1, CRd(c));
    case 2 =>
      StackOffsetsIff(c);
      AccessKeepsPc(h, Wrap(h.regs[2] + CLwspOffset(c)), 0);
      HalfLoad(h, Lwsp(c), 2, CRd(c));
    case _ =>
      SwspIff(c);
      AccessKeepsPc(h, Wrap(h.regs[2] + CSwspOffset(c)), h.regs[CRd(c)]);
      HalfStore(h, Swsp(c), CRs2(c), 2);
  }

  /** C.MV and C.ADD. */
  lemma RefinesMove(h: Hart, c: Half)
    requires h.regs[0] == 0
    requires c % 4 == 2 && CFunct3(c) == 4 && CRs2(c) != 0
    ensures Expand2(c).Some? && Run(h, c) == AsHalf(h, Expand2(c).value)
  {
    hide AsHalf, EncodeI, EncodeR;
    assert CFunct4(c) == 8 + CBit(c, 0x1000);
    HalfReg(h, 0, CRs2(c), if CBit(c, 0x1000) == 0 then 0 else CRd(c), 0, CRd(c));
  }

  /** C.JR. */
  lemma RefinesJr(h: Hart, c: Half)
    requires c % 4 == 2 && CFunct4(c) == 8 && CRs2(c) == 0 && CRd(c) != 0
    ensures Expand2(c).Some? && (Run(h, c) == AsHalf(h, Expand2(c).value) <==> Lands(h, c))
  {
    hide AsHalf, EncodeI;
    var target := h.regs[CRd(c)];
    assert Execute16(h, c) == Some(h.(pc := target));
    HalfJalr(h, CRd(c), 0);
    SelfJump(h.pc, 0);
  }

  /** C.JALR; through x1 the simulator jumps to the link it has just written. */
  lemma RefinesJalr(h: Hart, c: Half)
    requires c % 4 == 2 && CFunct4(c) == 9 && CRs2(c) == 0 && CRd(c) != 0
    ensures Expand2(c).Some? && (Run(h, c) == AsHalf(h, Expand2(c).value) <==> Lands(h, c))
  {
    hide AsHalf, EncodeI, Execute16, CFunct3;
    JalrRuns(h, c);
    JalrExpands(c);
    HalfJalr(h, CRd(c), 1);
    SelfJump(h.pc, 0);
  }

  lemma JalrRuns(h: Hart, c: Half)
    requires c % 4 == 2 && CFunct4(c) == 9 && CRs2(c) == 0 && CRd(c) != 0
    ensures Execute16(h, c)
            == Some(SetPc(WriteReg(h, 1, Wrap(h.pc + 2)), if CRd(c) == 1 then h.pc + 2 else h.regs[CRd(c)]))
  {
    hide ReadU32, WriteU32, CShamt, CLwspOffset, CSwspOffset, ShiftLeft, Quadrant0, Quadrant1;
    var linked := WriteReg(h, 1, Wrap(h.pc + 2));
    assert linked.regs[CRd(c)] == if CRd(c) == 1 then Wrap(h.pc + 2) else h.regs[CRd(c)];
  }

  lemma JalrExpands(c: Half)
    requires c % 4 == 2 && CFunct4(c) == 9 && CRs2(c) == 0 && CRd(c) != 0
    ensures CFunct3(c) == 4 && Expand2(c) == Some(EncodeI(0, CRd(c), 0, 1, 0x67))
  {
    hide EncodeI;
  }

  lemma Funct4Bit(c: Half)
    requires CFunct3(c) == 4
    ensures CFunct4(c) == 8 + CBit(c, 0x1000)
  {
  }

  /** C.MV, C.ADD, C.JR, C.JALR and C.EBREAK. */
  lemma RefinesRegister(h: Hart, c: Half)
    requires h.regs[0] == 0
    requires c % 4 == 2 && CFunct3(c) == 4 && Expand2(c).Some?
    ensures Run(h, c) == AsHalf(h, Expand2(c).value) <==> Lands(h, c)
  {
    hide AsHalf, EncodeI, EncodeR, CBit;
    if CRs2(c) != 0 {
      RefinesMove(h, c);
    } else if CRd(c) != 0 {
      Funct4Bit(c);
      if CFunct4(c) == 8 { RefinesJr(h, c); } else { RefinesJalr(h, c); }
    } else {
      Funct4Bit(c);
      HalfBreak(h);
    }
  }

  lemma HalfBreak(h: Hart)
    ensures AsHalf(h, EBREAK) == Stop(h)
  {
    hide ComputeInsn, LoadInsn, StoreInsn, TransferInsn, WriteReg, ReadCsr, WriteCsr, CsrValue, Taken, MieSet;
    assert Opcode(EBREAK) == 0x73 && Funct3(EBREAK) == 0;
  }

  /** A conforming 16-bit word runs as its expansion exactly when its jump, if it is one, lands where the
      simulator can tell. */
  lemma RunIsExpansion(h: Hart, c: Half)
    requires h.regs[0] == 0 && Expand(c).Some? && Conforms(c)
    ensures Run(h, c) == AsHalf(h, Expand(c).value) <==> Lands(h, c)
  {
    hide AsHalf, Run, Expand0, Expand1, ExpandAlu, Expand2;
    var f := CFunct3(c);
    match c % 4
    case 0 => Refines0(h, c);
    case 1 =>
      if f in {0, 2} { RefinesAddi(h, c); }
      else if f == 3 { RefinesUpper(h, c); }
      else if f == 4 { assert Expand1(c) == ExpandAlu(c) by { AluExpansion(c); } RefinesAlu(h, c); }
      else if f in {1, 5} { RefinesJump(h, c); }
      else { RefinesBranch(h, c); }
    case _ => if f == 4 { RefinesRegister(h, c); } else { RefinesStack(h, c); }
  }

  lemma AluExpansion(c: Half)
    requires CFunct3(c) == 4
    ensures Expand1(c) == ExpandAlu(c)
  {
  }

  /** RV32C refines RV32I: what rv_step makes of a fetched word whose low half is a conforming compressed
      instruction is the 32-bit expansion at half length, exactly when the jump lands. */
  lemma CompressedRefines(h: Hart, insn: Word)
    requires insn % 4 != 3
    requires h.regs[0] == 0 && Expand(insn % 0x1_0000).Some? && Conforms(insn % 0x1_0000)
    ensures Execute.Execute(h, insn) == AsHalf(h, Expand(insn % 0x1_0000).value) <==> Lands(h, insn % 0x1_0000)
  {
    hide AsHalf, Execute16, Expand;
    assert Execute.Execute(h, insn) == Run(h, insn % 0x1_0000);
    RunIsExpansion(h, insn % 0x1_0000);
  }

  // ----- the deviations are real -----

  /** A hart on which register i holds i, so that offsets and registers can be told apart. */
  function Probe(base: Word, regs: RegFile, ram: Ram): Hart
  {
    Hart(true, regs, ram, base, 0, 0, false, Csrs(0, 0, 0, 0, 0, 0), Htif(0, 0, 0, 0, false, 0, false),
         Registers(seq(64, _ => 0)))
  }

  function Numbered(): RegFile { seq(32, i requires 0 <= i < 32 => i as Word) }

  function Marked(at: nat): Ram { seq(512, i => if i == at then 1 else 0) }

  function Filled(): Ram { seq(512, _ => 0xFF) }

  lemma ProbeLoad(base: nat, at: nat, offset: nat)
    requires base < 32 && at < 256 && offset < 256
    ensures var r := ReadU32(Probe(base, Numbered(), Marked(at)), Wrap(base + offset));
            r.value % 2 == (if at == offset then 1 else 0) && r.hart == Probe(base, Numbered(), Marked(at))
  {
    hide Peek32, MmioLoad;
    var h := Probe(base, Numbered(), Marked(at));
    assert ReadU32(h, Wrap(base + offset)) == Loaded(h, Peek32(h.ram, offset));
    PeekLow(h.ram, offset);
  }

  lemma PeekLow(ram: Ram, at: nat)
    requires at + 4 <= |ram|
    ensures Peek32(ram, at) % 2 == ram[at] as int % 2
  {
  }

  lemma ProbeStore(base: nat, offset: nat, value: Word)
    requires base < 32 && offset < 256
    ensures var h := WriteU32(Probe(base, Numbered(), Filled()), Wrap(base + offset), value);
            && |h.ram| == 512 && h.ram[offset] == value % 0x100
            && forall i :: 0 <= i < 512 && !(offset <= i < offset + 4) ==> h.ram[i] == 0xFF
  {
    hide HtifStore;
    var h := Probe(base, Numbered(), Filled());
    assert WriteU32(h, Wrap(base + offset), value).ram == Poke32(h.ram, offset, value);
    PeekPoke(h.ram, offset, value);
    assert Poke32(h.ram, offset, value)[offset] == value % 0x100;
  }

  /** The hart on which c and its expansion part. */
  function Witness(c: Half): Hart
  {
    match (c % 4, CFunct3(c))
    case (0, 2) => Probe(CRs1Prime(c), Numbered(), Marked(CLwOffset(c)))
    case (0, _) => Probe(CRs1Prime(c), Numbered(), Filled())
    case (1, 6) => Probe(0, seq(32, _ => 0), Filled())
    case (2, 2) => Probe(2, Numbered(), Marked(CLwspOffset(c)))
    case _ => Probe(2, Numbered(), Filled())
  }

  lemma OffsetBounds(c: Half)
    ensures CLwOffset(c) < 256 && CLwspOffset(c) < 256 && CSwspOffset(c) < 256
    ensures CLwspOffset(c) % 4 == CSwspOffset(c) % 4 == 0
  {
  }

  lemma StandardOffsetBounds(c: Half)
    ensures Lw(c) < 256 && Lwsp(c) < 256 && Swsp(c) < 256 && Lwsp(c) % 4 == Swsp(c) % 4 == Lw(c) % 4 == 0
    ensures CBit(c, 0x20) == 1 ==> Lw(c) == CLwOffset(c) + 62
  {
    hide CBit;
    ThreeBits(c, 0x400);
    TwoBits(c, 0x20);
  }

  lemma DeviatesLw(c: Half)
    requires c % 4 == 0 && CFunct3(c) == 2 && CBit(c, 0x20) == 1
    ensures Run(Witness(c), c) != AsHalf(Witness(c), Expand0(c).value)
  {
    hide AsHalf, ReadU32, CLwOffset, Lw, EncodeI, CBit, Marked, Numbered, Probe;
    var h := Witness(c);
    OffsetBounds(c);
    StandardOffsetBounds(c);
    assert h.regs == Numbered() by { ProbeRegs(CRs1Prime(c), Numbered(), Marked(CLwOffset(c))); }
    assert h.regs[CRs1Prime(c)] == CRs1Prime(c) by { NumberedAt(CRs1Prime(c)); }
    HalfLoad(h, Lw(c), CRs1Prime(c), CRs2Prime(c));
    ProbeLoad(CRs1Prime(c), CLwOffset(c), CLwOffset(c));
    ProbeLoad(CRs1Prime(c), CLwOffset(c), Lw(c));
    var loaded := ReadU32(h, Wrap(h.regs[CRs1Prime(c)] + CLwOffset(c)));
    assert Execute16(h, c) == Some(WriteReg(loaded.hart, CRs2Prime(c), loaded.value));
    assert Run(h, c).hart.regs[CRs2Prime(c)] != AsHalf(h, Expand0(c).value).hart.regs[CRs2Prime(c)];
  }

  lemma ProbeRegs(base: Word, regs: RegFile, ram: Ram)
    ensures Probe(base, regs, ram).regs == regs && Probe(base, regs, ram).pc == 0
  {
  }

  lemma NumberedAt(i: nat)
    requires i < 32
    ensures Numbered()[i] == i
  {
  }

  lemma ProbePart(base: Word, regs: RegFile, ram: Ram)
    ensures var h := Probe(base, regs, ram); h.regs == regs && h.pc == 0 && h.ram == ram
  {
  }

  lemma DeviatesLwsp(c: Half)
    requires c % 4 == 2 && CFunct3(c) == 2 && CRd(c) != 0 && !SameBits(c)
    ensures Run(Witness(c), c) != AsHalf(Witness(c), Expand2(c).value)
  {
    hide AsHalf, ReadU32, CLwspOffset, Lwsp, EncodeI, CBit, Marked, Numbered, Probe, SameBits;
    var h := Witness(c);
    OffsetBounds(c);
    StandardOffsetBounds(c);
    StackOffsetsIff(c);
    ProbePart(2, Numbered(), Marked(CLwspOffset(c)));
    NumberedAt(2);
    HalfLoad(h, Lwsp(c), 2, CRd(c));
    ProbeLoad(2, CLwspOffset(c), CLwspOffset(c));
    ProbeLoad(2, CLwspOffset(c), Lwsp(c));
    var loaded := ReadU32(h, Wrap(h.regs[2] + CLwspOffset(c)));
    assert Execute16(h, c) == Some(WriteReg(loaded.hart, CRd(c), loaded.value));
    assert Run(h, c).hart.regs[CRd(c)] != AsHalf(h, Expand2(c).value).hart.regs[CRd(c)];
  }

  /** Two stores of registers into RAM of 0xFF bytes agree only if offset and register do. */
  lemma StoresDiffer(base: nat, r: nat, rs2: nat, at: nat, offset: nat)
    requires base < 32 && r < 32 && rs2 < 32 && at < 256 && offset < 256
    requires (at == offset && r != rs2) || at < offset - 3 || at > offset + 3
    ensures WriteU32(Probe(base, Numbered(), Filled()), Wrap(base + at), r).ram
            != WriteU32(Probe(base, Numbered(), Filled()), Wrap(base + offset), rs2).ram
  {
    hide WriteU32, Probe;
    ProbeStore(base, at, r);
    ProbeStore(base, offset, rs2);
  }

  lemma DeviatesSw(c: Half)
    requires c % 4 == 0 && CFunct3(c) == 6 && CBit(c, 0x20) == 1
    ensures Run(Witness(c), c) != AsHalf(Witness(c), Expand0(c).value)
  {
    hide AsHalf, WriteU32, CLwOffset, Lw, EncodeS, CBit, Filled, Numbered, Probe;
    var base, r := CRs1Prime(c), CRs2Prime(c);
    var h := Witness(c);
    OffsetBounds(c);
    StandardOffsetBounds(c);
    ProbePart(base, Numbered(), Filled());
    NumberedAt(base);
    NumberedAt(r);
    HalfStore(h, Lw(c), r, base);
    StoresDiffer(base, r, r, CLwOffset(c), Lw(c));
    assert Execute16(h, c) == Some(WriteU32(h, Wrap(base + CLwOffset(c)), r));
    assert Run(h, c).hart.ram != AsHalf(h, Expand0(c).value).hart.ram;
  }

  lemma DeviatesSwsp(c: Half)
    requires c % 4 == 2 && CFunct3(c) == 6 && c != 0xC002
    ensures Run(Witness(c), c) != AsHalf(Witness(c), Expand2(c).value)
  {
    hide AsHalf, WriteU32, CSwspOffset, Swsp, EncodeS, CBit, Filled, Numbered, Probe;
    var h := Witness(c);
    OffsetBounds(c);
    StandardOffsetBounds(c);
    SwspIff(c);
    ProbePart(2, Numbered(), Filled());
    NumberedAt(2);
    NumberedAt(CRd(c));
    NumberedAt(CRs2(c));
    HalfStore(h, Swsp(c), CRs2(c), 2);
    StoresDiffer(2, CRd(c), CRs2(c), CSwspOffset(c), Swsp(c));
    assert Execute16(h, c) == Some(WriteU32(h, Wrap(2 + CSwspOffset(c)), CRd(c)));
    assert Run(h, c).hart.ram != AsHalf(h, Expand2(c).value).hart.ram;
  }

  lemma WrapInjective(base: Word, a: Word, b: Word)
    requires Wrap(base + a) == Wrap(base + b)
    ensures a == b
  {
  }

  lemma DeviatesAddi16sp(c: Half)
    requires c % 4 == 1 && CFunct3(c) == 3 && CRd(c) == 2 && Imm6(c) != 0 && !SameBits(c)
    ensures Run(Witness(c), c) != AsHalf(Witness(c), Expand1(c).value)
  {
    hide AsHalf, EncodeI, Addi16sp, CAddi16spImm, CBit, Imm6, Filled, Probe, SameBits, Widen, SignExtend;
    var h := Witness(c);
    ImmediateBounds(c);
    var a, b := CAddi16spImm(c), SignExtend(Addi16sp(c), 1024);
    StackOffsetsIff(c);
    WidenKeepsValue(Addi16sp(c), 1024, 0x1000);
    HalfImm(h, Widen(Addi16sp(c), 1024, 0x1000), 2, 0, 2);
    assert Run(h, c).hart.regs[2] == Wrap(h.regs[2] as int + a);
    assert AsHalf(h, Expand1(c).value).hart.regs[2] == Wrap(h.regs[2] as int + b);
    if Wrap(h.regs[2] as int + a) == Wrap(h.regs[2] as int + b) {
      WrapInjective(h.regs[2], a, b);
    }
  }

  lemma DeviatesBranch(c: Half)
    requires c % 4 == 1 && CFunct3(c) in {6, 7} && CBit(c, 0x40) == 1
    ensures Run(Witness(c), c) != AsHalf(Witness(c), Expand1(c).value)
  {
    hide AsHalf, EncodeB, Branch, CBranchOffset, CBit, Widen, SignExtend, Filled;
    var h := Witness(c);
    JumpEven(c);
    BranchOffsetIff(c);
    WidenKeepsValue(Branch(c), 512, 0x2000);
    SkippedBranch(c);
    HalfBranch(h, Widen(Branch(c), 512, 0x2000), CRs1Prime(c), if CFunct3(c) == 6 then 0 else 1);
  }

  lemma SkippedBranch(c: Half)
    requires CBit(c, 0x40) == 1
    ensures SignExtend(Branch(c), 512) !in {0, 2}
  {
    hide CBit;
  }

  /** On every state where its jump lands, c runs as its expansion. */
  ghost predicate RunsAsExpanded(c: Half)
    requires Expand(c).Some?
  {
    forall h: Hart :: h.regs[0] == 0 && Lands(h, c) ==> Run(h, c) == AsHalf(h, Expand(c).value)
  }

  lemma WitnessDeviates(c: Half)
    requires Expand(c).Some? && !Conforms(c)
    ensures Run(Witness(c), c) != AsHalf(Witness(c), Expand(c).value)
  {
    hide AsHalf, Run, Expand0, Expand1, Expand2, SameBits, Witness;
    assert CFunct3(c) == 3 && c % 4 == 1 && CRd(c) == 2 ==> Imm6(c) != 0 by { StackNonzero(c); }
    assert CFunct3(c) == 2 && c % 4 == 2 ==> CRd(c) != 0 by { StackNonzero(c); }
    match (c % 4, CFunct3(c))
    case (0, 2) => DeviatesLw(c);
    case (0, 6) => DeviatesSw(c);
    case (1, 3) => DeviatesAddi16sp(c);
    case (1, _) => DeviatesBranch(c);
    case (2, 2) => DeviatesLwsp(c);
    case _ => DeviatesSwsp(c);
  }

  lemma StackNonzero(c: Half)
    requires Expand(c).Some?
    ensures CFunct3(c) == 3 && c % 4 == 1 ==> Imm6(c) != 0
    ensures CFunct3(c) == 2 && c % 4 == 2 ==> CRd(c) != 0
  {
    hide Imm6, EncodeI, EncodeU;
  }

  lemma WitnessLands(c: Half)
    requires Expand(c).Some? && !Conforms(c)
    ensures Witness(c).regs[0] == 0 && Lands(Witness(c), c)
  {
    hide Branch, CBit, CFunct3;
    if CBit(c, 0x40) == 1 {
      SkippedBranch(c);
      JumpEven(c);
      SignExtendZero(Branch(c), 512);
    }
  }

  /** The simulator agrees with the standard on a compressed encoding exactly when Conforms says so. */
  lemma ConformsExactly(c: Half)
    requires Expand(c).Some?
    ensures Conforms(c) <==> RunsAsExpanded(c)
  {
    hide AsHalf, Run, Expand, Lands, Witness, Conforms;
    if Conforms(c) {
      forall h: Hart | h.regs[0] == 0 && Lands(h, c) ensures Run(h, c) == AsHalf(h, Expand(c).value) {
        RunIsExpansion(h, c);
      }
    } else {
      WitnessDeviates(c);
      WitnessLands(c);
    }
  }

  /** The reserved encodings the simulator runs instead of refusing. */
  predicate Tolerated(c: Half)
  {
    match (c % 4, CFunct3(c))
    case (1, 3) => CRd(c) == 0 || CRd(c) == 2
    case (1, 4) => c / 0x400 % 4 < 2
    case (2, 0) => true
    case (2, 2) => true
    case _ => false
  }

  /** An encoding without expansion stops the batch and changes nothing, unless it is one of the tolerated ones. */
  lemma ReservedStops(h: Hart, c: Half)
    requires Expand(c).None?
    ensures Run(h, c) == Stop(h) <==> !Tolerated(c)
  {
    hide EncodeI, EncodeU, EncodeR, EncodeJ, EncodeB, EncodeS, Lw, Lwsp, Swsp, Jump, Branch, Addi16sp, Widen, CBit,
         ReadU32, WriteU32, ShiftRight, ShiftRightArith, ShiftLeft, And, OrWord, XorWord, CAddi4spnImm, CLwspOffset,
         CSwspOffset, CLwOffset, CAddi16spImm, Imm6, CShamt, CImm6, CJumpOffset, CBranchOffset;
    LuiNonzero(c);
  }

  /** What the tolerated encodings do, but for shifts by 32 and more: C.LUI and C.ADDI16SP nothing, C.LWSP to x0 the
      load alone. */
  lemma ToleratedEffects(h: Hart, c: Half)
    requires Expand(c).None?
    ensures c % 4 == 1 && CFunct3(c) == 3 && Tolerated(c) && h.regs[0] == 0 ==>
              Run(h, c) == Retire(h.(pc := (h.pc + 2) % 0x1_0000_0000), Some(InsnType.Compressed))
    ensures c % 4 == 2 && CFunct3(c) == 2 ==>
              Run(h, c) == Retire(ReadU32(h, Wrap(h.regs[2] + CLwspOffset(c))).hart.(pc := (h.pc + 2) % 0x1_0000_0000),
                                  Some(InsnType.Compressed))
  {
    hide EncodeI, EncodeU, EncodeR, EncodeJ, EncodeB, EncodeS, Lw, Lwsp, Swsp, Jump, Branch, Addi16sp, Widen, CBit,
         ReadU32, WriteU32, ShiftRight, ShiftRightArith, ShiftLeft, And, OrWord, XorWord, CAddi4spnImm, CLwspOffset,
         CSwspOffset, CLwOffset, CAddi16spImm, CShamt, CImm6, CJumpOffset, CBranchOffset, Imm6;
    if c % 4 == 1 && CFunct3(c) == 3 {
      LuiNonzero(c);
      StackZero(c);
      assert h.regs[2 := h.regs[2]] == h.regs;
    } else if c % 4 == 2 && CFunct3(c) == 2 {
      AccessKeepsPc(h, Wrap(h.regs[2] + CLwspOffset(c)), 0);
    }
  }

  lemma StackZero(c: Half)
    ensures Imm6(c) == 0 ==> CAddi16spImm(c) == 0
  {
    hide SignExtend;
    assert SignExtend(0, 1024) == 0 by { ZeroExtends(); }
  }

  lemma ZeroExtends()
    ensures SignExtend(0, 1024) == 0
  {
  }
}
