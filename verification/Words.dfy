/** 32-bit words as bounded integers.  Every wrap-around, truncation and shift
    of the C code is written out, so that arithmetic stays ordinary integer
    arithmetic.  The bitwise operators are defined bit by bit. */
module Words {

  type Word = x: int | 0 <= x < 0x1_0000_0000
  type Half = x: int | 0 <= x < 0x1_0000
  type Byte = x: int | 0 <= x < 0x100
  type Dword = x: int | 0 <= x < 0x1_0000_0000_0000_0000

  datatype Option<+T> = None | Some(value: T)

  /** Conversion of an arbitrary integer to uint32_t. */
  function Wrap(x: int): Word { x % 0x1_0000_0000 }

  /** Conversion of an arbitrary integer to uint64_t. */
  function Wrap64(x: int): Dword { x % 0x1_0000_0000_0000_0000 }

  lemma Wrap64Add(x: int, y: int)
    ensures Wrap64(Wrap64(x) + y) == Wrap64(x + y)
  {
  }

  /** Reinterpretation of a uint32_t as int32_t. */
  function Signed(x: Word): int { if x < 0x8000_0000 then x else x - 0x1_0000_0000 }

  /** sign_extend(value, n), where modulus is 2^n: the low n bits of value as a
      two's complement number, converted back to uint32_t. */
  function SignExtend(value: Word, modulus: int): Word
    requires 2 <= modulus <= 0x1_0000_0000
  {
    var low := value % modulus;
    if low < modulus / 2 then low else low + 0x1_0000_0000 - modulus
  }

  lemma SmallExtend(imm: nat)
    requires imm < 0x800
    ensures SignExtend(imm, 0x1000) == imm
  {
  }

  function Pow2(n: nat): (p: nat)
    ensures p >= 1
  {
    if n == 0 then 1 else 2 * Pow2(n - 1)
  }

  lemma {:induction false} Pow2Add(m: nat, n: nat)
    ensures Pow2(m + n) == Pow2(m) * Pow2(n)
  {
    if m != 0 {
      Pow2Add(m - 1, n);
      assert Pow2(m + n) == 2 * Pow2((m - 1) + n);
    }
  }

  lemma {:induction false} Pow2Mono(m: nat, n: nat)
    requires m <= n
    ensures Pow2(m) <= Pow2(n)
    decreases n
  {
    if m < n {
      Pow2Mono(m, n - 1);
    }
  }

  lemma TimesPow0(m: nat)
    ensures Pow2(0) == 1 && m * Pow2(0) == m
  {
  }

  lemma Pow2Word()
    ensures Pow2(32) == 0x1_0000_0000
  {
    assert Pow2(8) == 256;
    Pow2Add(8, 8);
    Pow2Add(16, 16);
  }

  /** Logical shifts of a uint32_t by 0..31. */
  function ShiftLeft(x: Word, n: nat): Word { Wrap(x * Pow2(n)) }

  function ShiftRight(x: Word, n: nat): (r: Word)
    ensures r <= x
  {
    ShiftRightLe(x, n);
    x / Pow2(n)
  }

  lemma MulAtLeast(k: int, d: nat)
    ensures k >= 1 ==> k * d >= d
    ensures k <= -1 ==> k * d + d <= 0
  {
  }

  /** Quotient and remainder are what they are built from. */
  lemma Euclid(q: int, d: int, r: int)
    requires 0 <= r < d
    ensures (q * d + r) / d == q && (q * d + r) % d == r
  {
    var k := (q * d + r) / d - q;
    MulAtLeast(k, d);
    assert k * d == (q * d + r) / d * d - q * d;
  }

  lemma QuotientLe(x: nat, q: nat)
    requires q >= 1
    ensures 0 <= x / q <= x
  {
    var d := x / q;
    MulAtLeast(d, q);
    if d >= 0 {
      MulAtLeast(q, d);
    }
  }

  lemma ShiftRightLe(x: nat, p: nat)
    ensures 0 <= x / Pow2(p) <= x
  {
    QuotientLe(x, Pow2(p));
  }

  /** Arithmetic shift right: the int32_t value divided by 2^n, rounded down. */
  function ShiftRightArith(x: Word, n: nat): Word { Wrap(Signed(x) / Pow2(n)) }

  // ----- bitwise operators -----

  function And(a: nat, b: nat): (r: nat)
    ensures r <= a && r <= b
  {
    if a == 0 || b == 0 then 0
    else (if a % 2 == 1 && b % 2 == 1 then 1 else 0) + 2 * And(a / 2, b / 2)
  }

  function Or(a: nat, b: nat): (r: nat)
    ensures a <= r && b <= r
  {
    if a == 0 then b else if b == 0 then a
    else (if a % 2 == 1 || b % 2 == 1 then 1 else 0) + 2 * Or(a / 2, b / 2)
  }

  function Xor(a: nat, b: nat): nat
  {
    if a == 0 then b else if b == 0 then a
    else (if a % 2 != b % 2 then 1 else 0) + 2 * Xor(a / 2, b / 2)
  }

  /** a & ~b */
  function AndNot(a: nat, b: nat): (r: nat)
    ensures r <= a
  {
    a - And(a, b)
  }

  lemma {:induction false} OrXorBound(a: nat, b: nat, n: nat)
    requires a < Pow2(n) && b < Pow2(n)
    ensures Or(a, b) < Pow2(n) && Xor(a, b) < Pow2(n)
  {
    if a != 0 && b != 0 {
      OrXorBound(a / 2, b / 2, n - 1);
    }
  }

  function OrWord(a: Word, b: Word): Word
  {
    Pow2Word();
    OrXorBound(a, b, 32);
    Or(a, b)
  }

  function XorWord(a: Word, b: Word): Word
  {
    Pow2Word();
    OrXorBound(a, b, 32);
    Xor(a, b)
  }

  /** Bit i of x. */
  predicate Bit(x: nat, i: nat)
  {
    if i == 0 then x % 2 == 1 else Bit(x / 2, i - 1)
  }

  lemma {:induction false} AndBit(a: nat, b: nat, i: nat)
    ensures Bit(And(a, b), i) <==> Bit(a, i) && Bit(b, i)
  {
    if a == 0 || b == 0 {
      ZeroBit(i);
    } else if i > 0 {
      AndBit(a / 2, b / 2, i - 1);
      assert And(a, b) / 2 == And(a / 2, b / 2);
    }
  }

  lemma {:induction false} ZeroBit(i: nat)
    ensures !Bit(0, i)
  {
    if i > 0 { ZeroBit(i - 1); }
  }

  /** Two numbers with the same bits are equal: bits determine the word. */
  lemma {:induction false} BitsDetermine(a: nat, b: nat)
    requires forall i: nat :: Bit(a, i) == Bit(b, i)
    ensures a == b
    decreases a + b
  {
    if a != b {
      assert Bit(a, 0) == Bit(b, 0);
      forall i: nat ensures Bit(a / 2, i) == Bit(b / 2, i) {
        assert Bit(a, i + 1) == Bit(b, i + 1);
      }
      BitsDetermine(a / 2, b / 2);
    }
  }
}
