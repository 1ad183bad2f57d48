/** The M extension against sections 7.1 and 7.2 of the RISC-V Unprivileged ISA
    (20191213), for all operands. */
module MExtension {
  import opened Words
  import opened Isa
  import opened Execute

  const W := 0x1_0000_0000

  /** Multiples of 2^32 between the unsigned and the signed value of a word: 1 when its sign bit is set. */
  function Borrow(x: Word): int { if x < 0x8000_0000 then 0 else 1 }

  lemma ProductBounds(x: int, y: int, m: int, n: int)
    requires -m <= x <= m && -n <= y <= n
    ensures -(m * n) <= x * y <= m * n
  {
    ProductNonnegative(m - x, n - y);
    ProductNonnegative(m + x, n + y);
    ProductNonnegative(m - x, n + y);
    ProductNonnegative(m + x, n - y);
    assert (m - x) * (n - y) == m * n - m * y - x * n + x * y;
    assert (m + x) * (n + y) == m * n + m * y + x * n + x * y;
    assert (m - x) * (n + y) == m * n + m * y - x * n - x * y;
    assert (m + x) * (n - y) == m * n - m * y + x * n - x * y;
  }

  lemma ProductNonnegative(x: int, y: int)
    requires x >= 0 && y >= 0
    ensures x * y >= 0
  {
  }

  /** Adding a multiple of the modulus changes nothing modulo it. */
  lemma ModShift(x: int, k: int, m: int)
    requires m > 0
    ensures (x + k * m) % m == x % m
  {
    Euclid(x / m + k, m, x % m);
    assert x + k * m == (x / m + k) * m + x % m;
  }

  /** MUL and MULH are the two halves of the signed product. */
  lemma MulhIsExact(a: Word, b: Word)
    ensures Signed(MulDiv(1, a, b)) * W + MulDiv(0, a, b) == Signed(a) * Signed(b)
  {
    var p := Signed(a) * Signed(b);
    ProductBounds(Signed(a), Signed(b), 0x8000_0000, 0x8000_0000);
    HighWord(p);
  }

  lemma HighWord(p: int)
    requires -0x4000_0000_0000_0000 <= p <= 0x4000_0000_0000_0000
    ensures Signed(Wrap(p / W)) * W + Wrap(p) == p
  {
    assert -0x4000_0000 <= p / W <= 0x4000_0000;
  }

  /** The low half does not depend on the signs. */
  lemma LowHalf(a: Word, b: Word)
    ensures MulDiv(0, a, b) == Signed(a) * b % W == a * b % W
  {
    SignedModulo(Signed(a), b);
    SignedModulo(b, a);
  }

  lemma SignedModulo(x: int, y: Word)
    ensures x * Signed(y) % W == x * y % W
    ensures Signed(y) * x % W == y * x % W
  {
    if y >= 0x8000_0000 {
      ModShift(x * y, -x, W);
      assert x * (y - W) == x * y + (-x) * W;
    }
  }

  /** MUL and MULHU are the two halves of the unsigned product. */
  lemma MulhuIsExact(a: Word, b: Word)
    ensures MulDiv(3, a, b) * W + MulDiv(0, a, b) == a * b
  {
    LowHalf(a, b);
    ProductBounds(a, b, W - 1, W - 1);
    ProductNonnegative(a, b);
    assert a * b / W < W;
  }

  /** MUL and MULHSU are the two halves of the product of a signed and an unsigned word. */
  lemma MulhsuIsExact(a: Word, b: Word)
    ensures Signed(MulDiv(2, a, b)) * W + MulDiv(0, a, b) == Signed(a) * b
  {
    LowHalf(a, b);
    var p := Signed(a) * b;
    ProductBounds(Signed(a), b, 0x8000_0000, W - 1);
    HighOfDword(a, b);
    HighHalf(p);
  }

  lemma HighOfDword(a: Word, b: Word)
    ensures MulDiv(2, a, b) == Signed(a) * b % 0x1_0000_0000_0000_0000 / W
  {
    SignedDword(a);
    var x, k := Signed(a), if a >= 0x8000_0000 then 1 else 0;
    assert (x % 0x1_0000_0000_0000_0000 * b) % 0x1_0000_0000_0000_0000 == x * b % 0x1_0000_0000_0000_0000 by {
      ProductModulo(x, k, b, 0x1_0000_0000_0000_0000);
    }
  }

  lemma SignedDword(a: Word)
    ensures Signed(a) % 0x1_0000_0000_0000_0000
            == Signed(a) + (if a >= 0x8000_0000 then 1 else 0) * 0x1_0000_0000_0000_0000
  {
  }

  lemma ProductModulo(x: int, k: int, b: int, m: int)
    requires m > 0
    ensures (x + k * m) * b % m == x * b % m
  {
    assert (x + k * m) * b == x * b + k * b * m;
    ModShift(x * b, k * b, m);
  }

  lemma HighHalf(p: int)
    requires -0x8000_0000_0000_0000 <= p < 0x8000_0000_0000_0000
    ensures Signed(p % 0x1_0000_0000_0000_0000 / W) * W + p % W == p
  {
  }

  // ----- division -----

  /** Remainder and quotient as sections 7.2 asks of exact integers: the quotient rounds toward zero. */
  ghost predicate Divides(a: int, b: int, q: int, r: int)
  {
    a == b * q + r && Abs(r) < Abs(b) && (r > 0 ==> a > 0) && (r < 0 ==> a < 0)
  }

  lemma TruncDivides(a: int, b: int)
    requires b != 0
    ensures Divides(a, b, TruncDiv(a, b), TruncRem(a, b))
    ensures Abs(TruncDiv(a, b)) <= Abs(a)
  {
    var x, y := Abs(a), Abs(b);
    QuotientLe(x, y);
    Quotient(x, y);
    Negations(y, x / y);
  }

  lemma Quotient(x: nat, y: nat)
    requires y > 0
    ensures x == y * (x / y) + x % y && 0 <= x % y < y
  {
  }

  lemma Negations(y: int, q: int)
    ensures (-y) * q == -(y * q) && y * (-q) == -(y * q) && (-y) * (-q) == y * q
  {
  }

  /** Only INT32_MIN / -1 has a quotient that does not fit. */
  lemma QuotientFits(a: int, b: int)
    requires b != 0 && -0x8000_0000 <= a < 0x8000_0000 && !(a == -0x8000_0000 && b == -1)
    ensures -0x8000_0000 <= TruncDiv(a, b) < 0x8000_0000
  {
    TruncDivides(a, b);
    if a == -0x8000_0000 && Abs(b) > 1 {
      TwiceQuotientLe(Abs(a), Abs(b));
    }
  }

  lemma TwiceQuotientLe(x: nat, y: nat)
    requires y > 1
    ensures 2 * (x / y) <= x
  {
    var q := x / y;
    ProductNonnegative(q, y - 2);
    assert q * (y - 2) == y * q - 2 * q;
    assert x == y * q + x % y;
  }

  /** DIV and REM: exact division rounding toward zero, except that division by zero yields all ones and
      the dividend, and overflow yields the dividend and zero. */
  lemma DivRemSigned(a: Word, b: Word)
    ensures b != 0 && !(Signed(a) == INT32_MIN && Signed(b) == -1)
            ==> Divides(Signed(a), Signed(b), Signed(MulDiv(4, a, b)), Signed(MulDiv(6, a, b)))
    ensures b == 0 ==> MulDiv(4, a, b) == ALL_ONES && MulDiv(6, a, b) == a
    ensures Signed(a) == INT32_MIN && Signed(b) == -1 ==> MulDiv(4, a, b) == a && MulDiv(6, a, b) == 0
  {
    if b != 0 && !(Signed(a) == INT32_MIN && Signed(b) == -1) {
      var x, y := Signed(a), Signed(b);
      TruncDivides(x, y);
      QuotientFits(x, y);
      assert MulDiv(4, a, b) == Wrap(TruncDiv(x, y)) && MulDiv(6, a, b) == Wrap(TruncRem(x, y));
      WrapSigned(TruncDiv(x, y));
      WrapSigned(TruncRem(x, y));
    }
  }

  lemma WrapSigned(x: int)
    requires -0x8000_0000 <= x < 0x8000_0000
    ensures Signed(Wrap(x)) == x
  {
  }

  /** DIVU and REMU: exact division, except that division by zero yields all ones and the dividend. */
  lemma DivRemUnsigned(a: Word, b: Word)
    ensures b != 0 ==> Divides(a, b, MulDiv(5, a, b), MulDiv(7, a, b))
    ensures b == 0 ==> MulDiv(5, a, b) == ALL_ONES && MulDiv(7, a, b) == a
  {
    if b != 0 {
      QuotientLe(a, b);
      assert a == b * (a / b) + a % b;
    }
  }

  /** In every case, zero divisors and overflow included, the dividend is recovered modulo 2^32. */
  lemma DividendRecovered(a: Word, b: Word)
    ensures Wrap(b * MulDiv(4, a, b) + MulDiv(6, a, b)) == a
    ensures Wrap(b * MulDiv(5, a, b) + MulDiv(7, a, b)) == a
  {
    SignedRecovered(a, b);
    DivRemUnsigned(a, b);
    hide MulDiv;
    if b == 0 {
      assert b * MulDiv(5, a, b) == 0;
    }
  }

  lemma SignedRecovered(a: Word, b: Word)
    ensures Wrap(b * MulDiv(4, a, b) + MulDiv(6, a, b)) == a
  {
    DivRemSigned(a, b);
    hide MulDiv;
    var q, r := MulDiv(4, a, b), MulDiv(6, a, b);
    if b == 0 {
      assert b * q == 0;
    } else if Signed(a) == INT32_MIN && Signed(b) == -1 {
      assert b == ALL_ONES && q == 0x8000_0000 && r == 0;
    } else {
      Recombine(a, b, q, r);
    }
  }

  lemma Recombine(a: Word, b: Word, q: Word, r: Word)
    requires Signed(a) == Signed(b) * Signed(q) + Signed(r)
    ensures Wrap(b * q + r) == a
  {
    var carry := Borrow(b) * Signed(q) + b * Borrow(q) + Borrow(r) - Borrow(a);
    SignedProduct(b, q);
    assert b * q + r == a + carry * W;
    ModShift(a, carry, W);
  }

  lemma SignedProduct(x: Word, y: Word)
    ensures x * y == Signed(x) * Signed(y) + (Borrow(x) * Signed(y) + x * Borrow(y)) * W
  {
    assert x == Signed(x) + Borrow(x) * W && y == Signed(y) + Borrow(y) * W;
    assert x * y == x * Signed(y) + x * (Borrow(y) * W);
    assert x * Signed(y) == Signed(x) * Signed(y) + (Borrow(x) * W) * Signed(y);
    assert x * (Borrow(y) * W) == (x * Borrow(y)) * W;
    assert (Borrow(x) * W) * Signed(y) == (Borrow(x) * Signed(y)) * W;
  }
}
