/** The word operators bit by bit: what each of them does to every bit of a uint32_t, and two's complement. */
module Bits {
  import opened Words

  // ----- or, exclusive or, and-not -----

  lemma {:induction false} OrBit(a: nat, b: nat, i: nat)
    ensures Bit(Or(a, b), i) <==> Bit(a, i) || Bit(b, i)
  {
    ZeroBit(i);
    if a != 0 && b != 0 && i > 0 {
      OrBit(a / 2, b / 2, i - 1);
      assert Or(a, b) / 2 == Or(a / 2, b / 2);
    }
  }

  lemma {:induction false} XorBit(a: nat, b: nat, i: nat)
    ensures Bit(Xor(a, b), i) <==> Bit(a, i) != Bit(b, i)
  {
    ZeroBit(i);
    if a != 0 && b != 0 && i > 0 {
      XorBit(a / 2, b / 2, i - 1);
      assert Xor(a, b) / 2 == Xor(a / 2, b / 2);
    }
  }

  lemma AndStep(a: nat, b: nat)
    ensures AndNot(a, b) == 2 * AndNot(a / 2, b / 2) + (if a % 2 == 1 && b % 2 == 0 then 1 else 0)
  {
    assert And(a, b) == (if a % 2 == 1 && b % 2 == 1 then 1 else 0) + 2 * And(a / 2, b / 2);
  }

  lemma {:induction false} AndNotBit(a: nat, b: nat, i: nat)
    ensures Bit(AndNot(a, b), i) <==> Bit(a, i) && !Bit(b, i)
  {
    AndStep(a, b);
    if i > 0 {
      AndNotBit(a / 2, b / 2, i - 1);
      assert AndNot(a, b) / 2 == AndNot(a / 2, b / 2);
    }
  }

  // ----- shifts -----

  /** x >> n without a width. */
  function Quotient(x: nat, n: nat): nat
  {
    ShiftRightLe(x, n);
    x / Pow2(n)
  }

  lemma {:induction false} QuotientBit(x: nat, n: nat, i: nat)
    ensures Bit(Quotient(x, n), i) <==> Bit(x, i + n)
    decreases n
  {
    hide Bit;
    if n == 0 {
      TimesPow0(x);
      assert Quotient(x, 0) == x;
    } else {
      HalfThenQuotient(x, n);
      QuotientBit(x / 2, n - 1, i);
      BitOfHalf(x, i + n - 1);
    }
  }

  lemma BitOfHalf(x: nat, i: nat)
    ensures Bit(x / 2, i) == Bit(x, i + 1)
  {
  }

  lemma HalfThenQuotient(x: nat, n: nat)
    requires n > 0
    ensures Quotient(x, n) == Quotient(x / 2, n - 1)
  {
    var p := Pow2(n - 1);
    assert Pow2(n) == 2 * p;
    var h, q, r := x / 2, x / 2 / p, x / 2 % p;
    assert h == q * p + r && x == 2 * h + x % 2;
    assert x == q * (2 * p) + (2 * r + x % 2);
    Euclid(q, 2 * p, 2 * r + x % 2);
  }

  lemma {:induction false} ProductBit(x: nat, n: nat, i: nat)
    ensures Bit(x * Pow2(n), i) <==> i >= n && Bit(x, i - n)
    decreases n
  {
    if n == 0 {
      TimesPow0(x);
    } else {
      var y := x * Pow2(n - 1);
      assert x * Pow2(n) == 2 * y;
      if i > 0 {
        ProductBit(x, n - 1, i - 1);
      }
    }
  }

  lemma {:induction false} ModuloBit(x: nat, n: nat, i: nat)
    ensures Bit(x % Pow2(n), i) <==> i < n && Bit(x, i)
    decreases n
  {
    if n == 0 {
      ZeroBit(i);
    } else {
      ModuloHalf(x, n);
      if i > 0 {
        ModuloBit(x / 2, n - 1, i - 1);
      }
    }
  }

  lemma ModuloHalf(x: nat, n: nat)
    requires n > 0
    ensures x % Pow2(n) / 2 == x / 2 % Pow2(n - 1) && x % Pow2(n) % 2 == x % 2
  {
    var p := Pow2(n - 1);
    assert Pow2(n) == 2 * p;
    var h, q, r := x / 2, x / 2 / p, x / 2 % p;
    assert h == q * p + r && x == 2 * h + x % 2;
    assert x == q * (2 * p) + (2 * r + x % 2);
    Euclid(q, 2 * p, 2 * r + x % 2);
  }

  lemma {:induction false} HighBit(x: nat, n: nat, i: nat)
    requires x < Pow2(n) && i >= n
    ensures !Bit(x, i)
    decreases n
  {
    if n == 0 {
      ZeroBit(i);
    } else {
      HighBit(x / 2, n - 1, i - 1);
    }
  }

  lemma {:induction false} ComplementBit(x: nat, n: nat, i: nat)
    requires x < Pow2(n) && i < n
    ensures Bit(Pow2(n) - 1 - x, i) <==> !Bit(x, i)
    decreases n
  {
    assert Pow2(n) == 2 * Pow2(n - 1);
    if i > 0 {
      assert (Pow2(n) - 1 - x) / 2 == Pow2(n - 1) - 1 - x / 2;
      ComplementBit(x / 2, n - 1, i - 1);
    }
  }

  lemma TopBit(x: Word)
    ensures Bit(x, 31) <==> x >= 0x8000_0000
  {
    Pow2Word();
    assert Pow2(31) == 0x8000_0000;
    QuotientBit(x, 31, 0);
    assert Quotient(x, 31) == if x >= 0x8000_0000 then 1 else 0;
  }

  lemma ShiftLeftBit(x: Word, n: nat, i: nat)
    requires i < 32
    ensures Bit(ShiftLeft(x, n), i) <==> i >= n && Bit(x, i - n)
  {
    Pow2Word();
    ModuloBit(x * Pow2(n), 32, i);
    ProductBit(x, n, i);
  }

  lemma ShiftRightBit(x: Word, n: nat, i: nat)
    requires i < 32
    ensures Bit(ShiftRight(x, n), i) <==> i + n < 32 && Bit(x, i + n)
  {
    QuotientBit(x, n, i);
    if i + n >= 32 {
      Pow2Word();
      HighBit(x, 32, i + n);
    }
  }

  lemma NegativeShift(x: Word, n: nat)
    requires x >= 0x8000_0000
    ensures Quotient(0xFFFF_FFFF - x, n) <= 0xFFFF_FFFF - x
    ensures ShiftRightArith(x, n) == 0xFFFF_FFFF - Quotient(0xFFFF_FFFF - x, n)
  {
    var y := 0xFFFF_FFFF - x;
    NegativeQuotient(y, Pow2(n));
    ShiftRightLe(y, n);
  }

  lemma NegativeShiftBit(x: Word, n: nat, i: nat)
    requires i < 32 && x >= 0x8000_0000
    ensures Bit(ShiftRightArith(x, n), i) <==> (i + n < 32 ==> Bit(x, i + n))
  {
    var y := 0xFFFF_FFFF - x;
    NegativeShift(x, n);
    Pow2Word();
    hide ShiftRightArith, Quotient, Bit, Pow2;
    WordComplement(Quotient(y, n), i);
    QuotientBit(y, n, i);
    if i + n < 32 {
      WordComplement(x, i + n);
    } else {
      HighBit(y, 32, i + n);
    }
  }

  lemma WordComplement(x: Word, i: nat)
    requires i < 32
    ensures Bit(0xFFFF_FFFF - x, i) <==> !Bit(x, i)
  {
    Pow2Word();
    hide Pow2, Bit;
    ComplementBit(x, 32, i);
  }

  lemma PositiveShift(x: Word, n: nat)
    requires x < 0x8000_0000
    ensures ShiftRightArith(x, n) == ShiftRight(x, n)
  {
    ShiftRightLe(x, n);
  }

  /** The bits shifted in are copies of the top one. */
  lemma ShiftRightArithBit(x: Word, n: nat, i: nat)
    requires i < 32
    ensures Bit(ShiftRightArith(x, n), i) <==> if i + n < 32 then Bit(x, i + n) else Bit(x, 31)
  {
    hide *;
    TopBit(x);
    if x < 0x8000_0000 {
      PositiveShift(x, n);
      ShiftRightBit(x, n, i);
    } else {
      NegativeShiftBit(x, n, i);
    }
  }

  lemma NegativeQuotient(y: nat, p: nat)
    requires p >= 1
    ensures (-1 - (y as int)) / p == -1 - y / p
  {
    var q, r := y / p, y % p;
    assert y == q * p + r;
    assert (-1 - (q as int)) * p == -(p as int) - q * p;
    Euclid(-1 - (q as int), p, p - 1 - r);
  }

  // ----- two's complement -----

  /** Signed gives the one int32_t that the word is congruent to. */
  lemma SignedIsTwosComplement(x: Word, v: int)
    ensures v == Signed(x) <==> -0x8000_0000 <= v < 0x8000_0000 && v % 0x1_0000_0000 == x
  {
  }

  /** Sign extension keeps the number that the low bits stand for in two's complement. */
  lemma ExtendIsTwosComplement(v: int, modulus: int)
    requires 2 <= modulus <= 0x1_0000_0000 && modulus % 2 == 0 && -modulus / 2 <= v < modulus / 2
    ensures Signed(SignExtend(v % modulus, modulus)) == v
  {
    var q, low := if v >= 0 then 0 else -1, if v >= 0 then v else v + modulus;
    assert q * modulus + low == v;
    Euclid(q, modulus, low);
    Euclid(0, modulus, low);
    HalfModulus(modulus);
  }

  lemma HalfModulus(modulus: int)
    requires modulus % 2 == 0
    ensures modulus / 2 + modulus / 2 == modulus && -modulus / 2 == -(modulus / 2)
  {
  }
}
