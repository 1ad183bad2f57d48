/** Double-precision multiplication: the split 53 x 53 multiply with its carry
    chain, rounding and packing, proved exact up to one rounding. */
module FloatMul {
  import opened Words
  import opened Doubles

  // ----- the exact product -----

  /** Carry out of a 64-bit addition is detected by wrap-around. */
  lemma CarryIsExact(lo: Dword, x: Dword)
    ensures var s := Wrap64(lo + x);
            s + (if s < lo then B64 else 0) == lo + x
  {
  }

  lemma SplitShift26(p: nat)
    requires p < 0x20_0000_0000_0000
    ensures p / 0x40_0000_0000 * B64 + Wrap64(p * 0x400_0000) == p * 0x400_0000
  {
    var q, r := p / 0x40_0000_0000, p % 0x40_0000_0000;
    assert p == q * 0x40_0000_0000 + r;
    assert p * 0x400_0000 == q * B64 + r * 0x400_0000;
  }

  lemma SplitShift52(p: nat)
    requires p < 0x40_0000_0000_0000
    ensures p / 0x1000 * B64 + Wrap64(p % B52 * B52) == p * B52
  {
    var q, r := p / 0x1000, p % 0x1000;
    assert p == q * 0x1000 + r;
    var m := p % B52;
    assert m == p - p / B52 * B52;
    assert m == (q - p / B52 * 0x100_0000_0000) * 0x1000 + r;
    assert m * B52 == (q - p / B52 * 0x100_0000_0000) * B64 + r * B52;
  }

  /** (a1 * 2^26 + a0) * (b1 * 2^26 + b0) */
  lemma PartialProducts(a1: nat, a0: nat, b1: nat, b0: nat)
    ensures (a1 * 0x400_0000 + a0) * (b1 * 0x400_0000 + b0)
            == a1 * b1 * B52 + (a0 * b1 + a1 * b0) * 0x400_0000 + a0 * b0
  {
    var k := 0x400_0000;
    assert (a1 * k + a0) * (b1 * k + b0) == (a1 * k) * (b1 * k) + (a1 * k) * b0 + a0 * (b1 * k) + a0 * b0;
    assert (a1 * k) * (b1 * k) == a1 * b1 * (k * k);
    assert (a1 * k) * b0 == a1 * b0 * k;
    assert a0 * (b1 * k) == a0 * b1 * k;
  }

  lemma MulBound(x: nat, y: nat, m: nat, n: nat)
    requires x < m && y < n
    ensures x * y < m * n
  {
    MulMono(x, y, n - 1);
    MulMono(n - 1, x, m - 1);
    assert (m - 1) * (n - 1) == m * n - m - n + 1;
  }

  /** The two 53-bit halves of a 128-bit sum below 2^106. */
  lemma ExtractHalves(hi64: nat, lo64: Dword)
    requires hi64 * B64 + lo64 < B53 * B53
    ensures var mLo, mHi := lo64 % B53, Wrap64(hi64 * 0x800) + lo64 / B53;
            mHi < B53 && mHi * B53 + mLo == hi64 * B64 + lo64
  {
    assert hi64 < 0x400_0000_0000;
    assert lo64 == lo64 / B53 * B53 + lo64 % B53;
    assert hi64 * B64 == hi64 * 0x800 * B53;
  }

  /** Product of two 53-bit significands as two 53-bit halves, computed in 64-bit arithmetic. */
  method Multiply53(ma: Dword, mb: Dword) returns (mHi: Dword, mLo: Dword)
    requires ma < B53 && mb < B53
    ensures mHi < B53 && mLo < B53
    ensures mHi * B53 + mLo == ma * mb
  {
    var aLo, aHi := ma % 0x400_0000, ma / 0x400_0000;
    var bLo, bHi := mb % 0x400_0000, mb / 0x400_0000;
    MulBound(aLo, bLo, 0x400_0000, 0x400_0000);
    MulBound(aLo, bHi, 0x400_0000, 0x800_0000);
    MulBound(aHi, bLo, 0x800_0000, 0x400_0000);
    MulBound(aHi, bHi, 0x800_0000, 0x800_0000);
    var p00: nat := aLo * bLo;
    var p01: nat := aLo * bHi;
    var p10: nat := aHi * bLo;
    var p11: nat := aHi * bHi;
    PartialProducts(aHi, aLo, bHi, bLo);
    MulBound(ma, mb, B53, B53);
    assert ma * mb == p11 * B52 + (p01 + p10) * 0x400_0000 + p00;
    mHi, mLo := Accumulate(p00, p01, p10, p11, ma * mb);
  }

  /** Add x to the 128-bit accumulator, carrying when the low word wraps. */
  method AddLow(hi64: Dword, lo64: Dword, x: Dword) returns (hi: Dword, lo: Dword)
    requires hi64 < B64 - 1
    ensures hi * B64 + lo == hi64 * B64 + lo64 + x && hi <= hi64 + 1
  {
    hi, lo := hi64, Wrap64(lo64 + x);
    CarryIsExact(lo64, x);
    if lo < lo64 {
      hi := hi + 1;
    }
  }

  /** The carry chain: p11 * 2^52 + (p01 + p10) * 2^26 + p00 in a 128-bit accumulator. */
  method Accumulate(p00: nat, p01: nat, p10: nat, p11: nat, ghost total: nat) returns (mHi: Dword, mLo: Dword)
    requires p00 < B52 && p01 < B53 && p10 < B53 && p11 < 0x40_0000_0000_0000
    requires total == p11 * B52 + (p01 + p10) * 0x400_0000 + p00 && total < B53 * B53
    ensures mHi < B53 && mLo < B53 && mHi * B53 + mLo == total
  {
    hide Wrap64;
    var lo64: Dword, hi64: Dword := p00, 0;
    hi64, lo64 := AddLow(hi64, lo64, Wrap64(p01 * 0x400_0000));
    hi64, lo64 := AddLow(hi64, lo64, Wrap64(p10 * 0x400_0000));
    hi64, lo64 := AddLow(hi64, lo64, Wrap64(p11 % B52 * B52));
    hi64 := hi64 + p11 / 0x1000;
    hi64 := hi64 + p01 / 0x40_0000_0000;
    hi64 := hi64 + p10 / 0x40_0000_0000;
    SplitShift26(p01);
    SplitShift26(p10);
    SplitShift52(p11);
    assert hi64 * B64 + lo64 == total;
    ExtractHalves(hi64, lo64);
    mLo := lo64 % B53;
    mHi := Wrap64(hi64 * 0x800) + lo64 / B53;
  }

  // ----- rounding and packing -----

  /** Rounding of the product p of two significands.  Below 2^52 (subnormal operands) the leading
      one is shifted up; from 2^105 on the product is cut off; between, it is rounded to nearest
      with ties toward zero.  The mantissa is always reduced to 52 bits. */
  function RoundProduct(p: nat, exp: int, sign: nat): Dword
    requires sign < 2
  {
    if p == 0 then Zero(sign)
    else if p < B52 then
      LeadShifts(p);
      var m := p * Pow2(Lead(p)) - B52;
      Finish(sign, exp - Lead(p), (m + (if m != 0 then 1 else 0)) % B52)
    else if p < B53 * B52 then
      Finish(sign, exp, (p / B52 % B52 + (if p % B52 > B51 then 1 else 0)) % B52)
    else Finish(sign, exp + 1, p / B53 % B52)
  }

  lemma HalvesOfProduct(mHi: Dword, mLo: Dword)
    requires mHi < B53 && mLo < B53
    ensures var p := mHi * B53 + mLo;
            && mHi * 2 + mLo / B52 == p / B52 && mLo % B52 == p % B52
            && (p / B52 == 0 ==> p == mLo)
  {
    var p := mHi * B53 + mLo;
    var top := mLo / B52;
    assert mLo == top * B52 + mLo % B52;
    assert p == (2 * mHi + top) * B52 + mLo % B52;
  }

  lemma TopHalf(low: nat)
    requires low < B52
    ensures low / B51 == 1 && low % B51 != 0 <==> low > B51
  {
  }

  lemma BitBelow52(m: nat)
    ensures m / B51 % 2 == m % B52 / B51 && m % B51 == m % B52 % B51
  {
    var q, low := m / B52, m % B52;
    var b, r := low / B51, low % B51;
    assert m == q * B52 + low && low == b * B51 + r;
    assert m == (2 * q + b) * B51 + r && 0 <= b < 2;
    assert m / B51 == 2 * q + b && m % B51 == r;
  }

  lemma BitBelow51(m: nat)
    ensures (m / 0x4_0000_0000_0000 % 2 == 1 || m % 0x4_0000_0000_0000 != 0) <==> m % B51 != 0
  {
    var q, low := m / B51, m % B51;
    assert m == q * B51 + low;
  }

  /** guard && (round || sticky): more than half of the 52 discarded bits. */
  lemma GuardRoundSticky(mLo: nat)
    ensures (mLo / B51 % 2 == 1 && (mLo / 0x4_0000_0000_0000 % 2 == 1 || mLo % 0x4_0000_0000_0000 != 0))
            <==> mLo % B52 > B51
  {
    BitBelow52(mLo);
    BitBelow51(mLo);
    TopHalf(mLo % B52);
  }

  lemma TopBits(p: nat)
    requires p < B53 * B53
    ensures var mr := p / B52;
            && (mr / B53 % 2 == 1 <==> p >= B53 * B52) && mr / 2 == p / B53
  {
    assert p / B52 / 2 == p / B53;
  }

  lemma LargeProductCases(p: nat, exp: int, sign: nat)
    requires p >= B52 && sign < 2
    ensures RoundProduct(p, exp, sign)
            == if p < B53 * B52 then Finish(sign, exp, Low(Low(p / B52, B52) + (if Low(p, B52) > B51 then 1 else 0), B52))
               else Finish(sign, exp + 1, Low(p / B53, B52))
  {
    hide Finish, Pow2, Lead;
  }

  lemma SmallProductCase(p: nat, m: nat, shift: nat, exp: int, sign: nat)
    requires 0 < p < B52 && sign < 2 && B52 <= m < B53 && m == p * Pow2(shift) && shift + Lead(m) == Lead(p)
    ensures shift == Lead(p)
    ensures RoundProduct(p, exp, sign)
            == Finish(sign, exp - shift, (m - B52 + (if m != B52 then 1 else 0)) % B52)
  {
    assert Lead(m) == 0;
    hide Finish, Pow2;
  }

  /** The 54-bit value the code rounds, its guard bit and the rest, in terms of the product. */
  lemma MrOfProduct(mHi: Dword, mLo: Dword)
    requires mHi < B53 && mLo < B53
    ensures var p, mr := mHi * B53 + mLo, mHi * 2 + Shr(mLo, B52);
            && (mr == 0 <==> p < B52) && (mr == 0 ==> p == mLo)
            && (Low(Shr(mr, B53), 2) == 1 <==> p >= B53 * B52)
            && Low(mr, B52) == Low(p / B52, B52) && Low(Shr(mr, 2), B52) == Low(p / B53, B52)
    ensures (Low(Shr(mLo, B51), 2) == 1
             && (Low(Shr(mLo, 0x4_0000_0000_0000), 2) == 1 || Low(mLo, 0x4_0000_0000_0000) != 0))
            <==> Low(mHi * B53 + mLo, B52) > B51
  {
    HalvesOfProduct(mHi, mLo);
    GuardRoundSticky(mLo);
    TopBits(mHi * B53 + mLo);
  }

  lemma LowSame(x: int, d: int)
    requires 0 <= x < d
    ensures Low(x, d) == x
  {
  }

  method Normalize(mHi: Dword, mLo: Dword, exp0: int, sign: nat) returns (r: Dword)
    requires mHi < B53 && mLo < B53 && sign < 2
    ensures r == RoundProduct(mHi * B53 + mLo, exp0, sign)
  {
    if mHi == 0 && mLo == 0 {
      return Zero(sign);
    }
    hide RoundProduct, Finish, Shr, Low;
    ghost var p := mHi * B53 + mLo;
    MrOfProduct(mHi, mLo);
    var exp := exp0;
    var mr: int := mHi * 2 + Shr(mLo, B52);
    var guard := Low(Shr(mLo, B51), 2);
    var roundBit := Low(Shr(mLo, 0x4_0000_0000_0000), 2);
    var sticky := Low(mLo, 0x4_0000_0000_0000) != 0;
    if mr == 0 {
      r := NormalizeSmall(mLo, exp, sign);
      return;
    }
    LargeProductCases(p, exp, sign);
    if Low(Shr(mr, B53), 2) == 1 {
      guard, roundBit, sticky := Low(mr, 2), 0, false;
      mr := Shr(mr, 2);
      exp := exp + 1;
    }
    LowSame(Low(mr, B52), B52);
    r := RoundUp(Low(mr, B52), guard == 1 && (roundBit == 1 || sticky), exp, sign);
  }

  /** The tail both branches of normalize share.  The carry test can never succeed: the
      mantissa is below 2^52 before the increment. */
  method RoundUp(mant0: nat, up: bool, exp0: int, sign: nat) returns (r: Dword)
    requires mant0 < B52 && sign < 2
    ensures r == Finish(sign, exp0, Low(mant0 + (if up then 1 else 0), B52))
  {
    hide Finish;
    var mant: int, exp := mant0, exp0;
    if up {
      mant := mant + 1;
      if mant / B53 % 2 == 1 {
        mant := Half(mant);
        exp := exp + 1;
      }
    }
    mant := mant % B52;
    return Finish(sign, exp, mant);
  }

  function Half(x: int): int { x / 2 }

  /** The branch of normalize for products below 2^52: shift until the leading one is at bit 52. */
  method NormalizeSmall(mLo0: Dword, exp0: int, sign: nat) returns (r: Dword)
    requires 0 < mLo0 < B52 && sign < 2
    ensures r == RoundProduct(mLo0, exp0, sign)
  {
    hide Wrap64, Pow2, Lead, RoundProduct, Finish;
    var mLo: int, shift := mLo0, 0;
    assert mLo0 * Pow2(0) == mLo0 by {
      TimesPow0(mLo0);
    }
    assert Pow2(0) == 1 by {
      TimesPow0(mLo0);
    }
    while mLo / B52 % 2 == 0 && shift < 63
      invariant 0 <= shift && mLo == mLo0 * Pow2(shift) && Pow2(shift) <= mLo < B53
      invariant shift + Lead(mLo) == Lead(mLo0)
      decreases 63 - shift
    {
      Doubling(mLo0, mLo, shift);
      mLo := Wrap64(mLo * 2);
      shift := shift + 1;
    }
    ShiftBound(shift, mLo);
    SmallProductCase(mLo0, mLo, shift, exp0, sign);
    LowBits(mLo);
    r := RoundUp(mLo % B52, mLo / B52 % 2 == 1 && (mLo / B51 % 2 == 1 || mLo % B51 != 0), exp0 - shift, sign);
  }

  lemma LowBits(m: nat)
    requires B52 <= m < B53
    ensures m / B52 % 2 == 1 && m % B52 == m - B52
    ensures (m / B51 % 2 == 1 || m % B51 != 0) <==> m % B52 != 0
  {
  }

  // ----- multiplication -----

  function MulSpec(a: Dword, b: Dword): Dword
  {
    var sign := if Sign(a) == Sign(b) then 0 else 1;
    if Exponent(a) == EXP_ONES || Exponent(b) == EXP_ONES then
      if IsNan(a) || IsNan(b) then NAN else Infinity(sign)
    else if IsZero(a) || IsZero(b) then Zero(sign)
    else RoundProduct(Significand(a) * Significand(b), Exponent(a) + Exponent(b) - BIAS, sign)
  }

  method MulDf3(a: Dword, b: Dword) returns (r: Dword)
    ensures r == MulSpec(a, b)
  {
    hide RoundProduct, Pack, Mantissa, Exponent, Sign;
    var sa, sb := Sign(a), Sign(b);
    var ea, eb := Exponent(a), Exponent(b);
    var ma: Dword, mb: Dword := Mantissa(a), Mantissa(b);
    var sign := (sa + sb) % 2;
    if ea == EXP_ONES || eb == EXP_ONES {
      if (ea == EXP_ONES && ma != 0) || (eb == EXP_ONES && mb != 0) {
        return NAN;
      }
      return Infinity(sign);
    }
    if (ea == 0 && ma == 0) || (eb == 0 && mb == 0) {
      return Zero(sign);
    }
    if ea != 0 {
      ma := ma + B52;
    }
    if eb != 0 {
      mb := mb + B52;
    }
    var mHi, mLo := Multiply53(ma, mb);
    r := Normalize(mHi, mLo, ea + eb - BIAS, sign);
  }

  /** Multiplication commutes on every pair of bit patterns. */
  lemma MulCommutes(a: Dword, b: Dword)
    ensures MulSpec(a, b) == MulSpec(b, a)
  {
    assert Significand(a) * Significand(b) == Significand(b) * Significand(a);
  }

  // ----- accuracy -----

  /** Significand product of two patterns. */
  function Product(a: Dword, b: Dword): nat { Significand(a) * Significand(b) }

  /** Exponent of the result before the range check. */
  function ProductExponent(a: Dword, b: Dword): int
  {
    Exponent(a) + Exponent(b) - BIAS + (if Product(a, b) >= B53 * B52 then 1 else 0)
  }

  /** The 53-bit quotient is all ones and is rounded up: the carry out of the mantissa is lost. */
  predicate LosesCarry(a: Dword, b: Dword)
  {
    Product(a, b) < B53 * B52 && Product(a, b) / B52 == B53 - 1 && Product(a, b) % B52 > B51
  }

  lemma ProductRange(a: Dword, b: Dword)
    requires Normal(a) && Normal(b)
    ensures B52 * B52 <= Product(a, b) < B53 * B53
  {
    MulBound(Significand(a), Significand(b), B53, B53);
    MulMono(B52, B52, Significand(b));
    MulMono(Significand(b), B52, Significand(a));
  }

  /** Integer form: the result's significand R in units of 2^52 (or 2^53) against the product. */
  function ResultSignificand(p: nat): nat
  {
    if p < B53 * B52 then p / B52 + (if p % B52 > B51 then 1 else 0) else p / B53
  }

  function Unit(p: nat): (u: int)
    ensures u > 0
  {
    if p < B53 * B52 then B52 else B53
  }

  lemma RoundsToNearest(p: nat)
    requires B52 * B52 <= p < B53 * B53
    ensures var r, u := ResultSignificand(p), Unit(p);
            && B52 <= r <= B53 && -u < r * u - p < u
            && (u == B52 ==> -B51 <= r * u - p < B51)
            && (u == B53 ==> r < B53 && r * u <= p)
  {
    var q, low := p / B52, p % B52;
    assert p == q * B52 + low;
    assert p / B53 == q / 2;
  }

  lemma RoundProductFields(p: nat, exp: int, s: nat)
    requires B52 * B52 <= p < B53 * B53 && s < 2
    requires 1 <= exp + (if p >= B53 * B52 then 1 else 0) <= 2046
    ensures var r := ResultSignificand(p);
            && B52 <= r <= B53
            && RoundProduct(p, exp, s)
               == Pack(s, exp + (if p >= B53 * B52 then 1 else 0), if r == B53 then 0 else r - B52)
  {
    RoundsToNearest(p);
    hide Pow2, Lead;
    var r := ResultSignificand(p);
    assert r % B52 == if r == B53 then 0 else r - B52;
  }

  lemma MulFields(a: Dword, b: Dword)
    requires Normal(a) && Normal(b) && 1 <= ProductExponent(a, b) <= 2046
    ensures var r := MulSpec(a, b);
            && Normal(r) && Exponent(r) == ProductExponent(a, b)
            && Sign(r) == (if Sign(a) == Sign(b) then 0 else 1)
            && Significand(r) == (if LosesCarry(a, b) then B52 else ResultSignificand(Product(a, b)))
  {
    var s := if Sign(a) == Sign(b) then 0 else 1;
    var p := Product(a, b);
    hide Sign, Exponent, Mantissa, Pack, RoundProduct;
    ProductRange(a, b);
    RoundProductFields(p, Exponent(a) + Exponent(b) - BIAS, s);
    RoundsToNearest(p);
    var r := ResultSignificand(p);
    Unpack(s, ProductExponent(a, b), if r == B53 then 0 else r - B52);
  }

  // ----- in real numbers -----

  /** Sign times magnitude: the exact product of two normal doubles. */
  lemma ExactProduct(a: Dword, b: Dword)
    ensures ExactMul(a, b) == SignOf(if Sign(a) == Sign(b) then 0 else 1) * (Product(a, b) as real * Weight(a, b))
  {
    var x, y := Significand(a) as real, Significand(b) as real;
    var s, t := TwoTo(Exponent(a) - 1075), TwoTo(Exponent(b) - 1075);
    TwoToSum(Exponent(a) - 1075, Exponent(b) - 1075);
    hide TwoTo, Significand, Sign, Exponent;
    SignedProduct(SignOf(Sign(a)), SignOf(Sign(b)), x, y, s, t);
    assert Product(a, b) as real == x * y;
  }

  lemma SignedProduct(i: real, j: real, x: real, y: real, s: real, t: real)
    ensures (i * (x * s)) * (j * (y * t)) == (i * j) * ((x * y) * (s * t))
  {
    assert (x * s) * (y * t) == (x * y) * (s * t) by {
      assert (x * s) * (y * t) == x * (s * (y * t));
      assert s * (y * t) == y * (s * t);
    }
    assert (i * (x * s)) * (j * (y * t)) == i * (j * ((x * s) * (y * t)));
  }

  function ExactMul(a: Dword, b: Dword): real { Value(a) * Value(b) }

  /** Distance of the computed product from the exact one, and of their magnitudes. */
  function MulError(a: Dword, b: Dword): real { AbsReal(Value(MulSpec(a, b)) - ExactMul(a, b)) }

  function MulExcess(a: Dword, b: Dword): real { AbsReal(Value(MulSpec(a, b))) - AbsReal(ExactMul(a, b)) }

  /** Weight of the last place of the significand product. */
  function Weight(a: Dword, b: Dword): (w: real)
    ensures w > 0.0
  {
    TwoTo(Exponent(a) + Exponent(b) - 2150)
  }

  /** The unit the product is rounded to weighs 2 to the result's exponent. */
  lemma UnitWeight(a: Dword, b: Dword)
    ensures Scaled(Unit(Product(a, b)), Weight(a, b)) == TwoTo(ProductExponent(a, b) - 1075)
  {
    hide TwoTo, Pow2, Exponent;
    Pow2Literals();
    var e := Exponent(a) + Exponent(b) - 2150;
    var n := if Product(a, b) >= B53 * B52 then 53 else 52;
    TwoToAdd(e, n);
    assert ProductExponent(a, b) - 1075 == e + n;
  }

  /** One ulp of the result in units of the product's last place. */
  lemma UlpOfProduct(a: Dword, b: Dword)
    requires Normal(a) && Normal(b) && 1 <= ProductExponent(a, b) <= 2046
    ensures Ulp(MulSpec(a, b)) == Scaled(Unit(Product(a, b)), Weight(a, b))
  {
    hide TwoTo, MulSpec, Exponent, Product, Unit, Weight, Scaled, ProductExponent;
    MulFields(a, b);
    UnitWeight(a, b);
  }

  /** Error of a significand product in units of the weight of its last place. */
  function ErrorUnits(a: Dword, b: Dword): int
  {
    (if LosesCarry(a, b) then B52 else ResultSignificand(Product(a, b))) * Unit(Product(a, b)) - Product(a, b)
  }

  /** Sign, significand, unit and last-place weight against the exact product. */
  lemma DifferenceInUnits(s: real, m: int, u: int, p: int, w: real, v: real, x: real)
    requires (s == 1.0 || s == -1.0) && m >= 0 && u >= 0 && p >= 0 && w > 0.0
    requires v == s * (m as real * Scaled(u, w)) && x == s * (p as real * w)
    ensures AbsReal(v - x) == AbsReal(Scaled(m * u - p, w)) && AbsReal(v) - AbsReal(x) == Scaled(m * u - p, w)
  {
    Distribute(m, u, p, w);
    var y, z := (m * u) as real * w, p as real * w;
    assert y >= 0.0 && z >= 0.0 by {
      Scale(0.0, (m * u) as real, w);
      Scale(0.0, p as real, w);
    }
    SignedDifference(s, y, z, v, x, Scaled(m * u - p, w));
  }

  lemma Distribute(m: int, u: int, p: int, w: real)
    ensures m as real * (u as real * w) == (m * u) as real * w
    ensures (m * u) as real * w - p as real * w == (m * u - p) as real * w
  {
    assert (m * u) as real == m as real * u as real;
    assert (m * u - p) as real == (m * u) as real - p as real;
  }

  lemma SignedDifference(s: real, y: real, z: real, v: real, x: real, d: real)
    requires (s == 1.0 || s == -1.0) && y >= 0.0 && z >= 0.0 && v == s * y && x == s * z && d == y - z
    ensures AbsReal(v - x) == AbsReal(d) && AbsReal(v) - AbsReal(x) == d
  {
  }

  lemma MulDifference(a: Dword, b: Dword)
    requires Normal(a) && Normal(b) && 1 <= ProductExponent(a, b) <= 2046
    ensures MulError(a, b) == AbsReal(Scaled(ErrorUnits(a, b), Weight(a, b)))
    ensures MulExcess(a, b) == Scaled(ErrorUnits(a, b), Weight(a, b))
  {
    hide Value, MulSpec, Weight, Scaled, ExactMul, Significand, Sign, Exponent, Product, LosesCarry;
    hide ResultSignificand, Unit, Normal, AbsReal;
    var s := SignOf(if Sign(a) == Sign(b) then 0 else 1);
    var m := if LosesCarry(a, b) then B52 else ResultSignificand(Product(a, b));
    ResultValue(a, b);
    ExactProduct(a, b);
    DifferenceInUnits(s, m, Unit(Product(a, b)), Product(a, b), Weight(a, b), Value(MulSpec(a, b)), ExactMul(a, b));
  }

  lemma ResultValue(a: Dword, b: Dword)
    requires Normal(a) && Normal(b) && 1 <= ProductExponent(a, b) <= 2046
    ensures var m := if LosesCarry(a, b) then B52 else ResultSignificand(Product(a, b));
            Value(MulSpec(a, b))
            == SignOf(if Sign(a) == Sign(b) then 0 else 1) * (m as real * Scaled(Unit(Product(a, b)), Weight(a, b)))
  {
    hide MulSpec, TwoTo, Significand, Sign, Exponent, Product, LosesCarry, ResultSignificand, Unit, Scaled, Weight;
    MulFields(a, b);
    UlpOfProduct(a, b);
  }

  // ----- the range of products -----

  function ProductSign(a: Dword, b: Dword): (s: nat)
    ensures s < 2
  {
    if Sign(a) == Sign(b) then 0 else 1
  }

  /** The exact product has the magnitude its exponent says. */
  lemma ProductBracket(a: Dword, b: Dword)
    requires Normal(a) && Normal(b)
    ensures var e := ProductExponent(a, b); TwoTo(e - 1023) <= AbsReal(ExactMul(a, b)) < TwoTo(e - 1022)
  {
    hide TwoTo, Pow2, ExactMul, Weight, Scaled, ProductExponent, Product, Unit;
    var p, u, e, w := Product(a, b), Unit(Product(a, b)), ProductExponent(a, b), Weight(a, b);
    MagnitudeOfProduct(a, b);
    UnitWeight(a, b);
    ProductUnits(a, b);
    Pow2Literals();
    TwoToAdd(e - 1075, 52);
    TwoToAdd(e - 1075, 53);
    ScaledTwice(B52, u, w);
    ScaledTwice(B53, u, w);
    ScaledOrder(p, B52 * u, w);
    ScaledOrder(p, B53 * u, w);
    ScaledIs(B52, TwoTo(e - 1075));
    ScaledIs(B53, TwoTo(e - 1075));
  }

  lemma ScaledIs(n: int, w: real)
    ensures Scaled(n, w) == n as real * w
  {
  }

  lemma ScaledTwice(n: int, u: int, w: real)
    ensures Scaled(n, Scaled(u, w)) == Scaled(n * u, w)
  {
    assert (n * u) as real == n as real * u as real;
  }

  lemma ProductUnits(a: Dword, b: Dword)
    requires Normal(a) && Normal(b)
    ensures var p, u := Product(a, b), Unit(Product(a, b)); B52 * u <= p < B53 * u
  {
    ProductRange(a, b);
    hide Product;
  }

  lemma MagnitudeOfProduct(a: Dword, b: Dword)
    ensures AbsReal(ExactMul(a, b)) == Scaled(Product(a, b), Weight(a, b))
  {
    ExactProduct(a, b);
    hide ExactMul, Weight, Product;
    Scale(0.0, Product(a, b) as real, Weight(a, b));
  }

  /** An exponent out of range flushes the product to zero or makes it infinite. */
  lemma MulOutOfRange(a: Dword, b: Dword)
    requires Normal(a) && Normal(b)
    ensures ProductExponent(a, b) <= 0 ==> MulSpec(a, b) == Zero(ProductSign(a, b))
    ensures ProductExponent(a, b) >= 2047 ==> MulSpec(a, b) == Infinity(ProductSign(a, b))
  {
    hide Sign, Exponent, Mantissa, Zero, Infinity, Pow2, Lead;
    ProductRange(a, b);
  }

  /** Where the result lies is decided by the exact product. */
  lemma MulRange(a: Dword, b: Dword)
    requires Normal(a) && Normal(b)
    ensures ProductExponent(a, b) <= 0 <==> AbsReal(ExactMul(a, b)) < TwoTo(MIN_EXP)
    ensures ProductExponent(a, b) >= 2047 <==> AbsReal(ExactMul(a, b)) >= TwoTo(MAX_EXP)
  {
    hide TwoTo, ExactMul, ProductExponent;
    var e := ProductExponent(a, b);
    ProductBracket(a, b);
    if e <= 0 {
      TwoToMono(e - 1022, MIN_EXP);
      TwoToMono(MIN_EXP, MAX_EXP);
    } else {
      TwoToMono(MIN_EXP, e - 1023);
      if e >= 2047 {
        TwoToMono(MAX_EXP, e - 1023);
      } else {
        TwoToMono(e - 1022, MAX_EXP);
      }
    }
  }

  /** Accuracy of multiplication of normal doubles.  The result is zero exactly when the exact product is below the
      least normal number, and infinite exactly when it is 2^1024 or more.  Otherwise its error is below one ulp if
      and only if the rounding carry is not lost.  Then it is at most half an ulp, ties going toward zero, when the
      product of the significands is below 2^105, and the result is the truncated product otherwise. */
  lemma MulAccuracy(a: Dword, b: Dword)
    requires Normal(a) && Normal(b)
    ensures var r, exact, ulp := MulSpec(a, b), AbsReal(ExactMul(a, b)), Ulp(MulSpec(a, b));
            if exact < TwoTo(MIN_EXP) then r == Zero(ProductSign(a, b))
            else if exact >= TwoTo(MAX_EXP) then r == Infinity(ProductSign(a, b))
            else
              && Normal(r) && Sign(r) == ProductSign(a, b)
              && (MulError(a, b) < ulp <==> !LosesCarry(a, b))
              && (!LosesCarry(a, b) && Product(a, b) < B53 * B52 ==>
                    MulError(a, b) <= ulp / 2.0 && (MulError(a, b) == ulp / 2.0 ==> MulExcess(a, b) < 0.0))
              && (Product(a, b) >= B53 * B52 ==> MulExcess(a, b) <= 0.0)
  {
    hide Ulp, MulSpec, Weight, Scaled, MulError, MulExcess, Product, LosesCarry, Unit, ErrorUnits, ExactMul, TwoTo;
    hide Sign, Normal, Zero, Infinity, ProductExponent, Exponent;
    MulRange(a, b);
    MulOutOfRange(a, b);
    if 1 <= ProductExponent(a, b) <= 2046 {
      MulFields(a, b);
      MulDifference(a, b);
      UlpOfProduct(a, b);
      UnitsOfError(a, b);
      ErrorBound(ErrorUnits(a, b), Unit(Product(a, b)), Weight(a, b));
    }
  }

  lemma UnitsOfError(a: Dword, b: Dword)
    requires Normal(a) && Normal(b)
    ensures var e, u := ErrorUnits(a, b), Unit(Product(a, b));
            && u > 0 && (-u < e < u <==> !LosesCarry(a, b))
            && (!LosesCarry(a, b) && Product(a, b) < B53 * B52 ==> -u <= 2 * e < u)
            && (Product(a, b) >= B53 * B52 ==> e <= 0)
  {
    ProductRange(a, b);
    RoundsToNearest(Product(a, b));
    LostCarryError(a, b);
    hide Significand, Product;
  }

  /** A lost carry halves the result. */
  lemma LostCarryError(a: Dword, b: Dword)
    ensures LosesCarry(a, b) ==> ErrorUnits(a, b) < -B52
    ensures !LosesCarry(a, b) ==> ErrorUnits(a, b) == ResultSignificand(Product(a, b)) * Unit(Product(a, b)) - Product(a, b)
  {
    var p := Product(a, b);
    assert p == p / B52 * B52 + p % B52;
  }

  lemma ErrorBound(e: int, u: int, w: real)
    requires w > 0.0 && u > 0
    ensures AbsReal(Scaled(e, w)) < Scaled(u, w) <==> -u < e < u
    ensures -u <= 2 * e < u ==>
              AbsReal(Scaled(e, w)) <= Scaled(u, w) / 2.0
              && (AbsReal(Scaled(e, w)) == Scaled(u, w) / 2.0 ==> Scaled(e, w) < 0.0)
    ensures e <= 0 ==> Scaled(e, w) <= 0.0
  {
    hide Scaled;
    ScaledLinear(e, w);
    ScaledLinear(u, w);
    ScaledOrder(e, u, w);
    ScaledOrder(-u, e, w);
    ScaledOrder(2 * e, u, w);
    ScaledOrder(2 * e, -u, w);
    ScaledOrder(0, e, w);
  }

  /** The excluded case exists: (1 + 2^-52) * (2 - 2^-51) gives 1 instead of 2. */
  lemma LostCarryExample()
    ensures var a, b := Pack(0, BIAS, 1), Pack(0, BIAS, B52 - 2);
            LosesCarry(a, b) && MulSpec(a, b) == Pack(0, BIAS, 0)
  {
    var a, b := Pack(0, BIAS, 1), Pack(0, BIAS, B52 - 2);
    Unpack(0, BIAS, 1);
    Unpack(0, BIAS, B52 - 2);
    assert Product(a, b) == (B52 + 1) * (B53 - 2) == B53 * B52 - 2;
  }

  // ----- subnormal operands -----

  /** The significand a subnormal operand leaves: the quotient below 2^52 is packed as if it had a leading one. */
  function SubnormalSignificand(p: nat): nat { B52 + (p / B52 % B52 + (if p % B52 > B51 then 1 else 0)) % B52 }

  /** It is within one unit of twice the product exactly when the quotient is all ones and at most half is cut off. */
  lemma SubnormalUnits(p: nat)
    requires B52 <= p < B52 * B53
    ensures -B52 < SubnormalSignificand(p) * B52 - 2 * p < B52 <==> p / B52 == B52 - 1 && 0 < p % B52 <= B51
  {
    var q, f := p / B52, p % B52;
    assert p == q * B52 + f;
    var up := if f > B51 then 1 else 0;
    assert q % B52 == if q < B52 then q else q - B52;
    var low := q % B52 + up;
    assert low % B52 == if low < B52 then low else 0;
  }

  lemma SubnormalRange(a: Dword, b: Dword)
    requires Subnormal(a) && Normal(b)
    ensures B52 <= Product(a, b) < B52 * B53
  {
    assert 1 <= Significand(a) < B52;
    MulBound(Significand(a), Significand(b), B52, B53);
    MulMono(Significand(b), 1, Significand(a));
  }

  lemma SubnormalFields(a: Dword, b: Dword)
    requires Subnormal(a) && Normal(b)
    ensures var r, s := MulSpec(a, b), ProductSign(a, b);
            if Exponent(b) <= BIAS then r == Zero(s)
            else Normal(r) && Exponent(r) == Exponent(b) - BIAS && Sign(r) == s
                 && Significand(r) == SubnormalSignificand(Product(a, b))
  {
    SubnormalRange(a, b);
    var p, s := Product(a, b), ProductSign(a, b);
    if Exponent(b) > BIAS {
      Unpack(s, Exponent(b) - BIAS, SubnormalSignificand(p) - B52);
    }
    hide Sign, Exponent, Mantissa, Zero, Infinity, Pow2, Lead, Pack;
    assert MulSpec(a, b) == RoundProduct(p, Exponent(b) - BIAS, s);
  }

  /** The product of the numbers the operands stand for. */
  function TrueProduct(a: Dword, b: Dword): real { Number(a) * Number(b) }

  lemma TrueIsTwice(a: Dword, b: Dword)
    requires Subnormal(a) && Normal(b)
    ensures TrueProduct(a, b) == 2.0 * ExactMul(a, b)
  {
    SubnormalIsHalved(a);
    SubnormalIsHalved(b);
    hide Number, Value;
    assert (2.0 * Value(a)) * Value(b) == 2.0 * (Value(a) * Value(b));
  }

  lemma ExactIsWeighted(a: Dword, b: Dword)
    ensures ExactMul(a, b) == Weighted(ProductSign(a, b), Product(a, b), Weight(a, b))
  {
    ExactProduct(a, b);
    hide ExactMul, Weight, Product, SignOf, Sign;
  }

  /** It in units of the significand product's last place. */
  lemma TrueUnits(a: Dword, b: Dword)
    requires Subnormal(a) && Normal(b)
    ensures TrueProduct(a, b) == Weighted(ProductSign(a, b), 2 * Product(a, b), Weight(a, b))
    ensures AbsReal(TrueProduct(a, b)) == Scaled(2 * Product(a, b), Weight(a, b))
  {
    TrueIsTwice(a, b);
    ExactIsWeighted(a, b);
    hide *;
    TwiceProduct(TrueProduct(a, b), ExactMul(a, b), ProductSign(a, b), Product(a, b), Weight(a, b));
  }

  lemma IsSign(s: nat)
    ensures SignOf(s) == 1.0 || SignOf(s) == -1.0
  {
  }

  lemma TwiceProduct(x: real, y: real, s: nat, p: nat, w: real)
    requires x == 2.0 * y && y == Weighted(s, p, w) && w > 0.0
    ensures x == Weighted(s, 2 * p, w) && AbsReal(x) == Scaled(2 * p, w)
  {
    ScaledLinear(p, w);
    Scale(0.0, p as real, w);
  }

  /** A subnormal and a normal operand.  The result is zero up to the exponent field 1023, rightly except for products
      of numbers that reach the least normal one; beyond it the error is below one ulp only on a sliver of operands,
      since the missing leading one is taken for present. */
  lemma MulSubnormal(a: Dword, b: Dword)
    requires Subnormal(a) && Normal(b)
    ensures var r, exact, p := MulSpec(a, b), TrueProduct(a, b), Product(a, b);
            if Exponent(b) <= BIAS then
              && r == Zero(ProductSign(a, b))
              && (AbsReal(exact) < TwoTo(MIN_EXP) <==> Exponent(b) < BIAS || p < B52 * B52)
            else
              && Normal(r)
              && (AbsReal(Value(r) - exact) < Ulp(r) <==> p / B52 == B52 - 1 && 0 < p % B52 <= B51)
  {
    hide MulSpec, Zero, Product, Weight, Scaled, TwoTo, Pow2, Value, TrueProduct, Sign, Exponent, Significand, AbsReal, SignOf;
    SubnormalFields(a, b);
    SubnormalRange(a, b);
    TrueUnits(a, b);
    if Exponent(b) <= BIAS {
      SubnormalFlushes(a, b);
    } else {
      SubnormalUnits(Product(a, b));
      SubnormalError(a, b);
    }
  }

  lemma SubnormalFlushes(a: Dword, b: Dword)
    requires Subnormal(a) && Normal(b) && Exponent(b) <= BIAS
    requires AbsReal(TrueProduct(a, b)) == Scaled(2 * Product(a, b), Weight(a, b))
    requires B52 <= Product(a, b) < B52 * B53
    ensures AbsReal(TrueProduct(a, b)) < TwoTo(MIN_EXP) <==> Exponent(b) < BIAS || Product(a, b) < B52 * B52
  {
    hide Product, Scaled, TwoTo, Pow2, TrueProduct, Sign, Exponent, Mantissa, AbsReal;
    var p, e: int := Product(a, b), Exponent(b);
    assert Weight(a, b) == TwoTo(e - 2150);
    ProductUnit(e - 2150);
    ScaledOrder(2 * p, B52 * B53, TwoTo(e - 2150));
    if e < BIAS {
      TwoToNext(e - 2045);
      TwoToMono(e - 2044, MIN_EXP);
      ScaledLinear(B52 * B53, TwoTo(e - 2150));
      ScaledOrder(2 * p, 2 * (B52 * B53), TwoTo(e - 2150));
    }
  }

  lemma ProductUnit(e: int)
    ensures Scaled(B52 * B53, TwoTo(e)) == TwoTo(e + 105)
  {
    hide TwoTo, Pow2;
    Pow2Literals();
    Pow2Add(52, 53);
    TwoToAdd(e, 105);
  }

  lemma SubnormalError(a: Dword, b: Dword)
    requires Subnormal(a) && Normal(b) && Exponent(b) > BIAS
    ensures var r, p := MulSpec(a, b), Product(a, b);
            AbsReal(Value(r) - TrueProduct(a, b)) < Ulp(r) <==> -B52 < SubnormalSignificand(p) * B52 - 2 * p < B52
  {
    var r, p, m, w := MulSpec(a, b), Product(a, b), SubnormalSignificand(Product(a, b)), Weight(a, b);
    SubnormalFields(a, b);
    TrueUnits(a, b);
    SubnormalUlp(a, b);
    SubnormalValue(r, ProductSign(a, b), m);
    hide *;
    ErrorIff(ProductSign(a, b), m, p, w, Value(r), TrueProduct(a, b), Ulp(r));
  }

  lemma ErrorIff(s: nat, m: nat, p: nat, w: real, v: real, x: real, ulp: real)
    requires w > 0.0 && ulp == Scaled(B52, w) && v == Weighted(s, m, ulp) && x == Weighted(s, 2 * p, w)
    ensures AbsReal(v - x) < ulp <==> -B52 < m * B52 - 2 * p < B52
  {
    IsSign(s);
    hide SignOf, AbsReal, Scaled;
    DifferenceInUnits(SignOf(s), m, B52, 2 * p, w, v, x);
    ErrorBound(m * B52 - 2 * p, B52, w);
  }

  lemma SubnormalValue(r: Dword, s: nat, m: nat)
    requires Sign(r) == s && Significand(r) == m
    ensures Value(r) == Weighted(s, m, Ulp(r))
  {
    hide TwoTo, Sign, Exponent, Mantissa, Significand, SignOf;
  }

  lemma SubnormalUlp(a: Dword, b: Dword)
    requires Subnormal(a) && Normal(b) && Exponent(b) > BIAS
    ensures Ulp(MulSpec(a, b)) == Scaled(B52, Weight(a, b))
  {
    SubnormalFields(a, b);
    UnitOfTwo(Exponent(b) - 2150);
    hide MulSpec, TwoTo, Scaled, Exponent, Mantissa, Zero, ProductSign, Product, SubnormalSignificand, Significand;
  }

  lemma UnitOfTwo(e: int)
    ensures Scaled(B52, TwoTo(e)) == TwoTo(e + 52)
  {
    hide TwoTo, Pow2;
    Pow2Literals();
    TwoToAdd(e, 52);
  }

  /** The least subnormal times 2^1000 comes out as 2^-23 and one place more instead of 2^-74. */
  lemma SubnormalProductExample()
    ensures var a, b := Pack(0, 0, 1), Pack(0, 2023, 0);
            Subnormal(a) && Normal(b) && MulSpec(a, b) == Pack(0, 1000, 1)
            && AbsReal(Value(MulSpec(a, b)) - TrueProduct(a, b)) >= Ulp(MulSpec(a, b))
  {
    var a, b := Pack(0, 0, 1), Pack(0, 2023, 0);
    Unpack(0, 0, 1);
    Unpack(0, 2023, 0);
    assert Product(a, b) == B52;
    assert RoundProduct(B52, 1000, 0) == Finish(0, 1000, 1);
    hide Value, Ulp, TrueProduct, TwoTo;
    MulSubnormal(a, b);
  }

  lemma SubnormalIsSmall(a: Dword)
    requires Subnormal(a)
    ensures AbsReal(Number(a)) < TwoTo(MIN_EXP)
  {
    SubnormalParts(a);
    hide TwoTo, Pow2, Sign, Exponent, Mantissa, Significand, Number;
    var m, w := Significand(a), TwoTo(-1074);
    Pow2Literals();
    TwoToAdd(-1074, 52);
    ScaledOrder(m, B52, w);
    ScaledOrder(m, 0, w);
    ScaledLinear(0, w);
    WeightedMagnitude(Sign(a), m, w);
  }

  lemma SubnormalParts(a: Dword)
    requires Subnormal(a)
    ensures Significand(a) < B52 && Number(a) == Weighted(Sign(a), Significand(a), TwoTo(-1074))
  {
    hide TwoTo;
  }

  lemma WeightedMagnitude(s: nat, m: nat, w: real)
    requires w > 0.0
    ensures AbsReal(Weighted(s, m, w)) == Scaled(m, w)
  {
    Scale(0.0, m as real, w);
  }

  /** Two subnormals give zero, as the product of what they stand for is below the least normal number. */
  lemma MulSubnormals(a: Dword, b: Dword)
    requires Subnormal(a) && Subnormal(b)
    ensures MulSpec(a, b) == Zero(ProductSign(a, b)) && AbsReal(TrueProduct(a, b)) < TwoTo(MIN_EXP)
  {
    SubnormalsFlush(a, b);
    TrueIsSmall(a, b);
    hide *;
  }

  lemma TrueIsSmall(a: Dword, b: Dword)
    requires Subnormal(a) && Subnormal(b)
    ensures AbsReal(TrueProduct(a, b)) < TwoTo(MIN_EXP)
  {
    hide AbsReal, TwoTo, Number, Subnormal;
    SubnormalIsSmall(a);
    SubnormalIsSmall(b);
    MinimumBelowOne();
    SmallProduct(Number(a), Number(b), TrueProduct(a, b), TwoTo(MIN_EXP));
  }

  lemma MinimumBelowOne()
    ensures TwoTo(MIN_EXP) <= 1.0
  {
    TwoToMono(MIN_EXP, 0);
    assert TwoTo(0) == 1.0;
  }

  lemma SubnormalsFlush(a: Dword, b: Dword)
    requires Subnormal(a) && Subnormal(b)
    ensures MulSpec(a, b) == Zero(ProductSign(a, b))
  {
    hide Sign, Mantissa, Zero, Infinity, Pow2, Lead, Pack;
  }

  lemma SmallProduct(x: real, y: real, product: real, t: real)
    requires AbsReal(x) < t && AbsReal(y) < t <= 1.0 && product == x * y
    ensures AbsReal(product) < t
  {
    AbsProduct(x, y);
    AbsNonnegative(x);
    hide AbsReal;
    Squeeze(AbsReal(x), AbsReal(y));
  }

  lemma AbsNonnegative(x: real)
    ensures AbsReal(x) >= 0.0
  {
  }

  lemma AbsProduct(x: real, y: real)
    ensures AbsReal(x * y) == AbsReal(x) * AbsReal(y)
  {
    var u, v := AbsReal(x), AbsReal(y);
    assert (x == u || x == -u) && (y == v || y == -v) && u >= 0.0 && v >= 0.0;
    assert u * v >= 0.0;
    assert x * y == u * v || x * y == -(u * v);
  }

  lemma Squeeze(u: real, v: real)
    requires 0.0 <= u && v <= 1.0
    ensures u * v <= u
  {
    assert u * (1.0 - v) >= 0.0 && u * (1.0 - v) == u - u * v;
  }

  /** The branch for products below 2^52 shifts the leading one up and rounds every product but a power of two up by
      one place, the carry lost here too. */
  lemma SmallProductRounds(p: nat, exp: int, sign: nat)
    requires 0 < p < B52 && sign < 2
    ensures B52 <= p * Pow2(Lead(p)) < B53
    ensures var m, e := p * Pow2(Lead(p)), exp - Lead(p);
            RoundProduct(p, exp, sign)
            == if e <= 0 then Zero(sign) else if e >= 2047 then Infinity(sign)
               else Pack(sign, e, if m == B52 || m == B53 - 1 then 0 else m - B52 + 1)
  {
    LeadShifts(p);
    OnePlaceUp(p * Pow2(Lead(p)) - B52);
    hide Pow2, Lead, Pack, Zero, Infinity;
  }

  lemma OnePlaceUp(m: nat)
    requires m < B52
    ensures (m + (if m != 0 then 1 else 0)) % B52 == if m == 0 || m == B52 - 1 then 0 else m + 1
  {
  }

  // ----- zeros, infinities and NaNs -----

  lemma RoundedIsNumber(p: nat, exp: int, sign: nat)
    requires sign < 2
    ensures !IsNan(RoundProduct(p, exp, sign)) && Sign(RoundProduct(p, exp, sign)) == sign
  {
    hide Finish, Pow2, Lead, Zero, IsNan, Sign;
    SpecialFields(sign);
    forall e: int, mant: nat | mant < B52
      ensures !IsNan(Finish(sign, e, mant)) && Sign(Finish(sign, e, mant)) == sign
    {
      FinishIsNumber(sign, e, mant);
    }
  }

  /** The result is a NaN exactly when an operand is, and otherwise has the sign of the product. */
  lemma MulNan(a: Dword, b: Dword)
    ensures IsNan(MulSpec(a, b)) <==> IsNan(a) || IsNan(b)
    ensures IsNan(MulSpec(a, b)) ==> MulSpec(a, b) == NAN
    ensures !IsNan(MulSpec(a, b)) ==> Sign(MulSpec(a, b)) == ProductSign(a, b)
  {
    var s := ProductSign(a, b);
    SpecialFields(s);
    assert IsNan(NAN);
    hide RoundProduct, Zero, Infinity, Sign;
    RoundedIsNumber(Significand(a) * Significand(b), Exponent(a) + Exponent(b) - BIAS, s);
  }

  /** A zero times a finite operand is the zero of the product's sign, and stands for the exact product; an infinity
      times anything but a NaN is the infinity of the product's sign. */
  lemma MulSpecials(a: Dword, b: Dword)
    ensures (IsZero(a) && Finite(b)) || (Finite(a) && IsZero(b)) ==>
              MulSpec(a, b) == Zero(ProductSign(a, b)) && Number(MulSpec(a, b)) == TrueProduct(a, b)
    ensures (IsInfinite(a) && !IsNan(b)) || (!IsNan(a) && IsInfinite(b)) ==> MulSpec(a, b) == Infinity(ProductSign(a, b))
  {
    if (IsZero(a) && Finite(b)) || (Finite(a) && IsZero(b)) {
      ZeroGivesZero(a, b);
      SpecialFields(ProductSign(a, b));
      ZeroHasNoValue(Zero(ProductSign(a, b)));
      ZeroTrueProduct(a, b);
      hide *;
    }
  }

  lemma ZeroGivesZero(a: Dword, b: Dword)
    requires (IsZero(a) && Finite(b)) || (Finite(a) && IsZero(b))
    ensures MulSpec(a, b) == Zero(ProductSign(a, b))
  {
  }

  lemma ZeroTrueProduct(a: Dword, b: Dword)
    requires IsZero(a) || IsZero(b)
    ensures TrueProduct(a, b) == 0.0
  {
    if IsZero(a) {
      ZeroHasNoValue(a);
    } else {
      ZeroHasNoValue(b);
    }
    hide Number;
    TimesZero(Number(a), Number(b));
  }

  lemma TimesZero(x: real, y: real)
    requires x == 0.0 || y == 0.0
    ensures x * y == 0.0
  {
  }

  /** Section 7.2 of IEEE 754-2008 makes a product invalid, a NaN, also for a zero and an infinity; the code gives the
      infinity there, and agrees everywhere else. */
  predicate InvalidProduct(a: Dword, b: Dword) { (IsZero(a) && IsInfinite(b)) || (IsInfinite(a) && IsZero(b)) }

  lemma MulNanIff(a: Dword, b: Dword)
    ensures (IsNan(MulSpec(a, b)) <==> IsNan(a) || IsNan(b) || InvalidProduct(a, b)) <==> !InvalidProduct(a, b)
  {
    MulNan(a, b);
    hide MulSpec;
  }
}
