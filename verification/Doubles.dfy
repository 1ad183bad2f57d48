/** Double-precision bit patterns, their fields and the numbers they stand for. */
module Doubles {
  import opened Words

  const BIAS := 1023
  const B51 := 0x8_0000_0000_0000
  const B52 := 0x10_0000_0000_0000
  const B53 := 0x20_0000_0000_0000
  const B63 := 0x8000_0000_0000_0000
  const B64 := 0x1_0000_0000_0000_0000
  const EXP_ONES := 2047

  /** A quiet NaN. */
  const NAN: Dword := 0x7FF8_0000_0000_0000

  function Sign(a: Dword): (s: nat)
    ensures s < 2
  {
    a / B63
  }

  function Exponent(a: Dword): (e: nat)
    ensures e < 2048
  {
    a / B52 % 2048
  }

  function Mantissa(a: Dword): (m: nat)
    ensures m < B52
  {
    a % B52
  }

  /** The pattern with the given fields. */
  function Pack(sign: nat, exp: nat, mant: nat): Dword
    requires sign < 2 && exp < 2048 && mant < B52
  {
    sign * B63 + exp * B52 + mant
  }

  function Zero(sign: nat): Dword
    requires sign < 2
  {
    Pack(sign, 0, 0)
  }

  function Infinity(sign: nat): Dword
    requires sign < 2
  {
    Pack(sign, EXP_ONES, 0)
  }

  lemma Unpack(sign: nat, exp: nat, mant: nat)
    requires sign < 2 && exp < 2048 && mant < B52
    ensures var a := Pack(sign, exp, mant); Sign(a) == sign && Exponent(a) == exp && Mantissa(a) == mant
  {
    var a := Pack(sign, exp, mant);
    assert a / B52 == sign * 2048 + exp;
  }

  predicate IsNan(a: Dword) { Exponent(a) == EXP_ONES && Mantissa(a) != 0 }
  predicate IsZero(a: Dword) { Exponent(a) == 0 && Mantissa(a) == 0 }
  predicate Normal(a: Dword) { 1 <= Exponent(a) <= 2046 }
  predicate Subnormal(a: Dword) { Exponent(a) == 0 && Mantissa(a) != 0 }
  predicate Finite(a: Dword) { Exponent(a) != EXP_ONES }
  predicate IsInfinite(a: Dword) { Exponent(a) == EXP_ONES && Mantissa(a) == 0 }

  /** The 53-bit significand: the implicit one is present unless the exponent field is zero. */
  function Significand(a: Dword): (m: nat)
    ensures m < B53
    ensures Exponent(a) != 0 ==> m >= B52
  {
    Mantissa(a) + (if Exponent(a) != 0 then B52 else 0)
  }

  // ----- numbers -----

  function TwoTo(e: int): (r: real)
    ensures r > 0.0
    decreases if e < 0 then -e else e
  {
    if e == 0 then 1.0 else if e > 0 then 2.0 * TwoTo(e - 1) else TwoTo(e + 1) / 2.0
  }

  lemma TwoToNext(e: int)
    ensures TwoTo(e + 1) == 2.0 * TwoTo(e)
  {
  }

  lemma {:induction false} TwoToMono(e: int, f: int)
    requires e <= f
    ensures TwoTo(e) <= TwoTo(f)
    decreases f - e
  {
    hide TwoTo;
    if e < f {
      TwoToMono(e, f - 1);
      TwoToNext(f - 1);
    }
  }

  lemma DoubleProduct(x: real, y: real)
    ensures 2.0 * (x * y) == x * (2.0 * y) == (2.0 * x) * y
  {
  }

  lemma Pow2Next(n: nat)
    requires n > 0
    ensures Pow2(n) as real == 2.0 * Pow2(n - 1) as real
  {
  }

  lemma {:induction false} TwoToAdd(e: int, n: nat)
    ensures TwoTo(e + n) == Pow2(n) as real * TwoTo(e)
    decreases n
  {
    hide TwoTo, Pow2;
    if n == 0 {
      TimesPow0(0);
    } else {
      TwoToAdd(e, n - 1);
      TwoToNext(e + n - 1);
      Pow2Next(n);
      DoubleProduct(Pow2(n - 1) as real, TwoTo(e));
    }
  }

  lemma SumZero(e: int)
    ensures TwoTo(e + 0) == TwoTo(e) * TwoTo(0)
  {
    assert TwoTo(0) == 1.0;
    hide TwoTo;
  }

  /** The law carries over from f - 1 to f and back. */
  lemma SumNext(e: int, f: int)
    ensures TwoTo(e + (f - 1)) == TwoTo(e) * TwoTo(f - 1) <==> TwoTo(e + f) == TwoTo(e) * TwoTo(f)
  {
    hide TwoTo;
    TwoToNext(e + (f - 1));
    TwoToNext(f - 1);
    assert e + (f - 1) + 1 == e + f;
    DoubleProduct(TwoTo(e), TwoTo(f - 1));
  }

  lemma {:induction false} TwoToSum(e: int, f: int)
    ensures TwoTo(e + f) == TwoTo(e) * TwoTo(f)
    decreases if f < 0 then -f else f
  {
    hide TwoTo;
    if f == 0 {
      SumZero(e);
    } else if f > 0 {
      TwoToSum(e, f - 1);
      SumNext(e, f);
    } else {
      TwoToSum(e, f + 1);
      SumNext(e, f + 1);
    }
  }

  /** TwoTo(MIN_EXP) is the least positive normal number and TwoTo(MAX_EXP) the first power of two out of range. */
  const MIN_EXP := -1022
  const MAX_EXP := 1024

  function SignOf(sign: nat): real { if sign == 0 then 1.0 else -1.0 }

  function AbsReal(x: real): real { if x < 0.0 then -x else x }

  /** The number addition takes a finite pattern for: a zero exponent field counts as an exponent below the least. */
  function Value(a: Dword): real
  {
    SignOf(Sign(a)) * (Significand(a) as real * TwoTo(Exponent(a) - 1075))
  }

  /** Sign, significand and weight. */
  function Weighted(s: nat, m: nat, w: real): real { SignOf(s) * (m as real * w) }

  /** The number a finite pattern stands for: subnormals share the exponent of the least normal numbers. */
  function Number(a: Dword): real
  {
    Weighted(Sign(a), Significand(a), TwoTo((if Exponent(a) == 0 then 1 else Exponent(a)) - 1075))
  }

  lemma ValueIsWeighted(a: Dword)
    ensures Value(a) == Weighted(Sign(a), Significand(a), TwoTo(Exponent(a) - 1075))
  {
    hide TwoTo, Sign, Exponent, Significand;
  }

  lemma WeightedTwice(s: nat, m: nat, w: real)
    requires w > 0.0
    ensures Weighted(s, m, 2.0 * w) == 2.0 * Weighted(s, m, w)
    ensures Weighted(s, m, w) == 0.0 <==> m == 0
  {
    var x := m as real * w;
    DoubleProduct(m as real, w);
    assert x == 0.0 <==> m == 0 by {
      Scale(0.0, m as real, w);
    }
  }

  /** That is half of what a subnormal stands for, and for every other finite pattern what it stands for. */
  lemma SubnormalIsHalved(a: Dword)
    requires Finite(a)
    ensures Exponent(a) == 0 ==> Number(a) == 2.0 * Value(a)
    ensures Value(a) == Number(a) <==> !Subnormal(a)
  {
    ValueIsWeighted(a);
    ZeroExponent(a);
    hide TwoTo, Sign, Exponent, Mantissa, Significand, Weighted, Value;
    if Exponent(a) == 0 {
      TwoToNext(-1075);
      WeightedTwice(Sign(a), Significand(a), TwoTo(-1075));
    }
  }

  lemma ZeroExponent(a: Dword)
    ensures Exponent(a) == 0 ==> Significand(a) == Mantissa(a)
  {
  }

  /** The distance between neighbouring doubles with the exponent of a. */
  function Ulp(a: Dword): (u: real)
    ensures u > 0.0
  {
    TwoTo(Exponent(a) - 1075)
  }

  lemma Pow2Literals()
    ensures Pow2(51) == B51 && Pow2(52) == B52 && Pow2(53) == B53
  {
    assert Pow2(13) == 0x2000;
    Pow2Add(13, 13);
    Pow2Add(26, 26);
    Pow2Add(51, 1);
    Pow2Add(52, 1);
  }

  lemma Scale(x: real, y: real, t: real)
    requires t > 0.0
    ensures x <= y ==> x * t <= y * t
    ensures x < y ==> x * t < y * t
  {
  }

  /** n units of weight w. */
  function Scaled(n: int, w: real): real { n as real * w }

  lemma ScaledOrder(m: int, n: int, w: real)
    requires w > 0.0
    ensures Scaled(m, w) < Scaled(n, w) <==> m < n
  {
    Scale(m as real, n as real, w);
    Scale(n as real, m as real, w);
  }

  lemma ScaledLinear(n: int, w: real)
    ensures Scaled(-n, w) == -Scaled(n, w) && Scaled(2 * n, w) == 2.0 * Scaled(n, w) && Scaled(0, w) == 0.0
  {
    assert (-n) as real == -(n as real) && (2 * n) as real == 2.0 * (n as real);
  }

  lemma ScaledWeight(n: nat, v: real, w: real)
    requires v <= w
    ensures Scaled(n, v) <= Scaled(n, w)
  {
    assert n as real * (w - v) >= 0.0;
    assert n as real * (w - v) == n as real * w - n as real * v;
  }

  /** Zero and infinity of a sign, by their fields; neither is a NaN. */
  lemma SpecialFields(s: nat)
    requires s < 2
    ensures IsZero(Zero(s)) && Sign(Zero(s)) == s && !IsNan(Zero(s))
    ensures IsInfinite(Infinity(s)) && Sign(Infinity(s)) == s && !IsNan(Infinity(s))
  {
    Unpack(s, 0, 0);
    Unpack(s, EXP_ONES, 0);
  }

  /** The sign decides between the two zeros and between the two infinities. */
  lemma SpecialIsItsSign(a: Dword)
    ensures IsZero(a) ==> a == Zero(Sign(a))
    ensures IsInfinite(a) ==> a == Infinity(Sign(a))
  {
    var top := a / B52;
    assert a == top * B52 + Mantissa(a) && a / B63 == top / 2048;
  }

  lemma ZeroHasNoValue(a: Dword)
    requires IsZero(a)
    ensures Value(a) == 0.0 && Number(a) == 0.0
  {
    hide TwoTo, Sign, Exponent, SignOf;
    ZeroProduct(SignOf(Sign(a)), TwoTo(0 - 1075));
    ZeroProduct(SignOf(Sign(a)), TwoTo(1 - 1075));
  }

  lemma ZeroProduct(s: real, w: real)
    ensures s * (0 as real * w) == 0.0
  {
  }

  // ----- integer helpers -----

  lemma MulMono(x: nat, y: nat, z: nat)
    requires y <= z
    ensures x * y <= x * z && y * x <= z * x
  {
  }

  /** x >> n and the low n bits of x, where d is 2^n. */
  function Shr(x: int, d: int): int
    requires d > 0
  {
    x / d
  }

  function Low(x: int, d: int): (r: int)
    requires d > 0
    ensures 0 <= r < d
  {
    x % d
  }

  /** Exponents at or below zero flush to zero, those past the field's range become infinity. */
  function Finish(sign: nat, exp: int, mant: nat): Dword
    requires sign < 2 && mant < B52
  {
    if exp <= 0 then Zero(sign) else if exp >= EXP_ONES then Infinity(sign) else Pack(sign, exp, mant)
  }

  lemma FinishIsNumber(sign: nat, exp: int, mant: nat)
    requires sign < 2 && mant < B52
    ensures !IsNan(Finish(sign, exp, mant)) && Sign(Finish(sign, exp, mant)) == sign
  {
    SpecialFields(sign);
    if 1 <= exp <= 2046 {
      Unpack(sign, exp, mant);
    }
    hide Pack, Zero, Infinity, Sign, Exponent, Mantissa;
  }

  /** Left shifts that bring the leading one to bit 52. */
  function Lead(m: nat): nat
    requires 0 < m < B53
    decreases B53 - m
  {
    if m >= B52 then 0 else 1 + Lead(2 * m)
  }

  lemma {:induction false} LeadShifts(m: nat)
    requires 0 < m < B53
    ensures B52 <= m * Pow2(Lead(m)) < B53
    decreases B53 - m
  {
    if m < B52 {
      LeadShifts(2 * m);
      assert m * Pow2(Lead(m)) == 2 * m * Pow2(Lead(2 * m)) by {
        assert m * (2 * Pow2(Lead(2 * m))) == 2 * m * Pow2(Lead(2 * m));
      }
    }
  }

  lemma Doubling(m0: nat, m: nat, shift: nat)
    requires m == m0 * Pow2(shift) && Pow2(shift) <= m < B52
    ensures Wrap64(m * 2) == 2 * m == m0 * Pow2(shift + 1) && Pow2(shift + 1) <= 2 * m
    ensures Lead(m) == 1 + Lead(2 * m)
  {
    assert m0 * (2 * Pow2(shift)) == 2 * (m0 * Pow2(shift));
  }

  lemma ShiftBound(shift: nat, m: nat)
    requires Pow2(shift) <= m < B53
    ensures shift <= 52
  {
    Pow2Literals();
    Pow2Mono(if shift < 53 then shift else 53, shift);
  }
}
