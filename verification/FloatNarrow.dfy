/** Comparison of doubles, widening from single precision and narrowing to it. */
module FloatNarrow {
  import opened Words
  import opened Doubles
  import FloatAdd

  const B23 := 0x80_0000
  const B28 := 0x1000_0000
  const B29 := 0x2000_0000
  const B31 := 0x8000_0000
  const F_NAN: Word := 0x7FC0_0000
  const F_INF: Word := 0x7F80_0000

  // ----- single precision -----

  function FSign(f: Word): (s: nat)
    ensures s < 2
  {
    f / B31
  }

  function FExponent(f: Word): (e: nat)
    ensures e < 256
  {
    f / B23 % 256
  }

  function FMantissa(f: Word): (m: nat)
    ensures m < B23
  {
    f % B23
  }

  function FPack(sign: nat, exp: nat, mant: nat): Word
    requires sign < 2 && exp < 256 && mant < B23
  {
    sign * B31 + exp * B23 + mant
  }

  predicate FNormal(f: Word) { 1 <= FExponent(f) <= 254 }
  predicate FSubnormal(f: Word) { FExponent(f) == 0 && FMantissa(f) != 0 }
  predicate FIsNan(f: Word) { FExponent(f) == 255 && FMantissa(f) != 0 }

  lemma FUnpack(sign: nat, exp: nat, mant: nat)
    requires sign < 2 && exp < 256 && mant < B23
    ensures var f := FPack(sign, exp, mant); FSign(f) == sign && FExponent(f) == exp && FMantissa(f) == mant
  {
    var f := FPack(sign, exp, mant);
    assert f / B23 == sign * 256 + exp;
  }

  lemma FRepack(f: Word)
    ensures FPack(FSign(f), FExponent(f), FMantissa(f)) == f
  {
    var top := f / B23;
    assert f == top * B23 + FMantissa(f);
    assert f / B31 == top / 256;
  }

  /** The significand, with the implicit one unless the exponent field is zero. */
  function FSignificand(f: Word): nat { FMantissa(f) + (if FExponent(f) != 0 then B23 else 0) }

  /** The number a finite pattern stands for, and the spacing at its exponent: the subnormals share the least one. */
  function FValue(f: Word): real
  {
    SignOf(FSign(f)) * (FSignificand(f) as real * FUlp(f))
  }

  function FUlp(f: Word): (u: real)
    ensures u > 0.0
  {
    TwoTo((if FExponent(f) != 0 then FExponent(f) else 1) - 150)
  }

  // ----- the order on doubles -----

  function Magnitude(a: Dword): nat { a % B63 }

  /** 0 when equal, 1 when a is larger, -1 when b is. */
  function CmpDf3(a: Dword, b: Dword): int
  {
    if a == b then 0
    else if Sign(a) != Sign(b) then if Sign(a) == 1 then -1 else 1
    else if Magnitude(a) == Magnitude(b) then 0
    else if Sign(a) == 1 then if Magnitude(a) > Magnitude(b) then -1 else 1
    else if Magnitude(a) > Magnitude(b) then 1
    else -1
  }

  /** Position of a pattern on the line: negative patterns, minus zero among them, below the others. */
  function Key(a: Dword): int { if Sign(a) == 1 then -1 - Magnitude(a) else Magnitude(a) }

  lemma KeyIsInjective(a: Dword, b: Dword)
    ensures a == b <==> Key(a) == Key(b)
  {
    assert a == Sign(a) * B63 + Magnitude(a) && b == Sign(b) * B63 + Magnitude(b);
  }

  /** cmpdf3 decides a strict total order: it compares positions, so exactly one of less, equal
      and greater holds, equal means the same pattern, and less is transitive. */
  lemma CmpIsTotalOrder(a: Dword, b: Dword, c: Dword)
    ensures CmpDf3(a, b) == (if Key(a) < Key(b) then -1 else if Key(a) > Key(b) then 1 else 0)
    ensures CmpDf3(a, b) == 0 <==> a == b
    ensures CmpDf3(b, a) == -CmpDf3(a, b)
    ensures CmpDf3(a, b) < 0 && CmpDf3(b, c) < 0 ==> CmpDf3(a, c) < 0
  {
    CmpComparesKeys(a, b);
    CmpComparesKeys(b, a);
    CmpComparesKeys(b, c);
    CmpComparesKeys(a, c);
    KeyIsInjective(a, b);
    hide CmpDf3, Key;
  }

  lemma CmpComparesKeys(a: Dword, b: Dword)
    ensures CmpDf3(a, b) == (if Key(a) < Key(b) then -1 else if Key(a) > Key(b) then 1 else 0)
  {
    KeyIsInjective(a, b);
  }

  // ----- the order on numbers -----

  /** The number without its sign. */
  function Absolute(a: Dword): real { Scaled(Significand(a), TwoTo(Place(a) - 1075)) }

  /** The exponent field, that of the least normal numbers for subnormals. */
  function Place(a: Dword): nat { if Exponent(a) == 0 then 1 else Exponent(a) }

  lemma NumberIsSigned(a: Dword)
    ensures Number(a) == SignOf(Sign(a)) * Absolute(a)
    ensures Absolute(a) >= 0.0 && (Finite(a) ==> (Absolute(a) == 0.0 <==> Magnitude(a) == 0))
  {
    MagnitudeParts(a);
    var w := TwoTo(Place(a) - 1075);
    hide TwoTo, Exponent, Mantissa, Magnitude;
    ScaledOrder(0, Significand(a), w);
    ScaledLinear(0, w);
  }

  /** A lower place is a smaller number whatever the significands. */
  lemma PlacesOrder(a: Dword, b: Dword)
    requires Place(a) < Place(b)
    ensures Absolute(a) < Absolute(b)
  {
    var v, w := TwoTo(Place(a) - 1075), TwoTo(Place(b) - 1075);
    TwoToNext(Place(a) - 1075);
    TwoToMono(Place(a) + 1 - 1075, Place(b) - 1075);
    assert 2.0 * v <= w;
    hide TwoTo, Exponent, Mantissa;
    ScaledOrder(Significand(a), 2 * B52, v);
    ScaledLinear(B52, v);
    assert Scaled(B52, 2.0 * v) == 2.0 * Scaled(B52, v) by { DoubleProduct(B52 as real, v); }
    ScaledWeight(B52, 2.0 * v, w);
    ScaledOrder(Significand(b), B52, w);
  }

  lemma MagnitudeOrder(a: Dword, b: Dword)
    requires Magnitude(a) < Magnitude(b)
    ensures Absolute(a) < Absolute(b)
  {
    MagnitudeParts(a);
    MagnitudeParts(b);
    hide Absolute, Exponent, Mantissa, Magnitude;
    if Place(a) < Place(b) {
      PlacesOrder(a, b);
    } else {
      assert Place(a) == Place(b) && Significand(a) < Significand(b);
      SamePlaceOrder(a, b);
    }
  }

  lemma SamePlaceOrder(a: Dword, b: Dword)
    requires Place(a) == Place(b) && Significand(a) < Significand(b)
    ensures Absolute(a) < Absolute(b)
  {
    hide TwoTo, Significand, Place;
    ScaledOrder(Significand(a), Significand(b), TwoTo(Place(a) - 1075));
  }

  /** Section 5.11 of IEEE 754-2008 compares numbers, and both zeros as equal.  On finite operands cmpdf3 gives the order
      of the numbers exactly unless they are two different zeros, of which it takes -0 for the smaller. */
  lemma CmpIsNumericIff(a: Dword, b: Dword)
    requires Finite(a) && Finite(b)
    ensures CmpDf3(a, b) == (if Number(a) < Number(b) then -1 else if Number(a) > Number(b) then 1 else 0)
            <==> a == b || !IsZero(a) || !IsZero(b)
  {
    NumberIsSigned(a);
    NumberIsSigned(b);
    if Magnitude(a) < Magnitude(b) { MagnitudeOrder(a, b); }
    if Magnitude(b) < Magnitude(a) { MagnitudeOrder(b, a); }
    MagnitudeParts(a);
    MagnitudeParts(b);
    CmpComparesKeys(a, b);
    hide Number, Absolute, CmpDf3, Exponent, Mantissa, Magnitude;
    assert SignOf(Sign(a)) == 1.0 || SignOf(Sign(a)) == -1.0;
    assert SignOf(Sign(b)) == 1.0 || SignOf(Sign(b)) == -1.0;
  }

  // ----- widening -----

  function ExtendSfDf2(f: Word): Dword
  {
    if FExponent(f) == 0 && FMantissa(f) == 0 then Zero(FSign(f))
    else if FExponent(f) == 255 then if FMantissa(f) == 0 then Infinity(FSign(f)) else NAN
    else Pack(FSign(f), FExponent(f) + (BIAS - 127), FMantissa(f) * B29)
  }

  /** The pattern widening builds from the fields, for normal and subnormal floats alike. */
  lemma WidenedValue(f: Word)
    requires FNormal(f) || FSubnormal(f)
    ensures Normal(ExtendSfDf2(f))
    ensures Value(ExtendSfDf2(f)) == Weighted(FSign(f), B23 + FMantissa(f), TwoTo(FExponent(f) - 150))
  {
    hide TwoTo, Pow2, FExponent, FMantissa, FSign;
    var e, m := FExponent(f) + (BIAS - 127), FMantissa(f) * B29;
    Unpack(FSign(f), e, m);
    Pow29();
    TwoToAdd(e - 1075, 29);
    hide Pack, Sign, Exponent, Mantissa;
    assert Significand(ExtendSfDf2(f)) == (B23 + FMantissa(f)) * B29;
    ProductOfReals(B23 + FMantissa(f), B29, TwoTo(e - 1075));
  }

  lemma FFields(f: Word)
    ensures FNormal(f) ==> FValue(f) == Weighted(FSign(f), B23 + FMantissa(f), TwoTo(FExponent(f) - 150))
    ensures FSubnormal(f) ==> FValue(f) == Weighted(FSign(f), FMantissa(f), TwoTo(-149))
  {
    hide TwoTo, FExponent, FMantissa, FSign, SignOf;
  }

  /** Widening a subnormal reads it with a leading one it does not have, at half its spacing. */
  lemma ExtendSubnormal(f: Word)
    requires FSubnormal(f)
    ensures Value(ExtendSfDf2(f)) == Weighted(FSign(f), B23 + FMantissa(f), TwoTo(-150))
    ensures Value(ExtendSfDf2(f)) != FValue(f)
  {
    WidenedValue(f);
    FFields(f);
    TwoToNext(-150);
    hide TwoTo, ExtendSfDf2, FMantissa, FSign, Value, FValue, Weighted;
    WeightsDiffer(FSign(f), FMantissa(f), TwoTo(-150), TwoTo(-149));
  }

  lemma WeightsDiffer(s: nat, m: nat, w: real, v: real)
    requires m < B23 && w > 0.0 && v == 2.0 * w
    ensures Weighted(s, B23 + m, w) != Weighted(s, m, v)
  {
    var x, y := (B23 + m) as real * w, m as real * v;
    assert y < x by {
      DoubleProduct(m as real, w);
      Scale(2.0 * m as real, (B23 + m) as real, w);
      assert 2.0 * m as real * w == 2.0 * (m as real * w);
    }
  }

  lemma ExtendZero(f: Word)
    requires FExponent(f) == 0 && FMantissa(f) == 0
    ensures Value(ExtendSfDf2(f)) == FValue(f) == 0.0
  {
    SpecialFields(FSign(f));
    ZeroHasNoValue(Zero(FSign(f)));
    hide Value, Zero, FExponent, FMantissa, FSign, SignOf, FUlp;
    ZeroProduct(SignOf(FSign(f)), FUlp(f));
  }

  /** The widened pattern stands for what the float stands for. */
  predicate KeepsNumber(f: Word)
    requires !FIsNan(f)
  {
    if FExponent(f) == 255 then ExtendSfDf2(f) == Infinity(FSign(f)) else Value(ExtendSfDf2(f)) == FValue(f)
  }

  /** Widening gives a NaN, the canonical one, exactly for a NaN. */
  lemma ExtendNan(f: Word)
    ensures IsNan(ExtendSfDf2(f)) <==> FIsNan(f)
    ensures FIsNan(f) ==> ExtendSfDf2(f) == NAN
  {
    SpecialFields(FSign(f));
    if FNormal(f) || FSubnormal(f) {
      Unpack(FSign(f), FExponent(f) + (BIAS - 127), FMantissa(f) * B29);
    }
    assert IsNan(NAN);
    hide Pack, Zero, Infinity, Sign, Exponent, Mantissa, FSign, FExponent, FMantissa;
  }

  /** Widening keeps the number of every float but the subnormals, and of no subnormal. */
  lemma ExtendIsExact(f: Word)
    requires !FIsNan(f)
    ensures KeepsNumber(f) <==> !FSubnormal(f)
  {
    hide Value, FValue, FSign, FExponent, FMantissa, TwoTo, SignOf;
    if FSubnormal(f) {
      ExtendSubnormal(f);
    } else if FNormal(f) {
      WidenedValue(f);
      FFields(f);
    } else if FExponent(f) == 0 {
      ExtendZero(f);
    }
  }

  lemma Pow29()
    ensures Pow2(29) == B29
  {
    assert Pow2(9) == 512;
    Pow2Add(9, 10);
    Pow2Add(19, 10);
    assert Pow2(10) == 1024;
  }

  lemma ProductOfReals(m: int, n: int, w: real)
    ensures (m * n) as real * w == m as real * (n as real * w)
  {
    assert (m * n) as real == m as real * n as real;
  }

  // ----- narrowing -----

  /** Narrowing of a magnitude: rebias, then round to nearest with ties toward zero; what is below
      the least normal float becomes zero and what is above the largest becomes infinity. */
  function TruncMagnitude(m: nat): Word
    requires m <= EXP_ONES * B52
  {
    var rebiased := m - (BIAS - 127) * B52;
    if m == EXP_ONES * B52 || rebiased >= 255 * B52 then F_INF
    else if rebiased < B52 then 0
    else (rebiased + B28 - 1) / B29
  }

  lemma MagnitudeParts(a: Dword)
    ensures Magnitude(a) == Exponent(a) * B52 + Mantissa(a)
    ensures !IsNan(a) ==> Magnitude(a) <= EXP_ONES * B52
    ensures Magnitude(a) == EXP_ONES * B52 <==> Exponent(a) == EXP_ONES && Mantissa(a) == 0
  {
    var top := a / B52;
    assert a == top * B52 + Mantissa(a) && a / B63 == top / 2048;
  }

  function TruncSpec(a: Dword): Word
  {
    if IsNan(a) then F_NAN
    else
      MagnitudeParts(a);
      var m := TruncMagnitude(Magnitude(a));
      assert m <= F_INF;
      Sign(a) * B31 + m
  }

  /** guard && (round || sticky) over the 29 discarded bits. */
  lemma NarrowRounding(mant: nat)
    requires mant < B52
    ensures var extra := mant % B29;
            var up := extra / B28 % 2 == 1 && (extra / 0x800_0000 % 2 == 1 || extra % 0x800_0000 != 0);
            (mant + B28 - 1) / B29 == mant / B29 + (if up then 1 else 0)
  {
    var q, extra := mant / B29, mant % B29;
    assert mant == q * B29 + extra;
    assert mant + B28 - 1 == q * B29 + (extra + B28 - 1);
    NarrowUp(extra);
  }

  lemma NarrowUp(extra: nat)
    requires extra < B29
    ensures (extra / B28 % 2 == 1 && (extra / 0x800_0000 % 2 == 1 || extra % 0x800_0000 != 0)) <==> extra > B28
    ensures (extra + B28 - 1) / B29 == if extra > B28 then 1 else 0
  {
  }

  /** In the float range the magnitude is the new exponent and the rounded fraction, a carry moving into the exponent. */
  lemma TruncInRange(a: Dword, exp: int)
    requires !IsNan(a) && exp == Exponent(a) - BIAS + 127 && 1 <= exp < 255
    ensures TruncSpec(a) == Sign(a) * B31 + exp * B23 + (Mantissa(a) + B28 - 1) / B29
  {
    hide Sign, Exponent, Mantissa, Magnitude;
    MagnitudeParts(a);
    var m := Mantissa(a) + B28 - 1;
    assert exp * B52 == exp * B23 * B29;
    assert (exp * B23 * B29 + m) / B29 == exp * B23 + m / B29;
  }

  lemma TruncOutOfRange(a: Dword)
    ensures IsNan(a) <==> Exponent(a) == EXP_ONES && Mantissa(a) != 0
    ensures IsNan(a) ==> TruncSpec(a) == F_NAN
    ensures !IsNan(a) && Exponent(a) - BIAS + 127 >= 255 ==> TruncSpec(a) == Sign(a) * B31 + F_INF
    ensures Exponent(a) - BIAS + 127 <= 0 ==> TruncSpec(a) == Sign(a) * B31
  {
    hide Sign, Exponent, Mantissa, Magnitude;
    MagnitudeParts(a);
  }

  /** The rounding step: a 53-bit significand cut to 24 bits, up when guard and round or sticky bits are set. */
  method RoundSignificand(ma: nat) returns (resultMa: nat)
    requires B52 <= ma < 2 * B52
    ensures resultMa == B23 + (ma - B52 + B28 - 1) / B29 && resultMa <= 2 * B23
  {
    NarrowRounding(ma - B52);
    assert ma / B29 == B23 + (ma - B52) / B29 && ma % B29 == (ma - B52) % B29;
    resultMa := ma / B29;
    var extra := ma % B29;
    var guard := extra / B28 % 2;
    var roundBit := extra / 0x800_0000 % 2;
    var sticky := extra % 0x800_0000 != 0;
    if guard == 1 && (roundBit == 1 || sticky) {
      resultMa := resultMa + 1;
    }
  }

  method TruncDfSf2(a: Dword) returns (r: Word)
    ensures r == TruncSpec(a)
  {
    hide Sign, Exponent, Mantissa, TruncSpec;
    TruncOutOfRange(a);
    var sa, ea, ma: int := Sign(a), Exponent(a), Mantissa(a);
    if ea == EXP_ONES {
      if ma == 0 {
        return FPack(sa, 255, 0);
      }
      return F_NAN;
    }
    if ea == 0 && ma == 0 {
      return FPack(sa, 0, 0);
    }
    ma := ma + B52;
    var newExp := ea - BIAS + 127;
    if newExp >= 255 {
      return FPack(sa, 255, 0);
    }
    if newExp <= 0 {
      return FPack(sa, 0, 0);
    }
    TruncInRange(a, newExp);
    var resultMa := RoundSignificand(ma);
    if resultMa / 0x100_0000 % 2 == 1 {
      resultMa := resultMa / 2;
      newExp := newExp + 1;
    }
    return FPack(sa, newExp, resultMa % B23);
  }

  // ----- narrowing is monotone -----

  function FKey(f: Word): int { if FSign(f) == 1 then -1 - f % B31 else f % B31 }

  lemma TruncMagnitudeMono(m: nat, n: nat)
    requires m <= n <= EXP_ONES * B52
    ensures TruncMagnitude(m) <= TruncMagnitude(n) <= F_INF
  {
    var k := (BIAS - 127) * B52;
    if B52 <= m - k && n - k < 255 * B52 {
      DivMono(m - k + B28 - 1, n - k + B28 - 1);
    }
  }

  lemma DivMono(x: nat, y: nat)
    requires x <= y
    ensures x / B29 <= y / B29
  {
  }

  lemma TruncKey(a: Dword)
    requires !IsNan(a)
    ensures Magnitude(a) <= EXP_ONES * B52
    ensures FKey(TruncSpec(a)) == if Sign(a) == 1 then -1 - TruncMagnitude(Magnitude(a)) else TruncMagnitude(Magnitude(a))
  {
    MagnitudeParts(a);
    TruncMagnitudeMono(Magnitude(a), EXP_ONES * B52);
    hide TruncMagnitude, Magnitude;
    assert FSign(Sign(a) * B31 + TruncMagnitude(Magnitude(a))) == Sign(a);
  }

  /** If cmpdf3 does not put a above b, narrowing does not either. */
  lemma TruncIsMonotone(a: Dword, b: Dword)
    requires !IsNan(a) && !IsNan(b) && CmpDf3(a, b) <= 0
    ensures FKey(TruncSpec(a)) <= FKey(TruncSpec(b))
  {
    hide IsNan, TruncSpec, TruncMagnitude, FKey, CmpDf3;
    CmpComparesKeys(a, b);
    TruncKey(a);
    TruncKey(b);
    if Sign(a) == Sign(b) {
      if Sign(a) == 1 {
        TruncMagnitudeMono(Magnitude(b), Magnitude(a));
      } else {
        TruncMagnitudeMono(Magnitude(a), Magnitude(b));
      }
    }
  }

  // ----- narrowing undoes widening -----

  lemma TruncExtendFinite(s: nat, e: nat, m: nat)
    requires s < 2 && e < 255 && m < B23 && (e != 0 || m != 0)
    ensures TruncSpec(Pack(s, e + (BIAS - 127), m * B29)) == if e == 0 then FPack(s, 0, 0) else FPack(s, e, m)
  {
    var a := Pack(s, e + (BIAS - 127), m * B29);
    Unpack(s, e + (BIAS - 127), m * B29);
    MagnitudeParts(a);
    assert Magnitude(a) - (BIAS - 127) * B52 == (e * B23 + m) * B29;
    assert ((e * B23 + m) * B29 + B28 - 1) / B29 == e * B23 + m;
  }

  /** __truncdfsf2(__extendsfdf2(f)) is f for every float but the subnormals, which come back as
      zero, and the NaNs other than the canonical one. */
  lemma TruncUndoesExtend(f: Word)
    ensures TruncSpec(ExtendSfDf2(f)) == f <==> !FSubnormal(f) && (FIsNan(f) ==> f == F_NAN)
  {
    FRepack(f);
    var s, e, m := FSign(f), FExponent(f), FMantissa(f);
    if e == 255 {
      InfinityTrips(s);
      assert IsNan(NAN);
    } else if e == 0 && m == 0 {
      ZeroTrips(s);
    } else {
      hide FSign, FExponent, FMantissa, TruncSpec, Pack;
      TruncExtendFinite(s, e, m);
      FUnpack(s, 0, 0);
    }
  }

  lemma InfinityTrips(s: nat)
    requires s < 2
    ensures TruncSpec(Infinity(s)) == FPack(s, 255, 0)
  {
    Unpack(s, EXP_ONES, 0);
    MagnitudeParts(Infinity(s));
  }

  lemma ZeroTrips(s: nat)
    requires s < 2
    ensures TruncSpec(Zero(s)) == FPack(s, 0, 0)
  {
    Unpack(s, 0, 0);
    MagnitudeParts(Zero(s));
  }

  // ----- accuracy of narrowing -----

  /** Rounding of a 53-bit significand to 24 bits, ties toward zero. */
  function Round24(m: nat): nat { (m + B28 - 1) / B29 }

  lemma Round24Error(m: nat)
    requires B52 <= m < B53
    ensures var e := Round24(m) * B29 - m; -B28 <= e < B28
    ensures B23 <= Round24(m) <= 0x100_0000
  {
    var x := m + B28 - 1;
    assert x == x / B29 * B29 + x % B29;
  }

  /** Fields of the narrowed value of a double inside the float range. */
  lemma TruncFields(a: Dword)
    requires 1 <= Exponent(a) - (BIAS - 127) <= 254
    ensures var t, r, e := TruncSpec(a), Round24(Significand(a)), Exponent(a) - (BIAS - 127);
            && FSign(t) == Sign(a)
            && (r < 0x100_0000 ==> FExponent(t) == e && FSignificand(t) == r)
            && (r == 0x100_0000 ==> FExponent(t) == e + 1 && FSignificand(t) == B23)
  {
    var e, r := Exponent(a) - (BIAS - 127), Round24(Significand(a));
    MagnitudeParts(a);
    Round24Error(Significand(a));
    assert Magnitude(a) - (BIAS - 127) * B52 + B28 - 1 == (e - 1) * B23 * B29 + (Significand(a) + B28 - 1);
    assert TruncMagnitude(Magnitude(a)) == (e - 1) * B23 + r;
    if r < 0x100_0000 {
      FUnpack(Sign(a), e, r - B23);
      assert TruncSpec(a) == FPack(Sign(a), e, r - B23);
    } else {
      FUnpack(Sign(a), e + 1, 0);
      assert TruncSpec(a) == FPack(Sign(a), e + 1, 0);
    }
  }

  lemma NarrowValue(a: Dword)
    requires 1 <= Exponent(a) - (BIAS - 127) <= 254 && FNormal(TruncSpec(a))
    ensures FValue(TruncSpec(a)) == SignOf(Sign(a)) * Scaled(Round24(Significand(a)) * B29, Ulp(a))
    ensures FUlp(TruncSpec(a)) >= Scaled(B29, Ulp(a))
  {
    hide TwoTo, TruncSpec, Pow2, Exponent, FExponent, Significand, FSignificand, Sign, FSign, Round24;
    var t, r, e := TruncSpec(a), Round24(Significand(a)), Exponent(a) - (BIAS - 127);
    TruncFields(a);
    Round24Error(Significand(a));
    Pow29();
    TwoToAdd(Exponent(a) - 1075, 29);
    assert e - 150 == Exponent(a) - 1075 + 29;
    ProductOfReals(r, B29, Ulp(a));
    if r == 0x100_0000 {
      TwoToNext(e - 150);
      assert FUlp(t) == 2.0 * TwoTo(e - 150);
      HalfDouble(TwoTo(e - 150));
    }
  }

  lemma HalfDouble(w: real)
    ensures B23 as real * (2.0 * w) == 0x100_0000 as real * w
  {
  }

  function NarrowError(a: Dword): real { AbsReal(FValue(TruncSpec(a)) - Value(a)) }

  /** Thresholds of the range of floats: the least normal one, and half a spacing beyond the largest. */
  function LeastFloat(): real { TwoTo(-126) }

  function FloatLimit(): real { TwoTo(128) - TwoTo(103) }

  /** Below the least exponent, and beyond the largest finite float by more than half its spacing. */
  predicate Vanishes(a: Dword) { Exponent(a) <= BIAS - 127 }

  predicate Saturates(a: Dword)
  {
    Exponent(a) > BIAS - 127 + 254 || (Exponent(a) == BIAS - 127 + 254 && Significand(a) > B53 - B28)
  }

  lemma Round24Carries(m: nat)
    requires B52 <= m < B53
    ensures Round24(m) == 0x100_0000 <==> m > B53 - B28
  {
    Round24Error(m);
  }

  /** The three kinds of result on any double but a NaN. */
  lemma TruncKinds(a: Dword)
    requires !IsNan(a)
    ensures var r, s := TruncSpec(a), Sign(a);
            if Vanishes(a) then r == FPack(s, 0, 0) else if Saturates(a) then r == FPack(s, 255, 0) else FNormal(r)
  {
    TruncOutOfRange(a);
    hide TruncSpec, Sign, Exponent, Significand, FSign, FMantissa;
    var e := Exponent(a) - (BIAS - 127);
    if 1 <= e <= 254 {
      TruncInRange(a, e);
      TruncFields(a);
      Round24Error(Significand(a));
      Round24Carries(Significand(a));
    }
  }

  lemma InRange(a: Dword)
    requires !Vanishes(a) && !Saturates(a)
    ensures 1 <= Exponent(a) - (BIAS - 127) <= 254
  {
  }

  /** A magnitude between powers of two. */
  lemma ValueBracket(a: Dword)
    requires Normal(a)
    ensures TwoTo(Exponent(a) - 1023) <= AbsReal(Value(a)) < TwoTo(Exponent(a) - 1022)
    ensures AbsReal(Value(a)) == Scaled(Significand(a), TwoTo(Exponent(a) - 1075))
  {
    hide TwoTo, Pow2, Sign, Exponent, Significand;
    var m, w := Significand(a), TwoTo(Exponent(a) - 1075);
    Pow2Literals();
    TwoToAdd(Exponent(a) - 1075, 52);
    TwoToAdd(Exponent(a) - 1075, 53);
    ScaledOrder(m, B52, w);
    ScaledOrder(m, B53, w);
    ScaledOrder(m, 0, w);
    ScaledLinear(0, w);
  }

  lemma LimitUnits()
    ensures FloatLimit() == Scaled(B53 - B28, TwoTo(75)) && TwoTo(127) <= FloatLimit() < TwoTo(128)
  {
    hide TwoTo, Pow2;
    Pow2Literals();
    Pow29();
    TwoToAdd(75, 53);
    TwoToAdd(75, 29);
    TwoToNext(103);
    TwoToNext(127);
    TwoToMono(103, 127);
    assert B29 == 2 * B28;
  }

  /** The conditions on the fields, as thresholds of the number. */
  lemma TruncThresholds(a: Dword)
    requires Normal(a)
    ensures Vanishes(a) <==> AbsReal(Value(a)) < LeastFloat()
    ensures Saturates(a) <==> AbsReal(Value(a)) > FloatLimit()
  {
    hide TwoTo, Value, Scaled, Exponent, Significand, FloatLimit;
    var e: int := Exponent(a);
    ValueBracket(a);
    LimitUnits();
    if Vanishes(a) {
      TwoToMono(e - 1022, -126);
    } else {
      TwoToMono(-126, e - 1023);
    }
    if e < 1150 {
      TwoToMono(e - 1022, 127);
    } else if e == 1150 {
      ScaledOrder(B53 - B28, Significand(a), TwoTo(75));
    } else {
      TwoToMono(128, e - 1023);
    }
  }

  lemma NarrowHalfUlp(a: Dword)
    requires 1 <= Exponent(a) - (BIAS - 127) <= 254 && FNormal(TruncSpec(a))
    ensures NarrowError(a) <= FUlp(TruncSpec(a)) / 2.0
    ensures NarrowError(a) == FUlp(TruncSpec(a)) / 2.0 ==> AbsReal(FValue(TruncSpec(a))) < AbsReal(Value(a))
  {
    hide TruncSpec, Exponent, Significand, Sign, Ulp, Scaled, FValue, FUlp, FNormal, Round24, Value, TwoTo;
    var r, m := Round24(Significand(a)), Significand(a);
    NarrowValue(a);
    Round24Error(m);
    ValueScaled(a);
    NarrowUnits(SignOf(Sign(a)), r * B29, m, Ulp(a), FValue(TruncSpec(a)), Value(a), FUlp(TruncSpec(a)));
  }

  /** Accuracy of narrowing a normal double.  The result is zero exactly below the least normal float, and infinite
      exactly beyond the largest float by more than half its spacing.  Otherwise it is a normal float within half a
      float ulp of the double, and a tie goes toward zero. */
  lemma TruncAccuracy(a: Dword)
    requires Normal(a)
    ensures var r, s, x := TruncSpec(a), Sign(a), AbsReal(Value(a));
            if x < LeastFloat() then r == FPack(s, 0, 0)
            else if x > FloatLimit() then r == FPack(s, 255, 0)
            else
              && FNormal(r) && NarrowError(a) <= FUlp(r) / 2.0
              && (NarrowError(a) == FUlp(r) / 2.0 ==> AbsReal(FValue(r)) < x)
  {
    hide TruncSpec, FNormal, NarrowError, FValue, FUlp, FPack, Value, Saturates, Vanishes, LeastFloat, FloatLimit;
    TruncKinds(a);
    TruncThresholds(a);
    if !Vanishes(a) && !Saturates(a) {
      InRange(a);
      NarrowHalfUlp(a);
    }
  }

  lemma ValueScaled(a: Dword)
    ensures Value(a) == SignOf(Sign(a)) * Scaled(Significand(a), Ulp(a))
  {
  }

  lemma NarrowUnits(s: real, n: int, m: int, w: real, v: real, x: real, ulp: real)
    requires (s == 1.0 || s == -1.0) && n >= 0 && m >= 0 && w > 0.0
    requires v == s * Scaled(n, w) && x == s * Scaled(m, w) && -B28 <= n - m < B28 && ulp >= Scaled(B29, w)
    ensures AbsReal(v - x) <= ulp / 2.0
    ensures AbsReal(v - x) == ulp / 2.0 ==> AbsReal(v) < AbsReal(x)
  {
    hide Scaled;
    FloatAdd.ScaledSum(n, m, w);
    ScaledLinear(B28, w);
    ScaledOrder(n - m, B28, w);
    ScaledOrder(n - m, -B28, w);
    ScaledOrder(n, 0, w);
    ScaledOrder(m, 0, w);
    ScaledLinear(0, w);
  }
}
