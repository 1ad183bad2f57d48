/** Double-precision addition: alignment with a sticky bit, the same-sign and
    opposite-sign paths, and how far the result is from the exact sum. */
module FloatAdd {
  import opened Words
  import opened Doubles

  /** m >> d with the bits shifted out OR-ed into the last place; nothing is left beyond 63. */
  function Jam(m: nat, d: nat): nat
    requires m < B53
  {
    if d > 63 then 0
    else
      var q := Shr(m, Pow2(d));
      QuotientLe(m, Pow2(d));
      if Low(m, Pow2(d)) != 0 && q % 2 == 0 then q + 1 else q
  }

  /** Same signs: a sum with bit 53 set is halved, rounding an odd one up. */
  function SameSign(m: nat, e: nat, s: nat): Dword
    requires s < 2
  {
    if m < B53 then Finish(s, e, m % B52)
    else
      var half := m / 2 + m % 2;
      if half < B53 then Finish(s, e + 1, half % B52) else Finish(s, e + 2, half / 2 % B52)
  }

  /** Opposite signs: bring the leading one back to bit 52, or flush when the exponent runs out. */
  function Cancel(m: nat, e: nat, s: nat): Dword
    requires m < B53 && s < 2
  {
    if m == 0 then Zero(0)
    else
      LeadShifts(m);
      Finish(s, e - Lead(m), m * Pow2(Lead(m)) - B52)
  }

  lemma JamBound(m: nat, d: nat)
    requires m < B53
    ensures Jam(m, d) <= m
  {
    if d <= 63 {
      var q := m / Pow2(d);
      QuotientLe(m, Pow2(d));
      assert m == q * Pow2(d) + m % Pow2(d);
      MulAtLeast(Pow2(d), q);
      assert m % Pow2(d) != 0 ==> q < m;
    }
  }

  /** Sum of two patterns, hi having the larger exponent field. */
  function AddAligned(hi: Dword, lo: Dword): Dword
    requires Exponent(hi) >= Exponent(lo)
  {
    var m, j := Significand(hi), Jam(Significand(lo), Exponent(hi) - Exponent(lo));
    JamBound(Significand(lo), Exponent(hi) - Exponent(lo));
    if Sign(hi) == Sign(lo) then SameSign(m + j, Exponent(hi), Sign(hi))
    else if m >= j then Cancel(m - j, Exponent(hi), Sign(hi))
    else Cancel(j - m, Exponent(hi), Sign(lo))
  }

  function AddSpec(a: Dword, b: Dword): Dword
  {
    if Exponent(a) == EXP_ONES then a
    else if Exponent(b) == EXP_ONES then b
    else if IsZero(a) then b
    else if IsZero(b) then a
    else if Exponent(a) < Exponent(b) then AddAligned(b, a)
    else AddAligned(a, b)
  }

  // ----- the algorithm -----

  /** The shift of the smaller operand. */
  method Align(mb0: Dword, expDiff: nat) returns (mb: Dword)
    requires mb0 < B53
    ensures mb == Jam(mb0, expDiff)
  {
    hide Shr, Low, Pow2;
    mb := mb0;
    if expDiff > 63 {
      mb := 0;
    } else if expDiff > 0 {
      var sticky;
      if expDiff > 53 {
        sticky := mb != 0;
        ShiftedOut(mb, expDiff);
      } else {
        sticky := Low(mb, Pow2(expDiff)) != 0;
      }
      QuotientLe(mb, Pow2(expDiff));
      ShrDefinition(mb, Pow2(expDiff));
      mb := Shr(mb, Pow2(expDiff));
      if sticky && mb % 2 == 0 {
        mb := mb + 1;
      }
    } else {
      JamNothing(mb0);
    }
  }

  lemma ShrDefinition(x: int, d: int)
    requires d > 0
    ensures Shr(x, d) == x / d
  {
  }

  lemma ShiftedOut(m: nat, d: nat)
    requires m < B53 && 53 < d
    ensures Low(m, Pow2(d)) == m
  {
    Pow2Literals();
    Pow2Mono(53, d);
    SmallModulo(m, Pow2(d));
  }

  lemma SmallModulo(m: nat, d: nat)
    requires m < d
    ensures m % d == m
  {
  }

  lemma JamNothing(m: nat)
    requires m < B53
    ensures Jam(m, 0) == m
  {
    assert Pow2(0) == 1;
  }

  /** The normalising loop of the opposite-sign path; it ends because the exponent runs out. */
  method NormalizeDifference(m0: Dword, e0: nat, s: nat) returns (r: Dword)
    requires 0 < m0 < B53 && s < 2
    ensures r == Cancel(m0, e0, s)
  {
    hide Pow2, Lead, Finish, Wrap64;
    var m: int, e: int := m0, e0;
    ghost var shift := 0;
    assert m0 * Pow2(0) == m0 && Pow2(0) == 1 by {
      TimesPow0(m0);
    }
    while m / B52 % 2 == 0 && e > 0
      invariant m == m0 * Pow2(shift) && Pow2(shift) <= m < B53
      invariant shift + Lead(m) == Lead(m0)
      invariant e == e0 - shift && 0 <= e
      decreases e
    {
      Doubling(m0, m, shift);
      m := Wrap64(m * 2);
      e := e - 1;
      shift := shift + 1;
    }
    LeadShifts(m0);
    if m < B52 {
      FlushedFinish(m0, e0, s);
      LeadPositive(m);
    } else {
      LeadDone(m);
    }
    return Finish(s, e, m % B52);
  }

  lemma LeadPositive(m: nat)
    requires 0 < m < B52
    ensures Lead(m) > 0
  {
  }

  lemma LeadDone(m: nat)
    requires B52 <= m < B53
    ensures Lead(m) == 0 && m % B52 == m - B52
  {
  }

  lemma FlushedFinish(m: nat, e: nat, s: nat)
    requires 0 < m < B53 && s < 2
    ensures e <= Lead(m) ==> Cancel(m, e, s) == Zero(s)
    ensures forall mant: nat :: mant < B52 ==> Finish(s, 0, mant) == Zero(s)
  {
    LeadShifts(m);
    hide Pow2, Lead;
  }

  method SumSameSign(m0: Dword, e0: nat, s: nat) returns (r: Dword)
    requires m0 < 2 * B53 && s < 2
    ensures r == SameSign(m0, e0, s)
  {
    hide Finish;
    var m: int, e := m0, e0;
    if m / B53 % 2 == 1 {
      var guard := m % 2;
      m := m / 2;
      e := e + 1;
      if guard == 1 {
        m := m + 1;
        if m / B53 % 2 == 1 {
          m := m / 2;
          e := e + 1;
        }
      }
    }
    return Finish(s, e, m % B52);
  }

  method AddDf3(a: Dword, b: Dword) returns (r: Dword)
    ensures r == AddSpec(a, b)
  {
    hide Pack, Jam, SameSign, Cancel, Sign, Exponent, Mantissa;
    var sa, sb := Sign(a), Sign(b);
    var ea, eb := Exponent(a), Exponent(b);
    var ma: Dword, mb: Dword := Mantissa(a), Mantissa(b);
    if ea == EXP_ONES {
      return a;
    }
    if eb == EXP_ONES {
      return b;
    }
    if ea == 0 && ma == 0 {
      return b;
    }
    if eb == 0 && mb == 0 {
      return a;
    }
    if ea != 0 {
      ma := ma + B52;
    }
    if eb != 0 {
      mb := mb + B52;
    }
    if ea < eb {
      ma, mb, ea, eb, sa, sb := mb, ma, eb, ea, sb, sa;
    }
    JamBound(mb, ea - eb);
    mb := Align(mb, ea - eb);
    if sa == sb {
      r := SumSameSign(ma + mb, ea, sa);
    } else {
      var m, s := if ma >= mb then ma - mb else mb - ma, if ma >= mb then sa else sb;
      if m == 0 {
        CancelNothing(ea, s);
        return Zero(0);
      }
      r := NormalizeDifference(m, ea, s);
    }
  }

  lemma CancelNothing(e: nat, s: nat)
    requires s < 2
    ensures Cancel(0, e, s) == Zero(0)
  {
  }

  /** Addition commutes except on two specials or two zeros, where it returns one of its operands. */
  lemma AddCommutes(a: Dword, b: Dword)
    ensures AddSpec(a, b) == AddSpec(b, a)
            <==> a == b || !((Exponent(a) == EXP_ONES && Exponent(b) == EXP_ONES) || (IsZero(a) && IsZero(b)))
  {
    hide Pack, SameSign, Sign, Exponent, Mantissa;
    if Exponent(a) == Exponent(b) {
      JamNothing(Significand(a));
      JamNothing(Significand(b));
      CancelNothing(Exponent(a), Sign(a));
      CancelNothing(Exponent(a), Sign(b));
      hide Jam, Cancel;
    }
  }

  // ----- accuracy -----

  function SignInt(s: nat): int { if s == 0 then 1 else -1 }

  /** The largest finite double. */
  function MaxFinite(): real { Scaled(B53 - 1, TwoTo(MAX_EXP - 53)) }

  lemma StickyQuotient(m: nat, p: nat, q: nat, r: nat, j: nat)
    requires m == q * p + r && r < p && (j == q || (j == q + 1 && r != 0))
    ensures m - p < j * p < m + p
  {
    assert (q + 1) * p == q * p + p;
  }

  lemma JamQuotient(m: nat, d: nat)
    requires m < B53 && d <= 63
    ensures var p, j := Pow2(d), Jam(m, d);
            m == m / p * p + m % p && (j == m / p || (j == m / p + 1 && m % p != 0))
  {
    hide Pow2;
  }

  /** The sticky shift is off by less than one unit of its last place, and exact without a shift. */
  lemma JamError(m: nat, d: nat)
    requires m < B53
    ensures m - Pow2(d) < Jam(m, d) * Pow2(d) < m + Pow2(d)
    ensures d == 0 ==> Jam(m, d) == m && Pow2(d) == 1
    ensures d > 0 ==> Jam(m, d) <= B52
  {
    if d == 0 {
      JamNothing(m);
      assert m * Pow2(0) == m;
    } else if d > 63 {
      Pow2Literals();
      Pow2Mono(53, d);
    } else {
      var p := Pow2(d);
      assert p >= 2;
      hide Pow2, Jam;
      JamQuotient(m, d);
      QuotientLe(m, p);
      StickyQuotient(m, p, m / p, m % p, Jam(m, d));
      HalfQuotient(m, p);
    }
  }

  lemma HalfQuotient(m: nat, p: nat)
    requires m < B53 && p >= 2
    ensures m / p < B52
  {
    var q := m / p;
    assert q * p <= m;
    if q >= B52 {
      MulMono(q, 2, p);
    }
  }

  /** A packed significand with an exponent in range. */
  lemma FinishValue(s: nat, e: int, m: nat)
    requires s < 2 && B52 <= m < B53 && 1 <= e <= 2046
    ensures var r := Finish(s, e, m % B52);
            && Normal(r) && Exponent(r) == e && Sign(r) == s && Value(r) == Scaled(SignInt(s) * m, TwoTo(e - 1075))
  {
    hide TwoTo;
    Unpack(s, e, m - B52);
    assert m % B52 == m - B52;
    var r := Pack(s, e, m - B52);
    assert Finish(s, e, m % B52) == r && Significand(r) == m;
    SignedScale(s, m, TwoTo(e - 1075));
  }

  lemma SignedScale(s: nat, m: nat, w: real)
    requires s < 2
    ensures SignOf(s) * (m as real * w) == Scaled(SignInt(s) * m, w)
  {
    if s == 1 {
      assert (-(m as int)) as real == -(m as real);
    }
  }

  lemma ScaledDouble(n: int, e: int)
    ensures Scaled(n, TwoTo(e + 1)) == Scaled(2 * n, TwoTo(e))
  {
    TwoToNext(e);
    hide TwoTo;
    assert (2 * n) as real == 2.0 * (n as real);
  }

  /** A sum m with exponent field e leaves the range of finite numbers. */
  predicate Saturates(m: nat, e: nat) { e == 2046 && m >= B53 }

  /** The same-sign path keeps the sum, rounded up to even units when it carried, unless it saturates. */
  lemma SameSignValue(m: nat, e: nat, s: nat)
    requires B52 <= m <= 2 * B53 - 2 && s < 2 && 1 <= e <= 2046
    ensures var r := SameSign(m, e, s);
            var units := if m < B53 then m else m + m % 2;
            && (r == Infinity(s) <==> Saturates(m, e)) && (Normal(r) <==> !Saturates(m, e))
            && (Normal(r) ==> Value(r) == Scaled(SignInt(s) * units, TwoTo(e - 1075))
                              && Exponent(r) >= e + (if m < B53 then 0 else 1))
  {
    hide TwoTo, Value, Scaled, Exponent;
    InfinityNotNormal(s);
    var half := m / 2 + m % 2;
    if m < B53 {
      FinishValue(s, e, m);
    } else if e + 1 <= 2046 {
      FinishValue(s, e + 1, half);
      ScaledDouble(SignInt(s) * half, e - 1075);
      assert 2 * (SignInt(s) * half) == SignInt(s) * (m + m % 2);
    }
  }

  lemma InfinityNotNormal(s: nat)
    requires s < 2
    ensures !Normal(Infinity(s)) && !Normal(Zero(s))
  {
    Unpack(s, EXP_ONES, 0);
    Unpack(s, 0, 0);
  }

  lemma ScaledShift(n: int, k: nat, e: int)
    ensures Scaled(n * Pow2(k), TwoTo(e)) == Scaled(n, TwoTo(e + k))
  {
    TwoToAdd(e, k);
    hide TwoTo, Pow2;
    assert (n * Pow2(k)) as real == n as real * Pow2(k) as real;
    var x, y, w := n as real, Pow2(k) as real, TwoTo(e);
    assert (x * y) * w == x * (y * w);
  }

  /** Cancellation is exact unless the exponent runs out, which happens exactly below the
      least normal number. */
  lemma CancelValue(m: nat, e: nat, s: nat)
    requires 0 < m < B53 && s < 2 && 1 <= e <= 2046
    ensures var r := Cancel(m, e, s);
            && (Normal(r) ==> Value(r) == Scaled(SignInt(s) * m, TwoTo(e - 1075)))
            && (!Normal(r) ==> r == Zero(s))
            && (Normal(r) <==> Scaled(m, TwoTo(e - 1075)) >= TwoTo(MIN_EXP))
  {
    hide TwoTo, Value, Scaled, Pow2, Lead, Finish, Zero;
    LeadShifts(m);
    var n := Lead(m);
    var big := m * Pow2(n);
    MinimumUnits();
    ScaledShift(m, n, e - n - 1075);
    if e - n >= 1 {
      FinishValue(s, e - n, big);
      ScaledShift(SignInt(s) * m, n, e - n - 1075);
      assert SignInt(s) * m * Pow2(n) == SignInt(s) * big by {
        SignTimes(SignInt(s), m, Pow2(n));
      }
      AtLeastMinimum(big, e - n);
    } else {
      InfinityNotNormal(s);
      FlushedFinish(m, e, s);
      BelowMinimum(big, e - n);
    }
  }

  lemma SignTimes(i: int, m: int, p: int)
    ensures i * m * p == i * (m * p)
  {
  }

  lemma MinimumUnits()
    ensures Scaled(B52, TwoTo(1 - 1075)) == TwoTo(MIN_EXP) == Scaled(B53, TwoTo(0 - 1075))
  {
    hide TwoTo, Pow2;
    Pow2Literals();
    TwoToAdd(1 - 1075, 52);
    TwoToAdd(0 - 1075, 53);
  }

  lemma {:induction false} AtLeastMinimum(m: nat, e: int)
    requires m >= B52 && e >= 1
    ensures Scaled(m, TwoTo(e - 1075)) >= TwoTo(MIN_EXP)
    decreases e
  {
    hide TwoTo, Scaled;
    if e == 1 {
      MinimumUnits();
      ScaledOrder(m, B52, TwoTo(1 - 1075));
    } else {
      ScaledDouble(m, e - 1 - 1075);
      AtLeastMinimum(2 * m, e - 1);
    }
  }

  lemma {:induction false} BelowMinimum(m: nat, e: int)
    requires m < B53 && e <= 0
    ensures Scaled(m, TwoTo(e - 1075)) < TwoTo(MIN_EXP)
    decreases -e
  {
    hide TwoTo, Scaled;
    if e == 0 {
      MinimumUnits();
      ScaledOrder(m, B53, TwoTo(0 - 1075));
    } else {
      BelowMinimum(m, e + 1);
      ScaledDouble(m, e - 1075);
      ScaledOrder(2 * m, m, TwoTo(e - 1075));
    }
  }

  // ----- the rounding of a carried sum against ties to even -----

  /** Half of m, rounded to nearest with ties to even. */
  function HalfEven(m: nat): nat { if m % 4 == 3 then m / 2 + 1 else m / 2 }

  /** It is the one integer within a half of m / 2 that is even when two are equally near. */
  lemma HalfEvenIsNearest(m: nat, h: int)
    ensures h == HalfEven(m) <==> -1 <= 2 * h - m <= 1 && (m % 2 == 1 ==> h % 2 == 0)
  {
    var q, c := m / 4, m % 4;
    assert m == 4 * q + c;
    assert HalfEven(m) == if c == 3 then 2 * q + 2 else if c >= 2 then 2 * q + 1 else 2 * q;
  }

  /** The same-sign path as its comment has it. */
  function SameSignEven(m: nat, e: nat, s: nat): Dword
    requires s < 2
  {
    if m < B53 then Finish(s, e, m % B52)
    else
      var half := HalfEven(m);
      if half < B53 then Finish(s, e + 1, half % B52) else Finish(s, e + 2, half / 2 % B52)
  }

  /** Rounding a carried sum up is ties to even exactly unless the tie is above an even half and in range. */
  lemma TiesToEvenIff(m: nat, e: nat, s: nat)
    requires B52 <= m < 2 * B53 && s < 2 && 1 <= e <= 2046
    ensures SameSign(m, e, s) == SameSignEven(m, e, s) <==> !(m >= B53 && m % 4 == 1 && e < 2046)
  {
    hide Finish, HalfEven;
    HalfEvenOrUp(m);
    if m >= B53 && m % 4 == 1 {
      FinishDiffers(e + 1, HalfEven(m), s);
    }
  }

  lemma HalfEvenOrUp(m: nat)
    ensures HalfEven(m) == if m % 4 == 1 then m / 2 + m % 2 - 1 else m / 2 + m % 2
    ensures m % 4 == 1 && B53 <= m < 2 * B53 ==> B52 <= HalfEven(m) < B53 - 1
  {
  }

  lemma FinishDiffers(e: nat, half: nat, s: nat)
    requires B52 <= half < B53 - 1 && s < 2 && e > 1
    ensures Finish(s, e, half % B52) == Finish(s, e, (half + 1) % B52) <==> e >= EXP_ONES
  {
    hide Pack;
    if e < EXP_ONES {
      Unpack(s, e, half - B52);
      Unpack(s, e, half + 1 - B52);
    }
  }

  /** The sum as its comment has it. */
  function AddEven(hi: Dword, lo: Dword): Dword
    requires Exponent(hi) >= Exponent(lo)
  {
    SameSignEven(AlignedSum(hi, lo), Exponent(hi), Sign(hi))
  }

  /** Significand of the same-sign sum after alignment. */
  function AlignedSum(hi: Dword, lo: Dword): nat
    requires Exponent(hi) >= Exponent(lo)
  {
    Significand(hi) + Jam(Significand(lo), Exponent(hi) - Exponent(lo))
  }

  /** __adddf3 against its own comment, for normal operands of one sign: it rounds ties to even if and only if the
      aligned sum did not carry into a one above an even half. */
  lemma AddTiesToEvenIff(hi: Dword, lo: Dword)
    requires Normal(hi) && Exponent(hi) >= Exponent(lo) && Sign(hi) == Sign(lo)
    ensures var m := AlignedSum(hi, lo);
            AddSpec(hi, lo) == AddEven(hi, lo) <==> !(m >= B53 && m % 4 == 1 && Exponent(hi) < 2046)
  {
    hide Sign, Exponent, Significand, Jam, SameSign, SameSignEven;
    assert AddSpec(hi, lo) == AddAligned(hi, lo) by { NormalAligned(hi, lo); }
    JamBound(Significand(lo), Exponent(hi) - Exponent(lo));
    TiesToEvenIff(AlignedSum(hi, lo), Exponent(hi), Sign(hi));
  }

  /** Rounding the carried sum up never carries a second time: the code's test for it is dead. */
  lemma NoSecondCarry(hi: Dword, lo: Dword)
    requires Exponent(hi) >= Exponent(lo)
    ensures var m := AlignedSum(hi, lo); m <= 2 * B53 - 2 && m / 2 + m % 2 < B53
  {
    hide Exponent, Significand, Jam;
    JamBound(Significand(lo), Exponent(hi) - Exponent(lo));
  }

  lemma NormalAligned(a: Dword, b: Dword)
    requires Finite(a) && Finite(b) && (Normal(a) || Normal(b))
    ensures AddSpec(a, b) == if Exponent(a) < Exponent(b) then AddAligned(b, a) else AddAligned(a, b)
  {
    if IsZero(a) {
      NothingAdded(b, a);
    } else if IsZero(b) {
      NothingAdded(a, b);
    }
    hide AddAligned, Exponent, Mantissa;
  }

  lemma NothingAdded(hi: Dword, lo: Dword)
    requires Normal(hi) && IsZero(lo)
    ensures AddAligned(hi, lo) == hi
  {
    Repack(hi);
    JamNone(Exponent(hi));
    hide Jam, Pack, Sign, Exponent, Mantissa;
    LeadDone(Significand(hi));
  }

  lemma JamNone(d: nat)
    ensures Jam(0, d) == 0
  {
    hide Pow2;
  }

  lemma Repack(a: Dword)
    ensures Pack(Sign(a), Exponent(a), Mantissa(a)) == a
  {
    var top := a / B52;
    assert a == top * B52 + Mantissa(a) && a / B63 == top / 2048;
  }

  /** 1 + (1 + 2^-52) lies midway between 2 and its successor, and goes to the successor, whose last bit is odd. */
  lemma TieGoesToOdd()
    ensures var a, b := Pack(0, BIAS, 0), Pack(0, BIAS, 1);
            AddSpec(a, b) == Pack(0, BIAS + 1, 1) && AddEven(a, b) == Pack(0, BIAS + 1, 0)
  {
    Unpack(0, BIAS, 0);
    Unpack(0, BIAS, 1);
    JamNothing(B52 + 1);
    hide Jam;
  }

  /** The exact sum in units of the smaller operand's last place. */
  function SumUnits(hi: Dword, lo: Dword): int
    requires Exponent(hi) >= Exponent(lo)
  {
    SignInt(Sign(hi)) * (Significand(hi) * Pow2(Exponent(hi) - Exponent(lo))) + SignInt(Sign(lo)) * Significand(lo)
  }

  lemma ExactSum(hi: Dword, lo: Dword)
    requires Exponent(hi) >= Exponent(lo)
    ensures Value(hi) + Value(lo) == Scaled(SumUnits(hi, lo), Ulp(lo))
    ensures Ulp(hi) == Scaled(Pow2(Exponent(hi) - Exponent(lo)), Ulp(lo))
  {
    hide Value, Ulp, Scaled, Pow2, Significand, Sign, Exponent, SignInt;
    var d := Exponent(hi) - Exponent(lo);
    ValueUnits(hi);
    ValueUnits(lo);
    UlpShift(hi, lo);
    ScaledProduct(SignInt(Sign(hi)) * Significand(hi), Pow2(d), Ulp(lo));
    SignTimes(SignInt(Sign(hi)), Significand(hi), Pow2(d));
    ScaledSum(SignInt(Sign(hi)) * (Significand(hi) * Pow2(d)), SignInt(Sign(lo)) * Significand(lo), Ulp(lo));
  }

  lemma ValueUnits(a: Dword)
    ensures Value(a) == Scaled(SignInt(Sign(a)) * Significand(a), Ulp(a))
  {
    hide TwoTo, Significand, Sign, Exponent;
    SignedScale(Sign(a), Significand(a), Ulp(a));
  }

  lemma UlpShift(hi: Dword, lo: Dword)
    requires Exponent(hi) >= Exponent(lo)
    ensures Ulp(hi) == Scaled(Pow2(Exponent(hi) - Exponent(lo)), Ulp(lo))
  {
    hide TwoTo, Pow2, Exponent;
    TwoToAdd(Exponent(lo) - 1075, Exponent(hi) - Exponent(lo));
  }

  lemma ScaledProduct(n: int, p: int, w: real)
    ensures Scaled(n, Scaled(p, w)) == Scaled(n * p, w)
  {
    var x, y := n as real, p as real;
    assert (n * p) as real == x * y;
    assert (x * y) * w == x * (y * w);
  }

  lemma ScaledSum(m: int, n: int, w: real)
    ensures Scaled(m, w) + Scaled(n, w) == Scaled(m + n, w) && Scaled(m, w) - Scaled(n, w) == Scaled(m - n, w)
  {
    assert (m + n) as real == m as real + n as real && (m - n) as real == m as real - n as real;
  }

  /** |n| units against p units. */
  lemma ScaledAbs(n: int, p: int, w: real)
    requires w > 0.0
    ensures AbsReal(Scaled(n, w)) < Scaled(p, w) <==> -p < n < p
  {
    hide Scaled;
    ScaledLinear(n, w);
    ScaledLinear(p, w);
    ScaledOrder(n, p, w);
    ScaledOrder(-p, n, w);
    ScaledOrder(0, n, w);
  }

  /** What the result stands for in units of Ulp(hi). */
  function KeptUnits(hi: Dword, lo: Dword): int
    requires Exponent(hi) >= Exponent(lo)
  {
    var m, j := Significand(hi), Jam(Significand(lo), Exponent(hi) - Exponent(lo));
    if Sign(hi) == Sign(lo) then SignInt(Sign(hi)) * (if m + j < B53 then m + j else m + j + (m + j) % 2)
    else SignInt(Sign(hi)) * (m - j)
  }

  /** Bound of the error in units of Ulp(lo): one or two units of Ulp(hi). */
  function Slack(hi: Dword, lo: Dword): (k: int)
    requires Exponent(hi) >= Exponent(lo)
    ensures k > 0
  {
    var d := Exponent(hi) - Exponent(lo);
    if Sign(hi) == Sign(lo) && Significand(hi) + Jam(Significand(lo), d) >= B53 then 2 * Pow2(d) else Pow2(d)
  }

  lemma UnitsError(m: int, n: int, p: int, j: int, b: int, i: int)
    requires p >= 0 && 0 <= b && (i == 1 || i == -1) && n - p < j * p < n + p && b <= 1
    ensures var e := i * (m + j + b) * p - (i * (m * p) + i * n);
            -(1 + b) * p < e < (1 + b) * p
    ensures var e := i * (m - j) * p - (i * (m * p) + (-i) * n);
            -p < e < p
  {
    SignedUnits(m + j + b, p, i);
    SignedUnits(m - j, p, i);
    SumProducts(m, j, b, p);
  }

  lemma SignedUnits(k: int, p: int, i: int)
    requires i == 1 || i == -1
    ensures i * k * p == i * (k * p) == if i == 1 then k * p else -(k * p)
  {
    if i == -1 {
      assert (-k) * p == -(k * p);
    }
  }

  lemma SumProducts(m: int, j: int, b: int, p: int)
    ensures (m + j + b) * p == m * p + j * p + b * p && (m - j) * p == m * p - j * p && (1 + b) * p == p + b * p
    ensures -(1 + b) * p == -((1 + b) * p)
  {
  }

  lemma KeptError(hi: Dword, lo: Dword)
    requires Normal(hi) && Exponent(hi) >= Exponent(lo)
    ensures var d := Exponent(hi) - Exponent(lo);
            var e := KeptUnits(hi, lo) * Pow2(d) - SumUnits(hi, lo);
            -Slack(hi, lo) < e < Slack(hi, lo)
            && (d == 0 && Sign(hi) != Sign(lo) ==> e == 0)
  {
    hide Pow2, Jam, Sign, Exponent, Significand;
    var d := Exponent(hi) - Exponent(lo);
    var m, n := Significand(hi), Significand(lo);
    var j := Jam(n, d);
    JamError(n, d);
    UnitsError(m, n, Pow2(d), j, if Sign(hi) == Sign(lo) && m + j >= B53 then (m + j) % 2 else 0, SignInt(Sign(hi)));
  }

  // ----- the two paths in real numbers -----

  /** The aligned sum of two operands of one sign saturates. */
  predicate Overflows(hi: Dword, lo: Dword)
    requires Exponent(hi) >= Exponent(lo)
  {
    Saturates(AlignedSum(hi, lo), Exponent(hi))
  }

  /** Units of Ulp(hi) in the least normal number, or one when a unit is as large. */
  function LeastUnits(e: nat): nat { Pow2(if e < 53 then 53 - e else 0) }

  /** The aligned difference of two operands of opposite signs is below the least normal number. */
  predicate Flushes(hi: Dword, lo: Dword)
    requires Exponent(hi) >= Exponent(lo)
  {
    var m, j := Significand(hi), Jam(Significand(lo), Exponent(hi) - Exponent(lo));
    (if m >= j then m - j else j - m) < LeastUnits(Exponent(hi))
  }

  lemma LeastUnitsValue(e: nat)
    ensures e <= 53 ==> Scaled(LeastUnits(e), TwoTo(e - 1075)) == TwoTo(MIN_EXP)
    ensures e > 53 ==> LeastUnits(e) == 1 && Scaled(1, TwoTo(e - 1075)) >= TwoTo(MIN_EXP)
  {
    assert Pow2(0) == 1;
    hide TwoTo, Pow2;
    if e > 53 {
      TwoToMono(MIN_EXP, e - 1075);
    } else {
      TwoToAdd(e - 1075, 53 - e);
      assert e - 1075 + (53 - e) == MIN_EXP;
    }
  }

  /** n units of weight TwoTo(e - 1075) against the least normal number. */
  lemma LeastUnitsOrder(n: nat, e: nat)
    ensures Scaled(n, TwoTo(e - 1075)) < TwoTo(MIN_EXP) <==> n < LeastUnits(e)
  {
    hide TwoTo, Scaled, LeastUnits;
    LeastUnitsValue(e);
    ScaledOrder(n, LeastUnits(e), TwoTo(e - 1075));
    ScaledOrder(n, 1, TwoTo(e - 1075));
    ScaledLinear(0, TwoTo(e - 1075));
  }

  lemma SameSignPath(hi: Dword, lo: Dword)
    requires Normal(hi) && Exponent(hi) >= Exponent(lo) && Sign(hi) == Sign(lo)
    ensures var r := AddAligned(hi, lo);
            && (r == Infinity(Sign(hi)) <==> Overflows(hi, lo)) && (Normal(r) <==> !Overflows(hi, lo))
            && (Normal(r) ==> Value(r) == Scaled(KeptUnits(hi, lo), Ulp(hi)) && Ulp(r) >= Scaled(Slack(hi, lo), Ulp(lo)))
  {
    hide Value, Scaled, Pow2, Significand, Sign, Jam, TwoTo, SameSign, Cancel;
    var d := Exponent(hi) - Exponent(lo);
    var m, j := Significand(hi), Jam(Significand(lo), d);
    JamBound(Significand(lo), d);
    SameSignValue(m + j, Exponent(hi), Sign(hi));
    UlpShift(hi, lo);
    var r := AddAligned(hi, lo);
    if Normal(r) {
      if m + j < B53 {
        TwoToMono(Exponent(hi) - 1075, Exponent(r) - 1075);
      } else {
        TwoToMono(Exponent(hi) + 1 - 1075, Exponent(r) - 1075);
        TwoToNext(Exponent(hi) - 1075);
        ScaledLinear(Pow2(d), Ulp(lo));
      }
    }
  }

  lemma OppositePath(hi: Dword, lo: Dword)
    requires Normal(hi) && Exponent(hi) >= Exponent(lo) && Sign(hi) != Sign(lo)
    ensures var r := AddAligned(hi, lo);
            && (Normal(r) || IsZero(r))
            && (Normal(r) ==> Value(r) == Scaled(KeptUnits(hi, lo), Ulp(hi)))
            && (Normal(r) <==> AbsReal(Scaled(KeptUnits(hi, lo), Ulp(hi))) >= TwoTo(MIN_EXP))
            && (Normal(r) <==> !Flushes(hi, lo))
  {
    hide Value, Scaled, Pow2, Significand, Jam, TwoTo, SameSign, Cancel, Sign, Exponent, LeastUnits;
    var d := Exponent(hi) - Exponent(lo);
    var m, j := Significand(hi), Jam(Significand(lo), d);
    JamError(Significand(lo), d);
    JamBound(Significand(lo), d);
    ZeroFields(Sign(hi));
    ZeroFields(Sign(lo));
    var n := if m > j then m - j else j - m;
    LeastUnitsOrder(n, Exponent(hi));
    if m == j {
      CancelNothing(Exponent(hi), Sign(hi));
      ZeroFields(0);
      ScaledLinear(0, Ulp(hi));
    } else {
      CancelValue(n, Exponent(hi), if m > j then Sign(hi) else Sign(lo));
      AbsScaled(KeptUnits(hi, lo), n, Ulp(hi));
    }
  }

  lemma AbsScaled(k: int, n: nat, w: real)
    requires w > 0.0 && (k == n || k == -(n as int))
    ensures AbsReal(Scaled(k, w)) == Scaled(n, w)
  {
    hide Scaled;
    ScaledLinear(n, w);
    ScaledOrder(0, n, w);
    ScaledOrder(n, 0, w);
  }

  lemma ZeroFields(s: nat)
    requires s < 2
    ensures IsZero(Zero(s)) && !Normal(Zero(s))
  {
    Unpack(s, 0, 0);
  }

  /** Distance of the computed sum from the exact one. */
  function AddError(a: Dword, b: Dword): real { AbsReal(Value(AddSpec(a, b)) - (Value(a) + Value(b))) }

  // ----- overflow and flushing against the exact sum -----

  /** The exact sum of one sign, in units of Ulp(lo). */
  function SumMagnitude(hi: Dword, lo: Dword): nat
    requires Exponent(hi) >= Exponent(lo)
  {
    Significand(hi) * Pow2(Exponent(hi) - Exponent(lo)) + Significand(lo)
  }

  /** k units of Ulp(hi) against x units of Ulp(lo). */
  lemma UnitsOrder(k: int, p: int, x: int, w: real)
    requires w > 0.0
    ensures Scaled(k, Scaled(p, w)) < Scaled(x, w) <==> k * p < x
    ensures Scaled(x, w) < Scaled(k, Scaled(p, w)) <==> x < k * p
  {
    hide Scaled;
    ScaledProduct(k, p, w);
    ScaledOrder(k * p, x, w);
    ScaledOrder(x, k * p, w);
  }

  lemma MagnitudeBracket(hi: Dword, lo: Dword)
    requires Exponent(hi) >= Exponent(lo)
    ensures var p, a, x := Pow2(Exponent(hi) - Exponent(lo)), AlignedSum(hi, lo), SumMagnitude(hi, lo);
            (a - 1) * p < x < (a + 1) * p && x < 2 * B53 * p
  {
    hide Pow2, Exponent, Significand, Jam;
    var d := Exponent(hi) - Exponent(lo);
    JamError(Significand(lo), d);
    UnitsBracket(Significand(hi), Significand(lo), Jam(Significand(lo), d), Pow2(d));
  }

  /** The exact sum of one sign lies strictly between the aligned one less a unit and the aligned one and a unit. */
  lemma SumBracket(hi: Dword, lo: Dword)
    requires Normal(hi) && Exponent(hi) >= Exponent(lo) && Sign(hi) == Sign(lo)
    ensures Scaled(AlignedSum(hi, lo) - 1, Ulp(hi)) < AbsReal(Value(hi) + Value(lo))
            < Scaled(AlignedSum(hi, lo) + 1, Ulp(hi))
    ensures AbsReal(Value(hi) + Value(lo)) < Scaled(2 * B53, Ulp(hi))
  {
    hide Value, Scaled, Pow2, Sign, Exponent, Ulp, Significand, AlignedSum, SumMagnitude, SumUnits;
    var p, w := Pow2(Exponent(hi) - Exponent(lo)), Ulp(lo);
    var a: int, x := AlignedSum(hi, lo), SumMagnitude(hi, lo);
    ExactSum(hi, lo);
    SameUnits(hi, lo);
    AbsScaled(SumUnits(hi, lo), x, w);
    MagnitudeBracket(hi, lo);
    UnitsOrder(a - 1, p, x, w);
    UnitsOrder(a + 1, p, x, w);
    UnitsOrder(2 * B53, p, x, w);
  }

  lemma SameUnits(hi: Dword, lo: Dword)
    requires Exponent(hi) >= Exponent(lo) && Sign(hi) == Sign(lo)
    ensures SumUnits(hi, lo) == SumMagnitude(hi, lo) || SumUnits(hi, lo) == -(SumMagnitude(hi, lo) as int)
  {
    hide Pow2, Exponent, Significand;
  }

  lemma UnitsBracket(m: nat, n: nat, j: nat, p: nat)
    requires m < B53 && n < B53 && 0 < p && n - p < j * p < n + p
    ensures (m + j - 1) * p < m * p + n < (m + j + 1) * p && m * p + n < 2 * B53 * p
  {
    assert (m + j - 1) * p == m * p + j * p - p && (m + j + 1) * p == m * p + j * p + p;
    MulMono(p, m, B53 - 1);
    MulMono(B53, 1, p);
    assert (B53 - 1) * p == B53 * p - p && 2 * B53 * p == B53 * p + B53 * p;
  }

  /** The code saturates only beyond the largest finite double, and always from 2^1024 on. */
  lemma OverflowIsReal(hi: Dword, lo: Dword)
    requires Normal(hi) && Exponent(hi) >= Exponent(lo) && Sign(hi) == Sign(lo)
    ensures var exact := AbsReal(Value(hi) + Value(lo));
            if Overflows(hi, lo) then exact > MaxFinite() else exact < TwoTo(MAX_EXP)
  {
    hide Value, Scaled, Pow2, TwoTo, Sign, Exponent, Significand, Jam;
    var m, e: int := AlignedSum(hi, lo), Exponent(hi);
    SumBracket(hi, lo);
    TopOfRange();
    if e == 2046 {
      ScaledOrder(m - 1, B53 - 1, Ulp(hi));
      ScaledOrder(B53, m + 1, Ulp(hi));
    } else {
      TwoToMono(e - 1075, 2045 - 1075);
      ScaledWeight(2 * B53, Ulp(hi), TwoTo(2045 - 1075));
    }
  }

  lemma TopOfRange()
    ensures MaxFinite() == Scaled(B53 - 1, TwoTo(2046 - 1075))
    ensures TwoTo(MAX_EXP) == Scaled(B53, TwoTo(2046 - 1075)) == Scaled(2 * B53, TwoTo(2045 - 1075))
  {
    hide TwoTo, Pow2;
    Pow2Literals();
    TwoToAdd(2046 - 1075, 53);
    hide Scaled;
    ScaledDouble(B53, 2045 - 1075);
  }

  /** A shifted significand stays below the other one. */
  lemma JamBelow(m: nat, d: nat)
    requires m < B53 && d > 0
    ensures Jam(m, d) < B52
  {
    if d <= 63 {
      var p := Pow2(d);
      assert p >= 2;
      hide Pow2;
      HalfQuotient(m, p);
    }
  }

  /** With unequal exponents a flushed difference is below the least normal number, although it was aligned. */
  lemma FlushedIsSmall(hi: Dword, lo: Dword)
    requires Normal(hi) && Exponent(hi) > Exponent(lo) && Sign(hi) != Sign(lo) && Flushes(hi, lo)
    ensures Exponent(hi) < 53 && AbsReal(Value(hi) + Value(lo)) < TwoTo(MIN_EXP)
  {
    hide Value, Scaled, Pow2, TwoTo, Sign, Exponent, Ulp, Significand, Jam, LeastUnits;
    var d := Exponent(hi) - Exponent(lo);
    var m, n, p, w := Significand(hi), Significand(lo), Pow2(d), Ulp(lo);
    var j, units := Jam(n, d), LeastUnits(Exponent(hi));
    JamError(n, d);
    JamBelow(n, d);
    LeastUnitsFrom53(Exponent(hi));
    LeastUnitsValue(Exponent(hi));
    ExactSum(hi, lo);
    OppositeUnits(hi, lo);
    TwoAtLeast(d);
    MulMono(m, 2, p);
    AbsScaled(SumUnits(hi, lo), m * p - n, w);
    ScaledProduct(units, p, w);
    MulMono(p, m - j + 1, units);
    DifferenceBracket(m, j, p);
    ScaledOrder(m * p - n, units * p, w);
    UlpIs(hi);
  }

  lemma UlpIs(a: Dword)
    ensures Ulp(a) == TwoTo(Exponent(a) - 1075)
  {
  }

  lemma DifferenceBracket(m: int, j: int, p: int)
    ensures (m - j + 1) * p == m * p - j * p + p
  {
  }

  lemma TwoAtLeast(d: nat)
    requires d > 0
    ensures Pow2(d) >= 2
  {
  }

  lemma LeastUnitsFrom53(e: nat)
    ensures e >= 53 ==> LeastUnits(e) == 1
  {
  }

  lemma OppositeUnits(hi: Dword, lo: Dword)
    requires Exponent(hi) >= Exponent(lo) && Sign(hi) != Sign(lo)
    ensures var x := Significand(hi) * Pow2(Exponent(hi) - Exponent(lo)) - Significand(lo);
            SumUnits(hi, lo) == x || SumUnits(hi, lo) == -x
  {
    hide Pow2, Exponent, Significand;
  }

  /** Accuracy with the operands ordered by exponent. */
  lemma AlignedAccuracy(hi: Dword, lo: Dword)
    requires Normal(hi) && Exponent(hi) >= Exponent(lo)
    ensures var r, exact := AddAligned(hi, lo), Value(hi) + Value(lo);
            && (Sign(hi) == Sign(lo) ==>
                  if Overflows(hi, lo) then r == Infinity(Sign(hi)) && AbsReal(exact) > MaxFinite()
                  else Normal(r) && AbsReal(Value(r) - exact) < Ulp(r) && AbsReal(exact) < TwoTo(MAX_EXP))
            && (Sign(hi) != Sign(lo) ==>
                  && (if Flushes(hi, lo) then IsZero(r) && AbsReal(exact) < TwoTo(MIN_EXP)
                      else Normal(r) && AbsReal(Value(r) - exact) < Ulp(hi))
                  && (Exponent(hi) == Exponent(lo) ==>
                        (Normal(r) <==> AbsReal(exact) >= TwoTo(MIN_EXP)) && (Normal(r) ==> Value(r) == exact)))
  {
    hide Value, Scaled, Pow2, TwoTo, Sign, Exponent, AddAligned, Ulp, KeptUnits, SumUnits, Slack, IsZero, Normal,
         Overflows, Flushes, MaxFinite;
    var d := Exponent(hi) - Exponent(lo);
    var k, x := KeptUnits(hi, lo), SumUnits(hi, lo);
    var w := Ulp(lo);
    ExactSum(hi, lo);
    KeptError(hi, lo);
    ScaledProduct(k, Pow2(d), w);
    ScaledSum(k * Pow2(d), x, w);
    ScaledAbs(k * Pow2(d) - x, Slack(hi, lo), w);
    ZeroNotNormal(AddAligned(hi, lo));
    if Sign(hi) == Sign(lo) {
      SameSignPath(hi, lo);
      OverflowIsReal(hi, lo);
    } else {
      OppositePath(hi, lo);
      OppositeSlack(hi, lo);
      if Flushes(hi, lo) && Exponent(hi) > Exponent(lo) {
        FlushedIsSmall(hi, lo);
      }
      ScaledLinear(0, w);
    }
  }

  lemma ZeroNotNormal(a: Dword)
    ensures !(IsZero(a) && Normal(a))
  {
  }

  lemma OppositeSlack(hi: Dword, lo: Dword)
    requires Exponent(hi) >= Exponent(lo) && Sign(hi) != Sign(lo)
    ensures Slack(hi, lo) == Pow2(Exponent(hi) - Exponent(lo))
  {
    hide Pow2, Jam;
  }

  function LargerUlp(a: Dword, b: Dword): real { if Exponent(a) < Exponent(b) then Ulp(b) else Ulp(a) }

  predicate SumOverflows(a: Dword, b: Dword)
  {
    if Exponent(a) < Exponent(b) then Overflows(b, a) else Overflows(a, b)
  }

  predicate SumFlushes(a: Dword, b: Dword) { if Exponent(a) < Exponent(b) then Flushes(b, a) else Flushes(a, b) }

  /** Accuracy of addition of two normal doubles.  Same signs: the result is infinity exactly when the aligned sum
      saturates, which takes a sum beyond the largest finite double and always happens from 2^1024 on; otherwise
      it is within one ulp of itself.  Opposite signs: the result is zero exactly when the aligned difference is
      below the least normal number, and then so is the exact sum; otherwise it is within one ulp of the operand
      with the larger exponent, and exact when the exponents are equal. */
  lemma AddAccuracy(a: Dword, b: Dword)
    requires Finite(a) && Finite(b) && (Normal(a) || Normal(b))
    ensures var r, exact := AddSpec(a, b), Value(a) + Value(b);
            && (Sign(a) == Sign(b) ==>
                  if SumOverflows(a, b) then r == Infinity(Sign(a)) && AbsReal(exact) > MaxFinite()
                  else Normal(r) && AddError(a, b) < Ulp(r) && AbsReal(exact) < TwoTo(MAX_EXP))
            && (Sign(a) != Sign(b) ==>
                  && (if SumFlushes(a, b) then IsZero(r) && AbsReal(exact) < TwoTo(MIN_EXP)
                      else Normal(r) && AddError(a, b) < LargerUlp(a, b))
                  && (Exponent(a) == Exponent(b) ==>
                        (Normal(r) <==> AbsReal(exact) >= TwoTo(MIN_EXP)) && (Normal(r) ==> Value(r) == exact)))
  {
    hide Value, TwoTo, Sign, Exponent, AddAligned, Ulp, IsZero, AddSpec, Overflows, Flushes, MaxFinite;
    NormalAligned(a, b);
    if Exponent(a) < Exponent(b) {
      AlignedAccuracy(b, a);
    } else {
      AlignedAccuracy(a, b);
    }
  }

  /** Operands of opposite signs and unequal exponents are never flushed when the larger exponent field is 53 or more. */
  lemma LargeNeverFlushed(a: Dword, b: Dword)
    requires Finite(a) && Finite(b) && Sign(a) != Sign(b) && Exponent(a) != Exponent(b)
    requires Exponent(a) >= 53 || Exponent(b) >= 53
    ensures !SumFlushes(a, b) && Normal(AddSpec(a, b))
  {
    hide Value, Pow2, TwoTo, Sign, Exponent, Significand, Flushes, AddSpec;
    AddAccuracy(a, b);
    if SumFlushes(a, b) {
      if Exponent(a) < Exponent(b) {
        FlushedIsSmall(b, a);
      } else {
        FlushedIsSmall(a, b);
      }
    }
  }

  // ----- subnormal operands -----

  /** Two subnormals always give zero. */
  lemma SubnormalsVanish(a: Dword, b: Dword)
    requires Subnormal(a) && Subnormal(b)
    ensures IsZero(AddSpec(a, b))
  {
    JamNothing(Significand(a));
    JamNothing(Significand(b));
    ZeroFields(Sign(a));
    ZeroFields(Sign(b));
    ZeroFields(0);
    hide Zero, Jam, Sign;
    CancelFlushes(Significand(a), Significand(b), Sign(a), Sign(b));
  }

  lemma CancelFlushes(m: nat, n: nat, s: nat, t: nat)
    requires m < B52 && n < B52 && s < 2 && t < 2
    ensures SameSign(m + n, 0, s) == Zero(s)
    ensures m >= n ==> Cancel(m - n, 0, s) in {Zero(s), Zero(0)}
    ensures m < n ==> Cancel(n - m, 0, t) == Zero(t)
  {
    hide Zero, Lead, Pow2;
    if m > n { LeadShifts(m - n); }
    if m < n { LeadShifts(n - m); }
  }

  /** A normal operand and a subnormal one: 2^-1022 and its half give five quarters of it. */
  lemma SubnormalCountsHalf()
    ensures var a, b, r := Pack(0, 1, 0), Pack(0, 0, B51), Pack(0, 1, B51 / 2);
            AddSpec(a, b) == r && Number(b) == Number(a) / 2.0 && Number(r) == Number(a) + Number(b) / 2.0
  {
    var a, b, r := Pack(0, 1, 0), Pack(0, 0, B51), Pack(0, 1, B51 / 2);
    Unpack(0, 1, 0);
    Unpack(0, 0, B51);
    Unpack(0, 1, B51 / 2);
    assert Jam(B51, 1) == B51 / 2 by {
      assert Pow2(1) == 2;
    }
    hide Pack, Jam, Sign, Exponent, Mantissa, TwoTo;
    assert AddSpec(a, b) == AddAligned(a, b) by { NormalAligned(a, b); }
    assert AddAligned(a, b) == r by {
      Repack(r);
    }
    Quarters(TwoTo(-1074));
  }

  lemma Quarters(w: real)
    ensures Weighted(0, B51, w) == Weighted(0, B52, w) / 2.0
    ensures Weighted(0, B52 + B51 / 2, w) == Weighted(0, B52, w) + Weighted(0, B51, w) / 2.0
  {
    assert (B52 + B51 / 2) as real == B52 as real + (B51 as real) / 2.0;
  }

  // ----- zeros, infinities and NaNs -----

  /** An infinite or NaN operand is the result, the first one of two; otherwise a zero gives the other operand, and the
      sum of a zero and a finite operand stands for the exact sum. */
  lemma AddSpecials(a: Dword, b: Dword)
    ensures !Finite(a) ==> AddSpec(a, b) == a
    ensures Finite(a) && !Finite(b) ==> AddSpec(a, b) == b
    ensures IsZero(a) ==> AddSpec(a, b) == b
    ensures Finite(a) && !IsZero(a) && IsZero(b) ==> AddSpec(a, b) == a
    ensures Finite(a) && Finite(b) && (IsZero(a) || IsZero(b)) ==> Number(AddSpec(a, b)) == Number(a) + Number(b)
  {
    hide AddAligned, Number;
    if IsZero(a) { ZeroHasNoValue(a); }
    if IsZero(b) { ZeroHasNoValue(b); }
  }

  lemma PathsAreNumbers(m: nat, e: nat, s: nat)
    requires s < 2
    ensures !IsNan(SameSign(m, e, s)) && (m < B53 ==> !IsNan(Cancel(m, e, s)))
  {
    SpecialFields(0);
    var half := m / 2 + m % 2;
    FinishIsNumber(s, e, m % B52);
    FinishIsNumber(s, e + 1, half % B52);
    FinishIsNumber(s, e + 2, half / 2 % B52);
    if 0 < m < B53 {
      LeadShifts(m);
      FinishIsNumber(s, e - Lead(m), m * Pow2(Lead(m)) - B52);
    }
    hide Finish, Pow2, Lead, Zero, IsNan;
  }

  lemma AlignedIsNumber(hi: Dword, lo: Dword)
    requires Exponent(hi) >= Exponent(lo)
    ensures !IsNan(AddAligned(hi, lo))
  {
    hide SameSign, Cancel, Jam, Sign, Exponent, Significand, IsNan;
    var m, j := Significand(hi), Jam(Significand(lo), Exponent(hi) - Exponent(lo));
    JamBound(Significand(lo), Exponent(hi) - Exponent(lo));
    PathsAreNumbers(m + j, Exponent(hi), Sign(hi));
    PathsAreNumbers(if m >= j then m - j else j - m, Exponent(hi), if m >= j then Sign(hi) else Sign(lo));
  }

  /** The result is a NaN exactly when the operand that AddSpecials picks is one. */
  lemma AddNan(a: Dword, b: Dword)
    ensures IsNan(AddSpec(a, b)) <==> IsNan(a) || (Finite(a) && IsNan(b))
  {
    hide AddAligned, Mantissa;
    if Exponent(a) < Exponent(b) {
      AlignedIsNumber(b, a);
    } else {
      AlignedIsNumber(a, b);
    }
  }

  /** Section 7.2 of IEEE 754-2008 makes the sum of two infinities of opposite signs invalid, a NaN; the code returns
      the first infinity there, and also when the second operand is a NaN, and agrees everywhere else. */
  lemma AddNanIff(a: Dword, b: Dword)
    ensures var opposite := IsInfinite(a) && IsInfinite(b) && Sign(a) != Sign(b);
            (IsNan(AddSpec(a, b)) <==> IsNan(a) || IsNan(b) || opposite) <==> !opposite && !(IsInfinite(a) && IsNan(b))
  {
    AddNan(a, b);
    hide AddSpec, Sign;
  }

  /** Section 6.3 of IEEE 754-2008 gives two zeros of opposite signs the sum +0; the code returns the second one, which
      is that exactly unless +0 comes first and -0 second. */
  lemma ZeroSumIff(a: Dword, b: Dword)
    requires IsZero(a) && IsZero(b)
    ensures AddSpec(a, b) == Zero(if Sign(a) == Sign(b) then Sign(a) else 0) <==> !(Sign(a) == 0 && Sign(b) == 1)
  {
    SpecialIsItsSign(b);
    SpecialFields(0);
    SpecialFields(1);
    hide Zero, Sign, Exponent, Mantissa, AddAligned;
    assert AddSpec(a, b) == b;
  }

  // ----- the sticky bit -----

  /** Alignment by up to 63 places is exact or leaves an odd number next to the exact quotient; by more it leaves
      nothing.  No other number fits, so this is all that alignment does. */
  lemma JamRoundsToOdd(m: nat, d: nat, j: nat)
    requires m < B53 && d <= 63
    ensures j == Jam(m, d) <==> m - Pow2(d) < j * Pow2(d) < m + Pow2(d) && (j * Pow2(d) == m || j % 2 == 1)
  {
    hide *;
    JamSteps(m, d);
    NearQuotient(m, Pow2(d), j);
  }

  lemma NearQuotient(m: nat, p: nat, j: nat)
    requires p > 0
    ensures m - p < j * p < m + p && (j * p == m || j % 2 == 1)
            <==> j == if m % p != 0 && m / p % 2 == 0 then m / p + 1 else m / p
  {
    QuotientLe(m, p);
    var q, r := m / p, m % p;
    assert m == q * p + r;
    NearMultiples(m, q, p, r, j);
  }

  lemma JamSteps(m: nat, d: nat)
    requires m < B53 && d <= 63
    ensures Jam(m, d) == if m % Pow2(d) != 0 && m / Pow2(d) % 2 == 0 then m / Pow2(d) + 1 else m / Pow2(d)
  {
    hide Pow2;
  }

  lemma NearMultiples(m: nat, q: nat, p: nat, r: nat, j: nat)
    requires p > 0 && r < p && m == q * p + r
    ensures m - p < j * p < m + p && (j * p == m || j % 2 == 1)
            <==> j == if r != 0 && q % 2 == 0 then q + 1 else q
  {
    MulAtLeast(j - q, p);
    MulAtLeast(q - j, p);
    assert (j - q) * p == j * p - q * p && (q - j) * p == q * p - j * p;
    MulAtLeast(j - q - 1, p);
    assert (j - q - 1) * p == j * p - q * p - p;
    MulAtLeast(q - j - 1, p);
    assert (q - j - 1) * p == q * p - j * p - p;
  }

  /** An operand whose exponent is more than 63 below that of a normal one does not change it. */
  lemma NegligibleOperand(a: Dword, b: Dword)
    requires Normal(a) && Exponent(a) > Exponent(b) + 63
    ensures AddSpec(a, b) == a
  {
    Repack(a);
    NormalAligned(a, b);
    hide Pack, Sign, Exponent, Mantissa, AddSpec;
    LeadDone(Significand(a));
  }

  /** One that is 54 to 63 below it and not zero is shifted out but for the sticky bit, which moves the sum to the next
      significand, up or down; to nearest it would be the larger operand from 55 on. */
  lemma StickyOperand(a: Dword, b: Dword)
    requires Normal(a) && Exponent(b) + 54 <= Exponent(a) <= Exponent(b) + 63 && !IsZero(b)
    requires B52 < Significand(a) < B53 - 1
    ensures AddSpec(a, b) == Pack(Sign(a), Exponent(a), if Sign(a) == Sign(b) then Mantissa(a) + 1 else Mantissa(a) - 1)
  {
    NormalAligned(a, b);
    StickyIsOne(Significand(b), Exponent(a) - Exponent(b));
    assert Significand(b) > 0;
    hide Pack, Sign, Exponent, Jam, AddSpec;
    assert Significand(a) == Mantissa(a) + B52;
    LeadDone(Significand(a) - 1);
    LeadDone(Significand(a) + 1);
  }

  lemma StickyIsOne(m: nat, d: nat)
    requires 0 < m < B53 && 54 <= d <= 63
    ensures Jam(m, d) == 1
  {
    ShiftedOut(m, d);
    Pow2Literals();
    Pow2Mono(53, d);
    JamSteps(m, d);
    hide Pow2, Jam;
    SmallQuotient(m, Pow2(d));
  }

  lemma SmallQuotient(m: nat, p: nat)
    requires m < p
    ensures m / p == 0 && m % p == m
  {
  }
}
