/** Consequences of the rounding theorems of Fpu, and the inputs on which the
    two flaws of fpu.c show. */
module FpuConsequences {
  import opened Binary32
  import opened Fpu
  import opened Words

  predicate Normal(w: Word) { MIN_NORMAL <= MagOf(w) < INF_MAG }

  /** Swapping the operands (fpu.c:194-198) cannot be observed in the sum. */
  lemma AddCommutes(a: Word, b: Word, r: Word, r': Word)
    requires Finite(a) && Finite(b) && AddResult(a, b, r) && AddResult(b, a, r')
    ensures r == r'
  {
    var x, y := SignedValue(a), SignedValue(b);
    assert Abs(x + y) == Abs(y + x);
    NearestUnique(Abs(x + y), 1, MagOf(r), MagOf(r'));
    WordFromParts(r, r');
  }

  /** A sum of finite operands is infinite exactly from half a unit above the
      largest finite number on (section 4.3.1). */
  lemma SumOverflows(a: Word, b: Word, r: Word)
    requires Finite(a) && Finite(b) && AddResult(a, b, r)
    ensures Infinite(r) <==>
              2 * Abs(SignedValue(a) + SignedValue(b)) >= Magnitude(INF_MAG - 1) + Magnitude(INF_MAG)
  {
    OverflowThreshold(Abs(SignedValue(a) + SignedValue(b)), 1, MagOf(r));
  }

  /** a - b and b - a differ in sign only, and a - a is +0. */
  lemma SubAntisymmetric(a: Word, b: Word, r: Word, r': Word)
    requires Finite(a) && Finite(b) && SubResult(a, b, r) && SubResult(b, a, r')
    ensures MagOf(r) == MagOf(r')
    ensures SignedValue(a) != SignedValue(b) ==> r' == FlipSign(r)
    ensures a == b ==> r == P_ZERO
  {
    var x, y := SignedValue(a), SignedValue(b);
    assert Abs(x + -y) == Abs(y + -x);
    NearestUnique(Abs(x - y), 1, MagOf(r), MagOf(r'));
    if x != y {
      WordFromParts(r', FlipSign(r));
    }
    if a == b {
      NearestExact(0);
      MagnitudeEnds();
      NearestUnique(0, 1, MagOf(r), 0);
      WordFromParts(r, P_ZERO);
    }
  }

  /** Two normal operands whose product is not below 2^-126 are multiplied correctly. */
  lemma NormalProductCorrect(a: Word, b: Word, r: Word)
    requires Normal(a) && Normal(b) && MulResult(a, b, r)
    requires ProductOf(a, b) >= Magnitude(MIN_NORMAL) * One()
    ensures Nearest(ProductOf(a, b), One(), MagOf(r)) && Sign(r) == XorSign(a, b)
  {
    NotBelowNormal(ProductOf(a, b), One(), MIN_NORMAL);
    NormalEntersNormal(a, b);
  }

  lemma NormalEntersNormal(a: Word, b: Word)
    requires Normal(a) && Normal(b)
    ensures !EntersAsSubnormal(a, b)
  {
    ProductRange(Significand(MagOf(a)), Significand(MagOf(b)));
  }

  /** A quotient not below 2^-126 is always faithful, even of subnormal operands. */
  lemma QuotientFaithful(a: Word, b: Word, r: Word)
    requires Finite(a) && Finite(b) && !IsZero(a) && !IsZero(b) && DivResult(a, b, r)
    requires QuotientOf(a) >= Magnitude(MIN_NORMAL) * Magnitude(MagOf(b))
    ensures Faithful(QuotientOf(a), Magnitude(MagOf(b)), MagOf(r)) && Sign(r) == XorSign(a, b)
  {
    NotBelowNormal(QuotientOf(a), Magnitude(MagOf(b)), MIN_NORMAL);
  }

  lemma NotBelowNormal(num: nat, den: nat, least: Mag)
    requires least == MIN_NORMAL && num >= Magnitude(least) * den
    ensures !RoundsUpToMinNormal(num, den)
  {
    MagnitudeValue(least);
    assert Magnitude(least) == 0x400_0000 * Unit(EffectiveExponent(least));
  }

  /** Exactly representable quotients are returned exactly. */
  lemma ExactQuotient(a: Word, b: Word, r: Word, m: Mag)
    requires Finite(a) && Finite(b) && !IsZero(a) && !IsZero(b) && DivResult(a, b, r)
    requires MIN_NORMAL <= m < INF_MAG && QuotientOf(a) == Magnitude(m) * Magnitude(MagOf(b))
    ensures MagOf(r) == m
  {
    var den := Magnitude(MagOf(b));
    ZeroOperand(b);
    MagnitudeScaled(MIN_NORMAL, m, den);
    QuotientFaithful(a, b, r);
    if MagOf(r) < m {
      MagnitudeScaled(MagOf(r), m, den);
    } else if m < MagOf(r) {
      MagnitudeScaled(m, MagOf(r), den);
    }
  }

  lemma UnitAcross21(e: int)
    requires e == -20
    ensures Unit(1) == 0x20_0000 * Unit(e)
  {
    UnitAdd(e, 21);
    ShiftShift(1, 16, 5);
    ShiftBy16(1);
    ShiftShift(0x1_0000, 4, 1);
    ShiftBy4(0x1_0000);
    assert ShiftLeft(0x10_0000, 1) == 0x20_0000;
  }

  /** (1 - 2^-24) * 2^-126 lies half way below 2^-126: it should round to even,
      2^-126, and fpu.c returns zero. */
  lemma CarryExample()
    ensures RoundsUpToMinNormal(ProductOf(0x3f7f_ffff, 0x0080_0000), One())
  {
    var a, b: Word := 0x3f7f_ffff, 0x0080_0000;
    ProductRounding(a, b, 0);
    CarryExampleProduct(a, b, -20);
  }

  lemma CarryExampleProduct(a: Word, b: Word, e: int)
    requires a == 0x3f7f_ffff && b == 0x0080_0000 && e == -20
    ensures ExactProduct(a, b) == 0x3ff_fffc * Unit(1)
  {
    UnitAcross21(e);
    assert Significand(MagOf(a)) == 0xff_ffff && Significand(MagOf(b)) == 0x80_0000;
    assert ProductExponent(a, b) == e;
  }

  lemma UnitAcross13(e: int)
    requires e == 113
    ensures Unit(126) == 0x2000 * Unit(e)
  {
    UnitAdd(e, 13);
    ShiftShift(1, 8, 5);
    ShiftBy8(1);
    ShiftShift(0x100, 4, 1);
    ShiftBy4(0x100);
    assert ShiftLeft(0x1000, 1) == 0x2000;
  }

  lemma DividendOfOne(s: nat, k: nat)
    requires s == 0x80_0000 && k == 40
    ensures Dividend(s) == 0x8000_0000_0000_0000 && DividendShift(s) == k
  {
    ShiftShift(s, 32, 8);
    ShiftBy32(s);
    ShiftBy8(0x80_0000_0000_0000);
    DividendShiftBound(s, k);
    DividendValue(s);
    if DividendShift(s) < k {
      ShiftShift(s, DividendShift(s), k - DividendShift(s));
      ShiftGrows(Dividend(s), k - DividendShift(s));
    }
  }

  /** 1 / (2 - 2^-23) is slightly more than half way between 0.5 and its
      successor; the remainder is dropped, the tie goes to even, and fpu.c
      returns 0.5 instead of the successor. */
  lemma DroppedRemainderExample()
    ensures var a, b: Word := 0x3f80_0000, 0x3fff_ffff;
            DroppedRemainder(a, b) != 0 && TieOverEven(TruncatedQuotient(a, b), 1)
  {
    QuotientOnTie(0x3f80_0000, 0x3fff_ffff, 113);
  }

  lemma QuotientOnTie(a: Word, b: Word, e: int)
    requires a == 0x3f80_0000 && b == 0x3fff_ffff && e == 113
    ensures DroppedRemainder(a, b) != 0 && TieOverEven(TruncatedQuotient(a, b), 1)
  {
    QuotientOnTieParts(a, b, e);
    HalfAndNext(0x3f00_0000, e);
    EvenTie(0x3f00_0000, TruncatedQuotient(a, b));
  }

  lemma HalfAndNext(p: Mag, e: int)
    requires p == 0x3f00_0000 && e == 113
    ensures Magnitude(p) + Magnitude(p + 1) == 2 * (0x80_0000_8000 * Unit(e))
  {
    UnitAcross13(e);
    assert Significand(p) == 0x80_0000 && EffectiveExponent(p) == 126;
    MagnitudeValue(p);
    MagnitudeStep(p);
  }

  lemma EvenTie(p: Mag, num: nat)
    requires p < INF_MAG && p % 2 == 0 && Magnitude(p) + Magnitude(p + 1) == 2 * num
    ensures TieOverEven(num, 1)
  {
    assert 2 * num == (Magnitude(p) + Magnitude(p + 1)) * 1;
  }

  lemma QuotientOnTieParts(a: Word, b: Word, e: int)
    requires a == 0x3f80_0000 && b == 0x3fff_ffff && e == 113
    ensures IntegerQuotient(a, b) == 0x80_0000_8000 && DroppedRemainder(a, b) == 0x8000 && QuotientExponent(a, b) == e
  {
    assert NonzeroSignificand(a) == 0x80_0000 && NonzeroSignificand(b) == 0xff_ffff;
    DividendOfOne(0x80_0000, 40);
    assert Divisor(0xff_ffff) == 0xff_ffff && DivisorShift(0xff_ffff) == 0;
  }

  /** (2 - 2^-23) * 2^-126 divided by 2: half a unit below 2^-126, it should round
      to even, 2^-126, and fpu.c returns zero. */
  lemma QuotientCarryExample(a: Word, b: Word)
    requires a == 0x00ff_ffff && b == 0x4000_0000
    ensures RoundsUpToMinNormal(QuotientOf(a), Magnitude(MagOf(b)))
  {
    OneValue();
    QuotientCarryParts(MagOf(a), MagOf(b), 1, 127, One());
    HalfBelow(Unit(1), One());
  }

  lemma QuotientCarryParts(a: Mag, b: Mag, low: int, bias: int, one: nat)
    requires a == 0x00ff_ffff && b == 0x4000_0000
    requires low == 1 && bias == 127 && one == 0x400_0000 * Unit(bias)
    ensures Magnitude(a) == 8 * 0xff_ffff * Unit(low) && Magnitude(b) == 2 * one
  {
    assert Significand(a) == 0xff_ffff && EffectiveExponent(a) == low;
    assert Significand(b) == 0x80_0000 && EffectiveExponent(b) == bias + 1;
    MagnitudeValue(a);
    MagnitudeValue(b);
    UnitStep(bias);
  }

  lemma HalfBelow(u: nat, one: nat)
    requires u > 0 && one > 0
    ensures (0x400_0000 - 4) * u * (2 * one) <= 8 * 0xff_ffff * u * one < 0x400_0000 * u * (2 * one)
  {
    var p := u * one;
    assert p > 0;
    assert (0x400_0000 - 4) * u * (2 * one) == (0x400_0000 - 4) * 2 * p;
    assert 8 * 0xff_ffff * u * one == 8 * 0xff_ffff * p;
    assert 0x400_0000 * u * (2 * one) == 0x400_0000 * 2 * p;
  }

  /** The least subnormal times 2^19: fpu.c returns 2^-129 instead of 2^-130. */
  lemma SubnormalEntryExample()
    ensures EntersAsSubnormal(0x0000_0001, 0x4900_0000)
  {
    assert Significand(1) == 1 && Significand(0x4900_0000) == 0x80_0000;
  }
}
