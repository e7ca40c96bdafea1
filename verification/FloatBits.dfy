/** The two float puzzles of datalab-handout/bits.c, against the values binary32
    encodings stand for. */
module FloatBits {
  import opened Arithmetic
  import opened Binary32
  import opened Words
  import Fpu

  const INT_MIN: int := -0x8000_0000

  /** A word read as a C int. */
  function AsInt(w: Word): int {
    if w < 0x8000_0000 then w else w - 0x1_0000_0000
  }

  /** x >> n for an int that is not negative. */
  function ShiftRight(x: nat, n: nat): (r: nat)
    ensures r <= x
  {
    if n == 0 then x else ShiftRight(x, n - 1) / 2
  }

  /** x << n in a 32-bit register. */
  function Shl32(x: Word, n: nat): Word {
    if n == 0 then x else Shl32(x, n - 1) * 2 % 0x1_0000_0000
  }

  // ---------------------------------------------------------------------
  // float_twice
  // ---------------------------------------------------------------------

  function FloatTwice(uf: Word): Word {
    var exp := uf / 0x80_0000 % 0x100;
    var sign := uf / 0x8000_0000 * 0x8000_0000;
    if exp == 0 then uf * 2 % 0x1_0000_0000 + sign
    else if exp == 255 then uf
    else if exp + 1 == 255 then 0x7f80_0000 + sign
    else sign + uf % 0x80_0000 + (exp + 1) * 0x80_0000
  }

  lemma TwiceFields(uf: Word)
    ensures Sign(FloatTwice(uf)) == Sign(uf)
    ensures !Finite(uf) ==> FloatTwice(uf) == uf
    ensures var m, r := MagOf(uf), MagOf(FloatTwice(uf));
            Finite(uf) ==>
              && (ExponentOf(m) == 0 ==> r == 2 * m)
              && (0 < ExponentOf(m) < 254 ==> r == m + 0x80_0000)
              && (ExponentOf(m) == 254 ==> r == INF_MAG)
  {
    assert uf / 0x80_0000 % 0x100 == ExponentOf(MagOf(uf));
    assert uf % 0x80_0000 == FractionOf(MagOf(uf));
  }

  lemma DoubledMagnitude(m: Mag)
    requires m < INF_MAG
    ensures ExponentOf(m) == 0 ==> Magnitude(2 * m) == 2 * Magnitude(m)
    ensures 0 < ExponentOf(m) < 255 ==> m + 0x80_0000 < 0x8000_0000 && Magnitude(m + 0x80_0000) == 2 * Magnitude(m)
  {
    MagnitudeValue(m);
    if ExponentOf(m) == 0 {
      MagnitudeValue(2 * m);
      assert Significand(2 * m) == 2 * m && EffectiveExponent(2 * m) == 1;
    } else {
      var m' := m + 0x80_0000;
      assert ExponentOf(m') == ExponentOf(m) + 1 && FractionOf(m') == FractionOf(m);
      MagnitudeValue(m');
      UnitStep(ExponentOf(m));
    }
  }

  /** Twice the encoded value, across the subnormal boundary too, or the infinity
      of the same sign when that is out of range. */
  lemma TwiceDoubles(uf: Word)
    requires Finite(uf)
    ensures Sign(FloatTwice(uf)) == Sign(uf)
    ensures var x, r := Magnitude(MagOf(uf)), MagOf(FloatTwice(uf));
            if 2 * x < Magnitude(INF_MAG) then r < INF_MAG && Magnitude(r) == 2 * x else r == INF_MAG
  {
    var m := MagOf(uf);
    TwiceFields(uf);
    DoubledMagnitude(m);
    if ExponentOf(m) == 254 {
      TopBinade(m, INF_MAG);
    } else {
      MagnitudeMonotone(MagOf(FloatTwice(uf)), INF_MAG);
    }
  }

  /** The top binade doubles past the largest finite value. */
  lemma TopBinade(m: Mag, inf: Mag)
    requires ExponentOf(m) == 254 && inf == INF_MAG
    ensures 2 * Magnitude(m) >= Magnitude(inf)
  {
    MagnitudeValue(m);
    MagnitudeValue(inf);
    UnitStep(ExponentOf(m));
    assert EffectiveExponent(inf) == ExponentOf(m) + 1 && Significand(inf) == 0x80_0000;
    Larger(Significand(m), Unit(ExponentOf(m)));
  }

  lemma Larger(s: nat, u: nat)
    requires s >= 0x80_0000
    ensures 2 * (8 * s * u) >= 8 * 0x80_0000 * (2 * u)
  {
    assert s * u == 0x80_0000 * u + (s - 0x80_0000) * u;
  }

  /** Doubling is what NEMU's FPU computes for x + x. */
  lemma TwiceIsSum(a: Word, r: Word)
    requires MagOf(a) <= INF_MAG && Fpu.AddResult(a, a, r)
    ensures r == FloatTwice(a)
  {
    TwiceFields(a);
    if Finite(a) {
      var x := Magnitude(MagOf(a));
      var t := MagOf(FloatTwice(a));
      assert Abs(SignedValue(a) + SignedValue(a)) == 2 * x;
      TwiceDoubles(a);
      if t < INF_MAG {
        NearestExact(t);
      } else {
        NearestAboveRange(2 * x, 1);
      }
      NearestUnique(2 * x, 1, MagOf(r), t);
      MagnitudeValue(MagOf(a));
      WordFromParts(r, FloatTwice(a));
    }
  }

  // ---------------------------------------------------------------------
  // float_f2i
  // ---------------------------------------------------------------------

  function FloatF2i(uf: Word): int {
    var sign := uf / 0x8000_0000;
    var exp := uf / 0x80_0000 % 0x100 - 127;
    var frac := uf % 0x80_0000 + 0x80_0000;
    if uf % 0x8000_0000 == 0 then 0
    else if exp > 31 then INT_MIN
    else if exp < 0 then 0
    else
      var shifted := if exp > 23 then AsInt(Shl32(frac, exp - 23)) else ShiftRight(frac, 23 - exp);
      if shifted >= 0 && sign == 0 then shifted
      else if shifted < 0 then INT_MIN
      else -shifted
  }

  /** t is the magnitude with its fraction dropped. */
  ghost predicate Truncates(m: Mag, t: nat) {
    t * One() <= Magnitude(m) < (t + 1) * One()
  }

  lemma {:induction false} ShiftRightParts(x: nat, n: nat) returns (rest: nat)
    ensures rest < ShiftLeft(1, n) && x == ShiftRight(x, n) * ShiftLeft(1, n) + rest
  {
    if n == 0 {
      rest := 0;
    } else {
      var inner := ShiftRightParts(x, n - 1);
      var y, p := ShiftRight(x, n - 1), ShiftLeft(1, n - 1);
      HalfDropped(y / 2, y % 2, p);
      rest := inner + y % 2 * p;
    }
  }

  lemma HalfDropped(h: nat, bit: nat, p: nat)
    requires bit < 2
    ensures (2 * h + bit) * p == h * (2 * p) + bit * p && bit * p <= p
  {
    assert bit == 0 || bit == 1;
  }

  lemma {:induction false} Shl32Exact(x: Word, n: nat)
    requires ShiftLeft(x, n) < 0x1_0000_0000
    ensures Shl32(x, n) == ShiftLeft(x, n)
  {
    if n > 0 {
      Shl32Exact(x, n - 1);
    }
  }

  /** At 2^23 and above the significand is a whole number of ones. */
  lemma TruncatesLarge(m: Mag)
    requires 150 <= ExponentOf(m) < 255
    ensures Truncates(m, ShiftLeft(Significand(m), ExponentOf(m) - 150))
  {
    OneValue();
    LargeParts(m, 127);
    Between(One(), ShiftLeft(Significand(m), ExponentOf(m) - 150), 0, Magnitude(m));
  }

  lemma LargeParts(m: Mag, bias: nat)
    requires 150 <= ExponentOf(m) < 255 && bias == 127
    ensures Magnitude(m) == 0x400_0000 * Unit(bias) * ShiftLeft(Significand(m), ExponentOf(m) - 150)
  {
    var n := ExponentOf(m) - 150;
    var t := ShiftLeft(Significand(m), n);
    MagnitudeValue(m);
    PowerTable();
    UnitAdd(bias, 23);
    UnitAdd(bias + 23, n);
    ShiftTimes(1, n, Significand(m));
    Regroup(8 * Significand(m), ShiftLeft(1, n), Unit(bias), Significand(m), t);
  }

  lemma Between(d: nat, t: nat, rest: nat, x: nat)
    requires rest < d && x == d * t + rest
    ensures t * d <= x < (t + 1) * d
  {
  }

  /** Below that the bits shifted out are less than one. */
  lemma TruncatesSmall(m: Mag)
    requires 127 <= ExponentOf(m) <= 150
    ensures Truncates(m, ShiftRight(Significand(m), 150 - ExponentOf(m)))
  {
    OneValue();
    var rest := SmallParts(m, 127);
    Between(One(), ShiftRight(Significand(m), 150 - ExponentOf(m)), rest, Magnitude(m));
  }

  lemma SmallParts(m: Mag, bias: nat) returns (rest: nat)
    requires 127 <= ExponentOf(m) <= 150 && bias == 127
    ensures var one := 0x400_0000 * Unit(bias);
            rest < one && Magnitude(m) == one * ShiftRight(Significand(m), 150 - ExponentOf(m)) + rest
  {
    var e, n := ExponentOf(m), 150 - ExponentOf(m);
    var q, p := ShiftRight(Significand(m), n), ShiftLeft(1, n);
    var r := ShiftRightParts(Significand(m), n);
    MagnitudeValue(m);
    UnitAcross23(e, n, bias);
    rest := 8 * r * Unit(e);
    Assembled(Significand(m), q, p, r, Unit(e), Unit(bias));
  }

  lemma Assembled(s: nat, q: nat, p: nat, rest: nat, u: nat, w: nat)
    requires s == q * p + rest && rest < p && u > 0 && p * u == 0x80_0000 * w
    ensures 8 * s * u == 0x400_0000 * w * q + 8 * rest * u && 8 * rest * u < 0x400_0000 * w
  {
    Spread(q, p, rest, u);
    assert 8 * (p * u) == 0x400_0000 * w;
  }

  lemma UnitAcross23(e: nat, n: nat, bias: nat)
    requires e + n == 150 && bias == 127
    ensures ShiftLeft(1, n) * Unit(e) == 0x80_0000 * Unit(bias)
  {
    PowerTable();
    UnitAdd(bias, 23);
    UnitAdd(e, n);
  }

  lemma Spread(q: nat, p: nat, rest: nat, u: nat)
    requires rest < p && u > 0
    ensures 8 * (q * p + rest) * u == 8 * (p * u) * q + 8 * rest * u
    ensures 8 * rest * u < 8 * (p * u)
  {
    assert rest * u < p * u;
    assert (q * p + rest) * u == q * p * u + rest * u;
    assert q * p * u == p * u * q;
  }

  lemma Regroup(a: nat, p: nat, u: nat, s: nat, t: nat)
    requires a == 8 * s && p * s == t
    ensures a * (p * (0x80_0000 * u)) == 0x400_0000 * u * t
  {
    calc {
      a * (p * (0x80_0000 * u));
    ==
      8 * s * (p * (0x80_0000 * u));
    ==
      8 * (s * p) * (0x80_0000 * u);
    ==
      8 * t * (0x80_0000 * u);
    ==
      0x400_0000 * u * t;
    }
  }

  lemma PowerTable()
    ensures ShiftLeft(1, 7) == 0x80 && ShiftLeft(1, 8) == 0x100 && ShiftLeft(1, 23) == 0x80_0000
  {
    assert ShiftLeft(1, 12) == 0x1000;
    assert ShiftLeft(1, 16) == 0x1_0000;
    assert ShiftLeft(1, 20) == 0x10_0000;
  }

  /** The int a magnitude truncates to is unique. */
  lemma TruncationUnique(m: Mag, s: nat, t: nat)
    requires Truncates(m, s) && Truncates(m, t)
    ensures s == t
  {
    OneValue();
    SameQuotient(One(), s, t, Magnitude(m));
  }

  lemma SameQuotient(d: nat, s: nat, t: nat, x: nat)
    requires d > 0 && s * d <= x < (s + 1) * d && t * d <= x < (t + 1) * d
    ensures s == t
  {
    DivisionUnique(d, s, x - s * d);
    DivisionUnique(d, t, x - t * d);
  }

  /** A 24-bit significand shifted by up to eight places. */
  lemma ShiftedRange(s: nat, n: nat)
    requires 0x80_0000 <= s < 0x100_0000 && n <= 8
    ensures n == 8 ==> 0x8000_0000 <= ShiftLeft(s, n) < 0x1_0000_0000
    ensures n < 8 ==> ShiftLeft(s, n) < 0x8000_0000
    ensures n == 8 && ShiftLeft(s, n) == 0x8000_0000 ==> s == 0x80_0000
  {
    ShiftTimes(1, n, s);
    ShiftMonotone(n, if n == 8 then 8 else 7);
    PowerTable();
    Bounded(ShiftLeft(1, n), s);
  }

  lemma {:induction false} ShiftMonotone(n: nat, k: nat)
    requires n <= k
    ensures ShiftLeft(1, n) <= ShiftLeft(1, k)
    decreases k - n
  {
    if n < k {
      ShiftMonotone(n, k - 1);
    }
  }

  lemma Bounded(p: nat, s: nat)
    requires 0x80_0000 <= s < 0x100_0000
    ensures p <= 0x80 ==> p * s < 0x8000_0000
    ensures p == 0x100 ==> 0x8000_0000 <= p * s < 0x1_0000_0000
  {
    if p <= 0x80 {
      assert p * s <= 0x80 * s by {
        assert (0x80 - p) * s >= 0;
      }
    }
  }

  /** Below one nothing is left. */
  lemma TruncatesToZero(m: Mag)
    requires ExponentOf(m) < 127
    ensures Truncates(m, 0)
  {
    MagnitudeMonotone(m, 0x3f80_0000);
  }

  /** From 2^32 on no int is near. */
  lemma TruncatesBeyond(m: Mag, t: nat)
    requires 158 < ExponentOf(m) < 255 && Truncates(m, t)
    ensures t > 0x8000_0000
  {
    var n := ExponentOf(m) - 150;
    var s := ShiftLeft(Significand(m), n);
    TruncatesLarge(m);
    TruncationUnique(m, s, t);
    ShiftShift(Significand(m), 8, n - 8);
    ShiftedRange(Significand(m), 8);
    ShiftGrows(ShiftLeft(Significand(m), 8), n - 8);
  }

  /** Every finite magnitude has a truncation. */
  lemma TruncationExists(m: Mag) returns (t: nat)
    requires m < INF_MAG
    ensures Truncates(m, t)
  {
    if ExponentOf(m) < 127 {
      t := 0;
      TruncatesToZero(m);
    } else if ExponentOf(m) <= 150 {
      t := ShiftRight(Significand(m), 150 - ExponentOf(m));
      TruncatesSmall(m);
    } else {
      t := ShiftLeft(Significand(m), ExponentOf(m) - 150);
      TruncatesLarge(m);
    }
  }

  /** Truncation toward zero where an int can hold it, the least int otherwise. */
  lemma F2iTruncates(uf: Word) returns (t: nat)
    requires Finite(uf)
    ensures Truncates(MagOf(uf), t)
    ensures FloatF2i(uf) == if INT_MIN <= WithSign(Sign(uf), t) <= 0x7fff_ffff then WithSign(Sign(uf), t) else INT_MIN
  {
    t := TruncationExists(MagOf(uf));
    F2iOf(uf, t);
  }

  lemma F2iOf(uf: Word, t: nat)
    requires Finite(uf) && Truncates(MagOf(uf), t)
    ensures FloatF2i(uf) == if INT_MIN <= WithSign(Sign(uf), t) <= 0x7fff_ffff then WithSign(Sign(uf), t) else INT_MIN
  {
    var m := MagOf(uf);
    var e := ExponentOf(m);
    F2iFields(uf);
    if e < 127 {
      TruncatesToZero(m);
      TruncationUnique(m, 0, t);
    } else if e <= 150 {
      TruncatesSmall(m);
      TruncationUnique(m, ShiftRight(Significand(m), 150 - e), t);
    } else if e <= 158 {
      ShiftedLeft(uf, t);
    } else {
      TruncatesBeyond(m, t);
    }
  }

  lemma ShiftedLeft(uf: Word, t: nat)
    requires 150 < ExponentOf(MagOf(uf)) <= 158 && Truncates(MagOf(uf), t)
    ensures Shl32(Significand(MagOf(uf)), ExponentOf(MagOf(uf)) - 150) == t < 0x1_0000_0000
    ensures ExponentOf(MagOf(uf)) == 158 <==> t >= 0x8000_0000
  {
    var m := MagOf(uf);
    var n := ExponentOf(m) - 150;
    TruncatesLarge(m);
    TruncationUnique(m, ShiftLeft(Significand(m), n), t);
    ShiftedRange(Significand(m), n);
    Shl32Exact(Significand(m), n);
  }

  lemma F2iFields(uf: Word)
    ensures uf / 0x8000_0000 == Sign(uf) && uf / 0x80_0000 % 0x100 == ExponentOf(MagOf(uf))
    ensures ExponentOf(MagOf(uf)) > 0 ==> uf % 0x80_0000 + 0x80_0000 == Significand(MagOf(uf))
    ensures uf % 0x8000_0000 == 0 ==> ExponentOf(MagOf(uf)) == 0
  {
  }

  /** Infinities and NaNs become the least int. */
  lemma F2iSpecial(uf: Word)
    requires !Finite(uf)
    ensures FloatF2i(uf) == INT_MIN
  {
    F2iFields(uf);
  }
}
