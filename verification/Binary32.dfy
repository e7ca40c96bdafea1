/** IEEE 754-2008 binary32 as NEMU's FPU encodes it, with an independent
    definition of roundTiesToEven (section 4.3.1) that mentions no algorithm.

    Values are integers: everything is measured in one unit so small that every
    intermediate significand of the FPU (three guard/round/sticky bits below the
    last fraction bit, exponents far below the subnormal range) is a whole number
    of them.  Real value = Magnitude / One(), and a quotient num/den of integers
    stands for an exact, possibly unrepresentable, magnitude.
  */
module Binary32 {
  import opened Words

  /** The non-negative half of the encodings: exponent field and fraction. */
  type Mag = x: int | 0 <= x < 0x8000_0000

  const INF_MAG: Mag := 0x7f80_0000
  const MIN_NORMAL: Mag := 0x0080_0000

  function Sign(w: Word): int { w / 0x8000_0000 }
  function MagOf(w: Word): Mag { w % 0x8000_0000 }

  function ExponentOf(m: Mag): int { m / 0x80_0000 }
  function FractionOf(m: Mag): int { m % 0x80_0000 }

  /** Significand with the hidden bit made explicit. */
  function Significand(m: Mag): (s: nat)
    ensures s < 0x100_0000
    ensures s == 0 <==> m == 0
    ensures s < 0x80_0000 <==> ExponentOf(m) == 0
  {
    if ExponentOf(m) == 0 then FractionOf(m) else FractionOf(m) + 0x80_0000
  }

  /** Subnormals use the exponent of the smallest normals. */
  function EffectiveExponent(m: Mag): int {
    if ExponentOf(m) == 0 then 1 else ExponentOf(m)
  }

  lemma WordFromParts(v: Word, w: Word)
    requires Sign(v) == Sign(w) && MagOf(v) == MagOf(w)
    ensures v == w
  {
  }

  predicate Finite(w: Word) { MagOf(w) < INF_MAG }

  predicate Infinite(w: Word) { MagOf(w) == INF_MAG }

  predicate IsZero(w: Word) { MagOf(w) == 0 }

  ghost function ShiftLeft(s: nat, n: nat): (r: nat)
    ensures s > 0 <==> r > 0
  {
    if n == 0 then s else 2 * ShiftLeft(s, n - 1)
  }

  lemma {:induction false} ShiftTimes(s: nat, n: nat, k: nat)
    ensures ShiftLeft(s, n) * k == ShiftLeft(s * k, n)
  {
    if n != 0 {
      ShiftTimes(s, n - 1, k);
      assert 2 * ShiftLeft(s, n - 1) * k == 2 * (ShiftLeft(s, n - 1) * k);
    }
  }

  lemma {:induction false} ShiftShift(s: nat, n: nat, k: nat)
    ensures ShiftLeft(ShiftLeft(s, n), k) == ShiftLeft(s, n + k)
  {
    if k != 0 {
      ShiftShift(s, n, k - 1);
      assert ShiftLeft(s, n + k) == 2 * ShiftLeft(s, n + k - 1);
    }
  }

  lemma {:induction false} ShiftGrows(s: nat, n: nat)
    ensures ShiftLeft(s, n) >= s
    ensures n > 0 ==> ShiftLeft(s, n) >= 2 * s
  {
    if n > 0 {
      ShiftGrows(s, n - 1);
    }
  }

  lemma ShiftProduct(s: nat, n: nat, t: nat, k: nat)
    ensures ShiftLeft(s, n) * ShiftLeft(t, k) == ShiftLeft(s * t, n + k)
  {
    var x := ShiftLeft(s, n);
    calc {
      x * ShiftLeft(t, k);
    ==
      ShiftLeft(t, k) * x;
    == { ShiftTimes(t, k, x); }
      ShiftLeft(t * x, k);
    == { assert t * x == x * t; ShiftTimes(s, n, t); }
      ShiftLeft(ShiftLeft(s * t, n), k);
    == { ShiftShift(s * t, n, k); }
      ShiftLeft(s * t, n + k);
    }
  }

  /** Weight of the sticky bit (three places below the last fraction bit) in a
      number whose exponent field is e. */
  ghost function Unit(e: int): (u: nat)
    requires e >= -200
    ensures u > 0
  {
    ShiftLeft(1, e + 200)
  }

  lemma UnitStep(e: int)
    requires e >= -200
    ensures Unit(e + 1) == 2 * Unit(e)
  {
  }

  lemma UnitAdd(e: int, k: nat)
    requires e >= -200
    ensures Unit(e + k) == ShiftLeft(1, k) * Unit(e)
  {
    ShiftTimes(1, k, Unit(e));
    ShiftShift(1, e + 200, k);
  }

  lemma UnitMonotone(e: int, f: int)
    requires -200 <= e <= f
    ensures Unit(e) <= Unit(f)
    decreases f - e
  {
    if e < f {
      UnitMonotone(e, f - 1);
      UnitStep(f - 1);
    }
  }

  /** Value of an encoding.  The encoding of infinity is given the value 2^128
      the next binade would start with, which is what makes the overflow
      threshold of section 4.3.1 an ordinary rounding boundary. */
  ghost function Magnitude(m: Mag): nat
  {
    ShiftLeft(8 * Significand(m), EffectiveExponent(m) + 200)
  }

  lemma MagnitudeValue(m: Mag)
    ensures Magnitude(m) == 8 * Significand(m) * Unit(EffectiveExponent(m))
    ensures Magnitude(m) == 0 <==> m == 0
  {
    ShiftTimes(1, EffectiveExponent(m) + 200, 8 * Significand(m));
  }

  /** The value of 1.0. */
  ghost function One(): nat
  {
    Magnitude(0x3f80_0000)
  }

  lemma OneValue()
    ensures One() == 0x400_0000 * Unit(127)
    ensures One() > 0
  {
    MagnitudeValue(0x3f80_0000);
  }

  function WithSign(sign: int, m: int): int { if sign == 1 then -m else m }

  ghost function SignedValue(w: Word): int {
    WithSign(Sign(w), Magnitude(MagOf(w)))
  }

  ghost function Dist(x: int, y: int): nat {
    if x < y then y - x else x - y
  }

  function Abs(x: int): nat { if x < 0 then -x else x }

  /** m is num/den rounded to nearest, ties to even, overflowing to infinity. */
  ghost predicate Nearest(num: nat, den: nat, m: Mag)
  {
    && m <= INF_MAG
    && forall p: Mag | p <= INF_MAG && p != m ::
         || Dist(num, Magnitude(m) * den) < Dist(num, Magnitude(p) * den)
         || (Dist(num, Magnitude(m) * den) == Dist(num, Magnitude(p) * den) && m % 2 == 0)
  }

  /** m is num/den when that is representable, otherwise one of its two neighbours. */
  ghost predicate Faithful(num: nat, den: nat, m: Mag)
  {
    && m <= INF_MAG
    && (|| (Magnitude(m) * den <= num && forall p: Mag | m < p <= INF_MAG :: Magnitude(p) * den > num)
        || (Magnitude(m) * den >= num && forall p: Mag | p < m :: Magnitude(p) * den < num))
  }

  /** num/den lies exactly half way between two neighbours, the lower one even. */
  ghost predicate TieOverEven(num: nat, den: nat)
  {
    exists p: Mag :: p < INF_MAG && p % 2 == 0 && 2 * num == (Magnitude(p) + Magnitude(p + 1)) * den
  }

  /** Magnitudes below 2^-126 that round to 2^-126. */
  ghost predicate RoundsUpToMinNormal(num: nat, den: nat)
  {
    (0x400_0000 - 4) * Unit(1) * den <= num < 0x400_0000 * Unit(1) * den
  }

  /** The result is the rounding of num / den, but zero where that is 2^-126 from below. */
  ghost predicate Emitted(num: nat, den: nat, m: Mag)
  {
    if RoundsUpToMinNormal(num, den) then m == 0 else Nearest(num, den, m)
  }

  lemma SuccessorFields(m: Mag)
    requires m < INF_MAG
    ensures || (EffectiveExponent(m + 1) == EffectiveExponent(m) && Significand(m + 1) == Significand(m) + 1)
            || (EffectiveExponent(m + 1) == EffectiveExponent(m) + 1
                && Significand(m) == 0xff_ffff && Significand(m + 1) == 0x80_0000)
  {
    if FractionOf(m) < 0x7f_ffff {
      assert ExponentOf(m + 1) == ExponentOf(m) && FractionOf(m + 1) == FractionOf(m) + 1;
    } else {
      assert ExponentOf(m + 1) == ExponentOf(m) + 1 && FractionOf(m + 1) == 0;
    }
  }

  lemma MagnitudeStep(m: Mag)
    requires m < INF_MAG
    ensures Magnitude(m + 1) == Magnitude(m) + 8 * Unit(EffectiveExponent(m))
  {
    SuccessorFields(m);
    MagnitudeValue(m);
    MagnitudeValue(m + 1);
    var u := Unit(EffectiveExponent(m));
    if EffectiveExponent(m + 1) == EffectiveExponent(m) {
      NextSignificand(Significand(m), u);
    } else {
      UnitStep(EffectiveExponent(m));
    }
  }

  lemma NextSignificand(s: nat, u: nat)
    ensures 8 * (s + 1) * u == 8 * s * u + 8 * u
  {
  }

  lemma MagnitudeEnds()
    ensures Magnitude(0) == 0 && Magnitude(1) == 8 * Unit(1)
    ensures Magnitude(INF_MAG) == 0x400_0000 * Unit(0xff)
  {
    MagnitudeValue(0);
    MagnitudeValue(1);
    MagnitudeValue(INF_MAG);
  }

  /** Encodings of one sign are ordered as the numbers they denote. */
  lemma {:induction false} MagnitudeMonotone(p: Mag, q: Mag)
    requires p < q <= INF_MAG
    ensures Magnitude(p) < Magnitude(q)
    decreases q - p
  {
    MagnitudeStep(q - 1);
    if p < q - 1 {
      MagnitudeMonotone(p, q - 1);
    }
  }

  lemma ScaledOrder(a: nat, b: nat, k: nat)
    requires k > 0
    ensures a * k < b * k <==> a < b
    ensures a * k == b * k <==> a == b
  {
    if a < b {
      assert b * k == a * k + (b - a) * k;
    } else {
      assert a * k == b * k + (a - b) * k;
    }
  }

  lemma MagnitudeScaled(p: Mag, q: Mag, den: nat)
    requires p <= q <= INF_MAG
    ensures Magnitude(p) * den <= Magnitude(q) * den
    ensures p < q && den > 0 ==> Magnitude(p) * den < Magnitude(q) * den
  {
    if p < q {
      MagnitudeMonotone(p, q);
      if den > 0 {
        ScaledOrder(Magnitude(p), Magnitude(q), den);
      }
    }
  }

  /** Choosing the nearer end (the even one on a tie) of a bracket of two
      neighbouring encodings is rounding to nearest. */
  lemma NearestFromBracket(num: nat, den: nat, lo: Mag, m: Mag)
    requires den > 0 && lo < INF_MAG
    requires Magnitude(lo) * den <= num <= Magnitude(lo + 1) * den
    requires m == lo || m == lo + 1
    requires m == lo ==> 2 * num <= Magnitude(lo) * den + Magnitude(lo + 1) * den
    requires m == lo + 1 ==> 2 * num >= Magnitude(lo) * den + Magnitude(lo + 1) * den
    requires 2 * num == Magnitude(lo) * den + Magnitude(lo + 1) * den ==> m % 2 == 0
    ensures Nearest(num, den, m)
  {
    MagnitudeScaled(lo, lo + 1, den);
    forall p: Mag | p <= INF_MAG && p != m
      ensures || Dist(num, Magnitude(m) * den) < Dist(num, Magnitude(p) * den)
              || (Dist(num, Magnitude(m) * den) == Dist(num, Magnitude(p) * den) && m % 2 == 0)
    {
      if p <= lo {
        MagnitudeScaled(p, lo, den);
      } else {
        MagnitudeScaled(lo + 1, p, den);
      }
    }
  }

  lemma NearestAboveRange(num: nat, den: nat)
    requires den > 0 && num >= Magnitude(INF_MAG) * den
    ensures Nearest(num, den, INF_MAG)
  {
    forall p: Mag | p <= INF_MAG && p != INF_MAG
      ensures Dist(num, Magnitude(INF_MAG) * den) < Dist(num, Magnitude(p) * den)
    {
      MagnitudeScaled(p, INF_MAG, den);
    }
  }

  lemma EqualDistance(x: int, a: int, b: int, c: int)
    requires a < b < c && Dist(x, a) == Dist(x, c)
    ensures Dist(x, b) < Dist(x, a)
  {
  }

  /** Rounding is a function: two different encodings cannot both be nearest. */
  lemma NearestUnique(num: nat, den: nat, m: Mag, n: Mag)
    requires den > 0 && Nearest(num, den, m) && Nearest(num, den, n)
    ensures m == n
  {
    if m < n {
      NoSecondNearest(num, den, m, n);
    } else if n < m {
      NoSecondNearest(num, den, n, m);
    }
  }

  lemma NoSecondNearest(num: nat, den: nat, lo: Mag, hi: Mag)
    requires den > 0 && lo < hi && Nearest(num, den, lo)
    ensures !Nearest(num, den, hi)
  {
    if Nearest(num, den, hi) {
      NearestTie(num, den, lo, hi);
      BetweenIsNearer(num, den, lo, hi);
      assert false;
    }
  }

  lemma NearestTie(num: nat, den: nat, m: Mag, n: Mag)
    requires m != n && Nearest(num, den, m) && Nearest(num, den, n)
    ensures Dist(num, Magnitude(m) * den) == Dist(num, Magnitude(n) * den)
    ensures m % 2 == 0 && n % 2 == 0
  {
  }

  lemma BetweenIsNearer(num: nat, den: nat, lo: Mag, hi: Mag)
    requires den > 0 && lo + 1 < hi <= INF_MAG
    requires Dist(num, Magnitude(lo) * den) == Dist(num, Magnitude(hi) * den)
    ensures Dist(num, Magnitude(lo + 1) * den) < Dist(num, Magnitude(lo) * den)
  {
    MagnitudeScaled(lo, lo + 1, den);
    MagnitudeScaled(lo + 1, hi, den);
    EqualDistance(num, Magnitude(lo) * den, Magnitude(lo + 1) * den, Magnitude(hi) * den);
  }

  lemma NearestIsFaithful(num: nat, den: nat, m: Mag)
    requires den > 0 && Nearest(num, den, m)
    ensures Faithful(num, den, m)
  {
    if Magnitude(m) * den <= num {
      forall p: Mag | m < p <= INF_MAG ensures Magnitude(p) * den > num {
        MagnitudeScaled(m, p, den);
      }
    } else {
      forall p: Mag | p < m ensures Magnitude(p) * den < num {
        MagnitudeScaled(p, m, den);
      }
    }
  }

  lemma FaithfulFromBracket(num: nat, den: nat, lo: Mag, m: Mag)
    requires den > 0 && lo < INF_MAG && (m == lo || m == lo + 1)
    requires Magnitude(lo) * den <= num < Magnitude(lo + 1) * den
    requires m == lo + 1 ==> Magnitude(lo) * den < num
    ensures Faithful(num, den, m)
  {
    if m == lo {
      forall p: Mag | m < p <= INF_MAG ensures Magnitude(p) * den > num {
        MagnitudeScaled(lo + 1, p, den);
      }
    } else {
      forall p: Mag | p < m ensures Magnitude(p) * den < num {
        MagnitudeScaled(p, lo, den);
      }
    }
  }

  /** A value has at most one bracket to be half way in. */
  lemma TieInBracket(t: nat, lo: Mag)
    requires lo < INF_MAG && Magnitude(lo) <= t < Magnitude(lo + 1)
    ensures TieOverEven(t, 1) <==> lo % 2 == 0 && 2 * t == Magnitude(lo) + Magnitude(lo + 1)
  {
    if lo % 2 == 0 && 2 * t == Magnitude(lo) + Magnitude(lo + 1) {
      assert 2 * t == (Magnitude(lo) + Magnitude(lo + 1)) * 1;
    }
    forall p: Mag | p < INF_MAG && p % 2 == 0 && 2 * t == (Magnitude(p) + Magnitude(p + 1)) * 1
      ensures p == lo
    {
      MagnitudeMonotone(p, p + 1);
      if p < lo {
        MagnitudeScaled(p + 1, lo, 1);
      } else if p > lo {
        MagnitudeScaled(lo + 1, p, 1);
      }
    }
  }

  /** IEEE 754-2008 section 4.3.1: infinity exactly from 2^127 * (2 - 2^-24) on,
      which is half way between the largest finite number and 2^128. */
  lemma OverflowThreshold(num: nat, den: nat, m: Mag)
    requires den > 0 && Nearest(num, den, m)
    ensures m == INF_MAG <==> 2 * num >= (Magnitude(INF_MAG - 1) + Magnitude(INF_MAG)) * den
  {
    var max := Magnitude(INF_MAG - 1) * den;
    var inf := Magnitude(INF_MAG) * den;
    MagnitudeScaled(INF_MAG - 1, INF_MAG, den);
    assert (Magnitude(INF_MAG - 1) + Magnitude(INF_MAG)) * den == max + inf;
    if 2 * num >= max + inf {
      if num >= inf {
        NearestAboveRange(num, den);
      } else {
        NearestFromBracket(num, den, INF_MAG - 1, INF_MAG);
      }
      NearestUnique(num, den, m, INF_MAG);
    } else if m == INF_MAG {
      assert false;
    }
  }

  /** Every non-negative quotient below 2^128 sits between two neighbouring encodings. */
  lemma {:induction false} FloorEncoding(num: nat, den: nat, hi: Mag) returns (lo: Mag)
    requires den > 0 && 0 < hi <= INF_MAG && num < Magnitude(hi) * den
    ensures lo < hi && Magnitude(lo) * den <= num < Magnitude(lo + 1) * den
    decreases hi
  {
    if Magnitude(hi - 1) * den <= num {
      lo := hi - 1;
    } else {
      MagnitudeValue(0);
      lo := FloorEncoding(num, den, hi - 1);
    }
  }

  lemma NearestExact(m: Mag)
    requires m < INF_MAG
    ensures Nearest(Magnitude(m), 1, m)
  {
    MagnitudeStep(m);
    NearestFromBracket(Magnitude(m), 1, m, m);
  }

  /** Every encoding is a whole number of the least subnormal. */
  lemma MagnitudeIsMultiple(m: Mag) returns (k: nat)
    ensures Magnitude(m) == k * (8 * Unit(1))
  {
    var e := EffectiveExponent(m);
    MagnitudeValue(m);
    UnitAdd(1, e - 1);
    k := Significand(m) * ShiftLeft(1, e - 1);
    Reordered(Significand(m), ShiftLeft(1, e - 1), Unit(1));
  }

  lemma Reordered(s: nat, p: nat, u: nat)
    ensures 8 * s * (p * u) == s * p * (8 * u)
  {
  }

  lemma DistScaled(x: nat, y: nat, k: nat)
    ensures Dist(x * k, y * k) == Dist(x, y) * k
  {
    if x < y {
      assert y * k == x * k + (y - x) * k;
    } else {
      assert x * k == y * k + (x - y) * k;
    }
  }

  /** Rounding does not depend on how the quotient is written. */
  lemma NearestScaled(num: nat, k: nat, m: Mag)
    requires k > 0
    ensures Nearest(num * k, k, m) <==> Nearest(num, 1, m)
  {
    if m <= INF_MAG {
      forall p: Mag
        ensures Dist(num * k, Magnitude(m) * k) < Dist(num * k, Magnitude(p) * k)
                <==> Dist(num, Magnitude(m)) < Dist(num, Magnitude(p))
        ensures Dist(num * k, Magnitude(m) * k) == Dist(num * k, Magnitude(p) * k)
                <==> Dist(num, Magnitude(m)) == Dist(num, Magnitude(p))
      {
        DistScaled(num, Magnitude(m), k);
        DistScaled(num, Magnitude(p), k);
        ScaledOrder(Dist(num, Magnitude(m)), Dist(num, Magnitude(p)), k);
      }
    }
  }

  lemma RoundsUpScaled(num: nat, k: nat)
    requires k > 0
    ensures RoundsUpToMinNormal(num * k, k) <==> RoundsUpToMinNormal(num, 1)
  {
    ScaledOrder(num, (0x400_0000 - 4) * Unit(1), k);
    ScaledOrder(num, 0x400_0000 * Unit(1), k);
  }
}
