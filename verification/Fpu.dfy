/** NEMU's software binary32 arithmetic (nemu/src/cpu/fpu.c): loops over a
    significand that carries guard, round and sticky bits, proved against the
    algorithm-free rounding of Binary32. */
module Fpu {
  import opened Binary32
  import opened Words

  const P_ZERO: Word := 0
  const N_ZERO: Word := 0x8000_0000
  const P_INF: Word := 0x7f80_0000
  const N_INF: Word := 0xff80_0000
  const P_NAN: Word := 0x7fc0_0000
  const N_NAN: Word := 0xffc0_0000

  // ---------------------------------------------------------------------
  // Sticky significands
  // ---------------------------------------------------------------------

  /** s | 1 */
  function OrOne(s: nat): nat { s - s % 2 + 1 }

  /** Shifting right by one and or-ing the lost bit back into the lowest place. */
  function Jam(s: nat): nat {
    if s % 2 == 1 then OrOne(s / 2) else s / 2
  }

  /** s, in units of w, stands for num: exactly when its low bits (below grain)
      are zero, otherwise num is strictly between the neighbouring multiples of
      the grain. */
  ghost predicate Represents(s: nat, w: nat, num: nat, grain: nat)
    requires grain > 0
  {
    if s % grain == 0 then num == s * w
    else (s - s % grain) * w < num < (s - s % grain + grain) * w
  }

  lemma JamRepresents(s: nat, w: nat, num: nat)
    requires w > 0 && Represents(s, w, num, 2)
    ensures Represents(Jam(s), 2 * w, num, 2)
  {
    var h := s / 2;
    assert s == 2 * h + s % 2;
    assert (2 * h) * w == h * (2 * w);
    assert (2 * h + 2) * w == (h + 1) * (2 * w);
    if s % 2 == 1 {
      if h % 2 == 0 {
        assert Jam(s) == h + 1;
        assert (h + 2) * (2 * w) == (h + 1) * (2 * w) + 2 * w;
      } else {
        assert Jam(s) == h;
        assert (h - 1) * (2 * w) == h * (2 * w) - 2 * w;
      }
    } else if h % 2 == 1 {
      assert (h - 1) * (2 * w) == h * (2 * w) - 2 * w;
      assert (h + 1) * (2 * w) == h * (2 * w) + 2 * w;
    }
  }

  /** One left shift costs one bit of the grain. */
  lemma DoubleRepresents(s: nat, w: nat, num: nat)
    requires Represents(s, 2 * w, num, 2)
    ensures Represents(2 * s, w, num, 4)
  {
    assert (2 * s) * w == s * (2 * w);
    if s % 2 == 1 {
      assert (2 * s - 2) * w == (s - 1) * (2 * w);
      assert (2 * s + 2) * w == (s + 1) * (2 * w);
    }
  }

  lemma CoarserGrain(s: nat, w: nat, num: nat)
    requires w > 0 && Represents(s, w, num, 2)
    ensures Represents(s, w, num, 4)
  {
    var b := s - s % 4;
    if s % 4 == 1 {
      assert (b + 4) * w == (s + 1) * w + 2 * w;
    } else if s % 4 == 2 {
      assert s * w == b * w + 2 * w;
      assert (b + 4) * w == b * w + 4 * w;
    } else if s % 4 == 3 {
      assert (s - 1) * w == b * w + 2 * w;
    }
  }

  lemma ExactRepresents(s: nat, w: nat, grain: nat)
    requires w > 0 && grain > 0
    ensures Represents(s, w, s * w, grain)
  {
    var r := s % grain;
    assert s * w == (s - r) * w + r * w;
    assert (s - r + grain) * w == s * w + (grain - r) * w;
    if r > 0 {
      assert r * w > 0;
      assert (grain - r) * w > 0;
    }
  }

  // ---------------------------------------------------------------------
  // Rounding off the guard, round and sticky bits
  // ---------------------------------------------------------------------

  /** fpu.c:118-131: more than half rounds up, half rounds to even. */
  function RoundIncrement(s: nat): nat {
    if s % 8 > 4 || (s % 8 == 4 && s / 8 % 2 == 1) then 1 else 0
  }

  lemma Regroup(a: nat, b: nat, c: nat)
    ensures a * b * c == a * (b * c)
  {
  }

  lemma EncodingFields(q: nat, e: int) returns (m: Mag)
    requires 1 <= e <= 254 && q < 0x100_0000 && (q >= 0x80_0000 || e == 1)
    ensures m == (e - 1) * 0x80_0000 + q && m < INF_MAG && m % 2 == q % 2
    ensures Significand(m) == q && EffectiveExponent(m) == e
  {
    m := (e - 1) * 0x80_0000 + q;
    if q >= 0x80_0000 {
      assert m == e * 0x80_0000 + (q - 0x80_0000);
      assert ExponentOf(m) == e && FractionOf(m) == q - 0x80_0000;
    } else {
      assert ExponentOf(m) == 0 && FractionOf(m) == q;
    }
  }

  /** The encoding a significand with exponent field e (1 also for subnormals)
      stands for once its three low bits are dropped. */
  lemma TruncatedEncoding(s: nat, e: int) returns (m: Mag)
    requires 1 <= e <= 254 && s < 0x800_0000 && (s >= 0x400_0000 || e == 1)
    ensures m == (e - 1) * 0x80_0000 + s / 8 && m < INF_MAG
    ensures Magnitude(m) == 8 * (s / 8) * Unit(e)
    ensures Magnitude(m + 1) == 8 * (s / 8) * Unit(e) + 8 * Unit(e)
    ensures m % 2 == s / 8 % 2
  {
    m := EncodingFields(s / 8, e);
    MagnitudeValue(m);
    MagnitudeStep(m);
  }

  lemma Distribute(a: nat, b: nat, w: nat)
    ensures (a + b) * w == a * w + b * w
  {
  }

  lemma ScaleMonotone(a: nat, b: nat, w: nat)
    requires a <= b
    ensures a * w <= b * w
    ensures a < b && w > 0 ==> a * w < b * w
  {
    Distribute(a, b - a, w);
    if a < b && w > 0 {
      assert (b - a) * w > 0;
    }
  }

  /** Where num lies between the truncated significand and the next one. */
  lemma RoundBracket(s: nat, w: nat, num: nat)
    requires w > 0 && Represents(s, w, num, 4)
    ensures 8 * (s / 8) * w <= num < 8 * (s / 8) * w + 8 * w
    ensures RoundIncrement(s) == 0 ==> num <= 8 * (s / 8) * w + 4 * w
    ensures RoundIncrement(s) == 1 ==> num >= 8 * (s / 8) * w + 4 * w
    ensures num == 8 * (s / 8) * w + 4 * w <==> s % 8 == 4
    ensures num < 8 * (s / 8) * w + 4 * w <==> s % 8 < 4
  {
    var q := s / 8;
    if s % 8 < 4 {
      assert s - s % 4 == 8 * q;
      RepresentsFrom(s, 8 * q, w, num);
    } else {
      assert s - s % 4 == 8 * q + 4;
      RepresentsFrom(s, 8 * q + 4, w, num);
      Distribute(8 * q, 4, w);
    }
  }

  lemma RepresentsFrom(s: nat, b: nat, w: nat, num: nat)
    requires b == s - s % 4 && w > 0 && Represents(s, w, num, 4)
    ensures b * w <= num < b * w + 4 * w
    ensures num == b * w <==> s % 4 == 0
  {
    Distribute(b, 4, w);
  }

  lemma HalfRoundsToEven(s: nat, lo: int)
    requires s % 8 == 4 && lo % 2 == s / 8 % 2
    ensures (lo + RoundIncrement(s)) % 2 == 0
  {
  }

  /** The truncated significand and its successor bracket num, and the increment
      picks the nearer one. */
  lemma RoundBracketEncoded(s: nat, e: int, num: nat) returns (lo: Mag, u: nat)
    requires 1 <= e <= 254 && s < 0x800_0000 && (s >= 0x400_0000 || e == 1)
    requires Represents(s, Unit(e), num, 4)
    ensures lo == (e - 1) * 0x80_0000 + s / 8 && lo < INF_MAG
    ensures Magnitude(lo + 1) == Magnitude(lo) + 8 * u
    ensures Magnitude(lo) <= num < Magnitude(lo) + 8 * u
    ensures RoundIncrement(s) == 0 ==> num <= Magnitude(lo) + 4 * u
    ensures RoundIncrement(s) == 1 ==> num >= Magnitude(lo) + 4 * u
    ensures num == Magnitude(lo) + 4 * u ==> (lo + RoundIncrement(s)) % 2 == 0
  {
    u := Unit(e);
    lo := TruncatedEncoding(s, e);
    RoundBracket(s, u, num);
    if s % 8 == 4 {
      HalfRoundsToEven(s, lo);
    }
  }

  lemma RoundedIsNearest(s: nat, e: int, num: nat)
    requires 1 <= e <= 254 && s < 0x800_0000 && (s >= 0x400_0000 || e == 1)
    requires Represents(s, Unit(e), num, 4)
    ensures Nearest(num, 1, (e - 1) * 0x80_0000 + s / 8 + RoundIncrement(s))
  {
    var lo, u := RoundBracketEncoded(s, e, num);
    NearestFromBracket(num, 1, lo, lo + RoundIncrement(s));
  }

  lemma WindowBounds(s: nat, w: nat, num: nat)
    requires w > 0 && s < 0x400_0000 && Represents(s, w, num, 4)
    ensures (0x400_0000 - 4) * w <= num < 0x400_0000 * w <==> s / 8 + RoundIncrement(s) == 0x80_0000
  {
    RoundBracket(s, w, num);
    var q := s / 8;
    Distribute(8 * q, 8, w);
    ScaleMonotone(8 * q + 8, 0x400_0000, w);
    if q < 0x7f_ffff {
      ScaleMonotone(8 * q + 8, 0x400_0000 - 8, w);
    }
  }

  /** In the subnormal range the increment carries into 2^-126 exactly for the
      magnitudes in the last half unit below it. */
  lemma CarryIntoMinNormal(s: nat, e: int, num: nat)
    requires 1 <= e <= 254 && s < 0x800_0000 && (s >= 0x400_0000 || e == 1)
    requires Represents(s, Unit(e), num, 4)
    ensures RoundsUpToMinNormal(num, 1) <==> (s < 0x400_0000 && s / 8 + RoundIncrement(s) == 0x80_0000)
  {
    if s < 0x400_0000 {
      WindowBounds(s, Unit(e), num);
    } else {
      NoCarryAbove(s, e, 1, num);
    }
  }

  lemma NoCarryAbove(s: nat, e: int, e1: int, num: nat)
    requires e1 == 1 <= e && s >= 0x400_0000 && Represents(s, Unit(e), num, 4)
    ensures num >= 0x400_0000 * Unit(e1)
  {
    RoundBracket(s, Unit(e), num);
    UnitMonotone(e1, e);
    AboveWindow(8 * (s / 8), Unit(e), Unit(e1), num);
  }

  lemma AboveWindow(t: nat, w: nat, w1: nat, num: nat)
    requires t >= 0x400_0000 && w >= w1 && num >= t * w
    ensures num >= 0x400_0000 * w1
  {
    ScaleMonotone(0x400_0000, t, w);
  }

  // ---------------------------------------------------------------------
  // Normalization (fpu.c:9-146)
  // ---------------------------------------------------------------------

  /** The exponent the code takes an entry pair to have: 0 with no more than the
      hidden bit set is read as the subnormal exponent. */
  function EntryExponent(exp: int, sig: nat): int {
    if exp == 0 && sig < 0x800_0000 then 1 else exp
  }

  function Pack(sign: int, exp: int, sig: nat): (r: Word)
    requires 0 <= sign <= 1
    ensures Sign(r) == sign && MagOf(r) == exp % 0x100 * 0x80_0000 + sig % 0x80_0000
  {
    sign * 0x8000_0000 + exp % 0x100 * 0x80_0000 + sig % 0x80_0000
  }

  lemma JamStep(s: nat, e: int, num: nat)
    requires e >= -200 && Represents(s, Unit(e), num, 2)
    ensures Represents(Jam(s), Unit(e + 1), num, 2)
  {
    UnitStep(e);
    JamRepresents(s, Unit(e), num);
  }

  lemma OverflowBound(s: nat, e: int, num: nat)
    requires e >= 0xff && s >= 0x400_0000 && Represents(s, Unit(e), num, 2)
    ensures num >= 0x400_0000 * Unit(0xff) && num >= 0x400_0000 * Unit(1)
  {
    ScaleMonotone(0x400_0000, s - s % 2, Unit(e));
    UnitMonotone(0xff, e);
    UnitMonotone(1, e);
  }

  lemma OverflowsToInfinity(s: nat, e: int, num: nat)
    requires e >= 0xff && s >= 0x400_0000 && Represents(s, Unit(e), num, 2)
    ensures Nearest(num, 1, INF_MAG) && !RoundsUpToMinNormal(num, 1)
  {
    OverflowBound(s, e, num);
    MagnitudeEnds();
    NearestAboveRange(num, 1);
  }

  lemma TinyBound(s: nat, e: int, num: nat)
    requires -200 <= e < 0 && s <= 4 && Represents(s, Unit(e), num, 2)
    ensures num <= Unit(1)
  {
    UnitMonotone(e, -1);
    UnitStep(-1);
    UnitStep(0);
    ScaleMonotone(s, 4, Unit(e));
    if s % 2 == 1 {
      ScaleMonotone(s + 1, 4, Unit(e));
    }
  }

  lemma UnderflowsToZero(s: nat, e: int, num: nat)
    requires -200 <= e < 0 && s <= 4 && Represents(s, Unit(e), num, 2)
    ensures Nearest(num, 1, 0) && !RoundsUpToMinNormal(num, 1)
  {
    TinyBound(s, e, num);
    TinyRoundsToZero(num);
  }

  lemma TinyRoundsToZero(num: nat)
    requires num <= Unit(1)
    ensures Nearest(num, 1, 0) && !RoundsUpToMinNormal(num, 1)
  {
    TinyIsNearZero(num, 1, 0, 1);
    TinyBelowWindow(num, Unit(1));
  }

  /** The encodings are parameters so that their values are not computed. */
  lemma TinyIsNearZero(num: nat, den: nat, zero: Mag, one: Mag)
    requires zero == 0 && one == 1 && den > 0 && num <= Unit(one) * den
    ensures Nearest(num, den, zero)
  {
    MagnitudeValue(zero);
    MagnitudeValue(one);
    EightUnits(Unit(one), den);
    NearestFromBracket(num, den, zero, zero);
  }

  lemma EightUnits(u: nat, den: nat)
    ensures 8 * 1 * u * den == 8 * (u * den)
  {
  }

  lemma TinyBelowWindow(num: nat, w: nat)
    requires num <= w && w > 0
    ensures num < (0x400_0000 - 4) * w * 1
  {
  }

  /** A pair whose three low bits can be rounded off: a normal significand, or a
      subnormal one with exponent field 0. */
  ghost predicate Normalized(exp: int, sig: nat, num: nat)
  {
    && 0 <= exp <= 0xfe
    && sig < 0x800_0000 && (sig >= 0x400_0000 <==> exp > 0)
    && Represents(sig, Unit(if exp == 0 then 1 else exp), num, 4)
  }

  /** Exponent field 0 means 2^-126 as well: one more shift to the right. */
  lemma SubnormalShift(s: nat, num: nat)
    requires s < 0x800_0000 && Represents(s, Unit(0), num, 2)
    ensures Normalized(0, Jam(s), num)
  {
    JamStep(s, 0, num);
    CoarserGrain(Jam(s), Unit(1), num);
  }

  /** fpu.c:15-77 */
  method NormalizeRight(exp0: int, sig0: nat, ghost num: nat)
    returns (exp: int, sig: nat, overflow: bool)
    requires -200 <= exp0
    requires sig0 >= 0x800_0000 || exp0 < 0
    requires Represents(sig0, Unit(exp0), num, 2)
    ensures !overflow ==> Normalized(exp, sig, num)
    ensures overflow ==> !RoundsUpToMinNormal(num, 1) && (exp == 0 || exp == 0xff) && sig == 0
                         && Nearest(num, 1, exp * 0x80_0000)
  {
    exp, sig, overflow := exp0, sig0, false;
    while (sig >= 0x800_0000 && exp < 0xff) || (sig > 4 && exp < 0)
      invariant exp >= -200
      invariant Represents(sig, Unit(exp), num, 2)
      invariant exp <= 0 || sig >= 0x400_0000
      decreases sig
    {
      JamStep(sig, exp, num);
      sig := Jam(sig);
      exp := exp + 1;
    }
    if exp >= 0xff {
      OverflowsToInfinity(sig, exp, num);
      exp := 0xff;
      sig := 0;
      overflow := true;
    }
    if exp == 0 {
      SubnormalShift(sig, num);
      sig := Jam(sig);
    } else if !overflow && exp > 0 {
      CoarserGrain(sig, Unit(exp), num);
    }
    if exp < 0 {
      UnderflowsToZero(sig, exp, num);
      exp := 0;
      sig := 0;
      overflow := true;
    }
  }

  lemma LeftExact(s: nat, e: int, num: nat)
    requires e >= -199 && num == s * Unit(e)
    ensures num == 2 * s * Unit(e - 1)
  {
    UnitStep(e - 1);
    Regroup(s, 2, Unit(e - 1));
  }

  lemma LeftJammed(s: nat, e: int, num: nat)
    requires e >= -199 && Represents(s, Unit(e), num, 2)
    ensures Represents(2 * s, Unit(e - 1), num, 4)
  {
    UnitStep(e - 1);
    DoubleRepresents(s, Unit(e - 1), num);
  }

  lemma SubnormalHalf(s: nat, num: nat)
    requires s % 2 == 0 && num == s * Unit(0)
    ensures Represents(Jam(s), Unit(1), num, 4)
  {
    UnitStep(0);
    Regroup(s / 2, 2, Unit(0));
    ExactRepresents(s / 2, Unit(1), 4);
  }

  /** fpu.c:78-106 */
  method NormalizeLeft(exp0: int, sig0: nat, ghost num: nat)
    returns (exp: int, sig: nat)
    requires 0 < exp0 < 0xff && sig0 < 0x400_0000
    requires Represents(sig0, Unit(exp0), num, 2)
    requires num == sig0 * Unit(exp0) || (sig0 >= 0x200_0000 && exp0 >= 2)
    ensures Normalized(exp, sig, num)
  {
    exp, sig := exp0, sig0;
    while sig < 0x400_0000 && exp > 0
      invariant ShiftedLeft(exp, sig, exp0, sig0, num)
      decreases exp
    {
      ShiftedLeftStep(exp, sig, exp0, sig0, num);
      sig := 2 * sig;
      exp := exp - 1;
    }
    ShiftedLeftEnd(exp, sig, exp0, sig0, num);
    if exp == 0 {
      sig := Jam(sig);
    }
  }

  /** A jammed significand is shifted at most once, an exact one any number of times. */
  ghost predicate ShiftedLeft(exp: int, sig: nat, exp0: int, sig0: nat, num: nat)
  {
    && 0 <= exp <= exp0 && sig < 0x800_0000 && (exp < exp0 ==> sig % 2 == 0)
    && (|| num == sig * Unit(exp)
        || (sig0 >= 0x200_0000 && exp0 >= 2
            && (|| (exp == exp0 && sig == sig0 && Represents(sig, Unit(exp), num, 2))
                || (exp == exp0 - 1 && sig == 2 * sig0 && Represents(sig, Unit(exp), num, 4)))))
  }

  lemma ShiftedLeftStep(exp: int, sig: nat, exp0: int, sig0: nat, num: nat)
    requires ShiftedLeft(exp, sig, exp0, sig0, num) && sig < 0x400_0000 && exp > 0
    ensures ShiftedLeft(exp - 1, 2 * sig, exp0, sig0, num)
  {
    if num == sig * Unit(exp) {
      LeftExact(sig, exp, num);
    } else {
      LeftJammed(sig, exp, num);
    }
  }

  lemma ShiftedLeftEnd(exp: int, sig: nat, exp0: int, sig0: nat, num: nat)
    requires ShiftedLeft(exp, sig, exp0, sig0, num) && (sig >= 0x400_0000 || exp == 0)
    requires 0 < exp0 < 0xff && sig0 < 0x400_0000
    ensures Normalized(exp, if exp == 0 then Jam(sig) else sig, num)
  {
    if exp == 0 {
      SubnormalHalf(sig, num);
    } else if num == sig * Unit(exp) {
      ExactRepresents(sig, Unit(exp), 4);
    }
  }

  /** The fields emitted after rounding form the rounded encoding, except that
      exponent field 0 is not raised when the fraction overflows into it. */
  lemma EmittedFields(exp: int, q: nat, exp': int, q': nat)
    requires 0 <= exp <= 0xfe && (q >= 0x80_0000 <==> exp > 0 || q == 0x80_0000)
    requires if q == 0x100_0000 then exp' == exp + 1 && q' == 0x80_0000 else q < 0x100_0000 && exp' == exp && q' == q
    ensures exp' % 0x100 * 0x80_0000 + q' % 0x80_0000
            == if exp > 0 then (exp - 1) * 0x80_0000 + q else if q == 0x80_0000 then 0 else q
  {
  }

  /** fpu.c:113-145 */
  method RoundOff(sign: int, exp0: int, sig0: nat, ghost num: nat) returns (r: Word)
    requires 0 <= sign <= 1 && Normalized(exp0, sig0, num)
    ensures Sign(r) == sign
    ensures RoundsUpToMinNormal(num, 1) ==> MagOf(r) == 0
    ensures !RoundsUpToMinNormal(num, 1) ==> Nearest(num, 1, MagOf(r))
  {
    var exp, sig := RoundSignificand(exp0, sig0);
    r := Pack(sign, exp, sig);
    EmittedFields(exp0, sig0 / 8 + RoundIncrement(sig0), exp, sig);
    ghost var e := if exp0 == 0 then 1 else exp0;
    RoundedIsNearest(sig0, e, num);
    CarryIntoMinNormal(sig0, e, num);
  }

  method RoundSignificand(exp0: int, sig0: nat) returns (exp: int, sig: nat)
    requires sig0 < 0x800_0000
    ensures var q := sig0 / 8 + RoundIncrement(sig0);
            if q == 0x100_0000 then exp == exp0 + 1 && sig == 0x80_0000 else q < 0x100_0000 && exp == exp0 && sig == q
  {
    exp, sig := exp0, sig0;
    var temp := sig % 8;
    sig := sig / 8;
    if temp > 4 {
      sig := sig + 1;
      if sig / 0x80_0000 > 1 {
        sig := sig / 2;
        exp := exp + 1;
      }
    } else if temp == 4 {
      if sig % 2 == 1 {
        sig := sig + 1;
      }
      if sig / 0x80_0000 > 1 {
        sig := sig / 2;
        exp := exp + 1;
      }
    }
  }

  lemma PackSpecial(sign: int, exp: int)
    requires 0 <= sign <= 1 && (exp == 0 || exp == 0xff)
    ensures MagOf(Pack(sign, exp, 0)) == exp * 0x80_0000
  {
    if exp == 0 {
      assert exp % 0x100 == 0;
    } else {
      assert exp % 0x100 == 0xff;
    }
  }

  /** internal_normalize. */
  method Normalize(sign: int, exp0: int, sig0: nat, ghost num: nat) returns (r: Word)
    requires 0 <= sign <= 1 && -200 <= exp0
    requires exp0 < 0xff || sig0 >= 0x800_0000
    requires Represents(sig0, Unit(EntryExponent(exp0, sig0)), num, 2)
    requires sig0 < 0x400_0000 && exp0 > 0 ==>
               num == sig0 * Unit(exp0) || (sig0 >= 0x200_0000 && exp0 >= 2)
    ensures Sign(r) == sign
    ensures RoundsUpToMinNormal(num, 1) ==> MagOf(r) == 0
    ensures !RoundsUpToMinNormal(num, 1) ==> Nearest(num, 1, MagOf(r))
  {
    var exp, sig := exp0, sig0;
    var overflow := false;
    if sig / 0x400_0000 > 1 || exp < 0 {
      exp, sig, overflow := NormalizeRight(exp, sig, num);
    } else if sig / 0x400_0000 == 0 && exp > 0 {
      exp, sig := NormalizeLeft(exp, sig, num);
    } else {
      CoarserGrain(sig, Unit(EntryExponent(exp, sig)), num);
      if exp == 0 && sig / 0x400_0000 == 1 {
        exp := exp + 1;
      }
    }
    if !overflow {
      r := RoundOff(sign, exp, sig, num);
    } else {
      r := Pack(sign, exp, sig);
      PackSpecial(sign, exp);
    }
  }

  // ---------------------------------------------------------------------
  // Corner-case tables
  // ---------------------------------------------------------------------

  datatype Rule = Rule(a: Word, b: Word, res: Word)

  datatype Option<+T> = None | Some(value: T)

  /** The table loops at the head of every operation: the first rule that matches. */
  method LookUp(rules: seq<Rule>, a: Word, b: Word) returns (res: Option<Word>)
    ensures res == None ==> forall k :: 0 <= k < |rules| ==> rules[k].a != a || rules[k].b != b
    ensures res.Some? ==>
              exists k :: 0 <= k < |rules| && rules[k] == Rule(a, b, res.value)
                          && forall j :: 0 <= j < k ==> rules[j].a != a || rules[j].b != b
  {
    for i := 0 to |rules|
      invariant forall k :: 0 <= k < i ==> rules[k].a != a || rules[k].b != b
    {
      if a == rules[i].a && b == rules[i].b {
        return Some(rules[i].res);
      }
    }
    return None;
  }

  const CORNER_ADD: seq<Rule> := [
    Rule(P_ZERO, P_ZERO, P_ZERO),
    Rule(N_ZERO, P_ZERO, P_ZERO),
    Rule(P_ZERO, N_ZERO, P_ZERO),
    Rule(N_ZERO, N_ZERO, N_ZERO),
    Rule(P_INF, N_INF, N_NAN),
    Rule(N_INF, P_INF, N_NAN),
    Rule(P_INF, P_NAN, P_NAN),
    Rule(P_INF, N_NAN, N_NAN),
    Rule(N_INF, P_NAN, P_NAN),
    Rule(N_INF, N_NAN, N_NAN),
    Rule(N_NAN, P_NAN, P_NAN)
  ]

  // ---------------------------------------------------------------------
  // Addition (fpu.c:163-259)
  // ---------------------------------------------------------------------

  /** r is the correctly rounded sum x + y with the sign rules of section 6.3. */
  ghost predicate CorrectSum(x: int, y: int, bothNegative: bool, r: Word)
  {
    && Nearest(Abs(x + y), 1, MagOf(r))
    && (x + y > 0 ==> Sign(r) == 0)
    && (x + y < 0 ==> Sign(r) == 1)
    && (x + y == 0 ==> Sign(r) == if bothNegative then 1 else 0)
  }

  lemma HalveExact(s: nat, e: int, num: nat)
    requires e >= -200 && s % 2 == 0 && num == s * Unit(e)
    ensures num == s / 2 * Unit(e + 1)
  {
    UnitStep(e);
    Regroup(s / 2, 2, Unit(e));
  }

  /** The operand after k alignment shifts: still exact while only the three
      zero low bits are lost, and small once more than that is. */
  ghost predicate Aligned(sig: nat, k: nat, sig0: nat, e: int, num: nat)
    requires e >= 1
  {
    && Represents(sig, Unit(e + k), num, 2)
    && sig < 0x800_0000 && (k >= 4 ==> sig <= 0x80_0000)
    && (k == 0 ==> sig == 8 * sig0)
    && (k == 1 ==> sig == 4 * sig0)
    && (k == 2 ==> sig == 2 * sig0)
    && (k == 3 ==> sig == sig0)
    && (k <= 3 ==> num == sig * Unit(e + k))
  }

  lemma AlignedStep(sig: nat, k: nat, sig0: nat, e: int, num: nat)
    requires e >= 1 && sig0 < 0x100_0000 && Aligned(sig, k, sig0, e, num)
    ensures Aligned(Jam(sig), k + 1, sig0, e, num)
  {
    JamStep(sig, e + k, num);
    if k < 3 {
      HalveExact(sig, e + k, num);
    }
  }

  /** The alignment loop (fpu.c:226-233). */
  method Align(sig0: nat, shift0: nat, ghost e: int, ghost num: nat) returns (sig: nat)
    requires sig0 < 0x100_0000 && e >= 1 && num == 8 * sig0 * Unit(e)
    ensures Aligned(sig, shift0, sig0, e, num)
  {
    sig := sig0 * 8;
    var shift, sticky := shift0, 0;
    ExactRepresents(sig, Unit(e), 2);
    while shift > 0
      invariant 0 <= shift <= shift0
      invariant sticky == 0 || (sticky == 1 && sig % 2 == 1)
      invariant Aligned(sig, shift0 - shift, sig0, e, num)
    {
      AlignedStep(sig, shift0 - shift, sig0, e, num);
      sig, sticky := JamOnce(sig, sticky);
      shift := shift - 1;
    }
  }

  /** One shift of the alignment loop. */
  method JamOnce(sig0: nat, sticky0: nat) returns (sig: nat, sticky: nat)
    requires sticky0 == 0 || (sticky0 == 1 && sig0 % 2 == 1)
    ensures sig == Jam(sig0) && (sticky == 0 || (sticky == 1 && sig % 2 == 1))
  {
    sticky := if sticky0 == 1 || sig0 % 2 == 1 then 1 else 0;
    sig := sig0 / 2;
    if sticky == 1 {
      sig := OrOne(sig);
    }
  }

  /** Adding to, or subtracting from, an exact even significand keeps the
      sticky bit meaningful, and decides the sign correctly. */
  ghost predicate Combined(s: nat, t: nat, w: nat, x: nat, y: nat)
  {
    && Represents(s + t, w, x + y, 2)
    && (s <= t ==> x <= y && Represents(t - s, w, y - x, 2))
    && (t <= s ==> y <= x && Represents(s - t, w, x - y, 2))
    && (s == t <==> x == y)
  }

  lemma Combine(s: nat, t: nat, w: nat, x: nat, y: nat)
    requires w > 0 && t % 2 == 0 && y == t * w && Represents(s, w, x, 2)
    ensures Combined(s, t, w, x, y)
  {
    if s % 2 == 0 {
      CombineExact(s, t, w, x, y);
    } else if s < t {
      CombineUnder(s, t, w, x, y);
    } else {
      CombineOver(s, t, w, x, y);
    }
  }

  lemma CombineExact(s: nat, t: nat, w: nat, x: nat, y: nat)
    requires w > 0 && y == t * w && x == s * w
    ensures x + y == (s + t) * w && Dist(x, y) == Dist(s, t) * w && (s <= t <==> x <= y)
    ensures s % 2 == 0 && t % 2 == 0 ==> Combined(s, t, w, x, y)
  {
    SumAndDistance(s, t, w);
    ScaledOrder(s, t, w);
    ExactRepresents(s + t, w, 2);
    ExactRepresents(Dist(s, t), w, 2);
  }

  lemma SumAndDistance(s: nat, t: nat, w: nat)
    ensures s * w + t * w == (s + t) * w && Dist(s * w, t * w) == Dist(s, t) * w
  {
    Distribute(s, t, w);
    DistScaled(s, t, w);
  }

  lemma CombineUnder(s: nat, t: nat, w: nat, x: nat, y: nat)
    requires w > 0 && s % 2 == 1 && t % 2 == 0 && s < t && y == t * w
    requires (s - 1) * w < x < (s + 1) * w
    ensures Combined(s, t, w, x, y)
  {
    Distribute(s - 1, t, w);
    Distribute(s + 1, t, w);
    Distribute(s - 1, t - s + 1, w);
    Distribute(s + 1, t - s - 1, w);
    OddSums(s, t);
    UnequalValues(s, t, w, x, y);
  }

  lemma OddSums(s: nat, t: nat)
    requires s % 2 == 1 && t % 2 == 0
    ensures (s + t) % 2 == 1
    ensures s <= t ==> (t - s) % 2 == 1
    ensures t <= s ==> (s - t) % 2 == 1
  {
  }

  lemma UnequalValues(s: nat, t: nat, w: nat, x: nat, y: nat)
    requires w > 0 && s > 0 && s != t && y == t * w && (s - 1) * w < x < (s + 1) * w
    ensures s < t ==> x < y
    ensures t < s ==> y < x
  {
    if s < t {
      ScaleMonotone(s + 1, t, w);
    } else {
      ScaleMonotone(t, s - 1, w);
    }
  }

  lemma CombineOver(s: nat, t: nat, w: nat, x: nat, y: nat)
    requires w > 0 && s % 2 == 1 && t % 2 == 0 && t < s && y == t * w
    requires (s - 1) * w < x < (s + 1) * w
    ensures Combined(s, t, w, x, y)
  {
    Distribute(s - 1, t, w);
    Distribute(s + 1, t, w);
    Distribute(t, s - 1 - t, w);
    Distribute(t, s + 1 - t, w);
    OddSums(s, t);
    UnequalValues(s, t, w, x, y);
  }

  function Negate32(x: Word): Word { Wrap(0x1_0000_0000 - x) }

  lemma WrapSmall(x: int)
    requires -0x8000_0000 < x < 0x8000_0000
    ensures Wrap(x) == if x < 0 then x + 0x1_0000_0000 else x
    ensures x < 0 ==> Negate32(Wrap(x)) == -x
    ensures x >= 0 ==> Negate32(x) == Wrap(-x)
  {
  }

  lemma WrapSum(x: int, y: int)
    ensures Wrap(Wrap(x) + Wrap(y)) == Wrap(x + y)
  {
    var m := 0x1_0000_0000;
    assert x == m * (x / m) + Wrap(x) && y == m * (y / m) + Wrap(y);
    assert x + y == m * (x / m + y / m) + (Wrap(x) + Wrap(y));
  }

  /** Signed addition of two significands in 32-bit two's complement (fpu.c:235-255). */
  method AddSigned(signA: int, sigA0: nat, signB: int, sigB0: nat) returns (sign: int, sum: nat)
    requires 0 <= signA <= 1 && 0 <= signB <= 1
    requires sigA0 < 0x800_0000 && sigB0 < 0x800_0000
    ensures signA == signB ==> sum == sigA0 + sigB0 && sign == (if sum == 0 then 0 else signA)
    ensures signA != signB && sigA0 <= sigB0 ==> sum == sigB0 - sigA0 && sign == (if sum == 0 then 0 else signB)
    ensures signA != signB && sigB0 <= sigA0 ==> sum == sigA0 - sigB0 && sign == (if sum == 0 then 0 else signA)
  {
    var sigA, sigB := sigA0, sigB0;
    ghost var v := WithSign(signA, sigA0) + WithSign(signB, sigB0);
    WrapSmall(sigA0);
    WrapSmall(sigB0);
    if signA == 1 {
      sigA := Negate32(sigA);
    }
    if signB == 1 {
      sigB := Negate32(sigB);
    }
    sum := Wrap(sigA + sigB);
    assert sum == Wrap(v) by {
      WrapSum(WithSign(signA, sigA0), WithSign(signB, sigB0));
    }
    WrapSmall(v);
    if sum >= 0x8000_0000 {
      sign := 1;
      sum := Negate32(sum);
    } else {
      sign := 0;
    }
  }

  /** A sum of two encodings never falls in the last half unit below 2^-126. */
  lemma SumAvoidsCarry(m: Mag, n: Mag)
    ensures !RoundsUpToMinNormal(Magnitude(m) + Magnitude(n), 1)
    ensures !RoundsUpToMinNormal(Dist(Magnitude(m), Magnitude(n)), 1)
  {
    var j := MagnitudeIsMultiple(m);
    var k := MagnitudeIsMultiple(n);
    MultipleAvoidsCarry(j + k);
    MultipleAvoidsCarry(if j < k then k - j else j - k);
    CombineExact(j, k, 8 * Unit(1), Magnitude(m), Magnitude(n));
  }

  lemma MultipleAvoidsCarry(k: nat)
    ensures !RoundsUpToMinNormal(k * (8 * Unit(1)), 1)
  {
    var u := Unit(1);
    Regroup(k, 8, u);
    if k >= 0x80_0000 {
      ScaleMonotone(0x400_0000, 8 * k, u);
    } else {
      ScaleMonotone(8 * k + 8, 0x400_0000, u);
      Distribute(8 * k, 8, u);
      Distribute(0x400_0000 - 8, 4, u);
      Distribute(0x400_0000 - 8, 8, u);
    }
  }

  /** The fraction with the hidden bit or-ed in, as at fpu.c:201-206, 331-336 and 405-410. */
  method SignificandOf(f: Word) returns (sig: nat)
    ensures sig == Significand(MagOf(f)) && sig < 0x100_0000
    ensures ExponentOf(MagOf(f)) == 0 <==> sig < 0x80_0000
    ensures !IsZero(f) ==> sig > 0
  {
    sig := FractionOf(MagOf(f));
    if ExponentOf(MagOf(f)) != 0 {
      sig := sig + 0x80_0000;
    }
  }

  /** fpu.c:216-221 */
  method AlignmentShift(fa: Word, fb: Word) returns (shift: nat)
    requires ExponentOf(MagOf(fa)) <= ExponentOf(MagOf(fb))
    ensures EffectiveExponent(MagOf(fa)) + shift == EffectiveExponent(MagOf(fb))
  {
    var expA, expB := ExponentOf(MagOf(fa)), ExponentOf(MagOf(fb));
    if expA != 0 && expB != 0 {
      shift := expB - expA;
    } else {
      shift := (if expB == 0 then expB + 1 else expB) - (if expA == 0 then expA + 1 else expA);
    }
  }

  /** Significands with room for guard, round and sticky bits, aligned to the
      larger exponent (fpu.c:200-233). */
  method AlignOperands(fa: Word, fb: Word) returns (sigA: nat, sigB: nat)
    requires Finite(fa) && Finite(fb) && !IsZero(fb)
    requires ExponentOf(MagOf(fa)) <= ExponentOf(MagOf(fb))
    ensures var w := Unit(EffectiveExponent(MagOf(fb)));
            && Represents(sigA, w, Magnitude(MagOf(fa)), 2) && sigA < 0x800_0000
            && Magnitude(MagOf(fb)) == sigB * w && 0 < sigB < 0x800_0000 && sigB % 2 == 0
            && (Magnitude(MagOf(fa)) == sigA * w
                || (sigA <= 0x80_0000 && sigB >= 0x400_0000 && EffectiveExponent(MagOf(fb)) >= 2))
    ensures ExponentOf(MagOf(fb)) == 0 ==> sigA < 0x400_0000 && sigB < 0x400_0000
  {
    sigA := SignificandOf(fa);
    sigB := SignificandOf(fb);
    var shift := AlignmentShift(fa, fb);
    MagnitudeValue(MagOf(fa));
    MagnitudeValue(MagOf(fb));
    EightFold(sigB, Unit(EffectiveExponent(MagOf(fb))));
    sigA := Align(sigA, shift, EffectiveExponent(MagOf(fa)), Magnitude(MagOf(fa)));
    sigB := sigB * 8;
  }

  lemma EightFold(s: nat, w: nat)
    ensures 8 * s * w == (s * 8) * w && s * 8 % 2 == 0
  {
  }

  lemma SumSign(signA: int, s: nat, signB: int, t: nat, x: nat, y: nat, sign: int, sum: nat)
    requires 0 <= signA <= 1 && 0 <= signB <= 1 && t > 0 && y > 0
    requires signA != signB ==> (t >= s ==> y >= x) && (s >= t ==> x >= y) && (s == t <==> x == y)
    requires sum == if signA == signB then s + t else Dist(s, t)
    requires sign == if sum == 0 then 0 else if signA == signB then signA else if s <= t then signB else signA
    ensures var v := WithSign(signA, x) + WithSign(signB, y);
            v == WithSign(sign, Abs(v)) && (v == 0 ==> sign == 0)
  {
  }

  /** What the signed sum of aligned significands stands for. */
  lemma SignedCombine(signA: int, s: nat, signB: int, t: nat, w: nat, x: nat, y: nat, sign: int, sum: nat)
      returns (num: nat)
    requires 0 <= signA <= 1 && 0 <= signB <= 1
    requires w > 0 && t > 0 && t % 2 == 0 && y == t * w && Represents(s, w, x, 2)
    requires sum == if signA == signB then s + t else Dist(s, t)
    requires sign == if sum == 0 then 0 else if signA == signB then signA else if s <= t then signB else signA
    ensures num == Abs(WithSign(signA, x) + WithSign(signB, y)) && Represents(sum, w, num, 2)
    ensures num == if signA == signB then x + y else Dist(x, y)
    ensures x == s * w ==> num == sum * w
    ensures WithSign(signA, x) + WithSign(signB, y) == WithSign(sign, num) && (num == 0 ==> sign == 0)
  {
    Combine(s, t, w, x, y);
    if x == s * w {
      CombineExact(s, t, w, x, y);
    }
    num := if signA == signB then x + y else Dist(x, y);
    SumSign(signA, s, signB, t, x, y, sign, sum);
  }

  /** Alignment and signed addition of operands whose exponent fields are in
      order (fpu.c:200-255). */
  method AlignedSum(fa: Word, fb: Word) returns (sign: int, sum: nat, ghost num: nat)
    requires Finite(fa) && Finite(fb) && !IsZero(fa) && !IsZero(fb)
    requires ExponentOf(MagOf(fa)) <= ExponentOf(MagOf(fb))
    ensures num == Abs(SignedValue(fa) + SignedValue(fb)) && !RoundsUpToMinNormal(num, 1)
    ensures SignedValue(fa) + SignedValue(fb) == WithSign(sign, num) && 0 <= sign <= 1 && (num == 0 ==> sign == 0)
    ensures var e := EffectiveExponent(MagOf(fb));
            && sum < 0x1000_0000 && Represents(sum, Unit(e), num, 2)
            && (ExponentOf(MagOf(fb)) == 0 ==> sum < 0x800_0000)
            && (num == sum * Unit(e) || (sum >= 0x200_0000 && e >= 2))
  {
    var sigA, sigB := AlignOperands(fa, fb);
    sign, sum := AddSigned(Sign(fa), sigA, Sign(fb), sigB);
    num := AlignedValue(fa, fb, sigA, sigB, sign, sum);
  }

  lemma AlignedValue(fa: Word, fb: Word, sigA: nat, sigB: nat, sign: int, sum: nat) returns (num: nat)
    requires Finite(fa) && Finite(fb) && !IsZero(fa) && !IsZero(fb) && sigB > 0 && sigB % 2 == 0
    requires Represents(sigA, Unit(EffectiveExponent(MagOf(fb))), Magnitude(MagOf(fa)), 2)
    requires Magnitude(MagOf(fb)) == sigB * Unit(EffectiveExponent(MagOf(fb)))
    requires sum == if Sign(fa) == Sign(fb) then sigA + sigB else Dist(sigA, sigB)
    requires sign == if sum == 0 then 0 else if Sign(fa) == Sign(fb) then Sign(fa)
                     else if sigA <= sigB then Sign(fb) else Sign(fa)
    ensures num == Abs(SignedValue(fa) + SignedValue(fb)) && !RoundsUpToMinNormal(num, 1)
    ensures SignedValue(fa) + SignedValue(fb) == WithSign(sign, num) && (num == 0 ==> sign == 0)
    ensures Represents(sum, Unit(EffectiveExponent(MagOf(fb))), num, 2)
    ensures Magnitude(MagOf(fa)) == sigA * Unit(EffectiveExponent(MagOf(fb))) ==>
              num == sum * Unit(EffectiveExponent(MagOf(fb)))
  {
    num := SignedCombine(Sign(fa), sigA, Sign(fb), sigB, Unit(EffectiveExponent(MagOf(fb))),
                         Magnitude(MagOf(fa)), Magnitude(MagOf(fb)), sign, sum);
    SumAvoidsCarry(MagOf(fa), MagOf(fb));
  }

  /** fpu.c:200-258 */
  method AddOrdered(fa: Word, fb: Word) returns (r: Word)
    requires Finite(fa) && Finite(fb) && !IsZero(fa) && !IsZero(fb)
    requires ExponentOf(MagOf(fa)) <= ExponentOf(MagOf(fb))
    ensures CorrectSum(SignedValue(fa), SignedValue(fb), false, r)
  {
    var sign, sum, num := AlignedSum(fa, fb);
    r := Normalize(sign, ExponentOf(MagOf(fb)), sum, num);
  }

  lemma ZeroEncodings(w: Word)
    ensures IsZero(w) <==> w == P_ZERO || w == N_ZERO
  {
  }

  lemma ZeroOperand(w: Word)
    ensures IsZero(w) <==> w == P_ZERO || w == N_ZERO
    ensures IsZero(w) <==> Magnitude(MagOf(w)) == 0
  {
    ZeroEncodings(w);
    MagnitudeValue(MagOf(w));
  }

  /** What IEEE 754 asks of a + b, NaN operands aside. */
  ghost predicate AddResult(a: Word, b: Word, r: Word)
  {
    && (Finite(a) && Finite(b) ==> CorrectSum(SignedValue(a), SignedValue(b), Sign(a) == 1 && Sign(b) == 1, r))
    && (Infinite(a) && Finite(b) ==> r == a)
    && (Finite(a) && Infinite(b) ==> r == b)
    && (Infinite(a) && Infinite(b) ==> r == if a == b then a else N_NAN)
  }

  lemma SumWithZero(w: Word, zero: Word)
    requires !IsZero(w) && IsZero(zero)
    ensures AddResult(w, zero, w) && AddResult(zero, w, w)
  {
    ZeroOperand(w);
    ZeroOperand(zero);
    if Finite(w) {
      NearestExact(MagOf(w));
    }
  }

  lemma SumOfZeros(a: Word, b: Word, r: Word)
    requires IsZero(a) && IsZero(b) && IsZero(r)
    requires Sign(r) == if Sign(a) == 1 && Sign(b) == 1 then 1 else 0
    ensures AddResult(a, b, r)
  {
    NearestExact(0);
    ZeroOperand(a);
    ZeroOperand(b);
  }

  lemma CornerAddSound()
    ensures forall k :: 0 <= k < |CORNER_ADD| ==> AddResult(CORNER_ADD[k].a, CORNER_ADD[k].b, CORNER_ADD[k].res)
  {
    forall k | 0 <= k < |CORNER_ADD|
      ensures AddResult(CORNER_ADD[k].a, CORNER_ADD[k].b, CORNER_ADD[k].res)
    {
      var rule := CORNER_ADD[k];
      if k < 4 {
        SumOfZeros(rule.a, rule.b, rule.res);
      } else {
        assert !Finite(rule.a) && !Finite(rule.b);
      }
    }
  }

  lemma CornerAddCovers(a: Word, b: Word)
    requires (IsZero(a) && IsZero(b)) || (Infinite(a) && Infinite(b) && a != b)
    ensures exists k :: 0 <= k < |CORNER_ADD| && CORNER_ADD[k].a == a && CORNER_ADD[k].b == b
  {
    assert CORNER_ADD[0] == Rule(P_ZERO, P_ZERO, P_ZERO);
    assert CORNER_ADD[1] == Rule(N_ZERO, P_ZERO, P_ZERO);
    assert CORNER_ADD[2] == Rule(P_ZERO, N_ZERO, P_ZERO);
    assert CORNER_ADD[3] == Rule(N_ZERO, N_ZERO, N_ZERO);
    assert CORNER_ADD[4] == Rule(P_INF, N_INF, N_NAN);
    assert CORNER_ADD[5] == Rule(N_INF, P_INF, N_NAN);
  }

  /** a + b. */
  method FloatAdd(b: Word, a: Word) returns (r: Word)
    ensures AddResult(a, b, r)
  {
    var corner := LookUp(CORNER_ADD, a, b);
    if corner.Some? {
      CornerAddSound();
      return corner.value;
    }
    if (IsZero(a) && IsZero(b)) || (Infinite(a) && Infinite(b) && a != b) {
      CornerAddCovers(a, b);
      assert false;
    }
    if a == P_ZERO || a == N_ZERO {
      SumWithZero(b, a);
      return b;
    }
    if b == P_ZERO || b == N_ZERO {
      SumWithZero(a, b);
      return a;
    }
    if ExponentOf(MagOf(a)) == 0xff {
      return a;
    }
    if ExponentOf(MagOf(b)) == 0xff {
      return b;
    }
    var fa, fb := a, b;
    if ExponentOf(MagOf(fa)) > ExponentOf(MagOf(fb)) {
      fa, fb := b, a;
    }
    r := AddOrdered(fa, fb);
    ZeroOperand(a);
    ZeroOperand(b);
  }

  // ---------------------------------------------------------------------
  // Subtraction (fpu.c:273-290)
  // ---------------------------------------------------------------------

  const CORNER_SUB: seq<Rule> := [
    Rule(P_ZERO, P_ZERO, P_ZERO),
    Rule(N_ZERO, P_ZERO, N_ZERO),
    Rule(P_ZERO, N_ZERO, P_ZERO),
    Rule(N_ZERO, N_ZERO, P_ZERO),
    Rule(P_NAN, P_NAN, P_NAN),
    Rule(N_NAN, P_NAN, P_NAN),
    Rule(P_NAN, N_NAN, P_NAN),
    Rule(N_NAN, N_NAN, N_NAN)
  ]

  /** The encoding with its sign bit complemented. */
  function FlipSign(w: Word): (r: Word)
    ensures MagOf(r) == MagOf(w) && Sign(r) == 1 - Sign(w)
  {
    if w >= 0x8000_0000 then w - 0x8000_0000 else w + 0x8000_0000
  }

  /** What IEEE 754 asks of a - b, NaN operands aside. */
  ghost predicate SubResult(a: Word, b: Word, r: Word)
  {
    && (Finite(a) && Finite(b) ==> CorrectSum(SignedValue(a), -SignedValue(b), Sign(a) == 1 && Sign(b) == 0, r))
    && (Infinite(a) && Finite(b) ==> r == a)
    && (Finite(a) && Infinite(b) ==> r == FlipSign(b))
    && (Infinite(a) && Infinite(b) ==> r == if a != b then a else N_NAN)
  }

  lemma SubIsAddOfFlipped(a: Word, b: Word, r: Word)
    requires AddResult(a, FlipSign(b), r)
    ensures SubResult(a, b, r)
  {
    FlippedParts(b);
    FlippedValue(b);
    if Infinite(a) && Infinite(b) {
      assert a == FlipSign(b) <==> a != b by {
        FlippedInfinity(a, b);
      }
    }
  }

  lemma FlippedValue(w: Word)
    ensures SignedValue(FlipSign(w)) == -SignedValue(w)
  {
    FlippedParts(w);
  }

  lemma FlippedInfinity(a: Word, b: Word)
    requires Infinite(a) && Infinite(b)
    ensures a == FlipSign(b) <==> a != b
  {
  }

  lemma FlippedParts(w: Word)
    ensures MagOf(FlipSign(w)) == MagOf(w) && Sign(FlipSign(w)) == 1 - Sign(w)
  {
  }

  lemma CornerSubSound()
    ensures forall k :: 0 <= k < |CORNER_SUB| ==> SubResult(CORNER_SUB[k].a, CORNER_SUB[k].b, CORNER_SUB[k].res)
  {
    forall k | 0 <= k < |CORNER_SUB|
      ensures SubResult(CORNER_SUB[k].a, CORNER_SUB[k].b, CORNER_SUB[k].res)
    {
      var rule := CORNER_SUB[k];
      if k < 4 {
        SumOfZeros(rule.a, FlipSign(rule.b), rule.res);
        SubIsAddOfFlipped(rule.a, rule.b, rule.res);
      } else {
        assert MagOf(rule.a) > INF_MAG && MagOf(rule.b) > INF_MAG;
      }
    }
  }

  /** a - b. */
  method FloatSub(b: Word, a: Word) returns (r: Word)
    ensures SubResult(a, b, r)
  {
    var corner := LookUp(CORNER_SUB, a, b);
    if corner.Some? {
      CornerSubSound();
      return corner.value;
    }
    if a == P_NAN || a == N_NAN {
      return a;
    }
    if b == P_NAN || b == N_NAN {
      return b;
    }
    r := FloatAdd(FlipSign(b), a);
    SubIsAddOfFlipped(a, b, r);
  }

  // ---------------------------------------------------------------------
  // Multiplication (fpu.c:304-351)
  // ---------------------------------------------------------------------

  const CORNER_MUL: seq<Rule> := [
    Rule(P_ZERO, P_INF, N_NAN),
    Rule(P_ZERO, N_INF, N_NAN),
    Rule(N_ZERO, P_INF, N_NAN),
    Rule(N_ZERO, N_INF, N_NAN),
    Rule(P_INF, P_ZERO, N_NAN),
    Rule(P_INF, N_ZERO, N_NAN),
    Rule(N_INF, P_ZERO, N_NAN),
    Rule(N_INF, N_ZERO, N_NAN)
  ]

  function XorSign(a: Word, b: Word): (s: int)
    ensures 0 <= s <= 1 && (s == 0 <==> Sign(a) == Sign(b))
  {
    if Sign(a) == Sign(b) then 0 else 1
  }

  function SignificandProduct(a: Word, b: Word): (p: nat)
    ensures p < 0x1_0000_0000_0000
    ensures !IsZero(a) && !IsZero(b) ==> p > 0
  {
    var s, t := Significand(MagOf(a)), Significand(MagOf(b));
    ProductRange(s, t);
    s * t
  }

  lemma ProductRange(s: nat, t: nat)
    requires s < 0x100_0000 && t < 0x100_0000
    ensures 0 <= s * t < 0x1_0000_0000_0000
    ensures 0 < s && 0 < t ==> 0 < s * t
    ensures 0 < s && 0 < t && (s >= 0x80_0000 || t >= 0x80_0000) ==> s * t >= 0x80_0000
    ensures s >= 0x80_0000 && t >= 0x80_0000 ==> s * t >= 0x4000_0000_0000
  {
    ScaleMonotone(s, 0xff_ffff, t);
    if 0 < s && 0 < t {
      ScaleMonotone(1, s, t);
      if s >= 0x80_0000 {
        ScaleMonotone(0x80_0000, s, t);
      }
      if t >= 0x80_0000 {
        ScaleMonotone(0x80_0000, t, s);
      }
    }
  }

  /** The numerator of |a * b| over One(). */
  ghost function ProductOf(a: Word, b: Word): nat
  {
    Magnitude(MagOf(a)) * Magnitude(MagOf(b))
  }

  /** fpu.c:338-349 */
  function ProductExponent(a: Word, b: Word): int {
    EffectiveExponent(MagOf(a)) + EffectiveExponent(MagOf(b)) - 127 - 20
  }

  /** The entry pairs internal_normalize misreads: exponent 0 with a product that
      needs no right shift is taken for exponent 1, which doubles the value. */
  predicate EntersAsSubnormal(a: Word, b: Word)
  {
    && !IsZero(a) && !IsZero(b)
    && ProductExponent(a, b) == 0 && SignificandProduct(a, b) < 0x800_0000
  }

  /** The shift amounts are parameters so that they are not computed with. */
  lemma OneShift(n: nat, k: nat)
    requires n == 347 && k == 20
    ensures One() == ShiftLeft(64, n)
  {
    OneSignificand(k);
    ShiftShift(64, k, 327);
  }

  lemma OneSignificand(k: nat)
    requires k == 20
    ensures 8 * Significand(0x3f80_0000) == ShiftLeft(64, k) && EffectiveExponent(0x3f80_0000) == 127
  {
    ShiftShift(64, 10, 10);
  }

  lemma EightTimesEight(s: nat, t: nat)
    ensures 8 * s * (8 * t) == s * t * 64
  {
  }

  /** The product significand, at the exponent the code computes, is exact. */
  lemma ProductExact(a: Word, b: Word)
    ensures ProductOf(a, b) == ExactProduct(a, b) * One()
  {
    var s, t := Significand(MagOf(a)), Significand(MagOf(b));
    var na, nb := EffectiveExponent(MagOf(a)) + 200, EffectiveExponent(MagOf(b)) + 200;
    ProductShift(s, na, t, nb, ProductExponent(a, b) + 200, 347);
    OneShift(347, 20);
  }

  lemma ProductShift(s: nat, na: nat, t: nat, nb: nat, n: nat, k: nat)
    requires n + k == na + nb
    ensures ShiftLeft(8 * s, na) * ShiftLeft(8 * t, nb) == s * t * ShiftLeft(1, n) * ShiftLeft(64, k)
  {
    ShiftProduct(8 * s, na, 8 * t, nb);
    EightTimesEight(s, t);
    ShiftTimes(1, n, s * t);
    ShiftProduct(s * t, n, 64, k);
  }

  lemma CarryIsFarFromZero(num: nat, den: nat)
    requires den > 0 && RoundsUpToMinNormal(num, den)
    ensures Magnitude(0) == 0 && 0 < 2 * (Magnitude(1) * den) <= num
  {
    MagnitudeEnds();
    Regroup(0x400_0000 - 4, Unit(1), den);
    Regroup(8, Unit(1), den);
    ScaleMonotone(1, Unit(1), den);
    ScaleMonotone(16, 0x400_0000 - 4, Unit(1) * den);
  }

  /** Zero is not even faithful to a magnitude that should round to 2^-126. */
  lemma CarryIsNotZero(num: nat, den: nat)
    requires den > 0 && RoundsUpToMinNormal(num, den)
    ensures !Nearest(num, den, 0) && !Faithful(num, den, 0)
  {
    CarryIsFarFromZero(num, den);
    var one := Magnitude(1) * den;
    assert Magnitude(0) * den == 0;
    assert Dist(num, one) < Dist(num, 0);
  }

  /** Reading a product as twice its value is always wrong, rounding included. */
  lemma DoubledIsWrong(s: nat, num: nat, m: Mag)
    requires 0x80_0000 <= s < 0x800_0000 && 2 * num == s * Unit(1)
    requires m == 0 || Nearest(2 * num, 1, m)
    ensures !Nearest(num, 1, m)
  {
    var far, near := s / 8, s / 16;
    SmallMagnitude(far);
    SmallMagnitude(near);
    DoubledBrackets(s, num, Unit(1));
    DoubledIsFar(num, Unit(1), far, near, m);
  }

  lemma DoubledBrackets(s: nat, num: nat, w: nat)
    requires 0x80_0000 <= s && 2 * num == s * w && w > 0
    ensures num >= 0x40_0000 * w
    ensures 8 * (s / 8) * w <= 2 * num < 8 * (s / 8) * w + 8 * w
    ensures 8 * (s / 16) * w <= num < 8 * (s / 16) * w + 8 * w
  {
    FloorMultiple(s, 8, w);
    FloorMultiple(s, 16, w);
    Regroup(2, 8 * (s / 16), w);
    ScaleMonotone(0x80_0000, s, w);
  }

  lemma FloorMultiple(s: nat, k: nat, w: nat)
    requires k > 0
    ensures k * (s / k) * w <= s * w
    ensures w > 0 ==> s * w < k * (s / k) * w + k * w
  {
    Distribute(k * (s / k), s % k, w);
    ScaleMonotone(s % k, k, w);
  }

  lemma DoubledIsFar(num: nat, w: nat, far: Mag, near: Mag, m: Mag)
    requires w > 0 && num >= 0x40_0000 * w && far <= INF_MAG && near <= INF_MAG
    requires Magnitude(far) <= 2 * num < Magnitude(far) + 8 * w
    requires Magnitude(near) <= num < Magnitude(near) + 8 * w
    requires m == 0 || Nearest(2 * num, 1, m)
    ensures !Nearest(num, 1, m)
  {
    var dm, dn := Magnitude(m) * 1, Magnitude(near) * 1;
    if m == 0 {
      MagnitudeEnds();
    } else {
      assert Dist(2 * num, dm) <= Dist(2 * num, Magnitude(far) * 1);
    }
    assert Dist(num, dm) > Dist(num, dn);
  }

  lemma SmallMagnitude(k: nat)
    requires k < 0x100_0000
    ensures Magnitude(k) == 8 * k * Unit(1)
  {
    assert Significand(k) == k && EffectiveExponent(k) == 1;
    MagnitudeValue(k);
  }

  /** The value that internal_normalize takes the product for. */
  ghost function ReadProduct(a: Word, b: Word): nat {
    if EntersAsSubnormal(a, b) then 2 * ProductOf(a, b) else ProductOf(a, b)
  }

  /** What IEEE 754 asks of a * b, NaN operands aside, where the code gives it, and
      what it gives elsewhere. */
  ghost predicate MulResult(a: Word, b: Word, r: Word)
  {
    && (Finite(a) && Finite(b) ==>
          && Sign(r) == XorSign(a, b)
          && (Nearest(ProductOf(a, b), One(), MagOf(r))
              <==> !EntersAsSubnormal(a, b) && !RoundsUpToMinNormal(ProductOf(a, b), One()))
          && Emitted(ReadProduct(a, b), One(), MagOf(r)))
    && (Infinite(a) && (Infinite(b) || (Finite(b) && !IsZero(b))) ==> r == if XorSign(a, b) == 1 then N_INF else P_INF)
    && (Infinite(b) && Finite(a) && !IsZero(a) ==> r == if XorSign(a, b) == 1 then N_INF else P_INF)
    && ((Infinite(a) && IsZero(b)) || (IsZero(a) && Infinite(b)) ==> r == N_NAN)
  }

  lemma NearestZero(den: nat)
    requires den > 0
    ensures Nearest(0, den, 0) && !RoundsUpToMinNormal(0, den)
  {
    TinyIsNearZero(0, den, 0, 1);
    ScaleMonotone(1, (0x400_0000 - 4) * Unit(1), den);
  }

  lemma ZeroTimes(x: nat, y: nat)
    ensures x == 0 || y == 0 ==> x * y == 0
  {
  }

  lemma ProductOfZero(a: Word, b: Word)
    requires IsZero(a) || IsZero(b)
    ensures Nearest(ProductOf(a, b), One(), 0) && !RoundsUpToMinNormal(ProductOf(a, b), One())
    ensures !EntersAsSubnormal(a, b)
  {
    MagnitudeEnds();
    ZeroTimes(Magnitude(MagOf(a)), Magnitude(MagOf(b)));
    OneValue();
    NearestZero(One());
  }

  lemma CornerMulCovers(a: Word, b: Word)
    requires (Infinite(a) && IsZero(b)) || (IsZero(a) && Infinite(b))
    ensures exists k :: 0 <= k < |CORNER_MUL| && CORNER_MUL[k].a == a && CORNER_MUL[k].b == b
  {
    assert CORNER_MUL[0] == Rule(P_ZERO, P_INF, N_NAN);
    assert CORNER_MUL[1] == Rule(P_ZERO, N_INF, N_NAN);
    assert CORNER_MUL[2] == Rule(N_ZERO, P_INF, N_NAN);
    assert CORNER_MUL[3] == Rule(N_ZERO, N_INF, N_NAN);
    assert CORNER_MUL[4] == Rule(P_INF, P_ZERO, N_NAN);
    assert CORNER_MUL[5] == Rule(P_INF, N_ZERO, N_NAN);
    assert CORNER_MUL[6] == Rule(N_INF, P_ZERO, N_NAN);
    assert CORNER_MUL[7] == Rule(N_INF, N_ZERO, N_NAN);
  }

  lemma CornerMulSound()
    ensures forall k :: 0 <= k < |CORNER_MUL| ==> MulResult(CORNER_MUL[k].a, CORNER_MUL[k].b, CORNER_MUL[k].res)
  {
    forall k | 0 <= k < |CORNER_MUL|
      ensures MulResult(CORNER_MUL[k].a, CORNER_MUL[k].b, CORNER_MUL[k].res)
    {
      var rule := CORNER_MUL[k];
      assert (IsZero(rule.a) && Infinite(rule.b)) || (Infinite(rule.a) && IsZero(rule.b));
      assert rule.res == N_NAN;
    }
  }

  lemma MulByZero(a: Word, b: Word, r: Word)
    requires IsZero(a) || IsZero(b)
    requires !Infinite(a) && !Infinite(b)
    requires r == if XorSign(a, b) == 1 then N_ZERO else P_ZERO
    ensures MulResult(a, b, r)
  {
    ProductOfZero(a, b);
    assert MagOf(r) == 0;
  }

  lemma MulByInfinity(a: Word, b: Word, r: Word)
    requires Infinite(a) || Infinite(b)
    requires !IsZero(a) && !IsZero(b)
    requires r == if XorSign(a, b) == 1 then N_INF else P_INF
    ensures MulResult(a, b, r)
  {
  }

  lemma InfiniteEncodings(w: Word)
    ensures Infinite(w) <==> w == P_INF || w == N_INF
  {
  }

  /** a * b. */
  method FloatMul(b: Word, a: Word) returns (r: Word)
    ensures MulResult(a, b, r)
  {
    var corner := LookUp(CORNER_MUL, a, b);
    if corner.Some? {
      CornerMulSound();
      return corner.value;
    }
    if (Infinite(a) && IsZero(b)) || (IsZero(a) && Infinite(b)) {
      CornerMulCovers(a, b);
      assert false;
    }
    if a == P_NAN || a == N_NAN || b == P_NAN || b == N_NAN {
      assert MagOf(a) > INF_MAG || MagOf(b) > INF_MAG;
      return if a == P_NAN || b == P_NAN then P_NAN else N_NAN;
    }
    ZeroOperand(a);
    ZeroOperand(b);
    if a == P_ZERO || a == N_ZERO || b == P_ZERO || b == N_ZERO {
      r := if XorSign(a, b) == 1 then N_ZERO else P_ZERO;
      MulByZero(a, b, r);
      return;
    }
    InfiniteEncodings(a);
    InfiniteEncodings(b);
    if a == P_INF || a == N_INF || b == P_INF || b == N_INF {
      r := if XorSign(a, b) == 1 then N_INF else P_INF;
      MulByInfinity(a, b, r);
      return;
    }
    r := MulNonzero(a, b);
  }

  /** fpu.c:330-349 */
  method MulSignificands(a: Word, b: Word) returns (expRes: int, sigRes: nat)
    ensures expRes == ProductExponent(a, b) && sigRes == SignificandProduct(a, b)
  {
    var sigA := SignificandOf(a);
    var sigB := SignificandOf(b);
    var expA, expB := ExponentOf(MagOf(a)), ExponentOf(MagOf(b));
    if expA == 0 {
      expA := expA + 1;
    }
    if expB == 0 {
      expB := expB + 1;
    }
    ProductRange(sigA, sigB);
    sigRes := sigA * sigB;
    expRes := expA + expB - 127 - 20;
  }

  lemma ProductEntry(a: Word, b: Word)
    requires !IsZero(a) && !IsZero(b)
    ensures ProductExponent(a, b) >= -145 && SignificandProduct(a, b) > 0
    ensures ProductExponent(a, b) >= 0 ==> SignificandProduct(a, b) >= 0x80_0000
    ensures ProductExponent(a, b) >= 0xff ==> SignificandProduct(a, b) >= 0x800_0000
  {
    ProductRange(Significand(MagOf(a)), Significand(MagOf(b)));
  }

  method MulNonzero(a: Word, b: Word) returns (r: Word)
    requires !IsZero(a) && !IsZero(b)
    ensures Sign(r) == XorSign(a, b)
    ensures Nearest(ProductOf(a, b), One(), MagOf(r))
            <==> !EntersAsSubnormal(a, b) && !RoundsUpToMinNormal(ProductOf(a, b), One())
    ensures Emitted(ReadProduct(a, b), One(), MagOf(r))
  {
    var exp, sig := MulSignificands(a, b);
    ProductEntry(a, b);
    r := MulNormalize(XorSign(a, b), exp, sig, ExactProduct(a, b));
    ProductRounding(a, b, MagOf(r));
    DoubledProduct(a, b, MagOf(r));
  }

  lemma DoubledProduct(a: Word, b: Word, m: Mag)
    ensures Emitted(2 * ProductOf(a, b), One(), m) <==> Emitted(2 * ExactProduct(a, b), 1, m)
  {
    ProductExact(a, b);
    OneValue();
    TwiceProduct(ExactProduct(a, b), One());
    NearestScaled(2 * ExactProduct(a, b), One(), m);
    RoundsUpScaled(2 * ExactProduct(a, b), One());
  }

  lemma TwiceProduct(x: nat, y: nat)
    ensures 2 * (x * y) == 2 * x * y
  {
  }

  ghost function ExactProduct(a: Word, b: Word): nat {
    SignificandProduct(a, b) * Unit(ProductExponent(a, b))
  }

  lemma ProductRounding(a: Word, b: Word, m: Mag)
    ensures Nearest(ProductOf(a, b), One(), m) <==> Nearest(ExactProduct(a, b), 1, m)
    ensures RoundsUpToMinNormal(ProductOf(a, b), One()) <==> RoundsUpToMinNormal(ExactProduct(a, b), 1)
  {
    ProductExact(a, b);
    OneValue();
    NearestScaled(ExactProduct(a, b), One(), m);
    RoundsUpScaled(ExactProduct(a, b), One());
  }

  /** The call of internal_normalize on an exact product. */
  method MulNormalize(sign: int, exp: int, sig: nat, ghost num: nat) returns (r: Word)
    requires 0 <= sign <= 1 && exp >= -145 && 0 < sig < 0x1_0000_0000_0000
    requires exp >= 0 ==> sig >= 0x80_0000
    requires exp >= 0xff ==> sig >= 0x800_0000
    requires num == sig * Unit(exp)
    ensures Sign(r) == sign
    ensures Nearest(num, 1, MagOf(r)) <==> !(exp == 0 && sig < 0x800_0000) && !RoundsUpToMinNormal(num, 1)
    ensures Emitted(if exp == 0 && sig < 0x800_0000 then 2 * num else num, 1, MagOf(r))
  {
    if exp == 0 && sig < 0x800_0000 {
      HalveExact(2 * sig, 0, 2 * num);
      ExactRepresents(sig, Unit(1), 2);
      r := Normalize(sign, exp, sig, 2 * num);
      DoubledIsWrong(sig, num, MagOf(r));
    } else {
      ExactRepresents(sig, Unit(exp), 2);
      r := Normalize(sign, exp, sig, num);
      if RoundsUpToMinNormal(num, 1) {
        CarryIsNotZero(num, 1);
      }
    }
  }

  // ---------------------------------------------------------------------
  // Division (fpu.c:368-433)
  // ---------------------------------------------------------------------

  const CORNER_DIV: seq<Rule> := [
    Rule(P_ZERO, P_ZERO, N_NAN),
    Rule(N_ZERO, P_ZERO, N_NAN),
    Rule(P_ZERO, N_ZERO, N_NAN),
    Rule(N_ZERO, N_ZERO, N_NAN),
    Rule(P_INF, P_ZERO, P_INF),
    Rule(N_INF, P_ZERO, N_INF),
    Rule(P_INF, N_ZERO, N_INF),
    Rule(N_INF, N_ZERO, P_INF),
    Rule(P_INF, P_INF, N_NAN),
    Rule(N_INF, P_INF, N_NAN),
    Rule(P_INF, N_INF, N_NAN),
    Rule(N_INF, N_INF, N_NAN)
  ]

  /** How far the dividend's significand is shifted to fill 64 bits. */
  function DividendShift(s: nat): nat
    requires 0 < s < 0x1_0000_0000_0000_0000
    decreases 0x1_0000_0000_0000_0000 - s
  {
    if s >= 0x8000_0000_0000_0000 then 0 else 1 + DividendShift(2 * s)
  }

  function Dividend(s: nat): nat
    requires 0 < s < 0x1_0000_0000_0000_0000
    decreases 0x1_0000_0000_0000_0000 - s
  {
    if s >= 0x8000_0000_0000_0000 then s else Dividend(2 * s)
  }

  /** How many trailing zeros the divisor's significand loses. */
  function DivisorShift(s: nat): nat
    requires s > 0
  {
    if s % 2 == 1 then 0 else 1 + DivisorShift(s / 2)
  }

  function Divisor(s: nat): (d: nat)
    requires s > 0
    ensures 0 < d <= s
  {
    if s % 2 == 1 then s else Divisor(s / 2)
  }

  lemma {:induction false} DividendValue(s: nat)
    requires 0 < s < 0x1_0000_0000_0000_0000
    ensures Dividend(s) == ShiftLeft(s, DividendShift(s))
    ensures 0x8000_0000_0000_0000 <= Dividend(s) < 0x1_0000_0000_0000_0000
    decreases 0x1_0000_0000_0000_0000 - s
  {
    if s < 0x8000_0000_0000_0000 {
      DividendValue(2 * s);
      ShiftShift(s, 1, DividendShift(2 * s));
      assert ShiftLeft(s, 1) == 2 * s;
    }
  }

  lemma {:induction false} DividendShiftBound(s: nat, k: nat)
    requires 0 < s < 0x1_0000_0000_0000_0000 && ShiftLeft(s, k) >= 0x8000_0000_0000_0000
    ensures DividendShift(s) <= k
    decreases k
  {
    if s < 0x8000_0000_0000_0000 {
      ShiftShift(s, 1, k - 1);
      assert ShiftLeft(s, 1) == 2 * s;
      DividendShiftBound(2 * s, k - 1);
    }
  }

  lemma DividendShiftAtMost63(s: nat, k: nat)
    requires 0 < s < 0x1_0000_0000_0000_0000 && k == 63
    ensures DividendShift(s) <= k
  {
    ShiftTimes(1, k, s);
    PowerOf63(k);
    ScaleMonotone(1, s, 0x8000_0000_0000_0000);
    assert 1 * s == s && ShiftLeft(s, k) >= 0x8000_0000_0000_0000;
    DividendShiftBound(s, k);
  }

  lemma PowerOf63(k: nat)
    requires k == 63
    ensures ShiftLeft(1, k) == 0x8000_0000_0000_0000
  {
    ShiftBy32(1);
    ShiftShift(1, 32, 31);
    ShiftBy16(0x1_0000_0000);
    ShiftShift(0x1_0000_0000, 16, 15);
    ShiftBy8(0x1_0000_0000_0000);
    ShiftShift(0x1_0000_0000_0000, 8, 7);
    ShiftBy4(0x100_0000_0000_0000);
    ShiftShift(0x100_0000_0000_0000, 4, 3);
    assert ShiftLeft(0x1000_0000_0000_0000, 1) == 0x2000_0000_0000_0000;
    assert ShiftLeft(0x1000_0000_0000_0000, 3) == 4 * ShiftLeft(0x1000_0000_0000_0000, 1);
  }

  lemma ShiftBy4(x: nat)
    ensures ShiftLeft(x, 4) == 16 * x
  {
    assert ShiftLeft(x, 1) == 2 * x;
    assert ShiftLeft(x, 2) == 4 * x;
    assert ShiftLeft(x, 3) == 8 * x;
  }

  lemma ShiftBy8(x: nat)
    ensures ShiftLeft(x, 8) == 0x100 * x
  {
    ShiftShift(x, 4, 4);
    ShiftBy4(x);
    ShiftBy4(16 * x);
  }

  lemma ShiftBy16(x: nat)
    ensures ShiftLeft(x, 16) == 0x1_0000 * x
  {
    ShiftShift(x, 8, 8);
    ShiftBy8(x);
    ShiftBy8(0x100 * x);
  }

  lemma ShiftBy32(x: nat)
    ensures ShiftLeft(x, 32) == 0x1_0000_0000 * x
  {
    ShiftShift(x, 16, 16);
    ShiftBy16(x);
    ShiftBy16(0x1_0000 * x);
  }

  lemma {:induction false} DivisorValue(s: nat)
    requires s > 0
    ensures s == ShiftLeft(Divisor(s), DivisorShift(s)) && Divisor(s) % 2 == 1
  {
    if s % 2 == 0 {
      DivisorValue(s / 2);
    }
  }

  lemma {:induction false} DivisorShiftBound(s: nat, k: nat)
    requires 0 < s < ShiftLeft(1, k)
    ensures DivisorShift(s) < k
  {
    if s % 2 == 0 {
      DivisorShiftBound(s / 2, k - 1);
    }
  }

  function NonzeroSignificand(w: Word): (s: nat)
    requires !IsZero(w)
    ensures 0 < s < 0x100_0000
  {
    Significand(MagOf(w))
  }

  /** The exponent handed to internal_normalize (fpu.c:427-431). */
  function QuotientExponent(a: Word, b: Word): int
    requires !IsZero(a) && !IsZero(b)
  {
    var sa, sb := NonzeroSignificand(a), NonzeroSignificand(b);
    EffectiveExponent(MagOf(a)) - EffectiveExponent(MagOf(b)) + 127
    - (DividendShift(sa) + DivisorShift(sb) - 23 - 3)
  }

  /** |a / b| as a numerator over Magnitude(b). */
  ghost function QuotientOf(a: Word): nat {
    Magnitude(MagOf(a)) * One()
  }

  function Quotient(x: nat, y: nat): nat
    requires y > 0
  {
    x / y
  }

  function Remainder(x: nat, y: nat): (r: nat)
    requires y > 0
    ensures r < y && x == Quotient(x, y) * y + r
  {
    x % y
  }

  /** The integer quotient the code works with, and the remainder it drops. */
  function IntegerQuotient(a: Word, b: Word): nat
    requires !IsZero(a) && !IsZero(b)
  {
    Quotient(Dividend(NonzeroSignificand(a)), Divisor(NonzeroSignificand(b)))
  }

  function DroppedRemainder(a: Word, b: Word): nat
    requires !IsZero(a) && !IsZero(b)
  {
    Remainder(Dividend(NonzeroSignificand(a)), Divisor(NonzeroSignificand(b)))
  }

  /** |a| * 1.0 * odd part of b's significand, as one shifted product. */
  lemma NumeratorShift(a: Word, d: nat)
    ensures QuotientOf(a) * d == ShiftLeft(8 * (Significand(MagOf(a)) * d), EffectiveExponent(MagOf(a)) + 553)
  {
    var s, n := Significand(MagOf(a)), EffectiveExponent(MagOf(a)) + 200;
    OneShift(347, 20);
    SixtyFour(347, 353);
    NumeratorProduct(s, n, d, 353);
  }

  lemma SixtyFour(n: nat, m: nat)
    requires m == n + 6
    ensures ShiftLeft(64, n) == ShiftLeft(1, m)
  {
    ShiftShift(1, 6, n);
    assert ShiftLeft(1, 6) == 64;
  }

  lemma NumeratorProduct(s: nat, n: nat, d: nat, k: nat)
    ensures ShiftLeft(8 * s, n) * ShiftLeft(1, k) * d == ShiftLeft(8 * (s * d), n + k)
  {
    ShiftProduct(8 * s, n, 1, k);
    ShiftTimes(8 * s, n + k, d);
    Regroup(8, s, d);
  }

  lemma WeightShift(b: Word, e: int)
    requires !IsZero(b) && e >= -200
    ensures var t := NonzeroSignificand(b);
            Unit(e) * Magnitude(MagOf(b))
            == ShiftLeft(8 * Divisor(t), e + EffectiveExponent(MagOf(b)) + 400 + DivisorShift(t))
  {
    var t := NonzeroSignificand(b);
    var d, j, n := Divisor(t), DivisorShift(t), EffectiveExponent(MagOf(b)) + 200;
    DivisorValue(t);
    ShiftTimes(d, j, 8);
    ShiftShift(8 * d, j, n);
    assert Magnitude(MagOf(b)) == ShiftLeft(8 * d, j + n);
    ShiftProduct(1, e + 200, 8 * d, j + n);
  }

  lemma QuotientExponentRange(a: Word, b: Word)
    requires !IsZero(a) && !IsZero(b)
    ensures QuotientExponent(a, b) >= -200
  {
    DividendShiftAtMost63(NonzeroSignificand(a), 63);
    assert ShiftLeft(1, 24) == 0x100_0000 by {
      ShiftShift(1, 12, 12);
    }
    DivisorShiftBound(NonzeroSignificand(b), 24);
  }

  /** The shifted significands and the computed exponent stand for exactly a / b. */
  lemma QuotientExact(a: Word, b: Word)
    requires !IsZero(a) && !IsZero(b)
    ensures QuotientExponent(a, b) >= -200
    ensures QuotientOf(a) * Divisor(NonzeroSignificand(b))
            == Dividend(NonzeroSignificand(a)) * (Unit(QuotientExponent(a, b)) * Magnitude(MagOf(b)))
  {
    var s, t, e := NonzeroSignificand(a), NonzeroSignificand(b), QuotientExponent(a, b);
    var d, i := Divisor(t), DividendShift(s);
    var n := e + EffectiveExponent(MagOf(b)) + 400 + DivisorShift(t);
    QuotientExponentRange(a, b);
    NumeratorShift(a, d);
    WeightShift(b, e);
    DividendValue(s);
    DenominatorProduct(s, i, d, n);
  }

  lemma DenominatorProduct(s: nat, i: nat, d: nat, n: nat)
    ensures ShiftLeft(s, i) * ShiftLeft(8 * d, n) == ShiftLeft(8 * (s * d), i + n)
  {
    ShiftProduct(s, i, 8 * d, n);
    assert s * (8 * d) == 8 * (s * d);
  }

  lemma QuotientBounds(num: nat, d: nat, q: nat, rem: nat, w: nat)
    requires w > 0 && rem < d && num * d == (q * d + rem) * w
    ensures q * w <= num < q * w + w
    ensures num == q * w <==> rem == 0
  {
    Distribute(q * d, rem, w);
    assert q * d * w == q * w * d;
    ScaledOrder(num, q * w, d);
    ScaledOrder(num, q * w + w, d);
    Distribute(q * w, w, d);
    ScaleMonotone(rem, d, w);
  }

  /** Encodings above a large multiple s of Unit(e) are spaced in multiples of Unit(e). */
  lemma SpacingMultiple(p: Mag, s: nat, e: int) returns (g: nat)
    requires p < INF_MAG && e >= -200 && s >= 0x80_0000_0000
    requires Magnitude(p + 1) > s * Unit(e)
    ensures Unit(EffectiveExponent(p)) == g * Unit(e)
  {
    var f := EffectiveExponent(p);
    SpacingBound(p);
    ScaleMonotone(0x80_0000_0000, s, Unit(e));
    if f < e {
      UnitMonotone(f, e);
      assert false;
    }
    UnitAdd(e, f - e);
    g := ShiftLeft(1, f - e);
  }

  lemma SpacingBound(p: Mag)
    requires p < INF_MAG
    ensures Magnitude(p + 1) <= 0x800_0000 * Unit(EffectiveExponent(p))
  {
    MagnitudeStep(p);
    MagnitudeValue(p);
    ScaleMonotone(8 * Significand(p), 0x7ff_fff8, Unit(EffectiveExponent(p)));
    Distribute(0x7ff_fff8, 8, Unit(EffectiveExponent(p)));
  }

  /** The bracket of a truncated quotient: both ends and the middle are
      multiples of the quotient's unit. */
  lemma BracketMultiples(p: Mag, s: nat, e: int) returns (mid: nat, top: nat)
    requires p < INF_MAG && e >= -200 && s >= 0x80_0000_0000
    requires Magnitude(p + 1) > s * Unit(e)
    ensures Magnitude(p) + Magnitude(p + 1) == 2 * (mid * Unit(e))
    ensures Magnitude(p + 1) == top * Unit(e)
  {
    var g := SpacingMultiple(p, s, e);
    var sig := Significand(p);
    MagnitudeValue(p);
    MagnitudeStep(p);
    MultiplesOf(8 * sig, g, Unit(e));
    MultiplesOf(8 * sig + 8, g, Unit(e));
    MultiplesOf(8 * sig + 4, g, Unit(e));
    Distribute(8 * sig, 8, g * Unit(e));
    Distribute(8 * sig, 4, g * Unit(e));
    mid, top := (8 * sig + 4) * g, (8 * sig + 8) * g;
  }

  lemma MultiplesOf(k: nat, g: nat, u: nat)
    ensures k * (g * u) == k * g * u
  {
  }

  /** Comparing the exact quotient num/den with k units, given its integer part q. */
  lemma CompareUnits(q: nat, u: nat, num: nat, den: nat, k: nat)
    requires u > 0 && den > 0 && q * (u * den) <= num < q * (u * den) + u * den
    ensures num < k * u * den <==> q < k
    ensures num == k * u * den <==> q == k && num == q * (u * den)
    ensures q * u < k * u <==> q < k
    ensures q * u == k * u <==> q == k
  {
    var w := u * den;
    Regroup(k, u, den);
    ScaledOrder(q, k, u);
    if q < k {
      ScaleMonotone(q + 1, k, w);
      Distribute(q, 1, w);
    } else {
      ScaleMonotone(k, q, w);
    }
  }

  /** Rounding the truncated quotient q (in units of Unit(e)) instead of the
      exact one stays faithful, and goes wrong only if the truncation lands on a
      tie that is then resolved downwards. */
  lemma TruncationRounding(q: nat, e: int, num: nat, den: nat, m: Mag)
    requires q >= 0x80_0000_0000 && e >= -200 && den > 0
    requires q * (Unit(e) * den) <= num < q * (Unit(e) * den) + Unit(e) * den
    requires Nearest(q * Unit(e), 1, m)
    ensures Faithful(num, den, m)
    ensures Nearest(num, den, m) <==> !(num != q * (Unit(e) * den) && TieOverEven(q * Unit(e), 1))
  {
    var t := q * Unit(e);
    if t >= Magnitude(INF_MAG) {
      TruncationOverflows(q, e, num, den, m);
    } else {
      var lo := FloorEncoding(t, 1, INF_MAG);
      var mid, top := BracketMultiples(lo, q, e);
      TruncationBracket(q, Unit(e), num, den, m, lo, mid, top);
    }
  }

  /** The end of a bracket that an integer rounds to. */
  lemma RoundedEnd(t: nat, m: Mag, lo: Mag)
    requires lo < INF_MAG && Magnitude(lo) <= t < Magnitude(lo + 1) && Nearest(t, 1, m)
    ensures var sum := Magnitude(lo) + Magnitude(lo + 1);
            m == if 2 * t < sum || (2 * t == sum && lo % 2 == 0) then lo else lo + 1
  {
    var n := NearerEnd(t, lo);
    NearestUnique(t, 1, m, n);
  }

  lemma NearerEnd(t: nat, lo: Mag) returns (n: Mag)
    requires lo < INF_MAG && Magnitude(lo) <= t < Magnitude(lo + 1)
    ensures var sum := Magnitude(lo) + Magnitude(lo + 1);
            n == if 2 * t < sum || (2 * t == sum && lo % 2 == 0) then lo else lo + 1
    ensures Nearest(t, 1, n)
  {
    n := NearerOf(t, lo, Magnitude(lo), Magnitude(lo + 1));
    NearestFromBracket(t, 1, lo, n);
  }

  function NearerOf(t: nat, lo: Mag, x: nat, y: nat): (n: Mag)
    requires lo < INF_MAG && x <= t < y
    ensures n == lo || n == lo + 1
    ensures n == lo ==> 2 * t <= x + y
    ensures n == lo + 1 ==> 2 * t >= x + y
    ensures 2 * t == x + y ==> n % 2 == 0
  {
    if 2 * t < x + y || (2 * t == x + y && lo % 2 == 0) then lo else lo + 1
  }

  /** The exact quotient, on the same side of the middle of the bracket as the
      truncated one (side) unless that one is the middle. */
  lemma ExactEnd(num: nat, den: nat, m: Mag, lo: Mag, half: nat, side: int)
    requires den > 0 && lo < INF_MAG && (m == lo || m == lo + 1)
    requires Magnitude(lo) * den <= num < Magnitude(lo + 1) * den
    requires Magnitude(lo) * den + Magnitude(lo + 1) * den == 2 * half
    requires side < 0 <==> num < half
    requires num == half ==> side == 0
    requires m == if side < 0 || (side == 0 && lo % 2 == 0) then lo else lo + 1
    ensures Nearest(num, den, m) <==> !(side == 0 && lo % 2 == 0 && num != half)
  {
    if side == 0 && lo % 2 == 0 && num != half {
      NotLowerEnd(num, den, lo);
    } else {
      NearestFromBracket(num, den, lo, m);
    }
  }

  lemma TruncationBracket(q: nat, u: nat, num: nat, den: nat, m: Mag, lo: Mag, mid: nat, top: nat)
    requires u > 0 && den > 0 && q * (u * den) <= num < q * (u * den) + u * den
    requires lo < INF_MAG && Magnitude(lo) <= q * u < Magnitude(lo + 1)
    requires Magnitude(lo) + Magnitude(lo + 1) == 2 * (mid * u) && Magnitude(lo + 1) == top * u
    requires Nearest(q * u, 1, m)
    ensures Faithful(num, den, m)
    ensures Nearest(num, den, m) <==> !(num != q * (u * den) && TieOverEven(q * u, 1))
  {
    var half := TruncationCompare(q, u, num, den, lo, mid, top);
    RoundedEnd(q * u, m, lo);
    TieInBracket(q * u, lo);
    ExactEnd(num, den, m, lo, half, q - mid);
    FaithfulFromBracket(num, den, lo, m);
  }

  lemma NotLowerEnd(num: nat, den: nat, lo: Mag)
    requires den > 0 && lo < INF_MAG
    requires Magnitude(lo) * den + Magnitude(lo + 1) * den < 2 * num <= 2 * (Magnitude(lo + 1) * den)
    ensures !Nearest(num, den, lo)
  {
    MagnitudeScaled(lo, lo + 1, den);
  }

  lemma TruncationCompare(q: nat, u: nat, num: nat, den: nat, lo: Mag, mid: nat, top: nat) returns (half: nat)
    requires u > 0 && den > 0 && q * (u * den) <= num < q * (u * den) + u * den
    requires lo < INF_MAG && Magnitude(lo) <= q * u < Magnitude(lo + 1)
    requires Magnitude(lo) + Magnitude(lo + 1) == 2 * (mid * u) && Magnitude(lo + 1) == top * u
    ensures Magnitude(lo) * den <= num < Magnitude(lo + 1) * den
    ensures Magnitude(lo) * den + Magnitude(lo + 1) * den == 2 * half && Magnitude(lo) * den < half
    ensures num < half <==> q < mid
    ensures num == half <==> q == mid && num == q * (u * den)
    ensures 2 * (q * u) < Magnitude(lo) + Magnitude(lo + 1) <==> q < mid
    ensures 2 * (q * u) == Magnitude(lo) + Magnitude(lo + 1) <==> q == mid
  {
    MagnitudeMonotone(lo, lo + 1);
    half := CompareEnds(q, u, num, den, Magnitude(lo), Magnitude(lo + 1), mid, top);
  }

  lemma CompareEnds(q: nat, u: nat, num: nat, den: nat, x: nat, y: nat, mid: nat, top: nat) returns (half: nat)
    requires u > 0 && den > 0 && q * (u * den) <= num < q * (u * den) + u * den
    requires x <= q * u < y && x + y == 2 * (mid * u) && y == top * u
    ensures x * den <= num < y * den && x * den + y * den == 2 * half && x * den < half
    ensures num < half <==> q < mid
    ensures num == half <==> q == mid && num == q * (u * den)
    ensures 2 * (q * u) < x + y <==> q < mid
    ensures 2 * (q * u) == x + y <==> q == mid
  {
    half := mid * u * den;
    CompareUnits(q, u, num, den, mid);
    CompareUnits(q, u, num, den, top);
    Halfway(x, y, mid * u, den);
    ScaleMonotone(x, q * u, den);
    Regroup(q, u, den);
  }

  lemma Halfway(a: nat, b: nat, h: nat, den: nat)
    requires a + b == 2 * h
    ensures a * den + b * den == 2 * (h * den)
    ensures a < b && den > 0 ==> a * den < h * den < b * den
  {
    Distribute(a, b, den);
    if a < b && den > 0 {
      ScaleMonotone(a, h, den);
      ScaleMonotone(h, b, den);
    }
  }

  lemma TruncationOverflows(q: nat, e: int, num: nat, den: nat, m: Mag)
    requires e >= -200 && den > 0 && q * Unit(e) >= Magnitude(INF_MAG)
    requires num >= q * (Unit(e) * den)
    requires Nearest(q * Unit(e), 1, m)
    ensures Nearest(num, den, m) && Faithful(num, den, m) && !TieOverEven(q * Unit(e), 1)
  {
    var t := q * Unit(e);
    Regroup(q, Unit(e), den);
    ScaleMonotone(Magnitude(INF_MAG), t, den);
    NearestAboveRange(t, 1);
    NearestUnique(t, 1, m, INF_MAG);
    NearestAboveRange(num, den);
    NearestIsFaithful(num, den, m);
    forall p: Mag | p < INF_MAG
      ensures 2 * t != (Magnitude(p) + Magnitude(p + 1)) * 1
    {
      MagnitudeScaled(p, INF_MAG, 1);
      MagnitudeScaled(p + 1, INF_MAG, 1);
    }
  }

  // The two scaling loops (fpu.c:413-423).

  method ScaleDividend(s: nat) returns (sig: nat, shift: nat)
    requires 0 < s < 0x1_0000_0000_0000_0000
    ensures sig == ShiftLeft(s, shift) && 0x8000_0000_0000_0000 <= sig < 0x1_0000_0000_0000_0000
    ensures sig == Dividend(s) && shift == DividendShift(s)
  {
    DividendValue(s);
    sig, shift := s, 0;
    while sig / 0x8000_0000_0000_0000 == 0
      invariant 0 < sig < 0x1_0000_0000_0000_0000
      invariant Dividend(sig) == Dividend(s) && shift + DividendShift(sig) == DividendShift(s)
      decreases 0x1_0000_0000_0000_0000 - sig
    {
      sig := sig * 2;
      shift := shift + 1;
    }
  }

  method ScaleDivisor(s: nat, shift0: nat) returns (sig: nat, shift: nat)
    requires s > 0
    ensures shift0 <= shift && s == ShiftLeft(sig, shift - shift0) && sig % 2 == 1
    ensures sig == Divisor(s) && shift == shift0 + DivisorShift(s)
  {
    DivisorValue(s);
    sig, shift := s, shift0;
    while sig % 2 == 0
      invariant sig > 0
      invariant Divisor(sig) == Divisor(s) && shift + DivisorShift(sig) == shift0 + DivisorShift(s)
      decreases sig
    {
      sig := sig / 2;
      shift := shift + 1;
    }
  }

  /** What IEEE 754 asks of a / b for a nonzero finite divisor, and where the
      code gives it: it is faithful unless a subnormal quotient rounds up to
      2^-126, where it is zero, and correctly rounded unless moreover a dropped
      remainder leaves an apparent tie that is resolved downwards; it is the
      rounding of the integer quotient. */
  ghost predicate RoundedQuotient(a: Word, b: Word, m: Mag)
    requires !IsZero(a) && !IsZero(b)
  {
    var num, den := QuotientOf(a), Magnitude(MagOf(b));
    && (Faithful(num, den, m) <==> !RoundsUpToMinNormal(num, den))
    && (Nearest(num, den, m)
        <==> !RoundsUpToMinNormal(num, den)
             && !(DroppedRemainder(a, b) != 0 && TieOverEven(TruncatedQuotient(a, b), 1)))
    && (if RoundsUpToMinNormal(num, den) then m == 0 else Nearest(TruncatedQuotient(a, b), 1, m))
  }

  /** The integer quotient as a value. */
  ghost function TruncatedQuotient(a: Word, b: Word): nat
    requires !IsZero(a) && !IsZero(b)
  {
    QuotientExponentRange(a, b);
    IntegerQuotient(a, b) * Unit(QuotientExponent(a, b))
  }

  lemma IntegerQuotientRange(a: Word, b: Word)
    requires !IsZero(a) && !IsZero(b)
    ensures 0x80_0000_0000 <= IntegerQuotient(a, b) < 0x1_0000_0000_0000_0000
  {
    var x, y := Dividend(NonzeroSignificand(a)), Divisor(NonzeroSignificand(b));
    DividendValue(NonzeroSignificand(a));
    var q, r := Quotient(x, y), Remainder(x, y);
    if q < 0x80_0000_0000 {
      ScaleMonotone(q + 1, 0x80_0000_0000, y);
      Distribute(q, 1, y);
      assert false;
    }
    ScaleMonotone(1, y, q);
  }

  /** The exact quotient lies within one unit above the integer one. */
  lemma QuotientBracket(a: Word, b: Word)
    requires !IsZero(a) && !IsZero(b)
    ensures Magnitude(MagOf(b)) > 0 && QuotientExponent(a, b) >= -200
    ensures var q, w := IntegerQuotient(a, b), Unit(QuotientExponent(a, b)) * Magnitude(MagOf(b));
            && q * w <= QuotientOf(a) < q * w + w
            && (QuotientOf(a) == q * w <==> DroppedRemainder(a, b) == 0)
  {
    ZeroOperand(b);
    QuotientExact(a, b);
    var w := Unit(QuotientExponent(a, b)) * Magnitude(MagOf(b));
    ScaleMonotone(1, Unit(QuotientExponent(a, b)), Magnitude(MagOf(b)));
    QuotientBounds(QuotientOf(a), Divisor(NonzeroSignificand(b)), IntegerQuotient(a, b), DroppedRemainder(a, b), w);
  }

  /** A truncated quotient is in the last half unit below 2^-126 exactly when the
      exact quotient is. */
  lemma TruncationKeepsCarry(q: nat, e: int, num: nat, den: nat)
    requires q >= 0x80_0000_0000 && e >= -200 && den > 0
    requires q * (Unit(e) * den) <= num < q * (Unit(e) * den) + Unit(e) * den
    ensures RoundsUpToMinNormal(num, den) <==> RoundsUpToMinNormal(q * Unit(e), 1)
  {
    if e > 1 {
      UnitMonotone(1, e);
      AboveWindow(q, Unit(e), Unit(1), q * Unit(e));
      Regroup(q, Unit(e), den);
      ScaleMonotone(0x400_0000 * Unit(1), q * Unit(e), den);
    } else {
      UnitAdd(e, 1 - e);
      var g := ShiftLeft(1, 1 - e);
      MultiplesOf(0x400_0000, g, Unit(e));
      MultiplesOf(0x400_0000 - 4, g, Unit(e));
      CompareUnits(q, Unit(e), num, den, 0x400_0000 * g);
      CompareUnits(q, Unit(e), num, den, (0x400_0000 - 4) * g);
    }
  }

  lemma DivRounding(a: Word, b: Word, m: Mag)
    requires !IsZero(a) && !IsZero(b)
    requires Emitted(TruncatedQuotient(a, b), 1, m)
    ensures RoundedQuotient(a, b, m)
  {
    var num, den := QuotientOf(a), Magnitude(MagOf(b));
    var q, e := IntegerQuotient(a, b), QuotientExponent(a, b);
    QuotientBracket(a, b);
    IntegerQuotientRange(a, b);
    TruncationKeepsCarry(q, e, num, den);
    if RoundsUpToMinNormal(num, den) {
      CarryIsNotZero(num, den);
    } else {
      TruncationRounding(q, e, num, den, m);
    }
  }

  /** fpu.c:402-432 */
  method DivNonzero(a: Word, b: Word) returns (r: Word)
    requires !IsZero(a) && !IsZero(b)
    ensures Sign(r) == XorSign(a, b) && RoundedQuotient(a, b, MagOf(r))
  {
    var sigA := SignificandOf(a);
    var sigB := SignificandOf(b);
    var shift;
    sigA, shift := ScaleDividend(sigA);
    sigB, shift := ScaleDivisor(sigB, shift);
    var sigRes := Quotient(sigA, sigB);
    var expA, expB := ExponentOf(MagOf(a)), ExponentOf(MagOf(b));
    if expA == 0 {
      expA := expA + 1;
    }
    if expB == 0 {
      expB := expB + 1;
    }
    var expRes: int := expA - expB + 127 - (shift as int - 23 - 3);
    IntegerQuotientRange(a, b);
    QuotientExponentRange(a, b);
    r := NormalizeExact(XorSign(a, b), expRes, sigRes, TruncatedQuotient(a, b));
    DivRounding(a, b, MagOf(r));
  }

  /** The call of internal_normalize on a wide significand. */
  method NormalizeExact(sign: int, exp: int, sig: nat, ghost num: nat) returns (r: Word)
    requires 0 <= sign <= 1 && exp >= -200 && sig >= 0x800_0000 && num == sig * Unit(exp)
    ensures Sign(r) == sign
    ensures Emitted(num, 1, MagOf(r))
  {
    ExactRepresents(sig, Unit(exp), 2);
    r := Normalize(sign, exp, sig, num);
  }

  /** What IEEE 754 asks of a / b, NaN operands aside. */
  ghost predicate DivResult(a: Word, b: Word, r: Word)
  {
    && (Finite(a) && Finite(b) && !IsZero(a) && !IsZero(b) ==>
          Sign(r) == XorSign(a, b) && RoundedQuotient(a, b, MagOf(r)))
    && (IsZero(a) && ((Finite(b) && !IsZero(b)) || Infinite(b)) ==> IsZero(r) && Sign(r) == XorSign(a, b))
    && (Finite(a) && Infinite(b) ==> IsZero(r) && Sign(r) == XorSign(a, b))
    && (Infinite(a) && Finite(b) ==> Infinite(r) && Sign(r) == XorSign(a, b))
    && (Finite(a) && !IsZero(a) && IsZero(b) ==> Infinite(r) && Sign(r) == XorSign(a, b))
    && ((IsZero(a) && IsZero(b)) || (Infinite(a) && Infinite(b)) ==> r == N_NAN)
  }

  lemma CornerDivSound()
    ensures forall k :: 0 <= k < |CORNER_DIV| ==> DivResult(CORNER_DIV[k].a, CORNER_DIV[k].b, CORNER_DIV[k].res)
  {
    forall k | 0 <= k < |CORNER_DIV|
      ensures DivResult(CORNER_DIV[k].a, CORNER_DIV[k].b, CORNER_DIV[k].res)
    {
      var rule := CORNER_DIV[k];
      if k < 4 || k >= 8 {
        assert (IsZero(rule.a) && IsZero(rule.b)) || (Infinite(rule.a) && Infinite(rule.b));
        assert rule.res == N_NAN;
      } else {
        assert Infinite(rule.a) && IsZero(rule.b) && Infinite(rule.res) && Sign(rule.res) == XorSign(rule.a, rule.b);
      }
    }
  }

  lemma CornerDivCovers(a: Word, b: Word)
    requires (IsZero(a) && IsZero(b)) || (Infinite(a) && Infinite(b))
    ensures exists k :: 0 <= k < |CORNER_DIV| && CORNER_DIV[k].a == a && CORNER_DIV[k].b == b
  {
    assert CORNER_DIV[0] == Rule(P_ZERO, P_ZERO, N_NAN);
    assert CORNER_DIV[1] == Rule(N_ZERO, P_ZERO, N_NAN);
    assert CORNER_DIV[2] == Rule(P_ZERO, N_ZERO, N_NAN);
    assert CORNER_DIV[3] == Rule(N_ZERO, N_ZERO, N_NAN);
    assert CORNER_DIV[8] == Rule(P_INF, P_INF, N_NAN);
    assert CORNER_DIV[9] == Rule(N_INF, P_INF, N_NAN);
    assert CORNER_DIV[10] == Rule(P_INF, N_INF, N_NAN);
    assert CORNER_DIV[11] == Rule(N_INF, N_INF, N_NAN);
  }

  /** a / b. */
  method FloatDiv(b: Word, a: Word) returns (r: Word)
    ensures DivResult(a, b, r)
  {
    var corner := LookUp(CORNER_DIV, a, b);
    if corner.Some? {
      CornerDivSound();
      return corner.value;
    }
    if (IsZero(a) && IsZero(b)) || (Infinite(a) && Infinite(b)) {
      CornerDivCovers(a, b);
      assert false;
    }
    if a == P_NAN || a == N_NAN || b == P_NAN || b == N_NAN {
      assert MagOf(a) > INF_MAG || MagOf(b) > INF_MAG;
      return if a == P_NAN || b == P_NAN then P_NAN else N_NAN;
    }
    InfiniteEncodings(a);
    InfiniteEncodings(b);
    ZeroEncodings(a);
    ZeroEncodings(b);
    if a == P_INF || a == N_INF {
      return if XorSign(a, b) == 1 then N_INF else P_INF;
    }
    if b == P_ZERO || b == N_ZERO {
      return if XorSign(a, b) == 1 then N_INF else P_INF;
    }
    if a == P_ZERO || a == N_ZERO {
      return if XorSign(a, b) == 1 then N_ZERO else P_ZERO;
    }
    if b == P_INF || b == N_INF {
      return if XorSign(a, b) == 1 then N_ZERO else P_ZERO;
    }
    r := DivNonzero(a, b);
  }
}
