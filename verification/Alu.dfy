/** The integer ALU (nemu/src/cpu/alu.c) and the condition codes that read its
    flags (nemu/include/cpu/instr_helper.h), at operand widths 8, 16 and 32. */
module Alu {
  import opened Arithmetic
  import opened Words

  datatype Width = W8 | W16 | W32

  /** Two to the number of bits. */
  function Size(w: Width): (b: nat)
    ensures b > 1
  {
    match w case W8 => 0x100 case W16 => 0x1_0000 case W32 => 0x1_0000_0000
  }

  datatype Flags = Flags(CF: bool, PF: bool, ZF: bool, SF: bool, OF: bool)

  function Carry(c: bool): int { if c then 1 else 0 }

  /** x & (0xFFFFFFFF >> (32 - data_size)) */
  function Low(x: Word, w: Width): (r: Word)
    ensures r < Size(w)
  {
    x % Size(w)
  }

  /** sign_ext of a value that fits the width. */
  function SignExt(x: Word, w: Width): Word
    requires x < Size(w)
  {
    if w == W32 || x < Size(w) / 2 then x else x + (0x1_0000_0000 - Size(w))
  }

  function SignBit(x: Word): bool { x >= 0x8000_0000 }

  /** The two's-complement reading of the low bits. */
  function Signed(x: Word, w: Width): int {
    if Low(x, w) < Size(w) / 2 then Low(x, w) else Low(x, w) - Size(w)
  }

  function Ones(x: nat): nat { if x == 0 then 0 else x % 2 + Ones(x / 2) }

  predicate EvenParity(x: nat) { Ones(x % 0x100) % 2 == 0 }

  predicate InRange(v: int, w: Width) { -(Size(w) / 2) <= v < Size(w) / 2 }

  // ---------------------------------------------------------------------
  // Facts about the width
  // ---------------------------------------------------------------------

  /** Comparing sign-extended words as unsigned is comparing the words. */
  lemma SignExtMonotone(x: Word, y: Word, w: Width)
    requires x < Size(w) && y < Size(w)
    ensures SignExt(x, w) < SignExt(y, w) <==> x < y
    ensures SignExt(x, w) <= SignExt(y, w) <==> x <= y
    ensures SignBit(SignExt(x, w)) <==> x >= Size(w) / 2
  {
  }

  lemma LowWrap(x: int, w: Width)
    ensures Low(Wrap(x), w) == x % Size(w)
  {
    match w
    case W8 => ModNested(x, 0x100, 0x100_0000);
    case W16 => ModNested(x, 0x1_0000, 0x1_0000);
    case W32 =>
  }

  /** Adding words, with a carry in, modulo the width. */
  lemma LowSum(x: Word, y: Word, c: int, w: Width)
    requires 0 <= c <= 1
    ensures var s := Low(x, w) + Low(y, w) + c;
            Low(Wrap(x + y + c), w) == if s < Size(w) then s else s - Size(w)
  {
    var d, s := Size(w), Low(x, w) + Low(y, w) + c;
    LowWrap(x + y + c, w);
    var q := x / d + y / d;
    assert x + y + c == d * q + s;
    if s < d {
      DivisionUnique(d, q, s);
    } else {
      assert d * q + s == d * (q + 1) + (s - d);
      DivisionUnique(d, q + 1, s - d);
    }
  }

  lemma LowDifference(x: Word, y: Word, c: int, w: Width)
    requires 0 <= c <= 1
    ensures var s := Low(x, w) - Low(y, w) - c;
            Low(Wrap(x - y - c), w) == if s >= 0 then s else s + Size(w)
  {
    var d, s := Size(w), Low(x, w) - Low(y, w) - c;
    LowWrap(x - y - c, w);
    var q := x / d - y / d;
    assert x - y - c == d * q + s;
    if s >= 0 {
      DivisionUnique(d, q, s);
    } else {
      assert d * q + s == d * (q - 1) + (s + d);
      DivisionUnique(d, q - 1, s + d);
    }
  }

  /** The comparison that stands for the carry out of a + b + c. */
  lemma CarryOut(a: nat, b: nat, c: int, r: int, d: nat)
    requires a < d && b < d && 0 <= c <= 1
    requires r == if a + b + c < d then a + b + c else a + b + c - d
    ensures c == 0 ==> (r < b <==> a + b + c >= d)
    ensures c == 1 ==> (r <= b <==> a + b + c >= d)
  {
  }

  /** Signed overflow from the signs of the operands and the result. */
  lemma OverflowOut(x: Word, y: Word, c: int, r: Word, w: Width)
    requires 0 <= c <= 1 && r < Size(w)
    requires var a, b, d := Low(x, w), Low(y, w), Size(w);
             r == (if a + b + c < d then a + b + c else a + b + c - d)
    ensures var a, b, d := Low(x, w), Low(y, w), Size(w);
            !InRange(Signed(x, w) + Signed(y, w) + c, w)
            <==> (b >= d / 2) == (a >= d / 2) && (b >= d / 2) != (r >= d / 2)
  {
    match w
    case W8 =>
    case W16 =>
    case W32 =>
  }

  lemma UnderflowOut(x: Word, y: Word, c: int, r: Word, w: Width)
    requires 0 <= c <= 1 && r < Size(w)
    requires var a, b, d := Low(x, w), Low(y, w), Size(w);
             r == (if a - b - c >= 0 then a - b - c else a - b - c + d)
    ensures var a, b, d := Low(x, w), Low(y, w), Size(w);
            !InRange(Signed(x, w) - Signed(y, w) - c, w)
            <==> (b >= d / 2) != (a >= d / 2) && (b >= d / 2) == (r >= d / 2)
  {
    match w
    case W8 =>
    case W16 =>
    case W32 =>
  }

  predicate Top(x: Word, w: Width) { Low(x, w) >= Size(w) / 2 }

  /** What the comparisons of the flag setters mean for res = dest + src + c. */
  lemma SumMeaning(dest: Word, src: Word, c: int, w: Width, res: Word)
    requires 0 <= c <= 1 && res == Wrap(dest + src + c)
    ensures var r, s := Low(res, w), Low(dest, w) + Low(src, w) + c;
            && r == (if s < Size(w) then s else s - Size(w))
            && (c == 0 ==> (r < Low(src, w) <==> s >= Size(w)))
            && (c == 1 ==> (r <= Low(src, w) <==> s >= Size(w)))
            && (!InRange(Signed(dest, w) + Signed(src, w) + c, w)
                <==> Top(src, w) == Top(dest, w) && Top(src, w) != Top(res, w))
            && EvenParity(r) == EvenParity(res)
  {
    LowSum(dest, src, c, w);
    CarryOut(Low(dest, w), Low(src, w), c, Low(res, w), Size(w));
    OverflowOut(dest, src, c, Low(res, w), w);
    ParityOfLow(res, w);
  }

  lemma DifferenceMeaning(dest: Word, src: Word, c: int, w: Width, res: Word)
    requires 0 <= c <= 1 && res == Wrap(dest - src - c)
    ensures var r, s := Low(res, w), Low(dest, w) - Low(src, w) - c;
            && r == (if s >= 0 then s else s + Size(w))
            && (!InRange(Signed(dest, w) - Signed(src, w) - c, w)
                <==> Top(src, w) != Top(dest, w) && Top(src, w) == Top(res, w))
            && EvenParity(r) == EvenParity(res)
  {
    LowDifference(dest, src, c, w);
    UnderflowOut(dest, src, c, Low(res, w), w);
    ParityOfLow(res, w);
  }

  class Cpu {
    var eflags: Flags

    /** set_CF_add and set_CF_sub, which differ in what they are given. */
    method SetCFLess(first0: Word, second0: Word, w: Width)
      modifies this
      ensures eflags == old(eflags).(CF := Low(first0, w) < Low(second0, w))
    {
      var first := SignExt(Low(first0, w), w);
      var second := SignExt(Low(second0, w), w);
      SignExtMonotone(Low(first0, w), Low(second0, w), w);
      eflags := eflags.(CF := first < second);
    }

    /** set_CF_adc and set_CF_sbb. */
    method SetCFLessOrEqual(first0: Word, second0: Word, w: Width)
      modifies this
      ensures eflags == old(eflags).(CF :=
        if old(eflags).CF then Low(first0, w) <= Low(second0, w) else Low(first0, w) < Low(second0, w))
    {
      var first := SignExt(Low(first0, w), w);
      var second := SignExt(Low(second0, w), w);
      SignExtMonotone(Low(first0, w), Low(second0, w), w);
      if !eflags.CF {
        eflags := eflags.(CF := first < second);
      } else {
        eflags := eflags.(CF := first <= second);
      }
    }

    method SetZF(result0: Word, w: Width)
      modifies this
      ensures eflags == old(eflags).(ZF := Low(result0, w) == 0)
    {
      eflags := eflags.(ZF := Low(result0, w) == 0);
    }

    method SetSF(result0: Word, w: Width)
      modifies this
      ensures eflags == old(eflags).(SF := Top(result0, w))
    {
      SignExtMonotone(Low(result0, w), 0, w);
      eflags := eflags.(SF := SignBit(SignExt(Low(result0, w), w)));
    }

    /** Counts the one bits of the low byte. */
    method SetPF(result0: Word)
      modifies this
      ensures eflags == old(eflags).(PF := EvenParity(result0))
    {
      var result := result0 % 0x100;
      var count := 0;
      while result > 0
        invariant 0 <= result && 0 <= count
        invariant count + Ones(result) == Ones(result0 % 0x100)
      {
        if result % 2 == 1 {
          count := count + 1;
        }
        result := result / 2;
      }
      if count % 2 == 1 {
        eflags := eflags.(PF := false);
      } else {
        eflags := eflags.(PF := true);
      }
    }

    method SetOFAdd(result0: Word, src0: Word, dest0: Word, w: Width)
      modifies this
      ensures eflags == old(eflags).(OF :=
        Top(src0, w) == Top(dest0, w) && Top(src0, w) != Top(result0, w))
    {
      var result, src, dest := SignExt(Low(result0, w), w), SignExt(Low(src0, w), w), SignExt(Low(dest0, w), w);
      SignExtMonotone(Low(result0, w), 0, w);
      SignExtMonotone(Low(src0, w), 0, w);
      SignExtMonotone(Low(dest0, w), 0, w);
      if SignBit(src) == SignBit(dest) {
        if SignBit(src) != SignBit(result) {
          eflags := eflags.(OF := true);
        } else {
          eflags := eflags.(OF := false);
        }
      } else {
        eflags := eflags.(OF := false);
      }
    }

    method SetOFSub(result0: Word, src0: Word, dest0: Word, w: Width)
      modifies this
      ensures eflags == old(eflags).(OF :=
        Top(src0, w) != Top(dest0, w) && Top(src0, w) == Top(result0, w))
    {
      var result, src, dest := SignExt(Low(result0, w), w), SignExt(Low(src0, w), w), SignExt(Low(dest0, w), w);
      SignExtMonotone(Low(result0, w), 0, w);
      SignExtMonotone(Low(src0, w), 0, w);
      SignExtMonotone(Low(dest0, w), 0, w);
      if SignBit(src) != SignBit(dest) {
        if SignBit(src) == SignBit(result) {
          eflags := eflags.(OF := true);
        } else {
          eflags := eflags.(OF := false);
        }
      } else {
        eflags := eflags.(OF := false);
      }
    }

    /** The flags other than CF after an addition. */
    method SetSumFlags(res: Word, src: Word, dest: Word, w: Width, ghost c: int)
      requires 0 <= c <= 1 && res == Wrap(dest + src + c)
      modifies this
      ensures SumFlags(eflags, Low(res, w), dest, src, c, w) && eflags.CF == old(eflags).CF
    {
      SumMeaning(dest, src, c, w, res);
      SetPF(res);
      SetZF(res, w);
      SetSF(res, w);
      SetOFAdd(res, src, dest, w);
    }

    /** The flags other than CF after a subtraction. */
    method SetDifferenceFlags(res: Word, src: Word, dest: Word, w: Width, ghost c: int)
      requires 0 <= c <= 1 && res == Wrap(dest - src - c)
      modifies this
      ensures DifferenceFlags(eflags, Low(res, w), dest, src, c, w) && eflags.CF == old(eflags).CF
    {
      DifferenceMeaning(dest, src, c, w, res);
      SetPF(res);
      SetZF(res, w);
      SetSF(res, w);
      SetOFSub(res, src, dest, w);
    }

    /** dest + src */
    method Add(src: Word, dest: Word, w: Width) returns (r: Word)
      modifies this
      ensures r < Size(w) && r + Carry(eflags.CF) * Size(w) == Low(dest, w) + Low(src, w)
      ensures SumFlags(eflags, r, dest, src, 0, w)
    {
      var res := Wrap(dest + src);
      SumMeaning(dest, src, 0, w, res);
      SetCFLess(res, src, w);
      SetSumFlags(res, src, dest, w, 0);
      r := Low(res, w);
    }

    /** dest + src + CF */
    method Adc(src: Word, dest: Word, w: Width) returns (r: Word)
      modifies this
      ensures r < Size(w)
      ensures r + Carry(eflags.CF) * Size(w) == Low(dest, w) + Low(src, w) + Carry(old(eflags).CF)
      ensures SumFlags(eflags, r, dest, src, Carry(old(eflags).CF), w)
    {
      ghost var c := Carry(eflags.CF);
      var res := Wrap(dest + src + Carry(eflags.CF));
      SumMeaning(dest, src, c, w, res);
      SetCFLessOrEqual(res, src, w);
      SetSumFlags(res, src, dest, w, c);
      r := Low(res, w);
    }

    /** dest - src */
    method Sub(src: Word, dest: Word, w: Width) returns (r: Word)
      modifies this
      ensures r < Size(w) && r == Low(dest, w) - Low(src, w) + Carry(eflags.CF) * Size(w)
      ensures DifferenceFlags(eflags, r, dest, src, 0, w)
    {
      var temp := Wrap(0xFFFF_FFFF - src + 1);
      var res := Wrap(dest + temp);
      NegatedSum(dest, src, 0);
      DifferenceMeaning(dest, src, 0, w, res);
      SetCFLess(dest, src, w);
      SetDifferenceFlags(res, src, dest, w, 0);
      r := Low(res, w);
    }

    /** dest - src - CF */
    method Sbb(src: Word, dest: Word, w: Width) returns (r: Word)
      modifies this
      ensures r < Size(w)
      ensures r == Low(dest, w) - Low(src, w) - Carry(old(eflags).CF) + Carry(eflags.CF) * Size(w)
      ensures DifferenceFlags(eflags, r, dest, src, Carry(old(eflags).CF), w)
    {
      ghost var c := Carry(eflags.CF);
      var temp := Wrap(0xFFFF_FFFF - src + 1);
      var res := Wrap(dest + temp - Carry(eflags.CF));
      NegatedSum(dest, src, c);
      DifferenceMeaning(dest, src, c, w, res);
      SetCFLessOrEqual(dest, src, w);
      SetDifferenceFlags(res, src, dest, w, c);
      r := Low(res, w);
    }

    /** Multi-word addition, lowest word first: add, then adc for the rest. */
    method AddChain(dest: seq<Word>, src: seq<Word>, w: Width) returns (res: seq<Word>)
      requires |dest| == |src| > 0
      modifies this
      ensures |res| == |dest| && forall i :: 0 <= i < |res| ==> res[i] < Size(w)
      ensures Number(res, w) + Carry(eflags.CF) * Power(w, |res|) == Number(dest, w) + Number(src, w)
    {
      var r := Add(src[0], dest[0], w);
      res := [r];
      FirstWord(res, dest, src, w);
      while |res| < |dest|
        invariant 0 < |res| <= |dest|
        invariant forall i :: 0 <= i < |res| ==> res[i] < Size(w)
        invariant Number(res, w) + Carry(eflags.CF) * Power(w, |res|)
               == Number(dest[..|res|], w) + Number(src[..|res|], w)
      {
        var n := |res|;
        ghost var c := Carry(eflags.CF);
        r := Adc(src[n], dest[n], w);
        SumWord(res, dest, src, n, r, c, Carry(eflags.CF), w);
        res := res + [r];
      }
      assert dest[..|res|] == dest && src[..|res|] == src;
    }

    /** Multi-word subtraction: sub, then sbb for the rest.  CF is the unsigned
        and SF against OF the signed comparison of the whole numbers. */
    method SubChain(dest: seq<Word>, src: seq<Word>, w: Width) returns (res: seq<Word>)
      requires |dest| == |src| > 0
      modifies this
      ensures |res| == |dest| && forall i :: 0 <= i < |res| ==> res[i] < Size(w)
      ensures Number(res, w) == Number(dest, w) - Number(src, w) + Carry(eflags.CF) * Power(w, |res|)
      ensures eflags.CF <==> Number(dest, w) < Number(src, w)
      ensures (eflags.SF != eflags.OF) <==> SignedNumber(dest, w) < SignedNumber(src, w)
    {
      var r := Sub(src[0], dest[0], w);
      res := [r];
      SubtractedFirst(dest, src, r, eflags, w);
      while |res| < |dest|
        invariant 0 < |res| <= |dest|
        invariant Subtracted(res, dest[..|res|], src[..|res|], eflags, w)
      {
        var n := |res|;
        ghost var f := eflags;
        r := Sbb(src[n], dest[n], w);
        SubtractedNext(res, dest, src, n, r, f, eflags, w);
        res := res + [r];
      }
      assert dest[..|res|] == dest && src[..|res|] == src;
      BorrowIsOrder(res, dest, src, eflags.CF, w);
    }
  }

  /** res and the flags after subtracting the numbers of dest and src. */
  ghost predicate Subtracted(res: seq<Word>, dest: seq<Word>, src: seq<Word>, f: Flags, w: Width)
    requires |dest| == |src| > 0
  {
    && |res| == |dest| && (forall i :: 0 <= i < |res| ==> res[i] < Size(w))
    && Number(res, w) == Number(dest, w) - Number(src, w) + Carry(f.CF) * Power(w, |res|)
    && ((f.SF != f.OF) <==> SignedNumber(dest, w) < SignedNumber(src, w))
  }

  lemma SubtractedFirst(dest: seq<Word>, src: seq<Word>, r: Word, f: Flags, w: Width)
    requires |dest| == |src| > 0 && Compared(f, r, dest[0], src[0], w)
    ensures Subtracted([r], dest[..1], src[..1], f, w)
  {
    FirstWord([r], dest, src, w);
    SignedOrder(dest, src, 1, 0, Carry(f.CF), r, f, w);
  }

  lemma SubtractedNext(res: seq<Word>, dest: seq<Word>, src: seq<Word>, n: nat, r: Word, f: Flags, f': Flags, w: Width)
    requires 0 < |res| == n < |dest| == |src| && Subtracted(res, dest[..n], src[..n], f, w)
    requires r < Size(w) && r == Low(dest[n], w) - Low(src[n], w) - Carry(f.CF) + Carry(f'.CF) * Size(w)
    requires DifferenceFlags(f', r, dest[n], src[n], Carry(f.CF), w)
    ensures Subtracted(res + [r], dest[..n + 1], src[..n + 1], f', w)
  {
    BorrowIsOrder(res, dest[..n], src[..n], f.CF, w);
    DifferenceWord(res, dest, src, n, r, Carry(f.CF), Carry(f'.CF), w);
    SignedOrder(dest, src, n + 1, Carry(f.CF), Carry(f'.CF), r, f', w);
  }

  /** The flags of r = dest + src + c: zero, sign, signed overflow and parity. */
  predicate SumFlags(f: Flags, r: Word, dest: Word, src: Word, c: int, w: Width) {
    && f.ZF == (r == 0)
    && f.SF == (r >= Size(w) / 2)
    && f.OF == !InRange(Signed(dest, w) + Signed(src, w) + c, w)
    && f.PF == EvenParity(r)
  }

  predicate DifferenceFlags(f: Flags, r: Word, dest: Word, src: Word, c: int, w: Width) {
    && f.ZF == (r == 0)
    && f.SF == (r >= Size(w) / 2)
    && f.OF == !InRange(Signed(dest, w) - Signed(src, w) - c, w)
    && f.PF == EvenParity(r)
  }

  lemma ParityOfLow(x: Word, w: Width)
    ensures EvenParity(Low(x, w)) == EvenParity(x)
  {
    match w
    case W8 => assert x % 0x100 % 0x100 == x % 0x100;
    case W16 => ModNested(x, 0x100, 0x100);
    case W32 => assert Low(x, w) == x;
  }

  /** dest + (~src + 1) - c is the difference modulo 2^32. */
  lemma NegatedSum(dest: Word, src: Word, c: int)
    requires 0 <= c <= 1
    ensures Wrap(dest + Wrap(0xFFFF_FFFF - src + 1) - c) == Wrap(dest - src - c)
  {
  }

  // ---------------------------------------------------------------------
  // Multi-word numbers
  // ---------------------------------------------------------------------

  ghost function Power(w: Width, n: nat): (p: nat)
    ensures p > 0
  {
    if n == 0 then 1 else Power(w, n - 1) * Size(w)
  }

  /** The number that words, lowest first, stand for. */
  ghost function Number(ws: seq<Word>, w: Width): nat {
    if |ws| == 0 then 0
    else Number(ws[..|ws| - 1], w) + Low(ws[|ws| - 1], w) * Power(w, |ws| - 1)
  }

  /** Its two's-complement reading. */
  ghost function SignedNumber(ws: seq<Word>, w: Width): int
    requires |ws| > 0
  {
    Number(ws[..|ws| - 1], w) + Signed(ws[|ws| - 1], w) * Power(w, |ws| - 1)
  }

  lemma NumberPush(ws: seq<Word>, x: Word, w: Width)
    ensures Number(ws + [x], w) == Number(ws, w) + Low(x, w) * Power(w, |ws|)
  {
    assert (ws + [x])[..|ws|] == ws;
  }

  lemma NumberPrefix(ws: seq<Word>, n: nat, w: Width)
    requires n < |ws|
    ensures Number(ws[..n + 1], w) == Number(ws[..n], w) + Low(ws[n], w) * Power(w, n)
  {
    assert ws[..n + 1] == ws[..n] + [ws[n]];
    NumberPush(ws[..n], ws[n], w);
  }

  lemma LowOfLow(x: Word, w: Width)
    requires x < Size(w)
    ensures Low(x, w) == x
  {
  }

  lemma {:induction false} NumberBound(ws: seq<Word>, w: Width)
    ensures Number(ws, w) < Power(w, |ws|)
  {
    if |ws| > 0 {
      var n := |ws| - 1;
      NumberBound(ws[..n], w);
      DigitBound(Number(ws[..n], w), Low(ws[n], w), Power(w, n), Size(w));
    }
  }

  lemma DigitBound(x: nat, d: nat, p: nat, size: nat)
    requires x < p && d < size
    ensures x + d * p < p * size
  {
    assert p * size == p + d * p + (size - 1 - d) * p;
    ProductNonNegative(size - 1 - d, p);
  }

  lemma SumDigits(r: int, c: int, c': int, a: int, b: int, size: int, p: int)
    requires r + c' * size == a + b + c
    ensures r * p + c' * (p * size) == a * p + b * p + c * p
  {
    assert (r + c' * size) * p == (a + b + c) * p;
    assert c' * size * p == c' * (p * size);
  }

  lemma FirstWord(res: seq<Word>, dest: seq<Word>, src: seq<Word>, w: Width)
    requires |res| == 1 && res[0] < Size(w) && |dest| > 0 && |src| > 0
    ensures Number(res, w) == res[0] && Power(w, 1) == Size(w)
    ensures Number(dest[..1], w) == Low(dest[0], w) && Number(src[..1], w) == Low(src[0], w)
  {
    LowOfLow(res[0], w);
    NumberPrefix(dest, 0, w);
    NumberPrefix(src, 0, w);
    NumberPrefix(res, 0, w);
    assert res[..1] == res;
    assert Power(w, 0) == 1;
  }

  lemma SumWord(res: seq<Word>, dest: seq<Word>, src: seq<Word>, n: nat, r: Word, c: int, c': int, w: Width)
    requires |res| == n < |dest| == |src| && r < Size(w)
    requires Number(res, w) + c * Power(w, n) == Number(dest[..n], w) + Number(src[..n], w)
    requires r + c' * Size(w) == Low(dest[n], w) + Low(src[n], w) + c
    ensures Number(res + [r], w) + c' * Power(w, n + 1) == Number(dest[..n + 1], w) + Number(src[..n + 1], w)
  {
    LowOfLow(r, w);
    NumberPush(res, r, w);
    NumberPrefix(dest, n, w);
    NumberPrefix(src, n, w);
    SumDigits(r, c, c', Low(dest[n], w), Low(src[n], w), Size(w), Power(w, n));
  }

  lemma DifferenceWord(res: seq<Word>, dest: seq<Word>, src: seq<Word>, n: nat, r: Word, c: int, c': int, w: Width)
    requires |res| == n < |dest| == |src| && r < Size(w)
    requires Number(res, w) == Number(dest[..n], w) - Number(src[..n], w) + c * Power(w, n)
    requires r == Low(dest[n], w) - Low(src[n], w) - c + c' * Size(w)
    ensures Number(res + [r], w) == Number(dest[..n + 1], w) - Number(src[..n + 1], w) + c' * Power(w, n + 1)
  {
    LowOfLow(r, w);
    NumberPush(res, r, w);
    NumberPrefix(dest, n, w);
    NumberPrefix(src, n, w);
    SumDigits(Low(dest[n], w), c, c', r, Low(src[n], w), Size(w), Power(w, n));
  }

  /** The final borrow of a subtraction is the unsigned order. */
  lemma BorrowIsOrder(res: seq<Word>, dest: seq<Word>, src: seq<Word>, borrow: bool, w: Width)
    requires |res| == |dest| == |src|
    requires Number(res, w) == Number(dest, w) - Number(src, w) + Carry(borrow) * Power(w, |res|)
    ensures borrow <==> Number(dest, w) < Number(src, w)
  {
    NumberBound(res, w);
    NumberBound(dest, w);
    NumberBound(src, w);
  }

  /** After the last sbb, SF against OF is the signed order of the numbers. */
  lemma SignedOrder(dest: seq<Word>, src: seq<Word>, n: nat, c: int, c': int, r: Word, f: Flags, w: Width)
    requires 0 < n <= |dest| == |src| && 0 <= c <= 1 && 0 <= c' <= 1 && r < Size(w)
    requires c == Carry(Number(dest[..n - 1], w) < Number(src[..n - 1], w))
    requires DifferenceFlags(f, r, dest[n - 1], src[n - 1], c, w)
    requires r == Low(dest[n - 1], w) - Low(src[n - 1], w) - c + c' * Size(w)
    ensures (f.SF != f.OF) <==> SignedNumber(dest[..n], w) < SignedNumber(src[..n], w)
  {
    var x, y, p := dest[n - 1], src[n - 1], Power(w, n - 1);
    assert dest[..n][..n - 1] == dest[..n - 1] && src[..n][..n - 1] == src[..n - 1];
    var a, b := Number(dest[..n - 1], w), Number(src[..n - 1], w);
    NumberBound(dest[..n - 1], w);
    NumberBound(src[..n - 1], w);
    SignAgainstOverflow(x, y, c, c', r, f, w);
    SignedDigits(Signed(x, w), Signed(y, w), a, b, p);
  }

  /** SF differs from OF exactly when the true difference is negative. */
  lemma SignAgainstOverflow(x: Word, y: Word, c: int, c': int, r: Word, f: Flags, w: Width)
    requires 0 <= c <= 1 && 0 <= c' <= 1 && r < Size(w) && DifferenceFlags(f, r, x, y, c, w)
    requires r == Low(x, w) - Low(y, w) - c + c' * Size(w)
    ensures (f.SF != f.OF) <==> Signed(x, w) - Signed(y, w) - c < 0
  {
    HalfSize(w);
    OverflowFlipsSign(Low(x, w), Low(y, w), c, c', r, Size(w) / 2);
  }

  lemma HalfSize(w: Width)
    ensures Size(w) / 2 > 0 && Size(w) == 2 * (Size(w) / 2)
  {
  }

  /** Two's complement subtraction with 2 * half values: the sign of the result is
      that of the true difference unless it overflows. */
  lemma OverflowFlipsSign(a: int, b: int, c: int, c': int, r: int, half: int)
    requires 0 <= c <= 1 && 0 <= c' <= 1
    requires 0 <= a < 2 * half && 0 <= b < 2 * half && 0 <= r < 2 * half
    requires r == a - b - c + c' * (2 * half)
    ensures var d := (if a < half then a else a - 2 * half) - (if b < half then b else b - 2 * half) - c;
            ((r >= half) != !(-half <= d < half)) <==> d < 0
  {
    assert c' == 0 || c' == 1;
  }

  lemma SignedDigits(s: int, t: int, a: nat, b: nat, p: nat)
    requires a < p && b < p
    ensures a + s * p < b + t * p <==> s - t - Carry(a < b) < 0
  {
    var e := s - t;
    assert a + s * p - (b + t * p) == e * p + (a - b);
    if e >= 1 {
      assert e * p == p + (e - 1) * p;
      ProductNonNegative(e - 1, p);
    } else if e <= -1 {
      assert e * p + p == -((-1 - e) * p);
      ProductNonNegative(-1 - e, p);
    }
  }

  // ---------------------------------------------------------------------
  // Condition codes (instr_helper.h:169-218)
  // ---------------------------------------------------------------------

  predicate ConditionE(f: Flags) { f.ZF }
  predicate ConditionA(f: Flags) { !f.CF && !f.ZF }
  predicate ConditionAE(f: Flags) { !f.CF }
  predicate ConditionB(f: Flags) { f.CF }
  predicate ConditionBE(f: Flags) { f.CF && f.ZF }
  predicate ConditionNA(f: Flags) { f.CF || f.ZF }
  predicate ConditionNE(f: Flags) { !f.ZF }
  predicate ConditionG(f: Flags) { !f.ZF && f.SF == f.OF }
  predicate ConditionGE(f: Flags) { f.SF == f.OF }
  predicate ConditionL(f: Flags) { f.SF != f.OF }
  predicate ConditionLE(f: Flags) { f.ZF || f.SF != f.OF }

  /** What Sub guarantees about its result and the flags. */
  predicate Compared(f: Flags, r: Word, dest: Word, src: Word, w: Width) {
    && r < Size(w) && r == Low(dest, w) - Low(src, w) + Carry(f.CF) * Size(w)
    && DifferenceFlags(f, r, dest, src, 0, w)
  }

  /** The condition codes after a comparison are the orders they are named for. */
  lemma ConditionsAreOrders(f: Flags, r: Word, dest: Word, src: Word, w: Width)
    requires Compared(f, r, dest, src, w)
    ensures ConditionB(f) <==> Low(dest, w) < Low(src, w)
    ensures ConditionAE(f) <==> Low(dest, w) >= Low(src, w)
    ensures ConditionA(f) <==> Low(dest, w) > Low(src, w)
    ensures ConditionNA(f) <==> Low(dest, w) <= Low(src, w)
    ensures ConditionE(f) <==> Low(dest, w) == Low(src, w)
    ensures ConditionNE(f) <==> Low(dest, w) != Low(src, w)
    ensures ConditionL(f) <==> Signed(dest, w) < Signed(src, w)
    ensures ConditionGE(f) <==> Signed(dest, w) >= Signed(src, w)
    ensures ConditionG(f) <==> Signed(dest, w) > Signed(src, w)
    ensures ConditionLE(f) <==> Signed(dest, w) <= Signed(src, w)
  {
    SignAgainstOverflow(dest, src, 0, Carry(f.CF), r, f, w);
  }

  /** condition_be is written with && : after a comparison it never holds, so it
      is right exactly when dest is above src. */
  lemma BelowOrEqualExactly(f: Flags, r: Word, dest: Word, src: Word, w: Width)
    requires Compared(f, r, dest, src, w)
    ensures !ConditionBE(f)
    ensures (ConditionBE(f) <==> Low(dest, w) <= Low(src, w)) <==> Low(dest, w) > Low(src, w)
  {
    ConditionsAreOrders(f, r, dest, src, w);
  }

  /** Equal operands are not below or equal. */
  lemma EqualNotBelowOrEqual(f: Flags, r: Word, x: Word, w: Width)
    requires Compared(f, r, x, x, w)
    ensures f == Flags(false, true, true, false, false) && !ConditionBE(f)
  {
    ConditionsAreOrders(f, r, x, x, w);
    assert Ones(0) == 0;
  }
}
