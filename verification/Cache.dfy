/** The L1 data cache (nemu/src/memory/cache.c) over the flat memory of
    nemu/src/memory/memory.c: 128 groups of 8 lines of 64 bytes, write-through,
    victims chosen at random. */
module Cache {
  import opened Arithmetic
  import opened Words

  const MEM_SIZE: nat := 128 * 1024 * 1024
  const GROUPS: nat := 128
  const WAYS: nat := 8
  const LINE_SIZE: nat := 64

  datatype Line = Line(valid: bool, tag: nat, block: seq<Byte>)

  // ---------------------------------------------------------------------
  // Flat memory (memory.c:11-21)
  // ---------------------------------------------------------------------

  /** 256 to the n, for the lengths an access can have. */
  function Pow256(n: nat): nat
    requires n <= 4
  {
    if n == 0 then 1 else if n == 1 then 0x100 else if n == 2 then 0x1_0000
    else if n == 3 then 0x100_0000 else 0x1_0000_0000
  }

  /** The number a little-endian byte sequence stands for. */
  function FromBytes(b: seq<Byte>): nat {
    if |b| == 0 then 0 else b[0] + 0x100 * FromBytes(b[1..])
  }

  /** The n low bytes of x. */
  function ToBytes(x: nat, n: nat): (b: seq<Byte>)
    ensures |b| == n
  {
    if n == 0 then [] else [x % 0x100] + ToBytes(x / 0x100, n - 1)
  }

  function MemRead(mem: seq<Byte>, paddr: nat, len: nat): nat
    requires paddr + len <= |mem|
  {
    FromBytes(mem[paddr..paddr + len])
  }

  function MemWrite(mem: seq<Byte>, paddr: nat, b: seq<Byte>): (r: seq<Byte>)
    requires paddr + |b| <= |mem|
    ensures |r| == |mem|
  {
    mem[..paddr] + b + mem[paddr + |b|..]
  }

  lemma {:induction false} FromBytesBound(b: seq<Byte>)
    requires |b| <= 4
    ensures FromBytes(b) < Pow256(|b|)
  {
    if |b| > 0 {
      FromBytesBound(b[1..]);
    }
  }

  lemma {:induction false} FromBytesConcat(a: seq<Byte>, b: seq<Byte>)
    requires |a| + |b| <= 4
    ensures FromBytes(a + b) == FromBytes(a) + Pow256(|a|) * FromBytes(b)
  {
    if |a| == 0 {
      assert a + b == b;
    } else {
      assert (a + b)[1..] == a[1..] + b;
      FromBytesConcat(a[1..], b);
    }
  }

  /** Writing a value and reading it back. */
  lemma {:induction false} FromToBytes(x: nat, n: nat)
    requires n <= 4
    ensures FromBytes(ToBytes(x, n)) == x % Pow256(n)
  {
    if n > 0 {
      FromToBytes(x / 0x100, n - 1);
      assert ToBytes(x, n)[1..] == ToBytes(x / 0x100, n - 1);
      LowByte(x, n);
    }
  }

  lemma LowByte(x: nat, n: nat)
    requires 0 < n <= 4
    ensures x % Pow256(n) == x % 0x100 + 0x100 * (x / 0x100 % Pow256(n - 1))
  {
    LowDigit(x, Pow256(n), Pow256(n - 1));
  }

  lemma LowDigit(x: nat, d: nat, e: nat)
    requires d == 0x100 * e && e > 0
    ensures x % d == x % 0x100 + 0x100 * (x / 0x100 % e)
  {
    var q, r := x / 0x100 / e, x / 0x100 % e;
    assert x / 0x100 == e * q + r && d * q == 0x100 * (e * q);
    DivisionUnique(d, q, 0x100 * r + x % 0x100);
  }

  lemma {:induction false} ToBytesSplit(x: nat, n: nat, k: nat)
    requires k <= n <= 4
    ensures ToBytes(x, n)[..k] == ToBytes(x, k)
    ensures ToBytes(x, n)[k..] == ToBytes(x / Pow256(k), n - k)
  {
    if k > 0 {
      ToBytesSplit(x / 0x100, n - 1, k - 1);
      assert ToBytes(x, n)[1..] == ToBytes(x / 0x100, n - 1);
      assert ToBytes(x, n)[..k] == [x % 0x100] + ToBytes(x / 0x100, n - 1)[..k - 1];
      assert ToBytes(x, n)[k..] == ToBytes(x / 0x100, n - 1)[k - 1..];
      DivNested(x, k);
    }
  }

  lemma DivNested(x: nat, k: nat)
    requires 1 <= k <= 4
    ensures x / 0x100 / Pow256(k - 1) == x / Pow256(k)
  {
    if k == 1 {
    } else if k == 2 {
    } else if k == 3 {
    } else {
      assert k == 4;
    }
  }

  // ---------------------------------------------------------------------
  // Addresses
  // ---------------------------------------------------------------------

  function Tag(paddr: nat): nat { paddr / 0x2000 % 0x8_0000 }
  function Group(paddr: nat): nat { paddr / 64 % 128 }
  function Offset(paddr: nat): nat { paddr % 64 }
  function Base(tag: nat, group: nat): nat { tag * 0x2000 + group * 64 }

  lemma AddressParts(paddr: nat)
    requires paddr < 0x1_0000_0000
    ensures Base(Tag(paddr), Group(paddr)) + Offset(paddr) == paddr
    ensures Group(paddr) < 128 && Offset(paddr) < 64
  {
    var q := paddr / 64;
    var tag := q / 128;
    assert paddr == 64 * q + Offset(paddr) && q == 128 * tag + Group(paddr);
    DivisionUnique(0x2000, tag, 64 * Group(paddr) + Offset(paddr));
    assert paddr / 0x2000 == tag && tag < 0x8_0000;
  }

  /** Memory is a whole number of lines. */
  lemma LineInMemory(paddr: nat)
    requires paddr < MEM_SIZE
    ensures Base(Tag(paddr), Group(paddr)) + LINE_SIZE <= MEM_SIZE
  {
    AddressParts(paddr);
    var q := paddr / 64;
    assert Base(Tag(paddr), Group(paddr)) == 64 * q && q < 0x20_0000;
  }

  /** Lines of different group or tag do not overlap. */
  lemma BasesApart(tag: nat, group: nat, paddr: nat)
    requires group < 128 && paddr < 0x1_0000_0000
    requires Base(tag, group) <= paddr < Base(tag, group) + 64
    ensures tag == Tag(paddr) && group == Group(paddr) && paddr - Base(tag, group) == Offset(paddr)
  {
    var k := paddr - Base(tag, group);
    assert paddr / 64 == 128 * tag + group && paddr % 64 == k by {
      DivisionUnique(64, 128 * tag + group, k);
    }
    assert Group(paddr) == group by {
      DivisionUnique(128, tag, group);
    }
    assert paddr / 0x2000 == tag by {
      DivisionUnique(0x2000, tag, 64 * group + k);
    }
    assert tag < 0x8_0000;
  }

  predicate Crosses(paddr: nat, len: nat) { Offset(paddr) + len > 64 }

  /** memcpy of a few bytes into an uninitialised 32-bit variable: the bytes
      above them are left to chance. */
  method CopyLow(b: seq<Byte>) returns (x: Word)
    requires 1 <= |b| <= 4
    ensures x % Pow256(|b|) == FromBytes(b)
  {
    var junk: Word :| true;
    FromBytesBound(b);
    x := PutLow(junk, FromBytes(b), |b|);
  }

  function PutLow(junk: Word, v: nat, n: nat): (x: Word)
    requires 1 <= n <= 4 && v < Pow256(n)
    ensures x % Pow256(n) == v
  {
    PutLowBound(junk, v, n);
    junk - junk % Pow256(n) + v
  }

  lemma PutLowBound(junk: Word, v: nat, n: nat)
    requires 1 <= n <= 4 && v < Pow256(n)
    ensures 0 <= junk - junk % Pow256(n) + v < 0x1_0000_0000
    ensures (junk - junk % Pow256(n) + v) % Pow256(n) == v
  {
    var d := Pow256(n);
    var q := junk / d;
    assert junk == d * q + junk % d;
    DivisionUnique(d, q, v);
    TopWord(q, v, n);
  }

  lemma TopWord(q: int, v: nat, n: nat)
    requires 1 <= n <= 4 && v < Pow256(n) && 0 <= Pow256(n) * q < 0x1_0000_0000
    ensures 0 <= Pow256(n) * q + v < 0x1_0000_0000
  {
    if n == 1 {
    } else if n == 2 {
    } else if n == 3 {
    } else {
      assert n == 4;
    }
  }

  /** Joining the two halves of an access: x (k bytes) below y shifted by k
      bytes.  Their bits are disjoint, so the | of the code is a sum.  Whatever
      y holds above its own m bytes ends up above k + m bytes. */
  function Join(x: nat, y: Word, k: nat): (z: Word)
    requires 1 <= k <= 3 && x < Pow256(k)
  {
    JoinBound(x, y, k);
    x + y * Pow256(k) % 0x1_0000_0000
  }

  lemma JoinBound(x: nat, y: Word, k: nat)
    requires 1 <= k <= 3 && x < Pow256(k)
    ensures 0 <= x + y * Pow256(k) % 0x1_0000_0000 < 0x1_0000_0000
  {
    if k == 1 {
    } else if k == 2 {
    } else {
      assert k == 3;
    }
  }

  lemma JoinLow(x: nat, y: Word, k: nat, m: nat)
    requires 1 <= k && 1 <= m && k + m <= 4 && x < Pow256(k)
    ensures Join(x, y, k) % Pow256(k + m) == x + Pow256(k) * (y % Pow256(m))
  {
    ShiftWraps(y, k);
    TruncateTwice(y, 4 - k, m);
    LowAbove(x, y % Pow256(4 - k), k, m);
  }

  lemma ShiftWraps(y: Word, k: nat)
    requires 1 <= k <= 3
    ensures y * Pow256(k) % 0x1_0000_0000 == Pow256(k) * (y % Pow256(4 - k))
  {
    if k == 1 {
    } else if k == 2 {
    } else {
      assert k == 3;
    }
  }

  lemma TruncateTwice(y: nat, n: nat, m: nat)
    requires 1 <= m <= n <= 3
    ensures y % Pow256(n) % Pow256(m) == y % Pow256(m)
  {
    if n == 3 && m == 1 {
    } else if n == 3 && m == 2 {
    } else if n == 2 && m == 1 {
    } else {
      assert n == m;
    }
  }

  /** Taking k + m bytes keeps the k low ones and m of the rest. */
  lemma LowAbove(x: nat, w: nat, k: nat, m: nat)
    requires k + m <= 4 && x < Pow256(k)
    ensures (x + Pow256(k) * w) % Pow256(k + m) == x + Pow256(k) * (w % Pow256(m))
  {
    var p, d := Pow256(k), Pow256(m);
    var q, r := w / d, w % d;
    assert Pow256(k + m) == p * d;
    assert w == d * q + r;
    assert p * w == p * d * q + p * r;
    assert p * r <= p * (d - 1);
    assert x + p * r < p * d;
    DivisionUnique(p * d, q, x + p * r);
  }

  /** The value assembled from both sides of a line boundary. */
  lemma JoinBytes(a: seq<Byte>, b: seq<Byte>, y: Word)
    requires |a| > 0 && |b| > 0 && |a| + |b| <= 4 && y % Pow256(|b|) == FromBytes(b)
    ensures FromBytes(a) < Pow256(|a|)
    ensures Join(FromBytes(a), y, |a|) % Pow256(|a| + |b|) == FromBytes(a + b)
  {
    FromBytesBound(a);
    JoinLow(FromBytes(a), y, |a|, |b|);
    FromBytesConcat(a, b);
  }

  // ---------------------------------------------------------------------
  // Cache contents as values
  // ---------------------------------------------------------------------

  type CacheGroup = seq<Line>

  predicate LineFits(line: Line, g: nat) {
    |line.block| == LINE_SIZE && (line.valid ==> Base(line.tag, g) + LINE_SIZE <= MEM_SIZE)
  }

  /** Valid lines come first in their group, with distinct tags. */
  ghost predicate GroupOk(group: CacheGroup, g: nat) {
    && |group| == WAYS
    && (forall i :: 0 <= i < WAYS ==> LineFits(group[i], g))
    && (forall i, j :: 0 <= i < j < WAYS && group[j].valid ==> group[i].valid && group[i].tag != group[j].tag)
  }

  ghost predicate Structure(c: seq<CacheGroup>) {
    |c| == GROUPS && forall g :: 0 <= g < GROUPS ==> GroupOk(c[g], g)
  }

  /** The addresses from lo up to hi. */
  function Range(lo: nat, hi: nat): set<nat> {
    set a: nat | lo <= a < hi && Within(a, lo, hi)
  }

  predicate Within(a: nat, lo: nat, hi: nat) { lo <= a < hi }

  /** The line agrees with memory at all its addresses but those in stale. */
  ghost predicate LineAgrees(line: Line, g: nat, mem: seq<Byte>, stale: set<nat>)
    requires |mem| == MEM_SIZE && LineFits(line, g)
  {
    line.valid ==>
      forall k :: 0 <= k < LINE_SIZE ==>
        Base(line.tag, g) + k in stale || line.block[k] == mem[Base(line.tag, g) + k]
  }

  ghost predicate GroupAgrees(group: CacheGroup, g: nat, mem: seq<Byte>, stale: set<nat>)
    requires |mem| == MEM_SIZE && GroupOk(group, g)
  {
    forall i {:trigger LineAgrees(group[i], g, mem, stale)} :: 0 <= i < WAYS ==>
      LineAgrees(group[i], g, mem, stale)
  }

  /** Every valid line agrees with memory at all its addresses but those in stale. */
  ghost predicate AgreesExcept(c: seq<CacheGroup>, mem: seq<Byte>, stale: set<nat>)
    requires |mem| == MEM_SIZE && Structure(c)
  {
    forall g {:trigger GroupAgrees(c[g], g, mem, stale)} :: 0 <= g < GROUPS ==>
      GroupAgrees(c[g], g, mem, stale)
  }

  /** Every valid line equals its 64 bytes of memory. */
  ghost predicate Coherent(c: seq<CacheGroup>, mem: seq<Byte>)
    requires |mem| == MEM_SIZE && Structure(c)
  {
    AgreesExcept(c, mem, {})
  }

  ghost predicate Holds(line: Line, tag: nat) { line.valid && line.tag == tag }

  ghost predicate Cached(c: seq<CacheGroup>, paddr: nat)
    requires Structure(c)
  {
    exists i :: 0 <= i < WAYS && Holds(c[Group(paddr)][i], Tag(paddr))
  }

  lemma NotCached(c: seq<CacheGroup>, paddr: nat)
    requires Structure(c) && !Cached(c, paddr)
    ensures forall i :: 0 <= i < WAYS ==> !Holds(c[Group(paddr)][i], Tag(paddr))
  {
  }

  ghost predicate ShownBy(c: seq<CacheGroup>, a: nat, way: nat, v: Byte)
    requires Structure(c) && way < WAYS
  {
    var line := c[Group(a)][way];
    Holds(line, Tag(a)) && |line.block| == LINE_SIZE && line.block[Offset(a)] == v
  }

  /** The line that holds address a has v there. */
  ghost predicate Shows(c: seq<CacheGroup>, a: nat, v: Byte)
    requires Structure(c)
  {
    exists way :: 0 <= way < WAYS && ShownBy(c, a, way, v)
  }

  /** The cached bytes that are not what memory holds. */
  ghost function StaleSet(c: seq<CacheGroup>, mem: seq<Byte>): set<nat>
    requires |mem| == MEM_SIZE && Structure(c)
  {
    set a: nat | a < MEM_SIZE && exists v: Byte :: v != mem[a] && Shows(c, a, v)
  }

  lemma ShownAgrees(c: seq<CacheGroup>, mem: seq<Byte>, stale: set<nat>, a: nat, v: Byte)
    requires |mem| == MEM_SIZE && Structure(c) && AgreesExcept(c, mem, stale)
    requires a < MEM_SIZE && a !in stale && Shows(c, a, v)
    ensures v == mem[a]
  {
    var way :| 0 <= way < WAYS && ShownBy(c, a, way, v);
    AddressParts(a);
    var g := Group(a);
    assert GroupOk(c[g], g) && LineFits(c[g][way], g);
    assert GroupAgrees(c[g], g, mem, stale) && LineAgrees(c[g][way], g, mem, stale);
    assert Base(c[g][way].tag, g) + Offset(a) == a;
  }

  /** The stale bytes are the least set outside which the lines agree with memory. */
  lemma StaleIsLeast(c: seq<CacheGroup>, mem: seq<Byte>, stale: set<nat>)
    requires |mem| == MEM_SIZE && Structure(c)
    ensures AgreesExcept(c, mem, stale) <==> StaleSet(c, mem) <= stale
  {
    if AgreesExcept(c, mem, stale) {
      forall a | a in StaleSet(c, mem) ensures a in stale {
        var v: Byte :| v != mem[a] && Shows(c, a, v);
        if a !in stale {
          ShownAgrees(c, mem, stale, a, v);
        }
      }
    }
    if StaleSet(c, mem) <= stale {
      forall g | 0 <= g < GROUPS ensures GroupAgrees(c[g], g, mem, stale) {
        assert GroupOk(c[g], g);
        forall i | 0 <= i < WAYS ensures LineAgrees(c[g][i], g, mem, stale) {
          LineStale(c, mem, stale, g, i);
        }
      }
    }
  }

  lemma LineStale(c: seq<CacheGroup>, mem: seq<Byte>, stale: set<nat>, g: nat, i: nat)
    requires |mem| == MEM_SIZE && Structure(c) && StaleSet(c, mem) <= stale
    requires g < GROUPS && i < WAYS && GroupOk(c[g], g) && LineFits(c[g][i], g)
    ensures LineAgrees(c[g][i], g, mem, stale)
  {
    var line := c[g][i];
    if line.valid {
      forall k | 0 <= k < LINE_SIZE
        ensures Base(line.tag, g) + k in stale || line.block[k] == mem[Base(line.tag, g) + k]
      {
        var a := Base(line.tag, g) + k;
        BasesApart(line.tag, g, a);
        StaleByte(c, mem, i, a, line.block[k]);
      }
    }
  }

  lemma StaleByte(c: seq<CacheGroup>, mem: seq<Byte>, i: nat, a: nat, v: Byte)
    requires |mem| == MEM_SIZE && Structure(c) && i < WAYS && a < MEM_SIZE && ShownBy(c, a, i, v)
    ensures a in StaleSet(c, mem) || v == mem[a]
  {
    assert Shows(c, a, v);
  }

  /** At most one line differs; it holds paddr now, and either held it before or
      has been copied from memory. */
  ghost predicate FilledFor(c: seq<CacheGroup>, c': seq<CacheGroup>, mem: seq<Byte>, paddr: nat)
    requires Structure(c) && Structure(c') && |mem| == MEM_SIZE
  {
    && (forall g :: 0 <= g < GROUPS && g != Group(paddr) ==> c'[g] == c[g])
    && exists way :: 0 <= way < WAYS && FilledAt(c[Group(paddr)], c'[Group(paddr)], mem, way, paddr)
  }

  ghost predicate FilledAt(group: CacheGroup, group': CacheGroup, mem: seq<Byte>, way: nat, paddr: nat)
    requires |group| == |group'| == WAYS && way < WAYS && |mem| == MEM_SIZE
  {
    && Holds(group'[way], Tag(paddr))
    && (forall i :: 0 <= i < WAYS && i != way ==> group'[i] == group[i])
    && (group'[way] == group[way]
        || (CopiedFrom(group'[way], mem, Base(Tag(paddr), Group(paddr))) && (group[way].valid ==> Full(group))))
  }

  ghost predicate CopiedFrom(line: Line, mem: seq<Byte>, base: nat)
    requires |mem| == MEM_SIZE
  {
    base + LINE_SIZE <= MEM_SIZE && line.block == mem[base..base + LINE_SIZE]
  }

  /** What such a change does to the addresses that are cached. */
  lemma FilledCached(c: seq<CacheGroup>, c': seq<CacheGroup>, mem: seq<Byte>, paddr: nat, a: nat)
    requires Structure(c) && Structure(c') && |mem| == MEM_SIZE && FilledFor(c, c', mem, paddr)
    ensures Cached(c', paddr)
    ensures Cached(c', a) ==> Cached(c, a) || (Group(a) == Group(paddr) && Tag(a) == Tag(paddr))
  {
    var way :| 0 <= way < WAYS && FilledAt(c[Group(paddr)], c'[Group(paddr)], mem, way, paddr);
    assert GroupOk(c[Group(paddr)], Group(paddr)) && GroupOk(c'[Group(paddr)], Group(paddr));
    assert Holds(c'[Group(paddr)][way], Tag(paddr));
    if Cached(c', a) {
      var i :| 0 <= i < WAYS && Holds(c'[Group(a)][i], Tag(a));
      assert Group(a) != Group(paddr) || i != way ==> Holds(c[Group(a)][i], Tag(a));
    }
  }

  /** The address whose line a read fills when it is not cached. */
  ghost function FillAddress(c: seq<CacheGroup>, paddr: nat, len: nat): nat
    requires Structure(c)
  {
    if Crosses(paddr, len) && Cached(c, paddr) then paddr + LINE_SIZE - Offset(paddr) else paddr
  }

  ghost predicate Full(group: CacheGroup) {
    forall i :: 0 <= i < |group| ==> group[i].valid
  }

  ghost predicate Lost(c: seq<CacheGroup>, c': seq<CacheGroup>, a: nat)
    requires Structure(c) && Structure(c')
  {
    Cached(c, a) && !Cached(c', a)
  }

  /** While the group of paddr has an invalid line nothing is lost, and from a full
      group at most one line. */
  ghost predicate FewLost(c: seq<CacheGroup>, c': seq<CacheGroup>, paddr: nat)
    requires Structure(c) && Structure(c')
  {
    && (forall a :: Lost(c, c', a) ==> Group(a) == Group(paddr) && Full(c[Group(paddr)]))
    && (forall a, b :: Lost(c, c', a) && Lost(c, c', b) ==> Tag(a) == Tag(b))
  }

  lemma FilledLoses(c: seq<CacheGroup>, c': seq<CacheGroup>, mem: seq<Byte>, paddr: nat)
    requires Structure(c) && Structure(c') && |mem| == MEM_SIZE && FilledFor(c, c', mem, paddr)
    ensures FewLost(c, c', paddr)
  {
    var g0 := Group(paddr);
    var way :| 0 <= way < WAYS && FilledAt(c[g0], c'[g0], mem, way, paddr);
    forall a | Lost(c, c', a)
      ensures Group(a) == g0 && Full(c[g0]) && Tag(a) == c[g0][way].tag
    {
      LostLine(c, c', mem, paddr, way, a);
    }
  }

  lemma LostLine(c: seq<CacheGroup>, c': seq<CacheGroup>, mem: seq<Byte>, paddr: nat, way: nat, a: nat)
    requires Structure(c) && Structure(c') && |mem| == MEM_SIZE && FilledFor(c, c', mem, paddr) && way < WAYS
    requires FilledAt(c[Group(paddr)], c'[Group(paddr)], mem, way, paddr) && Lost(c, c', a)
    ensures Group(a) == Group(paddr) && Full(c[Group(paddr)]) && Tag(a) == c[Group(paddr)][way].tag
  {
    var i :| 0 <= i < WAYS && Holds(c[Group(a)][i], Tag(a));
    assert !Holds(c'[Group(a)][i], Tag(a));
  }

  /** It makes no byte stale. */
  lemma FilledAgrees(c: seq<CacheGroup>, c': seq<CacheGroup>, mem: seq<Byte>, paddr: nat, stale: set<nat>)
    requires Structure(c) && Structure(c') && |mem| == MEM_SIZE && FilledFor(c, c', mem, paddr)
    requires AgreesExcept(c, mem, stale)
    ensures AgreesExcept(c', mem, stale)
  {
    var g0 := Group(paddr);
    var way :| 0 <= way < WAYS && FilledAt(c[g0], c'[g0], mem, way, paddr);
    forall g | 0 <= g < GROUPS ensures GroupAgrees(c'[g], g, mem, stale) {
      assert GroupOk(c[g], g) && GroupOk(c'[g], g) && GroupAgrees(c[g], g, mem, stale);
      forall i | 0 <= i < WAYS ensures LineAgrees(c'[g][i], g, mem, stale) {
        assert LineAgrees(c[g][i], g, mem, stale);
      }
    }
  }

  lemma AlreadyFilled(c: seq<CacheGroup>, mem: seq<Byte>, paddr: nat, way: nat)
    requires Structure(c) && |mem| == MEM_SIZE && way < WAYS && Holds(c[Group(paddr)][way], Tag(paddr))
    ensures Cached(c, paddr) && FilledFor(c, c, mem, paddr)
  {
    assert GroupOk(c[Group(paddr)], Group(paddr));
    assert FilledAt(c[Group(paddr)], c[Group(paddr)], mem, way, paddr);
  }

  /** The rest of a crossing access lies in one line. */
  lemma NextLineStart(paddr: nat, len: nat)
    requires len <= 4 && Crosses(paddr, len)
    ensures var next := paddr + LINE_SIZE - Offset(paddr);
            Offset(next) == 0 && !Crosses(next, Offset(paddr) + len - LINE_SIZE)
    ensures 1 <= LINE_SIZE - Offset(paddr) < len && !Crosses(paddr, LINE_SIZE - Offset(paddr))
  {
  }

  lemma InsideBoth(paddr: nat, len: nat, k: nat)
    requires len <= 4 && Crosses(paddr, len) && k == LINE_SIZE - Offset(paddr)
    ensures 1 <= k < len && !Crosses(paddr, k) && !Crosses(paddr + k, len - k)
  {
    NextLineStart(paddr, len);
  }

  /** What a read sees at address a: a line only if the first byte of the read is
      in one too. */
  ghost predicate SeenAs(c: seq<CacheGroup>, mem: seq<Byte>, paddr: nat, a: nat, v: Byte)
    requires Structure(c) && |mem| == MEM_SIZE && a < MEM_SIZE
  {
    if Cached(c, paddr) && Cached(c, a) then Shows(c, a, v) else v == mem[a]
  }

  ghost predicate ByteSeen(c: seq<CacheGroup>, mem: seq<Byte>, paddr: nat, view: seq<Byte>, i: nat)
    requires Structure(c) && |mem| == MEM_SIZE && paddr + |view| <= MEM_SIZE && i < |view|
  {
    SeenAs(c, mem, paddr, paddr + i, view[i])
  }

  /** The bytes of a read. */
  ghost predicate ReadAs(c: seq<CacheGroup>, mem: seq<Byte>, paddr: nat, view: seq<Byte>)
    requires Structure(c) && |mem| == MEM_SIZE && paddr + |view| <= MEM_SIZE
  {
    forall i {:trigger ByteSeen(c, mem, paddr, view, i)} :: 0 <= i < |view| ==> ByteSeen(c, mem, paddr, view, i)
  }

  /** Outside the stale bytes that is memory. */
  lemma ReadIsMemory(c: seq<CacheGroup>, mem: seq<Byte>, paddr: nat, view: seq<Byte>, stale: set<nat>)
    requires Structure(c) && |mem| == MEM_SIZE && paddr + |view| <= MEM_SIZE
    requires ReadAs(c, mem, paddr, view) && AgreesExcept(c, mem, stale)
    ensures forall i :: 0 <= i < |view| && paddr + i !in stale ==> view[i] == mem[paddr + i]
    ensures stale == {} ==> view == mem[paddr..paddr + |view|]
  {
    forall i | 0 <= i < |view| && paddr + i !in stale ensures view[i] == mem[paddr + i] {
      assert ByteSeen(c, mem, paddr, view, i);
      if Shows(c, paddr + i, view[i]) {
        ShownAgrees(c, mem, stale, paddr + i, view[i]);
      }
    }
  }

  /** The bytes of a line that a hit copies. */
  lemma HitShows(c: seq<CacheGroup>, mem: seq<Byte>, paddr: nat, way: nat, len: nat)
    requires Structure(c) && |mem| == MEM_SIZE && paddr + len <= MEM_SIZE && !Crosses(paddr, len)
    requires way < WAYS && Holds(c[Group(paddr)][way], Tag(paddr))
    ensures |c[Group(paddr)][way].block| == LINE_SIZE
    ensures ReadAs(c, mem, paddr, c[Group(paddr)][way].block[Offset(paddr)..Offset(paddr) + len])
  {
    assert GroupOk(c[Group(paddr)], Group(paddr)) && LineFits(c[Group(paddr)][way], Group(paddr));
    var block := c[Group(paddr)][way].block;
    var view := block[Offset(paddr)..Offset(paddr) + len];
    forall i | 0 <= i < len ensures ByteSeen(c, mem, paddr, view, i) {
      HitShowsAt(c, paddr, way, len, i);
    }
  }

  lemma HitShowsAt(c: seq<CacheGroup>, paddr: nat, way: nat, len: nat, i: nat)
    requires Structure(c) && paddr + len <= MEM_SIZE && !Crosses(paddr, len) && i < len
    requires way < WAYS && Holds(c[Group(paddr)][way], Tag(paddr)) && |c[Group(paddr)][way].block| == LINE_SIZE
    ensures Cached(c, paddr) && Shows(c, paddr + i, c[Group(paddr)][way].block[Offset(paddr) + i])
  {
    SameLine(paddr, len, paddr + i);
    assert ShownBy(c, paddr + i, way, c[Group(paddr)][way].block[Offset(paddr) + i]);
  }

  /** The two parts of a read that starts in a cached line. */
  lemma ReadAsBoth(c: seq<CacheGroup>, mem: seq<Byte>, paddr: nat, a: seq<Byte>, b: seq<Byte>)
    requires Structure(c) && |mem| == MEM_SIZE && paddr + |a| + |b| <= MEM_SIZE && Cached(c, paddr)
    requires Offset(paddr) + |a| == LINE_SIZE && 0 < |b| <= LINE_SIZE
    requires ReadAs(c, mem, paddr, a) && ReadAs(c, mem, paddr + |a|, b)
    ensures ReadAs(c, mem, paddr, a + b)
  {
    forall i | 0 <= i < |a + b| ensures ByteSeen(c, mem, paddr, a + b, i) {
      if i < |a| {
        SeenInFirst(c, mem, paddr, a, a + b, i);
      } else {
        InNextLine(paddr, paddr + |a|, |b|, i - |a|);
        SeenInSecond(c, mem, paddr, paddr + |a|, b, a + b, i - |a|);
      }
    }
  }

  lemma SeenInFirst(c: seq<CacheGroup>, mem: seq<Byte>, paddr: nat, a: seq<Byte>, view: seq<Byte>, i: nat)
    requires Structure(c) && |mem| == MEM_SIZE && |a| <= |view| && paddr + |view| <= MEM_SIZE
    requires i < |a| && view[i] == a[i] && ReadAs(c, mem, paddr, a)
    ensures ByteSeen(c, mem, paddr, view, i)
  {
    assert ByteSeen(c, mem, paddr, a, i);
  }

  lemma SeenInSecond(c: seq<CacheGroup>, mem: seq<Byte>, paddr: nat, next: nat, b: seq<Byte>, view: seq<Byte>, j: nat)
    requires Structure(c) && |mem| == MEM_SIZE && paddr + |view| == next + |b| <= MEM_SIZE && Cached(c, paddr)
    requires j < |b| && Group(next + j) == Group(next) && Tag(next + j) == Tag(next)
    requires paddr <= next && view[next - paddr + j] == b[j] && ReadAs(c, mem, next, b)
    ensures ByteSeen(c, mem, paddr, view, next - paddr + j)
  {
    assert ByteSeen(c, mem, next, b, j);
    SeenFromBefore(c, mem, paddr, next, next + j, b[j]);
  }

  lemma SeenFromBefore(c: seq<CacheGroup>, mem: seq<Byte>, paddr: nat, next: nat, a: nat, v: Byte)
    requires Structure(c) && |mem| == MEM_SIZE && Cached(c, paddr)
    requires Group(a) == Group(next) && Tag(a) == Tag(next) && a < MEM_SIZE && SeenAs(c, mem, next, a, v)
    ensures SeenAs(c, mem, paddr, a, v)
  {
    CachedTogether(c, next, a);
  }

  lemma InNextLine(paddr: nat, next: nat, len: nat, j: nat)
    requires Offset(paddr) + next == paddr + LINE_SIZE && j < len <= LINE_SIZE && next + len <= MEM_SIZE
    ensures Group(next + j) == Group(next) && Tag(next + j) == Tag(next)
  {
    assert Offset(next) == 0;
    SameLine(next, len, next + j);
  }

  lemma CachedTogether(c: seq<CacheGroup>, a: nat, b: nat)
    requires Structure(c) && Group(a) == Group(b) && Tag(a) == Tag(b)
    ensures Cached(c, a) <==> Cached(c, b)
  {
  }

  /** Only blocks differ. */
  ghost predicate SameKeys(c: seq<CacheGroup>, c': seq<CacheGroup>)
    requires Structure(c) && Structure(c')
  {
    forall g, i {:trigger SameKey(c, c', g, i)} :: 0 <= g < GROUPS && 0 <= i < WAYS ==> SameKey(c, c', g, i)
  }

  ghost predicate SameKey(c: seq<CacheGroup>, c': seq<CacheGroup>, g: nat, i: nat)
    requires Structure(c) && Structure(c') && g < GROUPS && i < WAYS
  {
    c'[g][i].valid == c[g][i].valid && c'[g][i].tag == c[g][i].tag
  }

  lemma SameKeysTwice(c: seq<CacheGroup>, c': seq<CacheGroup>, c'': seq<CacheGroup>)
    requires Structure(c) && Structure(c') && Structure(c'') && SameKeys(c, c') && SameKeys(c', c'')
    ensures SameKeys(c, c'')
  {
    forall g, i | 0 <= g < GROUPS && 0 <= i < WAYS ensures SameKey(c, c'', g, i) {
      assert SameKey(c, c', g, i) && SameKey(c', c'', g, i);
    }
  }

  function SetLine(c: seq<CacheGroup>, g: nat, way: nat, line: Line): (c': seq<CacheGroup>)
    requires g < |c| && way < |c[g]|
    ensures |c'| == |c|
  {
    c[g := c[g][way := line]]
  }

  lemma GroupPlaced(group: CacheGroup, g: nat, way: nat, line: Line)
    requires GroupOk(group, g) && way < WAYS && line.valid && LineFits(line, g)
    requires forall h :: 0 <= h < way ==> group[h].valid
    requires forall h :: 0 <= h < WAYS ==> !Holds(group[h], line.tag)
    ensures GroupOk(group[way := line], g)
  {
    var group' := group[way := line];
    forall i, j | 0 <= i < j < WAYS && group'[j].valid
      ensures group'[i].valid && group'[i].tag != group'[j].tag
    {
      if i == way {
        assert group[j].valid ==> !Holds(group[j], line.tag);
      } else if j == way {
        assert !Holds(group[i], line.tag);
      }
    }
  }

  /** A line filled from memory keeps the valid lines a prefix with distinct tags. */
  lemma Placed(c: seq<CacheGroup>, mem: seq<Byte>, paddr: nat, way: nat)
    requires |mem| == MEM_SIZE && Structure(c) && paddr < MEM_SIZE && way < WAYS && !Cached(c, paddr)
    requires forall h :: 0 <= h < way ==> c[Group(paddr)][h].valid
    requires c[Group(paddr)][way].valid ==> Full(c[Group(paddr)])
    ensures Base(Tag(paddr), Group(paddr)) + LINE_SIZE <= MEM_SIZE
    ensures var base := Base(Tag(paddr), Group(paddr));
            var c' := SetLine(c, Group(paddr), way, Line(true, Tag(paddr), mem[base..base + LINE_SIZE]));
            Structure(c') && FilledFor(c, c', mem, paddr)
  {
    LineInMemory(paddr);
    NotCached(c, paddr);
    var g, base := Group(paddr), Base(Tag(paddr), Group(paddr));
    var line := Line(true, Tag(paddr), mem[base..base + LINE_SIZE]);
    var c' := SetLine(c, g, way, line);
    assert GroupOk(c[g], g);
    GroupPlaced(c[g], g, way, line);
    assert forall h :: 0 <= h < GROUPS && h != g ==> c'[h] == c[h];
    assert FilledAt(c[g], c'[g], mem, way, paddr);
  }

  /** An access inside one line touches addresses of that line only. */
  lemma SameLine(paddr: nat, len: nat, a: nat)
    requires paddr + len <= MEM_SIZE && !Crosses(paddr, len) && paddr <= a < paddr + len
    ensures Group(a) == Group(paddr) && Tag(a) == Tag(paddr) && Offset(a) == Offset(paddr) + (a - paddr)
  {
    AddressParts(paddr);
    BasesApart(Tag(paddr), Group(paddr), a);
  }

  /** A line that does not hold the access is not stale at its addresses. */
  lemma OtherLine(line: Line, g: nat, mem: seq<Byte>, paddr: nat, len: nat, stale: set<nat>)
    requires |mem| == MEM_SIZE && g < GROUPS && LineFits(line, g)
    requires paddr + len <= MEM_SIZE && !Crosses(paddr, len)
    requires !(g == Group(paddr) && Holds(line, Tag(paddr)))
    requires LineAgrees(line, g, mem, stale)
    ensures LineAgrees(line, g, mem, stale - Range(paddr, paddr + len))
  {
    if line.valid {
      forall k | 0 <= k < LINE_SIZE
        ensures Base(line.tag, g) + k in stale - Range(paddr, paddr + len)
                || line.block[k] == mem[Base(line.tag, g) + k]
      {
        var a := Base(line.tag, g) + k;
        if paddr <= a < paddr + len {
          SameLine(paddr, len, a);
          BasesApart(line.tag, g, a);
        }
      }
    }
  }

  /** Writes inside a line that is not cached need no patch. */
  lemma NoLineHolds(c: seq<CacheGroup>, mem: seq<Byte>, paddr: nat, len: nat, stale: set<nat>)
    requires |mem| == MEM_SIZE && Structure(c) && paddr + len <= MEM_SIZE && !Crosses(paddr, len)
    requires paddr < MEM_SIZE && AgreesExcept(c, mem, stale) && !Cached(c, paddr)
    ensures AgreesExcept(c, mem, stale - Range(paddr, paddr + len))
  {
    NotCached(c, paddr);
    forall g | 0 <= g < GROUPS ensures GroupAgrees(c[g], g, mem, stale - Range(paddr, paddr + len)) {
      assert GroupOk(c[g], g) && GroupAgrees(c[g], g, mem, stale);
      forall i | 0 <= i < WAYS ensures LineAgrees(c[g][i], g, mem, stale - Range(paddr, paddr + len)) {
        OtherLine(c[g][i], g, mem, paddr, len, stale);
      }
    }
  }

  function PatchedLine(line: Line, offset: nat, b: seq<Byte>): Line
    requires offset + |b| <= |line.block|
  {
    line.(block := line.block[..offset] + b + line.block[offset + |b|..])
  }

  /** Copying the written bytes into the line that holds them. */
  lemma PatchAgrees(line: Line, g: nat, mem: seq<Byte>, paddr: nat, b: seq<Byte>, stale: set<nat>)
    requires |mem| == MEM_SIZE && LineFits(line, g) && g == Group(paddr) && Holds(line, Tag(paddr))
    requires paddr + |b| <= MEM_SIZE && !Crosses(paddr, |b|) && mem[paddr..paddr + |b|] == b
    requires LineAgrees(line, g, mem, stale)
    ensures Offset(paddr) + |b| <= |line.block|
    ensures var line' := PatchedLine(line, Offset(paddr), b);
            LineFits(line', g) && LineAgrees(line', g, mem, stale - Range(paddr, paddr + |b|))
  {
    AddressParts(paddr);
    PatchedBytes(line.block, Base(line.tag, g), mem, Offset(paddr), b, stale);
  }

  lemma PatchedBytes(block: seq<Byte>, base: nat, mem: seq<Byte>, offset: nat, b: seq<Byte>, stale: set<nat>)
    requires |block| == LINE_SIZE && base + LINE_SIZE <= |mem| && offset + |b| <= LINE_SIZE
    requires mem[base + offset..base + offset + |b|] == b
    requires forall k :: 0 <= k < LINE_SIZE ==> base + k in stale || block[k] == mem[base + k]
    ensures var block' := block[..offset] + b + block[offset + |b|..];
            && |block'| == LINE_SIZE
            && forall k :: 0 <= k < LINE_SIZE ==>
                 base + k in stale - Range(base + offset, base + offset + |b|) || block'[k] == mem[base + k]
  {
    var block' := block[..offset] + b + block[offset + |b|..];
    forall k | 0 <= k < LINE_SIZE
      ensures base + k in stale - Range(base + offset, base + offset + |b|) || block'[k] == mem[base + k]
    {
      if offset <= k < offset + |b| {
        assert block'[k] == b[k - offset] == mem[base + offset..base + offset + |b|][k - offset];
      } else {
        assert block'[k] == block[k];
      }
    }
  }

  lemma Patched(c: seq<CacheGroup>, mem: seq<Byte>, paddr: nat, way: nat, b: seq<Byte>, stale: set<nat>)
    requires |mem| == MEM_SIZE && Structure(c) && paddr < MEM_SIZE && AgreesExcept(c, mem, stale)
    requires way < WAYS && Holds(c[Group(paddr)][way], Tag(paddr))
    requires paddr + |b| <= MEM_SIZE && !Crosses(paddr, |b|) && mem[paddr..paddr + |b|] == b
    ensures Offset(paddr) + |b| <= |c[Group(paddr)][way].block|
    ensures var c' := SetLine(c, Group(paddr), way, PatchedLine(c[Group(paddr)][way], Offset(paddr), b));
            Structure(c') && AgreesExcept(c', mem, stale - Range(paddr, paddr + |b|)) && SameKeys(c, c')
  {
    var g0, stale' := Group(paddr), stale - Range(paddr, paddr + |b|);
    assert GroupOk(c[g0], g0) && GroupAgrees(c[g0], g0, mem, stale);
    PatchAgrees(c[g0][way], g0, mem, paddr, b, stale);
    var line' := PatchedLine(c[g0][way], Offset(paddr), b);
    var c' := SetLine(c, g0, way, line');
    assert GroupOk(c'[g0], g0);
    forall g | 0 <= g < GROUPS ensures GroupOk(c'[g], g) && GroupAgrees(c'[g], g, mem, stale') {
      assert GroupOk(c[g], g) && GroupAgrees(c[g], g, mem, stale);
      forall i | 0 <= i < WAYS ensures LineAgrees(c'[g][i], g, mem, stale') {
        if !(g == g0 && i == way) {
          assert c'[g][i] == c[g][i];
          OtherWay(c[g], g, paddr, i, way);
          OtherLine(c[g][i], g, mem, paddr, |b|, stale);
        }
      }
    }
  }

  /** Outside [lo, hi) the lines show what they did. */
  ghost predicate SameShown(c: seq<CacheGroup>, c': seq<CacheGroup>, lo: nat, hi: nat)
    requires Structure(c) && Structure(c')
  {
    forall a, v: Byte {:trigger Shows(c', a, v)} ::
      0 <= a < MEM_SIZE && !Within(a, lo, hi) ==> (Shows(c', a, v) <==> Shows(c, a, v))
  }

  lemma SameShownTwice(c: seq<CacheGroup>, c': seq<CacheGroup>, c'': seq<CacheGroup>, lo: nat, k: nat, len: nat)
    requires Structure(c) && Structure(c') && Structure(c'') && k <= len
    requires SameShown(c, c', lo, lo + k) && SameShown(c', c'', lo + k, lo + k + (len - k))
    ensures SameShown(c, c'', lo, lo + len)
  {
    forall a, v: Byte | 0 <= a < MEM_SIZE && !Within(a, lo, lo + len)
      ensures Shows(c'', a, v) <==> Shows(c, a, v)
    {
      assert Shows(c', a, v) <==> Shows(c, a, v);
    }
  }

  lemma PatchShows(c: seq<CacheGroup>, c': seq<CacheGroup>, paddr: nat, way: nat, b: seq<Byte>)
    requires Structure(c) && Structure(c') && paddr + |b| <= MEM_SIZE && way < WAYS && paddr < MEM_SIZE
    requires Offset(paddr) + |b| <= |c[Group(paddr)][way].block| && Holds(c[Group(paddr)][way], Tag(paddr))
    requires c' == SetLine(c, Group(paddr), way, PatchedLine(c[Group(paddr)][way], Offset(paddr), b))
    ensures SameShown(c, c', paddr, paddr + |b|)
  {
    forall a, v: Byte | 0 <= a < MEM_SIZE && !Within(a, paddr, paddr + |b|)
      ensures Shows(c', a, v) <==> Shows(c, a, v)
    {
      forall w | 0 <= w < WAYS ensures ShownBy(c', a, w, v) <==> ShownBy(c, a, w, v) {
        PatchShowsBy(c, c', paddr, way, b, a, w, v);
      }
    }
  }

  lemma PatchShowsBy(c: seq<CacheGroup>, c': seq<CacheGroup>, paddr: nat, way: nat, b: seq<Byte>,
                     a: nat, w: nat, v: Byte)
    requires Structure(c) && Structure(c') && paddr + |b| <= MEM_SIZE && way < WAYS && paddr < MEM_SIZE
    requires Offset(paddr) + |b| <= |c[Group(paddr)][way].block| && Holds(c[Group(paddr)][way], Tag(paddr))
    requires c' == SetLine(c, Group(paddr), way, PatchedLine(c[Group(paddr)][way], Offset(paddr), b))
    requires a < MEM_SIZE && !Within(a, paddr, paddr + |b|) && w < WAYS
    ensures ShownBy(c', a, w, v) <==> ShownBy(c, a, w, v)
  {
    var line := c[Group(a)][w];
    if Group(a) == Group(paddr) && w == way && Holds(line, Tag(a)) {
      AddressParts(a);
      AddressParts(paddr);
      OutsidePatch(line, Offset(paddr), b, Offset(a));
    }
  }

  lemma OutsidePatch(line: Line, offset: nat, b: seq<Byte>, k: nat)
    requires offset + |b| <= |line.block| && !Within(k, offset, offset + |b|)
    ensures var line' := PatchedLine(line, offset, b);
            |line'.block| == |line.block| && (k < |line.block| ==> line'.block[k] == line.block[k])
  {
  }

  lemma OtherWay(group: CacheGroup, g: nat, paddr: nat, i: nat, way: nat)
    requires GroupOk(group, g) && i < WAYS && way < WAYS
    requires g == Group(paddr) ==> i != way && Holds(group[way], Tag(paddr))
    ensures !(g == Group(paddr) && Holds(group[i], Tag(paddr)))
  {
  }

  /** Storing to memory only disturbs agreement at the stored addresses. */
  lemma Stored(c: seq<CacheGroup>, mem: seq<Byte>, paddr: nat, b: seq<Byte>, stale: set<nat>)
    requires |mem| == MEM_SIZE && Structure(c) && paddr + |b| <= MEM_SIZE && AgreesExcept(c, mem, stale)
    ensures AgreesExcept(c, MemWrite(mem, paddr, b), stale + Range(paddr, paddr + |b|))
  {
    var mem', stale' := MemWrite(mem, paddr, b), stale + Range(paddr, paddr + |b|);
    forall g | 0 <= g < GROUPS ensures GroupAgrees(c[g], g, mem', stale') {
      assert GroupOk(c[g], g) && GroupAgrees(c[g], g, mem, stale);
      forall i | 0 <= i < WAYS ensures LineAgrees(c[g][i], g, mem', stale') {
        assert LineAgrees(c[g][i], g, mem, stale);
      }
    }
  }

  /** A line-crossing write whose first line is not cached leaves the cache out
      of step exactly when the second line is cached and the bytes that fall in
      it change. */
  predicate SecondLineChanges(mem: seq<Byte>, paddr: nat, len: nat, data: nat)
    requires |mem| == MEM_SIZE && 1 <= len <= 4 && paddr + len <= MEM_SIZE && Crosses(paddr, len)
  {
    mem[paddr + LINE_SIZE - Offset(paddr)..paddr + len] != ToBytes(data, len)[LINE_SIZE - Offset(paddr)..]
  }

  lemma MissedWrite(c: seq<CacheGroup>, mem: seq<Byte>, paddr: nat, b: seq<Byte>, stale: set<nat>)
    requires |mem| == MEM_SIZE && Structure(c) && AgreesExcept(c, mem, stale)
    requires 0 < |b| && paddr + |b| <= MEM_SIZE && !Crosses(paddr, |b|) && !Cached(c, paddr)
    ensures AgreesExcept(c, MemWrite(mem, paddr, b), stale - Range(paddr, paddr + |b|))
  {
    var range := Range(paddr, paddr + |b|);
    Stored(c, mem, paddr, b, stale);
    NoLineHolds(c, MemWrite(mem, paddr, b), paddr, |b|, stale + range);
    assert stale + range - range == stale - range;
  }

  lemma ChangedByteDisagrees(c: seq<CacheGroup>, mem: seq<Byte>, mem': seq<Byte>, paddr: nat, i: nat)
    requires |mem| == |mem'| == MEM_SIZE && Structure(c) && Coherent(c, mem)
    requires paddr + i < MEM_SIZE && Offset(paddr) + i < LINE_SIZE && Cached(c, paddr)
    requires mem[paddr + i] != mem'[paddr + i]
    ensures !Coherent(c, mem')
  {
    SameLine(paddr, i + 1, paddr + i);
    var v := ShownByte(c, paddr, paddr + i);
    ShownAgrees(c, mem, {}, paddr + i, v);
    if Coherent(c, mem') {
      ShownAgrees(c, mem', {}, paddr + i, v);
    }
  }

  lemma ShownByte(c: seq<CacheGroup>, paddr: nat, a: nat) returns (v: Byte)
    requires Structure(c) && Cached(c, paddr) && Group(a) == Group(paddr) && Tag(a) == Tag(paddr)
    ensures Shows(c, a, v)
  {
    var way :| 0 <= way < WAYS && Holds(c[Group(paddr)][way], Tag(paddr));
    assert GroupOk(c[Group(a)], Group(a)) && LineFits(c[Group(a)][way], Group(a));
    v := c[Group(a)][way].block[Offset(a)];
    assert ShownBy(c, a, way, v);
  }

  lemma CrossingParts(mem: seq<Byte>, paddr: nat, data: nat, len: nat, k: nat)
    requires 1 <= k < len <= 4 && paddr + len <= |mem|
    ensures MemWrite(mem, paddr, ToBytes(data, len))
         == MemWrite(MemWrite(mem, paddr, ToBytes(data, len)[..k]), paddr + k, ToBytes(data, len)[k..])
  {
  }

  /** Exactly when a write that misses its first line and crosses into the next
      leaves the lines in step with memory. */
  lemma MissedCrossing(c: seq<CacheGroup>, mem: seq<Byte>, paddr: nat, len: nat, data: nat)
    requires |mem| == MEM_SIZE && Structure(c) && Coherent(c, mem)
    requires 1 <= len <= 4 && paddr + len <= MEM_SIZE && Crosses(paddr, len) && !Cached(c, paddr)
    ensures var next := paddr + LINE_SIZE - Offset(paddr);
            Coherent(c, MemWrite(mem, paddr, ToBytes(data, len)))
            <==> !(Cached(c, next) && SecondLineChanges(mem, paddr, len, data))
  {
    NextLineStart(paddr, len);
    var k := LINE_SIZE - Offset(paddr);
    var next, b := paddr + k, ToBytes(data, len);
    var none: set<nat> := {};
    assert none - Range(paddr, paddr + k) == none - Range(paddr, paddr + len) == none;
    if !Cached(c, next) {
      MissedBoth(c, mem, paddr, data, len, none);
    } else if SecondLineChanges(mem, paddr, len, data) {
      var i := ChangedByte(mem, paddr, b, k);
      ChangedByteDisagrees(c, mem, MemWrite(mem, paddr, b), next, i);
    } else {
      MissedWrite(c, mem, paddr, b[..k], none);
      SecondPartSame(mem, paddr, b, k);
    }
  }

  lemma ChangedByte(mem: seq<Byte>, paddr: nat, b: seq<Byte>, k: nat) returns (i: nat)
    requires k <= |b| && paddr + |b| <= |mem| && mem[paddr + k..paddr + |b|] != b[k..]
    ensures i < |b| - k && mem[paddr + k + i] != MemWrite(mem, paddr, b)[paddr + k + i]
  {
    i :| 0 <= i < |b| - k && mem[paddr + k..paddr + |b|][i] != b[k..][i];
  }

  lemma SecondPartSame(mem: seq<Byte>, paddr: nat, b: seq<Byte>, k: nat)
    requires k <= |b| && paddr + |b| <= |mem| && mem[paddr + k..paddr + |b|] == b[k..]
    ensures MemWrite(mem, paddr, b) == MemWrite(mem, paddr, b[..k])
  {
    forall i | paddr + k <= i < paddr + |b| ensures mem[i] == b[i - paddr] {
      assert mem[i] == mem[paddr + k..paddr + |b|][i - paddr - k] == b[k..][i - paddr - k];
    }
  }

  /** A crossing write neither of whose lines is cached makes nothing stale. */
  lemma MissedBoth(c: seq<CacheGroup>, mem: seq<Byte>, paddr: nat, data: nat, len: nat, stale: set<nat>)
    requires |mem| == MEM_SIZE && Structure(c) && AgreesExcept(c, mem, stale)
    requires 1 <= len <= 4 && paddr + len <= MEM_SIZE && Crosses(paddr, len)
    requires !Cached(c, paddr) && !Cached(c, paddr + LINE_SIZE - Offset(paddr))
    ensures AgreesExcept(c, MemWrite(mem, paddr, ToBytes(data, len)), stale - Range(paddr, paddr + len))
  {
    NextLineStart(paddr, len);
    var k, b := LINE_SIZE - Offset(paddr), ToBytes(data, len);
    MissedWrite(c, mem, paddr, b[..k], stale);
    MissedWrite(c, MemWrite(mem, paddr, b[..k]), paddr + k, b[k..], stale - Range(paddr, paddr + k));
    CrossingParts(mem, paddr, data, len, k);
    MinusRanges(stale, paddr, k, len);
  }

  lemma MinusRanges(stale: set<nat>, lo: nat, k: nat, len: nat)
    requires k <= len
    ensures stale - Range(lo, lo + k) - Range(lo + k, lo + k + (len - k)) == stale - Range(lo, lo + len)
  {
  }

  /** Writing what memory holds already. */
  lemma RewriteSame(mem: seq<Byte>, paddr: nat, b: seq<Byte>)
    requires paddr + |b| <= |mem| && mem[paddr..paddr + |b|] == b
    ensures MemWrite(mem, paddr, b) == mem
  {
    assert mem == mem[..paddr] + mem[paddr..paddr + |b|] + mem[paddr + |b|..];
  }

  lemma RewriteTwice(mem: seq<Byte>, paddr: nat, data: nat, len: nat, k: nat)
    requires paddr + len <= |mem| && 1 <= k < len <= 4 && mem[paddr..paddr + len] == ToBytes(data, len)
    ensures MemWrite(mem, paddr, ToBytes(data, k)) == mem
    ensures MemWrite(mem, paddr + k, ToBytes(data / Pow256(k), len - k)) == mem
  {
    ToBytesSplit(data, len, k);
    var b := mem[paddr..paddr + len];
    assert mem[paddr..paddr + k] == b[..k] && mem[paddr + k..paddr + len] == b[k..];
    RewriteSame(mem, paddr, ToBytes(data, k));
    RewriteSame(mem, paddr + k, ToBytes(data / Pow256(k), len - k));
  }

  ghost predicate LeavesStale(c: seq<CacheGroup>, mem: seq<Byte>, paddr: nat, len: nat, data: Word)
    requires |mem| == MEM_SIZE && Structure(c) && 1 <= len <= 4 && paddr + len <= MEM_SIZE
  {
    && Crosses(paddr, len) && !Cached(c, paddr)
    && Cached(c, paddr + LINE_SIZE - Offset(paddr)) && SecondLineChanges(mem, paddr, len, data)
  }

  // ---------------------------------------------------------------------
  // Sequences of accesses
  // ---------------------------------------------------------------------

  datatype AnyAccess = Read(paddr: nat, len: nat) | Write(paddr: nat, len: nat, data: Word)

  type Access = x: AnyAccess | (x.len == 1 || x.len == 2 || x.len == 4) && x.paddr + x.len <= MEM_SIZE
    witness Read(0, 1)

  function AfterAccess(mem: seq<Byte>, x: Access): (r: seq<Byte>)
    requires |mem| == MEM_SIZE
    ensures |r| == MEM_SIZE
  {
    if x.Read? then mem else MemWrite(mem, x.paddr, ToBytes(x.data, x.len))
  }

  /** The low len bytes of a read are those of memory at every address that is not stale. */
  ghost predicate ReadRight(mem: seq<Byte>, stale: set<nat>, paddr: nat, len: nat, ret: Word)
    requires |mem| == MEM_SIZE && len <= 4 && paddr + len <= MEM_SIZE
  {
    exists view: seq<Byte> :: ViewRight(mem, stale, paddr, len, ret, view)
  }

  ghost predicate ViewRight(mem: seq<Byte>, stale: set<nat>, paddr: nat, len: nat, ret: Word, view: seq<Byte>)
    requires |mem| == MEM_SIZE && len <= 4 && paddr + len <= MEM_SIZE
  {
    && |view| == len && ret % Pow256(len) == FromBytes(view)
    && forall i :: 0 <= i < len && paddr + i !in stale ==> view[i] == mem[paddr + i]
  }

  /** The low len bytes of a read are those it sees in the lines and in memory. */
  ghost predicate ReadExact(c: seq<CacheGroup>, mem: seq<Byte>, paddr: nat, len: nat, ret: Word)
    requires Structure(c) && |mem| == MEM_SIZE && len <= 4 && paddr + len <= MEM_SIZE
  {
    exists view: seq<Byte> ::
      |view| == len && ReadAs(c, mem, paddr, view) && ret % Pow256(len) == FromBytes(view)
  }

  lemma NothingStale(mem: seq<Byte>, paddr: nat, len: nat, ret: Word)
    requires |mem| == MEM_SIZE && len <= 4 && paddr + len <= MEM_SIZE && ReadRight(mem, {}, paddr, len, ret)
    ensures ret % Pow256(len) == MemRead(mem, paddr, len)
  {
    var view: seq<Byte> :| ViewRight(mem, {}, paddr, len, ret, view);
    assert view == mem[paddr..paddr + len];
  }

  /** What a write can leave stale: the bytes that were and that it does not write,
      and the part of a crossing write that falls in a line which is cached while
      the first is not. */
  ghost function StaleAfter(c: seq<CacheGroup>, stale: set<nat>, paddr: nat, len: nat): set<nat>
    requires Structure(c)
  {
    var next := paddr + LINE_SIZE - Offset(paddr);
    stale - Range(paddr, paddr + len)
    + if Crosses(paddr, len) && !Cached(c, paddr) && Cached(c, next) then Range(next, paddr + len) else {}
  }

  /** One access to the lines c over mem. */
  ghost predicate AccessStep(c: seq<CacheGroup>, mem: seq<Byte>, x: Access, ret: Word, c': seq<CacheGroup>)
    requires Structure(c) && Structure(c') && |mem| == MEM_SIZE
  {
    var stale, stale' := StaleSet(c, mem), StaleSet(c', AfterAccess(mem, x));
    if x.Read? then
      && ReadExact(c, mem, x.paddr, x.len, ret)
      && ReadRight(mem, stale, x.paddr, x.len, ret) && stale' <= stale
      && FilledFor(c, c', mem, FillAddress(c, x.paddr, x.len))
    else
      && SameKeys(c, c') && SameShown(c, c', x.paddr, x.paddr + x.len)
      && (Crosses(x.paddr, x.len) && !Cached(c, x.paddr) ==> c' == c)
      && stale' <= StaleAfter(c, stale, x.paddr, x.len)
      && (stale == {} ==> (stale' == {} <==> !LeavesStale(c, mem, x.paddr, x.len, x.data)))
  }

  /** The lines before, between and after the accesses, and what they returned. */
  ghost predicate IsTrace(mem: seq<Byte>, caches: seq<seq<CacheGroup>>, accesses: seq<Access>, results: seq<Word>)
    requires |mem| == MEM_SIZE
  {
    && |caches| == |accesses| + 1 && |results| == |accesses|
    && (forall i :: 0 <= i < |caches| ==> Structure(caches[i]))
    && forall i {:trigger StepAt(mem, caches, accesses, results, i)} :: 0 <= i < |accesses| ==>
         StepAt(mem, caches, accesses, results, i)
  }

  ghost predicate StepAt(mem: seq<Byte>, caches: seq<seq<CacheGroup>>, accesses: seq<Access>,
                         results: seq<Word>, i: nat)
    requires |mem| == MEM_SIZE && i < |accesses| == |results| && |caches| == |accesses| + 1
    requires Structure(caches[i]) && Structure(caches[i + 1])
  {
    AccessStep(caches[i], FlatMemory(mem, accesses[..i]), accesses[i], results[i], caches[i + 1])
  }

  lemma AccessInStep(c: seq<CacheGroup>, mem: seq<Byte>, x: Access, ret: Word, c': seq<CacheGroup>)
    requires Structure(c) && Structure(c') && |mem| == MEM_SIZE
    requires AccessStep(c, mem, x, ret, c') && Coherent(c, mem)
    ensures x.Read? ==> ret % Pow256(x.len) == MemRead(mem, x.paddr, x.len)
    ensures x.Read? || !LeavesStale(c, mem, x.paddr, x.len, x.data) ==> Coherent(c', AfterAccess(mem, x))
  {
    StaleIsLeast(c, mem, {});
    assert StaleSet(c, mem) == {};
    StaleIsLeast(c', AfterAccess(mem, x), {});
    if x.Read? {
      NothingStale(mem, x.paddr, x.len, ret);
    }
  }

  /** Until a write leaves a stale byte, every read returns what flat memory holds. */
  lemma {:induction false} TraceRight(mem: seq<Byte>, caches: seq<seq<CacheGroup>>, accesses: seq<Access>,
                                      results: seq<Word>, n: nat)
    requires |mem| == MEM_SIZE && IsTrace(mem, caches, accesses, results) && n <= |accesses|
    requires Coherent(caches[0], mem)
    requires forall i :: 0 <= i < n && accesses[i].Write? ==>
               var x := accesses[i];
               !LeavesStale(caches[i], FlatMemory(mem, accesses[..i]), x.paddr, x.len, x.data)
    ensures Coherent(caches[n], FlatMemory(mem, accesses[..n]))
    ensures n < |accesses| && accesses[n].Read? ==>
              var x := accesses[n];
              results[n] % Pow256(x.len) == MemRead(FlatMemory(mem, accesses[..n]), x.paddr, x.len)
  {
    if n > 0 {
      TraceRight(mem, caches, accesses, results, n - 1);
      StepRight(mem, caches, accesses, results, n - 1);
    }
    if n < |accesses| {
      StepRight(mem, caches, accesses, results, n);
    }
  }

  lemma StepRight(mem: seq<Byte>, caches: seq<seq<CacheGroup>>, accesses: seq<Access>, results: seq<Word>, n: nat)
    requires |mem| == MEM_SIZE && IsTrace(mem, caches, accesses, results) && n < |accesses|
    requires Coherent(caches[n], FlatMemory(mem, accesses[..n]))
    ensures var x, before := accesses[n], FlatMemory(mem, accesses[..n]);
            && (x.Read? ==> results[n] % Pow256(x.len) == MemRead(before, x.paddr, x.len))
            && (x.Read? || !LeavesStale(caches[n], before, x.paddr, x.len, x.data) ==>
                  Coherent(caches[n + 1], FlatMemory(mem, accesses[..n + 1])))
  {
    assert StepAt(mem, caches, accesses, results, n);
    AccessInStep(caches[n], FlatMemory(mem, accesses[..n]), accesses[n], results[n], caches[n + 1]);
    FlatNext(mem, accesses, n);
  }

  lemma FlatNext(mem: seq<Byte>, accesses: seq<Access>, n: nat)
    requires |mem| == MEM_SIZE && n < |accesses|
    ensures FlatMemory(mem, accesses[..n + 1]) == AfterAccess(FlatMemory(mem, accesses[..n]), accesses[n])
  {
    assert accesses[..n + 1] == accesses[..n] + [accesses[n]];
    FlatStep(mem, accesses[..n], accesses[n]);
  }

  lemma TraceGrows(mem: seq<Byte>, caches: seq<seq<CacheGroup>>, accesses: seq<Access>, results: seq<Word>,
                   x: Access, ret: Word, c: seq<CacheGroup>)
    requires |mem| == MEM_SIZE && IsTrace(mem, caches, accesses, results) && Structure(c)
    requires AccessStep(caches[|accesses|], FlatMemory(mem, accesses), x, ret, c)
    ensures IsTrace(mem, caches + [c], accesses + [x], results + [ret])
  {
    var caches', accesses', results' := caches + [c], accesses + [x], results + [ret];
    assert accesses'[..|accesses|] == accesses;
    forall i | 0 <= i < |accesses'|
      ensures StepAt(mem, caches', accesses', results', i)
    {
      if i < |accesses| {
        assert accesses'[..i] == accesses[..i];
        assert StepAt(mem, caches, accesses, results, i);
      }
    }
  }

  // ---------------------------------------------------------------------
  // Lines that stay
  // ---------------------------------------------------------------------

  ghost function TagsIn(group: CacheGroup): set<nat> {
    set i | 0 <= i < |group| && group[i].valid :: group[i].tag
  }

  lemma CachedTag(c: seq<CacheGroup>, a: nat)
    requires Structure(c)
    ensures |c[Group(a)]| == WAYS && (Cached(c, a) <==> Tag(a) in TagsIn(c[Group(a)]))
  {
    assert GroupOk(c[Group(a)], Group(a));
    if Tag(a) in TagsIn(c[Group(a)]) {
      var i :| 0 <= i < WAYS && c[Group(a)][i].valid && c[Group(a)][i].tag == Tag(a);
      assert Holds(c[Group(a)][i], Tag(a));
    }
  }

  lemma {:induction false} DistinctTags(group: CacheGroup, g: nat, n: nat)
    requires GroupOk(group, g) && Full(group) && n <= WAYS
    ensures |TagsIn(group[..n])| == n
  {
    if n > 0 {
      DistinctTags(group, g, n - 1);
      OneMoreTag(group[..n - 1], group[n - 1]);
      assert group[..n] == group[..n - 1] + [group[n - 1]];
    }
  }

  lemma OneMoreTag(group: CacheGroup, line: Line)
    requires line.valid && forall i :: 0 <= i < |group| ==> group[i].tag != line.tag
    ensures |TagsIn(group + [line])| == |TagsIn(group)| + 1
  {
    var longer := group + [line];
    forall t ensures t in TagsIn(longer) <==> t in TagsIn(group) + {line.tag} {
      if t in TagsIn(group) {
        var i :| 0 <= i < |group| && group[i].valid && group[i].tag == t;
        assert longer[i].valid && longer[i].tag == t;
      }
      assert longer[|group|] == line;
    }
    assert TagsIn(longer) == TagsIn(group) + {line.tag};
  }

  /** A group that holds some but not all of eight tags has room. */
  lemma RoomLeft(group: CacheGroup, g: nat, tags: set<nat>, t: nat)
    requires GroupOk(group, g) && TagsIn(group) <= tags && |tags| <= WAYS && t in tags && t !in TagsIn(group)
    ensures !Full(group)
  {
    if Full(group) {
      DistinctTags(group, g, WAYS);
      assert group[..WAYS] == group;
      SmallerSet(TagsIn(group), tags - {t});
    }
  }

  lemma {:induction false} SmallerSet(a: set<nat>, b: set<nat>)
    requires a <= b
    ensures |a| <= |b|
  {
    if a != {} {
      var x :| x in a;
      SmallerSet(a - {x}, b - {x});
    }
  }

  /** The lines of a read that fall in group g have tags among tags. */
  ghost predicate TouchesOnly(x: Access, g: nat, tags: set<nat>) {
    var next := x.paddr + LINE_SIZE - Offset(x.paddr);
    && (Group(x.paddr) == g ==> Tag(x.paddr) in tags)
    && (Crosses(x.paddr, x.len) && Group(next) == g ==> Tag(next) in tags)
  }

  /** A fill for a line among at most eight tags keeps what the group holds. */
  lemma FillKeepsTags(c: seq<CacheGroup>, c': seq<CacheGroup>, mem: seq<Byte>, p: nat, g: nat, tags: set<nat>)
    requires Structure(c) && Structure(c') && |mem| == MEM_SIZE && FilledFor(c, c', mem, p)
    requires g < GROUPS && TagsIn(c[g]) <= tags && |tags| <= WAYS && (Group(p) == g ==> Tag(p) in tags)
    ensures TagsIn(c[g]) <= TagsIn(c'[g]) <= tags
    ensures Cached(c', p)
  {
    FilledCached(c, c', mem, p, p);
    if Group(p) == g {
      var way :| 0 <= way < WAYS && FilledAt(c[g], c'[g], mem, way, p);
      assert GroupOk(c[g], g) && GroupOk(c'[g], g);
      CachedTag(c, p);
      if Tag(p) !in TagsIn(c[g]) {
        RoomLeft(c[g], g, tags, Tag(p));
      }
      TagsFilled(c[g], c'[g], g, mem, way, p);
    }
  }

  lemma TagsFilled(group: CacheGroup, group': CacheGroup, g: nat, mem: seq<Byte>, way: nat, p: nat)
    requires |mem| == MEM_SIZE && way < WAYS && GroupOk(group, g) && GroupOk(group', g)
    requires FilledAt(group, group', mem, way, p) && (Tag(p) in TagsIn(group) || !Full(group))
    ensures TagsIn(group) <= TagsIn(group') <= TagsIn(group) + {Tag(p)}
  {
    forall t | t in TagsIn(group) ensures t in TagsIn(group') {
      var i :| 0 <= i < WAYS && group[i].valid && group[i].tag == t;
      assert i != way ==> group'[i].valid && group'[i].tag == t;
    }
  }

  /** While the reads of a run touch at most eight tags of a group, its lines stay. */
  lemma {:induction false} TagsStay(mem: seq<Byte>, caches: seq<seq<CacheGroup>>, accesses: seq<Access>,
                                    results: seq<Word>, g: nat, tags: set<nat>, i: nat, j: nat)
    requires |mem| == MEM_SIZE && IsTrace(mem, caches, accesses, results) && i <= j <= |accesses|
    requires g < GROUPS && |tags| <= WAYS && TagsIn(caches[0][g]) <= tags
    requires forall n :: 0 <= n < |accesses| && accesses[n].Read? ==> TouchesOnly(accesses[n], g, tags)
    ensures TagsIn(caches[i][g]) <= TagsIn(caches[j][g]) <= tags
    decreases j
  {
    if i < j {
      TagsStay(mem, caches, accesses, results, g, tags, i, j - 1);
      AccessKeepsTags(mem, caches, accesses, results, g, tags, j - 1);
    } else if j > 0 {
      TagsStay(mem, caches, accesses, results, g, tags, j - 1, j - 1);
      AccessKeepsTags(mem, caches, accesses, results, g, tags, j - 1);
    }
  }

  lemma AccessKeepsTags(mem: seq<Byte>, caches: seq<seq<CacheGroup>>, accesses: seq<Access>,
                        results: seq<Word>, g: nat, tags: set<nat>, n: nat)
    requires |mem| == MEM_SIZE && IsTrace(mem, caches, accesses, results) && n < |accesses|
    requires g < GROUPS && |tags| <= WAYS && TagsIn(caches[n][g]) <= tags
    requires accesses[n].Read? ==> TouchesOnly(accesses[n], g, tags)
    ensures TagsIn(caches[n][g]) <= TagsIn(caches[n + 1][g]) <= tags
    ensures accesses[n].Read? && Group(accesses[n].paddr) == g ==> Tag(accesses[n].paddr) in TagsIn(caches[n + 1][g])
  {
    var c, c', x := caches[n], caches[n + 1], accesses[n];
    assert StepAt(mem, caches, accesses, results, n);
    if x.Read? {
      var p := FillAddress(c, x.paddr, x.len);
      FillKeepsTags(c, c', FlatMemory(mem, accesses[..n]), p, g, tags);
      CachedTag(c, x.paddr);
      CachedTag(c', x.paddr);
    } else {
      SameTags(c, c', g);
    }
  }

  lemma SameTags(c: seq<CacheGroup>, c': seq<CacheGroup>, g: nat)
    requires Structure(c) && Structure(c') && SameKeys(c, c') && g < GROUPS
    ensures TagsIn(c'[g]) == TagsIn(c[g])
  {
    assert GroupOk(c[g], g) && GroupOk(c'[g], g);
    forall i | 0 <= i < WAYS ensures c'[g][i].valid == c[g][i].valid && c'[g][i].tag == c[g][i].tag {
      assert SameKey(c, c', g, i);
    }
    TagsWithin(c[g], c'[g]);
    TagsWithin(c'[g], c[g]);
  }

  lemma TagsWithin(a: CacheGroup, b: CacheGroup)
    requires |a| == |b| && forall i :: 0 <= i < |a| && a[i].valid ==> b[i].valid && b[i].tag == a[i].tag
    ensures TagsIn(a) <= TagsIn(b)
  {
    forall t | t in TagsIn(a) ensures t in TagsIn(b) {
      var i :| 0 <= i < |a| && a[i].valid && a[i].tag == t;
      assert b[i].tag == t;
    }
  }

  /** Reads that touch at most eight tags of a group leave all of them cached. */
  lemma WorkingSetStays(mem: seq<Byte>, caches: seq<seq<CacheGroup>>, accesses: seq<Access>,
                        results: seq<Word>, g: nat, tags: set<nat>, i: nat, j: nat)
    requires |mem| == MEM_SIZE && IsTrace(mem, caches, accesses, results) && i < j <= |accesses|
    requires g < GROUPS && |tags| <= WAYS && TagsIn(caches[0][g]) <= tags
    requires forall n :: 0 <= n < |accesses| && accesses[n].Read? ==> TouchesOnly(accesses[n], g, tags)
    requires accesses[i].Read? && Group(accesses[i].paddr) == g
    ensures Cached(caches[j], accesses[i].paddr)
  {
    TagsStay(mem, caches, accesses, results, g, tags, i, i);
    AccessKeepsTags(mem, caches, accesses, results, g, tags, i);
    TagsStay(mem, caches, accesses, results, g, tags, i + 1, j);
    CachedTag(caches[j], accesses[i].paddr);
  }

  /** Flat memory after a sequence of accesses (hw_mem_write). */
  function FlatMemory(mem: seq<Byte>, accesses: seq<Access>): (r: seq<Byte>)
    requires |mem| == MEM_SIZE
    ensures |r| == MEM_SIZE
  {
    if |accesses| == 0 then mem
    else AfterAccess(FlatMemory(mem, accesses[..|accesses| - 1]), accesses[|accesses| - 1])
  }

  lemma FlatStep(mem: seq<Byte>, accesses: seq<Access>, x: Access)
    requires |mem| == MEM_SIZE
    ensures FlatMemory(mem, accesses + [x]) == AfterAccess(FlatMemory(mem, accesses), x)
  {
    assert (accesses + [x])[..|accesses|] == accesses;
  }

  /** A read outside stale bytes is right, and it makes none. */
  lemma ReadStep(c: seq<CacheGroup>, c': seq<CacheGroup>, mem: seq<Byte>, x: Access, ret: Word, view: seq<Byte>)
    requires Structure(c) && Structure(c') && |mem| == MEM_SIZE && x.Read? && |view| == x.len
    requires ret % Pow256(x.len) == FromBytes(view) && ReadAs(c, mem, x.paddr, view)
    requires FilledFor(c, c', mem, FillAddress(c, x.paddr, x.len))
    ensures AccessStep(c, mem, x, ret, c')
  {
    ReadOutsideStale(c, mem, x.paddr, x.len, ret, view);
    FillStale(c, c', mem, FillAddress(c, x.paddr, x.len));
  }

  lemma ReadOutsideStale(c: seq<CacheGroup>, mem: seq<Byte>, paddr: nat, len: nat, ret: Word, view: seq<Byte>)
    requires Structure(c) && |mem| == MEM_SIZE && len <= 4 && paddr + len <= MEM_SIZE && |view| == len
    requires ret % Pow256(len) == FromBytes(view) && ReadAs(c, mem, paddr, view)
    ensures ReadRight(mem, StaleSet(c, mem), paddr, len, ret)
  {
    var stale := StaleSet(c, mem);
    StaleIsLeast(c, mem, stale);
    ReadIsMemory(c, mem, paddr, view, stale);
    assert ViewRight(mem, stale, paddr, len, ret, view);
  }

  lemma FillStale(c: seq<CacheGroup>, c': seq<CacheGroup>, mem: seq<Byte>, paddr: nat)
    requires Structure(c) && Structure(c') && |mem| == MEM_SIZE && FilledFor(c, c', mem, paddr)
    ensures StaleSet(c', mem) <= StaleSet(c, mem)
  {
    var stale := StaleSet(c, mem);
    StaleIsLeast(c, mem, stale);
    FilledAgrees(c, c', mem, paddr, stale);
    StaleIsLeast(c', mem, stale);
  }

  /** A crossing write whose first line is not cached. */
  lemma MissedStale(c: seq<CacheGroup>, mem: seq<Byte>, paddr: nat, len: nat, data: nat, stale: set<nat>)
    requires |mem| == MEM_SIZE && Structure(c) && AgreesExcept(c, mem, stale)
    requires 1 <= len <= 4 && paddr + len <= MEM_SIZE && Crosses(paddr, len) && !Cached(c, paddr)
    ensures AgreesExcept(c, MemWrite(mem, paddr, ToBytes(data, len)), StaleAfter(c, stale, paddr, len))
  {
    NextLineStart(paddr, len);
    var k, b := LINE_SIZE - Offset(paddr), ToBytes(data, len);
    if Cached(c, paddr + k) {
      var first := stale - Range(paddr, paddr + k);
      MissedWrite(c, mem, paddr, b[..k], stale);
      Stored(c, MemWrite(mem, paddr, b[..k]), paddr + k, b[k..], first);
      CrossingParts(mem, paddr, data, len, k);
      assert first + Range(paddr + k, paddr + len) == StaleAfter(c, stale, paddr, len);
    } else {
      MissedBoth(c, mem, paddr, data, len, stale);
      assert StaleAfter(c, stale, paddr, len) == stale - Range(paddr, paddr + len);
    }
  }

  // ---------------------------------------------------------------------
  // The cache in memory
  // ---------------------------------------------------------------------

  class L1Cache {
    const hwMem: array<Byte>
    const groups: array<CacheGroup>

    ghost predicate Valid()
      reads groups
    {
      hwMem.Length == MEM_SIZE && Structure(groups[..])
    }

    ghost predicate InStep()
      requires Valid()
      reads groups, hwMem
    {
      Coherent(groups[..], hwMem[..])
    }

    constructor (mem: array<Byte>)
      requires mem.Length == MEM_SIZE
      ensures Valid() && InStep() && hwMem == mem && fresh(groups)
      ensures forall a: nat :: !Cached(groups[..], a)
    {
      hwMem := mem;
      groups := new CacheGroup[GROUPS](g => seq(WAYS, i => Line(false, 0, seq(LINE_SIZE, k => 0))));
    }

    /** init_cache: tags and blocks keep whatever they held. */
    method InitCache()
      requires Valid()
      modifies groups
      ensures Valid() && InStep()
      ensures forall g, i :: 0 <= g < GROUPS && 0 <= i < WAYS ==> groups[g][i] == old(groups[g][i]).(valid := false)
    {
      for g := 0 to GROUPS
        invariant forall h :: 0 <= h < GROUPS ==> |groups[h]| == WAYS
        invariant forall h :: g <= h < GROUPS ==> groups[h] == old(groups[h])
        invariant forall h, i :: 0 <= h < g && 0 <= i < WAYS ==> groups[h][i] == old(groups[h][i]).(valid := false)
      {
        for j := 0 to WAYS
          invariant forall h :: 0 <= h < GROUPS ==> |groups[h]| == WAYS
          invariant forall h :: g < h < GROUPS ==> groups[h] == old(groups[h])
          invariant forall h, i :: 0 <= h < g && 0 <= i < WAYS ==> groups[h][i] == old(groups[h][i]).(valid := false)
          invariant forall i :: 0 <= i < WAYS ==>
            groups[g][i] == if i < j then old(groups[g][i]).(valid := false) else old(groups[g][i])
        {
          groups[g] := groups[g][j := groups[g][j].(valid := false)];
        }
      }
      forall g | 0 <= g < GROUPS ensures GroupOk(groups[..][g], g) {
        assert GroupOk(old(groups[..][g]), g);
        forall i | 0 <= i < WAYS ensures LineFits(groups[g][i], g) {
          assert LineFits(old(groups[g][i]), g);
        }
      }
    }

    /** The search loop of cache_read: stops at the first line with the tag.
        Because valid lines come first, an invalid line with the tag hides none. */
    method Search(g: nat, tag: nat) returns (way: nat)
      requires Valid() && g < GROUPS
      ensures way <= WAYS
      ensures way < WAYS ==> Holds(groups[g][way], tag)
      ensures way == WAYS ==> forall i :: 0 <= i < WAYS ==> !Holds(groups[g][i], tag)
    {
      assert GroupOk(groups[..][g], g);
      for i := 0 to WAYS
        invariant forall h :: 0 <= h < i ==> !Holds(groups[g][h], tag)
      {
        if groups[g][i].tag == tag {
          if groups[g][i].valid {
            return i;
          }
          assert forall h :: i <= h < WAYS ==> !groups[g][h].valid;
          return WAYS;
        }
      }
      return WAYS;
    }

    /** The search loop of cache_write. */
    method SearchValid(g: nat, tag: nat) returns (way: nat)
      requires Valid() && g < GROUPS
      ensures way <= WAYS
      ensures way < WAYS ==> Holds(groups[g][way], tag)
      ensures way == WAYS ==> forall i :: 0 <= i < WAYS ==> !Holds(groups[g][i], tag)
    {
      assert GroupOk(groups[..][g], g);
      for i := 0 to WAYS
        invariant forall h :: 0 <= h < i ==> !Holds(groups[g][h], tag)
      {
        if groups[g][i].tag == tag && groups[g][i].valid {
          return i;
        }
      }
      return WAYS;
    }

    /** The first invalid line, or WAYS when the group is full. */
    method FirstInvalid(g: nat) returns (j: nat)
      requires Valid() && g < GROUPS
      ensures j <= WAYS
      ensures forall h :: 0 <= h < j ==> groups[..][g][h].valid
      ensures j < WAYS ==> !groups[..][g][j].valid
    {
      assert GroupOk(groups[..][g], g);
      j := 0;
      while j < WAYS && groups[g][j].valid
        invariant 0 <= j <= WAYS
        invariant forall h :: 0 <= h < j ==> groups[g][h].valid
      {
        j := j + 1;
      }
    }

    /** Filling after a miss (cache.c:51-69); the victim of a full group is any. */
    method Fill(paddr: nat)
      requires Valid() && paddr < MEM_SIZE && !Cached(groups[..], paddr)
      modifies groups
      ensures Valid() && FilledFor(old(groups[..]), groups[..], hwMem[..], paddr)
      ensures FewLost(old(groups[..]), groups[..], paddr)
    {
      var g := Group(paddr);
      LineInMemory(paddr);
      var j := FirstInvalid(g);
      if j == WAYS {
        j :| 0 <= j < WAYS;
      }
      Copy(paddr, j);
      FilledLoses(old(groups[..]), groups[..], hwMem[..], paddr);
    }

    method Copy(paddr: nat, way: nat)
      requires Valid() && paddr < MEM_SIZE && way < WAYS && !Cached(groups[..], paddr)
      requires forall h :: 0 <= h < way ==> groups[..][Group(paddr)][h].valid
      requires groups[..][Group(paddr)][way].valid ==> Full(groups[..][Group(paddr)])
      modifies groups
      ensures Valid() && FilledFor(old(groups[..]), groups[..], hwMem[..], paddr)
    {
      ghost var mem := hwMem[..];
      Placed(groups[..], mem, paddr, way);
      var base := Base(Tag(paddr), Group(paddr));
      var block := hwMem[base..base + LINE_SIZE];
      assert block == mem[base..base + LINE_SIZE];
      PutLine(Group(paddr), way, Line(true, Tag(paddr), block));
    }

    method PutLine(g: nat, way: nat, line: Line)
      requires Valid() && g < GROUPS && way < WAYS
      modifies groups
      ensures |old(groups[..])[g]| == WAYS && groups[..] == SetLine(old(groups[..]), g, way, line)
    {
      assert GroupOk(groups[..][g], g);
      groups[g] := groups[g][way := line];
    }

    /** A hit whose bytes go on in the next line (cache.c:35-42). */
    method ReadAcross(paddr: nat, len: nat, way: nat) returns (ret: Word, ghost view: seq<Byte>)
      requires Valid()
      requires 1 <= len <= 4 && paddr + len <= MEM_SIZE && Crosses(paddr, len)
      requires way < WAYS && Holds(groups[..][Group(paddr)][way], Tag(paddr))
      modifies groups
      ensures Valid() && |view| == len
      ensures FilledFor(old(groups[..]), groups[..], hwMem[..], paddr + LINE_SIZE - Offset(paddr))
      ensures ret % Pow256(len) == FromBytes(view) && ReadAs(old(groups[..]), hwMem[..], paddr, view)
      decreases len, 0
    {
      var offset := Offset(paddr);
      var k := LINE_SIZE - offset;
      NextLineStart(paddr, len);
      HitShows(groups[..], hwMem[..], paddr, way, k);
      AlreadyFilled(groups[..], hwMem[..], paddr, way);
      var low := groups[Group(paddr)][way].block[offset..offset + k];
      ghost var high;
      var temp2;
      temp2, high := CacheRead(paddr + k, offset + len - LINE_SIZE);
      ReadAsBoth(old(groups[..]), hwMem[..], paddr, low, high);
      view := low + high;
      ret := JoinHalves(low, temp2, high);
    }

    /** The shift and the | that put both halves together. */
    method JoinHalves(low: seq<Byte>, temp2: Word, ghost high: seq<Byte>) returns (ret: Word)
      requires 0 < |low| && 0 < |high| && |low| + |high| <= 4 && temp2 % Pow256(|high|) == FromBytes(high)
      ensures ret % Pow256(|low| + |high|) == FromBytes(low + high)
    {
      JoinBytes(low, high, temp2);
      ret := Join(FromBytes(low), temp2, |low|);
    }

    /** cache_read, whatever the lines hold: where the read starts in a cached line,
        bytes that are cached come from their lines and the others from memory;
        elsewhere all come from memory.  At most one line is filled, the first one
        that misses, over any victim. */
    method CacheRead(paddr: nat, len: nat) returns (ret: Word, ghost view: seq<Byte>)
      requires Valid()
      requires 1 <= len <= 4 && paddr + len <= MEM_SIZE
      modifies groups
      ensures Valid() && |view| == len
      ensures var p := FillAddress(old(groups[..]), paddr, len);
              FilledFor(old(groups[..]), groups[..], hwMem[..], p) && FewLost(old(groups[..]), groups[..], p)
      ensures ret % Pow256(len) == FromBytes(view) && ReadAs(old(groups[..]), hwMem[..], paddr, view)
      decreases len, 1
    {
      var offset := Offset(paddr);
      var way := Search(Group(paddr), Tag(paddr));
      if way < WAYS {
        AlreadyFilled(groups[..], hwMem[..], paddr, way);
        if offset + len <= LINE_SIZE {
          HitShows(groups[..], hwMem[..], paddr, way, len);
          view := groups[Group(paddr)][way].block[offset..offset + len];
          ret := CopyLow(groups[Group(paddr)][way].block[offset..offset + len]);
        } else {
          ret, view := ReadAcross(paddr, len, way);
        }
      } else {
        ret, view := ReadMissed(paddr, len);
      }
      FilledLoses(old(groups[..]), groups[..], hwMem[..], FillAddress(old(groups[..]), paddr, len));
    }

    /** A miss (cache.c:48-70). */
    method ReadMissed(paddr: nat, len: nat) returns (ret: Word, ghost view: seq<Byte>)
      requires Valid() && !Cached(groups[..], paddr)
      requires 1 <= len <= 4 && paddr + len <= MEM_SIZE
      modifies groups
      ensures Valid() && FilledFor(old(groups[..]), groups[..], hwMem[..], paddr) && |view| == len
      ensures ret % Pow256(len) == FromBytes(view) && ReadAs(old(groups[..]), hwMem[..], paddr, view)
    {
      view := hwMem[paddr..paddr + len];
      ret := CopyLow(hwMem[paddr..paddr + len]);
      Fill(paddr);
    }

    method StoreBytes(paddr: nat, b: seq<Byte>)
      requires paddr + |b| <= hwMem.Length
      modifies hwMem
      ensures hwMem[..] == MemWrite(old(hwMem[..]), paddr, b)
    {
      for i := 0 to |b|
        invariant forall a :: 0 <= a < hwMem.Length ==>
          hwMem[a] == if paddr <= a < paddr + i then b[a - paddr] else old(hwMem[a])
      {
        hwMem[paddr + i] := b[i];
      }
    }

    method Patch(paddr: nat, way: nat, b: seq<Byte>, ghost stale: set<nat>)
      requires Valid() && paddr < MEM_SIZE && AgreesExcept(groups[..], hwMem[..], stale)
      requires way < WAYS && Holds(groups[..][Group(paddr)][way], Tag(paddr))
      requires paddr + |b| <= MEM_SIZE && !Crosses(paddr, |b|) && hwMem[..][paddr..paddr + |b|] == b
      modifies groups
      ensures Valid() && SameKeys(old(groups[..]), groups[..])
      ensures AgreesExcept(groups[..], hwMem[..], stale - Range(paddr, paddr + |b|))
      ensures SameShown(old(groups[..]), groups[..], paddr, paddr + |b|)
    {
      Patched(groups[..], hwMem[..], paddr, way, b, stale);
      ghost var line := PatchedLine(groups[..][Group(paddr)][way], Offset(paddr), b);
      PatchShows(groups[..], SetLine(groups[..], Group(paddr), way, line), paddr, way, b);
      PutLine(Group(paddr), way, PatchedLine(groups[Group(paddr)][way], Offset(paddr), b));
    }

    /** The two recursive calls for a write that goes on in the next line. */
    method WriteAcross(paddr: nat, len: nat, data: nat, ghost stale: set<nat>)
      requires Valid() && 1 <= len <= 4 && paddr + len <= MEM_SIZE && Crosses(paddr, len)
      requires AgreesExcept(groups[..], hwMem[..], stale)
      requires hwMem[..][paddr..paddr + len] == ToBytes(data, len)
      modifies hwMem, groups
      ensures Valid() && SameKeys(old(groups[..]), groups[..]) && hwMem[..] == old(hwMem[..])
      ensures AgreesExcept(groups[..], hwMem[..], stale - Range(paddr, paddr + len))
      ensures SameShown(old(groups[..]), groups[..], paddr, paddr + len)
      decreases len, 0
    {
      var k := LINE_SIZE - Offset(paddr);
      InsideBoth(paddr, len, k);
      RewriteTwice(hwMem[..], paddr, data, len, k);
      ghost var first := stale - Range(paddr, paddr + k);
      CacheWrite(paddr, k, data, stale);
      ghost var between := groups[..];
      CacheWrite(paddr + k, len - k, data / Pow256(k), first);
      SameKeysTwice(old(groups[..]), between, groups[..]);
      SameShownTwice(old(groups[..]), between, groups[..], paddr, k, len);
      MinusRanges(stale, paddr, k, len);
    }

    /** cache_write, whatever bytes are stale. */
    method CacheWrite(paddr: nat, len: nat, data: nat, ghost stale: set<nat>)
      requires Valid() && 1 <= len <= 4 && paddr + len <= MEM_SIZE
      requires AgreesExcept(groups[..], hwMem[..], stale)
      modifies hwMem, groups
      ensures Valid() && SameKeys(old(groups[..]), groups[..])
      ensures hwMem[..] == MemWrite(old(hwMem[..]), paddr, ToBytes(data, len))
      ensures Crosses(paddr, len) && !Cached(old(groups[..]), paddr) ==> groups[..] == old(groups[..])
      ensures AgreesExcept(groups[..], hwMem[..], StaleAfter(old(groups[..]), stale, paddr, len))
      ensures SameShown(old(groups[..]), groups[..], paddr, paddr + len)
      ensures !Crosses(paddr, len) ==> AgreesExcept(groups[..], hwMem[..], stale - Range(paddr, paddr + len))
      decreases len, 1
    {
      var b := ToBytes(data, len);
      ghost var range, c, mem := Range(paddr, paddr + len), groups[..], hwMem[..];
      Stored(c, mem, paddr, b, stale);
      StoreBytes(paddr, b);
      assert hwMem[..][paddr..paddr + len] == b;
      assert stale + range - range == stale - range;
      var way := SearchValid(Group(paddr), Tag(paddr));
      if way < WAYS {
        assert Cached(c, paddr);
        if Offset(paddr) + len <= LINE_SIZE {
          Patch(paddr, way, b, stale + range);
        } else {
          WriteAcross(paddr, len, data, stale + range);
        }
        assert StaleAfter(c, stale, paddr, len) == stale - range;
      } else if Offset(paddr) + len <= LINE_SIZE {
        NoLineHolds(c, hwMem[..], paddr, len, stale + range);
        assert StaleAfter(c, stale, paddr, len) == stale - range;
      } else {
        MissedStale(c, mem, paddr, len, data, stale);
      }
    }

    /** paddr_write with the cache on. */
    method Write(paddr: nat, len: nat, data: Word)
      requires Valid() && 1 <= len <= 4 && paddr + len <= MEM_SIZE
      modifies hwMem, groups
      ensures Valid() && SameKeys(old(groups[..]), groups[..])
      ensures hwMem[..] == MemWrite(old(hwMem[..]), paddr, ToBytes(data, len))
      ensures Crosses(paddr, len) && !Cached(old(groups[..]), paddr) ==> groups[..] == old(groups[..])
      ensures SameShown(old(groups[..]), groups[..], paddr, paddr + len)
      ensures var stale := StaleSet(old(groups[..]), old(hwMem[..]));
              StaleSet(groups[..], hwMem[..]) <= StaleAfter(old(groups[..]), stale, paddr, len)
      ensures old(InStep()) ==>
                (InStep() <==> !LeavesStale(old(groups[..]), old(hwMem[..]), paddr, len, data))
    {
      ghost var c, mem := groups[..], hwMem[..];
      ghost var stale := StaleSet(c, mem);
      StaleIsLeast(c, mem, stale);
      CacheWrite(paddr, len, data, stale);
      StaleIsLeast(groups[..], hwMem[..], StaleAfter(c, stale, paddr, len));
      if Coherent(c, mem) {
        StaleIsLeast(c, mem, {});
        if Crosses(paddr, len) && !Cached(c, paddr) {
          MissedCrossing(c, mem, paddr, len, data);
        } else {
          assert StaleAfter(c, stale, paddr, len) == {};
          StaleIsLeast(groups[..], hwMem[..], {});
        }
      }
    }

    /** Whether a write is one of those that leave a stale line behind. */
    method WouldLeaveStale(paddr: nat, len: nat, data: Word) returns (stale: bool)
      requires Valid() && 1 <= len <= 4 && paddr + len <= MEM_SIZE
      ensures stale == LeavesStale(groups[..], hwMem[..], paddr, len, data)
    {
      if !Crosses(paddr, len) {
        return false;
      }
      var first := IsCached(paddr);
      var second := IsCached(paddr + LINE_SIZE - Offset(paddr));
      stale := !first && second && SecondLineChanges(hwMem[..], paddr, len, data);
    }

    method IsCached(paddr: nat) returns (cached: bool)
      requires Valid() && paddr < MEM_SIZE
      ensures cached == Cached(groups[..], paddr)
    {
      var way := SearchValid(Group(paddr), Tag(paddr));
      assert way < WAYS ==> Holds(groups[..][Group(paddr)][way], Tag(paddr));
      cached := way < WAYS;
    }

    /** paddr_read or paddr_write with the cache on; a write returns nothing. */
    method Perform(x: Access) returns (ret: Word)
      requires Valid()
      modifies hwMem, groups
      ensures Valid() && hwMem[..] == AfterAccess(old(hwMem[..]), x)
      ensures AccessStep(old(groups[..]), old(hwMem[..]), x, ret, groups[..])
    {
      ghost var c, mem := groups[..], hwMem[..];
      ghost var stale := StaleSet(c, mem);
      StaleIsLeast(c, mem, {});
      if x.Read? {
        ghost var view;
        ret, view := CacheRead(x.paddr, x.len);
        ReadStep(c, groups[..], mem, x, ret, view);
      } else {
        ret := 0;
        Write(x.paddr, x.len, x.data);
        StaleIsLeast(groups[..], hwMem[..], {});
      }
    }

    /** Any sequence of accesses: what each read returned, 0 for a write, and the
        lines in between. A flat memory that sees the same writes is the
        specification; the victims of every miss are arbitrary. */
    method Run(accesses: seq<Access>) returns (results: seq<Word>, ghost caches: seq<seq<CacheGroup>>)
      requires Valid()
      modifies hwMem, groups
      ensures Valid() && hwMem[..] == FlatMemory(old(hwMem[..]), accesses)
      ensures IsTrace(old(hwMem[..]), caches, accesses, results)
      ensures caches[0] == old(groups[..]) && caches[|accesses|] == groups[..]
    {
      results, caches := [], [groups[..]];
      while |results| < |accesses|
        invariant Valid() && |results| <= |accesses|
        invariant hwMem[..] == FlatMemory(old(hwMem[..]), accesses[..|results|])
        invariant IsTrace(old(hwMem[..]), caches, accesses[..|results|], results)
        invariant caches[0] == old(groups[..]) && caches[|results|] == groups[..]
      {
        var n := |results|;
        var x := accesses[n];
        assert accesses[..n + 1] == accesses[..n] + [x];
        FlatStep(old(hwMem[..]), accesses[..n], x);
        var ret := Perform(x);
        TraceGrows(old(hwMem[..]), caches, accesses[..n], results, x, ret, groups[..]);
        results, caches := results + [ret], caches + [groups[..]];
      }
      assert accesses[..|results|] == accesses;
    }
  }

  /** A new cache, a read of one byte, then a write of two that starts before its
      line and changes it: reading the byte again returns what it was. */
  method StaleLineExample(mem: array<Byte>, paddr: nat) returns (before: Word, after: Word)
    requires mem.Length == MEM_SIZE && paddr == 63
    modifies mem
    ensures before % 0x100 == after % 0x100 == old(mem[paddr + 1]) != mem[paddr + 1]
  {
    var cache := new L1Cache(mem);
    ghost var empty, m0, view := cache.groups[..], mem[..], [];
    before, view := cache.CacheRead(paddr + 1, 1);
    ghost var c := cache.groups[..];
    NeighbourGroups(paddr);
    FilledCached(empty, c, m0, paddr + 1, paddr);
    ReadIsMemory(empty, m0, paddr + 1, view, {});
    OneByte(view);
    FilledAgrees(empty, c, m0, paddr + 1, {});
    var data := Complement(mem[paddr + 1]);
    SecondByteChanges(m0, paddr, data);
    cache.Write(paddr, 2, data);
    ghost var old64;
    after, old64 := cache.CacheRead(paddr + 1, 1);
    assert ByteSeen(c, mem[..], paddr + 1, old64, 0);
    ShownAgrees(c, m0, {}, paddr + 1, old64[0]);
    OneByte(old64);
  }

  lemma OneByte(b: seq<Byte>)
    requires |b| == 1
    ensures FromBytes(b) == b[0]
  {
    assert b[1..] == [];
  }

  /** Two bytes, the second one different from v. */
  function Complement(v: Byte): (data: Word)
    ensures data / 0x100 < 0x100 && data / 0x100 != v
  {
    (0xff - v as int) * 0x100
  }

  lemma NeighbourGroups(paddr: nat)
    requires paddr == 63
    ensures Group(paddr) != Group(paddr + 1)
  {
  }

  lemma SecondByteChanges(mem: seq<Byte>, paddr: nat, data: Word)
    requires |mem| == MEM_SIZE && paddr == 63 && data / 0x100 < 0x100 && data / 0x100 != mem[paddr + 1]
    ensures Crosses(paddr, 2) && MemWrite(mem, paddr, ToBytes(data, 2))[paddr + 1] == data / 0x100 != mem[paddr + 1]
  {
    assert ToBytes(data, 2) == [data % 0x100] + ToBytes(data / 0x100, 1);
    assert ToBytes(data / 0x100, 1)[0] == data / 0x100;
  }
}
