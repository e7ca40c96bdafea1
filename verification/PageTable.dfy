/** The kernel's page tables (kernel/src/memory/kvm.c, mm.c and vmem.c) against the
    two-level walk of 32-bit paging (Intel SDM Volume 3A, section 4.3). */
module PageTable {
  import opened Arithmetic
  import opened Words

  const PAGE_SIZE: nat := 4096
  const NR_ENTRIES: nat := 1024
  const PT_SIZE: nat := 0x40_0000
  const PHY_MEM: nat := 128 * 1024 * 1024
  const KOFFSET: nat := 0xC000_0000
  const WORDS: nat := PHY_MEM / 4
  const PAGES: nat := PHY_MEM / PAGE_SIZE

  /** Physical memory as 32-bit words. */
  type Memory = m: seq<Word> | |m| == WORDS witness seq(WORDS, i => 0)

  // ---------------------------------------------------------------------
  // The walk
  // ---------------------------------------------------------------------

  datatype Translation = Fault | At(pa: nat)

  /** An aligned word; there is nothing past the end of memory. */
  function Load(mem: Memory, pa: nat): Word {
    if pa / 4 < WORDS then mem[pa / 4] else 0
  }

  predicate Present(entry: Word) {
    entry % 2 == 1
  }

  /** The page frame an entry (or cr3) names, as an address. */
  function Frame(entry: Word): nat {
    entry / 0x1000 * 0x1000
  }

  /** Where va leads, page-directory entry first, then page-table entry. */
  function Walk(mem: Memory, cr3: Word, va: Word): Translation {
    var pde := Load(mem, Frame(cr3) + va / 0x40_0000 * 4);
    if !Present(pde) then Fault
    else
      var pte := Load(mem, Frame(pde) + va / 0x1000 % 0x400 * 4);
      if !Present(pte) then Fault else At(Frame(pte) + va % 0x1000)
  }

  // ---------------------------------------------------------------------
  // Entries and where the tables lie
  // ---------------------------------------------------------------------

  /** make_pde and make_pte: present, writable and accessible to users. */
  function MakeEntry(addr: Word): (r: Word) {
    addr / 0x1000 * 0x1000 + 7
  }

  lemma EntryFields(addr: Word)
    requires addr % 0x1000 == 0
    ensures Present(MakeEntry(addr)) && Frame(MakeEntry(addr)) == addr
  {
    var p := addr / 0x1000;
    DivisionUnique(0x1000, p, 7);
    DivisionUnique(2, 0x800 * p + 3, 1);
  }

  /** The masks of cr3 and ucr3 lose nothing of a page's address. */
  lemma PageAddress(page: nat)
    requires page < PAGES
    ensures PAGE_SIZE * page / 0x1000 * 0x1000 == PAGE_SIZE * page == PAGE_SIZE * page / 0x400 * 0x400
    ensures PAGE_SIZE * page < 0x1_0000_0000 && Frame(PAGE_SIZE * page) == PAGE_SIZE * page
  {
    DivisionUnique(0x1000, page, 0);
    DivisionUnique(0x400, 4 * page, 0);
  }

  /** Page numbers of the statically allocated, page-aligned tables. */
  datatype Layout = Layout(kpdir: nat, kptable: nat, updir: nat, table: nat)

  const KERNEL_TABLES: nat := PHY_MEM / PT_SIZE

  predicate Apart(l: Layout) {
    && l.kpdir < PAGES && l.updir < PAGES && l.table < PAGES && l.kptable + KERNEL_TABLES <= PAGES
    && l.kpdir != l.updir && l.kpdir != l.table && l.updir != l.table
    && !InTables(l, l.kpdir) && !InTables(l, l.updir) && !InTables(l, l.table)
  }

  predicate InTables(l: Layout, page: nat) {
    l.kptable <= page < l.kptable + KERNEL_TABLES
  }

  /** The i-th word of a table that starts at the given page. */
  function Entry(mem: Memory, page: nat, i: nat): Word
    requires NR_ENTRIES * page + i < WORDS
  {
    mem[NR_ENTRIES * page + i]
  }

  lemma LoadEntry(mem: Memory, page: nat, i: nat)
    requires NR_ENTRIES * page + i < WORDS
    ensures Load(mem, PAGE_SIZE * page + i * 4) == Entry(mem, page, i)
  {
  }

  /** The entries of a directory that maps the first d tables twice. */
  function KernelPde(l: Layout, i: nat, d: nat): Word
    requires Apart(l) && d <= KERNEL_TABLES
  {
    if i < d then MakeEntry(PAGE_SIZE * (l.kptable + i))
    else if KOFFSET / PT_SIZE <= i < KOFFSET / PT_SIZE + d then
      MakeEntry(PAGE_SIZE * (l.kptable + i - KOFFSET / PT_SIZE))
    else 0
  }

  ghost predicate Directory(mem: Memory, l: Layout, d: nat)
    requires Apart(l) && d <= KERNEL_TABLES
  {
    forall i :: 0 <= i < NR_ENTRIES ==> Entry(mem, l.kpdir, i) == KernelPde(l, i, d)
  }

  ghost predicate Tables(mem: Memory, l: Layout, n: nat)
    requires Apart(l) && n <= PAGES
  {
    forall k :: 0 <= k < n ==> Entry(mem, l.kptable, k) == MakeEntry(PAGE_SIZE * k)
  }

  predicate KernelPage(l: Layout, page: nat) {
    page == l.kpdir || InTables(l, page)
  }

  /** Only the kernel's own tables differ. */
  ghost predicate OthersKept(before: Memory, after: Memory, l: Layout) {
    forall page: nat, k: nat | page < PAGES && k < NR_ENTRIES && !KernelPage(l, page) ::
      Entry(after, page, k) == Entry(before, page, k)
  }

  ghost predicate OnlyPage(before: Memory, after: Memory, changed: nat) {
    forall page: nat, k: nat | page < PAGES && k < NR_ENTRIES && page != changed ::
      Entry(after, page, k) == Entry(before, page, k)
  }

  /** Only the user's directory and table may differ. */
  ghost predicate UserPages(before: Memory, after: Memory, l: Layout) {
    forall page: nat, k: nat | page < PAGES && k < NR_ENTRIES && page != l.updir && page != l.table ::
      Entry(after, page, k) == Entry(before, page, k)
  }

  /** Only pages that hold directories or tables may differ. */
  ghost predicate TablePages(before: Memory, after: Memory, l: Layout) {
    forall page: nat, k: nat
      | page < PAGES && k < NR_ENTRIES && !KernelPage(l, page) && page != l.updir && page != l.table ::
      Entry(after, page, k) == Entry(before, page, k)
  }

  lemma UserPagesTwice(before: Memory, between: Memory, after: Memory, l: Layout)
    requires OnlyPage(before, between, l.updir) && OnlyPage(between, after, l.table)
    ensures UserPages(before, after, l)
  {
    forall page: nat, k: nat | page < PAGES && k < NR_ENTRIES && page != l.updir && page != l.table
      ensures Entry(after, page, k) == Entry(before, page, k)
    {
      assert Entry(between, page, k) == Entry(before, page, k);
    }
  }

  lemma BootKeeps(m0: Memory, m1: Memory, m2: Memory, m3: Memory, l: Layout)
    requires OthersKept(m0, m1, l) && OnlyPage(m1, m2, l.updir) && UserPages(m2, m3, l)
    ensures TablePages(m0, m3, l)
  {
    forall page: nat, k: nat
      | page < PAGES && k < NR_ENTRIES && !KernelPage(l, page) && page != l.updir && page != l.table
      ensures Entry(m3, page, k) == Entry(m0, page, k)
    {
      assert Entry(m3, page, k) == Entry(m2, page, k) && Entry(m2, page, k) == Entry(m1, page, k);
    }
  }

  /** What the kernel's mapping is meant to be. */
  function KernelMap(va: Word): Translation {
    if va < PHY_MEM then At(va)
    else if KOFFSET <= va < KOFFSET + PHY_MEM then At(va - KOFFSET)
    else Fault
  }

  lemma WalkTwo(mem: Memory, page: nat, table: nat, cr3: Word, va: Word)
    requires page < PAGES && table < PAGES && Frame(cr3) == PAGE_SIZE * page
    requires Entry(mem, page, va / PT_SIZE) == MakeEntry(PAGE_SIZE * table)
    ensures var pte := Entry(mem, table, va / PAGE_SIZE % NR_ENTRIES);
            Walk(mem, cr3, va) == if Present(pte) then At(Frame(pte) + va % PAGE_SIZE) else Fault
  {
    LoadEntry(mem, page, va / PT_SIZE);
    LoadEntry(mem, table, va / PAGE_SIZE % NR_ENTRIES);
    EntryFields(PAGE_SIZE * table);
  }

  lemma WalkNone(mem: Memory, page: nat, cr3: Word, va: Word)
    requires page < PAGES && Frame(cr3) == PAGE_SIZE * page
    requires !Present(Entry(mem, page, va / PT_SIZE))
    ensures Walk(mem, cr3, va) == Fault
  {
    LoadEntry(mem, page, va / PT_SIZE);
  }

  lemma SplitAddress(va: nat)
    ensures va / PAGE_SIZE == NR_ENTRIES * (va / PT_SIZE) + va / PAGE_SIZE % NR_ENTRIES
    ensures va == PAGE_SIZE * (va / PAGE_SIZE) + va % PAGE_SIZE
  {
  }

  /** An address that the i-th kernel table serves. */
  lemma WalkKernelTable(mem: Memory, l: Layout, page: nat, cr3: Word, va: Word, pa: nat)
    requires Apart(l) && Tables(mem, l, PAGES) && page < PAGES && Frame(cr3) == PAGE_SIZE * page
    requires pa < PHY_MEM && va % PAGE_SIZE == pa % PAGE_SIZE
    requires va / PAGE_SIZE % NR_ENTRIES == pa / PAGE_SIZE % NR_ENTRIES
    requires Entry(mem, page, va / PT_SIZE) == MakeEntry(PAGE_SIZE * (l.kptable + pa / PT_SIZE))
    ensures Walk(mem, cr3, va) == At(pa)
  {
    var i, k := pa / PT_SIZE, pa / PAGE_SIZE;
    WalkTwo(mem, page, l.kptable + i, cr3, va);
    SplitAddress(pa);
    FrameEntry(mem, l, i, k % NR_ENTRIES);
  }

  lemma FrameEntry(mem: Memory, l: Layout, i: nat, j: nat)
    requires Apart(l) && Tables(mem, l, PAGES) && i < KERNEL_TABLES && j < NR_ENTRIES
    ensures var e := Entry(mem, l.kptable + i, j); Present(e) && Frame(e) == PAGE_SIZE * (NR_ENTRIES * i + j)
  {
    var k := NR_ENTRIES * i + j;
    assert Entry(mem, l.kptable + i, j) == Entry(mem, l.kptable, k) == MakeEntry(PAGE_SIZE * k);
    EntryFields(PAGE_SIZE * k);
  }

  lemma HighAddress(va: Word)
    requires KOFFSET <= va
    ensures (va - KOFFSET) / PT_SIZE == va / PT_SIZE - KOFFSET / PT_SIZE
    ensures (va - KOFFSET) / PAGE_SIZE % NR_ENTRIES == va / PAGE_SIZE % NR_ENTRIES
    ensures (va - KOFFSET) % PAGE_SIZE == va % PAGE_SIZE
  {
    DivisionUnique(PT_SIZE, va / PT_SIZE - 0x300, va % PT_SIZE);
    DivisionUnique(PAGE_SIZE, va / PAGE_SIZE - 0xc_0000, va % PAGE_SIZE);
    TableIndex(va / PAGE_SIZE);
  }

  lemma TableIndex(page: nat)
    ensures (page - 0xc_0000) % NR_ENTRIES == page % NR_ENTRIES
  {
    DivisionUnique(NR_ENTRIES, page / NR_ENTRIES - 0x300, page % NR_ENTRIES);
  }

  /** A full directory and full tables give exactly the kernel's mapping. */
  lemma WalkKernel(mem: Memory, l: Layout, cr3: Word, va: Word)
    requires Apart(l) && Directory(mem, l, KERNEL_TABLES) && Tables(mem, l, PAGES)
    requires Frame(cr3) == PAGE_SIZE * l.kpdir
    ensures Walk(mem, cr3, va) == KernelMap(va)
  {
    var i := va / PT_SIZE;
    assert Entry(mem, l.kpdir, i) == KernelPde(l, i, KERNEL_TABLES);
    if va < PHY_MEM {
      WalkKernelTable(mem, l, l.kpdir, cr3, va, va);
    } else if KOFFSET <= va < KOFFSET + PHY_MEM {
      HighAddress(va);
      WalkKernelTable(mem, l, l.kpdir, cr3, va, va - KOFFSET);
    } else {
      WalkNone(mem, l.kpdir, cr3, va);
    }
  }

  /** What a user's mapping is meant to be once video memory is mapped. */
  function UserMap(va: Word): Translation {
    if VIDEO_FIRST * PAGE_SIZE <= va < (VIDEO_LAST + 1) * PAGE_SIZE then At(va)
    else if KOFFSET <= va < KOFFSET + PHY_MEM then At(va - KOFFSET)
    else Fault
  }

  const VIDEO_FIRST: nat := 0xa0
  const VIDEO_LAST: nat := 0xaf

  /** The user directory after init_mm, and after create_video_mapping. */
  function UserPde(l: Layout, i: nat, video: bool): Word
    requires Apart(l)
  {
    if KOFFSET / PT_SIZE <= i < KOFFSET / PT_SIZE + KERNEL_TABLES then
      MakeEntry(PAGE_SIZE * (l.kptable + i - KOFFSET / PT_SIZE))
    else if video && i == 0 then MakeEntry(PAGE_SIZE * l.table)
    else 0
  }

  ghost predicate UserDirectory(mem: Memory, l: Layout, video: bool)
    requires Apart(l)
  {
    forall i :: 0 <= i < NR_ENTRIES ==> Entry(mem, l.updir, i) == UserPde(l, i, video)
  }

  ghost predicate VideoTable(mem: Memory, l: Layout, last: nat)
    requires Apart(l)
  {
    forall k :: 0 <= k < NR_ENTRIES ==>
      Entry(mem, l.table, k) == if VIDEO_FIRST <= k < last then MakeEntry(PAGE_SIZE * k) else 0
  }

  lemma WalkUser(mem: Memory, l: Layout, cr3: Word, va: Word)
    requires Apart(l) && UserDirectory(mem, l, true) && Tables(mem, l, PAGES) && VideoTable(mem, l, VIDEO_LAST + 1)
    requires Frame(cr3) == PAGE_SIZE * l.updir
    ensures Walk(mem, cr3, va) == UserMap(va)
  {
    var i := va / PT_SIZE;
    assert Entry(mem, l.updir, i) == UserPde(l, i, true);
    if KOFFSET <= va < KOFFSET + PHY_MEM {
      HighAddress(va);
      WalkKernelTable(mem, l, l.updir, cr3, va, va - KOFFSET);
    } else if i == 0 {
      WalkTwo(mem, l.updir, l.table, cr3, va);
      WalkVideo(mem, l, va);
    } else {
      WalkNone(mem, l.updir, cr3, va);
    }
  }

  lemma WalkVideo(mem: Memory, l: Layout, va: Word)
    requires Apart(l) && VideoTable(mem, l, VIDEO_LAST + 1) && va < PT_SIZE
    ensures var k := va / PAGE_SIZE;
            && k % NR_ENTRIES == k
            && (Present(Entry(mem, l.table, k)) <==> VIDEO_FIRST <= k <= VIDEO_LAST)
            && (Present(Entry(mem, l.table, k)) ==> Frame(Entry(mem, l.table, k)) + va % PAGE_SIZE == va)
  {
    EntryFields(PAGE_SIZE * (va / PAGE_SIZE));
    SplitAddress(va);
  }

  // ---------------------------------------------------------------------
  // The code that fills the tables
  // ---------------------------------------------------------------------

  /** A store of a table entry. */
  function Store(mem: Memory, page: nat, i: nat, v: Word): Memory
    requires NR_ENTRIES * page + i < WORDS
  {
    mem[NR_ENTRIES * page + i := v]
  }

  lemma StoreOther(mem: Memory, page: nat, i: nat, v: Word, page': nat, k: nat)
    requires page < PAGES && page' < PAGES && i < NR_ENTRIES && k < NR_ENTRIES && (page != page' || i != k)
    ensures Entry(Store(mem, page, i, v), page', k) == Entry(mem, page', k)
  {
  }

  /** Entries of the kernel's tables counted through all its pages. */
  lemma TableEntry(l: Layout, mem: Memory, k: nat)
    requires Apart(l) && k < PAGES
    ensures Entry(mem, l.kptable, k) == Entry(mem, l.kptable + k / NR_ENTRIES, k % NR_ENTRIES)
    ensures InTables(l, l.kptable + k / NR_ENTRIES)
  {
  }

  lemma OneDirectoryEntry(mem: Memory, l: Layout, i: nat, v: Word, n: nat)
    requires Apart(l) && n <= PAGES && Tables(mem, l, n) && i < NR_ENTRIES
    ensures var mem' := Store(mem, l.kpdir, i, v);
            && Tables(mem', l, n) && OthersKept(mem, mem', l)
            && forall k :: 0 <= k < NR_ENTRIES ==>
                 Entry(mem', l.kpdir, k) == if k == i then v else Entry(mem, l.kpdir, k)
  {
    var mem' := Store(mem, l.kpdir, i, v);
    forall k | 0 <= k < n ensures Entry(mem', l.kptable, k) == Entry(mem, l.kptable, k) {
      TableEntry(l, mem, k);
      TableEntry(l, mem', k);
      StoreOther(mem, l.kpdir, i, v, l.kptable + k / NR_ENTRIES, k % NR_ENTRIES);
    }
    forall page: nat, k: nat | page < PAGES && k < NR_ENTRIES && !KernelPage(l, page)
      ensures Entry(mem', page, k) == Entry(mem, page, k)
    {
      StoreOther(mem, l.kpdir, i, v, page, k);
    }
    forall k | 0 <= k < NR_ENTRIES && k != i ensures Entry(mem', l.kpdir, k) == Entry(mem, l.kpdir, k) {
      StoreOther(mem, l.kpdir, i, v, l.kpdir, k);
    }
  }

  lemma TwoDirectoryEntries(mem: Memory, l: Layout, d: nat)
    requires Apart(l) && d < KERNEL_TABLES && Directory(mem, l, d) && Tables(mem, l, NR_ENTRIES * d)
    ensures var v := MakeEntry(PAGE_SIZE * (l.kptable + d));
            var mem' := Store(Store(mem, l.kpdir, d, v), l.kpdir, d + KOFFSET / PT_SIZE, v);
            Directory(mem', l, d + 1) && Tables(mem', l, NR_ENTRIES * d) && OthersKept(mem, mem', l)
  {
    var v := MakeEntry(PAGE_SIZE * (l.kptable + d));
    var mid := Store(mem, l.kpdir, d, v);
    OneDirectoryEntry(mem, l, d, v, NR_ENTRIES * d);
    OneDirectoryEntry(mid, l, d + KOFFSET / PT_SIZE, v, NR_ENTRIES * d);
    var mem' := Store(mid, l.kpdir, d + KOFFSET / PT_SIZE, v);
    OthersKeptTwice(mem, mid, mem', l);
    forall i | 0 <= i < NR_ENTRIES ensures Entry(mem', l.kpdir, i) == KernelPde(l, i, d + 1) {
      KernelPdeNext(l, i, d);
      assert Entry(mem, l.kpdir, i) == KernelPde(l, i, d);
    }
  }

  lemma KernelPdeNext(l: Layout, i: nat, d: nat)
    requires Apart(l) && d < KERNEL_TABLES && i < NR_ENTRIES
    ensures KernelPde(l, i, d + 1)
         == if i == d || i == d + KOFFSET / PT_SIZE then MakeEntry(PAGE_SIZE * (l.kptable + d)) else KernelPde(l, i, d)
  {
  }

  lemma OthersKeptTwice(before: Memory, between: Memory, after: Memory, l: Layout)
    requires OthersKept(before, between, l) && OthersKept(between, after, l)
    ensures OthersKept(before, after, l)
  {
  }

  lemma OneTableEntry(mem: Memory, l: Layout, d: nat, n: nat)
    requires Apart(l) && d <= KERNEL_TABLES && n < PAGES
    requires Directory(mem, l, d) && Tables(mem, l, n)
    ensures var mem' := Store(mem, l.kptable, n, MakeEntry(PAGE_SIZE * n));
            Directory(mem', l, d) && Tables(mem', l, n + 1) && OthersKept(mem, mem', l)
  {
    var v := MakeEntry(PAGE_SIZE * n);
    var mem' := Store(mem, l.kptable, n, v);
    var page', i := l.kptable + n / NR_ENTRIES, n % NR_ENTRIES;
    TableEntry(l, mem, n);
    assert mem' == Store(mem, page', i, v);
    forall page: nat, k: nat | page < PAGES && k < NR_ENTRIES && page != page'
      ensures Entry(mem', page, k) == Entry(mem, page, k)
    {
      StoreOther(mem, page', i, v, page, k);
    }
    forall k | 0 <= k < NR_ENTRIES ensures Entry(mem', l.kpdir, k) == KernelPde(l, k, d) {
      assert Entry(mem', l.kpdir, k) == Entry(mem, l.kpdir, k);
    }
    assert forall k :: 0 <= k < n ==> Entry(mem', l.kptable, k) == Entry(mem, l.kptable, k);
  }

  /** The kernel's tables do not notice changes to another page. */
  lemma KernelKept(before: Memory, after: Memory, l: Layout, changed: nat)
    requires Apart(l) && OnlyPage(before, after, changed) && !KernelPage(l, changed)
    requires Directory(before, l, KERNEL_TABLES) && Tables(before, l, PAGES)
    ensures Directory(after, l, KERNEL_TABLES) && Tables(after, l, PAGES)
  {
    forall i | 0 <= i < NR_ENTRIES ensures Entry(after, l.kpdir, i) == KernelPde(l, i, KERNEL_TABLES) {
      assert Entry(after, l.kpdir, i) == Entry(before, l.kpdir, i);
    }
    forall k | 0 <= k < PAGES ensures Entry(after, l.kptable, k) == MakeEntry(PAGE_SIZE * k) {
      TableEntry(l, before, k);
      TableEntry(l, after, k);
      assert Entry(before, l.kptable, k) == MakeEntry(PAGE_SIZE * k);
    }
  }

  /** The first n of the kernel's upper directory entries have been copied. */
  ghost predicate Copied(mem: Memory, l: Layout, n: nat)
    requires Apart(l)
  {
    forall i :: 0 <= i < NR_ENTRIES ==>
      Entry(mem, l.updir, i)
      == if KOFFSET / PT_SIZE <= i < KOFFSET / PT_SIZE + n then Entry(mem, l.kpdir, i) else 0
  }

  lemma CopiedIsUser(mem: Memory, l: Layout)
    requires Apart(l) && Directory(mem, l, KERNEL_TABLES) && Copied(mem, l, KERNEL_TABLES)
    ensures UserDirectory(mem, l, false)
  {
    forall i | 0 <= i < NR_ENTRIES ensures Entry(mem, l.updir, i) == UserPde(l, i, false) {
      assert Entry(mem, l.kpdir, i) == KernelPde(l, i, KERNEL_TABLES);
    }
  }

  lemma OnlyPageTwice(before: Memory, between: Memory, after: Memory, changed: nat)
    requires OnlyPage(before, between, changed) && OnlyPage(between, after, changed)
    ensures OnlyPage(before, after, changed)
  {
  }

  lemma StoreOnly(before: Memory, mem: Memory, page: nat, i: nat, v: Word)
    requires page < PAGES && i < NR_ENTRIES && OnlyPage(before, mem, page)
    ensures OnlyPage(before, Store(mem, page, i, v), page)
    ensures forall k :: 0 <= k < NR_ENTRIES ==>
              Entry(Store(mem, page, i, v), page, k) == if k == i then v else Entry(mem, page, k)
  {
    forall page': nat, k: nat | page' < PAGES && k < NR_ENTRIES && (page' != page || k != i)
      ensures Entry(Store(mem, page, i, v), page', k) == Entry(mem, page', k)
    {
      StoreOther(mem, page, i, v, page', k);
    }
  }

  lemma UserKept(before: Memory, after: Memory, l: Layout)
    requires Apart(l) && UserDirectory(before, l, false) && VideoTable(before, l, VIDEO_FIRST)
    requires OnlyPage(before, after, l.updir)
    requires forall k :: 0 <= k < NR_ENTRIES ==>
               Entry(after, l.updir, k) == if k == 0 then MakeEntry(PAGE_SIZE * l.table) else Entry(before, l.updir, k)
    ensures UserDirectory(after, l, true) && VideoTable(after, l, VIDEO_FIRST)
  {
    forall i | 0 <= i < NR_ENTRIES ensures Entry(after, l.updir, i) == UserPde(l, i, true) {
      assert Entry(before, l.updir, i) == UserPde(l, i, false);
    }
  }

  lemma UserUnmoved(before: Memory, after: Memory, l: Layout)
    requires Apart(l) && UserDirectory(before, l, true) && OnlyPage(before, after, l.table)
    ensures UserDirectory(after, l, true)
  {
    forall i | 0 <= i < NR_ENTRIES ensures Entry(after, l.updir, i) == UserPde(l, i, true) {
      assert Entry(after, l.updir, i) == Entry(before, l.updir, i);
    }
  }

  class Kernel {
    const memory: array<Word>
    const layout: Layout
    var cr3: Word
    var paging: bool
    var ucr3: Word

    ghost predicate Valid()
      reads this, memory
    {
      memory.Length == WORDS && Apart(layout)
    }

    ghost predicate KernelReady()
      reads this, memory
    {
      && Valid() && paging && cr3 == PAGE_SIZE * layout.kpdir
      && Directory(memory[..], layout, KERNEL_TABLES) && Tables(memory[..], layout, PAGES)
    }

    constructor (ram: array<Word>, l: Layout)
      requires ram.Length == WORDS && Apart(l)
      ensures Valid() && memory == ram && layout == l
    {
      memory, layout, cr3, paging, ucr3 := ram, l, 0, false, 0;
    }

    /** memset(table, 0, NR_PDE * sizeof(PDE)) */
    method ClearPage(page: nat)
      requires Valid() && page < PAGES
      modifies memory
      ensures forall i :: 0 <= i < NR_ENTRIES ==> Entry(memory[..], page, i) == 0
      ensures OnlyPage(old(memory[..]), memory[..], page)
    {
      for n := 0 to NR_ENTRIES
        invariant forall i :: 0 <= i < n ==> Entry(memory[..], page, i) == 0
        invariant OnlyPage(old(memory[..]), memory[..], page)
      {
        ghost var before: Memory := memory[..];
        memory[NR_ENTRIES * page + n] := 0;
        forall page': nat, k: nat | page' < PAGES && k < NR_ENTRIES && (page' != page || k != n)
          ensures Entry(memory[..], page', k) == Entry(before, page', k)
        {
          StoreOther(before, page, n, 0, page', k);
        }
      }
    }

    method InitPage()
      requires Valid()
      modifies memory, `cr3, `paging
      ensures KernelReady()
      ensures forall va: Word :: Walk(memory[..], cr3, va) == KernelMap(va)
      ensures OthersKept(old(memory[..]), memory[..], layout)
    {
      ClearPage(layout.kpdir);
      var pframe := 0;
      var ptable := PAGE_SIZE * layout.kptable;
      for pdirIdx := 0 to PHY_MEM / PT_SIZE
        invariant pframe == NR_ENTRIES * pdirIdx && ptable == PAGE_SIZE * layout.kptable + 4 * pframe
        invariant Directory(memory[..], layout, pdirIdx) && Tables(memory[..], layout, pframe)
        invariant OthersKept(old(memory[..]), memory[..], layout)
      {
        AddTable(pdirIdx, ptable);
        ptable, pframe := FillTable(pdirIdx, ptable, pframe);
      }
      PageAddress(layout.kpdir);
      cr3 := 0;
      cr3 := PAGE_SIZE * layout.kpdir / 0x1000 * 0x1000;
      paging := true;
      forall va: Word ensures Walk(memory[..], cr3, va) == KernelMap(va) {
        WalkKernel(memory[..], layout, cr3, va);
      }
    }

    /** The two directory entries of one kernel table. */
    method AddTable(d: nat, ptable: nat)
      requires Valid() && d < KERNEL_TABLES && ptable == PAGE_SIZE * (layout.kptable + d)
      requires Directory(memory[..], layout, d) && Tables(memory[..], layout, NR_ENTRIES * d)
      modifies memory
      ensures Directory(memory[..], layout, d + 1) && Tables(memory[..], layout, NR_ENTRIES * d)
      ensures OthersKept(old(memory[..]), memory[..], layout)
    {
      TwoDirectoryEntries(memory[..], layout, d);
      StoreTwo(d, MakeEntry(ptable));
    }

    method StoreTwo(d: nat, pde: Word)
      requires Valid() && d < KERNEL_TABLES
      modifies memory
      ensures var mem := old(memory[..]);
              memory[..] == Store(Store(mem, layout.kpdir, d, pde), layout.kpdir, d + KOFFSET / PT_SIZE, pde)
    {
      memory[NR_ENTRIES * layout.kpdir + d] := pde;
      memory[NR_ENTRIES * layout.kpdir + d + KOFFSET / PT_SIZE] := pde;
    }

    /** The inner loop of init_page. */
    method FillTable(d: nat, ptable0: nat, pframe0: nat) returns (ptable: nat, pframe: nat)
      requires Valid() && d < KERNEL_TABLES && pframe0 == NR_ENTRIES * d
      requires ptable0 == PAGE_SIZE * layout.kptable + 4 * pframe0
      requires Directory(memory[..], layout, d + 1) && Tables(memory[..], layout, pframe0)
      modifies memory
      ensures pframe == pframe0 + NR_ENTRIES && ptable == ptable0 + 4 * NR_ENTRIES
      ensures Directory(memory[..], layout, d + 1) && Tables(memory[..], layout, pframe)
      ensures OthersKept(old(memory[..]), memory[..], layout)
    {
      ptable, pframe := ptable0, pframe0;
      for ptableIdx := 0 to NR_ENTRIES
        invariant pframe == pframe0 + ptableIdx && ptable == ptable0 + 4 * ptableIdx
        invariant Directory(memory[..], layout, d + 1) && Tables(memory[..], layout, pframe)
        invariant OthersKept(old(memory[..]), memory[..], layout)
      {
        ghost var before: Memory := memory[..];
        OneTableEntry(before, layout, d + 1, pframe);
        assert ptable / 4 == NR_ENTRIES * layout.kptable + pframe;
        memory[ptable / 4] := MakeEntry(pframe * 0x1000);
        assert memory[..] == Store(before, layout.kptable, pframe, MakeEntry(PAGE_SIZE * pframe));
        pframe := pframe + 1;
        ptable := ptable + 4;
      }
    }

    /** Gives the user directory the kernel's upper mapping. */
    method InitMm()
      requires KernelReady()
      modifies memory, `ucr3
      ensures KernelReady() && UserDirectory(memory[..], layout, false)
      ensures OnlyPage(old(memory[..]), memory[..], layout.updir) && Frame(ucr3) == PAGE_SIZE * layout.updir
    {
      ghost var before: Memory := memory[..];
      ClearPage(layout.updir);
      ghost var cleared: Memory := memory[..];
      CopyUpper();
      ghost var after: Memory := memory[..];
      OnlyPageTwice(before, cleared, after, layout.updir);
      KernelKept(before, after, layout, layout.updir);
      CopiedIsUser(after, layout);
      PageAddress(layout.updir);
      ucr3 := PAGE_SIZE * layout.updir / 0x400 * 0x400;
    }

    /** memcpy of the upper entries. */
    method CopyUpper()
      requires Valid() && forall i :: 0 <= i < NR_ENTRIES ==> Entry(memory[..], layout.updir, i) == 0
      modifies memory
      ensures Copied(memory[..], layout, KERNEL_TABLES)
      ensures OnlyPage(old(memory[..]), memory[..], layout.updir)
    {
      for n := 0 to KERNEL_TABLES
        invariant Copied(memory[..], layout, n)
        invariant OnlyPage(old(memory[..]), memory[..], layout.updir)
      {
        ghost var before: Memory := memory[..];
        var i := KOFFSET / PT_SIZE + n;
        StoreOnly(before, before, layout.updir, i, Entry(before, layout.kpdir, i));
        StoreOnly(old(memory[..]), before, layout.updir, i, Entry(before, layout.kpdir, i));
        memory[NR_ENTRIES * layout.updir + i] := memory[NR_ENTRIES * layout.kpdir + i];
        assert memory[..] == Store(before, layout.updir, i, Entry(before, layout.kpdir, i));
      }
    }

    /** Maps video memory for the user; its page table starts out empty. */
    method CreateVideoMapping()
      requires KernelReady() && UserDirectory(memory[..], layout, false) && VideoTable(memory[..], layout, VIDEO_FIRST)
      modifies memory
      ensures KernelReady() && UserDirectory(memory[..], layout, true) && VideoTable(memory[..], layout, VIDEO_LAST + 1)
      ensures UserPages(old(memory[..]), memory[..], layout)
    {
      ghost var m0: Memory := memory[..];
      var ptable := PAGE_SIZE * layout.table;
      memory[NR_ENTRIES * layout.updir] := MakeEntry(ptable);
      ghost var m1: Memory := memory[..];
      assert m1 == Store(m0, layout.updir, 0, MakeEntry(ptable));
      StoreOnly(m0, m0, layout.updir, 0, MakeEntry(ptable));
      KernelKept(m0, m1, layout, layout.updir);
      UserKept(m0, m1, layout);
      ptable := ptable + 4 * VIDEO_FIRST;
      FillVideo(ptable);
      KernelKept(m1, memory[..], layout, layout.table);
      UserUnmoved(m1, memory[..], layout);
      UserPagesTwice(m0, m1, memory[..], layout);
    }

    method FillVideo(ptable0: nat)
      requires Valid() && VideoTable(memory[..], layout, VIDEO_FIRST)
      requires ptable0 == PAGE_SIZE * layout.table + 4 * VIDEO_FIRST
      modifies memory
      ensures VideoTable(memory[..], layout, VIDEO_LAST + 1)
      ensures OnlyPage(old(memory[..]), memory[..], layout.table)
    {
      var ptable := ptable0;
      for i := VIDEO_FIRST to VIDEO_LAST + 1
        invariant ptable == PAGE_SIZE * layout.table + 4 * i
        invariant VideoTable(memory[..], layout, i)
        invariant OnlyPage(old(memory[..]), memory[..], layout.table)
      {
        ghost var before: Memory := memory[..];
        StoreOnly(old(memory[..]), before, layout.table, i, MakeEntry(PAGE_SIZE * i));
        assert ptable / 4 == NR_ENTRIES * layout.table + i;
        memory[ptable / 4] := MakeEntry(i * 0x1000);
        assert memory[..] == Store(before, layout.table, i, MakeEntry(PAGE_SIZE * i));
        ptable := ptable + 4;
      }
    }

    /** The three steps in the order the kernel takes them. */
    method Boot()
      requires Valid() && VideoTable(memory[..], layout, VIDEO_FIRST)
      modifies this, memory
      ensures KernelReady() && forall va: Word :: Walk(memory[..], cr3, va) == KernelMap(va)
      ensures forall va: Word :: Walk(memory[..], ucr3, va) == UserMap(va)
      ensures TablePages(old(memory[..]), memory[..], layout)
    {
      InitPage();
      ghost var m1: Memory := memory[..];
      InitMm();
      ghost var m2: Memory := memory[..];
      CreateVideoMapping();
      BootKeeps(old(memory[..]), m1, m2, memory[..], layout);
      forall va: Word
        ensures Walk(memory[..], cr3, va) == KernelMap(va) && Walk(memory[..], ucr3, va) == UserMap(va)
      {
        WalkKernel(memory[..], layout, cr3, va);
        WalkUser(memory[..], layout, ucr3, va);
      }
    }
  }
}
