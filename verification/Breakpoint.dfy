/** The debugger's breakpoint pool (nemu/src/monitor/breakpoint.c): 32 records
    threaded into an active and a free list, and the INT3 bytes that breakpoints
    patch into guest memory. */
module Breakpoint {
  import opened Chains
  import opened Words

  const NR_BP: nat := 32
  const INT3: Byte := 0xf1

  datatype Target = Code(addr: nat) | Watch(text: string, oldVal: nat)

  /** One record; next is the index of the record linked to, or NULL. */
  datatype BP = BP(no: int, inUse: bool, enable: bool, oriByte: Byte, target: Target, next: int)

  // ---------------------------------------------------------------------
  // Lists threaded through the pool
  // ---------------------------------------------------------------------

  function Nexts(pool: seq<BP>): seq<int> {
    Links(pool, (n: BP) => n.next)
  }

  datatype Lists = Lists(active: seq<int>, spare: seq<int>)

  /** The two lists share no record and between them hold every record but
      loose; a record is marked in use exactly when it is not on the free list. */
  ghost predicate Partition(pool: seq<BP>, lists: Lists, loose: int) {
    && |pool| == NR_BP
    && Distinct(lists.active) && Distinct(lists.spare)
    && |lists.active| + |lists.spare| + (if loose == NULL then 0 else 1) == NR_BP
    && (forall i :: 0 <= i < NR_BP ==>
          && pool[i].no == i
          && (pool[i].inUse <==> i !in lists.spare)
          && (i in lists.active <==> i !in lists.spare && i != loose))
    && (forall i :: i in lists.active || i in lists.spare ==> 0 <= i < NR_BP && i != loose)
  }

  lemma Popped(pool: seq<BP>, l: Lists)
    requires Partition(pool, l, NULL) && l.spare != [] && 0 <= l.spare[0] < NR_BP
    ensures var p := l.spare[0];
            Partition(pool[p := pool[p].(inUse := true)], Lists(l.active, l.spare[1..]), p) && p !in l.active
  {
    var p, rest := l.spare[0], l.spare[1..];
    assert l.spare == [p] + rest && p in l.spare;
    assert Distinct(rest) && p !in rest;
    assert forall i :: i in rest ==> i in l.spare;
  }

  lemma Freed(pool: seq<BP>, l: Lists, p: int, first: int)
    requires Partition(pool, l, p) && 0 <= p < NR_BP && Linked(Nexts(pool), first, l.spare)
    ensures var pool' := pool[p := pool[p].(inUse := false, next := first)];
            Partition(pool', Lists(l.active, [p] + l.spare), NULL) && Linked(Nexts(pool'), p, [p] + l.spare)
  {
    var pool' := pool[p := pool[p].(inUse := false, next := first)];
    Pushed(Nexts(pool), Nexts(pool'), first, l.spare, p);
    assert Distinct([p] + l.spare);
  }

  // ---------------------------------------------------------------------
  // What masking and resuming do to memory
  // ---------------------------------------------------------------------

  predicate Breaks(b: BP, c: nat) {
    b.target == Code(c)
  }

  function Put(m: seq<Byte>, c: nat, v: Byte): (r: seq<Byte>)
    ensures |r| == |m|
  {
    if c < |m| then m[c := v] else m
  }

  /** How many of the records break at c. */
  function Writers(entries: seq<BP>, c: nat): nat {
    if entries == [] then 0 else (if Breaks(entries[0], c) then 1 else 0) + Writers(entries[1..], c)
  }

  ghost predicate Inside(entries: seq<BP>, size: nat) {
    forall k :: 0 <= k < |entries| && entries[k].target.Code? ==> entries[k].target.addr < size
  }

  /** Memory with the original bytes written back in list order (mask_breakpoints). */
  function Undone(entries: seq<BP>, m: seq<Byte>): (r: seq<Byte>)
    ensures |r| == |m|
  {
    if entries == [] then m
    else Undone(entries[1..], if entries[0].target.Code? then Put(m, entries[0].target.addr, entries[0].oriByte) else m)
  }

  datatype Patched = Patched(entries: seq<BP>, memory: seq<Byte>)

  /** One record of resume_breakpoints. */
  function Repatch(b: BP, m: seq<Byte>): BP
    requires b.target.Code? ==> b.target.addr < |m|
  {
    if b.target.Code? then b.(oriByte := m[b.target.addr], enable := true) else b
  }

  function Trap(b: BP, m: seq<Byte>): (r: seq<Byte>)
    ensures |r| == |m|
  {
    if b.target.Code? then Put(m, b.target.addr, INT3) else m
  }

  /** Records and memory after resume_breakpoints. */
  function Resumed(entries: seq<BP>, m: seq<Byte>): (r: Patched)
    requires Inside(entries, |m|)
    ensures |r.memory| == |m| && |r.entries| == |entries|
  {
    if entries == [] then Patched([], m)
    else
      var rest := Resumed(entries[1..], Trap(entries[0], m));
      Patched([Repatch(entries[0], m)] + rest.entries, rest.memory)
  }

  /** The state set_breakpoint leaves: undoing the newest record, then the next,
      always takes an INT3 byte away. */
  ghost predicate Stacked(entries: seq<BP>, m: seq<Byte>) {
    entries != [] ==>
      var b := entries[0];
      if b.target.Code? then
        && b.enable && b.target.addr < |m| && m[b.target.addr] == INT3
        && Stacked(entries[1..], m[b.target.addr := b.oriByte])
      else
        Stacked(entries[1..], m)
  }

  lemma {:induction false} UndoneAt(entries: seq<BP>, m: seq<Byte>, m': seq<Byte>, c: nat)
    requires |m| == |m'| && c < |m|
    requires Writers(entries, c) == 0 ==> m[c] == m'[c]
    ensures Undone(entries, m)[c] == Undone(entries, m')[c]
    ensures Writers(entries, c) == 0 ==> Undone(entries, m)[c] == m[c]
  {
    if entries != [] {
      var b := entries[0];
      var n := if b.target.Code? then Put(m, b.target.addr, b.oriByte) else m;
      var n' := if b.target.Code? then Put(m', b.target.addr, b.oriByte) else m';
      UndoneAt(entries[1..], n, n', c);
    }
  }

  /** Resuming leaves every target alone and traps exactly the targets. */
  lemma {:induction false} ResumedAt(entries: seq<BP>, m: seq<Byte>, c: nat)
    requires Inside(entries, |m|) && c < |m|
    ensures Writers(Resumed(entries, m).entries, c) == Writers(entries, c)
    ensures Resumed(entries, m).memory[c] == if Writers(entries, c) > 0 then INT3 else m[c]
  {
    if entries != [] {
      var rest := Resumed(entries[1..], Trap(entries[0], m));
      ResumedAt(entries[1..], Trap(entries[0], m), c);
      assert Resumed(entries, m).entries[1..] == rest.entries;
    }
  }

  /** Masking after resuming gives back the byte at c unless two or more records
      break there: then the byte is lost and INT3 is left. */
  lemma {:induction false} UndoneAfterResume(entries: seq<BP>, m: seq<Byte>, c: nat)
    requires Inside(entries, |m|) && c < |m|
    ensures var r := Resumed(entries, m);
            Undone(r.entries, r.memory)[c] == if Writers(entries, c) >= 2 then INT3 else m[c]
  {
    if entries != [] {
      var b, m1 := entries[0], Trap(entries[0], m);
      var r, rest := Resumed(entries, m), Resumed(entries[1..], m1);
      assert r.entries[1..] == rest.entries;
      UndoneAfterResume(entries[1..], m1, c);
      ResumedAt(entries[1..], m1, c);
      if b.target.Code? {
        var n := Put(r.memory, b.target.addr, m[b.target.addr]);
        if Writers(rest.entries, c) > 0 || b.target.addr != c {
          UndoneAt(rest.entries, n, r.memory, c);
        } else {
          UndoneAt(rest.entries, n, n, c);
        }
      }
    }
  }

  /** Every address with two or more active breakpoints holds an INT3 byte. */
  ghost predicate NoClash(entries: seq<BP>, m: seq<Byte>) {
    forall c :: 0 <= c < |m| && Writers(entries, c) >= 2 ==> m[c] == INT3
  }

  /** What resuming hides, masking shows again, exactly when no byte other than
      INT3 is broken at twice. */
  lemma ResumeExactly(entries: seq<BP>, m: seq<Byte>)
    requires Inside(entries, |m|)
    ensures var r := Resumed(entries, m);
            Undone(r.entries, r.memory) == m <==> NoClash(entries, m)
  {
    var r := Resumed(entries, m);
    forall c | 0 <= c < |m|
      ensures Undone(r.entries, r.memory)[c] == if Writers(entries, c) >= 2 then INT3 else m[c]
    {
      UndoneAfterResume(entries, m, c);
    }
    assert NoClash(entries, m) ==> forall c :: 0 <= c < |m| ==> Undone(r.entries, r.memory)[c] == m[c];
  }

  lemma {:induction false} StackedTraps(entries: seq<BP>, m: seq<Byte>, c: nat)
    requires Stacked(entries, m) && c < |m|
    ensures Inside(entries, |m|)
    ensures Writers(entries, c) > 0 ==> m[c] == INT3
  {
    if entries != [] {
      var b := entries[0];
      StackedTraps(entries[1..], if b.target.Code? then m[b.target.addr := b.oriByte] else m, c);
      assert forall k :: 1 <= k < |entries| ==> entries[k] == entries[1..][k - 1];
    }
  }

  /** From a state set_breakpoint built, masking then resuming patches the same
      memory again. */
  lemma MaskResumeMemory(entries: seq<BP>, m: seq<Byte>)
    requires Stacked(entries, m)
    ensures Inside(entries, |m|)
    ensures Resumed(entries, Undone(entries, m)).memory == m
  {
    if |m| > 0 {
      StackedTraps(entries, m, 0);
    } else if entries != [] {
      StackedInside(entries, m);
    }
    forall c | 0 <= c < |m| ensures Resumed(entries, Undone(entries, m)).memory[c] == m[c] {
      StackedTraps(entries, m, c);
      ResumedAt(entries, Undone(entries, m), c);
      UndoneAt(entries, m, m, c);
    }
  }

  lemma {:induction false} StackedInside(entries: seq<BP>, m: seq<Byte>)
    requires Stacked(entries, m)
    ensures Inside(entries, |m|)
  {
    if entries != [] {
      var b := entries[0];
      StackedInside(entries[1..], if b.target.Code? then m[b.target.addr := b.oriByte] else m);
      assert forall k :: 1 <= k < |entries| ==> entries[k] == entries[1..][k - 1];
    }
  }

  /** The saved byte of the newest record is INT3 when an older one breaks at the
      same address, and the original byte otherwise. */
  lemma {:induction false} KeepsRecords(entries: seq<BP>, m: seq<Byte>, m0: seq<Byte>)
    requires Stacked(entries, m) && Inside(entries, |m|) && |m0| == |m|
    requires forall c :: 0 <= c < |m| && Writers(entries, c) > 0 ==> m0[c] == Undone(entries, m)[c]
    requires forall c :: 0 <= c < |m| && Writers(entries, c) >= 2 ==> m0[c] == INT3
    ensures Resumed(entries, m0).entries == entries
  {
    if entries != [] {
      var b, rest := entries[0], entries[1..];
      assert forall k :: 0 <= k < |rest| ==> rest[k] == entries[k + 1];
      if b.target.Code? {
        var a := b.target.addr;
        var m1 := m[a := b.oriByte];
        assert Writers(entries, a) > 0;
        StackedTraps(rest, m1, a);
        UndoneAt(rest, m1, m1, a);
        forall c | 0 <= c < |m| && Writers(rest, c) > 0 ensures Trap(b, m0)[c] == Undone(rest, m1)[c] {
          assert Writers(entries, c) > 0;
          assert c == a ==> Writers(entries, c) >= 2;
        }
        forall c | 0 <= c < |m| && Writers(rest, c) >= 2 ensures Trap(b, m0)[c] == INT3 {
          assert Writers(entries, c) >= 2;
        }
        KeepsRecords(rest, m1, Trap(b, m0));
      } else {
        assert forall c :: 0 <= c < |m| ==> Writers(entries, c) == Writers(rest, c);
        KeepsRecords(rest, m, m0);
      }
      assert entries == [b] + rest;
    }
  }

  /** From a state set_breakpoint built, masking then resuming restores every
      record exactly when no byte other than INT3 is broken at twice. */
  lemma MaskResumeExactly(entries: seq<BP>, m: seq<Byte>)
    requires Stacked(entries, m)
    ensures Inside(entries, |m|)
    ensures Resumed(entries, Undone(entries, m)).entries == entries <==> NoClash(entries, Undone(entries, m))
  {
    MaskResumeMemory(entries, m);
    var m0 := Undone(entries, m);
    ResumeExactly(entries, m0);
    if NoClash(entries, m0) {
      KeepsRecords(entries, m, m0);
    }
  }

  /** Memory after one guest instruction. */
  function Executed(m: seq<Byte>, stores: map<nat, Byte>): (r: seq<Byte>)
    ensures |r| == |m|
  {
    seq(|m|, c requires 0 <= c < |m| => if c in stores then stores[c] else m[c])
  }

  /** A byte at c is put at risk when a breakpoint other than the k-th breaks there,
      unless it is the only one and the instruction stores to c itself. */
  ghost predicate AtRisk(entries: seq<BP>, k: nat, stores: map<nat, Byte>, c: nat)
    requires k < |entries|
  {
    Writers(entries, c) > if c in stores || Breaks(entries[k], c) then 1 else 0
  }

  lemma {:induction false} WriterAt(entries: seq<BP>, k: nat, c: nat)
    requires k < |entries| && Breaks(entries[k], c)
    ensures Writers(entries, c) > 0
  {
    if k > 0 {
      WriterAt(entries[1..], k - 1, c);
    }
  }

  /** The newest record at an address holds the byte below its own patch. */
  lemma {:induction false} NewestSaved(entries: seq<BP>, m: seq<Byte>, k: nat)
    requires Stacked(entries, m) && Inside(entries, |m|) && k < |entries| && entries[k].target.Code?
    requires Writers(entries, entries[k].target.addr) == 1
    ensures entries[k].oriByte == Undone(entries, m)[entries[k].target.addr]
  {
    var b, rest, a := entries[0], entries[1..], entries[k].target.addr;
    var m1 := if b.target.Code? then m[b.target.addr := b.oriByte] else m;
    if k == 0 {
      UndoneAt(rest, m1, m1, a);
    } else {
      assert forall j :: 0 <= j < |rest| ==> rest[j] == entries[j + 1];
      WriterAt(rest, k - 1, a);
      NewestSaved(rest, m1, k - 1);
    }
  }

  /** exec writes back one byte when a breakpoint is hit and resumes all of them
      one instruction later, which may store anywhere. What the instruction should
      have left of the original code can still be recovered exactly when every
      byte at risk is INT3. */
  lemma HitExactly(entries: seq<BP>, m: seq<Byte>, k: nat, stores: map<nat, Byte>)
    requires Stacked(entries, m) && Inside(entries, |m|) && k < |entries| && entries[k].target.Code?
    ensures var m0 := Executed(Undone(entries, m), stores);
            var r := Resumed(entries, Executed(m[entries[k].target.addr := entries[k].oriByte], stores));
            Undone(r.entries, r.memory) == m0
            <==> forall c :: 0 <= c < |m| && AtRisk(entries, k, stores, c) ==> m0[c] == INT3
  {
    var m0, a := Executed(Undone(entries, m), stores), entries[k].target.addr;
    var m1 := Executed(m[a := entries[k].oriByte], stores);
    var r := Resumed(entries, m1);
    forall c | 0 <= c < |m|
      ensures Undone(r.entries, r.memory)[c] == if AtRisk(entries, k, stores, c) then INT3 else m0[c]
    {
      UndoneAfterResume(entries, m1, c);
      UndoneAt(entries, m, m, c);
      StackedTraps(entries, m, c);
      WriterAt(entries, k, a);
      if Writers(entries, a) == 1 {
        NewestSaved(entries, m, k);
      }
    }
  }

  /** The record at k is a watchpoint, an older breakpoint at its address remains,
      or the byte was INT3 anyway. */
  ghost predicate Dispensable(entries: seq<BP>, m: seq<Byte>, k: nat)
    requires k < |entries|
  {
    entries[k].target.Code? && entries[k].target.addr < |m| ==>
      || Writers(entries[k + 1..], entries[k].target.addr) > 0
      || Undone(entries, m)[entries[k].target.addr] == INT3
  }

  /** delete_breakpoint leaves the patch in memory. The original code can still be
      recovered exactly when the record is dispensable. */
  lemma {:induction false} DeleteExactly(entries: seq<BP>, m: seq<Byte>, k: nat)
    requires Stacked(entries, m) && k < |entries|
    ensures entries[k].target.Code? ==> entries[k].target.addr < |m|
    ensures Undone(Cut(entries, k), m) == Undone(entries, m) <==> Dispensable(entries, m, k)
  {
    var b, rest := entries[0], entries[1..];
    if k > 0 {
      assert Cut(entries, k)[0] == b && Cut(entries, k)[1..] == Cut(rest, k - 1);
      assert rest[k - 1] == entries[k] && rest[k..] == entries[k + 1..];
      DeleteExactly(rest, if b.target.Code? then m[b.target.addr := b.oriByte] else m, k - 1);
    } else {
      assert Cut(entries, 0) == rest;
      if b.target.Code? {
        PatchLeft(rest, m, b.target.addr, b.oriByte);
      }
    }
  }

  /** An INT3 byte left at a stays exactly if nothing older breaks there. */
  lemma PatchLeft(rest: seq<BP>, m: seq<Byte>, a: nat, v: Byte)
    requires a < |m| && m[a] == INT3
    ensures Undone(rest, m) == Undone(rest, m[a := v])
            <==> Writers(rest, a) > 0 || Undone(rest, m[a := v])[a] == INT3
  {
    var m1 := m[a := v];
    forall c | 0 <= c < |m|
      ensures Undone(rest, m)[c] == if c == a && Writers(rest, a) == 0 then INT3 else Undone(rest, m1)[c]
    {
      if c == a && Writers(rest, a) == 0 {
        UndoneAt(rest, m, m, c);
      } else {
        UndoneAt(rest, m, m1, c);
      }
    }
  }

  /** More INT3 bytes do not disturb a stack. */
  lemma {:induction false} StackedAbove(entries: seq<BP>, m1: seq<Byte>, m: seq<Byte>)
    requires Stacked(entries, m1) && |m| == |m1|
    requires forall c :: 0 <= c < |m| ==> m[c] == m1[c] || m[c] == INT3
    ensures Stacked(entries, m)
  {
    if entries != [] {
      var b := entries[0];
      if b.target.Code? {
        StackedAbove(entries[1..], m1[b.target.addr := b.oriByte], m[b.target.addr := b.oriByte]);
      } else {
        StackedAbove(entries[1..], m1, m);
      }
    }
  }

  /** Deleting a record, which leaves its patch, keeps the others stacked. */
  lemma {:induction false} StackedCut(entries: seq<BP>, m: seq<Byte>, k: nat)
    requires Stacked(entries, m) && k < |entries|
    ensures Stacked(Cut(entries, k), m)
  {
    var b, rest := entries[0], entries[1..];
    var m1 := if b.target.Code? then m[b.target.addr := b.oriByte] else m;
    if k == 0 {
      assert Cut(entries, 0) == rest;
      StackedAbove(rest, m1, m);
    } else {
      StackedCut(rest, m1, k - 1);
      assert Cut(entries, k) == [b] + Cut(rest, k - 1);
    }
  }

  /** A stack does not depend on bytes at which none of it breaks. */
  lemma {:induction false} StackedElsewhere(entries: seq<BP>, m: seq<Byte>, a: nat, v: Byte)
    requires Stacked(entries, m) && a < |m| && Writers(entries, a) == 0
    ensures Stacked(entries, m[a := v])
  {
    if entries != [] {
      var b := entries[0];
      if b.target.Code? {
        StackedElsewhere(entries[1..], m[b.target.addr := b.oriByte], a, v);
        assert m[a := v][b.target.addr := b.oriByte] == m[b.target.addr := b.oriByte][a := v];
      } else {
        StackedElsewhere(entries[1..], m, a, v);
      }
    }
  }

  /** Resuming stacks the records exactly when no byte other than INT3 is broken
      at twice. */
  lemma {:induction false} StackedAfterResume(entries: seq<BP>, m: seq<Byte>)
    requires Inside(entries, |m|)
    ensures Stacked(Resumed(entries, m).entries, Resumed(entries, m).memory) <==> NoClash(entries, m)
  {
    if entries != [] {
      var b, rest, m1 := entries[0], entries[1..], Trap(entries[0], m);
      var r, t := Resumed(entries, m), Resumed(rest, m1);
      assert r.entries[1..] == t.entries && r.entries[0] == Repatch(b, m);
      StackedAfterResume(rest, m1);
      if b.target.Code? {
        var a := b.target.addr;
        ResumedAt(entries, m, a);
        ResumedAt(rest, m1, a);
        FirstClash(b, rest, m);
        FirstStacked(t.entries, r.memory, a, m[a]);
      } else {
        assert forall c :: 0 <= c < |m| ==> Writers(entries, c) == Writers(rest, c);
      }
    }
  }

  lemma FirstClash(b: BP, rest: seq<BP>, m: seq<Byte>)
    requires b.target.Code? && b.target.addr < |m|
    ensures var a := b.target.addr;
            NoClash([b] + rest, m) <==> NoClash(rest, m[a := INT3]) && (Writers(rest, a) > 0 ==> m[a] == INT3)
  {
    var entries, a, m1 := [b] + rest, b.target.addr, m[b.target.addr := INT3];
    assert entries[1..] == rest;
    assert forall c :: 0 <= c < |m| ==> Writers(entries, c) == Writers(rest, c) + if c == a then 1 else 0;
  }

  /** Writing a saved byte back over the INT3 at a. */
  lemma FirstStacked(entries: seq<BP>, m: seq<Byte>, a: nat, v: Byte)
    requires a < |m| && m[a] == INT3
    ensures Stacked(entries, m[a := v]) <==> Stacked(entries, m) && (Writers(entries, a) > 0 ==> v == INT3)
  {
    if Stacked(entries, m[a := v]) {
      StackedTraps(entries, m[a := v], a);
      StackedAbove(entries, m[a := v], m);
    }
    if Stacked(entries, m) && (Writers(entries, a) > 0 ==> v == INT3) {
      if v == INT3 {
        assert m[a := v] == m;
      } else {
        StackedElsewhere(entries, m, a, v);
      }
    }
  }

  /** Deleting every record at once leaves all patches: the code survives exactly
      when every byte broken at was INT3. */
  lemma DeleteAllExactly(entries: seq<BP>, m: seq<Byte>)
    requires Stacked(entries, m)
    ensures m == Undone(entries, m)
            <==> forall c :: 0 <= c < |m| && Writers(entries, c) > 0 ==> Undone(entries, m)[c] == INT3
  {
    forall c | 0 <= c < |m|
      ensures m[c] == if Writers(entries, c) > 0 then INT3 else Undone(entries, m)[c]
    {
      StackedTraps(entries, m, c);
      UndoneAt(entries, m, m, c);
    }
  }

  /** One byte of ordinary code broken at twice: masking and resuming swaps the two
      saved bytes. */
  lemma ClashExample()
    ensures var older := BP(0, true, true, 0x55, Code(0), NULL);
            var newer := BP(1, true, true, INT3, Code(0), NULL);
            var entries, m := [newer, older], [INT3];
            && Stacked(entries, m) && Undone(entries, m) == [0x55]
            && Resumed(entries, Undone(entries, m)).entries == [newer.(oriByte := 0x55), older.(oriByte := INT3)]
  {
    var older := BP(0, true, true, 0x55, Code(0), NULL);
    var newer := BP(1, true, true, INT3, Code(0), NULL);
    var entries, m := [newer, older], [INT3];
    assert entries[1..] == [older] && [older][1..] == [];
    assert m[0 := INT3] == m && Undone(entries, m) == Undone([older], m) == Undone([], m[0 := 0x55]);
    assert Stacked([older], m) && Stacked(entries, m);
    assert Inside([older], 1) && Inside(entries, 1);
    assert Resumed([older], m) == Patched([Repatch(older, m)], m) by {
      assert Resumed([], m) == Patched([], m);
    }
    assert Trap(newer, [0x55]) == m;
  }

  /** Deleting the only breakpoint leaves INT3 where the code was. */
  lemma DeleteExample()
    ensures var b := BP(0, true, true, 0x55, Code(0), NULL);
            Stacked([b], [INT3]) && Undone([b], [INT3]) == [0x55] && Undone(Cut([b], 0), [INT3]) == [INT3]
  {
    var b, m: seq<Byte> := BP(0, true, true, 0x55, Code(0), NULL), [INT3];
    assert [b][1..] == [] && Cut([b], 0) == [];
    assert Undone([b], m) == Undone([], m[0 := 0x55]);
  }

  /** Two breakpoints on ordinary code: hitting one loses the byte under the other. */
  lemma SecondBreakpointExample()
    ensures var older := BP(0, true, true, 0x55, Code(0), NULL);
            var newer := BP(1, true, true, 0x89, Code(1), 0);
            var entries, m := [newer, older], [INT3, INT3];
            && Stacked(entries, m) && Undone(entries, m) == [0x55, 0x89]
            && var r := Resumed(entries, m[1 := newer.oriByte]);
               Undone(r.entries, r.memory) == [INT3, 0x89]
  {
    var older := BP(0, true, true, 0x55, Code(0), NULL);
    var newer := BP(1, true, true, 0x89, Code(1), 0);
    var entries, m := [newer, older], [INT3, INT3];
    var m1 := m[1 := newer.oriByte];
    assert entries[1..] == [older] && [older][1..] == [];
    assert Undone(entries, m) == Undone([older], m1) == Undone([], m1[0 := 0x55]);
    assert Stacked([older], m1) && Stacked(entries, m);
    assert Inside([older], 2) && Inside(entries, 2);
    var m2 := m1[1 := INT3];
    var r := Resumed(entries, m1);
    assert Resumed([older], m2) == Patched([Repatch(older, m2)], m2[0 := INT3]) by {
      assert Resumed([], m2[0 := INT3]) == Patched([], m2[0 := INT3]);
    }
    assert r.entries == [Repatch(newer, m1), Repatch(older, m2)] && r.memory == [INT3, INT3];
    assert r.entries[1..] == [Repatch(older, m2)] && [Repatch(older, m2)][1..] == [];
    assert Undone(r.entries, r.memory) == Undone([Repatch(older, m2)], m1) == Undone([], m1[0 := INT3]);
  }

  // ---------------------------------------------------------------------
  // The commands
  // ---------------------------------------------------------------------

  /** The records of a list, their links left out. */
  ghost function Entries(pool: seq<BP>, ids: seq<int>): (r: seq<BP>)
    requires forall k :: 0 <= k < |ids| ==> 0 <= ids[k] < |pool|
    ensures |r| == |ids|
  {
    seq(|ids|, k requires 0 <= k < |ids| => pool[ids[k]].(next := NULL))
  }

  datatype Outcome = Aborted | Rejected | Number(no: int)

  datatype Evaluated = Failed | Value(v: nat)

  datatype Command = SetBreak(addr: nat) | SetWatch(text: string, result: Evaluated) | Delete(no: int) | DeleteAll

  predicate Sets(c: Command) {
    c.SetBreak? || (c.SetWatch? && c.result.Value?)
  }

  /** The two lists after a command; a set with an empty free list changes nothing. */
  function Next(l: Lists, c: Command): Lists {
    if Sets(c) then
      if l.spare == [] then l else Lists([l.spare[0]] + l.active, l.spare[1..])
    else if c.Delete? && Find(l.active, c.no) < |l.active| then
      Lists(Cut(l.active, Find(l.active, c.no)), [c.no] + l.spare)
    else if c.DeleteAll? then
      Lists([], l.active + l.spare)
    else
      l
  }

  function After(l: Lists, commands: seq<Command>): Lists {
    if commands == [] then l
    else Next(After(l, commands[..|commands| - 1]), commands[|commands| - 1])
  }

  /** A watchpoint has no use for a saved byte. */
  function Plain(b: BP): BP {
    if b.target.Watch? then b.(oriByte := 0) else b
  }

  /** What is broken at or watched, newest first. */
  function Live(entries: seq<BP>): (r: seq<BP>)
    ensures |r| == |entries|
  {
    seq(|entries|, k requires 0 <= k < |entries| => Plain(entries[k]))
  }

  datatype Session = Session(lists: Lists, live: seq<BP>, memory: seq<Byte>)

  /** The live records after a command; a command refers to a record by its number. */
  function NextLive(s: Session, c: Command): seq<BP> {
    match c
    case SetBreak(addr) =>
      if s.lists.spare == [] then s.live
      else
        [BP(s.lists.spare[0], true, true, if addr < |s.memory| then s.memory[addr] else 0, Code(addr), NULL)] + s.live
    case SetWatch(text, result) =>
      if result.Failed? || s.lists.spare == [] then s.live
      else [BP(s.lists.spare[0], true, true, 0, Watch(text, result.v), NULL)] + s.live
    case Delete(no) =>
      if Find(s.lists.active, no) < |s.live| then Cut(s.live, Find(s.lists.active, no)) else s.live
    case DeleteAll => []
  }

  /** Memory after one command. */
  function PatchedOnce(l: Lists, m: seq<Byte>, c: Command): seq<Byte> {
    if c.SetBreak? && l.spare != [] then Put(m, c.addr, INT3) else m
  }

  /** One command, on the lists, the live records and memory. */
  function Advance(s: Session, c: Command): Session {
    Session(Next(s.lists, c), NextLive(s, c), PatchedOnce(s.lists, s.memory, c))
  }

  function AdvanceAll(s: Session, commands: seq<Command>): Session {
    if commands == [] then s
    else Advance(AdvanceAll(s, commands[..|commands| - 1]), commands[|commands| - 1])
  }

  /** What a command reports. */
  function Reported(l: Lists, c: Command): Outcome {
    match c
    case SetBreak(_) => if l.spare == [] then Aborted else Number(l.spare[0])
    case SetWatch(_, result) =>
      if result.Failed? then Rejected else if l.spare == [] then Aborted else Number(l.spare[0])
    case Delete(no) => if no in l.active then Number(no) else Rejected
    case DeleteAll => Number(0)
  }

  lemma AdvanceNext(s: Session, commands: seq<Command>, n: nat)
    requires n < |commands|
    ensures AdvanceAll(s, commands[..n + 1]) == Advance(AdvanceAll(s, commands[..n]), commands[n])
  {
    assert commands[..n + 1][..n] == commands[..n];
  }

  predicate ReportedAll(l: Lists, commands: seq<Command>, outs: seq<Outcome>)
    requires |outs| == |commands|
  {
    forall k {:trigger outs[k]} :: 0 <= k < |outs| ==> outs[k] == Reported(After(l, commands[..k]), commands[k])
  }

  lemma ReportedNext(l: Lists, commands: seq<Command>, outs: seq<Outcome>, c: Command, out: Outcome)
    requires |outs| == |commands| && ReportedAll(l, commands, outs)
    requires out == Reported(After(l, commands), c)
    ensures ReportedAll(l, commands + [c], outs + [out])
  {
    var longer := commands + [c];
    forall k | 0 <= k <= |outs| ensures (outs + [out])[k] == Reported(After(l, longer[..k]), longer[k]) {
      assert longer[..k] == if k < |outs| then commands[..k] else commands;
    }
  }

  lemma LiveCut(entries: seq<BP>, k: nat)
    requires k < |entries|
    ensures Live(Cut(entries, k)) == Cut(Live(entries), k)
  {
  }

  lemma LivePushed(b: BP, entries: seq<BP>)
    ensures Live([b] + entries) == [Plain(b)] + Live(entries)
  {
  }

  /** A session after a successful set, from its new record. */
  lemma SetAdvances(s: Session, s': Session, c: Command, b: BP, entries: seq<BP>)
    requires Sets(c) && s.lists.spare != [] && s.live == Live(entries) && s'.live == Live([b] + entries)
    requires s'.lists == Next(s.lists, c) && s'.memory == PatchedOnce(s.lists, s.memory, c)
    requires Plain(b) == NextLive(s, c)[0]
    ensures s' == Advance(s, c)
  {
    LivePushed(b, entries);
  }

  /** Deleting what was set last brings everything back but the patch. */
  lemma SetThenDelete(s: Session, c: Command)
    requires Sets(c) && s.lists.spare != []
    ensures var t := Advance(Advance(s, c), Delete(s.lists.spare[0]));
            t == s.(memory := if c.SetBreak? then Put(s.memory, c.addr, INT3) else s.memory)
  {
    var p, l := s.lists.spare[0], s.lists;
    assert Find([p] + l.active, p) == 0 && Cut([p] + l.active, 0) == l.active;
    assert [p] + l.spare[1..] == l.spare;
    assert Cut(NextLive(s, c), 0) == s.live;
  }

  /** A breakpoint has been set at a. */
  predicate SetAt(commands: seq<Command>, a: nat) {
    exists k :: 0 <= k < |commands| && commands[k] == SetBreak(a)
  }

  lemma SetAtNext(commands: seq<Command>, n: nat, a: nat)
    requires n < |commands|
    ensures SetAt(commands[..n + 1], a) <==> SetAt(commands[..n], a) || commands[n] == SetBreak(a)
  {
    var longer := commands[..n + 1];
    assert longer == commands[..n] + [commands[n]];
    if commands[n] == SetBreak(a) {
      assert longer[n] == SetBreak(a);
    }
    if SetAt(commands[..n], a) {
      var k :| 0 <= k < n && commands[..n][k] == SetBreak(a);
      assert longer[k] == SetBreak(a);
    }
  }

  /** Commands patch memory where they set breakpoints, and nowhere else. */
  ghost predicate PatchedBy(before: seq<Byte>, after: seq<Byte>, commands: seq<Command>) {
    && |after| == |before|
    && forall a :: 0 <= a < |after| ==> after[a] == if SetAt(commands, a) then INT3 else before[a]
  }

  lemma PatchedNext(l: Lists, m0: seq<Byte>, m: seq<Byte>, m': seq<Byte>, commands: seq<Command>, n: nat)
    requires n < |commands| && PatchedBy(m0, m, commands[..n])
    requires m' == PatchedOnce(l, m, commands[n]) && !Reported(l, commands[n]).Aborted?
    ensures PatchedBy(m0, m', commands[..n + 1])
  {
    forall a | 0 <= a < |m'| ensures m'[a] == if SetAt(commands[..n + 1], a) then INT3 else m0[a] {
      SetAtNext(commands, n, a);
    }
  }

  /** Where a run from s0 is after the commands. */
  ghost predicate RunSoFar(s0: Session, s: Session, commands: seq<Command>, outs: seq<Outcome>) {
    && s == AdvanceAll(s0, commands) && s.lists == After(s0.lists, commands)
    && |outs| == |commands| && ReportedAll(s0.lists, commands, outs)
    && PatchedBy(s0.memory, s.memory, commands)
  }

  lemma RunOn(s0: Session, s: Session, commands: seq<Command>, n: nat, outs: seq<Outcome>, out: Outcome)
    requires n < |commands| && RunSoFar(s0, s, commands[..n], outs)
    requires out == Reported(s.lists, commands[n]) && !out.Aborted?
    ensures RunSoFar(s0, Advance(s, commands[n]), commands[..n + 1], outs + [out])
  {
    AdvanceNext(s0, commands, n);
    AfterNext(s0.lists, commands, n);
    PatchedNext(s.lists, s0.memory, s.memory, Advance(s, commands[n]).memory, commands, n);
    assert commands[..n + 1] == commands[..n] + [commands[n]];
    ReportedNext(s0.lists, commands[..n], outs, commands[n], out);
  }

  lemma AfterNext(l: Lists, commands: seq<Command>, n: nat)
    requires n < |commands|
    ensures After(l, commands[..n + 1]) == Next(After(l, commands[..n]), commands[n])
  {
    assert commands[..n + 1][..n] == commands[..n];
  }

  predicate OnlySets(commands: seq<Command>) {
    forall k :: 0 <= k < |commands| ==> commands[k].SetBreak? || commands[k].SetWatch?
  }

  lemma OnlySetsNext(commands: seq<Command>, n: nat)
    requires n < |commands|
    ensures OnlySets(commands[..n + 1]) <==>
              OnlySets(commands[..n]) && (commands[n].SetBreak? || commands[n].SetWatch?)
  {
    assert commands[..n + 1] == commands[..n] + [commands[n]];
  }

  lemma AllSpare(pool: seq<BP>, spare: seq<int>)
    requires |pool| == |spare| == NR_BP && forall i :: 0 <= i < NR_BP ==> spare[i] == i
    requires forall i :: 0 <= i < NR_BP ==>
               pool[i].no == i && !pool[i].inUse && pool[i].next == if i + 1 < NR_BP then i + 1 else NULL
    ensures Partition(pool, Lists([], spare), NULL) && Linked(Nexts(pool), 0, spare)
  {
    forall k | 0 <= k < NR_BP ensures k in spare && Link(Nexts(pool), spare, k) {
      assert spare[k] == k;
    }
  }

  lemma EntriesPushed(pool: seq<BP>, pool': seq<BP>, ids: seq<int>, p: int)
    requires forall k :: 0 <= k < |ids| ==> 0 <= ids[k] < |pool|
    requires 0 <= p < |pool| == |pool'| && p !in ids
    requires forall i :: 0 <= i < |pool| && i != p ==> pool'[i] == pool[i]
    ensures Entries(pool', [p] + ids) == [pool'[p].(next := NULL)] + Entries(pool, ids)
  {
    forall k | 0 <= k < |ids| ensures pool'[ids[k]] == pool[ids[k]] {
      assert ids[k] in ids;
    }
  }

  /** A pushed record whose own patch is on top of the others. */
  lemma PushedPatch(b: BP, entries: seq<BP>, m: seq<Byte>)
    requires Inside(entries, |m|) && b.target.Code? && b.target.addr < |m| && b.oriByte == m[b.target.addr] && b.enable
    ensures Undone([b] + entries, m[b.target.addr := INT3]) == Undone(entries, m)
    ensures Stacked(entries, m) ==> Stacked([b] + entries, m[b.target.addr := INT3])
    ensures Inside([b] + entries, |m|)
  {
    assert ([b] + entries)[1..] == entries;
    assert m[b.target.addr := INT3][b.target.addr := b.oriByte] == m;
  }

  lemma PushedWatch(b: BP, entries: seq<BP>, m: seq<Byte>)
    requires Inside(entries, |m|) && b.target.Watch?
    ensures Undone([b] + entries, m) == Undone(entries, m)
    ensures Stacked(entries, m) ==> Stacked([b] + entries, m)
    ensures Inside([b] + entries, |m|)
  {
    assert ([b] + entries)[1..] == entries;
  }

  lemma CutPartition(pool: seq<BP>, pool': seq<BP>, l: Lists, k: nat)
    requires Partition(pool, l, NULL) && k < |l.active| && |pool'| == |pool|
    requires forall i :: 0 <= i < |pool| ==> pool'[i].no == pool[i].no && pool'[i].inUse == pool[i].inUse
    ensures Partition(pool', Lists(Cut(l.active, k), l.spare), l.active[k])
  {
    CutMembers(l.active, k);
    assert l.active[k] in l.active;
  }

  /** Removing a record takes it out of the entries and leaves the others alone. */
  lemma EntriesCut(pool: seq<BP>, pool': seq<BP>, ids: seq<int>, k: nat)
    requires forall j :: 0 <= j < |ids| ==> 0 <= ids[j] < |pool|
    requires k < |ids| && |pool'| == |pool| && Distinct(ids)
    requires forall i :: 0 <= i < |pool| && i != ids[k] ==> pool'[i].(next := NULL) == pool[i].(next := NULL)
    ensures forall j :: 0 <= j < |ids| - 1 ==> 0 <= Cut(ids, k)[j] < |pool'|
    ensures Entries(pool', Cut(ids, k)) == Cut(Entries(pool, ids), k)
  {
    var cut := Cut(ids, k);
    forall j | 0 <= j < |cut| ensures cut[j] == ids[if j < k then j else j + 1] != ids[k] {
    }
  }

  /** The first k records have been resumed. */
  ghost predicate Resumes(e0: seq<BP>, m0: seq<Byte>, e: seq<BP>, m: seq<Byte>, k: nat)
    requires Inside(e0, |m0|)
  {
    && k <= |e| && Inside(e, |m|)
    && Inside(e[k..], |m|)
    && Resumed(e0, m0).entries == e[..k] + Resumed(e[k..], m).entries
    && Resumed(e0, m0).memory == Resumed(e[k..], m).memory
  }

  lemma ResumesNext(e0: seq<BP>, m0: seq<Byte>, e: seq<BP>, m: seq<Byte>, k: nat)
    requires Inside(e0, |m0|) && Resumes(e0, m0, e, m, k) && k < |e|
    ensures e[k].target.Code? ==> e[k].target.addr < |m|
    ensures Resumes(e0, m0, e[k := Repatch(e[k], m)], Trap(e[k], m), k + 1)
  {
    var e' := e[k := Repatch(e[k], m)];
    assert e[k..][0] == e[k] && e[k..][1..] == e[k + 1..] == e'[k + 1..];
    assert e[..k] + [e'[k]] == e'[..k + 1];
    assert forall j :: 0 <= j < |e'| ==> e'[j].target == e[j].target;
  }

  /** Rewriting anything in a record but its number, use and link. */
  lemma Rewritten(pool: seq<BP>, pool': seq<BP>, head: int, free: int, l: Lists, k: nat)
    requires Partition(pool, l, NULL) && Linked(Nexts(pool), head, l.active) && Linked(Nexts(pool), free, l.spare)
    requires k < |l.active| && |pool'| == |pool| && pool' == pool[l.active[k] := pool'[l.active[k]]]
    requires var b, b' := pool[l.active[k]], pool'[l.active[k]]; b' == b.(oriByte := b'.oriByte, enable := b'.enable)
    ensures Partition(pool', l, NULL) && Linked(Nexts(pool'), head, l.active) && Linked(Nexts(pool'), free, l.spare)
    ensures Entries(pool', l.active) == Entries(pool, l.active)[k := pool'[l.active[k]].(next := NULL)]
  {
    forall j | 0 <= j < |l.active| ensures Link(Nexts(pool'), l.active, j) {
      assert Link(Nexts(pool), l.active, j);
    }
    forall j | 0 <= j < |l.spare| ensures Link(Nexts(pool'), l.spare, j) {
      assert Link(Nexts(pool), l.spare, j);
    }
    assert forall j :: 0 <= j < |l.active| && j != k ==> l.active[j] != l.active[k];
  }

  lemma TakenOut(pool: seq<BP>, cut: seq<BP>, free: int, l: Lists, k: nat)
    requires Partition(pool, l, NULL) && k < |l.active|
    requires Linked(Nexts(pool), At(l.active, 0), l.active) && Linked(Nexts(pool), free, l.spare)
    requires |cut| == |pool| && (k == 0 ==> cut == pool)
    requires k > 0 ==> cut == pool[l.active[k - 1] := pool[l.active[k - 1]].(next := pool[l.active[k]].next)]
    ensures var rest := Cut(l.active, k);
            && Partition(cut, Lists(rest, l.spare), l.active[k]) && l.active[k] !in rest
            && Linked(Nexts(cut), if k == 0 then pool[l.active[0]].next else l.active[0], rest)
            && Linked(Nexts(cut), free, l.spare)
  {
    assert k > 0 ==> Nexts(cut) == Nexts(pool)[l.active[k - 1] := Nexts(pool)[l.active[k]]];
    CutLinked(Nexts(pool), Nexts(cut), At(l.active, 0), l.active, k);
    CutPartition(pool, cut, l, k);
    CutMembers(l.active, k);
    if k > 0 {
      assert l.active[k - 1] in l.active;
      Unlinked(Nexts(pool), Nexts(cut), free, l.spare, l.active[k - 1]);
    }
  }

  lemma CutInside(entries: seq<BP>, k: nat, size: nat)
    requires Inside(entries, size) && k < |entries|
    ensures Inside(Cut(entries, k), size)
  {
    var cut := Cut(entries, k);
    assert forall j :: 0 <= j < |cut| ==> cut[j] == entries[if j < k then j else j + 1];
  }

  lemma SplitHead(pool: seq<BP>, p: int, pre: seq<int>, ids: seq<int>)
    requires Linked(Nexts(pool), p, ids) && p != NULL
    ensures 0 <= p < |pool| && |ids| > 0 && ids == [p] + ids[1..] && pre + ids == (pre + [p]) + ids[1..]
    ensures Linked(Nexts(pool), pool[p].next, ids[1..])
    ensures pool[p].next == NULL ==> ids[1..] == []
  {
    Tail(Nexts(pool), p, ids);
  }

  lemma NothingBefore(ids: seq<int>)
    ensures ids == [] + ids
  {
  }

  lemma Regrouped(p: int, rest: seq<int>, ids: seq<int>, spare: seq<int>)
    requires ids == [p] + rest
    ensures [p] + (rest + spare) == ids + spare
  {
  }

  class Monitor {
    const bpList: array<BP>
    const memory: array<Byte>
    var head: int
    var free: int
    ghost var lists: Lists

    ghost predicate Owns(loose: int)
      reads this, bpList
    {
      && Partition(bpList[..], lists, loose)
      && Linked(Nexts(bpList[..]), head, lists.active)
      && Linked(Nexts(bpList[..]), free, lists.spare)
    }

    ghost predicate Valid()
      reads this, bpList, memory
    {
      Owns(NULL) && Inside(Active(), memory.Length)
    }

    /** The active records, newest first. */
    ghost function Active(): seq<BP>
      requires Owns(NULL)
      reads this, bpList
    {
      Entries(bpList[..], lists.active)
    }

    ghost function Current(): Session
      requires Owns(NULL)
      reads this, bpList, memory
    {
      Session(lists, Live(Active()), memory[..])
    }

    /** The guest's code with every patch taken out. */
    ghost function Original(): seq<Byte>
      requires Owns(NULL)
      reads this, bpList, memory
    {
      Undone(Active(), memory[..])
    }

    constructor (guest: array<Byte>)
      ensures Valid() && memory == guest && fresh(bpList)
      ensures lists == Lists([], seq(NR_BP, i => i))
    {
      bpList := new BP[NR_BP](i => BP(0, false, false, 0, Code(0), NULL));
      memory := guest;
      head, free := NULL, NULL;
      lists := Lists([], []);
      new;
      InitBpList();
    }

    method InitBpList()
      requires bpList.Length == NR_BP
      modifies this, bpList
      ensures Valid()
      ensures lists == Lists([], seq(NR_BP, i => i))
    {
      for i := 0 to NR_BP
        invariant forall j :: 0 <= j < i ==> bpList[j].no == j && !bpList[j].inUse && bpList[j].next == j + 1
      {
        bpList[i] := bpList[i].(no := i, inUse := false, next := i + 1);
      }
      bpList[NR_BP - 1] := bpList[NR_BP - 1].(next := NULL);
      head := NULL;
      free := 0;
      lists := Lists([], seq(NR_BP, i => i));
      AllSpare(bpList[..], lists.spare);
    }

    /** The caller has checked that the free list is not empty. */
    method NewBP() returns (p: int)
      requires Owns(NULL) && free != NULL
      modifies this, bpList
      ensures lists == Lists(old(lists.active), old(lists.spare)[1..]) && p == old(lists.spare)[0] == old(free)
      ensures Owns(p) && 0 <= p < NR_BP && head == old(head)
      ensures bpList[..] == old(bpList[..])[p := old(bpList[p]).(inUse := true)]
    {
      p := free;
      free := bpList[free].next;
      assert p in lists.spare;
      assert !bpList[p].inUse;
      ghost var before := bpList[..];
      bpList[p] := bpList[p].(inUse := true);
      Tail(Nexts(before), p, lists.spare);
      Popped(before, lists);
      lists := Lists(lists.active, lists.spare[1..]);
      Unlinked(Nexts(before), Nexts(bpList[..]), head, lists.active, p);
      Unlinked(Nexts(before), Nexts(bpList[..]), free, lists.spare, p);
    }

    method SetBreakpoint(addr: nat) returns (out: Outcome)
      requires Valid() && addr < memory.Length
      modifies this, bpList, memory
      ensures Valid()
      ensures lists == Next(old(lists), SetBreak(addr)) && out == Reported(old(lists), SetBreak(addr))
      ensures !out.Number? ==> Active() == old(Active())
      ensures out == if |old(lists.active)| == NR_BP then Aborted else Number(old(lists.spare)[0])
      ensures out.Number? ==> Active() == [BP(out.no, true, true, old(memory[addr]), Code(addr), NULL)] + old(Active())
      ensures memory[..] == old(if |lists.active| == NR_BP then memory[..] else memory[..][addr := INT3])
      ensures Original() == old(Original())
      ensures old(Stacked(Active(), memory[..])) ==> Stacked(Active(), memory[..])
    {
      if free == NULL {
        return Aborted;
      }
      var p := NewBP();
      ghost var taken, entries, m := bpList[..], old(Active()), memory[..];
      bpList[p] := bpList[p].(target := Code(addr));
      bpList[p] := bpList[p].(oriByte := memory[addr]);
      memory[addr] := INT3;
      bpList[p] := bpList[p].(enable := true);
      bpList[p] := bpList[p].(next := head);
      head := p;
      Activate(taken, p);
      EntriesPushed(old(bpList[..]), bpList[..], old(lists.active), p);
      PushedPatch(bpList[p].(next := NULL), entries, m);
      return Number(bpList[p].no);
    }

    /** The value of the expression is what expr found for it. */
    method SetWatchpoint(text: string, result: Evaluated) returns (out: Outcome)
      requires Valid()
      modifies this, bpList
      ensures Valid()
      ensures lists == Next(old(lists), SetWatch(text, result))
      ensures out == Reported(old(lists), SetWatch(text, result))
      ensures out == if result.Failed? then Rejected
                     else if |old(lists.active)| == NR_BP then Aborted else Number(old(lists.spare)[0])
      ensures !out.Number? ==> Active() == old(Active())
      ensures out.Number? ==> |Active()| > 0 && Active()[1..] == old(Active())
      ensures out.Number? ==> Plain(Active()[0]) == BP(out.no, true, true, 0, Watch(text, result.v), NULL)
      ensures Original() == old(Original())
      ensures old(Stacked(Active(), memory[..])) ==> Stacked(Active(), memory[..])
    {
      if result.Failed? {
        return Rejected;
      }
      if free == NULL {
        return Aborted;
      }
      var p := NewBP();
      ghost var taken, entries := bpList[..], old(Active());
      bpList[p] := bpList[p].(target := Watch(text, result.v));
      bpList[p] := bpList[p].(enable := true);
      bpList[p] := bpList[p].(next := head);
      head := p;
      Activate(taken, p);
      EntriesPushed(old(bpList[..]), bpList[..], old(lists.active), p);
      PushedWatch(bpList[p].(next := NULL), entries, memory[..]);
      return Number(bpList[p].no);
    }

    ghost method Activate(taken: seq<BP>, p: int)
      requires 0 <= p < NR_BP && Partition(taken, lists, p)
      requires |bpList[..]| == NR_BP && head == p
      requires forall i :: 0 <= i < NR_BP && i != p ==> bpList[i] == taken[i]
      requires bpList[p].no == p && bpList[p].inUse && Linked(Nexts(taken), bpList[p].next, lists.active)
      requires Linked(Nexts(taken), free, lists.spare)
      modifies `lists
      ensures Owns(NULL) && lists == Lists([p] + old(lists.active), old(lists.spare))
    {
      Pushed(Nexts(taken), Nexts(bpList[..]), bpList[p].next, lists.active, p);
      Unlinked(Nexts(taken), Nexts(bpList[..]), free, lists.spare, p);
      lists := Lists([p] + lists.active, lists.spare);
    }

    method FreeBP(p: int)
      requires 0 <= p < NR_BP && Partition(bpList[..], lists, p) && Linked(Nexts(bpList[..]), free, lists.spare)
      modifies bpList, `free, `lists
      ensures Partition(bpList[..], lists, NULL) && Linked(Nexts(bpList[..]), free, lists.spare)
      ensures lists == Lists(old(lists.active), [p] + old(lists.spare))
      ensures bpList[..] == old(bpList[..])[p := old(bpList[p]).(inUse := false, next := old(free))]
    {
      assert bpList[p].inUse;
      Freed(bpList[..], lists, p, free);
      bpList[p] := bpList[p].(inUse := false);
      bpList[p] := bpList[p].(next := free);
      free := p;
      lists := Lists(lists.active, [p] + lists.spare);
      assert bpList[..] == old(bpList[..])[p := old(bpList[p]).(inUse := false, next := old(free))];
    }

    /** The scan of delete_breakpoint: the record numbered no and its predecessor. */
    method Search(no: int) returns (p: int, prev: int, ghost k: nat)
      requires Valid()
      ensures k == Find(lists.active, no) && p == At(lists.active, k)
      ensures p == if no in lists.active then no else NULL
      ensures prev == if k == 0 then NULL else lists.active[k - 1]
    {
      p, prev, k := head, NULL, 0;
      while p != NULL
        invariant 0 <= k <= |lists.active| && p == At(lists.active, k)
        invariant forall j :: 0 <= j < k ==> lists.active[j] != no
        invariant prev == if k == 0 then NULL else lists.active[k - 1]
        decreases |lists.active| - k
      {
        assert lists.active[k] in lists.active && Link(Nexts(bpList[..]), lists.active, k);
        if bpList[p].no == no {
          break;
        }
        prev, p, k := p, bpList[p].next, k + 1;
      }
      FindAt(lists.active, no, k);
    }

    method DeleteBreakpoint(no: int) returns (found: bool)
      requires Valid()
      modifies this, bpList
      ensures Valid()
      ensures found <==> no in old(lists.active)
      ensures lists == Next(old(lists), Delete(no))
      ensures Current() == Advance(old(Current()), Delete(no))
      ensures found ==> var k := Find(old(lists.active), no);
                        Active() == Cut(old(Active()), k)
      ensures !found ==> Active() == old(Active())
      ensures old(Stacked(Active(), memory[..])) ==>
                && Stacked(Active(), memory[..])
                && (Original() == old(Original()) <==>
                      (found ==> old(Dispensable(Active(), memory[..], Find(lists.active, no)))))
    {
      var p, prev;
      ghost var k;
      p, prev, k := Search(no);
      if p == NULL {
        return false;
      }
      ghost var was, pool, entries := lists, bpList[..], Active();
      Detach(p, prev, k);
      FreeDetached(p);
      EntriesCut(pool, bpList[..], was.active, k);
      CutInside(entries, k, memory.Length);
      LiveCut(entries, k);
      if Stacked(entries, memory[..]) {
        StackedCut(entries, memory[..], k);
        DeleteExactly(entries, memory[..], k);
      }
      return true;
    }

    /** Takes p off the active list. */
    method Detach(p: int, prev: int, ghost k: nat)
      requires Owns(NULL) && k < |lists.active| && p == lists.active[k]
      requires prev == if k == 0 then NULL else lists.active[k - 1]
      modifies `head, `lists, bpList
      ensures 0 <= p < NR_BP && Owns(p) && lists == Lists(Cut(old(lists.active), k), old(lists.spare))
      ensures forall i :: 0 <= i < NR_BP ==> bpList[i].(next := NULL) == old(bpList[i].(next := NULL))
    {
      ghost var pool := bpList[..];
      assert p in lists.active;
      assert k > 0 ==> lists.active[k - 1] in lists.active;
      if prev == NULL {
        head := bpList[p].next;
      } else {
        bpList[prev] := bpList[prev].(next := bpList[p].next);
      }
      TakenOut(pool, bpList[..], free, lists, k);
      lists := Lists(Cut(lists.active, k), lists.spare);
    }

    method FreeDetached(p: int)
      requires 0 <= p < NR_BP && Owns(p)
      modifies bpList, `free, `lists
      ensures Owns(NULL) && lists == Lists(old(lists.active), [p] + old(lists.spare))
      ensures forall i :: 0 <= i < NR_BP && i != p ==> bpList[i] == old(bpList[i])
    {
      FreeBP(p);
      Unlinked(Nexts(old(bpList[..])), Nexts(bpList[..]), head, lists.active, p);
    }

    /** The free list is linked, and the two lists are a partition. */
    ghost predicate Free()
      reads this, bpList
    {
      Partition(bpList[..], lists, NULL) && Linked(Nexts(bpList[..]), free, lists.spare)
    }

    method DeleteAllRecursively(p: int, ghost pre: seq<int>, ghost ids: seq<int>)
      requires Free() && lists.active == pre + ids && Linked(Nexts(bpList[..]), p, ids)
      modifies bpList, `free, `lists
      ensures Free() && lists == Lists(pre, ids + old(lists.spare))
      ensures forall i :: 0 <= i < NR_BP && i !in ids ==> bpList[i] == old(bpList[i])
      decreases |ids|
    {
      if p == NULL {
        assert lists.active == pre && lists.spare == ids + lists.spare;
        return;
      }
      ghost var spare, rest := lists.spare, ids[1..];
      SplitHead(bpList[..], p, pre, ids);
      if bpList[p].next != NULL {
        DeleteAllRecursively(bpList[p].next, pre + [p], rest);
      }
      FreeLast(p, pre);
      Regrouped(p, rest, ids, spare);
    }

    method FreeLast(p: int, ghost pre: seq<int>)
      requires Free() && lists.active == pre + [p]
      modifies bpList, `free, `lists
      ensures Free() && lists == Lists(pre, [p] + old(lists.spare))
      ensures forall i :: 0 <= i < NR_BP && i != p ==> bpList[i] == old(bpList[i])
    {
      assert Cut(lists.active, |pre|) == pre && lists.active[|pre|] == p && p in lists.active;
      CutPartition(bpList[..], bpList[..], lists, |pre|);
      lists := Lists(pre, lists.spare);
      FreeBP(p);
    }

    method FreeAll()
      requires Owns(NULL)
      modifies this, bpList
      ensures Owns(NULL) && Active() == [] && lists == Lists([], old(lists.active + lists.spare))
    {
      NothingBefore(lists.active);
      DeleteAllRecursively(head, [], lists.active);
      head := NULL;
    }

    method DeleteAllBreakpoint()
      requires Valid()
      modifies this, bpList
      ensures Valid() && Active() == [] && Original() == memory[..]
      ensures lists == Next(old(lists), DeleteAll) && Current() == Advance(old(Current()), DeleteAll)
      ensures old(Stacked(Active(), memory[..])) ==>
                (Original() == old(Original()) <==>
                   forall c :: 0 <= c < memory.Length && Writers(old(Active()), c) > 0 ==> old(Original())[c] == INT3)
    {
      if Stacked(Active(), memory[..]) {
        DeleteAllExactly(Active(), memory[..]);
      }
      FreeAll();
    }

    method FindBreakpoint(addr: nat) returns (p: int, ghost k: nat)
      requires Valid()
      ensures k <= |Active()| && p == At(lists.active, k)
      ensures forall j :: 0 <= j < k ==> !Breaks(Active()[j], addr)
      ensures k < |Active()| ==> Breaks(Active()[k], addr)
      ensures p == NULL <==> forall j :: 0 <= j < |Active()| ==> !Breaks(Active()[j], addr)
      ensures p != NULL ==> 0 <= p < NR_BP && Breaks(bpList[p], addr)
    {
      p, k := head, 0;
      while p != NULL
        invariant k <= |Active()| && p == At(lists.active, k)
        invariant forall j :: 0 <= j < k ==> !Breaks(Active()[j], addr)
        decreases |Active()| - k
      {
        assert lists.active[k] in lists.active && Link(Nexts(bpList[..]), lists.active, k);
        assert bpList[p].inUse;
        if bpList[p].target.Code? && bpList[p].target.addr == addr {
          break;
        }
        p, k := bpList[p].next, k + 1;
      }
      assert p != NULL ==> Active()[k].target == bpList[p].target;
    }

    method MaskBreakpoints()
      requires Valid()
      modifies memory
      ensures Valid() && memory[..] == old(Original())
    {
      ghost var entries, k := Active(), 0;
      var p := head;
      while p != NULL
        invariant k <= |entries| && p == At(lists.active, k)
        invariant Undone(entries[k..], memory[..]) == old(Original())
        decreases |entries| - k
      {
        assert lists.active[k] in lists.active && Link(Nexts(bpList[..]), lists.active, k);
        assert bpList[p].inUse;
        assert entries[k..][0] == entries[k] && entries[k..][1..] == entries[k + 1..];
        if bpList[p].target.Code? {
          memory[bpList[p].target.addr] := bpList[p].oriByte;
        }
        p, k := bpList[p].next, k + 1;
      }
    }

    /** The body of the loop of resume_breakpoints. */
    method ResumeOne(p: int, ghost k: nat)
      requires Valid() && k < |Active()| && p == lists.active[k]
      modifies bpList, memory
      ensures Valid()
      ensures Active() == old(Active()[k := Repatch(Active()[k], memory[..])])
      ensures memory[..] == old(Trap(Active()[k], memory[..]))
    {
      assert p in lists.active;
      assert bpList[p].inUse;
      ghost var before := bpList[..];
      if bpList[p].target.Code? {
        assert Active()[k].target == bpList[p].target;
        bpList[p] := bpList[p].(oriByte := memory[bpList[p].target.addr]);
        memory[bpList[p].target.addr] := INT3;
        bpList[p] := bpList[p].(enable := true);
      }
      Rewritten(before, bpList[..], head, free, lists, k);
    }

    method ResumeBreakpoints()
      requires Valid()
      modifies bpList, memory
      ensures Valid()
      ensures Patched(Active(), memory[..]) == old(Resumed(Active(), memory[..]))
    {
      ghost var k, entries, m := 0, Active(), memory[..];
      var p := head;
      while p != NULL
        invariant k <= |lists.active| && p == At(lists.active, k)
        invariant Valid()
        invariant Resumes(entries, m, Active(), memory[..], k)
        decreases |lists.active| - k
      {
        ResumesNext(entries, m, Active(), memory[..], k);
        ResumeOne(p, k);
        assert Link(Nexts(bpList[..]), lists.active, k);
        p, k := bpList[p].next, k + 1;
      }
    }

    /** Any instruction of the guest, by what it stores. */
    method Execute(stores: map<nat, Byte>)
      modifies memory
      ensures memory[..] == Executed(old(memory[..]), stores)
    {
      for c := 0 to memory.Length
        invariant forall d :: 0 <= d < memory.Length ==>
                    memory[d] == if d < c && d in stores then stores[d] else old(memory[d])
      {
        if c in stores {
          memory[c] := stores[c];
        }
      }
    }

    /** What exec does to memory when a breakpoint is hit at addr: the opcode is
        written back, and one instruction later all breakpoints are resumed. */
    method ServeHit(addr: nat, stores: map<nat, Byte>) returns (hit: bool, ghost k: nat)
      requires Valid()
      modifies bpList, memory
      ensures Valid() && k <= |old(Active())| == |Active()|
      ensures hit <==> k < |old(Active())| && Breaks(old(Active())[k], addr)
      ensures !hit ==> forall j :: 0 <= j < |old(Active())| ==> !Breaks(old(Active())[j], addr)
      ensures !hit ==> Active() == old(Active()) && memory[..] == old(memory[..])
      ensures hit ==> addr < memory.Length
      ensures hit ==>
                var restored := old(memory[..])[addr := old(Active())[k].oriByte];
                Patched(Active(), memory[..]) == Resumed(old(Active()), Executed(restored, stores))
      ensures hit && old(Stacked(Active(), memory[..])) ==>
                (Original() == Executed(old(Original()), stores)
                 <==> forall c :: 0 <= c < memory.Length && AtRisk(old(Active()), k, stores, c)
                                  ==> Executed(old(Original()), stores)[c] == INT3)
      ensures hit ==>
                var restored := old(memory[..])[addr := old(Active())[k].oriByte];
                (Stacked(Active(), memory[..]) <==> NoClash(old(Active()), Executed(restored, stores)))
    {
      ghost var entries, m := Active(), memory[..];
      var p;
      p, k := FindBreakpoint(addr);
      hit := p != NULL;
      if hit {
        assert p in lists.active && entries[k] == bpList[p].(next := NULL);
        memory[bpList[p].target.addr] := bpList[p].oriByte;
        Execute(stores);
        ResumeBreakpoints();
        StackedAfterResume(entries, Executed(m[addr := entries[k].oriByte], stores));
        if Stacked(entries, m) {
          HitExactly(entries, m, k, stores);
        }
      }
    }

    /** The two commands that set. */
    method Set(c: Command) returns (out: Outcome)
      requires Valid() && (c.SetBreak? || c.SetWatch?) && (c.SetBreak? ==> c.addr < memory.Length)
      modifies this, bpList, memory
      ensures Valid() && lists == Next(old(lists), c) && out == Reported(old(lists), c)
      ensures out.Aborted? <==> Sets(c) && |old(lists.active)| == NR_BP
      ensures Current() == Advance(old(Current()), c)
      ensures Original() == old(Original())
      ensures old(Stacked(Active(), memory[..])) ==> Stacked(Active(), memory[..])
    {
      ghost var s, entries := Current(), Active();
      if c.SetBreak? {
        out := SetBreakpoint(c.addr);
      } else {
        out := SetWatchpoint(c.text, c.result);
        assert out.Number? ==> Active() == [Active()[0]] + entries;
      }
      if out.Number? {
        SetAdvances(s, Current(), c, Active()[0], entries);
      }
    }

    method Perform(c: Command) returns (out: Outcome)
      requires Valid() && (c.SetBreak? ==> c.addr < memory.Length)
      modifies this, bpList, memory
      ensures Valid() && lists == Next(old(lists), c) && out == Reported(old(lists), c)
      ensures out.Aborted? <==> Sets(c) && |old(lists.active)| == NR_BP
      ensures Current() == Advance(old(Current()), c)
      ensures c.SetBreak? || c.SetWatch? ==> Original() == old(Original())
      ensures old(Stacked(Active(), memory[..])) ==> Stacked(Active(), memory[..])
    {
      match c {
        case Delete(no) =>
          var found := DeleteBreakpoint(no);
          out := if found then Number(no) else Rejected;
        case DeleteAll =>
          DeleteAllBreakpoint();
          out := Number(0);
        case _ =>
          out := Set(c);
      }
    }

    /** Any run of commands, up to the first that finds no free record. */
    method Run(commands: seq<Command>) returns (done: nat, outs: seq<Outcome>)
      requires Valid()
      requires forall k :: 0 <= k < |commands| && commands[k].SetBreak? ==> commands[k].addr < memory.Length
      modifies this, bpList, memory
      ensures Valid() && done <= |commands| && lists == After(old(lists), commands[..done])
      ensures done < |commands| ==> Sets(commands[done]) && |lists.active| == NR_BP
      ensures |outs| == done && ReportedAll(old(lists), commands[..done], outs)
      ensures Current() == AdvanceAll(old(Current()), commands[..done])
      ensures PatchedBy(old(memory[..]), memory[..], commands[..done])
      ensures OnlySets(commands[..done]) ==> Original() == old(Original())
      ensures old(Stacked(Active(), memory[..])) ==> Stacked(Active(), memory[..])
    {
      done, outs := 0, [];
      ghost var s0, m0 := Current(), Original();
      while done < |commands|
        invariant Valid() && done <= |commands|
        invariant RunSoFar(s0, Current(), commands[..done], outs)
        invariant OnlySets(commands[..done]) ==> Original() == m0
        invariant old(Stacked(Active(), memory[..])) ==> Stacked(Active(), memory[..])
      {
        ghost var s := Current();
        var out := Perform(commands[done]);
        if out.Aborted? {
          break;
        }
        RunOn(s0, s, commands, done, outs, out);
        OnlySetsNext(commands, done);
        done, outs := done + 1, outs + [out];
      }
    }
  }
}
