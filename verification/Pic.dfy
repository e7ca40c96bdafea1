/** The interrupt controller shared by device threads and the CPU
    (nemu/src/device/i8259_pic.c, do_intr in nemu/src/cpu/cpu.c), as the
    interleaved steps of any number of device threads and one CPU thread.  The
    devices and the acknowledgement hold the mutex; the CPU's test of cpu.intr
    and its query of the number do not. */
module Pic {
  import opened Words

  const IRQ_BASE: int := 32
  const NO_INTR: Byte := 255

  // ---------------------------------------------------------------------
  // The protocol
  // ---------------------------------------------------------------------

  /** Where a device thread is in i8259_raise_intr. */
  datatype DevicePc = Idle | Locked(irq: Byte) | Recorded | Signalled

  /** Where the CPU is in do_intr. */
  datatype CpuPc =
    | Running            // anywhere outside
    | Tested             // cpu.intr and IF were seen set
    | Queried(no: Byte)  // the number was read
    | Asserted(no: Byte) // the assert passed
    | Failed             // the assert did not pass
    | Acking(no: Byte)   // mutex held, nothing cleared yet
    | Cleared(no: Byte)  // number reset, cpu.intr not yet
    | Acked(no: Byte)    // both reset, mutex still held
    | Raising(no: Byte)  // about to enter raise_intr

  datatype Owner = Nobody | Cpu | Device(id: nat)

  /** What happened to the recorded number, in order, and what raise_intr was given. */
  datatype Event = Record(irq: Byte) | Query(no: Byte) | Clear | Dispatch(no: Byte)

  datatype State = State(
    number: Byte,               // i8259_intr_no
    intr: bool,                 // cpu.intr
    mutex: Owner,
    cpu: CpuPc,
    devices: map<nat, DevicePc>,
    log: seq<Event>)

  datatype Action =
    | Lock(dev: nat, irq: Byte)
    | RecordNumber(dev: nat)
    | Signal(dev: nat)
    | Unlock(dev: nat)
    | Test
    | QueryNumber
    | Assert
    | AckLock
    | AckGiveUp
    | ClearNumber
    | ClearIntr
    | AckUnlock
    | Raise

  predicate Init(s: State) {
    && s.number == NO_INTR && !s.intr && s.mutex == Nobody && s.cpu == Running && s.log == []
    && forall d :: d in s.devices ==> s.devices[d] == Idle
  }

  /** i8259_pic.c:28-34, in uint8_t. */
  function NewNumber(number: Byte, irq: Byte): Byte {
    if number == NO_INTR || irq > number - IRQ_BASE then (irq + IRQ_BASE) % 0x100 else number
  }

  predicate DeviceAt(s: State, dev: nat, pc: DevicePc) { dev in s.devices && s.devices[dev] == pc }

  /** One step of one thread, for devices that raise numbers in irqs. */
  predicate Step(irqs: set<Byte>, a: Action, s: State, s': State) {
    match a
    case Lock(d, irq) =>
      DeviceAt(s, d, Idle) && irq in irqs && s.mutex == Nobody
      && s' == s.(mutex := Device(d), devices := s.devices[d := Locked(irq)])
    case RecordNumber(d) =>
      d in s.devices && s.devices[d].Locked?
      && s' == s.(number := NewNumber(s.number, s.devices[d].irq), devices := s.devices[d := Recorded],
                  log := s.log + [Record(s.devices[d].irq)])
    case Signal(d) =>
      DeviceAt(s, d, Recorded) && s' == s.(intr := true, devices := s.devices[d := Signalled])
    case Unlock(d) =>
      DeviceAt(s, d, Signalled) && s' == s.(mutex := Nobody, devices := s.devices[d := Idle])
    case Test =>
      s.cpu == Running && s.intr && s' == s.(cpu := Tested)
    case QueryNumber =>
      s.cpu == Tested && s' == s.(cpu := Queried(s.number), log := s.log + [Query(s.number)])
    case Assert =>
      s.cpu.Queried? && s' == s.(cpu := if s.cpu.no != NO_INTR then Asserted(s.cpu.no) else Failed)
    case AckLock =>
      s.cpu.Asserted? && s.mutex == Nobody && s' == s.(mutex := Cpu, cpu := Acking(s.cpu.no))
    case AckGiveUp =>
      s.cpu.Asserted? && s' == s.(cpu := Raising(s.cpu.no))
    case ClearNumber =>
      s.cpu.Acking? && s' == s.(number := NO_INTR, cpu := Cleared(s.cpu.no), log := s.log + [Clear])
    case ClearIntr =>
      s.cpu.Cleared? && s' == s.(intr := false, cpu := Acked(s.cpu.no))
    case AckUnlock =>
      s.cpu.Acked? && s' == s.(mutex := Nobody, cpu := Raising(s.cpu.no))
    case Raise =>
      s.cpu.Raising? && s' == s.(cpu := Running, log := s.log + [Dispatch(s.cpu.no)])
  }

  /** A run: states joined by steps, from an initial one. */
  ghost predicate IsRun(irqs: set<Byte>, actions: seq<Action>, states: seq<State>) {
    && |states| == |actions| + 1 && Init(states[0])
    && forall i :: 0 <= i < |actions| ==> Step(irqs, actions[i], states[i], states[i + 1])
  }

  // ---------------------------------------------------------------------
  // What is promised
  // ---------------------------------------------------------------------

  /** The i-th event is a record that no acknowledgement before the k-th erased. */
  predicate PendingAt(log: seq<Event>, i: nat, k: nat)
    requires k <= |log|
  {
    i < k && log[i].Record? && forall j :: i < j < k ==> log[j] != Clear
  }

  /** number is what the records pending at k make it: the largest, or none. */
  ghost predicate IsLargest(log: seq<Event>, k: nat, number: Byte)
    requires k <= |log|
  {
    if number == NO_INTR then forall i :: 0 <= i < k ==> !PendingAt(log, i, k)
    else
      && (exists i: nat :: PendingAt(log, i, k) && log[i].irq == number - IRQ_BASE)
      && forall i {:trigger PendingAt(log, i, k)} :: 0 <= i < k && PendingAt(log, i, k) ==>
           log[i].irq <= number - IRQ_BASE
  }

  /** If the k-th event is a query, it got the largest number recorded since the
      previous acknowledgement, and there was one. */
  ghost predicate QueryCorrect(log: seq<Event>, k: nat)
    requires k < |log|
  {
    log[k].Query? ==> log[k].no != NO_INTR && IsLargest(log, k, log[k].no)
  }

  ghost predicate QueriesCorrect(log: seq<Event>) {
    forall k {:trigger QueryCorrect(log, k)} :: 0 <= k < |log| ==> QueryCorrect(log, k)
  }

  /** The last query before k, with no dispatch in between. */
  ghost predicate Unserved(log: seq<Event>, q: nat, k: nat, no: Byte)
    requires k <= |log|
  {
    q < k && log[q] == Query(no) && forall j :: q < j < k ==> !log[j].Query? && !log[j].Dispatch?
  }

  /** If the k-th event is a dispatch, it is of what the last query before it got,
      and that query has not been served already. */
  ghost predicate DispatchCorrect(log: seq<Event>, k: nat)
    requires k < |log|
  {
    log[k].Dispatch? ==> exists q: nat :: Unserved(log, q, k, log[k].no)
  }

  ghost predicate DispatchesCorrect(log: seq<Event>) {
    forall k {:trigger DispatchCorrect(log, k)} :: 0 <= k < |log| ==> DispatchCorrect(log, k)
  }

  // ---------------------------------------------------------------------
  // The invariant
  // ---------------------------------------------------------------------

  predicate HoldsMutex(pc: DevicePc) { !pc.Idle? }

  predicate MutexOk(s: State) {
    && (s.mutex == Cpu <==> s.cpu.Acking? || s.cpu.Cleared? || s.cpu.Acked?)
    && (forall d :: d in s.devices ==> (HoldsMutex(s.devices[d]) <==> s.mutex == Device(d)))
    && (s.mutex.Device? ==> s.mutex.id in s.devices)
  }

  /** cpu.intr set means there is a number, except between the two stores of an
      acknowledgement; and once the CPU saw cpu.intr, the number stays. */
  predicate SignalOk(s: State) {
    && (s.intr && !s.cpu.Cleared? ==> s.number != NO_INTR)
    && (s.cpu.Tested? || s.cpu.Queried? || s.cpu.Asserted? || s.cpu.Acking? ==> s.number != NO_INTR)
    && (s.cpu.Queried? ==> s.cpu.no != NO_INTR)
    && (forall d :: d in s.devices && (s.devices[d].Recorded? || s.devices[d].Signalled?) ==> s.number != NO_INTR)
    && (forall d :: d in s.devices && s.devices[d].Signalled? ==> s.intr)
    && (s.number != NO_INTR && !s.intr ==> s.mutex.Device? && DeviceAt(s, s.mutex.id, Recorded))
    && (s.cpu.Cleared? ==> s.number == NO_INTR)
    && s.cpu != Failed
  }

  predicate IrqsIn(irqs: set<Byte>, s: State) {
    forall d :: d in s.devices && s.devices[d].Locked? ==> s.devices[d].irq in irqs
  }

  ghost predicate Safe(irqs: set<Byte>, s: State) { MutexOk(s) && SignalOk(s) && IrqsIn(irqs, s) }

  lemma InitSafe(irqs: set<Byte>, s: State)
    requires Init(s)
    ensures Safe(irqs, s)
  {
  }

  /** The handshake survives every step unless a device can record the number
      that means "no interrupt". */
  lemma StepSafe(irqs: set<Byte>, a: Action, s: State, s': State)
    requires NO_INTR - IRQ_BASE !in irqs
    requires Safe(irqs, s) && Step(irqs, a, s, s')
    ensures Safe(irqs, s')
  {
    match a
    case RecordNumber(d) =>
      assert s.devices[d].irq in irqs;
      assert s'.number != NO_INTR;
    case _ =>
  }

  lemma {:induction false} RunSafe(irqs: set<Byte>, actions: seq<Action>, states: seq<State>, i: nat)
    requires NO_INTR - IRQ_BASE !in irqs && IsRun(irqs, actions, states) && i < |states|
    ensures Safe(irqs, states[i])
  {
    if i == 0 {
      InitSafe(irqs, states[0]);
    } else {
      RunSafe(irqs, actions, states, i - 1);
      StepSafe(irqs, actions[i - 1], states[i - 1], states[i]);
    }
  }

  // ---------------------------------------------------------------------
  // Priorities
  // ---------------------------------------------------------------------

  /** Numbers that IRQ_BASE + irq represents in a byte without meaning NO_INTR. */
  ghost predicate Small(irqs: set<Byte>) { forall r :: r in irqs ==> r < NO_INTR - IRQ_BASE }

  /** The last query of the log, nothing but records after it. */
  ghost predicate LastQuery(log: seq<Event>, q: nat, k: nat, no: Byte)
    requires k <= |log|
  {
    q < k && log[q] == Query(no) && forall j :: q < j < k ==> log[j].Record?
  }

  /** If the k-th event is an acknowledgement, it clears what a query has read,
      with only records in between. */
  ghost predicate ClearFollowsQuery(log: seq<Event>, k: nat)
    requires k < |log|
  {
    log[k] == Clear ==> exists q: nat, no: Byte :: LastQuery(log, q, k, no)
  }

  ghost predicate ClearsFollowQueries(log: seq<Event>) {
    forall k {:trigger ClearFollowsQuery(log, k)} :: 0 <= k < |log| ==> ClearFollowsQuery(log, k)
  }

  ghost predicate LogOk(s: State) {
    && IsLargest(s.log, |s.log|, s.number)
    && QueriesCorrect(s.log)
    && ClearsFollowQueries(s.log)
    && (HasQueried(s.cpu) ==> exists q: nat :: LastQuery(s.log, q, |s.log|, s.cpu.no))
    && DispatchesCorrect(s.log)
    && (HasNumber(s.cpu) ==> exists q: nat :: Unserved(s.log, q, |s.log|, s.cpu.no))
  }

  lemma PendingPrefix(log: seq<Event>, e: Event, i: nat, k: nat)
    requires k <= |log|
    ensures PendingAt(log + [e], i, k) <==> PendingAt(log, i, k)
  {
    var log' := log + [e];
    assert forall j :: 0 <= j < |log| ==> log'[j] == log[j];
    if PendingAt(log', i, k) {
      assert forall j :: i < j < k ==> log[j] == log'[j];
    }
  }

  lemma PendingExtended(log: seq<Event>, e: Event, i: nat)
    ensures PendingAt(log + [e], i, |log| + 1) <==>
              (i == |log| && e.Record?) || (i < |log| && e != Clear && PendingAt(log, i, |log|))
  {
    var log' := log + [e];
    if i < |log| {
      PendingPrefix(log, e, i, |log|);
      if PendingAt(log', i, |log|) && e != Clear {
        assert forall j :: i < j < |log'| ==> log'[j] != Clear;
      }
      if PendingAt(log', i, |log'|) {
        assert log'[|log|] != Clear;
      }
    }
  }

  lemma LargestPrefix(log: seq<Event>, e: Event, k: nat, number: Byte)
    requires k <= |log|
    ensures IsLargest(log + [e], k, number) <==> IsLargest(log, k, number)
  {
    forall i: nat ensures PendingAt(log + [e], i, k) <==> PendingAt(log, i, k) {
      PendingPrefix(log, e, i, k);
    }
    if k > 0 {
      assert forall i :: 0 <= i < k ==> (log + [e])[i] == log[i];
    }
  }

  /** Recording keeps the number the largest of the pending ones. */
  lemma LargestRecorded(log: seq<Event>, number: Byte, irq: Byte)
    requires IsLargest(log, |log|, number) && irq < NO_INTR - IRQ_BASE
    ensures IsLargest(log + [Record(irq)], |log| + 1, NewNumber(number, irq))
  {
    var log' := log + [Record(irq)];
    forall i: nat
      ensures PendingAt(log', i, |log'|) <==> i == |log| || PendingAt(log, i, |log|)
    {
      PendingExtended(log, Record(irq), i);
    }
    if number == NO_INTR || irq > number - IRQ_BASE {
      assert PendingAt(log', |log|, |log'|) && log'[|log|].irq == irq;
    } else {
      var i: nat :| PendingAt(log, i, |log|) && log[i].irq == number - IRQ_BASE;
      assert PendingAt(log', i, |log'|) && log'[i].irq == number - IRQ_BASE;
    }
  }

  lemma LargestUnchanged(log: seq<Event>, number: Byte, e: Event)
    requires IsLargest(log, |log|, number) && (e.Query? || e.Dispatch?)
    ensures IsLargest(log + [e], |log| + 1, number)
  {
    var log' := log + [e];
    forall i: nat ensures PendingAt(log', i, |log'|) <==> PendingAt(log, i, |log|) {
      PendingExtended(log, e, i);
    }
    if number != NO_INTR {
      var i: nat :| PendingAt(log, i, |log|) && log[i].irq == number - IRQ_BASE;
      assert PendingAt(log', i, |log'|) && log'[i].irq == number - IRQ_BASE;
    }
  }

  lemma LargestCleared(log: seq<Event>)
    ensures IsLargest(log + [Clear], |log| + 1, NO_INTR)
  {
    var log' := log + [Clear];
    var k := |log| + 1;
    forall i | 0 <= i < k ensures !PendingAt(log', i, k) {
      PendingExtended(log, Clear, i);
    }
  }

  /** A new event keeps every query right if it is right itself. */
  lemma QueriesExtended(log: seq<Event>, e: Event)
    requires QueriesCorrect(log)
    requires e.Query? ==> e.no != NO_INTR && IsLargest(log, |log|, e.no)
    ensures QueriesCorrect(log + [e])
  {
    var log' := log + [e];
    forall k | 0 <= k < |log'| ensures QueryCorrect(log', k) {
      if log'[k].Query? {
        LargestPrefix(log, e, k, log'[k].no);
        assert k < |log| ==> QueryCorrect(log, k);
      }
    }
  }

  lemma ClearsExtended(log: seq<Event>, e: Event)
    requires ClearsFollowQueries(log)
    requires e == Clear ==> exists q: nat, no: Byte :: LastQuery(log, q, |log|, no)
    ensures ClearsFollowQueries(log + [e])
  {
    var log' := log + [e];
    forall k | 0 <= k < |log'| ensures ClearFollowsQuery(log', k) {
      if log'[k] == Clear {
        assert k < |log| ==> ClearFollowsQuery(log, k);
        var q: nat, no: Byte :| LastQuery(log, q, k, no);
        LastQueryPrefix(log, e, q, k, no);
      }
    }
  }

  lemma LastQueryPrefix(log: seq<Event>, e: Event, q: nat, k: nat, no: Byte)
    requires k <= |log| && LastQuery(log, q, k, no)
    ensures LastQuery(log + [e], q, k, no)
  {
  }

  predicate HasQueried(pc: CpuPc) { pc.Queried? || pc.Asserted? || pc.Acking? }

  predicate HasNumber(pc: CpuPc) { HasQueried(pc) || pc.Cleared? || pc.Acked? || pc.Raising? }

  lemma DispatchesExtended(log: seq<Event>, e: Event)
    requires DispatchesCorrect(log)
    requires e.Dispatch? ==> exists q: nat :: Unserved(log, q, |log|, e.no)
    ensures DispatchesCorrect(log + [e])
  {
    var log' := log + [e];
    forall k | 0 <= k < |log'| ensures DispatchCorrect(log', k) {
      if log'[k].Dispatch? {
        assert k < |log| ==> DispatchCorrect(log, k);
        var q: nat :| Unserved(log, q, k, log'[k].no);
        UnservedPrefix(log, e, q, k, log'[k].no);
      }
    }
  }

  lemma UnservedPrefix(log: seq<Event>, e: Event, q: nat, k: nat, no: Byte)
    requires k <= |log| && Unserved(log, q, k, no)
    ensures Unserved(log + [e], q, k, no)
  {
  }

  /** Recording and acknowledging do not serve a query. */
  lemma StillUnserved(log: seq<Event>, e: Event, no: Byte)
    requires exists q: nat :: Unserved(log, q, |log|, no)
    requires !e.Query? && !e.Dispatch?
    ensures exists q: nat :: Unserved(log + [e], q, |log + [e]|, no)
  {
    var q: nat :| Unserved(log, q, |log|, no);
    assert Unserved(log + [e], q, |log + [e]|, no);
  }

  /** Steps that record, read or clear nothing. */
  lemma QuietStep(s: State, s': State)
    requires LogOk(s) && s'.log == s.log && s'.number == s.number
    requires HasQueried(s'.cpu) ==> HasQueried(s.cpu)
    requires HasNumber(s'.cpu) ==> HasNumber(s.cpu) && s'.cpu.no == s.cpu.no
    ensures LogOk(s')
  {
  }

  lemma RecordStep(s: State, s': State, irq: Byte)
    requires LogOk(s) && irq < NO_INTR - IRQ_BASE
    requires s'.number == NewNumber(s.number, irq) && s'.log == s.log + [Record(irq)] && s'.cpu == s.cpu
    ensures LogOk(s')
  {
    assert IsLargest(s'.log, |s'.log|, s'.number) by {
      LargestRecorded(s.log, s.number, irq);
    }
    assert QueriesCorrect(s'.log) by {
      QueriesExtended(s.log, Record(irq));
    }
    assert ClearsFollowQueries(s'.log) by {
      ClearsExtended(s.log, Record(irq));
    }
    assert DispatchesCorrect(s'.log) by {
      DispatchesExtended(s.log, Record(irq));
    }
    if HasNumber(s.cpu) {
      StillUnserved(s.log, Record(irq), s.cpu.no);
    }
    if HasQueried(s.cpu) {
      var q: nat :| LastQuery(s.log, q, |s.log|, s.cpu.no);
      LastQueryExtended(s.log, q, s.cpu.no, irq);
    }
  }

  lemma LastQueryExtended(log: seq<Event>, q: nat, no: Byte, irq: Byte)
    requires LastQuery(log, q, |log|, no)
    ensures var log' := log + [Record(irq)]; LastQuery(log', q, |log'|, no)
  {
  }

  lemma QueryStep(s: State, s': State)
    requires LogOk(s) && s.number != NO_INTR
    requires s'.number == s.number && s'.log == s.log + [Query(s.number)] && s'.cpu == Queried(s.number)
    ensures LogOk(s')
  {
    assert IsLargest(s'.log, |s'.log|, s'.number) by {
      LargestUnchanged(s.log, s.number, Query(s.number));
    }
    assert QueriesCorrect(s'.log) by {
      QueriesExtended(s.log, Query(s.number));
    }
    assert ClearsFollowQueries(s'.log) by {
      ClearsExtended(s.log, Query(s.number));
    }
    assert DispatchesCorrect(s'.log) by {
      DispatchesExtended(s.log, Query(s.number));
    }
    assert LastQuery(s'.log, |s.log|, |s'.log|, s.number);
    assert Unserved(s'.log, |s.log|, |s'.log|, s.number);
  }

  lemma ClearStep(s: State, s': State)
    requires LogOk(s) && s.cpu.Acking?
    requires s'.number == NO_INTR && s'.log == s.log + [Clear] && s'.cpu == Cleared(s.cpu.no)
    ensures LogOk(s')
  {
    assert IsLargest(s'.log, |s'.log|, s'.number) by {
      LargestCleared(s.log);
    }
    assert QueriesCorrect(s'.log) by {
      QueriesExtended(s.log, Clear);
    }
    assert ClearsFollowQueries(s'.log) by {
      ClearsExtended(s.log, Clear);
    }
    assert DispatchesCorrect(s'.log) by {
      DispatchesExtended(s.log, Clear);
    }
    StillUnserved(s.log, Clear, s.cpu.no);
  }

  lemma RaiseStep(s: State, s': State)
    requires LogOk(s) && s.cpu.Raising?
    requires s'.number == s.number && s'.log == s.log + [Dispatch(s.cpu.no)] && s'.cpu == Running
    ensures LogOk(s')
  {
    assert IsLargest(s'.log, |s'.log|, s'.number) by {
      LargestUnchanged(s.log, s.number, Dispatch(s.cpu.no));
    }
    assert QueriesCorrect(s'.log) by {
      QueriesExtended(s.log, Dispatch(s.cpu.no));
    }
    assert ClearsFollowQueries(s'.log) by {
      ClearsExtended(s.log, Dispatch(s.cpu.no));
    }
    assert DispatchesCorrect(s'.log) by {
      DispatchesExtended(s.log, Dispatch(s.cpu.no));
    }
  }

  lemma StepLog(irqs: set<Byte>, a: Action, s: State, s': State)
    requires Small(irqs) && Safe(irqs, s) && LogOk(s) && Step(irqs, a, s, s')
    ensures LogOk(s')
  {
    match a
    case RecordNumber(d) =>
      assert s.devices[d].irq in irqs;
      RecordStep(s, s', s.devices[d].irq);
    case QueryNumber => QueryStep(s, s');
    case ClearNumber => ClearStep(s, s');
    case Raise => RaiseStep(s, s');
    case _ => QuietStep(s, s');
  }

  /** In every reachable state: the assert of do_intr has not failed, every queried
      number was the largest recorded since the previous acknowledgement, every
      acknowledgement follows its query, and every dispatch is of a query of its
      own. */
  lemma {:induction false} RunCorrect(irqs: set<Byte>, actions: seq<Action>, states: seq<State>, i: nat)
    requires Small(irqs) && IsRun(irqs, actions, states) && i < |states|
    ensures Safe(irqs, states[i]) && LogOk(states[i])
  {
    RunSafe(irqs, actions, states, i);
    if i > 0 {
      RunCorrect(irqs, actions, states, i - 1);
      StepLog(irqs, actions[i - 1], states[i - 1], states[i]);
    }
  }

  /** What raise_intr is given is the largest number recorded between the
      acknowledgement before its query and that query. */
  lemma DispatchedLargest(irqs: set<Byte>, actions: seq<Action>, states: seq<State>, n: nat, k: nat)
      returns (q: nat)
    requires Small(irqs) && IsRun(irqs, actions, states) && n < |states|
    requires k < |states[n].log| && states[n].log[k].Dispatch?
    ensures Unserved(states[n].log, q, k, states[n].log[k].no)
    ensures states[n].log[k].no != NO_INTR && IsLargest(states[n].log, q, states[n].log[k].no)
  {
    RunCorrect(irqs, actions, states, n);
    assert DispatchCorrect(states[n].log, k);
    q :| Unserved(states[n].log, q, k, states[n].log[k].no);
    assert QueryCorrect(states[n].log, q);
  }

  /** Whenever the mutex is free, cpu.intr is set exactly if some recorded number
      has not been acknowledged. */
  lemma SignalledExactly(irqs: set<Byte>, actions: seq<Action>, states: seq<State>, n: nat)
    requires Small(irqs) && IsRun(irqs, actions, states) && n < |states| && states[n].mutex == Nobody
    ensures states[n].intr <==> exists i: nat :: PendingAt(states[n].log, i, |states[n].log|)
  {
    RunCorrect(irqs, actions, states, n);
    var s := states[n];
    assert s.intr <==> s.number != NO_INTR;
    if i: nat :| PendingAt(s.log, i, |s.log|) {
      assert s.number != NO_INTR;
    }
  }

  /** The i-th event is pending until the acknowledgement at k erases it. */
  predicate ErasedAt(log: seq<Event>, i: nat, k: nat)
    requires k < |log|
  {
    PendingAt(log, i, k) && !PendingAt(log, i, k + 1)
  }

  /** What the acknowledgement at k erases, when q queried no: everything recorded
      in between; and of all that outranks the dispatched number, exactly that. */
  ghost predicate Erases(log: seq<Event>, q: nat, k: nat, no: Byte)
    requires k < |log|
  {
    && (forall i {:trigger ErasedAt(log, i, k)} :: q < i < k ==> ErasedAt(log, i, k))
    && (forall i {:trigger PendingAt(log, i, k)} :: 0 <= i < k && log[i].Record? && log[i].irq > no - IRQ_BASE ==>
          (PendingAt(log, i, k) <==> i > q))
  }

  lemma ErasedAfterQuery(irqs: set<Byte>, actions: seq<Action>, states: seq<State>, n: nat, k: nat)
      returns (q: nat, no: Byte)
    requires Small(irqs) && IsRun(irqs, actions, states) && n < |states|
    requires k < |states[n].log| && states[n].log[k] == Clear
    ensures LastQuery(states[n].log, q, k, no) && Erases(states[n].log, q, k, no)
  {
    RunCorrect(irqs, actions, states, n);
    assert ClearFollowsQuery(states[n].log, k);
    q, no :| LastQuery(states[n].log, q, k, no);
    ClearErases(states[n].log, q, k, no);
  }

  lemma ClearErases(log: seq<Event>, q: nat, k: nat, no: Byte)
    requires QueriesCorrect(log) && k < |log| && log[k] == Clear && LastQuery(log, q, k, no)
    ensures Erases(log, q, k, no)
  {
    forall i | q < i < k ensures ErasedAt(log, i, k) {
      assert log[k] == Clear;
      assert log[i].Record? && forall j :: i < j < k ==> log[j].Record?;
    }
    forall i | 0 <= i < k && log[i].Record? && log[i].irq > no - IRQ_BASE
      ensures PendingAt(log, i, k) <==> i > q
    {
      if i < q {
        assert PendingAt(log, i, k) ==> PendingAt(log, i, q);
        if PendingAt(log, i, q) {
          OutrankedBefore(log, q, no, i);
        }
      }
    }
  }

  lemma OutrankedBefore(log: seq<Event>, q: nat, no: Byte, i: nat)
    requires QueriesCorrect(log) && q < |log| && log[q] == Query(no) && PendingAt(log, i, q)
    ensures log[i].irq <= no - IRQ_BASE
  {
    assert QueryCorrect(log, q);
  }

  // ---------------------------------------------------------------------
  // What the guarantee depends on
  // ---------------------------------------------------------------------

  const ONE_DEVICE: map<nat, DevicePc> := map[0 := Idle]

  ghost function Start(): State { State(NO_INTR, false, Nobody, Running, ONE_DEVICE, []) }

  /** One device raising irq once, up to the CPU's assert. */
  function OneRaise(irq: Byte): seq<Action> {
    [Lock(0, irq), RecordNumber(0), Signal(0), Unlock(0), Test, QueryNumber, Assert]
  }

  ghost function OneRaiseStates(irq: Byte): seq<State> {
    var number: Byte := (irq + IRQ_BASE) % 0x100;
    var locked := Start().(mutex := Device(0), devices := map[0 := Locked(irq)]);
    var recorded := locked.(number := number, devices := map[0 := Recorded], log := [Record(irq)]);
    var signalled := recorded.(intr := true, devices := map[0 := Signalled]);
    var unlocked := signalled.(mutex := Nobody, devices := map[0 := Idle]);
    var noticed := unlocked.(cpu := Tested);
    var queried := noticed.(cpu := Queried(number), log := [Record(irq), Query(number)]);
    var asserted := queried.(cpu := if number != NO_INTR then Asserted(number) else Failed);
    [Start(), locked, recorded, signalled, unlocked, noticed, queried, asserted]
  }

  lemma OneRaiseIsRun(irqs: set<Byte>, irq: Byte)
    requires irq in irqs
    ensures IsRun(irqs, OneRaise(irq), OneRaiseStates(irq))
  {
    OneRaiseDevice(irqs, irq);
    OneRaiseCpu(irqs, irq);
  }

  lemma OneRaiseDevice(irqs: set<Byte>, irq: Byte)
    requires irq in irqs
    ensures forall i :: 0 <= i < 4 ==>
              Step(irqs, OneRaise(irq)[i], OneRaiseStates(irq)[i], OneRaiseStates(irq)[i + 1])
  {
    var a, t := OneRaise(irq), OneRaiseStates(irq);
    assert ONE_DEVICE[0 := Locked(irq)] == map[0 := Locked(irq)];
    assert t[1].devices[0 := Recorded] == t[2].devices;
    assert t[2].devices[0 := Signalled] == t[3].devices;
    assert t[3].devices[0 := Idle] == t[4].devices;
    assert Step(irqs, a[0], t[0], t[1]);
    assert Step(irqs, a[1], t[1], t[2]);
    assert Step(irqs, a[2], t[2], t[3]);
    assert Step(irqs, a[3], t[3], t[4]);
  }

  lemma OneRaiseCpu(irqs: set<Byte>, irq: Byte)
    ensures forall i :: 4 <= i < 7 ==>
              Step(irqs, OneRaise(irq)[i], OneRaiseStates(irq)[i], OneRaiseStates(irq)[i + 1])
  {
    var a, t := OneRaise(irq), OneRaiseStates(irq);
    assert Step(irqs, a[4], t[4], t[5]);
    assert Step(irqs, a[5], t[5], t[6]);
    assert Step(irqs, a[6], t[6], t[7]);
  }

  /** Such an interrupt exists: recorded between query and acknowledgement, it
      leaves neither a number nor cpu.intr behind. */
  lemma LostInterruptExample(irqs: set<Byte>) returns (actions: seq<Action>, states: seq<State>)
    requires 0 in irqs && 1 in irqs
    ensures IsRun(irqs, actions, states)
    ensures var s := states[|states| - 1];
            && s.log == [Record(0), Query(32), Record(1), Clear]
            && s.number == NO_INTR && !s.intr && s.cpu == Raising(32)
            && s.devices == ONE_DEVICE
  {
    var a, t := OneRaise(0), OneRaiseStates(0);
    OneRaiseIsRun(irqs, 0);
    var b, u := LostTail(irqs, t[7]);
    actions, states := a + b, t + u;
    forall i | 0 <= i < |actions| ensures Step(irqs, actions[i], states[i], states[i + 1]) {
      if i < 7 {
        assert Step(irqs, a[i], t[i], t[i + 1]);
      } else if i > 7 {
        assert Step(irqs, b[i - 7], u[i - 8], u[i - 7]);
      }
    }
  }

  lemma LostTail(irqs: set<Byte>, s: State) returns (actions: seq<Action>, states: seq<State>)
    requires 1 in irqs && s == OneRaiseStates(0)[7]
    ensures |actions| == |states| == 8 && Step(irqs, actions[0], s, states[0])
    ensures forall i :: 1 <= i < 8 ==> Step(irqs, actions[i], states[i - 1], states[i])
    ensures states[7] ==
              State(NO_INTR, false, Nobody, Raising(32), ONE_DEVICE, [Record(0), Query(32), Record(1), Clear])
  {
    var s0 := s.(mutex := Device(0), devices := s.devices[0 := Locked(1)]);
    var s1 := s0.(number := 33, devices := s0.devices[0 := Recorded], log := s0.log + [Record(1)]);
    var s2 := s1.(intr := true, devices := s1.devices[0 := Signalled]);
    var s3 := s2.(mutex := Nobody, devices := s2.devices[0 := Idle]);
    var s4 := s3.(mutex := Cpu, cpu := Acking(32));
    var s5 := s4.(number := NO_INTR, cpu := Cleared(32), log := s4.log + [Clear]);
    var s6 := s5.(intr := false, cpu := Acked(32));
    var s7 := s6.(mutex := Nobody, cpu := Raising(32));
    actions := [Lock(0, 1), RecordNumber(0), Signal(0), Unlock(0), AckLock, ClearNumber, ClearIntr, AckUnlock];
    states := [s0, s1, s2, s3, s4, s5, s6, s7];
    assert s7.devices == ONE_DEVICE;
  }

  ghost predicate AssertNeverFails(irqs: set<Byte>) {
    forall actions: seq<Action>, states: seq<State>, i: nat ::
      IsRun(irqs, actions, states) && i < |states| ==> states[i].cpu != Failed
  }

  ghost predicate PrioritiesKept(irqs: set<Byte>) {
    forall actions: seq<Action>, states: seq<State>, i: nat ::
      IsRun(irqs, actions, states) && i < |states| ==> QueriesCorrect(states[i].log)
  }

  /** A device that raises 223 makes the assert fail. */
  lemma AssertFailsExample(irqs: set<Byte>, irq: Byte)
    requires irq in irqs && irq == NO_INTR - IRQ_BASE
    ensures IsRun(irqs, OneRaise(irq), OneRaiseStates(irq)) && OneRaiseStates(irq)[7].cpu == Failed
  {
    OneRaiseIsRun(irqs, irq);
  }

  /** The assert of do_intr holds on every run exactly if no device raises the
      number that IRQ_BASE turns into NO_INTR. */
  lemma AssertExactly(irqs: set<Byte>)
    ensures AssertNeverFails(irqs) <==> NO_INTR - IRQ_BASE !in irqs
  {
    if NO_INTR - IRQ_BASE in irqs {
      AssertFailsExample(irqs, NO_INTR - IRQ_BASE);
      assert OneRaiseStates(NO_INTR - IRQ_BASE)[7].cpu == Failed;
    } else {
      forall actions: seq<Action>, states: seq<State>, i: nat | IsRun(irqs, actions, states) && i < |states|
        ensures states[i].cpu != Failed
      {
        RunSafe(irqs, actions, states, i);
      }
    }
  }

  /** Every dispatched number is the largest recorded one on every run exactly if
      no recorded number leaves the byte range. */
  lemma PrioritiesExactly(irqs: set<Byte>)
    ensures PrioritiesKept(irqs) <==> Small(irqs)
  {
    if Small(irqs) {
      forall actions: seq<Action>, states: seq<State>, i: nat | IsRun(irqs, actions, states) && i < |states|
        ensures QueriesCorrect(states[i].log)
      {
        RunCorrect(irqs, actions, states, i);
      }
    } else {
      var irq :| irq in irqs && irq >= NO_INTR - IRQ_BASE;
      OneRaiseIsRun(irqs, irq);
      var log := OneRaiseStates(irq)[7].log;
      var number: Byte := (irq + IRQ_BASE) % 0x100;
      assert log == [Record(irq), Query(number)] && log[1].Query?;
      assert number == NO_INTR || number - IRQ_BASE < irq;
      assert PendingAt(log, 0, 1);
      assert !QueryCorrect(log, 1);
    }
  }
}
