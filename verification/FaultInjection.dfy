/**
 The fault-injecting bus decorator (src/anolis/provider_sdk/i2c/fault_injecting_i2c_bus.cpp:86-193).
 Its inner bus is a LinuxI2cBus over an arbitrary device; the 64-bit counters are
 unbounded, the 32-bit sum of the dropout window wraps as in the source.
 */
module FaultInjection {
  import opened Base
  import opened Transport
  import opened I2cBus

  type U32 = n: int | 0 <= n < 0x1_0000_0000

  datatype FaultSpec = FaultSpec(
    pad: U32,
    padByte: Byte,
    shortEvery: U32,
    corruptEvery: U32,
    nakEvery: U32,
    readFailEvery: U32,
    timeoutEvery: U32,
    dropAfter: U32,
    dropFor: U32)

  datatype Injected = NoFault | Dropout | Timeout | Nak | ReadFailure

  function StatusOf(f: Injected): Status {
    match f
    case NoFault => Success
    case Dropout => Error(BrokenBus)
    case Timeout => Error(TimedOut)
    case Nak => Error(WriteFailed)
    case ReadFailure => Error(ReadFailed)
  }

  predicate HasWrite(op: Op) { !op.ReadOp? }

  predicate HasRead(op: Op) { !op.WriteOp? }

  // ---- the schedule, as a function of the operations so far --------------------------------------

  function Writes(ops: seq<Op>): nat {
    if ops == [] then 0 else Writes(ops[..|ops| - 1]) + if HasWrite(ops[|ops| - 1]) then 1 else 0
  }

  function Reads(ops: seq<Op>): nat {
    if ops == [] then 0 else Reads(ops[..|ops| - 1]) + if HasRead(ops[|ops| - 1]) then 1 else 0
  }

  predicate Every(period: U32, count: nat) {
    period > 0 && count % period == 0
  }

  /** Operations (dropAfter, dropAfter + dropFor], the sum taken in 32 bits. */
  predicate InWindow(s: FaultSpec, k: nat) {
    s.dropFor > 0 && k > s.dropAfter && k <= (s.dropAfter + s.dropFor) % 0x1_0000_0000
  }

  /** What happens to the last of `ops`: it depends on the counts alone, dropout first, read failure last. */
  function FaultAt(s: FaultSpec, ops: seq<Op>): Injected
    requires ops != []
  {
    var op := ops[|ops| - 1];
    if InWindow(s, |ops|) then Dropout
    else if Every(s.timeoutEvery, |ops|) then Timeout
    else if HasWrite(op) && Every(s.nakEvery, Writes(ops)) then Nak
    else if HasRead(op) && Every(s.readFailEvery, Reads(ops)) then ReadFailure
    else NoFault
  }

  /** The operations the inner bus should see: those without a fault. */
  function Passed(s: FaultSpec, ops: seq<Op>): seq<Op> {
    if ops == [] then []
    else Passed(s, ops[..|ops| - 1]) + if FaultAt(s, ops) == NoFault then [ops[|ops| - 1]] else []
  }

  /** The addresses of the operations that were failed here. */
  function Faulted(s: FaultSpec, ops: seq<Op>): seq<Byte> {
    if ops == [] then []
    else Faulted(s, ops[..|ops| - 1]) + if FaultAt(s, ops) == NoFault then [] else [ops[|ops| - 1].address]
  }

  function Faults(s: FaultSpec, ops: seq<Op>, f: Injected): nat {
    if ops == [] then 0
    else Faults(s, ops[..|ops| - 1], f) + if FaultAt(s, ops) == f then 1 else 0
  }

  /** Every operation either reaches the inner bus or is one of the four kinds of fault. */
  lemma {:induction false} FaultsPartition(s: FaultSpec, ops: seq<Op>)
    ensures |Passed(s, ops)| + |Faulted(s, ops)| == |ops|
    ensures |Faulted(s, ops)| ==
      Faults(s, ops, Dropout) + Faults(s, ops, Timeout) + Faults(s, ops, Nak) + Faults(s, ops, ReadFailure)
  {
    if ops != [] { FaultsPartition(s, ops[..|ops| - 1]); }
  }

  function Min(a: int, b: int): int {
    if a < b then a else b
  }

  /** How long the window really is: nothing is left of it when its 32-bit end wraps. */
  function WindowLength(s: FaultSpec): U32 {
    if s.dropAfter + s.dropFor < 0x1_0000_0000 then s.dropFor else 0
  }

  lemma WindowIs(s: FaultSpec, k: nat)
    ensures InWindow(s, k) <==> s.dropAfter < k <= s.dropAfter + WindowLength(s)
  {
    if s.dropAfter + s.dropFor >= 0x1_0000_0000 {
      assert (s.dropAfter + s.dropFor) % 0x1_0000_0000 == s.dropAfter + s.dropFor - 0x1_0000_0000;
    }
  }

  /** Dropouts after n operations: the overlap of [1, n] with the window. */
  lemma {:induction false} DropoutClosedForm(s: FaultSpec, ops: seq<Op>)
    ensures Faults(s, ops, Dropout) == Min(|ops|, s.dropAfter + WindowLength(s)) - Min(|ops|, s.dropAfter)
  {
    hide InWindow, WindowLength;
    if ops != [] {
      DropoutClosedForm(s, ops[..|ops| - 1]);
      WindowIs(s, |ops|);
    }
  }

  /** What the configuration promises: operations (A, A + F] drop out. */
  predicate DropoutsAsConfigured(s: FaultSpec, ops: seq<Op>) {
    Faults(s, ops, Dropout) == Min(|ops|, s.dropAfter + s.dropFor) - Min(|ops|, s.dropAfter)
  }

  /** Every run drops out as configured exactly when the window's end fits in 32 bits (or there is none). */
  lemma DropoutExact(s: FaultSpec)
    ensures (forall ops :: DropoutsAsConfigured(s, ops)) <==>
      s.dropFor == 0 || s.dropAfter + s.dropFor < 0x1_0000_0000
  {
    hide Faults;
    forall ops ensures Faults(s, ops, Dropout) ==
      Min(|ops|, s.dropAfter + WindowLength(s)) - Min(|ops|, s.dropAfter) {
      DropoutClosedForm(s, ops);
    }
    if s.dropFor != 0 && s.dropAfter + s.dropFor >= 0x1_0000_0000 {
      var ops := seq(s.dropAfter + 1, _ => ReadOp(0, 1));
      assert !DropoutsAsConfigured(s, ops);
    }
  }

  /** When the 32-bit sum wraps, no operation of any run drops out. */
  lemma WrappedNeverDrops(s: FaultSpec, ops: seq<Op>)
    requires s.dropAfter + s.dropFor >= 0x1_0000_0000
    ensures Faults(s, ops, Dropout) == 0
  {
    hide Faults;
    DropoutClosedForm(s, ops);
  }

  lemma Quotient(n: nat, q: nat, period: nat)
    requires period > 0 && q * period <= n < (q + 1) * period
    ensures n / period == q
  {
    var r := n / period;
    if r < q { ProductsOrdered(r + 1, q, period); }
    if r > q { ProductsOrdered(q + 1, r, period); }
  }

  lemma ProductsOrdered(a: nat, b: nat, period: nat)
    requires a <= b
    ensures a * period <= b * period
  {
  }

  lemma MultiplesStep(n: nat, period: nat)
    requires n > 0 && period > 0
    ensures n / period == (n - 1) / period + if n % period == 0 then 1 else 0
  {
    var q := n / period;
    assert n == q * period + n % period;
    if n % period == 0 {
      assert q > 0;
      assert (q - 1) * period == n - period;
      Quotient(n - 1, q - 1, period);
    } else {
      assert (q + 1) * period == q * period + period;
      Quotient(n - 1, q, period);
    }
  }

  /** Multiples of `period` in [1, n] outside the window (after, after + length]. */
  function MultiplesOutside(n: nat, period: nat, after: nat, length: nat): int
    requires period > 0
  {
    n / period - (Min(n, after + length) / period - Min(n, after) / period)
  }

  lemma OutsideStep(n: nat, period: nat, after: nat, length: nat)
    requires n > 0 && period > 0
    ensures MultiplesOutside(n, period, after, length) == MultiplesOutside(n - 1, period, after, length) +
      if n % period == 0 && !(after < n <= after + length) then 1 else 0
  {
    MultiplesStep(n, period);
  }

  lemma TimeoutStep(s: FaultSpec, ops: seq<Op>)
    requires ops != [] && s.timeoutEvery > 0
    ensures FaultAt(s, ops) == Timeout <==>
      |ops| % s.timeoutEvery == 0 && !(s.dropAfter < |ops| <= s.dropAfter + WindowLength(s))
  {
    hide Writes, Reads, InWindow, WindowLength;
    WindowIs(s, |ops|);
  }

  /** Timeouts after n operations: the multiples of the period up to n, less those inside the window. */
  lemma {:induction false} TimeoutClosedForm(s: FaultSpec, ops: seq<Op>)
    requires s.timeoutEvery > 0
    ensures Faults(s, ops, Timeout) == MultiplesOutside(|ops|, s.timeoutEvery, s.dropAfter, WindowLength(s))
  {
    hide FaultAt, MultiplesOutside, WindowLength;
    if ops == [] {
      NoMultiples(s.timeoutEvery, s.dropAfter, WindowLength(s));
    } else {
      TimeoutClosedForm(s, ops[..|ops| - 1]);
      OutsideStep(|ops|, s.timeoutEvery, s.dropAfter, WindowLength(s));
      TimeoutStep(s, ops);
    }
  }

  lemma NoMultiples(period: nat, after: nat, length: nat)
    requires period > 0
    ensures MultiplesOutside(0, period, after, length) == 0
  {
  }

  /** Without a window, or with one whose end wraps, that is simply n / period. */
  lemma TimeoutsUnwindowed(s: FaultSpec, ops: seq<Op>)
    requires s.timeoutEvery > 0 && (s.dropFor == 0 || s.dropAfter + s.dropFor >= 0x1_0000_0000)
    ensures Faults(s, ops, Timeout) == |ops| / s.timeoutEvery
  {
    hide Faults;
    TimeoutClosedForm(s, ops);
  }

  // ---- mutating a successful read ------------------------------------------------------------------

  function Corrupted(buffer: seq<Byte>, on: bool): (r: seq<Byte>)
    requires on ==> buffer != []
    ensures |r| == |buffer|
  {
    if on then [255 - buffer[0]] + buffer[1..] else buffer
  }

  /** The buffer and the count after `mutate_read`, the `nth` read phase having returned `received` bytes. */
  function Mutated(s: FaultSpec, nth: nat, buffer: seq<Byte>, rxLen: nat, received: nat): (r: (seq<Byte>, nat))
    requires rxLen <= |buffer| && 0 < received <= rxLen
    ensures |r.0| == |buffer|
  {
    var b := Corrupted(buffer, Every(s.corruptEvery, nth));
    var kept := received - if Every(s.shortEvery, nth) then 1 else 0;
    var add := Min(s.pad, rxLen - kept);
    (b[..kept] + seq(add, _ => s.padByte) + b[kept + add..], kept + add)
  }

  /** Byte by byte: what was kept, what was added, and the rest. */
  lemma MutatedAt(s: FaultSpec, nth: nat, buffer: seq<Byte>, rxLen: nat, received: nat)
    requires rxLen <= |buffer| && 0 < received <= rxLen
    ensures var (after, count) := Mutated(s, nth, buffer, rxLen, received);
      var b := Corrupted(buffer, Every(s.corruptEvery, nth));
      var kept := received - if Every(s.shortEvery, nth) then 1 else 0;
      && count == kept + Min(s.pad, rxLen - kept) && |b| == |buffer|
      && (forall i | 0 <= i < kept :: after[i] == b[i])
      && (forall i | kept <= i < count :: after[i] == s.padByte)
      && (forall i | count <= i < |buffer| :: after[i] == b[i])
  {
    hide Every, Corrupted;
  }

  /**
   The count becomes min(received - short + pad, rxLen); nothing past rxLen is touched;
   no kept byte changes except possibly the first; what was added is the pad byte.
   */
  lemma MutationBounds(s: FaultSpec, nth: nat, buffer: seq<Byte>, rxLen: nat, received: nat)
    requires rxLen <= |buffer| && 0 < received <= rxLen
    ensures var (after, count) := Mutated(s, nth, buffer, rxLen, received);
      var short := if Every(s.shortEvery, nth) then 1 else 0;
      && count == Min(received - short + s.pad, rxLen)
      && after[rxLen..] == buffer[rxLen..]
      && (forall i | 1 <= i < received - short :: after[i] == buffer[i])
      && (!Every(s.corruptEvery, nth) ==> after[..received - short] == buffer[..received - short])
      && (Every(s.corruptEvery, nth) && received - short > 0 ==> after[0] != buffer[0])
      && (forall i | received - short <= i < count :: after[i] == s.padByte)
      && (forall i | 1 <= i && count <= i < |buffer| :: after[i] == buffer[i])
  {
    MutatedAt(s, nth, buffer, rxLen, received);
    hide Every, Mutated;
    var (after, count) := Mutated(s, nth, buffer, rxLen, received);
    assert forall i | rxLen <= i < |buffer| :: after[i] == buffer[i];
  }

  lemma NotCorrupted(buffer: seq<Byte>)
    ensures Corrupted(buffer, false) == buffer
  {
  }

  lemma NoPad(buffer: seq<Byte>, n: nat, pad: Byte)
    requires n <= |buffer|
    ensures buffer[..n] + seq(0, _ => pad) + buffer[n + 0..] == buffer
  {
  }

  function WithCount(m: (seq<Byte>, nat)): (seq<Byte>, Option<nat>) {
    (m.0, Some(m.1))
  }

  // ---- the decorator ---------------------------------------------------------------------------------

  /** Injected faults are booked as failures of one attempt, and nothing else. */
  ghost predicate OnlyFailures(stats: map<Byte, IoStats>) {
    forall a: Byte :: StatsOf(stats, a).ok == 0 && StatsOf(stats, a).retried == 0
  }

  lemma FaultBooked(stats: map<Byte, IoStats>, faulted: seq<Byte>, address: Byte)
    requires Conserved(stats, faulted) && OnlyFailures(stats)
    ensures var after := Booked(stats, address, false, 1); Conserved(after, faulted + [address]) && OnlyFailures(after)
  {
    hide Tally;
    BookingConserves(stats, faulted, address, false, 1);
    assert Times(address, 1) == [address];
    forall a: Byte ensures var t := StatsOf(Booked(stats, address, false, 1), a); t.ok == 0 && t.retried == 0 {
      assert StatsOf(stats, a).ok == 0 && StatsOf(stats, a).retried == 0;
    }
  }

  lemma HistoryStep(s: FaultSpec, ops: seq<Op>, op: Op)
    ensures var after := ops + [op];
      && Writes(after) == Writes(ops) + (if HasWrite(op) then 1 else 0)
      && Reads(after) == Reads(ops) + (if HasRead(op) then 1 else 0)
      && Passed(s, after) == (if FaultAt(s, after) == NoFault then Passed(s, ops) + [op] else Passed(s, ops))
      && Faulted(s, after) == (if FaultAt(s, after) == NoFault then Faulted(s, ops) else Faulted(s, ops) + [op.address])
  {
    assert (ops + [op])[..|ops|] == ops;
  }

  class FaultInjectingI2cBus {
    const inner: LinuxI2cBus
    const spec: FaultSpec
    const faultCounters: IoStatsMap
    var opCount: nat
    var writeCount: nat
    var readCount: nat
    ghost var history: seq<Op>   // every operation asked of the decorator
    ghost const before: seq<Op>  // what the inner bus had done when it was wrapped

    /** The counts advance with every operation, and the injected faults are all on the books. */
    ghost predicate Counted()
      reads this, inner, inner.counters, faultCounters
    {
      && faultCounters != inner.counters
      && opCount == |history| && writeCount == Writes(history) && readCount == Reads(history)
      && inner.Valid()
      && Conserved(faultCounters.stats, Faulted(spec, history))
      && OnlyFailures(faultCounters.stats)
    }

    /** Over every run: the inner bus has received exactly the operations without a fault, in order. */
    ghost predicate Valid()
      reads this, inner, inner.counters, faultCounters
    {
      Counted() && inner.operations == before + Passed(spec, history)
    }

    constructor (inner: LinuxI2cBus, spec: FaultSpec)
      requires inner.Valid()
      ensures Valid() && history == [] && this.inner == inner && this.spec == spec && fresh(faultCounters)
    {
      this.inner, this.spec, before := inner, spec, inner.operations;
      faultCounters := new IoStatsMap();
      opCount, writeCount, readCount, history := 0, 0, 0, [];
    }

    /** The decorator's counters: the inner bus's own, plus one failure for each fault injected here. */
    method IoStatsFor(address: Byte) returns (r: IoStats)
      requires Valid()
      ensures r.Total() == Tally(inner.attempted, address) + Tally(Faulted(spec, history), address)
      ensures r.ok == inner.counters.StatsFor(address).ok && r.retried == inner.counters.StatsFor(address).retried
    {
      hide Tally, Writes, Reads, Passed, Faulted;
      var actual, injected := inner.counters.StatsFor(address), faultCounters.StatsFor(address);
      r := IoStats(actual.ok + injected.ok, actual.failed + injected.failed, actual.retried + injected.retried);
    }

    /** Advances the counts and decides the operation's fate. */
    method PreOp(op: Op) returns (f: Injected)
      requires Valid()
      modifies this`opCount, this`writeCount, this`readCount, this`history, faultCounters
      ensures history == old(history) + [op] && f == FaultAt(spec, history)
      ensures Counted()
      ensures inner.operations + (if f == NoFault then [op] else []) == before + Passed(spec, history)
    {
      hide Writes, Reads, Passed, Faulted, Conserved, OnlyFailures, Booked, LinuxI2cBus.Valid;
      var writePhase, readPhase := HasWrite(op), HasRead(op);
      HistoryStep(spec, history, op);
      ghost var faulted := Faulted(spec, history);
      opCount := opCount + 1;
      if writePhase {
        writeCount := writeCount + 1;
      }
      if readPhase {
        readCount := readCount + 1;
      }
      history := history + [op];
      f := NoFault;
      if spec.dropFor > 0 && opCount > spec.dropAfter
         && opCount <= (spec.dropAfter + spec.dropFor) % 0x1_0000_0000 {
        f := Dropout;
      } else if spec.timeoutEvery > 0 && opCount % spec.timeoutEvery == 0 {
        f := Timeout;
      } else if writePhase && spec.nakEvery > 0 && writeCount % spec.nakEvery == 0 {
        f := Nak;
      } else if readPhase && spec.readFailEvery > 0 && readCount % spec.readFailEvery == 0 {
        f := ReadFailure;
      }
      assert f == FaultAt(spec, history);
      if f != NoFault {
        FaultBooked(faultCounters.stats, faulted, op.address);
        faultCounters.Record(op.address, false, 1);
      }
    }

    method AppendPad(rx: array<Byte>, kept: nat, add: nat)
      requires kept + add <= rx.Length
      modifies rx
      ensures rx[..] == old(rx[..kept]) + seq(add, _ => spec.padByte) + old(rx[kept + add..])
    {
      for i := 0 to add
        invariant forall j | 0 <= j < rx.Length ::
          rx[j] == if kept <= j < kept + i then spec.padByte else old(rx[j])
      {
        rx[kept + i] := spec.padByte;
      }
    }

    method FlipFirst(rx: array<Byte>)
      requires rx.Length > 0
      modifies rx
      ensures rx[..] == Corrupted(old(rx[..]), true)
    {
      rx[0] := 255 - rx[0];
    }

    /** `received` is the count the caller keeps, if it asked for one. */
    method MutateRead(rx: array<Byte>, rxLen: nat, received: Option<nat>) returns (count: Option<nat>)
      requires rxLen <= rx.Length && readCount == Reads(history)
      requires received.Some? ==> received.value <= rxLen
      modifies rx
      ensures received.Some? && received.value > 0 ==>
        (rx[..], count) == WithCount(Mutated(spec, Reads(history), old(rx[..]), rxLen, received.value))
      ensures received.None? || received.value == 0 ==> rx[..] == old(rx[..]) && count == received
    {
      hide Reads, Corrupted;
      if received.None? || received.value == 0 {
        return received;
      }
      var n := received.value;
      if spec.corruptEvery > 0 && readCount % spec.corruptEvery == 0 {
        FlipFirst(rx);
      } else {
        NotCorrupted(rx[..]);
      }
      ghost var b := rx[..];
      assert b == Corrupted(old(rx[..]), Every(spec.corruptEvery, readCount));
      if spec.shortEvery > 0 && readCount % spec.shortEvery == 0 && n > 0 {
        n := n - 1;
      }
      var room := if rxLen > n then rxLen - n else 0;
      var add := if spec.pad < room then spec.pad else room;
      if spec.pad > 0 {
        AppendPad(rx, n, add);
      } else {
        NoPad(rx[..], n, spec.padByte);
      }
      return Some(n + add);
    }

    /** A faulted write never reaches the inner bus; any other is the inner bus's own. */
    method Write(address: Byte, tx: seq<Byte>) returns (status: Status, ghost n: nat)
      requires Valid()
      modifies this, inner, inner.counters, faultCounters
      ensures Valid() && history == old(history) + [WriteOp(address, tx)]
      ensures inner.attempted == old(inner.attempted) + Times(address, n)
      ensures FaultAt(spec, history) != NoFault ==> n == 0 && status == StatusOf(FaultAt(spec, history))
      ensures inner.isOpen == old(inner.isOpen)
      ensures FaultAt(spec, history) == NoFault ==> (n == 0 <==> !inner.isOpen || tx == [])
      ensures FaultAt(spec, history) == NoFault && n == 0 ==>
        status == Error(if inner.isOpen then BadArgument else NotOpen)
      ensures FaultAt(spec, history) == NoFault && n > 0 ==>
        && FollowsRetries(inner.device.ioctl, |old(inner.attempted)|, n, inner.retryCount + 1)
        && status == if inner.device.ioctl(|old(inner.attempted)| + n - 1).Done? then Success else Error(WriteFailed)
    {
      hide FaultAt, Writes, Reads, Passed, Faulted, Conserved, OnlyFailures, Booked, FollowsRetries;
      n := 0;
      assert inner.attempted + Times(address, 0) == inner.attempted;
      var fault := PreOp(WriteOp(address, tx));
      if fault != NoFault {
        return StatusOf(fault), n;
      }
      status, n := inner.Write(address, tx);
    }

    method Read(address: Byte, rx: array<Byte>, rxLen: nat, timeoutMicros: nat, wantCount: bool)
      returns (status: Status, received: Option<nat>, ghost n: nat)
      requires Valid() && rxLen <= rx.Length
      modifies this, inner, inner.counters, faultCounters, rx
      ensures Valid() && history == old(history) + [ReadOp(address, rxLen)]
      ensures inner.attempted == old(inner.attempted) + Times(address, n)
      ensures FaultAt(spec, history) != NoFault ==> n == 0 && status == StatusOf(FaultAt(spec, history))
      ensures inner.isOpen == old(inner.isOpen)
      ensures FaultAt(spec, history) == NoFault ==> (n == 0 <==> !inner.isOpen || rxLen == 0)
      ensures FaultAt(spec, history) == NoFault && n == 0 ==>
        status == Error(if inner.isOpen then BadArgument else NotOpen)
      ensures FaultAt(spec, history) == NoFault && n > 0 ==>
        status == if inner.device.ioctl(|old(inner.attempted)| + n - 1).Done? then Success else Error(TimedOut)
      ensures !status.Success? ==> rx[..] == old(rx[..]) && received == None
      ensures status.Success? ==> n > 0 && inner.device.ioctl(|old(inner.attempted)| + n - 1).Done?
      ensures status.Success? ==>
        MutatedRead(spec, Reads(history), old(rx[..]), inner.device.ioctl(|old(inner.attempted)| + n - 1).rx, rxLen,
                    wantCount, rx[..], received)
    {
      hide FaultAt, Writes, Reads, Passed, Faulted, Conserved, OnlyFailures, Booked, Mutated, Stored;
      n := 0;
      received := None;
      assert inner.attempted + Times(address, 0) == inner.attempted;
      var fault := PreOp(ReadOp(address, rxLen));
      if fault != NoFault {
        return StatusOf(fault), None, n;
      }
      status, received, n := inner.Read(address, rx, rxLen, timeoutMicros, wantCount);
      if status.Success? {
        received := MutateRead(rx, rxLen, received);
      }
    }

    method WriteThenRead(address: Byte, tx: seq<Byte>, rx: array<Byte>, rxLen: nat, wantCount: bool)
      returns (status: Status, received: Option<nat>, ghost n: nat)
      requires Valid() && rxLen <= rx.Length
      modifies this, inner, inner.counters, faultCounters, rx
      ensures Valid() && history == old(history) + [WriteReadOp(address, tx, rxLen)]
      ensures inner.attempted == old(inner.attempted) + Times(address, n)
      ensures FaultAt(spec, history) != NoFault ==> n == 0 && status == StatusOf(FaultAt(spec, history))
      ensures inner.isOpen == old(inner.isOpen)
      ensures FaultAt(spec, history) == NoFault ==> (n == 0 <==> !inner.isOpen || (tx == [] && rxLen == 0))
      ensures FaultAt(spec, history) == NoFault && n == 0 ==>
        status == Error(if inner.isOpen then BadArgument else NotOpen)
      ensures FaultAt(spec, history) == NoFault && n > 0 ==>
        && FollowsRetries(inner.device.ioctl, |old(inner.attempted)|, n, inner.retryCount + 1)
        && status == if inner.device.ioctl(|old(inner.attempted)| + n - 1).Done? then Success else Error(BrokenBus)
      ensures !status.Success? ==> rx[..] == old(rx[..]) && received == None
      ensures status.Success? ==> n > 0 && inner.device.ioctl(|old(inner.attempted)| + n - 1).Done?
      ensures status.Success? ==>
        MutatedRead(spec, Reads(history), old(rx[..]), inner.device.ioctl(|old(inner.attempted)| + n - 1).rx, rxLen,
                    wantCount, rx[..], received)
    {
      hide FaultAt, Writes, Reads, Passed, Faulted, Conserved, OnlyFailures, Booked, FollowsRetries, Mutated, Stored;
      n := 0;
      received := None;
      assert inner.attempted + Times(address, 0) == inner.attempted;
      var fault := PreOp(WriteReadOp(address, tx, rxLen));
      if fault != NoFault {
        return StatusOf(fault), None, n;
      }
      status, received, n := inner.WriteThenRead(address, tx, rx, rxLen, wantCount);
      if status.Success? {
        received := MutateRead(rx, rxLen, received);
      }
    }
  }

  /** A successful read leaves what the device stored, mutated when the caller asked for the count. */
  predicate MutatedRead(s: FaultSpec, nth: nat, buffer: seq<Byte>, sent: seq<Byte>, rxLen: nat, wantCount: bool,
                        after: seq<Byte>, received: Option<nat>)
    requires rxLen <= |buffer|
  {
    var stored := Stored(buffer, sent, rxLen);
    if wantCount && rxLen > 0
    then (after, received) == WithCount(Mutated(s, nth, stored, rxLen, rxLen))
    else after == stored && received == if wantCount then Some(rxLen) else None
  }
}
