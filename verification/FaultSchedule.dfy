/**
 The fault schedule, said of the operations themselves
 (src/anolis/provider_sdk/i2c/fault_injecting_i2c_bus.cpp:103-135): which operation of
 a run fails, how, and how many do.
 */
module FaultSchedule {
  import opened I2cBus
  import opened FaultInjection
  import Transport

  /** The operations of a run that carry a write phase: writes, and combined operations. */
  function WritePhases(ops: seq<Op>): set<nat> {
    set i: nat | i < |ops| && (ops[i].WriteOp? || ops[i].WriteReadOp?)
  }

  /** Those that carry a read phase: reads, and combined operations. */
  function ReadPhases(ops: seq<Op>): set<nat> {
    set i: nat | i < |ops| && (ops[i].ReadOp? || ops[i].WriteReadOp?)
  }

  ghost predicate Divides(period: nat, n: nat) {
    exists q: nat :: n == q * period
  }

  lemma EveryDivides(period: U32, n: nat)
    ensures Every(period, n) <==> period > 0 && Divides(period, n)
  {
    if period > 0 {
      assert n == n / period * period + n % period;
      if q: nat :| n == q * period {
        Multiple(q, period);
      }
    }
  }

  lemma Multiple(q: nat, period: nat)
    requires period > 0
    ensures q * period % period == 0
  {
    assert (q + 1) * period == q * period + period;
    Quotient(q * period, q, period);
  }

  lemma {:induction false} PhasesCounted(ops: seq<Op>)
    ensures Writes(ops) == |WritePhases(ops)| && Reads(ops) == |ReadPhases(ops)|
  {
    if ops != [] {
      var last := |ops| - 1;
      PhasesCounted(ops[..last]);
      LastPhase(ops);
      hide WritePhases, ReadPhases;
      assert HasWrite(ops[last]) <==> !ops[last].ReadOp?;
    }
  }

  lemma LastPhase(ops: seq<Op>)
    requires ops != []
    ensures var last := |ops| - 1;
      && last !in WritePhases(ops[..last]) && last !in ReadPhases(ops[..last])
      && WritePhases(ops) == WritePhases(ops[..last]) + (if ops[last].ReadOp? then {} else {last})
      && ReadPhases(ops) == ReadPhases(ops[..last]) + (if ops[last].WriteOp? then {} else {last})
  {
    assert forall i: nat | i < |ops| - 1 :: ops[..|ops| - 1][i] == ops[i];
  }

  // ---- which operation fails, and how ------------------------------------------------------------

  /** The `k`-th operation lies in the configured window, and the window's end fits in 32 bits. */
  predicate Dropped(s: FaultSpec, k: nat) {
    s.dropAfter + s.dropFor < 0x1_0000_0000 && s.dropAfter < k <= s.dropAfter + s.dropFor
  }

  ghost predicate TimesOut(s: FaultSpec, k: nat) {
    s.timeoutEvery > 0 && Divides(s.timeoutEvery, k)
  }

  /** The operation carries a write phase, whose number in the run the NAK period divides. */
  ghost predicate Naked(s: FaultSpec, ops: seq<Op>)
    requires ops != []
  {
    !ops[|ops| - 1].ReadOp? && s.nakEvery > 0 && Divides(s.nakEvery, |WritePhases(ops)|)
  }

  ghost predicate FailsToRead(s: FaultSpec, ops: seq<Op>)
    requires ops != []
  {
    !ops[|ops| - 1].WriteOp? && s.readFailEvery > 0 && Divides(s.readFailEvery, |ReadPhases(ops)|)
  }

  /**
   The fate and the status of the last operation of any run: a dropout is a broken bus,
   a timeout times out, a NAK fails as a write, a read failure as a read, the first of
   these that is due; a pure read is never NAKed and a pure write never fails to read.
   */
  lemma ScheduleExact(s: FaultSpec, ops: seq<Op>)
    requires ops != []
    ensures var fault, k := FaultAt(s, ops), |ops|;
      && (Dropped(s, k) ==> fault == Dropout && StatusOf(fault) == Error(BrokenBus))
      && (!Dropped(s, k) && TimesOut(s, k) ==> fault == Timeout && StatusOf(fault) == Error(TimedOut))
      && (!Dropped(s, k) && !TimesOut(s, k) && Naked(s, ops) ==>
            fault == Nak && StatusOf(fault) == Error(WriteFailed))
      && (!Dropped(s, k) && !TimesOut(s, k) && !Naked(s, ops) && FailsToRead(s, ops) ==>
            fault == ReadFailure && StatusOf(fault) == Error(ReadFailed))
      && (!Dropped(s, k) && !TimesOut(s, k) && !Naked(s, ops) && !FailsToRead(s, ops) ==> fault == NoFault)
      && (ops[k - 1].ReadOp? ==> fault != Nak) && (ops[k - 1].WriteOp? ==> fault != ReadFailure)
  {
    hide Divides, Every, InWindow, Writes, Reads, WritePhases, ReadPhases, WindowLength;
    PhasesCounted(ops);
    DroppedIsWindow(s, |ops|);
    EveryDivides(s.timeoutEvery, |ops|);
    EveryDivides(s.nakEvery, Writes(ops));
    EveryDivides(s.readFailEvery, Reads(ops));
  }

  lemma DroppedIsWindow(s: FaultSpec, k: nat)
    ensures InWindow(s, k) <==> Dropped(s, k)
  {
    WindowIs(s, k);
  }

  // ---- how many fail -------------------------------------------------------------------------------

  /** NAKs of any run without window or timeouts: one in `nakEvery` of its write phases. */
  lemma {:induction false} NakClosedForm(s: FaultSpec, ops: seq<Op>)
    requires s.dropFor == 0 && s.timeoutEvery == 0 && s.nakEvery > 0
    ensures Faults(s, ops, Nak) == |WritePhases(ops)| / s.nakEvery
  {
    PhasesCounted(ops);
    if ops != [] {
      var rest := ops[..|ops| - 1];
      NakClosedForm(s, rest);
      PhasesCounted(rest);
      hide Reads, WritePhases, ReadPhases;
      if HasWrite(ops[|ops| - 1]) { MultiplesStep(Writes(ops), s.nakEvery); }
    }
  }

  /** Read failures of any run without window, timeouts or NAKs: one in `readFailEvery` of its read phases. */
  lemma {:induction false} ReadFailureClosedForm(s: FaultSpec, ops: seq<Op>)
    requires s.dropFor == 0 && s.timeoutEvery == 0 && s.nakEvery == 0 && s.readFailEvery > 0
    ensures Faults(s, ops, ReadFailure) == |ReadPhases(ops)| / s.readFailEvery
  {
    PhasesCounted(ops);
    if ops != [] {
      var rest := ops[..|ops| - 1];
      ReadFailureClosedForm(s, rest);
      PhasesCounted(rest);
      hide Writes, WritePhases, ReadPhases;
      if HasRead(ops[|ops| - 1]) { MultiplesStep(Reads(ops), s.readFailEvery); }
    }
  }

  /** In particular, of n writes in a row n / nakEvery are NAKed, and of n reads n / readFailEvery fail. */
  lemma PureRuns(s: FaultSpec, ops: seq<Op>)
    requires s.dropFor == 0 && s.timeoutEvery == 0
    ensures (forall op | op in ops :: op.WriteOp?) && s.nakEvery > 0 ==> Faults(s, ops, Nak) == |ops| / s.nakEvery
    ensures (forall op | op in ops :: op.ReadOp?) && s.nakEvery == 0 && s.readFailEvery > 0 ==>
      Faults(s, ops, ReadFailure) == |ops| / s.readFailEvery
  {
    hide Faults, WritePhases, ReadPhases;
    AllOfAKind(ops);
    PhasesCounted(ops);
    if s.nakEvery > 0 { NakClosedForm(s, ops); }
    if s.nakEvery == 0 && s.readFailEvery > 0 { ReadFailureClosedForm(s, ops); }
  }

  lemma {:induction false} AllOfAKind(ops: seq<Op>)
    ensures (forall op | op in ops :: op.WriteOp?) ==> Writes(ops) == |ops|
    ensures (forall op | op in ops :: op.ReadOp?) ==> Reads(ops) == |ops|
  {
    if ops != [] {
      AllOfAKind(ops[..|ops| - 1]);
      assert ops[|ops| - 1] in ops;
    }
  }

  // ---- the corrupted byte ------------------------------------------------------------------------------

  /** The bit of weight `p`. */
  function Bit(b: nat, p: nat): nat
    requires p > 0
  {
    b / p % 2
  }

  lemma TakenAway(a: nat, b: nat, p: nat)
    requires b <= a
    ensures (a - b) * p == a * p - b * p
  {
  }

  lemma ComplementQuotient(b: nat, p: nat, n: nat)
    requires 0 < p && b < n * p
    ensures b / p < n && (n * p - 1 - b) / p == n - 1 - b / p
  {
    var q := b / p;
    assert q * p <= b < q * p + p;
    if q >= n { ProductsOrdered(n, q, p); }
    TakenAway(q + 1, 1, p);
    TakenAway(n, q + 1, p);
    TakenAway(n - q, 1, p);
    TakenAway(n, q, p);
    Quotient(n * p - 1 - b, n - 1 - q, p);
  }

  lemma ComplementBit(b: nat, p: nat, pairs: nat)
    requires 0 < p && b < 2 * pairs * p
    ensures Bit(2 * pairs * p - 1 - b, p) == 1 - Bit(b, p)
  {
    ComplementQuotient(b, p, 2 * pairs);
    Parity(b / p, pairs);
  }

  lemma Parity(q: nat, pairs: nat)
    requires q < 2 * pairs
    ensures (2 * pairs - 1 - q) % 2 == 1 - q % 2
  {
  }

  /** Corruption turns over every bit of the first byte, and leaves the other bytes alone. */
  lemma CorruptionFlips(buffer: seq<Transport.Byte>)
    requires buffer != []
    ensures forall p | p in {1, 2, 4, 8, 16, 32, 64, 128} :: Bit(Corrupted(buffer, true)[0], p) == 1 - Bit(buffer[0], p)
    ensures Corrupted(buffer, true)[1..] == buffer[1..]
  {
    hide Bit;
    var b := buffer[0];
    ComplementBit(b, 1, 128);
    ComplementBit(b, 2, 64);
    ComplementBit(b, 4, 32);
    ComplementBit(b, 8, 16);
    ComplementBit(b, 16, 8);
    ComplementBit(b, 32, 4);
    ComplementBit(b, 64, 2);
    ComplementBit(b, 128, 1);
  }
}
