/**
 The Linux I2C bus: bounded retries, the deadline poll, and the per-address counters
 (src/anolis/provider_sdk/i2c/linux_i2c_bus.cpp:14-213, src/anolis/provider_sdk/i2c/io_stats.hpp:30-69). The
 ioctl and the steady clock are oracles; counters are unbounded.
 */
module I2cBus {
  import opened Base
  import opened Transport

  datatype IoStats = IoStats(ok: nat, failed: nat, retried: nat) {
    /** Attempts an operation's counters account for. */
    function Total(): nat { ok + failed + retried }
  }

  const NO_STATS := IoStats(0, 0, 0)

  function Recorded(s: IoStats, ok: bool, attempts: int): IoStats {
    var retries := if attempts > 1 then attempts - 1 else 0;
    IoStats(s.ok + if ok then 1 else 0, s.failed + if ok then 0 else 1, s.retried + retries)
  }

  function StatsOf(stats: map<Byte, IoStats>, address: Byte): IoStats {
    if address in stats then stats[address] else NO_STATS
  }

  /** The counters after one operation on `address`; the other addresses keep theirs. */
  function Booked(stats: map<Byte, IoStats>, address: Byte, ok: bool, attempts: int): map<Byte, IoStats> {
    stats[address := Recorded(StatsOf(stats, address), ok, attempts)]
  }

  lemma BookedStats(stats: map<Byte, IoStats>, address: Byte, ok: bool, attempts: int, a: Byte)
    ensures StatsOf(Booked(stats, address, ok, attempts), a) ==
      if a == address then Recorded(StatsOf(stats, address), ok, attempts) else StatsOf(stats, a)
  {
    hide Recorded;
  }

  class IoStatsMap {
    var stats: map<Byte, IoStats>

    constructor ()
      ensures stats == map[]
    {
      stats := map[];
    }

    function StatsFor(address: Byte): IoStats
      reads this
    {
      StatsOf(stats, address)
    }

    method Record(address: Byte, ok: bool, attempts: int)
      modifies this
      ensures stats == Booked(old(stats), address, ok, attempts)
    {
      var s := if address in stats then stats[address] else NO_STATS;
      if ok {
        s := s.(ok := s.ok + 1);
      } else {
        s := s.(failed := s.failed + 1);
      }
      s := s.(retried := s.retried + if attempts > 1 then attempts - 1 else 0);
      stats := stats[address := s];
    }
  }

  /** An operation of at least one attempt adds exactly its attempts to the total. */
  lemma RecordedTotal(s: IoStats, ok: bool, attempts: int)
    requires attempts >= 1
    ensures Recorded(s, ok, attempts).Total() == s.Total() + attempts
  {
  }

  // ---- the device, as the bus sees it ------------------------------------------------------------

  datatype Errno = EINTR | EAGAIN | OtherErrno(number: int)

  /** What one I2C_RDWR attempt did: the bytes read, or the errno. */
  datatype Attempt = Done(rx: seq<Byte>) | Failure(errno: Errno)

  predicate IsTransient(a: Attempt) {
    a.Failure? && (a.errno.EINTR? || a.errno.EAGAIN?)
  }

  /** The k-th attempt's outcome and duration, and how far past its 200 microseconds the k-th sleep runs. */
  datatype Device = Device(ioctl: nat -> Attempt, duration: nat -> nat, oversleep: nat -> nat)

  const NANOS_PER_MICRO := 1000
  const POLL_MICROS := 200

  datatype BusError = NotOpen | OpenFailed | BadArgument | WriteFailed | ReadFailed | TimedOut | BrokenBus

  datatype Status = Success | Error(error: BusError)

  datatype Op =
    | WriteOp(address: Byte, tx: seq<Byte>)
    | ReadOp(address: Byte, rxLen: nat)
    | WriteReadOp(address: Byte, tx: seq<Byte>, rxLen: nat)

  function Times(address: Byte, n: nat): seq<Byte> {
    seq(n, _ => address)
  }

  /** `n` attempts from the `first` on follow the retry rule: stop at the first that is not transient, or at the limit. */
  predicate FollowsRetries(ioctl: nat -> Attempt, first: nat, n: nat, limit: nat) {
    && 1 <= n <= limit
    && (forall j | first <= j < first + n - 1 :: IsTransient(ioctl(j)))
    && (n == limit || !IsTransient(ioctl(first + n - 1)))
  }

  lemma NoEarlierStop(ioctl: nat -> Attempt, first: nat, m: nat, n: nat, limit: nat)
    requires FollowsRetries(ioctl, first, m, limit) && m < n
    ensures !FollowsRetries(ioctl, first, n, limit)
  {
    if n <= limit { assert !IsTransient(ioctl(first + m - 1)); }
  }

  /** The rule fixes the number of attempts. */
  lemma RetriesUnique(ioctl: nat -> Attempt, first: nat, m: nat, n: nat, limit: nat)
    requires FollowsRetries(ioctl, first, m, limit) && FollowsRetries(ioctl, first, n, limit)
    ensures m == n
  {
    hide FollowsRetries;
    if m < n { NoEarlierStop(ioctl, first, m, n, limit); }
    if n < m { NoEarlierStop(ioctl, first, n, m, limit); }
  }

  /** The length a message asks of the device: `msg.len` has 16 bits. */
  function Asked(n: nat): (k: nat)
    ensures k <= n
  {
    n % 0x1_0000
  }

  /** The buffer after the kernel stored what the device sent: at most the bytes asked for. */
  function Stored(buffer: seq<Byte>, rx: seq<Byte>, n: nat): (r: seq<Byte>)
    requires n <= |buffer|
    ensures |r| == |buffer|
  {
    var m := if |rx| < Asked(n) then |rx| else Asked(n);
    rx[..m] + buffer[m..]
  }

  /**
   A successful read reports `n` bytes. From a device that sends enough, that is the
   number stored, whatever the buffer held, exactly when `n` fits the 16-bit length. At
   65536 nothing at all is stored.
   */
  lemma ReportedIsStored(n: nat)
    ensures (forall buffer: seq<Byte>, rx: seq<Byte> | |buffer| == n <= |rx| :: Stored(buffer, rx, n) == rx[..n]) <==>
      n < 0x1_0000
    ensures forall buffer: seq<Byte>, rx: seq<Byte> | |buffer| == 0x1_0000 :: Stored(buffer, rx, 0x1_0000) == buffer
  {
    if n >= 0x1_0000 {
      var buffer: seq<Byte>, rx: seq<Byte> := seq(n, _ => 0), seq(n, _ => 1);
      assert Stored(buffer, rx, n)[n - 1] == 0;
      assert Stored(buffer, rx, n) != rx[..n];
    }
  }

  /** Address by address, the counters account for exactly the attempts issued. */
  ghost predicate Conserved(stats: map<Byte, IoStats>, attempted: seq<Byte>) {
    forall a: Byte :: StatsOf(stats, a).Total() == Tally(attempted, a)
  }

  /** How many attempts went to `address`. */
  function Tally(attempted: seq<Byte>, address: Byte): nat {
    if attempted == [] then 0
    else Tally(attempted[..|attempted| - 1], address) + if attempted[|attempted| - 1] == address then 1 else 0
  }

  lemma TallySnoc(attempted: seq<Byte>, last: Byte, address: Byte)
    ensures Tally(attempted + [last], address) == Tally(attempted, address) + if last == address then 1 else 0
  {
    assert (attempted + [last])[..|attempted|] == attempted;
  }

  lemma {:induction false} TallyTimes(attempted: seq<Byte>, to: Byte, n: nat, address: Byte)
    ensures Tally(attempted + Times(to, n), address) == Tally(attempted, address) + if to == address then n else 0
  {
    if n == 0 {
      assert attempted + Times(to, 0) == attempted;
    } else {
      TallyTimes(attempted, to, n - 1, address);
      TallySnoc(attempted + Times(to, n - 1), to, address);
      assert attempted + Times(to, n) == attempted + Times(to, n - 1) + [to];
    }
  }

  lemma BookingConserves(stats: map<Byte, IoStats>, attempted: seq<Byte>, address: Byte, ok: bool, n: nat)
    requires Conserved(stats, attempted) && n >= 1
    ensures Conserved(Booked(stats, address, ok, n), attempted + Times(address, n))
  {
    hide Tally, Recorded, Booked;
    RecordedTotal(StatsOf(stats, address), ok, n);
    forall a: Byte
      ensures StatsOf(Booked(stats, address, ok, n), a).Total() == Tally(attempted + Times(address, n), a)
    {
      TallyTimes(attempted, address, n, a);
      BookedStats(stats, address, ok, n, a);
      assert StatsOf(stats, a).Total() == Tally(attempted, a);
    }
  }

  // ---- the poll ------------------------------------------------------------------------------

  /**
   The steady clock when the k-th attempt of a poll begun at `start` has been answered,
   its attempts being the `first`-th on: between two attempts the bus sleeps at least 200
   microseconds.
   */
  function ClockAfter(device: Device, start: nat, first: nat, k: nat): nat {
    if k == 0 then start
    else
      var before := ClockAfter(device, start, first, k - 1);
      (if k == 1 then before else before + 200_000 + device.oversleep(k - 1)) + device.duration(first + k - 1)
  }

  /** The k-th attempt fails, answered before the deadline, so that another follows. */
  predicate PollGoesOn(device: Device, start: nat, first: nat, k: nat, deadline: nat)
    requires k >= 1
  {
    device.ioctl(first + k - 1).Failure? && ClockAfter(device, start, first, k) < deadline
  }

  /** The poll stops at the first attempt that succeeds or is answered at or past the deadline. */
  predicate FollowsPoll(device: Device, start: nat, first: nat, n: nat, deadline: nat) {
    && n >= 1
    && (forall k | 1 <= k < n :: PollGoesOn(device, start, first, k, deadline))
    && !PollGoesOn(device, start, first, n, deadline)
  }

  lemma NoEarlierPoll(device: Device, start: nat, first: nat, m: nat, n: nat, deadline: nat)
    requires FollowsPoll(device, start, first, m, deadline) && m < n
    ensures !FollowsPoll(device, start, first, n, deadline)
  {
    hide PollGoesOn;
  }

  lemma {:induction false} ClockRuns(device: Device, start: nat, first: nat, k: nat)
    requires k >= 1
    ensures ClockAfter(device, start, first, k) >= start + (k - 1) * 200_000
  {
    ClockStep(device, start, first, k);
    if k > 1 { ClockRuns(device, start, first, k - 1); }
  }

  /** A poll is over within ceil(timeout / 200) + 1 attempts, and times out only after the whole window. */
  lemma PollBounded(device: Device, start: nat, first: nat, n: nat, timeoutMicros: nat)
    requires FollowsPoll(device, start, first, n, start + timeoutMicros * 1000)
    ensures n <= (timeoutMicros + 199) / 200 + 1
    ensures device.ioctl(first + n - 1).Failure? ==> ClockAfter(device, start, first, n) >= start + timeoutMicros * 1000
    ensures forall j | first <= j < first + n - 1 :: device.ioctl(j).Failure?
  {
    hide ClockAfter;
    forall j | first <= j < first + n - 1 ensures device.ioctl(j).Failure? {
      assert PollGoesOn(device, start, first, j - first + 1, start + timeoutMicros * 1000);
    }
    if n > 1 {
      assert PollGoesOn(device, start, first, n - 1, start + timeoutMicros * 1000);
      ClockRuns(device, start, first, n - 1);
    }
  }

  /** The rule fixes the number of attempts. */
  lemma PollUnique(device: Device, start: nat, first: nat, m: nat, n: nat, deadline: nat)
    requires FollowsPoll(device, start, first, m, deadline) && FollowsPoll(device, start, first, n, deadline)
    ensures m == n
  {
    hide FollowsPoll;
    if m < n { NoEarlierPoll(device, start, first, m, n, deadline); }
    if n < m { NoEarlierPoll(device, start, first, n, m, deadline); }
  }

  lemma ClockStep(device: Device, start: nat, first: nat, k: nat)
    requires k >= 1
    ensures ClockAfter(device, start, first, k) == device.duration(first + k - 1) +
      if k == 1 then start else ClockAfter(device, start, first, k - 1) + 200_000 + device.oversleep(k - 1)
  {
  }

  // ---- what the counters say of a whole run --------------------------------------------------

  /** One operation that reached the transport: how it ended, and in how many attempts. */
  datatype Booking = Booking(address: Byte, ok: bool, attempts: nat)

  /** The counters after a run of bookings. */
  function Books(run: seq<Booking>): map<Byte, IoStats> {
    if run == [] then map[]
    else
      var last := run[|run| - 1];
      Booked(Books(run[..|run| - 1]), last.address, last.ok, last.attempts)
  }

  /** The operations on `address` that ended well, or not. */
  function Ended(run: seq<Booking>, address: Byte, ok: bool): set<nat> {
    set i: nat | i < |run| && run[i].address == address && run[i].ok == ok
  }

  lemma EndedSnoc(run: seq<Booking>, address: Byte, ok: bool)
    requires run != []
    ensures var last := |run| - 1;
      && last !in Ended(run[..last], address, ok)
      && Ended(run, address, ok) == Ended(run[..last], address, ok) +
           (if run[last].address == address && run[last].ok == ok then {last} else {})
  {
    assert forall i: nat | i < |run| - 1 :: run[..|run| - 1][i] == run[i];
  }

  /** `ok` counts the operations that succeeded, `failed` those that did not. */
  lemma {:induction false} CountersCount(run: seq<Booking>, address: Byte)
    ensures StatsOf(Books(run), address).ok == |Ended(run, address, true)|
    ensures StatsOf(Books(run), address).failed == |Ended(run, address, false)|
  {
    if run != [] {
      CountersCount(run[..|run| - 1], address);
      EndedSnoc(run, address, true);
      EndedSnoc(run, address, false);
      hide Ended;
    }
  }

  class LinuxI2cBus {
    const device: Device
    const busPath: string
    const retryCount: nat
    const counters: IoStatsMap
    var isOpen: bool
    var time: nat             // steady clock, in nanoseconds
    var attempted: seq<Byte>  // the address of every I2C_RDWR issued
    var operations: seq<Op>   // every operation asked for

    /** Attempts are conserved, address by address. */
    ghost predicate Valid()
      reads this, counters
    {
      Conserved(counters.stats, attempted)
    }

    constructor (device: Device, busPath: string, retryCount: int)
      ensures Valid() && fresh(counters) && !isOpen && attempted == [] && operations == []
      ensures this.device == device && this.busPath == busPath
      ensures this.retryCount == if retryCount > 0 then retryCount else 0
    {
      this.device, this.busPath := device, busPath;
      this.retryCount := if retryCount > 0 then retryCount else 0;
      counters := new IoStatsMap();
      isOpen, time, attempted, operations := false, 0, [], [];
    }

    /** `osOpens` is what the operating system makes of the path. */
    method Open(osOpens: bool) returns (status: Status)
      modifies this`isOpen
      ensures isOpen <==> old(isOpen) || (busPath != "" && osOpens)
      ensures status.Success? <==> isOpen
      ensures !isOpen ==> status == Error(if busPath == "" then BadArgument else OpenFailed)
    {
      if isOpen {
        return Success;
      }
      if busPath == "" {
        return Error(BadArgument);
      }
      if !osOpens {
        return Error(OpenFailed);
      }
      isOpen := true;
      return Success;
    }

    method Close()
      modifies this`isOpen
      ensures !isOpen
    {
      isOpen := false;
    }

    /** One I2C_RDWR, with the clock advancing meanwhile. */
    method Rdwr(address: Byte) returns (a: Attempt)
      modifies this`attempted, this`time
      ensures a == device.ioctl(|old(attempted)|)
      ensures attempted == old(attempted) + [address] && time == old(time) + device.duration(|old(attempted)|)
    {
      a := device.ioctl(|attempted|);
      time := time + device.duration(|attempted|);
      attempted := attempted + [address];
    }

    /** The retry loop of `write` and `write_then_read`. */
    method Transact(address: Byte) returns (last: Attempt, n: nat)
      requires Valid()
      modifies this`attempted, this`time, counters
      ensures Valid() && attempted == old(attempted) + Times(address, n)
      ensures FollowsRetries(device.ioctl, |old(attempted)|, n, retryCount + 1)
      ensures last == device.ioctl(|old(attempted)| + n - 1)
      ensures counters.stats == Booked(old(counters.stats), address, last.Done?, n)
    {
      hide Conserved, Booked, Tally, Stored;
      ghost var before := attempted;
      var maxAttempts := retryCount + 1;
      n := 0;
      last := Failure(EAGAIN);
      while n < maxAttempts
        invariant 0 <= n <= maxAttempts && attempted == before + Times(address, n)
        invariant forall j | |before| <= j < |before| + n :: IsTransient(device.ioctl(j))
        invariant counters.stats == old(counters.stats)
        invariant n > 0 ==> last == device.ioctl(|before| + n - 1)
      {
        last := Rdwr(address);
        n := n + 1;
        assert attempted == before + Times(address, n);
        if last.Done? {
          break;
        }
        if !last.errno.EINTR? && !last.errno.EAGAIN? {
          break;
        }
      }
      BookingConserves(counters.stats, before, address, last.Done?, n);
      counters.Record(address, last.Done?, n);
    }

    /** `n` is the number of attempts, 0 when the call is refused before the transport. */
    method Write(address: Byte, tx: seq<Byte>) returns (status: Status, ghost n: nat)
      requires Valid()
      modifies this`attempted, this`time, this`operations, counters
      ensures Valid() && attempted == old(attempted) + Times(address, n)
      ensures operations == old(operations) + [WriteOp(address, tx)]
      ensures n == 0 <==> !isOpen || tx == []
      ensures n == 0 ==> status == Error(if isOpen then BadArgument else NotOpen)
      ensures n > 0 ==> FollowsRetries(device.ioctl, |old(attempted)|, n, retryCount + 1)
      ensures n > 0 ==>
        status == if device.ioctl(|old(attempted)| + n - 1).Done? then Success else Error(WriteFailed)
      ensures counters.stats == if n == 0 then old(counters.stats)
                                else Booked(old(counters.stats), address, status.Success?, n)
    {
      hide Conserved, Booked, Tally, Stored;
      operations := operations + [WriteOp(address, tx)];
      n := 0;
      assert attempted + Times(address, 0) == attempted;
      if !isOpen {
        return Error(NotOpen), n;
      }
      if |tx| == 0 {
        return Error(BadArgument), n;
      }
      var last, attempts := Transact(address);
      n := attempts;
      status := if last.Done? then Success else Error(WriteFailed);
    }

    method WriteThenRead(address: Byte, tx: seq<Byte>, rx: array<Byte>, rxLen: nat, wantCount: bool)
      returns (status: Status, received: Option<nat>, ghost n: nat)
      requires Valid() && rxLen <= rx.Length
      modifies this`attempted, this`time, this`operations, counters, rx
      ensures Valid() && attempted == old(attempted) + Times(address, n)
      ensures operations == old(operations) + [WriteReadOp(address, tx, rxLen)]
      ensures n == 0 <==> !isOpen || (tx == [] && rxLen == 0)
      ensures n == 0 ==> status == Error(if isOpen then BadArgument else NotOpen)
      ensures n > 0 ==> FollowsRetries(device.ioctl, |old(attempted)|, n, retryCount + 1)
      ensures n > 0 ==>
        status == if device.ioctl(|old(attempted)| + n - 1).Done? then Success else Error(BrokenBus)
      ensures received == if status.Success? && wantCount then Some(rxLen) else None
      ensures rx[..] == if status.Success? then Stored(old(rx[..]), device.ioctl(|old(attempted)| + n - 1).rx, rxLen)
                        else old(rx[..])
      ensures counters.stats == if n == 0 then old(counters.stats)
                                else Booked(old(counters.stats), address, status.Success?, n)
    {
      hide Conserved, Booked, Tally, Stored;
      operations := operations + [WriteReadOp(address, tx, rxLen)];
      n := 0;
      assert attempted + Times(address, 0) == attempted;
      if !isOpen {
        return Error(NotOpen), None, n;
      }
      if |tx| == 0 && rxLen == 0 {
        return Error(BadArgument), None, n;
      }
      var last, attempts := Transact(address);
      n := attempts;
      if last.Done? {
        Store(rx, last.rx, rxLen);
        return Success, if wantCount then Some(rxLen) else None, n;
      }
      return Error(BrokenBus), None, n;
    }

    method Store(rx: array<Byte>, bytes: seq<Byte>, n: nat)
      requires n <= rx.Length
      modifies rx
      ensures rx[..] == Stored(old(rx[..]), bytes, n)
    {
      var m := if |bytes| < Asked(n) then |bytes| else Asked(n);
      forall i | 0 <= i < m {
        rx[i] := bytes[i];
      }
    }

    /** The poll of `read`: attempt after attempt, sleeping 200 microseconds or more between two. */
    method Poll(address: Byte, deadline: nat) returns (last: Attempt, n: nat)
      requires Valid()
      modifies this`attempted, this`time, counters
      ensures Valid() && attempted == old(attempted) + Times(address, n)
      ensures FollowsPoll(device, old(time), |old(attempted)|, n, deadline)
      ensures last == device.ioctl(|old(attempted)| + n - 1)
      ensures time == ClockAfter(device, old(time), |old(attempted)|, n)
      ensures counters.stats == Booked(old(counters.stats), address, last.Done?, n)
    {
      hide Conserved, Booked, Tally, Stored, ClockAfter;
      ghost var before, start := attempted, time;
      n := 0;
      assert attempted == before + Times(address, 0);
      while true
        invariant attempted == before + Times(address, n)
        invariant time == if n == 0 then start
          else ClockAfter(device, start, |before|, n) + 200_000 + device.oversleep(n)
        invariant forall k | 1 <= k <= n :: PollGoesOn(device, start, |before|, k, deadline)
        invariant counters.stats == old(counters.stats)
        decreases deadline - time + POLL_MICROS * NANOS_PER_MICRO
      {
        n := n + 1;
        ClockStep(device, start, |before|, n);
        last := Rdwr(address);
        assert attempted == before + Times(address, n);
        assert time == ClockAfter(device, start, |before|, n);
        if last.Done? || time >= deadline {
          break;
        }
        time := time + POLL_MICROS * NANOS_PER_MICRO + device.oversleep(n);
      }
      BookingConserves(counters.stats, before, address, last.Done?, n);
      counters.Record(address, last.Done?, n);
    }

    /**
     The deadline poll: any errno is retried until the deadline has passed. It ends
     within ceil(timeout / 200) + 1 attempts, since the clock advances by each sleep.
     */
    method Read(address: Byte, rx: array<Byte>, rxLen: nat, timeoutMicros: nat, wantCount: bool)
      returns (status: Status, received: Option<nat>, ghost n: nat)
      requires Valid() && rxLen <= rx.Length
      modifies this`attempted, this`time, this`operations, counters, rx
      ensures Valid() && attempted == old(attempted) + Times(address, n)
      ensures operations == old(operations) + [ReadOp(address, rxLen)]
      ensures n == 0 <==> !isOpen || rxLen == 0
      ensures n == 0 ==> status == Error(if isOpen then BadArgument else NotOpen)
      ensures n > 0 ==> forall j | |old(attempted)| <= j < |old(attempted)| + n - 1 :: device.ioctl(j).Failure?
      ensures n > 0 ==>
        status == if device.ioctl(|old(attempted)| + n - 1).Done? then Success else Error(TimedOut)
      ensures n > 0 ==> FollowsPoll(device, old(time), |old(attempted)|, n, old(time) + timeoutMicros * 1000)
      ensures n > 0 ==> time == ClockAfter(device, old(time), |old(attempted)|, n)
      ensures n <= (timeoutMicros + 199) / 200 + 1
      ensures status == Error(TimedOut) ==> time >= old(time) + timeoutMicros * 1000
      ensures received == if status.Success? && wantCount then Some(rxLen) else None
      ensures rx[..] == if status.Success? then Stored(old(rx[..]), device.ioctl(|old(attempted)| + n - 1).rx, rxLen)
                        else old(rx[..])
      ensures counters.stats == if n == 0 then old(counters.stats)
                                else Booked(old(counters.stats), address, status.Success?, n)
    {
      hide Conserved, Booked, Tally, Stored, ClockAfter;
      operations := operations + [ReadOp(address, rxLen)];
      n := 0;
      assert attempted + Times(address, 0) == attempted;
      if !isOpen {
        return Error(NotOpen), None, n;
      }
      if rxLen == 0 {
        return Error(BadArgument), None, n;
      }
      ghost var before, start := attempted, time;
      var last, attempts := Poll(address, time + timeoutMicros * NANOS_PER_MICRO);
      n := attempts;
      PollBounded(device, start, |before|, n, timeoutMicros);
      if last.Failure? {
        return Error(TimedOut), None, n;
      }
      Store(rx, last.rx, rxLen);
      return Success, if wantCount then Some(rxLen) else None, n;
    }
  }
}
