/**
 The request handlers (src/anolis/provider_sdk/handlers.cpp:31-53, 173-406). The
 provider and the wall clock are oracles that may answer from the whole history of
 events; every question put to them is an event. Health and readiness projections
 are single events here.
 */
module Handlers {
  import opened Base
  import opened Protocol
  import opened CallValidation
  import Scalars
  import Transport

  datatype Event =
    | Received(request: Request)
    | Initialize(budgetMs: nat)
    | OnWaitReady
    | OnShutdown
    | AskMetadata
    | AskReadiness
    | AskHasDevice(deviceId: string)
    | AskFunctionId(deviceId: string, functionName: string)
    | AskCapabilities(deviceId: string)
    | AskDevice(deviceId: string)
    | AskInventory(includeHealth: bool)
    | AskHealth
    | AskClock
    | DoRead(deviceId: string, signalIds: seq<string>)
    | DoCall(deviceId: string, functionId: nat, args: ValueMap)

  type Trace = seq<Event>

  datatype Metadata = Metadata(name: string, version: string, protocolVersion: string, extra: map<string, string>)

  datatype Capabilities = Capabilities(signalIds: seq<string>, functions: seq<FunctionSpec>)

  datatype ReadOutcome = ReadOutcome(ok: bool, code: Code, values: seq<SignalValue>)

  datatype CallOutcome = CallOutcome(ok: bool, code: Code, results: ValueMap)

  /** The provider runtime and the wall clock (nanoseconds since the epoch). */
  datatype World = World(
    metadata: Trace -> Metadata,
    hasDevice: (Trace, string) -> bool,
    functionId: (Trace, string, string) -> Option<nat>,
    capabilities: (Trace, string) -> Capabilities,
    read: (Trace, string, seq<string>) -> ReadOutcome,
    call: (Trace, string, nat, ValueMap) -> CallOutcome,
    clock: Trace -> int)

  /** A provider never reports failure with a success code. */
  ghost predicate FailsHonestly(w: World) {
    && (forall t, d, f, args :: !w.call(t, d, f, args).ok ==> w.call(t, d, f, args).code != Ok)
    && (forall t, d, ids :: !w.read(t, d, ids).ok ==> w.read(t, d, ids).code != Ok)
  }

  // ---- deadlines -----------------------------------------------------------------------------------

  const NANOS_PER_SECOND := 1_000_000_000
  const MIN_TIMESTAMP_SECONDS := -62135596800
  const MAX_TIMESTAMP_SECONDS := 253402300799

  predicate IsValidTimestamp(ts: Timestamp) {
    && MIN_TIMESTAMP_SECONDS <= ts.seconds <= MAX_TIMESTAMP_SECONDS
    && 0 <= ts.nanos <= 999_999_999
  }

  function TotalNanos(ts: Timestamp): int {
    ts.seconds * NANOS_PER_SECOND + ts.nanos
  }

  /** -1, 0 or 1 as `now` is before, at or after the deadline: whole seconds first (rounded down), then the rest. */
  function CompareNowTo(now: int, deadline: Timestamp): int {
    var seconds := now / NANOS_PER_SECOND;
    var nanos := now - seconds * NANOS_PER_SECOND;
    if seconds != deadline.seconds then (if seconds < deadline.seconds then -1 else 1)
    else if nanos != deadline.nanos then (if nanos < deadline.nanos then -1 else 1)
    else 0
  }

  /** The comparison is the order on total nanoseconds, before the epoch too. */
  lemma CompareIsOrder(now: int, deadline: Timestamp)
    requires 0 <= deadline.nanos < NANOS_PER_SECOND
    ensures CompareNowTo(now, deadline) < 0 <==> now < TotalNanos(deadline)
    ensures CompareNowTo(now, deadline) == 0 <==> now == TotalNanos(deadline)
    ensures CompareNowTo(now, deadline) > 0 <==> now > TotalNanos(deadline)
  {
    var seconds := now / NANOS_PER_SECOND;
    var nanos := now - seconds * NANOS_PER_SECOND;
    assert 0 <= nanos < NANOS_PER_SECOND;
    if seconds < deadline.seconds {
      assert (seconds + 1) * NANOS_PER_SECOND <= deadline.seconds * NANOS_PER_SECOND;
    } else if seconds > deadline.seconds {
      assert seconds * NANOS_PER_SECOND >= (deadline.seconds + 1) * NANOS_PER_SECOND;
    }
  }

  // ---- the response and the log of events, filled in place -------------------------------------------

  class Response {
    var id: RequestId
    var code: Code
    var sideEffects: bool
    var payload: Payload

    constructor (id: RequestId)
      ensures Contents() == Blank(id)
    {
      this.id, code, sideEffects, payload := id, Internal, false, NoPayload;
    }

    function Contents(): Reply
      reads this
    {
      Reply(id, code, sideEffects, payload)
    }

    method SetStatus(c: Code)
      modifies this
      ensures Contents() == old(Contents()).(code := c)
    {
      code := c;
    }

    method SetPayload(p: Payload)
      modifies this
      ensures Contents() == old(Contents()).(payload := p)
    {
      payload := p;
    }
  }

  /** The state every response starts from. */
  function Blank(id: RequestId): Reply {
    Reply(id, Internal, false, NoPayload)
  }

  // ---- Hello -------------------------------------------------------------------------------------------

  function HelloMetadata(extra: map<string, string>): map<string, string> {
    map["transport" := "stdio+uint32_le", "max_frame_bytes" := Scalars.ToText(Transport.MAX_FRAME_BYTES),
        "supports_deadlines" := "true"] + extra
  }

  function HelloReply(meta: Metadata, version: string, blank: Reply): Reply {
    if version != meta.protocolVersion then blank.(code := FailedPrecondition)
    else blank.(code := Ok,
                payload := HelloPayload(meta.protocolVersion, meta.name, meta.version, HelloMetadata(meta.extra)))
  }

  method HandleHello(w: World, log: Vector<Event>, version: string, response: Response)
    modifies log, response
    ensures log.items == old(log.items) + [AskMetadata]
    ensures response.Contents() == HelloReply(w.metadata(old(log.items)), version, old(response.Contents()))
  {
    var meta := w.metadata(log.items);
    log.PushBack(AskMetadata);
    if version != meta.protocolVersion {
      response.SetStatus(FailedPrecondition);
      return;
    }
    response.SetPayload(
      HelloPayload(meta.protocolVersion, meta.name, meta.version, HelloMetadata(meta.extra)));
    response.SetStatus(Ok);
  }

  // ---- the read path -------------------------------------------------------------------------------------

  predicate Older(a: Timestamp, b: Timestamp) {
    a.seconds < b.seconds || (a.seconds == b.seconds && a.nanos < b.nanos)
  }

  function Aged(v: SignalValue, min: Option<Timestamp>): SignalValue {
    if min.Some? && Older(v.timestamp, min.value) && v.quality == QualityOk then v.(quality := QualityStale) else v
  }

  function AllAged(values: seq<SignalValue>, min: Option<Timestamp>): seq<SignalValue> {
    seq(|values|, i requires 0 <= i < |values| => Aged(values[i], min))
  }

  /** `apply_min_timestamp`, over the values already in the response. */
  method ApplyMinTimestamp(min: Option<Timestamp>, values: array<SignalValue>)
    modifies values
    ensures values[..] == AllAged(old(values[..]), min)
  {
    if min.None? {
      return;
    }
    for i := 0 to values.Length
      invariant forall k | 0 <= k < i :: values[k] == Aged(old(values[k]), min)
      invariant forall k | i <= k < values.Length :: values[k] == old(values[k])
    {
      if Older(values[i].timestamp, min.value) && values[i].quality == QualityOk {
        values[i] := values[i].(quality := QualityStale);
      }
    }
  }

  /** Freshness only ever turns an OK value older than the minimum into a stale one. */
  lemma AgingOnlyMarksStale(v: SignalValue, min: Timestamp)
    requires 0 <= min.nanos < NANOS_PER_SECOND && 0 <= v.timestamp.nanos < NANOS_PER_SECOND
    ensures var aged := Aged(v, Some(min));
      && aged.(quality := v.quality) == v
      && (aged.quality != v.quality <==> v.quality == QualityOk && TotalNanos(v.timestamp) < TotalNanos(min))
      && (aged.quality != v.quality ==> aged.quality == QualityStale)
  {
    if v.timestamp.seconds < min.seconds {
      assert (v.timestamp.seconds + 1) * NANOS_PER_SECOND <= min.seconds * NANOS_PER_SECOND;
    } else if v.timestamp.seconds > min.seconds {
      assert v.timestamp.seconds * NANOS_PER_SECOND >= (min.seconds + 1) * NANOS_PER_SECOND;
    }
  }

  predicate AllKnown(ids: seq<string>, known: seq<string>) {
    forall id | id in ids :: id in known
  }

  function ReadDone(r: ReadRequest, result: ReadOutcome, blank: Reply): Reply {
    if !result.ok then blank.(code := result.code)
    else blank.(code := Ok, payload := SignalsPayload(r.deviceId, AllAged(result.values, r.minTimestamp)))
  }

  /** The whole read path: events and reply. */
  function ReadTurn(w: World, t: Trace, r: ReadRequest, blank: Reply): (Trace, Reply) {
    if r.deviceId == "" then (t, blank.(code := InvalidArgument))
    else
      var t1 := t + [AskHasDevice(r.deviceId)];
      if !w.hasDevice(t, r.deviceId) then (t1, blank.(code := NotFound))
      else
        var t2 := if r.signalIds == [] then t1 else t1 + [AskCapabilities(r.deviceId)];
        if r.signalIds != [] && !AllKnown(r.signalIds, w.capabilities(t1, r.deviceId).signalIds) then
          (t2, blank.(code := NotFound))
        else
          (t2 + [DoRead(r.deviceId, r.signalIds)], ReadDone(r, w.read(t2, r.deviceId, r.signalIds), blank))
  }

  method HandleReadSignals(w: World, log: Vector<Event>, r: ReadRequest, response: Response)
    modifies log, response
    ensures (log.items, response.Contents()) == ReadTurn(w, old(log.items), r, old(response.Contents()))
  {
    if r.deviceId == "" {
      response.SetStatus(InvalidArgument);
      return;
    }
    var known := w.hasDevice(log.items, r.deviceId);
    log.PushBack(AskHasDevice(r.deviceId));
    if !known {
      response.SetStatus(NotFound);
      return;
    }
    if r.signalIds != [] {
      var signals := w.capabilities(log.items, r.deviceId).signalIds;
      log.PushBack(AskCapabilities(r.deviceId));
      for i := 0 to |r.signalIds|
        invariant AllKnown(r.signalIds[..i], signals)
      {
        if r.signalIds[i] !in signals {
          assert r.signalIds[i] in r.signalIds;
          response.SetStatus(NotFound);
          return;
        }
        assert r.signalIds[..i + 1] == r.signalIds[..i] + [r.signalIds[i]];
      }
      assert r.signalIds[..|r.signalIds|] == r.signalIds;
    }
    var result := w.read(log.items, r.deviceId, r.signalIds);
    log.PushBack(DoRead(r.deviceId, r.signalIds));
    if !result.ok {
      response.SetStatus(result.code);
      return;
    }
    var values := new SignalValue[|result.values|](i requires 0 <= i < |result.values| => result.values[i]);
    assert values[..] == result.values;
    ApplyMinTimestamp(r.minTimestamp, values);
    response.SetPayload(SignalsPayload(r.deviceId, values[..]));
    response.SetStatus(Ok);
  }

  // ---- the call path ---------------------------------------------------------------------------------------

  /** The first declared function with the id. */
  function FirstSpec(specs: seq<FunctionSpec>, id: nat): Option<FunctionSpec> {
    if specs == [] then None else if specs[0].id == id then Some(specs[0]) else FirstSpec(specs[1..], id)
  }

  ghost function ReportOf(spec: FunctionSpec, args: ValueMap): (e: ArgError)
    requires !Conforms(spec, args)
    ensures Reports(spec, args, e)
  {
    ReportsIffNot(spec, args);
    var e :| Reports(spec, args, e);
    e
  }

  function AcceptedResults(results: ValueMap): ValueMap {
    if results == map[] then map["accepted" := Value(BoolType, BoolField(true))] else results
  }

  /** The reply once the provider has answered; `late` when its deadline passed meanwhile. */
  function CallDone(r: CallRequest, result: CallOutcome, late: bool, blank: Reply): Reply {
    if !result.ok then blank.(code := result.code)
    else if late then blank.(code := DeadlineExceeded, sideEffects := true)
    else blank.(code := Ok, payload := CallPayload(r.deviceId, AcceptedResults(result.results)))
  }

  function CallMade(w: World, t: Trace, r: CallRequest, id: nat, blank: Reply): (Trace, Reply) {
    var result, t1 := w.call(t, r.deviceId, id, r.args), t + [DoCall(r.deviceId, id, r.args)];
    if result.ok && r.deadline.Some? then
      (t1 + [AskClock], CallDone(r, result, CompareNowTo(w.clock(t1), r.deadline.value) > 0, blank))
    else (t1, CallDone(r, result, false, blank))
  }

  function CallTimed(w: World, t: Trace, r: CallRequest, id: nat, blank: Reply): (Trace, Reply) {
    if r.deadline.None? then CallMade(w, t, r, id, blank)
    else if !IsValidTimestamp(r.deadline.value) then (t, blank.(code := InvalidArgument))
    else if CompareNowTo(w.clock(t), r.deadline.value) >= 0 then (t + [AskClock], blank.(code := DeadlineExceeded))
    else CallMade(w, t + [AskClock], r, id, blank)
  }

  ghost function CallChecked(w: World, t: Trace, r: CallRequest, id: nat, blank: Reply): (Trace, Reply) {
    var t1, spec := t + [AskCapabilities(r.deviceId)], FirstSpec(w.capabilities(t, r.deviceId).functions, id);
    if spec.Some? && !Conforms(spec.value, r.args) then (t1, blank.(code := ReportOf(spec.value, r.args).code))
    else CallTimed(w, t1, r, id, blank)
  }

  /** The whole call path: events and reply. */
  ghost function CallTurn(w: World, t: Trace, r: CallRequest, blank: Reply): (Trace, Reply) {
    if r.deviceId == "" then (t, blank.(code := InvalidArgument))
    else
      var t1 := t + [AskHasDevice(r.deviceId)];
      if !w.hasDevice(t, r.deviceId) then (t1, blank.(code := NotFound))
      else if r.functionId == 0 && r.functionName == "" then (t1, blank.(code := InvalidArgument))
      else if r.functionId != 0 then CallChecked(w, t1, r, r.functionId, blank)
      else
        var t2, id := t1 + [AskFunctionId(r.deviceId, r.functionName)],
                      w.functionId(t1, r.deviceId, r.functionName);
        if id.None? then (t2, blank.(code := NotFound)) else CallChecked(w, t2, r, id.value, blank)
  }

  /** The first declared function with the id, checked; a function the device does not declare passes. */
  method ValidateDeclared(functions: seq<FunctionSpec>, id: nat, args: ValueMap) returns (err: Option<ArgError>)
    ensures var spec := FirstSpec(functions, id);
      if spec.Some? && !Conforms(spec.value, args) then err == Some(ReportOf(spec.value, args)) else err.None?
  {
    hide Conforms, Reports;
    var i := 0;
    while i < |functions|
      invariant 0 <= i <= |functions|
      invariant FirstSpec(functions, id) == FirstSpec(functions[i..], id)
    {
      assert functions[i..][1..] == functions[i + 1..];
      if functions[i].id == id {
        err := ValidateCallArgs(functions[i], args);
        if err.Some? {
          ReportUnique(functions[i], args, err.value, ReportOf(functions[i], args));
        }
        return;
      }
      i := i + 1;
    }
    return None;
  }

  /** The deadline before the call, the call, and the deadline after it. */
  method PlaceCall(w: World, log: Vector<Event>, r: CallRequest, id: nat, response: Response)
    modifies log, response
    ensures (log.items, response.Contents()) == CallTimed(w, old(log.items), r, id, old(response.Contents()))
  {
    hide CompareNowTo, IsValidTimestamp, AcceptedResults;
    if r.deadline.Some? {
      if !IsValidTimestamp(r.deadline.value) {
        response.SetStatus(InvalidArgument);
        return;
      }
      var now := w.clock(log.items);
      log.PushBack(AskClock);
      if CompareNowTo(now, r.deadline.value) >= 0 {
        response.SetStatus(DeadlineExceeded);
        return;
      }
    }
    var result := w.call(log.items, r.deviceId, id, r.args);
    log.PushBack(DoCall(r.deviceId, id, r.args));
    if !result.ok {
      response.SetStatus(result.code);
      return;
    }
    if r.deadline.Some? {
      var now := w.clock(log.items);
      log.PushBack(AskClock);
      if CompareNowTo(now, r.deadline.value) > 0 {
        response.SetStatus(DeadlineExceeded);
        response.sideEffects := true;
        return;
      }
    }
    response.SetPayload(CallPayload(r.deviceId, AcceptedResults(result.results)));
    response.SetStatus(Ok);
  }

  method HandleCall(w: World, log: Vector<Event>, r: CallRequest, response: Response)
    modifies log, response
    ensures (log.items, response.Contents()) == CallTurn(w, old(log.items), r, old(response.Contents()))
  {
    hide Conforms, Reports, CallTimed, FirstSpec;
    if r.deviceId == "" {
      response.SetStatus(InvalidArgument);
      return;
    }
    var known := w.hasDevice(log.items, r.deviceId);
    log.PushBack(AskHasDevice(r.deviceId));
    if !known {
      response.SetStatus(NotFound);
      return;
    }
    if r.functionId == 0 && r.functionName == "" {
      response.SetStatus(InvalidArgument);
      return;
    }
    var id := r.functionId;
    if r.functionId == 0 {
      var resolved := w.functionId(log.items, r.deviceId, r.functionName);
      log.PushBack(AskFunctionId(r.deviceId, r.functionName));
      if resolved.None? {
        response.SetStatus(NotFound);
        return;
      }
      id := resolved.value;
    }
    var functions := w.capabilities(log.items, r.deviceId).functions;
    log.PushBack(AskCapabilities(r.deviceId));
    var err := ValidateDeclared(functions, id, r.args);
    if err.Some? {
      response.SetStatus(err.value.code);
      return;
    }
    PlaceCall(w, log, r, id, response);
  }
}
