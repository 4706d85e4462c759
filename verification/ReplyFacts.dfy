/**
 What each request is answered with (src/anolis/provider_sdk/handlers.cpp:173-315,
 src/anolis/provider_sdk/runtime.cpp:69-97), said of the provider's answers alone.
 */
module ReplyFacts {
  import opened Base
  import opened Protocol
  import opened Handlers
  import opened Runtime
  import Scalars

  // ---- reading -----------------------------------------------------------------------------------

  predicate SignalsDeclared(w: World, t: Trace, r: ReadRequest) {
    forall id | id in r.signalIds :: id in w.capabilities(t + [AskHasDevice(r.deviceId)], r.deviceId).signalIds
  }

  /** The questions put to the provider before it is read. */
  function Questions(r: ReadRequest): Trace {
    [AskHasDevice(r.deviceId)] + When(r.signalIds != [], AskCapabilities(r.deviceId))
  }

  predicate Earlier(a: Timestamp, b: Timestamp) {
    a.seconds < b.seconds || (a.seconds == b.seconds && a.nanos < b.nanos)
  }

  /** `sent` is `v`, made stale exactly when it was OK and older than the minimum asked for. */
  predicate Freshened(v: SignalValue, min: Option<Timestamp>, sent: SignalValue) {
    && sent.signalId == v.signalId && sent.timestamp == v.timestamp && sent.reading == v.reading
    && sent.quality ==
         if v.quality == QualityOk && min.Some? && Earlier(v.timestamp, min.value) then QualityStale else v.quality
  }

  predicate AllFreshened(values: seq<SignalValue>, min: Option<Timestamp>, sent: seq<SignalValue>) {
    |sent| == |values| && forall i | 0 <= i < |values| :: Freshened(values[i], min, sent[i])
  }

  predicate ReadAnswers(r: ReadRequest, result: ReadOutcome, blank: Reply, reply: Reply) {
    && reply.id == blank.id && reply.sideEffects == blank.sideEffects
    && (!result.ok ==> reply.code == result.code && reply.payload == blank.payload)
    && (result.ok ==>
          && reply.code == Ok && reply.payload.SignalsPayload? && reply.payload.readId == r.deviceId
          && AllFreshened(result.values, r.minTimestamp, reply.payload.values))
  }

  /**
   The provider is read exactly when the device is named and known and declares every
   signal asked for, and then its answer decides the reply; else the first of the three
   that fails decides the code.
   */
  lemma ReadDecided(w: World, t: Trace, r: ReadRequest, blank: Reply)
    ensures var (after, reply) := ReadTurn(w, t, r, blank);
      var clear := r.deviceId != "" && w.hasDevice(t, r.deviceId) && SignalsDeclared(w, t, r);
      && (clear <==> exists i | |t| <= i < |after| :: after[i].DoRead?)
      && (clear ==>
            && after == t + Questions(r) + [DoRead(r.deviceId, r.signalIds)]
            && ReadAnswers(r, w.read(t + Questions(r), r.deviceId, r.signalIds), blank, reply))
      && (!clear ==> reply == blank.(code := if r.deviceId == "" then InvalidArgument else NotFound))
  {
    var (after, reply) := ReadTurn(w, t, r, blank);
    var device := [AskHasDevice(r.deviceId)];
    assert t + device + [AskCapabilities(r.deviceId)] == t + (device + [AskCapabilities(r.deviceId)]);
    assert device + [] == device;
    if r.deviceId != "" && w.hasDevice(t, r.deviceId) && SignalsDeclared(w, t, r) {
      assert after[|after| - 1].DoRead?;
    }
  }

  // ---- Hello -------------------------------------------------------------------------------------------

  lemma FrameCapText()
    ensures Scalars.ToText(1048576) == "1048576"
  {
    assert Scalars.ToDigits(1) == "1";
    assert Scalars.ToDigits(10) == "10";
    assert Scalars.ToDigits(104) == "104";
    assert Scalars.ToDigits(1048) == "1048";
    assert Scalars.ToDigits(10485) == "10485";
    assert Scalars.ToDigits(104857) == "104857";
    assert Scalars.ToDigits(1048576) == "1048576";
  }

  /** An accepted Hello carries the provider's own name and versions, three fixed facts, and its extras over them. */
  lemma HelloAnswers(meta: Metadata, version: string, id: RequestId)
    ensures var reply := HelloReply(meta, version, Blank(id));
      && reply.id == id && !reply.sideEffects
      && (version != meta.protocolVersion ==> reply.code == FailedPrecondition && reply.payload == NoPayload)
      && (version == meta.protocolVersion ==>
            && reply.code == Ok && reply.payload.HelloPayload?
            && reply.payload.protocolVersion == version
            && reply.payload.name == meta.name && reply.payload.version == meta.version
            && GreetingMetadata(meta.extra, reply.payload.metadata))
  {
    FrameCapText();
    hide Scalars.ToText;
    MetadataHolds(meta.extra);
  }

  predicate GreetingMetadata(extra: map<string, string>, sent: map<string, string>) {
    && sent.Keys == {"transport", "max_frame_bytes", "supports_deadlines"} + extra.Keys
    && (forall k | k in extra :: sent[k] == extra[k])
    && ("transport" !in extra ==> sent["transport"] == "stdio+uint32_le")
    && ("max_frame_bytes" !in extra ==> sent["max_frame_bytes"] == "1048576")
    && ("supports_deadlines" !in extra ==> sent["supports_deadlines"] == "true")
  }

  lemma MetadataHolds(extra: map<string, string>)
    ensures GreetingMetadata(extra, HelloMetadata(extra))
  {
    FrameCapText();
    assert |"transport"| == 9 && |"max_frame_bytes"| == 15 && |"supports_deadlines"| == 18;
  }

  // ---- every body ------------------------------------------------------------------------------------------

  /** The payload a body may be answered with. */
  predicate PayloadSuits(body: Body, payload: Payload) {
    match payload
    case NoPayload => true
    case HelloPayload(_, _, _, _) => body.Hello?
    case WaitReadyPayload => body.WaitReady?
    case DevicesPayload => body.ListDevices?
    case DevicePayload(id) => body.DescribeDevice? && body.deviceId == id
    case SignalsPayload(id, _) => body.ReadSignals? && body.read.deviceId == id
    case CallPayload(id, _) => body.Call? && body.call.deviceId == id
    case HealthPayload => body.GetHealth?
  }

  /**
   Every reply suits its request: its id, a payload of its kind or none, and a payload
   only with the status OK. Before a Hello is accepted everything else is refused unasked;
   after it a missing body is unimplemented, listing, health and WaitReady always succeed,
   and a description succeeds exactly for a known device.
   */
  lemma RepliesSuit(w: World, t: Trace, hello: bool, request: Request)
    ensures var (after, reply) := Dispatched(w, t, hello, request);
      && reply.id == request.id && PayloadSuits(request.body, reply.payload)
      && (!reply.payload.NoPayload? ==> reply.code == Ok)
  {
    hide CallTurn, ReadTurn, HelloReply, DescribeTurn;
    match request.body
    case Hello(version) => HelloAnswers(w.metadata(t), version, request.id);
    case ReadSignals(r) => ReadSuits(w, t, r, Blank(request.id));
    case Call(r) => CallSuits(w, t, r, Blank(request.id));
    case DescribeDevice(d) => DescribeDecided(w, t, d, Blank(request.id));
    case _ =>
  }

  lemma ReadSuits(w: World, t: Trace, r: ReadRequest, blank: Reply)
    requires blank == Blank(blank.id)
    ensures var reply := ReadTurn(w, t, r, blank).1;
      && reply.id == blank.id
      && (reply.payload == NoPayload
          || (reply.code == Ok && reply.payload.SignalsPayload? && reply.payload.readId == r.deviceId))
  {
    hide AllFreshened, SignalsDeclared;
    ReadDecided(w, t, r, blank);
  }

  lemma CallSuits(w: World, t: Trace, r: CallRequest, blank: Reply)
    requires blank == Blank(blank.id)
    ensures var reply := CallTurn(w, t, r, blank).1;
      && reply.id == blank.id
      && (reply.payload == NoPayload
          || (reply.code == Ok && reply.payload.CallPayload? && reply.payload.calledId == r.deviceId))
  {
    hide CallValidation.Conforms, FirstSpec, CompareNowTo, AcceptedResults, IsValidTimestamp;
  }

  lemma DescribeDecided(w: World, t: Trace, device: string, blank: Reply)
    ensures var (after, reply) := DescribeTurn(w, t, device, blank);
      var found := device != "" && w.hasDevice(t, device);
      && (found ==> reply == blank.(code := Ok, payload := DevicePayload(device))
                    && after == t + [AskHasDevice(device), AskDevice(device), AskCapabilities(device)])
      && (!found ==> reply == blank.(code := if device == "" then InvalidArgument else NotFound)
                     && after == t + When(device != "", AskHasDevice(device)))
  {
    assert t + [] == t;
  }

  /** The codes and payloads of the requests that need no decision but the Hello gate. */
  lemma PlainReplies(w: World, t: Trace, hello: bool, request: Request)
    requires !request.body.Hello?
    ensures var (after, reply) := Dispatched(w, t, hello, request);
      && (!hello ==> after == t && reply.code == FailedPrecondition && reply.payload == NoPayload)
      && (hello && request.body.NoBody? ==> after == t && reply.code == Unimplemented && reply.payload == NoPayload)
      && (hello && request.body.ListDevices? ==>
            && reply.code == Ok && reply.payload == DevicesPayload
            && after == t + [AskInventory(request.body.includeHealth)])
      && (hello && request.body.GetHealth? ==>
            reply.code == Ok && reply.payload == HealthPayload && after == t + [AskHealth])
      && (hello && request.body.WaitReady? ==>
            && reply.code == Ok && reply.payload == WaitReadyPayload
            && after == t + [AskReadiness, AskMetadata, OnWaitReady])
  {
    hide CallTurn, ReadTurn, DescribeTurn;
  }

  // ---- timestamps ---------------------------------------------------------------------------------------------

  /** Days in the first `n` years of the Gregorian calendar, counted from the year 1. */
  function DaysInYears(n: nat): nat {
    365 * n + n / 4 - n / 100 + n / 400
  }

  /** A valid timestamp lies in the years 1 to 9999, seconds being counted from 1970. */
  lemma ValidYears(ts: Timestamp)
    ensures IsValidTimestamp(ts) <==>
      && -86400 * DaysInYears(1969) <= ts.seconds < 86400 * (DaysInYears(9999) - DaysInYears(1969))
      && 0 <= ts.nanos < 1_000_000_000
  {
    assert DaysInYears(1969) == 719162 && DaysInYears(9999) == 3652059;
  }
}
