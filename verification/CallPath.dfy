/**
 What every run of the call and read paths keeps, whatever the provider and the
 clock answer (src/anolis/provider_sdk/handlers.cpp:173-406).
 */
module CallPath {
  import opened Base
  import opened Protocol
  import opened CallValidation
  import opened Handlers

  /** The events a turn adds to a history of length `from`. */
  predicate NoCalls(t: Trace, from: nat)
    requires from <= |t|
  {
    forall i | from <= i < |t| :: !t[i].DoCall?
  }

  /** Asked since `from`, the provider said it has the device. */
  predicate DeviceKnown(w: World, t: Trace, from: nat, device: string) {
    exists h | from <= h < |t| :: t[h] == AskHasDevice(device) && w.hasDevice(t[..h], device)
  }

  /** The id is the request's own or, when it gives none, the one its name resolved to. */
  predicate FunctionResolved(w: World, t: Trace, from: nat, r: CallRequest, id: nat) {
    if r.functionId != 0 then id == r.functionId
    else exists h | from <= h < |t| ::
        t[h] == AskFunctionId(r.deviceId, r.functionName) && w.functionId(t[..h], r.deviceId, r.functionName) == Some(id)
  }

  /** The arguments conform to the first function declared with the id, if one is. */
  predicate ArgumentsChecked(w: World, t: Trace, from: nat, r: CallRequest, id: nat) {
    exists h | from <= h < |t| ::
      && t[h] == AskCapabilities(r.deviceId)
      && var spec := FirstSpec(w.capabilities(t[..h], r.deviceId).functions, id);
         spec.Some? ==> Conforms(spec.value, r.args)
  }

  /** No deadline, or a valid one strictly after the clock reading just taken. */
  predicate InTime(w: World, t: Trace, from: nat, r: CallRequest) {
    r.deadline.Some? ==>
      && IsValidTimestamp(r.deadline.value)
      && from < |t| && t[|t| - 1] == AskClock
      && w.clock(t[..|t| - 1]) < TotalNanos(r.deadline.value)
  }

  /** Everything that must hold of the history before the provider is called. */
  predicate Cleared(w: World, t: Trace, from: nat, r: CallRequest, id: nat) {
    && r.deviceId != "" && (r.functionId != 0 || r.functionName != "")
    && DeviceKnown(w, t, from, r.deviceId)
    && FunctionResolved(w, t, from, r, id)
    && ArgumentsChecked(w, t, from, r, id)
    && InTime(w, t, from, r)
  }

  lemma Extends<T>(a: seq<T>, b: seq<T>)
    requires a <= b
    ensures forall h | 0 <= h < |a| :: a[h] == b[h] && a[..h] == b[..h]
  {
  }

  /** How a call turn goes: the provider is called from a cleared history, or the turn ends without a call. */
  datatype Course = Refused | Called(before: Trace, id: nat)

  predicate IsCourse(w: World, t: Trace, r: CallRequest, blank: Reply, turn: (Trace, Reply), c: Course) {
    && t <= turn.0
    && match c
       case Refused => NoCalls(turn.0, |t|) && turn.1 == blank.(code := turn.1.code) && turn.1.code != Ok
       case Called(before, id) =>
         && t <= before && NoCalls(before, |t|)
         && Cleared(w, before, |t|, r, id)
         && turn == CallMade(w, before, r, id, blank)
  }

  lemma TimedCourse(w: World, t: Trace, from: nat, r: CallRequest, id: nat, blank: Reply) returns (c: Course)
    requires from <= |t| && NoCalls(t, from)
    requires r.deviceId != "" && (r.functionId != 0 || r.functionName != "")
    requires DeviceKnown(w, t, from, r.deviceId) && FunctionResolved(w, t, from, r, id)
      && ArgumentsChecked(w, t, from, r, id)
    ensures IsCourse(w, t[..from], r, blank, CallTimed(w, t, r, id, blank), c)
  {
    hide DeviceKnown, FunctionResolved, ArgumentsChecked, CallMade, InTime;
    if r.deadline.None? {
      NoDeadline(w, t, from, r);
      MadeExtends(w, t, r, id, blank);
      c := Called(t, id);
    } else if !IsValidTimestamp(r.deadline.value) || CompareNowTo(w.clock(t), r.deadline.value) >= 0 {
      c := Refused;
    } else {
      var t1 := t + [AskClock];
      assert t1[..from] == t[..from];
      StillInTime(w, t, from, r);
      KeptKnown(w, t, t1, from, r, id);
      MadeExtends(w, t1, r, id, blank);
      c := Called(t1, id);
    }
  }

  lemma NoDeadline(w: World, t: Trace, from: nat, r: CallRequest)
    requires r.deadline.None?
    ensures InTime(w, t, from, r)
  {
  }

  lemma StillInTime(w: World, t: Trace, from: nat, r: CallRequest)
    requires from <= |t| && r.deadline.Some? && IsValidTimestamp(r.deadline.value)
    requires CompareNowTo(w.clock(t), r.deadline.value) < 0
    ensures InTime(w, t + [AskClock], from, r)
  {
    hide TotalNanos, CompareNowTo;
    CompareIsOrder(w.clock(t), r.deadline.value);
    assert (t + [AskClock])[..|t|] == t;
  }

  lemma MadeExtends(w: World, t: Trace, r: CallRequest, id: nat, blank: Reply)
    ensures t <= CallMade(w, t, r, id, blank).0
  {
    hide CallDone, CompareNowTo;
  }

  lemma KeptKnown(w: World, t: Trace, t1: Trace, from: nat, r: CallRequest, id: nat)
    requires t <= t1
    ensures DeviceKnown(w, t, from, r.deviceId) ==> DeviceKnown(w, t1, from, r.deviceId)
    ensures FunctionResolved(w, t, from, r, id) ==> FunctionResolved(w, t1, from, r, id)
    ensures ArgumentsChecked(w, t, from, r, id) ==> ArgumentsChecked(w, t1, from, r, id)
  {
    hide Conforms, FirstSpec;
    Extends(t, t1);
  }

  lemma CheckedCourse(w: World, t: Trace, from: nat, r: CallRequest, id: nat, blank: Reply) returns (c: Course)
    requires from <= |t| && NoCalls(t, from)
    requires r.deviceId != "" && (r.functionId != 0 || r.functionName != "")
    requires DeviceKnown(w, t, from, r.deviceId) && FunctionResolved(w, t, from, r, id)
    ensures IsCourse(w, t[..from], r, blank, CallChecked(w, t, r, id, blank), c)
  {
    hide Conforms, CallTimed;
    var t1, spec := t + [AskCapabilities(r.deviceId)], FirstSpec(w.capabilities(t, r.deviceId).functions, id);
    if spec.Some? && !Conforms(spec.value, r.args) {
      hide DeviceKnown, FunctionResolved;
      c := Refused;
      ReportIsError(spec.value, r.args);
    } else {
      KeptKnown(w, t, t1, from, r, id);
      hide DeviceKnown, FunctionResolved;
      assert t1[..|t|] == t;
      c := TimedCourse(w, t1, from, r, id, blank);
      assert t1[..from] == t[..from];
    }
  }

  lemma ReportIsError(spec: FunctionSpec, args: ValueMap)
    requires !Conforms(spec, args)
    ensures ReportOf(spec, args).code in {InvalidArgument, Code.OutOfRange}
  {
  }

  /** The main case split: every gate is passed, in order, or the provider is not called. */
  lemma CallCourse(w: World, t: Trace, r: CallRequest, blank: Reply) returns (c: Course)
    ensures IsCourse(w, t, r, blank, CallTurn(w, t, r, blank), c)
  {
    hide CallChecked, ArgumentsChecked, InTime, CallMade;
    assert t[..|t|] == t;
    if r.deviceId == "" {
      c := Refused;
    } else {
      var t1 := t + [AskHasDevice(r.deviceId)];
      assert t1[..|t|] == t;
      if !w.hasDevice(t, r.deviceId) || (r.functionId == 0 && r.functionName == "") {
        c := Refused;
      } else if r.functionId != 0 {
        c := CheckedCourse(w, t1, |t|, r, r.functionId, blank);
      } else {
        var t2, id := t1 + [AskFunctionId(r.deviceId, r.functionName)],
                      w.functionId(t1, r.deviceId, r.functionName);
        assert t2[..|t1|] == t1 && t2[..|t|] == t;
        if id.None? {
          c := Refused;
        } else {
          c := CheckedCourse(w, t2, |t|, r, id.value, blank);
        }
      }
    }
  }

  // ---- the gate ----------------------------------------------------------------------------------------

  /**
   The provider's `call` is reached at most once per request, and only for a known
   device, a resolved function, conforming arguments and a deadline not yet reached.
   */
  lemma CallGated(w: World, t: Trace, r: CallRequest, blank: Reply)
    ensures var after := CallTurn(w, t, r, blank).0;
      && t <= after
      && (forall i | |t| <= i < |after| && after[i].DoCall? ::
            && after[i] == DoCall(r.deviceId, after[i].functionId, r.args)
            && Cleared(w, after[..i], |t|, r, after[i].functionId)
            && forall j | |t| <= j < |after| && after[j].DoCall? :: j == i)
  {
    hide CallTurn, Cleared, CallDone;
    var after := CallTurn(w, t, r, blank).0;
    var c := CallCourse(w, t, r, blank);
    if c.Called? {
      assert after[..|c.before|] == c.before;
    }
  }

  // ---- the reply -----------------------------------------------------------------------------------------

  /** What the provider answered, if it was called, and whether the second reading is past the deadline. */
  ghost predicate EndsWith(w: World, t: Trace, r: CallRequest, after: Trace, result: CallOutcome, late: bool) {
    exists i | |t| <= i < |after| ::
      && after[i].DoCall?
      && result == w.call(after[..i], r.deviceId, after[i].functionId, r.args)
      && (late <==> result.ok && r.deadline.Some? && TotalNanos(r.deadline.value) < w.clock(after[..i + 1]))
  }

  /**
   The reply to a call: a call payload exactly when the provider succeeded in time;
   `side_effects=possible` exactly when it succeeded too late; the status OK exactly
   with a payload, provided a failed result never carries the OK code.
   */
  lemma CallReplies(w: World, t: Trace, r: CallRequest, id: RequestId)
    ensures var (after, reply) := CallTurn(w, t, r, Blank(id));
      && reply.id == id
      && (reply.payload.CallPayload? <==> exists result: CallOutcome :: result.ok && EndsWith(w, t, r, after, result, false))
      && (reply.sideEffects <==> exists result: CallOutcome :: result.ok && EndsWith(w, t, r, after, result, true))
      && (reply.sideEffects ==> reply.code == DeadlineExceeded)
      && (reply.payload.CallPayload? ==> reply.code == Ok && reply.payload.calledId == r.deviceId)
      && (reply.code == Ok && !reply.payload.CallPayload? <==>
            exists result: CallOutcome :: !result.ok && result.code == Ok && EndsWith(w, t, r, after, result, false))
  {
    hide CallTurn, Cleared, InTime, EndsWith, TotalNanos;
    var (after, reply) := CallTurn(w, t, r, Blank(id));
    var c := CallCourse(w, t, r, Blank(id));
    match c
    case Refused =>
      NoEnd(w, t, r, after);
    case Called(before, fid) =>
      var result, late := TheEnd(w, t, r, before, fid, Blank(id));
  }

  lemma NoEnd(w: World, t: Trace, r: CallRequest, after: Trace)
    requires t <= after && NoCalls(after, |t|)
    ensures forall result: CallOutcome, late :: !EndsWith(w, t, r, after, result, late)
  {
  }

  /** Once called, the provider's answer and the lateness are settled, and decide the reply. */
  lemma TheEnd(w: World, t: Trace, r: CallRequest, before: Trace, id: nat, blank: Reply)
    returns (result: CallOutcome, late: bool)
    requires t <= before && NoCalls(before, |t|) && Cleared(w, before, |t|, r, id)
    ensures var (after, reply) := CallMade(w, before, r, id, blank);
      && reply == CallDone(r, result, late, blank) && (late ==> result.ok)
      && forall other: CallOutcome, l :: EndsWith(w, t, r, after, other, l) <==> other == result && l == late
  {
    hide Cleared, CallDone, CompareNowTo, TotalNanos;
    var after := CallMade(w, before, r, id, blank).0;
    var called := before + [DoCall(r.deviceId, id, r.args)];
    assert after[..|before|] == before && after[..|before| + 1] == called;
    result := w.call(before, r.deviceId, id, r.args);
    late := result.ok && r.deadline.Some? && TotalNanos(r.deadline.value) < w.clock(called);
    if r.deadline.Some? {
      DeadlineNanos(w, before, |t|, r, id);
      CompareIsOrder(w.clock(called), r.deadline.value);
    }
    assert after[|before|].DoCall?;
    assert forall i | |t| <= i < |after| && after[i].DoCall? :: i == |before|;
  }

  lemma DeadlineNanos(w: World, t: Trace, from: nat, r: CallRequest, id: nat)
    requires Cleared(w, t, from, r, id) && r.deadline.Some?
    ensures 0 <= r.deadline.value.nanos < NANOS_PER_SECOND
  {
    hide DeviceKnown, FunctionResolved, ArgumentsChecked;
  }

  /** With an honest provider: a call payload is present if and only if the status is OK. */
  lemma PayloadIffOk(w: World, t: Trace, r: CallRequest, id: RequestId)
    requires FailsHonestly(w)
    ensures var reply := CallTurn(w, t, r, Blank(id)).1; reply.payload.CallPayload? <==> reply.code == Ok
  {
    hide CallTurn;
    CallReplies(w, t, r, id);
    var (after, reply) := CallTurn(w, t, r, Blank(id));
    forall result: CallOutcome | !result.ok && EndsWith(w, t, r, after, result, false) ensures result.code != Ok {
    }
  }

  // ---- the read path -----------------------------------------------------------------------------------------

  /** What must hold of the history before the provider is read: the device known, every signal asked for declared. */
  predicate ReadCleared(w: World, t: Trace, from: nat, r: ReadRequest) {
    && DeviceKnown(w, t, from, r.deviceId)
    && (r.signalIds != [] ==>
          && t != [] && t[|t| - 1] == AskCapabilities(r.deviceId)
          && AllKnown(r.signalIds, w.capabilities(t[..|t| - 1], r.deviceId).signalIds))
  }

  /**
   The provider's `read` is reached at most once, as the last event, and only for a
   known device whose capabilities name every requested signal.
   */
  lemma ReadGated(w: World, t: Trace, r: ReadRequest, blank: Reply)
    ensures var after := ReadTurn(w, t, r, blank).0;
      && t <= after
      && (forall i | |t| <= i < |after| && after[i].DoRead? ::
            && i == |after| - 1 && after[i] == DoRead(r.deviceId, r.signalIds)
            && ReadCleared(w, after[..i], |t|, r))
  {
    hide AllKnown, ReadDone;
    var after := ReadTurn(w, t, r, blank).0;
    if r.deviceId != "" {
      var t1 := t + [AskHasDevice(r.deviceId)];
      forall i | |t| <= i < |after| && after[i].DoRead? ensures ReadCleared(w, after[..i], |t|, r) {
        var before := after[..i];
        assert before[|t|] == AskHasDevice(r.deviceId) && before[..|t|] == t;
        if r.signalIds != [] { assert before[..|before| - 1] == t1; }
      }
    }
  }

  /** The provider's `read` was reached, and this is what it answered. */
  ghost predicate ReadAnswered(w: World, t: Trace, r: ReadRequest, after: Trace, result: ReadOutcome) {
    exists i | |t| <= i < |after| :: after[i].DoRead? && result == w.read(after[..i], r.deviceId, r.signalIds)
  }

  /**
   The reply to a read, for every provider: signal values exactly when read was
   reached and succeeded, and then all of them, aged; the status OK without values
   exactly when a failed result carried the OK code.
   */
  lemma ReadReplies(w: World, t: Trace, r: ReadRequest, id: RequestId)
    ensures var (after, reply) := ReadTurn(w, t, r, Blank(id));
      && reply.id == id && !reply.sideEffects
      && (reply.payload.SignalsPayload? <==>
            exists result: ReadOutcome :: result.ok && ReadAnswered(w, t, r, after, result))
      && (reply.payload.SignalsPayload? ==>
            && reply.code == Ok && reply.payload.readId == r.deviceId
            && exists result: ReadOutcome :: ReadAnswered(w, t, r, after, result)
                 && reply.payload.values == AllAged(result.values, r.minTimestamp))
      && (reply.code == Ok && !reply.payload.SignalsPayload? <==>
            exists result: ReadOutcome :: !result.ok && result.code == Ok && ReadAnswered(w, t, r, after, result))
  {
    hide AllAged, ReadTurn;
    var (after, reply) := ReadTurn(w, t, r, Blank(id));
    var before := ReadCourse(w, t, r, Blank(id));
    if before.Some? {
      var result := w.read(before.value, r.deviceId, r.signalIds);
      assert after[..|before.value|] == before.value && after[|before.value|].DoRead?;
      assert ReadAnswered(w, t, r, after, result);
      ReadGated(w, t, r, Blank(id));
      assert forall other: ReadOutcome :: ReadAnswered(w, t, r, after, other) ==> other == result;
    } else {
      NotRead(w, t, r, after);
    }
  }

  /** The history at which read is reached, if it is; otherwise the turn is refused. */
  lemma ReadCourse(w: World, t: Trace, r: ReadRequest, blank: Reply) returns (before: Option<Trace>)
    ensures var (after, reply) := ReadTurn(w, t, r, blank);
      match before
      case Some(b) =>
        && t <= b && after == b + [DoRead(r.deviceId, r.signalIds)]
        && reply == ReadDone(r, w.read(b, r.deviceId, r.signalIds), blank)
      case None =>
        && |t| <= |after| && (forall i | |t| <= i < |after| :: !after[i].DoRead?)
        && reply == blank.(code := reply.code) && reply.code != Ok
  {
    hide AllKnown, ReadDone;
    var t1 := t + [AskHasDevice(r.deviceId)];
    var t2 := if r.signalIds == [] then t1 else t1 + [AskCapabilities(r.deviceId)];
    if r.deviceId != "" && w.hasDevice(t, r.deviceId)
       && (r.signalIds == [] || AllKnown(r.signalIds, w.capabilities(t1, r.deviceId).signalIds)) {
      before := Some(t2);
    } else {
      before := None;
    }
  }

  lemma NotRead(w: World, t: Trace, r: ReadRequest, after: Trace)
    requires forall i | |t| <= i < |after| :: !after[i].DoRead?
    ensures forall result: ReadOutcome :: !ReadAnswered(w, t, r, after, result)
  {
  }

  /** With an honest provider, partial reads never happen: signal values are returned iff the status is OK. */
  lemma SignalsIffOk(w: World, t: Trace, r: ReadRequest, id: RequestId)
    requires FailsHonestly(w)
    ensures var reply := ReadTurn(w, t, r, Blank(id)).1; reply.payload.SignalsPayload? <==> reply.code == Ok
  {
    hide ReadTurn;
    ReadReplies(w, t, r, id);
    var (after, reply) := ReadTurn(w, t, r, Blank(id));
    forall result: ReadOutcome | !result.ok && ReadAnswered(w, t, r, after, result) ensures result.code != Ok {
    }
  }

  // ---- a dishonest provider ------------------------------------------------------------------------------

  /** A world whose every call and read fails with the OK code. */
  function LyingWorld(): World {
    World(t => Metadata("", "", "", map[]), (t, d) => true, (t, d, name) => None, (t, d) => Capabilities([], []),
          (t, d, ids) => ReadOutcome(false, Ok, []), (t, d, f, args) => CallOutcome(false, Ok, map[]), t => 0)
  }

  /** Such failures come out as OK without a payload, on both paths, from any history. */
  lemma LiesPassAsOk(t: Trace, device: string, id: RequestId)
    requires device != ""
    ensures !FailsHonestly(LyingWorld())
    ensures CallTurn(LyingWorld(), t, CallRequest(device, 1, "", map[], None), Blank(id)).1
         == Blank(id).(code := Ok)
    ensures ReadTurn(LyingWorld(), t, ReadRequest(device, [], None), Blank(id)).1 == Blank(id).(code := Ok)
  {
    var w := LyingWorld();
    assert !w.call([], "", 0, map[]).ok && w.call([], "", 0, map[]).code == Ok;
    assert FirstSpec([], 1) == None;
  }

  /** Hello is accepted exactly for the provider's own protocol version. */
  lemma HelloAccepted(meta: Metadata, version: string, id: RequestId)
    ensures var reply := HelloReply(meta, version, Blank(id));
      && (reply.code == Ok <==> version == meta.protocolVersion)
      && (reply.payload.HelloPayload? <==> reply.code == Ok)
      && (reply.payload.HelloPayload? ==>
            forall k | k in reply.payload.metadata ::
              reply.payload.metadata[k] == if k in meta.extra then meta.extra[k] else HelloMetadata(map[])[k])
  {
    assert forall k | k in HelloMetadata(meta.extra) :: k in meta.extra || k in HelloMetadata(map[]);
  }
}
