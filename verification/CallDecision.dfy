/**
 When the provider must be called, and what the answer is when it is not
 (src/anolis/provider_sdk/handlers.cpp:317-396), said of the provider's answers and the
 clock alone: the gates in order, the questions each has cost, its code.
 */
module CallDecision {
  import opened Base
  import opened Protocol
  import opened CallValidation
  import opened Handlers

  // ---- the gates of a call ---------------------------------------------------------------------

  datatype Gate = DeviceNamed | DeviceKnown | FunctionNamed | FunctionFound | ArgumentsFit | DeadlineValid | DeadlineAhead

  /** The gates, in the order they are tried. */
  const GATES := [DeviceNamed, DeviceKnown, FunctionNamed, FunctionFound, ArgumentsFit, DeadlineValid, DeadlineAhead]

  /** The questions put to provider and clock by the time the gate is decided. */
  function Asked(r: CallRequest, g: Gate): Trace {
    var device := [AskHasDevice(r.deviceId)];
    var named := device + When(r.functionId == 0, AskFunctionId(r.deviceId, r.functionName));
    var declared := named + [AskCapabilities(r.deviceId)];
    match g
    case DeviceNamed => []
    case DeviceKnown => device
    case FunctionNamed => device
    case FunctionFound => named
    case ArgumentsFit => declared
    case DeadlineValid => declared
    case DeadlineAhead => declared + When(r.deadline.Some?, AskClock)
  }

  /** The request's own id or, when it gives none, the one the provider resolves its name to. */
  function FunctionMeant(w: World, t: Trace, r: CallRequest): Option<nat> {
    if r.functionId != 0 then Some(r.functionId)
    else w.functionId(t + Asked(r, DeviceKnown), r.deviceId, r.functionName)
  }

  function DeclaredFunctions(w: World, t: Trace, r: CallRequest): seq<FunctionSpec> {
    w.capabilities(t + Asked(r, FunctionFound), r.deviceId).functions
  }

  /** The `i`-th function is the first with the id. */
  predicate IsFirst(functions: seq<FunctionSpec>, id: nat, i: int) {
    0 <= i < |functions| && functions[i].id == id && forall j | 0 <= j < i :: functions[j].id != id
  }

  ghost predicate Passes(w: World, t: Trace, r: CallRequest, g: Gate) {
    match g
    case DeviceNamed => r.deviceId != ""
    case DeviceKnown => w.hasDevice(t, r.deviceId)
    case FunctionNamed => r.functionId != 0 || r.functionName != ""
    case FunctionFound => FunctionMeant(w, t, r).Some?
    case ArgumentsFit =>
      FunctionMeant(w, t, r).Some? ==>
        forall i | IsFirst(DeclaredFunctions(w, t, r), FunctionMeant(w, t, r).value, i) ::
          Conforms(DeclaredFunctions(w, t, r)[i], r.args)
    case DeadlineValid =>
      r.deadline.Some? ==>
        && -62135596800 <= r.deadline.value.seconds <= 253402300799
        && 0 <= r.deadline.value.nanos < 1_000_000_000
    case DeadlineAhead =>
      r.deadline.Some? ==>
        w.clock(t + Asked(r, ArgumentsFit)) < r.deadline.value.seconds * 1_000_000_000 + r.deadline.value.nanos
  }

  /** What a refusal at the gate is answered with; a breach of the arguments has its own code. */
  ghost predicate Refuses(w: World, t: Trace, r: CallRequest, g: Gate, code: Code) {
    match g
    case DeviceNamed => code == InvalidArgument
    case DeviceKnown => code == NotFound
    case FunctionNamed => code == InvalidArgument
    case FunctionFound => code == NotFound
    case ArgumentsFit =>
      FunctionMeant(w, t, r).Some? &&
      exists i, e ::
        && IsFirst(DeclaredFunctions(w, t, r), FunctionMeant(w, t, r).value, i)
        && Reports(DeclaredFunctions(w, t, r)[i], r.args, e) && code == e.code
    case DeadlineValid => code == InvalidArgument
    case DeadlineAhead => code == DeadlineExceeded
  }

  ghost predicate AllPass(w: World, t: Trace, r: CallRequest) {
    forall g :: Passes(w, t, r, g)
  }

  /** The `k`-th gate is the first the request fails. */
  ghost predicate FailsAt(w: World, t: Trace, r: CallRequest, k: nat) {
    k < |GATES| && !Passes(w, t, r, GATES[k]) && forall j | 0 <= j < k :: Passes(w, t, r, GATES[j])
  }

  // ---- the first function with the id --------------------------------------------------------------

  lemma {:induction false} FirstSpecIsFirst(functions: seq<FunctionSpec>, id: nat)
    ensures match FirstSpec(functions, id)
      case None => forall i :: !IsFirst(functions, id, i)
      case Some(spec) => exists i :: IsFirst(functions, id, i) && functions[i] == spec
  {
    if functions != [] && functions[0].id == id {
      assert IsFirst(functions, id, 0);
    } else if functions != [] {
      var rest := functions[1..];
      FirstSpecIsFirst(rest, id);
      forall i ensures IsFirst(functions, id, i + 1) <==> IsFirst(rest, id, i) {
        assert forall j | 0 <= j < |rest| :: rest[j] == functions[j + 1];
        if IsFirst(rest, id, i) {
          assert forall j | 1 <= j < i + 1 :: functions[j] == rest[j - 1];
        }
        if IsFirst(functions, id, i + 1) {
          assert forall j | 0 <= j < i :: rest[j].id == functions[j + 1].id;
        }
      }
      assert !IsFirst(functions, id, 0);
      if FirstSpec(functions, id).Some? {
        var i :| IsFirst(rest, id, i) && rest[i] == FirstSpec(functions, id).value;
        assert IsFirst(functions, id, i + 1);
      } else {
        forall i ensures !IsFirst(functions, id, i) {
          if i > 0 { assert IsFirst(functions, id, i - 1 + 1) <==> IsFirst(rest, id, i - 1); }
        }
      }
    }
  }

  lemma FirstUnique(functions: seq<FunctionSpec>, id: nat, i: int, j: int)
    requires IsFirst(functions, id, i) && IsFirst(functions, id, j)
    ensures i == j
  {
  }

  /** The check of the arguments, said of the list of functions itself. */
  lemma ArgumentsDecided(functions: seq<FunctionSpec>, id: nat, args: ValueMap)
    ensures var spec := FirstSpec(functions, id);
      && (spec.Some? && !Conforms(spec.value, args) <==>
            exists i :: IsFirst(functions, id, i) && !Conforms(functions[i], args))
      && (spec.Some? && !Conforms(spec.value, args) ==>
            exists i, e :: IsFirst(functions, id, i) && Reports(functions[i], args, e)
              && ReportOf(spec.value, args).code == e.code)
  {
    hide Conforms, Reports;
    FirstSpecIsFirst(functions, id);
    var spec := FirstSpec(functions, id);
    if spec.Some? {
      var i :| IsFirst(functions, id, i) && functions[i] == spec.value;
      forall j | IsFirst(functions, id, j) ensures j == i { FirstUnique(functions, id, i, j); }
      if !Conforms(spec.value, args) {
        assert Reports(functions[i], args, ReportOf(spec.value, args));
      }
    }
  }

  // ---- the call --------------------------------------------------------------------------------------

  /** What a provider that succeeded in time has its results sent as: its own, or `accepted = true` for none. */
  function ResultsSent(results: ValueMap): ValueMap {
    if results.Keys == {} then map["accepted" := Value(BoolType, BoolField(true))] else results
  }

  /** The reply once the provider has answered `result`, `late` being whether the deadline passed meanwhile. */
  predicate Answers(r: CallRequest, result: CallOutcome, late: bool, blank: Reply, reply: Reply) {
    && reply.id == blank.id
    && (!result.ok ==> reply == blank.(code := result.code))
    && (result.ok && late ==> reply == blank.(code := DeadlineExceeded, sideEffects := true))
    && (result.ok && !late ==>
          reply == blank.(code := Ok, payload := CallPayload(r.deviceId, ResultsSent(result.results))))
  }

  /**
   The whole decision: when every gate is passed the provider is called, once, with the
   function meant, right after the questions, and its answer decides the reply; when one
   is not, the first such gate decides the code, and nothing is asked after it.
   */
  lemma CallDecided(w: World, t: Trace, r: CallRequest, blank: Reply)
    ensures AllPass(w, t, r) ==> CallHappens(w, t, r, blank, CallTurn(w, t, r, blank))
    ensures forall k: nat | FailsAt(w, t, r, k) :: CallRefused(w, t, r, blank, GATES[k], CallTurn(w, t, r, blank))
    ensures AllPass(w, t, r) || exists k: nat :: FailsAt(w, t, r, k)
    ensures AllPass(w, t, r) <==> exists i | |t| <= i < |CallTurn(w, t, r, blank).0| :: CallTurn(w, t, r, blank).0[i].DoCall?
  {
    hide CallTurn, Passes, CallHappens, CallRefused;
    if AllPass(w, t, r) {
      CalledWhenClear(w, t, r, blank);
      CallThere(w, t, r, blank, CallTurn(w, t, r, blank));
    } else {
      var k := FirstFailure(w, t, r);
      RefusedAt(w, t, r, blank, k);
      NoCallThere(w, t, r, blank, GATES[k], CallTurn(w, t, r, blank));
    }
    forall k: nat | FailsAt(w, t, r, k) ensures CallRefused(w, t, r, blank, GATES[k], CallTurn(w, t, r, blank)) {
      RefusedAt(w, t, r, blank, k);
    }
  }

  ghost predicate CallHappens(w: World, t: Trace, r: CallRequest, blank: Reply, turn: (Trace, Reply)) {
    var before := t + Asked(r, DeadlineAhead);
    && FunctionMeant(w, t, r).Some?
    && var id := FunctionMeant(w, t, r).value;
    var result := w.call(before, r.deviceId, id, r.args);
    var called := before + [DoCall(r.deviceId, id, r.args)];
    var late := r.deadline.Some? &&
      r.deadline.value.seconds * 1_000_000_000 + r.deadline.value.nanos < w.clock(called);
    && turn.0 == called + When(result.ok && r.deadline.Some?, AskClock)
    && Answers(r, result, late, blank, turn.1)
  }

  ghost predicate CallRefused(w: World, t: Trace, r: CallRequest, blank: Reply, g: Gate, turn: (Trace, Reply)) {
    && turn.0 == t + Asked(r, g)
    && turn.1 == blank.(code := turn.1.code)
    && Refuses(w, t, r, g, turn.1.code)
  }

  // ---- stage by stage --------------------------------------------------------------------------------

  lemma ToChecked(w: World, t: Trace, r: CallRequest, blank: Reply)
    requires Passes(w, t, r, DeviceNamed) && Passes(w, t, r, DeviceKnown) && Passes(w, t, r, FunctionNamed)
    requires Passes(w, t, r, FunctionFound)
    ensures CallTurn(w, t, r, blank) == CallChecked(w, t + Asked(r, FunctionFound), r, FunctionMeant(w, t, r).value, blank)
  {
    hide CallChecked;
    assert t + [AskHasDevice(r.deviceId)] + [AskFunctionId(r.deviceId, r.functionName)]
        == t + ([AskHasDevice(r.deviceId)] + [AskFunctionId(r.deviceId, r.functionName)]);
    assert [AskHasDevice(r.deviceId)] + [] == [AskHasDevice(r.deviceId)];
  }

  lemma ToTimed(w: World, t: Trace, r: CallRequest, blank: Reply)
    requires Passes(w, t, r, FunctionFound) && Passes(w, t, r, ArgumentsFit)
    ensures var id := FunctionMeant(w, t, r).value;
      CallChecked(w, t + Asked(r, FunctionFound), r, id, blank) == CallTimed(w, t + Asked(r, ArgumentsFit), r, id, blank)
  {
    hide CallTimed, Conforms, FirstSpec, IsFirst;
    var id := FunctionMeant(w, t, r).value;
    ArgumentsDecided(DeclaredFunctions(w, t, r), id, r.args);
    assert t + Asked(r, FunctionFound) + [AskCapabilities(r.deviceId)] == t + Asked(r, ArgumentsFit);
  }

  lemma ToMade(w: World, t: Trace, r: CallRequest, id: nat, blank: Reply)
    requires Passes(w, t, r, DeadlineValid) && Passes(w, t, r, DeadlineAhead)
    ensures CallTimed(w, t + Asked(r, ArgumentsFit), r, id, blank) == CallMade(w, t + Asked(r, DeadlineAhead), r, id, blank)
  {
    hide CallMade, CompareNowTo;
    var now := w.clock(t + Asked(r, ArgumentsFit));
    if r.deadline.Some? { CompareIsOrder(now, r.deadline.value); }
    assert t + Asked(r, ArgumentsFit) + When(r.deadline.Some?, AskClock) == t + Asked(r, DeadlineAhead);
    assert t + Asked(r, ArgumentsFit) + [] == t + Asked(r, ArgumentsFit);
  }

  lemma MadeAnswers(w: World, t: Trace, r: CallRequest, blank: Reply)
    requires Passes(w, t, r, FunctionFound) && Passes(w, t, r, DeadlineValid)
    ensures CallHappens(w, t, r, blank,
      CallMade(w, t + Asked(r, DeadlineAhead), r, FunctionMeant(w, t, r).value, blank))
  {
    hide CompareNowTo, Asked;
    var before, id := t + Asked(r, DeadlineAhead), FunctionMeant(w, t, r).value;
    var called := before + [DoCall(r.deviceId, id, r.args)];
    if r.deadline.Some? { CompareIsOrder(w.clock(called), r.deadline.value); }
    assert called + [] == called;
    NoResults(w.call(before, r.deviceId, id, r.args).results);
  }

  lemma NoResults(results: ValueMap)
    ensures AcceptedResults(results) == ResultsSent(results)
  {
    assert results == map[] <==> results.Keys == {};
  }

  lemma CalledWhenClear(w: World, t: Trace, r: CallRequest, blank: Reply)
    requires AllPass(w, t, r)
    ensures CallHappens(w, t, r, blank, CallTurn(w, t, r, blank))
  {
    hide Passes, CallTurn, CallChecked, CallTimed, CallMade, CallHappens;
    MeantIsSome(w, t, r);
    ToChecked(w, t, r, blank);
    ToTimed(w, t, r, blank);
    ToMade(w, t, r, FunctionMeant(w, t, r).value, blank);
    MadeAnswers(w, t, r, blank);
  }

  lemma MeantIsSome(w: World, t: Trace, r: CallRequest)
    requires Passes(w, t, r, FunctionFound)
    ensures FunctionMeant(w, t, r).Some?
  {
  }

  lemma RefusedEarly(w: World, t: Trace, r: CallRequest, blank: Reply, k: nat)
    requires FailsAt(w, t, r, k) && k < 4
    ensures CallRefused(w, t, r, blank, GATES[k], CallTurn(w, t, r, blank))
  {
    hide CallChecked;
    assert t + [] == t;
    assert t + [AskHasDevice(r.deviceId)] + [AskFunctionId(r.deviceId, r.functionName)]
        == t + ([AskHasDevice(r.deviceId)] + [AskFunctionId(r.deviceId, r.functionName)]);
    assert GATES[0] == DeviceNamed && GATES[1] == DeviceKnown && GATES[2] == FunctionNamed && GATES[3] == FunctionFound;
    assert forall j | 0 <= j < k :: Passes(w, t, r, GATES[j]);
  }

  lemma RefusedArguments(w: World, t: Trace, r: CallRequest, blank: Reply)
    requires Passes(w, t, r, FunctionFound) && !Passes(w, t, r, ArgumentsFit)
    ensures CallRefused(w, t, r, blank, ArgumentsFit,
      CallChecked(w, t + Asked(r, FunctionFound), r, FunctionMeant(w, t, r).value, blank))
  {
    hide CallTimed, Conforms, Reports, FirstSpec, IsFirst, ReportOf;
    var functions, id := DeclaredFunctions(w, t, r), FunctionMeant(w, t, r).value;
    ArgumentsDecided(functions, id, r.args);
    assert FirstSpec(functions, id).Some? && !Conforms(FirstSpec(functions, id).value, r.args);
    assert t + Asked(r, FunctionFound) + [AskCapabilities(r.deviceId)] == t + Asked(r, ArgumentsFit);
  }

  lemma RefusedDeadline(w: World, t: Trace, r: CallRequest, id: nat, blank: Reply)
    ensures !Passes(w, t, r, DeadlineValid) ==>
      CallRefused(w, t, r, blank, DeadlineValid, CallTimed(w, t + Asked(r, ArgumentsFit), r, id, blank))
    ensures Passes(w, t, r, DeadlineValid) && !Passes(w, t, r, DeadlineAhead) ==>
      CallRefused(w, t, r, blank, DeadlineAhead, CallTimed(w, t + Asked(r, ArgumentsFit), r, id, blank))
  {
    hide CallMade, CompareNowTo;
    var now := w.clock(t + Asked(r, ArgumentsFit));
    if r.deadline.Some? && IsValidTimestamp(r.deadline.value) { CompareIsOrder(now, r.deadline.value); }
    assert t + Asked(r, ArgumentsFit) + When(r.deadline.Some?, AskClock) == t + Asked(r, DeadlineAhead);
  }

  lemma RefusedAt(w: World, t: Trace, r: CallRequest, blank: Reply, k: nat)
    requires FailsAt(w, t, r, k)
    ensures CallRefused(w, t, r, blank, GATES[k], CallTurn(w, t, r, blank))
  {
    hide Passes, CallTurn, CallChecked, CallTimed, CallRefused;
    if k < 4 {
      RefusedEarly(w, t, r, blank, k);
    } else {
      assert GATES[0] == DeviceNamed && GATES[1] == DeviceKnown && GATES[2] == FunctionNamed;
      assert GATES[3] == FunctionFound && GATES[4] == ArgumentsFit && GATES[5] == DeadlineValid;
      assert GATES[6] == DeadlineAhead;
      MeantIsSome(w, t, r);
      ToChecked(w, t, r, blank);
      if k == 4 {
        RefusedArguments(w, t, r, blank);
      } else {
        ToTimed(w, t, r, blank);
        RefusedDeadline(w, t, r, FunctionMeant(w, t, r).value, blank);
      }
    }
  }

  lemma FirstFailure(w: World, t: Trace, r: CallRequest) returns (k: nat)
    requires !AllPass(w, t, r)
    ensures FailsAt(w, t, r, k)
  {
    hide Passes;
    k := 0;
    while k < |GATES| && Passes(w, t, r, GATES[k])
      invariant k <= |GATES| && forall j | 0 <= j < k :: Passes(w, t, r, GATES[j])
    {
      k := k + 1;
    }
    if k == |GATES| {
      assert GATES[0] == DeviceNamed && GATES[1] == DeviceKnown && GATES[2] == FunctionNamed;
      assert GATES[3] == FunctionFound && GATES[4] == ArgumentsFit && GATES[5] == DeadlineValid;
      assert GATES[6] == DeadlineAhead;
      forall g ensures Passes(w, t, r, g) {
        match g
        case DeviceNamed =>
        case DeviceKnown =>
        case FunctionNamed =>
        case FunctionFound =>
        case ArgumentsFit =>
        case DeadlineValid =>
        case DeadlineAhead =>
      }
    }
  }

  lemma CallThere(w: World, t: Trace, r: CallRequest, blank: Reply, turn: (Trace, Reply))
    requires CallHappens(w, t, r, blank, turn)
    ensures exists i | |t| <= i < |turn.0| :: turn.0[i].DoCall?
  {
    assert turn.0[|t| + |Asked(r, DeadlineAhead)|].DoCall?;
  }

  lemma NoCallThere(w: World, t: Trace, r: CallRequest, blank: Reply, g: Gate, turn: (Trace, Reply))
    requires CallRefused(w, t, r, blank, g, turn)
    ensures forall i | |t| <= i < |turn.0| :: !turn.0[i].DoCall?
  {
    hide Refuses;
  }
}
