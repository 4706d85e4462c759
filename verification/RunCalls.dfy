/**
 The gated call and read paths, and what is sent for each request, carried over whole
 runs of the serving loop (src/anolis/provider_sdk/runtime.cpp:50-118,
 src/anolis/provider_sdk/handlers.cpp:271-380).
 */
module RunCalls {
  import opened Base
  import opened Protocol
  import opened Handlers
  import opened Transport
  import opened Runtime
  import opened CallPath
  import opened ServingFacts

  /** From the `from`-th event on, the provider is called at most once, for this request, from a cleared history. */
  predicate CallsCleared(w: World, t: Trace, from: nat, request: Request) {
    forall i | from <= i < |t| && t[i].DoCall? ::
      && request.body.Call?
      && t[i] == DoCall(request.body.call.deviceId, t[i].functionId, request.body.call.args)
      && Cleared(w, t[..i], from, request.body.call, t[i].functionId)
      && forall j | from <= j < |t| && t[j].DoCall? :: j == i
  }

  /** The same for reads, which are also the last event of their turn. */
  predicate ReadsCleared(w: World, t: Trace, from: nat, request: Request) {
    forall i | from <= i < |t| && t[i].DoRead? ::
      && request.body.ReadSignals? && i == |t| - 1
      && t[i] == DoRead(request.body.read.deviceId, request.body.read.signalIds)
      && ReadCleared(w, t[..i], from, request.body.read)
  }

  /** A history cleared since some event is cleared since any earlier one. */
  lemma ClearedEarlier(w: World, t: Trace, from: nat, later: nat, r: CallRequest, id: nat)
    requires from <= later && Cleared(w, t, later, r, id)
    ensures Cleared(w, t, from, r, id)
  {
    hide CallValidation.Conforms, FirstSpec, TotalNanos;
  }

  lemma DispatchCalls(w: World, t: Trace, hello: bool, request: Request)
    ensures t <= Dispatched(w, t, hello, request).0
    ensures CallsCleared(w, Dispatched(w, t, hello, request).0, |t|, request)
    ensures ReadsCleared(w, Dispatched(w, t, hello, request).0, |t|, request)
  {
    hide CallTurn, ReadTurn, Cleared, HelloReply, ReadCleared;
    DispatchExtends(w, t, hello, request);
    match request.body
    case Call(r) =>
      CallGated(w, t, r, Blank(request.id));
      CallMakesNoRead(w, t, r, Blank(request.id));
    case ReadSignals(r) =>
      ReadGated(w, t, r, Blank(request.id));
      ReadMakesNoCall(w, t, r, Blank(request.id));
    case _ =>
  }

  lemma ReadMakesNoCall(w: World, t: Trace, r: ReadRequest, blank: Reply)
    ensures var after := ReadTurn(w, t, r, blank).0; |t| <= |after| && NoCalls(after, |t|)
  {
    hide AllKnown, ReadDone;
  }

  predicate NoReads(t: Trace, from: nat) {
    forall i | from <= i < |t| :: !t[i].DoRead?
  }

  lemma CallMakesNoRead(w: World, t: Trace, r: CallRequest, blank: Reply)
    ensures NoReads(CallTurn(w, t, r, blank).0, |t|)
  {
    hide CallDone, FirstSpec, CallValidation.Conforms, IsValidTimestamp, CompareNowTo;
  }

  lemma ArrivalCalls(w: World, t: Trace, arrived: Trace, after: Trace, request: Request)
    requires t <= arrived <= after && NoCalls(arrived, |t|) && CallsCleared(w, after, |arrived|, request)
    ensures CallsCleared(w, after, |t|, request)
  {
    hide Cleared;
    assert forall i | |t| <= i < |arrived| :: after[i] == arrived[i];
    forall i | |arrived| <= i < |after| && after[i].DoCall?
      ensures Cleared(w, after[..i], |t|, request.body.call, after[i].functionId)
    {
      ClearedEarlier(w, after[..i], |t|, |arrived|, request.body.call, after[i].functionId);
    }
  }

  lemma ArrivalReads(w: World, t: Trace, arrived: Trace, after: Trace, request: Request)
    requires t <= arrived <= after && NoReads(arrived, |t|) && ReadsCleared(w, after, |arrived|, request)
    ensures ReadsCleared(w, after, |t|, request)
  {
    hide ReadCleared;
    assert forall i | |t| <= i < |arrived| :: after[i] == arrived[i];
    forall i | |arrived| <= i < |after| && after[i].DoRead? ensures ReadCleared(w, after[..i], |t|, request.body.read) {
      ReadClearedEarlier(w, after[..i], |t|, |arrived|, request.body.read);
    }
  }

  lemma ReadClearedEarlier(w: World, t: Trace, from: nat, later: nat, r: ReadRequest)
    requires from <= later && ReadCleared(w, t, later, r)
    ensures ReadCleared(w, t, from, r)
  {
    hide AllKnown;
  }

  /** One turn, kept: its calls and reads passed their gates, and what was sent is the reply unless it could not be framed. */
  predicate TurnKept(w: World, c: Codec, t: Trace, turn: Turn) {
    && CallsCleared(w, t + turn.events, |t|, turn.request)
    && ReadsCleared(w, t + turn.events, |t|, turn.request)
    && turn.sent == SentReply(c, t + turn.events, turn.reply)
  }

  lemma TurnIsKept(w: World, c: Codec, fate: nat -> Fate, s: Session, t: Trace, o: Output, request: Request)
    ensures var turn := TurnOf(w, c, fate, s, t, o, request); TurnKept(w, c, t, turn) && turn.request == request
  {
    hide Dispatched, SentBytes, SentReply, Pushed, CallsCleared, ReadsCleared;
    var arrived := Arrived(t, s, request);
    var after := Dispatched(w, arrived, s.helloCompleted, request).0;
    TurnExtends(w, c, fate, s, t, o, request);
    DispatchCalls(w, arrived, s.helloCompleted, request);
    ArrivalCalls(w, t, arrived, after, request);
    ArrivalReads(w, t, arrived, after, request);
  }

  /** The history when the k-th turn begins. */
  function HistoryAt(t: Trace, turns: seq<Turn>, k: nat): Trace
    requires k <= |turns|
  {
    t + Flatten(EventsOf(turns)[..k])
  }

  predicate AllKept(w: World, c: Codec, t: Trace, turns: seq<Turn>) {
    forall k: nat | k < |turns| :: TurnKept(w, c, HistoryAt(t, turns, k), turns[k])
  }

  lemma HistoryStep(t: Trace, turn: Turn, rest: seq<Turn>, k: nat)
    requires k <= |rest|
    ensures HistoryAt(t, [turn] + rest, k + 1) == HistoryAt(t + turn.events, rest, k)
    ensures HistoryAt(t, [turn] + rest, 0) == t
  {
    var all := EventsOf([turn] + rest);
    assert all[..k + 1][1..] == EventsOf(rest)[..k] && all[..k + 1][0] == turn.events;
    assert t + (turn.events + Flatten(EventsOf(rest)[..k])) == t + turn.events + Flatten(EventsOf(rest)[..k]);
    assert all[..0] == [];
  }

  lemma TurnsAfter(w: World, c: Codec, t: Trace, turn: Turn, rest: seq<Turn>)
    requires TurnKept(w, c, t, turn) && AllKept(w, c, t + turn.events, rest)
    ensures AllKept(w, c, t, [turn] + rest)
  {
    hide TurnKept, HistoryAt;
    var all := [turn] + rest;
    forall k: nat | k < |all| ensures TurnKept(w, c, HistoryAt(t, all, k), all[k]) {
      if k == 0 {
        HistoryStep(t, turn, rest, 0);
      } else {
        HistoryStep(t, turn, rest, k - 1);
        assert all[k] == rest[k - 1] && TurnKept(w, c, HistoryAt(t + turn.events, rest, k - 1), rest[k - 1]);
      }
    }
  }

  lemma NoneKept(w: World, c: Codec, t: Trace)
    ensures AllKept(w, c, t, [])
  {
  }

  lemma {:induction false} ServeKeeps(w: World, c: Codec, fate: nat -> Fate, input: seq<Byte>, s: Session, t: Trace,
                                      o: Output)
    ensures AllKept(w, c, t, Serve(w, c, fate, input, s, t, o).turns)
    decreases |input|
  {
    hide TurnOf, Pushed, FirstFrame, TurnKept, AllKept;
    NoneKept(w, c, t);
    match FirstFrame(input, MAX_FRAME_BYTES)
    case CleanEof =>
    case Failed(_) =>
    case Frame(p) =>
      if c.parse(p).Some? {
        var request := c.parse(p).value;
        var turn := TurnOf(w, c, fate, s, t, o, request);
        TurnIsKept(w, c, fate, s, t, o, request);
        if turn.result != Written {
          NoneKept(w, c, t + turn.events);
          TurnsAfter(w, c, t, turn, []);
          assert [turn] + [] == [turn];
        } else {
          var next := NextSession(s, request, turn.reply);
          var after := Pushed(fate, o, turn.bytes, MAX_FRAME_BYTES).0;
          ServeKeeps(w, c, fate, input[4 + |p|..], next, t + turn.events, after);
          TurnsAfter(w, c, t, turn, Serve(w, c, fate, input[4 + |p|..], next, t + turn.events, after).turns);
        }
      }
  }

  /**
   Over every whole run: every call and every read the provider receives lies in the
   turn of a request for it, for that request's device, at most once per turn, and from
   a history in which every gate of that turn was passed; and what goes out for each
   request is the handler's reply, unless that could not be framed.
   */
  lemma EveryTurnKept(w: World, c: Codec, fate: nat -> Fate, input: seq<Byte>)
    ensures AllKept(w, c, [], WholeRun(w, c, fate, input, [], Output([], 0, true)).turns)
  {
    hide AllKept, Serve;
    ServeKeeps(w, c, fate, input, Session(false, false), [], Output([], 0, true));
  }
}
