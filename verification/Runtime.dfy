/**
 The serving loop (src/anolis/provider_sdk/runtime.cpp:17-123): framing, the Hello
 gate, one-shot start-up, dispatch, the over-cap fallback, exit codes and the
 shutdown guard. `Serve` is its specification; ServingFacts and Conservation
 prove what every run keeps.
 */
module Runtime {
  import opened Base
  import opened Protocol
  import opened Handlers
  import opened Transport

  /**
   The protobuf codec. What it writes may depend on the whole history, since message
   texts are not part of a Reply.
   */
  datatype Codec = Codec(
    parse: seq<Byte> -> Option<Request>,
    encode: (Trace, Reply) -> Option<seq<Byte>>,
    decode: seq<Byte> -> Option<Reply>)

  datatype Session = Session(helloCompleted: bool, initialized: bool)

  /** WaitReady's hint, or 0 for any other request. */
  function InitializeBudget(request: Request): nat {
    if request.body.WaitReady? then request.body.maxWaitMs else 0
  }

  // ---- one request ---------------------------------------------------------------------------------

  function DescribeTurn(w: World, t: Trace, device: string, blank: Reply): (Trace, Reply) {
    if device == "" then (t, blank.(code := InvalidArgument))
    else if !w.hasDevice(t, device) then (t + [AskHasDevice(device)], blank.(code := NotFound))
    else (t + [AskHasDevice(device), AskDevice(device), AskCapabilities(device)],
          blank.(code := Ok, payload := DevicePayload(device)))
  }

  ghost function Dispatched(w: World, t: Trace, hello: bool, request: Request): (Trace, Reply) {
    var blank := Blank(request.id);
    match request.body
    case Hello(version) => (t + [AskMetadata], HelloReply(w.metadata(t), version, blank))
    case body =>
      if !hello then (t, blank.(code := FailedPrecondition))
      else match body
        case WaitReady(_) =>
          (t + [AskReadiness, AskMetadata, OnWaitReady], blank.(code := Ok, payload := WaitReadyPayload))
        case ListDevices(health) => (t + [AskInventory(health)], blank.(code := Ok, payload := DevicesPayload))
        case DescribeDevice(device) => DescribeTurn(w, t, device, blank)
        case ReadSignals(r) => ReadTurn(w, t, r, blank)
        case Call(r) => CallTurn(w, t, r, blank)
        case GetHealth => (t + [AskHealth], blank.(code := Ok, payload := HealthPayload))
        case _ => (t, blank.(code := Unimplemented))
  }

  predicate Opens(s: Session, request: Request) {
    s.helloCompleted && !s.initialized && !request.body.Hello?
  }

  function Arrived(t: Trace, s: Session, request: Request): Trace {
    t + [Received(request)] + if Opens(s, request) then [Initialize(InitializeBudget(request))] else []
  }

  function NextSession(s: Session, request: Request, reply: Reply): Session {
    Session(s.helloCompleted || (request.body.Hello? && reply.code == Ok), s.initialized || Opens(s, request))
  }

  method HandleDescribeDevice(w: World, log: Vector<Event>, device: string, response: Response)
    modifies log, response
    ensures (log.items, response.Contents()) == DescribeTurn(w, old(log.items), device, old(response.Contents()))
  {
    if device == "" {
      response.SetStatus(InvalidArgument);
      return;
    }
    var known := w.hasDevice(log.items, device);
    log.PushBack(AskHasDevice(device));
    if !known {
      response.SetStatus(NotFound);
      return;
    }
    log.PushBack(AskDevice(device));
    log.PushBack(AskCapabilities(device));
    assert log.items == old(log.items) + [AskHasDevice(device), AskDevice(device), AskCapabilities(device)];
    response.SetPayload(DevicePayload(device));
    response.SetStatus(Ok);
  }

  method Answer(log: Vector<Event>, events: Trace, payload: Payload, response: Response)
    modifies log, response
    ensures log.items == old(log.items) + events
    ensures response.Contents() == old(response.Contents()).(code := Ok, payload := payload)
  {
    log.Append(events);
    response.SetPayload(payload);
    response.SetStatus(Ok);
  }

  /** The dispatch on the request's body, after the Hello gate. */
  method Dispatch(w: World, log: Vector<Event>, hello: bool, request: Request, response: Response)
    requires response.Contents() == Blank(request.id)
    modifies log, response
    ensures (log.items, response.Contents()) == Dispatched(w, old(log.items), hello, request)
  {
    hide CallTurn, ReadTurn, HelloReply;
    var body := request.body;
    if body.Hello? {
      HandleHello(w, log, body.protocolVersion, response);
    } else if !hello {
      response.SetStatus(FailedPrecondition);
    } else if body.WaitReady? {
      Answer(log, [AskReadiness, AskMetadata], WaitReadyPayload, response);
      log.PushBack(OnWaitReady);
      assert log.items == old(log.items) + [AskReadiness, AskMetadata, OnWaitReady];
    } else if body.ListDevices? {
      Answer(log, [AskInventory(body.includeHealth)], DevicesPayload, response);
    } else if body.DescribeDevice? {
      HandleDescribeDevice(w, log, body.deviceId, response);
    } else if body.ReadSignals? {
      HandleReadSignals(w, log, body.read, response);
    } else if body.Call? {
      HandleCall(w, log, body.call, response);
    } else if body.GetHealth? {
      Answer(log, [AskHealth], HealthPayload, response);
    } else {
      response.SetStatus(Unimplemented);
    }
  }

  // ---- what is sent ----------------------------------------------------------------------------------

  function Fallback(id: RequestId, serialized: bool): Reply {
    Reply(id, if serialized then ResourceExhausted else Internal, false, NoPayload)
  }

  predicate Fits(c: Codec, t: Trace, reply: Reply) {
    c.encode(t, reply).Some? && |c.encode(t, reply).value| <= MAX_FRAME_BYTES
  }

  /** The reply that goes out: the handler's, or the small error that replaces one which cannot be framed. */
  function SentReply(c: Codec, t: Trace, reply: Reply): Reply {
    if Fits(c, t, reply) then reply else Fallback(reply.id, c.encode(t, reply).Some?)
  }

  function SentBytes(c: Codec, t: Trace, reply: Reply): seq<Byte> {
    var bytes := c.encode(t, SentReply(c, t, reply));
    if bytes.Some? then bytes.value else []
  }

  // ---- the loop ----------------------------------------------------------------------------------------

  /** One request served: its events, the handler's reply, the bytes offered to the output and what became of them. */
  datatype Turn = Turn(request: Request, events: Trace, reply: Reply, sent: Reply, bytes: seq<Byte>, result: WriteResult)

  datatype Run = Run(exit: int, trace: Trace, turns: seq<Turn>, output: Output)

  ghost function Serve(w: World, c: Codec, fate: nat -> Fate, input: seq<Byte>, s: Session, t: Trace, o: Output): Run
    decreases |input|
  {
    match FirstFrame(input, MAX_FRAME_BYTES)
    case CleanEof => Run(0, t, [], o)
    case Failed(_) => Run(2, t, [], o)
    case Frame(p) =>
      if c.parse(p).None? then Run(3, t, [], o)
      else
        var turn := TurnOf(w, c, fate, s, t, o, c.parse(p).value);
        var after := Pushed(fate, o, turn.bytes, MAX_FRAME_BYTES).0;
        if turn.result != Written then Run(5, t + turn.events, [turn], after)
        else
          var rest := Serve(w, c, fate, input[4 + |p|..], NextSession(s, turn.request, turn.reply),
                            t + turn.events, after);
          rest.(turns := [turn] + rest.turns)
  }

  ghost function TurnOf(w: World, c: Codec, fate: nat -> Fate, s: Session, t: Trace, o: Output, request: Request): Turn {
    var (t1, reply) := Dispatched(w, Arrived(t, s, request), s.helloCompleted, request);
    var bytes := SentBytes(c, t1, reply);
    Turn(request, if |t| <= |t1| then t1[|t|..] else [], reply, SentReply(c, t1, reply), bytes,
         Pushed(fate, o, bytes, MAX_FRAME_BYTES).1)
  }

  lemma DispatchExtends(w: World, t: Trace, hello: bool, request: Request)
    ensures t <= Dispatched(w, t, hello, request).0
  {
    hide CallDone, ReadDone, AllKnown, FirstSpec, HelloReply;
  }

  lemma TurnExtends(w: World, c: Codec, fate: nat -> Fate, s: Session, t: Trace, o: Output, request: Request)
    ensures t + TurnOf(w, c, fate, s, t, o, request).events
         == Dispatched(w, Arrived(t, s, request), s.helloCompleted, request).0
  {
    hide Dispatched, SentBytes, SentReply, Pushed;
    DispatchExtends(w, Arrived(t, s, request), s.helloCompleted, request);
  }

  lemma TurnsResult(w: World, c: Codec, fate: nat -> Fate, s: Session, t: Trace, o: Output, request: Request)
    ensures var turn := TurnOf(w, c, fate, s, t, o, request);
      turn.request == request && turn.result == Pushed(fate, o, turn.bytes, MAX_FRAME_BYTES).1
  {
    hide Dispatched, SentBytes, SentReply, Pushed;
  }

  /** One pass of the loop after its frame has been parsed. */
  method ServeOne(w: World, c: Codec, output: OutputStream, log: Vector<Event>, s: Session, request: Request)
    returns (next: Session, result: WriteResult, ghost turn: Turn)
    modifies output, log
    ensures turn == TurnOf(w, c, output.fate, s, old(log.items), old(output.State()), request)
    ensures log.items == old(log.items) + turn.events
    ensures next == NextSession(s, request, turn.reply)
    ensures (output.State(), result) == Pushed(output.fate, old(output.State()), turn.bytes, MAX_FRAME_BYTES)
  {
    hide Dispatched, Pushed, SentBytes, SentReply;
    var helloCompleted, initialized := s.helloCompleted, s.initialized;
    var response := new Response(request.id);
    log.PushBack(Received(request));
    if helloCompleted && !initialized && !request.body.Hello? {
      initialized := true;
      log.PushBack(Initialize(InitializeBudget(request)));
    }
    assert log.items == Arrived(old(log.items), s, request);
    Dispatch(w, log, helloCompleted, request, response);
    if request.body.Hello? && response.code == Ok {
      helloCompleted := true;
    }
    turn := TurnOf(w, c, output.fate, s, old(log.items), old(output.State()), request);
    TurnExtends(w, c, output.fate, s, old(log.items), old(output.State()), request);
    var bytes := ResponseBytes(c, log.items, response.Contents());
    result := WriteFrame(output, bytes, MAX_FRAME_BYTES);
    next := Session(helloCompleted, initialized);
  }

  /** `run_loop` up to the shutdown guard. */
  method ServeFrames(w: World, c: Codec, input: InputStream, output: OutputStream, log: Vector<Event>)
    returns (exit: int, ghost turns: seq<Turn>)
    modifies input, output, log
    ensures Run(exit, log.items, turns, output.State())
         == Serve(w, c, output.fate, old(input.pending), Session(false, false), old(log.items), old(output.State()))
  {
    hide TurnOf, Pushed, FirstFrame, NextSession;
    var session := Session(false, false);
    turns := [];
    ghost var whole := Serve(w, c, output.fate, input.pending, session, log.items, output.State());
    while true
      invariant
        var rest := Serve(w, c, output.fate, input.pending, session, log.items, output.State());
        whole == rest.(turns := turns + rest.turns)
      decreases |input.pending|
    {
      assert turns + [] == turns;
      var frame := ReadFrame(input, MAX_FRAME_BYTES);
      match frame {
        case CleanEof => return 0, turns;
        case Failed(_) => return 2, turns;
        case Frame(p) =>
          var parsed := c.parse(p);
          if parsed.None? {
            return 3, turns;
          }
          ghost var t, o := log.items, output.State();
          var next, result, turn := ServeOne(w, c, output, log, session, parsed.value);
          TurnsResult(w, c, output.fate, session, t, o, parsed.value);
          ghost var before := turns;
          turns := turns + [turn];
          if result != Written {
            return 5, turns;
          }
          session := next;
          ghost var rest := Serve(w, c, output.fate, input.pending, session, log.items, output.State());
          assert turns + rest.turns == before + ([turn] + rest.turns);
      }
    }
  }

  method ResponseBytes(c: Codec, t: Trace, reply: Reply) returns (bytes: seq<Byte>)
    ensures bytes == SentBytes(c, t, reply)
  {
    var serialized := c.encode(t, reply);
    if serialized.None? || |serialized.value| > MAX_FRAME_BYTES {
      serialized := c.encode(t, Fallback(reply.id, serialized.Some?));
    }
    return if serialized.Some? then serialized.value else [];
  }

  /** The whole loop: the shutdown hook fires on every exit. */
  method RunLoop(w: World, c: Codec, input: InputStream, output: OutputStream, log: Vector<Event>)
    returns (exit: int, ghost turns: seq<Turn>)
    modifies input, output, log
    ensures Run(exit, log.items, turns, output.State())
         == WholeRun(w, c, output.fate, old(input.pending), old(log.items), old(output.State()))
  {
    exit, turns := ServeFrames(w, c, input, output, log);
    log.PushBack(OnShutdown);
  }

  ghost function WholeRun(w: World, c: Codec, fate: nat -> Fate, input: seq<Byte>, t: Trace, o: Output): Run {
    var r := Serve(w, c, fate, input, Session(false, false), t, o);
    r.(trace := r.trace + [OnShutdown])
  }
}
