/**
 What every run of the serving loop keeps, for any provider, clock, codec, input
 and output (src/anolis/provider_sdk/runtime.cpp:17-123).
 */
module ServingFacts {
  import opened Base
  import opened Protocol
  import opened Handlers
  import opened Transport
  import opened Runtime
  import CallPath

  // ---- lifecycle ---------------------------------------------------------------------------------------

  /** Some turn before the k-th accepted a Hello. */
  predicate Accepted(turns: seq<Turn>, k: nat)
    requires k <= |turns|
  {
    exists j | 0 <= j < k :: turns[j].request.body.Hello? && turns[j].reply.code == Ok
  }

  /** The k-th turn handles something other than Hello after an accepted Hello. */
  predicate Handled(turns: seq<Turn>, k: nat)
    requires k < |turns|
  {
    Accepted(turns, k) && !turns[k].request.body.Hello?
  }

  predicate Started(turns: seq<Turn>, k: nat)
    requires k <= |turns|
  {
    exists j | 0 <= j < k :: Handled(turns, j)
  }

  predicate IsLifecycle(e: Event) {
    e.Received? || e.Initialize? || e.OnWaitReady? || e.OnShutdown?
  }

  predicate NoLifecycle(events: Trace) {
    forall e | e in events :: !IsLifecycle(e)
  }

  /** What the handler itself may do, given the request and whether a Hello was accepted before. */
  predicate HandlerEvents(request: Request, accepted: bool, events: Trace) {
    if request.body.Hello? then events == [AskMetadata]
    else if !accepted then events == []
    else if request.body.WaitReady? then events == [AskReadiness, AskMetadata, OnWaitReady]
    else NoLifecycle(events)
  }

  /** The start-up budget in milliseconds: WaitReady's own hint, none for any other request. */
  function Budget(request: Request): nat {
    match request.body
    case WaitReady(maxWaitMs) => maxWaitMs
    case _ => 0
  }

  /**
   The k-th turn, said without the loop's flags: the request arrives; start-up runs,
   with its budget, iff this is the first handled request; then the handler's events.
   Nothing but metadata is asked before a Hello is accepted, and refusals are
   FAILED_PRECONDITION.
   */
  predicate TurnShape(turns: seq<Turn>, k: nat)
    requires k < |turns|
  {
    var turn := turns[k];
    var opening := [Received(turn.request)] +
      if Handled(turns, k) && !Started(turns, k) then [Initialize(Budget(turn.request))] else [];
    && opening <= turn.events
    && HandlerEvents(turn.request, Accepted(turns, k), turn.events[|opening|..])
    && (!Accepted(turns, k) && !turn.request.body.Hello? ==> turn.reply == Blank(turn.request.id).(code := FailedPrecondition))
  }

  lemma CallEvents(w: World, t: Trace, r: CallRequest, blank: Reply)
    ensures t <= CallTurn(w, t, r, blank).0 && NoLifecycle(CallTurn(w, t, r, blank).0[|t|..])
  {
    hide CallDone, FirstSpec, CallValidation.Conforms, IsValidTimestamp, CompareNowTo;
  }

  lemma ReadEvents(w: World, t: Trace, r: ReadRequest, blank: Reply)
    ensures t <= ReadTurn(w, t, r, blank).0 && NoLifecycle(ReadTurn(w, t, r, blank).0[|t|..])
  {
    hide ReadDone, AllKnown;
  }

  lemma DispatchEvents(w: World, t: Trace, hello: bool, request: Request)
    ensures var (after, reply) := Dispatched(w, t, hello, request);
      && t <= after && HandlerEvents(request, hello, after[|t|..])
      && reply.id == request.id
      && (!hello && !request.body.Hello? ==> reply == Blank(request.id).(code := FailedPrecondition))
  {
    hide CallTurn, ReadTurn, HelloMetadata;
    match request.body
    case Call(r) =>
      CallEvents(w, t, r, Blank(request.id));
      CallPath.CallReplies(w, t, r, request.id);
    case ReadSignals(r) =>
      ReadEvents(w, t, r, Blank(request.id));
      ReadReplyId(w, t, r, request.id);
    case _ =>
  }

  lemma ReadReplyId(w: World, t: Trace, r: ReadRequest, id: RequestId)
    ensures ReadTurn(w, t, r, Blank(id)).1.id == id
  {
  }

  /** The loop's flags say of the turns so far what Accepted and Started say. */
  predicate FlagsAgree(s: Session, done: seq<Turn>) {
    && (s.helloCompleted <==> Accepted(done, |done|))
    && (s.initialized <==> Started(done, |done|))
  }

  lemma PrefixFacts(turns: seq<Turn>, more: seq<Turn>, k: nat)
    requires k <= |turns|
    ensures Accepted(turns + more, k) <==> Accepted(turns, k)
    ensures k < |turns| ==> (Handled(turns + more, k) <==> Handled(turns, k))
    ensures Started(turns + more, k) <==> Started(turns, k)
    ensures k < |turns| ==> (TurnShape(turns + more, k) <==> TurnShape(turns, k))
  {
    var all := turns + more;
    assert forall j | 0 <= j < |turns| :: all[j] == turns[j];
    forall j: nat | j < |turns| ensures Accepted(all, j) <==> Accepted(turns, j) {
    }
    assert forall j: nat | j < |turns| :: Handled(all, j) <==> Handled(turns, j);
  }

  lemma OneTurn(w: World, c: Codec, fate: nat -> Fate, s: Session, t: Trace, o: Output, request: Request,
                done: seq<Turn>)
    requires FlagsAgree(s, done)
    ensures var turn := TurnOf(w, c, fate, s, t, o, request);
      && TurnShape(done + [turn], |done|)
      && FlagsAgree(NextSession(s, request, turn.reply), done + [turn])
      && turn.request == request && turn.reply.id == request.id
  {
    hide Dispatched, SentBytes, SentReply, Pushed, HandlerEvents;
    var turn := TurnOf(w, c, fate, s, t, o, request);
    var arrived := Arrived(t, s, request);
    DispatchEvents(w, arrived, s.helloCompleted, request);
    var after := Dispatched(w, arrived, s.helloCompleted, request).0;
    var all, n := done + [turn], |done|;
    PrefixFacts(done, [turn], n);
    var opening := arrived[|t|..];
    assert opening == [Received(request)] +
      if Opens(s, request) then [Initialize(Budget(request))] else [];
    assert after[|t|..][|opening|..] == after[|arrived|..];
    assert opening <= after[|t|..];
    LastTurn(all);
  }

  lemma LastTurn(all: seq<Turn>)
    requires all != []
    ensures var n := |all| - 1;
      && (Accepted(all, |all|) <==> Accepted(all, n) || (all[n].request.body.Hello? && all[n].reply.code == Ok))
      && (Started(all, |all|) <==> Started(all, n) || Handled(all, n))
  {
  }

  /** Lifecycle of every run: every turn, from any point on, has its shape. */
  lemma {:induction false} ServeLifecycle(w: World, c: Codec, fate: nat -> Fate, input: seq<Byte>, s: Session,
                                          t: Trace, o: Output, done: seq<Turn>)
    requires FlagsAgree(s, done)
    requires forall k: nat | k < |done| :: TurnShape(done, k)
    ensures var run := Serve(w, c, fate, input, s, t, o);
      && (forall k: nat | k < |done + run.turns| :: TurnShape(done + run.turns, k))
      && (forall turn | turn in run.turns :: turn.reply.id == turn.request.id)
      && run.trace == t + Flatten(EventsOf(run.turns))
    decreases |input|
  {
    hide FlagsAgree, TurnShape, Pushed, TurnOf, FirstFrame, EventsOf, Flatten, NextSession;
    var run := Serve(w, c, fate, input, s, t, o);
    match FirstFrame(input, MAX_FRAME_BYTES)
    case CleanEof => NoTurns(done, t);
    case Failed(_) => NoTurns(done, t);
    case Frame(p) =>
      if c.parse(p).None? {
        NoTurns(done, t);
      } else {
        var request := c.parse(p).value;
        var turn := TurnOf(w, c, fate, s, t, o, request);
        OneTurn(w, c, fate, s, t, o, request, done);
        Extended(done, turn);
        EventsCons(turn, []);
        if turn.result == Written {
          var next := NextSession(s, request, turn.reply);
          var after := Pushed(fate, o, turn.bytes, MAX_FRAME_BYTES).0;
          var rest := Serve(w, c, fate, input[4 + |p|..], next, t + turn.events, after);
          ServeLifecycle(w, c, fate, input[4 + |p|..], next, t + turn.events, after, done + [turn]);
          assert done + run.turns == done + [turn] + rest.turns;
          EventsCons(turn, rest.turns);
          assert t + turn.events + Flatten(EventsOf(rest.turns)) == t + (turn.events + Flatten(EventsOf(rest.turns)));
        }
      }
  }

  lemma EventsCons(turn: Turn, rest: seq<Turn>)
    ensures Flatten(EventsOf([turn] + rest)) == turn.events + Flatten(EventsOf(rest))
    ensures [turn] + [] == [turn] && Flatten(EventsOf([])) == []
  {
    assert EventsOf([turn] + rest)[1..] == EventsOf(rest);
  }

  function EventsOf(turns: seq<Turn>): seq<Trace> {
    seq(|turns|, i requires 0 <= i < |turns| => turns[i].events)
  }

  lemma NoTurns(done: seq<Turn>, t: Trace)
    requires forall k: nat | k < |done| :: TurnShape(done, k)
    ensures forall k: nat | k < |done + []| :: TurnShape(done + [], k)
    ensures t == t + Flatten(EventsOf([]))
  {
    hide TurnShape;
    assert done + [] == done;
  }

  lemma Extended(done: seq<Turn>, turn: Turn)
    requires forall k: nat | k < |done| :: TurnShape(done, k)
    requires TurnShape(done + [turn], |done|)
    ensures forall k: nat | k < |done + [turn]| :: TurnShape(done + [turn], k)
  {
    hide TurnShape;
    forall k: nat | k < |done| ensures TurnShape(done + [turn], k) {
      PrefixFacts(done, [turn], k);
    }
  }

  function Count(events: Trace, p: Event -> bool): nat {
    if events == [] then 0 else (if p(events[0]) then 1 else 0) + Count(events[1..], p)
  }

  lemma {:induction false} CountAppend(a: Trace, b: Trace, p: Event -> bool)
    ensures Count(a + b, p) == Count(a, p) + Count(b, p)
  {
    if a == [] {
      assert a + b == b;
    } else {
      assert (a + b)[1..] == a[1..] + b;
      CountAppend(a[1..], b, p);
    }
  }

  lemma {:induction false} CountNone(events: Trace, p: Event -> bool)
    requires forall e | e in events :: !p(e)
    ensures Count(events, p) == 0
  {
    if events != [] { CountNone(events[1..], p); }
  }

  function IsInitialize(): Event -> bool { (e: Event) => e.Initialize? }

  function IsWaitReadyHook(): Event -> bool { (e: Event) => e.OnWaitReady? }

  function IsShutdown(): Event -> bool { (e: Event) => e.OnShutdown? }

  predicate HandledWaitReady(turns: seq<Turn>, k: nat)
    requires k < |turns|
  {
    Handled(turns, k) && turns[k].request.body.WaitReady?
  }

  lemma TurnCounts(turns: seq<Turn>, k: nat)
    requires k < |turns| && TurnShape(turns, k)
    ensures Count(turns[k].events, IsInitialize()) == if Handled(turns, k) && !Started(turns, k) then 1 else 0
    ensures Count(turns[k].events, IsWaitReadyHook()) == if HandledWaitReady(turns, k) then 1 else 0
    ensures Count(turns[k].events, IsShutdown()) == 0
  {
    hide Accepted, Started;
    var turn := turns[k];
    var opening := [Received(turn.request)] +
      if Handled(turns, k) && !Started(turns, k) then [Initialize(Budget(turn.request))] else [];
    var rest := turn.events[|opening|..];
    assert turn.events == opening + rest;
    HandlerCounts(turn.request, Accepted(turns, k), rest);
    var start := opening[1..];
    CountAppend(opening, rest, IsInitialize());
    CountAppend(opening, rest, IsWaitReadyHook());
    CountAppend(opening, rest, IsShutdown());
    OpeningCount(turn.request, start, IsInitialize());
    OpeningCount(turn.request, start, IsWaitReadyHook());
    OpeningCount(turn.request, start, IsShutdown());
    assert opening == [Received(turn.request)] + start;
  }

  lemma OpeningCount(request: Request, start: Trace, p: Event -> bool)
    requires !p(Received(request)) && (start == [] || start == [Initialize(Budget(request))])
    ensures Count([Received(request)] + start, p) == if start != [] && p(start[0]) then 1 else 0
  {
    CountAppend([Received(request)], start, p);
    CountSingle(Received(request), p);
    if start != [] { CountSingle(start[0], p); }
  }

  lemma CountSingle(e: Event, p: Event -> bool)
    ensures Count([e], p) == if p(e) then 1 else 0
  {
    assert [e][1..] == [];
  }

  lemma HandlerCounts(request: Request, accepted: bool, events: Trace)
    requires HandlerEvents(request, accepted, events)
    ensures Count(events, IsInitialize()) == 0 && Count(events, IsShutdown()) == 0
    ensures Count(events, IsWaitReadyHook()) == if accepted && request.body.WaitReady? then 1 else 0
  {
    CountNone(events, IsInitialize());
    CountNone(events, IsShutdown());
    if accepted && request.body.WaitReady? {
      CountAppend([AskReadiness, AskMetadata], [OnWaitReady], IsWaitReadyHook());
      CountNone([AskReadiness, AskMetadata], IsWaitReadyHook());
      CountSingle(OnWaitReady, IsWaitReadyHook());
      assert events == [AskReadiness, AskMetadata] + [OnWaitReady];
    } else {
      CountNone(events, IsWaitReadyHook());
    }
  }

  /** How many of the first n turns handled a WaitReady. */
  function WaitReadys(turns: seq<Turn>, n: nat): nat
    requires n <= |turns|
  {
    if n == 0 then 0 else WaitReadys(turns, n - 1) + if HandledWaitReady(turns, n - 1) then 1 else 0
  }

  lemma {:induction false} HookCounts(turns: seq<Turn>, n: nat)
    requires n <= |turns| && forall k: nat | k < |turns| :: TurnShape(turns, k)
    ensures var events := Flatten(EventsOf(turns)[..n]);
      && Count(events, IsInitialize()) == (if Started(turns, n) then 1 else 0)
      && Count(events, IsWaitReadyHook()) == WaitReadys(turns, n)
      && Count(events, IsShutdown()) == 0
  {
    hide TurnShape;
    if n == 0 {
      assert EventsOf(turns)[..0] == [];
    } else {
      HookCounts(turns, n - 1);
      FlattenSnoc(EventsOf(turns), n - 1);
      TurnCounts(turns, n - 1);
      var before := Flatten(EventsOf(turns)[..n - 1]);
      CountAppend(before, turns[n - 1].events, IsInitialize());
      CountAppend(before, turns[n - 1].events, IsWaitReadyHook());
      CountAppend(before, turns[n - 1].events, IsShutdown());
      assert Started(turns, n) <==> Started(turns, n - 1) || Handled(turns, n - 1);
    }
  }

  /**
   Over every whole run: every turn has its shape; start-up ran at most once, and did
   run iff a request was handled; the WaitReady hook ran once per handled WaitReady;
   shutdown ran exactly once, as the very last event.
   */
  lemma Lifecycle(w: World, c: Codec, fate: nat -> Fate, input: seq<Byte>)
    ensures var run := WholeRun(w, c, fate, input, [], Output([], 0, true));
      && (forall k: nat | k < |run.turns| :: TurnShape(run.turns, k))
      && run.trace == Flatten(EventsOf(run.turns)) + [OnShutdown]
      && Count(run.trace, IsInitialize()) == (if Started(run.turns, |run.turns|) then 1 else 0)
      && Count(run.trace, IsWaitReadyHook()) == WaitReadys(run.turns, |run.turns|)
      && Count(run.trace, IsShutdown()) == 1
  {
    hide TurnShape, Serve, Started, WaitReadys;
    var o := Output([], 0, true);
    var run := Serve(w, c, fate, input, Session(false, false), [], o);
    NothingYet();
    ServeLifecycle(w, c, fate, input, Session(false, false), [], o, []);
    assert [] + run.turns == run.turns;
    var events := Flatten(EventsOf(run.turns));
    assert [] + events == events;
    HookCounts(run.turns, |run.turns|);
    assert EventsOf(run.turns)[..|run.turns|] == EventsOf(run.turns);
    CountAppend(events, [OnShutdown], IsInitialize());
    CountAppend(events, [OnShutdown], IsWaitReadyHook());
    CountAppend(events, [OnShutdown], IsShutdown());
  }

  lemma ShapeSays(turns: seq<Turn>, k: nat)
    requires k < |turns| && TurnShape(turns, k)
    ensures turns[k].events != [] && turns[k].events[0] == Received(turns[k].request)
    ensures !Accepted(turns, k) ==> forall e | e in turns[k].events :: e.Received? || e.AskMetadata?
    ensures Handled(turns, k) && !Started(turns, k) ==>
      |turns[k].events| > 1 && turns[k].events[1] == Initialize(Budget(turns[k].request))
  {
    hide Accepted, Started;
    var turn := turns[k];
    var opening := [Received(turn.request)] +
      if Handled(turns, k) && !Started(turns, k) then [Initialize(Budget(turn.request))] else [];
    assert turn.events == opening + turn.events[|opening|..];
  }

  /**
   In every run, before a Hello is accepted the provider is asked nothing but its
   metadata, and the first request handled after that starts it up before anything else.
   */
  lemma HelloFirst(w: World, c: Codec, fate: nat -> Fate, input: seq<Byte>)
    ensures var turns := WholeRun(w, c, fate, input, [], Output([], 0, true)).turns;
      forall k: nat | k < |turns| ::
        && (!Accepted(turns, k) ==> forall e | e in turns[k].events :: e.Received? || e.AskMetadata?)
        && (Handled(turns, k) && !Started(turns, k) ==>
              |turns[k].events| > 1 && turns[k].events[1] == Initialize(Budget(turns[k].request)))
  {
    hide TurnShape, Accepted, Started, Handled, WholeRun;
    Lifecycle(w, c, fate, input);
    var turns := WholeRun(w, c, fate, input, [], Output([], 0, true)).turns;
    forall k: nat | k < |turns|
      ensures !Accepted(turns, k) ==> forall e | e in turns[k].events :: e.Received? || e.AskMetadata?
      ensures Handled(turns, k) && !Started(turns, k) ==>
        |turns[k].events| > 1 && turns[k].events[1] == Initialize(Budget(turns[k].request))
    {
      ShapeSays(turns, k);
    }
  }

  lemma NothingYet()
    ensures FlagsAgree(Session(false, false), [])
  {
  }
}
