/**
 Requests and responses of every run, read off the two byte streams
 (src/anolis/provider_sdk/runtime.cpp:35-123, src/anolis/provider_sdk/transport.cpp:35-113).
 */
module Conservation {
  import opened Base
  import opened Protocol
  import opened Handlers
  import opened Transport
  import opened Runtime
  import RunCalls
  import ServingFacts

  /** The codec reads back what it writes, never writes nothing, and fits the short fallback in a frame. */
  ghost predicate CodecSound(c: Codec) {
    && (forall t, r :: c.encode(t, r).Some? ==>
          c.encode(t, r).value != [] && c.decode(c.encode(t, r).value) == Some(r))
    && (forall t, id, serialized :: Fits(c, t, Fallback(id, serialized)))
  }

  // A small codec of nine bytes for the fallback alone: the conditions above can be met.
  function SmallEncode(t: Trace, r: Reply): Option<seq<Byte>> {
    if r == Fallback(r.id, true) || r == Fallback(r.id, false) then
      Some(U32Bytes(r.id % 0x1_0000_0000) + U32Bytes(r.id / 0x1_0000_0000) + [if r.code == Internal then 1 else 0])
    else None
  }

  function SmallDecode(bytes: seq<Byte>): Option<Reply> {
    if |bytes| != 9 then None
    else Some(Fallback(U32Value(bytes[..4]) + 0x1_0000_0000 * U32Value(bytes[4..8]), bytes[8] == 0))
  }

  lemma SoundCodecExists(parse: seq<Byte> -> Option<Request>)
    ensures CodecSound(Codec(parse, SmallEncode, SmallDecode))
  {
    hide U32Bytes, U32Value;
    var c := Codec(parse, SmallEncode, SmallDecode);
    forall t: Trace, r: Reply | c.encode(t, r).Some?
      ensures c.encode(t, r).value != [] && c.decode(c.encode(t, r).value) == Some(r)
    {
      var bytes := c.encode(t, r).value;
      LengthRoundTrip(r.id % 0x1_0000_0000);
      LengthRoundTrip(r.id / 0x1_0000_0000);
      assert bytes[..4] == U32Bytes(r.id % 0x1_0000_0000) && bytes[4..8] == U32Bytes(r.id / 0x1_0000_0000);
    }
  }

  /** The codec makes at most a mebibyte of the reply. */
  predicate Framed(c: Codec, t: Trace, reply: Reply) {
    c.encode(t, reply).Some? && |c.encode(t, reply).value| <= 1024 * 1024
  }

  /** Whatever the handler replied, what goes out is a framable response to the same request. */
  lemma SentFits(c: Codec, t: Trace, reply: Reply)
    requires CodecSound(c)
    ensures Framable(SentBytes(c, t, reply), MAX_FRAME_BYTES)
    ensures c.decode(SentBytes(c, t, reply)) == Some(SentReply(c, t, reply))
    ensures SentReply(c, t, reply).id == reply.id
    ensures SentReply(c, t, reply) == reply <== Framed(c, t, reply)
    ensures !Framed(c, t, reply) ==>
      var sent := SentReply(c, t, reply);
      && sent.code == (if c.encode(t, reply).Some? then ResourceExhausted else Internal)
      && sent.payload == NoPayload && !sent.sideEffects
  {
    assert Fits(c, t, Fallback(reply.id, c.encode(t, reply).Some?));
  }

  function BytesOf(turns: seq<Turn>): seq<seq<Byte>> {
    seq(|turns|, i requires 0 <= i < |turns| => turns[i].bytes)
  }

  /** Every turn offered a framable response that decodes to what was meant, for its own request. */
  predicate TurnSound(c: Codec, turn: Turn) {
    && Framable(turn.bytes, MAX_FRAME_BYTES)
    && c.decode(turn.bytes) == Some(turn.sent)
    && turn.sent.id == turn.request.id
    && (turn.sent != turn.reply ==> turn.sent.code == ResourceExhausted || turn.sent.code == Internal)
    && turn.result != Refused
  }

  lemma TurnIsSound(w: World, c: Codec, fate: nat -> Fate, s: Session, t: Trace, o: Output, request: Request)
    requires CodecSound(c)
    ensures TurnSound(c, TurnOf(w, c, fate, s, t, o, request))
  {
    hide Dispatched, SentBytes, SentReply, Pushed, Fits, CodecSound;
    var (t1, reply) := Dispatched(w, Arrived(t, s, request), s.helloCompleted, request);
    ServingFacts.DispatchEvents(w, Arrived(t, s, request), s.helloCompleted, request);
    SentFits(c, t1, reply);
    PushedWhole(fate, o, SentBytes(c, t1, reply), MAX_FRAME_BYTES);
  }

  /** How the turns of a run follow the frames of the input, and what the exit code says about both. */
  predicate InputMatches(c: Codec, frames: seq<seq<Byte>>, end: ReadResult, run: Run) {
    var n := |run.turns|;
    && n <= |frames|
    && (forall k | 0 <= k < n :: c.parse(frames[k]) == Some(run.turns[k].request))
    && (forall k | 0 <= k < n - 1 :: run.turns[k].result == Written)
    && run.exit in {0, 2, 3, 5}
    && (run.exit == 5 <==> n > 0 && run.turns[n - 1].result != Written)
    && (run.exit == 3 <==> run.exit != 5 && n < |frames| && c.parse(frames[n]).None?)
    && (run.exit == 0 <==> run.exit != 5 && n == |frames| && end == CleanEof)
    && (run.exit == 2 <==> run.exit != 5 && n == |frames| && end.Failed?)
  }

  lemma MatchesStep(c: Codec, p: seq<Byte>, frames: seq<seq<Byte>>, end: ReadResult, turn: Turn, rest: Run)
    requires InputMatches(c, frames, end, rest) && c.parse(p) == Some(turn.request) && turn.result == Written
    ensures InputMatches(c, [p] + frames, end, rest.(turns := [turn] + rest.turns))
  {
    var run := rest.(turns := [turn] + rest.turns);
    forall k | 0 <= k < |run.turns| ensures c.parse(([p] + frames)[k]) == Some(run.turns[k].request) {
      if k > 0 { assert run.turns[k] == rest.turns[k - 1]; }
    }
  }

  lemma {:induction false} ServeFollowsInput(w: World, c: Codec, fate: nat -> Fate, input: seq<Byte>, s: Session,
                                             t: Trace, o: Output)
    ensures var (frames, end) := ReadAll(input, MAX_FRAME_BYTES);
      InputMatches(c, frames, end, Serve(w, c, fate, input, s, t, o))
    decreases |input|
  {
    hide TurnOf, Pushed, FirstFrame;
    match FirstFrame(input, MAX_FRAME_BYTES)
    case CleanEof =>
    case Failed(_) =>
    case Frame(p) =>
      var (frames, end) := ReadAll(input[4 + |p|..], MAX_FRAME_BYTES);
      if c.parse(p).Some? {
        var turn := TurnOf(w, c, fate, s, t, o, c.parse(p).value);
        TurnsResult(w, c, fate, s, t, o, c.parse(p).value);
        if turn.result == Written {
          var after := Pushed(fate, o, turn.bytes, MAX_FRAME_BYTES).0;
          var next := NextSession(s, turn.request, turn.reply);
          ServeFollowsInput(w, c, fate, input[4 + |p|..], next, t + turn.events, after);
          hide InputMatches;
          MatchesStep(c, p, frames, end, turn,
                      Serve(w, c, fate, input[4 + |p|..], next, t + turn.events, after));
        }
      }
  }

  /** What the run adds to the output: whole frames, and after a failed write perhaps part of one more. */
  predicate OutputMatches(c: Codec, o: Output, run: Run) {
    && (forall turn | turn in run.turns :: TurnSound(c, turn))
    && AllFramable(BytesOf(run.turns), MAX_FRAME_BYTES)
    && o.written <= run.output.written
    && var added := run.output.written[|o.written|..];
    && added <= Wire(BytesOf(run.turns), MAX_FRAME_BYTES)
    && (run.exit != 5 ==> added == Wire(BytesOf(run.turns), MAX_FRAME_BYTES))
    && (run.exit == 5 ==> run.turns != [] && |Wire(BytesOf(run.turns)[..|run.turns| - 1], MAX_FRAME_BYTES)| <= |added|)
  }

  lemma OutputStep(c: Codec, o: Output, after: Output, turn: Turn, rest: Run)
    requires TurnSound(c, turn) && after.written == o.written + EncodeFrame(turn.bytes)
    requires OutputMatches(c, after, rest)
    ensures OutputMatches(c, o, rest.(turns := [turn] + rest.turns))
  {
    hide TurnSound, EncodeFrame, Framable;
    var run := rest.(turns := [turn] + rest.turns);
    var bytes := BytesOf(run.turns);
    assert bytes == [turn.bytes] + BytesOf(rest.turns);
    assert forall p | p in bytes :: p == turn.bytes || p in BytesOf(rest.turns);
    FramableTurn(c, turn);
    assert bytes[1..] == BytesOf(rest.turns);
    assert run.output.written[|o.written|..] == EncodeFrame(turn.bytes) + run.output.written[|after.written|..];
    if run.exit == 5 {
      assert bytes[..|run.turns| - 1] == [turn.bytes] + BytesOf(rest.turns)[..|rest.turns| - 1];
      assert bytes[..|run.turns| - 1][1..] == BytesOf(rest.turns)[..|rest.turns| - 1];
    }
  }

  lemma FramableTurn(c: Codec, turn: Turn)
    requires TurnSound(c, turn)
    ensures Framable(turn.bytes, MAX_FRAME_BYTES)
  {
  }

  lemma LastOutput(c: Codec, o: Output, after: Output, turn: Turn, trace: Trace)
    requires TurnSound(c, turn)
    requires o.written <= after.written <= o.written + EncodeFrame(turn.bytes)
    ensures OutputMatches(c, o, Run(5, trace, [turn], after))
  {
    hide TurnSound;
    FramableTurn(c, turn);
    var bytes := BytesOf([turn]);
    assert bytes == [turn.bytes] && bytes[1..] == [] && bytes[..0] == [];
    assert Wire(bytes, MAX_FRAME_BYTES) == EncodeFrame(turn.bytes) + [];
    assert after.written[|o.written|..] <= EncodeFrame(turn.bytes);
  }

  lemma NothingSent(c: Codec, o: Output, exit: int, trace: Trace)
    requires exit != 5
    ensures OutputMatches(c, o, Run(exit, trace, [], o))
  {
    assert BytesOf([]) == [];
  }

  lemma {:induction false} ServeOutput(w: World, c: Codec, fate: nat -> Fate, input: seq<Byte>, s: Session, t: Trace,
                                       o: Output)
    requires CodecSound(c)
    ensures OutputMatches(c, o, Serve(w, c, fate, input, s, t, o))
    decreases |input|
  {
    hide TurnOf, Pushed, FirstFrame, CodecSound, TurnSound, OutputMatches, EncodeFrame;
    match FirstFrame(input, MAX_FRAME_BYTES)
    case CleanEof => NothingSent(c, o, 0, t);
    case Failed(_) => NothingSent(c, o, 2, t);
    case Frame(p) =>
      if c.parse(p).None? {
        NothingSent(c, o, 3, t);
      } else {
        var request := c.parse(p).value;
        var turn := TurnOf(w, c, fate, s, t, o, request);
        var after := Pushed(fate, o, turn.bytes, MAX_FRAME_BYTES).0;
        TurnIsSound(w, c, fate, s, t, o, request);
        TurnsResult(w, c, fate, s, t, o, request);
        PushedWhole(fate, o, turn.bytes, MAX_FRAME_BYTES);
        FramableTurn(c, turn);
        if turn.result != Written {
          LastOutput(c, o, after, turn, t + turn.events);
        } else {
          var next := NextSession(s, turn.request, turn.reply);
          ServeOutput(w, c, fate, input[4 + |p|..], next, t + turn.events, after);
          OutputStep(c, o, after, turn, Serve(w, c, fate, input[4 + |p|..], next, t + turn.events, after));
        }
      }
  }

  /** The frames a reader of the output finds: every turn's, except possibly the one whose write failed. */
  lemma OutputReads(c: Codec, run: Run)
    requires OutputMatches(c, Output([], 0, true), run)
    ensures var (out, _) := ReadAll(run.output.written, MAX_FRAME_BYTES);
      && out <= BytesOf(run.turns)
      && (if run.exit == 5 then |run.turns| <= |out| + 1 else |out| == |run.turns|)
      && (|out| == |run.turns| <==> run.output.written == Wire(BytesOf(run.turns), MAX_FRAME_BYTES))
  {
    hide TurnSound;
    var bytes, written := BytesOf(run.turns), run.output.written;
    var wire := Wire(bytes, MAX_FRAME_BYTES);
    var n := |bytes|;
    assert written[0..] == written && wire[..|written|] == written;
    assert bytes[..n] == bytes;
    var k := if written == wire then n else n - 1;
    if written != wire { assert |written| < |wire|; }
    Truncation(bytes, |written|, k, MAX_FRAME_BYTES);
  }

  /** The stream operation at which the last turn's frame begins: every turn before it took three. */
  function LastFrameAt(o: Output, run: Run): nat
    requires run.turns != []
  {
    o.operations + 3 * (|run.turns| - 1)
  }

  /** When a run ends on a failed write: whether the whole last frame is out all the same. */
  predicate LastIsWhole(fate: nat -> Fate, o: Output, run: Run)
    requires run.turns != []
  {
    FailsAfterWhole(fate, LastFrameAt(o, run), |run.turns[|run.turns| - 1].bytes|)
  }

  /** The output holds every turn's frame although the exit is 5 exactly when the last write failed after its frame. */
  predicate WholeOnFailure(fate: nat -> Fate, o: Output, run: Run) {
    run.exit == 5 ==>
      && run.turns != [] && AllFramable(BytesOf(run.turns), MAX_FRAME_BYTES)
      && (run.output.written == o.written + Wire(BytesOf(run.turns), MAX_FRAME_BYTES) <==> LastIsWhole(fate, o, run))
  }

  lemma OneTurnOut(turn: Turn)
    requires Framable(turn.bytes, MAX_FRAME_BYTES)
    ensures BytesOf([turn]) == [turn.bytes] && AllFramable([turn.bytes], MAX_FRAME_BYTES)
    ensures Wire([turn.bytes], MAX_FRAME_BYTES) == EncodeFrame(turn.bytes)
  {
    assert [turn.bytes][1..] == [];
    assert EncodeFrame(turn.bytes) + [] == EncodeFrame(turn.bytes);
  }

  lemma WholeStep(fate: nat -> Fate, o: Output, after: Output, turn: Turn, rest: Run)
    requires Framable(turn.bytes, MAX_FRAME_BYTES) && after.operations == o.operations + 3
    requires after.written == o.written + EncodeFrame(turn.bytes) && WholeOnFailure(fate, after, rest)
    ensures WholeOnFailure(fate, o, rest.(turns := [turn] + rest.turns))
  {
    hide EncodeFrame, FailsAfterWhole;
    var run := rest.(turns := [turn] + rest.turns);
    if run.exit == 5 {
      var bytes := BytesOf(run.turns);
      assert bytes == [turn.bytes] + BytesOf(rest.turns) && bytes[1..] == BytesOf(rest.turns);
      assert forall p | p in bytes :: p == turn.bytes || p in BytesOf(rest.turns);
      var more := Wire(BytesOf(rest.turns), MAX_FRAME_BYTES);
      assert o.written + (EncodeFrame(turn.bytes) + more) == after.written + more;
    }
  }

  /** Over every run from a good output: exit 5 with nothing missing exactly when the last write failed after its frame. */
  lemma {:induction false} ServeWhole(w: World, c: Codec, fate: nat -> Fate, input: seq<Byte>, s: Session, t: Trace,
                                      o: Output)
    requires CodecSound(c) && o.good
    ensures WholeOnFailure(fate, o, Serve(w, c, fate, input, s, t, o))
    decreases |input|
  {
    hide TurnOf, Pushed, FirstFrame, CodecSound, TurnSound, WholeOnFailure, EncodeFrame, Framable;
    match FirstFrame(input, MAX_FRAME_BYTES)
    case CleanEof => NotFailed(fate, o, Run(0, t, [], o));
    case Failed(_) => NotFailed(fate, o, Run(2, t, [], o));
    case Frame(p) =>
      if c.parse(p).None? {
        NotFailed(fate, o, Run(3, t, [], o));
      } else {
        var request := c.parse(p).value;
        var turn := TurnOf(w, c, fate, s, t, o, request);
        var after := Pushed(fate, o, turn.bytes, MAX_FRAME_BYTES).0;
        TurnIsSound(w, c, fate, s, t, o, request);
        TurnsResult(w, c, fate, s, t, o, request);
        PushedWhole(fate, o, turn.bytes, MAX_FRAME_BYTES);
        FramableTurn(c, turn);
        FatesDecide(fate, o, turn.bytes, MAX_FRAME_BYTES);
        if turn.result != Written {
          LastWhole(c, fate, o, after, turn, t + turn.events);
        } else {
          var next := NextSession(s, turn.request, turn.reply);
          ServeWhole(w, c, fate, input[4 + |p|..], next, t + turn.events, after);
          WholeStep(fate, o, after, turn, Serve(w, c, fate, input[4 + |p|..], next, t + turn.events, after));
        }
      }
  }

  lemma NotFailed(fate: nat -> Fate, o: Output, run: Run)
    requires run.exit != 5
    ensures WholeOnFailure(fate, o, run)
  {
  }

  lemma LastWhole(c: Codec, fate: nat -> Fate, o: Output, after: Output, turn: Turn, trace: Trace)
    requires Framable(turn.bytes, MAX_FRAME_BYTES)
    requires after.written == o.written + EncodeFrame(turn.bytes) <==>
      FailsAfterWhole(fate, o.operations, |turn.bytes|)
    ensures WholeOnFailure(fate, o, Run(5, trace, [turn], after))
  {
    hide EncodeFrame, Framable, FailsAfterWhole;
    OneTurnOut(turn);
  }

  /**
   Request and response conservation over every run: the frames written decode, in
   order, to one response per parsed request with that request's id, the handler's own
   reply wherever that fits a frame; the only request
   that may lack one is the last, when its write failed, and it lacks one unless that
   write failed after its frame. The exit code tells how the input ended, or that the
   output broke.
   */
  lemma RequestsAnswered(w: World, c: Codec, fate: nat -> Fate, input: seq<Byte>)
    requires CodecSound(c)
    ensures var run := WholeRun(w, c, fate, input, [], Output([], 0, true));
      var (frames, end) := ReadAll(input, MAX_FRAME_BYTES);
      var (out, _) := ReadAll(run.output.written, MAX_FRAME_BYTES);
      && InputMatches(c, frames, end, run)
      && |out| <= |run.turns| && (if run.exit == 5 then |run.turns| <= |out| + 1 else |out| == |run.turns|)
      && (forall k | 0 <= k < |out| ::
            && Framable(out[k], MAX_FRAME_BYTES)
            && c.decode(out[k]) == Some(run.turns[k].sent)
            && run.turns[k].sent.id == run.turns[k].request.id)
      && (forall k: nat | k < |run.turns| ::
            var now := RunCalls.HistoryAt([], run.turns, k) + run.turns[k].events;
            Framed(c, now, run.turns[k].reply) ==> run.turns[k].sent == run.turns[k].reply)
      && (run.exit == 5 ==> run.turns != [] && run.turns[|run.turns| - 1].result == StreamFailed)
      && (run.exit == 5 ==> (|out| == |run.turns| <==> LastIsWhole(fate, Output([], 0, true), run)))
  {
    hide CodecSound, Serve, ReadAll, OutputMatches, InputMatches, WholeOnFailure, Framable, FailsAfterWhole, Framed,
      RunCalls.HistoryAt;
    var o := Output([], 0, true);
    ServeWhole(w, c, fate, input, Session(false, false), [], o);
    ServeFollowsInput(w, c, fate, input, Session(false, false), [], o);
    ServeOutput(w, c, fate, input, Session(false, false), [], o);
    var run := Serve(w, c, fate, input, Session(false, false), [], o);
    var (frames, end) := ReadAll(input, MAX_FRAME_BYTES);
    OutputTells(c, fate, run);
    LastBroke(c, frames, end, run);
    SameMatch(c, frames, end, run);
    RepliesSent(w, c, fate, input);
  }

  lemma RepliesSent(w: World, c: Codec, fate: nat -> Fate, input: seq<Byte>)
    ensures var turns := WholeRun(w, c, fate, input, [], Output([], 0, true)).turns;
      forall k: nat | k < |turns| ::
        Framed(c, RunCalls.HistoryAt([], turns, k) + turns[k].events, turns[k].reply) ==>
          turns[k].sent == turns[k].reply
  {
    hide Serve, RunCalls.HistoryAt, RunCalls.CallsCleared, RunCalls.ReadsCleared;
    RunCalls.EveryTurnKept(w, c, fate, input);
    var turns := WholeRun(w, c, fate, input, [], Output([], 0, true)).turns;
    assert forall k: nat | k < |turns| :: RunCalls.TurnKept(w, c, RunCalls.HistoryAt([], turns, k), turns[k]);
  }

  /** What the output of a run says of its turns. */
  lemma OutputTells(c: Codec, fate: nat -> Fate, run: Run)
    requires OutputMatches(c, Output([], 0, true), run) && WholeOnFailure(fate, Output([], 0, true), run)
    ensures var (out, _) := ReadAll(run.output.written, MAX_FRAME_BYTES);
      && |out| <= |run.turns| && (if run.exit == 5 then |run.turns| <= |out| + 1 else |out| == |run.turns|)
      && (forall k | 0 <= k < |out| ::
            && Framable(out[k], MAX_FRAME_BYTES)
            && c.decode(out[k]) == Some(run.turns[k].sent)
            && run.turns[k].sent.id == run.turns[k].request.id)
      && (run.exit == 5 ==> run.turns != [])
      && (run.exit == 5 ==> (|out| == |run.turns| <==> LastIsWhole(fate, Output([], 0, true), run)))
  {
    hide ReadAll, OutputMatches, Framable, FailsAfterWhole, Wire;
    OutputReads(c, run);
    OutSound(c, run, ReadAll(run.output.written, MAX_FRAME_BYTES).0);
    assert forall ps: seq<Byte> :: [] + ps == ps;
  }

  lemma SameMatch(c: Codec, frames: seq<seq<Byte>>, end: ReadResult, run: Run)
    requires InputMatches(c, frames, end, run)
    ensures InputMatches(c, frames, end, run.(trace := run.trace + [OnShutdown]))
  {
  }

  lemma OutSound(c: Codec, run: Run, out: seq<seq<Byte>>)
    requires OutputMatches(c, Output([], 0, true), run) && out <= BytesOf(run.turns)
    ensures forall k | 0 <= k < |out| ::
      && Framable(out[k], MAX_FRAME_BYTES)
      && c.decode(out[k]) == Some(run.turns[k].sent)
      && run.turns[k].sent.id == run.turns[k].request.id
  {
    hide Framable, Wire;
    forall k | 0 <= k < |out| ensures TurnSound(c, run.turns[k]) && out[k] == run.turns[k].bytes {
      assert run.turns[k] in run.turns;
    }
  }

  lemma LastBroke(c: Codec, frames: seq<seq<Byte>>, end: ReadResult, run: Run)
    requires InputMatches(c, frames, end, run) && OutputMatches(c, Output([], 0, true), run)
    ensures run.exit == 5 ==> run.turns != [] && run.turns[|run.turns| - 1].result == StreamFailed
  {
    hide Framable, Wire, AllFramable;
    if run.exit == 5 {
      var last := run.turns[|run.turns| - 1];
      assert last in run.turns && TurnSound(c, last);
    }
  }

  /** With an output that never fails, the loop never exits 5: it answers every request the input holds. */
  lemma {:induction false} HealthyOutput(w: World, c: Codec, fate: nat -> Fate, input: seq<Byte>, s: Session, t: Trace,
                                         o: Output)
    requires CodecSound(c) && o.good && forall k :: fate(k) == Good
    ensures Serve(w, c, fate, input, s, t, o).exit != 5
    decreases |input|
  {
    hide Dispatched, FirstFrame, CodecSound, SentBytes, SentReply;
    match FirstFrame(input, MAX_FRAME_BYTES)
    case CleanEof =>
    case Failed(_) =>
    case Frame(p) =>
      if c.parse(p).Some? {
        var request := c.parse(p).value;
        var turn := TurnOf(w, c, fate, s, t, o, request);
        TurnIsSound(w, c, fate, s, t, o, request);
        var after := Pushed(fate, o, turn.bytes, MAX_FRAME_BYTES).0;
        HealthyOutput(w, c, fate, input[4 + |p|..], NextSession(s, turn.request, turn.reply), t + turn.events, after);
      }
  }
}
