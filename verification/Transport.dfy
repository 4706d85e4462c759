/**
 Length-prefixed framing over byte streams
 (src/anolis/provider_sdk/transport.cpp:8-113). A stream read returns any
 non-empty part of what was asked for, and nothing only at the end.
 */
module Transport {

  type Byte = b: int | 0 <= b < 0x100

  const MAX_FRAME_BYTES := 1024 * 1024

  // ---- little-endian lengths -----------------------------------------------------------------

  function U32Bytes(value: nat): (bytes: seq<Byte>)
    requires value < 0x1_0000_0000
    ensures |bytes| == 4
  {
    [value % 0x100, value / 0x100 % 0x100, value / 0x1_0000 % 0x100, value / 0x100_0000 % 0x100]
  }

  function U32Value(bytes: seq<Byte>): (value: nat)
    requires |bytes| == 4
    ensures value < 0x1_0000_0000
  {
    bytes[0] as int + bytes[1] as int * 0x100 + bytes[2] as int * 0x1_0000 + bytes[3] as int * 0x100_0000
  }

  lemma LengthRoundTrip(value: nat)
    requires value < 0x1_0000_0000
    ensures U32Value(U32Bytes(value)) == value
  {
    assert value / 0x100 == value / 0x100 % 0x100 + 0x100 * (value / 0x1_0000);
    assert value / 0x1_0000 == value / 0x1_0000 % 0x100 + 0x100 * (value / 0x100_0000);
  }

  lemma BytesRoundTrip(bytes: seq<Byte>)
    requires |bytes| == 4
    ensures U32Bytes(U32Value(bytes)) == bytes
  {
    var v, b1, b2, b3 := U32Value(bytes), bytes[1] as int, bytes[2] as int, bytes[3] as int;
    assert v / 0x100 == b1 + b2 * 0x100 + b3 * 0x1_0000;
    assert v / 0x1_0000 == b2 + b3 * 0x100;
    assert v / 0x100_0000 == b3;
  }

  /** The number a byte string stands for, least significant byte first, whatever its length. */
  function LittleEndian(bytes: seq<Byte>): nat {
    if bytes == [] then 0 else bytes[0] as int + 0x100 * LittleEndian(bytes[1..])
  }

  lemma FourLittleEndian(bytes: seq<Byte>)
    requires |bytes| == 4
    ensures U32Value(bytes) == LittleEndian(bytes)
  {
    var a, b, c := bytes[1..], bytes[2..], bytes[3..];
    assert a[1..] == b && b[1..] == c && c[1..] == [];
    assert LittleEndian(c) == bytes[3] as int;
    assert LittleEndian(b) == bytes[2] as int + 0x100 * bytes[3] as int;
  }

  /** The length put on the wire is little-endian. */
  lemma LengthIsLittleEndian(value: nat)
    requires value < 0x1_0000_0000
    ensures LittleEndian(U32Bytes(value)) == value
  {
    LengthRoundTrip(value);
    FourLittleEndian(U32Bytes(value));
  }

  // ---- the wire form, and the pure reader ------------------------------------------------------

  datatype Fault = HeaderCut | ZeroLength | TooLong | PayloadCut

  datatype ReadResult = Frame(payload: seq<Byte>) | CleanEof | Failed(fault: Fault)

  /** A payload the writer accepts: not empty, within the cap, its length a uint32. */
  predicate Framable(payload: seq<Byte>, max: nat) {
    0 < |payload| <= max && |payload| < 0x1_0000_0000
  }

  function EncodeFrame(payload: seq<Byte>): (frame: seq<Byte>)
    requires |payload| < 0x1_0000_0000
    ensures |frame| == 4 + |payload|
  {
    U32Bytes(|payload|) + payload
  }

  /** What `read_frame` finds at the front of `s`. */
  function FirstFrame(s: seq<Byte>, max: nat): (r: ReadResult)
    ensures r.Frame? ==> Framable(r.payload, max) && 4 + |r.payload| <= |s|
  {
    if s == [] then CleanEof
    else if |s| < 4 then Failed(HeaderCut)
    else
      var size := U32Value(s[..4]);
      if size == 0 then Failed(ZeroLength)
      else if size > max then Failed(TooLong)
      else if |s| - 4 < size then Failed(PayloadCut)
      else Frame(s[4..4 + size])
  }

  /** `payload` stands at the front of `s` behind its little-endian length, and that length is acceptable. */
  predicate Fronts(s: seq<Byte>, payload: seq<Byte>, max: nat) {
    && 4 + |payload| <= |s|
    && LittleEndian(s[..4]) == |payload|
    && s[4..4 + |payload|] == payload
    && 0 < |payload| <= max
  }

  /** A frame is found exactly when one is there; each failure has its own cause. */
  lemma FrameIffFronts(s: seq<Byte>, max: nat)
    ensures forall p: seq<Byte> :: FirstFrame(s, max) == Frame(p) <==> Fronts(s, p, max)
    ensures FirstFrame(s, max) == CleanEof <==> s == []
    ensures FirstFrame(s, max) == Failed(HeaderCut) <==> 0 < |s| < 4
    ensures FirstFrame(s, max) == Failed(ZeroLength) <==> |s| >= 4 && LittleEndian(s[..4]) == 0
    ensures FirstFrame(s, max) == Failed(TooLong) <==> |s| >= 4 && LittleEndian(s[..4]) > max
    ensures FirstFrame(s, max) == Failed(PayloadCut) <==>
      |s| >= 4 && 0 < LittleEndian(s[..4]) <= max && |s| < 4 + LittleEndian(s[..4])
  {
    hide LittleEndian, U32Value;
    if |s| >= 4 { FourLittleEndian(s[..4]); }
  }

  // ---- streams -----------------------------------------------------------------------------------

  method CopyIn(buffer: array<Byte>, offset: nat, bytes: seq<Byte>)
    requires offset + |bytes| <= buffer.Length
    modifies buffer
    ensures buffer[..] == old(buffer[..offset]) + bytes + old(buffer[offset + |bytes|..])
  {
    forall i | 0 <= i < |bytes| {
      buffer[offset + i] := bytes[i];
    }
  }

  /** Any number of bytes a read may return: at least one when some are there. */
  method Share(n: nat, available: nat) returns (count: nat)
    requires 0 < n
    ensures count <= n && count <= available && (count == 0 <==> available == 0)
  {
    assert 0 <= (if available == 0 then 0 else 1) <= available;
    count :| count <= n && count <= available && (count == 0 <==> available == 0);
  }

  class InputStream {
    var pending: seq<Byte>

    constructor (bytes: seq<Byte>)
      ensures pending == bytes
    {
      pending := bytes;
    }

    /** `istream::read`: up to `n` bytes into `buffer`, at least one unless the stream has ended. */
    method Read(buffer: array<Byte>, offset: nat, n: nat) returns (count: nat)
      requires 0 < n && offset + n <= buffer.Length
      modifies this, buffer
      ensures count <= n && count <= |old(pending)| && (count == 0 <==> old(pending) == [])
      ensures pending == old(pending)[count..]
      ensures buffer[..] == old(buffer[..offset]) + old(pending)[..count] + old(buffer[offset + count..])
    {
      count := Share(n, |pending|);
      var taken := pending[..count];
      pending := pending[count..];
      CopyIn(buffer, offset, taken);
    }
  }

  /** How one operation on the output ends: well, or broken after taking some of its bytes. */
  datatype Fate = Good | Bad(taken: nat)

  /** An output stream; `fate` says how its k-th operation ends. A broken stream stays broken. */
  class OutputStream {
    const fate: nat -> Fate
    var written: seq<Byte>
    var operations: nat
    var good: bool

    constructor (fate: nat -> Fate)
      ensures this.fate == fate && written == [] && operations == 0 && good
    {
      this.fate := fate;
      written, operations, good := [], 0, true;
    }

    ghost function State(): Output
      reads this
    {
      Output(written, operations, good)
    }

    method Write(bytes: seq<Byte>)
      modifies this
      ensures State() == Put(fate, old(State()), bytes)
    {
      if good {
        match fate(operations)
        case Good => written := written + bytes;
        case Bad(taken) =>
          written := written + bytes[..if taken < |bytes| then taken else |bytes|];
          good := false;
      }
      operations := operations + 1;
    }

    method Flush()
      modifies this
      ensures State() == Put(fate, old(State()), [])
    {
      good := good && fate(operations).Good?;
      operations := operations + 1;
      assert written + [] == written;
    }
  }

  datatype Output = Output(written: seq<Byte>, operations: nat, good: bool)

  function Put(fate: nat -> Fate, o: Output, bytes: seq<Byte>): Output {
    if !o.good then o.(operations := o.operations + 1)
    else match fate(o.operations)
      case Good => Output(o.written + bytes, o.operations + 1, true)
      case Bad(taken) =>
        Output(o.written + bytes[..if taken < |bytes| then taken else |bytes|], o.operations + 1, false)
  }

  // ---- read_exact, read_frame ------------------------------------------------------------------

  /** Fills `buffer[offset..offset + size]`, however the stream splits its reads; false if it ends first. */
  method ReadExact(input: InputStream, buffer: array<Byte>, offset: nat, size: nat) returns (ok: bool)
    requires offset + size <= buffer.Length
    modifies input, buffer
    ensures ok <==> size <= |old(input.pending)|
    ensures ok ==> buffer[offset..offset + size] == old(input.pending)[..size]
    ensures ok ==> input.pending == old(input.pending)[size..]
    ensures !ok ==> input.pending == []
    ensures buffer[..offset] == old(buffer[..offset]) && buffer[offset + size..] == old(buffer[offset + size..])
  {
    var done := 0;
    ghost var source := input.pending;
    while done < size
      invariant 0 <= done <= size && done <= |source|
      invariant input.pending == source[done..]
      invariant buffer[offset..offset + done] == source[..done]
      invariant buffer[..offset] == old(buffer[..offset]) && buffer[offset + size..] == old(buffer[offset + size..])
    {
      ghost var before := buffer[..];
      var count := input.Read(buffer, offset + done, size - done);
      if count == 0 {
        return false;
      }
      assert source[..done + count] == source[..done] + source[done..][..count];
      assert buffer[..offset + done] == before[..offset + done];
      assert buffer[offset..offset + done] == before[offset..offset + done];
      assert buffer[offset..offset + done + count]
          == buffer[offset..offset + done] + buffer[offset + done..offset + done + count];
      assert buffer[offset + size..] == before[offset + size..];
      done := done + count;
    }
    return true;
  }

  /** `read_frame`: one frame, or why there is none. Only a whole frame moves the stream to the next one. */
  method ReadFrame(input: InputStream, max: nat) returns (r: ReadResult)
    modifies input
    ensures r == FirstFrame(old(input.pending), max)
    ensures forall p: seq<Byte> :: r == Frame(p) <==> Fronts(old(input.pending), p, max)
    ensures r.Frame? ==> input.pending == old(input.pending)[4 + |r.payload|..]
  {
    ghost var source := input.pending;
    hide LittleEndian, U32Value;
    FrameIffFronts(source, max);
    var header := new Byte[4];
    var first := input.Read(header, 0, 1);
    if first == 0 {
      return CleanEof;
    }
    assert header[0] == source[0] by { assert header[..][0] == source[..1][0]; }
    ghost var one := header[..1];
    var ok := ReadExact(input, header, 1, 3);
    if !ok {
      return Failed(HeaderCut);
    }
    assert source[1..][..3] == source[1..4] && source[1..][3..] == source[4..];
    assert header[..] == header[..1] + header[1..4] && source[..4] == [source[0]] + source[1..4];
    assert header[..1] == one == [source[0]];
    assert header[..] == source[..4];
    var size := U32Value(header[..]);
    if size == 0 {
      return Failed(ZeroLength);
    }
    if size > max {
      return Failed(TooLong);
    }
    var payload := new Byte[size];
    ok := ReadExact(input, payload, 0, size);
    if !ok {
      return Failed(PayloadCut);
    }
    assert source[4..][..size] == source[4..4 + size] && source[4..][size..] == source[4 + size..];
    assert payload[..] == payload[0..0 + size];
    return Frame(payload[..]);
  }

  // ---- write_frame ---------------------------------------------------------------------------------

  datatype WriteResult = Written | Refused | StreamFailed

  /** The output after `write_frame`: header, payload, flush, stopping at the first failure. */
  function Pushed(fate: nat -> Fate, o: Output, payload: seq<Byte>, max: nat): (Output, WriteResult) {
    if !Framable(payload, max) then (o, Refused)
    else
      var a := Put(fate, o, U32Bytes(|payload|));
      if !a.good then (a, StreamFailed)
      else
        var b := Put(fate, a, payload);
        if !b.good then (b, StreamFailed)
        else
          var c := Put(fate, b, []);
          (c, if c.good then Written else StreamFailed)
  }

  method WriteFrame(output: OutputStream, payload: seq<Byte>, max: nat) returns (r: WriteResult)
    modifies output
    ensures (output.State(), r) == Pushed(output.fate, old(output.State()), payload, max)
    ensures r == Written ==>
      output.written[..|old(output.written)|] == old(output.written)
      && Fronts(output.written[|old(output.written)|..], payload, max)
  {
    WrittenFronts(output.fate, output.State(), payload, max);
    hide Fronts, U32Bytes;
    if |payload| == 0 || |payload| > max || |payload| > 0xFFFF_FFFF {
      return Refused;
    }
    output.Write(U32Bytes(|payload|));
    if !output.good {
      return StreamFailed;
    }
    output.Write(payload);
    if !output.good {
      return StreamFailed;
    }
    output.Flush();
    if !output.good {
      return StreamFailed;
    }
    return Written;
  }

  /** A reported success put exactly one whole frame on the wire; a stream failure some prefix of it, perhaps all. */
  lemma PushedWhole(fate: nat -> Fate, o: Output, payload: seq<Byte>, max: nat)
    ensures var (after, r) := Pushed(fate, o, payload, max);
      && (r == Refused <==> !Framable(payload, max))
      && (r == Refused ==> after == o)
      && (r == Written ==> after.written == o.written + EncodeFrame(payload) && after.good)
      && (r == StreamFailed ==> o.written <= after.written <= o.written + EncodeFrame(payload) && !after.good)
  {
    if Framable(payload, max) {
      var header := U32Bytes(|payload|);
      assert o.written + (header + payload) == o.written + header + payload;
      assert o.written + EncodeFrame(payload) + [] == o.written + EncodeFrame(payload);
      forall n: nat | n <= 4 ensures o.written + header[..n] <= o.written + (header + payload) {
        assert header[..n] <= header + payload;
      }
      forall n: nat | n <= |payload| ensures o.written + header + payload[..n] <= o.written + (header + payload) {
      }
    }
  }

  /** What a successful write adds is the payload behind its little-endian length. */
  lemma WrittenFronts(fate: nat -> Fate, o: Output, payload: seq<Byte>, max: nat)
    ensures var (after, r) := Pushed(fate, o, payload, max);
      r == Written ==>
        |o.written| <= |after.written| && after.written[..|o.written|] == o.written
        && Fronts(after.written[|o.written|..], payload, max)
        && |after.written| == |o.written| + 4 + |payload|
  {
    hide LittleEndian, U32Bytes, Put;
    var (after, r) := Pushed(fate, o, payload, max);
    PushedWhole(fate, o, payload, max);
    if r == Written {
      LengthIsLittleEndian(|payload|);
      var added := after.written[|o.written|..];
      assert added == U32Bytes(|payload|) + payload;
      assert added[..4] == U32Bytes(|payload|);
    }
  }

  /**
   The failures that come after the whole frame is out, said of the three operations
   from the `at`-th on: the payload write breaks having taken everything, or only the
   flush fails.
   */
  predicate FailsAfterWhole(fate: nat -> Fate, at: nat, size: nat) {
    && fate(at).Good?
    && match fate(at + 1)
       case Bad(taken) => taken >= size
       case Good => fate(at + 2).Bad?
  }

  /** From a good stream, the three fates decide: success, or a failure with the whole frame already written. */
  lemma FatesDecide(fate: nat -> Fate, o: Output, payload: seq<Byte>, max: nat)
    requires o.good && Framable(payload, max)
    ensures var (after, r) := Pushed(fate, o, payload, max);
      && (r == Written <==> fate(o.operations).Good? && fate(o.operations + 1).Good? && fate(o.operations + 2).Good?)
      && (r == Written ==> after.operations == o.operations + 3)
      && (r == StreamFailed && after.written == o.written + EncodeFrame(payload) <==>
            FailsAfterWhole(fate, o.operations, |payload|))
  {
    var header, i := U32Bytes(|payload|), o.operations;
    assert o.written + EncodeFrame(payload) == o.written + header + payload;
    var (after, r) := Pushed(fate, o, payload, max);
    if fate(i).Bad? {
      assert |after.written| <= |o.written| + 4;
    } else if fate(i + 1).Bad? {
      var taken := fate(i + 1).taken;
      assert after.written == o.written + header + payload[..if taken < |payload| then taken else |payload|];
      if taken >= |payload| { assert payload[..|payload|] == payload; }
    } else {
      assert o.written + header + payload + [] == o.written + header + payload;
    }
  }

  // ---- a whole stream ------------------------------------------------------------------------------

  /** Repeated `read_frame` until it stops: the payloads, and how it stopped. */
  function ReadAll(s: seq<Byte>, max: nat): (r: (seq<seq<Byte>>, ReadResult))
    ensures !r.1.Frame?
    decreases |s|
  {
    var first := FirstFrame(s, max);
    if !first.Frame? then ([], first)
    else
      var (rest, end) := ReadAll(s[4 + |first.payload|..], max);
      ([first.payload] + rest, end)
  }

  predicate AllFramable(ps: seq<seq<Byte>>, max: nat) {
    forall p | p in ps :: Framable(p, max)
  }

  function Wire(ps: seq<seq<Byte>>, max: nat): seq<Byte>
    requires AllFramable(ps, max)
  {
    if ps == [] then []
    else
      assert ps[0] in ps;
      EncodeFrame(ps[0]) + Wire(ps[1..], max)
  }

  lemma FrameReads(payload: seq<Byte>, rest: seq<Byte>, max: nat)
    requires Framable(payload, max)
    ensures FirstFrame(EncodeFrame(payload) + rest, max) == Frame(payload)
    ensures (EncodeFrame(payload) + rest)[4 + |payload|..] == rest
  {
    var s := EncodeFrame(payload) + rest;
    assert s[..4] == U32Bytes(|payload|);
    LengthRoundTrip(|payload|);
    assert s[4..4 + |payload|] == payload;
  }

  lemma CutFrameFails(payload: seq<Byte>, rest: seq<Byte>, n: nat, max: nat)
    requires Framable(payload, max) && n < 4 + |payload|
    ensures var s := (EncodeFrame(payload) + rest)[..n];
      FirstFrame(s, max) == if n == 0 then CleanEof else if n < 4 then Failed(HeaderCut) else Failed(PayloadCut)
  {
    var s := (EncodeFrame(payload) + rest)[..n];
    if n >= 4 {
      assert s[..4] == U32Bytes(|payload|);
      LengthRoundTrip(|payload|);
    }
  }

  /**
   All-or-nothing: cut the wire form of any payloads after `n` bytes, `k` of them being
   whole. Reading yields exactly those `k`, then a clean end iff the cut is on a frame
   boundary, and otherwise the fault of the part that was cut.
   */
  lemma {:induction false} Truncation(ps: seq<seq<Byte>>, n: nat, k: nat, max: nat)
    requires AllFramable(ps, max) && n <= |Wire(ps, max)| && k <= |ps|
    requires |Wire(ps[..k], max)| <= n && (k < |ps| ==> n < |Wire(ps[..k + 1], max)|)
    ensures var extra := n - |Wire(ps[..k], max)|;
      ReadAll(Wire(ps, max)[..n], max) ==
      (ps[..k], if extra == 0 then CleanEof else if extra < 4 then Failed(HeaderCut) else Failed(PayloadCut))
  {
    hide FirstFrame, EncodeFrame;
    if ps == [] {
      assert Wire(ps, max)[..n] == [];
      EmptyReads(max);
    } else {
      assert ps[0] in ps;
      var p, rest := ps[0], Wire(ps[1..], max);
      var size := 4 + |p|;
      if k == 0 {
        FirstOfWire(ps, 0, max);
        CutFrameFails(p, rest, n, max);
      } else {
        FirstOfWire(ps, k - 1, max);
        if k < |ps| { FirstOfWire(ps, k, max); }
        Truncation(ps[1..], n - size, k - 1, max);
        assert Wire(ps, max)[..n] == EncodeFrame(p) + rest[..n - size];
        FrameReads(p, rest[..n - size], max);
        assert ps[..k] == [p] + ps[1..][..k - 1];
      }
    }
  }

  lemma EmptyReads(max: nat)
    ensures ReadAll([], max) == ([], CleanEof)
  {
  }

  lemma FirstOfWire(ps: seq<seq<Byte>>, k: nat, max: nat)
    requires AllFramable(ps, max) && k < |ps|
    ensures ps[0] in ps && Wire(ps[..k + 1], max) == EncodeFrame(ps[0]) + Wire(ps[1..][..k], max)
  {
    hide EncodeFrame;
    assert ps[..k + 1][0] == ps[0] && ps[..k + 1][1..] == ps[1..][..k];
  }

  /** Every cut has such a `k`: the number of payloads wholly before it. */
  lemma {:induction false} CutExists(ps: seq<seq<Byte>>, n: nat, max: nat) returns (k: nat)
    requires AllFramable(ps, max) && n <= |Wire(ps, max)|
    ensures k <= |ps| && |Wire(ps[..k], max)| <= n && (k < |ps| ==> n < |Wire(ps[..k + 1], max)|)
  {
    if ps == [] {
      k := 0;
    } else if n < 4 + |ps[0]| {
      k := 0;
      assert ps[..1][0] == ps[0];
    } else {
      k := CutExists(ps[1..], n - 4 - |ps[0]|, max);
      k := k + 1;
      assert ps[..k][0] == ps[0] && ps[..k][1..] == ps[1..][..k - 1];
      if k < |ps| {
        assert ps[..k + 1][0] == ps[0] && ps[..k + 1][1..] == ps[1..][..k];
      }
    }
  }

  /** The reader accepts only what the writer writes: any stream starts with the wire form of what it yields. */
  lemma {:induction false} ReadAllExact(s: seq<Byte>, max: nat)
    ensures var (ps, end) := ReadAll(s, max);
      AllFramable(ps, max) && Wire(ps, max) <= s && (end == CleanEof <==> s == Wire(ps, max))
    decreases |s|
  {
    var first := FirstFrame(s, max);
    if first.Frame? {
      var p := first.payload;
      var rest := s[4 + |p|..];
      ReadAllExact(rest, max);
      BytesRoundTrip(s[..4]);
      assert s == EncodeFrame(p) + rest;
      var (ps, end) := ReadAll(rest, max);
      assert ([p] + ps)[1..] == ps;
    }
  }
}
