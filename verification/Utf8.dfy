/**
 UTF-8 over byte strings (each char is one byte). The encoding is defined as
 RFC 3629 section 3 does, from scalar values to bytes; the two recognisers of the
 source, one table-driven (src/anolis/provider_sdk/config.cpp:160-208) and one
 arithmetic (src/anolis/provider_sdk/host_check.cpp:12-46), are proved against it.
 Bit masks and shifts are written as remainders and quotients by powers of two.
 */
module Utf8 {

  // ---- the encoding -----------------------------------------------------------------

  /** Unicode scalar values: code points that are not surrogates. */
  predicate IsScalar(c: int) {
    0 <= c <= 0x10FFFF && !(0xD800 <= c <= 0xDFFF)
  }

  function Tail(bits: int): char
    requires 0 <= bits
  {
    (0x80 + bits % 0x40) as char
  }

  function Encode(c: int): string
    requires IsScalar(c)
  {
    if c < 0x80 then [c as char]
    else if c < 0x800 then [(0xC0 + c / 0x40) as char, Tail(c)]
    else if c < 0x10000 then [(0xE0 + c / 0x1000) as char, Tail(c / 0x40), Tail(c)]
    else [(0xF0 + c / 0x40000) as char, Tail(c / 0x1000), Tail(c / 0x40), Tail(c)]
  }

  predicate AllScalar(cs: seq<int>) {
    forall c | c in cs :: IsScalar(c)
  }

  function EncodeAll(cs: seq<int>): string
    requires AllScalar(cs)
  {
    if cs == [] then "" else Encode(cs[0]) + EncodeAll(cs[1..])
  }

  // ---- the table-driven walk ----------------------------------------------------------

  /** Length of the sequence a lead byte announces, with the range of its second byte. */
  datatype Row = Row(length: nat, low: int, high: int)

  function RowOf(lead: int): Row {
    if 0xC2 <= lead <= 0xDF then Row(2, 0x80, 0xBF)
    else if lead == 0xE0 then Row(3, 0xA0, 0xBF)
    else if 0xE1 <= lead <= 0xEC || lead == 0xEE || lead == 0xEF then Row(3, 0x80, 0xBF)
    else if lead == 0xED then Row(3, 0x80, 0x9F)
    else if lead == 0xF0 then Row(4, 0x90, 0xBF)
    else if 0xF1 <= lead <= 0xF3 then Row(4, 0x80, 0xBF)
    else if lead == 0xF4 then Row(4, 0x80, 0x8F)
    else Row(0, 0, 0)
  }

  predicate IsTail(c: char) {
    0x80 <= c as int <= 0xBF
  }

  /** Length of the well-formed sequence `s` starts with, or 0 when there is none. */
  function LeadLength(s: string): (n: nat)
    requires s != ""
    ensures n <= |s| && n <= 4
  {
    if s[0] as int < 0x80 then 1
    else
      var row := RowOf(s[0] as int);
      if row.length > 0 && row.length <= |s| && row.low <= s[1] as int <= row.high
         && forall k | 2 <= k < row.length :: IsTail(s[k])
      then row.length else 0
  }

  predicate IsValid(s: string) {
    s == "" || (LeadLength(s) > 0 && IsValid(s[LeadLength(s)..]))
  }

  /** The bytes of a sequence from its third on. */
  method TailsFollow(text: string, i: nat, length: nat) returns (ok: bool)
    requires 2 <= length && i + length <= |text|
    ensures ok <==> forall k | 2 <= k < length :: IsTail(text[i..][k])
  {
    ghost var rest := text[i..];
    for k := 2 to length
      invariant forall j | 2 <= j < k :: IsTail(rest[j])
    {
      assert rest[k] == text[i + k];
      if (text[i + k] as int) < 0x80 || text[i + k] as int > 0xBF {
        assert !IsTail(rest[k]);
        return false;
      }
    }
    return true;
  }

  /** `is_valid_utf8`: the walk decides well-formedness. */
  method CheckUtf8(text: string) returns (ok: bool)
    ensures ok <==> IsValid(text)
  {
    hide RowOf, IsTail;
    var i := 0;
    while i < |text|
      invariant 0 <= i <= |text|
      invariant IsValid(text) <==> IsValid(text[i..])
    {
      ghost var rest := text[i..];
      var lead := text[i] as int;
      if lead < 0x80 {
        assert rest[1..] == text[i + 1..];
        i := i + 1;
        continue;
      }
      var row := RowOf(lead);
      RowLengths(lead);
      if row.length == 0 || i + row.length > |text| {
        return false;
      }
      if text[i + 1] as int < row.low || text[i + 1] as int > row.high {
        return false;
      }
      var tails := TailsFollow(text, i, row.length);
      if !tails {
        return false;
      }
      assert LeadLength(rest) == row.length && rest[row.length..] == text[i + row.length..];
      i := i + row.length;
    }
    return true;
  }

  lemma RowLengths(lead: int)
    ensures RowOf(lead).length in {0, 2, 3, 4}
  {
  }

  // ---- decoding -------------------------------------------------------------------------

  /** The code point a well-formed sequence denotes. */
  function DecodeOne(s: string): int
    requires s != "" && LeadLength(s) > 0
  {
    var n, b := LeadLength(s), s[0] as int;
    if n == 1 then b
    else if n == 2 then (b - 0xC0) * 0x40 + (s[1] as int - 0x80)
    else if n == 3 then (b - 0xE0) * 0x1000 + (s[1] as int - 0x80) * 0x40 + (s[2] as int - 0x80)
    else (b - 0xF0) * 0x40000 + (s[1] as int - 0x80) * 0x1000 + (s[2] as int - 0x80) * 0x40 + (s[3] as int - 0x80)
  }

  lemma DecodedPair(s: string)
    requires s != "" && LeadLength(s) == 2
    ensures IsScalar(DecodeOne(s)) && Encode(DecodeOne(s)) == s[..2]
  {
    assert IsTail(s[1]);
  }

  lemma DecodedTriple(s: string)
    requires s != "" && LeadLength(s) == 3
    ensures IsScalar(DecodeOne(s)) && Encode(DecodeOne(s)) == s[..3]
  {
    assert IsTail(s[1]) && IsTail(s[2]);
    assert DecodeOne(s) / 0x40 == (s[0] as int - 0xE0) * 0x40 + (s[1] as int - 0x80);
  }

  lemma DecodedQuadruple(s: string)
    requires s != "" && LeadLength(s) == 4
    ensures IsScalar(DecodeOne(s)) && Encode(DecodeOne(s)) == s[..4]
  {
    assert IsTail(s[1]) && IsTail(s[2]) && IsTail(s[3]);
    var c := DecodeOne(s);
    assert c / 0x40 == (s[0] as int - 0xF0) * 0x1000 + (s[1] as int - 0x80) * 0x40 + (s[2] as int - 0x80);
    assert c / 0x1000 == (s[0] as int - 0xF0) * 0x40 + (s[1] as int - 0x80);
  }

  lemma DecodedIsEncoded(s: string)
    requires s != "" && LeadLength(s) > 0
    ensures IsScalar(DecodeOne(s)) && Encode(DecodeOne(s)) == s[..LeadLength(s)]
  {
    if LeadLength(s) == 1 {
      assert s[..1] == [s[0]];
    } else {
      LeadLengths(s);
      hide Encode, DecodeOne, LeadLength;
      if LeadLength(s) == 2 { DecodedPair(s); }
      else if LeadLength(s) == 3 { DecodedTriple(s); }
      else { DecodedQuadruple(s); }
    }
  }

  lemma LeadLengths(s: string)
    requires s != ""
    ensures LeadLength(s) in {0, 1, 2, 3, 4}
  {
  }

  lemma EncodedPairLeads(c: int, rest: string)
    requires 0x80 <= c < 0x800
    ensures LeadLength(Encode(c) + rest) == 2 && DecodeOne(Encode(c) + rest) == c && |Encode(c)| == 2
  {
    assert 2 <= c / 0x40 < 0x20;
  }

  lemma EncodedTripleLeads(c: int, rest: string)
    requires 0x800 <= c < 0x10000 && IsScalar(c)
    ensures LeadLength(Encode(c) + rest) == 3 && DecodeOne(Encode(c) + rest) == c && |Encode(c)| == 3
  {
    assert c / 0x40 == (c / 0x1000) * 0x40 + (c / 0x40) % 0x40;
  }

  lemma EncodedQuadrupleLeads(c: int, rest: string)
    requires 0x10000 <= c && IsScalar(c)
    ensures LeadLength(Encode(c) + rest) == 4 && DecodeOne(Encode(c) + rest) == c && |Encode(c)| == 4
  {
    assert c / 0x40 == (c / 0x1000) * 0x40 + (c / 0x40) % 0x40;
    assert c / 0x1000 == (c / 0x40000) * 0x40 + (c / 0x1000) % 0x40;
  }

  lemma EncodedLeads(c: int, rest: string)
    requires IsScalar(c)
    ensures LeadLength(Encode(c) + rest) == |Encode(c)| > 0
    ensures DecodeOne(Encode(c) + rest) == c
  {
    if c >= 0x80 {
      hide Encode, DecodeOne, LeadLength;
      if c < 0x800 { EncodedPairLeads(c, rest); }
      else if c < 0x10000 { EncodedTripleLeads(c, rest); }
      else { EncodedQuadrupleLeads(c, rest); }
    }
  }

  function Decode(s: string): (cs: seq<int>)
    requires IsValid(s)
  {
    if s == "" then [] else [DecodeOne(s)] + Decode(s[LeadLength(s)..])
  }

  lemma {:induction false} DecodeThenEncode(s: string)
    requires IsValid(s)
    ensures AllScalar(Decode(s)) && EncodeAll(Decode(s)) == s
  {
    hide Encode, DecodeOne, LeadLength;
    if s != "" {
      var n := LeadLength(s);
      DecodedIsEncoded(s);
      DecodeThenEncode(s[n..]);
      assert s == s[..n] + s[n..];
      assert Decode(s)[1..] == Decode(s[n..]);
    }
  }

  lemma {:induction false} EncodeThenDecode(cs: seq<int>)
    requires AllScalar(cs)
    ensures IsValid(EncodeAll(cs)) && Decode(EncodeAll(cs)) == cs
  {
    hide Encode, DecodeOne, LeadLength;
    if cs != [] {
      EncodeThenDecode(cs[1..]);
      var first, rest := Encode(cs[0]), EncodeAll(cs[1..]);
      EncodedLeads(cs[0], rest);
      assert (first + rest)[|first|..] == rest;
    }
  }

  /** The walk accepts exactly the encodings of sequences of scalar values. */
  lemma ValidIffEncoded(s: string)
    ensures IsValid(s) <==> exists cs :: AllScalar(cs) && EncodeAll(cs) == s
  {
    if IsValid(s) { DecodeThenEncode(s); }
    if cs :| AllScalar(cs) && EncodeAll(cs) == s { EncodeThenDecode(cs); }
  }

  // ---- the arithmetic recogniser ----------------------------------------------------------

  /** `utf8_sequence_length`: shift-and-mask decoding agrees with the table at every non-ASCII lead. */
  method SequenceLength(text: string, i: nat) returns (length: nat)
    requires i < |text|
    ensures length == if text[i] as int < 0x80 then 0 else LeadLength(text[i..])
  {
    var lead := text[i] as int;
    var min, code := 0, 0;
    length := 0;
    if 0xC2 <= lead <= 0xDF {
      length, min, code := 2, 0x80, lead % 0x20;
    } else if 0xE0 <= lead <= 0xEF {
      length, min, code := 3, 0x800, lead % 0x10;
    } else if 0xF0 <= lead <= 0xF4 {
      length, min, code := 4, 0x10000, lead % 0x08;
    } else {
      return 0;
    }
    ghost var rest := text[i..];
    if i + length > |text| {
      return 0;
    }
    var k := 1;
    while k < length
      invariant 1 <= k <= length
      invariant forall j | 1 <= j < k :: IsTail(rest[j])
      invariant code == Accumulated(rest, length, k)
    {
      assert rest[k] == text[i + k];
      if (text[i + k] as int / 0x40) != 2 {
        assert !IsTail(rest[k]);
        return 0;
      }
      code := code * 0x40 + text[i + k] as int % 0x40;
      k := k + 1;
    }
    RangeChecks(rest, length);
    if code < min || code > 0x10FFFF || (0xD800 <= code <= 0xDFFF) {
      return 0;
    }
  }

  /** The code point read so far, after `k` of `length` bytes. */
  ghost function Accumulated(s: string, length: nat, k: nat): int
    requires 1 <= k <= |s|
  {
    if k == 1 then s[0] as int % (if length == 2 then 0x20 else if length == 3 then 0x10 else 0x08)
    else Accumulated(s, length, k - 1) * 0x40 + s[k - 1] as int % 0x40
  }

  lemma AccumulatedBytes(s: string, length: nat)
    requires 2 <= length <= 4 && length <= |s| && forall j | 1 <= j < length :: IsTail(s[j])
    ensures var lead := s[0] as int % (if length == 2 then 0x20 else if length == 3 then 0x10 else 0x08);
      Accumulated(s, length, length) ==
        if length == 2 then lead * 0x40 + (s[1] as int - 0x80)
        else if length == 3 then (lead * 0x40 + (s[1] as int - 0x80)) * 0x40 + (s[2] as int - 0x80)
        else ((lead * 0x40 + (s[1] as int - 0x80)) * 0x40 + (s[2] as int - 0x80)) * 0x40 + (s[3] as int - 0x80)
  {
    forall j | 1 <= j < length ensures s[j] as int % 0x40 == s[j] as int - 0x80 {
      assert IsTail(s[j]);
    }
    assert Accumulated(s, length, 1) == s[0] as int % (if length == 2 then 0x20 else if length == 3 then 0x10 else 0x08);
    assert Accumulated(s, length, 2) == Accumulated(s, length, 1) * 0x40 + s[1] as int % 0x40;
    if length >= 3 {
      assert Accumulated(s, length, 3) == Accumulated(s, length, 2) * 0x40 + s[2] as int % 0x40;
    }
  }

  /** The checks on the code point, after `length` bytes have been accumulated. */
  predicate InRange(length: nat, code: int) {
    var min := if length == 2 then 0x80 else if length == 3 then 0x800 else 0x10000;
    !(code < min || code > 0x10FFFF || 0xD800 <= code <= 0xDFFF)
  }

  /** Minimum, maximum and surrogate checks on the code point are the table's second-byte ranges. */
  lemma RangeChecks(s: string, length: nat)
    requires s != "" && length <= |s| && forall j | 1 <= j < length :: IsTail(s[j])
    requires length == if s[0] as int < 0xE0 then 2 else if s[0] as int < 0xF0 then 3 else 4
    requires 0xC2 <= s[0] as int <= 0xF4
    ensures LeadLength(s) == if InRange(length, Accumulated(s, length, length)) then length else 0
  {
    hide Accumulated;
    AccumulatedBytes(s, length);
    assert IsTail(s[1]);
    if length == 2 { PairInRange(s); }
    else if length == 3 { TripleInRange(s); }
    else { QuadrupleInRange(s); }
  }

  lemma PairInRange(s: string)
    requires |s| >= 2 && 0xC2 <= s[0] as int < 0xE0 && IsTail(s[1])
    ensures LeadLength(s) == 2 && InRange(2, s[0] as int % 0x20 * 0x40 + (s[1] as int - 0x80))
  {
    assert s[0] as int % 0x20 == s[0] as int - 0xC0;
  }

  lemma TripleInRange(s: string)
    requires |s| >= 3 && 0xE0 <= s[0] as int < 0xF0 && IsTail(s[1]) && IsTail(s[2])
    ensures LeadLength(s) ==
      if InRange(3, (s[0] as int % 0x10 * 0x40 + (s[1] as int - 0x80)) * 0x40 + (s[2] as int - 0x80)) then 3 else 0
  {
    assert s[0] as int % 0x10 == s[0] as int - 0xE0;
  }

  lemma QuadrupleInRange(s: string)
    requires |s| >= 4 && 0xF0 <= s[0] as int <= 0xF4 && IsTail(s[1]) && IsTail(s[2]) && IsTail(s[3])
    ensures LeadLength(s) ==
      if InRange(4, ((s[0] as int % 0x08 * 0x40 + (s[1] as int - 0x80)) * 0x40 + (s[2] as int - 0x80)) * 0x40
                    + (s[3] as int - 0x80)) then 4 else 0
  {
    assert s[0] as int % 0x08 == s[0] as int - 0xF0;
  }

  // ---- composition --------------------------------------------------------------------------

  lemma LeadLengthOfPrefix(s: string, t: string)
    requires s != "" && LeadLength(s) > 0
    ensures LeadLength(s + t) == LeadLength(s)
  {
  }

  lemma {:induction false} ValidAppend(s: string, t: string)
    requires IsValid(s)
    ensures IsValid(s + t) <==> IsValid(t)
  {
    if s == "" {
      assert s + t == t;
    } else {
      var n := LeadLength(s);
      LeadLengthOfPrefix(s, t);
      ValidAppend(s[n..], t);
      assert (s + t)[n..] == s[n..] + t;
    }
  }

  /** The bytes of a multi-byte sequence are all above ASCII. */
  lemma SequenceAboveAscii(s: string)
    requires s != "" && (s[0] as int) >= 0x80
    ensures forall i | 0 <= i < LeadLength(s) :: s[i] as int >= 0x80
  {
    forall i | 0 <= i < LeadLength(s) ensures s[i] as int >= 0x80 {
      if i >= 2 { assert IsTail(s[i]); }
    }
  }

  lemma OneSequenceValid(s: string)
    requires s != "" && LeadLength(s) > 0
    ensures IsValid(s[..LeadLength(s)])
  {
    var t := s[..LeadLength(s)];
    assert LeadLength(t) == |t|;
    assert t[|t|..] == "";
  }

  lemma {:induction false} AsciiIsValid(s: string)
    requires forall i | 0 <= i < |s| :: s[i] as int < 0x80
    ensures IsValid(s)
  {
    if s != "" {
      AsciiIsValid(s[1..]);
    }
  }

  /** The number of characters, a byte that starts no sequence counting as one. */
  function CharCount(s: string): (n: nat)
    ensures n == 0 <==> s == ""
  {
    if s == "" then 0
    else 1 + CharCount(s[if LeadLength(s) > 0 then LeadLength(s) else 1..])
  }
}
