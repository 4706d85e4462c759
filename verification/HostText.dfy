/**
 Text from the host and from requests: the JSON string literal that repairs
 invalid bytes (src/anolis/provider_sdk/host_check.cpp:51-95), and the bounded
 echo of a request field (src/anolis/provider_sdk/echo_internal.hpp:15-28).
 */
module HostText {
  import opened Base
  import opened JsonText
  import opened JsonFacts
  import opened Scalars
  import Utf8

  // ---- json_string ------------------------------------------------------------------------

  function EscapeAscii(c: char): string
    requires (c as int) < 0x80
  {
    match c
    case '\"' => "\\\""
    case '\\' => "\\\\"
    case '\n' => "\\n"
    case '\r' => "\\r"
    case '\t' => "\\t"
    case _ => if (c as int) < 0x20 then "\\u00" + [DigitChar(c as int / 16), DigitChar(c as int % 16)] else [c]
  }

  function HostBody(s: string): string {
    if s == "" then ""
    else if (s[0] as int) < 0x80 then EscapeAscii(s[0]) + HostBody(s[1..])
    else
      var n := Utf8.LeadLength(s);
      if n == 0 then "\\ufffd" + HostBody(s[1..]) else s[..n] + HostBody(s[n..])
  }

  const REPLACEMENT: string := Utf8.Encode(0xFFFD)

  /** The text with every byte that starts no well-formed sequence replaced by U+FFFD. */
  function Repair(s: string): string {
    if s == "" then ""
    else
      var n := Utf8.LeadLength(s);
      if n == 0 then REPLACEMENT + Repair(s[1..]) else s[..n] + Repair(s[n..])
  }

  lemma HostBodyStep(text: string, i: nat)
    requires i < |text|
    ensures (text[i] as int) < 0x80 ==> HostBody(text[i..]) == EscapeAscii(text[i]) + HostBody(text[i + 1..])
    ensures (text[i] as int) >= 0x80 ==>
      var n := Utf8.LeadLength(text[i..]);
      && (n == 0 ==> HostBody(text[i..]) == "\\ufffd" + HostBody(text[i + 1..]))
      && (n > 0 ==> HostBody(text[i..]) == text[i..i + n] + HostBody(text[i + n..]))
  {
    var rest, n := text[i..], Utf8.LeadLength(text[i..]);
    assert rest[1..] == text[i + 1..];
    assert rest[..n] == text[i..i + n] && rest[n..] == text[i + n..];
  }

  method JsonString(text: string) returns (out: string)
    ensures out == "\"" + HostBody(text) + "\""
  {
    hide HostBody, EscapeAscii, Utf8.LeadLength;
    out := "\"";
    var i := 0;
    assert text[0..] == text;
    while i < |text|
      invariant 0 <= i <= |text|
      invariant out + HostBody(text[i..]) == "\"" + HostBody(text)
    {
      HostBodyStep(text, i);
      ghost var before := out;
      if (text[i] as int) < 0x80 {
        out := out + EscapeAscii(text[i]);
        i := i + 1;
        assert out + HostBody(text[i..]) == before + (EscapeAscii(text[i - 1]) + HostBody(text[i..]));
        continue;
      }
      var length := Utf8.SequenceLength(text, i);
      var piece := if length == 0 then "\\ufffd" else text[i..i + length];
      out := out + piece;
      i := i + if length == 0 then 1 else length;
      assert out + HostBody(text[i..]) == before + (piece + HostBody(text[i..]));
    }
    HostBodyEmpty();
    assert text[i..] == "" && out + "" == out;
    out := out + "\"";
  }

  lemma HostBodyEmpty()
    ensures HostBody("") == ""
  {
  }

  lemma {:induction false} LiteralParses(s: string, rest: string)
    requires forall i | 0 <= i < |s| :: s[i] as int >= 0x80
    ensures ParseString(s + rest) == Prepend(s, ParseString(rest))
  {
    hide Unescape;
    if s == "" {
      assert s + rest == rest;
      assert ParseString(rest).Some? ==> "" + ParseString(rest).value.0 == ParseString(rest).value.0;
    } else {
      LiteralParses(s[1..], rest);
      assert (s + rest)[1..] == s[1..] + rest;
      assert s == [s[0]] + s[1..];
      assert ParseString(rest).Some? ==> [s[0]] + (s[1..] + ParseString(rest).value.0) == s + ParseString(rest).value.0;
    }
  }

  lemma AsciiParses(c: char, rest: string)
    requires (c as int) < 0x80
    ensures ParseString(EscapeAscii(c) + rest) == Prepend([c], ParseString(rest))
  {
    var e := EscapeAscii(c);
    var s := e + rest;
    if e[0] == '\\' {
      AsciiUnescapes(c, rest);
      assert s[1..] == e[1..] + rest;
      assert s[1 + (|e| - 1)..] == rest;
    } else {
      assert s[1..] == rest;
    }
  }

  lemma AsciiUnescapes(c: char, rest: string)
    requires (c as int) < 0x80 && EscapeAscii(c)[0] == '\\'
    ensures Unescape(EscapeAscii(c)[1..] + rest) == Some(([c], |EscapeAscii(c)| - 1))
  {
    var e := EscapeAscii(c);
    if |e| == 6 {
      HexDigits(c as int);
      assert e[1..] == "u00" + [DigitChar(c as int / 16), DigitChar(c as int % 16)];
      assert (e[1..] + rest)[1..] == e[1..][1..] + rest;
      Hex4Prefix(e[1..][1..], rest);
    }
  }

  lemma ReplacementParses(rest: string)
    ensures ParseString("\\ufffd" + rest) == Prepend(REPLACEMENT, ParseString(rest))
  {
    var s := "\\ufffd" + rest;
    assert s[1..] == "ufffd" + rest;
    assert s[1..][1..] == "fffd" + rest;
    assert "fffd"[0] == 'f' && "fffd"[3] == 'd';
    Hex4Prefix("fffd", rest);
    assert s[6..] == rest;
    assert Unescape(s[1..]) == Some((REPLACEMENT, 5));
  }

  lemma PieceParses(head: string, bytes: string, body: string, repaired: string, tail: string, rest: string)
    requires ParseString(head + (body + tail)) == Prepend(bytes, ParseString(body + tail))
    requires ParseString(body + tail) == Some((repaired, rest))
    ensures ParseString(head + body + tail) == Some((bytes + repaired, rest))
  {
    hide ParseString;
    assert head + body + tail == head + (body + tail);
  }

  /** For every byte string, the literal is one RFC 8259 string and denotes the repaired text. */
  lemma {:induction false} HostStringParses(s: string, rest: string)
    ensures ParseString(HostBody(s) + ("\"" + rest)) == Some((Repair(s), rest))
  {
    hide ParseString, EscapeAscii, Utf8.LeadLength, REPLACEMENT;
    var tail := "\"" + rest;
    if s == "" {
      CloseParses(rest);
      assert "" + tail == tail;
    } else if (s[0] as int) < 0x80 {
      HostStringParses(s[1..], rest);
      AsciiParses(s[0], HostBody(s[1..]) + tail);
      PieceParses(EscapeAscii(s[0]), [s[0]], HostBody(s[1..]), Repair(s[1..]), tail, rest);
      AsciiLead(s);
    } else if Utf8.LeadLength(s) == 0 {
      HostStringParses(s[1..], rest);
      ReplacementParses(HostBody(s[1..]) + tail);
      PieceParses("\\ufffd", REPLACEMENT, HostBody(s[1..]), Repair(s[1..]), tail, rest);
    } else {
      var n := Utf8.LeadLength(s);
      HostStringParses(s[n..], rest);
      Utf8.SequenceAboveAscii(s);
      LiteralParses(s[..n], HostBody(s[n..]) + tail);
      PieceParses(s[..n], s[..n], HostBody(s[n..]), Repair(s[n..]), tail, rest);
    }
  }

  lemma AsciiLead(s: string)
    requires s != "" && (s[0] as int) < 0x80
    ensures Utf8.LeadLength(s) == 1 && s[..1] == [s[0]]
  {
  }

  lemma ReplacementValid()
    ensures Utf8.IsValid(REPLACEMENT)
  {
    Utf8.EncodeThenDecode([0xFFFD]);
    assert Utf8.EncodeAll([0xFFFD]) == REPLACEMENT + Utf8.EncodeAll([]);
  }

  lemma EscapeAsciiValid(c: char)
    requires (c as int) < 0x80
    ensures Utf8.IsValid(EscapeAscii(c))
  {
    Utf8.AsciiIsValid(EscapeAscii(c));
  }

  /** Whatever the input, the literal is well-formed UTF-8. */
  lemma {:induction false} HostBodyValid(s: string)
    ensures Utf8.IsValid(HostBody(s))
  {
    hide EscapeAscii, Utf8.LeadLength, Utf8.IsValid;
    if s == "" {
      Utf8.AsciiIsValid("");
    } else if (s[0] as int) < 0x80 {
      HostBodyValid(s[1..]);
      EscapeAsciiValid(s[0]);
      Utf8.ValidAppend(EscapeAscii(s[0]), HostBody(s[1..]));
    } else if Utf8.LeadLength(s) == 0 {
      HostBodyValid(s[1..]);
      Utf8.AsciiIsValid("\\ufffd");
      Utf8.ValidAppend("\\ufffd", HostBody(s[1..]));
    } else {
      var n := Utf8.LeadLength(s);
      HostBodyValid(s[n..]);
      Utf8.OneSequenceValid(s);
      Utf8.ValidAppend(s[..n], HostBody(s[n..]));
    }
  }

  lemma {:induction false} RepairValid(s: string)
    ensures Utf8.IsValid(Repair(s))
    ensures Utf8.IsValid(s) ==> Repair(s) == s
  {
    hide Utf8.LeadLength, REPLACEMENT;
    if s != "" {
      var n := Utf8.LeadLength(s);
      if n == 0 {
        RepairValid(s[1..]);
        ReplacementValid();
        Utf8.ValidAppend(REPLACEMENT, Repair(s[1..]));
      } else {
        RepairValid(s[n..]);
        Utf8.OneSequenceValid(s);
        Utf8.ValidAppend(s[..n], Repair(s[n..]));
        assert s == s[..n] + s[n..];
      }
    }
  }

  /** A host text survives unchanged exactly when it was valid UTF-8. */
  lemma RepairKeepsValidOnly(s: string)
    ensures Repair(s) == s <==> Utf8.IsValid(s)
  {
    RepairValid(s);
  }

  // ---- echo ---------------------------------------------------------------------------------

  const MAX_ECHO: nat := 64

  method Echo(field: string) returns (out: string)
    ensures |field| <= MAX_ECHO ==> out == field
    ensures |field| > MAX_ECHO ==> EchoOf(field, out)
    ensures |out| <= MAX_ECHO + 3
  {
    if |field| <= MAX_ECHO {
      return field;
    }
    var end := MAX_ECHO;
    while end > 0 && field[end] as int / 0x40 == 2
      invariant 0 <= end <= MAX_ECHO
      invariant forall k | end < k <= MAX_ECHO :: Utf8.IsTail(field[k])
    {
      end := end - 1;
    }
    assert end > 0 ==> !Utf8.IsTail(field[end]);
    return field[..end] + "...";
  }

  /** The longest cut within the limit that does not split a character, or nothing at all. */
  ghost predicate EchoOf(field: string, out: string)
    requires |field| > MAX_ECHO
  {
    exists end | 0 <= end <= MAX_ECHO ::
      && out == field[..end] + "..."
      && (forall k | end < k <= MAX_ECHO :: Utf8.IsTail(field[k]))
      && (end > 0 ==> !Utf8.IsTail(field[end]))
  }

  lemma ValidLeads(s: string)
    requires Utf8.IsValid(s) && s != ""
    ensures !Utf8.IsTail(s[0]) && Utf8.LeadLength(s) > 0
    ensures forall k | 1 <= k < Utf8.LeadLength(s) :: Utf8.IsTail(s[k])
  {
  }

  /** In valid text, a byte that is not a continuation starts a character. */
  lemma {:induction false} BoundaryCuts(s: string, i: nat)
    requires Utf8.IsValid(s) && i < |s| && !Utf8.IsTail(s[i])
    ensures Utf8.IsValid(s[..i])
  {
    hide Utf8.LeadLength;
    ValidLeads(s);
    var n := Utf8.LeadLength(s);
    if i >= n {
      BoundaryCuts(s[n..], i - n);
      Utf8.OneSequenceValid(s);
      Utf8.ValidAppend(s[..n], s[n..][..i - n]);
      assert s[..i] == s[..n] + s[n..][..i - n];
    }
  }

  /** In valid text no more than three continuation bytes stand in a row. */
  lemma {:induction false} ContinuationsShort(s: string, i: nat)
    requires Utf8.IsValid(s) && 3 <= i < |s|
    ensures exists k :: i - 3 <= k <= i && !Utf8.IsTail(s[k])
    decreases i
  {
    hide Utf8.LeadLength;
    ValidLeads(s);
    var n := Utf8.LeadLength(s);
    if i < n {
      assert !Utf8.IsTail(s[i - 3]);
    } else if i - 3 < n {
      ValidLeads(s[n..]);
      assert !Utf8.IsTail(s[n]);
    } else {
      ContinuationsShort(s[n..], i - n);
      var k :| i - n - 3 <= k <= i - n && !Utf8.IsTail(s[n..][k]);
      assert !Utf8.IsTail(s[n + k]);
    }
  }

  /** On valid UTF-8 the echo keeps 61 to 64 bytes, ends on a character boundary, and is valid itself. */
  lemma EchoOfValidText(field: string, out: string)
    requires |field| > MAX_ECHO && Utf8.IsValid(field) && EchoOf(field, out)
    ensures 61 <= |out| - 3 <= 64 && out == field[..|out| - 3] + "..."
    ensures Utf8.IsValid(field[..|out| - 3]) && Utf8.IsValid(out)
  {
    hide Utf8.IsTail, Utf8.IsValid;
    var end :| 0 <= end <= MAX_ECHO && out == field[..end] + "..."
      && (forall k | end < k <= MAX_ECHO :: Utf8.IsTail(field[k])) && (end > 0 ==> !Utf8.IsTail(field[end]));
    ContinuationsShort(field, MAX_ECHO);
    assert end >= MAX_ECHO - 3;
    BoundaryCuts(field, end);
    assert |out| - 3 == end;
    Utf8.AsciiIsValid("...");
    Utf8.ValidAppend(field[..end], "...");
  }
}
