/** The parser undoes the printer, at every nesting depth. */
module JsonFacts {
  import opened Base
  import opened Json
  import opened JsonText
  import opened Scalars

  // ---- strings --------------------------------------------------------------------------

  lemma HexDigits(c: int)
    requires 0 <= c < 0x20
    ensures var s := "u00" + [DigitChar(c / 16), DigitChar(c % 16)];
      |s| == 5 && Hex4(s[1..]) == c
  {
  }

  lemma Hex4Prefix(s: string, t: string)
    requires |s| >= 4
    ensures Hex4(s + t) == Hex4(s)
  {
  }

  /** Every escape the printer writes is read back as the byte it stands for. */
  lemma EscapedCharUnescapes(c: char, rest: string)
    requires EscapeChar(c)[0] == '\\'
    ensures Unescape(EscapeChar(c)[1..] + rest) == Some(([c], |EscapeChar(c)| - 1))
  {
    var e := EscapeChar(c);
    if |e| == 6 {
      HexDigits(c as int);
      assert e[1..] == "u00" + [DigitChar(c as int / 16), DigitChar(c as int % 16)];
      assert (e[1..] + rest)[1..] == e[1..][1..] + rest;
      Hex4Prefix(e[1..][1..], rest);
    }
  }

  lemma CharParses(c: char, rest: string)
    ensures ParseString(EscapeChar(c) + rest) == Prepend([c], ParseString(rest))
  {
    var e := EscapeChar(c);
    var s := e + rest;
    if e[0] == '\\' {
      EscapedCharUnescapes(c, rest);
      assert s[1..] == e[1..] + rest;
      assert s[1 + (|e| - 1)..] == rest;
    } else {
      assert s[1..] == rest;
    }
  }

  lemma CloseParses(rest: string)
    ensures ParseString("\"" + rest) == Some(("", rest))
  {
    assert ("\"" + rest)[1..] == rest;
  }

  lemma {:induction false} BodyParses(s: string, rest: string)
    ensures ParseString(EscapeBody(s) + ("\"" + rest)) == Some((s, rest))
  {
    hide ParseString, EscapeChar;
    var tail := "\"" + rest;
    if s == "" {
      assert "" + tail == tail;
      CloseParses(rest);
    } else {
      BodyParses(s[1..], rest);
      CharParses(s[0], EscapeBody(s[1..]) + tail);
      assert EscapeBody(s) + tail == EscapeChar(s[0]) + (EscapeBody(s[1..]) + tail);
      assert s == [s[0]] + s[1..];
    }
  }

  /** A printed string literal parses to the string it was printed from. */
  lemma EscapeParses(s: string, rest: string)
    ensures var text := Escape(s) + rest;
      text[0] == '\"' && ParseString(text[1..]) == Some((s, rest))
  {
    hide ParseString, EscapeBody;
    BodyParses(s, rest);
    assert (Escape(s) + rest)[1..] == EscapeBody(s) + ("\"" + rest);
  }

  // ---- numbers --------------------------------------------------------------------------

  lemma {:induction false} DigitsLead(n: nat)
    ensures ToDigits(n)[0] == '0' ==> n == 0
  {
    if n >= 10 {
      DigitsLead(n / 10);
    }
  }

  lemma {:induction false} NoStop(s: string, stop: set<char>)
    requires forall i | 0 <= i < |s| :: s[i] !in stop
    ensures IndexOf(s, stop) == |s|
  {
    if s != "" {
      NoStop(s[1..], stop);
    }
  }

  lemma IntegerIsNumber(i: int)
    ensures IsNumberText(ToText(i))
  {
    var digits := ToDigits(if i < 0 then -i else i);
    DigitsLead(if i < 0 then -i else i);
    var s := ToText(i);
    var t := if s != "" && s[0] == '-' then s[1..] else s;
    assert IsDigit(digits[0]);
    assert t == digits;
    assert forall k | 0 <= k < |t| :: IsDigit(t[k]);
    NoStop(t, {'e', 'E'});
    assert t[..|t|] == t;
    NoStop(t, {'.'});
  }

  predicate NumberCharsOnly(s: string) {
    forall i | 0 <= i < |s| :: IsNumberChar(s[i])
  }

  lemma DigitsAreNumberChars(s: string)
    requires AllDigits(s)
    ensures NumberCharsOnly(s)
  {
  }

  lemma OnlyAppend(a: string, b: string)
    requires NumberCharsOnly(a) && NumberCharsOnly(b)
    ensures NumberCharsOnly(a + b)
  {
    hide IsNumberChar;
  }

  lemma ExponentChars(x: string)
    requires IsIntDec(x)
    ensures NumberCharsOnly(x)
  {
    DigitsAreNumberChars(StripSign(x));
    if StripSign(x) != x {
      OnlyAppend([x[0]], x[1..]);
      assert [x[0]] + x[1..] == x;
    }
  }

  lemma MantissaChars(m: string, dot: nat)
    requires 0 < dot <= |m| && AllDigits(m[..dot]) && (dot < |m| ==> m[dot] == '.' && AllDigits(m[dot + 1..]))
    ensures NumberCharsOnly(m) && IsDigit(m[0])
  {
    hide AllDigits, NumberCharsOnly, IsDigit;
    DigitsAreNumberChars(m[..dot]);
    FirstDigit(m[..dot]);
    if dot < |m| {
      DigitsAreNumberChars(m[dot + 1..]);
      OnlyPoint();
      OnlyAppend(m[..dot], ".");
      OnlyAppend(m[..dot] + ".", m[dot + 1..]);
      assert m == m[..dot] + [m[dot]] + m[dot + 1..];
    } else {
      assert m[..dot] == m;
    }
  }

  lemma OnlyPoint()
    ensures NumberCharsOnly(".")
  {
  }

  lemma FirstDigit(s: string)
    requires AllDigits(s) && s != ""
    ensures IsDigit(s[0])
  {
  }

  /** Number tokens are made of number characters, so the scanner takes exactly the token. */
  lemma NumberChars(s: string)
    requires IsNumberText(s)
    ensures s != "" && (s[0] == '-' || IsDigit(s[0]))
    ensures NumberCharsOnly(s)
  {
    hide AllDigits, IsIntDec;
    var t := if s != "" && s[0] == '-' then s[1..] else s;
    var e := IndexOf(t, {'e', 'E'});
    MantissaChars(t[..e], IndexOf(t[..e], {'.'}));
    assert t[..e][0] == t[0];
    if e < |t| {
      ExponentChars(t[e + 1..]);
      assert t == t[..e] + [t[e]] + t[e + 1..];
    } else {
      assert t[..e] == t;
    }
    assert NumberCharsOnly(t);
  }

  lemma {:induction false} TokenEnds(s: string, rest: string)
    requires forall i | 0 <= i < |s| :: IsNumberChar(s[i])
    requires rest == "" || !IsNumberChar(rest[0])
    ensures NumberToken(s + rest) == |s|
  {
    if s == "" {
      assert s + rest == rest;
    } else {
      TokenEnds(s[1..], rest);
      assert (s + rest)[1..] == s[1..] + rest;
    }
  }

  predicate Ends(rest: string) {
    rest == "" || rest[0] == ',' || rest[0] == '\n'
  }

  lemma NumberParses(s: string, rest: string)
    requires IsNumberText(s) && Ends(rest)
    ensures ParseValue(s + rest) == Some((DNumber(s), rest))
  {
    hide IsNumberText;
    NumberChars(s);
    TokenEnds(s, rest);
    var t := s + rest;
    assert t[0] == s[0] && SkipSpace(t) == t;
    assert t[..|s|] == s && t[|s|..] == rest;
  }

  // ---- white space ------------------------------------------------------------------------

  lemma {:induction false} SkipIndent(n: nat, s: string)
    ensures SkipSpace(seq(n, _ => ' ') + s) == SkipSpace(s)
  {
    var spaces := seq(n, _ => ' ');
    if n == 0 {
      assert spaces + s == s;
    } else {
      SkipIndent(n - 1, s);
      assert (spaces + s)[1..] == seq(n - 1, _ => ' ') + s;
    }
  }

  lemma SkipLine(depth: nat, s: string)
    ensures SkipSpace("\n" + Indent(depth) + s) == SkipSpace(s)
  {
    SkipIndent(2 * depth, s);
    assert ("\n" + Indent(depth) + s)[1..] == Indent(depth) + s;
  }

  /** Leading white space changes nothing. */
  lemma ValueSkips(s: string, t: string)
    requires SkipSpace(s) == SkipSpace(t)
    ensures ParseValue(s) == ParseValue(t)
    ensures ParseMembers(s) == ParseMembers(t)
    ensures ParseItems(s) == ParseItems(t)
  {
  }

  lemma SkipTwice(s: string)
    ensures SkipSpace(SkipSpace(s)) == SkipSpace(s)
  {
  }

  // ---- values -------------------------------------------------------------------------------

  function MemberDocs(fmt: Format, j: Json, i: nat): seq<(string, Doc)>
    requires j.Obj? && i <= |j.entries|
  {
    seq(|j.entries| - i, k requires 0 <= k < |j.entries| - i => (j.entries[i + k].0, ToDoc(fmt, j.entries[i + k].1)))
  }

  function ItemDocs(fmt: Format, j: Json, i: nat): seq<Doc>
    requires j.Arr? && i <= |j.items|
  {
    seq(|j.items| - i, k requires 0 <= k < |j.items| - i => ToDoc(fmt, j.items[i + k]))
  }

  lemma ScalarParses(fmt: Format, j: Json, depth: nat, rest: string)
    requires FormatsNumbers(fmt) && Ends(rest) && !j.Obj? && !j.Arr?
    ensures ParseValue(Print(fmt, j, depth) + rest) == Some((ToDoc(fmt, j), rest))
  {
    match j
    case Bool(b) =>
      var s := (if b then "true" else "false") + rest;
      assert SkipSpace(s) == s;
      assert "true" + rest == s || "false" + rest == s;
      if b { assert s[4..] == rest; } else { assert s[5..] == rest && s[0] == 'f'; }
    case Int(i) =>
      IntegerIsNumber(i);
      NumberParses(ToText(i), rest);
    case Double(v) => NumberParses(fmt(v), rest);
    case Str(s) =>
      hide ParseString, Escape;
      EscapeParses(s, rest);
      var text := Escape(s) + rest;
      assert SkipSpace(text) == text;
  }

  /** What closes a member or item: a comma and the next ones, or the line of the closing bracket. */
  lemma Closing(depth: nat, close: char, rest: string)
    requires close == '}' || close == ']'
    ensures var s := "\n" + Indent(depth) + [close] + rest;
      Ends(s) && SkipSpace(s) == [close] + rest && SkipSpace(s)[1..] == rest
  {
    SkipLine(depth, [close] + rest);
    assert "\n" + Indent(depth) + [close] + rest == "\n" + Indent(depth) + ([close] + rest);
  }

  /** One member line parses to its key and value, whatever ends it. */
  lemma MemberLineParses(key: string, value: string, doc: Doc, indent: nat, tail: string)
    requires ParseValue(value + tail) == Some((doc, tail))
    ensures var text := Indent(indent) + (Escape(key) + (": " + (value + tail)));
      var t := SkipSpace(text);
      && t != "" && t[0] == '\"'
      && ParseString(t[1..]) == Some((key, ": " + (value + tail)))
      && SkipSpace(": " + (value + tail)) == ": " + (value + tail)
      && ParseValue((": " + (value + tail))[1..]) == Some((doc, tail))
  {
    hide ParseValue, ParseString, Escape;
    var after := ": " + (value + tail);
    EscapeParses(key, after);
    SkipIndent(2 * indent, Escape(key) + after);
    assert SkipSpace(Escape(key) + after) == Escape(key) + after;
    assert after[1..] == " " + (value + tail);
    assert (" " + (value + tail))[1..] == value + tail;
    ValueSkips(" " + (value + tail), value + tail);
  }

  lemma CommaLine(more: string)
    ensures Ends(",\n" + more) && SkipSpace(",\n" + more) == ",\n" + more && (",\n" + more)[1..] == "\n" + more
    ensures ParseMembers("\n" + more) == ParseMembers(more)
    ensures ParseItems("\n" + more) == ParseItems(more)
  {
    hide ParseValue, ParseMembers, ParseItems;
    assert ("\n" + more)[1..] == more;
    ValueSkips("\n" + more, more);
  }

  lemma MemberThenMore(key: string, value: string, doc: Doc, indent: nat, more: string, docs: seq<(string, Doc)>,
                       rest: string)
    requires ParseValue(value + (",\n" + more)) == Some((doc, ",\n" + more))
    requires ParseMembers(more) == Some((docs, rest))
    ensures ParseMembers(Indent(indent) + (Escape(key) + (": " + (value + (",\n" + more))))) ==
      Some(([(key, doc)] + docs, rest))
  {
    hide ParseValue, ParseString, Escape, Indent;
    MemberLineParses(key, value, doc, indent, ",\n" + more);
    CommaLine(more);
  }

  lemma MemberThenClose(key: string, value: string, doc: Doc, indent: nat, depth: nat, rest: string)
    requires var tail := "\n" + Indent(depth) + "}" + rest; ParseValue(value + tail) == Some((doc, tail))
    ensures ParseMembers(Indent(indent) + (Escape(key) + (": " + (value + ("\n" + Indent(depth) + "}" + rest))))) ==
      Some(([(key, doc)], rest))
  {
    hide ParseValue, ParseString, Escape, Indent;
    MemberLineParses(key, value, doc, indent, "\n" + Indent(depth) + "}" + rest);
    Closing(depth, '}', rest);
  }

  /** A printed body line, split where the parser splits it. */
  lemma MembersSplit(fmt: Format, j: Json, i: nat, depth: nat, rest: string)
    requires j.Obj? && i < |j.entries|
    ensures var key, value := j.entries[i].0, Print(fmt, j.entries[i].1, depth + 1);
      PrintMembers(fmt, j, i, depth) + rest == Indent(depth + 1) + (Escape(key) + (": " + (value + (
        if i + 1 < |j.entries| then ",\n" + (PrintMembers(fmt, j, i + 1, depth) + rest)
        else "\n" + Indent(depth) + "}" + rest))))
  {
    hide Print, Escape, Indent;
    EntrySmaller(j, j.entries[i]);
  }

  lemma MembersParse(fmt: Format, j: Json, i: nat, depth: nat, rest: string)
    requires FormatsNumbers(fmt) && j.Obj? && i < |j.entries|
    ensures ParseMembers(PrintMembers(fmt, j, i, depth) + rest) == Some((MemberDocs(fmt, j, i), rest))
    decreases j, |j.entries| - i
  {
    hide ParseValue, ParseMembers, Print, PrintMembers, Escape, ToDoc, FormatsNumbers, Indent;
    var key, value := j.entries[i].0, Print(fmt, j.entries[i].1, depth + 1);
    var doc := ToDoc(fmt, j.entries[i].1);
    EntrySmaller(j, j.entries[i]);
    MembersSplit(fmt, j, i, depth, rest);
    if i + 1 < |j.entries| {
      var next := PrintMembers(fmt, j, i + 1, depth);
      CommaLine(next + rest);
      PrintParses(fmt, j.entries[i].1, depth + 1, ",\n" + (next + rest));
      MembersParse(fmt, j, i + 1, depth, rest);
      MemberThenMore(key, value, doc, depth + 1, next + rest, MemberDocs(fmt, j, i + 1), rest);
      assert MemberDocs(fmt, j, i) == [(key, doc)] + MemberDocs(fmt, j, i + 1);
    } else {
      Closing(depth, '}', rest);
      PrintParses(fmt, j.entries[i].1, depth + 1, "\n" + Indent(depth) + "}" + rest);
      MemberThenClose(key, value, doc, depth + 1, depth, rest);
      assert MemberDocs(fmt, j, i) == [(key, doc)];
    }
  }

  lemma ItemThenMore(value: string, doc: Doc, indent: nat, more: string, docs: seq<Doc>, rest: string)
    requires ParseValue(value + (",\n" + more)) == Some((doc, ",\n" + more))
    requires ParseItems(more) == Some((docs, rest))
    ensures ParseItems(Indent(indent) + (value + (",\n" + more))) == Some(([doc] + docs, rest))
  {
    hide ParseValue;
    SkipIndent(2 * indent, value + (",\n" + more));
    ValueSkips(Indent(indent) + (value + (",\n" + more)), value + (",\n" + more));
    CommaLine(more);
  }

  lemma ItemThenClose(value: string, doc: Doc, indent: nat, depth: nat, rest: string)
    requires var tail := "\n" + Indent(depth) + "]" + rest; ParseValue(value + tail) == Some((doc, tail))
    ensures ParseItems(Indent(indent) + (value + ("\n" + Indent(depth) + "]" + rest))) == Some(([doc], rest))
  {
    hide ParseValue;
    var tail := "\n" + Indent(depth) + "]" + rest;
    SkipIndent(2 * indent, value + tail);
    ValueSkips(Indent(indent) + (value + tail), value + tail);
    Closing(depth, ']', rest);
  }

  lemma ItemsSplit(fmt: Format, j: Json, i: nat, depth: nat, rest: string)
    requires j.Arr? && i < |j.items|
    ensures PrintItems(fmt, j, i, depth) + rest == Indent(depth + 1) + (Print(fmt, j.items[i], depth + 1) + (
      if i + 1 < |j.items| then ",\n" + (PrintItems(fmt, j, i + 1, depth) + rest)
      else "\n" + Indent(depth) + "]" + rest))
  {
    hide Print, Indent;
  }

  lemma ItemsParse(fmt: Format, j: Json, i: nat, depth: nat, rest: string)
    requires FormatsNumbers(fmt) && j.Arr? && i < |j.items|
    ensures ParseItems(PrintItems(fmt, j, i, depth) + rest) == Some((ItemDocs(fmt, j, i), rest))
    decreases j, |j.items| - i
  {
    hide ParseValue, ParseItems, Print, PrintItems, ToDoc, FormatsNumbers, Indent;
    var value, doc := Print(fmt, j.items[i], depth + 1), ToDoc(fmt, j.items[i]);
    ItemsSplit(fmt, j, i, depth, rest);
    if i + 1 < |j.items| {
      var next := PrintItems(fmt, j, i + 1, depth);
      CommaLine(next + rest);
      PrintParses(fmt, j.items[i], depth + 1, ",\n" + (next + rest));
      ItemsParse(fmt, j, i + 1, depth, rest);
      ItemThenMore(value, doc, depth + 1, next + rest, ItemDocs(fmt, j, i + 1), rest);
      assert ItemDocs(fmt, j, i) == [doc] + ItemDocs(fmt, j, i + 1);
    } else {
      Closing(depth, ']', rest);
      PrintParses(fmt, j.items[i], depth + 1, "\n" + Indent(depth) + "]" + rest);
      ItemThenClose(value, doc, depth + 1, depth, rest);
      assert ItemDocs(fmt, j, i) == [doc];
    }
  }

  /** A printed value parses to the tree it was printed from, whatever follows it. */
  lemma PrintParses(fmt: Format, j: Json, depth: nat, rest: string)
    requires FormatsNumbers(fmt) && Ends(rest)
    ensures ParseValue(Print(fmt, j, depth) + rest) == Some((ToDoc(fmt, j), rest))
    decreases j, if j.Obj? then |j.entries| + 1 else if j.Arr? then |j.items| + 1 else 0
  {
    hide ParseValue, PrintMembers, PrintItems, FormatsNumbers, MemberDocs, ItemDocs;
    if j.Obj? {
      if j.entries == [] {
        EmptyParses("{}", DObject([]), rest);
        assert ToDoc(fmt, j).entries == [];
      } else {
        MembersParse(fmt, j, 0, depth, rest);
        ObjectOpens(PrintMembers(fmt, j, 0, depth) + rest, MemberDocs(fmt, j, 0), rest);
        assert "{\n" + PrintMembers(fmt, j, 0, depth) + rest == "{\n" + (PrintMembers(fmt, j, 0, depth) + rest);
        AllMemberDocs(fmt, j);
      }
    } else if j.Arr? {
      if j.items == [] {
        EmptyParses("[]", DArray([]), rest);
        assert ToDoc(fmt, j).items == [];
      } else {
        ItemsParse(fmt, j, 0, depth, rest);
        ArrayOpens(PrintItems(fmt, j, 0, depth) + rest, ItemDocs(fmt, j, 0), rest);
        assert "[\n" + PrintItems(fmt, j, 0, depth) + rest == "[\n" + (PrintItems(fmt, j, 0, depth) + rest);
        AllItemDocs(fmt, j);
      }
    } else {
      ScalarParses(fmt, j, depth, rest);
    }
  }

  lemma AllMemberDocs(fmt: Format, j: Json)
    requires j.Obj?
    ensures ToDoc(fmt, j) == DObject(MemberDocs(fmt, j, 0))
  {
    assert ToDoc(fmt, j).entries == MemberDocs(fmt, j, 0);
  }

  lemma AllItemDocs(fmt: Format, j: Json)
    requires j.Arr?
    ensures ToDoc(fmt, j) == DArray(ItemDocs(fmt, j, 0))
  {
    assert ToDoc(fmt, j).items == ItemDocs(fmt, j, 0);
  }

  lemma EmptyParses(brackets: string, doc: Doc, rest: string)
    requires (brackets == "{}" && doc == DObject([])) || (brackets == "[]" && doc == DArray([]))
    ensures ParseValue(brackets + rest) == Some((doc, rest))
  {
    var s := brackets + rest;
    assert s[0] == brackets[0] && SkipSpace(s) == s;
    assert s[1..][0] == brackets[1] && SkipSpace(s[1..]) == s[1..];
    assert s[1..][1..] == rest;
  }

  lemma ObjectOpens(members: string, docs: seq<(string, Doc)>, rest: string)
    requires ParseMembers(members) == Some((docs, rest))
    ensures ParseValue("{\n" + members) == Some((DObject(docs), rest))
  {
    var s := "{\n" + members;
    assert SkipSpace(s) == s && s[1..] == "\n" + members;
    assert ("\n" + members)[1..] == members;
    var u := SkipSpace(members);
    assert SkipSpace(s[1..]) == u;
    SkipTwice(members);
    ValueSkips(u, members);
  }

  lemma ArrayOpens(items: string, docs: seq<Doc>, rest: string)
    requires ParseItems(items) == Some((docs, rest))
    ensures ParseValue("[\n" + items) == Some((DArray(docs), rest))
  {
    var s := "[\n" + items;
    assert SkipSpace(s) == s && s[1..] == "\n" + items;
    assert ("\n" + items)[1..] == items;
    var u := SkipSpace(items);
    assert SkipSpace(s[1..]) == u;
    SkipTwice(items);
    ValueSkips(u, items);
    assert ParseValue(items).Some? ==> u[0] != ']';
  }

  /** The whole document: `serialize` then a strict parse gives the tree back, with numbers as their texts. */
  lemma SerializeRoundTrip(fmt: Format, j: Json)
    requires FormatsNumbers(fmt)
    ensures Parse(Print(fmt, j, 0)) == Some(ToDoc(fmt, j))
  {
    hide ParseValue, Print, ToDoc;
    PrintParses(fmt, j, 0, "");
    assert Print(fmt, j, 0) + "" == Print(fmt, j, 0);
  }

  // ---- the layout, on an example --------------------------------------------------------------------

  lemma TwoSpaces()
    ensures Indent(0) == "" && Indent(1) == "  " && Indent(2) == "    "
  {
  }

  lemma KeyA()
    ensures Escape("a") == "\"a\""
  {
    assert EscapeBody("a") == EscapeChar('a') + EscapeBody("");
  }

  /** Two spaces a level, one item a line, the commas at the ends of the lines; empty containers on one line. */
  lemma ArrayLayout(fmt: Format)
    ensures Print(fmt, Arr([Bool(true), Obj([])]), 1) == "[\n    true,\n    {}\n  ]"
  {
    TwoSpaces();
    hide Indent;
    var inner := Arr([Bool(true), Obj([])]);
    assert PrintItems(fmt, inner, 1, 1) == "    " + ("{}" + ("\n" + "  " + "]"));
    assert PrintItems(fmt, inner, 0, 1) == "    " + ("true" + (",\n" + PrintItems(fmt, inner, 1, 1)));
  }

  /** A member is its key, a colon, a space and its value. */
  lemma ObjectLayout(fmt: Format)
    ensures Print(fmt, Obj([("a", Bool(false))]), 0) == "{\n  \"a\": false\n}"
  {
    TwoSpaces();
    KeyA();
    hide Indent, Escape;
    var j := Obj([("a", Bool(false))]);
    assert PrintMembers(fmt, j, 0, 0) == "  " + ("\"a\"" + (": " + ("false" + ("\n" + "" + "}"))));
  }

  /** Five controls and two marks have short escapes, the other controls four lower-case hex digits; the rest stay. */
  lemma EscapesExactly(c: char)
    requires c as int < 0x100
    ensures c == '\"' ==> EscapeChar(c) == "\\\""
    ensures c == '\\' ==> EscapeChar(c) == "\\\\"
    ensures c as int == 8 ==> EscapeChar(c) == "\\b"
    ensures c as int == 9 ==> EscapeChar(c) == "\\t"
    ensures c as int == 10 ==> EscapeChar(c) == "\\n"
    ensures c as int == 12 ==> EscapeChar(c) == "\\f"
    ensures c as int == 13 ==> EscapeChar(c) == "\\r"
    ensures c as int == 11 ==> EscapeChar(c) == "\\u000b"
    ensures c as int == 0x1f ==> EscapeChar(c) == "\\u001f"
    ensures c as int < 0x20 && c as int !in {8, 9, 10, 12, 13} ==> |EscapeChar(c)| == 6 && EscapeChar(c)[..4] == "\\u00"
    ensures c as int >= 0x20 && c != '\"' && c != '\\' ==> EscapeChar(c) == [c]
  {
  }
}
