/**
 Printing a JSON tree (src/anolis/provider_sdk/config.cpp:47-141), and a strict
 RFC 8259 parser that knows nothing of the printer and inverts it.
 */
module JsonText {
  import opened Base
  import opened Json
  import opened Scalars
  import Utf8

  // ---- the printed text -----------------------------------------------------------------

  function EscapeChar(c: char): string {
    match c
    case '\"' => "\\\""
    case '\\' => "\\\\"
    case _ =>
      if c == 8 as char then "\\b"
      else if c == 12 as char then "\\f"
      else if c == '\n' then "\\n"
      else if c == '\r' then "\\r"
      else if c == '\t' then "\\t"
      else if c as int < 0x20 then "\\u00" + [DigitChar(c as int / 16), DigitChar(c as int % 16)]
      else [c]
  }

  function EscapeBody(s: string): string {
    if s == "" then "" else EscapeChar(s[0]) + EscapeBody(s[1..])
  }

  function Escape(s: string): string {
    "\"" + EscapeBody(s) + "\""
  }

  function Indent(depth: nat): string {
    seq(2 * depth, _ => ' ')
  }

  /** How `std::format` renders a double: some text the JSON number grammar accepts. */
  type Format = real -> string

  ghost predicate FormatsNumbers(fmt: Format) {
    forall v: real :: IsNumberText(fmt(v))
  }

  function Print(fmt: Format, j: Json, depth: nat): string
    decreases j, if j.Obj? then |j.entries| + 1 else if j.Arr? then |j.items| + 1 else 0
  {
    match j
    case Bool(b) => if b then "true" else "false"
    case Int(i) => ToText(i)
    case Double(v) => fmt(v)
    case Str(s) => Escape(s)
    case Obj(es) => if es == [] then "{}" else "{\n" + PrintMembers(fmt, j, 0, depth)
    case Arr(xs) => if xs == [] then "[]" else "[\n" + PrintItems(fmt, j, 0, depth)
  }

  /** The members from the `i`-th on, to the closing brace. */
  function PrintMembers(fmt: Format, j: Json, i: nat, depth: nat): string
    requires j.Obj? && i < |j.entries|
    decreases j, |j.entries| - i
  {
    EntrySmaller(j, j.entries[i]);
    Indent(depth + 1) + (Escape(j.entries[i].0) + (": " + (Print(fmt, j.entries[i].1, depth + 1) +
      if i + 1 < |j.entries| then ",\n" + PrintMembers(fmt, j, i + 1, depth) else "\n" + Indent(depth) + "}")))
  }

  function PrintItems(fmt: Format, j: Json, i: nat, depth: nat): string
    requires j.Arr? && i < |j.items|
    decreases j, |j.items| - i
  {
    Indent(depth + 1) + (Print(fmt, j.items[i], depth + 1) +
      if i + 1 < |j.items| then ",\n" + PrintItems(fmt, j, i + 1, depth) else "\n" + Indent(depth) + "]")
  }

  // ---- RFC 8259 -----------------------------------------------------------------------------

  /** A parsed document; a number is the text of its token. */
  datatype Doc =
    | DNull
    | DBool(b: bool)
    | DNumber(text: string)
    | DString(s: string)
    | DArray(items: seq<Doc>)
    | DObject(entries: seq<(string, Doc)>)

  predicate IsSpace(c: char) {
    c == ' ' || c == '\t' || c == '\n' || c == '\r'
  }

  function SkipSpace(s: string): (r: string)
    ensures |r| <= |s|
  {
    if s != "" && IsSpace(s[0]) then SkipSpace(s[1..]) else s
  }

  // Section 6: [minus] int [frac] [exp].
  predicate IsNumberText(s: string) {
    var t := if s != "" && s[0] == '-' then s[1..] else s;
    var e := IndexOf(t, {'e', 'E'});
    var mantissa := t[..e];
    var dot := IndexOf(mantissa, {'.'});
    var whole := mantissa[..dot];
    && whole != "" && AllDigits(whole) && (whole[0] == '0' ==> |whole| == 1)
    && (dot < |mantissa| ==> dot + 1 < |mantissa| && AllDigits(mantissa[dot + 1..]))
    && (e < |t| ==> IsIntDec(t[e + 1..]))
  }

  predicate IsNumberChar(c: char) {
    IsDigit(c) || c in {'+', '-', '.', 'e', 'E'}
  }

  function NumberToken(s: string): (n: nat)
    ensures n <= |s|
  {
    if s != "" && IsNumberChar(s[0]) then 1 + NumberToken(s[1..]) else 0
  }

  function Hex4(s: string): int
    requires |s| >= 4
  {
    if IsHexDigit(s[0]) && IsHexDigit(s[1]) && IsHexDigit(s[2]) && IsHexDigit(s[3]) then
      0x1000 * DigitOf(s[0]) + 0x100 * DigitOf(s[1]) + 0x10 * DigitOf(s[2]) + DigitOf(s[3])
    else -1
  }

  /** The bytes an escape sequence (after its backslash) denotes, and its length (section 7). */
  function Unescape(s: string): (r: Option<(string, nat)>)
    ensures r.Some? ==> 0 < r.value.1 <= |s|
  {
    if s == "" then None
    else match s[0]
      case '\"' => Some(("\"", 1))
      case '\\' => Some(("\\", 1))
      case '/' => Some(("/", 1))
      case 'b' => Some(([8 as char], 1))
      case 'f' => Some(([12 as char], 1))
      case 'n' => Some(("\n", 1))
      case 'r' => Some(("\r", 1))
      case 't' => Some(("\t", 1))
      case 'u' =>
        if |s| < 5 then None
        else
          var code := Hex4(s[1..]);
          if code < 0 || 0xDC00 <= code <= 0xDFFF then None
          else if code < 0xD800 || 0xDFFF < code then Some((Utf8.Encode(code), 5))
          else if |s| < 11 || s[5] != '\\' || s[6] != 'u' then None
          else
            var low := Hex4(s[7..]);
            if 0xDC00 <= low <= 0xDFFF
            then Some((Utf8.Encode(0x10000 + (code - 0xD800) * 0x400 + (low - 0xDC00)), 11))
            else None
      case _ => None
  }

  /** The string up to its closing quote, and what follows it. */
  function ParseString(s: string): (r: Option<(string, string)>)
    ensures r.Some? ==> |r.value.1| < |s|
    decreases |s|
  {
    if s == "" || (s[0] as int) < 0x20 then None
    else if s[0] == '\"' then Some(("", s[1..]))
    else if s[0] == '\\' then
      match Unescape(s[1..])
      case None => None
      case Some((bytes, n)) => Prepend(bytes, ParseString(s[1 + n..]))
    else Prepend([s[0]], ParseString(s[1..]))
  }

  function Prepend(bytes: string, r: Option<(string, string)>): (p: Option<(string, string)>)
    ensures p.Some? <==> r.Some?
    ensures r.Some? ==> p.value == (bytes + r.value.0, r.value.1)
  {
    if r.None? then None else Some((bytes + r.value.0, r.value.1))
  }

  /** One value, and what follows it. */
  function ParseValue(s: string): (r: Option<(Doc, string)>)
    ensures r.Some? ==> |r.value.1| < |s|
    decreases |s|, 1
  {
    var t := SkipSpace(s);
    if t == "" then None
    else if t[0] == '{' then
      var u := SkipSpace(t[1..]);
      if u != "" && u[0] == '}' then Some((DObject([]), u[1..]))
      else
        match ParseMembers(u)
        case None => None
        case Some((es, rest)) => Some((DObject(es), rest))
    else if t[0] == '[' then
      var u := SkipSpace(t[1..]);
      if u != "" && u[0] == ']' then Some((DArray([]), u[1..]))
      else
        match ParseItems(u)
        case None => None
        case Some((xs, rest)) => Some((DArray(xs), rest))
    else if t[0] == '\"' then
      match ParseString(t[1..])
      case None => None
      case Some((text, rest)) => Some((DString(text), rest))
    else if "true" <= t then Some((DBool(true), t[4..]))
    else if "false" <= t then Some((DBool(false), t[5..]))
    else if "null" <= t then Some((DNull, t[4..]))
    else
      var n := NumberToken(t);
      if n > 0 && IsNumberText(t[..n]) then Some((DNumber(t[..n]), t[n..])) else None
  }

  function ParseMembers(s: string): (r: Option<(seq<(string, Doc)>, string)>)
    ensures r.Some? ==> |r.value.1| < |s|
    decreases |s|, 0
  {
    var t := SkipSpace(s);
    if t == "" || t[0] != '\"' then None
    else
      match ParseString(t[1..])
      case None => None
      case Some((key, afterKey)) =>
        var u := SkipSpace(afterKey);
        if u == "" || u[0] != ':' then None
        else
          match ParseValue(u[1..])
          case None => None
          case Some((value, afterValue)) =>
            var w := SkipSpace(afterValue);
            if w != "" && w[0] == '}' then Some(([(key, value)], w[1..]))
            else if w != "" && w[0] == ',' then
              match ParseMembers(w[1..])
              case None => None
              case Some((es, rest)) => Some(([(key, value)] + es, rest))
            else None
  }

  function ParseItems(s: string): (r: Option<(seq<Doc>, string)>)
    ensures r.Some? ==> |r.value.1| < |s|
    decreases |s|, 2
  {
    match ParseValue(s)
    case None => None
    case Some((value, afterValue)) =>
      var w := SkipSpace(afterValue);
      if w != "" && w[0] == ']' then Some(([value], w[1..]))
      else if w != "" && w[0] == ',' then
        match ParseItems(w[1..])
        case None => None
        case Some((xs, rest)) => Some(([value] + xs, rest))
      else None
  }

  /** A whole text is one value with only white space after it. */
  function Parse(s: string): Option<Doc> {
    match ParseValue(s)
    case None => None
    case Some((doc, rest)) => if SkipSpace(rest) == "" then Some(doc) else None
  }

  // ---- what the printed text should read back as ----------------------------------------------

  function ToDoc(fmt: Format, j: Json): Doc {
    match j
    case Bool(b) => DBool(b)
    case Int(i) => DNumber(ToText(i))
    case Double(v) => DNumber(fmt(v))
    case Str(s) => DString(s)
    case Obj(es) => DObject(seq(|es|, i requires 0 <= i < |es| => (es[i].0, ToDoc(fmt, es[i].1))))
    case Arr(xs) => DArray(seq(|xs|, i requires 0 <= i < |xs| => ToDoc(fmt, xs[i])))
  }
}
