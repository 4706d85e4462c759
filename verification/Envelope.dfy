/**
 The config-schema envelope and the text it is printed as
 (src/anolis/provider_sdk/config.cpp:1126-1153). `None` stands for the thrown
 logic error.
 */
module Envelope {
  import opened Base
  import opened Json
  import opened JsonText
  import opened ConfigSpec
  import opened ConfigEmit
  import opened Scalars
  import opened EmittedDocument
  import ConfigEmitter
  import JsonFacts
  import JsonWriter
  import Utf8

  datatype Options = Options(providerName: string, extras: seq<(string, string)>)

  const SCHEMA_VERSION := 1

  predicate Reserved(key: string) {
    key == "config_schema_version" || key == "schema" || key == "provider"
  }

  function ExtraKeys(o: Options): seq<string> {
    seq(|o.extras|, i requires 0 <= i < |o.extras| => o.extras[i].0)
  }

  predicate ExtraOk(e: (string, string)) {
    Utf8.IsValid(e.0) && Utf8.IsValid(e.1) && !Reserved(e.0)
  }

  predicate OptionsOk(o: Options) {
    && Utf8.IsValid(o.providerName)
    && (forall e | e in o.extras :: ExtraOk(e))
    && AllDistinct(ExtraKeys(o))
  }

  function Opening(o: Options): seq<(string, Json)> {
    [("config_schema_version", Int(SCHEMA_VERSION))] + When(o.providerName != "", ("provider", Str(o.providerName)))
  }

  function ExtraEntries(extras: seq<(string, string)>): seq<(string, Json)> {
    seq(|extras|, i requires 0 <= i < |extras| => (extras[i].0, Str(extras[i].1)))
  }

  function Tree(s: SchemaSpec, o: Options): Json {
    Obj(Opening(o) + ExtraEntries(o.extras) + [("schema", EmitSchema(s))])
  }

  lemma OpeningReserved(o: Options)
    ensures forall e | e in Opening(o) :: Reserved(e.0)
    ensures KeysDistinct(Opening(o))
    ensures forall e | e in Opening(o) :: e.0 != "schema"
  {
    assert |"schema"| == 6 && |"provider"| == 8 && |"config_schema_version"| == 21;
  }

  predicate HasEntry(entries: seq<(string, Json)>, key: string) {
    exists e | e in entries :: e.0 == key
  }

  /** The checks on one extra entry, against the entries pushed so far. */
  method CheckExtra(entries: seq<(string, Json)>, key: string, value: string) returns (ok: bool)
    ensures ok <==> ExtraOk((key, value)) && !HasEntry(entries, key)
  {
    hide Utf8.IsValid, Reserved;
    var keyOk := Utf8.CheckUtf8(key);
    var valueOk := Utf8.CheckUtf8(value);
    if !keyOk || !valueOk {
      return false;
    }
    if Reserved(key) {
      return false;
    }
    for j := 0 to |entries|
      invariant forall k | 0 <= k < j :: entries[k].0 != key
    {
      if entries[j].0 == key {
        assert entries[j] in entries;
        return false;
      }
    }
    return true;
  }

  lemma ExtraCollides(o: Options, i: nat)
    requires i < |o.extras| && ExtraOk(o.extras[i])
    ensures HasEntry(Opening(o) + ExtraEntries(o.extras[..i]), o.extras[i].0) <==>
      exists k | 0 <= k < i :: ExtraKeys(o)[k] == ExtraKeys(o)[i]
  {
    hide Utf8.IsValid, Reserved, Opening;
    OpeningReserved(o);
    var entries, taken := Opening(o) + ExtraEntries(o.extras[..i]), ExtraEntries(o.extras[..i]);
    if k :| 0 <= k < i && ExtraKeys(o)[k] == ExtraKeys(o)[i] {
      assert taken[k] in entries;
    }
    if e: (string, Json) :| e in entries && e.0 == o.extras[i].0 {
      assert e in taken;
      var k :| 0 <= k < |taken| && taken[k] == e;
      assert ExtraKeys(o)[k] == ExtraKeys(o)[i];
    }
  }

  /** The checks and pushes of `config_schema_envelope`, in order. */
  method ConfigSchemaEnvelope(fmt: Format, s: SchemaSpec, o: Options) returns (r: Option<string>)
    ensures r == if OptionsOk(o) then Some(Print(fmt, Tree(s, o), 0)) else None
  {
    hide Utf8.IsValid, Reserved, EmitSchema, Print, HasEntry, ExtraOk;
    var envelope: Vector<(string, Json)> := new Vector<(string, Json)>();
    envelope.PushBack(("config_schema_version", Int(SCHEMA_VERSION)));
    EmptyValid();
    if o.providerName != "" {
      var nameOk := Utf8.CheckUtf8(o.providerName);
      if !nameOk {
        return None;
      }
      envelope.PushBack(("provider", Str(o.providerName)));
    }
    assert envelope.items == Opening(o);
    for i := 0 to |o.extras|
      invariant fresh(envelope)
      invariant envelope.items == Opening(o) + ExtraEntries(o.extras[..i])
      invariant forall k | 0 <= k < i :: ExtraOk(o.extras[k])
      invariant forall k, l | 0 <= k < l < i :: ExtraKeys(o)[k] != ExtraKeys(o)[l]
    {
      var key, value := o.extras[i].0, o.extras[i].1;
      assert o.extras[i] in o.extras;
      var ok := CheckExtra(envelope.items, key, value);
      if ExtraOk(o.extras[i]) {
        ExtraCollides(o, i);
      }
      if !ok {
        return None;
      }
      envelope.PushBack((key, Str(value)));
      assert ExtraEntries(o.extras[..i + 1]) == ExtraEntries(o.extras[..i]) + [(key, Str(value))];
    }
    assert o.extras[..|o.extras|] == o.extras;
    var schema := ConfigEmitter.SchemaTree(s);
    envelope.PushBack(("schema", schema));
    var text := JsonWriter.Serialize(fmt, Obj(envelope.items));
    return Some(text);
  }

  /** `to_json_schema`. */
  method ToJsonSchema(fmt: Format, s: SchemaSpec) returns (text: string)
    ensures text == Print(fmt, EmitSchema(s), 0)
  {
    hide EmitSchema, Print;
    var schema := ConfigEmitter.SchemaTree(s);
    text := JsonWriter.Serialize(fmt, schema);
  }

  lemma EmptyValid()
    ensures Utf8.IsValid("")
  {
  }

  // ---- the printed bytes -----------------------------------------------------------------------

  predicate Ascii(s: string) {
    forall i | 0 <= i < |s| :: s[i] as int < 0x80
  }

  lemma EscapedCharAscii(c: char)
    requires (c as int) < 0x80
    ensures Ascii(EscapeChar(c))
  {
  }

  lemma HighByteKept(c: char)
    requires c as int >= 0x80
    ensures EscapeChar(c) == [c]
  {
  }

  lemma {:induction false} HighBytesKept(s: string, t: string)
    requires forall i | 0 <= i < |s| :: s[i] as int >= 0x80
    ensures EscapeBody(s + t) == s + EscapeBody(t)
  {
    hide EscapeChar;
    if s == "" {
      assert s + t == t;
    } else {
      HighByteKept(s[0]);
      HighBytesKept(s[1..], t);
      assert (s + t)[1..] == s[1..] + t;
      assert s == [s[0]] + s[1..];
    }
  }

  lemma {:induction false} EscapeBodyValid(s: string)
    requires Utf8.IsValid(s)
    ensures Utf8.IsValid(EscapeBody(s))
  {
    if s != "" {
      var n := Utf8.LeadLength(s);
      EscapeBodyValid(s[n..]);
      if (s[0] as int) < 0x80 {
        EscapedCharAscii(s[0]);
        Utf8.AsciiIsValid(EscapeChar(s[0]));
        Utf8.ValidAppend(EscapeChar(s[0]), EscapeBody(s[1..]));
      } else {
        Utf8.SequenceAboveAscii(s);
        Utf8.OneSequenceValid(s);
        HighBytesKept(s[..n], s[n..]);
        assert s[..n] + s[n..] == s;
        Utf8.ValidAppend(s[..n], EscapeBody(s[n..]));
      }
    }
  }

  lemma AsciiThen(a: string, t: string)
    requires Ascii(a) && Utf8.IsValid(t)
    ensures Utf8.IsValid(a + t)
  {
    Utf8.AsciiIsValid(a);
    Utf8.ValidAppend(a, t);
  }

  lemma Joined(a: string, t: string)
    requires Utf8.IsValid(a) && Utf8.IsValid(t)
    ensures Utf8.IsValid(a + t)
  {
    Utf8.ValidAppend(a, t);
  }

  lemma EscapeValid(s: string)
    requires Utf8.IsValid(s)
    ensures Utf8.IsValid(Escape(s))
  {
    hide Utf8.IsValid, EscapeBody;
    EscapeBodyValid(s);
    Utf8.AsciiIsValid("\"");
    Joined(EscapeBody(s), "\"");
    AsciiThen("\"", EscapeBody(s) + "\"");
    assert Escape(s) == "\"" + (EscapeBody(s) + "\"");
  }

  lemma NumberTextAscii(s: string)
    requires IsNumberText(s)
    ensures Ascii(s)
  {
    hide IsNumberText;
    JsonFacts.NumberChars(s);
  }

  lemma ScalarTextValid(fmt: Format, j: Json, depth: nat)
    requires FormatsNumbers(fmt) && WellFormed(false, j) && !j.Obj? && !j.Arr?
    ensures Utf8.IsValid(Print(fmt, j, depth))
  {
    hide Utf8.IsValid, IsNumberText, ToText;
    match j
    case Bool(_) =>
      Utf8.AsciiIsValid("true");
      Utf8.AsciiIsValid("false");
    case Int(i) =>
      JsonFacts.IntegerIsNumber(i);
      NumberTextAscii(ToText(i));
      Utf8.AsciiIsValid(ToText(i));
    case Double(v) =>
      NumberTextAscii(fmt(v));
      Utf8.AsciiIsValid(fmt(v));
    case Str(s) => EscapeValid(s);
  }

  /** One line of an object or array body: indentation, the value, then what follows it. */
  lemma LineValid(depth: nat, value: string, more: string)
    requires Utf8.IsValid(value) && Utf8.IsValid(more)
    ensures Utf8.IsValid(Indent(depth) + (value + more))
  {
    hide Utf8.IsValid;
    Joined(value, more);
    AsciiThen(Indent(depth), value + more);
  }

  lemma CloseValid(depth: nat, close: string)
    requires Ascii(close)
    ensures Utf8.IsValid("\n" + Indent(depth) + close)
  {
    hide Utf8.IsValid;
    Utf8.AsciiIsValid("\n" + Indent(depth) + close);
  }

  lemma MembersValid(fmt: Format, j: Json, i: nat, depth: nat)
    requires FormatsNumbers(fmt) && j.Obj? && i < |j.entries| && WellFormed(false, j)
    ensures Utf8.IsValid(PrintMembers(fmt, j, i, depth))
    decreases j, |j.entries| - i
  {
    hide Utf8.IsValid, FormatsNumbers, Escape, Indent, Print;
    var e := j.entries[i];
    assert e in j.entries;
    EntrySmaller(j, e);
    PrintValid(fmt, e.1, depth + 1);
    EscapeValid(e.0);
    var more := if i + 1 < |j.entries| then ",\n" + PrintMembers(fmt, j, i + 1, depth) else "\n" + Indent(depth) + "}";
    if i + 1 < |j.entries| {
      MembersValid(fmt, j, i + 1, depth);
      AsciiThen(",\n", PrintMembers(fmt, j, i + 1, depth));
    } else {
      CloseValid(depth, "}");
    }
    var value := Print(fmt, e.1, depth + 1);
    Joined(value, more);
    AsciiThen(": ", value + more);
    LineValid(depth + 1, Escape(e.0), ": " + (value + more));
  }

  lemma ItemsValid(fmt: Format, j: Json, i: nat, depth: nat)
    requires FormatsNumbers(fmt) && j.Arr? && i < |j.items| && WellFormed(false, j)
    ensures Utf8.IsValid(PrintItems(fmt, j, i, depth))
    decreases j, |j.items| - i
  {
    hide Utf8.IsValid, FormatsNumbers, Indent, Print;
    PrintValid(fmt, j.items[i], depth + 1);
    var more := if i + 1 < |j.items| then ",\n" + PrintItems(fmt, j, i + 1, depth) else "\n" + Indent(depth) + "]";
    if i + 1 < |j.items| {
      ItemsValid(fmt, j, i + 1, depth);
      AsciiThen(",\n", PrintItems(fmt, j, i + 1, depth));
    } else {
      CloseValid(depth, "]");
    }
    LineValid(depth + 1, Print(fmt, j.items[i], depth + 1), more);
  }

  /** A tree of UTF-8 texts prints as UTF-8, at any depth. */
  lemma {:induction false} PrintValid(fmt: Format, j: Json, depth: nat)
    requires FormatsNumbers(fmt) && WellFormed(false, j)
    ensures Utf8.IsValid(Print(fmt, j, depth))
    decreases j, if j.Obj? then |j.entries| + 1 else if j.Arr? then |j.items| + 1 else 0
  {
    hide Utf8.IsValid, FormatsNumbers;
    match j
    case Obj(es) =>
      if es != [] {
        MembersValid(fmt, j, 0, depth);
        AsciiThen("{\n", PrintMembers(fmt, j, 0, depth));
      }
      Utf8.AsciiIsValid("{}");
    case Arr(xs) =>
      if xs != [] {
        ItemsValid(fmt, j, 0, depth);
        AsciiThen("[\n", PrintItems(fmt, j, 0, depth));
      }
      Utf8.AsciiIsValid("[]");
    case _ => ScalarTextValid(fmt, j, depth);
  }

  // ---- what a reader of the printed envelope finds -----------------------------------------------

  /** No object of the parsed document repeats a key. */
  predicate KeysOnce(d: Doc) {
    match d
    case DArray(items) => forall x | x in items :: KeysOnce(x)
    case DObject(entries) =>
      && (forall i, j | 0 <= i < j < |entries| :: entries[i].0 != entries[j].0)
      && (forall e | e in entries :: KeysOnce(e.1))
    case _ => true
  }

  lemma {:induction false} ReadBackKeys(fmt: Format, j: Json)
    ensures WellFormed(true, j) <==> WellFormed(false, j) && KeysOnce(ToDoc(fmt, j))
  {
    hide Utf8.IsValid;
    match j
    case Obj(es) =>
      var ds := ToDoc(fmt, j).entries;
      forall i | 0 <= i < |es|
        ensures WellFormed(true, es[i].1) <==> WellFormed(false, es[i].1) && KeysOnce(ds[i].1)
      {
        EntrySmaller(j, es[i]);
        ReadBackKeys(fmt, es[i].1);
      }
      assert forall i | 0 <= i < |es| :: ds[i].0 == es[i].0 && ds[i] in ds && es[i] in es;
    case Arr(xs) =>
      var ds := ToDoc(fmt, j).items;
      forall i | 0 <= i < |xs|
        ensures WellFormed(true, xs[i]) <==> WellFormed(false, xs[i]) && KeysOnce(ds[i])
      {
        ReadBackKeys(fmt, xs[i]);
      }
      assert forall i | 0 <= i < |xs| :: ds[i] in ds && xs[i] in xs;
    case _ =>
  }

  lemma EnvelopeKeys(s: SchemaSpec, o: Options)
    requires OptionsOk(o)
    ensures KeysDistinct(Tree(s, o).entries)
  {
    hide EmitSchema, Opening, ExtraEntries, Utf8.IsValid, Reserved, KeysDistinct, OptionsOk;
    OpeningReserved(o);
    SchemaReserved();
    var lead, extras, last := Opening(o), ExtraEntries(o.extras), [("schema", EmitSchema(s))];
    ExtrasUnreserved(o);
    DisjointKeys(lead, extras);
    forall e: (string, Json), x: (string, Json) | e in lead + extras && x in last ensures e.0 != x.0 {
    }
    OneKey("schema", EmitSchema(s));
    DisjointKeys(lead + extras, last);
  }

  lemma OneKey(key: string, value: Json)
    ensures KeysDistinct([(key, value)])
  {
  }

  lemma ExtrasUnreserved(o: Options)
    requires OptionsOk(o)
    ensures KeysDistinct(ExtraEntries(o.extras)) && forall e | e in ExtraEntries(o.extras) :: !Reserved(e.0)
  {
    hide Utf8.IsValid, Reserved;
    var es := ExtraEntries(o.extras);
    assert forall i | 0 <= i < |es| :: es[i].0 == ExtraKeys(o)[i];
    forall i | 0 <= i < |es| ensures !Reserved(es[i].0) {
      assert ExtraOk(o.extras[i]);
    }
  }

  lemma DisjointKeys(a: seq<(string, Json)>, b: seq<(string, Json)>)
    requires KeysDistinct(a) && KeysDistinct(b) && forall x: (string, Json), y: (string, Json) | x in a && y in b :: x.0 != y.0
    ensures KeysDistinct(a + b)
  {
    forall i, j | 0 <= i < j < |a + b| ensures (a + b)[i].0 != (a + b)[j].0 {
      if i < |a| <= j {
        assert a[i] in a && b[j - |a|] in b;
      }
    }
  }

  lemma SchemaReserved()
    ensures Reserved("schema")
  {
  }

  lemma EnvelopeWellFormed(lib: Library, once: bool, s: SchemaSpec, o: Options)
    requires SchemaBuilt(lib, s) && OptionsOk(o)
    ensures WellFormed(once, Tree(s, o)) <==> (once ==> ForbidsDistinct(s.root))
  {
    hide EmitSchema, Utf8.IsValid, SchemaBuilt, ForbidsDistinct, KeysDistinct, WellFormed, Reserved;
    EnvelopeKeys(s, o);
    SchemaWellFormed(lib, once, s);
    Utf8.AsciiIsValid("schema");
    var parts := [Opening(o), ExtraEntries(o.extras), [("schema", EmitSchema(s))]];
    OpeningOk(once, o);
    ExtrasOk(once, o);
    EntryOk(once, parts[2], "schema", EmitSchema(s));
    FlatWellFormed(once, parts);
    ThreeParts(parts);
    assert forall i | 0 <= i < 3 :: parts[i] == parts[0] || parts[i] == parts[1] || parts[i] == parts[2];
  }

  lemma ThreeParts<T>(parts: seq<seq<T>>)
    requires |parts| == 3
    ensures Flatten(parts) == parts[0] + parts[1] + parts[2]
  {
    assert Flatten(parts[1..][1..][1..]) == [];
    assert Flatten(parts[1..][1..]) == parts[2];
    assert Flatten(parts[1..]) == parts[1] + parts[2];
  }

  lemma OpeningOk(once: bool, o: Options)
    requires Utf8.IsValid(o.providerName)
    ensures PartOk(once, Opening(o))
  {
    hide Utf8.IsValid;
    Utf8.AsciiIsValid("config_schema_version");
    Utf8.AsciiIsValid("provider");
  }

  lemma ExtrasOk(once: bool, o: Options)
    requires OptionsOk(o)
    ensures PartOk(once, ExtraEntries(o.extras))
  {
    hide Utf8.IsValid, Reserved;
    assert forall i | 0 <= i < |o.extras| :: o.extras[i] in o.extras && ExtraOk(o.extras[i]);
  }

  /**
   Whatever the declaration and the options, an envelope that is produced is UTF-8,
   parses strictly, reads back as its tree, and repeats no key at any depth exactly
   when no `When` branch repeats a forbidden key.
   */
  lemma EnvelopeReadsBack(lib: Library, fmt: Format, s: SchemaSpec, o: Options)
    requires FormatsNumbers(fmt) && SchemaBuilt(lib, s) && OptionsOk(o)
    ensures Utf8.IsValid(Print(fmt, Tree(s, o), 0))
    ensures Parse(Print(fmt, Tree(s, o), 0)) == Some(ToDoc(fmt, Tree(s, o)))
    ensures KeysOnce(ToDoc(fmt, Tree(s, o))) <==> ForbidsDistinct(s.root)
  {
    hide Print, Parse, ToDoc, Tree, Utf8.IsValid, WellFormed, KeysOnce, ForbidsDistinct, SchemaBuilt, OptionsOk,
      FormatsNumbers;
    EnvelopeWellFormed(lib, true, s, o);
    EnvelopeWellFormed(lib, false, s, o);
    PrintValid(fmt, Tree(s, o), 0);
    ReadBackKeys(fmt, Tree(s, o));
    JsonFacts.SerializeRoundTrip(fmt, Tree(s, o));
  }
}
