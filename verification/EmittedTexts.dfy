/**
 The annotations of an emitted schema and the members of its envelope
 (src/anolis/provider_sdk/config.cpp:479-760, 1128-1153), looked up in the tree: titles,
 descriptions, defaults and placeholders stand where the declaration has them, and
 nowhere else.
 */
module EmittedTexts {
  import opened Base
  import opened Json
  import opened ConfigSpec
  import opened ConfigEmit
  import opened SchemaTree
  import Envelope
  import EmittedDocument

  /** A text that is emitted unless it is empty. */
  function Shown(text: string): Option<Json> {
    if text == "" then None else Some(Str(text))
  }

  /** The default of the field's own kind. */
  function DefaultShown(f: FieldSpec): Option<Json> {
    match f.kind
    case StringKind => if f.defaultString.Some? then Some(Str(f.defaultString.value)) else None
    case NumberKind => if f.defaultNumber.Some? then Some(Double(f.defaultNumber.value)) else None
    case BooleanKind => if f.defaultBool.Some? then Some(Bool(f.defaultBool.value)) else None
    case _ => if f.defaultInt.Some? then Some(Int(f.defaultInt.value)) else None
  }

  // Length and first letter tell these four names from every other name emitted.
  predicate Texts(part: seq<(string, Json)>) {
    forall e | e in part :: (|e.0| == 5 && e.0[0] == 't') || (|e.0| == 11 && e.0[0] == 'd')
  }

  predicate NoTexts(part: seq<(string, Json)>) {
    forall e | e in part :: !(|e.0| == 5 && e.0[0] == 't') && !(|e.0| == 11 && e.0[0] == 'd')
  }

  predicate NoDefault(part: seq<(string, Json)>) {
    forall e | e in part :: !(|e.0| == 7 && e.0[0] == 'd')
  }

  predicate NoPlaceholder(part: seq<(string, Json)>) {
    forall e | e in part :: !(|e.0| == 20 && e.0[0] == 'x')
  }

  lemma PrefixTexts(title: string, description: string)
    ensures Texts(Prefix(title, description))
  {
  }

  lemma SuffixTexts(f: FieldSpec)
    ensures NoTexts(Suffix(f)) && NoDefault(Suffix(f))
    ensures forall e | e in Suffix(f) && |e.0| == 20 :: e.1 == Str(f.placeholder) && f.placeholder != ""
    ensures f.placeholder != "" ==> ("x-anolis-placeholder", Str(f.placeholder)) in Suffix(f)
  {
  }

  /** Where the four names can stand: `p` is the prefix, `q` the default, and the last part the suffix. */
  predicate Placed(ps: seq<seq<(string, Json)>>, p: nat, q: nat, f: FieldSpec) {
    && p < q && q + 1 < |ps| && ps[p] == Prefix(f.title, f.description) && ps[|ps| - 1] == Suffix(f)
    && ps[q] == (if DefaultShown(f).Some? then [("default", DefaultShown(f).value)] else [])
    && forall i | 0 <= i < |ps| - 1 && i != p && i != q :: NoTexts(ps[i]) && NoDefault(ps[i]) && NoPlaceholder(ps[i])
  }

  lemma StringPlaced(f: FieldSpec)
    requires f.kind == StringKind
    ensures Placed(StringParts(f), 1, 7, f)
  {
    hide Prefix, Suffix, NotSchema, EnumTexts;
    assert "const"[0] == 'c' && "oneOf"[0] == 'o' && "pattern"[0] == 'p';
  }

  lemma IntegerPlaced(f: FieldSpec)
    requires f.kind == IntegerKind
    ensures Placed(IntegerParts(f), 1, 4, f)
  {
    hide Prefix, Suffix;
    assert "minimum"[0] == 'm' && "maximum"[0] == 'm';
  }

  lemma NumberPlaced(f: FieldSpec)
    requires f.kind == NumberKind
    ensures Placed(NumberParts(f), 1, 6, f)
  {
    hide Prefix, Suffix;
    assert "minimum"[0] == 'm' && "maximum"[0] == 'm';
  }

  lemma BooleanPlaced(f: FieldSpec)
    requires f.kind == BooleanKind
    ensures Placed(BooleanParts(f), 1, 2, f)
  {
    hide Prefix, Suffix;
  }

  lemma AddressPlaced(f: FieldSpec)
    requires f.kind == I2cAddressKind
    ensures Placed(AddressParts(f), 0, 2, f)
  {
    hide Prefix, Suffix, ADDRESS_INTEGER, ADDRESS_STRING;
    assert "anyOf"[0] == 'a';
  }

  lemma PlacedAt(f: FieldSpec) returns (p: nat, q: nat)
    ensures Placed(FieldParts(f), p, q, f)
  {
    hide StringParts, IntegerParts, NumberParts, BooleanParts, AddressParts, Placed;
    match f.kind
    case StringKind => p, q := 1, 7; StringPlaced(f);
    case IntegerKind => p, q := 1, 4; IntegerPlaced(f);
    case NumberKind => p, q := 1, 6; NumberPlaced(f);
    case BooleanKind => p, q := 1, 2; BooleanPlaced(f);
    case I2cAddressKind => p, q := 0, 2; AddressPlaced(f);
  }

  /** A name is found with the value its one part gives it, or not at all. */
  lemma FoundIn(ps: seq<seq<(string, Json)>>, at: nat, key: string, value: Option<Json>)
    requires at < |ps| && forall i, e | 0 <= i < |ps| && i != at && e in ps[i] :: e.0 != key
    requires forall e | e in ps[at] && e.0 == key :: value == Some(e.1)
    requires value.Some? ==> (key, value.value) in ps[at]
    ensures Lookup(Flatten(ps), key) == value
  {
    hide Flatten;
    LookupOnly(ps, key, at);
  }

  lemma PrefixHas(title: string, description: string)
    ensures forall e | e in Prefix(title, description) && e.0 == "title" :: Shown(title) == Some(e.1)
    ensures Shown(title).Some? ==> ("title", Str(title)) in Prefix(title, description)
    ensures forall e | e in Prefix(title, description) && e.0 == "description" :: Shown(description) == Some(e.1)
    ensures Shown(description).Some? ==> ("description", Str(description)) in Prefix(title, description)
  {
    assert |"title"| == 5 && |"description"| == 11;
  }

  lemma NoTextNames(part: seq<(string, Json)>)
    requires NoTexts(part)
    ensures forall e | e in part :: e.0 != "title" && e.0 != "description"
  {
    assert "title"[0] == 't' && "description"[0] == 'd';
  }

  /** Title and description are found exactly where one part has them and no other does. */
  lemma TextsFound(ps: seq<seq<(string, Json)>>, p: nat, title: string, description: string)
    requires p < |ps| && ps[p] == Prefix(title, description)
    requires forall i | 0 <= i < |ps| && i != p :: NoTexts(ps[i])
    ensures Lookup(Flatten(ps), "title") == Shown(title)
    ensures Lookup(Flatten(ps), "description") == Shown(description)
  {
    hide Flatten, Prefix, NoTexts;
    PrefixHas(title, description);
    forall i, e | 0 <= i < |ps| && i != p && e in ps[i] ensures e.0 != "title" && e.0 != "description" {
      NoTextNames(ps[i]);
    }
    FoundIn(ps, p, "title", Shown(title));
    FoundIn(ps, p, "description", Shown(description));
  }

  lemma DefaultFound(ps: seq<seq<(string, Json)>>, q: nat, value: Option<Json>)
    requires q < |ps| && ps[q] == (if value.Some? then [("default", value.value)] else [])
    requires forall i | 0 <= i < |ps| && i != q :: NoDefault(ps[i])
    ensures Lookup(Flatten(ps), "default") == value
  {
    hide Flatten;
    assert "default"[0] == 'd';
    FoundIn(ps, q, "default", value);
  }

  lemma TextsNoDefault(part: seq<(string, Json)>)
    requires Texts(part)
    ensures NoDefault(part) && NoPlaceholder(part)
  {
  }

  lemma DefaultAlone(part: seq<(string, Json)>)
    requires forall e | e in part :: e.0 == "default"
    ensures NoTexts(part) && NoPlaceholder(part)
  {
  }

  lemma PlaceholderFound(ps: seq<seq<(string, Json)>>, f: FieldSpec)
    requires ps != [] && ps[|ps| - 1] == Suffix(f)
    requires forall i | 0 <= i < |ps| - 1 :: NoPlaceholder(ps[i])
    ensures Lookup(Flatten(ps), "x-anolis-placeholder") == Shown(f.placeholder)
  {
    hide Flatten, Suffix;
    SuffixTexts(f);
    assert "x-anolis-placeholder"[0] == 'x' && |"x-anolis-placeholder"| == 20;
    LookupOnly(ps, "x-anolis-placeholder", |ps| - 1);
  }

  /** A field's emitted annotations are its own texts and the default of its kind. */
  lemma FieldTexts(f: FieldSpec)
    ensures EmitField(f).Obj?
    ensures var es := EmitField(f).entries;
      && Lookup(es, "title") == Shown(f.title) && Lookup(es, "description") == Shown(f.description)
      && Lookup(es, "default") == DefaultShown(f)
      && Lookup(es, "x-anolis-placeholder") == Shown(f.placeholder)
  {
    hide FieldParts, Flatten, Prefix, Suffix, NoTexts, NoDefault, NoPlaceholder, Texts, DefaultShown;
    var p, q := PlacedAt(f);
    var ps := FieldParts(f);
    PrefixTexts(f.title, f.description);
    SuffixTexts(f);
    TextsNoDefault(ps[p]);
    DefaultAlone(ps[q]);
    TextsFound(ps, p, f.title, f.description);
    DefaultFound(ps, q, DefaultShown(f));
    PlaceholderFound(ps, f);
  }

  /** An array's annotations are its own, and stand above its item's. */
  lemma ArrayTexts(a: ArraySpec)
    ensures EmitArray(a).Obj?
    ensures var es := EmitArray(a).entries;
      && Lookup(es, "title") == Shown(a.title) && Lookup(es, "description") == Shown(a.description)
      && Lookup(es, "default") == None
  {
    hide Flatten, Prefix, EmitItem, ArrayParts, NoTexts, NoDefault;
    var ps := ArrayParts(a);
    ArrayNoTexts(a);
    TextsFound(ps, 1, a.title, a.description);
    DefaultNowhere(ps);
  }

  lemma ArrayNoTexts(a: ArraySpec)
    ensures var ps := ArrayParts(a);
      && |ps| == 7 && ps[1] == Prefix(a.title, a.description)
      && (forall i | 0 <= i < 7 && i != 1 :: NoTexts(ps[i])) && (forall i | 0 <= i < 7 :: NoDefault(ps[i]))
  {
    hide Prefix, EmitItem;
    assert "items"[0] == 'i' && "uniqueItems"[0] == 'u';
    PrefixTexts(a.title, a.description);
    TextsNoDefault(ArrayParts(a)[1]);
  }

  lemma DefaultNowhere(ps: seq<seq<(string, Json)>>)
    requires ps != [] && forall i | 0 <= i < |ps| :: NoDefault(ps[i])
    ensures Lookup(Flatten(ps), "default") == None
  {
    hide Flatten;
    assert "default"[0] == 'd';
    FoundIn(ps, 0, "default", None);
  }

  lemma BodyNoTexts(o: ObjectSpec, title: string, description: string)
    ensures var ps := ObjectParts(o, title, description);
      |ps| == 7 && ps[1] == Prefix(title, description) && forall i | 0 <= i < 7 && i != 1 :: NoTexts(ps[i])
  {
    hide Prefix, Properties, Branches, DependentEntries, RequiredKeys;
    assert "allOf"[0] == 'a';
  }

  lemma BodyTexts(lead: seq<seq<(string, Json)>>, o: ObjectSpec, title: string, description: string)
    requires forall i | 0 <= i < |lead| :: NoTexts(lead[i])
    ensures var es := Flatten(lead + ObjectParts(o, title, description));
      Lookup(es, "title") == Shown(title) && Lookup(es, "description") == Shown(description)
  {
    hide Flatten, Prefix, NoTexts, ObjectParts;
    var ps := ObjectParts(o, title, description);
    BodyNoTexts(o, title, description);
    assert forall i | 0 <= i < |lead| :: (lead + ps)[i] == lead[i];
    assert forall i | 0 <= i < |ps| :: (lead + ps)[|lead| + i] == ps[i];
    TextsFound(lead + ps, |lead| + 1, title, description);
  }

  /** The root carries the schema's own texts where it has them, else the root object's; other objects their own. */
  lemma ObjectTexts(o: ObjectSpec)
    ensures EmitObject(o).Obj?
    ensures var es := EmitObject(o).entries;
      Lookup(es, "title") == Shown(o.title) && Lookup(es, "description") == Shown(o.description)
  {
    hide Flatten, ObjectParts;
    assert [] + ObjectParts(o, o.title, o.description) == ObjectParts(o, o.title, o.description);
    BodyTexts([], o, o.title, o.description);
  }

  lemma RootTexts(s: SchemaSpec)
    ensures EmitSchema(s).Obj?
    ensures var es := EmitSchema(s).entries;
      && Lookup(es, "title") == Shown(if s.title.Some? then s.title.value else s.root.title)
      && Lookup(es, "description") == Shown(if s.description.Some? then s.description.value else s.root.description)
      && Lookup(es, "$schema") == Some(Str("https://json-schema.org/draft/2020-12/schema"))
      && Lookup(es, "$id") == (if s.id.Some? then Some(Str(s.id.value)) else None)
  {
    hide Flatten, ObjectParts;
    assert "$schema"[0] == '$' && "$id"[0] == '$';
    BodyTexts(RootLead(s), s.root, RootTitle(s), RootDescription(s));
    BodyNames(s.root, RootTitle(s), RootDescription(s));
    RootIds(s, ObjectParts(s.root, RootTitle(s), RootDescription(s)));
  }

  predicate NoDollar(part: seq<(string, Json)>) {
    forall e | e in part :: e.0 != "" && e.0[0] != '$'
  }

  lemma PrefixNoDollar(title: string, description: string)
    ensures NoDollar(Prefix(title, description))
  {
  }

  /** No name of an object's schema begins with a dollar sign. */
  lemma BodyNames(o: ObjectSpec, title: string, description: string)
    ensures forall i | 0 <= i < |ObjectParts(o, title, description)| :: NoDollar(ObjectParts(o, title, description)[i])
  {
    hide Properties, Branches, DependentEntries, RequiredKeys, Prefix;
    var ps := ObjectParts(o, title, description);
    PrefixNoDollar(title, description);
    assert |ps| == 7 && ps[1] == Prefix(title, description);
    assert "type"[0] == 't' && "properties"[0] == 'p' && "required"[0] == 'r' && "additionalProperties"[0] == 'a';
    assert "dependentRequired"[0] == 'd' && "allOf"[0] == 'a';
  }

  lemma DollarNames(s: SchemaSpec)
    ensures |RootLead(s)| == 2 && RootLead(s)[0] == [("$schema", Str("https://json-schema.org/draft/2020-12/schema"))]
    ensures RootLead(s)[1] == if s.id.Some? then [("$id", Str(s.id.value))] else []
    ensures "$schema" != "$id"
    ensures forall part: seq<(string, Json)> | NoDollar(part) :: forall e | e in part :: e.0 != "$schema" && e.0 != "$id"
  {
    assert |"$schema"| == 7 && |"$id"| == 3 && "$schema"[0] == '$' && "$id"[0] == '$';
  }

  lemma LeadFound(lead: seq<seq<(string, Json)>>, ps: seq<seq<(string, Json)>>, first: string, value: Json, second: string,
                  other: Option<Json>)
    requires |lead| == 2 && first != second && lead[0] == [(first, value)]
    requires lead[1] == if other.Some? then [(second, other.value)] else []
    requires forall i, e | 0 <= i < |ps| && e in ps[i] :: e.0 != first && e.0 != second
    ensures Lookup(Flatten(lead + ps), first) == Some(value) && Lookup(Flatten(lead + ps), second) == other
  {
    hide Flatten;
    var all := lead + ps;
    assert all[0] == lead[0] && all[1] == lead[1] && forall i | 2 <= i < |all| :: all[i] == ps[i - 2];
    FoundIn(all, 0, first, Some(value));
    FoundIn(all, 1, second, other);
  }

  lemma RootIds(s: SchemaSpec, ps: seq<seq<(string, Json)>>)
    requires forall i | 0 <= i < |ps| :: NoDollar(ps[i])
    ensures var es := Flatten(RootLead(s) + ps);
      && Lookup(es, "$schema") == Some(Str("https://json-schema.org/draft/2020-12/schema"))
      && Lookup(es, "$id") == (if s.id.Some? then Some(Str(s.id.value)) else None)
  {
    DollarNames(s);
    hide Flatten, RootLead, NoDollar;
    LeadFound(RootLead(s), ps, "$schema", Str("https://json-schema.org/draft/2020-12/schema"), "$id",
              if s.id.Some? then Some(Str(s.id.value)) else None);
  }

  // ---- the envelope ------------------------------------------------------------------------------------------

  lemma {:induction false} DistinctLookup(entries: seq<(string, Json)>, e: (string, Json))
    requires EmittedDocument.KeysDistinct(entries) && e in entries
    ensures Lookup(entries, e.0) == Some(e.1)
  {
    if entries[0] != e {
      var i :| 0 <= i < |entries| && entries[i] == e;
      assert e == entries[1..][i - 1];
      DistinctLookup(entries[1..], e);
    }
  }

  /** The envelope holds version 1, the provider's name if it has one, every extra, and the schema; nothing else. */
  lemma EnvelopeMembers(s: SchemaSpec, o: Envelope.Options)
    requires Envelope.OptionsOk(o)
    ensures var es := Envelope.Tree(s, o).entries;
      && Lookup(es, "config_schema_version") == Some(Int(1)) && es[0].0 == "config_schema_version"
      && Lookup(es, "provider") == Shown(o.providerName)
      && (forall x | x in o.extras :: Lookup(es, x.0) == Some(Str(x.1)))
      && Lookup(es, "schema") == Some(EmitSchema(s)) && es[|es| - 1].0 == "schema"
      && (forall e | e in es ::
            e.0 in {"config_schema_version", "provider", "schema"} || e.0 in Envelope.ExtraKeys(o))
  {
    hide EmitSchema, EmittedDocument.KeysDistinct, Envelope.OptionsOk;
    var es := Envelope.Tree(s, o).entries;
    Envelope.EnvelopeKeys(s, o);
    VersionEntry(s, o);
    DistinctLookup(es, ("config_schema_version", Int(1)));
    DistinctLookup(es, ("schema", EmitSchema(s)));
    forall x | x in o.extras ensures Lookup(es, x.0) == Some(Str(x.1)) {
      var i :| 0 <= i < |o.extras| && o.extras[i] == x;
      assert Envelope.ExtraEntries(o.extras)[i] == (x.0, Str(x.1));
      DistinctLookup(es, (x.0, Str(x.1)));
    }
    EntryNames(s, o);
    ProviderFound(s, o);
  }

  lemma VersionEntry(s: SchemaSpec, o: Envelope.Options)
    ensures var es := Envelope.Tree(s, o).entries;
      ("config_schema_version", Int(1)) in es && ("schema", EmitSchema(s)) in es
  {
    hide EmitSchema;
    var es := Envelope.Tree(s, o).entries;
    assert es[0] == ("config_schema_version", Int(1)) && es[|es| - 1] == ("schema", EmitSchema(s));
  }

  lemma EntryNames(s: SchemaSpec, o: Envelope.Options)
    ensures forall e | e in Envelope.Tree(s, o).entries ::
      e.0 in {"config_schema_version", "provider", "schema"} || e.0 in Envelope.ExtraKeys(o)
  {
    hide EmitSchema;
    forall e | e in Envelope.ExtraEntries(o.extras) ensures e.0 in Envelope.ExtraKeys(o) {
      var i :| 0 <= i < |o.extras| && Envelope.ExtraEntries(o.extras)[i] == e;
      assert Envelope.ExtraKeys(o)[i] == e.0;
    }
  }

  lemma ProviderFound(s: SchemaSpec, o: Envelope.Options)
    requires Envelope.OptionsOk(o)
    ensures Lookup(Envelope.Tree(s, o).entries, "provider") == Shown(o.providerName)
  {
    hide EmitSchema, EmittedDocument.KeysDistinct;
    var es := Envelope.Tree(s, o).entries;
    Envelope.EnvelopeKeys(s, o);
    if o.providerName != "" {
      assert Envelope.Opening(o)[1] == ("provider", Str(o.providerName)) && es[1] == Envelope.Opening(o)[1];
      DistinctLookup(es, ("provider", Str(o.providerName)));
    } else {
      hide Envelope.OptionsOk;
      Envelope.ExtrasUnreserved(o);
      assert |"schema"| == 6 && |"provider"| == 8 && |"config_schema_version"| == 21;
      assert forall e | e in es :: e.0 != "provider";
    }
  }
}
