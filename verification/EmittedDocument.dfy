/**
 The emitted document is well-formed JSON: no object repeats a key and every text
 is UTF-8, for the schema and for the envelope that carries it
 (src/anolis/provider_sdk/config.cpp:649-742 and 1126-1153).
 */
module EmittedDocument {
  import opened Base
  import opened Json
  import opened JsonSchema
  import opened ConfigSpec
  import opened ConfigCheck
  import opened ConfigEmit
  import opened Scalars
  import SchemaMeaning
  import SchemaTree
  import Utf8

  predicate KeysDistinct(entries: seq<(string, Json)>) {
    forall i, j | 0 <= i < j < |entries| :: entries[i].0 != entries[j].0
  }

  /** All texts valid at every depth and, when `once` is set, no object with a repeated key. */
  predicate WellFormed(once: bool, j: Json) {
    match j
    case Str(s) => Utf8.IsValid(s)
    case Arr(items) => forall x | x in items :: WellFormed(once, x)
    case Obj(entries) =>
      && (once ==> KeysDistinct(entries))
      && (forall e | e in entries :: Utf8.IsValid(e.0) && WellFormed(once, e.1))
    case _ => true
  }

  // ---- keys in ascending rank are distinct ------------------------------------------------

  /** The order in which the emitter pushes keywords, the same for every kind of schema. */
  function Rank(key: string): nat {
    match KeywordOf(key)
    case KType => 3
    case KConst => 6
    case KOneOf => 7
    case KEnum => 7
    case KPattern => 8
    case KMinLength => 9
    case KNot => 10
    case KMinimum => 11
    case KExclusiveMinimum => 12
    case KMaximum => 13
    case KExclusiveMaximum => 14
    case KAnyOf => 15
    case KItems => 16
    case KMinItems => 17
    case KMaxItems => 18
    case KUniqueItems => 19
    case KProperties => 20
    case KRequired => 21
    case KAdditional => 22
    case KDependent => 23
    case KAllOf => 24
    case KAnolisUnique => 28
    case KIf => 29
    case Annotation =>
      (match |key|
       case 3 => 2
       case 4 => 30
       case 5 => 4
       case 7 => if key[0] == '$' then 1 else 25
       case 11 => 5
       case 13 => 26
       case 20 => 27
       case _ => 0)
  }

  /** The keys stand in the emitter's order. */
  predicate Rising(entries: seq<(string, Json)>) {
    forall i, j | 0 <= i < j < |entries| :: Rank(entries[i].0) < Rank(entries[j].0)
  }

  /** Every key of `part` ranks from `low` up to but not including `high`, and they rise. */
  predicate Ranked(part: seq<(string, Json)>, low: nat, high: nat) {
    && (forall e | e in part :: low <= Rank(e.0) < high)
    && Rising(part)
  }

  lemma RankedAppend(a: seq<(string, Json)>, b: seq<(string, Json)>, low: nat, mid: nat, high: nat)
    requires Ranked(a, low, mid) && Ranked(b, mid, high) && low <= mid <= high
    ensures Ranked(a + b, low, high)
  {
    hide Rank;
    forall i, j | 0 <= i < j < |a + b| ensures Rank((a + b)[i].0) < Rank((a + b)[j].0) {
      if i < |a| <= j {
        assert a[i] in a && b[j - |a|] in b;
      }
    }
  }

  /** Parts whose ranks follow one another make an object without repeated keys. */
  lemma {:induction false} RankedParts(parts: seq<seq<(string, Json)>>, bounds: seq<nat>)
    requires |bounds| == |parts| + 1
    requires forall i | 0 <= i < |parts| :: bounds[i] <= bounds[i + 1]
    requires forall i | 0 <= i < |parts| :: Ranked(parts[i], bounds[i], bounds[i + 1])
    ensures bounds[0] <= bounds[|parts|] && Ranked(Flatten(parts), bounds[0], bounds[|parts|])
  {
    hide Rank, Ranked;
    if parts == [] {
      EmptyRanked(bounds[0]);
    } else {
      assert forall i | 0 <= i < |parts[1..]| :: parts[1..][i] == parts[i + 1];
      RankedParts(parts[1..], bounds[1..]);
      RankedAppend(parts[0], Flatten(parts[1..]), bounds[0], bounds[1], bounds[|parts|]);
    }
  }

  lemma EmptyRanked(low: nat)
    ensures Ranked([], low, low)
  {
  }

  lemma KeywordRanks()
    ensures Rank("type") == 3 && Rank("const") == 6 && Rank("oneOf") == 7 && Rank("enum") == 7
    ensures Rank("pattern") == 8 && Rank("minLength") == 9 && Rank("not") == 10
    ensures Rank("minimum") == 11 && Rank("maximum") == 13
    ensures Rank("exclusiveMinimum") == 12 && Rank("exclusiveMaximum") == 14
    ensures Rank("anyOf") == 15 && Rank("default") == 25 && Rank("x-anolis-type") == 26
  {
    hide KeywordOf;
    SchemaMeaning.ShortNames();
    SchemaMeaning.FiveLetterNames();
    SchemaMeaning.SevenAndEightLetterNames();
    SchemaMeaning.LongNames();
    assert "default"[0] == 'd';
  }

  lemma ContainerRanks()
    ensures Rank("type") == 3 && Rank("items") == 16 && Rank("minItems") == 17 && Rank("maxItems") == 18
    ensures Rank("uniqueItems") == 19 && Rank("x-anolis-unique") == 28
    ensures Rank("properties") == 20 && Rank("required") == 21 && Rank("additionalProperties") == 22
    ensures Rank("dependentRequired") == 23 && Rank("allOf") == 24
    ensures Rank("$schema") == 1 && Rank("$id") == 2
  {
    hide KeywordOf;
    SchemaMeaning.ShortNames();
    SchemaMeaning.FiveLetterNames();
    SchemaMeaning.SevenAndEightLetterNames();
    SchemaMeaning.LongNames();
    SchemaTree.LeadAnnotations();
    assert "$schema"[0] == '$';
  }

  lemma PrefixRanked(title: string, description: string)
    ensures forall high | 6 <= high :: Ranked(Prefix(title, description), 4, high)
  {
    hide KeywordOf;
    SchemaMeaning.FiveLetterNames();
    SchemaMeaning.LongNames();
  }

  lemma SuffixRanked(f: FieldSpec)
    ensures Ranked(Suffix(f), 27, 29)
  {
    hide KeywordOf;
    SchemaMeaning.LongNames();
  }

  lemma SingleRanked(part: seq<(string, Json)>, name: string, low: nat, high: nat)
    requires |part| <= 1 && (forall e | e in part :: e.0 == name) && low <= Rank(name) < high
    ensures Ranked(part, low, high)
  {
    hide Rank;
  }

  lemma Ascending(parts: seq<seq<(string, Json)>>, bounds: seq<nat>)
    requires |bounds| == |parts| + 1
    requires forall i | 0 <= i < |parts| :: bounds[i] <= bounds[i + 1]
    requires forall i | 0 <= i < |parts| :: Ranked(parts[i], bounds[i], bounds[i + 1])
    ensures Rising(Flatten(parts)) && KeysDistinct(Flatten(parts))
  {
    hide Rank, Flatten;
    RankedParts(parts, bounds);
    RisingDistinct(Flatten(parts));
  }

  lemma RisingDistinct(entries: seq<(string, Json)>)
    requires Rising(entries)
    ensures KeysDistinct(entries)
  {
    hide Rank;
  }

  lemma StringRanked(f: FieldSpec)
    ensures Rising(Flatten(StringParts(f))) && KeysDistinct(Flatten(StringParts(f)))
  {
    hide Rank, Ranked, Prefix, Suffix, Flatten, EnumTexts, NotSchema;
    var ps, bounds := StringParts(f), [3, 4, 6, 7, 8, 9, 10, 25, 27, 29];
    KeywordRanks();
    PrefixRanked(f.title, f.description);
    SuffixRanked(f);
    SingleRanked(ps[0], "type", 3, 4);
    SingleRanked(ps[2], "const", 6, 7);
    SingleRanked(ps[3], if AnyTitle(f) then "oneOf" else "enum", 7, 8);
    SingleRanked(ps[4], "pattern", 8, 9);
    SingleRanked(ps[5], "minLength", 9, 10);
    SingleRanked(ps[6], "not", 10, 25);
    SingleRanked(ps[7], "default", 25, 27);
    Ascending(ps, bounds);
  }

  lemma IntegerRanked(f: FieldSpec)
    ensures Rising(Flatten(IntegerParts(f))) && KeysDistinct(Flatten(IntegerParts(f)))
  {
    hide Rank, Ranked, Prefix, Suffix, Flatten, EnumTexts, NotSchema;
    var ps, bounds := IntegerParts(f), [3, 4, 11, 12, 14, 27, 29];
    KeywordRanks();
    PrefixRanked(f.title, f.description);
    SuffixRanked(f);
    SingleRanked(ps[0], "type", 3, 4);
    SingleRanked(ps[2], "minimum", 11, 12);
    SingleRanked(ps[3], "maximum", 12, 14);
    SingleRanked(ps[4], "default", 14, 27);
    Ascending(ps, bounds);
  }

  lemma NumberRanked(f: FieldSpec)
    ensures Rising(Flatten(NumberParts(f))) && KeysDistinct(Flatten(NumberParts(f)))
  {
    hide Rank, Ranked, Prefix, Suffix, Flatten, EnumTexts, NotSchema;
    var ps, bounds := NumberParts(f), [3, 4, 11, 12, 13, 14, 15, 27, 29];
    KeywordRanks();
    PrefixRanked(f.title, f.description);
    SuffixRanked(f);
    SingleRanked(ps[0], "type", 3, 4);
    SingleRanked(ps[2], "minimum", 11, 12);
    SingleRanked(ps[3], "exclusiveMinimum", 12, 13);
    SingleRanked(ps[4], "maximum", 13, 14);
    SingleRanked(ps[5], "exclusiveMaximum", 14, 15);
    SingleRanked(ps[6], "default", 15, 27);
    Ascending(ps, bounds);
  }

  lemma BooleanRanked(f: FieldSpec)
    ensures Rising(Flatten(BooleanParts(f))) && KeysDistinct(Flatten(BooleanParts(f)))
  {
    hide Rank, Ranked, Prefix, Suffix, Flatten, EnumTexts, NotSchema;
    var ps, bounds := BooleanParts(f), [3, 4, 25, 27, 29];
    KeywordRanks();
    PrefixRanked(f.title, f.description);
    SuffixRanked(f);
    SingleRanked(ps[0], "type", 3, 4);
    SingleRanked(ps[2], "default", 25, 27);
    Ascending(ps, bounds);
  }

  lemma AddressRanked(f: FieldSpec)
    ensures Rising(Flatten(AddressParts(f))) && KeysDistinct(Flatten(AddressParts(f)))
  {
    hide Rank, Ranked, Prefix, Suffix, Flatten, ADDRESS_INTEGER, ADDRESS_STRING;
    var ps, bounds := AddressParts(f), [4, 15, 25, 26, 27, 29];
    KeywordRanks();
    PrefixRanked(f.title, f.description);
    SuffixRanked(f);
    SingleRanked(ps[1], "anyOf", 15, 25);
    SingleRanked(ps[2], "default", 25, 26);
    SingleRanked(ps[3], "x-anolis-type", 26, 27);
    Ascending(ps, bounds);
  }

  lemma ArrayPartsRanked(a: ArraySpec)
    ensures var ps := ArrayParts(a);
      |ps| == 7 && Ranked(ps[0], 3, 4) && Ranked(ps[1], 4, 16) && Ranked(ps[2], 16, 17) && Ranked(ps[3], 17, 18)
      && Ranked(ps[4], 18, 19) && Ranked(ps[5], 19, 20) && Ranked(ps[6], 20, 29)
  {
    hide Rank, Ranked, Prefix, EmitItem;
    var ps := ArrayParts(a);
    ContainerRanks();
    PrefixRanked(a.title, a.description);
    SingleRanked(ps[0], "type", 3, 4);
    SingleRanked(ps[2], "items", 16, 17);
    SingleRanked(ps[3], "minItems", 17, 18);
    SingleRanked(ps[4], "maxItems", 18, 19);
    SingleRanked(ps[5], "uniqueItems", 19, 20);
    SingleRanked(ps[6], "x-anolis-unique", 20, 29);
  }

  lemma ArrayRanked(a: ArraySpec)
    ensures Rising(Flatten(ArrayParts(a))) && KeysDistinct(Flatten(ArrayParts(a)))
  {
    hide Ranked, Flatten, ArrayParts;
    ArrayPartsRanked(a);
    Ascending(ArrayParts(a), [3, 4, 16, 17, 18, 19, 20, 29]);
  }

  lemma ObjectPartsRanked(o: ObjectSpec, title: string, description: string)
    ensures var ps := ObjectParts(o, title, description);
      |ps| == 7 && Ranked(ps[0], 3, 4) && Ranked(ps[1], 4, 20) && Ranked(ps[2], 20, 21) && Ranked(ps[3], 21, 22)
      && Ranked(ps[4], 22, 23) && Ranked(ps[5], 23, 24) && Ranked(ps[6], 24, 25)
  {
    hide Rank, Ranked, Prefix, Properties, RequiredKeys, DependentEntries, Branches;
    var ps := ObjectParts(o, title, description);
    ContainerRanks();
    PrefixRanked(title, description);
    SingleRanked(ps[0], "type", 3, 4);
    SingleRanked(ps[2], "properties", 20, 21);
    SingleRanked(ps[3], "required", 21, 22);
    SingleRanked(ps[4], "additionalProperties", 22, 23);
    SingleRanked(ps[5], "dependentRequired", 23, 24);
    SingleRanked(ps[6], "allOf", 24, 25);
  }

  lemma ObjectRanked(o: ObjectSpec, title: string, description: string)
    ensures Rising(Flatten(ObjectParts(o, title, description)))
    ensures KeysDistinct(Flatten(ObjectParts(o, title, description)))
  {
    hide Ranked, Flatten, ObjectParts;
    ObjectPartsRanked(o, title, description);
    Ascending(ObjectParts(o, title, description), [3, 4, 20, 21, 22, 23, 24, 25]);
  }

  lemma RootRanked(s: SchemaSpec)
    ensures Rising(EmitSchema(s).entries) && KeysDistinct(EmitSchema(s).entries)
  {
    hide Rank, Ranked, Flatten, ObjectParts;
    var lead, body := RootLead(s), ObjectParts(s.root, RootTitle(s), RootDescription(s));
    ContainerRanks();
    SingleRanked(lead[0], "$schema", 1, 2);
    SingleRanked(lead[1], "$id", 2, 3);
    ObjectPartsRanked(s.root, RootTitle(s), RootDescription(s));
    var parts, bounds := lead + body, [1, 2, 3, 4, 20, 21, 22, 23, 24, 25];
    forall i | 0 <= i < |parts| ensures Ranked(parts[i], bounds[i], bounds[i + 1]) {
      assert parts[i] == if i < 2 then lead[i] else body[i - 2];
    }
    Ascending(parts, bounds);
  }

  /** Keywords stand in one order, that of their ranks, in the root document and in every schema below it. */
  lemma KeywordsInOrder(s: SchemaSpec, o: ObjectSpec, a: ArraySpec, f: FieldSpec)
    ensures Rising(EmitSchema(s).entries) && Rising(EmitObject(o).entries)
    ensures Rising(EmitArray(a).entries) && Rising(EmitField(f).entries)
  {
    hide Rising, Flatten, ObjectParts, ArrayParts, RootLead;
    RootRanked(s);
    ObjectRanked(o, o.title, o.description);
    ArrayRanked(a);
    FieldRising(f);
  }

  lemma FieldRising(f: FieldSpec)
    ensures Rising(EmitField(f).entries)
  {
    hide Rising, Flatten, StringParts, IntegerParts, NumberParts, BooleanParts, AddressParts;
    match f.kind
    case StringKind => StringRanked(f);
    case IntegerKind => IntegerRanked(f);
    case NumberKind => NumberRanked(f);
    case BooleanKind => BooleanRanked(f);
    case I2cAddressKind => AddressRanked(f);
  }

  // ---- whole trees ----------------------------------------------------------------------------

  predicate PartOk(once: bool, part: seq<(string, Json)>) {
    forall e | e in part :: Utf8.IsValid(e.0) && WellFormed(once, e.1)
  }

  predicate AllPartsOk(once: bool, parts: seq<seq<(string, Json)>>) {
    forall i | 0 <= i < |parts| :: PartOk(once, parts[i])
  }

  lemma {:induction false} FlatWellFormed(once: bool, parts: seq<seq<(string, Json)>>)
    ensures WellFormed(once, Obj(Flatten(parts))) <==>
      (once ==> KeysDistinct(Flatten(parts))) && AllPartsOk(once, parts)
  {
    forall e: (string, Json) ensures e in Flatten(parts) <==> exists i :: 0 <= i < |parts| && e in parts[i] {
      InFlatten(parts, e);
    }
  }

  lemma EntryOk(once: bool, part: seq<(string, Json)>, name: string, value: Json)
    requires (part == [] || part == [(name, value)]) && Utf8.IsValid(name)
    ensures PartOk(once, part) <==> part == [] || WellFormed(once, value)
  {
    hide WellFormed;
    if part != [] { assert (name, value) in part; }
  }

  lemma StringsOk(once: bool, ss: seq<string>)
    requires forall s | s in ss :: Utf8.IsValid(s)
    ensures WellFormed(once, Arr(Strings(ss)))
  {
    hide Utf8.IsValid;
    assert forall x | x in Strings(ss) :: exists i | 0 <= i < |ss| :: x == Str(ss[i]);
  }

  lemma TextNames()
    ensures Utf8.IsValid("type")
    ensures Utf8.IsValid("title")
    ensures Utf8.IsValid("description")
    ensures Utf8.IsValid("default")
  {
    hide Utf8.IsValid;
    Utf8.AsciiIsValid("type");
    Utf8.AsciiIsValid("title");
    Utf8.AsciiIsValid("description");
    Utf8.AsciiIsValid("default");
  }

  lemma StringNames()
    ensures Utf8.IsValid("const")
    ensures Utf8.IsValid("oneOf")
    ensures Utf8.IsValid("enum")
    ensures Utf8.IsValid("pattern")
    ensures Utf8.IsValid("minLength")
    ensures Utf8.IsValid("not")
    ensures Utf8.IsValid("string")
  {
    hide Utf8.IsValid;
    Utf8.AsciiIsValid("const");
    Utf8.AsciiIsValid("oneOf");
    Utf8.AsciiIsValid("enum");
    Utf8.AsciiIsValid("pattern");
    Utf8.AsciiIsValid("minLength");
    Utf8.AsciiIsValid("not");
    Utf8.AsciiIsValid("string");
  }

  lemma NumberNames()
    ensures Utf8.IsValid("minimum")
    ensures Utf8.IsValid("maximum")
    ensures Utf8.IsValid("exclusiveMinimum")
    ensures Utf8.IsValid("exclusiveMaximum")
    ensures Utf8.IsValid("integer")
    ensures Utf8.IsValid("number")
    ensures Utf8.IsValid("boolean")
  {
    hide Utf8.IsValid;
    Utf8.AsciiIsValid("minimum");
    Utf8.AsciiIsValid("maximum");
    Utf8.AsciiIsValid("exclusiveMinimum");
    Utf8.AsciiIsValid("exclusiveMaximum");
    Utf8.AsciiIsValid("integer");
    Utf8.AsciiIsValid("number");
    Utf8.AsciiIsValid("boolean");
  }

  lemma MarkNames()
    ensures Utf8.IsValid("anyOf")
    ensures Utf8.IsValid("x-anolis-type")
    ensures Utf8.IsValid("i2c_address")
    ensures Utf8.IsValid("x-anolis-placeholder")
    ensures Utf8.IsValid("x-anolis-unique")
  {
    hide Utf8.IsValid;
    Utf8.AsciiIsValid("anyOf");
    Utf8.AsciiIsValid("x-anolis-type");
    Utf8.AsciiIsValid("i2c_address");
    Utf8.AsciiIsValid("x-anolis-placeholder");
    Utf8.AsciiIsValid("x-anolis-unique");
  }

  lemma ArrayNames()
    ensures Utf8.IsValid("array")
    ensures Utf8.IsValid("items")
    ensures Utf8.IsValid("minItems")
    ensures Utf8.IsValid("maxItems")
    ensures Utf8.IsValid("uniqueItems")
  {
    hide Utf8.IsValid;
    Utf8.AsciiIsValid("array");
    Utf8.AsciiIsValid("items");
    Utf8.AsciiIsValid("minItems");
    Utf8.AsciiIsValid("maxItems");
    Utf8.AsciiIsValid("uniqueItems");
  }

  lemma ObjectNames()
    ensures Utf8.IsValid("object")
    ensures Utf8.IsValid("properties")
    ensures Utf8.IsValid("required")
    ensures Utf8.IsValid("if")
    ensures Utf8.IsValid("then")
  {
    hide Utf8.IsValid;
    Utf8.AsciiIsValid("object");
    Utf8.AsciiIsValid("properties");
    Utf8.AsciiIsValid("required");
    Utf8.AsciiIsValid("if");
    Utf8.AsciiIsValid("then");
  }

  lemma LongObjectNames()
    ensures Utf8.IsValid("additionalProperties")
    ensures Utf8.IsValid("dependentRequired")
    ensures Utf8.IsValid("allOf")
  {
    hide Utf8.IsValid;
    Utf8.AsciiIsValid("additionalProperties");
    Utf8.AsciiIsValid("dependentRequired");
    Utf8.AsciiIsValid("allOf");
  }

  lemma PrefixOk(once: bool, title: string, description: string)
    requires Utf8.IsValid(title) && Utf8.IsValid(description)
    ensures PartOk(once, Prefix(title, description))
  {
    hide Utf8.IsValid;
    TextNames();
  }

  lemma SuffixOk(once: bool, f: FieldSpec)
    requires FieldTextsOk(f)
    ensures PartOk(once, Suffix(f))
  {
    hide Utf8.IsValid;
    MarkNames();
  }

  lemma OptionOk(once: bool, e: EnumValue)
    requires Utf8.IsValid(e.value) && Utf8.IsValid(e.title)
    ensures WellFormed(once, TitledOption(e))
  {
    hide Utf8.IsValid;
    TextNames();
    StringNames();
    assert "const"[0] == 'c' && "title"[0] == 't';
  }

  lemma EnumEntryOk(once: bool, f: FieldSpec)
    requires FieldTextsOk(f)
    ensures PartOk(once, When(f.enumValues != [], EnumEntry(f)))
  {
    hide Utf8.IsValid, TitledOption, WellFormed;
    StringNames();
    if f.enumValues != [] {
      var e := EnumEntry(f);
      if AnyTitle(f) {
        forall i | 0 <= i < |e.1.items| ensures WellFormed(once, e.1.items[i]) {
          OptionOk(once, f.enumValues[i]);
        }
        ListOk(once, e.1.items);
      } else {
        assert forall v | v in EnumTexts(f) :: exists i | 0 <= i < |f.enumValues| :: v == f.enumValues[i].value;
        StringsOk(once, EnumTexts(f));
      }
      EntryOk(once, [e], e.0, e.1);
    }
  }

  lemma ListOk(once: bool, items: seq<Json>)
    requires forall i | 0 <= i < |items| :: WellFormed(once, items[i])
    ensures WellFormed(once, Arr(items))
  {
  }

  lemma NotSchemaOk(once: bool, f: FieldSpec)
    requires FieldTextsOk(f) && f.forbidden != []
    ensures WellFormed(once, NotSchema(f))
  {
    hide Utf8.IsValid;
    StringNames();
    if |f.forbidden| != 1 {
      assert forall v | v in ForbiddenTexts(f) :: exists i | 0 <= i < |f.forbidden| :: v == f.forbidden[i].value;
      StringsOk(once, ForbiddenTexts(f));
    }
  }

  lemma StringFieldOk(once: bool, f: FieldSpec)
    requires FieldTextsOk(f)
    ensures WellFormed(once, Obj(Flatten(StringParts(f))))
  {
    hide Utf8.IsValid, Flatten, Prefix, Suffix, EnumEntry, NotSchema, WellFormed, KeysDistinct, PartOk;
    var ps := StringParts(f);
    FlatWellFormed(once, ps);
    StringRanked(f);
    TextNames();
    StringNames();
    PrefixOk(once, f.title, f.description);
    SuffixOk(once, f);
    EntryOk(once, ps[0], "type", Str("string"));
    TextOkAsEntry(once, ps[2], "const", f.constValue);
    EnumEntryOk(once, f);
    TextOkAsEntry(once, ps[4], "pattern", f.pattern);
    PlainOk(once, ps[5], "minLength");
    if f.forbidden != [] { NotSchemaOk(once, f); }
    EntryOk(once, ps[6], "not", NotSchema(f));
    TextOkAsEntry(once, ps[7], "default", f.defaultString);
    StringLeaf(once, "string");
  }

  lemma StringLeaf(once: bool, s: string)
    ensures WellFormed(once, Str(s)) <==> Utf8.IsValid(s)
  {
  }

  lemma TextOkAsEntry(once: bool, part: seq<(string, Json)>, name: string, value: Option<string>)
    requires part == TextEntry(name, value) && Utf8.IsValid(name) && OptionalTextOk(value)
    ensures PartOk(once, part)
  {
  }

  lemma PlainOk(once: bool, part: seq<(string, Json)>, name: string)
    requires part == [] || (|part| == 1 && part[0].0 == name && (part[0].1.Int? || part[0].1.Double? || part[0].1.Bool?))
    requires Utf8.IsValid(name)
    ensures PartOk(once, part)
  {
  }

  lemma IntegerFieldOk(once: bool, f: FieldSpec)
    requires FieldTextsOk(f)
    ensures WellFormed(once, Obj(Flatten(IntegerParts(f))))
  {
    hide Utf8.IsValid, Flatten, Prefix, Suffix, WellFormed, KeysDistinct, PartOk;
    var ps := IntegerParts(f);
    FlatWellFormed(once, ps);
    IntegerRanked(f);
    TextNames();
    NumberNames();
    PrefixOk(once, f.title, f.description);
    SuffixOk(once, f);
    StringLeaf(once, "integer");
    EntryOk(once, ps[0], "type", Str("integer"));
    PlainOk(once, ps[2], "minimum");
    PlainOk(once, ps[3], "maximum");
    PlainOk(once, ps[4], "default");
  }

  lemma NumberFieldOk(once: bool, f: FieldSpec)
    requires FieldTextsOk(f)
    ensures WellFormed(once, Obj(Flatten(NumberParts(f))))
  {
    hide Utf8.IsValid, Flatten, Prefix, Suffix, WellFormed, KeysDistinct, PartOk;
    var ps := NumberParts(f);
    FlatWellFormed(once, ps);
    NumberRanked(f);
    TextNames();
    NumberNames();
    PrefixOk(once, f.title, f.description);
    SuffixOk(once, f);
    StringLeaf(once, "number");
    EntryOk(once, ps[0], "type", Str("number"));
    PlainOk(once, ps[2], "minimum");
    PlainOk(once, ps[3], "exclusiveMinimum");
    PlainOk(once, ps[4], "maximum");
    PlainOk(once, ps[5], "exclusiveMaximum");
    PlainOk(once, ps[6], "default");
  }

  lemma BooleanFieldOk(once: bool, f: FieldSpec)
    requires FieldTextsOk(f)
    ensures WellFormed(once, Obj(Flatten(BooleanParts(f))))
  {
    hide Utf8.IsValid, Flatten, Prefix, Suffix, WellFormed, KeysDistinct, PartOk;
    var ps := BooleanParts(f);
    FlatWellFormed(once, ps);
    BooleanRanked(f);
    TextNames();
    NumberNames();
    PrefixOk(once, f.title, f.description);
    SuffixOk(once, f);
    StringLeaf(once, "boolean");
    EntryOk(once, ps[0], "type", Str("boolean"));
    PlainOk(once, ps[2], "default");
  }

  lemma HexPatternPieces()
    ensures Utf8.IsValid("^0[xX](0[89a-fA-F]|") && Utf8.IsValid("[1-6][0-9a-fA-F]|7[0-7])$")
  {
    hide Utf8.IsValid;
    Utf8.AsciiIsValid("^0[xX](0[89a-fA-F]|");
    Utf8.AsciiIsValid("[1-6][0-9a-fA-F]|7[0-7])$");
  }

  lemma HexPatternValid()
    ensures Utf8.IsValid(I2C_HEX_PATTERN)
  {
    hide Utf8.IsValid;
    HexPatternPieces();
    Utf8.ValidAppend("^0[xX](0[89a-fA-F]|", "[1-6][0-9a-fA-F]|7[0-7])$");
    assert "^0[xX](0[89a-fA-F]|" + "[1-6][0-9a-fA-F]|7[0-7])$" == I2C_HEX_PATTERN;
  }

  lemma AddressBranchesOk(once: bool)
    ensures WellFormed(once, Arr([ADDRESS_INTEGER, ADDRESS_STRING]))
  {
    hide Utf8.IsValid;
    TextNames();
    StringNames();
    NumberNames();
    HexPatternValid();
    assert "minimum"[1] == 'i' && "maximum"[1] == 'a';
    ListOk(once, [ADDRESS_INTEGER, ADDRESS_STRING]);
  }

  lemma AddressFieldOk(once: bool, f: FieldSpec)
    requires FieldTextsOk(f)
    ensures WellFormed(once, Obj(Flatten(AddressParts(f))))
  {
    hide Utf8.IsValid, Flatten, Prefix, Suffix, WellFormed, KeysDistinct, PartOk;
    var ps := AddressParts(f);
    FlatWellFormed(once, ps);
    AddressRanked(f);
    TextNames();
    MarkNames();
    PrefixOk(once, f.title, f.description);
    SuffixOk(once, f);
    AddressBranchesOk(once);
    EntryOk(once, ps[1], "anyOf", Arr([ADDRESS_INTEGER, ADDRESS_STRING]));
    PlainOk(once, ps[2], "default");
    StringLeaf(once, "i2c_address");
    EntryOk(once, ps[3], "x-anolis-type", Str("i2c_address"));
  }

  lemma FieldWellFormed(once: bool, f: FieldSpec)
    requires FieldTextsOk(f)
    ensures WellFormed(once, EmitField(f))
  {
    hide WellFormed, Flatten, FieldTextsOk, StringParts, IntegerParts, NumberParts, BooleanParts, AddressParts;
    match f.kind
    case StringKind => StringFieldOk(once, f);
    case IntegerKind => IntegerFieldOk(once, f);
    case NumberKind => NumberFieldOk(once, f);
    case BooleanKind => BooleanFieldOk(once, f);
    case I2cAddressKind => AddressFieldOk(once, f);
  }

  // ---- conditionals, dependents, members ------------------------------------------------------

  lemma ForbiddingWellFormed(once: bool, keys: seq<string>)
    requires forall k | k in keys :: Utf8.IsValid(k)
    ensures WellFormed(once, Obj(Forbidding(keys))) <==> (once ==> AllDistinct(keys))
  {
    hide Utf8.IsValid;
    var es := Forbidding(keys);
    assert forall e | e in es :: exists i | 0 <= i < |keys| :: e == (keys[i], Bool(false));
    assert forall i | 0 <= i < |keys| :: es[i].0 == keys[i];
  }

  lemma ThenWellFormed(once: bool, c: Conditional)
    requires (forall k | k in c.requireKeys :: Utf8.IsValid(k)) && (forall k | k in c.forbidKeys :: Utf8.IsValid(k))
    ensures WellFormed(once, ThenSchema(c)) <==> (once ==> AllDistinct(c.forbidKeys))
  {
    hide Utf8.IsValid, AllDistinct;
    var a := When(c.requireKeys != [], ("required", Arr(Strings(c.requireKeys))));
    var b := When(c.forbidKeys != [], ("properties", Obj(Forbidding(c.forbidKeys))));
    ObjectNames();
    StringsOk(once, c.requireKeys);
    ForbiddingWellFormed(once, c.forbidKeys);
    if c.forbidKeys == [] { NoneDistinct(); }
    assert |"required"| != |"properties"|;
  }

  lemma NoneDistinct()
    ensures AllDistinct<string>([])
  {
  }

  lemma IfWellFormed(once: bool, c: Conditional)
    requires Utf8.IsValid(c.key) && Utf8.IsValid(c.equals)
    ensures WellFormed(once, IfSchema(c))
  {
    hide Utf8.IsValid;
    ObjectNames();
    StringNames();
    var test := Obj([("const", Str(c.equals))]);
    var a, b := Obj([(c.key, test)]), Arr([Str(c.key)]);
    assert WellFormed(once, test);
    assert WellFormed(once, a);
    assert WellFormed(once, b);
    PairWellFormed(once, "properties", a, "required", b);
  }

  lemma PairWellFormed(once: bool, first: string, a: Json, second: string, b: Json)
    requires Utf8.IsValid(first) && Utf8.IsValid(second) && |first| != |second|
    ensures WellFormed(once, Obj([(first, a), (second, b)])) <==> WellFormed(once, a) && WellFormed(once, b)
  {
    hide Utf8.IsValid;
    var es := [(first, a), (second, b)];
    assert es[0] in es && es[1] in es;
  }

  lemma BranchWellFormed(once: bool, c: Conditional)
    requires Utf8.IsValid(c.key) && Utf8.IsValid(c.equals)
    requires (forall k | k in c.requireKeys :: Utf8.IsValid(k)) && (forall k | k in c.forbidKeys :: Utf8.IsValid(k))
    ensures WellFormed(once, Branch(c)) <==> (once ==> AllDistinct(c.forbidKeys))
  {
    hide Utf8.IsValid, AllDistinct, IfSchema, ThenSchema, WellFormed;
    ObjectNames();
    IfWellFormed(once, c);
    ThenWellFormed(once, c);
    PairWellFormed(once, "if", IfSchema(c), "then", ThenSchema(c));
  }

  lemma DependentsWellFormed(once: bool, ds: seq<Dependent>)
    requires AllDistinct(DependentKeys(ds))
    requires forall d | d in ds :: Utf8.IsValid(d.key) && forall k | k in d.alsoRequired :: Utf8.IsValid(k)
    ensures WellFormed(once, Obj(DependentEntries(ds)))
  {
    hide Utf8.IsValid;
    var es := DependentEntries(ds);
    forall i | 0 <= i < |ds| ensures WellFormed(once, es[i].1) && Utf8.IsValid(es[i].0) {
      assert ds[i] in ds;
      StringsOk(once, ds[i].alsoRequired);
    }
    assert forall i | 0 <= i < |ds| :: es[i].0 == DependentKeys(ds)[i];
    assert forall e | e in es :: exists i | 0 <= i < |es| :: e == es[i];
  }

  // ---- the theorem ------------------------------------------------------------------------------

  /** No `When` branch forbids the same key twice, at any depth. */
  predicate ForbidsDistinct(o: ObjectSpec) {
    && (forall c | c in o.conditionals :: AllDistinct(c.forbidKeys))
    && (forall m | m in o.members :: ForbidsDistinctIn(m.decl))
  }

  predicate ForbidsDistinctIn(d: Declaration) {
    match d
    case Scalar(_) => true
    case Nested(child) => ForbidsDistinct(child)
    case Listed(a) => a.item.ObjectItem? ==> ForbidsDistinct(a.item.child)
  }

  lemma DeclaredKeysValid(lib: Library, o: ObjectSpec, inItem: bool, key: string)
    requires ObjectOk(lib, o, inItem) && Declares(o, key)
    ensures Utf8.IsValid(key)
  {
    hide FieldOk, ObjectOk, ArrayOk, Utf8.IsValid;
    var m :| m in o.members && m.key == key;
    MemberIsOk(lib, o, inItem, m);
  }

  lemma MemberIsOk(lib: Library, o: ObjectSpec, inItem: bool, m: Member)
    requires ObjectOk(lib, o, inItem) && m in o.members
    ensures MemberOk(lib, m, inItem)
  {
    hide MemberOk, ConditionalOk, DependentOk;
  }

  lemma BranchesWellFormed(lib: Library, once: bool, o: ObjectSpec, inItem: bool)
    requires ObjectOk(lib, o, inItem)
    ensures PartOk(once, When(o.conditionals != [], ("allOf", Arr(Branches(o.conditionals))))) <==>
      (once ==> forall c | c in o.conditionals :: AllDistinct(c.forbidKeys))
  {
    hide Utf8.IsValid, MemberOk, DependentOk, AllDistinct, Branch, DiscriminatorOk, Declares;
    var cs, js := o.conditionals, Branches(o.conditionals);
    LongObjectNames();
    forall i | 0 <= i < |cs| ensures WellFormed(once, js[i]) <==> (once ==> AllDistinct(cs[i].forbidKeys)) {
      var c := cs[i];
      assert c in cs && ConditionalOk(o, c);
      forall k | k in c.requireKeys || k in c.forbidKeys ensures Utf8.IsValid(k) {
        DeclaredKeysValid(lib, o, inItem, k);
      }
      DiscriminatorDeclared(o, c);
      DeclaredKeysValid(lib, o, inItem, c.key);
      BranchWellFormed(once, c);
    }
    if cs != [] {
      EntryOk(once, [("allOf", Arr(js))], "allOf", Arr(js));
    }
    assert forall i | 0 <= i < |js| :: js[i] in js;
    assert forall x | x in js :: exists i | 0 <= i < |js| :: x == js[i];
    assert forall c | c in cs :: exists i | 0 <= i < |js| :: c == cs[i];
  }

  lemma DiscriminatorDeclared(o: ObjectSpec, c: Conditional)
    requires DiscriminatorOk(o, c)
    ensures Declares(o, c.key)
  {
  }

  lemma RequiredTextsOk(lib: Library, once: bool, o: ObjectSpec, inItem: bool)
    requires ObjectOk(lib, o, inItem)
    ensures WellFormed(once, Arr(Strings(RequiredKeys(o.members))))
  {
    hide Utf8.IsValid, RequiredKeys, ObjectOk, MemberOk, WellFormed;
    SchemaTree.RequiredKeysMembers(o.members);
    forall k | k in RequiredKeys(o.members) ensures Utf8.IsValid(k) {
      assert Declares(o, k);
      DeclaredKeysValid(lib, o, inItem, k);
    }
    StringsOk(once, RequiredKeys(o.members));
  }

  lemma DependentPartOk(lib: Library, once: bool, o: ObjectSpec, inItem: bool)
    requires ObjectOk(lib, o, inItem)
    ensures WellFormed(once, Obj(DependentEntries(o.dependents)))
  {
    hide Utf8.IsValid, MemberOk, ConditionalOk, WellFormed, DependentEntries, Declares;
    forall d | d in o.dependents ensures Utf8.IsValid(d.key) && forall k | k in d.alsoRequired :: Utf8.IsValid(k) {
      assert DependentOk(o, d);
      DeclaredKeysValid(lib, o, inItem, d.key);
      forall k | k in d.alsoRequired ensures Utf8.IsValid(k) {
        DeclaredKeysValid(lib, o, inItem, k);
      }
    }
    DependentsWellFormed(once, o.dependents);
  }

  lemma ItemWellFormed(lib: Library, once: bool, a: ArraySpec)
    requires ArrayBuilt(a) && ArrayOk(lib, a)
    ensures WellFormed(once, EmitItem(a.item)) <==>
      (once ==> a.item.ObjectItem? ==> ForbidsDistinct(a.item.child))
    decreases a, 0
  {
    hide WellFormed, EmitField, FieldTextsOk, ForbidsDistinct, EmitObject;
    match a.item
    case ScalarItem(f) => FieldWellFormed(once, f);
    case ObjectItem(child) => ObjectWellFormed(lib, once, child, true);
  }

  lemma ArrayPartsOk(once: bool, a: ArraySpec)
    requires Utf8.IsValid(a.title) && Utf8.IsValid(a.description)
    ensures WellFormed(once, EmitArray(a)) <==> WellFormed(once, EmitItem(a.item))
  {
    hide Utf8.IsValid, Flatten, Prefix, WellFormed, KeysDistinct, PartOk, EmitItem;
    var ps := ArrayParts(a);
    FlatWellFormed(once, ps);
    ArrayRanked(a);
    TextNames();
    ArrayNames();
    MarkNames();
    PrefixOk(once, a.title, a.description);
    StringLeaf(once, "array");
    EntryOk(once, ps[0], "type", Str("array"));
    EntryOk(once, ps[2], "items", EmitItem(a.item));
    PlainOk(once, ps[3], "minItems");
    PlainOk(once, ps[4], "maxItems");
    PlainOk(once, ps[5], "uniqueItems");
    PlainOk(once, ps[6], "x-anolis-unique");
  }

  lemma ArrayWellFormed(lib: Library, once: bool, a: ArraySpec)
    requires ArrayBuilt(a) && ArrayOk(lib, a)
    ensures WellFormed(once, EmitArray(a)) <==> (once ==> a.item.ObjectItem? ==> ForbidsDistinct(a.item.child))
    decreases a, 1
  {
    ItemWellFormed(lib, once, a);
    hide Utf8.IsValid, WellFormed, EmitItem, EmitArray, ForbidsDistinct, FieldOk, ObjectOk;
    ArrayPartsOk(once, a);
  }

  lemma MemberWellFormed(lib: Library, once: bool, m: Member, inItem: bool)
    requires MemberBuilt(m) && MemberOk(lib, m, inItem)
    ensures WellFormed(once, EmitDeclaration(m.decl)) <==> (once ==> ForbidsDistinctIn(m.decl))
    decreases m, 0
  {
    hide WellFormed, EmitField, EmitArray, EmitObject, FieldTextsOk, ForbidsDistinct;
    match m.decl
    case Scalar(f) => FieldWellFormed(once, f);
    case Nested(child) => ObjectWellFormed(lib, once, child, false);
    case Listed(a) => ArrayWellFormed(lib, once, a);
  }

  lemma EntriesWellFormed(once: bool, es: seq<(string, Json)>)
    requires KeysDistinct(es) && forall i | 0 <= i < |es| :: Utf8.IsValid(es[i].0)
    ensures WellFormed(once, Obj(es)) <==> forall i | 0 <= i < |es| :: WellFormed(once, es[i].1)
  {
    hide Utf8.IsValid;
    assert forall i | 0 <= i < |es| :: es[i] in es;
  }

  lemma PropertiesWellFormed(lib: Library, once: bool, o: ObjectSpec, inItem: bool)
    requires ObjectBuilt(o) && ObjectOk(lib, o, inItem)
    ensures WellFormed(once, Obj(Properties(o.members))) <==>
      (once ==> forall m | m in o.members :: ForbidsDistinctIn(m.decl))
    decreases o, 0
  {
    hide Utf8.IsValid, ForbidsDistinctIn, EmitDeclaration, MemberOk, ConditionalOk, DependentOk, MemberBuilt, WellFormed;
    var ms, es := o.members, Properties(o.members);
    forall i | 0 <= i < |ms|
      ensures Utf8.IsValid(es[i].0) && (WellFormed(once, es[i].1) <==> (once ==> ForbidsDistinctIn(ms[i].decl)))
    {
      assert ms[i] in ms;
      assert Declares(o, ms[i].key);
      DeclaredKeysValid(lib, o, inItem, ms[i].key);
      MemberWellFormed(lib, once, ms[i], inItem);
    }
    assert forall i | 0 <= i < |ms| :: es[i].0 == MemberKeys(o)[i];
    EntriesWellFormed(once, es);
    assert forall i | 0 <= i < |ms| :: ms[i] in ms;
    assert forall m | m in ms :: exists i | 0 <= i < |ms| :: m == ms[i];
  }

  lemma BodyPartsOk(once: bool, o: ObjectSpec, title: string, description: string)
    requires Utf8.IsValid(title) && Utf8.IsValid(description)
    requires WellFormed(once, Arr(Strings(RequiredKeys(o.members))))
    requires WellFormed(once, Obj(DependentEntries(o.dependents)))
    ensures var ps := ObjectParts(o, title, description);
      |ps| == 7 && PartOk(once, ps[0]) && PartOk(once, ps[1]) && PartOk(once, ps[3]) && PartOk(once, ps[4])
      && PartOk(once, ps[5])
    ensures PartOk(once, ObjectParts(o, title, description)[2]) <==>
      o.members == [] || WellFormed(once, Obj(Properties(o.members)))
  {
    hide Utf8.IsValid, Prefix, WellFormed, PartOk, Properties, RequiredKeys, DependentEntries, Branches;
    var ps := ObjectParts(o, title, description);
    TextNames();
    ObjectNames();
    LongObjectNames();
    PrefixOk(once, title, description);
    StringLeaf(once, "object");
    EntryOk(once, ps[0], "type", Str("object"));
    EntryOk(once, ps[2], "properties", Obj(Properties(o.members)));
    EntryOk(once, ps[3], "required", Arr(Strings(RequiredKeys(o.members))));
    PlainOk(once, ps[4], "additionalProperties");
    EntryOk(once, ps[5], "dependentRequired", Obj(DependentEntries(o.dependents)));
  }

  lemma BodyWellFormed(lib: Library, once: bool, o: ObjectSpec, inItem: bool, title: string, description: string)
    requires ObjectBuilt(o) && ObjectOk(lib, o, inItem) && Utf8.IsValid(title) && Utf8.IsValid(description)
    ensures AllPartsOk(once, ObjectParts(o, title, description)) <==> (once ==> ForbidsDistinct(o))
    decreases o, 1
  {
    hide Utf8.IsValid, Prefix, WellFormed, PartOk, ForbidsDistinctIn, Properties, RequiredKeys, DependentEntries,
      Branches, ObjectOk, ObjectBuilt, AllDistinct, ObjectParts;
    PropertiesWellFormed(lib, once, o, inItem);
    BranchesWellFormed(lib, once, o, inItem);
    RequiredTextsOk(lib, once, o, inItem);
    DependentPartOk(lib, once, o, inItem);
    BodyPartsOk(once, o, title, description);
    LastPart(o, title, description);
    SevenParts(once, ObjectParts(o, title, description));
  }

  lemma SevenParts(once: bool, ps: seq<seq<(string, Json)>>)
    requires |ps| == 7 && PartOk(once, ps[0]) && PartOk(once, ps[1]) && PartOk(once, ps[3]) && PartOk(once, ps[4])
      && PartOk(once, ps[5])
    ensures AllPartsOk(once, ps) <==> PartOk(once, ps[2]) && PartOk(once, ps[6])
  {
    hide PartOk;
  }

  lemma LastPart(o: ObjectSpec, title: string, description: string)
    ensures ObjectParts(o, title, description)[6] ==
      When(o.conditionals != [], ("allOf", Arr(Branches(o.conditionals))))
  {
    hide Prefix, Properties, RequiredKeys, DependentEntries, Branches;
  }

  /**
   Every object the emitter builds has distinct keys exactly when no `When` branch
   repeats a forbidden key; the texts are UTF-8 regardless.
   */
  lemma {:induction false} ObjectWellFormed(lib: Library, once: bool, o: ObjectSpec, inItem: bool)
    requires ObjectBuilt(o) && ObjectOk(lib, o, inItem)
    ensures WellFormed(once, EmitObject(o)) <==> (once ==> ForbidsDistinct(o))
    decreases o, 2
  {
    BodyWellFormed(lib, once, o, inItem, o.title, o.description);
    hide WellFormed, Flatten, ObjectParts, KeysDistinct, PartOk, ForbidsDistinct, ObjectOk, ObjectBuilt;
    FlatWellFormed(once, ObjectParts(o, o.title, o.description));
    ObjectRanked(o, o.title, o.description);
  }

  /** The schema constructor and its three setters accept only UTF-8 metadata. */
  predicate SchemaBuilt(lib: Library, s: SchemaSpec) {
    && ObjectBuilt(s.root) && ObjectOk(lib, s.root, false)
    && OptionalTextOk(s.id) && OptionalTextOk(s.title) && OptionalTextOk(s.description)
  }

  lemma LeadNames()
    ensures Utf8.IsValid("$schema") && Utf8.IsValid("$id")
  {
    hide Utf8.IsValid;
    Utf8.AsciiIsValid("$schema");
    Utf8.AsciiIsValid("$id");
  }

  lemma DraftUriPieces()
    ensures Utf8.IsValid("https://json-schema.org/") && Utf8.IsValid("draft/2020-12/schema")
  {
    hide Utf8.IsValid;
    Utf8.AsciiIsValid("https://json-schema.org/");
    Utf8.AsciiIsValid("draft/2020-12/schema");
  }

  lemma DraftUriValid()
    ensures Utf8.IsValid(DRAFT_URI)
  {
    hide Utf8.IsValid;
    DraftUriPieces();
    Utf8.ValidAppend("https://json-schema.org/", "draft/2020-12/schema");
    assert "https://json-schema.org/" + "draft/2020-12/schema" == DRAFT_URI;
  }

  lemma LeadWellFormed(once: bool, s: SchemaSpec)
    requires OptionalTextOk(s.id)
    ensures PartOk(once, RootLead(s)[0]) && PartOk(once, RootLead(s)[1])
  {
    hide Utf8.IsValid, PartOk, WellFormed;
    LeadNames();
    DraftUriValid();
    StringLeaf(once, DRAFT_URI);
    EntryOk(once, RootLead(s)[0], "$schema", Str(DRAFT_URI));
    TextOkAsEntry(once, RootLead(s)[1], "$id", s.id);
  }

  lemma SchemaWellFormed(lib: Library, once: bool, s: SchemaSpec)
    requires SchemaBuilt(lib, s)
    ensures WellFormed(once, EmitSchema(s)) <==> (once ==> ForbidsDistinct(s.root))
  {
    hide WellFormed, Flatten, ObjectParts, KeysDistinct, PartOk, ForbidsDistinct, ObjectBuilt, Utf8.IsValid,
      MemberOk, ConditionalOk, DependentOk;
    var title, description := RootTitle(s), RootDescription(s);
    assert Utf8.IsValid(title) && Utf8.IsValid(description);
    BodyWellFormed(lib, once, s.root, false, title, description);
    hide AllPartsOk;
    LeadWellFormed(once, s);
    RootRanked(s);
    var body := ObjectParts(s.root, title, description);
    TwoGroups(once, RootLead(s), body);
    assert EmitSchema(s) == Obj(Flatten(RootLead(s) + body));
  }

  lemma TwoGroups(once: bool, lead: seq<seq<(string, Json)>>, body: seq<seq<(string, Json)>>)
    requires |lead| == 2 && PartOk(once, lead[0]) && PartOk(once, lead[1])
    requires KeysDistinct(Flatten(lead + body))
    ensures WellFormed(once, Obj(Flatten(lead + body))) <==> AllPartsOk(once, body)
  {
    hide WellFormed, Flatten, KeysDistinct, AllPartsOk;
    FlatWellFormed(once, lead + body);
    TwoPartsOk(once, lead);
    AppendPartsOk(once, lead, body);
  }

  lemma TwoPartsOk(once: bool, lead: seq<seq<(string, Json)>>)
    requires |lead| == 2 && PartOk(once, lead[0]) && PartOk(once, lead[1])
    ensures AllPartsOk(once, lead)
  {
    hide PartOk;
  }

  lemma AppendPartsOk(once: bool, a: seq<seq<(string, Json)>>, b: seq<seq<(string, Json)>>)
    ensures AllPartsOk(once, a + b) <==> AllPartsOk(once, a) && AllPartsOk(once, b)
  {
    hide PartOk;
    assert forall i | 0 <= i < |a| :: (a + b)[i] == a[i];
    assert forall i | 0 <= i < |b| :: (a + b)[|a| + i] == b[i];
  }
}
