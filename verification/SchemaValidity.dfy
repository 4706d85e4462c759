/**
 Whether the emitted document is itself a schema: the values its keywords may take
 under draft 2020-12 (Validation, sections 6.1 to 6.5; Core, section 10). The checks
 of src/anolis/provider_sdk/config.cpp:335-472 do not quite secure it.
 */
module SchemaValidity {
  import opened Base
  import opened Json
  import opened JsonSchema
  import opened ConfigSpec
  import opened ConfigCheck
  import opened ConfigEmit
  import opened Scalars
  import opened SchemaMeaning
  import SchemaTree

  // ---- what the specifications ask of keyword values -------------------------------------

  predicate IsTypeName(s: string) {
    s in {"null", "boolean", "object", "array", "number", "string", "integer"}
  }

  /** An array of strings, no two alike. */
  predicate UniqueStrings(v: Json) {
    && v.Arr?
    && (forall i | 0 <= i < |v.items| :: v.items[i].Str?)
    && AllDistinct(v.items)
  }

  predicate IsThen(name: string) {
    name == "then"
  }

  predicate SchemaList(v: Json)
    decreases v, 0
  {
    v.Arr? && v.items != [] && forall i | 0 <= i < |v.items| :: ValidSchema(v.items[i])
  }

  predicate ValueValid(k: Keyword, v: Json)
    decreases v, 2
  {
    match k
    case KType => v.Str? && IsTypeName(v.s)
    case KConst => true
    case KEnum => v.Arr?
    case KPattern => v.Str?
    case KMinLength => v.Int? && v.i >= 0
    case KMinItems => v.Int? && v.i >= 0
    case KMaxItems => v.Int? && v.i >= 0
    case KMinimum => v.Int? || v.Double?
    case KMaximum => v.Int? || v.Double?
    case KExclusiveMinimum => v.Int? || v.Double?
    case KExclusiveMaximum => v.Int? || v.Double?
    case KNot => ValidSchema(v)
    case KIf => ValidSchema(v)
    case KItems => ValidSchema(v)
    case KAdditional => ValidSchema(v)
    case KAllOf => SchemaList(v)
    case KAnyOf => SchemaList(v)
    case KOneOf => SchemaList(v)
    case KProperties => v.Obj? && forall p | p in v.entries :: ValidSchema(p.1)
    case KRequired => UniqueStrings(v)
    case KDependent => v.Obj? && forall p | p in v.entries :: UniqueStrings(p.1)
    case KUniqueItems => v.Bool?
    case KAnolisUnique => true
    case Annotation => true
  }

  predicate EntryValid(e: (string, Json))
    decreases e.1, 3
  {
    if IsThen(e.0) then ValidSchema(e.1) else ValueValid(KeywordOf(e.0), e.1)
  }

  /** Every keyword, at every depth, has a value its specification allows. */
  predicate ValidSchema(j: Json)
    decreases j, 1
  {
    match j
    case Bool(_) => true
    case Obj(entries) => forall e | e in entries :: EntryValid(e)
    case _ => false
  }

  // ---- what a declaration must avoid -------------------------------------------------------

  /** No branch requires a key twice, and every item count fits int64, at any depth. */
  predicate EmitsValid(o: ObjectSpec) {
    && (forall c | c in o.conditionals :: AllDistinct(c.requireKeys))
    && (forall m | m in o.members :: EmitsValidIn(m.decl))
  }

  predicate EmitsValidIn(d: Declaration) {
    match d
    case Scalar(_) => true
    case Nested(o) => EmitsValid(o)
    case Listed(a) =>
      && CountFits(a.minItems) && CountFits(a.maxItems)
      && (a.item.ObjectItem? ==> EmitsValid(a.item.child))
  }

  // ---- part by part -----------------------------------------------------------------------

  predicate PartValid(part: seq<(string, Json)>) {
    forall e | e in part :: EntryValid(e)
  }

  predicate AllPartsValid(parts: seq<seq<(string, Json)>>) {
    forall i | 0 <= i < |parts| :: PartValid(parts[i])
  }

  lemma FlatValid(parts: seq<seq<(string, Json)>>)
    ensures ValidSchema(Obj(Flatten(parts))) <==> AllPartsValid(parts)
  {
    hide EntryValid;
    forall e: (string, Json) ensures e in Flatten(parts) <==> exists i :: 0 <= i < |parts| && e in parts[i] {
      InFlatten(parts, e);
    }
  }

  lemma NamedValid(part: seq<(string, Json)>, name: string, k: Keyword, v: Json)
    requires (part == [] || part == [(name, v)]) && KeywordOf(name) == k && !IsThen(name)
    ensures PartValid(part) <==> part == [] || ValueValid(k, v)
  {
    hide KeywordOf, IsThen, ValueValid;
    if part != [] { assert (name, v) in part; }
  }

  lemma AnnotationsValid(part: seq<(string, Json)>)
    requires forall e | e in part :: KeywordOf(e.0) == Annotation && !IsThen(e.0)
    ensures PartValid(part)
  {
    hide KeywordOf, IsThen;
    forall e | e in part ensures EntryValid(e) {
      assert ValueValid(Annotation, e.1);
    }
  }

  lemma AppendedValid(a: seq<(string, Json)>, b: seq<(string, Json)>)
    ensures PartValid(a + b) <==> PartValid(a) && PartValid(b)
  {
    hide EntryValid;
    assert forall e :: e in a + b <==> e in a || e in b;
  }

  lemma WholeValid(es: seq<(string, Json)>)
    ensures ValidSchema(Obj(es)) <==> PartValid(es)
  {
    hide EntryValid;
  }

  lemma NotThen(name: string)
    requires |name| != 4
    ensures !IsThen(name)
  {
  }

  lemma TypeIsNotThen()
    ensures !IsThen("type") && !IsThen("enum") && IsThen("then")
  {
    assert "type"[1] != "then"[1] && "enum"[0] != "then"[0];
  }

  lemma TypeValid(part: seq<(string, Json)>, name: string)
    requires part == [("type", Str(name))] && IsTypeName(name)
    ensures PartValid(part)
  {
    hide KeywordOf, IsThen, IsTypeName;
    ShortNames();
    TypeIsNotThen();
    NamedValid(part, "type", KType, Str(name));
  }

  lemma TypeNames()
    ensures IsTypeName("boolean") && IsTypeName("object") && IsTypeName("array") && IsTypeName("number")
    ensures IsTypeName("string") && IsTypeName("integer")
  {
  }

  lemma PrefixValid(title: string, description: string)
    ensures PartValid(Prefix(title, description))
  {
    hide KeywordOf, IsThen;
    FiveLetterNames();
    LongNames();
    NotThen("title");
    NotThen("description");
    AnnotationsValid(Prefix(title, description));
  }

  lemma SuffixValid(f: FieldSpec)
    ensures PartValid(Suffix(f))
  {
    hide KeywordOf, IsThen;
    LongNames();
    NotThen("x-anolis-placeholder");
    NotThen("x-anolis-unique");
    var a := When(f.placeholder != "", ("x-anolis-placeholder", Str(f.placeholder)));
    var b := When(f.unique, ("x-anolis-unique", Bool(true)));
    AnnotationsValid(a);
    NamedValid(b, "x-anolis-unique", KAnolisUnique, Bool(true));
    AppendedValid(a, b);
  }

  lemma DefaultValid(part: seq<(string, Json)>)
    requires forall e | e in part :: e.0 == "default"
    ensures PartValid(part)
  {
    hide KeywordOf, IsThen;
    SevenAndEightLetterNames();
    NotThen("default");
    AnnotationsValid(part);
  }

  /** A bound keyword with a number. */
  lemma BoundValid(part: seq<(string, Json)>, name: string)
    requires KeywordOf(name) in {KMinimum, KMaximum, KExclusiveMinimum, KExclusiveMaximum} && !IsThen(name)
    requires forall e | e in part :: e.0 == name && (e.1.Int? || e.1.Double?)
    ensures PartValid(part)
  {
    hide KeywordOf, IsThen;
    forall e | e in part ensures EntryValid(e) {
      assert ValueValid(KeywordOf(name), e.1);
    }
  }

  lemma BoundsAreNotThen()
    ensures !IsThen("minimum") && !IsThen("maximum") && !IsThen("exclusiveMinimum") && !IsThen("exclusiveMaximum")
  {
  }

  // ---- fields ---------------------------------------------------------------------------------

  lemma ConstValid(v: Json)
    ensures ValidSchema(Obj([("const", v)]))
  {
    hide KeywordOf, IsThen, ValidSchema, PartValid;
    FiveLetterNames();
    NotThen("const");
    NamedValid([("const", v)], "const", KConst, v);
    WholeValid([("const", v)]);
  }

  lemma OptionValid(e: EnumValue)
    ensures ValidSchema(TitledOption(e))
  {
    hide KeywordOf, IsThen, ValidSchema, PartValid;
    FiveLetterNames();
    NotThen("const");
    NotThen("title");
    var a, b := [("const", Str(e.value))], When(e.title != "", ("title", Str(e.title)));
    NamedValid(a, "const", KConst, Str(e.value));
    AnnotationsValid(b);
    AppendedValid(a, b);
    WholeValid(a + b);
  }

  lemma EnumValid(f: FieldSpec)
    ensures PartValid(When(f.enumValues != [], EnumEntry(f)))
  {
    hide KeywordOf, IsThen, TitledOption;
    ShortNames();
    FiveLetterNames();
    TypeIsNotThen();
    NotThen("oneOf");
    if f.enumValues != [] {
      var e := EnumEntry(f);
      if AnyTitle(f) {
        forall i | 0 <= i < |e.1.items| ensures ValidSchema(e.1.items[i]) {
          OptionValid(f.enumValues[i]);
        }
        assert SchemaList(e.1);
        NamedValid([e], "oneOf", KOneOf, e.1);
      } else {
        NamedValid([e], "enum", KEnum, e.1);
      }
    }
  }

  lemma NotSchemaValid(f: FieldSpec)
    requires f.forbidden != []
    ensures ValidSchema(NotSchema(f))
  {
    hide KeywordOf, IsThen, ValidSchema, PartValid;
    ShortNames();
    TypeIsNotThen();
    if |f.forbidden| == 1 {
      ConstValid(Str(f.forbidden[0].value));
    } else {
      var v := Arr(Strings(ForbiddenTexts(f)));
      NamedValid([("enum", v)], "enum", KEnum, v);
      WholeValid([("enum", v)]);
    }
  }

  lemma TextEntryValid(part: seq<(string, Json)>, name: string, k: Keyword, text: Option<string>)
    requires part == TextEntry(name, text) && KeywordOf(name) == k && !IsThen(name) && k in {KConst, KPattern}
    ensures PartValid(part)
  {
    hide KeywordOf, IsThen, PartValid;
    if text.Some? { NamedValid(part, name, k, Str(text.value)); } else { NothingValid(); }
  }

  lemma NonEmptyValid(f: FieldSpec)
    ensures PartValid(When(f.nonEmpty, ("minLength", Int(1))))
  {
    hide KeywordOf, IsThen, PartValid;
    LongNames();
    NotThen("minLength");
    NamedValid(When(f.nonEmpty, ("minLength", Int(1))), "minLength", KMinLength, Int(1));
    NothingValid();
  }

  lemma ForbiddenValid(f: FieldSpec)
    ensures PartValid(When(f.forbidden != [], ("not", NotSchema(f))))
  {
    hide KeywordOf, IsThen, PartValid, NotSchema, ValidSchema;
    ShortNames();
    NotThen("not");
    if f.forbidden != [] { NotSchemaValid(f); }
    NamedValid(When(f.forbidden != [], ("not", NotSchema(f))), "not", KNot, NotSchema(f));
    NothingValid();
  }

  lemma StringFieldValid(f: FieldSpec)
    ensures ValidSchema(Obj(Flatten(StringParts(f))))
  {
    hide KeywordOf, IsThen, Flatten, Prefix, Suffix, EnumEntry, NotSchema, PartValid, ValidSchema, IsTypeName;
    var ps := StringParts(f);
    FlatValid(ps);
    FiveLetterNames();
    SevenAndEightLetterNames();
    TypeNames();
    TypeValid(ps[0], "string");
    PrefixValid(f.title, f.description);
    NotThen("const");
    TextEntryValid(ps[2], "const", KConst, f.constValue);
    EnumValid(f);
    NotThen("pattern");
    TextEntryValid(ps[4], "pattern", KPattern, f.pattern);
    NonEmptyValid(f);
    ForbiddenValid(f);
    DefaultValid(ps[7]);
    SuffixValid(f);
  }

  lemma NothingValid()
    ensures PartValid([])
  {
  }

  lemma IntegerFieldValid(f: FieldSpec)
    ensures ValidSchema(Obj(Flatten(IntegerParts(f))))
  {
    hide KeywordOf, IsThen, Flatten, Prefix, Suffix, PartValid, ValidSchema, IsTypeName;
    var ps := IntegerParts(f);
    FlatValid(ps);
    BoundNames();
    BoundsAreNotThen();
    TypeNames();
    TypeValid(ps[0], "integer");
    PrefixValid(f.title, f.description);
    BoundValid(ps[2], "minimum");
    BoundValid(ps[3], "maximum");
    DefaultValid(ps[4]);
    SuffixValid(f);
  }

  lemma NumberFieldValid(f: FieldSpec)
    ensures ValidSchema(Obj(Flatten(NumberParts(f))))
  {
    hide KeywordOf, IsThen, Flatten, Prefix, Suffix, PartValid, ValidSchema, IsTypeName;
    var ps := NumberParts(f);
    FlatValid(ps);
    BoundNames();
    BoundsAreNotThen();
    TypeNames();
    TypeValid(ps[0], "number");
    PrefixValid(f.title, f.description);
    BoundValid(ps[2], "minimum");
    BoundValid(ps[3], "exclusiveMinimum");
    BoundValid(ps[4], "maximum");
    BoundValid(ps[5], "exclusiveMaximum");
    DefaultValid(ps[6]);
    SuffixValid(f);
  }

  lemma BooleanFieldValid(f: FieldSpec)
    ensures ValidSchema(Obj(Flatten(BooleanParts(f))))
  {
    hide KeywordOf, IsThen, Flatten, Prefix, Suffix, PartValid, ValidSchema, IsTypeName;
    var ps := BooleanParts(f);
    FlatValid(ps);
    TypeNames();
    TypeValid(ps[0], "boolean");
    PrefixValid(f.title, f.description);
    DefaultValid(ps[2]);
    SuffixValid(f);
  }

  lemma AddressIntegerValid()
    ensures ValidSchema(ADDRESS_INTEGER)
  {
    hide KeywordOf, IsThen, IsTypeName;
    ShortNames();
    BoundNames();
    TypeIsNotThen();
    BoundsAreNotThen();
    TypeNames();
  }

  lemma AddressStringValid()
    ensures ValidSchema(ADDRESS_STRING)
  {
    hide KeywordOf, IsThen, IsTypeName;
    ShortNames();
    SevenAndEightLetterNames();
    TypeIsNotThen();
    NotThen("pattern");
    TypeNames();
  }

  lemma AddressFormsValid()
    ensures ValueValid(KAnyOf, Arr([ADDRESS_INTEGER, ADDRESS_STRING]))
  {
    hide ValidSchema, ADDRESS_INTEGER, ADDRESS_STRING;
    AddressIntegerValid();
    AddressStringValid();
    assert SchemaList(Arr([ADDRESS_INTEGER, ADDRESS_STRING]));
  }

  lemma AddressFieldValid(f: FieldSpec)
    ensures ValidSchema(Obj(Flatten(AddressParts(f))))
  {
    hide KeywordOf, IsThen, Flatten, Prefix, Suffix, PartValid, ValidSchema, SchemaList, ADDRESS_INTEGER, ADDRESS_STRING,
      ValueValid, EntryValid;
    AddressFormsValid();
    var ps := AddressParts(f);
    FlatValid(ps);
    FiveLetterNames();
    LongNames();
    PrefixValid(f.title, f.description);
    NotThen("anyOf");
    NamedValid(ps[1], "anyOf", KAnyOf, Arr([ADDRESS_INTEGER, ADDRESS_STRING]));
    DefaultValid(ps[2]);
    NotThen("x-anolis-type");
    AnnotationsValid(ps[3]);
    SuffixValid(f);
  }

  lemma FieldValid(f: FieldSpec)
    ensures ValidSchema(EmitField(f))
  {
    hide ValidSchema, Flatten, StringParts, IntegerParts, NumberParts, BooleanParts, AddressParts;
    match f.kind
    case StringKind => StringFieldValid(f);
    case IntegerKind => IntegerFieldValid(f);
    case NumberKind => NumberFieldValid(f);
    case BooleanKind => BooleanFieldValid(f);
    case I2cAddressKind => AddressFieldValid(f);
  }

  // ---- conditionals and key lists -------------------------------------------------------------

  lemma StringsUnique(keys: seq<string>)
    ensures UniqueStrings(Arr(Strings(keys))) <==> AllDistinct(keys)
  {
    var items := Strings(keys);
    assert forall i, j | 0 <= i < j < |keys| :: items[i] == items[j] <==> keys[i] == keys[j];
  }

  lemma ForbiddingValid(keys: seq<string>)
    ensures ValueValid(KProperties, Obj(Forbidding(keys)))
  {
    assert forall e | e in Forbidding(keys) :: e.1 == Bool(false);
  }

  lemma ThenValid(c: Conditional)
    ensures ValidSchema(ThenSchema(c)) <==> AllDistinct(c.requireKeys)
  {
    hide KeywordOf, IsThen, AllDistinct, UniqueStrings;
    SevenAndEightLetterNames();
    LongNames();
    NotThen("required");
    NotThen("properties");
    StringsUnique(c.requireKeys);
    ForbiddingValid(c.forbidKeys);
    var a := When(c.requireKeys != [], ("required", Arr(Strings(c.requireKeys))));
    var b := When(c.forbidKeys != [], ("properties", Obj(Forbidding(c.forbidKeys))));
    NamedValid(a, "required", KRequired, Arr(Strings(c.requireKeys)));
    NamedValid(b, "properties", KProperties, Obj(Forbidding(c.forbidKeys)));
    hide ValueValid, EntryValid;
    if c.requireKeys == [] { NoneDistinct(); }
    assert forall e :: e in a + b <==> e in a || e in b;
  }

  lemma NoneDistinct()
    ensures AllDistinct<string>([])
  {
  }

  lemma IfValid(c: Conditional)
    ensures ValidSchema(IfSchema(c))
  {
    hide KeywordOf, IsThen, ValidSchema, PartValid;
    SevenAndEightLetterNames();
    LongNames();
    NotThen("required");
    NotThen("properties");
    ConstValid(Str(c.equals));
    var inner := Obj([(c.key, Obj([("const", Str(c.equals))]))]);
    assert forall p | p in inner.entries :: ValidSchema(p.1);
    assert AllDistinct([Str(c.key)]);
    var a, b := [("properties", inner)], [("required", Arr([Str(c.key)]))];
    NamedValid(a, "properties", KProperties, inner);
    NamedValid(b, "required", KRequired, Arr([Str(c.key)]));
    AppendedValid(a, b);
    WholeValid(a + b);
    assert IfSchema(c).entries == a + b;
  }

  lemma BranchValid(c: Conditional)
    ensures ValidSchema(Branch(c)) <==> AllDistinct(c.requireKeys)
  {
    hide KeywordOf, IsThen, AllDistinct, IfSchema, ThenSchema, ValidSchema, PartValid;
    ShortNames();
    TypeIsNotThen();
    NotThen("if");
    IfValid(c);
    ThenValid(c);
    var a, b := [("if", IfSchema(c))], [("then", ThenSchema(c))];
    NamedValid(a, "if", KIf, IfSchema(c));
    ThenEntryValid(b, ThenSchema(c));
    AppendedValid(a, b);
    WholeValid(a + b);
    assert Branch(c).entries == a + b;
  }

  lemma ThenEntryValid(part: seq<(string, Json)>, v: Json)
    requires part == [("then", v)]
    ensures PartValid(part) <==> ValidSchema(v)
  {
    hide IsThen, ValidSchema, ValueValid;
    TypeIsNotThen();
    assert part[0] in part;
  }

  lemma BranchesValid(cs: seq<Conditional>)
    requires cs != []
    ensures ValueValid(KAllOf, Arr(Branches(cs))) <==> forall c | c in cs :: AllDistinct(c.requireKeys)
  {
    hide ValidSchema, Branch, AllDistinct;
    forall i | 0 <= i < |cs| ensures ValidSchema(Branches(cs)[i]) <==> AllDistinct(cs[i].requireKeys) {
      BranchValid(cs[i]);
    }
    assert forall c | c in cs :: exists i | 0 <= i < |cs| :: c == cs[i];
    assert forall i | 0 <= i < |cs| :: cs[i] in cs;
  }

  lemma DependentsValid(ds: seq<Dependent>)
    requires forall d | d in ds :: AllDistinct(d.alsoRequired)
    ensures ValueValid(KDependent, Obj(DependentEntries(ds)))
  {
    hide UniqueStrings, AllDistinct;
    var es := DependentEntries(ds);
    forall i | 0 <= i < |ds| ensures UniqueStrings(es[i].1) {
      assert ds[i] in ds;
      StringsUnique(ds[i].alsoRequired);
    }
    assert forall e | e in es :: exists i | 0 <= i < |es| :: e == es[i];
  }

  lemma {:induction false} RequiredDistinct(ms: seq<Member>)
    requires forall i, j | 0 <= i < j < |ms| :: ms[i].key != ms[j].key
    ensures AllDistinct(RequiredKeys(ms))
  {
    if ms != [] {
      var key, rest := ms[0].key, RequiredKeys(ms[1..]);
      RequiredDistinct(ms[1..]);
      SchemaTree.RequiredKeysMembers(ms[1..]);
      forall m | m in ms[1..] ensures m.key != key {
        var i :| 1 <= i < |ms| && m == ms[i];
      }
      assert key !in rest;
      assert forall i | 0 <= i < |rest| :: rest[i] in rest;
      assert RequiredKeys(ms) == When(ms[0].required, key) + rest;
    }
  }

  // ---- containers -------------------------------------------------------------------------------

  lemma CountValid(part: seq<(string, Json)>, name: string, n: Option<SizeT>)
    requires part == CountEntry(name, n) && KeywordOf(name) in {KMinItems, KMaxItems} && !IsThen(name)
    ensures PartValid(part) <==> CountFits(n)
  {
    hide KeywordOf, IsThen, PartValid;
    if n.Some? { NamedValid(part, name, KeywordOf(name), Int(ToInt64(n.value))); } else { NothingValid(); }
  }

  lemma ItemValid(lib: Library, a: ArraySpec)
    requires ArrayBuilt(a) && ArrayOk(lib, a)
    ensures ValidSchema(EmitItem(a.item)) <==> (a.item.ObjectItem? ==> EmitsValid(a.item.child))
    decreases a, 0
  {
    hide ValidSchema, EmitField, EmitObject, EmitsValid;
    match a.item
    case ScalarItem(f) => FieldValid(f);
    case ObjectItem(o) => ObjectValid(lib, o, true);
  }

  lemma ArrayPartsValid(a: ArraySpec)
    ensures ValidSchema(EmitArray(a)) <==>
      ValidSchema(EmitItem(a.item)) && CountFits(a.minItems) && CountFits(a.maxItems)
  {
    hide KeywordOf, IsThen, Flatten, Prefix, PartValid, ValidSchema, EmitItem, CountEntry, CountFits, IsTypeName;
    var ps := ArrayParts(a);
    FlatValid(ps);
    FiveLetterNames();
    SevenAndEightLetterNames();
    LongNames();
    TypeNames();
    TypeValid(ps[0], "array");
    PrefixValid(a.title, a.description);
    NotThen("items");
    NamedValid(ps[2], "items", KItems, EmitItem(a.item));
    NotThen("minItems");
    NotThen("maxItems");
    CountValid(ps[3], "minItems", a.minItems);
    CountValid(ps[4], "maxItems", a.maxItems);
    NotThen("uniqueItems");
    NotThen("x-anolis-unique");
    NamedValid(ps[5], "uniqueItems", KUniqueItems, Bool(true));
    NamedValid(ps[6], "x-anolis-unique", KAnolisUnique, Bool(true));
    SevenPartsValid(ps);
  }

  lemma SevenPartsValid(ps: seq<seq<(string, Json)>>)
    requires |ps| == 7
    ensures AllPartsValid(ps) <==> PartValid(ps[0]) && PartValid(ps[1]) && PartValid(ps[2]) && PartValid(ps[3])
                                   && PartValid(ps[4]) && PartValid(ps[5]) && PartValid(ps[6])
  {
    hide PartValid;
  }

  lemma DeclarationValid(lib: Library, m: Member, inItem: bool)
    requires MemberBuilt(m) && MemberOk(lib, m, inItem)
    ensures ValidSchema(EmitDeclaration(m.decl)) <==> EmitsValidIn(m.decl)
    decreases m, 0
  {
    hide ValidSchema, EmitField, EmitArray, EmitObject, EmitsValid, FieldOk, ObjectOk, ObjectBuilt, FieldBuilt, EmitItem;
    match m.decl
    case Scalar(f) => FieldValid(f);
    case Nested(o) => ObjectValid(lib, o, false);
    case Listed(a) =>
      ItemValid(lib, a);
      ArrayPartsValid(a);
  }

  lemma PropertiesValid(lib: Library, o: ObjectSpec, inItem: bool)
    requires ObjectBuilt(o) && ObjectOk(lib, o, inItem)
    ensures ValueValid(KProperties, Obj(Properties(o.members))) <==>
      forall m | m in o.members :: EmitsValidIn(m.decl)
    decreases o, 0
  {
    hide ValidSchema, EmitDeclaration, EmitsValidIn, ObjectOk, ObjectBuilt, MemberBuilt, MemberOk;
    forall m | m in o.members ensures ValidSchema(EmitDeclaration(m.decl)) <==> EmitsValidIn(m.decl) {
      MemberParts(lib, o, inItem, m);
      DeclarationValid(lib, m, inItem);
    }
    MembersValid(o.members);
  }

  lemma MemberParts(lib: Library, o: ObjectSpec, inItem: bool, m: Member)
    requires ObjectBuilt(o) && ObjectOk(lib, o, inItem) && m in o.members
    ensures MemberBuilt(m) && MemberOk(lib, m, inItem)
  {
    hide ConditionalOk, DependentOk, MemberBuilt, MemberOk;
  }

  lemma MembersValid(ms: seq<Member>)
    requires forall m | m in ms :: ValidSchema(EmitDeclaration(m.decl)) <==> EmitsValidIn(m.decl)
    ensures ValueValid(KProperties, Obj(Properties(ms))) <==> forall m | m in ms :: EmitsValidIn(m.decl)
  {
    hide ValidSchema, EmitDeclaration, EmitsValidIn;
    var es := Properties(ms);
    assert forall i | 0 <= i < |ms| :: es[i].1 == EmitDeclaration(ms[i].decl) && es[i] in es && ms[i] in ms;
    if forall m | m in ms :: EmitsValidIn(m.decl) {
      forall e | e in es ensures ValidSchema(e.1) {
        var i :| 0 <= i < |es| && es[i] == e;
      }
    }
    if ValueValid(KProperties, Obj(es)) {
      forall m | m in ms ensures EmitsValidIn(m.decl) {
        var i :| 0 <= i < |ms| && ms[i] == m;
        assert ValidSchema(es[i].1);
      }
    }
  }

  lemma KeyListsValid(lib: Library, o: ObjectSpec, inItem: bool)
    requires ObjectBuilt(o) && ObjectOk(lib, o, inItem)
    ensures ValueValid(KRequired, Arr(Strings(RequiredKeys(o.members))))
    ensures ValueValid(KDependent, Obj(DependentEntries(o.dependents)))
  {
    hide MemberBuilt, MemberOk, ConditionalOk, DependentEntries, UniqueStrings;
    assert forall i | 0 <= i < |o.members| :: MemberKeys(o)[i] == o.members[i].key;
    RequiredDistinct(o.members);
    StringsUnique(RequiredKeys(o.members));
    DependentsValid(o.dependents);
  }

  lemma BodyNames()
    ensures KeywordOf("properties") == KProperties && KeywordOf("required") == KRequired
    ensures KeywordOf("additionalProperties") == KAdditional && KeywordOf("dependentRequired") == KDependent
    ensures KeywordOf("allOf") == KAllOf
    ensures !IsThen("properties") && !IsThen("required") && !IsThen("additionalProperties")
    ensures !IsThen("dependentRequired") && !IsThen("allOf")
  {
    hide KeywordOf;
    FiveLetterNames();
    SevenAndEightLetterNames();
    LongNames();
  }

  lemma BodyPartsValid(o: ObjectSpec, title: string, description: string)
    requires ValueValid(KRequired, Arr(Strings(RequiredKeys(o.members))))
    requires ValueValid(KDependent, Obj(DependentEntries(o.dependents)))
    ensures AllPartsValid(ObjectParts(o, title, description)) <==>
      && (o.members == [] || ValueValid(KProperties, Obj(Properties(o.members))))
      && (o.conditionals == [] || ValueValid(KAllOf, Arr(Branches(o.conditionals))))
  {
    hide KeywordOf, IsThen, Prefix, PartValid, ValueValid, Properties, RequiredKeys, DependentEntries, Branches,
      IsTypeName;
    var ps := ObjectParts(o, title, description);
    BodyNames();
    TypeNames();
    TypeValid(ps[0], "object");
    PrefixValid(title, description);
    NamedValid(ps[2], "properties", KProperties, Obj(Properties(o.members)));
    NamedValid(ps[3], "required", KRequired, Arr(Strings(RequiredKeys(o.members))));
    FalseIsSchema();
    NamedValid(ps[4], "additionalProperties", KAdditional, Bool(false));
    NamedValid(ps[5], "dependentRequired", KDependent, Obj(DependentEntries(o.dependents)));
    NamedValid(ps[6], "allOf", KAllOf, Arr(Branches(o.conditionals)));
    SevenPartsValid(ps);
  }

  lemma FalseIsSchema()
    ensures ValueValid(KAdditional, Bool(false))
  {
  }

  lemma BodyValid(lib: Library, o: ObjectSpec, inItem: bool, title: string, description: string)
    requires ObjectBuilt(o) && ObjectOk(lib, o, inItem)
    ensures AllPartsValid(ObjectParts(o, title, description)) <==> EmitsValid(o)
    decreases o, 1
  {
    hide ObjectBuilt, ObjectOk, AllPartsValid, ObjectParts, ValueValid, Properties, RequiredKeys, DependentEntries,
      Branches, AllDistinct, EmitsValidIn;
    PropertiesValid(lib, o, inItem);
    KeyListsValid(lib, o, inItem);
    if o.conditionals != [] { BranchesValid(o.conditionals); }
    BodyPartsValid(o, title, description);
  }

  /**
   For every declaration tree the checks accept: the emitted object is a valid schema
   exactly when no branch requires a key twice and every item count fits int64.
   */
  lemma {:induction false} ObjectValid(lib: Library, o: ObjectSpec, inItem: bool)
    requires ObjectBuilt(o) && ObjectOk(lib, o, inItem)
    ensures ValidSchema(EmitObject(o)) <==> EmitsValid(o)
    decreases o, 2
  {
    hide ObjectBuilt, ObjectOk, AllPartsValid, ObjectParts, ValidSchema, EmitsValid, Flatten;
    BodyValid(lib, o, inItem, o.title, o.description);
    FlatValid(ObjectParts(o, o.title, o.description));
  }

  lemma LeadValid(s: SchemaSpec)
    ensures AllPartsValid(RootLead(s))
  {
    hide KeywordOf, IsThen;
    SchemaTree.LeadAnnotations();
    NotThen("$schema");
    NotThen("$id");
    AnnotationsValid(RootLead(s)[0]);
    AnnotationsValid(RootLead(s)[1]);
  }

  lemma AppendValid(a: seq<seq<(string, Json)>>, b: seq<seq<(string, Json)>>)
    ensures AllPartsValid(a + b) <==> AllPartsValid(a) && AllPartsValid(b)
  {
    hide PartValid;
    assert forall i | 0 <= i < |a| :: (a + b)[i] == a[i];
    assert forall i | 0 <= i < |b| :: (a + b)[|a| + i] == b[i];
  }

  /** The same for the whole root document. */
  lemma RootValid(lib: Library, s: SchemaSpec)
    requires ObjectBuilt(s.root) && ObjectOk(lib, s.root, false)
    ensures ValidSchema(EmitSchema(s)) <==> EmitsValid(s.root)
  {
    hide ObjectBuilt, ObjectOk, AllPartsValid, ObjectParts, ValidSchema, EmitsValid, Flatten, RootLead, RootTitle,
      RootDescription;
    var body := ObjectParts(s.root, RootTitle(s), RootDescription(s));
    BodyValid(lib, s.root, false, RootTitle(s), RootDescription(s));
    LeadValid(s);
    AppendValid(RootLead(s), body);
    FlatValid(RootLead(s) + body);
  }
}
