/** The emitted schema means what the declaration says: the compiler half of the theorem. */
module SchemaMeaning {
  import opened Base
  import opened Json
  import opened JsonSchema
  import opened ConfigSpec
  import opened ConfigEmit
  import opened ConfigMeaning
  import opened Scalars

  /** Reads off the keyword each emitted name denotes. */
  lemma ShortNames()
    ensures KeywordOf("if") == KIf && KeywordOf("not") == KNot
    ensures KeywordOf("type") == KType && KeywordOf("enum") == KEnum && KeywordOf("then") == Annotation
  {
    assert "type"[0] != "enum"[0];
    assert "then"[1] != "type"[1] && "then"[0] != "enum"[0];
  }

  lemma FiveLetterNames()
    ensures KeywordOf("const") == KConst && KeywordOf("allOf") == KAllOf && KeywordOf("anyOf") == KAnyOf
    ensures KeywordOf("oneOf") == KOneOf && KeywordOf("items") == KItems && KeywordOf("title") == Annotation
  {
    assert "const"[4] == 't' && "title"[4] == 'e' && "items"[4] == 's';
    assert "allOf"[0] == 'a' && "anyOf"[0] == 'a' && "oneOf"[0] == 'o' && "items"[0] == 'i';
    assert "const"[0] == 'c' && "title"[0] == 't';
    assert "allOf"[1] == 'l' && "anyOf"[1] == 'n';
  }

  lemma SevenAndEightLetterNames()
    ensures KeywordOf("pattern") == KPattern && KeywordOf("minimum") == KMinimum && KeywordOf("maximum") == KMaximum
    ensures KeywordOf("default") == Annotation
    ensures KeywordOf("required") == KRequired && KeywordOf("minItems") == KMinItems
    ensures KeywordOf("maxItems") == KMaxItems
  {
    assert "pattern"[0] == 'p' && "minimum"[0] == 'm' && "maximum"[0] == 'm' && "default"[0] == 'd';
    assert "minimum"[1] == 'i' && "maximum"[1] == 'a';
    assert "required"[0] == 'r' && "minItems"[0] == 'm' && "maxItems"[0] == 'm';
    assert "minItems"[1] == 'i' && "maxItems"[1] == 'a';
  }

  lemma LongNames()
    ensures KeywordOf("minLength") == KMinLength && KeywordOf("properties") == KProperties
    ensures KeywordOf("uniqueItems") == KUniqueItems && KeywordOf("description") == Annotation
    ensures KeywordOf("x-anolis-unique") == KAnolisUnique && KeywordOf("x-anolis-type") == Annotation
    ensures KeywordOf("exclusiveMinimum") == KExclusiveMinimum && KeywordOf("exclusiveMaximum") == KExclusiveMaximum
    ensures KeywordOf("dependentRequired") == KDependent
    ensures KeywordOf("additionalProperties") == KAdditional && KeywordOf("x-anolis-placeholder") == Annotation
  {
    assert "uniqueItems"[0] == 'u' && "description"[0] == 'd';
    assert "exclusiveMinimum"[10] == 'i' && "exclusiveMaximum"[10] == 'a';
    assert "additionalProperties"[0] == 'a' && "x-anolis-placeholder"[0] == 'x';
  }

  lemma BoundNames()
    ensures KeywordOf("minimum") == KMinimum && KeywordOf("maximum") == KMaximum
    ensures KeywordOf("exclusiveMinimum") == KExclusiveMinimum && KeywordOf("exclusiveMaximum") == KExclusiveMaximum
  {
    SevenAndEightLetterNames();
    LongNames();
  }

  // ---- a schema object holds entry by entry -----------------------------------

  ghost predicate Holds(d: Dialect, schema: Json, part: seq<(string, Json)>, inst: Instance)
    requires schema.Obj?
  {
    forall e | e in part :: e in schema.entries && KeywordHolds(d, schema, e, inst)
  }

  lemma AcceptsByParts(d: Dialect, parts: seq<seq<(string, Json)>>, inst: Instance)
    ensures var schema := Obj(Flatten(parts));
      Accepts(d, schema, inst) <==> forall i | 0 <= i < |parts| :: Holds(d, schema, parts[i], inst)
  {
    forall e ensures e in Flatten(parts) <==> exists i :: 0 <= i < |parts| && e in parts[i] {
      InFlatten(parts, e);
    }
  }

  lemma PartIncluded<T>(parts: seq<seq<T>>)
    ensures forall i, e | 0 <= i < |parts| && e in parts[i] :: e in Flatten(parts)
  {
    forall i, e | 0 <= i < |parts| && e in parts[i] ensures e in Flatten(parts) {
      InFlatten(parts, e);
    }
  }

  lemma EmptyHolds(d: Dialect, schema: Json, part: seq<(string, Json)>, inst: Instance)
    requires schema.Obj? && part == []
    ensures Holds(d, schema, part, inst)
  {
  }

  lemma AnnotationsHold(d: Dialect, schema: Json, part: seq<(string, Json)>, inst: Instance)
    requires schema.Obj? && forall e | e in part :: e in schema.entries
    requires forall e | e in part :: KeywordOf(e.0) == Annotation
    ensures Holds(d, schema, part, inst)
  {
  }

  lemma TypeHolds(d: Dialect, schema: Json, part: seq<(string, Json)>, name: string, inst: Instance)
    requires schema.Obj? && part == [("type", Str(name))] && part[0] in schema.entries
    ensures Holds(d, schema, part, inst) <==> HasType(name, inst)
  {
    ShortNames();
    assert Holds(d, schema, part, inst) <==> KeywordHolds(d, schema, part[0], inst);
  }

  lemma BoundHolds(d: Dialect, schema: Json, part: seq<(string, Json)>, e: (string, Json), inst: Instance)
    requires schema.Obj? && part == [e] && e in schema.entries
    requires KeywordOf(e.0) in {KMinimum, KMaximum, KExclusiveMinimum, KExclusiveMaximum}
    ensures Holds(d, schema, part, inst) <==> Bounded(KeywordOf(e.0), e.1, inst)
  {
    assert Holds(d, schema, part, inst) <==> KeywordHolds(d, schema, e, inst);
  }

  lemma UniqueMarkHolds(d: Dialect, schema: Json, part: seq<(string, Json)>, inst: Instance)
    requires schema.Obj? && part == [("x-anolis-unique", Bool(true))] && part[0] in schema.entries
    requires !inst.List?
    ensures Holds(d, schema, part, inst)
  {
    LongNames();
    assert Holds(d, schema, part, inst) <==> KeywordHolds(d, schema, part[0], inst);
  }

  predicate Included(schema: Json, part: seq<(string, Json)>)
    requires schema.Obj?
  {
    forall e | e in part :: e in schema.entries
  }

  /** Titles and descriptions constrain nothing. */
  lemma PrefixHolds(d: Dialect, schema: Json, part: seq<(string, Json)>, title: string, description: string,
                    inst: Instance)
    requires schema.Obj? && Included(schema, part) && part == Prefix(title, description)
    ensures Holds(d, schema, part, inst)
  {
    hide KeywordHolds, KeywordOf;
    FiveLetterNames();
    LongNames();
    AnnotationsHold(d, schema, part, inst);
  }

  /** A placeholder and a field's own uniqueness mark constrain nothing. */
  lemma SuffixHolds(d: Dialect, schema: Json, part: seq<(string, Json)>, f: FieldSpec, inst: Instance)
    requires schema.Obj? && Included(schema, part) && part == Suffix(f) && !inst.List?
    ensures Holds(d, schema, part, inst)
  {
    hide KeywordHolds, KeywordOf;
    LongNames();
    var placeholder := When(f.placeholder != "", ("x-anolis-placeholder", Str(f.placeholder)));
    assert forall e | e in placeholder :: e in part;
    AnnotationsHold(d, schema, placeholder, inst);
    if f.unique {
      var mark := ("x-anolis-unique", Bool(true));
      assert mark in part;
      UniqueMarkHolds(d, schema, [mark], inst);
    }
  }

  // ---- fields, kind by kind -----------------------------------------------------

  lemma DefaultHolds(d: Dialect, schema: Json, part: seq<(string, Json)>, inst: Instance)
    requires schema.Obj? && Included(schema, part) && forall e | e in part :: e.0 == "default"
    ensures Holds(d, schema, part, inst)
  {
    hide KeywordHolds, KeywordOf;
    SevenAndEightLetterNames();
    AnnotationsHold(d, schema, part, inst);
  }

  /** An optional Number bound among the parts. */
  predicate BoundMeans(keyword: Keyword, bound: Option<real>, v: real) {
    bound.Some? ==>
      match keyword
      case KMinimum => bound.value <= v
      case KMaximum => v <= bound.value
      case KExclusiveMinimum => bound.value < v
      case _ => v < bound.value
  }

  lemma OptionalBoundHolds(d: Dialect, schema: Json, part: seq<(string, Json)>, name: string, bound: Option<real>,
                           inst: Instance)
    requires schema.Obj? && Included(schema, part) && inst.Number?
    requires KeywordOf(name) in {KMinimum, KMaximum, KExclusiveMinimum, KExclusiveMaximum}
    requires part == [] <==> bound.None?
    requires bound.Some? ==>
      |part| == 1 && part[0].0 == name && (part[0].1.Int? || part[0].1.Double?) && Lift(part[0].1) == Number(bound.value)
    ensures Holds(d, schema, part, inst) <==> BoundMeans(KeywordOf(name), bound, inst.v)
  {
    hide Holds, KeywordHolds, KeywordOf;
    if bound.None? {
      EmptyHolds(d, schema, part, inst);
    } else {
      BoundHolds(d, schema, part, part[0], inst);
    }
  }

  function AsReal(n: Option<int>): Option<real> {
    if n.Some? then Some(n.value as real) else None
  }

  lemma IntegerAgrees(d: Dialect, f: FieldSpec, inst: Instance)
    requires f.kind == IntegerKind
    ensures Accepts(d, EmitField(f), inst) <==> FieldMeans(d.search, f, inst)
  {
    hide Holds, KeywordHolds, Accepts, KeywordOf, Flatten, Prefix, Suffix;
    var schema, ps := EmitField(f), IntegerParts(f);
    AcceptsByParts(d, ps, inst);
    PartIncluded(ps);
    TypeHolds(d, schema, ps[0], "integer", inst);
    if inst.Number? {
      PrefixHolds(d, schema, ps[1], f.title, f.description, inst);
      SuffixHolds(d, schema, ps[5], f, inst);
      BoundNames();
      OptionalBoundHolds(d, schema, ps[2], "minimum", AsReal(f.minInt), inst);
      OptionalBoundHolds(d, schema, ps[3], "maximum", AsReal(f.maxInt), inst);
      DefaultHolds(d, schema, ps[4], inst);
    }
  }

  lemma RealEntryNamed(name: string, value: Option<real>)
    ensures |RealEntry(name, value)| <= 1 && forall e | e in RealEntry(name, value) :: e.0 == name
  {
  }

  lemma RealBoundHolds(d: Dialect, schema: Json, part: seq<(string, Json)>, name: string, bound: Option<real>,
                       inst: Instance)
    requires schema.Obj? && Included(schema, part) && inst.Number? && part == RealEntry(name, bound)
    requires KeywordOf(name) in {KMinimum, KMaximum, KExclusiveMinimum, KExclusiveMaximum}
    ensures Holds(d, schema, part, inst) <==> BoundMeans(KeywordOf(name), bound, inst.v)
  {
    hide Holds, KeywordHolds, KeywordOf;
    OptionalBoundHolds(d, schema, part, name, bound, inst);
  }

  lemma NumberAgrees(d: Dialect, f: FieldSpec, inst: Instance)
    requires f.kind == NumberKind
    ensures Accepts(d, EmitField(f), inst) <==> FieldMeans(d.search, f, inst)
  {
    hide Holds, KeywordHolds, Accepts, KeywordOf, Flatten, Prefix, Suffix, RealEntry;
    RealEntryNamed("default", f.defaultNumber);
    var schema, ps := EmitField(f), NumberParts(f);
    AcceptsByParts(d, ps, inst);
    PartIncluded(ps);
    TypeHolds(d, schema, ps[0], "number", inst);
    if inst.Number? {
      PrefixHolds(d, schema, ps[1], f.title, f.description, inst);
      SuffixHolds(d, schema, ps[7], f, inst);
      BoundNames();
      RealBoundHolds(d, schema, ps[2], "minimum", f.minNumber, inst);
      RealBoundHolds(d, schema, ps[3], "exclusiveMinimum", f.exclusiveMin, inst);
      RealBoundHolds(d, schema, ps[4], "maximum", f.maxNumber, inst);
      RealBoundHolds(d, schema, ps[5], "exclusiveMaximum", f.exclusiveMax, inst);
      DefaultHolds(d, schema, ps[6], inst);
    }
  }

  lemma BooleanAgrees(d: Dialect, f: FieldSpec, inst: Instance)
    requires f.kind == BooleanKind
    ensures Accepts(d, EmitField(f), inst) <==> FieldMeans(d.search, f, inst)
  {
    hide Holds, KeywordHolds, Accepts, KeywordOf, Flatten, Prefix, Suffix;
    var schema, ps := EmitField(f), BooleanParts(f);
    AcceptsByParts(d, ps, inst);
    PartIncluded(ps);
    TypeHolds(d, schema, ps[0], "boolean", inst);
    if inst.Boolean? {
      PrefixHolds(d, schema, ps[1], f.title, f.description, inst);
      SuffixHolds(d, schema, ps[3], f, inst);
      DefaultHolds(d, schema, ps[2], inst);
    }
  }

  lemma PatternHolds(d: Dialect, schema: Json, part: seq<(string, Json)>, pattern: string, inst: Instance)
    requires schema.Obj? && part == [("pattern", Str(pattern))] && part[0] in schema.entries
    requires inst.Text?
    ensures Holds(d, schema, part, inst) <==> d.search(pattern, inst.s)
  {
    SevenAndEightLetterNames();
    assert Holds(d, schema, part, inst) <==> KeywordHolds(d, schema, part[0], inst);
  }

  lemma ConstHolds(d: Dialect, schema: Json, part: seq<(string, Json)>, value: string, inst: Instance)
    requires schema.Obj? && part == [("const", Str(value))] && part[0] in schema.entries
    ensures Holds(d, schema, part, inst) <==> inst == Text(value)
  {
    FiveLetterNames();
    assert Holds(d, schema, part, inst) <==> KeywordHolds(d, schema, part[0], inst);
  }

  lemma ConstAccepts(d: Dialect, value: string, inst: Instance)
    ensures Accepts(d, Obj([("const", Str(value))]), inst) <==> inst == Text(value)
  {
    hide KeywordHolds, KeywordOf;
    var schema := Obj([("const", Str(value))]);
    ConstHolds(d, schema, schema.entries, value, inst);
  }

  lemma EnumHolds(d: Dialect, schema: Json, part: seq<(string, Json)>, values: seq<string>, inst: Instance)
    requires schema.Obj? && part == [("enum", Arr(Strings(values)))] && part[0] in schema.entries
    ensures Holds(d, schema, part, inst) <==> inst.Text? && inst.s in values
  {
    ShortNames();
    var v := Arr(Strings(values));
    assert Holds(d, schema, part, inst) <==> KeywordHolds(d, schema, part[0], inst);
    assert forall i | 0 <= i < |values| :: v.items[i] == Str(values[i]) && Lift(v.items[i]) == Text(values[i]);
    assert forall i | 0 <= i < |values| :: Same(Lift(v.items[i]), inst) <==> inst == Text(values[i]);
  }

  lemma EnumAccepts(d: Dialect, values: seq<string>, inst: Instance)
    ensures Accepts(d, Obj([("enum", Arr(Strings(values)))]), inst) <==> inst.Text? && inst.s in values
  {
    hide KeywordHolds, KeywordOf;
    var schema := Obj([("enum", Arr(Strings(values)))]);
    EnumHolds(d, schema, schema.entries, values, inst);
  }

  lemma NotHolds(d: Dialect, schema: Json, part: seq<(string, Json)>, f: FieldSpec, s: string)
    requires schema.Obj? && part == [("not", NotSchema(f))] && part[0] in schema.entries
    ensures Holds(d, schema, part, Text(s)) <==> s !in ForbiddenTexts(f)
  {
    ShortNames();
    assert Holds(d, schema, part, Text(s)) <==> KeywordHolds(d, schema, part[0], Text(s));
    if |f.forbidden| == 1 {
      ConstAccepts(d, f.forbidden[0].value, Text(s));
      assert ForbiddenTexts(f) == [f.forbidden[0].value];
    } else {
      EnumAccepts(d, ForbiddenTexts(f), Text(s));
    }
  }

  lemma MinLengthHolds(d: Dialect, schema: Json, part: seq<(string, Json)>, s: string)
    requires schema.Obj? && part == [("minLength", Int(1))] && part[0] in schema.entries
    ensures Holds(d, schema, part, Text(s)) <==> s != ""
  {
    LongNames();
    assert Holds(d, schema, part, Text(s)) <==> KeywordHolds(d, schema, part[0], Text(s));
  }

  lemma FlattenPair<T>(a: seq<T>, b: seq<T>)
    ensures Flatten([a, b]) == a + b
  {
    assert [a, b][1..] == [b] && [b][1..] == [];
    assert Flatten([b]) == b;
  }

  lemma TitledOptionAccepts(d: Dialect, e: EnumValue, s: string)
    ensures Accepts(d, TitledOption(e), Text(s)) <==> s == e.value
  {
    hide KeywordHolds, Accepts, KeywordOf;
    var ps := [[("const", Str(e.value))], When(e.title != "", ("title", Str(e.title)))];
    FlattenPair(ps[0], ps[1]);
    AcceptsByParts(d, ps, Text(s));
    PartIncluded(ps);
    FiveLetterNames();
    ConstHolds(d, TitledOption(e), ps[0], e.value, Text(s));
    AnnotationsHold(d, TitledOption(e), ps[1], Text(s));
  }

  lemma OneOfHolds(d: Dialect, schema: Json, part: seq<(string, Json)>, options: seq<Json>, inst: Instance)
    requires schema.Obj? && part == [("oneOf", Arr(options))] && part[0] in schema.entries
    ensures Holds(d, schema, part, inst) <==> ExactlyOneAccepts(d, Arr(options), inst)
  {
    hide KeywordOf, Accepts, ExactlyOneAccepts;
    FiveLetterNames();
    assert Holds(d, schema, part, inst) <==> KeywordHolds(d, schema, part[0], inst);
  }

  predicate OptionsOf(f: FieldSpec, options: seq<Json>) {
    |options| == |f.enumValues| && forall i | 0 <= i < |options| :: options[i] == TitledOption(f.enumValues[i])
  }

  lemma OptionAccepts(d: Dialect, f: FieldSpec, options: seq<Json>, i: nat, s: string)
    requires OptionsOf(f, options) && i < |options|
    ensures |options| == |EnumTexts(f)|
    ensures Accepts(d, options[i], Text(s)) <==> s == EnumTexts(f)[i]
  {
    hide Accepts, TitledOption;
    TitledOptionAccepts(d, f.enumValues[i], s);
  }

  lemma AcceptingOptionIsValue(d: Dialect, f: FieldSpec, options: seq<Json>, s: string)
    requires OptionsOf(f, options) && ExactlyOneAccepts(d, Arr(options), Text(s))
    ensures s in EnumTexts(f)
  {
    hide Accepts, OptionsOf;
    var i :| 0 <= i < |Arr(options).items| && Accepts(d, Arr(options).items[i], Text(s));
    OptionAccepts(d, f, options, i, s);
  }

  lemma ValueHasOneOption(d: Dialect, f: FieldSpec, options: seq<Json>, s: string)
    requires OptionsOf(f, options) && AllDistinct(EnumTexts(f)) && s in EnumTexts(f)
    ensures ExactlyOneAccepts(d, Arr(options), Text(s))
  {
    hide Accepts, EnumTexts, TitledOption;
    var list := Arr(options);
    var i :| 0 <= i < |EnumTexts(f)| && EnumTexts(f)[i] == s;
    forall k | 0 <= k < |list.items| ensures Accepts(d, list.items[k], Text(s)) <==> k == i {
      OptionAccepts(d, f, options, k, s);
    }
    assert Accepts(d, list.items[i], Text(s));
  }

  /** `oneOf` over titled options means exactly one; distinct values make that "some one". */
  lemma OptionsHold(d: Dialect, schema: Json, part: seq<(string, Json)>, f: FieldSpec, s: string)
    requires schema.Obj? && part == [EnumEntry(f)] && part[0] in schema.entries
    requires AllDistinct(EnumTexts(f))
    ensures Holds(d, schema, part, Text(s)) <==> s in EnumTexts(f)
  {
    hide KeywordOf, KeywordHolds, Accepts, Holds, ExactlyOneAccepts, TitledOption, AllDistinct;
    if AnyTitle(f) {
      var options := EnumEntry(f).1.items;
      OneOfHolds(d, schema, part, options, Text(s));
      if s in EnumTexts(f) { ValueHasOneOption(d, f, options, s); }
      if ExactlyOneAccepts(d, Arr(options), Text(s)) { AcceptingOptionIsValue(d, f, options, s); }
    } else {
      EnumHolds(d, schema, part, EnumTexts(f), Text(s));
    }
  }

  lemma StringConstraintsAgree(d: Dialect, f: FieldSpec, s: string)
    requires f.kind == StringKind && AllDistinct(EnumTexts(f))
    ensures var schema, ps := EmitField(f), StringParts(f);
      && (Holds(d, schema, ps[2], Text(s)) <==> (f.constValue.Some? ==> s == f.constValue.value))
      && (Holds(d, schema, ps[3], Text(s)) <==> (f.enumValues != [] ==> s in EnumTexts(f)))
      && (Holds(d, schema, ps[4], Text(s)) <==> (f.pattern.Some? ==> d.search(f.pattern.value, s)))
      && (Holds(d, schema, ps[5], Text(s)) <==> (f.nonEmpty ==> s != ""))
      && (Holds(d, schema, ps[6], Text(s)) <==> s !in ForbiddenTexts(f))
  {
    hide Holds, KeywordHolds, KeywordOf, Flatten, Prefix, Suffix, EnumEntry, NotSchema;
    var schema, ps := EmitField(f), StringParts(f);
    PartIncluded(ps);
    EmptyHolds(d, schema, [], Text(s));
    if f.constValue.Some? { ConstHolds(d, schema, ps[2], f.constValue.value, Text(s)); }
    if f.enumValues != [] { OptionsHold(d, schema, ps[3], f, s); }
    if f.pattern.Some? { PatternHolds(d, schema, ps[4], f.pattern.value, Text(s)); }
    if f.nonEmpty { MinLengthHolds(d, schema, ps[5], s); }
    if f.forbidden != [] { NotHolds(d, schema, ps[6], f, s); }
  }

  lemma StringAgrees(d: Dialect, f: FieldSpec, inst: Instance)
    requires f.kind == StringKind && AllDistinct(EnumTexts(f))
    ensures Accepts(d, EmitField(f), inst) <==> FieldMeans(d.search, f, inst)
  {
    hide Holds, KeywordHolds, Accepts, KeywordOf, EnumEntry, NotSchema, Flatten, Prefix, Suffix;
    var schema, ps := EmitField(f), StringParts(f);
    AcceptsByParts(d, ps, inst);
    PartIncluded(ps);
    TypeHolds(d, schema, ps[0], "string", inst);
    if inst.Text? {
      PrefixHolds(d, schema, ps[1], f.title, f.description, inst);
      SuffixHolds(d, schema, ps[8], f, inst);
      StringConstraintsAgree(d, f, inst.s);
      DefaultHolds(d, schema, ps[7], inst);
    }
  }

  lemma AcceptsEntryByEntry(d: Dialect, schema: Json, inst: Instance)
    requires schema.Obj?
    ensures Accepts(d, schema, inst) <==>
      forall i | 0 <= i < |schema.entries| :: Holds(d, schema, [schema.entries[i]], inst)
  {
    hide KeywordOf;
  }

  lemma AddressIntegerAccepts(d: Dialect, inst: Instance)
    ensures Accepts(d, ADDRESS_INTEGER, inst) <==>
      inst.Number? && IsWhole(inst.v) && I2C_MIN as real <= inst.v <= I2C_MAX as real
  {
    hide Holds, Accepts, KeywordHolds, KeywordOf;
    var schema := ADDRESS_INTEGER;
    AcceptsEntryByEntry(d, schema, inst);
    SevenAndEightLetterNames();
    TypeHolds(d, schema, [schema.entries[0]], "integer", inst);
    BoundHolds(d, schema, [schema.entries[1]], schema.entries[1], inst);
    BoundHolds(d, schema, [schema.entries[2]], schema.entries[2], inst);
  }

  lemma AddressStringAccepts(d: Dialect, inst: Instance)
    requires Lawful(d.search)
    ensures Accepts(d, ADDRESS_STRING, inst) <==> inst.Text? && I2cHexForm(inst.s)
  {
    hide Holds, Accepts, KeywordHolds, KeywordOf;
    var schema := ADDRESS_STRING;
    AcceptsEntryByEntry(d, schema, inst);
    TypeHolds(d, schema, [schema.entries[0]], "string", inst);
    if inst.Text? {
      PatternHolds(d, schema, [schema.entries[1]], I2C_HEX_PATTERN, inst);
    }
  }

  lemma AnyOfHolds(d: Dialect, schema: Json, part: seq<(string, Json)>, a: Json, b: Json, inst: Instance)
    requires schema.Obj? && part == [("anyOf", Arr([a, b]))] && part[0] in schema.entries
    ensures Holds(d, schema, part, inst) <==> Accepts(d, a, inst) || Accepts(d, b, inst)
  {
    hide KeywordOf;
    FiveLetterNames();
    var v := part[0].1;
    assert Holds(d, schema, part, inst) <==> KeywordHolds(d, schema, part[0], inst);
    assert v.items[0] == a && v.items[1] == b;
  }

  lemma AddressTypeHolds(d: Dialect, schema: Json, part: seq<(string, Json)>, inst: Instance)
    requires schema.Obj? && Included(schema, part) && part == [("x-anolis-type", Str("i2c_address"))]
    ensures Holds(d, schema, part, inst)
  {
    hide KeywordHolds, KeywordOf;
    LongNames();
    AnnotationsHold(d, schema, part, inst);
  }

  lemma AddressAgrees(d: Dialect, f: FieldSpec, inst: Instance)
    requires f.kind == I2cAddressKind && Lawful(d.search)
    ensures Accepts(d, EmitField(f), inst) <==> FieldMeans(d.search, f, inst)
  {
    hide Holds, KeywordHolds, Accepts, KeywordOf, Flatten, Prefix, Suffix, I2cHexForm, IsWhole;
    hide ADDRESS_INTEGER, ADDRESS_STRING;
    var schema, ps := EmitField(f), AddressParts(f);
    AcceptsByParts(d, ps, inst);
    PartIncluded(ps);
    AnyOfHolds(d, schema, ps[1], ADDRESS_INTEGER, ADDRESS_STRING, inst);
    AddressIntegerAccepts(d, inst);
    AddressStringAccepts(d, inst);
    if !inst.List? {
      PrefixHolds(d, schema, ps[0], f.title, f.description, inst);
      SuffixHolds(d, schema, ps[4], f, inst);
      DefaultHolds(d, schema, ps[2], inst);
      AddressTypeHolds(d, schema, ps[3], inst);
    }
  }

  /** For every field and every document: the emitted schema accepts exactly the field's meaning. */
  lemma FieldAgrees(d: Dialect, f: FieldSpec, inst: Instance)
    requires AllDistinct(EnumTexts(f)) && Lawful(d.search)
    ensures Accepts(d, EmitField(f), inst) <==> FieldMeans(d.search, f, inst)
  {
    hide Accepts, FieldMeans, EmitField;
    match f.kind
    case StringKind => StringAgrees(d, f, inst);
    case IntegerKind => IntegerAgrees(d, f, inst);
    case NumberKind => NumberAgrees(d, f, inst);
    case BooleanKind => BooleanAgrees(d, f, inst);
    case I2cAddressKind => AddressAgrees(d, f, inst);
  }
}
