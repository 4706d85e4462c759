/**
 The emitter as the source runs it (src/anolis/provider_sdk/config.cpp:479-742):
 entries pushed one after another onto a growing object. ConfigEmit says what the
 result is.
 */
module ConfigEmitter {
  import opened Base
  import opened Json
  import opened ConfigSpec
  import opened ConfigEmit

  type JObject = Vector<(string, Json)>

  /** One conditional `emplace_back`. */
  method PushIf(out: JObject, c: bool, name: string, value: Json)
    modifies out
    ensures out.items == old(out.items) + When(c, (name, value))
  {
    if c {
      out.PushBack((name, value));
    }
  }

  method PushPrefix(out: JObject, title: string, description: string)
    modifies out
    ensures out.items == old(out.items) + Prefix(title, description)
  {
    PushIf(out, title != "", "title", Str(title));
    PushIf(out, description != "", "description", Str(description));
  }

  method PushSuffix(out: JObject, f: FieldSpec)
    modifies out
    ensures out.items == old(out.items) + Suffix(f)
  {
    PushIf(out, f.placeholder != "", "x-anolis-placeholder", Str(f.placeholder));
    PushIf(out, f.unique, "x-anolis-unique", Bool(true));
  }

  method PushOption(out: JObject, name: string, value: Option<Json>)
    modifies out
    ensures out.items == old(out.items) + if value.Some? then [(name, value.value)] else []
  {
    if value.Some? {
      out.PushBack((name, value.value));
    }
  }

  function AsStr(value: Option<string>): Option<Json> {
    if value.Some? then Some(Str(value.value)) else None
  }

  function AsInt(value: Option<int>): Option<Json> {
    if value.Some? then Some(Int(value.value)) else None
  }

  function AsDouble(value: Option<real>): Option<Json> {
    if value.Some? then Some(Double(value.value)) else None
  }

  method ArrayOf(values: seq<string>) returns (items: seq<Json>)
    ensures items == Strings(values)
  {
    items := [];
    for i := 0 to |values|
      invariant items == Strings(values[..i])
    {
      items := items + [Str(values[i])];
    }
    assert values[..|values|] == values;
  }

  method PushEnum(out: JObject, f: FieldSpec)
    modifies out
    ensures out.items == old(out.items) + When(f.enumValues != [], EnumEntry(f))
  {
    if f.enumValues == [] {
      return;
    }
    var anyTitle := false;
    for i := 0 to |f.enumValues|
      invariant anyTitle <==> exists k | 0 <= k < i :: f.enumValues[k].title != ""
    {
      anyTitle := anyTitle || f.enumValues[i].title != "";
    }
    assert anyTitle <==> AnyTitle(f);
    if anyTitle {
      var oneOf: seq<Json> := [];
      for i := 0 to |f.enumValues|
        invariant out.items == old(out.items)
        invariant oneOf == seq(i, k requires 0 <= k < i => TitledOption(f.enumValues[k]))
      {
        var entry: JObject := new Vector<(string, Json)>();
        entry.PushBack(("const", Str(f.enumValues[i].value)));
        PushIf(entry, f.enumValues[i].title != "", "title", Str(f.enumValues[i].title));
        assert Obj(entry.items) == TitledOption(f.enumValues[i]);
        oneOf := oneOf + [Obj(entry.items)];
      }
      assert EnumEntry(f).1.items == oneOf;
      out.PushBack(("oneOf", Arr(oneOf)));
    } else {
      var values := ArrayOf(EnumTexts(f));
      out.PushBack(("enum", Arr(values)));
    }
  }

  method PushNot(out: JObject, f: FieldSpec)
    modifies out
    ensures out.items == old(out.items) + When(f.forbidden != [], ("not", NotSchema(f)))
  {
    if f.forbidden == [] {
      return;
    }
    if |f.forbidden| == 1 {
      out.PushBack(("not", Obj([("const", Str(f.forbidden[0].value))])));
    } else {
      var values := ArrayOf(ForbiddenTexts(f));
      out.PushBack(("not", Obj([("enum", Arr(values))])));
    }
  }

  method EmitStringField(out: JObject, f: FieldSpec)
    requires out.items == []
    modifies out
    ensures out.items == Flatten(StringParts(f))
  {
    hide Flatten, Prefix, Suffix, EnumEntry, NotSchema;
    ghost var ps := StringParts(f);
    Beginning(ps);
    out.PushBack(("type", Str("string")));
    FlattenSnoc(ps, 0);
    PushPrefix(out, f.title, f.description);
    FlattenSnoc(ps, 1);
    PushOption(out, "const", AsStr(f.constValue));
    FlattenSnoc(ps, 2);
    PushEnum(out, f);
    FlattenSnoc(ps, 3);
    PushOption(out, "pattern", AsStr(f.pattern));
    FlattenSnoc(ps, 4);
    PushIf(out, f.nonEmpty, "minLength", Int(1));
    FlattenSnoc(ps, 5);
    PushNot(out, f);
    FlattenSnoc(ps, 6);
    PushOption(out, "default", AsStr(f.defaultString));
    FlattenSnoc(ps, 7);
    PushSuffix(out, f);
    FlattenSnoc(ps, 8);
    assert ps[..9] == ps;
  }

  lemma Beginning<T>(ps: seq<seq<T>>)
    ensures Flatten(ps[..0]) == []
  {
  }

  method EmitIntegerField(out: JObject, f: FieldSpec)
    requires out.items == []
    modifies out
    ensures out.items == Flatten(IntegerParts(f))
  {
    hide Flatten, Prefix, Suffix;
    ghost var ps := IntegerParts(f);
    Beginning(ps);
    out.PushBack(("type", Str("integer")));
    FlattenSnoc(ps, 0);
    PushPrefix(out, f.title, f.description);
    FlattenSnoc(ps, 1);
    PushOption(out, "minimum", AsInt(f.minInt));
    FlattenSnoc(ps, 2);
    PushOption(out, "maximum", AsInt(f.maxInt));
    FlattenSnoc(ps, 3);
    PushOption(out, "default", AsInt(f.defaultInt));
    FlattenSnoc(ps, 4);
    PushSuffix(out, f);
    FlattenSnoc(ps, 5);
    assert ps[..6] == ps;
  }

  method EmitNumberField(out: JObject, f: FieldSpec)
    requires out.items == []
    modifies out
    ensures out.items == Flatten(NumberParts(f))
  {
    hide Flatten, Prefix, Suffix;
    ghost var ps := NumberParts(f);
    Beginning(ps);
    out.PushBack(("type", Str("number")));
    FlattenSnoc(ps, 0);
    PushPrefix(out, f.title, f.description);
    FlattenSnoc(ps, 1);
    PushOption(out, "minimum", AsDouble(f.minNumber));
    FlattenSnoc(ps, 2);
    PushOption(out, "exclusiveMinimum", AsDouble(f.exclusiveMin));
    FlattenSnoc(ps, 3);
    PushOption(out, "maximum", AsDouble(f.maxNumber));
    FlattenSnoc(ps, 4);
    PushOption(out, "exclusiveMaximum", AsDouble(f.exclusiveMax));
    FlattenSnoc(ps, 5);
    PushOption(out, "default", AsDouble(f.defaultNumber));
    FlattenSnoc(ps, 6);
    PushSuffix(out, f);
    FlattenSnoc(ps, 7);
    assert ps[..8] == ps;
  }

  method EmitBooleanField(out: JObject, f: FieldSpec)
    requires out.items == []
    modifies out
    ensures out.items == Flatten(BooleanParts(f))
  {
    hide Flatten, Prefix, Suffix;
    ghost var ps := BooleanParts(f);
    Beginning(ps);
    out.PushBack(("type", Str("boolean")));
    FlattenSnoc(ps, 0);
    PushPrefix(out, f.title, f.description);
    FlattenSnoc(ps, 1);
    PushOption(out, "default", if f.defaultBool.Some? then Some(Bool(f.defaultBool.value)) else None);
    FlattenSnoc(ps, 2);
    PushSuffix(out, f);
    FlattenSnoc(ps, 3);
    assert ps[..4] == ps;
  }

  method EmitAddressField(out: JObject, f: FieldSpec)
    requires out.items == []
    modifies out
    ensures out.items == Flatten(AddressParts(f))
  {
    hide Flatten, Prefix, Suffix;
    ghost var ps := AddressParts(f);
    Beginning(ps);
    PushPrefix(out, f.title, f.description);
    FlattenSnoc(ps, 0);
    out.PushBack(("anyOf", Arr([ADDRESS_INTEGER, ADDRESS_STRING])));
    FlattenSnoc(ps, 1);
    PushOption(out, "default", AsInt(f.defaultInt));
    FlattenSnoc(ps, 2);
    out.PushBack(("x-anolis-type", Str("i2c_address")));
    FlattenSnoc(ps, 3);
    PushSuffix(out, f);
    FlattenSnoc(ps, 4);
    assert ps[..5] == ps;
  }

  method FieldTree(f: FieldSpec) returns (j: Json)
    ensures j == EmitField(f)
  {
    hide Flatten, StringParts, IntegerParts, NumberParts, BooleanParts, AddressParts;
    var out: JObject := new Vector<(string, Json)>();
    match f.kind {
      case StringKind => EmitStringField(out, f);
      case IntegerKind => EmitIntegerField(out, f);
      case NumberKind => EmitNumberField(out, f);
      case BooleanKind => EmitBooleanField(out, f);
      case I2cAddressKind => EmitAddressField(out, f);
    }
    j := Obj(out.items);
  }

  // ---- containers -----------------------------------------------------------------------------------

  method ArrayTree(a: ArraySpec) returns (j: Json)
    ensures j == EmitArray(a)
    decreases a, 1
  {
    var item := ItemTree(a.item);
    hide EmitItem, ArrayParts, Flatten;
    var entries := ArrayEntries(a, item);
    j := Obj(entries);
  }

  method ArrayEntries(a: ArraySpec, item: Json) returns (entries: seq<(string, Json)>)
    requires item == EmitItem(a.item)
    ensures entries == Flatten(ArrayParts(a))
    decreases a, 0
  {
    hide Flatten, Prefix, EmitItem, ToInt64;
    var out: JObject := new Vector<(string, Json)>();
    ghost var ps := ArrayParts(a);
    Beginning(ps);
    out.PushBack(("type", Str("array")));
    FlattenSnoc(ps, 0);
    PushPrefix(out, a.title, a.description);
    FlattenSnoc(ps, 1);
    out.PushBack(("items", item));
    FlattenSnoc(ps, 2);
    PushOption(out, "minItems", if a.minItems.Some? then Some(Int(ToInt64(a.minItems.value))) else None);
    FlattenSnoc(ps, 3);
    PushOption(out, "maxItems", if a.maxItems.Some? then Some(Int(ToInt64(a.maxItems.value))) else None);
    FlattenSnoc(ps, 4);
    PushIf(out, a.unique, "uniqueItems", Bool(true));
    FlattenSnoc(ps, 5);
    PushIf(out, a.unique, "x-anolis-unique", Bool(true));
    FlattenSnoc(ps, 6);
    assert ps[..7] == ps;
    entries := out.items;
  }

  method ItemTree(item: Item) returns (j: Json)
    ensures j == EmitItem(item)
    decreases item, 2
  {
    hide EmitObject, EmitField;
    match item
    case ScalarItem(f) => j := FieldTree(f);
    case ObjectItem(o) => j := ObjectTree(o);
  }

  method DeclarationTree(d: Declaration) returns (j: Json)
    ensures j == EmitDeclaration(d)
    decreases d, 2
  {
    hide EmitObject, EmitField, EmitArray;
    match d
    case Scalar(f) => j := FieldTree(f);
    case Nested(o) => j := ObjectTree(o);
    case Listed(a) => j := ArrayTree(a);
  }

  /** The member loop: `properties` and `required` grow side by side. */
  method MemberTrees(ms: seq<Member>) returns (properties: seq<(string, Json)>, required: seq<Json>)
    ensures properties == Properties(ms) && required == Strings(RequiredKeys(ms))
    ensures |properties| == |ms| && |required| == |RequiredKeys(ms)|
    decreases ms, 4
  {
    hide EmitDeclaration;
    properties, required := [], [];
    for i := 0 to |ms|
      invariant properties == Properties(ms)[..i]
      invariant required == Strings(RequiredKeys(ms[..i]))
    {
      var j := DeclarationTree(ms[i].decl);
      properties := properties + [(ms[i].key, j)];
      RequiredSnoc(ms[..i], ms[i]);
      assert ms[..i + 1] == ms[..i] + [ms[i]];
      if ms[i].required {
        required := required + [Str(ms[i].key)];
      }
    }
    assert ms[..|ms|] == ms;
  }

  lemma {:induction false} RequiredSnoc(ms: seq<Member>, m: Member)
    ensures RequiredKeys(ms + [m]) == RequiredKeys(ms) + When(m.required, m.key)
  {
    hide When;
    if ms == [] {
      assert RequiredKeys([m]) == When(m.required, m.key) + RequiredKeys([m][1..]);
    } else {
      RequiredSnoc(ms[1..], m);
      assert (ms + [m])[1..] == ms[1..] + [m];
    }
  }

  method DependentTrees(ds: seq<Dependent>) returns (entries: seq<(string, Json)>)
    ensures entries == DependentEntries(ds)
  {
    entries := [];
    for i := 0 to |ds|
      invariant entries == DependentEntries(ds)[..i]
    {
      var keys := ArrayOf(ds[i].alsoRequired);
      entries := entries + [(ds[i].key, Arr(keys))];
    }
  }

  method ConditionalTree(c: Conditional) returns (j: Json)
    ensures j == Branch(c)
  {
    var ifSchema := Obj([("properties", Obj([(c.key, Obj([("const", Str(c.equals))]))])),
                         ("required", Arr([Str(c.key)]))]);
    var out: JObject := new Vector<(string, Json)>();
    if c.requireKeys != [] {
      var keys := ArrayOf(c.requireKeys);
      out.PushBack(("required", Arr(keys)));
    }
    if c.forbidKeys != [] {
      var forbidden: seq<(string, Json)> := [];
      for i := 0 to |c.forbidKeys|
        invariant forbidden == Forbidding(c.forbidKeys)[..i]
        invariant out.items == When(c.requireKeys != [], ("required", Arr(Strings(c.requireKeys))))
      {
        forbidden := forbidden + [(c.forbidKeys[i], Bool(false))];
      }
      assert forbidden == Forbidding(c.forbidKeys);
      out.PushBack(("properties", Obj(forbidden)));
    }
    assert Obj(out.items) == ThenSchema(c);
    j := Obj([("if", ifSchema), ("then", Obj(out.items))]);
  }

  method ConditionalTrees(cs: seq<Conditional>) returns (branches: seq<Json>)
    ensures branches == Branches(cs)
  {
    hide Branch;
    branches := [];
    for i := 0 to |cs|
      invariant branches == Branches(cs)[..i]
    {
      var j := ConditionalTree(cs[i]);
      branches := branches + [j];
    }
  }

  /** `emit_object`, with the title and description that apply. */
  method ObjectEntries(o: ObjectSpec, title: string, description: string) returns (entries: seq<(string, Json)>)
    ensures entries == Flatten(ObjectParts(o, title, description))
    decreases o, 5
  {
    hide Flatten, Prefix, Properties, RequiredKeys, DependentEntries, Branches;
    ghost var ps := ObjectParts(o, title, description);
    var properties, required := MemberTrees(o.members);
    var dependents := DependentTrees(o.dependents);
    var branches := ConditionalTrees(o.conditionals);
    var out: JObject := new Vector<(string, Json)>();
    Beginning(ps);
    out.PushBack(("type", Str("object")));
    FlattenSnoc(ps, 0);
    PushPrefix(out, title, description);
    FlattenSnoc(ps, 1);
    PushIf(out, properties != [], "properties", Obj(properties));
    FlattenSnoc(ps, 2);
    PushIf(out, required != [], "required", Arr(required));
    FlattenSnoc(ps, 3);
    PushIf(out, o.openness == Closed, "additionalProperties", Bool(false));
    FlattenSnoc(ps, 4);
    PushIf(out, o.dependents != [], "dependentRequired", Obj(dependents));
    FlattenSnoc(ps, 5);
    PushIf(out, o.conditionals != [], "allOf", Arr(branches));
    FlattenSnoc(ps, 6);
    assert ps[..7] == ps;
    entries := out.items;
  }

  method ObjectTree(o: ObjectSpec) returns (j: Json)
    ensures j == EmitObject(o)
    decreases o, 6
  {
    hide Flatten, ObjectParts;
    var entries := ObjectEntries(o, o.title, o.description);
    j := Obj(entries);
  }

  method SchemaTree(s: SchemaSpec) returns (j: Json)
    ensures j == EmitSchema(s)
  {
    hide ObjectParts;
    var out: JObject := new Vector<(string, Json)>();
    out.PushBack(("$schema", Str(DRAFT_URI)));
    PushOption(out, "$id", AsStr(s.id));
    ghost var lead := out.items;
    var title := if s.title.Some? then s.title.value else s.root.title;
    var description := if s.description.Some? then s.description.value else s.root.description;
    var body := ObjectEntries(s.root, title, description);
    for i := 0 to |body|
      invariant out.items == lead + body[..i]
    {
      out.PushBack(body[i]);
    }
    assert body[..|body|] == body;
    LeadThenBody(RootLead(s), ObjectParts(s.root, title, description));
    j := Obj(out.items);
  }

  lemma LeadThenBody<T>(lead: seq<seq<T>>, body: seq<seq<T>>)
    requires |lead| == 2
    ensures Flatten(lead + body) == lead[0] + lead[1] + Flatten(body)
  {
    assert (lead + body)[1..][1..] == body;
    assert (lead + body)[1..][0] == lead[1];
  }
}
