/**
 The JSON Schema document a declaration compiles to
 (src/anolis/provider_sdk/config.cpp:479-760). Each `When` is one conditional
 `emplace_back`.
 */
module ConfigEmit {
  import opened Base
  import opened Json
  import opened ConfigSpec
  import opened Scalars

  function Prefix(title: string, description: string): seq<(string, Json)> {
    When(title != "", ("title", Str(title))) + When(description != "", ("description", Str(description)))
  }

  function Suffix(f: FieldSpec): seq<(string, Json)> {
    When(f.placeholder != "", ("x-anolis-placeholder", Str(f.placeholder))) +
    When(f.unique, ("x-anolis-unique", Bool(true)))
  }

  predicate AnyTitle(f: FieldSpec) {
    exists e | e in f.enumValues :: e.title != ""
  }

  function TitledOption(e: EnumValue): Json {
    Obj([("const", Str(e.value))] + When(e.title != "", ("title", Str(e.title))))
  }

  function EnumEntry(f: FieldSpec): (string, Json) {
    if AnyTitle(f) then
      ("oneOf", Arr(seq(|f.enumValues|, i requires 0 <= i < |f.enumValues| => TitledOption(f.enumValues[i]))))
    else ("enum", Arr(Strings(EnumTexts(f))))
  }

  function NotSchema(f: FieldSpec): Json {
    if |f.forbidden| == 1 then Obj([("const", Str(f.forbidden[0].value))])
    else Obj([("enum", Arr(Strings(ForbiddenTexts(f))))])
  }

  function TextEntry(name: string, value: Option<string>): seq<(string, Json)> {
    if value.Some? then [(name, Str(value.value))] else []
  }

  function IntEntry(name: string, value: Option<int>): seq<(string, Json)> {
    if value.Some? then [(name, Int(value.value))] else []
  }

  function RealEntry(name: string, value: Option<real>): seq<(string, Json)> {
    if value.Some? then [(name, Double(value.value))] else []
  }

  function BoolEntry(name: string, value: Option<bool>): seq<(string, Json)> {
    if value.Some? then [(name, Bool(value.value))] else []
  }

  function CountEntry(name: string, value: Option<SizeT>): seq<(string, Json)> {
    if value.Some? then [(name, Int(ToInt64(value.value)))] else []
  }

  const DRAFT_URI := "https://json-schema.org/draft/2020-12/schema"

  const ADDRESS_INTEGER := Obj([("type", Str("integer")), ("minimum", Int(I2C_MIN)), ("maximum", Int(I2C_MAX))])
  const ADDRESS_STRING := Obj([("type", Str("string")), ("pattern", Str(I2C_HEX_PATTERN))])

  // ---- the entries of a field's schema, in the order they are pushed ------------

  function StringParts(f: FieldSpec): seq<seq<(string, Json)>> {
    [ [("type", Str("string"))],
      Prefix(f.title, f.description),
      TextEntry("const", f.constValue),
      When(f.enumValues != [], EnumEntry(f)),
      TextEntry("pattern", f.pattern),
      When(f.nonEmpty, ("minLength", Int(1))),
      When(f.forbidden != [], ("not", NotSchema(f))),
      TextEntry("default", f.defaultString),
      Suffix(f)]
  }

  function IntegerParts(f: FieldSpec): seq<seq<(string, Json)>> {
    [ [("type", Str("integer"))],
      Prefix(f.title, f.description),
      IntEntry("minimum", f.minInt),
      IntEntry("maximum", f.maxInt),
      IntEntry("default", f.defaultInt),
      Suffix(f)]
  }

  function NumberParts(f: FieldSpec): seq<seq<(string, Json)>> {
    [ [("type", Str("number"))],
      Prefix(f.title, f.description),
      RealEntry("minimum", f.minNumber),
      RealEntry("exclusiveMinimum", f.exclusiveMin),
      RealEntry("maximum", f.maxNumber),
      RealEntry("exclusiveMaximum", f.exclusiveMax),
      RealEntry("default", f.defaultNumber),
      Suffix(f)]
  }

  function BooleanParts(f: FieldSpec): seq<seq<(string, Json)>> {
    [ [("type", Str("boolean"))],
      Prefix(f.title, f.description),
      BoolEntry("default", f.defaultBool),
      Suffix(f)]
  }

  function AddressParts(f: FieldSpec): seq<seq<(string, Json)>> {
    [ Prefix(f.title, f.description),
      [("anyOf", Arr([ADDRESS_INTEGER, ADDRESS_STRING]))],
      IntEntry("default", f.defaultInt),
      [("x-anolis-type", Str("i2c_address"))],
      Suffix(f)]
  }

  function FieldParts(f: FieldSpec): seq<seq<(string, Json)>> {
    match f.kind
    case StringKind => StringParts(f)
    case IntegerKind => IntegerParts(f)
    case NumberKind => NumberParts(f)
    case BooleanKind => BooleanParts(f)
    case I2cAddressKind => AddressParts(f)
  }

  function EmitField(f: FieldSpec): Json {
    Obj(Flatten(FieldParts(f)))
  }

  function EmitItem(item: Item): Json
    decreases item, 2
  {
    match item
    case ScalarItem(f) => EmitField(f)
    case ObjectItem(o) => EmitObject(o)
  }

  function ArrayParts(a: ArraySpec): seq<seq<(string, Json)>>
    decreases a, 0
  {
    [ [("type", Str("array"))],
      Prefix(a.title, a.description),
      [("items", EmitItem(a.item))],
      CountEntry("minItems", a.minItems),
      CountEntry("maxItems", a.maxItems),
      When(a.unique, ("uniqueItems", Bool(true))),
      When(a.unique, ("x-anolis-unique", Bool(true)))]
  }

  function EmitArray(a: ArraySpec): Json
    decreases a, 1
  {
    Obj(Flatten(ArrayParts(a)))
  }

  function EmitDeclaration(d: Declaration): Json
    decreases d, 2
  {
    match d
    case Scalar(f) => EmitField(f)
    case Nested(o) => EmitObject(o)
    case Listed(a) => EmitArray(a)
  }

  function Properties(members: seq<Member>): seq<(string, Json)>
    decreases members, 3
  {
    seq(|members|, i requires 0 <= i < |members| => (members[i].key, EmitDeclaration(members[i].decl)))
  }

  function RequiredKeys(members: seq<Member>): seq<string> {
    if members == [] then []
    else When(members[0].required, members[0].key) + RequiredKeys(members[1..])
  }

  function DependentEntries(ds: seq<Dependent>): seq<(string, Json)> {
    seq(|ds|, i requires 0 <= i < |ds| => (ds[i].key, Arr(Strings(ds[i].alsoRequired))))
  }

  function Forbidding(keys: seq<string>): seq<(string, Json)> {
    seq(|keys|, i requires 0 <= i < |keys| => (keys[i], Bool(false)))
  }

  function IfSchema(c: Conditional): Json {
    Obj([("properties", Obj([(c.key, Obj([("const", Str(c.equals))]))])),
         ("required", Arr([Str(c.key)]))])
  }

  function ThenSchema(c: Conditional): Json {
    Obj(When(c.requireKeys != [], ("required", Arr(Strings(c.requireKeys)))) +
        When(c.forbidKeys != [], ("properties", Obj(Forbidding(c.forbidKeys)))))
  }

  function Branch(c: Conditional): Json {
    Obj([("if", IfSchema(c)), ("then", ThenSchema(c))])
  }

  function Branches(cs: seq<Conditional>): seq<Json> {
    seq(|cs|, i requires 0 <= i < |cs| => Branch(cs[i]))
  }

  function ObjectParts(o: ObjectSpec, title: string, description: string): seq<seq<(string, Json)>>
    decreases o, 0
  {
    [ [("type", Str("object"))],
      Prefix(title, description),
      When(o.members != [], ("properties", Obj(Properties(o.members)))),
      When(RequiredKeys(o.members) != [], ("required", Arr(Strings(RequiredKeys(o.members))))),
      When(o.openness == Closed, ("additionalProperties", Bool(false))),
      When(o.dependents != [], ("dependentRequired", Obj(DependentEntries(o.dependents)))),
      When(o.conditionals != [], ("allOf", Arr(Branches(o.conditionals))))]
  }

  function EmitObject(o: ObjectSpec): Json
    decreases o, 1
  {
    Obj(Flatten(ObjectParts(o, o.title, o.description)))
  }

  function RootTitle(s: SchemaSpec): string {
    if s.title.Some? then s.title.value else s.root.title
  }

  function RootDescription(s: SchemaSpec): string {
    if s.description.Some? then s.description.value else s.root.description
  }

  function RootLead(s: SchemaSpec): seq<seq<(string, Json)>> {
    [ [("$schema", Str(DRAFT_URI))],
      TextEntry("$id", s.id)]
  }

  function EmitSchema(s: SchemaSpec): Json {
    Obj(Flatten(RootLead(s) + ObjectParts(s.root, RootTitle(s), RootDescription(s))))
  }
}
