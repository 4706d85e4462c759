/**
 The declaration tree a provider writes once
 (src/anolis/provider_sdk/config.hpp:75-321).
 */
module ConfigSpec {
  import opened Base
  import opened Scalars

  datatype Openness = Closed | Open

  datatype FieldKind = StringKind | IntegerKind | NumberKind | BooleanKind | I2cAddressKind

  datatype EnumValue = EnumValue(value: string, title: string)

  datatype ForbiddenValue = ForbiddenValue(value: string, message: string)

  datatype FieldSpec = FieldSpec(
    key: string,
    kind: FieldKind,
    required: bool,
    nonEmpty: bool,
    unique: bool,
    pattern: Option<string>,
    enumValues: seq<EnumValue>,
    constValue: Option<string>,
    forbidden: seq<ForbiddenValue>,
    minInt: Option<int>,
    maxInt: Option<int>,
    minNumber: Option<real>,
    maxNumber: Option<real>,
    exclusiveMin: Option<real>,
    exclusiveMax: Option<real>,
    defaultString: Option<string>,
    defaultInt: Option<int>,
    defaultNumber: Option<real>,
    defaultBool: Option<bool>,
    title: string,
    description: string,
    placeholder: string)

  /** A field with nothing but its key and kind. */
  function BlankField(key: string, kind: FieldKind): FieldSpec {
    FieldSpec(key, kind, false, false, false, None, [], None, [], None, None, None, None, None, None,
              None, None, None, None, "", "", "")
  }

  datatype Item = ScalarItem(field: FieldSpec) | ObjectItem(child: ObjectSpec)

  /** `std::size_t`. */
  type SizeT = n: int | 0 <= n < 0x1_0000_0000_0000_0000

  datatype ArraySpec = ArraySpec(
    item: Item,
    minItems: Option<SizeT>,
    maxItems: Option<SizeT>,
    unique: bool,
    title: string,
    description: string)

  datatype Declaration =
    | Scalar(field: FieldSpec)
    | Nested(child: ObjectSpec)
    | Listed(list: ArraySpec)

  datatype Member = Member(key: string, required: bool, decl: Declaration)

  datatype Conditional = Conditional(key: string, equals: string, requireKeys: seq<string>, forbidKeys: seq<string>)

  datatype Dependent = Dependent(key: string, alsoRequired: seq<string>)

  datatype Deprecated = Deprecated(key: string, message: string)

  datatype ObjectSpec = ObjectSpec(
    openness: Openness,
    members: seq<Member>,
    conditionals: seq<Conditional>,
    dependents: seq<Dependent>,
    deprecated: seq<Deprecated>,
    title: string,
    description: string)

  /** A schema: the root object and its optional metadata, which overrides the root's own texts. */
  datatype SchemaSpec = SchemaSpec(
    root: ObjectSpec,
    id: Option<string>,
    title: Option<string>,
    description: Option<string>)

  /** The values of a String field's enum. */
  function EnumTexts(f: FieldSpec): (r: seq<string>)
    ensures |r| == |f.enumValues|
  {
    seq(|f.enumValues|, i requires 0 <= i < |f.enumValues| => f.enumValues[i].value)
  }

  function ForbiddenTexts(f: FieldSpec): seq<string> {
    seq(|f.forbidden|, i requires 0 <= i < |f.forbidden| => f.forbidden[i].value)
  }

  predicate AllDistinct<T(==)>(xs: seq<T>) {
    forall i, j | 0 <= i < j < |xs| :: xs[i] != xs[j]
  }

  predicate Declares(o: ObjectSpec, key: string) {
    exists m | m in o.members :: m.key == key
  }

  predicate IsDeprecated(o: ObjectSpec, key: string) {
    exists d | d in o.deprecated :: d.key == key
  }

  function MemberKeys(o: ObjectSpec): seq<string> {
    seq(|o.members|, i requires 0 <= i < |o.members| => o.members[i].key)
  }

  // ---- what the fluent builder guarantees (config.cpp:774-1086) -----------------

  predicate FieldBuilt(f: FieldSpec) {
    && f.key != ""
    && (f.kind != StringKind ==>
          !f.nonEmpty && f.pattern.None? && f.enumValues == [] && f.constValue.None?
          && f.forbidden == [] && f.defaultString.None?)
    && (f.kind != IntegerKind ==> f.minInt.None? && f.maxInt.None?)
    && (f.kind != IntegerKind && f.kind != I2cAddressKind ==> f.defaultInt.None?)
    && (f.kind != NumberKind ==>
          f.minNumber.None? && f.maxNumber.None? && f.exclusiveMin.None? && f.exclusiveMax.None?
          && f.defaultNumber.None?)
    && (f.kind != BooleanKind ==> f.defaultBool.None?)
    && !(f.minNumber.Some? && f.exclusiveMin.Some?)
    && !(f.maxNumber.Some? && f.exclusiveMax.Some?)
    && (forall n | n in [f.minInt, f.maxInt, f.defaultInt] :: n.Some? ==> IsInt64(n.value))
    && AllDistinct(EnumTexts(f))
    && AllDistinct(ForbiddenTexts(f))
  }

  predicate ArrayBuilt(a: ArraySpec) {
    && (a.unique ==> a.item.ScalarItem?)
    && (match a.item
        case ScalarItem(f) => FieldBuilt(f)
        case ObjectItem(o) => ObjectBuilt(o))
  }

  predicate MemberBuilt(m: Member) {
    match m.decl
    case Scalar(f) => FieldBuilt(f) && m.key == f.key && m.required == f.required
    case Nested(o) => ObjectBuilt(o)
    case Listed(a) => ArrayBuilt(a)
  }

  predicate ObjectBuilt(o: ObjectSpec) {
    && AllDistinct(MemberKeys(o))
    && (forall m | m in o.members :: MemberBuilt(m))
    && (forall c | c in o.conditionals :: c.requireKeys != [] || c.forbidKeys != [])
  }

  // ---- item counts ----------------------------------------------------------------

  /** `static_cast<std::int64_t>` of a size_t. */
  function ToInt64(n: SizeT): int {
    if n <= INT64_MAX then n else n - 0x1_0000_0000_0000_0000
  }

  predicate CountFits(n: Option<SizeT>) {
    n.Some? ==> n.value <= INT64_MAX
  }
}
