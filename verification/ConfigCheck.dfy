/**
 The declaration-tree checks a Schema makes when it is constructed
 (src/anolis/provider_sdk/config.cpp:160-472), as conditions on the tree.
 */
module ConfigCheck {
  import opened Base
  import opened ConfigSpec
  import opened Scalars
  import Utf8

  predicate TextOk(s: string) {
    Utf8.IsValid(s)
  }

  predicate OptionalTextOk(s: Option<string>) {
    s.Some? ==> TextOk(s.value)
  }

  predicate FieldTextsOk(f: FieldSpec) {
    && TextOk(f.key) && TextOk(f.title) && TextOk(f.description) && TextOk(f.placeholder)
    && OptionalTextOk(f.pattern)
    && (forall e | e in f.enumValues :: TextOk(e.value) && TextOk(e.title))
    && OptionalTextOk(f.constValue)
    && (forall v | v in f.forbidden :: TextOk(v.value) && TextOk(v.message))
    && OptionalTextOk(f.defaultString)
  }

  /** A value some constraint promises to accept must satisfy the others. */
  predicate SatisfiesOthers(lib: Library, f: FieldSpec, value: string) {
    && (f.nonEmpty ==> value != "")
    && value !in ForbiddenTexts(f)
    && (f.pattern.Some? ==> lib.search(f.pattern.value, value))
  }

  /** Whether the number bounds leave room: with an exclusive bound in play, not just a point. */
  predicate BoundsLeaveRoom(f: FieldSpec) {
    var lower := if f.minNumber.Some? then f.minNumber else f.exclusiveMin;
    var upper := if f.maxNumber.Some? then f.maxNumber else f.exclusiveMax;
    var exclusive := f.exclusiveMin.Some? || f.exclusiveMax.Some?;
    lower.Some? && upper.Some? ==>
      lower.value <= upper.value && (exclusive ==> lower.value != upper.value)
  }

  predicate DefaultStringOk(lib: Library, f: FieldSpec, value: string) {
    && SatisfiesOthers(lib, f, value)
    && (f.constValue.Some? ==> value == f.constValue.value)
    && (f.enumValues != [] ==> value in EnumTexts(f))
  }

  predicate DefaultIntOk(f: FieldSpec, value: int) {
    var min := if f.kind == I2cAddressKind then I2C_MIN else if f.minInt.Some? then f.minInt.value else INT64_MIN;
    var max := if f.kind == I2cAddressKind then I2C_MAX else if f.maxInt.Some? then f.maxInt.value else INT64_MAX;
    min <= value <= max
  }

  predicate DefaultNumberOk(f: FieldSpec, value: real) {
    && (f.minNumber.Some? ==> f.minNumber.value <= value)
    && (f.maxNumber.Some? ==> value <= f.maxNumber.value)
    && (f.exclusiveMin.Some? ==> f.exclusiveMin.value < value)
    && (f.exclusiveMax.Some? ==> value < f.exclusiveMax.value)
  }

  predicate FieldOk(lib: Library, f: FieldSpec, inItem: bool) {
    && FieldTextsOk(f)
    && (f.unique ==> inItem)
    && !(f.constValue.Some? && f.enumValues != [])
    && (f.minInt.Some? && f.maxInt.Some? ==> f.minInt.value <= f.maxInt.value)
    && BoundsLeaveRoom(f)
    && (f.pattern.Some? ==> lib.compiles(f.pattern.value))
    && (f.constValue.Some? ==> SatisfiesOthers(lib, f, f.constValue.value))
    && (forall v | v in EnumTexts(f) :: SatisfiesOthers(lib, f, v))
    && (f.defaultString.Some? ==> DefaultStringOk(lib, f, f.defaultString.value))
    && (f.defaultInt.Some? ==> DefaultIntOk(f, f.defaultInt.value))
    && (f.defaultNumber.Some? ==> DefaultNumberOk(f, f.defaultNumber.value))
  }

  predicate ArrayOk(lib: Library, a: ArraySpec) {
    && TextOk(a.title) && TextOk(a.description)
    && (a.minItems.Some? && a.maxItems.Some? ==> a.minItems.value <= a.maxItems.value)
    && (match a.item
        case ScalarItem(f) => !f.required && !f.unique && FieldOk(lib, f, false)
        case ObjectItem(o) => ObjectOk(lib, o, true))
  }

  predicate MemberOk(lib: Library, m: Member, inItem: bool) {
    && TextOk(m.key)
    && (match m.decl
        case Scalar(f) => FieldOk(lib, f, inItem)
        case Nested(o) => ObjectOk(lib, o, false)
        case Listed(a) => ArrayOk(lib, a))
  }

  /** The values a String member is limited to by its enum or const. */
  function Accepted(f: FieldSpec): seq<string> {
    EnumTexts(f) + (if f.constValue.Some? then [f.constValue.value] else [])
  }

  /** The discriminator is a declared String member that can take the branch's value. */
  predicate DiscriminatorOk(o: ObjectSpec, c: Conditional) {
    exists m | m in o.members ::
      m.key == c.key && m.decl.Scalar? && m.decl.field.kind == StringKind
      && (Accepted(m.decl.field) == [] || c.equals in Accepted(m.decl.field))
  }

  predicate Requires(o: ObjectSpec, key: string) {
    exists m | m in o.members :: m.required && m.key == key
  }

  predicate ConditionalOk(o: ObjectSpec, c: Conditional) {
    && TextOk(c.equals)
    && DiscriminatorOk(o, c)
    && (forall k | k in c.requireKeys :: Declares(o, k))
    && (forall k | k in c.forbidKeys :: Declares(o, k) && !Requires(o, k) && k !in c.requireKeys)
  }

  predicate DependentOk(o: ObjectSpec, d: Dependent) {
    && Declares(o, d.key)
    && (forall k | k in d.alsoRequired :: Declares(o, k) && k != d.key)
    && AllDistinct(d.alsoRequired)
  }

  function BranchIds(cs: seq<Conditional>): seq<(string, string)> {
    seq(|cs|, i requires 0 <= i < |cs| => (cs[i].key, cs[i].equals))
  }

  function DependentKeys(ds: seq<Dependent>): seq<string> {
    seq(|ds|, i requires 0 <= i < |ds| => ds[i].key)
  }

  predicate ObjectOk(lib: Library, o: ObjectSpec, inItem: bool) {
    && TextOk(o.title) && TextOk(o.description)
    && (forall m | m in o.members :: MemberOk(lib, m, inItem))
    && (forall c | c in o.conditionals :: ConditionalOk(o, c))
    && AllDistinct(BranchIds(o.conditionals))
    && (forall d | d in o.dependents :: DependentOk(o, d))
    && AllDistinct(DependentKeys(o.dependents))
    && (forall d | d in o.deprecated :: TextOk(d.key) && TextOk(d.message) && !Declares(o, d.key))
  }
}
