/**
 The fluent builders of the declaration tree (src/anolis/provider_sdk/config.cpp:774-1096).
 A setter that would throw returns false and changes nothing. What the builders
 keep, FieldBuilt, ArrayBuilt and ObjectBuilt, is what the no-drift theorems assume.
 */
module ConfigBuilder {
  import opened Base
  import opened ConfigSpec
  import opened Scalars

  type Int64 = n: int | IsInt64(n)

  lemma BlankBuilt(key: string, kind: FieldKind)
    requires key != ""
    ensures FieldBuilt(BlankField(key, kind))
  {
    var f := BlankField(key, kind);
    assert EnumTexts(f) == [] && ForbiddenTexts(f) == [];
  }

  lemma SnocDistinct<T>(xs: seq<T>, x: T)
    requires AllDistinct(xs) && x !in xs
    ensures AllDistinct(xs + [x])
  {
  }

  class Field {
    var spec: FieldSpec

    ghost predicate Valid()
      reads this
    {
      FieldBuilt(spec)
    }

    /** The named constructors; the source rejects the empty key before building anything. */
    constructor (key: string, kind: FieldKind)
      requires key != ""
      ensures Valid() && spec == BlankField(key, kind)
    {
      spec := BlankField(key, kind);
      BlankBuilt(key, kind);
    }

    method Required()
      requires Valid()
      modifies this
      ensures Valid() && spec == old(spec).(required := true)
    {
      spec := spec.(required := true);
      SameTexts(old(spec), spec);
    }

    method Unique()
      requires Valid()
      modifies this
      ensures Valid() && spec == old(spec).(unique := true)
    {
      spec := spec.(unique := true);
      SameTexts(old(spec), spec);
    }

    method NonEmpty() returns (ok: bool)
      requires Valid()
      modifies this
      ensures Valid() && ok == (spec.kind == StringKind)
      ensures spec == if ok then old(spec).(nonEmpty := true) else old(spec)
    {
      ok := spec.kind == StringKind;
      if ok {
        spec := spec.(nonEmpty := true);
        SameTexts(old(spec), spec);
      }
    }

    method Pattern(regex: string) returns (ok: bool)
      requires Valid()
      modifies this
      ensures Valid() && ok == (spec.kind == StringKind)
      ensures spec == if ok then old(spec).(pattern := Some(regex)) else old(spec)
    {
      ok := spec.kind == StringKind;
      if ok {
        spec := spec.(pattern := Some(regex));
        SameTexts(old(spec), spec);
      }
    }

    /** Refused for a value already listed, so enum values stay distinct: `oneOf` means exactly one. */
    method EnumOption(value: string, title: string) returns (ok: bool)
      requires Valid()
      modifies this
      ensures Valid() && ok == (spec.kind == StringKind && value !in EnumTexts(old(spec)))
      ensures spec ==
        if ok then old(spec).(enumValues := old(spec).enumValues + [EnumValue(value, title)]) else old(spec)
    {
      if spec.kind != StringKind {
        return false;
      }
      for i := 0 to |spec.enumValues|
        invariant spec == old(spec) && value !in EnumTexts(spec)[..i]
      {
        if spec.enumValues[i].value == value {
          assert EnumTexts(spec)[i] == value;
          return false;
        }
      }
      assert EnumTexts(spec)[..|spec.enumValues|] == EnumTexts(spec);
      spec := spec.(enumValues := spec.enumValues + [EnumValue(value, title)]);
      assert EnumTexts(spec) == EnumTexts(old(spec)) + [value];
      assert ForbiddenTexts(spec) == ForbiddenTexts(old(spec));
      SnocDistinct(EnumTexts(old(spec)), value);
      return true;
    }

    method ConstValue(value: string) returns (ok: bool)
      requires Valid()
      modifies this
      ensures Valid() && ok == (spec.kind == StringKind)
      ensures spec == if ok then old(spec).(constValue := Some(value)) else old(spec)
    {
      ok := spec.kind == StringKind;
      if ok {
        spec := spec.(constValue := Some(value));
        SameTexts(old(spec), spec);
      }
    }

    method ForbidValue(value: string, message: string) returns (ok: bool)
      requires Valid()
      modifies this
      ensures Valid() && ok == (spec.kind == StringKind && value !in ForbiddenTexts(old(spec)))
      ensures spec ==
        if ok then old(spec).(forbidden := old(spec).forbidden + [ForbiddenValue(value, message)]) else old(spec)
    {
      if spec.kind != StringKind {
        return false;
      }
      for i := 0 to |spec.forbidden|
        invariant spec == old(spec) && value !in ForbiddenTexts(spec)[..i]
      {
        if spec.forbidden[i].value == value {
          assert ForbiddenTexts(spec)[i] == value;
          return false;
        }
      }
      assert ForbiddenTexts(spec)[..|spec.forbidden|] == ForbiddenTexts(spec);
      spec := spec.(forbidden := spec.forbidden + [ForbiddenValue(value, message)]);
      assert ForbiddenTexts(spec) == ForbiddenTexts(old(spec)) + [value];
      assert EnumTexts(spec) == EnumTexts(old(spec));
      SnocDistinct(ForbiddenTexts(old(spec)), value);
      return true;
    }

    method MinInt(minimum: Int64) returns (ok: bool)
      requires Valid()
      modifies this
      ensures Valid() && ok == (spec.kind == IntegerKind)
      ensures spec == if ok then old(spec).(minInt := Some(minimum)) else old(spec)
    {
      ok := spec.kind == IntegerKind;
      if ok {
        spec := spec.(minInt := Some(minimum));
        SameTexts(old(spec), spec);
      }
    }

    method MaxInt(maximum: Int64) returns (ok: bool)
      requires Valid()
      modifies this
      ensures Valid() && ok == (spec.kind == IntegerKind)
      ensures spec == if ok then old(spec).(maxInt := Some(maximum)) else old(spec)
    {
      ok := spec.kind == IntegerKind;
      if ok {
        spec := spec.(maxInt := Some(maximum));
        SameTexts(old(spec), spec);
      }
    }

    method MinNumber(minimum: Float) returns (ok: bool)
      requires Valid()
      modifies this
      ensures Valid() && ok == (spec.kind == NumberKind && minimum.Finite? && spec.exclusiveMin.None?)
      ensures spec == if ok then old(spec).(minNumber := Some(minimum.v)) else old(spec)
    {
      ok := spec.kind == NumberKind && minimum.Finite? && spec.exclusiveMin.None?;
      if ok {
        spec := spec.(minNumber := Some(minimum.v));
        SameTexts(old(spec), spec);
      }
    }

    method MaxNumber(maximum: Float) returns (ok: bool)
      requires Valid()
      modifies this
      ensures Valid() && ok == (spec.kind == NumberKind && maximum.Finite? && spec.exclusiveMax.None?)
      ensures spec == if ok then old(spec).(maxNumber := Some(maximum.v)) else old(spec)
    {
      ok := spec.kind == NumberKind && maximum.Finite? && spec.exclusiveMax.None?;
      if ok {
        spec := spec.(maxNumber := Some(maximum.v));
        SameTexts(old(spec), spec);
      }
    }

    method ExclusiveMinNumber(minimum: Float) returns (ok: bool)
      requires Valid()
      modifies this
      ensures Valid() && ok == (spec.kind == NumberKind && minimum.Finite? && spec.minNumber.None?)
      ensures spec == if ok then old(spec).(exclusiveMin := Some(minimum.v)) else old(spec)
    {
      ok := spec.kind == NumberKind && minimum.Finite? && spec.minNumber.None?;
      if ok {
        spec := spec.(exclusiveMin := Some(minimum.v));
        SameTexts(old(spec), spec);
      }
    }

    method ExclusiveMaxNumber(maximum: Float) returns (ok: bool)
      requires Valid()
      modifies this
      ensures Valid() && ok == (spec.kind == NumberKind && maximum.Finite? && spec.maxNumber.None?)
      ensures spec == if ok then old(spec).(exclusiveMax := Some(maximum.v)) else old(spec)
    {
      ok := spec.kind == NumberKind && maximum.Finite? && spec.maxNumber.None?;
      if ok {
        spec := spec.(exclusiveMax := Some(maximum.v));
        SameTexts(old(spec), spec);
      }
    }

    method DefaultString(value: string) returns (ok: bool)
      requires Valid()
      modifies this
      ensures Valid() && ok == (spec.kind == StringKind)
      ensures spec == if ok then old(spec).(defaultString := Some(value)) else old(spec)
    {
      ok := spec.kind == StringKind;
      if ok {
        spec := spec.(defaultString := Some(value));
        SameTexts(old(spec), spec);
      }
    }

    method DefaultInt(value: Int64) returns (ok: bool)
      requires Valid()
      modifies this
      ensures Valid() && ok == (spec.kind == IntegerKind || spec.kind == I2cAddressKind)
      ensures spec == if ok then old(spec).(defaultInt := Some(value)) else old(spec)
    {
      ok := spec.kind == IntegerKind || spec.kind == I2cAddressKind;
      if ok {
        spec := spec.(defaultInt := Some(value));
        SameTexts(old(spec), spec);
      }
    }

    method DefaultNumber(value: Float) returns (ok: bool)
      requires Valid()
      modifies this
      ensures Valid() && ok == (spec.kind == NumberKind && value.Finite?)
      ensures spec == if ok then old(spec).(defaultNumber := Some(value.v)) else old(spec)
    {
      ok := spec.kind == NumberKind && value.Finite?;
      if ok {
        spec := spec.(defaultNumber := Some(value.v));
        SameTexts(old(spec), spec);
      }
    }

    method DefaultBool(value: bool) returns (ok: bool)
      requires Valid()
      modifies this
      ensures Valid() && ok == (spec.kind == BooleanKind)
      ensures spec == if ok then old(spec).(defaultBool := Some(value)) else old(spec)
    {
      ok := spec.kind == BooleanKind;
      if ok {
        spec := spec.(defaultBool := Some(value));
        SameTexts(old(spec), spec);
      }
    }

    method Describe(title: string, description: string, placeholder: string)
      requires Valid()
      modifies this
      ensures Valid()
      ensures spec == old(spec).(title := title, description := description, placeholder := placeholder)
    {
      spec := spec.(title := title, description := description, placeholder := placeholder);
      SameTexts(old(spec), spec);
    }
  }

  lemma SameTexts(a: FieldSpec, b: FieldSpec)
    requires a.enumValues == b.enumValues && a.forbidden == b.forbidden
    ensures EnumTexts(a) == EnumTexts(b) && ForbiddenTexts(a) == ForbiddenTexts(b)
  {
  }

  // ---- arrays and objects -----------------------------------------------------------------------------

  class Array {
    var spec: ArraySpec

    ghost predicate Valid()
      reads this
    {
      ArrayBuilt(spec)
    }

    constructor OfScalars(item: Field)
      requires item.Valid()
      ensures Valid() && spec == ArraySpec(ScalarItem(item.spec), None, None, false, "", "")
    {
      spec := ArraySpec(ScalarItem(item.spec), None, None, false, "", "");
    }

    constructor OfObjects(item: Object)
      requires item.Valid()
      ensures Valid() && spec == ArraySpec(ObjectItem(item.spec), None, None, false, "", "")
    {
      spec := ArraySpec(ObjectItem(item.spec), None, None, false, "", "");
    }

    method MinItems(count: SizeT)
      requires Valid()
      modifies this
      ensures Valid() && spec == old(spec).(minItems := Some(count))
    {
      spec := spec.(minItems := Some(count));
    }

    method MaxItems(count: SizeT)
      requires Valid()
      modifies this
      ensures Valid() && spec == old(spec).(maxItems := Some(count))
    {
      spec := spec.(maxItems := Some(count));
    }

    method Unique() returns (ok: bool)
      requires Valid()
      modifies this
      ensures Valid() && ok == spec.item.ScalarItem?
      ensures spec == if ok then old(spec).(unique := true) else old(spec)
    {
      ok := spec.item.ScalarItem?;
      if ok {
        spec := spec.(unique := true);
      }
    }
  }

  class Object {
    var spec: ObjectSpec

    /** Member keys stay distinct, and no branch is vacuous. */
    ghost predicate Valid()
      reads this
    {
      ObjectBuilt(spec)
    }

    constructor (openness: Openness)
      ensures Valid() && spec == ObjectSpec(openness, [], [], [], [], "", "")
    {
      spec := ObjectSpec(openness, [], [], [], [], "", "");
    }

    /** `insert_member`: refused exactly for a key already declared. */
    method InsertMember(m: Member) returns (ok: bool)
      requires Valid() && MemberBuilt(m)
      modifies this
      ensures Valid() && ok == !Declares(old(spec), m.key)
      ensures spec == if ok then old(spec).(members := old(spec).members + [m]) else old(spec)
    {
      hide MemberBuilt;
      for i := 0 to |spec.members|
        invariant spec == old(spec) && forall k | 0 <= k < i :: spec.members[k].key != m.key
      {
        if spec.members[i].key == m.key {
          assert spec.members[i] in spec.members;
          return false;
        }
      }
      spec := spec.(members := spec.members + [m]);
      assert MemberKeys(spec) == MemberKeys(old(spec)) + [m.key];
      SnocDistinct(MemberKeys(old(spec)), m.key);
      return true;
    }

    method AddField(f: Field) returns (ok: bool)
      requires Valid() && f.Valid()
      modifies this
      ensures Valid() && ok == !Declares(old(spec), f.spec.key)
      ensures spec == if ok
        then old(spec).(members := old(spec).members + [Member(f.spec.key, f.spec.required, Scalar(f.spec))])
        else old(spec)
    {
      ok := InsertMember(Member(f.spec.key, f.spec.required, Scalar(f.spec)));
    }

    method AddChild(key: string, child: Object, required: bool) returns (ok: bool)
      requires Valid() && child.Valid()
      modifies this
      ensures Valid() && ok == !Declares(old(spec), key)
      ensures spec == if ok
        then old(spec).(members := old(spec).members + [Member(key, required, Nested(old(child.spec)))])
        else old(spec)
    {
      ok := InsertMember(Member(key, required, Nested(child.spec)));
    }

    method AddArray(key: string, list: Array, required: bool) returns (ok: bool)
      requires Valid() && list.Valid()
      modifies this
      ensures Valid() && ok == !Declares(old(spec), key)
      ensures spec == if ok
        then old(spec).(members := old(spec).members + [Member(key, required, Listed(list.spec))])
        else old(spec)
    {
      ok := InsertMember(Member(key, required, Listed(list.spec)));
    }

    method AddWhen(key: string, equals: string, requireKeys: seq<string>, forbidKeys: seq<string>) returns (ok: bool)
      requires Valid()
      modifies this
      ensures Valid() && ok == (requireKeys != [] || forbidKeys != [])
      ensures spec == if ok
        then old(spec).(conditionals := old(spec).conditionals + [Conditional(key, equals, requireKeys, forbidKeys)])
        else old(spec)
    {
      hide MemberBuilt;
      ok := requireKeys != [] || forbidKeys != [];
      if ok {
        spec := spec.(conditionals := spec.conditionals + [Conditional(key, equals, requireKeys, forbidKeys)]);
        assert MemberKeys(spec) == MemberKeys(old(spec));
      }
    }

    method DependentRequired(key: string, alsoRequired: seq<string>)
      requires Valid()
      modifies this
      ensures Valid() && spec == old(spec).(dependents := old(spec).dependents + [Dependent(key, alsoRequired)])
    {
      hide MemberBuilt;
      spec := spec.(dependents := spec.dependents + [Dependent(key, alsoRequired)]);
      assert MemberKeys(spec) == MemberKeys(old(spec));
    }

    method DeprecatedKey(key: string, message: string)
      requires Valid()
      modifies this
      ensures Valid() && spec == old(spec).(deprecated := old(spec).deprecated + [Deprecated(key, message)])
    {
      hide MemberBuilt;
      spec := spec.(deprecated := spec.deprecated + [Deprecated(key, message)]);
      assert MemberKeys(spec) == MemberKeys(old(spec));
    }
  }
}
