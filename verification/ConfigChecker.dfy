/**
 The construction-time checks as the source runs them
 (src/anolis/provider_sdk/config.cpp:210-472): texts first, then constraints, with
 the key sets filled along the way. `false` stands for the thrown tree error.
 */
module ConfigChecker {
  import opened Base
  import opened ConfigSpec
  import opened ConfigCheck
  import opened Scalars
  import Utf8

  method CheckOptionalText(s: Option<string>) returns (ok: bool)
    ensures ok <==> OptionalTextOk(s)
  {
    if s.None? {
      return true;
    }
    ok := Utf8.CheckUtf8(s.value);
  }

  method CheckBoth(a: string, b: string) returns (ok: bool)
    ensures ok <==> TextOk(a) && TextOk(b)
  {
    ok := Utf8.CheckUtf8(a);
    if ok {
      ok := Utf8.CheckUtf8(b);
    }
  }

  method CheckFieldTexts(f: FieldSpec) returns (ok: bool)
    ensures ok <==> FieldTextsOk(f)
  {
    hide Utf8.IsValid;
    ok := CheckBoth(f.key, f.title);
    if !ok { return; }
    ok := CheckBoth(f.description, f.placeholder);
    if !ok { return; }
    ok := CheckOptionalText(f.pattern);
    if !ok { return; }
    for i := 0 to |f.enumValues|
      invariant ok && forall k | 0 <= k < i :: TextOk(f.enumValues[k].value) && TextOk(f.enumValues[k].title)
    {
      ok := CheckBoth(f.enumValues[i].value, f.enumValues[i].title);
      if !ok {
        assert f.enumValues[i] in f.enumValues;
        return;
      }
    }
    ok := CheckOptionalText(f.constValue);
    if !ok { return; }
    for i := 0 to |f.forbidden|
      invariant ok && forall k | 0 <= k < i :: TextOk(f.forbidden[k].value) && TextOk(f.forbidden[k].message)
    {
      ok := CheckBoth(f.forbidden[i].value, f.forbidden[i].message);
      if !ok {
        assert f.forbidden[i] in f.forbidden;
        return;
      }
    }
    ok := CheckOptionalText(f.defaultString);
  }

  method IsForbidden(f: FieldSpec, value: string) returns (found: bool)
    ensures found <==> value in ForbiddenTexts(f)
  {
    for i := 0 to |f.forbidden|
      invariant value !in ForbiddenTexts(f)[..i]
    {
      if f.forbidden[i].value == value {
        assert ForbiddenTexts(f)[i] == value;
        return true;
      }
    }
    assert ForbiddenTexts(f)[..|f.forbidden|] == ForbiddenTexts(f);
    return false;
  }

  method CheckStringValue(lib: Library, f: FieldSpec, value: string) returns (ok: bool)
    ensures ok <==> SatisfiesOthers(lib, f, value)
  {
    if f.nonEmpty && value == "" {
      return false;
    }
    var forbidden := IsForbidden(f, value);
    if forbidden {
      return false;
    }
    if f.pattern.Some? && !lib.search(f.pattern.value, value) {
      return false;
    }
    return true;
  }

  method CheckDefaults(lib: Library, f: FieldSpec) returns (ok: bool)
    ensures ok <==>
      && (f.defaultString.Some? ==> DefaultStringOk(lib, f, f.defaultString.value))
      && (f.defaultInt.Some? ==> DefaultIntOk(f, f.defaultInt.value))
      && (f.defaultNumber.Some? ==> DefaultNumberOk(f, f.defaultNumber.value))
  {
    hide SatisfiesOthers;
    if f.defaultString.Some? {
      var def := f.defaultString.value;
      if f.constValue.Some? && def != f.constValue.value {
        return false;
      }
      if f.enumValues != [] {
        var found := false;
        for i := 0 to |f.enumValues|
          invariant found <==> def in EnumTexts(f)[..i]
        {
          assert EnumTexts(f)[..i + 1] == EnumTexts(f)[..i] + [f.enumValues[i].value];
          found := found || f.enumValues[i].value == def;
        }
        assert EnumTexts(f)[..|f.enumValues|] == EnumTexts(f);
        if !found {
          return false;
        }
      }
      var others := CheckStringValue(lib, f, def);
      if !others {
        return false;
      }
    }
    if f.defaultInt.Some? {
      var min := if f.kind == I2cAddressKind then I2C_MIN else if f.minInt.Some? then f.minInt.value else INT64_MIN;
      var max := if f.kind == I2cAddressKind then I2C_MAX else if f.maxInt.Some? then f.maxInt.value else INT64_MAX;
      if f.defaultInt.value < min || f.defaultInt.value > max {
        return false;
      }
    }
    if f.defaultNumber.Some?
       && ((f.minNumber.Some? && f.defaultNumber.value < f.minNumber.value)
           || (f.maxNumber.Some? && f.defaultNumber.value > f.maxNumber.value)
           || (f.exclusiveMin.Some? && f.defaultNumber.value <= f.exclusiveMin.value)
           || (f.exclusiveMax.Some? && f.defaultNumber.value >= f.exclusiveMax.value)) {
      return false;
    }
    return true;
  }

  /** An absent bound is the infinity on its side. */
  predicate Above(lower: Float, upper: Float) {
    match (lower, upper)
    case (Finite(a), Finite(b)) => a > b
    case _ => false
  }

  method CheckField(lib: Library, f: FieldSpec, inItem: bool) returns (ok: bool)
    ensures ok <==> FieldOk(lib, f, inItem)
  {
    hide FieldTextsOk, SatisfiesOthers, DefaultStringOk, DefaultIntOk, DefaultNumberOk;
    ok := CheckFieldTexts(f);
    if !ok {
      return;
    }
    if f.unique && !inItem {
      return false;
    }
    if f.constValue.Some? && f.enumValues != [] {
      return false;
    }
    if f.minInt.Some? && f.maxInt.Some? && f.minInt.value > f.maxInt.value {
      return false;
    }
    var lower := if f.minNumber.Some? then Finite(f.minNumber.value)
                 else if f.exclusiveMin.Some? then Finite(f.exclusiveMin.value) else NegInf;
    var upper := if f.maxNumber.Some? then Finite(f.maxNumber.value)
                 else if f.exclusiveMax.Some? then Finite(f.exclusiveMax.value) else PosInf;
    var anyExclusive := f.exclusiveMin.Some? || f.exclusiveMax.Some?;
    if Above(lower, upper) || (anyExclusive && lower == upper) {
      assert !BoundsLeaveRoom(f);
      return false;
    }
    assert BoundsLeaveRoom(f);
    if f.pattern.Some? && !lib.compiles(f.pattern.value) {
      return false;
    }
    if f.constValue.Some? {
      ok := CheckStringValue(lib, f, f.constValue.value);
      if !ok {
        return;
      }
    }
    for i := 0 to |f.enumValues|
      invariant forall k | 0 <= k < i :: SatisfiesOthers(lib, f, EnumTexts(f)[k])
    {
      ok := CheckStringValue(lib, f, f.enumValues[i].value);
      if !ok {
        assert EnumTexts(f)[i] in EnumTexts(f);
        return;
      }
    }
    ok := CheckDefaults(lib, f);
  }

  // ---- containers ----------------------------------------------------------------------------------------

  method CheckArray(lib: Library, a: ArraySpec) returns (ok: bool)
    requires ArrayBuilt(a)
    ensures ok <==> ArrayOk(lib, a)
    decreases a, 0
  {
    hide FieldOk, FieldBuilt, ObjectBuilt, ObjectOk;
    ok := CheckBoth(a.title, a.description);
    if !ok {
      return;
    }
    if a.minItems.Some? && a.maxItems.Some? && a.minItems.value > a.maxItems.value {
      return false;
    }
    match a.item
    case ScalarItem(f) =>
      if f.required || f.unique {
        return false;
      }
      ok := CheckField(lib, f, false);
    case ObjectItem(o) =>
      ok := CheckObject(lib, o, true);
  }

  method CheckMember(lib: Library, m: Member, inItem: bool) returns (ok: bool)
    requires MemberBuilt(m)
    ensures ok <==> MemberOk(lib, m, inItem)
    decreases m, 0
  {
    hide FieldOk, FieldBuilt, ObjectBuilt, ObjectOk, ArrayOk, ArrayBuilt;
    ok := Utf8.CheckUtf8(m.key);
    if !ok {
      return;
    }
    match m.decl
    case Scalar(f) => ok := CheckField(lib, f, inItem);
    case Nested(o) => ok := CheckObject(lib, o, false);
    case Listed(a) => ok := CheckArray(lib, a);
  }

  /** The discriminator's accepted values, when the member declares any. */
  method AcceptedValues(f: FieldSpec) returns (accepted: set<string>)
    ensures accepted == set v | v in Accepted(f)
  {
    accepted := {};
    for i := 0 to |f.enumValues|
      invariant accepted == set v | v in EnumTexts(f)[..i]
    {
      assert EnumTexts(f)[..i + 1] == EnumTexts(f)[..i] + [f.enumValues[i].value];
      accepted := accepted + {f.enumValues[i].value};
    }
    assert EnumTexts(f)[..|f.enumValues|] == EnumTexts(f);
    if f.constValue.Some? {
      accepted := accepted + {f.constValue.value};
    }
  }

  predicate IsStringMember(m: Member) {
    m.decl.Scalar? && m.decl.field.kind == StringKind
  }

  /** The four tables filled while walking the members: keys, required keys, String keys, accepted values. */
  datatype Tables = Tables(keys: set<string>, required: set<string>, strings: set<string>,
                           accepted: map<string, set<string>>)

  /** What the tables hold once `ms` have been walked. */
  ghost predicate Tabulates(t: Tables, ms: seq<Member>) {
    && (forall k :: k in t.keys <==> exists m | m in ms :: m.key == k)
    && (forall k :: k in t.required <==> exists m | m in ms :: m.required && m.key == k)
    && (forall k :: k in t.strings <==> exists m | m in ms :: IsStringMember(m) && m.key == k)
    && (forall k :: k in t.accepted <==>
          exists m | m in ms :: IsStringMember(m) && m.key == k && Accepted(m.decl.field) != [])
    && (forall m | m in ms && IsStringMember(m) && m.key in t.accepted ::
          t.accepted[m.key] == set v | v in Accepted(m.decl.field))
  }

  method Tabulate(t: Tables, m: Member, ghost ms: seq<Member>) returns (t': Tables)
    requires Tabulates(t, ms) && forall n | n in ms :: n.key != m.key
    ensures Tabulates(t', ms + [m])
  {
    hide Accepted;
    var keys, required, strings, accepted := t.keys + {m.key}, t.required, t.strings, t.accepted;
    if m.required {
      required := required + {m.key};
    }
    if IsStringMember(m) {
      strings := strings + {m.key};
      var values := AcceptedValues(m.decl.field);
      assert values == {} <==> Accepted(m.decl.field) == [] by {
        if Accepted(m.decl.field) != [] { assert Accepted(m.decl.field)[0] in values; }
      }
      if values != {} {
        accepted := accepted[m.key := values];
      }
    }
    t' := Tables(keys, required, strings, accepted);
    assert forall n :: n in ms + [m] <==> n in ms || n == m;
  }

  method CheckMembers(lib: Library, o: ObjectSpec, inItem: bool) returns (ok: bool, t: Tables)
    requires ObjectBuilt(o)
    ensures ok <==> forall m | m in o.members :: MemberOk(lib, m, inItem)
    ensures ok ==> Tabulates(t, o.members)
    decreases o, 0
  {
    hide MemberOk, MemberBuilt, Tabulates;
    t := Tables({}, {}, {}, map[]);
    EmptyTables();
    for i := 0 to |o.members|
      invariant Tabulates(t, o.members[..i])
      invariant forall k | 0 <= k < i :: MemberOk(lib, o.members[k], inItem)
    {
      var m := o.members[i];
      assert m in o.members;
      forall n | n in o.members[..i] ensures n.key != m.key {
        var k :| 0 <= k < i && o.members[k] == n;
        assert MemberKeys(o)[k] != MemberKeys(o)[i];
      }
      ok := CheckMember(lib, m, inItem);
      if !ok {
        return;
      }
      t := Tabulate(t, m, o.members[..i]);
      assert o.members[..i + 1] == o.members[..i] + [m];
    }
    assert o.members[..|o.members|] == o.members;
    ok := true;
  }

  lemma EmptyTables()
    ensures Tabulates(Tables({}, {}, {}, map[]), [])
  {
  }

  lemma TablesAnswer(t: Tables, o: ObjectSpec, key: string, equals: string)
    requires Tabulates(t, o.members) && AllDistinct(MemberKeys(o))
    ensures key in t.keys <==> Declares(o, key)
    ensures key in t.required <==> Requires(o, key)
    ensures DiscriminatorOk(o, Conditional(key, equals, [], [])) <==>
      key in t.strings && (key in t.accepted ==> equals in t.accepted[key])
  {
    hide Accepted;
    if key in t.strings {
      var m :| m in o.members && IsStringMember(m) && m.key == key;
      forall n | n in o.members && n.key == key ensures n == m {
        OneMember(o, m, n);
      }
    }
  }

  lemma OneMember(o: ObjectSpec, m: Member, n: Member)
    requires AllDistinct(MemberKeys(o)) && m in o.members && n in o.members && m.key == n.key
    ensures m == n
  {
    var i :| 0 <= i < |o.members| && o.members[i] == m;
    var j :| 0 <= j < |o.members| && o.members[j] == n;
    assert MemberKeys(o)[i] == MemberKeys(o)[j];
  }

  lemma SameDiscriminator(o: ObjectSpec, c: Conditional)
    ensures DiscriminatorOk(o, c) <==> DiscriminatorOk(o, Conditional(c.key, c.equals, [], []))
  {
    hide Accepted;
  }

  method CheckConditional(o: ObjectSpec, t: Tables, c: Conditional) returns (ok: bool)
    requires Tabulates(t, o.members) && AllDistinct(MemberKeys(o))
    ensures ok <==> ConditionalOk(o, c)
  {
    hide Utf8.IsValid, Tabulates, AllDistinct, DiscriminatorOk, Declares, Requires;
    TablesAnswer(t, o, c.key, c.equals);
    SameDiscriminator(o, c);
    ok := Utf8.CheckUtf8(c.equals);
    if !ok {
      return;
    }
    if c.key !in t.strings || (c.key in t.accepted && c.equals !in t.accepted[c.key]) {
      return false;
    }
    var requireSet: set<string> := {};
    for i := 0 to |c.requireKeys|
      invariant forall k | 0 <= k < i :: Declares(o, c.requireKeys[k])
      invariant requireSet == set k | 0 <= k < i :: c.requireKeys[k]
    {
      var key := c.requireKeys[i];
      TablesAnswer(t, o, key, "");
      if key !in t.keys {
        assert key in c.requireKeys;
        return false;
      }
      requireSet := requireSet + {key};
    }
    for i := 0 to |c.forbidKeys|
      invariant forall k | 0 <= k < i ::
        Declares(o, c.forbidKeys[k]) && !Requires(o, c.forbidKeys[k]) && c.forbidKeys[k] !in c.requireKeys
    {
      var key := c.forbidKeys[i];
      TablesAnswer(t, o, key, "");
      assert key in requireSet <==> key in c.requireKeys;
      if key !in t.keys || key in t.required || key in requireSet {
        assert key in c.forbidKeys;
        return false;
      }
    }
    return true;
  }

  method CheckConditionals(o: ObjectSpec, t: Tables) returns (ok: bool)
    requires Tabulates(t, o.members) && AllDistinct(MemberKeys(o))
    ensures ok <==> (forall c | c in o.conditionals :: ConditionalOk(o, c)) && AllDistinct(BranchIds(o.conditionals))
  {
    hide ConditionalOk, Tabulates;
    var cs := o.conditionals;
    var seen: set<(string, string)> := {};
    for i := 0 to |cs|
      invariant forall k | 0 <= k < i :: ConditionalOk(o, cs[k])
      invariant seen == set k | 0 <= k < i :: (cs[k].key, cs[k].equals)
      invariant forall k, l | 0 <= k < l < i :: BranchIds(cs)[k] != BranchIds(cs)[l]
    {
      ok := CheckConditional(o, t, cs[i]);
      assert cs[i] in cs;
      if !ok {
        return;
      }
      if (cs[i].key, cs[i].equals) in seen {
        var k :| 0 <= k < i && (cs[k].key, cs[k].equals) == (cs[i].key, cs[i].equals);
        assert BranchIds(cs)[k] == BranchIds(cs)[i];
        return false;
      }
      seen := seen + {(cs[i].key, cs[i].equals)};
    }
    return true;
  }

  method CheckDependent(o: ObjectSpec, t: Tables, d: Dependent) returns (ok: bool)
    requires Tabulates(t, o.members) && AllDistinct(MemberKeys(o))
    ensures ok <==> DependentOk(o, d)
  {
    hide Tabulates, Declares;
    TablesAnswer(t, o, d.key, "");
    if d.key !in t.keys {
      return false;
    }
    var seen: set<string> := {};
    var keys := d.alsoRequired;
    for i := 0 to |keys|
      invariant forall k | 0 <= k < i :: Declares(o, keys[k]) && keys[k] != d.key
      invariant seen == set k | 0 <= k < i :: keys[k]
      invariant forall k, l | 0 <= k < l < i :: keys[k] != keys[l]
    {
      TablesAnswer(t, o, keys[i], "");
      assert keys[i] in keys;
      if keys[i] !in t.keys || keys[i] == d.key {
        return false;
      }
      if keys[i] in seen {
        var k :| 0 <= k < i && keys[k] == keys[i];
        return false;
      }
      seen := seen + {keys[i]};
    }
    return true;
  }

  method CheckDependents(o: ObjectSpec, t: Tables) returns (ok: bool)
    requires Tabulates(t, o.members) && AllDistinct(MemberKeys(o))
    ensures ok <==> (forall d | d in o.dependents :: DependentOk(o, d)) && AllDistinct(DependentKeys(o.dependents))
  {
    hide DependentOk, Tabulates;
    var ds := o.dependents;
    var seen: set<string> := {};
    for i := 0 to |ds|
      invariant forall k | 0 <= k < i :: DependentOk(o, ds[k])
      invariant seen == set k | 0 <= k < i :: ds[k].key
      invariant forall k, l | 0 <= k < l < i :: DependentKeys(ds)[k] != DependentKeys(ds)[l]
    {
      ok := CheckDependent(o, t, ds[i]);
      assert ds[i] in ds;
      if !ok {
        return;
      }
      if ds[i].key in seen {
        var k :| 0 <= k < i && ds[k].key == ds[i].key;
        assert DependentKeys(ds)[k] == DependentKeys(ds)[i];
        return false;
      }
      seen := seen + {ds[i].key};
    }
    return true;
  }

  method CheckDeprecated(o: ObjectSpec, t: Tables) returns (ok: bool)
    requires Tabulates(t, o.members) && AllDistinct(MemberKeys(o))
    ensures ok <==> forall d | d in o.deprecated :: TextOk(d.key) && TextOk(d.message) && !Declares(o, d.key)
  {
    hide Tabulates, Declares, Utf8.IsValid;
    for i := 0 to |o.deprecated|
      invariant forall k | 0 <= k < i ::
        var d := o.deprecated[k]; TextOk(d.key) && TextOk(d.message) && !Declares(o, d.key)
    {
      var d := o.deprecated[i];
      assert d in o.deprecated;
      ok := CheckBoth(d.key, d.message);
      TablesAnswer(t, o, d.key, "");
      if !ok || d.key in t.keys {
        return false;
      }
    }
    return true;
  }

  /** `check_object`: accepts exactly the declaration trees ObjectOk describes. */
  method CheckObject(lib: Library, o: ObjectSpec, inItem: bool) returns (ok: bool)
    requires ObjectBuilt(o)
    ensures ok <==> ObjectOk(lib, o, inItem)
    decreases o, 1
  {
    hide MemberOk, ConditionalOk, DependentOk, MemberBuilt, Tabulates, Utf8.IsValid, Declares, AllDistinct;
    ok := CheckBoth(o.title, o.description);
    if !ok {
      return;
    }
    var t: Tables;
    ok, t := CheckMembers(lib, o, inItem);
    if !ok {
      return;
    }
    ok := CheckConditionals(o, t);
    if !ok {
      return;
    }
    ok := CheckDependents(o, t);
    if !ok {
      return;
    }
    ok := CheckDeprecated(o, t);
  }
}
