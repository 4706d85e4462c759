/**
 The validator as the source writes it: recursive walks that append to one
 shared error vector (src/anolis/provider_sdk/config_validate.cpp:284-615), each
 proved to append exactly the errors its specification lists.
 */
module Validator {
  import opened Base
  import opened ConfigSpec
  import opened ConfigValidate
  import opened Scalars
  import opened Yaml
  import ValidatorMeaning

  method AddIf(c: bool, path: seq<Step>, violation: Violation, errors: Vector<ValidationError>)
    modifies errors
    ensures errors.items == old(errors.items) + If(c, path, violation)
  {
    if c {
      errors.PushBack(ValidationError(path, violation));
    }
  }

  method FindEnumValue(f: FieldSpec, s: string) returns (found: bool)
    ensures found <==> s in EnumTexts(f)
  {
    found := false;
    for i := 0 to |f.enumValues|
      invariant found <==> s in EnumTexts(f)[..i]
    {
      assert EnumTexts(f)[..i + 1] == EnumTexts(f)[..i] + [f.enumValues[i].value];
      found := found || f.enumValues[i].value == s;
    }
    assert EnumTexts(f)[..|f.enumValues|] == EnumTexts(f);
  }

  method ValidateStringConstraints(lib: Library, f: FieldSpec, s: string, path: seq<Step>,
                                   errors: Vector<ValidationError>)
    modifies errors
    ensures errors.items == old(errors.items) + StringErrors(lib, f, s, path)
  {
    hide If, Flatten, ForbiddenErrors, EnumTexts;
    AddIf(f.nonEmpty && s == "", path, MustNotBeEmpty, errors);
    if f.constValue.Some? && s != f.constValue.value {
      AddIf(true, path, MustEqualConst, errors);
      return;
    }
    if f.enumValues != [] {
      var found := FindEnumValue(f, s);
      if !found {
        AddIf(true, path, NotInEnum, errors);
        return;
      }
    }
    AddIf(f.pattern.Some? && !lib.search(f.pattern.value, s), path, MustMatchPattern, errors);
    ValidateForbidden(f, s, path, errors);
  }

  method ValidateForbidden(f: FieldSpec, s: string, path: seq<Step>, errors: Vector<ValidationError>)
    modifies errors
    ensures errors.items == old(errors.items) + Flatten(ForbiddenErrors(f, s, path))
  {
    ghost var parts := ForbiddenErrors(f, s, path);
    for i := 0 to |f.forbidden|
      invariant errors.items == old(errors.items) + Flatten(parts[..i])
    {
      FlattenSnoc(parts, i);
      AddIf(f.forbidden[i].value == s, path, ForbiddenText, errors);
    }
    assert parts[..|parts|] == parts;
  }

  method ValidateField(lib: Library, f: FieldSpec, node: Node, path: seq<Step>, errors: Vector<ValidationError>)
    modifies errors
    ensures errors.items == old(errors.items) + FieldErrors(lib, f, node, path)
  {
    var r := Resolve(lib, node);
    match f.kind
    case StringKind =>
      if !r.RString? {
        errors.PushBack(ValidationError(path, MustBeString));
        return;
      }
      ValidateStringConstraints(lib, f, r.s, path, errors);
    case IntegerKind =>
      var value := IntegerOf(r);
      if value.None? {
        errors.PushBack(ValidationError(path, MustBeInteger));
        return;
      }
      if f.minInt.Some? && value.value < f.minInt.value {
        errors.PushBack(ValidationError(path, BelowMinimum));
      }
      if f.maxInt.Some? && value.value > f.maxInt.value {
        errors.PushBack(ValidationError(path, AboveMaximum));
      }
    case NumberKind =>
      ValidateNumber(f, r, path, errors);
    case BooleanKind =>
      if !r.RBool? {
        errors.PushBack(ValidationError(path, MustBeBoolean));
      }
    case I2cAddressKind =>
      var integerLike := r.RInt? || (r.RFloat? && IntegerOf(r).Some?);
      if !integerLike && !r.RString? {
        errors.PushBack(ValidationError(path, MustBeAddressLike));
        return;
      }
      if I2cAddressOf(r).None? {
        errors.PushBack(ValidationError(path, MustBeAddress));
      }
  }

  method ValidateNumber(f: FieldSpec, r: Resolved, path: seq<Step>, errors: Vector<ValidationError>)
    modifies errors
    ensures errors.items == old(errors.items) + NumberErrors(f, r, path)
  {
    hide If, DoubleOfInt, BoundErrors;
    var value: Float;
    if r.RInt? {
      value := Finite(DoubleOfInt(r.n) as real);
    } else if r.RFloat? {
      value := r.f;
    } else {
      AddIf(true, path, MustBeNumber, errors);
      return;
    }
    if !value.Finite? {
      AddIf(true, path, MustBeFinite, errors);
      return;
    }
    ValidateBounds(f, value.v, path, errors);
  }

  method ValidateBounds(f: FieldSpec, v: real, path: seq<Step>, errors: Vector<ValidationError>)
    modifies errors
    ensures errors.items == old(errors.items) + BoundErrors(f, v, path)
  {
    hide If;
    AddIf(f.minNumber.Some? && v < f.minNumber.value, path, BelowMinimum, errors);
    AddIf(f.exclusiveMin.Some? && v <= f.exclusiveMin.value, path, NotAboveMinimum, errors);
    AddIf(f.maxNumber.Some? && v > f.maxNumber.value, path, AboveMaximum, errors);
    AddIf(f.exclusiveMax.Some? && v >= f.exclusiveMax.value, path, NotBelowMaximum, errors);
  }

  // ---- arrays -----------------------------------------------------------------------

  /** The canonical values in `keys`, as the `seen` set of the source holds them. */
  function Seen(keys: seq<Option<Canonical>>): set<Canonical> {
    set k | k in keys && k.Some? :: k.value
  }

  lemma SeenSnoc(keys: seq<Option<Canonical>>, i: nat)
    requires i < |keys|
    ensures Seen(keys[..i + 1]) == if keys[i].Some? then Seen(keys[..i]) + {keys[i].value} else Seen(keys[..i])
    ensures Repeats(keys, i) <==> keys[i].Some? && keys[i].value in Seen(keys[..i])
  {
    assert keys[..i + 1] == keys[..i] + [keys[i]];
  }

  method ValidateArray(lib: Library, a: ArraySpec, node: Node, path: seq<Step>, errors: Vector<ValidationError>)
    requires ArrayBuilt(a)
    modifies errors
    ensures errors.items == old(errors.items) + ArrayErrors(lib, a, node, path)
    decreases a, 2
  {
    hide If, ItemErrors, Flatten, ObjectBuilt;
    if !node.SequenceNode? {
      AddIf(true, path, MustBeSequence, errors);
      return;
    }
    var size := |node.items|;
    AddIf(a.minItems.Some? && size < a.minItems.value, path, TooFewItems, errors);
    AddIf(a.maxItems.Some? && size > a.maxItems.value, path, TooManyItems, errors);
    match a.item
    case ScalarItem(f) =>
      ValidateScalarItems(lib, a, f, node.items, path, errors);
    case ObjectItem(o) =>
      ValidateObjectItems(lib, a, o, node.items, path, errors);
  }

  lemma NothingYet(keys: seq<Option<Canonical>>, parts: seq<Errors>)
    ensures Seen(keys[..0]) == {} && Flatten(parts[..0]) == []
  {
  }

  method ValidateScalarItems(lib: Library, a: ArraySpec, f: FieldSpec, items: seq<Node>, path: seq<Step>,
                             errors: Vector<ValidationError>)
    requires a.item == ScalarItem(f)
    modifies errors
    ensures errors.items == old(errors.items) + Flatten(ItemErrors(lib, a, items, path))
  {
    hide FieldErrors, CanonicalValue, Flatten, Repeats, Seen;
    var seen: set<Canonical> := {};
    ghost var parts, keys := ItemErrors(lib, a, items, path), ItemKeys(lib, f, items);
    NothingYet(keys, parts);
    for i := 0 to |items|
      invariant errors.items == old(errors.items) + Flatten(parts[..i])
      invariant a.unique ==> seen == Seen(keys[..i])
    {
      FlattenSnoc(parts, i);
      SeenSnoc(keys, i);
      ValidateField(lib, f, items[i], path + [Index(i)], errors);
      if a.unique {
        var canonical := CanonicalValue(lib, f, items[i]);
        if canonical.Some? {
          if canonical.value in seen {
            errors.PushBack(ValidationError(path + [Index(i)], DuplicateValue));
          }
          seen := seen + {canonical.value};
        }
      }
    }
    assert parts[..|parts|] == parts;
  }

  function SeenAt(seen: map<string, set<Canonical>>, key: string): set<Canonical> {
    if key in seen then seen[key] else {}
  }

  /** `seen_by_key` has taken in item `i` for the first `k` members, and only earlier items for the rest. */
  ghost predicate SeenByKey(lib: Library, o: ObjectSpec, items: seq<Node>, i: nat, k: nat,
                            seen: map<string, set<Canonical>>)
    requires i < |items| || (i == |items| && k == 0)
  {
    forall j | 0 <= j < |o.members| && TracksUniqueness(o.members[j]) ::
      SeenAt(seen, o.members[j].key) ==
        Seen(ColumnKeys(lib, o.members[j].decl.field, o.members[j].key, items)[..if j < k then i + 1 else i])
  }

  lemma NothingSeen(lib: Library, o: ObjectSpec, items: seq<Node>)
    ensures SeenByKey(lib, o, items, 0, 0, map[])
  {
  }

  lemma BuiltKeysDistinct(o: ObjectSpec)
    requires ObjectBuilt(o)
    ensures AllDistinct(MemberKeys(o))
  {
  }

  method ValidateObjectItems(lib: Library, a: ArraySpec, o: ObjectSpec, items: seq<Node>, path: seq<Step>,
                             errors: Vector<ValidationError>)
    requires a.item == ObjectItem(o) && ObjectBuilt(o)
    modifies errors
    ensures errors.items == old(errors.items) + Flatten(ItemErrors(lib, a, items, path))
    decreases a, 1
  {
    hide ObjectErrors, DuplicateErrors, Flatten, SeenByKey, ObjectBuilt;
    var seen: map<string, set<Canonical>> := map[];
    ghost var parts := ItemErrors(lib, a, items, path);
    NothingYet([], parts);
    NothingSeen(lib, o, items);
    BuiltKeysDistinct(o);
    for i := 0 to |items|
      invariant errors.items == old(errors.items) + Flatten(parts[..i])
      invariant SeenByKey(lib, o, items, i, 0, seen)
    {
      FlattenSnoc(parts, i);
      ValidateObject(lib, o, items[i], path + [Index(i)], errors);
      seen := RecordColumns(lib, o, items, i, seen, path, errors);
    }
    assert parts[..|parts|] == parts;
  }

  /** One item's unique members: reports repeats and adds the values to `seen_by_key`. */
  method RecordColumns(lib: Library, o: ObjectSpec, items: seq<Node>, i: nat, seen: map<string, set<Canonical>>,
                       path: seq<Step>, errors: Vector<ValidationError>)
    returns (after: map<string, set<Canonical>>)
    requires i < |items| && AllDistinct(MemberKeys(o)) && SeenByKey(lib, o, items, i, 0, seen)
    modifies errors
    ensures errors.items == old(errors.items) + Flatten(DuplicateErrors(lib, o, items, i, path))
    ensures SeenByKey(lib, o, items, i + 1, 0, after)
  {
    hide Flatten, Repeats, SeenByKey, AllDistinct;
    after := seen;
    ghost var parts := DuplicateErrors(lib, o, items, i, path);
    NothingYet([], parts);
    for k := 0 to |o.members|
      invariant errors.items == old(errors.items) + Flatten(parts[..k])
      invariant SeenByKey(lib, o, items, i, k, after)
    {
      FlattenSnoc(parts, k);
      var m := o.members[k];
      SeenNext(lib, o, items, i, k, after);
      if TracksUniqueness(m) {
        var canonical := ColumnKey(lib, m.decl.field, m.key, items[i]);
        if canonical.Some? {
          if canonical.value in SeenAt(after, m.key) {
            errors.PushBack(ValidationError(path + [Index(i), Key(m.key)], DuplicateValue));
          }
          after := after[m.key := SeenAt(after, m.key) + {canonical.value}];
        }
      }
    }
    assert parts[..|parts|] == parts;
    SeenWrap(lib, o, items, i, after);
  }

  /** Taking in item `i` for member `k`, which no other member's key disturbs. */
  lemma SeenNext(lib: Library, o: ObjectSpec, items: seq<Node>, i: nat, k: nat, seen: map<string, set<Canonical>>)
    requires i < |items| && k < |o.members| && AllDistinct(MemberKeys(o)) && SeenByKey(lib, o, items, i, k, seen)
    ensures var m := o.members[k];
      if TracksUniqueness(m) then
        var c := ColumnKey(lib, m.decl.field, m.key, items[i]);
        && (Repeats(ColumnKeys(lib, m.decl.field, m.key, items), i) <==>
              c.Some? && c.value in SeenAt(seen, m.key))
        && SeenByKey(lib, o, items, i, k + 1,
             if c.Some? then seen[m.key := SeenAt(seen, m.key) + {c.value}] else seen)
      else SeenByKey(lib, o, items, i, k + 1, seen)
  {
    hide Seen, Repeats, ColumnKey;
    var m := o.members[k];
    forall j | 0 <= j < |o.members| && j != k ensures o.members[j].key != m.key {
      assert MemberKeys(o)[j] != MemberKeys(o)[k];
    }
    if TracksUniqueness(m) {
      var keys, c := ColumnKeys(lib, m.decl.field, m.key, items), ColumnKey(lib, m.decl.field, m.key, items[i]);
      SeenSnoc(keys, i);
      assert keys[i] == c && SeenAt(seen, m.key) == Seen(keys[..i]);
      var after := if c.Some? then seen[m.key := SeenAt(seen, m.key) + {c.value}] else seen;
      assert forall j | 0 <= j < |o.members| && j != k :: SeenAt(after, o.members[j].key) == SeenAt(seen, o.members[j].key);
      assert SeenAt(after, m.key) == Seen(keys[..i + 1]);
      forall j | 0 <= j < |o.members| && TracksUniqueness(o.members[j])
        ensures SeenAt(after, o.members[j].key) ==
          Seen(ColumnKeys(lib, o.members[j].decl.field, o.members[j].key, items)[..if j < k + 1 then i + 1 else i])
      {
      }
    }
  }

  lemma SeenWrap(lib: Library, o: ObjectSpec, items: seq<Node>, i: nat, seen: map<string, set<Canonical>>)
    requires i < |items| && SeenByKey(lib, o, items, i, |o.members|, seen)
    ensures SeenByKey(lib, o, items, i + 1, 0, seen)
  {
    hide Seen, ColumnKeys;
  }

  // ---- objects ----------------------------------------------------------------------

  method ValidateObject(lib: Library, o: ObjectSpec, node: Node, path: seq<Step>, errors: Vector<ValidationError>)
    requires ObjectBuilt(o)
    modifies errors
    ensures errors.items == old(errors.items) + ObjectErrors(lib, o, node, path)
    decreases o, 5
  {
    hide Flatten, KeyErrors, PresentErrors, MembersErrors, BranchesErrors, DependenciesErrors, If, Present;
    if !node.MapNode? {
      AddIf(true, path, MustBeMap, errors);
      return;
    }
    var present := CollectKeys(node.entries, path, errors);
    CheckPresent(o, present, path, errors);
    ValidateMembers(lib, o, node.entries, path, errors);
    CheckConditionals(lib, o, node.entries, present, path, errors);
    CheckDependents(o, node.entries, present, path, errors);
  }

  lemma MemberErrorsAre(lib: Library, m: Member, entries: seq<(Node, Node)>, path: seq<Step>)
    ensures Get(entries, m.key).None? ==>
      MemberErrors(lib, m, entries, path) == If(m.required, path + [Key(m.key)], IsRequired)
    ensures Get(entries, m.key).Some? ==>
      var value, at := Get(entries, m.key).value, path + [Key(m.key)];
      && (m.decl.Scalar? ==> MemberErrors(lib, m, entries, path) == FieldErrors(lib, m.decl.field, value, at))
      && (m.decl.Nested? ==> MemberErrors(lib, m, entries, path) == ObjectErrors(lib, m.decl.child, value, at))
      && (m.decl.Listed? ==> MemberErrors(lib, m, entries, path) == ArrayErrors(lib, m.decl.list, value, at))
  {
  }

  method ValidateMembers(lib: Library, o: ObjectSpec, entries: seq<(Node, Node)>, path: seq<Step>,
                         errors: Vector<ValidationError>)
    requires ObjectBuilt(o)
    modifies errors
    ensures errors.items == old(errors.items) + Flatten(MembersErrors(lib, o, entries, path))
    decreases o, 4
  {
    hide FieldErrors, ArrayErrors, ObjectErrors, MemberErrors, Flatten, FieldBuilt, ArrayBuilt, AllDistinct, If;
    ghost var parts := MembersErrors(lib, o, entries, path);
    NothingYet([], parts);
    for i := 0 to |o.members|
      invariant errors.items == old(errors.items) + Flatten(parts[..i])
    {
      FlattenSnoc(parts, i);
      var m := o.members[i];
      assert m in o.members && MemberBuilt(m);
      var value := Get(entries, m.key);
      MemberErrorsAre(lib, m, entries, path);
      if value.None? {
        AddIf(m.required, path + [Key(m.key)], IsRequired, errors);
      } else {
        match m.decl
        case Scalar(f) => ValidateField(lib, f, value.value, path + [Key(m.key)], errors);
        case Nested(child) => ValidateObject(lib, child, value.value, path + [Key(m.key)], errors);
        case Listed(a) => ValidateArray(lib, a, value.value, path + [Key(m.key)], errors);
      }
    }
    assert parts[..|parts|] == parts;
  }

  /** The present keys in document order; a repeated or non-scalar key is reported. */
  method CollectKeys(entries: seq<(Node, Node)>, path: seq<Step>, errors: Vector<ValidationError>)
    returns (present: seq<string>)
    modifies errors
    ensures present == Present(entries)
    ensures errors.items == old(errors.items) + Flatten(KeyErrors(entries, path))
  {
    hide Has, Present, Flatten;
    present := [];
    var presentSet: set<string> := {};
    ghost var parts := KeyErrors(entries, path);
    NoKeysYet(entries, parts);
    for i := 0 to |entries|
      invariant present == Present(entries[..i])
      invariant forall k: string :: k in presentSet <==> Has(entries[..i], k)
      invariant errors.items == old(errors.items) + Flatten(parts[..i])
    {
      FlattenSnoc(parts, i);
      HasSnoc(entries, i);
      var key := entries[i].0;
      if !key.ScalarNode? {
        errors.PushBack(ValidationError(path, KeysMustBeScalars));
      } else if key.raw in presentSet {
        errors.PushBack(ValidationError(path + [Key(key.raw)], DuplicateKey));
      } else {
        presentSet := presentSet + {key.raw};
        present := present + [key.raw];
      }
    }
    assert parts[..|parts|] == parts && entries[..|entries|] == entries;
  }

  lemma NoKeysYet(entries: seq<(Node, Node)>, parts: seq<Errors>)
    ensures Present(entries[..0]) == [] && Flatten(parts[..0]) == []
    ensures forall k: string :: !Has(entries[..0], k)
  {
  }

  lemma HasSnoc(entries: seq<(Node, Node)>, i: nat)
    requires i < |entries|
    ensures forall k: string :: Has(entries[..i + 1], k) <==> Has(entries[..i], k) || KeyedBy(entries[i], k)
    ensures Present(entries[..i + 1]) == Present(entries[..i]) +
      if entries[i].0.ScalarNode? && !Has(entries[..i], entries[i].0.raw) then [entries[i].0.raw] else []
  {
    var longer := entries[..i + 1];
    assert longer[..|longer| - 1] == entries[..i] && longer[|longer| - 1] == entries[i];
    forall k: string ensures Has(longer, k) <==> Has(entries[..i], k) || KeyedBy(entries[i], k) {
      assert forall j | 0 <= j < i :: longer[j] == entries[..i][j];
      if KeyedBy(entries[i], k) { assert KeyedBy(longer[i], k); }
      if Has(entries[..i], k) {
        var j :| 0 <= j < i && KeyedBy(entries[..i][j], k);
        assert KeyedBy(longer[j], k);
      }
    }
  }

  /** One pass over the present keys: each is deprecated, or unknown to a Closed object, or in order. */
  method CheckPresent(o: ObjectSpec, present: seq<string>, path: seq<Step>, errors: Vector<ValidationError>)
    modifies errors
    ensures errors.items == old(errors.items) + Flatten(PresentErrors(o, present, path))
  {
    ghost var parts := PresentErrors(o, present, path);
    for i := 0 to |present|
      invariant errors.items == old(errors.items) + Flatten(parts[..i])
    {
      FlattenSnoc(parts, i);
      var key := present[i];
      var deprecated := false;
      for k := 0 to |o.deprecated|
        invariant !deprecated && forall d | d in o.deprecated[..k] :: d.key != key
        invariant errors.items == old(errors.items) + Flatten(parts[..i])
      {
        if o.deprecated[k].key == key {
          errors.PushBack(ValidationError(path + [Key(key)], NoLongerSupported));
          deprecated := true;
          break;
        }
      }
      assert deprecated <==> IsDeprecated(o, key) by {
        assert !deprecated ==> o.deprecated[..|o.deprecated|] == o.deprecated;
      }
      if !deprecated && o.openness == Closed && !Declares(o, key) {
        errors.PushBack(ValidationError(path + [Key(key)], UnknownKey));
      }
    }
    assert parts[..|parts|] == parts;
  }

  /** Reports the keys of a list whose presence is not what is wanted. */
  method CheckKeys(keys: seq<string>, wanted: bool, present: seq<string>, path: seq<Step>, violation: Violation,
                   ghost parts: seq<Errors>, errors: Vector<ValidationError>)
    requires |parts| == |keys|
    requires forall i | 0 <= i < |keys| ::
      parts[i] == If((keys[i] in present) != wanted, path + [Key(keys[i])], violation)
    modifies errors
    ensures errors.items == old(errors.items) + Flatten(parts)
  {
    for i := 0 to |keys|
      invariant errors.items == old(errors.items) + Flatten(parts[..i])
    {
      FlattenSnoc(parts, i);
      if (keys[i] in present) != wanted {
        errors.PushBack(ValidationError(path + [Key(keys[i])], violation));
      }
    }
    assert parts[..|parts|] == parts;
  }

  method CheckConditionals(lib: Library, o: ObjectSpec, entries: seq<(Node, Node)>, present: seq<string>,
                           path: seq<Step>, errors: Vector<ValidationError>)
    requires present == Present(entries)
    modifies errors
    ensures errors.items == old(errors.items) + Flatten(BranchesErrors(lib, o, entries, path))
  {
    hide Flatten, Has, Present, ResolvePlain;
    ValidatorMeaning.PresentKeys(entries);
    ghost var parts := BranchesErrors(lib, o, entries, path);
    NothingYet([], parts);
    for i := 0 to |o.conditionals|
      invariant errors.items == old(errors.items) + Flatten(parts[..i])
    {
      FlattenSnoc(parts, i);
      var c := o.conditionals[i];
      var disc := Get(entries, c.key);
      if disc.None? {
        continue;
      }
      var r := Resolve(lib, disc.value);
      if !r.RString? || r.s != c.equals {
        continue;
      }
      CheckKeys(c.requireKeys, true, present, path, RequiredByBranch, RequiredInBranch(c, entries, path), errors);
      CheckKeys(c.forbidKeys, false, present, path, InvalidInBranch, ForbiddenInBranch(c, entries, path), errors);
    }
    assert parts[..|parts|] == parts;
  }

  method CheckDependents(o: ObjectSpec, entries: seq<(Node, Node)>, present: seq<string>, path: seq<Step>,
                         errors: Vector<ValidationError>)
    requires present == Present(entries)
    modifies errors
    ensures errors.items == old(errors.items) + Flatten(DependenciesErrors(o, entries, path))
  {
    hide Flatten, Has, Present;
    ValidatorMeaning.PresentKeys(entries);
    ghost var parts := DependenciesErrors(o, entries, path);
    NothingYet([], parts);
    for i := 0 to |o.dependents|
      invariant errors.items == old(errors.items) + Flatten(parts[..i])
    {
      FlattenSnoc(parts, i);
      var d := o.dependents[i];
      if d.key in present {
        CheckKeys(d.alsoRequired, true, present, path, RequiredByDependency, DependencyErrors(d, entries, path), errors);
      }
    }
    assert parts[..|parts|] == parts;
  }

  /** `validate`: an empty report means, on its domain, that the emitted schema accepts the document. */
  method ValidateDocument(lib: Library, s: SchemaSpec, doc: Node) returns (report: Errors)
    requires ObjectBuilt(s.root)
    ensures report == ObjectErrors(lib, s.root, doc, [])
  {
    var errors := new Vector<ValidationError>();
    ValidateObject(lib, s.root, doc, [], errors);
    report := errors.items;
  }
}
