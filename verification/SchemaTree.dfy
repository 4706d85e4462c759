/** The emitted schema of a whole declaration tree means what the tree says. */
module SchemaTree {
  import opened Base
  import opened Json
  import opened JsonSchema
  import opened ConfigSpec
  import opened ConfigEmit
  import opened ConfigMeaning
  import opened SchemaMeaning
  import opened Scalars

  // ---- looking keywords up in emitted schemas -----------------------------------

  lemma LookupOnly(parts: seq<seq<(string, Json)>>, key: string, at: nat)
    requires at < |parts|
    requires forall i, e | 0 <= i < |parts| && i != at && e in parts[i] :: e.0 != key
    requires forall e, e' | e in parts[at] && e' in parts[at] && e.0 == key && e'.0 == key :: e.1 == e'.1
    ensures forall e | e in parts[at] && e.0 == key :: Lookup(Flatten(parts), key) == Some(e.1)
    ensures (forall e | e in parts[at] :: e.0 != key) ==> Lookup(Flatten(parts), key) == None
  {
    forall e ensures e in Flatten(parts) <==> exists i :: 0 <= i < |parts| && e in parts[i] {
      InFlatten(parts, e);
    }
  }

  // The lengths of the keywords that are looked up tell them from the others.
  predicate Plain(part: seq<(string, Json)>) {
    forall e | e in part :: |e.0| !in {10, 13, 15} && e.0 != "items"
  }

  lemma PrefixPlain(title: string, description: string)
    ensures Plain(Prefix(title, description))
  {
    assert "title"[0] == 't' && "items"[0] == 'i';
  }

  lemma SuffixKeys(f: FieldSpec)
    ensures forall e | e in Suffix(f) ::
      |e.0| != 10 && |e.0| != 13 && e.0 != "items" && (|e.0| == 15 ==> f.unique && e.1 == Bool(true))
    ensures f.unique ==> ("x-anolis-unique", Bool(true)) in Suffix(f)
  {
  }

  lemma StringPartsPlain(f: FieldSpec)
    ensures |StringParts(f)| == 9 && StringParts(f)[8] == Suffix(f)
    ensures forall i | 0 <= i < 8 :: Plain(StringParts(f)[i])
  {
    hide Prefix, Suffix, NotSchema, EnumTexts;
    PrefixPlain(f.title, f.description);
    assert "const"[0] == 'c' && "oneOf"[0] == 'o' && "anyOf"[0] == 'a' && "items"[0] == 'i';
  }

  lemma IntegerPartsPlain(f: FieldSpec)
    ensures |IntegerParts(f)| == 6 && IntegerParts(f)[5] == Suffix(f)
    ensures forall i | 0 <= i < 5 :: Plain(IntegerParts(f)[i])
  {
    hide Prefix, Suffix, NotSchema, EnumTexts;
    PrefixPlain(f.title, f.description);
    assert "const"[0] == 'c' && "oneOf"[0] == 'o' && "anyOf"[0] == 'a' && "items"[0] == 'i';
  }

  lemma NumberPartsPlain(f: FieldSpec)
    ensures |NumberParts(f)| == 8 && NumberParts(f)[7] == Suffix(f)
    ensures forall i | 0 <= i < 7 :: Plain(NumberParts(f)[i])
  {
    hide Prefix, Suffix, NotSchema, EnumTexts;
    PrefixPlain(f.title, f.description);
    assert "const"[0] == 'c' && "oneOf"[0] == 'o' && "anyOf"[0] == 'a' && "items"[0] == 'i';
  }

  lemma BooleanPartsPlain(f: FieldSpec)
    ensures |BooleanParts(f)| == 4 && BooleanParts(f)[3] == Suffix(f)
    ensures forall i | 0 <= i < 3 :: Plain(BooleanParts(f)[i])
  {
    hide Prefix, Suffix, NotSchema, EnumTexts;
    PrefixPlain(f.title, f.description);
    assert "const"[0] == 'c' && "oneOf"[0] == 'o' && "anyOf"[0] == 'a' && "items"[0] == 'i';
  }

  lemma AddressPartsPlain(f: FieldSpec)
    ensures |AddressParts(f)| == 5 && AddressParts(f)[4] == Suffix(f)
    ensures AddressParts(f)[3] == [("x-anolis-type", Str("i2c_address"))]
    ensures forall i | 0 <= i < 4 && i != 3 :: Plain(AddressParts(f)[i])
  {
    hide Prefix, Suffix, NotSchema, EnumTexts;
    PrefixPlain(f.title, f.description);
    assert "const"[0] == 'c' && "oneOf"[0] == 'o' && "anyOf"[0] == 'a' && "items"[0] == 'i';
  }

  /** Where the looked-up keywords can occur in a field's schema. */
  lemma FieldPartsPlain(f: FieldSpec)
    ensures var n := |FieldParts(f)| - 1;
      && n >= 0 && FieldParts(f)[n] == Suffix(f)
      && (forall i | 0 <= i < n :: Plain(FieldParts(f)[i]) || (f.kind == I2cAddressKind && i == 3))
    ensures f.kind == I2cAddressKind ==>
      |FieldParts(f)| == 5 && FieldParts(f)[3] == [("x-anolis-type", Str("i2c_address"))]
  {
    hide StringParts, IntegerParts, NumberParts, BooleanParts, AddressParts, Plain;
    match f.kind
    case StringKind => StringPartsPlain(f);
    case IntegerKind => IntegerPartsPlain(f);
    case NumberKind => NumberPartsPlain(f);
    case BooleanKind => BooleanPartsPlain(f);
    case I2cAddressKind => AddressPartsPlain(f);
  }

  /** The marks a field's schema carries: an address type, a uniqueness flag, no item schema. */
  lemma FieldMarks(f: FieldSpec)
    ensures EmitField(f).Obj?
    ensures var es := EmitField(f).entries;
      && Lookup(es, "x-anolis-type") == (if f.kind == I2cAddressKind then Some(Str("i2c_address")) else None)
      && Lookup(es, "x-anolis-unique") == (if f.unique then Some(Bool(true)) else None)
      && Lookup(es, "items") == None
      && Lookup(es, "properties") == None
  {
    hide FieldParts, Flatten, Prefix, Suffix;
    FieldPartsPlain(f);
    SuffixKeys(f);
    var ps := FieldParts(f);
    var n := |ps| - 1;
    if f.kind == I2cAddressKind {
      assert ps[3][0] in ps[3];
      LookupOnly(ps, "x-anolis-type", 3);
    } else {
      LookupOnly(ps, "x-anolis-type", n);
    }
    LookupOnly(ps, "x-anolis-unique", n);
    LookupOnly(ps, "items", n);
    LookupOnly(ps, "properties", n);
  }

  /** What the lookups find in an object schema, whatever annotations lead it. */
  lemma ObjectMarks(lead: seq<seq<(string, Json)>>, o: ObjectSpec, title: string, description: string)
    requires forall i | 0 <= i < |lead| :: Plain(lead[i])
    ensures var es := Flatten(lead + ObjectParts(o, title, description));
      && Lookup(es, "properties") == (if o.members != [] then Some(Obj(Properties(o.members))) else None)
      && Lookup(es, "x-anolis-unique") == None
  {
    hide Flatten, ObjectParts, Properties, Plain;
    var body := ObjectParts(o, title, description);
    var ps, at := lead + body, |lead| + 2;
    ObjectPartsPlain(o, title, description);
    forall i | 0 <= i < |ps| && i != at ensures Plain(ps[i]) {
      assert ps[i] == if i < |lead| then lead[i] else body[i - |lead|];
    }
    assert ps[at] == body[2];
    LookupMarks(ps, at, Obj(Properties(o.members)));
  }

  lemma LookupMarks(ps: seq<seq<(string, Json)>>, at: nat, value: Json)
    requires at < |ps| && (ps[at] == [] || ps[at] == [("properties", value)])
    requires forall i | 0 <= i < |ps| && i != at :: Plain(ps[i])
    ensures Lookup(Flatten(ps), "properties") == (if ps[at] == [] then None else Some(value))
    ensures Lookup(Flatten(ps), "x-anolis-unique") == None
  {
    hide Flatten;
    forall i: int, e: (string, Json) | 0 <= i < |ps| && i != at && e in ps[i] ensures |e.0| != 10 && |e.0| != 15 {
      assert Plain(ps[i]);
    }
    LookupOnly(ps, "properties", at);
    LookupOnly(ps, "x-anolis-unique", at);
    if ps[at] != [] {
      assert ps[at][0] in ps[at];
    }
  }

  lemma ObjectPartsPlain(o: ObjectSpec, title: string, description: string)
    ensures |ObjectParts(o, title, description)| == 7
    ensures ObjectParts(o, title, description)[2] == When(o.members != [], ("properties", Obj(Properties(o.members))))
    ensures forall i | 0 <= i < |ObjectParts(o, title, description)| && i != 2 :: Plain(ObjectParts(o, title, description)[i])
  {
    hide Prefix, Properties, Branches, DependentEntries, RequiredKeys;
    PrefixPlain(title, description);
    assert "allOf"[0] == 'a' && "items"[0] == 'i';
  }

  lemma ObjectMarksAlone(o: ObjectSpec)
    ensures var es := EmitObject(o).entries;
      && Lookup(es, "properties") == (if o.members != [] then Some(Obj(Properties(o.members))) else None)
      && Lookup(es, "x-anolis-unique") == None
  {
    hide Flatten, ObjectParts;
    ObjectMarks([], o, o.title, o.description);
    assert [] + ObjectParts(o, o.title, o.description) == ObjectParts(o, o.title, o.description);
  }

  lemma ArrayMarks(a: ArraySpec)
    ensures Lookup(EmitArray(a).entries, "items") == Some(EmitItem(a.item))
  {
    hide Flatten, Prefix, EmitItem;
    var ps := ArrayParts(a);
    PrefixPlain(a.title, a.description);
    LookupOnly(ps, "items", 2);
    assert ps[2][0] in ps[2];
  }

  // ---- uniqueness -----------------------------------------------------------------

  lemma ParsedKeyIsKeyOf(f: FieldSpec, inst: Instance)
    ensures ParsedKey(EmitField(f), inst) == KeyOf(f, inst)
  {
    hide EmitField, I2cHexForm, DigitsValue;
    FieldMarks(f);
  }

  lemma MarkedOnlyFields(decl: Declaration)
    ensures MarkedUnique(EmitDeclaration(decl)) <==> decl.Scalar? && decl.field.unique
  {
    hide Flatten, FieldParts, ObjectParts, ArrayParts;
    match decl
    case Scalar(f) => FieldMarks(f);
    case Nested(o) => ObjectMarksAlone(o);
    case Listed(a) => ArrayMarks(a);
  }

  lemma ColumnsAgree(o: ObjectSpec, items: seq<Instance>)
    ensures ColumnsDistinct(EmitObject(o), items) <==> ColumnsMean(o, items)
  {
    hide Flatten, ObjectParts, EmitDeclaration, EmitField, MarkedUnique, Distinct, ParsedKey, KeyOf;
    ObjectMarksAlone(o);
    var ps := Properties(o.members);
    forall i | 0 <= i < |o.members|
      ensures MarkedUnique(ps[i].1) <==> o.members[i].decl.Scalar? && o.members[i].decl.field.unique
      ensures MarkedUnique(ps[i].1) ==>
        ParsedColumn(ps[i].1, ps[i].0, items) == Column(o.members[i].decl.field, o.members[i].key, items)
    {
      MarkedOnlyFields(o.members[i].decl);
      if MarkedUnique(ps[i].1) {
        ColumnIsParsed(o.members[i], items);
      }
    }
    assert forall p | p in ps :: exists i | 0 <= i < |ps| :: p == ps[i];
    assert forall m | m in o.members :: exists i | 0 <= i < |ps| :: m == o.members[i] && ps[i] in ps;
  }

  lemma ColumnIsParsed(m: Member, items: seq<Instance>)
    requires m.decl.Scalar?
    ensures ParsedColumn(EmitDeclaration(m.decl), m.key, items) == Column(m.decl.field, m.key, items)
  {
    hide EmitField, ParsedKey, KeyOf;
    forall i | 0 <= i < |items| && ValueAt(items[i], m.key).Some? {
      ParsedKeyIsKeyOf(m.decl.field, ValueAt(items[i], m.key).value);
    }
  }

  lemma SameScalars(a: Instance, b: Instance)
    requires a.Number? || a.Boolean? || a.Text?
    ensures Same(a, b) <==> a == b
  {
  }

  /** Items that meet their field and are equal as JSON have equal parsed values. */
  lemma ParsedDistinctIsDistinct(search: (string, string) -> bool, f: FieldSpec, items: seq<Instance>)
    requires forall i | 0 <= i < |items| :: FieldMeans(search, f, items[i])
    requires Distinct(KeysOf(f, items))
    ensures forall i, k | 0 <= i < k < |items| :: !Same(items[i], items[k])
  {
    forall i, k | 0 <= i < k < |items| ensures !Same(items[i], items[k]) {
      SameScalars(items[i], items[k]);
      assert KeysOf(f, items)[i].Some? && KeysOf(f, items)[k] == KeyOf(f, items[k]);
    }
  }

  // ---- arrays -----------------------------------------------------------------------

  lemma ItemsHold(d: Dialect, schema: Json, part: seq<(string, Json)>, item: Json, items: seq<Instance>)
    requires schema.Obj? && part == [("items", item)] && part[0] in schema.entries
    ensures Holds(d, schema, part, List(items)) <==>
      && (forall i | 0 <= i < |items| :: Accepts(d, item, items[i]))
      && (d.anolis ==> ColumnsDistinct(item, items))
  {
    hide KeywordOf, ColumnsDistinct;
    FiveLetterNames();
    assert Holds(d, schema, part, List(items)) <==> KeywordHolds(d, schema, part[0], List(items));
  }

  lemma CountHolds(d: Dialect, schema: Json, part: seq<(string, Json)>, e: (string, Json), items: seq<Instance>)
    requires schema.Obj? && part == [e] && e in schema.entries && e.1.Int? && e.0 in {"minItems", "maxItems"}
    ensures Holds(d, schema, part, List(items)) <==>
      if e.0 == "minItems" then |items| >= e.1.i else |items| <= e.1.i
  {
    hide KeywordOf;
    SevenAndEightLetterNames();
    assert "minItems"[1] == 'i' && "maxItems"[1] == 'a';
    assert Holds(d, schema, part, List(items)) <==> KeywordHolds(d, schema, part[0], List(items));
  }

  lemma UniqueItemsHold(d: Dialect, schema: Json, part: seq<(string, Json)>, items: seq<Instance>)
    requires schema.Obj? && part == [("uniqueItems", Bool(true))] && part[0] in schema.entries
    ensures Holds(d, schema, part, List(items)) <==>
      forall i, k | 0 <= i < k < |items| :: !Same(items[i], items[k])
  {
    hide KeywordOf;
    LongNames();
    assert Holds(d, schema, part, List(items)) <==> KeywordHolds(d, schema, part[0], List(items));
  }

  lemma UniqueParsedHold(d: Dialect, schema: Json, part: seq<(string, Json)>, item: Json, items: seq<Instance>)
    requires schema.Obj? && part == [("x-anolis-unique", Bool(true))] && part[0] in schema.entries
    requires Lookup(schema.entries, "items") == Some(item)
    ensures Holds(d, schema, part, List(items)) <==> (d.anolis ==> Distinct(ParsedItems(item, items)))
  {
    hide KeywordOf, Distinct;
    LongNames();
    assert Holds(d, schema, part, List(items)) <==> KeywordHolds(d, schema, part[0], List(items));
  }

  /** An array schema, read keyword by keyword, up to what its item schema accepts. */
  lemma ArrayShape(d: Dialect, a: ArraySpec, inst: Instance)
    ensures Accepts(d, EmitArray(a), inst) <==>
      && inst.List?
      && CountMeans(AsEmitted, a, |inst.items|)
      && (forall i | 0 <= i < |inst.items| :: Accepts(d, EmitItem(a.item), inst.items[i]))
      && (d.anolis ==> ColumnsDistinct(EmitItem(a.item), inst.items))
      && (a.unique ==> forall i, k | 0 <= i < k < |inst.items| :: !Same(inst.items[i], inst.items[k]))
      && (a.unique && d.anolis ==> Distinct(ParsedItems(EmitItem(a.item), inst.items)))
  {
    hide Accepts, Holds, KeywordHolds, KeywordOf, Flatten, Prefix, EmitItem, ColumnsDistinct, Distinct;
    var schema, ps, item := EmitArray(a), ArrayParts(a), EmitItem(a.item);
    AcceptsByParts(d, ps, inst);
    PartIncluded(ps);
    TypeHolds(d, schema, ps[0], "array", inst);
    if inst.List? {
      ArrayMarks(a);
      PrefixHolds(d, schema, ps[1], a.title, a.description, inst);
      ItemsHold(d, schema, ps[2], item, inst.items);
      EmptyHolds(d, schema, [], inst);
      if a.minItems.Some? { CountHolds(d, schema, ps[3], ps[3][0], inst.items); }
      if a.maxItems.Some? { CountHolds(d, schema, ps[4], ps[4][0], inst.items); }
      if a.unique {
        UniqueItemsHold(d, schema, ps[5], inst.items);
        UniqueParsedHold(d, schema, ps[6], item, inst.items);
      }
    }
  }

  // ---- objects ------------------------------------------------------------------------

  predicate KeysPresent(keys: seq<string>, entries: seq<(string, Instance)>) {
    forall k | k in keys :: HasKey(entries, k)
  }

  lemma HasKeysOfStrings(keys: seq<string>, entries: seq<(string, Instance)>)
    ensures HasKeys(Record(entries), Arr(Strings(keys))) <==> KeysPresent(keys, entries)
  {
    hide HasKey;
    assert forall k | k in keys :: Str(k) in Strings(keys) by {
      forall k | k in keys ensures Str(k) in Strings(keys) {
        var i :| 0 <= i < |keys| && keys[i] == k;
        assert Strings(keys)[i] == Str(k);
      }
    }
  }

  lemma RequiredHolds(d: Dialect, schema: Json, part: seq<(string, Json)>, keys: seq<string>,
                      entries: seq<(string, Instance)>)
    requires schema.Obj? && part == [("required", Arr(Strings(keys)))] && part[0] in schema.entries
    ensures Holds(d, schema, part, Record(entries)) <==> KeysPresent(keys, entries)
  {
    hide KeywordOf, HasKeys;
    SevenAndEightLetterNames();
    assert Holds(d, schema, part, Record(entries)) <==> KeywordHolds(d, schema, part[0], Record(entries));
    HasKeysOfStrings(keys, entries);
  }

  lemma PropertiesHold(d: Dialect, schema: Json, part: seq<(string, Json)>, properties: seq<(string, Json)>,
                       entries: seq<(string, Instance)>)
    requires schema.Obj? && part == [("properties", Obj(properties))] && part[0] in schema.entries
    ensures Holds(d, schema, part, Record(entries)) <==>
      forall i, x | 0 <= i < |properties| && x in entries ::
        x.0 == properties[i].0 ==> Accepts(d, properties[i].1, x.1)
  {
    hide KeywordOf, Accepts;
    LongNames();
    assert Holds(d, schema, part, Record(entries)) <==> KeywordHolds(d, schema, part[0], Record(entries));
    assert forall p | p in properties :: exists i | 0 <= i < |properties| :: p == properties[i];
    assert forall i | 0 <= i < |properties| :: properties[i] in properties;
  }

  lemma AdditionalHolds(d: Dialect, schema: Json, part: seq<(string, Json)>, entries: seq<(string, Instance)>)
    requires schema.Obj? && part == [("additionalProperties", Bool(false))] && part[0] in schema.entries
    ensures Holds(d, schema, part, Record(entries)) <==> forall x | x in entries :: DeclaredProperty(schema, x.0)
  {
    hide KeywordOf, DeclaredProperty;
    LongNames();
    assert Holds(d, schema, part, Record(entries)) <==> KeywordHolds(d, schema, part[0], Record(entries));
  }

  lemma DependentHolds(d: Dialect, schema: Json, part: seq<(string, Json)>, ds: seq<Dependent>,
                       entries: seq<(string, Instance)>)
    requires schema.Obj? && part == [("dependentRequired", Obj(DependentEntries(ds)))] && part[0] in schema.entries
    ensures Holds(d, schema, part, Record(entries)) <==> forall dep | dep in ds :: DependentMeans(dep, entries)
  {
    hide KeywordOf, HasKeys, HasKey;
    LongNames();
    assert Holds(d, schema, part, Record(entries)) <==> KeywordHolds(d, schema, part[0], Record(entries));
    var ps := DependentEntries(ds);
    forall i | 0 <= i < |ds|
      ensures DependentMeans(ds[i], entries) <==>
        (HasKey(entries, ps[i].0) ==> HasKeys(Record(entries), ps[i].1))
    {
      HasKeysOfStrings(ds[i].alsoRequired, entries);
    }
    assert forall p | p in ps :: exists i | 0 <= i < |ps| :: p == ps[i];
    assert forall dep | dep in ds :: exists i | 0 <= i < |ps| :: dep == ds[i] && ps[i] in ps;
  }

  lemma AllOfHolds(d: Dialect, schema: Json, part: seq<(string, Json)>, branches: seq<Json>, inst: Instance)
    requires schema.Obj? && part == [("allOf", Arr(branches))] && part[0] in schema.entries
    ensures Holds(d, schema, part, inst) <==> forall i | 0 <= i < |branches| :: Accepts(d, branches[i], inst)
  {
    hide KeywordOf, Accepts;
    FiveLetterNames();
    assert Holds(d, schema, part, inst) <==> KeywordHolds(d, schema, part[0], inst);
  }

  // ---- conditionals -------------------------------------------------------------------

  /** The `required` inside the `if` is what keeps an absent discriminator from firing the branch. */
  lemma IfAccepts(d: Dialect, c: Conditional, entries: seq<(string, Instance)>)
    ensures Accepts(d, IfSchema(c), Record(entries)) <==>
      HasKey(entries, c.key) && forall x | x in entries :: x.0 == c.key ==> x.1 == Text(c.equals)
  {
    hide Accepts, Holds, KeywordHolds, KeywordOf, HasKey;
    var schema := IfSchema(c);
    var properties := [(c.key, Obj([("const", Str(c.equals))]))];
    AcceptsEntryByEntry(d, schema, Record(entries));
    PropertiesHold(d, schema, [schema.entries[0]], properties, entries);
    assert Strings([c.key]) == [Str(c.key)];
    RequiredHolds(d, schema, [schema.entries[1]], [c.key], entries);
    forall x | x in entries ensures Accepts(d, properties[0].1, x.1) <==> x.1 == Text(c.equals) {
      ConstAccepts(d, c.equals, x.1);
    }
  }

  lemma FalseAcceptsNothing(d: Dialect, inst: Instance)
    ensures !Accepts(d, Bool(false), inst)
  {
  }

  lemma ThenAccepts(d: Dialect, c: Conditional, entries: seq<(string, Instance)>)
    ensures Accepts(d, ThenSchema(c), Record(entries)) <==>
      KeysPresent(c.requireKeys, entries) && forall k | k in c.forbidKeys :: !HasKey(entries, k)
  {
    hide Accepts, Holds, KeywordHolds, KeywordOf, KeysPresent;
    var required := When(c.requireKeys != [], ("required", Arr(Strings(c.requireKeys))));
    var forbidden := When(c.forbidKeys != [], ("properties", Obj(Forbidding(c.forbidKeys))));
    var schema, inst, ps := ThenSchema(c), Record(entries), [required, forbidden];
    FlattenPair(required, forbidden);
    AcceptsByParts(d, ps, inst);
    EmptyHolds(d, schema, [], inst);
    if c.requireKeys != [] {
      assert required[0] in schema.entries;
      RequiredHolds(d, schema, required, c.requireKeys, entries);
    } else {
      assert KeysPresent([], entries) by { NoKeysPresent(entries); }
    }
    if c.forbidKeys != [] {
      assert forbidden[0] in schema.entries;
      var fs := Forbidding(c.forbidKeys);
      PropertiesHold(d, schema, forbidden, fs, entries);
      forall i, x | 0 <= i < |fs| && x in entries ensures !Accepts(d, fs[i].1, x.1) {
        FalseAcceptsNothing(d, x.1);
      }
      forall k | k in c.forbidKeys ensures exists i | 0 <= i < |fs| :: fs[i].0 == k {
        var i :| 0 <= i < |c.forbidKeys| && c.forbidKeys[i] == k;
        assert fs[i].0 == k;
      }
      assert forall i | 0 <= i < |fs| :: fs[i].0 in c.forbidKeys;
    }
    assert ps[0] == required && ps[1] == forbidden;
  }

  lemma NoKeysPresent(entries: seq<(string, Instance)>)
    ensures KeysPresent([], entries)
  {
  }

  lemma BranchAgrees(d: Dialect, c: Conditional, entries: seq<(string, Instance)>)
    ensures Accepts(d, Branch(c), Record(entries)) <==> BranchMeans(c, entries)
  {
    hide Accepts, KeywordOf, HasKey, IfSchema, ThenSchema, Same;
    var schema, inst := Branch(c), Record(entries);
    ShortNames();
    IfAccepts(d, c, entries);
    ThenAccepts(d, c, entries);
    AcceptsEntryByEntry(d, schema, inst);
    assert "if" != "then";
    assert Lookup(schema.entries, "then") == Some(ThenSchema(c));
    assert Holds(d, schema, [schema.entries[0]], inst) <==> KeywordHolds(d, schema, schema.entries[0], inst);
    assert Holds(d, schema, [schema.entries[1]], inst) <==> KeywordHolds(d, schema, schema.entries[1], inst);
  }

  // ---- the whole tree -------------------------------------------------------------------

  lemma RequiredKeysMembers(members: seq<Member>)
    ensures forall k :: k in RequiredKeys(members) <==> exists m | m in members :: m.required && m.key == k
  {
    if members != [] {
      RequiredKeysMembers(members[1..]);
      assert members == [members[0]] + members[1..];
    }
  }

  ghost predicate PropertiesOf(schema: Json, o: ObjectSpec) {
    && schema.Obj?
    && Lookup(schema.entries, "properties") == if o.members != [] then Some(Obj(Properties(o.members))) else None
  }

  lemma DeclaredIffDeclares(o: ObjectSpec, schema: Json, key: string)
    requires PropertiesOf(schema, o)
    ensures DeclaredProperty(schema, key) <==> Declares(o, key)
  {
    hide EmitDeclaration;
    var ps := Properties(o.members);
    assert forall i | 0 <= i < |ps| :: ps[i].0 == o.members[i].key && ps[i] in ps;
    assert forall p | p in ps :: exists i | 0 <= i < |ps| :: p == ps[i];
    assert forall m | m in o.members :: exists i | 0 <= i < |ps| :: m == o.members[i];
  }

  /** What an object schema says of an instance, up to what its property schemas accept. */
  ghost predicate Shape(d: Dialect, o: ObjectSpec, inst: Instance) {
    && inst.Record?
    && (forall i, x | 0 <= i < |o.members| && x in inst.entries ::
          x.0 == o.members[i].key ==> Accepts(d, EmitDeclaration(o.members[i].decl), x.1))
    && KeysPresent(RequiredKeys(o.members), inst.entries)
    && (o.openness == Closed ==> forall x | x in inst.entries :: Declares(o, x.0))
    && (forall dep | dep in o.dependents :: DependentMeans(dep, inst.entries))
    && (forall c | c in o.conditionals :: BranchMeans(c, inst.entries))
  }

  lemma PartsShape(d: Dialect, o: ObjectSpec, schema: Json, ps: seq<seq<(string, Json)>>, title: string,
                   description: string, inst: Instance)
    requires PropertiesOf(schema, o) && ps == ObjectParts(o, title, description)
    requires forall i, e | 0 <= i < |ps| && e in ps[i] :: e in schema.entries
    ensures (forall i | 0 <= i < |ps| :: Holds(d, schema, ps[i], inst)) <==> Shape(d, o, inst)
  {
    hide Accepts, Holds, KeywordHolds, KeywordOf, Flatten, Prefix, KeysPresent, EmitDeclaration, BranchMeans,
         DependentMeans, Declares, RequiredKeys, Branch;
    TypeHolds(d, schema, ps[0], "object", inst);
    if inst.Record? {
      var entries := inst.entries;
      PrefixHolds(d, schema, ps[1], title, description, inst);
      EmptyHolds(d, schema, [], inst);
      NoKeysPresent(entries);
      MembersHold(d, o, schema, ps[2], entries);
      if RequiredKeys(o.members) != [] { RequiredHolds(d, schema, ps[3], RequiredKeys(o.members), entries); }
      if o.openness == Closed {
        AdditionalHolds(d, schema, ps[4], entries);
        forall x | x in entries ensures DeclaredProperty(schema, x.0) <==> Declares(o, x.0) {
          DeclaredIffDeclares(o, schema, x.0);
        }
      }
      if o.dependents != [] { DependentHolds(d, schema, ps[5], o.dependents, entries); }
      ConditionalsHold(d, o, schema, ps[6], entries);
    }
  }

  lemma ObjectShape(d: Dialect, o: ObjectSpec, inst: Instance)
    ensures Accepts(d, EmitObject(o), inst) <==> Shape(d, o, inst)
  {
    hide Accepts, Holds, Shape, ObjectParts, Flatten;
    var ps := ObjectParts(o, o.title, o.description);
    AcceptsByParts(d, ps, inst);
    PartIncluded(ps);
    ObjectMarksAlone(o);
    PartsShape(d, o, EmitObject(o), ps, o.title, o.description, inst);
  }

  /** The root document adds only annotations: it accepts what its object schema accepts. */
  lemma RootShape(d: Dialect, s: SchemaSpec, inst: Instance)
    ensures Accepts(d, EmitSchema(s), inst) <==> Shape(d, s.root, inst)
  {
    hide Accepts, Holds, Shape, ObjectParts, Flatten, KeywordOf;
    var lead, ps := RootLead(s), RootLead(s) + ObjectParts(s.root, RootTitle(s), RootDescription(s));
    AcceptsByParts(d, ps, inst);
    PartIncluded(ps);
    LeadAnnotations();
    ObjectMarks(lead, s.root, RootTitle(s), RootDescription(s));
    var body := ObjectParts(s.root, RootTitle(s), RootDescription(s));
    assert forall i | 0 <= i < |body| :: ps[i + |lead|] == body[i];
    assert forall i | 0 <= i < |lead| :: ps[i] == lead[i];
    PartsShape(d, s.root, EmitSchema(s), body, RootTitle(s), RootDescription(s), inst);
    AnnotationsHold(d, EmitSchema(s), lead[0], inst);
    AnnotationsHold(d, EmitSchema(s), lead[1], inst);
  }

  lemma LeadAnnotations()
    ensures KeywordOf("$schema") == Annotation && KeywordOf("$id") == Annotation
  {
    assert "$schema"[0] == '$' && "pattern"[0] == 'p' && "minimum"[0] == 'm' && "maximum"[0] == 'm';
    assert "$id"[0] == '$' && "not"[0] == 'n';
  }

  lemma MembersHold(d: Dialect, o: ObjectSpec, schema: Json, part: seq<(string, Json)>,
                    entries: seq<(string, Instance)>)
    requires schema.Obj? && Included(schema, part)
    requires part == When(o.members != [], ("properties", Obj(Properties(o.members))))
    ensures Holds(d, schema, part, Record(entries)) <==>
      forall i, x | 0 <= i < |o.members| && x in entries ::
        x.0 == o.members[i].key ==> Accepts(d, EmitDeclaration(o.members[i].decl), x.1)
  {
    hide Accepts, KeywordHolds, KeywordOf, EmitDeclaration;
    if o.members != [] {
      var ps := Properties(o.members);
      PropertiesHold(d, schema, part, ps, entries);
      assert forall i | 0 <= i < |ps| :: ps[i] == (o.members[i].key, EmitDeclaration(o.members[i].decl));
    }
  }

  lemma ConditionalsHold(d: Dialect, o: ObjectSpec, schema: Json, part: seq<(string, Json)>,
                         entries: seq<(string, Instance)>)
    requires schema.Obj? && Included(schema, part)
    requires part == When(o.conditionals != [], ("allOf", Arr(Branches(o.conditionals))))
    ensures Holds(d, schema, part, Record(entries)) <==> forall c | c in o.conditionals :: BranchMeans(c, entries)
  {
    hide Accepts, KeywordHolds, KeywordOf, BranchMeans, Branch;
    if o.conditionals != [] {
      var bs := Branches(o.conditionals);
      AllOfHolds(d, schema, part, bs, Record(entries));
      forall i | 0 <= i < |bs| ensures Accepts(d, bs[i], Record(entries)) <==> BranchMeans(o.conditionals[i], entries) {
        BranchAgrees(d, o.conditionals[i], entries);
      }
      assert forall c | c in o.conditionals :: exists i | 0 <= i < |bs| :: c == o.conditionals[i];
    }
  }

  lemma ItemAgrees(d: Dialect, item: Item, inst: Instance)
    requires Lawful(d.search)
    requires match item case ScalarItem(f) => FieldBuilt(f) case ObjectItem(o) => ObjectBuilt(o)
    ensures Accepts(d, EmitItem(item), inst) <==> ItemMeans(d, AsEmitted, item, inst)
    decreases item, 1
  {
    hide Accepts, EmitField, EmitObject, FieldMeans, ObjectMeans, Lawful;
    match item
    case ScalarItem(f) => FieldAgrees(d, f, inst);
    case ObjectItem(o) => ObjectAgrees(d, o, inst);
  }

  lemma UniquenessAgrees(d: Dialect, a: ArraySpec, items: seq<Instance>)
    requires ArrayBuilt(a)
    requires forall i | 0 <= i < |items| :: ItemMeans(d, AsEmitted, a.item, items[i])
    ensures UniquenessMeans(d, a, items) <==>
      && (d.anolis ==> ColumnsDistinct(EmitItem(a.item), items))
      && (a.unique ==> forall i, k | 0 <= i < k < |items| :: !Same(items[i], items[k]))
      && (a.unique && d.anolis ==> Distinct(ParsedItems(EmitItem(a.item), items)))
  {
    hide EmitField, EmitObject, FieldMeans, ObjectMeans, ColumnsMean, Distinct, Same, ParsedKey, KeyOf;
    match a.item
    case ObjectItem(o) => ColumnsAgree(o, items);
    case ScalarItem(f) =>
      FieldMarks(f);
      forall i | 0 <= i < |items| { ParsedKeyIsKeyOf(f, items[i]); }
      assert ParsedItems(EmitItem(a.item), items) == KeysOf(f, items);
      if Distinct(KeysOf(f, items)) { ParsedDistinctIsDistinct(d.search, f, items); }
  }

  lemma ArrayAgrees(d: Dialect, a: ArraySpec, inst: Instance)
    requires Lawful(d.search) && ArrayBuilt(a)
    ensures Accepts(d, EmitArray(a), inst) <==> ArrayMeans(d, AsEmitted, a, inst)
    decreases a, 2
  {
    hide Accepts, EmitArray, EmitItem, ItemMeans, UniquenessMeans, Same, Distinct, ColumnsDistinct, Lawful;
    ArrayShape(d, a, inst);
    if inst.List? {
      forall i | 0 <= i < |inst.items| {
        ItemAgrees(d, a.item, inst.items[i]);
      }
      if forall i | 0 <= i < |inst.items| :: ItemMeans(d, AsEmitted, a.item, inst.items[i]) {
        UniquenessAgrees(d, a, inst.items);
      }
    }
  }

  lemma DeclarationAgrees(d: Dialect, m: Member, inst: Instance)
    requires Lawful(d.search) && MemberBuilt(m)
    ensures Accepts(d, EmitDeclaration(m.decl), inst) <==> DeclarationMeans(d, AsEmitted, m.decl, inst)
    decreases m, 3
  {
    hide Accepts, EmitField, EmitObject, EmitArray, FieldMeans, ObjectMeans, ArrayMeans, Lawful;
    match m.decl
    case Scalar(f) => FieldAgrees(d, f, inst);
    case Nested(o) => ObjectAgrees(d, o, inst);
    case Listed(a) => ArrayAgrees(d, a, inst);
  }

  /**
   For every declaration tree the builder can make and every document: the
   emitted schema accepts exactly the documents the declaration means, item counts
   being read as the emitter casts them.
   */
  lemma ObjectAgrees(d: Dialect, o: ObjectSpec, inst: Instance)
    requires Lawful(d.search) && ObjectBuilt(o)
    ensures Accepts(d, EmitObject(o), inst) <==> ObjectMeans(d, AsEmitted, o, inst)
    decreases o, 5
  {
    hide Accepts, EmitObject, EmitDeclaration, DeclarationMeans, BranchMeans, DependentMeans, Declares, HasKey, Lawful;
    ObjectShape(d, o, inst);
    if inst.Record? {
      RequiredKeysMembers(o.members);
      forall i, x | 0 <= i < |o.members| && x in inst.entries
        ensures Accepts(d, EmitDeclaration(o.members[i].decl), x.1) <==> DeclarationMeans(d, AsEmitted, o.members[i].decl, x.1)
      {
        DeclarationAgrees(d, o.members[i], x.1);
      }
      assert forall m | m in o.members :: exists i | 0 <= i < |o.members| :: m == o.members[i];
      assert forall i | 0 <= i < |o.members| :: o.members[i] in o.members;
    }
  }

  /** The same for the emitted root document, which overrides the root's title and description. */
  lemma RootAgrees(d: Dialect, s: SchemaSpec, inst: Instance)
    requires Lawful(d.search) && ObjectBuilt(s.root)
    ensures Accepts(d, EmitSchema(s), inst) <==> ObjectMeans(d, AsEmitted, s.root, inst)
  {
    hide Accepts, EmitObject, EmitSchema, Shape, ObjectMeans, Lawful;
    RootShape(d, s, inst);
    ObjectShape(d, s.root, inst);
    ObjectAgrees(d, s.root, inst);
  }
}
