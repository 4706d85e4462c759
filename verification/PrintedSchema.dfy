/**
 The promise of the toolkit at the bytes a client holds: the schema is printed,
 parsed by the client, and its numbers are read again. A number text does not say
 whether an integer or a double was printed, so the tree read is the emitted one up
 to that choice, and no verdict depends on it.
 */
module PrintedSchema {
  import opened Base
  import opened Json
  import opened JsonSchema
  import opened JsonText
  import opened ConfigSpec
  import opened ConfigEmit
  import opened ConfigMeaning
  import opened NoDrift
  import opened Scalars
  import opened ValidatorMeaning
  import opened Yaml
  import Envelope
  import JsonFacts

  // ---- reading a parsed document as a schema ------------------------------------------------

  /** How a client reads a number text. */
  type NumberReader = string -> real

  /** A number as a client holds it: whole numbers are integers, however they were spelt. */
  function NumberOf(v: real): Json {
    if IsWhole(v) then Int(v.Floor) else Double(v)
  }

  /** No `null`, which the emitter has no node for. */
  predicate NoNull(d: Doc) {
    match d
    case DNull => false
    case DArray(items) => forall x | x in items :: NoNull(x)
    case DObject(entries) => forall e | e in entries :: NoNull(e.1)
    case _ => true
  }

  function Read(value: NumberReader, d: Doc): Json
    requires NoNull(d)
  {
    match d
    case DBool(b) => Bool(b)
    case DNumber(text) => NumberOf(value(text))
    case DString(s) => Str(s)
    case DArray(items) => Arr(seq(|items|, i requires 0 <= i < |items| => Read(value, items[i])))
    case DObject(entries) =>
      Obj(seq(|entries|, i requires 0 <= i < |entries| =>
        assert entries[i] in entries;
        (entries[i].0, Read(value, entries[i].1))))
  }

  /** Each number of the tree, as printed, is read as the number it is. */
  predicate Restores(fmt: Format, value: NumberReader, j: Json) {
    match j
    case Int(i) => value(ToText(i)) == i as real
    case Double(v) => value(fmt(v)) == v
    case Arr(items) => forall x | x in items :: Restores(fmt, value, x)
    case Obj(entries) => forall e | e in entries :: Restores(fmt, value, e.1)
    case _ => true
  }

  /** The tree with every whole number spelt as an integer. */
  function Canon(j: Json): Json {
    match j
    case Double(v) => NumberOf(v)
    case Arr(items) => Arr(seq(|items|, i requires 0 <= i < |items| => Canon(items[i])))
    case Obj(entries) =>
      Obj(seq(|entries|, i requires 0 <= i < |entries| => (entries[i].0, Canon(entries[i].1))))
    case _ => j
  }

  lemma {:induction false} ReadsCanon(fmt: Format, value: NumberReader, j: Json)
    requires Restores(fmt, value, j)
    ensures NoNull(ToDoc(fmt, j)) && Read(value, ToDoc(fmt, j)) == Canon(j)
  {
    match j
    case Arr(xs) =>
      var ds := ToDoc(fmt, j).items;
      forall i | 0 <= i < |xs| ensures NoNull(ds[i]) && Read(value, ds[i]) == Canon(xs[i]) {
        assert xs[i] in xs;
        ReadsCanon(fmt, value, xs[i]);
      }
      assert Read(value, ToDoc(fmt, j)).items == Canon(j).items;
    case Obj(es) =>
      var ds := ToDoc(fmt, j).entries;
      forall i | 0 <= i < |es| ensures NoNull(ds[i].1) && Read(value, ds[i].1) == Canon(es[i].1) {
        assert es[i] in es;
        EntrySmaller(j, es[i]);
        ReadsCanon(fmt, value, es[i].1);
      }
      assert Read(value, ToDoc(fmt, j)).entries == Canon(j).entries;
    case _ =>
  }

  // ---- no verdict depends on how a number is spelt --------------------------------------------

  lemma {:induction false} CanonLifts(j: Json)
    ensures Lift(Canon(j)) == Lift(j)
  {
    match j
    case Arr(xs) =>
      forall i | 0 <= i < |xs| ensures Lift(Canon(xs[i])) == Lift(xs[i]) { CanonLifts(xs[i]); }
      assert Lift(Canon(j)).items == Lift(j).items;
    case Obj(es) =>
      forall i | 0 <= i < |es| ensures Lift(Canon(es[i].1)) == Lift(es[i].1) {
        EntrySmaller(j, es[i]);
        CanonLifts(es[i].1);
      }
      assert Lift(Canon(j)).entries == Lift(j).entries;
    case _ =>
  }

  function CanonAt(v: Option<Json>): Option<Json> {
    if v.Some? then Some(Canon(v.value)) else None
  }

  lemma {:induction false} CanonLookup(es: seq<(string, Json)>, key: string)
    ensures Lookup(Canon(Obj(es)).entries, key) == CanonAt(Lookup(es, key))
  {
    if es != [] {
      CanonLookup(es[1..], key);
      assert Canon(Obj(es)).entries[1..] == Canon(Obj(es[1..])).entries;
    }
  }

  lemma CanonKeeps(j: Json, text: string, flag: bool)
    ensures Canon(j) == Str(text) <==> j == Str(text)
    ensures Canon(j) == Bool(flag) <==> j == Bool(flag)
    ensures (j.Obj? <==> Canon(j).Obj?) && (j.Arr? <==> Canon(j).Arr?)
  {
  }

  lemma CanonParsed(item: Json, inst: Instance)
    ensures ParsedKey(Canon(item), inst) == ParsedKey(item, inst)
  {
    hide I2cHexForm, DigitsValue;
    if item.Obj? {
      CanonLookup(item.entries, "x-anolis-type");
      var mark := Lookup(item.entries, "x-anolis-type");
      if mark.Some? { CanonKeeps(mark.value, "i2c_address", true); }
    }
  }

  lemma CanonMarked(item: Json)
    ensures MarkedUnique(Canon(item)) <==> MarkedUnique(item)
  {
    if item.Obj? {
      CanonLookup(item.entries, "x-anolis-unique");
      CanonLookup(item.entries, "items");
      var mark := Lookup(item.entries, "x-anolis-unique");
      if mark.Some? { CanonKeeps(mark.value, "", true); }
    }
  }

  lemma CanonColumns(item: Json, items: seq<Instance>)
    ensures ColumnsDistinct(Canon(item), items) <==> ColumnsDistinct(item, items)
  {
    hide ParsedKey, MarkedUnique, Distinct;
    if item.Obj? {
      CanonLookup(item.entries, "properties");
      var found := Lookup(item.entries, "properties");
      if found.Some? && found.value.Obj? { CanonProperties(found.value.entries, items); }
    }
  }

  lemma CanonProperties(ps: seq<(string, Json)>, items: seq<Instance>)
    ensures var cs := Canon(Obj(ps)).entries;
      (forall p | p in cs && MarkedUnique(p.1) :: Distinct(ParsedColumn(p.1, p.0, items))) <==>
      (forall p | p in ps && MarkedUnique(p.1) :: Distinct(ParsedColumn(p.1, p.0, items)))
  {
    hide ParsedKey, MarkedUnique, Distinct, ParsedColumn, Canon;
    var cs := CanonEntries(ps);
    forall i | 0 <= i < |ps|
      ensures MarkedUnique(cs[i].1) <==> MarkedUnique(ps[i].1)
      ensures ParsedColumn(cs[i].1, cs[i].0, items) == ParsedColumn(ps[i].1, ps[i].0, items)
    {
      CanonMarked(ps[i].1);
      CanonColumn(ps[i].1, ps[i].0, items);
    }
    assert forall i | 0 <= i < |ps| :: cs[i] in cs && ps[i] in ps;
    assert forall p | p in ps :: exists i :: 0 <= i < |ps| && ps[i] == p;
    assert forall p | p in cs :: exists i :: 0 <= i < |cs| && cs[i] == p;
  }

  function CanonEntries(es: seq<(string, Json)>): (r: seq<(string, Json)>)
    ensures r == Canon(Obj(es)).entries
    ensures |r| == |es| && forall i | 0 <= i < |es| :: r[i] == (es[i].0, Canon(es[i].1))
  {
    Canon(Obj(es)).entries
  }

  lemma CanonColumn(item: Json, key: string, items: seq<Instance>)
    ensures ParsedColumn(Canon(item), key, items) == ParsedColumn(item, key, items)
  {
    hide ParsedKey, Canon;
    forall inst ensures ParsedKey(Canon(item), inst) == ParsedKey(item, inst) {
      CanonParsed(item, inst);
    }
    assert ParsedColumn(Canon(item), key, items) == ParsedColumn(item, key, items);
  }

  // ---- keyword by keyword -----------------------------------------------------------------------

  /** The tree and its canonical spelling give the same verdict on every instance. */
  ghost predicate Agrees(d: Dialect, j: Json) {
    forall inst :: Accepts(d, Canon(j), inst) <==> Accepts(d, j, inst)
  }

  ghost predicate ItemsAgree(d: Dialect, v: Json) {
    v.Arr? ==> forall i | 0 <= i < |v.items| :: Agrees(d, v.items[i])
  }

  ghost predicate EntriesAgree(d: Dialect, v: Json) {
    v.Obj? ==> forall i | 0 <= i < |v.entries| :: Agrees(d, v.entries[i].1)
  }

  /** What is known of the value of a keyword when its own keywords are reached. */
  ghost predicate PartsAgree(d: Dialect, v: Json) {
    Agrees(d, v) && ItemsAgree(d, v) && EntriesAgree(d, v)
  }

  ghost predicate SameVerdict(d: Dialect, schema: Json, e: (string, Json), inst: Instance)
    requires schema.Obj? && e in schema.entries
  {
    (e.0, Canon(e.1)) in Canon(schema).entries &&
    (KeywordHolds(d, Canon(schema), (e.0, Canon(e.1)), inst) <==> KeywordHolds(d, schema, e, inst))
  }

  lemma EntryKept(schema: Json, e: (string, Json))
    requires schema.Obj? && e in schema.entries
    ensures Canon(schema).Obj? && (e.0, Canon(e.1)) in Canon(schema).entries
  {
    var i :| 0 <= i < |schema.entries| && schema.entries[i] == e;
    assert Canon(schema).entries[i] == (e.0, Canon(e.1));
  }

  lemma ValueKeyword(d: Dialect, schema: Json, e: (string, Json), inst: Instance)
    requires schema.Obj? && e in schema.entries
    requires KeywordOf(e.0) in
      {KType, KConst, KPattern, KMinLength, KMinItems, KMaxItems, KUniqueItems, Annotation}
    ensures SameVerdict(d, schema, e, inst)
  {
    hide KeywordOf, Same, Lift, HasType;
    EntryKept(schema, e);
    CanonLifts(e.1);
    CanonKeeps(e.1, "", true);
  }

  lemma BoundKeyword(d: Dialect, schema: Json, e: (string, Json), inst: Instance)
    requires schema.Obj? && e in schema.entries
    requires KeywordOf(e.0) in {KMinimum, KMaximum, KExclusiveMinimum, KExclusiveMaximum}
    ensures SameVerdict(d, schema, e, inst)
  {
    hide KeywordOf, Lift;
    EntryKept(schema, e);
    CanonLifts(e.1);
  }

  lemma EnumKeyword(d: Dialect, schema: Json, e: (string, Json), inst: Instance)
    requires schema.Obj? && e in schema.entries && KeywordOf(e.0) == KEnum
    ensures SameVerdict(d, schema, e, inst)
  {
    hide KeywordOf, Same, Lift;
    EntryKept(schema, e);
    if e.1.Arr? {
      forall i | 0 <= i < |e.1.items| ensures Lift(Canon(e.1).items[i]) == Lift(e.1.items[i]) {
        CanonLifts(e.1.items[i]);
      }
    }
  }

  lemma SameTexts(a: seq<Json>, b: seq<Json>, text: string)
    requires |a| == |b| && forall i | 0 <= i < |a| :: a[i] == Str(text) <==> b[i] == Str(text)
    ensures Str(text) in a <==> Str(text) in b
  {
    if Str(text) in a {
      var i :| 0 <= i < |a| && a[i] == Str(text);
      assert b[i] in b;
    }
    if Str(text) in b {
      var i :| 0 <= i < |b| && b[i] == Str(text);
      assert a[i] in a;
    }
  }

  lemma KeysByText(inst: Instance, keys: Json)
    requires inst.Record? && keys.Arr?
    ensures HasKeys(inst, keys) <==> forall k | Str(k) in keys.items :: HasKey(inst.entries, k)
  {
    hide HasKey;
    assert forall k | k in keys.items && k.Str? :: k == Str(k.s);
  }

  lemma CanonKeys(inst: Instance, keys: Json)
    ensures HasKeys(inst, Canon(keys)) <==> HasKeys(inst, keys)
  {
    if keys.Arr? && inst.Record? {
      forall k: string ensures Str(k) in keys.items <==> Str(k) in Canon(keys).items {
        forall i | 0 <= i < |keys.items| ensures Canon(keys.items[i]) == Str(k) <==> keys.items[i] == Str(k) {
          CanonKeeps(keys.items[i], k, true);
        }
        SameTexts(keys.items, Canon(keys).items, k);
      }
      hide Canon, HasKeys, HasKey;
      CanonKeeps(keys, "", true);
      KeysByText(inst, keys);
      KeysByText(inst, Canon(keys));
    }
  }

  lemma RequiredKeyword(d: Dialect, schema: Json, e: (string, Json), inst: Instance)
    requires schema.Obj? && e in schema.entries && KeywordOf(e.0) == KRequired
    ensures SameVerdict(d, schema, e, inst)
  {
    hide KeywordOf, HasKeys, Canon;
    EntryKept(schema, e);
    CanonKeys(inst, e.1);
  }

  predicate DependentsHeld(ps: seq<(string, Json)>, inst: Instance)
    requires inst.Record?
  {
    forall i | 0 <= i < |ps| :: HasKey(inst.entries, ps[i].0) ==> HasKeys(inst, ps[i].1)
  }

  lemma DependentHolds(d: Dialect, schema: Json, e: (string, Json), inst: Instance)
    requires schema.Obj? && e in schema.entries && KeywordOf(e.0) == KDependent
    ensures KeywordHolds(d, schema, e, inst) <==>
      e.1.Obj? && (inst.Record? ==> DependentsHeld(e.1.entries, inst))
  {
    hide KeywordOf, HasKeys, HasKey;
    if e.1.Obj? {
      assert forall i | 0 <= i < |e.1.entries| :: e.1.entries[i] in e.1.entries;
      assert forall p | p in e.1.entries :: exists i :: 0 <= i < |e.1.entries| && e.1.entries[i] == p;
    }
  }

  lemma DependentKeyword(d: Dialect, schema: Json, e: (string, Json), inst: Instance)
    requires schema.Obj? && e in schema.entries && KeywordOf(e.0) == KDependent
    ensures SameVerdict(d, schema, e, inst)
  {
    hide KeywordOf, HasKeys, HasKey, Canon, KeywordHolds;
    EntryKept(schema, e);
    CanonKeeps(e.1, "", true);
    DependentHolds(d, schema, e, inst);
    DependentHolds(d, Canon(schema), (e.0, Canon(e.1)), inst);
    if e.1.Obj? {
      var es, cs := e.1.entries, CanonEntries(e.1.entries);
      assert e.1 == Obj(es);
      forall i | 0 <= i < |es| ensures HasKeys(inst, cs[i].1) <==> HasKeys(inst, es[i].1) {
        CanonKeys(inst, es[i].1);
      }
    }
  }

  lemma ThenKept(d: Dialect, es: seq<(string, Json)>)
    requires EntriesAgree(d, Obj(es))
    ensures var a, b := Lookup(Canon(Obj(es)).entries, "then"), Lookup(es, "then");
      (a.Some? <==> b.Some?) && (b.Some? ==> forall x :: Accepts(d, a.value, x) <==> Accepts(d, b.value, x))
  {
    hide Accepts, Canon;
    CanonLookup(es, "then");
    var found := Lookup(es, "then");
    if found.Some? {
      var k :| 0 <= k < |es| && es[k] == ("then", found.value);
      assert Agrees(d, es[k].1);
    }
  }

  lemma NotHolds(d: Dialect, schema: Json, e: (string, Json), inst: Instance)
    requires schema.Obj? && e in schema.entries && KeywordOf(e.0) == KNot
    ensures KeywordHolds(d, schema, e, inst) <==> !Accepts(d, e.1, inst)
  {
    hide KeywordOf;
  }

  lemma IfHolds(d: Dialect, schema: Json, e: (string, Json), inst: Instance)
    requires schema.Obj? && e in schema.entries && KeywordOf(e.0) == KIf
    ensures var branch := Lookup(schema.entries, "then");
      KeywordHolds(d, schema, e, inst) <==>
        (Accepts(d, e.1, inst) && branch.Some? ==> Accepts(d, branch.value, inst))
  {
    hide KeywordOf, Lookup;
  }

  lemma SchemaKeyword(d: Dialect, schema: Json, e: (string, Json), inst: Instance)
    requires schema.Obj? && e in schema.entries && KeywordOf(e.0) in {KNot, KIf}
    requires EntriesAgree(d, schema) && Agrees(d, e.1)
    ensures SameVerdict(d, schema, e, inst)
  {
    hide KeywordOf, Canon, EntriesAgree, Agrees, Accepts, KeywordHolds, Lookup;
    EntryKept(schema, e);
    assert schema == Obj(schema.entries);
    AgreesAt(d, e.1, inst);
    var c := (e.0, Canon(e.1));
    if KeywordOf(e.0) == KNot {
      NotHolds(d, schema, e, inst);
      NotHolds(d, Canon(schema), c, inst);
    } else {
      ThenKept(d, schema.entries);
      IfHolds(d, schema, e, inst);
      IfHolds(d, Canon(schema), c, inst);
    }
  }

  lemma AgreesAt(d: Dialect, j: Json, inst: Instance)
    requires Agrees(d, j)
    ensures Accepts(d, Canon(j), inst) <==> Accepts(d, j, inst)
  {
    hide Accepts, Canon;
  }

  predicate AllAccept(d: Dialect, xs: seq<Json>, inst: Instance) {
    forall i | 0 <= i < |xs| :: Accepts(d, xs[i], inst)
  }

  predicate SomeAccepts(d: Dialect, xs: seq<Json>, inst: Instance) {
    exists i | 0 <= i < |xs| :: Accepts(d, xs[i], inst)
  }

  lemma ListHolds(d: Dialect, schema: Json, e: (string, Json), inst: Instance)
    requires schema.Obj? && e in schema.entries
    ensures KeywordOf(e.0) == KAllOf ==>
      (KeywordHolds(d, schema, e, inst) <==> e.1.Arr? && AllAccept(d, e.1.items, inst))
    ensures KeywordOf(e.0) == KAnyOf ==>
      (KeywordHolds(d, schema, e, inst) <==> e.1.Arr? && SomeAccepts(d, e.1.items, inst))
    ensures KeywordOf(e.0) == KOneOf ==>
      (KeywordHolds(d, schema, e, inst) <==> e.1.Arr? && ExactlyOneAccepts(d, e.1, inst))
  {
    hide KeywordOf, ExactlyOneAccepts;
  }

  lemma ListsAlike(d: Dialect, a: Json, b: Json, inst: Instance)
    requires a.Arr? && b.Arr? && |a.items| == |b.items|
    requires forall i | 0 <= i < |a.items| :: Accepts(d, a.items[i], inst) <==> Accepts(d, b.items[i], inst)
    ensures AllAccept(d, a.items, inst) <==> AllAccept(d, b.items, inst)
    ensures SomeAccepts(d, a.items, inst) <==> SomeAccepts(d, b.items, inst)
    ensures ExactlyOneAccepts(d, a, inst) <==> ExactlyOneAccepts(d, b, inst)
  {
    hide Accepts, ExactlyOneAccepts;
    OnlyOne(d, a, b, inst);
    OnlyOne(d, b, a, inst);
  }

  predicate OnlyAt(d: Dialect, options: Json, inst: Instance, i: nat)
    requires options.Arr? && i < |options.items|
  {
    Accepts(d, options.items[i], inst) &&
    forall k | 0 <= k < |options.items| && k != i :: !Accepts(d, options.items[k], inst)
  }

  lemma OneIsOnly(d: Dialect, options: Json, inst: Instance)
    requires options.Arr?
    ensures ExactlyOneAccepts(d, options, inst) <==> exists i | 0 <= i < |options.items| :: OnlyAt(d, options, inst, i)
  {
    if ExactlyOneAccepts(d, options, inst) {
      var i :| 0 <= i < |options.items| && Accepts(d, options.items[i], inst) &&
        forall k | 0 <= k < |options.items| && k != i :: !Accepts(d, options.items[k], inst);
      assert OnlyAt(d, options, inst, i);
    }
  }

  lemma OnlyOne(d: Dialect, a: Json, b: Json, inst: Instance)
    requires a.Arr? && b.Arr? && |a.items| == |b.items|
    requires forall i | 0 <= i < |a.items| :: Accepts(d, a.items[i], inst) <==> Accepts(d, b.items[i], inst)
    ensures ExactlyOneAccepts(d, a, inst) ==> ExactlyOneAccepts(d, b, inst)
  {
    hide Accepts, ExactlyOneAccepts;
    OneIsOnly(d, a, inst);
    OneIsOnly(d, b, inst);
    if i :| 0 <= i < |a.items| && OnlyAt(d, a, inst, i) {
      assert OnlyAt(d, b, inst, i);
    }
  }

  lemma ListKeyword(d: Dialect, schema: Json, e: (string, Json), inst: Instance)
    requires schema.Obj? && e in schema.entries && KeywordOf(e.0) in {KAllOf, KAnyOf, KOneOf}
    requires ItemsAgree(d, e.1)
    ensures SameVerdict(d, schema, e, inst)
  {
    hide KeywordOf, Accepts, KeywordHolds, AllAccept, SomeAccepts, ExactlyOneAccepts;
    EntryKept(schema, e);
    CanonKeeps(e.1, "", true);
    ListHolds(d, schema, e, inst);
    ListHolds(d, Canon(schema), (e.0, Canon(e.1)), inst);
    if e.1.Arr? {
      var xs, cs := e.1.items, Canon(e.1).items;
      forall i | 0 <= i < |xs| ensures Accepts(d, xs[i], inst) <==> Accepts(d, cs[i], inst) {
        AgreesAt(d, xs[i], inst);
      }
      ListsAlike(d, e.1, Canon(e.1), inst);
    }
  }

  predicate MembersAccept(d: Dialect, ps: seq<(string, Json)>, entries: seq<(string, Instance)>) {
    forall i, x | 0 <= i < |ps| && x in entries :: x.0 == ps[i].0 ==> Accepts(d, ps[i].1, x.1)
  }

  lemma PropertiesKeyword(d: Dialect, schema: Json, e: (string, Json), inst: Instance)
    requires schema.Obj? && e in schema.entries && KeywordOf(e.0) == KProperties
    requires EntriesAgree(d, e.1)
    ensures SameVerdict(d, schema, e, inst)
  {
    hide KeywordOf, Accepts, Canon, MembersAccept, KeywordHolds;
    EntryKept(schema, e);
    var c := (e.0, Canon(e.1));
    CanonKeeps(e.1, "", true);
    PropertiesHold(d, schema, e, inst);
    PropertiesHold(d, Canon(schema), c, inst);
    if e.1.Obj? && inst.Record? {
      var es, cs := e.1.entries, CanonEntries(e.1.entries);
      assert e.1 == Obj(es);
      forall i, x | 0 <= i < |es| ensures Accepts(d, cs[i].1, x) <==> Accepts(d, es[i].1, x) {
        AgreesAt(d, es[i].1, x);
      }
      MembersAlike(d, es, cs, inst.entries);
    }
  }

  lemma MembersAlike(d: Dialect, a: seq<(string, Json)>, b: seq<(string, Json)>, entries: seq<(string, Instance)>)
    requires |a| == |b|
    requires forall i, x | 0 <= i < |a| :: Accepts(d, b[i].1, x) <==> Accepts(d, a[i].1, x)
    requires forall i | 0 <= i < |a| :: b[i].0 == a[i].0
    ensures MembersAccept(d, a, entries) <==> MembersAccept(d, b, entries)
  {
    hide Accepts;
  }

  lemma PropertiesHold(d: Dialect, schema: Json, e: (string, Json), inst: Instance)
    requires schema.Obj? && e in schema.entries && KeywordOf(e.0) == KProperties
    ensures KeywordHolds(d, schema, e, inst) <==>
      e.1.Obj? && (inst.Record? ==> MembersAccept(d, e.1.entries, inst.entries))
  {
    hide KeywordOf;
    if e.1.Obj? {
      assert forall i | 0 <= i < |e.1.entries| :: e.1.entries[i] in e.1.entries;
      assert forall p | p in e.1.entries :: exists i :: 0 <= i < |e.1.entries| && e.1.entries[i] == p;
    }
  }

  lemma CanonDeclares(schema: Json, key: string)
    requires schema.Obj?
    ensures DeclaredProperty(Canon(schema), key) <==> DeclaredProperty(schema, key)
  {
    hide Canon;
    CanonLookup(schema.entries, "properties");
    var found := Lookup(schema.entries, "properties");
    assert schema == Obj(schema.entries);
    if found.Some? {
      CanonKeeps(found.value, "", true);
      if found.value.Obj? { CanonNames(found.value.entries, key); }
    }
  }

  lemma CanonNames(es: seq<(string, Json)>, key: string)
    ensures (exists p | p in CanonEntries(es) :: p.0 == key) <==> exists p | p in es :: p.0 == key
  {
    hide Canon;
    var cs := CanonEntries(es);
    if p :| p in cs && p.0 == key {
      var i :| 0 <= i < |cs| && cs[i] == p;
      assert es[i] in es && es[i].0 == key;
    }
    if p :| p in es && p.0 == key {
      var i :| 0 <= i < |es| && es[i] == p;
      assert cs[i] in cs && cs[i].0 == key;
    }
  }

  predicate RestAccepts(d: Dialect, schema: Json, v: Json, entries: seq<(string, Instance)>)
    requires schema.Obj?
  {
    forall x | x in entries :: !DeclaredProperty(schema, x.0) ==> Accepts(d, v, x.1)
  }

  lemma RestHolds(d: Dialect, schema: Json, e: (string, Json), inst: Instance)
    requires schema.Obj? && e in schema.entries && KeywordOf(e.0) == KAdditional
    ensures KeywordHolds(d, schema, e, inst) <==> (inst.Record? ==> RestAccepts(d, schema, e.1, inst.entries))
  {
    hide KeywordOf, DeclaredProperty;
  }

  lemma RestKeyword(d: Dialect, schema: Json, e: (string, Json), inst: Instance)
    requires schema.Obj? && e in schema.entries && KeywordOf(e.0) == KAdditional
    requires Agrees(d, e.1)
    ensures SameVerdict(d, schema, e, inst)
  {
    hide KeywordOf, DeclaredProperty, Canon, Accepts, KeywordHolds;
    EntryKept(schema, e);
    forall x ensures Accepts(d, Canon(e.1), x) <==> Accepts(d, e.1, x) { AgreesAt(d, e.1, x); }
    RestHolds(d, schema, e, inst);
    RestHolds(d, Canon(schema), (e.0, Canon(e.1)), inst);
    forall key ensures DeclaredProperty(Canon(schema), key) <==> DeclaredProperty(schema, key) {
      CanonDeclares(schema, key);
    }
  }

  lemma ItemsHold(d: Dialect, schema: Json, e: (string, Json), inst: Instance)
    requires schema.Obj? && e in schema.entries && KeywordOf(e.0) == KItems
    ensures KeywordHolds(d, schema, e, inst) <==>
      (inst.List? ==>
        && (forall i | 0 <= i < |inst.items| :: Accepts(d, e.1, inst.items[i]))
        && (d.anolis ==> ColumnsDistinct(e.1, inst.items)))
  {
    hide KeywordOf, ColumnsDistinct;
  }

  lemma ItemsKeyword(d: Dialect, schema: Json, e: (string, Json), inst: Instance)
    requires schema.Obj? && e in schema.entries && KeywordOf(e.0) == KItems
    requires Agrees(d, e.1)
    ensures SameVerdict(d, schema, e, inst)
  {
    hide KeywordOf, ColumnsDistinct, Canon, Accepts, KeywordHolds;
    EntryKept(schema, e);
    forall x ensures Accepts(d, Canon(e.1), x) <==> Accepts(d, e.1, x) { AgreesAt(d, e.1, x); }
    ItemsHold(d, schema, e, inst);
    ItemsHold(d, Canon(schema), (e.0, Canon(e.1)), inst);
    if inst.List? { CanonColumns(e.1, inst.items); }
  }

  lemma CanonParsedItems(item: Json, items: seq<Instance>)
    ensures ParsedItems(Canon(item), items) == ParsedItems(item, items)
  {
    hide ParsedKey, Canon;
    forall inst ensures ParsedKey(Canon(item), inst) == ParsedKey(item, inst) {
      CanonParsed(item, inst);
    }
    assert ParsedItems(Canon(item), items) == ParsedItems(item, items);
  }

  lemma UniqueKeyword(d: Dialect, schema: Json, e: (string, Json), inst: Instance)
    requires schema.Obj? && e in schema.entries && KeywordOf(e.0) == KAnolisUnique
    ensures SameVerdict(d, schema, e, inst)
  {
    hide KeywordOf, Distinct, ParsedItems, Canon;
    EntryKept(schema, e);
    CanonKeeps(e.1, "", true);
    CanonLookup(schema.entries, "items");
    var item := Lookup(schema.entries, "items");
    if inst.List? && item.Some? { CanonParsedItems(item.value, inst.items); }
    assert Canon(schema).entries == Canon(Obj(schema.entries)).entries;
  }

  lemma KeywordAgrees(d: Dialect, schema: Json, e: (string, Json), inst: Instance)
    requires schema.Obj? && e in schema.entries
    requires EntriesAgree(d, schema) && PartsAgree(d, e.1)
    ensures SameVerdict(d, schema, e, inst)
  {
    hide KeywordOf, SameVerdict, EntriesAgree, ItemsAgree, Agrees;
    match KeywordOf(e.0)
    case KEnum => EnumKeyword(d, schema, e, inst);
    case KMinimum => BoundKeyword(d, schema, e, inst);
    case KMaximum => BoundKeyword(d, schema, e, inst);
    case KExclusiveMinimum => BoundKeyword(d, schema, e, inst);
    case KExclusiveMaximum => BoundKeyword(d, schema, e, inst);
    case KRequired => RequiredKeyword(d, schema, e, inst);
    case KDependent => DependentKeyword(d, schema, e, inst);
    case KNot => SchemaKeyword(d, schema, e, inst);
    case KIf => SchemaKeyword(d, schema, e, inst);
    case KAllOf => ListKeyword(d, schema, e, inst);
    case KAnyOf => ListKeyword(d, schema, e, inst);
    case KOneOf => ListKeyword(d, schema, e, inst);
    case KProperties => PropertiesKeyword(d, schema, e, inst);
    case KAdditional => RestKeyword(d, schema, e, inst);
    case KItems => ItemsKeyword(d, schema, e, inst);
    case KAnolisUnique => UniqueKeyword(d, schema, e, inst);
    case _ => ValueKeyword(d, schema, e, inst);
  }

  /** No verdict of the evaluator, on any tree and any instance, depends on how whole numbers are spelt. */
  lemma {:induction false} CanonAgrees(d: Dialect, j: Json)
    ensures PartsAgree(d, j)
  {
    hide Agrees, KeywordHolds;
    match j
    case Arr(xs) =>
      forall i | 0 <= i < |xs| ensures Agrees(d, xs[i]) { CanonAgrees(d, xs[i]); }
      NoSchema(d, j);
    case Obj(es) =>
      forall i | 0 <= i < |es| ensures PartsAgree(d, es[i].1) {
        EntrySmaller(j, es[i]);
        CanonAgrees(d, es[i].1);
      }
      ObjectAgrees(d, j);
    case _ => NoSchema(d, j);
  }

  lemma NoSchema(d: Dialect, j: Json)
    requires !j.Obj?
    ensures Agrees(d, j)
  {
  }

  lemma ObjectAgrees(d: Dialect, j: Json)
    requires j.Obj? && forall i | 0 <= i < |j.entries| :: PartsAgree(d, j.entries[i].1)
    ensures Agrees(d, j)
  {
    hide Agrees, ItemsAgree, KeywordHolds, Canon;
    var es, cs := j.entries, CanonEntries(j.entries);
    forall inst ensures Accepts(d, Canon(j), inst) <==> Accepts(d, j, inst) {
      forall i | 0 <= i < |es| ensures SameVerdict(d, j, es[i], inst) {
        KeywordAgrees(d, j, es[i], inst);
      }
      SameEntries(d, j, inst);
    }
    AgreesAll(d, j);
  }

  lemma AgreesAll(d: Dialect, j: Json)
    requires forall inst :: Accepts(d, Canon(j), inst) <==> Accepts(d, j, inst)
    ensures Agrees(d, j)
  {
  }

  lemma SameEntries(d: Dialect, j: Json, inst: Instance)
    requires j.Obj? && forall i | 0 <= i < |j.entries| :: SameVerdict(d, j, j.entries[i], inst)
    ensures Accepts(d, Canon(j), inst) <==> Accepts(d, j, inst)
  {
    hide KeywordHolds, Canon, KeywordOf;
    var es, cs := j.entries, CanonEntries(j.entries);
    CanonKeeps(j, "", true);
    assert j == Obj(es) && Canon(j) == Obj(cs);
    if Accepts(d, j, inst) {
      forall p | p in cs ensures KeywordHolds(d, Canon(j), p, inst) {
        var i :| 0 <= i < |cs| && cs[i] == p;
        assert SameVerdict(d, j, es[i], inst) && es[i] in es;
      }
    }
    if Accepts(d, Canon(j), inst) {
      forall e | e in es ensures KeywordHolds(d, j, e, inst) {
        var i :| 0 <= i < |es| && es[i] == e;
        assert SameVerdict(d, j, es[i], inst) && cs[i] in cs;
      }
    }
  }

  // ---- the promise, at the printed text ---------------------------------------------------------

  /** What a client finds: its parse of the printed text, read as a schema. */
  function Reading(value: NumberReader, text: string): Option<Json> {
    match Parse(text)
    case None => None
    case Some(d) => if NoNull(d) then Some(Read(value, d)) else None
  }

  /**
   Printing and reading back keeps every verdict of any tree, whichever dialect reads
   it and whatever the instance, when its numbers are read as what they are.
   */
  lemma PrintedVerdict(fmt: Format, value: NumberReader, d: Dialect, j: Json, inst: Instance)
    requires FormatsNumbers(fmt) && Restores(fmt, value, j)
    ensures var r := Reading(value, Print(fmt, j, 0));
      r.Some? && (Accepts(d, r.value, inst) <==> Accepts(d, j, inst))
  {
    hide Parse, Print, Read, ToDoc, Restores, Canon, Accepts, FormatsNumbers;
    JsonFacts.SerializeRoundTrip(fmt, j);
    ReadsCanon(fmt, value, j);
    CanonAgrees(d, j);
  }

  /** The schema a client takes from the printed envelope. */
  function PublishedSchema(value: NumberReader, text: string): Option<Json> {
    match Reading(value, text)
    case Some(Obj(entries)) => Lookup(entries, "schema")
    case _ => None
  }

  lemma SchemaEntry(s: SchemaSpec, o: Envelope.Options)
    requires Envelope.OptionsOk(o)
    ensures Lookup(Envelope.Tree(s, o).entries, "schema") == Some(EmitSchema(s))
  {
    hide EmitSchema, Envelope.Reserved, Envelope.OptionsOk, Envelope.Opening, Envelope.ExtraEntries;
    Envelope.OpeningReserved(o);
    Envelope.ExtrasUnreserved(o);
    Envelope.SchemaReserved();
    var entries := Envelope.Tree(s, o).entries;
    assert entries[|entries| - 1] == ("schema", EmitSchema(s)) && entries[|entries| - 1] in entries;
    assert forall e | e in entries && e.0 == "schema" :: e == ("schema", EmitSchema(s));
  }

  /** The verdict of a client that holds the printed envelope. */
  predicate PublishedAccepts(value: NumberReader, d: Dialect, text: string, inst: Instance) {
    match PublishedSchema(value, text)
    case None => false
    case Some(schema) => Accepts(d, schema, inst)
  }

  /** The schema read from a printed envelope gives the verdicts of the emitted tree. */
  lemma PublishedVerdict(fmt: Format, value: NumberReader, d: Dialect, s: SchemaSpec, o: Envelope.Options,
                         inst: Instance)
    requires Envelope.OptionsOk(o) && FormatsNumbers(fmt) && Restores(fmt, value, Envelope.Tree(s, o))
    ensures PublishedSchema(value, Print(fmt, Envelope.Tree(s, o), 0)).Some?
    ensures PublishedAccepts(value, d, Print(fmt, Envelope.Tree(s, o), 0), inst) <==>
      Accepts(d, EmitSchema(s), inst)
  {
    hide Parse, Print, Read, ToDoc, Restores, Canon, Accepts, FormatsNumbers, Envelope.Tree, Envelope.OptionsOk, EmitSchema;
    var tree := Envelope.Tree(s, o);
    EnvelopeIsObject(s, o);
    JsonFacts.SerializeRoundTrip(fmt, tree);
    ReadsCanon(fmt, value, tree);
    SchemaEntry(s, o);
    CanonKeeps(tree, "", true);
    CanonLookup(tree.entries, "schema");
    CanonAgrees(d, EmitSchema(s));
  }

  lemma EnvelopeIsObject(s: SchemaSpec, o: Envelope.Options)
    ensures Envelope.Tree(s, o).Obj? && Envelope.Tree(s, o) == Obj(Envelope.Tree(s, o).entries)
  {
    hide EmitSchema;
  }

  /**
   The exact drift between the provider's verdict on a document and that of a client
   that holds the printed envelope and takes its schema from it.
   */
  lemma PublishedDriftExactly(lib: Library, fmt: Format, value: NumberReader, s: SchemaSpec, o: Envelope.Options,
                              doc: Node)
    requires Constructed(lib, s) && InDomain(lib, true, s.root, doc)
    requires Envelope.OptionsOk(o) && FormatsNumbers(fmt) && Restores(fmt, value, Envelope.Tree(s, o))
    ensures var json := ToJson(lib, doc);
      Validate(lib, s, doc) == [] && ArraysObey(MaxFits, s.root, json) <==>
        && PublishedAccepts(value, Anolis(lib), Print(fmt, Envelope.Tree(s, o), 0), json)
        && ArraysObey(MinMet, s.root, json)
        && MapsObey(CleanKeys, s.root, doc) && MapsObey(NoDeprecated, s.root, doc)
  {
    hide Print, Restores, Accepts, FormatsNumbers, EmitSchema, Validate, Constructed, InDomain, ToJson, ArraysObey,
      MapsObey, Envelope.Tree, Envelope.OptionsOk, PublishedAccepts;
    PublishedVerdict(fmt, value, Anolis(lib), s, o, ToJson(lib, doc));
    DriftExactly(lib, s, doc);
  }
}
