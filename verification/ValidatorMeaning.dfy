/** The validator accepts what the declaration means: the interpreter half of the theorem. */
module ValidatorMeaning {
  import opened Base
  import opened JsonSchema
  import opened ConfigSpec
  import opened ConfigCheck
  import opened ConfigMeaning
  import opened ConfigValidate
  import opened Scalars
  import opened ScalarFacts
  import opened Yaml

  // ---- a YAML document read as JSON -------------------------------------------------

  /** JSON has no infinities and no NaN: a float it cannot express reads as null. */
  function ScalarJson(r: Resolved): Instance {
    match r
    case RBool(b) => Boolean(b)
    case RInt(n) => Number(n as real)
    case RFloat(Finite(v)) => Number(v)
    case RString(s) => Text(s)
    case _ => Null
  }

  function Keyed(key: Node, value: Instance): seq<(string, Instance)> {
    if key.ScalarNode? then [(key.raw, value)] else []
  }

  function ToJson(lib: Library, node: Node): Instance {
    match node
    case SequenceNode(items) => List(seq(|items|, i requires 0 <= i < |items| => ToJson(lib, items[i])))
    case MapNode(entries) =>
      Record(Flatten(seq(|entries|, i requires 0 <= i < |entries| => Keyed(entries[i].0, ToJson(lib, entries[i].1)))))
    case _ => ScalarJson(Resolve(lib, node))
  }

  /** The entries of a map as JSON sees them: JSON has no keys but scalars. */
  function ToEntries(lib: Library, entries: seq<(Node, Node)>): seq<seq<(string, Instance)>> {
    seq(|entries|, i requires 0 <= i < |entries| => Keyed(entries[i].0, ToJson(lib, entries[i].1)))
  }

  lemma MapJson(lib: Library, entries: seq<(Node, Node)>)
    ensures ToJson(lib, MapNode(entries)) == Record(Flatten(ToEntries(lib, entries)))
  {
    var parts := seq(|entries|, i requires 0 <= i < |entries| => Keyed(entries[i].0, ToJson(lib, entries[i].1)));
    assert parts == ToEntries(lib, entries);
  }

  // ---- where the two sides are promised to agree ----------------------------------------

  /**
   Integers at Number fields are compared as doubles, and whole floats at
   Integer fields are capped at int64: `strict` adds the second condition.
   */
  predicate FieldInDomain(strict: bool, f: FieldSpec, r: Resolved) {
    && (f.kind == NumberKind && r.RInt? ==> DoubleOfInt(r.n) == r.n)
    && (strict && f.kind == IntegerKind && r.RFloat? && r.f.Finite? && IsWhole(r.f.v) ==> IsInt64(r.f.v.Floor))
  }

  predicate KeysClean(entries: seq<(Node, Node)>) {
    && (forall i | 0 <= i < |entries| :: entries[i].0.ScalarNode?)
    && (forall i, j | 0 <= i < j < |entries| ::
          entries[i].0.ScalarNode? && entries[j].0.ScalarNode? ==> entries[i].0.raw != entries[j].0.raw)
  }

  predicate NoDeprecatedKey(o: ObjectSpec, entries: seq<(Node, Node)>) {
    forall d | d in o.deprecated :: !Has(entries, d.key)
  }

  predicate ItemInDomain(lib: Library, strict: bool, item: Item, node: Node)
    decreases item, 1
  {
    match item
    case ScalarItem(f) => FieldInDomain(strict, f, Resolve(lib, node))
    case ObjectItem(o) => InDomain(lib, strict, o, node)
  }

  predicate DeclarationInDomain(lib: Library, strict: bool, decl: Declaration, node: Node)
    decreases decl, 3
  {
    match decl
    case Scalar(f) => FieldInDomain(strict, f, Resolve(lib, node))
    case Nested(o) => InDomain(lib, strict, o, node)
    case Listed(a) =>
      node.SequenceNode? ==> forall i | 0 <= i < |node.items| :: ItemInDomain(lib, strict, a.item, node.items[i])
  }

  predicate MemberInDomain(lib: Library, strict: bool, m: Member, entries: seq<(Node, Node)>)
    decreases m, 4
  {
    Get(entries, m.key).Some? ==> DeclarationInDomain(lib, strict, m.decl, Get(entries, m.key).value)
  }

  /** Every scalar the declaration looks at, at any depth, is in its field's domain. */
  predicate InDomain(lib: Library, strict: bool, o: ObjectSpec, node: Node)
    decreases o, 5
  {
    node.MapNode? ==> forall m | m in o.members :: MemberInDomain(lib, strict, m, node.entries)
  }

  /** What only the validator asks of a map: keys JSON can express, and no deprecated key where others are let in. */
  datatype MapRule = CleanKeys | NoDeprecated | WellKept

  predicate MapObeys(rule: MapRule, o: ObjectSpec, entries: seq<(Node, Node)>) {
    && (rule != NoDeprecated ==> KeysClean(entries))
    && (rule != CleanKeys && o.openness == Open ==> NoDeprecatedKey(o, entries))
  }

  predicate ItemMapsObey(rule: MapRule, item: Item, node: Node)
    decreases item, 1
  {
    item.ObjectItem? ==> MapsObey(rule, item.child, node)
  }

  predicate DeclarationMapsObey(rule: MapRule, decl: Declaration, node: Node)
    decreases decl, 3
  {
    match decl
    case Scalar(_) => true
    case Nested(o) => MapsObey(rule, o, node)
    case Listed(a) =>
      node.SequenceNode? ==> forall i | 0 <= i < |node.items| :: ItemMapsObey(rule, a.item, node.items[i])
  }

  predicate MemberMapsObey(rule: MapRule, m: Member, entries: seq<(Node, Node)>)
    decreases m, 4
  {
    Get(entries, m.key).Some? ==> DeclarationMapsObey(rule, m.decl, Get(entries, m.key).value)
  }

  /** Every map the declaration looks at, at any depth, obeys the rule. */
  predicate MapsObey(rule: MapRule, o: ObjectSpec, node: Node)
    decreases o, 5
  {
    node.MapNode? ==>
      && MapObeys(rule, o, node.entries)
      && (forall m | m in o.members :: MemberMapsObey(rule, m, node.entries))
  }

  // ---- fields ---------------------------------------------------------------------------

  lemma StringSide(lib: Library, f: FieldSpec, s: string, path: seq<Step>)
    ensures StringErrors(lib, f, s, path) == [] <==> StringMeans(lib.search, f, s)
  {
    var es := ForbiddenErrors(f, s, path);
    FlattenEmpty(es);
    assert forall i | 0 <= i < |es| :: es[i] == [] <==> f.forbidden[i].value != s;
    assert forall i | 0 <= i < |es| :: ForbiddenTexts(f)[i] == f.forbidden[i].value;
  }

  lemma WholeReal(n: int)
    ensures IsWhole(n as real) && (n as real).Floor == n
  {
  }

  lemma AddressSide(r: Resolved, path: seq<Step>)
    requires r.RInt? ==> IsInt64(r.n)
    ensures AddressErrors(r, path) == [] <==> AddressMeans(ScalarJson(r))
    ensures AddressErrors(r, path) == [] <==> I2cAddressOf(r).Some?
  {
    match r
    case RInt(n) => WholeReal(n);
    case RString(s) =>
      if I2cHexForm(s) { HexTextParses(s); }
    case _ =>
  }

  lemma FieldSide(lib: Library, strict: bool, f: FieldSpec, r: Resolved, path: seq<Step>)
    requires FieldInDomain(strict, f, r) && (r.RInt? ==> IsInt64(r.n))
    ensures ResolvedErrors(lib, f, r, path) == [] ==> FieldMeans(lib.search, f, ScalarJson(r))
    ensures strict && FieldMeans(lib.search, f, ScalarJson(r)) ==> ResolvedErrors(lib, f, r, path) == []
  {
    match f.kind
    case StringKind =>
      if r.RString? { StringSide(lib, f, r.s, path); }
    case IntegerKind =>
      if r.RInt? { WholeReal(r.n); }
    case NumberKind =>
    case BooleanKind =>
    case I2cAddressKind => AddressSide(r, path);
  }

  /** The resolver yields int64 integers only. */
  lemma ResolvedIntegersFit(lib: Library, node: Node)
    ensures Resolve(lib, node).RInt? ==> IsInt64(Resolve(lib, node).n)
  {
  }

  /** On valid values, canonical values collide exactly when the parsed JSON values do. */
  lemma CanonicalSide(lib: Library, f: FieldSpec, r: Resolved, r': Resolved)
    requires ResolvedErrors(lib, f, r, []) == [] && ResolvedErrors(lib, f, r', []) == []
    requires FieldInDomain(false, f, r) && FieldInDomain(false, f, r')
    requires (r.RInt? ==> IsInt64(r.n)) && (r'.RInt? ==> IsInt64(r'.n))
    ensures CanonicalOf(f, r).Some? && KeyOf(f, ScalarJson(r)).Some?
    ensures CanonicalOf(f, r) == CanonicalOf(f, r') <==> KeyOf(f, ScalarJson(r)) == KeyOf(f, ScalarJson(r'))
  {
    if f.kind == I2cAddressKind {
      AddressKey(f, r);
      AddressKey(f, r');
    } else {
      if r.RInt? { WholeReal(r.n); }
      if r'.RInt? { WholeReal(r'.n); }
    }
  }

  lemma AddressKey(f: FieldSpec, r: Resolved)
    requires f.kind == I2cAddressKind && AddressErrors(r, []) == [] && (r.RInt? ==> IsInt64(r.n))
    ensures I2cAddressOf(r).Some?
    ensures KeyOf(f, ScalarJson(r)) == Some(Number(I2cAddressOf(r).value as real))
  {
    AddressSide(r, []);
    match r
    case RInt(n) => WholeReal(n);
    case RString(s) => HexTextParses(s);
    case _ =>
  }

  // ---- maps -----------------------------------------------------------------------------

  lemma {:induction false} FirstOfMap(lib: Library, entries: seq<(Node, Node)>, key: string)
    ensures FirstValue(Flatten(ToEntries(lib, entries)), key) ==
      match Get(entries, key) case None => None case Some(n) => Some(ToJson(lib, n))
  {
    if entries != [] {
      FirstOfMap(lib, entries[1..], key);
      assert ToEntries(lib, entries)[1..] == ToEntries(lib, entries[1..]);
      var rest := Flatten(ToEntries(lib, entries[1..]));
      var first := Keyed(entries[0].0, ToJson(lib, entries[0].1));
      assert Flatten(ToEntries(lib, entries)) == first + rest;
      if first != [] {
        assert (first + rest)[1..] == rest;
      } else {
        assert first + rest == rest;
      }
    }
  }

  lemma MapHasKey(lib: Library, entries: seq<(Node, Node)>, key: string)
    ensures HasKey(Flatten(ToEntries(lib, entries)), key) <==> Has(entries, key)
    ensures Has(entries, key) <==> Get(entries, key).Some?
  {
    FirstOfMap(lib, entries, key);
  }

  lemma SameKeySameEntry(entries: seq<(Node, Node)>, i: nat, k: nat)
    requires KeysClean(entries) && i < |entries| && k < |entries|
    requires entries[i].0.raw == entries[k].0.raw
    ensures i == k
  {
  }

  /** With clean keys, every JSON entry is the one `node[key]` serves. */
  lemma CleanEntries(lib: Library, entries: seq<(Node, Node)>, x: (string, Instance))
    requires KeysClean(entries) && x in Flatten(ToEntries(lib, entries))
    ensures Get(entries, x.0).Some? && x.1 == ToJson(lib, Get(entries, x.0).value)
  {
    InFlatten(ToEntries(lib, entries), x);
    var i :| 0 <= i < |entries| && x in ToEntries(lib, entries)[i];
    assert KeyedBy(entries[i], x.0) && x.1 == ToJson(lib, entries[i].1);
    var k :| 0 <= k < |entries| && KeyedBy(entries[k], x.0) && Get(entries, x.0).value == entries[k].1;
    assert KeyedBy(entries[k], x.0);
    assert entries[k].0.raw == x.0;
    SameKeySameEntry(entries, i, k);
  }

  lemma KeyErrorsClean(entries: seq<(Node, Node)>, path: seq<Step>)
    ensures Flatten(KeyErrors(entries, path)) == [] <==> KeysClean(entries)
  {
    var es := KeyErrors(entries, path);
    FlattenEmpty(es);
    assert forall i | 0 <= i < |es| :: es[i] == [] <==>
      entries[i].0.ScalarNode? && !Has(entries[..i], entries[i].0.raw);
    if Flatten(es) == [] {
      forall i, j | 0 <= i < j < |entries| ensures entries[i].0.raw != entries[j].0.raw {
        assert es[j] == [] && es[i] == [];
        assert entries[..j][i] == entries[i];
        assert KeyedBy(entries[..j][i], entries[i].0.raw);
      }
    }
  }

  lemma {:induction false} PresentKeys(entries: seq<(Node, Node)>)
    ensures forall k :: k in Present(entries) <==> Has(entries, k)
  {
    if entries != [] {
      var rest := entries[..|entries| - 1];
      PresentKeys(rest);
      var last := entries[|entries| - 1];
      assert entries == rest + [last];
      forall k ensures k in Present(entries) <==> Has(entries, k) {
        if Has(entries, k) {
          var i :| 0 <= i < |entries| && KeyedBy(entries[i], k);
          assert i < |rest| ==> KeyedBy(rest[i], k);
        }
        if Has(rest, k) {
          var i :| 0 <= i < |rest| && KeyedBy(rest[i], k);
          assert KeyedBy(entries[i], k);
        }
        assert KeyedBy(last, k) ==> KeyedBy(entries[|entries| - 1], k);
      }
    }
  }

  /** The key checks pass exactly on clean, known, supported keys. */
  lemma KeysSide(o: ObjectSpec, entries: seq<(Node, Node)>, path: seq<Step>)
    ensures Flatten(PresentErrors(o, Present(entries), path)) == [] <==>
      && NoDeprecatedKey(o, entries)
      && (o.openness == Closed ==> forall k: string :: Has(entries, k) ==> Declares(o, k))
  {
    hide Has, Declares, Present;
    var keys := Present(entries);
    var es := PresentErrors(o, keys, path);
    FlattenEmpty(es);
    PresentKeys(entries);
    assert forall i | 0 <= i < |es| :: es[i] == [] <==>
      !IsDeprecated(o, keys[i]) && (o.openness == Closed ==> Declares(o, keys[i]));
    if Flatten(es) == [] {
      forall k: string | Has(entries, k)
        ensures !IsDeprecated(o, k) && (o.openness == Closed ==> Declares(o, k))
      {
        var i :| 0 <= i < |keys| && keys[i] == k;
        assert es[i] == [];
      }
    }
  }

  // ---- conditionals and dependencies ------------------------------------------------------

  lemma KeyListSide(lib: Library, entries: seq<(Node, Node)>, keys: seq<string>, parts: seq<Errors>, wanted: bool)
    requires |parts| == |keys|
    requires forall i | 0 <= i < |keys| :: parts[i] == [] <==> Has(entries, keys[i]) == wanted
    ensures Flatten(parts) == [] <==>
      forall k | k in keys :: HasKey(Flatten(ToEntries(lib, entries)), k) == wanted
  {
    hide Has, HasKey, ToEntries;
    FlattenEmpty(parts);
    forall k | k in keys { MapHasKey(lib, entries, k); }
    assert forall i | 0 <= i < |keys| :: keys[i] in keys;
  }

  lemma BranchSide(lib: Library, c: Conditional, entries: seq<(Node, Node)>, path: seq<Step>)
    requires KeysClean(entries)
    ensures BranchErrors(lib, c, entries, path) == [] <==> BranchMeans(c, Flatten(ToEntries(lib, entries)))
  {
    hide ToEntries, Has, KeysClean;
    var es := Flatten(ToEntries(lib, entries));
    KeyListSide(lib, entries, c.requireKeys, RequiredInBranch(c, entries, path), true);
    KeyListSide(lib, entries, c.forbidKeys, ForbiddenInBranch(c, entries, path), false);
    DiscriminatorSide(lib, c, entries);
  }

  lemma DiscriminatorSide(lib: Library, c: Conditional, entries: seq<(Node, Node)>)
    requires KeysClean(entries)
    ensures var es := Flatten(ToEntries(lib, entries));
      BranchApplies(lib, c, entries) <==>
        HasKey(es, c.key) && forall x | x in es :: x.0 == c.key ==> x.1 == Text(c.equals)
  {
    hide ToEntries, Has, KeysClean;
    var es := Flatten(ToEntries(lib, entries));
    MapHasKey(lib, entries, c.key);
    FirstOfMap(lib, entries, c.key);
    if Get(entries, c.key).Some? {
      var node := Get(entries, c.key).value;
      assert (c.key, ToJson(lib, node)) in es;
      TextJson(lib, node, c.equals);
      forall x | x in es && x.0 == c.key ensures x.1 == ToJson(lib, node) {
        CleanEntries(lib, entries, x);
      }
    }
  }

  lemma TextJson(lib: Library, node: Node, s: string)
    ensures ToJson(lib, node) == Text(s) <==> Resolve(lib, node) == RString(s)
  {
    hide ResolvePlain;
  }

  lemma DependencySide(lib: Library, d: Dependent, entries: seq<(Node, Node)>, path: seq<Step>)
    ensures (Has(entries, d.key) ==> Flatten(DependencyErrors(d, entries, path)) == []) <==>
      DependentMeans(d, Flatten(ToEntries(lib, entries)))
  {
    hide ToEntries, Has;
    KeyListSide(lib, entries, d.alsoRequired, DependencyErrors(d, entries, path), true);
    MapHasKey(lib, entries, d.key);
  }

  // ---- the whole tree -----------------------------------------------------------------------

  lemma NodeSide(lib: Library, strict: bool, f: FieldSpec, node: Node, path: seq<Step>)
    requires FieldInDomain(strict, f, Resolve(lib, node))
    ensures FieldErrors(lib, f, node, path) == [] ==> FieldMeans(lib.search, f, ToJson(lib, node))
    ensures strict && FieldMeans(lib.search, f, ToJson(lib, node)) ==> FieldErrors(lib, f, node, path) == []
  {
    hide ResolvePlain;
    ResolvedIntegersFit(lib, node);
    FieldSide(lib, strict, f, Resolve(lib, node), path);
  }

  /** No error depends on where in the document a field stands. */
  lemma PathIrrelevant(lib: Library, f: FieldSpec, r: Resolved, path: seq<Step>)
    ensures ResolvedErrors(lib, f, r, path) == [] <==> ResolvedErrors(lib, f, r, []) == []
  {
    hide StringErrors, StringMeans, IntegerOf, NumberOf, I2cAddressOf, BoundErrors;
    if f.kind == StringKind && r.RString? {
      StringSide(lib, f, r.s, path);
      StringSide(lib, f, r.s, []);
    } else if f.kind == NumberKind && NumberOf(r).Some? && NumberOf(r).value.Finite? {
      BoundPath(f, NumberOf(r).value.v, path);
    }
  }

  lemma BoundPath(f: FieldSpec, v: real, path: seq<Step>)
    ensures BoundErrors(f, v, path) == [] <==> BoundErrors(f, v, []) == []
  {
  }

  lemma NoRepeats(keys: seq<Option<Canonical>>, parsed: seq<Option<Instance>>)
    requires |keys| == |parsed|
    requires forall i, j | 0 <= i < |keys| && 0 <= j < |keys| ::
      && (keys[i].Some? <==> parsed[i].Some?)
      && (keys[i].Some? && keys[j].Some? ==> (keys[i] == keys[j] <==> parsed[i] == parsed[j]))
    ensures (forall i | 0 <= i < |keys| :: !Repeats(keys, i)) <==> Distinct(parsed)
  {
    if forall i | 0 <= i < |keys| :: !Repeats(keys, i) {
      forall i, j | 0 <= i < j < |keys| && keys[i].Some? && keys[j].Some? ensures keys[i] != keys[j] {
        assert keys[..j][i] == keys[i];
        assert !Repeats(keys, j);
      }
    }
  }

  /** Scalar arrays: the validator's duplicates are the schema's. */
  lemma ItemKeysSide(lib: Library, f: FieldSpec, items: seq<Node>, json: seq<Instance>)
    requires |json| == |items| && forall i | 0 <= i < |items| :: json[i] == ToJson(lib, items[i])
    requires forall i | 0 <= i < |items| ::
      FieldInDomain(false, f, Resolve(lib, items[i])) && FieldErrors(lib, f, items[i], []) == []
    ensures (forall i | 0 <= i < |items| :: !Repeats(ItemKeys(lib, f, items), i)) <==> Distinct(KeysOf(f, json))
  {
    hide Resolve, ResolvedErrors, CanonicalOf, KeyOf, Repeats, Distinct, FieldInDomain;
    forall i, j | 0 <= i < |items| && 0 <= j < |items|
      ensures CanonicalValue(lib, f, items[i]).Some? && KeyOf(f, json[i]).Some?
      ensures CanonicalValue(lib, f, items[i]) == CanonicalValue(lib, f, items[j]) <==>
        KeyOf(f, json[i]) == KeyOf(f, json[j])
    {
      ValidScalar(lib, f, items[i]);
      ValidScalar(lib, f, items[j]);
      CanonicalSide(lib, f, Resolve(lib, items[i]), Resolve(lib, items[j]));
    }
    NoRepeats(ItemKeys(lib, f, items), KeysOf(f, json));
  }

  lemma ValidScalar(lib: Library, f: FieldSpec, node: Node)
    requires FieldErrors(lib, f, node, []) == []
    ensures ToJson(lib, node) == ScalarJson(Resolve(lib, node))
    ensures Resolve(lib, node).RInt? ==> IsInt64(Resolve(lib, node).n)
  {
    hide ResolvePlain;
    ResolvedIntegersFit(lib, node);
  }

  predicate ValidAt(lib: Library, f: FieldSpec, node: Node) {
    FieldInDomain(false, f, Resolve(lib, node)) && FieldErrors(lib, f, node, []) == []
  }

  /** Object arrays: the same, column by column. */
  lemma ColumnSide(lib: Library, f: FieldSpec, key: string, items: seq<Node>, json: seq<Instance>)
    requires |json| == |items| && forall i | 0 <= i < |items| :: json[i] == ToJson(lib, items[i])
    requires forall i | 0 <= i < |items| ::
      items[i].MapNode? && (Get(items[i].entries, key).Some? ==> ValidAt(lib, f, Get(items[i].entries, key).value))
    ensures (forall i | 0 <= i < |items| :: !Repeats(ColumnKeys(lib, f, key, items), i)) <==>
      Distinct(Column(f, key, json))
  {
    hide Resolve, ResolvedErrors, CanonicalOf, KeyOf, Repeats, Distinct, FieldInDomain, ToJson, ToEntries;
    forall i | 0 <= i < |items|
      ensures ValueAt(json[i], key) ==
        match Get(items[i].entries, key) case None => None case Some(n) => Some(ToJson(lib, n))
    {
      MapJson(lib, items[i].entries);
      FirstOfMap(lib, items[i].entries, key);
    }
    forall i, j | 0 <= i < |items| && 0 <= j < |items|
      ensures ColumnKey(lib, f, key, items[i]).Some? <==> Column(f, key, json)[i].Some?
      ensures ColumnKey(lib, f, key, items[i]).Some? && ColumnKey(lib, f, key, items[j]).Some? ==>
        (ColumnKey(lib, f, key, items[i]) == ColumnKey(lib, f, key, items[j]) <==>
         Column(f, key, json)[i] == Column(f, key, json)[j])
    {
      var a, b := Get(items[i].entries, key), Get(items[j].entries, key);
      if a.Some? {
        ValidScalar(lib, f, a.value);
        CanonicalSide(lib, f, Resolve(lib, a.value), Resolve(lib, a.value));
        if b.Some? {
          ValidScalar(lib, f, b.value);
          CanonicalSide(lib, f, Resolve(lib, a.value), Resolve(lib, b.value));
        }
      }
    }
    NoRepeats(ColumnKeys(lib, f, key, items), Column(f, key, json));
  }

  function Anolis(lib: Library): Dialect {
    Dialect(lib.search, true)
  }

  lemma ScalarItemsSide(lib: Library, strict: bool, a: ArraySpec, items: seq<Node>, json: seq<Instance>, path: seq<Step>)
    requires a.item.ScalarItem?
    requires |json| == |items| && forall i | 0 <= i < |items| :: json[i] == ToJson(lib, items[i])
    requires forall i | 0 <= i < |items| :: ItemInDomain(lib, strict, a.item, items[i])
    ensures var means := (forall i | 0 <= i < |json| :: ItemMeans(Anolis(lib), InFull, a.item, json[i]))
                         && UniquenessMeans(Anolis(lib), a, json);
      && (Flatten(ItemErrors(lib, a, items, path)) == [] ==> means)
      && (strict && means ==> Flatten(ItemErrors(lib, a, items, path)) == [])
  {
    hide FieldErrors, FieldMeans, Repeats, Distinct, ToJson, ItemKeys, KeysOf, FieldInDomain;
    var f, es := a.item.field, ItemErrors(lib, a, items, path);
    FlattenEmpty(es);
    forall i | 0 <= i < |items|
      ensures es[i] == [] <==> FieldErrors(lib, f, items[i], []) == [] && !(a.unique && Repeats(ItemKeys(lib, f, items), i))
      ensures FieldErrors(lib, f, items[i], []) == [] ==> FieldMeans(lib.search, f, json[i])
      ensures strict && FieldMeans(lib.search, f, json[i]) ==> FieldErrors(lib, f, items[i], []) == []
      ensures FieldInDomain(false, f, Resolve(lib, items[i]))
    {
      Weaken(strict, f, Resolve(lib, items[i]));
      AnyPath(lib, f, items[i], path + [Index(i)]);
      NodeSide(lib, strict, f, items[i], []);
    }
    if forall i | 0 <= i < |items| :: FieldErrors(lib, f, items[i], []) == [] {
      ItemKeysSide(lib, f, items, json);
    }
  }

  lemma Weaken(strict: bool, f: FieldSpec, r: Resolved)
    requires FieldInDomain(strict, f, r)
    ensures FieldInDomain(false, f, r)
  {
  }

  lemma AnyPath(lib: Library, f: FieldSpec, node: Node, path: seq<Step>)
    ensures FieldErrors(lib, f, node, path) == [] <==> FieldErrors(lib, f, node, []) == []
  {
    hide Resolve;
    PathIrrelevant(lib, f, Resolve(lib, node), path);
  }

  lemma DuplicatesSide(lib: Library, o: ObjectSpec, items: seq<Node>, json: seq<Instance>, path: seq<Step>)
    requires |json| == |items| && forall i | 0 <= i < |items| :: json[i] == ToJson(lib, items[i])
    requires forall i | 0 <= i < |items| :: items[i].MapNode?
    requires forall i, m | 0 <= i < |items| && m in o.members && TracksUniqueness(m) ::
      Get(items[i].entries, m.key).Some? ==> ValidAt(lib, m.decl.field, Get(items[i].entries, m.key).value)
    ensures (forall i | 0 <= i < |items| :: Flatten(DuplicateErrors(lib, o, items, i, path)) == []) <==>
      ColumnsMean(o, json)
  {
    hide ToJson, Repeats, Distinct, ColumnKeys, Column, ValidAt;
    forall m | m in o.members && TracksUniqueness(m)
      ensures (forall i | 0 <= i < |items| :: !Repeats(ColumnKeys(lib, m.decl.field, m.key, items), i)) <==>
        Distinct(Column(m.decl.field, m.key, json))
    {
      ColumnSide(lib, m.decl.field, m.key, items, json);
    }
    forall i | 0 <= i < |items|
      ensures Flatten(DuplicateErrors(lib, o, items, i, path)) == [] <==>
        forall m | m in o.members && TracksUniqueness(m) ::
          !Repeats(ColumnKeys(lib, m.decl.field, m.key, items), i)
    {
      DuplicatesOfItem(lib, o, items, i, path);
    }
    if forall i | 0 <= i < |items| :: Flatten(DuplicateErrors(lib, o, items, i, path)) == [] {
      forall m | m in o.members && TracksUniqueness(m) ensures Distinct(Column(m.decl.field, m.key, json)) {
        forall i | 0 <= i < |items| ensures !Repeats(ColumnKeys(lib, m.decl.field, m.key, items), i) {
          assert Flatten(DuplicateErrors(lib, o, items, i, path)) == [];
        }
      }
    }
    if ColumnsMean(o, json) {
      forall i, m | 0 <= i < |items| && m in o.members && TracksUniqueness(m)
        ensures !Repeats(ColumnKeys(lib, m.decl.field, m.key, items), i)
      {
        assert Distinct(Column(m.decl.field, m.key, json));
      }
    }
  }

  lemma DuplicatesOfItem(lib: Library, o: ObjectSpec, items: seq<Node>, i: nat, path: seq<Step>)
    requires i < |items|
    ensures Flatten(DuplicateErrors(lib, o, items, i, path)) == [] <==>
      forall m | m in o.members && TracksUniqueness(m) ::
        !Repeats(ColumnKeys(lib, m.decl.field, m.key, items), i)
  {
    hide Repeats, ColumnKeys;
    var es := DuplicateErrors(lib, o, items, i, path);
    FlattenEmpty(es);
    assert forall k | 0 <= k < |es| :: es[k] == [] <==>
      !(TracksUniqueness(o.members[k]) && Repeats(ColumnKeys(lib, o.members[k].decl.field, o.members[k].key, items), i));
    assert forall m | m in o.members :: exists k | 0 <= k < |es| :: o.members[k] == m;
  }

  lemma SizeSide(a: ArraySpec, size: nat, path: seq<Step>)
    ensures SizeErrors(a, size, path) == [] <==> CountMeans(InFull, a, size)
  {
  }

  /** A valid item holds valid values at its unique members. */
  lemma TrackedValuesValid(lib: Library, strict: bool, o: ObjectSpec, node: Node, path: seq<Step>)
    requires InDomain(lib, strict, o, node) && ObjectErrors(lib, o, node, path) == []
    ensures node.MapNode?
    ensures forall m | m in o.members && TracksUniqueness(m) ::
      Get(node.entries, m.key).Some? ==> ValidAt(lib, m.decl.field, Get(node.entries, m.key).value)
  {
    hide Resolve, ResolvedErrors, FieldInDomain, BranchesErrors, DependenciesErrors, PresentErrors, KeyErrors;
    var es := MembersErrors(lib, o, node.entries, path);
    FlattenEmpty(es);
    forall m | m in o.members && TracksUniqueness(m) && Get(node.entries, m.key).Some?
      ensures ValidAt(lib, m.decl.field, Get(node.entries, m.key).value)
    {
      var i :| 0 <= i < |es| && o.members[i] == m;
      assert es[i] == [];
      var v := Get(node.entries, m.key).value;
      assert MemberInDomain(lib, strict, m, node.entries);
      assert DeclarationInDomain(lib, strict, m.decl, v);
      assert MemberErrors(lib, m, node.entries, path) == DeclarationErrors(lib, m.decl, v, path + [Key(m.key)]);
      AnyPath(lib, m.decl.field, v, path + [Key(m.key)]);
      Weaken(strict, m.decl.field, Resolve(lib, v));
    }
  }

  lemma ObjectItemsSide(lib: Library, strict: bool, a: ArraySpec, items: seq<Node>, json: seq<Instance>, path: seq<Step>)
    requires a.item.ObjectItem? && ArrayOk(lib, a)
    requires |json| == |items| && forall i | 0 <= i < |items| :: json[i] == ToJson(lib, items[i])
    requires forall i | 0 <= i < |items| :: ItemInDomain(lib, strict, a.item, items[i])
    ensures var means := (forall i | 0 <= i < |json| :: ItemMeans(Anolis(lib), InFull, a.item, json[i]))
                         && UniquenessMeans(Anolis(lib), a, json);
      var kept := forall i | 0 <= i < |items| :: ItemMapsObey(WellKept, a.item, items[i]);
      && (Flatten(ItemErrors(lib, a, items, path)) == [] ==> means && kept)
      && (strict && means && kept ==> Flatten(ItemErrors(lib, a, items, path)) == [])
    decreases a, 1
  {
    hide ObjectErrors, ObjectMeans, ColumnsMean, DuplicateErrors, ToJson, InDomain, MapsObey, ObjectOk;
    var o, es := a.item.child, ItemErrors(lib, a, items, path);
    FlattenEmpty(es);
    forall i | 0 <= i < |items|
      ensures es[i] == [] <==> ObjectErrors(lib, o, items[i], path + [Index(i)]) == []
                               && Flatten(DuplicateErrors(lib, o, items, i, path)) == []
      ensures ObjectErrors(lib, o, items[i], path + [Index(i)]) == [] ==>
        ObjectMeans(Anolis(lib), InFull, o, json[i]) && MapsObey(WellKept, o, items[i])
      ensures strict && ObjectMeans(Anolis(lib), InFull, o, json[i]) && MapsObey(WellKept, o, items[i]) ==>
        ObjectErrors(lib, o, items[i], path + [Index(i)]) == []
    {
      ObjectSide(lib, strict, o, true, items[i], path + [Index(i)]);
    }
    if forall i | 0 <= i < |items| :: ObjectErrors(lib, o, items[i], path + [Index(i)]) == [] {
      forall i | 0 <= i < |items|
        ensures items[i].MapNode?
        ensures forall m | m in o.members && TracksUniqueness(m) ::
          Get(items[i].entries, m.key).Some? ==> ValidAt(lib, m.decl.field, Get(items[i].entries, m.key).value)
      {
        TrackedValuesValid(lib, strict, o, items[i], path + [Index(i)]);
      }
      DuplicatesSide(lib, o, items, json, path);
    }
  }

  lemma ArraySide(lib: Library, strict: bool, a: ArraySpec, node: Node, path: seq<Step>)
    requires ArrayOk(lib, a) && DeclarationInDomain(lib, strict, Listed(a), node)
    ensures ArrayErrors(lib, a, node, path) == [] ==>
      ArrayMeans(Anolis(lib), InFull, a, ToJson(lib, node)) && DeclarationMapsObey(WellKept, Listed(a), node)
    ensures strict && DeclarationMapsObey(WellKept, Listed(a), node) ==>
      ArrayMeans(Anolis(lib), InFull, a, ToJson(lib, node)) ==> ArrayErrors(lib, a, node, path) == []
    decreases a, 2
  {
    hide ItemErrors, ItemMeans, UniquenessMeans, Resolve, ArrayOk, ItemInDomain, SizeErrors, MapsObey;
    if node.SequenceNode? {
      var json := ToJson(lib, node).items;
      SizeSide(a, |node.items|, path);
      if a.item.ScalarItem? {
        ScalarItemsSide(lib, strict, a, node.items, json, path);
      } else {
        ObjectItemsSide(lib, strict, a, node.items, json, path);
      }
    }
  }

  lemma DeclarationSide(lib: Library, strict: bool, m: Member, inItem: bool, node: Node, path: seq<Step>)
    requires MemberOk(lib, m, inItem) && DeclarationInDomain(lib, strict, m.decl, node)
    ensures DeclarationErrors(lib, m.decl, node, path) == [] ==>
      DeclarationMeans(Anolis(lib), InFull, m.decl, ToJson(lib, node)) && DeclarationMapsObey(WellKept, m.decl, node)
    ensures strict && DeclarationMapsObey(WellKept, m.decl, node) ==>
      DeclarationMeans(Anolis(lib), InFull, m.decl, ToJson(lib, node)) ==> DeclarationErrors(lib, m.decl, node, path) == []
    decreases m, 3
  {
    hide FieldErrors, FieldMeans, ObjectErrors, ObjectMeans, ArrayErrors, ArrayMeans, ToJson, Resolve, FieldInDomain,
         InDomain, MapsObey, ItemMapsObey, FieldOk, ObjectOk, ArrayOk;
    match m.decl
    case Scalar(f) => NodeSide(lib, strict, f, node, path);
    case Nested(o) => ObjectSide(lib, strict, o, false, node, path);
    case Listed(a) => ArraySide(lib, strict, a, node, path);
  }

  lemma MemberSide(lib: Library, strict: bool, m: Member, inItem: bool, entries: seq<(Node, Node)>, path: seq<Step>)
    requires MemberOk(lib, m, inItem) && MemberInDomain(lib, strict, m, entries) && KeysClean(entries)
    ensures var es := Flatten(ToEntries(lib, entries));
      var means, kept := MemberMeans(Anolis(lib), InFull, m, es), MemberMapsObey(WellKept, m, entries);
      && (MemberErrors(lib, m, entries, path) == [] ==> means && kept)
      && (strict && means && kept ==> MemberErrors(lib, m, entries, path) == [])
    decreases m, 4
  {
    hide DeclarationErrors, DeclarationMeans, DeclarationInDomain, DeclarationMapsObey, ToJson, ToEntries, Has,
         KeysClean, MemberOk;
    var es := Flatten(ToEntries(lib, entries));
    MapHasKey(lib, entries, m.key);
    FirstOfMap(lib, entries, m.key);
    if Get(entries, m.key).Some? {
      var value := Get(entries, m.key).value;
      DeclarationSide(lib, strict, m, inItem, value, path + [Key(m.key)]);
      assert (m.key, ToJson(lib, value)) in es;
      forall x | x in es && x.0 == m.key ensures x.1 == ToJson(lib, value) {
        CleanEntries(lib, entries, x);
      }
    }
  }

  lemma MembersSide(lib: Library, strict: bool, o: ObjectSpec, inItem: bool, entries: seq<(Node, Node)>, path: seq<Step>)
    requires ObjectOk(lib, o, inItem) && InDomain(lib, strict, o, MapNode(entries)) && KeysClean(entries)
    ensures var es := Flatten(ToEntries(lib, entries));
      var means := forall m | m in o.members :: MemberMeans(Anolis(lib), InFull, m, es);
      var kept := forall m | m in o.members :: MemberMapsObey(WellKept, m, entries);
      && (Flatten(MembersErrors(lib, o, entries, path)) == [] ==> means && kept)
      && (strict && means && kept ==> Flatten(MembersErrors(lib, o, entries, path)) == [])
    decreases o, 4
  {
    hide MemberErrors, MemberMeans, MemberInDomain, MemberMapsObey, ToEntries, KeysClean, MemberOk, ConditionalOk,
         DependentOk;
    var es := MembersErrors(lib, o, entries, path);
    FlattenEmpty(es);
    forall i | 0 <= i < |es|
      ensures es[i] == [] ==>
        && MemberMeans(Anolis(lib), InFull, o.members[i], Flatten(ToEntries(lib, entries)))
        && MemberMapsObey(WellKept, o.members[i], entries)
      ensures strict && MemberMapsObey(WellKept, o.members[i], entries) ==>
        MemberMeans(Anolis(lib), InFull, o.members[i], Flatten(ToEntries(lib, entries))) ==> es[i] == []
    {
      assert o.members[i] in o.members;
      MemberSide(lib, strict, o.members[i], inItem, entries, path);
    }
    assert forall i | 0 <= i < |es| :: o.members[i] in o.members;
    assert forall m | m in o.members :: exists i | 0 <= i < |es| :: o.members[i] == m;
  }

  lemma BranchesSide(lib: Library, o: ObjectSpec, entries: seq<(Node, Node)>, path: seq<Step>)
    requires KeysClean(entries)
    ensures Flatten(BranchesErrors(lib, o, entries, path)) == [] <==>
      forall c | c in o.conditionals :: BranchMeans(c, Flatten(ToEntries(lib, entries)))
  {
    hide BranchErrors, BranchMeans, ToEntries, KeysClean;
    var es := BranchesErrors(lib, o, entries, path);
    FlattenEmpty(es);
    forall i | 0 <= i < |es|
      ensures es[i] == [] <==> BranchMeans(o.conditionals[i], Flatten(ToEntries(lib, entries)))
    {
      BranchSide(lib, o.conditionals[i], entries, path);
    }
    assert forall c | c in o.conditionals :: exists i | 0 <= i < |es| :: o.conditionals[i] == c;
  }

  lemma DependenciesSide(lib: Library, o: ObjectSpec, entries: seq<(Node, Node)>, path: seq<Step>)
    ensures Flatten(DependenciesErrors(o, entries, path)) == [] <==>
      forall d | d in o.dependents :: DependentMeans(d, Flatten(ToEntries(lib, entries)))
  {
    hide DependencyErrors, DependentMeans, ToEntries, Has;
    var es := DependenciesErrors(o, entries, path);
    FlattenEmpty(es);
    forall i | 0 <= i < |es|
      ensures es[i] == [] <==> DependentMeans(o.dependents[i], Flatten(ToEntries(lib, entries)))
    {
      DependencySide(lib, o.dependents[i], entries, path);
    }
    assert forall d | d in o.dependents :: exists i | 0 <= i < |es| :: o.dependents[i] == d;
  }

  lemma ClosedSide(lib: Library, o: ObjectSpec, entries: seq<(Node, Node)>)
    ensures (forall k: string :: Has(entries, k) ==> Declares(o, k)) <==>
      forall x | x in Flatten(ToEntries(lib, entries)) :: Declares(o, x.0)
  {
    hide Has, ToEntries, Declares;
    var es := Flatten(ToEntries(lib, entries));
    forall k: string ensures HasKey(es, k) <==> Has(entries, k) { MapHasKey(lib, entries, k); }
    if forall k: string :: Has(entries, k) ==> Declares(o, k) {
      forall x | x in es ensures Declares(o, x.0) { assert HasKey(es, x.0); }
    }
  }

  /**
   For every checked declaration tree and every document in the domain: an empty
   error list means the document is what the declaration means and its maps are
   well kept at every depth, and on the strict domain the converse holds too.
   */
  lemma ObjectSide(lib: Library, strict: bool, o: ObjectSpec, inItem: bool, node: Node, path: seq<Step>)
    requires ObjectOk(lib, o, inItem) && InDomain(lib, strict, o, node)
    ensures ObjectErrors(lib, o, node, path) == [] ==>
      ObjectMeans(Anolis(lib), InFull, o, ToJson(lib, node)) && MapsObey(WellKept, o, node)
    ensures strict && ObjectMeans(Anolis(lib), InFull, o, ToJson(lib, node)) && MapsObey(WellKept, o, node) ==>
      ObjectErrors(lib, o, node, path) == []
    decreases o, 5
  {
    hide KeyErrors, PresentErrors, MembersErrors, BranchesErrors, DependenciesErrors, MemberMeans, BranchMeans,
         DependentMeans, MemberInDomain, MemberMapsObey, Declares, ToEntries, Has, Present, KeysClean;
    if node.MapNode? {
      var entries := node.entries;
      MapJson(lib, entries);
      KeyErrorsClean(entries, path);
      if KeysClean(entries) {
        KeysSide(o, entries, path);
        ClosedSide(lib, o, entries);
        MembersSide(lib, strict, o, inItem, entries, path);
        BranchesSide(lib, o, entries, path);
        DependenciesSide(lib, o, entries, path);
        DeprecatedAreUnknown(lib, o, inItem, entries);
      }
    }
  }

  /** Keeping maps well is having clean keys and no deprecated ones, at every depth. */
  lemma WellKeptIsBoth(o: ObjectSpec, node: Node)
    ensures MapsObey(WellKept, o, node) <==> MapsObey(CleanKeys, o, node) && MapsObey(NoDeprecated, o, node)
    decreases o, 5
  {
    hide KeysClean, NoDeprecatedKey, DeclarationMapsObey;
    if node.MapNode? {
      forall m | m in o.members && Get(node.entries, m.key).Some?
        ensures var v := Get(node.entries, m.key).value;
          DeclarationMapsObey(WellKept, m.decl, v) <==>
            DeclarationMapsObey(CleanKeys, m.decl, v) && DeclarationMapsObey(NoDeprecated, m.decl, v)
      {
        DeclarationWellKept(m.decl, Get(node.entries, m.key).value);
      }
    }
  }

  lemma DeclarationWellKept(decl: Declaration, node: Node)
    ensures DeclarationMapsObey(WellKept, decl, node) <==>
      DeclarationMapsObey(CleanKeys, decl, node) && DeclarationMapsObey(NoDeprecated, decl, node)
    decreases decl, 3
  {
    hide MapsObey;
    match decl
    case Scalar(_) =>
    case Nested(o) => WellKeptIsBoth(o, node);
    case Listed(a) =>
      if node.SequenceNode? && a.item.ObjectItem? {
        forall i | 0 <= i < |node.items| { WellKeptIsBoth(a.item.child, node.items[i]); }
      }
  }

  lemma DeprecatedAreUnknown(lib: Library, o: ObjectSpec, inItem: bool, entries: seq<(Node, Node)>)
    requires ObjectOk(lib, o, inItem)
    ensures (forall k: string :: Has(entries, k) ==> Declares(o, k)) ==> NoDeprecatedKey(o, entries)
  {
    hide MemberOk, ConditionalOk, DependentOk, Has;
  }
}
