/**
 Inputs at which the toolkit's promises fail, where the theorems say they do:
 documents that tell validator and emitted schema apart (a maximum beyond int64, a
 deprecated key, one I2C address spelt in two ways), and a declaration whose emitted
 document repeats a key.
 */
module DriftWitnesses {
  import opened Base
  import opened JsonSchema
  import opened ConfigSpec
  import opened ConfigCheck
  import opened ConfigEmit
  import opened ConfigMeaning
  import opened ConfigValidate
  import opened EmittedDocument
  import opened JsonText
  import opened NoDrift
  import opened Scalars
  import opened ScalarFacts
  import opened SchemaTree
  import opened ValidatorMeaning
  import opened Yaml
  import Envelope
  import SchemaValidity
  import Utf8

  // ---- a maximum beyond int64 -------------------------------------------------------------

  function CappedMember(n: SizeT): Member {
    Member("a", false, Listed(BareArray(None, Some(n))))
  }

  /** A closed root whose one member "a" is a bare array with this maximum. */
  function CappedRoot(n: SizeT): SchemaSpec {
    SchemaSpec(ObjectSpec(Closed, [CappedMember(n)], [], [], [], "", ""), None, None, None)
  }

  /** The document `a: []`. */
  const EMPTY_A := MapNode([(ScalarNode("a", false), NO_ITEMS)])

  lemma CappedRootConstructed(lib: Library, n: SizeT)
    requires Lawful(lib.search)
    ensures Constructed(lib, CappedRoot(n))
  {
    hide Utf8.IsValid, ArrayBuilt, ArrayOk, Lawful;
    var o := CappedRoot(n).root;
    BareArrayDeclarable(lib, None, Some(n));
    Utf8.AsciiIsValid("a");
    Utf8.AsciiIsValid("");
    assert MemberBuilt(CappedMember(n)) && MemberOk(lib, CappedMember(n), false);
    assert MemberKeys(o) == ["a"];
    assert BranchIds(o.conditionals) == [] && DependentKeys(o.dependents) == [];
  }

  lemma EmptyAReads(lib: Library)
    ensures ToJson(lib, EMPTY_A) == Record([("a", List([]))])
  {
    MapJson(lib, EMPTY_A.entries);
    var parts := ToEntries(lib, EMPTY_A.entries);
    assert ToJson(lib, NO_ITEMS).items == [];
    assert parts == [[("a", List([]))]] && parts[1..] == [];
    assert Flatten(parts) == [("a", List([]))] + Flatten([]);
  }

  lemma EmptyAInDomain(lib: Library, n: SizeT)
    ensures InDomain(lib, true, CappedRoot(n).root, EMPTY_A) && MapsObey(WellKept, CappedRoot(n).root, EMPTY_A)
  {
    var entries := EMPTY_A.entries;
    assert KeyedBy(entries[0], "a") && Get(entries, "a") == Some(NO_ITEMS);
    assert forall m | m in CappedRoot(n).root.members :: m == CappedMember(n);
    assert MemberInDomain(lib, true, CappedMember(n), entries);
    assert MemberMapsObey(WellKept, CappedMember(n), entries);
  }

  /** The empty array meets a maximum exactly when the maximum, as read, is not negative. */
  lemma EmptyAMeans(d: Dialect, c: Counts, n: SizeT)
    ensures ObjectMeans(d, c, CappedRoot(n).root, Record([("a", List([]))])) <==> 0 <= Limit(c, n)
  {
    hide FieldMeans, Distinct;
    var o, m, entries := CappedRoot(n).root, CappedMember(n), [("a", List([]))];
    assert m in o.members && forall x | x in o.members :: x == m;
    assert entries[0] in entries && forall x | x in entries :: x == entries[0];
    assert ArrayMeans(d, c, m.decl.list, List([])) <==> 0 <= Limit(c, n);
    assert MemberMeans(d, c, m, entries) <==> 0 <= Limit(c, n);
    assert Declares(o, "a");
  }

  /**
   A maximum past int64 makes the validator laxer than the schema: it passes `a: []`,
   which no reader of the emitted schema accepts, the emitted maximum being negative.
   */
  lemma LaxMaximum(lib: Library, d: Dialect, n: SizeT)
    requires Lawful(lib.search) && Lawful(d.search) && n > INT64_MAX
    ensures Constructed(lib, CappedRoot(n)) && InDomain(lib, true, CappedRoot(n).root, EMPTY_A)
    ensures MapsObey(WellKept, CappedRoot(n).root, EMPTY_A)
    ensures Validate(lib, CappedRoot(n), EMPTY_A) == []
    ensures !Accepts(d, EmitSchema(CappedRoot(n)), ToJson(lib, EMPTY_A))
  {
    hide Lawful, ObjectBuilt, ObjectOk, ObjectErrors, ObjectMeans, InDomain, MapsObey, Accepts, EmitSchema, ToJson;
    CappedRootConstructed(lib, n);
    EmptyAInDomain(lib, n);
    EmptyAReads(lib);
    ObjectSide(lib, true, CappedRoot(n).root, false, EMPTY_A, []);
    EmptyAMeans(Anolis(lib), InFull, n);
    EmptyAMeans(d, AsEmitted, n);
    RootAgrees(d, CappedRoot(n), ToJson(lib, EMPTY_A));
  }

  // ---- a deprecated key -------------------------------------------------------------------

  /** An open root that declares nothing and deprecates "old". */
  function DeprecatingRoot(): SchemaSpec {
    SchemaSpec(ObjectSpec(Open, [], [], [], [Deprecated("old", "")], "", ""), None, None, None)
  }

  /** The document `old: "1"`. */
  const OLD_ONE := MapNode([(ScalarNode("old", false), ScalarNode("1", true))])

  lemma DeprecatingRootConstructed(lib: Library)
    requires Lawful(lib.search)
    ensures Constructed(lib, DeprecatingRoot())
  {
    hide Utf8.IsValid, Lawful;
    var o := DeprecatingRoot().root;
    Utf8.AsciiIsValid("old");
    Utf8.AsciiIsValid("");
    assert MemberKeys(o) == [] && BranchIds(o.conditionals) == [] && DependentKeys(o.dependents) == [];
  }

  lemma OldOneReads(lib: Library)
    ensures ToJson(lib, OLD_ONE) == Record([("old", Text("1"))])
  {
    MapJson(lib, OLD_ONE.entries);
    var parts := ToEntries(lib, OLD_ONE.entries);
    assert parts == [[("old", Text("1"))]] && parts[1..] == [];
    assert Flatten(parts) == [("old", Text("1"))] + Flatten([]);
  }

  lemma OldOneInDomain(lib: Library)
    ensures InDomain(lib, true, DeprecatingRoot().root, OLD_ONE) && MapsObey(CleanKeys, DeprecatingRoot().root, OLD_ONE)
    ensures !MapsObey(NoDeprecated, DeprecatingRoot().root, OLD_ONE)
  {
    assert KeyedBy(OLD_ONE.entries[0], "old") && Has(OLD_ONE.entries, "old");
    assert Deprecated("old", "") in DeprecatingRoot().root.deprecated;
  }

  lemma OldOneMeans(d: Dialect, c: Counts)
    ensures ObjectMeans(d, c, DeprecatingRoot().root, Record([("old", Text("1"))]))
    ensures ArraysObey(CountsFit, DeprecatingRoot().root, Record([("old", Text("1"))]))
  {
  }

  /** A deprecated key in an Open map: the validator rejects the document, every reader of the schema accepts it. */
  lemma DeprecatedPassesSchema(lib: Library, d: Dialect)
    requires Lawful(lib.search) && Lawful(d.search)
    ensures Constructed(lib, DeprecatingRoot()) && InDomain(lib, true, DeprecatingRoot().root, OLD_ONE)
    ensures MapsObey(CleanKeys, DeprecatingRoot().root, OLD_ONE)
    ensures Validate(lib, DeprecatingRoot(), OLD_ONE) != []
    ensures Accepts(d, EmitSchema(DeprecatingRoot()), ToJson(lib, OLD_ONE))
  {
    hide Lawful, ObjectBuilt, ObjectOk, ObjectErrors, ObjectMeans, InDomain, MapsObey, ArraysObey, Accepts, EmitSchema,
      ToJson;
    DeprecatingRootConstructed(lib);
    OldOneInDomain(lib);
    OldOneReads(lib);
    OldOneMeans(d, AsEmitted);
    DeprecatedKeysExact(lib, DeprecatingRoot(), OLD_ONE);
    RootAgrees(d, DeprecatingRoot(), ToJson(lib, OLD_ONE));
  }

  // ---- a key named twice by a branch --------------------------------------------------------

  function StringMember(key: string): Member {
    Member(key, false, Scalar(BlankField(key, StringKind)))
  }

  /** Two string members, and a branch on "k" that names "a" twice: to forbid it, or to require it. */
  function TwiceNaming(forbids: bool): SchemaSpec {
    var twice := ["a", "a"];
    var branch := Conditional("k", "x", if forbids then [] else twice, if forbids then twice else []);
    SchemaSpec(ObjectSpec(Closed, [StringMember("k"), StringMember("a")], [branch], [], [], "", ""), None, None, None)
  }

  lemma StringMemberOk(lib: Library, key: string)
    requires key != "" && Utf8.IsValid(key)
    ensures MemberBuilt(StringMember(key)) && MemberOk(lib, StringMember(key), false)
  {
    hide Utf8.IsValid;
    Utf8.AsciiIsValid("");
    var f := BlankField(key, StringKind);
    assert EnumTexts(f) == [] && ForbiddenTexts(f) == [];
  }

  lemma NamingBranchOk(forbids: bool)
    ensures var o := TwiceNaming(forbids).root;
      ConditionalOk(o, o.conditionals[0]) && Declares(o, "k") && Declares(o, "a")
  {
    hide Utf8.IsValid;
    var o := TwiceNaming(forbids).root;
    var k, a := o.members[0], o.members[1];
    Utf8.AsciiIsValid("x");
    assert k in o.members && a in o.members;
    assert EnumTexts(k.decl.field) == [] && Accepted(k.decl.field) == [];
    assert forall m | m in o.members :: !m.required;
  }

  lemma TwoMembers(lib: Library, forbids: bool)
    ensures var o := TwiceNaming(forbids).root;
      AllDistinct(MemberKeys(o)) && forall m | m in o.members :: MemberBuilt(m) && MemberOk(lib, m, false)
  {
    hide Utf8.IsValid, MemberBuilt, MemberOk;
    Utf8.AsciiIsValid("k");
    Utf8.AsciiIsValid("a");
    StringMemberOk(lib, "k");
    StringMemberOk(lib, "a");
    assert MemberKeys(TwiceNaming(forbids).root) == ["k", "a"] && "k"[0] != "a"[0];
  }

  lemma TwiceNamingBuilt(lib: Library, forbids: bool)
    ensures SchemaBuilt(lib, TwiceNaming(forbids))
  {
    hide Utf8.IsValid, MemberBuilt, MemberOk, ConditionalOk;
    Utf8.AsciiIsValid("");
    TwoMembers(lib, forbids);
    NamingBranchOk(forbids);
    assert DependentKeys([]) == [];
  }

  lemma NotForbiddenOnce()
    ensures !ForbidsDistinct(TwiceNaming(true).root)
  {
    var c := TwiceNaming(true).root.conditionals[0];
    assert c in TwiceNaming(true).root.conditionals && c.forbidKeys[0] == c.forbidKeys[1];
  }

  /** The tree passes every check, and each envelope printed for it parses to a document that repeats a key. */
  lemma TwiceForbiddingRepeats(lib: Library, fmt: Format, o: Envelope.Options)
    requires FormatsNumbers(fmt) && Envelope.OptionsOk(o)
    ensures SchemaBuilt(lib, TwiceNaming(true))
    ensures var parsed := Parse(Print(fmt, Envelope.Tree(TwiceNaming(true), o), 0));
      parsed.Some? && !Envelope.KeysOnce(parsed.value)
  {
    hide Print, Parse, ToDoc, Envelope.Tree, Envelope.KeysOnce, ForbidsDistinct, SchemaBuilt, Envelope.OptionsOk,
      FormatsNumbers;
    TwiceNamingBuilt(lib, true);
    NotForbiddenOnce();
    Envelope.EnvelopeReadsBack(lib, fmt, TwiceNaming(true), o);
  }

  lemma NotRequiredOnce()
    ensures !SchemaValidity.EmitsValid(TwiceNaming(false).root)
  {
    var c := TwiceNaming(false).root.conditionals[0];
    assert c in TwiceNaming(false).root.conditionals && c.requireKeys[0] == c.requireKeys[1];
  }

  /** Two trees that pass every check and whose emitted document is no schema: a repeated `require`, a cast maximum. */
  lemma EmittedNotValid(lib: Library, n: SizeT)
    requires Lawful(lib.search) && !CountFits(Some(n))
    ensures SchemaBuilt(lib, TwiceNaming(false)) && !SchemaValidity.ValidSchema(EmitSchema(TwiceNaming(false)))
    ensures SchemaBuilt(lib, CappedRoot(n)) && !SchemaValidity.ValidSchema(EmitSchema(CappedRoot(n)))
  {
    hide SchemaValidity.ValidSchema, EmitSchema, ObjectBuilt, ObjectOk, Utf8.IsValid, Lawful;
    TwiceNamingBuilt(lib, false);
    NotRequiredOnce();
    SchemaValidity.RootValid(lib, TwiceNaming(false));
    CappedRootConstructed(lib, n);
    assert CappedMember(n) in CappedRoot(n).root.members;
    Utf8.AsciiIsValid("");
    SchemaValidity.RootValid(lib, CappedRoot(n));
  }

  // ---- two notions of uniqueness ----------------------------------------------------------

  /** On these items parsed-value uniqueness and JSON uniqueness give the same verdict. */
  predicate SameUniqueness(f: FieldSpec, items: seq<Instance>) {
    Distinct(KeysOf(f, items)) <==> forall i, k | 0 <= i < k < |items| :: !Same(items[i], items[k])
  }

  predicate AllMean(search: (string, string) -> bool, f: FieldSpec, items: seq<Instance>) {
    forall i | 0 <= i < |items| :: FieldMeans(search, f, items[i])
  }

  /** Each key is its item's own, so JSON uniqueness is parsed-value uniqueness. */
  lemma OwnKeysCoincide(search: (string, string) -> bool, f: FieldSpec, items: seq<Instance>)
    requires AllMean(search, f, items)
    requires f.kind != I2cAddressKind || forall i | 0 <= i < |items| :: items[i].Number?
    ensures SameUniqueness(f, items)
  {
    hide FieldMeans, Same;
    forall i | 0 <= i < |items| ensures KeyOf(f, items[i]) == Some(items[i]) {
      OwnKey(search, f, items[i]);
    }
    forall i, k | 0 <= i < k < |items| ensures Same(items[i], items[k]) <==> items[i] == items[k] {
      OwnKey(search, f, items[i]);
      OwnKey(search, f, items[k]);
      SameScalars(items[i], items[k]);
    }
    assert forall i | 0 <= i < |items| :: KeysOf(f, items)[i] == Some(items[i]);
  }

  lemma OwnKey(search: (string, string) -> bool, f: FieldSpec, inst: Instance)
    requires FieldMeans(search, f, inst) && (f.kind != I2cAddressKind || inst.Number?)
    ensures KeyOf(f, inst) == Some(inst) && (inst.Number? || inst.Text? || inst.Boolean?)
  {
  }

  /** The two notions coincide on every list of valid items exactly for the kinds other than an I2C address. */
  lemma UniquenessByKind(search: (string, string) -> bool, kind: FieldKind)
    ensures (forall f: FieldSpec, items | f.kind == kind && AllMean(search, f, items) :: SameUniqueness(f, items)) <==>
      kind != I2cAddressKind
  {
    hide FieldMeans, SameUniqueness;
    if kind != I2cAddressKind {
      forall f: FieldSpec, items | f.kind == kind && AllMean(search, f, items) ensures SameUniqueness(f, items) {
        OwnKeysCoincide(search, f, items);
      }
    } else {
      EightTwice(search);
    }
  }

  const EIGHT_TWICE := [Number(8.0), Text("0x08")]

  lemma EightTwice(search: (string, string) -> bool)
    ensures AllMean(search, BareField(I2cAddressKind), EIGHT_TWICE)
    ensures !SameUniqueness(BareField(I2cAddressKind), EIGHT_TWICE)
  {
    var f, s := BareField(I2cAddressKind), "0x08";
    assert I2cHexForm(s);
    HexPairValue(s);
    assert KeyOf(f, Text(s)) == Some(Number(8.0));
    var keys := KeysOf(f, EIGHT_TWICE);
    assert keys[0] == Some(Number(8.0)) && keys[1] == Some(Number(8.0));
    assert !Distinct(keys);
    assert !Same(EIGHT_TWICE[0], EIGHT_TWICE[1]);
  }

  /** A unique array of I2C addresses. */
  function AddressArray(): ArraySpec {
    ArraySpec(ScalarItem(BareField(I2cAddressKind)), None, None, true, "", "")
  }

  /** The document `[8, "0x08"]`. */
  const EIGHT_NODES := SequenceNode([ScalarNode("8", false), ScalarNode("0x08", true)])

  lemma EightReads(lib: Library)
    ensures Resolve(lib, ScalarNode("8", false)) == RInt(8)
    ensures ToJson(lib, EIGHT_NODES) == List(EIGHT_TWICE)
  {
    hide ResolvePlain;
    assert ToText(8) == "8";
    PrintedIntegerResolves(lib, 8);
    var json := ToJson(lib, EIGHT_NODES).items;
    assert json[0] == ToJson(lib, ScalarNode("8", false)) == Number(8 as real);
    assert json[1] == ToJson(lib, ScalarNode("0x08", true)) == Text("0x08");
    assert json == EIGHT_TWICE;
  }

  /** The validator is strictly stricter than a plain reader: it alone sees that 8 and "0x08" are one address. */
  lemma PlainReaderMissesAddress(lib: Library)
    requires Lawful(lib.search)
    ensures ArrayDeclarable(lib, AddressArray()) && ItemsInDomain(lib, AddressArray(), EIGHT_NODES)
    ensures ArrayErrors(lib, AddressArray(), EIGHT_NODES, []) != []
    ensures Accepts(Plain2020(lib), EmitArray(AddressArray()), ToJson(lib, EIGHT_NODES))
  {
    hide Lawful, ArrayErrors, EmitArray, Accepts, FieldMeans, FieldBuilt, FieldOk, Utf8.IsValid, Distinct, Same,
      ResolvePlain;
    var a, f := AddressArray(), BareField(I2cAddressKind);
    BareFieldDeclarable(lib, I2cAddressKind);
    Utf8.AsciiIsValid("");
    EightReads(lib);
    EightTwice(lib.search);
    ParsedNotDistinct(lib.search, f);
    ArraySide(lib, true, a, EIGHT_NODES, []);
    ArrayAgrees(Plain2020(lib), a, List(EIGHT_TWICE));
  }

  lemma ParsedNotDistinct(search: (string, string) -> bool, f: FieldSpec)
    requires AllMean(search, f, EIGHT_TWICE) && !SameUniqueness(f, EIGHT_TWICE)
    ensures !Distinct(KeysOf(f, EIGHT_TWICE)) && forall i, k | 0 <= i < k < 2 :: !Same(EIGHT_TWICE[i], EIGHT_TWICE[k])
  {
    hide FieldMeans, Distinct, Same;
    if Distinct(KeysOf(f, EIGHT_TWICE)) { ParsedDistinctIsDistinct(search, f, EIGHT_TWICE); }
  }
}
