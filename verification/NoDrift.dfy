/**
 The promise of the config toolkit: the schema a client reads and the
 validation the provider enforces cannot drift, because one declaration is
 compiled to the first and interpreted by the second.
 */
module NoDrift {
  import opened Base
  import opened JsonSchema
  import opened ConfigSpec
  import opened ConfigCheck
  import opened ConfigEmit
  import opened ConfigMeaning
  import opened ConfigValidate
  import opened Scalars
  import opened ScalarFacts
  import opened SchemaMeaning
  import opened SchemaTree
  import opened ValidatorMeaning
  import ConfigBuilder
  import opened Yaml
  import Utf8

  /** A tree the builder made and the schema constructor accepted, under a regular-expression library that is lawful. */
  ghost predicate Constructed(lib: Library, s: SchemaSpec) {
    Lawful(lib.search) && ObjectBuilt(s.root) && ObjectOk(lib, s.root, false)
  }

  function Validate(lib: Library, s: SchemaSpec, doc: Node): Errors {
    ObjectErrors(lib, s.root, doc, [])
  }

  /** A reader that ignores every `x-anolis-*` keyword. */
  function Plain2020(lib: Library): Dialect {
    Dialect(lib.search, false)
  }

  /**
   The drift, exactly. On every document whose scalars are in their fields' domains,
   the validator reports nothing and every array maximum it met survives the emitter's
   cast, if and only if the emitted schema accepts, every array met its declared
   minimum, every map has clean keys, and no Open map holds a deprecated key, all at
   any depth.
   */
  lemma DriftExactly(lib: Library, s: SchemaSpec, doc: Node)
    requires Constructed(lib, s) && InDomain(lib, true, s.root, doc)
    ensures var json := ToJson(lib, doc);
      Validate(lib, s, doc) == [] && ArraysObey(MaxFits, s.root, json) <==>
        && Accepts(Anolis(lib), EmitSchema(s), json)
        && ArraysObey(MinMet, s.root, json)
        && MapsObey(CleanKeys, s.root, doc) && MapsObey(NoDeprecated, s.root, doc)
  {
    hide ObjectErrors, ObjectMeans, Accepts, InDomain, EmitSchema, ToJson, Lawful, ObjectBuilt, ObjectOk, ArraysObey,
      MapsObey;
    ObjectSide(lib, true, s.root, false, doc, []);
    ObjectCounts(Anolis(lib), s.root, ToJson(lib, doc));
    RootAgrees(Anolis(lib), s, ToJson(lib, doc));
    WellKeptIsBoth(s.root, doc);
  }

  /**
   The two surfaces agree: where the counts of the arrays met survive the cast and
   the maps are well kept, the validator reports nothing exactly when the emitted
   schema accepts the document.
   */
  lemma ValidatorAndSchemaAgree(lib: Library, s: SchemaSpec, doc: Node)
    requires Constructed(lib, s) && InDomain(lib, true, s.root, doc)
    requires MapsObey(WellKept, s.root, doc) && ArraysObey(CountsFit, s.root, ToJson(lib, doc))
    ensures Validate(lib, s, doc) == [] <==> Accepts(Anolis(lib), EmitSchema(s), ToJson(lib, doc))
  {
    hide ObjectErrors, ObjectMeans, Accepts, InDomain, EmitSchema, ToJson, Lawful, ObjectBuilt, ObjectOk, ArraysObey,
      MapsObey;
    ObjectSide(lib, true, s.root, false, doc, []);
    ObjectCounts(Anolis(lib), s.root, ToJson(lib, doc));
    RootAgrees(Anolis(lib), s, ToJson(lib, doc));
  }

  // ---- never laxer than a plain reader --------------------------------------------------

  lemma ItemWeakens(search: (string, string) -> bool, c: Counts, item: Item, inst: Instance)
    requires ItemMeans(Dialect(search, true), c, item, inst)
    ensures ItemMeans(Dialect(search, false), c, item, inst)
    decreases item, 1
  {
    if item.ObjectItem? { ObjectWeakens(search, c, item.child, inst); }
  }

  lemma ArrayWeakens(search: (string, string) -> bool, c: Counts, a: ArraySpec, inst: Instance)
    requires ArrayMeans(Dialect(search, true), c, a, inst)
    ensures ArrayMeans(Dialect(search, false), c, a, inst)
    decreases a, 2
  {
    hide FieldMeans, ObjectMeans, Distinct, Same, KeysOf;
    forall i | 0 <= i < |inst.items| ensures ItemMeans(Dialect(search, false), c, a.item, inst.items[i]) {
      ItemWeakens(search, c, a.item, inst.items[i]);
    }
    if a.item.ScalarItem? && a.unique {
      ParsedDistinctIsDistinct(search, a.item.field, inst.items);
    }
  }

  lemma DeclarationWeakens(search: (string, string) -> bool, c: Counts, decl: Declaration, inst: Instance)
    requires DeclarationMeans(Dialect(search, true), c, decl, inst)
    ensures DeclarationMeans(Dialect(search, false), c, decl, inst)
    decreases decl, 3
  {
    hide FieldMeans, ObjectMeans, ArrayMeans;
    match decl
    case Scalar(_) =>
    case Nested(o) => ObjectWeakens(search, c, o, inst);
    case Listed(a) => ArrayWeakens(search, c, a, inst);
  }

  /** Parsed-value uniqueness implies uniqueness of JSON values, at every depth. */
  lemma ObjectWeakens(search: (string, string) -> bool, c: Counts, o: ObjectSpec, inst: Instance)
    requires ObjectMeans(Dialect(search, true), c, o, inst)
    ensures ObjectMeans(Dialect(search, false), c, o, inst)
    decreases o, 5
  {
    hide DeclarationMeans, BranchMeans, DependentMeans, Declares, HasKey;
    var d, d' := Dialect(search, true), Dialect(search, false);
    forall m | m in o.members ensures MemberMeans(d', c, m, inst.entries) {
      assert MemberMeans(d, c, m, inst.entries);
      forall x | x in inst.entries && x.0 == m.key ensures DeclarationMeans(d', c, m.decl, x.1) {
        DeclarationWeakens(search, c, m.decl, x.1);
      }
    }
  }

  /**
   The validator is never laxer than the emitted schema: a document that passes is
   accepted by every reader, with or without the `x-anolis-*` keywords. The only
   conditions are that integers at Number fields are exact as doubles and that the
   maximum of every array met survives the cast.
   */
  lemma ValidatorNeverLaxer(lib: Library, s: SchemaSpec, doc: Node)
    requires Constructed(lib, s) && InDomain(lib, false, s.root, doc)
    requires ArraysObey(MaxFits, s.root, ToJson(lib, doc)) && Validate(lib, s, doc) == []
    ensures Accepts(Anolis(lib), EmitSchema(s), ToJson(lib, doc))
    ensures Accepts(Plain2020(lib), EmitSchema(s), ToJson(lib, doc))
  {
    hide ObjectErrors, ObjectMeans, Accepts, InDomain, EmitSchema, ToJson, Lawful, ObjectBuilt, ObjectOk, ArraysObey,
      MapsObey;
    var inst := ToJson(lib, doc);
    ObjectSide(lib, false, s.root, false, doc, []);
    ObjectCounts(Anolis(lib), s.root, inst);
    ObjectWeakens(lib.search, AsEmitted, s.root, inst);
    RootAgrees(Anolis(lib), s, inst);
    RootAgrees(Plain2020(lib), s, inst);
  }

  // ---- the conditions are exact -----------------------------------------------------------

  function BareField(kind: FieldKind): FieldSpec {
    BlankField("value", kind)
  }

  ghost predicate SidesAgree(lib: Library, f: FieldSpec, r: Resolved) {
    ResolvedErrors(lib, f, r, []) == [] <==> Accepts(Anolis(lib), EmitField(f), ScalarJson(r))
  }

  ghost predicate Declarable(lib: Library, f: FieldSpec) {
    FieldBuilt(f) && FieldOk(lib, f, false)
  }

  lemma BareTextsOk(kind: FieldKind)
    ensures FieldTextsOk(BareField(kind))
  {
    hide Utf8.IsValid;
    Utf8.AsciiIsValid("value");
    Utf8.AsciiIsValid("");
  }

  lemma BareFieldDeclarable(lib: Library, kind: FieldKind)
    ensures Declarable(lib, BareField(kind))
  {
    hide FieldTextsOk, AllDistinct;
    BareTextsOk(kind);
    ConfigBuilder.BlankBuilt("value", kind);
    assert EnumTexts(BareField(kind)) == [];
  }

  /** A Number field with a minimum or a maximum, not both. */
  function BoundedField(min: Option<real>, max: Option<real>): FieldSpec {
    BareField(NumberKind).(minNumber := min, maxNumber := max)
  }

  lemma BoundedFieldDeclarable(lib: Library, min: Option<real>, max: Option<real>)
    requires min.None? || max.None?
    ensures Declarable(lib, BoundedField(min, max))
  {
    hide TextOk, AllDistinct;
    var f, bare := BoundedField(min, max), BareField(NumberKind);
    BareFieldDeclarable(lib, NumberKind);
    assert EnumTexts(f) == EnumTexts(bare) == [] && ForbiddenTexts(f) == ForbiddenTexts(bare);
  }

  lemma ExactIntegersAgree(lib: Library, n: int, f: FieldSpec)
    requires IsInt64(n) && Lawful(lib.search) && DoubleOfInt(n) == n
    requires f.kind == NumberKind && Declarable(lib, f)
    ensures SidesAgree(lib, f, RInt(n))
  {
    hide EmitField, Accepts, DoubleOfInt, Lawful, AllDistinct, FieldOk, ResolvedErrors, FieldMeans;
    FieldSide(lib, true, f, RInt(n), []);
    FieldAgrees(Anolis(lib), f, ScalarJson(RInt(n)));
  }

  /** The field that tells an inexact integer from its conversion: bounded by the conversion, on the far side. */
  function TellingField(n: int): FieldSpec {
    var bound := Some(DoubleOfInt(n) as real);
    if DoubleOfInt(n) < n then BoundedField(None, bound) else BoundedField(bound, None)
  }

  lemma InexactIntegersDisagree(lib: Library, n: int)
    requires Lawful(lib.search) && DoubleOfInt(n) != n
    ensures Declarable(lib, TellingField(n)) && !SidesAgree(lib, TellingField(n), RInt(n))
  {
    hide EmitField, Accepts, DoubleOfInt, Lawful, Declarable;
    var f := TellingField(n);
    BoundedFieldDeclarable(lib, f.minNumber, f.maxNumber);
    BuiltField(lib, f);
    FieldAgrees(Anolis(lib), f, ScalarJson(RInt(n)));
  }

  /**
   An integer is treated alike by validator and schema at every Number field
   exactly when it is itself a double: the validator compares after the cast.
   */
  lemma NumberFieldsNeedExactIntegers(lib: Library, n: int)
    requires IsInt64(n) && Lawful(lib.search)
    ensures (forall f: FieldSpec | f.kind == NumberKind && Declarable(lib, f) :: SidesAgree(lib, f, RInt(n))) <==>
      IsDouble(n)
  {
    hide DoubleOfInt, Lawful, IsDouble, Declarable, SidesAgree;
    ExactIffDouble(n);
    if DoubleOfInt(n) == n {
      forall f: FieldSpec | f.kind == NumberKind && Declarable(lib, f) ensures SidesAgree(lib, f, RInt(n)) {
        ExactIntegersAgree(lib, n, f);
      }
    } else {
      InexactIntegersDisagree(lib, n);
      assert TellingField(n).kind == NumberKind;
    }
  }

  /** Up to 2^53 all is well; 2^53 + 1 passes a Number field whose maximum is 2^53, and the schema rejects it. */
  lemma FirstInexactInteger(lib: Library, n: int)
    requires Lawful(lib.search)
    ensures Abs(n) <= 0x20_0000_0000_0000 ==>
      forall f: FieldSpec | f.kind == NumberKind && Declarable(lib, f) :: SidesAgree(lib, f, RInt(n))
    ensures var f := BoundedField(None, Some(9007199254740992.0));
      && Declarable(lib, f)
      && ResolvedErrors(lib, f, RInt(0x20_0000_0000_0001), []) == []
      && !Accepts(Anolis(lib), EmitField(f), ScalarJson(RInt(0x20_0000_0000_0001)))
  {
    hide EmitField, Accepts, Lawful, IsDouble, Declarable, SidesAgree, Spacing;
    SmallIntegersExact(n);
    if Abs(n) <= 0x20_0000_0000_0000 { NumberFieldsNeedExactIntegers(lib, n); }
    var f := BoundedField(None, Some(9007199254740992.0));
    BoundedFieldDeclarable(lib, None, f.maxNumber);
    BuiltField(lib, f);
    FieldAgrees(Anolis(lib), f, ScalarJson(RInt(0x20_0000_0000_0001)));
    SpacingAfterLimit();
  }

  lemma BuiltField(lib: Library, f: FieldSpec)
    requires Declarable(lib, f)
    ensures FieldBuilt(f)
  {
  }

  lemma SpacingAfterLimit()
    ensures DoubleOfInt(0x20_0000_0000_0001) == 0x20_0000_0000_0000
  {
    assert Spacing(0x20_0000_0000_0001, 2) == 2;
  }

  /** A finite float is treated alike at every Integer field exactly when it is no whole number beyond int64. */
  lemma IntegerFieldsNeedInt64(lib: Library, v: real)
    requires Lawful(lib.search)
    ensures (forall f: FieldSpec | f.kind == IntegerKind && Declarable(lib, f) :: SidesAgree(lib, f, RFloat(Finite(v))))
      <==> (IsWhole(v) ==> IsInt64(v.Floor))
  {
    hide EmitField, Accepts, Lawful;
    var r := RFloat(Finite(v));
    if IsWhole(v) ==> IsInt64(v.Floor) {
      forall f: FieldSpec | f.kind == IntegerKind && Declarable(lib, f) ensures SidesAgree(lib, f, r) {
        FieldSide(lib, true, f, r, []);
        FieldAgrees(Anolis(lib), f, ScalarJson(r));
      }
    } else {
      var f := BareField(IntegerKind);
      BareFieldDeclarable(lib, IntegerKind);
      FieldAgrees(Anolis(lib), f, ScalarJson(r));
      assert !SidesAgree(lib, f, r);
    }
  }

  /**
   Deprecated keys are the validator's alone: on an otherwise agreeing document it
   reports nothing exactly when the schema accepts and no Open map, at any depth,
   holds a deprecated key.
   */
  lemma DeprecatedKeysExact(lib: Library, s: SchemaSpec, doc: Node)
    requires Constructed(lib, s) && InDomain(lib, true, s.root, doc)
    requires MapsObey(CleanKeys, s.root, doc) && ArraysObey(CountsFit, s.root, ToJson(lib, doc))
    ensures Validate(lib, s, doc) == [] <==>
      Accepts(Anolis(lib), EmitSchema(s), ToJson(lib, doc)) && MapsObey(NoDeprecated, s.root, doc)
  {
    hide ObjectErrors, ObjectMeans, Accepts, InDomain, EmitSchema, ToJson, Lawful, ObjectBuilt, ObjectOk, ArraysObey,
      MapsObey;
    ObjectSide(lib, true, s.root, false, doc, []);
    ObjectCounts(Anolis(lib), s.root, ToJson(lib, doc));
    RootAgrees(Anolis(lib), s, ToJson(lib, doc));
    WellKeptIsBoth(s.root, doc);
  }

  // ---- item counts ----------------------------------------------------------------------

  ghost predicate ArrayDeclarable(lib: Library, a: ArraySpec) {
    ArrayBuilt(a) && ArrayOk(lib, a)
  }

  ghost predicate ArraySidesAgree(lib: Library, a: ArraySpec, node: Node) {
    ArrayErrors(lib, a, node, []) == [] <==> Accepts(Anolis(lib), EmitArray(a), ToJson(lib, node))
  }

  /** In the domain, but for the counts of `a` itself: scalars, maps and the arrays inside its items. */
  ghost predicate ItemsInDomain(lib: Library, a: ArraySpec, node: Node) {
    && DeclarationInDomain(lib, true, Listed(a), node) && DeclarationMapsObey(WellKept, Listed(a), node)
    && var json := ToJson(lib, node);
       json.List? ==> forall i | 0 <= i < |json.items| :: ItemArraysObey(CountsFit, a.item, json.items[i])
  }

  lemma FittingArraysAgree(lib: Library, a: ArraySpec, node: Node)
    requires Lawful(lib.search) && ArrayDeclarable(lib, a) && ItemsInDomain(lib, a, node)
    requires CountFits(a.minItems) && CountFits(a.maxItems)
    ensures ArraySidesAgree(lib, a, node)
  {
    hide ArrayErrors, ArrayMeans, ArrayBuilt, ArrayOk, EmitArray, Accepts, ToJson, Lawful, DeclarationInDomain,
      DeclarationMapsObey, ItemArraysObey;
    ArraySide(lib, true, a, node, []);
    ArrayCounts(Anolis(lib), a, ToJson(lib, node));
    ArrayAgrees(Anolis(lib), a, ToJson(lib, node));
  }

  /** An array of plain strings with the given counts. */
  function BareArray(min: Option<SizeT>, max: Option<SizeT>): ArraySpec {
    ArraySpec(ScalarItem(BareField(StringKind)), min, max, false, "", "")
  }

  lemma BareArrayDeclarable(lib: Library, min: Option<SizeT>, max: Option<SizeT>)
    requires min.None? || max.None?
    ensures ArrayDeclarable(lib, BareArray(min, max))
  {
    hide FieldBuilt, FieldOk, Utf8.IsValid;
    BareFieldDeclarable(lib, StringKind);
    Utf8.AsciiIsValid("");
  }

  const NO_ITEMS := SequenceNode([])

  /** The empty sequence meets a bare array: each side compares the counts it reads with zero. */
  lemma EmptyAgainstBare(lib: Library, d: Dialect, min: Option<SizeT>, max: Option<SizeT>)
    requires Lawful(d.search) && (min.None? || max.None?)
    ensures ItemsInDomain(lib, BareArray(min, max), NO_ITEMS) && ToJson(lib, NO_ITEMS) == List([])
    ensures ArrayErrors(lib, BareArray(min, max), NO_ITEMS, []) == [] <==> min.None? || min.value == 0
    ensures Accepts(d, EmitArray(BareArray(min, max)), List([])) <==>
      (min.Some? ==> ToInt64(min.value) <= 0) && (max.Some? ==> 0 <= ToInt64(max.value))
  {
    hide Accepts, EmitArray, Lawful, FieldErrors, Distinct, FieldBuilt, FieldOk;
    var a := BareArray(min, max);
    BareArrayDeclarable(lib, min, max);
    assert ToJson(lib, NO_ITEMS).items == [];
    assert ItemErrors(lib, a, [], []) == [];
    ArrayAgrees(d, a, List([]));
    assert KeysOf(a.item.field, []) == [];
  }

  /** Every declarable array with this minimum gets one verdict on every document exactly when it fits int64. */
  lemma MinCountsNeedInt64(lib: Library, n: SizeT)
    requires Lawful(lib.search)
    ensures (forall a, node | ArrayDeclarable(lib, a) && a.minItems == Some(n) && CountFits(a.maxItems)
                              && ItemsInDomain(lib, a, node) :: ArraySidesAgree(lib, a, node)) <==> n <= INT64_MAX
  {
    hide ArrayErrors, EmitArray, Accepts, ToJson, Lawful, ArrayDeclarable, ItemsInDomain;
    if n <= INT64_MAX {
      forall a, node | ArrayDeclarable(lib, a) && a.minItems == Some(n) && CountFits(a.maxItems)
                       && ItemsInDomain(lib, a, node) ensures ArraySidesAgree(lib, a, node) {
        FittingArraysAgree(lib, a, node);
      }
    } else {
      BareArrayDeclarable(lib, Some(n), None);
      EmptyAgainstBare(lib, Anolis(lib), Some(n), None);
      assert !ArraySidesAgree(lib, BareArray(Some(n), None), NO_ITEMS);
    }
  }

  /** The same for maxima: past int64 the schema rejects what the validator accepts. */
  lemma MaxCountsNeedInt64(lib: Library, n: SizeT)
    requires Lawful(lib.search)
    ensures (forall a, node | ArrayDeclarable(lib, a) && a.maxItems == Some(n) && CountFits(a.minItems)
                              && ItemsInDomain(lib, a, node) :: ArraySidesAgree(lib, a, node)) <==> n <= INT64_MAX
  {
    hide ArrayErrors, EmitArray, Accepts, ToJson, Lawful, ArrayDeclarable, ItemsInDomain;
    if n <= INT64_MAX {
      forall a, node | ArrayDeclarable(lib, a) && a.maxItems == Some(n) && CountFits(a.minItems)
                       && ItemsInDomain(lib, a, node) ensures ArraySidesAgree(lib, a, node) {
        FittingArraysAgree(lib, a, node);
      }
    } else {
      BareArrayDeclarable(lib, None, Some(n));
      EmptyAgainstBare(lib, Anolis(lib), None, Some(n));
      assert !ArraySidesAgree(lib, BareArray(None, Some(n)), NO_ITEMS);
    }
  }
}
