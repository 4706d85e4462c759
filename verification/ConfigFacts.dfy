/**
 What follows for providers: advertised values are honest, and extraction after
 a passing validation cannot fail (src/anolis/provider_sdk/config_validate.hpp:71-81).
 */
module ConfigFacts {
  import opened Base
  import opened ConfigSpec
  import opened ConfigCheck
  import opened ConfigValidate
  import opened Scalars
  import opened ScalarFacts
  import opened ValidatorMeaning
  import opened Yaml

  // ---- advertised values --------------------------------------------------------------------

  ghost predicate Passes(lib: Library, f: FieldSpec, node: Node) {
    forall path: seq<Step> :: FieldErrors(lib, f, node, path) == []
  }

  lemma TextPasses(lib: Library, f: FieldSpec, s: string)
    requires f.kind == StringKind && SatisfiesOthers(lib, f, s)
    requires f.constValue.Some? ==> s == f.constValue.value
    requires f.enumValues != [] ==> s in EnumTexts(f)
    ensures Passes(lib, f, ScalarNode(s, true))
  {
    forall path: seq<Step> ensures FieldErrors(lib, f, ScalarNode(s, true), path) == [] {
      StringSide(lib, f, s, path);
    }
  }

  /**
   Every value a checked field advertises, its const, its enum options and its
   default, passes the field's own validation when a config spells it out.
   */
  lemma AdvertisedTextsPass(lib: Library, f: FieldSpec, inItem: bool)
    requires FieldBuilt(f) && FieldOk(lib, f, inItem)
    ensures f.constValue.Some? ==> Passes(lib, f, ScalarNode(f.constValue.value, true))
    ensures forall v | v in EnumTexts(f) :: Passes(lib, f, ScalarNode(v, true))
    ensures f.defaultString.Some? ==> Passes(lib, f, ScalarNode(f.defaultString.value, true))
  {
    hide FieldTextsOk, SatisfiesOthers, Passes, AllDistinct;
    if f.constValue.Some? { TextPasses(lib, f, f.constValue.value); }
    forall v | v in EnumTexts(f) ensures Passes(lib, f, ScalarNode(v, true)) { TextPasses(lib, f, v); }
    if f.defaultString.Some? { TextPasses(lib, f, f.defaultString.value); }
  }

  lemma AdvertisedIntegerPasses(lib: Library, f: FieldSpec, inItem: bool, path: seq<Step>)
    requires FieldBuilt(f) && FieldOk(lib, f, inItem) && f.defaultInt.Some?
    ensures FieldErrors(lib, f, ScalarNode(ToText(f.defaultInt.value), false), path) == []
  {
    hide FieldTextsOk, SatisfiesOthers, ResolvePlain, AllDistinct;
    assert f.defaultInt in [f.minInt, f.maxInt, f.defaultInt];
    PrintedIntegerResolves(lib, f.defaultInt.value);
  }

  /**
   A default number passes spelt by any text that resolves to it, and a default
   boolean spelt as its word.
   */
  lemma AdvertisedValuesPass(lib: Library, f: FieldSpec, inItem: bool, path: seq<Step>)
    requires FieldBuilt(f) && FieldOk(lib, f, inItem)
    ensures f.defaultNumber.Some? ==>
      forall raw | NumberOf(ResolvePlain(lib, raw)) == Some(Finite(f.defaultNumber.value)) ::
        FieldErrors(lib, f, ScalarNode(raw, false), path) == []
    ensures f.defaultBool.Some? ==>
      FieldErrors(lib, f, ScalarNode(if f.defaultBool.value then "true" else "false", false), path) == []
  {
    hide FieldTextsOk, SatisfiesOthers, AllDistinct, ResolvePlain;
    WordsResolve(lib);
  }

  lemma WordsResolve(lib: Library)
    ensures ResolvePlain(lib, "true") == RBool(true) && ResolvePlain(lib, "false") == RBool(false)
  {
  }

  // ---- extraction ---------------------------------------------------------------------------

  /** The kind's extraction helper yields a value, inside the declared bounds. */
  predicate Extracts(lib: Library, f: FieldSpec, node: Node) {
    match f.kind
    case StringKind => AsString(lib, node).Some?
    case IntegerKind =>
      var n := AsInt64(lib, node);
      && n.Some? && IsInt64(n.value)
      && (f.minInt.Some? ==> f.minInt.value <= n.value) && (f.maxInt.Some? ==> n.value <= f.maxInt.value)
    case NumberKind =>
      var v := AsDouble(lib, node);
      && v.Some? && v.value.Finite?
      && (f.minNumber.Some? ==> f.minNumber.value <= v.value.v)
      && (f.maxNumber.Some? ==> v.value.v <= f.maxNumber.value)
      && (f.exclusiveMin.Some? ==> f.exclusiveMin.value < v.value.v)
      && (f.exclusiveMax.Some? ==> v.value.v < f.exclusiveMax.value)
    case BooleanKind => AsBool(lib, node).Some?
    case I2cAddressKind =>
      var a := ParseI2cAddress(lib, node);
      a.Some? && I2C_MIN <= a.value <= I2C_MAX
  }

  predicate DeclarationExtracts(lib: Library, decl: Declaration, node: Node)
    decreases decl, 3
  {
    match decl
    case Scalar(f) => Extracts(lib, f, node)
    case Nested(o) => ObjectExtracts(lib, o, node)
    case Listed(a) => ArrayExtracts(lib, a, node)
  }

  predicate ArrayExtracts(lib: Library, a: ArraySpec, node: Node)
    decreases a, 2
  {
    node.SequenceNode? &&
    match a.item
    case ScalarItem(f) => forall i | 0 <= i < |node.items| :: Extracts(lib, f, node.items[i])
    case ObjectItem(o) => forall i | 0 <= i < |node.items| :: ObjectExtracts(lib, o, node.items[i])
  }

  /** Every required member is there, and every declared scalar present at any depth is extracted. */
  predicate ObjectExtracts(lib: Library, o: ObjectSpec, node: Node)
    decreases o, 4
  {
    && node.MapNode?
    && (forall m | m in o.members ::
          match Get(node.entries, m.key)
          case None => !m.required
          case Some(value) => DeclarationExtracts(lib, m.decl, value))
  }

  lemma FieldExtraction(lib: Library, f: FieldSpec, node: Node, path: seq<Step>)
    requires FieldErrors(lib, f, node, path) == []
    ensures Extracts(lib, f, node)
  {
    hide ResolvePlain;
    ResolvedIntegersFit(lib, node);
  }

  lemma DeclarationExtraction(lib: Library, decl: Declaration, node: Node, path: seq<Step>)
    requires DeclarationErrors(lib, decl, node, path) == []
    ensures DeclarationExtracts(lib, decl, node)
    decreases decl, 3
  {
    hide FieldErrors, Extracts;
    match decl
    case Scalar(f) => FieldExtraction(lib, f, node, path);
    case Nested(o) => ExtractionTotal(lib, o, node, path);
    case Listed(a) => ArrayExtraction(lib, a, node, path);
  }

  lemma ArrayExtraction(lib: Library, a: ArraySpec, node: Node, path: seq<Step>)
    requires ArrayErrors(lib, a, node, path) == []
    ensures ArrayExtracts(lib, a, node)
    decreases a, 2
  {
    hide FieldErrors, Extracts, ObjectErrors, DuplicateErrors, Repeats;
    var es := ItemErrors(lib, a, node.items, path);
    FlattenEmpty(es);
    forall i | 0 <= i < |node.items|
      ensures match a.item case ScalarItem(f) => Extracts(lib, f, node.items[i])
                           case ObjectItem(o) => ObjectExtracts(lib, o, node.items[i])
    {
      assert es[i] == [];
      match a.item
      case ScalarItem(f) => FieldExtraction(lib, f, node.items[i], path + [Index(i)]);
      case ObjectItem(o) => ExtractionTotal(lib, o, node.items[i], path + [Index(i)]);
    }
  }

  /** After a passing validation, extraction of a declared field cannot fail. */
  lemma ExtractionTotal(lib: Library, o: ObjectSpec, node: Node, path: seq<Step>)
    requires ObjectErrors(lib, o, node, path) == []
    ensures ObjectExtracts(lib, o, node)
    decreases o, 4
  {
    hide DeclarationExtracts, DeclarationErrors, KeyErrors, PresentErrors, BranchesErrors, DependenciesErrors;
    var es := MembersErrors(lib, o, node.entries, path);
    FlattenEmpty(es);
    forall m | m in o.members
      ensures match Get(node.entries, m.key)
              case None => !m.required
              case Some(value) => DeclarationExtracts(lib, m.decl, value)
    {
      var i :| 0 <= i < |es| && o.members[i] == m;
      assert es[i] == [] && es[i] == MemberErrors(lib, m, node.entries, path);
      if Get(node.entries, m.key).Some? {
        DeclarationExtraction(lib, m.decl, Get(node.entries, m.key).value, path + [Key(m.key)]);
      }
    }
  }
}
