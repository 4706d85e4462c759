/**
 What the construction-time checks achieve (src/anolis/provider_sdk/config.cpp:235-472):
 a range is refused exactly when nothing lies in it, a branch exactly when nothing can
 take or meet it. Values are those of the validator, not of the checks.
 */
module ConfigReach {
  import opened Base
  import opened ConfigSpec
  import opened ConfigCheck
  import opened ConfigValidate
  import opened Scalars
  import opened ValidatorMeaning
  import opened Yaml
  import ConfigMeaning
  import Utf8

  // ---- fields ------------------------------------------------------------------------------------

  /** Some integer of int64 passes the field's own validation. */
  ghost predicate TakesInteger(lib: Library, f: FieldSpec) {
    exists n: int :: IsInt64(n) && ResolvedErrors(lib, f, RInt(n), []) == []
  }

  /** Some finite number passes. */
  ghost predicate TakesNumber(lib: Library, f: FieldSpec) {
    exists v: real :: ResolvedErrors(lib, f, RFloat(Finite(v)), []) == []
  }

  ghost predicate TakesText(lib: Library, f: FieldSpec) {
    exists s: string :: ResolvedErrors(lib, f, RString(s), []) == []
  }

  /** The value a field with these bounds takes, if it takes any. */
  function Between(lower: Option<int>, upper: Option<int>): int {
    if lower.Some? then lower.value else if upper.Some? then upper.value else 0
  }

  /** An Integer field takes an integer exactly when its minimum does not exceed its maximum. */
  lemma IntegerRange(lib: Library, f: FieldSpec)
    requires f.kind == IntegerKind
    requires (f.minInt.Some? ==> IsInt64(f.minInt.value)) && (f.maxInt.Some? ==> IsInt64(f.maxInt.value))
    ensures TakesInteger(lib, f) <==> (f.minInt.Some? && f.maxInt.Some? ==> f.minInt.value <= f.maxInt.value)
  {
    if f.minInt.Some? && f.maxInt.Some? ==> f.minInt.value <= f.maxInt.value {
      var n := Between(f.minInt, f.maxInt);
      assert IsInt64(n) && ResolvedErrors(lib, f, RInt(n), []) == [];
    }
  }

  /** A number within the bounds, if there is one: a bound that is included, or a point beside or between them. */
  function Inside(f: FieldSpec): real {
    var lower := if f.minNumber.Some? then f.minNumber else f.exclusiveMin;
    var upper := if f.maxNumber.Some? then f.maxNumber else f.exclusiveMax;
    if lower.Some? && upper.Some? then (lower.value + upper.value) / 2.0
    else if lower.Some? then lower.value + 1.0
    else if upper.Some? then upper.value - 1.0
    else 0.0
  }

  /** A Number field takes a number exactly when its bounds leave room. */
  lemma NumberRange(lib: Library, f: FieldSpec)
    requires f.kind == NumberKind
    requires !(f.minNumber.Some? && f.exclusiveMin.Some?) && !(f.maxNumber.Some? && f.exclusiveMax.Some?)
    ensures TakesNumber(lib, f) <==> BoundsLeaveRoom(f)
  {
    if BoundsLeaveRoom(f) {
      assert ResolvedErrors(lib, f, RFloat(Finite(Inside(f))), []) == [];
    }
    forall v: real | ResolvedErrors(lib, f, RFloat(Finite(v)), []) == [] ensures BoundsLeaveRoom(f) {
      assert BoundErrors(f, v, []) == [];
    }
  }

  /** The check accepts the field but for its ranges: nothing else is declared that could be refused. */
  ghost predicate RangesOnly(f: FieldSpec) {
    && FieldBuilt(f) && FieldTextsOk(f) && !f.unique
    && (f.kind == IntegerKind || f.kind == NumberKind)
    && f.defaultInt.None? && f.defaultNumber.None?
  }

  /** A field with nothing but ranges is refused exactly when no value passes it. */
  lemma RefusedIffEmpty(lib: Library, f: FieldSpec, inItem: bool)
    requires RangesOnly(f)
    ensures FieldOk(lib, f, inItem) <==>
      if f.kind == IntegerKind then TakesInteger(lib, f) else TakesNumber(lib, f)
  {
    hide FieldTextsOk, AllDistinct, TakesInteger, TakesNumber, SatisfiesOthers;
    assert f.minInt in [f.minInt, f.maxInt, f.defaultInt] && f.maxInt in [f.minInt, f.maxInt, f.defaultInt];
    if f.kind == IntegerKind { IntegerRange(lib, f); } else { NumberRange(lib, f); }
  }

  /** The source's own example of a refusal: a minimum of 10 over a maximum of 5. */
  lemma TenOverFive(lib: Library, key: string, inItem: bool)
    ensures !FieldOk(lib, BlankField(key, IntegerKind).(minInt := Some(10), maxInt := Some(5)), inItem)
  {
    hide FieldTextsOk;
  }

  // ---- every checked field can be given ----------------------------------------------------------------

  /** A String field that lists no values and sets a pattern: only the pattern knows whether it can be met. */
  predicate PatternOnly(f: FieldSpec) {
    f.kind == StringKind && f.pattern.Some? && f.constValue.None? && f.enumValues == []
  }

  /** A text longer than all the forbidden ones. */
  function Longer(vs: seq<ForbiddenValue>): (s: string)
    ensures s != "" && forall v | v in vs :: |v.value| < |s|
  {
    if vs == [] then "a"
    else
      var rest := Longer(vs[1..]);
      rest + vs[0].value + "a"
  }

  lemma TextTaken(lib: Library, f: FieldSpec, s: string)
    requires f.kind == StringKind && SatisfiesOthers(lib, f, s)
    requires f.constValue.Some? ==> s == f.constValue.value
    requires f.enumValues != [] ==> s in EnumTexts(f)
    ensures TakesText(lib, f)
  {
    StringSide(lib, f, s, []);
    assert ResolvedErrors(lib, f, RString(s), []) == [];
  }

  lemma SomeText(lib: Library, f: FieldSpec, inItem: bool)
    requires FieldBuilt(f) && FieldOk(lib, f, inItem) && f.kind == StringKind && !PatternOnly(f)
    ensures TakesText(lib, f)
  {
    hide FieldTextsOk, SatisfiesOthers, TakesText, AllDistinct, BoundsLeaveRoom;
    if f.constValue.Some? {
      TextTaken(lib, f, f.constValue.value);
    } else if f.enumValues != [] {
      assert EnumTexts(f)[0] in EnumTexts(f);
      TextTaken(lib, f, EnumTexts(f)[0]);
    } else {
      FreeText(lib, f);
      TextTaken(lib, f, Longer(f.forbidden));
    }
  }

  lemma FreeText(lib: Library, f: FieldSpec)
    requires f.pattern.None?
    ensures SatisfiesOthers(lib, f, Longer(f.forbidden))
  {
    forall i | 0 <= i < |f.forbidden| ensures ForbiddenTexts(f)[i] != Longer(f.forbidden) {
      assert f.forbidden[i] in f.forbidden;
    }
  }

  /** Every field that passes the checks has a value that passes its validation, unless a lone pattern decides. */
  lemma EveryFieldTakesAValue(lib: Library, f: FieldSpec, inItem: bool)
    requires FieldBuilt(f) && FieldOk(lib, f, inItem) && !PatternOnly(f)
    ensures match f.kind
      case StringKind => TakesText(lib, f)
      case IntegerKind => TakesInteger(lib, f)
      case NumberKind => TakesNumber(lib, f)
      case BooleanKind => ResolvedErrors(lib, f, RBool(true), []) == []
      case I2cAddressKind => TakesInteger(lib, f)
  {
    hide FieldTextsOk, TakesText, SatisfiesOthers, AllDistinct;
    match f.kind
    case StringKind => SomeText(lib, f, inItem);
    case IntegerKind =>
      assert f.minInt in [f.minInt, f.maxInt, f.defaultInt] && f.maxInt in [f.minInt, f.maxInt, f.defaultInt];
      IntegerRange(lib, f);
    case NumberKind => NumberRange(lib, f);
    case BooleanKind =>
    case I2cAddressKind => assert IsInt64(8) && ResolvedErrors(lib, f, RInt(8), []) == [];
  }

  /** A lone pattern can be one nothing matches: the checks only ask that it compiles. */
  lemma DeadPattern(lib: Library, key: string, p: string)
    requires key != "" && Utf8.IsValid(key) && Utf8.IsValid(p) && lib.compiles(p) && forall s :: !lib.search(p, s)
    ensures var f := BlankField(key, StringKind).(pattern := Some(p));
      FieldBuilt(f) && FieldOk(lib, f, false) && !TakesText(lib, f)
  {
    hide Utf8.IsValid;
    Utf8.AsciiIsValid("");
    var f := BlankField(key, StringKind).(pattern := Some(p));
    assert EnumTexts(f) == [] && ForbiddenTexts(f) == [];
  }

  // ---- the field check, exactly ----------------------------------------------------------------------------

  predicate PassesAs(lib: Library, f: FieldSpec, r: Resolved) {
    ResolvedErrors(lib, f, r, []) == []
  }

  /** Every value the field advertises, its const, its enum options and its default, passes its own validation. */
  predicate KeepsPromises(lib: Library, f: FieldSpec) {
    && (f.constValue.Some? ==> PassesAs(lib, f, RString(f.constValue.value)))
    && (forall v | v in EnumTexts(f) :: PassesAs(lib, f, RString(v)))
    && (f.defaultString.Some? ==> PassesAs(lib, f, RString(f.defaultString.value)))
    && (f.defaultInt.Some? ==> PassesAs(lib, f, RInt(f.defaultInt.value)))
    && (f.defaultNumber.Some? ==> PassesAs(lib, f, RFloat(Finite(f.defaultNumber.value))))
  }

  lemma TextPromise(lib: Library, f: FieldSpec, s: string)
    requires f.kind == StringKind
    ensures PassesAs(lib, f, RString(s)) <==>
      && SatisfiesOthers(lib, f, s)
      && (f.constValue.Some? ==> s == f.constValue.value) && (f.enumValues != [] ==> s in EnumTexts(f))
  {
    StringSide(lib, f, s, []);
  }

  lemma TextPromises(lib: Library, f: FieldSpec)
    requires FieldBuilt(f) && f.kind == StringKind && !(f.constValue.Some? && f.enumValues != [])
    ensures KeepsPromises(lib, f) <==>
      && (f.constValue.Some? ==> SatisfiesOthers(lib, f, f.constValue.value))
      && (forall v | v in EnumTexts(f) :: SatisfiesOthers(lib, f, v))
      && (f.defaultString.Some? ==> DefaultStringOk(lib, f, f.defaultString.value))
  {
    hide PassesAs, SatisfiesOthers, AllDistinct;
    if f.constValue.Some? { TextPromise(lib, f, f.constValue.value); }
    forall v | v in EnumTexts(f) ensures PassesAs(lib, f, RString(v)) <==> SatisfiesOthers(lib, f, v) {
      TextPromise(lib, f, v);
    }
    if f.defaultString.Some? { TextPromise(lib, f, f.defaultString.value); }
  }

  lemma NumberPromises(lib: Library, f: FieldSpec)
    requires FieldBuilt(f) && f.kind != StringKind
    ensures KeepsPromises(lib, f) <==>
      && (f.defaultInt.Some? ==> DefaultIntOk(f, f.defaultInt.value))
      && (f.defaultNumber.Some? ==> DefaultNumberOk(f, f.defaultNumber.value))
  {
    hide AllDistinct;
    assert EnumTexts(f) == [];
    assert f.defaultInt in [f.minInt, f.maxInt, f.defaultInt];
    if f.defaultNumber.Some? {
      assert NumberOf(RFloat(Finite(f.defaultNumber.value))) == Some(Finite(f.defaultNumber.value));
    }
  }

  /**
   The field check, said of the validator: texts are UTF-8, `unique` stands in array
   items, a pattern compiles, const and enum are not both given; and then a field is
   accepted exactly when every value it advertises passes it and its range is not empty.
   */
  lemma FieldOkExact(lib: Library, f: FieldSpec, inItem: bool)
    requires FieldBuilt(f)
    ensures FieldOk(lib, f, inItem) <==>
      && FieldTextsOk(f) && (f.unique ==> inItem) && (f.pattern.Some? ==> lib.compiles(f.pattern.value))
      && !(f.constValue.Some? && f.enumValues != [])
      && KeepsPromises(lib, f)
      && (f.kind == IntegerKind ==> TakesInteger(lib, f)) && (f.kind == NumberKind ==> TakesNumber(lib, f))
  {
    hide FieldTextsOk, TakesInteger, TakesNumber, SatisfiesOthers, KeepsPromises, AllDistinct, DefaultStringOk,
      DefaultIntOk, DefaultNumberOk;
    assert f.minInt in [f.minInt, f.maxInt, f.defaultInt] && f.maxInt in [f.minInt, f.maxInt, f.defaultInt];
    if f.kind == IntegerKind { IntegerRange(lib, f); }
    if f.kind == NumberKind { NumberRange(lib, f); }
    if f.kind != StringKind {
      NumberPromises(lib, f);
    } else if !(f.constValue.Some? && f.enumValues != []) {
      TextPromises(lib, f);
    }
  }

  // ---- arrays ------------------------------------------------------------------------------------------

  /** Some length meets both counts. */
  ghost predicate TakesLength(a: ArraySpec) {
    exists n: nat :: SizeErrors(a, n, []) == []
  }

  predicate ItemOk(lib: Library, a: ArraySpec) {
    match a.item
    case ScalarItem(f) => !f.required && !f.unique && FieldOk(lib, f, false)
    case ObjectItem(o) => ObjectOk(lib, o, true)
  }

  /** With sound texts and items, an array is refused exactly when no length meets its counts. */
  lemma ArrayRefusedIffEmpty(lib: Library, a: ArraySpec)
    requires TextOk(a.title) && TextOk(a.description) && ItemOk(lib, a)
    ensures ArrayOk(lib, a) <==> TakesLength(a)
  {
    hide FieldOk, ObjectOk;
    var n: nat := if a.minItems.Some? then a.minItems.value else 0;
    assert (a.minItems.Some? && a.maxItems.Some? ==> a.minItems.value <= a.maxItems.value) ==> SizeErrors(a, n, []) == [];
  }

  // ---- branches ----------------------------------------------------------------------------------------

  /** The map that holds only the discriminator, quoted, takes the branch. */
  lemma BranchTaken(lib: Library, c: Conditional)
    ensures BranchApplies(lib, c, [(ScalarNode(c.key, false), ScalarNode(c.equals, true))])
  {
    var entry := (ScalarNode(c.key, false), ScalarNode(c.equals, true));
    assert KeyedBy(entry, c.key);
    assert Get([entry], c.key) == Some(entry.1);
  }

  /**
   Where the discriminator lists its values, a branch on it can be taken by a document
   whose discriminator is valid exactly when the branch's value is listed.
   */
  lemma ListedBranchReachable(lib: Library, f: FieldSpec, value: string, inItem: bool)
    requires FieldBuilt(f) && FieldOk(lib, f, inItem) && f.kind == StringKind && Accepted(f) != []
    ensures ResolvedErrors(lib, f, RString(value), []) == [] <==> value in Accepted(f)
  {
    hide FieldTextsOk, AllDistinct, BoundsLeaveRoom, SatisfiesOthers, StringErrors, ConfigMeaning.StringMeans;
    StringSide(lib, f, value, []);
    ListedMeans(lib, f, value);
  }

  lemma ListedMeans(lib: Library, f: FieldSpec, value: string)
    requires f.kind == StringKind && Accepted(f) != [] && !(f.constValue.Some? && f.enumValues != [])
    requires f.constValue.Some? ==> SatisfiesOthers(lib, f, f.constValue.value)
    requires forall v | v in EnumTexts(f) :: SatisfiesOthers(lib, f, v)
    ensures ConfigMeaning.StringMeans(lib.search, f, value) <==> value in Accepted(f)
  {
  }

  /** One String member "k" that forbids the text "x", and a branch on it. */
  function OneBranch(c: Conditional): ObjectSpec {
    var f := BlankField("k", StringKind).(forbidden := [ForbiddenValue("x", "")]);
    ObjectSpec(Closed, [Member("k", false, Scalar(f))], [c], [], [], "", "")
  }

  lemma OneBranchOk(c: Conditional)
    requires c == Conditional("k", "x", [], ["k"])
    ensures ConditionalOk(OneBranch(c), c)
  {
    hide Utf8.IsValid;
    Utf8.AsciiIsValid("x");
    var m := OneBranch(c).members[0];
    assert m in OneBranch(c).members && EnumTexts(m.decl.field) == [] && Accepted(m.decl.field) == [];
    assert !m.required;
  }

  /**
   Where the member lists no values the checks accept a branch on a value that no valid
   discriminator has, and one that forbids its own discriminator.
   */
  lemma DeadBranch(lib: Library)
    ensures var c := Conditional("k", "x", [], ["k"]);
      var f := OneBranch(c).members[0].decl.field;
      && ConditionalOk(OneBranch(c), c)
      && ResolvedErrors(lib, f, RString("x"), []) != []
      && !exists present :: Meets(OneBranch(c), c, present)
  {
    var c := Conditional("k", "x", [], ["k"]);
    OneBranchOk(c);
    var f := OneBranch(c).members[0].decl.field;
    assert ForbiddenTexts(f)[0] == "x";
    StringSide(lib, f, "x", []);
    assert "k" in c.forbidKeys;
  }

  /** A set of present keys that keeps every rule of presence when the branch is taken. */
  predicate Meets(o: ObjectSpec, c: Conditional, present: set<string>) {
    && (forall k | k in present :: Declares(o, k))
    && c.key in present
    && (forall m | m in o.members && m.required :: m.key in present)
    && (forall k | k in c.requireKeys :: k in present)
    && (forall k | k in c.forbidKeys :: k !in present)
  }

  /** What the check asks of a branch besides its keys. */
  predicate BranchNamed(o: ObjectSpec, c: Conditional) {
    TextOk(c.equals) && DiscriminatorOk(o, c) && forall k | k in c.requireKeys + c.forbidKeys :: Declares(o, k)
  }

  /**
   A branch on declared keys is accepted, and does not forbid its own discriminator,
   exactly when some set of declared keys keeps every rule of presence with it.
   */
  lemma BranchMeetable(o: ObjectSpec, c: Conditional)
    requires BranchNamed(o, c)
    ensures ConditionalOk(o, c) && c.key !in c.forbidKeys <==> exists present :: Meets(o, c, present)
  {
    hide Utf8.IsValid;
    if ConditionalOk(o, c) && c.key !in c.forbidKeys {
      var present := {c.key} + (set m | m in o.members && m.required :: m.key) + (set k | k in c.requireKeys);
      assert Meets(o, c, present);
    }
    if present :| Meets(o, c, present) {
      forall k | k in c.forbidKeys ensures Declares(o, k) && !Requires(o, k) && k !in c.requireKeys {
        assert k in c.requireKeys + c.forbidKeys;
      }
      forall k | k in c.requireKeys ensures Declares(o, k) { assert k in c.requireKeys + c.forbidKeys; }
    }
  }

  /** Meeting a branch is having no error from it, and none for a missing member. */
  lemma MetIsQuiet(lib: Library, o: ObjectSpec, c: Conditional, entries: seq<(Node, Node)>, path: seq<Step>)
    requires BranchApplies(lib, c, entries) && forall k | Has(entries, k) :: Declares(o, k)
    ensures Meets(o, c, KeysPresent(entries)) <==>
      && BranchErrors(lib, c, entries, path) == []
      && forall m | m in o.members && m.required :: Has(entries, m.key)
  {
    hide Get;
    KeysAre(entries);
    FlattenEmpty(RequiredInBranch(c, entries, path));
    FlattenEmpty(ForbiddenInBranch(c, entries, path));
    var a, b := RequiredInBranch(c, entries, path), ForbiddenInBranch(c, entries, path);
    hide Has, KeysPresent;
    DiscriminatorPresent(lib, c, entries);
    assert forall i | 0 <= i < |a| :: a[i] == [] <==> Has(entries, c.requireKeys[i]);
    assert forall i | 0 <= i < |b| :: b[i] == [] <==> !Has(entries, c.forbidKeys[i]);
    assert BranchErrors(lib, c, entries, path) == [] <==> Flatten(a) == [] && Flatten(b) == [];
  }

  lemma DiscriminatorPresent(lib: Library, c: Conditional, entries: seq<(Node, Node)>)
    requires BranchApplies(lib, c, entries)
    ensures Has(entries, c.key)
  {
  }

  function KeysPresent(entries: seq<(Node, Node)>): set<string> {
    set e | e in entries && e.0.ScalarNode? :: e.0.raw
  }

  lemma KeysAre(entries: seq<(Node, Node)>)
    ensures forall k :: k in KeysPresent(entries) <==> Has(entries, k)
  {
    forall k | Has(entries, k) ensures k in KeysPresent(entries) {
      var i :| 0 <= i < |entries| && KeyedBy(entries[i], k);
      assert entries[i] in entries;
    }
  }

  /** A branch that forbids its own discriminator passes the checks, and no document can take and meet it. */
  lemma SelfForbidding(lib: Library, o: ObjectSpec, c: Conditional, entries: seq<(Node, Node)>, path: seq<Step>)
    requires c.key in c.forbidKeys && BranchApplies(lib, c, entries)
    ensures BranchErrors(lib, c, entries, path) != []
  {
    hide Get, Has;
    DiscriminatorPresent(lib, c, entries);
    var b := ForbiddenInBranch(c, entries, path);
    FlattenEmpty(b);
    var i :| 0 <= i < |c.forbidKeys| && c.forbidKeys[i] == c.key;
    assert b[i] != [];
  }

  /** At most one branch per discriminator applies to a document, exactly because no two share key and value. */
  lemma OneBranchApplies(lib: Library, cs: seq<Conditional>)
    ensures AllDistinct(BranchIds(cs)) <==>
      forall entries: seq<(Node, Node)>, i, j | 0 <= i < j < |cs| ::
        BranchApplies(lib, cs[i], entries) && BranchApplies(lib, cs[j], entries) ==> cs[i].key != cs[j].key
  {
    if AllDistinct(BranchIds(cs)) {
      forall entries: seq<(Node, Node)>, i, j |
        0 <= i < j < |cs| && BranchApplies(lib, cs[i], entries) && BranchApplies(lib, cs[j], entries)
        ensures cs[i].key != cs[j].key
      {
        assert BranchIds(cs)[i] != BranchIds(cs)[j];
      }
    } else {
      var i, j :| 0 <= i < j < |cs| && BranchIds(cs)[i] == BranchIds(cs)[j];
      var entries := [(ScalarNode(cs[i].key, false), ScalarNode(cs[i].equals, true))];
      BranchTaken(lib, cs[i]);
      BranchTaken(lib, cs[j]);
      assert BranchApplies(lib, cs[i], entries) && BranchApplies(lib, cs[j], entries);
    }
  }

  // ---- dependencies and deprecated keys -------------------------------------------------------------------

  /**
   A dependency is accepted exactly when it names each key once, not its own, and some set
   of declared keys has its key and meets it.
   */
  lemma DependencyMeetable(o: ObjectSpec, d: Dependent)
    ensures DependentOk(o, d) <==>
      && AllDistinct(d.alsoRequired) && d.key !in d.alsoRequired
      && exists present: set<string> ::
           && (forall k | k in present :: Declares(o, k))
           && d.key in present && forall k | k in d.alsoRequired :: k in present
  {
    if DependentOk(o, d) {
      var present := {d.key} + set k | k in d.alsoRequired;
      assert forall k | k in present :: Declares(o, k);
    }
  }

  /** In an object that passes the checks a declared key is never reported as deprecated or unknown. */
  lemma DeclaredNeverDeprecated(lib: Library, o: ObjectSpec, inItem: bool, key: string, path: seq<Step>)
    requires ObjectOk(lib, o, inItem) && Declares(o, key)
    ensures PresentErrors(o, [key], path) == [[]]
  {
    hide MemberOk, ConditionalOk, DependentOk;
  }

  // ---- the object check --------------------------------------------------------------------------------------

  ghost predicate BranchSecured(o: ObjectSpec, c: Conditional) {
    BranchNamed(o, c) && (c.key !in c.forbidKeys ==> exists present :: Meets(o, c, present))
  }

  ghost predicate DependencySecured(o: ObjectSpec, d: Dependent) {
    && d.key !in d.alsoRequired && AllDistinct(d.alsoRequired)
    && exists present: set<string> ::
         && (forall k | k in present :: Declares(o, k))
         && d.key in present && forall k | k in d.alsoRequired :: k in present
  }

  lemma BranchIsSecured(o: ObjectSpec, c: Conditional)
    requires ConditionalOk(o, c)
    ensures BranchSecured(o, c)
  {
    hide Utf8.IsValid, DiscriminatorOk, Meets;
    assert BranchNamed(o, c);
    BranchMeetable(o, c);
  }

  /**
   What a checked object secures: every branch is on declared keys and can be met unless it
   forbids its own discriminator, no document takes two branches of one discriminator,
   every dependency can be met, its keys named once, and no declared key is deprecated.
   */
  lemma CheckedObject(lib: Library, o: ObjectSpec, inItem: bool)
    requires ObjectOk(lib, o, inItem)
    ensures forall c | c in o.conditionals :: BranchSecured(o, c)
    ensures forall entries: seq<(Node, Node)>, i, j | 0 <= i < j < |o.conditionals| ::
      BranchApplies(lib, o.conditionals[i], entries) && BranchApplies(lib, o.conditionals[j], entries) ==>
        o.conditionals[i].key != o.conditionals[j].key
    ensures forall d | d in o.dependents :: DependencySecured(o, d)
    ensures forall d, e | d in o.deprecated && e in o.members :: d.key != e.key
  {
    hide MemberOk, ConditionalOk, DependentOk, BranchSecured, DependencySecured, AllDistinct, BranchApplies;
    forall c | c in o.conditionals ensures BranchSecured(o, c) { BranchIsSecured(o, c); }
    OneBranchApplies(lib, o.conditionals);
    forall d | d in o.dependents ensures DependencySecured(o, d) { DependencyIsSecured(o, d); }
  }

  lemma DependencyIsSecured(o: ObjectSpec, d: Dependent)
    requires DependentOk(o, d)
    ensures DependencySecured(o, d)
  {
    hide Declares;
    DependencyMeetable(o, d);
  }

  // ---- marks -----------------------------------------------------------------------------------------------

  /**
   Every mark has an effect: `unique` stands only on scalar members of array items, where
   duplicates are looked for, and an array's own scalar items carry neither `unique` nor
   `required`.
   */
  predicate MarksCount(o: ObjectSpec, inItem: bool) {
    forall m | m in o.members :: MarksCountIn(m.decl, inItem)
  }

  predicate MarksCountIn(d: Declaration, inItem: bool) {
    match d
    case Scalar(f) => f.unique ==> inItem
    case Nested(child) => MarksCount(child, false)
    case Listed(a) =>
      (match a.item
       case ScalarItem(f) => !f.unique && !f.required
       case ObjectItem(child) => MarksCount(child, true))
  }

  lemma {:induction false} CheckedMarksCount(lib: Library, o: ObjectSpec, inItem: bool)
    requires ObjectOk(lib, o, inItem)
    ensures MarksCount(o, inItem)
    decreases o, 1
  {
    hide MemberOk, ConditionalOk, DependentOk, MarksCountIn;
    forall m | m in o.members ensures MarksCountIn(m.decl, inItem) {
      MemberMarksCount(lib, m, inItem);
    }
  }

  lemma MemberMarksCount(lib: Library, m: Member, inItem: bool)
    requires MemberOk(lib, m, inItem)
    ensures MarksCountIn(m.decl, inItem)
    decreases m, 0
  {
    hide ObjectOk, MarksCount, FieldTextsOk, BoundsLeaveRoom, SatisfiesOthers, DefaultStringOk, DefaultIntOk, DefaultNumberOk;
    match m.decl
    case Scalar(f) =>
    case Nested(child) => CheckedMarksCount(lib, child, false);
    case Listed(a) =>
      assert ArrayOk(lib, a);
      if a.item.ObjectItem? { CheckedMarksCount(lib, a.item.child, true); }
  }
}
