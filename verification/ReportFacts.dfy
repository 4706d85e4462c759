/**
 What stands in a report (src/anolis/provider_sdk/config_validate.cpp:265-615): an
 error is reported exactly when the document has that violation at that path, said of
 the document by following the path from the top. The order of a report is the
 validator's own.
 */
module ReportFacts {
  import opened Base
  import opened ConfigSpec
  import opened ConfigValidate
  import opened Scalars
  import opened Yaml
  import ValidatorMeaning

  type Entries = seq<(Node, Node)>

  // ---- scalars -------------------------------------------------------------------------------------

  predicate TextViolates(lib: Library, f: FieldSpec, s: string, v: Violation) {
    var constOk := f.constValue.Some? ==> s == f.constValue.value;
    var listed := constOk && (f.enumValues == [] || exists e | e in f.enumValues :: e.value == s);
    match v
    case MustNotBeEmpty => f.nonEmpty && s == ""
    case MustEqualConst => !constOk
    case NotInEnum => constOk && !listed
    case MustMatchPattern => listed && f.pattern.Some? && !lib.search(f.pattern.value, s)
    case ForbiddenText => listed && exists w | w in f.forbidden :: w.value == s
    case _ => false
  }

  predicate IntegerViolates(f: FieldSpec, n: int, v: Violation) {
    match v
    case BelowMinimum => f.minInt.Some? && n < f.minInt.value
    case AboveMaximum => f.maxInt.Some? && f.maxInt.value < n
    case _ => false
  }

  predicate NumberViolates(f: FieldSpec, x: real, v: Violation) {
    match v
    case BelowMinimum => f.minNumber.Some? && x < f.minNumber.value
    case AboveMaximum => f.maxNumber.Some? && f.maxNumber.value < x
    case NotAboveMinimum => f.exclusiveMin.Some? && !(f.exclusiveMin.value < x)
    case NotBelowMaximum => f.exclusiveMax.Some? && !(x < f.exclusiveMax.value)
    case _ => false
  }

  /** The violation of a scalar field that its resolved value is. */
  predicate FieldViolates(lib: Library, f: FieldSpec, r: Resolved, v: Violation) {
    match f.kind
    case StringKind => if r.RString? then TextViolates(lib, f, r.s, v) else v == MustBeString
    case IntegerKind =>
      if IntegerOf(r).Some? then IntegerViolates(f, IntegerOf(r).value, v) else v == MustBeInteger
    case NumberKind =>
      (match r
       case RInt(n) => NumberViolates(f, DoubleOfInt(n) as real, v)
       case RFloat(Finite(x)) => NumberViolates(f, x, v)
       case RFloat(_) => v == MustBeFinite
       case _ => v == MustBeNumber)
    case BooleanKind => !r.RBool? && v == MustBeBoolean
    case I2cAddressKind =>
      if r.RString? || IntegerOf(r).Some? then I2cAddressOf(r).None? && v == MustBeAddress
      else v == MustBeAddressLike
  }

  // ---- containers ------------------------------------------------------------------------------------

  /** Item `i` has the canonical value of an earlier one. */
  predicate RepeatsEarlier(lib: Library, f: FieldSpec, items: seq<Node>, i: nat)
    requires i < |items|
  {
    exists j | 0 <= j < i ::
      CanonicalValue(lib, f, items[j]).Some? && CanonicalValue(lib, f, items[j]) == CanonicalValue(lib, f, items[i])
  }

  /** The member's value in object item `i` is that of an earlier item. */
  predicate ColumnRepeats(lib: Library, m: Member, items: seq<Node>, i: nat)
    requires i < |items| && m.decl.Scalar?
  {
    exists j | 0 <= j < i ::
      ColumnKey(lib, m.decl.field, m.key, items[j]).Some?
      && ColumnKey(lib, m.decl.field, m.key, items[j]) == ColumnKey(lib, m.decl.field, m.key, items[i])
  }

  /** A violation `v` at the end of the path `rel` from the node down. */
  predicate ArrayViolates(lib: Library, a: ArraySpec, node: Node, rel: seq<Step>, v: Violation)
    decreases a, 3
  {
    if !node.SequenceNode? then rel == [] && v == MustBeSequence
    else
      || SizeViolates(a, |node.items|, rel, v)
      || ItemsViolate(lib, a, node.items, rel, v)
  }

  predicate ItemsViolate(lib: Library, a: ArraySpec, items: seq<Node>, rel: seq<Step>, v: Violation)
    decreases a, 2
  {
    rel != [] && rel[0].Index? && rel[0].i < |items| && ItemViolates(lib, a, items, rel[0].i, rel[1..], v)
  }

  predicate SizeViolates(a: ArraySpec, size: nat, rel: seq<Step>, v: Violation) {
    rel == [] &&
    match v
    case TooFewItems => a.minItems.Some? && size < a.minItems.value
    case TooManyItems => a.maxItems.Some? && a.maxItems.value < size
    case _ => false
  }

  predicate ItemViolates(lib: Library, a: ArraySpec, items: seq<Node>, i: nat, rel: seq<Step>, v: Violation)
    requires i < |items|
    decreases a, 1
  {
    match a.item
    case ScalarItem(f) =>
      && rel == []
      && (FieldViolates(lib, f, Resolve(lib, items[i]), v)
          || (v == DuplicateValue && a.unique && RepeatsEarlier(lib, f, items, i)))
    case ObjectItem(o) =>
      || ObjectViolates(lib, o, items[i], rel, v)
      || (v == DuplicateValue && ColumnViolates(lib, o, items, i, rel))
  }

  predicate ColumnViolates(lib: Library, o: ObjectSpec, items: seq<Node>, i: nat, rel: seq<Step>)
    requires i < |items|
  {
    exists m | m in o.members :: m.decl.Scalar? && m.decl.field.unique && rel == [Key(m.key)] && ColumnRepeats(lib, m, items, i)
  }

  predicate KeysViolate(entries: Entries, rel: seq<Step>, v: Violation) {
    match v
    case KeysMustBeScalars => rel == [] && exists e | e in entries :: !e.0.ScalarNode?
    case DuplicateKey =>
      |rel| == 1 && rel[0].Key?
      && exists i, j | 0 <= j < i < |entries| :: KeyedBy(entries[j], rel[0].key) && KeyedBy(entries[i], rel[0].key)
    case _ => false
  }

  predicate PresentViolates(o: ObjectSpec, entries: Entries, rel: seq<Step>, v: Violation) {
    && |rel| == 1 && rel[0].Key? && Has(entries, rel[0].key)
    && match v
       case NoLongerSupported => IsDeprecated(o, rel[0].key)
       case UnknownKey => o.openness == Closed && !Declares(o, rel[0].key) && !IsDeprecated(o, rel[0].key)
       case _ => false
  }

  predicate DeclarationViolates(lib: Library, d: Declaration, node: Node, rel: seq<Step>, v: Violation)
    decreases d, 4
  {
    match d
    case Scalar(f) => rel == [] && FieldViolates(lib, f, Resolve(lib, node), v)
    case Nested(o) => ObjectViolates(lib, o, node, rel, v)
    case Listed(a) => ArrayViolates(lib, a, node, rel, v)
  }

  predicate MemberViolates(lib: Library, m: Member, entries: Entries, rel: seq<Step>, v: Violation)
    decreases m, 5
  {
    && rel != [] && rel[0] == Key(m.key)
    && match Get(entries, m.key)
       case None => m.required && |rel| == 1 && v == IsRequired
       case Some(value) => DeclarationViolates(lib, m.decl, value, rel[1..], v)
  }

  predicate BranchViolates(lib: Library, c: Conditional, entries: Entries, rel: seq<Step>, v: Violation) {
    && BranchApplies(lib, c, entries) && |rel| == 1 && rel[0].Key?
    && match v
       case RequiredByBranch => rel[0].key in c.requireKeys && !Has(entries, rel[0].key)
       case InvalidInBranch => rel[0].key in c.forbidKeys && Has(entries, rel[0].key)
       case _ => false
  }

  predicate DependencyViolates(d: Dependent, entries: Entries, rel: seq<Step>, v: Violation) {
    && Has(entries, d.key) && v == RequiredByDependency
    && |rel| == 1 && rel[0].Key? && rel[0].key in d.alsoRequired && !Has(entries, rel[0].key)
  }

  predicate ObjectViolates(lib: Library, o: ObjectSpec, node: Node, rel: seq<Step>, v: Violation)
    decreases o, 6
  {
    if !node.MapNode? then rel == [] && v == MustBeMap
    else
      || KeysViolate(node.entries, rel, v)
      || PresentViolates(o, node.entries, rel, v)
      || (exists m | m in o.members :: MemberViolates(lib, m, node.entries, rel, v))
      || (exists c | c in o.conditionals :: BranchViolates(lib, c, node.entries, rel, v))
      || (exists d | d in o.dependents :: DependencyViolates(d, node.entries, rel, v))
  }

  // ---- lists of errors that say exactly something ----------------------------------------------------------

  /** What is claimed of violations below some path. */
  type Claim = (seq<Step>, Violation) -> bool

  /** The errors all lie below `path`, and are exactly the violations claimed there. */
  ghost predicate Exactly(errors: Errors, path: seq<Step>, claim: Claim) {
    && (forall e | e in errors :: path <= e.path && claim(e.path[|path|..], e.violation))
    && (forall rel, v | claim(rel, v) :: ValidationError(path + rel, v) in errors)
  }

  lemma Restated(errors: Errors, path: seq<Step>, p: Claim, q: Claim)
    requires Exactly(errors, path, p) && forall rel, v :: p(rel, v) <==> q(rel, v)
    ensures Exactly(errors, path, q)
  {
  }

  lemma One(c: bool, path: seq<Step>, at: seq<Step>, kind: Violation)
    ensures Exactly(If(c, path + at, kind), path, (rel, v) => c && rel == at && v == kind)
  {
    assert (path + at)[|path|..] == at;
  }

  lemma Here(c: bool, path: seq<Step>, kind: Violation)
    ensures Exactly(If(c, path, kind), path, (rel, v) => c && rel == [] && v == kind)
  {
    assert path + [] == path;
    One(c, path, [], kind);
  }

  lemma Nothing(path: seq<Step>)
    ensures Exactly([], path, (rel, v) => false)
  {
  }

  lemma Both(a: Errors, b: Errors, path: seq<Step>, p: Claim, q: Claim)
    requires Exactly(a, path, p) && Exactly(b, path, q)
    ensures Exactly(a + b, path, (rel, v) => p(rel, v) || q(rel, v))
  {
  }

  predicate AnyOf(claims: seq<Claim>, rel: seq<Step>, v: Violation) {
    exists i | 0 <= i < |claims| :: claims[i](rel, v)
  }

  lemma Any(parts: seq<Errors>, path: seq<Step>, claims: seq<Claim>, q: Claim)
    requires |parts| == |claims| && forall i | 0 <= i < |parts| :: Exactly(parts[i], path, claims[i])
    requires forall rel, v :: AnyOf(claims, rel, v) <==> q(rel, v)
    ensures Exactly(Flatten(parts), path, q)
  {
    forall e | e in Flatten(parts) ensures path <= e.path && q(e.path[|path|..], e.violation) {
      InFlatten(parts, e);
      assert AnyOf(claims, e.path[|path|..], e.violation);
    }
    forall rel, v | q(rel, v) ensures ValidationError(path + rel, v) in Flatten(parts) {
      assert AnyOf(claims, rel, v);
      InFlatten(parts, ValidationError(path + rel, v));
    }
  }

  lemma Below(errors: Errors, path: seq<Step>, step: Step, p: Claim)
    requires Exactly(errors, path + [step], p)
    ensures Exactly(errors, path, (rel, v) => rel != [] && rel[0] == step && p(rel[1..], v))
  {
    forall e | e in errors
      ensures path <= e.path && var rel := e.path[|path|..]; rel != [] && rel[0] == step && p(rel[1..], e.violation)
    {
      assert e.path[|path|..][1..] == e.path[|path + [step]|..];
      assert e.path[|path|] == (path + [step])[|path|];
    }
    forall rel: seq<Step>, v | rel != [] && rel[0] == step && p(rel[1..], v) ensures ValidationError(path + rel, v) in errors {
      assert path + rel == path + [step] + rel[1..];
    }
  }

  // ---- scalars, exactly -------------------------------------------------------------------------------------

  lemma ForbiddenExact(f: FieldSpec, s: string, path: seq<Step>)
    ensures Exactly(Flatten(ForbiddenErrors(f, s, path)), path,
      (rel, v) => rel == [] && v == ForbiddenText && exists w | w in f.forbidden :: w.value == s)
  {
    hide Exactly, Flatten;
    var claims: seq<Claim> := seq(|f.forbidden|, i requires 0 <= i < |f.forbidden| =>
      (rel, v) => f.forbidden[i].value == s && rel == [] && v == ForbiddenText);
    var parts := ForbiddenErrors(f, s, path);
    forall i | 0 <= i < |parts| ensures Exactly(parts[i], path, claims[i]) {
      Single(parts[i], path, f.forbidden[i].value == s, ForbiddenText, claims[i]);
    }
    var q: Claim := (rel, v) => rel == [] && v == ForbiddenText && exists w | w in f.forbidden :: w.value == s;
    forall rel, v ensures AnyOf(claims, rel, v) <==> q(rel, v) {
      if AnyOf(claims, rel, v) {
        var i :| 0 <= i < |claims| && claims[i](rel, v);
        assert f.forbidden[i] in f.forbidden;
      }
      if q(rel, v) {
        var i :| 0 <= i < |f.forbidden| && f.forbidden[i].value == s;
        assert claims[i](rel, v);
      }
    }
    Any(parts, path, claims, q);
  }

  lemma EnumListed(f: FieldSpec, s: string)
    ensures s in EnumTexts(f) <==> exists e | e in f.enumValues :: e.value == s
  {
    assert forall i | 0 <= i < |f.enumValues| :: EnumTexts(f)[i] == f.enumValues[i].value && f.enumValues[i] in f.enumValues;
    if e :| e in f.enumValues && e.value == s {
      var i :| 0 <= i < |f.enumValues| && f.enumValues[i] == e;
      assert EnumTexts(f)[i] == s;
    }
  }

  lemma TextExact(lib: Library, f: FieldSpec, s: string, path: seq<Step>)
    ensures Exactly(StringErrors(lib, f, s, path), path, (rel, v) => rel == [] && TextViolates(lib, f, s, v))
  {
    hide Exactly, Flatten, If, ForbiddenErrors, EnumTexts;
    EnumListed(f, s);
    var empty: Claim := (rel, v) => (f.nonEmpty && s == "") && rel == [] && v == MustNotBeEmpty;
    Here(f.nonEmpty && s == "", path, MustNotBeEmpty);
    var first := If(f.nonEmpty && s == "", path, MustNotBeEmpty);
    var rest, claim := RestOfText(lib, f, s, path);
    assert StringErrors(lib, f, s, path) == first + rest;
    Both(first, rest, path, empty, claim);
    Restated(first + rest, path, (rel, v) => empty(rel, v) || claim(rel, v),
             (rel, v) => rel == [] && TextViolates(lib, f, s, v));
  }

  /** The errors of a text after the empty check, and what they say. */
  lemma RestOfText(lib: Library, f: FieldSpec, s: string, path: seq<Step>) returns (rest: Errors, claim: Claim)
    ensures StringErrors(lib, f, s, path) == If(f.nonEmpty && s == "", path, MustNotBeEmpty) + rest
    ensures Exactly(rest, path, claim)
    ensures forall rel, v :: claim(rel, v) <==>
      rel == [] && v != MustNotBeEmpty && TextViolates(lib, f, s, v)
  {
    hide Exactly, Flatten, If, ForbiddenErrors, EnumTexts;
    EnumListed(f, s);
    if f.constValue.Some? && s != f.constValue.value {
      Here(true, path, MustEqualConst);
      rest, claim := If(true, path, MustEqualConst), (rel, v) => true && rel == [] && v == MustEqualConst;
    } else if f.enumValues != [] && s !in EnumTexts(f) {
      Here(true, path, NotInEnum);
      rest, claim := If(true, path, NotInEnum), (rel, v) => true && rel == [] && v == NotInEnum;
    } else {
      var c := f.pattern.Some? && !lib.search(f.pattern.value, s);
      var p: Claim := (rel, v) => c && rel == [] && v == MustMatchPattern;
      var q: Claim := (rel, v) => rel == [] && v == ForbiddenText && exists w | w in f.forbidden :: w.value == s;
      Here(c, path, MustMatchPattern);
      ForbiddenExact(f, s, path);
      Both(If(c, path, MustMatchPattern), Flatten(ForbiddenErrors(f, s, path)), path, p, q);
      rest := If(c, path, MustMatchPattern) + Flatten(ForbiddenErrors(f, s, path));
      claim := (rel, v) => p(rel, v) || q(rel, v);
    }
  }

  lemma TwoExact(c: bool, d: bool, path: seq<Step>, a: Violation, b: Violation)
    ensures Exactly(If(c, path, a) + If(d, path, b), path, (rel, v) => rel == [] && ((c && v == a) || (d && v == b)))
  {
    var errors := If(c, path, a) + If(d, path, b);
    assert path + [] == path;
    assert c ==> ValidationError(path, a) in errors;
    assert d ==> ValidationError(path, b) in errors;
  }

  lemma IntegerExact(f: FieldSpec, r: Resolved, path: seq<Step>)
    requires IntegerOf(r).Some?
    ensures Exactly(IntegerErrors(f, r, path), path, (rel, v) => rel == [] && IntegerViolates(f, IntegerOf(r).value, v))
  {
    hide Exactly, If, IntegerOf;
    var n := IntegerOf(r).value;
    var c, d := f.minInt.Some? && n < f.minInt.value, f.maxInt.Some? && n > f.maxInt.value;
    TwoExact(c, d, path, BelowMinimum, AboveMaximum);
    Restated(IntegerErrors(f, r, path), path, (rel, v) => rel == [] && ((c && v == BelowMinimum) || (d && v == AboveMaximum)),
             (rel, v) => rel == [] && IntegerViolates(f, n, v));
  }

  lemma NumberExact(f: FieldSpec, x: real, path: seq<Step>)
    ensures Exactly(BoundErrors(f, x, path), path, (rel, v) => rel == [] && NumberViolates(f, x, v))
  {
    hide Exactly, If;
    var c, d := f.minNumber.Some? && x < f.minNumber.value, f.exclusiveMin.Some? && x <= f.exclusiveMin.value;
    var g, h := f.maxNumber.Some? && x > f.maxNumber.value, f.exclusiveMax.Some? && x >= f.exclusiveMax.value;
    TwoExact(c, d, path, BelowMinimum, NotAboveMinimum);
    TwoExact(g, h, path, AboveMaximum, NotBelowMaximum);
    var p: Claim := (rel, v) => rel == [] && ((c && v == BelowMinimum) || (d && v == NotAboveMinimum));
    var q: Claim := (rel, v) => rel == [] && ((g && v == AboveMaximum) || (h && v == NotBelowMaximum));
    var low, high := If(c, path, BelowMinimum) + If(d, path, NotAboveMinimum), If(g, path, AboveMaximum) + If(h, path, NotBelowMaximum);
    Both(low, high, path, p, q);
    assert BoundErrors(f, x, path) == low + high;
    Restated(low + high, path, (rel, v) => p(rel, v) || q(rel, v), (rel, v) => rel == [] && NumberViolates(f, x, v));
  }

  lemma Single(errors: Errors, path: seq<Step>, c: bool, kind: Violation, claim: Claim)
    requires errors == If(c, path, kind) && forall rel, v :: claim(rel, v) <==> c && rel == [] && v == kind
    ensures Exactly(errors, path, claim)
  {
    hide Exactly, If;
    Here(c, path, kind);
    Restated(errors, path, (rel, v) => c && rel == [] && v == kind, claim);
  }

  /** The errors of a scalar field all stand at its path and are exactly its violations. */
  lemma FieldExact(lib: Library, f: FieldSpec, r: Resolved, path: seq<Step>)
    ensures Exactly(ResolvedErrors(lib, f, r, path), path, (rel, v) => rel == [] && FieldViolates(lib, f, r, v))
  {
    hide Exactly, If, StringErrors, BoundErrors, IntegerOf, I2cAddressOf, TextViolates, NumberViolates, IntegerViolates;
    var errors := ResolvedErrors(lib, f, r, path);
    var claim: Claim := (rel, v) => rel == [] && FieldViolates(lib, f, r, v);
    match f.kind
    case StringKind =>
      if r.RString? {
        TextExact(lib, f, r.s, path);
        Restated(errors, path, (rel, v) => rel == [] && TextViolates(lib, f, r.s, v), claim);
      } else {
        Single(errors, path, true, MustBeString, claim);
      }
    case IntegerKind =>
      if IntegerOf(r).Some? {
        IntegerExact(f, r, path);
        Restated(errors, path, (rel, v) => rel == [] && IntegerViolates(f, IntegerOf(r).value, v), claim);
      } else {
        Single(errors, path, true, MustBeInteger, claim);
      }
    case NumberKind => NumberFieldExact(lib, f, r, path);
    case BooleanKind => Single(errors, path, !r.RBool?, MustBeBoolean, claim);
    case I2cAddressKind => AddressFieldExact(lib, f, r, path);
  }

  lemma NumberFieldExact(lib: Library, f: FieldSpec, r: Resolved, path: seq<Step>)
    requires f.kind == NumberKind
    ensures Exactly(ResolvedErrors(lib, f, r, path), path, (rel, v) => rel == [] && FieldViolates(lib, f, r, v))
  {
    hide Exactly, If, BoundErrors, NumberViolates;
    var errors := ResolvedErrors(lib, f, r, path);
    var claim: Claim := (rel, v) => rel == [] && FieldViolates(lib, f, r, v);
    if r.RInt? || (r.RFloat? && r.f.Finite?) {
      var x := if r.RInt? then DoubleOfInt(r.n) as real else r.f.v;
      NumberExact(f, x, path);
      Restated(errors, path, (rel, v) => rel == [] && NumberViolates(f, x, v), claim);
    } else {
      Single(errors, path, true, if r.RFloat? then MustBeFinite else MustBeNumber, claim);
    }
  }

  lemma AddressFieldExact(lib: Library, f: FieldSpec, r: Resolved, path: seq<Step>)
    requires f.kind == I2cAddressKind
    ensures Exactly(ResolvedErrors(lib, f, r, path), path, (rel, v) => rel == [] && FieldViolates(lib, f, r, v))
  {
    hide Exactly, If, I2cAddressOf;
    var errors := ResolvedErrors(lib, f, r, path);
    var claim: Claim := (rel, v) => rel == [] && FieldViolates(lib, f, r, v);
    if r.RString? || IntegerOf(r).Some? {
      Single(errors, path, I2cAddressOf(r).None?, MustBeAddress, claim);
    } else {
      Single(errors, path, true, MustBeAddressLike, claim);
    }
  }

  // ---- arrays, exactly ------------------------------------------------------------------------------------------

  lemma SizeExact(a: ArraySpec, size: nat, path: seq<Step>)
    ensures Exactly(SizeErrors(a, size, path), path, (rel, v) => SizeViolates(a, size, rel, v))
  {
    hide Exactly, If;
    var c, d := a.minItems.Some? && size < a.minItems.value, a.maxItems.Some? && size > a.maxItems.value;
    TwoExact(c, d, path, TooFewItems, TooManyItems);
    Restated(SizeErrors(a, size, path), path, (rel, v) => rel == [] && ((c && v == TooFewItems) || (d && v == TooManyItems)),
             (rel, v) => SizeViolates(a, size, rel, v));
  }

  lemma RepeatsAre(keys: seq<Option<Canonical>>, i: nat)
    requires i < |keys|
    ensures Repeats(keys, i) <==> exists j | 0 <= j < i :: keys[j].Some? && keys[j] == keys[i]
  {
    assert forall j | 0 <= j < i :: keys[..i][j] == keys[j];
  }

  lemma ScalarItemExact(lib: Library, a: ArraySpec, items: seq<Node>, i: nat, path: seq<Step>)
    requires a.item.ScalarItem? && i < |items|
    ensures var f := a.item.field;
      Exactly(FieldErrors(lib, f, items[i], path) + If(a.unique && Repeats(ItemKeys(lib, f, items), i), path, DuplicateValue), path,
              (rel, v) => ItemViolates(lib, a, items, i, rel, v))
  {
    hide Exactly, If, ResolvedErrors, FieldViolates, CanonicalValue, Repeats;
    var f := a.item.field;
    var c := a.unique && Repeats(ItemKeys(lib, f, items), i);
    RepeatsAre(ItemKeys(lib, f, items), i);
    assert forall j | 0 <= j < |items| :: ItemKeys(lib, f, items)[j] == CanonicalValue(lib, f, items[j]);
    FieldExact(lib, f, Resolve(lib, items[i]), path);
    Here(c, path, DuplicateValue);
    var p: Claim := (rel, v) => rel == [] && FieldViolates(lib, f, Resolve(lib, items[i]), v);
    var q: Claim := (rel, v) => c && rel == [] && v == DuplicateValue;
    Both(FieldErrors(lib, f, items[i], path), If(c, path, DuplicateValue), path, p, q);
    Restated(FieldErrors(lib, f, items[i], path) + If(c, path, DuplicateValue), path, (rel, v) => p(rel, v) || q(rel, v),
             (rel, v) => ItemViolates(lib, a, items, i, rel, v));
  }

  /** A duplicate in a column of an object array stands at the item's member. */
  lemma ColumnExact(lib: Library, o: ObjectSpec, items: seq<Node>, i: nat, path: seq<Step>)
    requires i < |items|
    ensures Exactly(Flatten(DuplicateErrors(lib, o, items, i, path)), path + [Index(i)],
      (rel, v) => v == DuplicateValue && ColumnViolates(lib, o, items, i, rel))
  {
    hide Exactly, If, Flatten, ColumnKey, Repeats;
    var parts := DuplicateErrors(lib, o, items, i, path);
    var claims: seq<Claim> := seq(|o.members|, k requires 0 <= k < |o.members| =>
      (rel, v) => ColumnClaim(lib, o.members[k], items, i, rel, v));
    forall k | 0 <= k < |parts| ensures Exactly(parts[k], path + [Index(i)], claims[k]) {
      ColumnPart(lib, o.members[k], items, i, path, claims[k]);
    }
    var q: Claim := (rel, v) => v == DuplicateValue && ColumnViolates(lib, o, items, i, rel);
    hide ColumnClaim, ColumnViolates;
    forall rel: seq<Step>, v ensures AnyOf(claims, rel, v) <==> q(rel, v) {
      SomeColumn(lib, o.members, o, items, i, rel, v);
      if k :| 0 <= k < |o.members| && ColumnClaim(lib, o.members[k], items, i, rel, v) { assert claims[k](rel, v); }
    }
    Any(parts, path + [Index(i)], claims, q);
  }

  lemma SomeColumn(lib: Library, ms: seq<Member>, o: ObjectSpec, items: seq<Node>, i: nat, rel: seq<Step>, v: Violation)
    requires i < |items| && ms == o.members
    ensures (exists k | 0 <= k < |ms| :: ColumnClaim(lib, ms[k], items, i, rel, v)) <==>
      v == DuplicateValue && ColumnViolates(lib, o, items, i, rel)
  {
    hide ColumnRepeats;
    if k :| 0 <= k < |ms| && ColumnClaim(lib, ms[k], items, i, rel, v) {
      assert ms[k] in ms;
    }
    if v == DuplicateValue && ColumnViolates(lib, o, items, i, rel) {
      var m :| m in ms && m.decl.Scalar? && m.decl.field.unique && rel == [Key(m.key)] && ColumnRepeats(lib, m, items, i);
      var k :| 0 <= k < |ms| && ms[k] == m;
      assert ColumnClaim(lib, ms[k], items, i, rel, v);
    }
  }

  predicate ColumnClaim(lib: Library, m: Member, items: seq<Node>, i: nat, rel: seq<Step>, v: Violation)
    requires i < |items|
  {
    v == DuplicateValue && m.decl.Scalar? && m.decl.field.unique && rel == [Key(m.key)] && ColumnRepeats(lib, m, items, i)
  }

  lemma ColumnPart(lib: Library, m: Member, items: seq<Node>, i: nat, path: seq<Step>, claim: Claim)
    requires i < |items| && forall rel, v :: claim(rel, v) <==> ColumnClaim(lib, m, items, i, rel, v)
    ensures Exactly(If(TracksUniqueness(m) && Repeats(ColumnKeys(lib, m.decl.field, m.key, items), i),
                       path + [Index(i), Key(m.key)], DuplicateValue), path + [Index(i)], claim)
  {
    hide Exactly, If, ColumnKey, Repeats;
    var c := TracksUniqueness(m) && Repeats(ColumnKeys(lib, m.decl.field, m.key, items), i);
    if m.decl.Scalar? {
      var keys := ColumnKeys(lib, m.decl.field, m.key, items);
      RepeatsAre(keys, i);
      assert forall j | 0 <= j < |items| :: keys[j] == ColumnKey(lib, m.decl.field, m.key, items[j]);
    }
    assert path + [Index(i), Key(m.key)] == path + [Index(i)] + [Key(m.key)];
    One(c, path + [Index(i)], [Key(m.key)], DuplicateValue);
    Restated(If(c, path + [Index(i), Key(m.key)], DuplicateValue), path + [Index(i)],
             (rel, v) => c && rel == [Key(m.key)] && v == DuplicateValue, claim);
  }

  lemma ObjectItemExact(lib: Library, a: ArraySpec, items: seq<Node>, i: nat, path: seq<Step>)
    requires a.item.ObjectItem? && i < |items|
    ensures Exactly(ObjectErrors(lib, a.item.child, items[i], path + [Index(i)]) +
                    Flatten(DuplicateErrors(lib, a.item.child, items, i, path)), path + [Index(i)],
      (rel, v) => ItemViolates(lib, a, items, i, rel, v))
    decreases a, 1
  {
    hide Exactly, Flatten, ObjectErrors, ObjectViolates, ColumnViolates, DuplicateErrors;
    var o, here := a.item.child, path + [Index(i)];
    ObjectExact(lib, o, items[i], here);
    ColumnExact(lib, o, items, i, path);
    var p: Claim := (rel, v) => ObjectViolates(lib, o, items[i], rel, v);
    var q: Claim := (rel, v) => v == DuplicateValue && ColumnViolates(lib, o, items, i, rel);
    var errors := ObjectErrors(lib, o, items[i], here) + Flatten(DuplicateErrors(lib, o, items, i, path));
    Both(ObjectErrors(lib, o, items[i], here), Flatten(DuplicateErrors(lib, o, items, i, path)), here, p, q);
    Restated(errors, here, (rel, v) => p(rel, v) || q(rel, v), (rel, v) => ItemViolates(lib, a, items, i, rel, v));
  }

  lemma ItemExact(lib: Library, a: ArraySpec, items: seq<Node>, i: nat, path: seq<Step>)
    requires i < |items|
    ensures Exactly(ItemErrors(lib, a, items, path)[i], path,
      (rel, v) => rel != [] && rel[0] == Index(i) && ItemViolates(lib, a, items, i, rel[1..], v))
    decreases a, 2
  {
    hide Exactly, If, Flatten, ItemViolates, ObjectErrors, FieldErrors, DuplicateErrors, Repeats;
    var p: Claim := (rel, v) => ItemViolates(lib, a, items, i, rel, v);
    var errors := ItemErrors(lib, a, items, path)[i];
    match a.item {
      case ScalarItem(f) =>
        ScalarItemExact(lib, a, items, i, path + [Index(i)]);
      case ObjectItem(o) =>
        ObjectItemExact(lib, a, items, i, path);
    }
    Restated(errors, path + [Index(i)], (rel, v) => ItemViolates(lib, a, items, i, rel, v), p);
    Below(errors, path, Index(i), p);
    Restated(errors, path, (rel, v) => rel != [] && rel[0] == Index(i) && p(rel[1..], v),
             (rel, v) => rel != [] && rel[0] == Index(i) && ItemViolates(lib, a, items, i, rel[1..], v));
  }

  lemma ItemsExact(lib: Library, a: ArraySpec, items: seq<Node>, path: seq<Step>)
    ensures Exactly(Flatten(ItemErrors(lib, a, items, path)), path,
      (rel, v) => ItemsViolate(lib, a, items, rel, v))
    decreases a, 3
  {
    hide Exactly, Flatten, ItemViolates;
    var parts := ItemErrors(lib, a, items, path);
    assert |parts| == |items|;
    hide ItemErrors;
    var claims: seq<Claim> := seq(|items|, i requires 0 <= i < |items| =>
      (rel, v) => rel != [] && rel[0] == Index(i) && ItemViolates(lib, a, items, i, rel[1..], v));
    forall i | 0 <= i < |parts| ensures Exactly(parts[i], path, claims[i]) {
      ItemExact(lib, a, items, i, path);
      Restated(parts[i], path, (rel, v) => rel != [] && rel[0] == Index(i) && ItemViolates(lib, a, items, i, rel[1..], v), claims[i]);
    }
    var q: Claim := (rel, v) => ItemsViolate(lib, a, items, rel, v);
    forall rel: seq<Step>, v ensures AnyOf(claims, rel, v) <==> q(rel, v) {
      if AnyOf(claims, rel, v) {
        var i :| 0 <= i < |claims| && claims[i](rel, v);
      }
      if q(rel, v) { assert claims[rel[0].i](rel, v); }
    }
    Any(parts, path, claims, q);
  }

  lemma ArrayExact(lib: Library, a: ArraySpec, node: Node, path: seq<Step>)
    ensures Exactly(ArrayErrors(lib, a, node, path), path, (rel, v) => ArrayViolates(lib, a, node, rel, v))
    decreases a, 4
  {
    hide Exactly, If, Flatten, ItemsViolate, ItemErrors, SizeErrors, SizeViolates;
    var claim: Claim := (rel, v) => ArrayViolates(lib, a, node, rel, v);
    if !node.SequenceNode? {
      Single(ArrayErrors(lib, a, node, path), path, true, MustBeSequence, claim);
      Restated(ArrayErrors(lib, a, node, path), path, claim, (rel, v) => ArrayViolates(lib, a, node, rel, v));
    } else {
      var items := node.items;
      SizeExact(a, |items|, path);
      ItemsExact(lib, a, items, path);
      var p: Claim := (rel, v) => SizeViolates(a, |items|, rel, v);
      var q: Claim := (rel, v) => ItemsViolate(lib, a, items, rel, v);
      Both(SizeErrors(a, |items|, path), Flatten(ItemErrors(lib, a, items, path)), path, p, q);
      Restated(SizeErrors(a, |items|, path) + Flatten(ItemErrors(lib, a, items, path)), path,
               (rel, v) => p(rel, v) || q(rel, v), (rel, v) => ArrayViolates(lib, a, node, rel, v));
    }
  }

  // ---- objects, exactly -----------------------------------------------------------------------------------------

  lemma KeysExact(entries: Entries, path: seq<Step>)
    ensures Exactly(Flatten(KeyErrors(entries, path)), path, (rel, v) => KeysViolate(entries, rel, v))
  {
    hide Exactly, If, Flatten;
    var parts := KeyErrors(entries, path);
    var claims: seq<Claim> := seq(|entries|, i requires 0 <= i < |entries| =>
      (rel, v) => KeyClaim(entries, i, rel, v));
    forall i | 0 <= i < |parts| ensures Exactly(parts[i], path, claims[i]) {
      KeyPart(entries, i, path, claims[i]);
    }
    var q: Claim := (rel, v) => KeysViolate(entries, rel, v);
    hide KeyClaim, KeysViolate;
    forall rel: seq<Step>, v ensures AnyOf(claims, rel, v) <==> q(rel, v) {
      SomeKey(entries, rel, v);
      if i :| 0 <= i < |entries| && KeyClaim(entries, i, rel, v) { assert claims[i](rel, v); }
    }
    Any(parts, path, claims, q);
  }

  lemma SomeKey(entries: Entries, rel: seq<Step>, v: Violation)
    ensures KeysViolate(entries, rel, v) <==> exists i | 0 <= i < |entries| :: KeyClaim(entries, i, rel, v)
  {
    if i :| 0 <= i < |entries| && KeyClaim(entries, i, rel, v) {
      assert entries[i] in entries;
    }
    if KeysViolate(entries, rel, v) && v == KeysMustBeScalars {
      var i :| 0 <= i < |entries| && !entries[i].0.ScalarNode?;
      assert KeyClaim(entries, i, rel, v);
    }
    if KeysViolate(entries, rel, v) && v == DuplicateKey {
      var i, j :| 0 <= j < i < |entries| && KeyedBy(entries[j], rel[0].key) && KeyedBy(entries[i], rel[0].key);
      assert KeyClaim(entries, i, rel, v);
    }
  }

  predicate KeyClaim(entries: Entries, i: nat, rel: seq<Step>, v: Violation)
    requires i < |entries|
  {
    if !entries[i].0.ScalarNode? then rel == [] && v == KeysMustBeScalars
    else v == DuplicateKey && rel == [Key(entries[i].0.raw)] && exists j | 0 <= j < i :: KeyedBy(entries[j], entries[i].0.raw)
  }

  lemma KeyPart(entries: Entries, i: nat, path: seq<Step>, claim: Claim)
    requires i < |entries| && forall rel, v :: claim(rel, v) <==> KeyClaim(entries, i, rel, v)
    ensures Exactly(KeyErrors(entries, path)[i], path, claim)
  {
    hide Exactly, If;
    var errors := KeyErrors(entries, path)[i];
    if !entries[i].0.ScalarNode? {
      Single(errors, path, true, KeysMustBeScalars, claim);
    } else {
      var k := entries[i].0.raw;
      assert forall j | 0 <= j < i :: entries[..i][j] == entries[j];
      var c := Has(entries[..i], k);
      One(c, path, [Key(k)], DuplicateKey);
      Restated(errors, path, (rel, v) => c && rel == [Key(k)] && v == DuplicateKey, claim);
    }
  }

  lemma PresentExact(o: ObjectSpec, entries: Entries, path: seq<Step>)
    ensures Exactly(Flatten(PresentErrors(o, Present(entries), path)), path, (rel, v) => PresentViolates(o, entries, rel, v))
  {
    hide Exactly, If, Flatten, Has, Present, IsDeprecated, Declares;
    var keys := Present(entries);
    ValidatorMeaning.PresentKeys(entries);
    var parts := PresentErrors(o, keys, path);
    var claims: seq<Claim> := seq(|keys|, i requires 0 <= i < |keys| => (rel, v) => PresentClaim(o, keys[i], rel, v));
    forall i | 0 <= i < |parts| ensures Exactly(parts[i], path, claims[i]) {
      PresentPart(o, keys, i, path, claims[i]);
    }
    var q: Claim := (rel, v) => PresentViolates(o, entries, rel, v);
    forall rel: seq<Step>, v ensures AnyOf(claims, rel, v) <==> q(rel, v) {
      if AnyOf(claims, rel, v) {
        var i :| 0 <= i < |claims| && claims[i](rel, v);
        assert keys[i] in keys;
      }
      if q(rel, v) {
        var i :| 0 <= i < |keys| && keys[i] == rel[0].key;
        assert claims[i](rel, v);
      }
    }
    Any(parts, path, claims, q);
  }

  predicate PresentClaim(o: ObjectSpec, k: string, rel: seq<Step>, v: Violation) {
    rel == [Key(k)] &&
    match v
    case NoLongerSupported => IsDeprecated(o, k)
    case UnknownKey => o.openness == Closed && !Declares(o, k) && !IsDeprecated(o, k)
    case _ => false
  }

  lemma PresentPart(o: ObjectSpec, keys: seq<string>, i: nat, path: seq<Step>, claim: Claim)
    requires i < |keys| && forall rel, v :: claim(rel, v) <==> PresentClaim(o, keys[i], rel, v)
    ensures Exactly(PresentErrors(o, keys, path)[i], path, claim)
  {
    hide Exactly, If, IsDeprecated, Declares;
    var k := keys[i];
    var c := IsDeprecated(o, k) || (o.openness == Closed && !Declares(o, k));
    var kind := if IsDeprecated(o, k) then NoLongerSupported else UnknownKey;
    One(c, path, [Key(k)], kind);
    Restated(PresentErrors(o, keys, path)[i], path, (rel, v) => c && rel == [Key(k)] && v == kind, claim);
  }

  lemma DeclarationExact(lib: Library, d: Declaration, node: Node, path: seq<Step>)
    ensures Exactly(DeclarationErrors(lib, d, node, path), path, (rel, v) => DeclarationViolates(lib, d, node, rel, v))
    decreases d, 5
  {
    hide Exactly, ResolvedErrors, FieldViolates, ArrayErrors, ObjectErrors, ArrayViolates, ObjectViolates;
    var claim: Claim := (rel, v) => DeclarationViolates(lib, d, node, rel, v);
    match d {
      case Scalar(f) =>
        FieldExact(lib, f, Resolve(lib, node), path);
        Restated(DeclarationErrors(lib, d, node, path), path,
                 (rel, v) => rel == [] && FieldViolates(lib, f, Resolve(lib, node), v), claim);
      case Nested(o) =>
        ObjectExact(lib, o, node, path);
        Restated(DeclarationErrors(lib, d, node, path), path, (rel, v) => ObjectViolates(lib, o, node, rel, v), claim);
      case Listed(a) =>
        ArrayExact(lib, a, node, path);
        Restated(DeclarationErrors(lib, d, node, path), path, (rel, v) => ArrayViolates(lib, a, node, rel, v), claim);
    }
    Restated(DeclarationErrors(lib, d, node, path), path, claim, (rel, v) => DeclarationViolates(lib, d, node, rel, v));
  }

  lemma MemberExact(lib: Library, m: Member, entries: Entries, path: seq<Step>)
    ensures Exactly(MemberErrors(lib, m, entries, path), path, (rel, v) => MemberViolates(lib, m, entries, rel, v))
    decreases m, 6
  {
    hide Exactly, If, DeclarationErrors, DeclarationViolates;
    var found := Get(entries, m.key);
    if found.None? {
      One(m.required, path, [Key(m.key)], IsRequired);
      Restated(MemberErrors(lib, m, entries, path), path, (rel, v) => m.required && rel == [Key(m.key)] && v == IsRequired,
               (rel, v) => MemberViolates(lib, m, entries, rel, v));
    } else {
      var p: Claim := (rel, v) => DeclarationViolates(lib, m.decl, found.value, rel, v);
      var errors := DeclarationErrors(lib, m.decl, found.value, path + [Key(m.key)]);
      DeclarationExact(lib, m.decl, found.value, path + [Key(m.key)]);
      Restated(errors, path + [Key(m.key)], (rel, v) => DeclarationViolates(lib, m.decl, found.value, rel, v), p);
      Below(errors, path, Key(m.key), p);
      Restated(errors, path, (rel, v) => rel != [] && rel[0] == Key(m.key) && p(rel[1..], v),
               (rel, v) => MemberViolates(lib, m, entries, rel, v));
    }
  }

  lemma MembersExact(lib: Library, o: ObjectSpec, entries: Entries, path: seq<Step>)
    ensures Exactly(Flatten(MembersErrors(lib, o, entries, path)), path,
      (rel, v) => exists m | m in o.members :: MemberViolates(lib, m, entries, rel, v))
    decreases o, 6
  {
    hide Exactly, Flatten, MemberErrors, MemberViolates;
    var parts, ms := MembersErrors(lib, o, entries, path), o.members;
    var claims: seq<Claim> := seq(|ms|, i requires 0 <= i < |ms| => (rel, v) => MemberViolates(lib, ms[i], entries, rel, v));
    forall i | 0 <= i < |parts| ensures Exactly(parts[i], path, claims[i]) {
      assert ms[i] in ms;
      MemberExact(lib, ms[i], entries, path);
      Restated(parts[i], path, (rel, v) => MemberViolates(lib, ms[i], entries, rel, v), claims[i]);
    }
    var q: Claim := (rel, v) => exists m | m in o.members :: MemberViolates(lib, m, entries, rel, v);
    forall rel: seq<Step>, v ensures AnyOf(claims, rel, v) <==> q(rel, v) {
      if AnyOf(claims, rel, v) {
        var i :| 0 <= i < |claims| && claims[i](rel, v);
        assert ms[i] in ms;
      }
      if q(rel, v) {
        var m :| m in ms && MemberViolates(lib, m, entries, rel, v);
        var i :| 0 <= i < |ms| && ms[i] == m;
        assert claims[i](rel, v);
      }
    }
    Any(parts, path, claims, q);
  }

  /** The path is that of one of the keys, which is there or not as `present` says. */
  predicate KeyAt(keys: seq<string>, entries: Entries, present: bool, rel: seq<Step>) {
    |rel| == 1 && rel[0].Key? && rel[0].key in keys && Has(entries, rel[0].key) == present
  }

  /** Errors of one kind at those of some keys whose presence is wrong. */
  lemma PresenceExact(parts: seq<Errors>, keys: seq<string>, entries: Entries, path: seq<Step>, present: bool, kind: Violation)
    requires |parts| == |keys|
    requires forall i | 0 <= i < |keys| :: parts[i] == If(Has(entries, keys[i]) == present, path + [Key(keys[i])], kind)
    ensures Exactly(Flatten(parts), path,
      (rel, v) => v == kind && KeyAt(keys, entries, present, rel))
  {
    hide Exactly, If, Flatten, Has, PresenceClaim, KeyAt;
    var claims: seq<Claim> := seq(|keys|, i requires 0 <= i < |keys| =>
      (rel, v) => PresenceClaim(entries, keys[i], present, kind, rel, v));
    forall i | 0 <= i < |parts| ensures Exactly(parts[i], path, claims[i]) {
      PresencePart(entries, keys[i], present, kind, path, claims[i]);
    }
    var q: Claim := (rel, v) => v == kind && KeyAt(keys, entries, present, rel);
    AnyPresence(claims, keys, entries, present, kind, q);
    Any(parts, path, claims, q);
  }

  predicate PresenceClaim(entries: Entries, key: string, present: bool, kind: Violation, rel: seq<Step>, v: Violation) {
    Has(entries, key) == present && rel == [Key(key)] && v == kind
  }

  lemma AnyPresence(claims: seq<Claim>, keys: seq<string>, entries: Entries, present: bool, kind: Violation, q: Claim)
    requires |claims| == |keys|
    requires forall i, rel, v | 0 <= i < |keys| :: claims[i](rel, v) <==> PresenceClaim(entries, keys[i], present, kind, rel, v)
    requires forall rel, v :: q(rel, v) <==> v == kind && KeyAt(keys, entries, present, rel)
    ensures forall rel, v :: AnyOf(claims, rel, v) <==> q(rel, v)
  {
    hide PresenceClaim, KeyAt;
    forall rel: seq<Step>, v ensures AnyOf(claims, rel, v) <==> q(rel, v) {
      SomePresence(keys, entries, present, kind, rel, v);
      if i :| 0 <= i < |keys| && PresenceClaim(entries, keys[i], present, kind, rel, v) { assert claims[i](rel, v); }
    }
  }

  lemma PresencePart(entries: Entries, key: string, present: bool, kind: Violation, path: seq<Step>, claim: Claim)
    requires forall rel, v :: claim(rel, v) <==> PresenceClaim(entries, key, present, kind, rel, v)
    ensures Exactly(If(Has(entries, key) == present, path + [Key(key)], kind), path, claim)
  {
    hide Exactly, If, Has;
    var c := Has(entries, key) == present;
    One(c, path, [Key(key)], kind);
    Restated(If(c, path + [Key(key)], kind), path, (rel, v) => c && rel == [Key(key)] && v == kind, claim);
  }

  lemma SomePresence(keys: seq<string>, entries: Entries, present: bool, kind: Violation, rel: seq<Step>, v: Violation)
    ensures (exists i | 0 <= i < |keys| :: PresenceClaim(entries, keys[i], present, kind, rel, v)) <==>
      v == kind && KeyAt(keys, entries, present, rel)
  {
    hide Has;
    if v == kind && KeyAt(keys, entries, present, rel) {
      var i :| 0 <= i < |keys| && keys[i] == rel[0].key;
      assert PresenceClaim(entries, keys[i], present, kind, rel, v);
    }
  }

  lemma BranchSplits(lib: Library, c: Conditional, entries: Entries, rel: seq<Step>, v: Violation)
    requires BranchApplies(lib, c, entries)
    ensures BranchViolates(lib, c, entries, rel, v) <==>
      || (v == RequiredByBranch && KeyAt(c.requireKeys, entries, false, rel))
      || (v == InvalidInBranch && KeyAt(c.forbidKeys, entries, true, rel))
  {
    hide BranchApplies, Has;
  }

  lemma BranchExact(lib: Library, c: Conditional, entries: Entries, path: seq<Step>)
    ensures Exactly(BranchErrors(lib, c, entries, path), path, (rel, v) => BranchViolates(lib, c, entries, rel, v))
  {
    hide Exactly, If, Flatten, Has, BranchApplies;
    var claim: Claim := (rel, v) => BranchViolates(lib, c, entries, rel, v);
    if !BranchApplies(lib, c, entries) {
      Nothing(path);
      Restated([], path, (rel, v) => false, claim);
    } else {
      var a, b := RequiredInBranch(c, entries, path), ForbiddenInBranch(c, entries, path);
      PresenceExact(a, c.requireKeys, entries, path, false, RequiredByBranch);
      PresenceExact(b, c.forbidKeys, entries, path, true, InvalidInBranch);
      var p: Claim := (rel, v) => v == RequiredByBranch && KeyAt(c.requireKeys, entries, false, rel);
      var q: Claim := (rel, v) => v == InvalidInBranch && KeyAt(c.forbidKeys, entries, true, rel);
      Both(Flatten(a), Flatten(b), path, p, q);
      forall rel: seq<Step>, v ensures p(rel, v) || q(rel, v) <==> claim(rel, v) { BranchSplits(lib, c, entries, rel, v); }
      Restated(Flatten(a) + Flatten(b), path, (rel, v) => p(rel, v) || q(rel, v), claim);
    }
    Restated(BranchErrors(lib, c, entries, path), path, claim, (rel, v) => BranchViolates(lib, c, entries, rel, v));
  }

  lemma BranchesExact(lib: Library, o: ObjectSpec, entries: Entries, path: seq<Step>)
    ensures Exactly(Flatten(BranchesErrors(lib, o, entries, path)), path,
      (rel, v) => exists c | c in o.conditionals :: BranchViolates(lib, c, entries, rel, v))
  {
    hide Exactly, Flatten, BranchErrors, BranchViolates;
    var parts, cs := BranchesErrors(lib, o, entries, path), o.conditionals;
    var claims: seq<Claim> := seq(|cs|, i requires 0 <= i < |cs| => (rel, v) => BranchViolates(lib, cs[i], entries, rel, v));
    forall i | 0 <= i < |parts| ensures Exactly(parts[i], path, claims[i]) {
      BranchExact(lib, cs[i], entries, path);
      Restated(parts[i], path, (rel, v) => BranchViolates(lib, cs[i], entries, rel, v), claims[i]);
    }
    var q: Claim := (rel, v) => exists c | c in o.conditionals :: BranchViolates(lib, c, entries, rel, v);
    forall rel: seq<Step>, v ensures AnyOf(claims, rel, v) <==> q(rel, v) {
      if AnyOf(claims, rel, v) {
        var i :| 0 <= i < |claims| && claims[i](rel, v);
        assert cs[i] in cs;
      }
      if q(rel, v) {
        var c :| c in cs && BranchViolates(lib, c, entries, rel, v);
        var i :| 0 <= i < |cs| && cs[i] == c;
        assert claims[i](rel, v);
      }
    }
    Any(parts, path, claims, q);
  }

  lemma DependencyExact(d: Dependent, entries: Entries, path: seq<Step>)
    ensures Exactly(if Has(entries, d.key) then Flatten(DependencyErrors(d, entries, path)) else [], path,
      (rel, v) => DependencyViolates(d, entries, rel, v))
  {
    hide Exactly, If, Flatten, Has;
    var claim: Claim := (rel, v) => DependencyViolates(d, entries, rel, v);
    if Has(entries, d.key) {
      var parts := DependencyErrors(d, entries, path);
      PresenceExact(parts, d.alsoRequired, entries, path, false, RequiredByDependency);
      Restated(Flatten(parts), path,
               (rel, v) => v == RequiredByDependency && KeyAt(d.alsoRequired, entries, false, rel), claim);
    } else {
      Nothing(path);
      Restated([], path, (rel, v) => false, claim);
    }
    Restated(if Has(entries, d.key) then Flatten(DependencyErrors(d, entries, path)) else [], path, claim,
             (rel, v) => DependencyViolates(d, entries, rel, v));
  }

  lemma DependenciesExact(o: ObjectSpec, entries: Entries, path: seq<Step>)
    ensures Exactly(Flatten(DependenciesErrors(o, entries, path)), path,
      (rel, v) => exists d | d in o.dependents :: DependencyViolates(d, entries, rel, v))
  {
    hide Exactly, Flatten, DependencyErrors, DependencyViolates, Has;
    var parts, ds := DependenciesErrors(o, entries, path), o.dependents;
    var claims: seq<Claim> := seq(|ds|, i requires 0 <= i < |ds| => (rel, v) => DependencyViolates(ds[i], entries, rel, v));
    forall i | 0 <= i < |parts| ensures Exactly(parts[i], path, claims[i]) {
      DependencyExact(ds[i], entries, path);
      Restated(parts[i], path, (rel, v) => DependencyViolates(ds[i], entries, rel, v), claims[i]);
    }
    var q: Claim := (rel, v) => exists d | d in o.dependents :: DependencyViolates(d, entries, rel, v);
    forall rel: seq<Step>, v ensures AnyOf(claims, rel, v) <==> q(rel, v) {
      if AnyOf(claims, rel, v) {
        var i :| 0 <= i < |claims| && claims[i](rel, v);
        assert ds[i] in ds;
      }
      if q(rel, v) {
        var d :| d in ds && DependencyViolates(d, entries, rel, v);
        var i :| 0 <= i < |ds| && ds[i] == d;
        assert claims[i](rel, v);
      }
    }
    Any(parts, path, claims, q);
  }

  lemma FiveExact(a: Errors, b: Errors, c: Errors, d: Errors, e: Errors, path: seq<Step>, p: Claim, q: Claim, r: Claim,
                  s: Claim, t: Claim, all: Claim)
    requires Exactly(a, path, p) && Exactly(b, path, q) && Exactly(c, path, r) && Exactly(d, path, s) && Exactly(e, path, t)
    requires forall rel, v :: all(rel, v) <==> p(rel, v) || q(rel, v) || r(rel, v) || s(rel, v) || t(rel, v)
    ensures Exactly(a + b + c + d + e, path, all)
  {
    hide Exactly;
    var pq: Claim := (rel, v) => p(rel, v) || q(rel, v);
    var pqr: Claim := (rel, v) => pq(rel, v) || r(rel, v);
    var pqrs: Claim := (rel, v) => pqr(rel, v) || s(rel, v);
    Both(a, b, path, p, q);
    Restated(a + b, path, (rel, v) => p(rel, v) || q(rel, v), pq);
    Both(a + b, c, path, pq, r);
    Restated(a + b + c, path, (rel, v) => pq(rel, v) || r(rel, v), pqr);
    Both(a + b + c, d, path, pqr, s);
    Restated(a + b + c + d, path, (rel, v) => pqr(rel, v) || s(rel, v), pqrs);
    Both(a + b + c + d, e, path, pqrs, t);
    Restated(a + b + c + d + e, path, (rel, v) => pqrs(rel, v) || t(rel, v), all);
  }

  lemma ObjectExact(lib: Library, o: ObjectSpec, node: Node, path: seq<Step>)
    ensures Exactly(ObjectErrors(lib, o, node, path), path, (rel, v) => ObjectViolates(lib, o, node, rel, v))
    decreases o, 7
  {
    hide Exactly, If, Flatten, KeyErrors, PresentErrors, MembersErrors, BranchesErrors, DependenciesErrors, KeysViolate,
      PresentViolates, MemberViolates, BranchViolates, DependencyViolates, Present;
    var claim: Claim := (rel, v) => ObjectViolates(lib, o, node, rel, v);
    if !node.MapNode? {
      Single(ObjectErrors(lib, o, node, path), path, true, MustBeMap, claim);
    } else {
      var es := node.entries;
      KeysExact(es, path);
      PresentExact(o, es, path);
      MembersExact(lib, o, es, path);
      BranchesExact(lib, o, es, path);
      DependenciesExact(o, es, path);
      FiveExact(Flatten(KeyErrors(es, path)), Flatten(PresentErrors(o, Present(es), path)),
                Flatten(MembersErrors(lib, o, es, path)), Flatten(BranchesErrors(lib, o, es, path)),
                Flatten(DependenciesErrors(o, es, path)), path,
                (rel, v) => KeysViolate(es, rel, v), (rel, v) => PresentViolates(o, es, rel, v),
                (rel, v) => exists m | m in o.members :: MemberViolates(lib, m, es, rel, v),
                (rel, v) => exists c | c in o.conditionals :: BranchViolates(lib, c, es, rel, v),
                (rel, v) => exists d | d in o.dependents :: DependencyViolates(d, es, rel, v), claim);
    }
    Restated(ObjectErrors(lib, o, node, path), path, claim, (rel, v) => ObjectViolates(lib, o, node, rel, v));
  }

  // ---- the report -------------------------------------------------------------------------------------------------

  /** An error stands in the report of a document exactly when following its path leads to that violation. */
  lemma ReportExact(lib: Library, o: ObjectSpec, doc: Node, e: ValidationError)
    ensures e in ObjectErrors(lib, o, doc, []) <==> ObjectViolates(lib, o, doc, e.path, e.violation)
  {
    hide ObjectErrors, ObjectViolates;
    ObjectExact(lib, o, doc, []);
    assert e.path[0..] == e.path && [] + e.path == e.path;
    assert e == ValidationError([] + e.path, e.violation);
  }

  // ---- the order of a report ----------------------------------------------------------------------------------------

  type Rank = ValidationError -> nat

  predicate Ordered(errors: Errors, rank: Rank) {
    forall i, j | 0 <= i < j < |errors| :: rank(errors[i]) <= rank(errors[j])
  }

  /** Every rank lies in [low, high). */
  predicate Ranks(errors: Errors, rank: Rank, low: nat, high: nat) {
    forall e | e in errors :: low <= rank(e) < high
  }

  lemma JoinOrdered(a: Errors, b: Errors, rank: Rank, low: nat, mid: nat, high: nat)
    requires low <= mid <= high && Ordered(a, rank) && Ordered(b, rank) && Ranks(a, rank, low, mid) && Ranks(b, rank, mid, high)
    ensures Ordered(a + b, rank) && Ranks(a + b, rank, low, high)
  {
    forall i, j | 0 <= i < j < |a + b| ensures rank((a + b)[i]) <= rank((a + b)[j]) {
      if i < |a| <= j { assert a[i] in a && b[j - |a|] in b; }
    }
  }

  lemma OneRank(errors: Errors, rank: Rank, low: nat)
    requires Ranks(errors, rank, low, low + 1)
    ensures Ordered(errors, rank)
  {
    assert forall i | 0 <= i < |errors| :: errors[i] in errors;
  }

  lemma {:induction false} PartsOrdered(parts: seq<Errors>, rank: Rank, low: nat)
    requires forall k | 0 <= k < |parts| :: Ranks(parts[k], rank, low + k, low + k + 1)
    ensures Ordered(Flatten(parts), rank) && Ranks(Flatten(parts), rank, low, low + |parts|)
  {
    if parts != [] {
      forall k | 0 <= k < |parts[1..]| ensures Ranks(parts[1..][k], rank, low + 1 + k, low + 1 + k + 1) {
        assert parts[1..][k] == parts[k + 1];
      }
      PartsOrdered(parts[1..], rank, low + 1);
      OneRank(parts[0], rank, low);
      JoinOrdered(parts[0], Flatten(parts[1..]), rank, low, low + 1, low + |parts|);
    }
  }

  /** The position of a key among the members. */
  function Position(ms: seq<Member>, key: string): (i: nat)
    ensures i <= |ms|
  {
    if ms == [] || ms[0].key == key then 0 else 1 + Position(ms[1..], key)
  }

  lemma {:induction false} PositionOf(ms: seq<Member>, i: nat)
    requires i < |ms| && forall j, k | 0 <= j < k < |ms| :: ms[j].key != ms[k].key
    ensures Position(ms, ms[i].key) == i
  {
    if i > 0 { PositionOf(ms[1..], i - 1); }
  }

  /**
   Where a violation below an object stands in its report: keys first, deprecated and
   unknown keys next, then the members in the order they are declared, branches, and
   dependencies last.
   */
  function ObjectRank(ms: seq<Member>, rel: seq<Step>, v: Violation): nat {
    if rel == [] then 0
    else if |rel| == 1 && v == DuplicateKey then 0
    else if |rel| == 1 && v in {NoLongerSupported, UnknownKey} then 1
    else if |rel| == 1 && v in {RequiredByBranch, InvalidInBranch} then 3 + |ms|
    else if |rel| == 1 && v == RequiredByDependency then 4 + |ms|
    else if rel[0].Key? then 2 + Position(ms, rel[0].key) else 0
  }

  function RankBelow(ms: seq<Member>, path: seq<Step>, e: ValidationError): nat {
    if path <= e.path then ObjectRank(ms, e.path[|path|..], e.violation) else 0
  }

  /** What a declaration can report at its own path is never one of the kinds an object reports of its keys. */
  lemma OwnKinds(lib: Library, d: Declaration, node: Node, v: Violation)
    requires DeclarationViolates(lib, d, node, [], v)
    ensures !OfKeys(v)
  {
    hide FieldViolates, ArrayViolates, ObjectViolates, OfKeys;
    match d
    case Scalar(f) => FieldKinds(lib, f, Resolve(lib, node), v);
    case Nested(o) => ObjectKinds(lib, o, node, v);
    case Listed(a) => ArrayKinds(lib, a, node, v);
  }

  /** The kinds an object reports of its keys. */
  predicate OfKeys(v: Violation) {
    v.DuplicateKey? || v.NoLongerSupported? || v.UnknownKey? || v.RequiredByBranch? || v.InvalidInBranch? || v.RequiredByDependency?
  }

  lemma FieldKinds(lib: Library, f: FieldSpec, r: Resolved, v: Violation)
    requires FieldViolates(lib, f, r, v)
    ensures !OfKeys(v)
  {
    hide IntegerOf, I2cAddressOf, DoubleOfInt;
  }

  lemma ObjectKinds(lib: Library, o: ObjectSpec, node: Node, v: Violation)
    requires ObjectViolates(lib, o, node, [], v)
    ensures !OfKeys(v)
  {
    hide BranchApplies, Has, Get, DeclarationViolates;
    if node.MapNode? {
      assert forall m | m in o.members :: !MemberViolates(lib, m, node.entries, [], v);
    }
  }

  lemma ArrayKinds(lib: Library, a: ArraySpec, node: Node, v: Violation)
    requires ArrayViolates(lib, a, node, [], v)
    ensures !OfKeys(v)
  {
    hide ItemViolates;
  }

  lemma MemberRank(lib: Library, m: Member, entries: Entries, rel: seq<Step>, v: Violation, ms: seq<Member>)
    requires MemberViolates(lib, m, entries, rel, v)
    ensures ObjectRank(ms, rel, v) == 2 + Position(ms, m.key)
  {
    hide DeclarationViolates, Get, Position;
    if |rel| == 1 && Get(entries, m.key).Some? {
      assert rel[1..] == [];
      OwnKinds(lib, m.decl, Get(entries, m.key).value, v);
    }
  }

  lemma ClaimRanks(errors: Errors, path: seq<Step>, claim: Claim, ms: seq<Member>, low: nat)
    requires Exactly(errors, path, claim) && forall rel, v | claim(rel, v) :: ObjectRank(ms, rel, v) == low
    ensures Ranks(errors, e => RankBelow(ms, path, e), low, low + 1)
  {
    hide ObjectRank;
  }

  lemma MembersOrdered(lib: Library, ms: seq<Member>, o: ObjectSpec, entries: Entries, path: seq<Step>)
    requires ms == o.members && forall j, k | 0 <= j < k < |ms| :: ms[j].key != ms[k].key
    ensures Ordered(Flatten(MembersErrors(lib, o, entries, path)), e => RankBelow(ms, path, e))
    ensures Ranks(Flatten(MembersErrors(lib, o, entries, path)), e => RankBelow(ms, path, e), 2, 2 + |ms|)
  {
    hide Exactly, MemberErrors, MemberViolates, ObjectRank, Position, Ranks, Ordered, Flatten;
    var parts := MembersErrors(lib, o, entries, path);
    forall k | 0 <= k < |parts| ensures Ranks(parts[k], e => RankBelow(ms, path, e), 2 + k, 2 + k + 1) {
      var claim: Claim := (rel, v) => MemberViolates(lib, ms[k], entries, rel, v);
      MemberExact(lib, ms[k], entries, path);
      Restated(parts[k], path, (rel, v) => MemberViolates(lib, ms[k], entries, rel, v), claim);
      PositionOf(ms, k);
      forall rel: seq<Step>, v | claim(rel, v) ensures ObjectRank(ms, rel, v) == 2 + k {
        MemberRank(lib, ms[k], entries, rel, v, ms);
      }
      ClaimRanks(parts[k], path, claim, ms, 2 + k);
    }
    PartsOrdered(parts, e => RankBelow(ms, path, e), 2);
  }

  lemma SegmentsOrdered(a: Errors, b: Errors, c: Errors, d: Errors, e: Errors, rank: Rank, n: nat)
    requires Ranks(a, rank, 0, 1) && Ranks(b, rank, 1, 2) && Ordered(c, rank) && Ranks(c, rank, 2, 2 + n)
    requires Ranks(d, rank, 3 + n, 4 + n) && Ranks(e, rank, 4 + n, 5 + n)
    ensures Ordered(a + b + c + d + e, rank)
  {
    OneRank(a, rank, 0);
    OneRank(b, rank, 1);
    OneRank(d, rank, 3 + n);
    OneRank(e, rank, 4 + n);
    WiderRanks(d, rank, 3 + n, 4 + n, 2 + n);
    hide Ordered, Ranks;
    JoinOrdered(a, b, rank, 0, 1, 2);
    JoinOrdered(a + b, c, rank, 0, 2, 2 + n);
    JoinOrdered(a + b + c, d, rank, 0, 2 + n, 4 + n);
    JoinOrdered(a + b + c + d, e, rank, 0, 4 + n, 5 + n);
  }

  lemma WiderRanks(errors: Errors, rank: Rank, low: nat, high: nat, lower: nat)
    requires Ranks(errors, rank, low, high) && lower <= low
    ensures Ranks(errors, rank, lower, high)
  {
  }

  lemma KeysRank(entries: Entries, rel: seq<Step>, v: Violation, ms: seq<Member>)
    requires KeysViolate(entries, rel, v)
    ensures ObjectRank(ms, rel, v) == 0
  {
  }

  lemma PresentRank(o: ObjectSpec, entries: Entries, rel: seq<Step>, v: Violation, ms: seq<Member>)
    requires PresentViolates(o, entries, rel, v)
    ensures ObjectRank(ms, rel, v) == 1
  {
  }

  lemma BranchRank(lib: Library, c: Conditional, entries: Entries, rel: seq<Step>, v: Violation, ms: seq<Member>)
    requires BranchViolates(lib, c, entries, rel, v)
    ensures ObjectRank(ms, rel, v) == 3 + |ms|
  {
    hide BranchApplies;
  }

  lemma DependencyRank(d: Dependent, entries: Entries, rel: seq<Step>, v: Violation, ms: seq<Member>)
    requires DependencyViolates(d, entries, rel, v)
    ensures ObjectRank(ms, rel, v) == 4 + |ms|
  {
  }

  lemma SegmentsRanked(lib: Library, o: ObjectSpec, es: Entries, path: seq<Step>, ms: seq<Member>)
    ensures Ranks(Flatten(KeyErrors(es, path)), e => RankBelow(ms, path, e), 0, 1)
    ensures Ranks(Flatten(PresentErrors(o, Present(es), path)), e => RankBelow(ms, path, e), 1, 2)
    ensures Ranks(Flatten(BranchesErrors(lib, o, es, path)), e => RankBelow(ms, path, e), 3 + |ms|, 4 + |ms|)
    ensures Ranks(Flatten(DependenciesErrors(o, es, path)), e => RankBelow(ms, path, e), 4 + |ms|, 5 + |ms|)
  {
    hide Exactly, Ranks, ObjectRank, Flatten, KeysViolate, PresentViolates, BranchViolates, DependencyViolates;
    KeysExact(es, path);
    PresentExact(o, es, path);
    BranchesExact(lib, o, es, path);
    DependenciesExact(o, es, path);
    forall rel, v | KeysViolate(es, rel, v) ensures ObjectRank(ms, rel, v) == 0 { KeysRank(es, rel, v, ms); }
    forall rel, v | PresentViolates(o, es, rel, v) ensures ObjectRank(ms, rel, v) == 1 { PresentRank(o, es, rel, v, ms); }
    forall c, rel, v | BranchViolates(lib, c, es, rel, v) ensures ObjectRank(ms, rel, v) == 3 + |ms| {
      BranchRank(lib, c, es, rel, v, ms);
    }
    forall d, rel, v | DependencyViolates(d, es, rel, v) ensures ObjectRank(ms, rel, v) == 4 + |ms| {
      DependencyRank(d, es, rel, v, ms);
    }
    ClaimRanks(Flatten(KeyErrors(es, path)), path, (rel, v) => KeysViolate(es, rel, v), ms, 0);
    ClaimRanks(Flatten(PresentErrors(o, Present(es), path)), path, (rel, v) => PresentViolates(o, es, rel, v), ms, 1);
    ClaimRanks(Flatten(BranchesErrors(lib, o, es, path)), path,
               (rel, v) => exists c | c in o.conditionals :: BranchViolates(lib, c, es, rel, v), ms, 3 + |ms|);
    ClaimRanks(Flatten(DependenciesErrors(o, es, path)), path,
               (rel, v) => exists d | d in o.dependents :: DependencyViolates(d, es, rel, v), ms, 4 + |ms|);
  }

  /** The errors of an object stand in that order, in every report. */
  lemma ReportOrder(lib: Library, o: ObjectSpec, node: Node, path: seq<Step>)
    requires AllDistinct(MemberKeys(o))
    ensures Ordered(ObjectErrors(lib, o, node, path), e => RankBelow(o.members, path, e))
  {
    hide Ranks, RankBelow, Flatten, KeyErrors, PresentErrors, MembersErrors, BranchesErrors, DependenciesErrors;
    if node.MapNode? {
      var es, ms := node.entries, o.members;
      assert forall j | 0 <= j < |ms| :: MemberKeys(o)[j] == ms[j].key;
      SegmentsRanked(lib, o, es, path, ms);
      MembersOrdered(lib, ms, o, es, path);
      hide Ordered;
      SegmentsOrdered(Flatten(KeyErrors(es, path)), Flatten(PresentErrors(o, Present(es), path)),
                      Flatten(MembersErrors(lib, o, es, path)), Flatten(BranchesErrors(lib, o, es, path)),
                      Flatten(DependenciesErrors(o, es, path)), e => RankBelow(ms, path, e), |ms|);
    }
  }

  /** Where a violation below an array stands: its size first, then the items by index. */
  function ArrayRank(path: seq<Step>, e: ValidationError): nat {
    if |path| < |e.path| && e.path[|path|].Index? then 1 + e.path[|path|].i else 0
  }

  lemma ArrayOrder(lib: Library, a: ArraySpec, node: Node, path: seq<Step>)
    ensures Ordered(ArrayErrors(lib, a, node, path), e => ArrayRank(path, e))
  {
    hide Ranks, Flatten, SizeErrors, ItemErrors, ItemViolates, Exactly, If;
    if node.SequenceNode? {
      var items := node.items;
      var rank: Rank := e => ArrayRank(path, e);
      var parts := ItemErrors(lib, a, items, path);
      SizeRanked(a, |items|, path, rank);
      ItemCount(lib, a, items, path);
      forall k | 0 <= k < |parts| ensures Ranks(parts[k], rank, 1 + k, 1 + k + 1) {
        ItemRanked(lib, a, items, k, path, rank);
      }
      PartsOrdered(parts, rank, 1);
      OneRank(SizeErrors(a, |items|, path), rank, 0);
      JoinOrdered(SizeErrors(a, |items|, path), Flatten(parts), rank, 0, 1, 1 + |parts|);
      assert Ordered(ArrayErrors(lib, a, node, path), rank);
    } else {
      assert |ArrayErrors(lib, a, node, path)| == 1 by { MustBeOne(path); }
    }
  }

  lemma MustBeOne(path: seq<Step>)
    ensures |If(true, path, MustBeSequence)| == 1
  {
  }

  lemma ItemCount(lib: Library, a: ArraySpec, items: seq<Node>, path: seq<Step>)
    ensures |ItemErrors(lib, a, items, path)| == |items|
  {
    hide ObjectErrors, FieldErrors, DuplicateErrors, Repeats;
  }

  lemma SizeRanked(a: ArraySpec, size: nat, path: seq<Step>, rank: Rank)
    requires forall e :: rank(e) == ArrayRank(path, e)
    ensures Ranks(SizeErrors(a, size, path), rank, 0, 1)
  {
  }

  lemma ItemRanked(lib: Library, a: ArraySpec, items: seq<Node>, k: nat, path: seq<Step>, rank: Rank)
    requires k < |items| && k < |ItemErrors(lib, a, items, path)| && forall e :: rank(e) == ArrayRank(path, e)
    ensures Ranks(ItemErrors(lib, a, items, path)[k], rank, 1 + k, 1 + k + 1)
  {
    hide ItemViolates, ItemErrors;
    ItemExact(lib, a, items, k, path);
  }
}
