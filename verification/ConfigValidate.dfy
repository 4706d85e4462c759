/**
 The YAML validator (src/anolis/provider_sdk/config_validate.cpp:265-615): the
 errors it reports, as functions of declaration and document, and the recursive
 methods that append them to a shared vector.
 */
module ConfigValidate {
  import opened Base
  import opened ConfigSpec
  import opened Scalars
  import opened Yaml

  datatype Step = Key(key: string) | Index(i: nat)

  datatype Violation =
    | MustBeString | MustBeInteger | MustBeNumber | MustBeFinite | MustBeBoolean | MustBeAddressLike | MustBeAddress
    | MustNotBeEmpty | MustEqualConst | NotInEnum | MustMatchPattern | ForbiddenText
    | BelowMinimum | AboveMaximum | NotAboveMinimum | NotBelowMaximum
    | MustBeSequence | TooFewItems | TooManyItems | DuplicateValue
    | MustBeMap | KeysMustBeScalars | DuplicateKey | NoLongerSupported | UnknownKey | IsRequired
    | RequiredByBranch | InvalidInBranch | RequiredByDependency

  datatype ValidationError = ValidationError(path: seq<Step>, violation: Violation)

  type Errors = seq<ValidationError>

  function If(c: bool, path: seq<Step>, v: Violation): Errors {
    if c then [ValidationError(path, v)] else []
  }

  // ---- fields ---------------------------------------------------------------------

  function ForbiddenErrors(f: FieldSpec, s: string, path: seq<Step>): seq<Errors> {
    seq(|f.forbidden|, i requires 0 <= i < |f.forbidden| => If(f.forbidden[i].value == s, path, ForbiddenText))
  }

  function StringErrors(lib: Library, f: FieldSpec, s: string, path: seq<Step>): Errors {
    If(f.nonEmpty && s == "", path, MustNotBeEmpty) +
    if f.constValue.Some? && s != f.constValue.value then If(true, path, MustEqualConst)
    else if f.enumValues != [] && s !in EnumTexts(f) then If(true, path, NotInEnum)
    else
      If(f.pattern.Some? && !lib.search(f.pattern.value, s), path, MustMatchPattern) +
      Flatten(ForbiddenErrors(f, s, path))
  }

  function IntegerErrors(f: FieldSpec, r: Resolved, path: seq<Step>): Errors {
    match IntegerOf(r)
    case None => If(true, path, MustBeInteger)
    case Some(n) =>
      If(f.minInt.Some? && n < f.minInt.value, path, BelowMinimum) +
      If(f.maxInt.Some? && n > f.maxInt.value, path, AboveMaximum)
  }

  function NumberOf(r: Resolved): Option<Float> {
    match r
    case RInt(n) => Some(Finite(DoubleOfInt(n) as real))
    case RFloat(f) => Some(f)
    case _ => None
  }

  function BoundErrors(f: FieldSpec, v: real, path: seq<Step>): Errors {
    If(f.minNumber.Some? && v < f.minNumber.value, path, BelowMinimum) +
    If(f.exclusiveMin.Some? && v <= f.exclusiveMin.value, path, NotAboveMinimum) +
    If(f.maxNumber.Some? && v > f.maxNumber.value, path, AboveMaximum) +
    If(f.exclusiveMax.Some? && v >= f.exclusiveMax.value, path, NotBelowMaximum)
  }

  function NumberErrors(f: FieldSpec, r: Resolved, path: seq<Step>): Errors {
    match NumberOf(r)
    case None => If(true, path, MustBeNumber)
    case Some(Finite(v)) => BoundErrors(f, v, path)
    case Some(_) => If(true, path, MustBeFinite)
  }

  function AddressErrors(r: Resolved, path: seq<Step>): Errors {
    var integerLike := r.RInt? || (r.RFloat? && IntegerOf(r).Some?);
    if !integerLike && !r.RString? then If(true, path, MustBeAddressLike)
    else If(I2cAddressOf(r).None?, path, MustBeAddress)
  }

  function ResolvedErrors(lib: Library, f: FieldSpec, r: Resolved, path: seq<Step>): Errors {
    match f.kind
    case StringKind => if r.RString? then StringErrors(lib, f, r.s, path) else If(true, path, MustBeString)
    case IntegerKind => IntegerErrors(f, r, path)
    case NumberKind => NumberErrors(f, r, path)
    case BooleanKind => If(!r.RBool?, path, MustBeBoolean)
    case I2cAddressKind => AddressErrors(r, path)
  }

  function FieldErrors(lib: Library, f: FieldSpec, node: Node, path: seq<Step>): Errors {
    ResolvedErrors(lib, f, Resolve(lib, node), path)
  }

  /**
   The parsed value used for uniqueness. The source builds tagged strings
   ("s:", "i:", "f:", "b:" and the value); here the tag is the constructor.
   */
  datatype Canonical = STag(s: string) | ITag(n: int) | FTag(v: real) | BTag(b: bool)

  function CanonicalOf(f: FieldSpec, r: Resolved): Option<Canonical> {
    match f.kind
    case StringKind => if r.RString? then Some(STag(r.s)) else None
    case IntegerKind => if IntegerOf(r).Some? then Some(ITag(IntegerOf(r).value)) else None
    case NumberKind =>
      (match NumberOf(r)
       case Some(Finite(v)) => Some(FTag(v))
       case _ => None)
    case BooleanKind => if r.RBool? then Some(BTag(r.b)) else None
    case I2cAddressKind => if I2cAddressOf(r).Some? then Some(ITag(I2cAddressOf(r).value)) else None
  }

  function CanonicalValue(lib: Library, f: FieldSpec, node: Node): Option<Canonical> {
    CanonicalOf(f, Resolve(lib, node))
  }

  // ---- arrays ---------------------------------------------------------------------

  /** Whether item `i` repeats the canonical value of an earlier one. */
  predicate Repeats(keys: seq<Option<Canonical>>, i: nat)
    requires i < |keys|
  {
    keys[i].Some? && keys[i] in keys[..i]
  }

  function ItemKeys(lib: Library, f: FieldSpec, items: seq<Node>): (r: seq<Option<Canonical>>)
    ensures |r| == |items|
  {
    seq(|items|, i requires 0 <= i < |items| => CanonicalValue(lib, f, items[i]))
  }

  function ColumnKey(lib: Library, f: FieldSpec, key: string, item: Node): Option<Canonical> {
    if item.MapNode? && Get(item.entries, key).Some? then CanonicalValue(lib, f, Get(item.entries, key).value)
    else None
  }

  function ColumnKeys(lib: Library, f: FieldSpec, key: string, items: seq<Node>): (r: seq<Option<Canonical>>)
    ensures |r| == |items|
  {
    seq(|items|, i requires 0 <= i < |items| => ColumnKey(lib, f, key, items[i]))
  }

  function SizeErrors(a: ArraySpec, size: nat, path: seq<Step>): Errors {
    If(a.minItems.Some? && size < a.minItems.value, path, TooFewItems) +
    If(a.maxItems.Some? && size > a.maxItems.value, path, TooManyItems)
  }

  predicate TracksUniqueness(m: Member) {
    m.decl.Scalar? && m.decl.field.unique
  }

  /** The duplicates item `i` of an object array introduces, member by member. */
  function DuplicateErrors(lib: Library, o: ObjectSpec, items: seq<Node>, i: nat, path: seq<Step>): seq<Errors>
    requires i < |items|
  {
    seq(|o.members|, k requires 0 <= k < |o.members| =>
      var m := o.members[k];
      If(TracksUniqueness(m) && Repeats(ColumnKeys(lib, m.decl.field, m.key, items), i),
         path + [Index(i), Key(m.key)], DuplicateValue))
  }

  function ItemErrors(lib: Library, a: ArraySpec, items: seq<Node>, path: seq<Step>): seq<Errors>
    decreases a, 1
  {
    match a.item
    case ScalarItem(f) =>
      seq(|items|, i requires 0 <= i < |items| =>
        FieldErrors(lib, f, items[i], path + [Index(i)]) +
        If(a.unique && Repeats(ItemKeys(lib, f, items), i), path + [Index(i)], DuplicateValue))
    case ObjectItem(o) =>
      seq(|items|, i requires 0 <= i < |items| =>
        ObjectErrors(lib, o, items[i], path + [Index(i)]) +
        Flatten(DuplicateErrors(lib, o, items, i, path)))
  }

  function ArrayErrors(lib: Library, a: ArraySpec, node: Node, path: seq<Step>): Errors
    decreases a, 2
  {
    if !node.SequenceNode? then If(true, path, MustBeSequence)
    else SizeErrors(a, |node.items|, path) + Flatten(ItemErrors(lib, a, node.items, path))
  }

  // ---- objects --------------------------------------------------------------------

  function KeyErrors(entries: seq<(Node, Node)>, path: seq<Step>): seq<Errors> {
    seq(|entries|, i requires 0 <= i < |entries| =>
      if !entries[i].0.ScalarNode? then If(true, path, KeysMustBeScalars)
      else If(Has(entries[..i], entries[i].0.raw), path + [Key(entries[i].0.raw)], DuplicateKey))
  }

  /** The scalar keys of a map, each once, in document order. */
  function Present(entries: seq<(Node, Node)>): seq<string> {
    if entries == [] then []
    else
      var rest, last := entries[..|entries| - 1], entries[|entries| - 1].0;
      Present(rest) + When(last.ScalarNode? && !Has(rest, last.raw), if last.ScalarNode? then last.raw else "")
  }

  function PresentErrors(o: ObjectSpec, keys: seq<string>, path: seq<Step>): seq<Errors> {
    seq(|keys|, i requires 0 <= i < |keys| =>
      if IsDeprecated(o, keys[i]) then If(true, path + [Key(keys[i])], NoLongerSupported)
      else If(o.openness == Closed && !Declares(o, keys[i]), path + [Key(keys[i])], UnknownKey))
  }

  function DeclarationErrors(lib: Library, decl: Declaration, node: Node, path: seq<Step>): Errors
    decreases decl, 3
  {
    match decl
    case Scalar(f) => FieldErrors(lib, f, node, path)
    case Nested(o) => ObjectErrors(lib, o, node, path)
    case Listed(a) => ArrayErrors(lib, a, node, path)
  }

  function MemberErrors(lib: Library, m: Member, entries: seq<(Node, Node)>, path: seq<Step>): Errors
    decreases m, 4
  {
    match Get(entries, m.key)
    case None => If(m.required, path + [Key(m.key)], IsRequired)
    case Some(value) => DeclarationErrors(lib, m.decl, value, path + [Key(m.key)])
  }

  function MembersErrors(lib: Library, o: ObjectSpec, entries: seq<(Node, Node)>, path: seq<Step>): seq<Errors>
    decreases o, 4
  {
    seq(|o.members|, i requires 0 <= i < |o.members| => MemberErrors(lib, o.members[i], entries, path))
  }

  predicate BranchApplies(lib: Library, c: Conditional, entries: seq<(Node, Node)>) {
    var disc := Get(entries, c.key);
    disc.Some? && Resolve(lib, disc.value) == RString(c.equals)
  }

  function RequiredInBranch(c: Conditional, entries: seq<(Node, Node)>, path: seq<Step>): seq<Errors> {
    seq(|c.requireKeys|, i requires 0 <= i < |c.requireKeys| =>
      If(!Has(entries, c.requireKeys[i]), path + [Key(c.requireKeys[i])], RequiredByBranch))
  }

  function ForbiddenInBranch(c: Conditional, entries: seq<(Node, Node)>, path: seq<Step>): seq<Errors> {
    seq(|c.forbidKeys|, i requires 0 <= i < |c.forbidKeys| =>
      If(Has(entries, c.forbidKeys[i]), path + [Key(c.forbidKeys[i])], InvalidInBranch))
  }

  function BranchErrors(lib: Library, c: Conditional, entries: seq<(Node, Node)>, path: seq<Step>): Errors {
    if !BranchApplies(lib, c, entries) then []
    else Flatten(RequiredInBranch(c, entries, path)) + Flatten(ForbiddenInBranch(c, entries, path))
  }

  function BranchesErrors(lib: Library, o: ObjectSpec, entries: seq<(Node, Node)>, path: seq<Step>): seq<Errors> {
    seq(|o.conditionals|, i requires 0 <= i < |o.conditionals| => BranchErrors(lib, o.conditionals[i], entries, path))
  }

  function DependencyErrors(d: Dependent, entries: seq<(Node, Node)>, path: seq<Step>): seq<Errors> {
    seq(|d.alsoRequired|, i requires 0 <= i < |d.alsoRequired| =>
      If(!Has(entries, d.alsoRequired[i]), path + [Key(d.alsoRequired[i])], RequiredByDependency))
  }

  function DependenciesErrors(o: ObjectSpec, entries: seq<(Node, Node)>, path: seq<Step>): seq<Errors> {
    seq(|o.dependents|, i requires 0 <= i < |o.dependents| =>
      if Has(entries, o.dependents[i].key) then Flatten(DependencyErrors(o.dependents[i], entries, path)) else [])
  }

  function ObjectErrors(lib: Library, o: ObjectSpec, node: Node, path: seq<Step>): Errors
    decreases o, 5
  {
    if !node.MapNode? then If(true, path, MustBeMap)
    else
      Flatten(KeyErrors(node.entries, path)) +
      Flatten(PresentErrors(o, Present(node.entries), path)) +
      Flatten(MembersErrors(lib, o, node.entries, path)) +
      Flatten(BranchesErrors(lib, o, node.entries, path)) +
      Flatten(DependenciesErrors(o, node.entries, path))
  }
}
