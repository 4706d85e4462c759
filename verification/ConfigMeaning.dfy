/**
 What a declaration means for a JSON document, stated without reference to
 either the emitted schema or the validator. Both are proved to agree with it,
 the validator reading item counts in full and the schema after their cast.
 */
module ConfigMeaning {
  import opened Base
  import opened JsonSchema
  import opened ConfigSpec
  import opened Scalars

  predicate StringMeans(search: (string, string) -> bool, f: FieldSpec, s: string) {
    && (f.constValue.Some? ==> s == f.constValue.value)
    && (f.enumValues != [] ==> s in EnumTexts(f))
    && (f.pattern.Some? ==> search(f.pattern.value, s))
    && (f.nonEmpty ==> s != "")
    && s !in ForbiddenTexts(f)
  }

  predicate IntegerMeans(f: FieldSpec, v: real) {
    && IsWhole(v)
    && (f.minInt.Some? ==> f.minInt.value as real <= v)
    && (f.maxInt.Some? ==> v <= f.maxInt.value as real)
  }

  predicate NumberMeans(f: FieldSpec, v: real) {
    && (f.minNumber.Some? ==> f.minNumber.value <= v)
    && (f.exclusiveMin.Some? ==> f.exclusiveMin.value < v)
    && (f.maxNumber.Some? ==> v <= f.maxNumber.value)
    && (f.exclusiveMax.Some? ==> v < f.exclusiveMax.value)
  }

  predicate AddressMeans(inst: Instance) {
    match inst
    case Number(v) => IsWhole(v) && I2C_MIN as real <= v <= I2C_MAX as real
    case Text(s) => I2cHexForm(s)
    case _ => false
  }

  predicate FieldMeans(search: (string, string) -> bool, f: FieldSpec, inst: Instance) {
    match f.kind
    case StringKind => inst.Text? && StringMeans(search, f, inst.s)
    case IntegerKind => inst.Number? && IntegerMeans(f, inst.v)
    case NumberKind => inst.Number? && NumberMeans(f, inst.v)
    case BooleanKind => inst.Boolean?
    case I2cAddressKind => AddressMeans(inst)
  }

  /** The value compared for uniqueness: an I2C address is the number it denotes. */
  function KeyOf(f: FieldSpec, inst: Instance): Option<Instance> {
    match inst
    case Number(_) => Some(inst)
    case Boolean(_) => if f.kind == I2cAddressKind then None else Some(inst)
    case Text(s) =>
      if f.kind != I2cAddressKind then Some(inst)
      else if I2cHexForm(s) then Some(Number(DigitsValue(s[2..], 16) as real))
      else None
    case _ => None
  }

  function KeysOf(f: FieldSpec, items: seq<Instance>): seq<Option<Instance>> {
    seq(|items|, i requires 0 <= i < |items| => KeyOf(f, items[i]))
  }

  function Column(f: FieldSpec, key: string, items: seq<Instance>): seq<Option<Instance>> {
    seq(|items|, i requires 0 <= i < |items| =>
      var v := ValueAt(items[i], key);
      if v.Some? then KeyOf(f, v.value) else None)
  }

  predicate ColumnsMean(o: ObjectSpec, items: seq<Instance>) {
    forall m | m in o.members && m.decl.Scalar? && m.decl.field.unique ::
      Distinct(Column(m.decl.field, m.key, items))
  }

  /** How item counts are read: as declared, or as the emitter casts them to int64. */
  datatype Counts = InFull | AsEmitted

  function Limit(c: Counts, n: SizeT): int {
    if c == InFull then n else ToInt64(n)
  }

  predicate CountMeans(c: Counts, a: ArraySpec, size: nat) {
    && (a.minItems.Some? ==> Limit(c, a.minItems.value) <= size)
    && (a.maxItems.Some? ==> size <= Limit(c, a.maxItems.value))
  }

  predicate ItemMeans(d: Dialect, c: Counts, item: Item, inst: Instance)
    decreases item, 1
  {
    match item
    case ScalarItem(f) => FieldMeans(d.search, f, inst)
    case ObjectItem(o) => ObjectMeans(d, c, o, inst)
  }

  /** Array uniqueness: of parsed values for an anolis reader, of JSON values for a plain one. */
  predicate UniquenessMeans(d: Dialect, a: ArraySpec, items: seq<Instance>) {
    match a.item
    case ObjectItem(o) => d.anolis ==> ColumnsMean(o, items)
    case ScalarItem(f) =>
      a.unique ==>
        if d.anolis then Distinct(KeysOf(f, items))
        else forall i, k | 0 <= i < k < |items| :: !Same(items[i], items[k])
  }

  predicate ArrayMeans(d: Dialect, c: Counts, a: ArraySpec, inst: Instance)
    decreases a, 2
  {
    && inst.List?
    && CountMeans(c, a, |inst.items|)
    && (forall i | 0 <= i < |inst.items| :: ItemMeans(d, c, a.item, inst.items[i]))
    && UniquenessMeans(d, a, inst.items)
  }

  predicate DeclarationMeans(d: Dialect, c: Counts, decl: Declaration, inst: Instance)
    decreases decl, 3
  {
    match decl
    case Scalar(f) => FieldMeans(d.search, f, inst)
    case Nested(o) => ObjectMeans(d, c, o, inst)
    case Listed(a) => ArrayMeans(d, c, a, inst)
  }

  predicate MemberMeans(d: Dialect, c: Counts, m: Member, entries: seq<(string, Instance)>)
    decreases m, 4
  {
    && (m.required ==> HasKey(entries, m.key))
    && (forall x | x in entries :: x.0 == m.key ==> DeclarationMeans(d, c, m.decl, x.1))
  }

  predicate BranchMeans(c: Conditional, entries: seq<(string, Instance)>) {
    HasKey(entries, c.key) && (forall x | x in entries :: x.0 == c.key ==> x.1 == Text(c.equals)) ==>
      && (forall k | k in c.requireKeys :: HasKey(entries, k))
      && (forall k | k in c.forbidKeys :: !HasKey(entries, k))
  }

  predicate DependentMeans(dep: Dependent, entries: seq<(string, Instance)>) {
    HasKey(entries, dep.key) ==> forall k | k in dep.alsoRequired :: HasKey(entries, k)
  }

  predicate ObjectMeans(d: Dialect, c: Counts, o: ObjectSpec, inst: Instance)
    decreases o, 5
  {
    && inst.Record?
    && (forall m | m in o.members :: MemberMeans(d, c, m, inst.entries))
    && (o.openness == Closed ==> forall x | x in inst.entries :: Declares(o, x.0))
    && (forall b | b in o.conditionals :: BranchMeans(b, inst.entries))
    && (forall dep | dep in o.dependents :: DependentMeans(dep, inst.entries))
  }

  // ---- where the two readings of item counts part ------------------------------

  /** What may hold of an array of `size` items: its counts survive the cast, or it meets its minimum in full. */
  datatype ArrayRule = MaxFits | CountsFit | MinMet

  predicate ArrayObeys(rule: ArrayRule, a: ArraySpec, size: nat) {
    match rule
    case MaxFits => CountFits(a.maxItems)
    case CountsFit => CountFits(a.minItems) && CountFits(a.maxItems)
    case MinMet => a.minItems.Some? ==> a.minItems.value <= size
  }

  predicate ItemArraysObey(rule: ArrayRule, item: Item, inst: Instance)
    decreases item, 1
  {
    item.ObjectItem? ==> ArraysObey(rule, item.child, inst)
  }

  predicate ListObeys(rule: ArrayRule, a: ArraySpec, inst: Instance)
    decreases a, 2
  {
    inst.List? ==>
      && ArrayObeys(rule, a, |inst.items|)
      && (forall i | 0 <= i < |inst.items| :: ItemArraysObey(rule, a.item, inst.items[i]))
  }

  predicate DeclarationArraysObey(rule: ArrayRule, decl: Declaration, inst: Instance)
    decreases decl, 3
  {
    match decl
    case Scalar(_) => true
    case Nested(o) => ArraysObey(rule, o, inst)
    case Listed(a) => ListObeys(rule, a, inst)
  }

  /** Every array the declaration looks at, at any depth of the document, obeys the rule. */
  predicate ArraysObey(rule: ArrayRule, o: ObjectSpec, inst: Instance)
    decreases o, 5
  {
    inst.Record? ==>
      forall m, x | m in o.members && x in inst.entries && x.0 == m.key :: DeclarationArraysObey(rule, m.decl, x.1)
  }

  lemma ItemCounts(d: Dialect, item: Item, inst: Instance)
    ensures ItemMeans(d, InFull, item, inst) && ItemArraysObey(MaxFits, item, inst) <==>
      ItemMeans(d, AsEmitted, item, inst) && ItemArraysObey(MinMet, item, inst)
    ensures ItemArraysObey(CountsFit, item, inst) ==>
      (ItemMeans(d, InFull, item, inst) <==> ItemMeans(d, AsEmitted, item, inst))
    decreases item, 1
  {
    hide FieldMeans, ObjectMeans, ArraysObey;
    if item.ObjectItem? { ObjectCounts(d, item.child, inst); }
  }

  lemma ArrayCounts(d: Dialect, a: ArraySpec, inst: Instance)
    ensures ArrayMeans(d, InFull, a, inst) && ListObeys(MaxFits, a, inst) <==>
      ArrayMeans(d, AsEmitted, a, inst) && ListObeys(MinMet, a, inst)
    ensures ListObeys(CountsFit, a, inst) ==>
      (ArrayMeans(d, InFull, a, inst) <==> ArrayMeans(d, AsEmitted, a, inst))
    decreases a, 2
  {
    hide ItemMeans, ItemArraysObey, UniquenessMeans;
    if inst.List? {
      forall i | 0 <= i < |inst.items| { ItemCounts(d, a.item, inst.items[i]); }
    }
  }

  lemma DeclarationCounts(d: Dialect, decl: Declaration, inst: Instance)
    ensures DeclarationMeans(d, InFull, decl, inst) && DeclarationArraysObey(MaxFits, decl, inst) <==>
      DeclarationMeans(d, AsEmitted, decl, inst) && DeclarationArraysObey(MinMet, decl, inst)
    ensures DeclarationArraysObey(CountsFit, decl, inst) ==>
      (DeclarationMeans(d, InFull, decl, inst) <==> DeclarationMeans(d, AsEmitted, decl, inst))
    decreases decl, 3
  {
    hide FieldMeans, ObjectMeans, ArrayMeans, ArraysObey, ListObeys;
    match decl
    case Scalar(_) =>
    case Nested(o) => ObjectCounts(d, o, inst);
    case Listed(a) => ArrayCounts(d, a, inst);
  }

  /**
   The two readings, exactly: the full one where every maximum survives the cast is
   the emitted one where every minimum is met in full; they coincide where all counts
   survive.
   */
  lemma {:induction false} ObjectCounts(d: Dialect, o: ObjectSpec, inst: Instance)
    ensures ObjectMeans(d, InFull, o, inst) && ArraysObey(MaxFits, o, inst) <==>
      ObjectMeans(d, AsEmitted, o, inst) && ArraysObey(MinMet, o, inst)
    ensures ArraysObey(CountsFit, o, inst) ==>
      (ObjectMeans(d, InFull, o, inst) <==> ObjectMeans(d, AsEmitted, o, inst))
    decreases o, 5
  {
    hide DeclarationMeans, DeclarationArraysObey, BranchMeans, DependentMeans, Declares, HasKey;
    if inst.Record? {
      forall m, x | m in o.members && x in inst.entries && x.0 == m.key {
        DeclarationCounts(d, m.decl, x.1);
      }
    }
  }
}
