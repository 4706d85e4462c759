/**
 The part of JSON Schema draft 2020-12 that the emitted documents use, as an
 evaluator over the emitted JSON tree: each keyword is found by its name in the
 tree and read as the Validation specification (sections 6.1 to 6.5) and the
 Core specification (sections 10.2 and 10.3) prescribe.
 */
module JsonSchema {
  import opened Base
  import opened Json
  import Utf8
  import opened Scalars

  /** A JSON document; objects keep their entries in order, so a repeated key can be expressed. */
  datatype Instance =
    | Null
    | Boolean(b: bool)
    | Number(v: real)
    | Text(s: string)
    | List(items: seq<Instance>)
    | Record(entries: seq<(string, Instance)>)

  /**
   How schemas are read: `search` is regular-expression search (pattern, text);
   `anolis` says whether the reader understands `x-anolis-unique`.
   */
  datatype Dialect = Dialect(search: (string, string) -> bool, anolis: bool)

  datatype Keyword =
    | KType | KConst | KEnum | KPattern | KMinLength | KNot
    | KMinimum | KMaximum | KExclusiveMinimum | KExclusiveMaximum
    | KAllOf | KAnyOf | KOneOf | KIf
    | KProperties | KRequired | KAdditional | KDependent
    | KItems | KMinItems | KMaxItems | KUniqueItems | KAnolisUnique
    | Annotation

  /** The keyword a name denotes; names are told apart by length first. */
  function KeywordOf(name: string): Keyword {
    match |name|
    case 2 => if name == "if" then KIf else Annotation
    case 3 => if name == "not" then KNot else Annotation
    case 4 => if name == "type" then KType else if name == "enum" then KEnum else Annotation
    case 5 =>
      if name == "const" then KConst
      else if name == "allOf" then KAllOf
      else if name == "anyOf" then KAnyOf
      else if name == "oneOf" then KOneOf
      else if name == "items" then KItems
      else Annotation
    case 7 =>
      if name == "pattern" then KPattern
      else if name == "minimum" then KMinimum
      else if name == "maximum" then KMaximum
      else Annotation
    case 8 =>
      if name == "required" then KRequired
      else if name == "minItems" then KMinItems
      else if name == "maxItems" then KMaxItems
      else Annotation
    case 9 => if name == "minLength" then KMinLength else Annotation
    case 10 => if name == "properties" then KProperties else Annotation
    case 11 => if name == "uniqueItems" then KUniqueItems else Annotation
    case 15 => if name == "x-anolis-unique" then KAnolisUnique else Annotation
    case 16 =>
      if name == "exclusiveMinimum" then KExclusiveMinimum
      else if name == "exclusiveMaximum" then KExclusiveMaximum
      else Annotation
    case 17 => if name == "dependentRequired" then KDependent else Annotation
    case 20 => if name == "additionalProperties" then KAdditional else Annotation
    case _ => Annotation
  }

  /** Instance equality (Core section 4.2.2): numbers by value, objects without regard to order. */
  predicate Same(a: Instance, b: Instance) {
    match (a, b)
    case (List(xs), List(ys)) =>
      |xs| == |ys| && forall i | 0 <= i < |xs| :: Same(xs[i], ys[i])
    case (Record(xs), Record(ys)) =>
      && |xs| == |ys|
      && forall i | 0 <= i < |xs| ::
           exists k | 0 <= k < |ys| :: xs[i].0 == ys[k].0 && Same(xs[i].1, ys[k].1)
    case _ => a == b
  }

  /** A value of the schema document as an instance, for `const` and `enum`. */
  function Lift(j: Json): Instance {
    match j
    case Bool(b) => Boolean(b)
    case Int(i) => Number(i as real)
    case Double(v) => Number(v)
    case Str(s) => Text(s)
    case Arr(items) => List(seq(|items|, i requires 0 <= i < |items| => Lift(items[i])))
    case Obj(entries) =>
      Record(seq(|entries|, i requires 0 <= i < |entries| => (entries[i].0, Lift(entries[i].1))))
  }

  predicate HasType(name: string, inst: Instance) {
    if name == "string" then inst.Text?
    else if name == "integer" then inst.Number? && IsWhole(inst.v)
    else if name == "number" then inst.Number?
    else if name == "boolean" then inst.Boolean?
    else if name == "array" then inst.List?
    else if name == "object" then inst.Record?
    else if name == "null" then inst.Null?
    else false
  }

  predicate HasKey(entries: seq<(string, Instance)>, key: string) {
    exists e | e in entries :: e.0 == key
  }

  predicate HasKeys(inst: Instance, keys: Json) {
    inst.Record? && keys.Arr? ==>
      forall k | k in keys.items && k.Str? :: HasKey(inst.entries, k.s)
  }

  /** Whether the numeric instance stands in the relation a bound keyword asks for. */
  predicate Bounded(k: Keyword, bound: Json, inst: Instance) {
    var limit := Lift(bound);
    inst.Number? && limit.Number? ==>
      match k
      case KMinimum => inst.v >= limit.v
      case KMaximum => inst.v <= limit.v
      case KExclusiveMinimum => inst.v > limit.v
      case KExclusiveMaximum => inst.v < limit.v
      case _ => true
  }

  /** Whether a count keeps to a number given as least or as most; the number may be spelt as an integer or not. */
  predicate CountWithin(least: bool, limit: Json, count: nat) {
    match limit
    case Int(i) => if least then count >= i else count <= i
    case Double(v) => if least then count as real >= v else count as real <= v
    case _ => true
  }

  /** `x-anolis-unique` compares parsed values: an I2C address is the number it denotes. */
  function ParsedKey(item: Json, inst: Instance): Option<Instance> {
    if item.Obj? && Lookup(item.entries, "x-anolis-type") == Some(Str("i2c_address")) then
      match inst
      case Number(_) => Some(inst)
      case Text(s) => if I2cHexForm(s) then Some(Number(DigitsValue(s[2..], 16) as real)) else None
      case _ => None
    else if inst.Null? || inst.List? || inst.Record? then None
    else Some(inst)
  }

  predicate Distinct(keys: seq<Option<Instance>>) {
    forall i, j | 0 <= i < j < |keys| :: keys[i].Some? && keys[j].Some? ==> keys[i] != keys[j]
  }

  /** The value an item of an object array holds under `key`, if it is an object that has it. */
  function ValueAt(inst: Instance, key: string): Option<Instance> {
    if inst.Record? then FirstValue(inst.entries, key) else None
  }

  function FirstValue(entries: seq<(string, Instance)>, key: string): (r: Option<Instance>)
    ensures r.Some? ==> (key, r.value) in entries
    ensures r.None? ==> !HasKey(entries, key)
  {
    if entries == [] then None
    else if entries[0].0 == key then Some(entries[0].1)
    else FirstValue(entries[1..], key)
  }

  function ParsedColumn(item: Json, key: string, items: seq<Instance>): seq<Option<Instance>> {
    seq(|items|, i requires 0 <= i < |items| =>
      var v := ValueAt(items[i], key);
      if v.Some? then ParsedKey(item, v.value) else None)
  }

  function ParsedItems(item: Json, items: seq<Instance>): seq<Option<Instance>> {
    seq(|items|, i requires 0 <= i < |items| => ParsedKey(item, items[i]))
  }

  /** Every property the item schema marks unique has distinct parsed values down the array. */
  predicate ColumnsDistinct(item: Json, items: seq<Instance>) {
    item.Obj? ==>
      match Lookup(item.entries, "properties")
      case Some(Obj(properties)) =>
        forall p | p in properties && MarkedUnique(p.1) :: Distinct(ParsedColumn(p.1, p.0, items))
      case _ => true
  }

  /** A unique mark on a field; on an array schema the mark speaks of that array's own items. */
  predicate MarkedUnique(item: Json) {
    && item.Obj?
    && Lookup(item.entries, "x-anolis-unique") == Some(Bool(true))
    && Lookup(item.entries, "items").None?
  }

  /** Whether the schema accepts the instance. */
  predicate Accepts(d: Dialect, schema: Json, inst: Instance)
    decreases schema, 1
  {
    match schema
    case Bool(b) => b
    case Obj(entries) => forall e | e in entries :: KeywordHolds(d, schema, e, inst)
    case _ => false
  }

  predicate ExactlyOneAccepts(d: Dialect, options: Json, inst: Instance)
    requires options.Arr?
    decreases options, 0
  {
    exists i | 0 <= i < |options.items| ::
      Accepts(d, options.items[i], inst) &&
      forall k | 0 <= k < |options.items| && k != i :: !Accepts(d, options.items[k], inst)
  }

  predicate KeywordHolds(d: Dialect, schema: Json, e: (string, Json), inst: Instance)
    requires schema.Obj? && e in schema.entries
    decreases schema, 0
  {
    EntrySmaller(schema, e);
    var v := e.1;
    match KeywordOf(e.0)
    case KType => v.Str? && HasType(v.s, inst)
    case KConst => Same(Lift(v), inst)
    case KEnum => v.Arr? && exists i | 0 <= i < |v.items| :: Same(Lift(v.items[i]), inst)
    case KPattern => inst.Text? && v.Str? ==> d.search(v.s, inst.s)
    case KMinLength => inst.Text? ==> CountWithin(true, v, Utf8.CharCount(inst.s))
    case KNot => !Accepts(d, v, inst)
    case KMinimum => Bounded(KMinimum, v, inst)
    case KMaximum => Bounded(KMaximum, v, inst)
    case KExclusiveMinimum => Bounded(KExclusiveMinimum, v, inst)
    case KExclusiveMaximum => Bounded(KExclusiveMaximum, v, inst)
    case KAllOf => v.Arr? && forall i | 0 <= i < |v.items| :: Accepts(d, v.items[i], inst)
    case KAnyOf => v.Arr? && exists i | 0 <= i < |v.items| :: Accepts(d, v.items[i], inst)
    case KOneOf => v.Arr? && ExactlyOneAccepts(d, v, inst)
    case KIf =>
      Accepts(d, v, inst) ==>
        (match Lookup(schema.entries, "then")
         case None => true
         case Some(t) => EntrySmaller(schema, ("then", t)); Accepts(d, t, inst))
    case KProperties =>
      v.Obj? && (inst.Record? ==>
        forall p | p in v.entries ::
          EntrySmaller(v, p);
          forall x | x in inst.entries :: x.0 == p.0 ==> Accepts(d, p.1, x.1))
    case KRequired => HasKeys(inst, v)
    case KAdditional =>
      inst.Record? ==>
        forall x | x in inst.entries :: !DeclaredProperty(schema, x.0) ==> Accepts(d, v, x.1)
    case KDependent =>
      v.Obj? && (inst.Record? ==>
        forall p | p in v.entries :: HasKey(inst.entries, p.0) ==> HasKeys(inst, p.1))
    case KItems =>
      inst.List? ==>
        && (forall i | 0 <= i < |inst.items| :: Accepts(d, v, inst.items[i]))
        && (d.anolis ==> ColumnsDistinct(v, inst.items))
    case KMinItems => inst.List? ==> CountWithin(true, v, |inst.items|)
    case KMaxItems => inst.List? ==> CountWithin(false, v, |inst.items|)
    case KUniqueItems =>
      inst.List? && v == Bool(true) ==>
        forall i, k | 0 <= i < k < |inst.items| :: !Same(inst.items[i], inst.items[k])
    case KAnolisUnique =>
      d.anolis && inst.List? && v == Bool(true) ==>
        (match Lookup(schema.entries, "items")
         case None => true
         case Some(item) => Distinct(ParsedItems(item, inst.items)))
    case Annotation => true
  }

  predicate DeclaredProperty(schema: Json, key: string)
    requires schema.Obj?
  {
    match Lookup(schema.entries, "properties")
    case Some(Obj(properties)) => exists p | p in properties :: p.0 == key
    case _ => false
  }
}
