/**
 Which argument values a declaration lets through, type by type, and with what code the
 others are refused (src/anolis/provider_sdk/call_validation.cpp:17-159).
 */
module ArgumentFacts {
  import opened Base
  import opened Scalars
  import opened Protocol
  import opened CallValidation

  /** Rules 3 to 6 on a value that is there. */
  predicate LetsThrough(arg: ArgSpec, v: Value) {
    TypeOk(arg, v) && FiniteOk(arg, v) && BoundsOk(arg, v) && AllowedOk(arg, v)
  }

  /** The value carries `field`, tagged or not, or is tagged and carries nothing. */
  predicate Carried(t: ValueType, field: bool, v: Value) {
    || (field && (v.tag == t || v.tag == Unspecified))
    || (v.field == NotSet && v.tag == t)
  }

  /** The number is not below the bound; NaN bounds nothing. */
  predicate AtLeast(bound: Option<Float>, x: real) {
    match bound
    case None => true
    case Some(Finite(b)) => b <= x
    case Some(PosInf) => false
    case Some(_) => true
  }

  predicate AtMost(bound: Option<Float>, x: real) {
    match bound
    case None => true
    case Some(Finite(b)) => x <= b
    case Some(NegInf) => false
    case Some(_) => true
  }

  /** The double a value stands for: its field, or zero. */
  function DoubleIn(v: Value): Float {
    match v.field
    case DoubleField(f) => f
    case _ => Finite(0.0)
  }

  /**
   Exactly the values of the declared type pass: doubles only if finite and within the
   inclusive bounds, integers within theirs, strings if allowed; a list of allowed values
   shuts out every other type; a type the SDK does not know is not looked at further.
   */
  lemma LetThroughExactly(arg: ArgSpec, v: Value)
    ensures LetsThrough(arg, v) <==>
      match arg.argType
      case BoolType => Carried(BoolType, v.field.BoolField?, v) && arg.allowed == []
      case BytesType => Carried(BytesType, v.field.BytesField?, v) && arg.allowed == []
      case StringType =>
        && Carried(StringType, v.field.StringField?, v)
        && (arg.allowed == [] || (if v.field.StringField? then v.field.s else "") in arg.allowed)
      case DoubleType =>
        && Carried(DoubleType, v.field.DoubleField?, v) && arg.allowed == []
        && DoubleIn(v).Finite? && AtLeast(arg.minDouble, DoubleIn(v).v) && AtMost(arg.maxDouble, DoubleIn(v).v)
      case Int64Type =>
        var n := if v.field.Int64Field? then v.field.i else 0;
        && Carried(Int64Type, v.field.Int64Field?, v) && arg.allowed == []
        && (arg.minInt64.Some? ==> arg.minInt64.value <= n) && (arg.maxInt64.Some? ==> n <= arg.maxInt64.value)
      case Uint64Type =>
        var n := if v.field.Uint64Field? then v.field.u else 0;
        && Carried(Uint64Type, v.field.Uint64Field?, v) && arg.allowed == []
        && (arg.minUint64.Some? ==> arg.minUint64.value <= n) && (arg.maxUint64.Some? ==> n <= arg.maxUint64.value)
      case _ => arg.allowed == []
  {
  }

  /** Arguments conform exactly when each is declared, each required one is there, and each there is let through. */
  lemma ConformsExactly(spec: FunctionSpec, args: ValueMap)
    ensures Conforms(spec, args) <==>
      && (forall name | name in args :: exists a | a in spec.args :: a.name == name)
      && (forall a | a in spec.args && a.required :: a.name in args)
      && (forall a | a in spec.args && a.name in args :: LetsThrough(a, args[a.name]))
  {
    hide TypeOk, FiniteOk, BoundsOk, AllowedOk;
    forall a | a in spec.args
      ensures ArgOk(a, args) <==>
        (a.required ==> a.name in args) && (a.name in args ==> LetsThrough(a, args[a.name]))
    {
    }
  }

  /** A refusal is OUT_OF_RANGE exactly for a value of the right type, finite, outside its bounds. */
  lemma CodeTells(spec: FunctionSpec, args: ValueMap, e: ArgError)
    requires Reports(spec, args, e)
    ensures e.code == Code.OutOfRange || e.code == InvalidArgument
    ensures e.code == Code.OutOfRange ==>
      exists a | a in spec.args ::
        a.name == e.name && a.name in args && TypeOk(a, args[a.name]) && FiniteOk(a, args[a.name]) && !BoundsOk(a, args[a.name])
  {
    hide TypeOk, FiniteOk, BoundsOk, AllowedOk;
    if AllDeclared(spec, args) {
      var i := BrokenAt(spec, args, e);
      assert spec.args[i] in spec.args;
      if e.rule == 5 {
        assert !Breaks(3, spec.args[i], args) && !Breaks(4, spec.args[i], args);
      }
    }
  }
}
