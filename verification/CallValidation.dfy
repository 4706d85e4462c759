/**
 Call arguments against the declared function
 (src/anolis/provider_sdk/call_validation.cpp:17-159). An error is its code, the
 rule broken and the argument's name; its wording is not modelled.
 */
module CallValidation {
  import opened Base
  import opened Scalars
  import opened Protocol

  datatype ArgError = ArgError(code: Code, rule: nat, name: string)

  function Error(rule: nat, name: string): ArgError {
    ArgError(if rule == 5 then Code.OutOfRange else InvalidArgument, rule, name)
  }

  // ---- IEEE comparison -------------------------------------------------------------------------

  predicate LessThan(a: Float, b: Float) {
    match (a, b)
    case (NaN, _) => false
    case (_, NaN) => false
    case (Finite(x), Finite(y)) => x < y
    case (NegInf, NegInf) => false
    case (NegInf, _) => true
    case (_, PosInf) => !a.PosInf?
    case _ => false
  }

  predicate IsFinite(a: Float) {
    a.Finite?
  }

  // ---- the rules -----------------------------------------------------------------------------------

  /** Whether the SDK knows the type, and so which field its values are in. */
  predicate Checkable(t: ValueType) {
    !t.Unspecified? && !t.OtherType?
  }

  predicate Carries(t: ValueType, f: Field) {
    match t
    case BoolType => f.BoolField?
    case Int64Type => f.Int64Field?
    case Uint64Type => f.Uint64Field?
    case DoubleType => f.DoubleField?
    case StringType => f.StringField?
    case BytesType => f.BytesField?
    case _ => false
  }

  /** Rule 3: neither the tag nor the field contradicts the declared type, and one of them is there. */
  predicate TypeOk(arg: ArgSpec, v: Value) {
    Checkable(arg.argType) ==>
      && (v.tag == arg.argType || v.tag.Unspecified?)
      && (Carries(arg.argType, v.field) || v.field.NotSet?)
      && !(v.tag.Unspecified? && v.field.NotSet?)
  }

  /** Rule 4. */
  predicate FiniteOk(arg: ArgSpec, v: Value) {
    arg.argType.DoubleType? ==> IsFinite(v.Double())
  }

  /** Rule 5, bounds inclusive. */
  predicate BoundsOk(arg: ArgSpec, v: Value) {
    match arg.argType
    case DoubleType =>
      && (arg.minDouble.Some? ==> !LessThan(v.Double(), arg.minDouble.value))
      && (arg.maxDouble.Some? ==> !LessThan(arg.maxDouble.value, v.Double()))
    case Int64Type =>
      && (arg.minInt64.Some? ==> arg.minInt64.value <= v.Int64())
      && (arg.maxInt64.Some? ==> v.Int64() <= arg.maxInt64.value)
    case Uint64Type =>
      && (arg.minUint64.Some? ==> arg.minUint64.value <= v.Uint64())
      && (arg.maxUint64.Some? ==> v.Uint64() <= arg.maxUint64.value)
    case _ => true
  }

  /** Rule 6: only strings can be among the allowed values. */
  predicate AllowedOk(arg: ArgSpec, v: Value) {
    arg.allowed != [] ==> arg.argType.StringType? && v.Text() in arg.allowed
  }

  predicate Breaks(rule: nat, arg: ArgSpec, args: ValueMap) {
    match rule
    case 2 => arg.required && arg.name !in args
    case 3 => arg.name in args && !TypeOk(arg, args[arg.name])
    case 4 => arg.name in args && !FiniteOk(arg, args[arg.name])
    case 5 => arg.name in args && !BoundsOk(arg, args[arg.name])
    case 6 => arg.name in args && !AllowedOk(arg, args[arg.name])
    case _ => false
  }

  predicate ArgOk(arg: ArgSpec, args: ValueMap) {
    !Breaks(2, arg, args) && !Breaks(3, arg, args) && !Breaks(4, arg, args) && !Breaks(5, arg, args)
    && !Breaks(6, arg, args)
  }

  predicate Declared(spec: FunctionSpec, name: string) {
    exists a | a in spec.args :: a.name == name
  }

  predicate AllDeclared(spec: FunctionSpec, args: ValueMap) {
    forall name | name in args :: Declared(spec, name)
  }

  /** What a provider's `call` may rely on. */
  predicate Conforms(spec: FunctionSpec, args: ValueMap) {
    AllDeclared(spec, args) && forall a | a in spec.args :: ArgOk(a, args)
  }

  // ---- which breach is reported ------------------------------------------------------------------

  /** Byte-wise lexicographic order, as std::string compares. */
  predicate Before(s: string, t: string) {
    t != "" && (s == "" || s[0] < t[0] || (s[0] == t[0] && Before(s[1..], t[1..])))
  }

  lemma {:induction false} BeforeTotal(s: string, t: string)
    ensures Before(s, t) || s == t || Before(t, s)
    ensures !(Before(s, t) && Before(t, s)) && !Before(s, s)
  {
    if s != "" && t != "" {
      BeforeTotal(s[1..], t[1..]);
      assert s == [s[0]] + s[1..] && t == [t[0]] + t[1..];
    }
    if s != "" { BeforeTotal(s[1..], s[1..]); }
  }

  lemma {:induction false} BeforeTransitive(s: string, t: string, u: string)
    requires Before(s, t) && Before(t, u)
    ensures Before(s, u)
  {
    if s != "" && s[0] == t[0] == u[0] {
      BeforeTransitive(s[1..], t[1..], u[1..]);
    }
  }

  predicate IsLeast(name: string, names: set<string>) {
    name in names && forall n | n in names :: n == name || Before(name, n)
  }

  lemma {:induction false} LeastExists(names: set<string>) returns (name: string)
    requires names != {}
    ensures IsLeast(name, names)
  {
    var n :| n in names;
    var others := names - {n};
    if others == {} {
      assert names == {n};
      name := n;
    } else {
      var m := LeastExists(others);
      BeforeTotal(m, n);
      name := if Before(n, m) then n else m;
      forall k | k in names && k != name ensures Before(name, k) {
        if Before(n, m) && k != m { BeforeTransitive(n, m, k); }
      }
    }
  }

  function Undeclared(spec: FunctionSpec, args: ValueMap): set<string> {
    set name | name in args && !Declared(spec, name)
  }

  /** `e` blames the first argument, in declared order, that breaks a rule, for the lowest rule it breaks. */
  predicate FirstBroken(spec: FunctionSpec, args: ValueMap, e: ArgError, i: nat) {
    && i < |spec.args|
    && (forall j | 0 <= j < i :: ArgOk(spec.args[j], args))
    && e == Error(e.rule, spec.args[i].name)
    && 2 <= e.rule <= 6
    && Breaks(e.rule, spec.args[i], args)
    && forall r | 2 <= r < e.rule :: !Breaks(r, spec.args[i], args)
  }

  /** The one breach to report: the least undeclared name, else the first broken rule of the first bad argument. */
  ghost predicate Reports(spec: FunctionSpec, args: ValueMap, e: ArgError) {
    if AllDeclared(spec, args) then exists i :: FirstBroken(spec, args, e, i)
    else e == Error(1, e.name) && IsLeast(e.name, Undeclared(spec, args))
  }

  /** The result is a function of the spec and the arguments: map order cannot change it. */
  lemma ReportUnique(spec: FunctionSpec, args: ValueMap, a: ArgError, b: ArgError)
    requires Reports(spec, args, a) && Reports(spec, args, b)
    ensures a == b
  {
    if AllDeclared(spec, args) {
      hide Reports;
      var i := BrokenAt(spec, args, a);
      var j := BrokenAt(spec, args, b);
      hide AllDeclared, Breaks;
      if i < j { BrokenNotOk(spec, args, a, i); }
      if j < i { BrokenNotOk(spec, args, b, j); }
    } else {
      BeforeTotal(a.name, b.name);
    }
  }

  lemma BrokenAt(spec: FunctionSpec, args: ValueMap, e: ArgError) returns (i: nat)
    requires AllDeclared(spec, args) && Reports(spec, args, e)
    ensures FirstBroken(spec, args, e, i)
  {
    hide AllDeclared, FirstBroken;
    i :| FirstBroken(spec, args, e, i);
  }

  lemma BrokenNotOk(spec: FunctionSpec, args: ValueMap, e: ArgError, i: nat)
    requires FirstBroken(spec, args, e, i)
    ensures !ArgOk(spec.args[i], args)
  {
    hide Breaks;
    assert e.rule in {2, 3, 4, 5, 6};
  }

  /** There is something to report exactly when the arguments do not conform. */
  lemma ReportsIffNot(spec: FunctionSpec, args: ValueMap)
    ensures Conforms(spec, args) <==> !exists e :: Reports(spec, args, e)
  {
    if !AllDeclared(spec, args) {
      var name :| name in args && !Declared(spec, name);
      assert name in Undeclared(spec, args);
      var least := LeastExists(Undeclared(spec, args));
      assert Reports(spec, args, Error(1, least));
    } else if i: nat :| i < |spec.args| && !ArgOk(spec.args[i], args) {
      var e := FirstBreach(spec, args, i);
    }
    forall e | Reports(spec, args, e) ensures !Conforms(spec, args) {
      ReportedNotConforming(spec, args, e);
    }
  }

  lemma ReportedNotConforming(spec: FunctionSpec, args: ValueMap, e: ArgError)
    requires Reports(spec, args, e)
    ensures !Conforms(spec, args)
  {
    if AllDeclared(spec, args) {
      var i := BrokenAt(spec, args, e);
      BrokenNotOk(spec, args, e, i);
      assert spec.args[i] in spec.args;
    }
  }

  function LowestRule(arg: ArgSpec, args: ValueMap): nat {
    if Breaks(2, arg, args) then 2
    else if Breaks(3, arg, args) then 3
    else if Breaks(4, arg, args) then 4
    else if Breaks(5, arg, args) then 5
    else 6
  }

  lemma LowestIsLowest(arg: ArgSpec, args: ValueMap)
    requires !ArgOk(arg, args)
    ensures Breaks(LowestRule(arg, args), arg, args)
    ensures forall r | 2 <= r < LowestRule(arg, args) :: !Breaks(r, arg, args)
  {
    hide Breaks;
  }

  lemma {:induction false} FirstBreach(spec: FunctionSpec, args: ValueMap, bad: nat) returns (e: ArgError)
    requires AllDeclared(spec, args) && bad < |spec.args| && !ArgOk(spec.args[bad], args)
    ensures Reports(spec, args, e)
    decreases bad
  {
    if j: nat :| j < bad && !ArgOk(spec.args[j], args) {
      e := FirstBreach(spec, args, j);
    } else {
      LowestIsLowest(spec.args[bad], args);
      e := Error(LowestRule(spec.args[bad], args), spec.args[bad].name);
      hide Breaks, ArgOk, AllDeclared, LowestRule;
      assert FirstBroken(spec, args, e, bad);
    }
  }

  // ---- validate_call_args ----------------------------------------------------------------------------

  /** `check_type`, rule 3. */
  method CheckType(arg: ArgSpec, value: Value) returns (err: Option<ArgError>)
    ensures err == if TypeOk(arg, value) then None else Some(Error(3, arg.name))
  {
    if !Checkable(arg.argType) {
      return None;
    }
    var tagOk := value.tag == arg.argType || value.tag.Unspecified?;
    var fieldOk := Carries(arg.argType, value.field) || value.field.NotSet?;
    if !tagOk || !fieldOk {
      return Some(Error(3, arg.name));
    }
    if value.tag.Unspecified? && value.field.NotSet? {
      return Some(Error(3, arg.name));
    }
    return None;
  }

  /** `check_bounds`, rules 4 and 5. */
  method CheckBounds(arg: ArgSpec, value: Value) returns (err: Option<ArgError>)
    ensures err == if !FiniteOk(arg, value) then Some(Error(4, arg.name))
                   else if !BoundsOk(arg, value) then Some(Error(5, arg.name)) else None
  {
    var outside := false;
    match arg.argType {
    case DoubleType =>
      var v := value.Double();
      if !IsFinite(v) {
        return Some(Error(4, arg.name));
      }
      outside := (arg.minDouble.Some? && LessThan(v, arg.minDouble.value))
              || (arg.maxDouble.Some? && LessThan(arg.maxDouble.value, v));
    case Int64Type =>
      var v := value.Int64();
      outside := (arg.minInt64.Some? && v < arg.minInt64.value) || (arg.maxInt64.Some? && v > arg.maxInt64.value);
    case Uint64Type =>
      var v := value.Uint64();
      outside := (arg.minUint64.Some? && v < arg.minUint64.value) || (arg.maxUint64.Some? && v > arg.maxUint64.value);
    case _ =>
    }
    return if outside then Some(Error(5, arg.name)) else None;
  }

  /** `check_allowed`, rule 6. */
  method CheckAllowed(arg: ArgSpec, value: Value) returns (err: Option<ArgError>)
    ensures err == if AllowedOk(arg, value) then None else Some(Error(6, arg.name))
  {
    if arg.allowed == [] {
      return None;
    }
    var i := 0;
    while i < |arg.allowed| && arg.allowed[i] != value.Text()
      invariant 0 <= i <= |arg.allowed|
      invariant value.Text() !in arg.allowed[..i]
    {
      i := i + 1;
    }
    assert arg.allowed[..|arg.allowed|] == arg.allowed;
    var allowed := arg.argType.StringType? && i < |arg.allowed|;
    return if allowed then None else Some(Error(6, arg.name));
  }

  /** Rule 1: the undeclared names, whatever order the map is walked in. */
  method CollectUndeclared(spec: FunctionSpec, args: ValueMap) returns (undeclared: set<string>)
    ensures undeclared == Undeclared(spec, args)
  {
    var declared: set<string> := {};
    for i := 0 to |spec.args|
      invariant declared == set k | 0 <= k < i :: spec.args[k].name
    {
      declared := declared + {spec.args[i].name};
    }
    assert forall name :: name in declared <==> Declared(spec, name);
    undeclared := {};
    var left := args.Keys;
    while left != {}
      invariant left <= args.Keys
      invariant undeclared == set name | name in args.Keys - left && !Declared(spec, name)
      decreases left
    {
      var name :| name in left;
      if name !in declared {
        undeclared := undeclared + {name};
      }
      left := left - {name};
    }
  }

  /** Decides conformance and reports the breach `Reports` singles out. */
  method ValidateCallArgs(spec: FunctionSpec, args: ValueMap) returns (err: Option<ArgError>)
    ensures err.None? <==> Conforms(spec, args)
    ensures err.Some? ==> Reports(spec, args, err.value)
  {
    var undeclared := CollectUndeclared(spec, args);
    if undeclared != {} {
      ghost var first := LeastExists(undeclared);
      var least :| IsLeast(least, undeclared);
      return Some(Error(1, least));
    }
    assert AllDeclared(spec, args) by {
      forall name | name in args ensures Declared(spec, name) {
        assert name !in Undeclared(spec, args);
      }
    }
    hide AllDeclared, TypeOk, FiniteOk, BoundsOk, AllowedOk;
    for i := 0 to |spec.args|
      invariant forall j | 0 <= j < i :: ArgOk(spec.args[j], args)
    {
      var arg := spec.args[i];
      assert arg in spec.args;
      if arg.name !in args {
        if arg.required {
          assert FirstBroken(spec, args, Error(2, arg.name), i);
          return Some(Error(2, arg.name));
        }
        continue;
      }
      var value := args[arg.name];
      err := CheckType(arg, value);
      if err.Some? {
        assert FirstBroken(spec, args, err.value, i);
        return;
      }
      err := CheckBounds(arg, value);
      if err.Some? {
        assert FirstBroken(spec, args, err.value, i);
        return;
      }
      err := CheckAllowed(arg, value);
      if err.Some? {
        assert FirstBroken(spec, args, err.value, i);
        return;
      }
    }
    return None;
  }

  // ---- what conformance buys the provider --------------------------------------------------------------

  /** The types values.hpp has a typed getter for: all that are checked but bytes. */
  predicate HasGetter(t: ValueType) {
    Checkable(t) && !t.BytesType?
  }

  /** A typed getter succeeds only on a present value with its tag. */
  predicate GetterSucceeds(args: ValueMap, name: string, t: ValueType) {
    HasGetter(t) && name in args && args[name].tag == t
  }

  /**
   A validated argument is readable through its typed getter exactly when its type has
   one and it carries a tag: the untagged values validation lets through are refused by
   every getter, and bytes have none.
   */
  lemma GetterNeedsTag(spec: FunctionSpec, args: ValueMap, arg: ArgSpec)
    requires Conforms(spec, args) && arg in spec.args && Checkable(arg.argType) && arg.name in args
    ensures GetterSucceeds(args, arg.name, arg.argType) <==>
      HasGetter(arg.argType) && !args[arg.name].tag.Unspecified?
  {
    assert ArgOk(arg, args) && !Breaks(3, arg, args);
  }

  /** Such untagged values exist for every type the SDK checks; the tag is all a getter of the type then lacks. */
  lemma UntaggedPasses(field: Field, t: ValueType)
    requires Carries(t, field) && (field.DoubleField? ==> IsFinite(field.f))
    ensures var arg := ArgSpec("x", t, true, None, None, None, None, None, None, []);
      var spec, args := FunctionSpec(1, "f", [arg]), map["x" := Value(Unspecified, field)];
      Conforms(spec, args) && !GetterSucceeds(args, "x", t)
    ensures GetterSucceeds(map["x" := Value(t, field)], "x", t) <==> HasGetter(t)
  {
    var arg := ArgSpec("x", t, true, None, None, None, None, None, None, []);
    var spec, args := FunctionSpec(1, "f", [arg]), map["x" := Value(Unspecified, field)];
    assert arg in spec.args;
    assert args["x"].Double() == if field.DoubleField? then field.f else Finite(0.0);
    assert Declared(spec, "x");
  }
}
