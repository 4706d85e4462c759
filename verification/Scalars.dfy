/**
 The YAML 1.2 core-schema scalar resolver shared by validation and extraction
 (src/anolis/provider_sdk/config_validate.cpp:20-263), and the decimal text of
 integers. Regular expressions with a fixed pattern are written out as predicates.
 */
module Scalars {
  import opened Base

  const INT64_MIN: int := -0x8000_0000_0000_0000
  const INT64_MAX: int := 0x7FFF_FFFF_FFFF_FFFF
  const I2C_MIN := 0x08
  const I2C_MAX := 0x77
  const I2C_HEX_PATTERN := "^0[xX](0[89a-fA-F]|[1-6][0-9a-fA-F]|7[0-7])$"

  predicate IsInt64(n: int) {
    INT64_MIN <= n <= INT64_MAX
  }

  /** What `std::from_chars` makes of the text of an unsigned floating-point literal. */
  datatype Conversion = Parsed(v: real) | OutOfRange | Malformed

  /** The library calls whose results the toolkit takes as given. */
  datatype Library = Library(
    search: (string, string) -> bool,    // std::regex_search(pattern, text)
    compiles: string -> bool,            // whether std::regex accepts the pattern
    fromChars: string -> Conversion)

  /** The one regular expression the toolkit itself writes means what its text says. */
  ghost predicate Lawful(search: (string, string) -> bool) {
    forall s: string :: search(I2C_HEX_PATTERN, s) <==> I2cHexForm(s)
  }

  // ---- digits ---------------------------------------------------------------

  predicate IsDigit(c: char) {
    '0' <= c <= '9'
  }

  predicate IsHexDigit(c: char) {
    '0' <= c <= '9' || 'a' <= c <= 'f' || 'A' <= c <= 'F'
  }

  function DigitOf(c: char): nat {
    if '0' <= c <= '9' then c as int - '0' as int
    else if 'a' <= c <= 'f' then c as int - 'a' as int + 10
    else if 'A' <= c <= 'F' then c as int - 'A' as int + 10
    else 36
  }

  function DigitChar(n: nat): char
    requires n < 16
  {
    if n < 10 then ('0' as int + n) as char else ('a' as int + n - 10) as char
  }

  predicate AllDigits(s: string) {
    forall i | 0 <= i < |s| :: IsDigit(s[i])
  }

  /** The number a digit string denotes, most significant digit first. */
  function DigitsValue(s: string, base: nat): nat {
    if s == [] then 0 else DigitsValue(s[..|s| - 1], base) * base + DigitOf(s[|s| - 1])
  }

  function ToDigits(n: nat): (s: string)
    ensures |s| > 0 && AllDigits(s)
  {
    if n < 10 then [DigitChar(n)] else ToDigits(n / 10) + [DigitChar(n % 10)]
  }

  /** `std::to_string` of a signed integer. */
  function ToText(n: int): string {
    if n < 0 then "-" + ToDigits(-n) else ToDigits(n)
  }

  lemma {:induction false} DigitsRoundTrip(n: nat)
    ensures DigitsValue(ToDigits(n), 10) == n
  {
    if n < 10 {
      assert ToDigits(n)[..0] == [];
    } else {
      DigitsRoundTrip(n / 10);
      var s := ToDigits(n);
      assert s[..|s| - 1] == ToDigits(n / 10);
    }
  }

  // ---- integer text ---------------------------------------------------------

  /** `std::from_chars` for int64: an optional minus, then digits to the very end, in range. */
  function FromChars(s: string, base: nat): Option<int> {
    var negative := s != [] && s[0] == '-';
    var digits := if negative then s[1..] else s;
    if digits == [] || exists i | 0 <= i < |digits| :: DigitOf(digits[i]) >= base then None
    else
      var n := if negative then -(DigitsValue(digits, base) as int) else DigitsValue(digits, base);
      if IsInt64(n) then Some(n) else None
  }

  function ParseInt(s: string, base: nat, skip: nat): Option<int>
    requires skip <= |s|
  {
    if skip > 0 && (s[0] == '+' || s[0] == '-') then None
    else if base == 10 && s != [] && s[0] == '+' then FromChars(s[1..], base)
    else FromChars(s[skip..], base)
  }

  function StripSign(s: string): string {
    if s != [] && (s[0] == '+' || s[0] == '-') then s[1..] else s
  }

  predicate IsIntDec(s: string) {
    var digits := StripSign(s);
    digits != [] && AllDigits(digits)
  }

  predicate IsIntOct(s: string) {
    |s| > 2 && s[..2] == "0o" && forall i | 2 <= i < |s| :: '0' <= s[i] <= '7'
  }

  predicate IsIntHex(s: string) {
    |s| > 2 && s[..2] == "0x" && forall i | 2 <= i < |s| :: IsHexDigit(s[i])
  }

  /** The decimal value of a text `[-+]?[0-9]+`. */
  function DecimalValue(s: string): int {
    if s != [] && s[0] == '-' then -(DigitsValue(s[1..], 10) as int)
    else DigitsValue(StripSign(s), 10)
  }

  // ---- floating-point text --------------------------------------------------

  function IndexOf(s: string, stop: set<char>): (n: nat)
    ensures n <= |s|
    ensures n < |s| ==> s[n] in stop
  {
    if s == [] || s[0] in stop then 0 else 1 + IndexOf(s[1..], stop)
  }

  // \.[0-9]+ or [0-9]+(\.[0-9]*)?
  predicate IsMantissa(m: string) {
    var dot := IndexOf(m, {'.'});
    && AllDigits(m[..dot])
    && (if dot == |m| then dot > 0 else AllDigits(m[dot + 1..]) && |m| > 1)
  }

  predicate IsFloatText(s: string) {
    var magnitude := StripSign(s);
    var e := IndexOf(magnitude, {'e', 'E'});
    IsMantissa(magnitude[..e]) && (e == |magnitude| || IsIntDec(magnitude[e + 1..]))
  }

  predicate IsFloatSpecial(s: string) {
    StripSign(s) in {".inf", ".Inf", ".INF"} || s in {".nan", ".NaN", ".NAN"}
  }

  /** A double: reals stand for the finite values. */
  datatype Float = Finite(v: real) | PosInf | NegInf | NaN

  function Negate(f: Float): Float {
    match f
    case Finite(v) => Finite(-v)
    case PosInf => NegInf
    case NegInf => PosInf
    case NaN => NaN
  }

  /** A literal out of double range underflows by its exponent's sign, or by a leading "0.". */
  predicate Underflows(magnitude: string) {
    var e := IndexOf(magnitude, {'e', 'E'});
    if e < |magnitude| then e + 1 < |magnitude| && magnitude[e + 1] == '-'
    else |magnitude| >= 2 && magnitude[..2] == "0."
  }

  // ---- resolution -----------------------------------------------------------

  datatype Resolved =
    | RNull
    | RBool(b: bool)
    | RInt(n: int)
    | RFloat(f: Float)
    | RString(s: string)
    | NonScalar

  predicate IsCoreNull(s: string) {
    s in {"", "~", "null", "Null", "NULL"}
  }

  function CoreBool(s: string): Option<bool> {
    if s in {"true", "True", "TRUE"} then Some(true)
    else if s in {"false", "False", "FALSE"} then Some(false)
    else None
  }

  /** The integer reading of a plain scalar: decimal, then hexadecimal, then octal. */
  function CoreInt(s: string): Option<int> {
    var dec := if IsIntDec(s) then ParseInt(s, 10, 0) else None;
    if dec.Some? then dec else
    var hex := if IsIntHex(s) then ParseInt(s, 16, 2) else None;
    if hex.Some? then hex else
    if IsIntOct(s) then ParseInt(s, 8, 2) else None
  }

  function CoreFloat(lib: Library, s: string): Option<Float> {
    if IsFloatSpecial(s) then
      var last := s[|s| - 1];
      if last != 'f' && last != 'F' then Some(NaN)
      else if s[0] == '-' then Some(NegInf) else Some(PosInf)
    else if IsFloatText(s) then
      var magnitude := StripSign(s);
      var negative := s != [] && s[0] == '-';
      match lib.fromChars(magnitude)
      case Parsed(v) => Some(Finite(if negative then -v else v))
      case OutOfRange =>
        var f := if Underflows(magnitude) then Finite(0.0) else PosInf;
        Some(if negative then Negate(f) else f)
      case Malformed => None
    else None
  }

  function ResolvePlain(lib: Library, s: string): Resolved {
    if IsCoreNull(s) then RNull
    else if CoreBool(s).Some? then RBool(CoreBool(s).value)
    else if CoreInt(s).Some? then RInt(CoreInt(s).value)
    else if CoreFloat(lib, s).Some? then RFloat(CoreFloat(lib, s).value)
    else RString(s)
  }

  // ---- integers, doubles and addresses ----------------------------------------

  predicate IsWhole(v: real) {
    v == v.Floor as real
  }

  /** JSON Schema `integer` within int64: an int, or a finite float with no fraction. */
  function IntegerOf(r: Resolved): Option<int> {
    match r
    case RInt(n) => Some(n)
    case RFloat(Finite(v)) => if IsWhole(v) && IsInt64(v.Floor) then Some(v.Floor) else None
    case _ => None
  }

  /** The spacing of doubles at magnitude `a`, as a multiple of `step`. */
  function Spacing(a: nat, step: nat): (s: nat)
    requires step > 0
    ensures s >= step
    decreases a - step
  {
    if a < 0x20_0000_0000_0000 * step then step else Spacing(a, 2 * step)
  }

  function RoundHalfEven(a: nat, step: nat): nat
    requires step > 0
  {
    var q, rest := a / step, a % step;
    if 2 * rest < step || (2 * rest == step && q % 2 == 0) then q * step else (q + 1) * step
  }

  /** `static_cast<double>` of an int64: the nearest double, ties to even. */
  function DoubleOfInt(n: int): int {
    if n < 0 then -(RoundHalfEven(-n, Spacing(-n, 1)) as int) else RoundHalfEven(n, Spacing(n, 1))
  }

  // The strings the pattern I2C_HEX_PATTERN matches in full.
  predicate I2cHexForm(s: string) {
    && |s| == 4 && s[0] == '0' && (s[1] == 'x' || s[1] == 'X')
    && match s[2]
       case '0' => s[3] == '8' || s[3] == '9' || 'a' <= s[3] <= 'f' || 'A' <= s[3] <= 'F'
       case '7' => '0' <= s[3] <= '7'
       case c => '1' <= c <= '6' && IsHexDigit(s[3])
  }

  function I2cAddressOf(r: Resolved): Option<int> {
    var value :=
      if IntegerOf(r).Some? then IntegerOf(r)
      else if r.RString? && I2cHexForm(r.s) then ParseInt(r.s, 16, 2)
      else None;
    if value.Some? && I2C_MIN <= value.value <= I2C_MAX then value else None
  }
}
