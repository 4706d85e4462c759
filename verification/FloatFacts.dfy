/**
 What a plain scalar resolves to (src/anolis/provider_sdk/config_validate.cpp:20-190),
 said of the text itself: the words, the floats with their signs, the texts out of
 range, and everything else a string. Decimal, hexadecimal and octal integers are in
 ScalarFacts.
 */
module FloatFacts {
  import opened Base
  import opened Scalars
  import opened ScalarFacts
  import opened Yaml

  // ---- the grammar of floats, as a pattern ---------------------------------------------------------

  predicate Digits(s: string) {
    forall c | c in s :: '0' <= c <= '9'
  }

  /** [0-9]+ or [0-9]+\.[0-9]* or \.[0-9]+ */
  ghost predicate MantissaPattern(m: string) {
    || (m != "" && Digits(m))
    || exists a, b :: m == a + "." + b && Digits(a) && Digits(b) && (a != "" || b != "")
  }

  /** A sign, or none. */
  predicate IsSign(s: string) {
    s == "" || s == "+" || s == "-"
  }

  /** [-+]?[0-9]+ */
  ghost predicate IntegerPattern(s: string) {
    exists sign, n :: s == sign + n && IsSign(sign) && n != "" && Digits(n)
  }

  /** Empty, or [eE][-+]?[0-9]+ */
  ghost predicate ExponentPattern(x: string) {
    x == "" || (x[0] in {'e', 'E'} && IntegerPattern(x[1..]))
  }

  /** An unsigned literal. */
  ghost predicate MagnitudePattern(m: string) {
    exists a, x :: m == a + x && MantissaPattern(a) && ExponentPattern(x)
  }

  lemma DigitsAre(s: string)
    ensures Digits(s) <==> AllDigits(s)
  {
    assert forall i | 0 <= i < |s| :: s[i] in s;
  }

  lemma {:induction false} IndexOfFirst(s: string, stop: set<char>, n: nat)
    requires n <= |s| && (forall i | 0 <= i < n :: s[i] !in stop) && (n < |s| ==> s[n] in stop)
    ensures IndexOf(s, stop) == n
  {
    if n > 0 { IndexOfFirst(s[1..], stop, n - 1); }
  }

  lemma {:induction false} BeforeIndex(s: string, stop: set<char>)
    ensures forall i | 0 <= i < IndexOf(s, stop) :: s[i] !in stop
  {
    if s != "" && s[0] !in stop { BeforeIndex(s[1..], stop); }
  }

  lemma SignedStrips(sign: string, m: string)
    requires IsSign(sign) && m != "" && m[0] != '+' && m[0] != '-'
    ensures StripSign(sign + m) == m && ((sign + m)[0] == '-' <==> sign == "-")
  {
    if sign == "" { assert sign + m == m; } else { assert (sign + m)[0] == sign[0] && (sign + m)[1..] == m; }
  }

  lemma StripParts(s: string)
    ensures exists sign :: IsSign(sign) && s == sign + StripSign(s)
  {
    var m := StripSign(s);
    var sign := if |m| == |s| then "" else [s[0]];
    assert s == sign + m && IsSign(sign);
  }

  lemma DecimalPattern(s: string)
    ensures IsIntDec(s) <==> IntegerPattern(s)
  {
    StripParts(s);
    DigitsAre(StripSign(s));
    forall sign, n | s == sign + n && IsSign(sign) && n != "" && Digits(n) ensures IsIntDec(s) {
      assert n[0] in n;
      SignedStrips(sign, n);
      DigitsAre(n);
    }
  }

  lemma MantissaIsPattern(m: string)
    ensures IsMantissa(m) <==> MantissaPattern(m)
  {
    var dot := IndexOf(m, {'.'});
    if IsMantissa(m) {
      DigitsAre(m[..dot]);
      if dot == |m| {
        assert m[..dot] == m;
      } else {
        var a, b := m[..dot], m[dot + 1..];
        DigitsAre(b);
        assert m == a + "." + b && (a != "" || b != "");
      }
    }
    if MantissaPattern(m) {
      if m != "" && Digits(m) {
        assert forall i | 0 <= i < |m| :: m[i] in m;
        IndexOfFirst(m, {'.'}, |m|);
        assert m[..|m|] == m;
        DigitsAre(m);
      } else {
        var a, b :| m == a + "." + b && Digits(a) && Digits(b) && (a != "" || b != "");
        PointedIsMantissa(a, b);
      }
    }
  }

  lemma PointedIsMantissa(a: string, b: string)
    requires Digits(a) && Digits(b) && (a != "" || b != "")
    ensures IsMantissa(a + "." + b)
  {
    var m := a + "." + b;
    assert forall i | 0 <= i < |a| :: m[i] == a[i] && a[i] in a;
    assert m[|a|] == '.';
    IndexOfFirst(m, {'.'}, |a|);
    assert m[..|a|] == a && m[|a| + 1..] == b;
    DigitsAre(a);
    DigitsAre(b);
  }

  /** No mantissa holds an exponent mark or a sign. */
  lemma MantissaChars(a: string)
    requires MantissaPattern(a)
    ensures a != "" && forall c | c in a :: '0' <= c <= '9' || c == '.'
  {
  }

  lemma MagnitudeIsPattern(m: string)
    ensures MagnitudePattern(m) <==>
      var e := IndexOf(m, {'e', 'E'}); IsMantissa(m[..e]) && (e == |m| || IsIntDec(m[e + 1..]))
  {
    hide IsMantissa, MantissaPattern, IsIntDec;
    var e := IndexOf(m, {'e', 'E'});
    if IsMantissa(m[..e]) && (e == |m| || IsIntDec(m[e + 1..])) {
      MantissaIsPattern(m[..e]);
      ExponentOf(m, e);
      assert m == m[..e] + m[e..];
    }
    if MagnitudePattern(m) {
      var a, x :| m == a + x && MantissaPattern(a) && ExponentPattern(x);
      MarkAt(a, x);
      MantissaIsPattern(a);
      assert m[..|a|] == a;
    }
  }

  lemma ExponentOf(m: string, e: nat)
    requires e == IndexOf(m, {'e', 'E'}) && (e == |m| || IsIntDec(m[e + 1..]))
    ensures ExponentPattern(m[e..])
  {
    hide IntegerPattern, IsIntDec;
    if e < |m| {
      DecimalPattern(m[e + 1..]);
      assert m[e..][1..] == m[e + 1..];
    }
  }

  /** The exponent mark of a literal is where its exponent begins. */
  lemma MarkAt(a: string, x: string)
    requires MantissaPattern(a) && ExponentPattern(x)
    ensures IndexOf(a + x, {'e', 'E'}) == |a|
    ensures x != "" ==> IsIntDec((a + x)[|a| + 1..])
  {
    MantissaChars(a);
    hide IntegerPattern, IsIntDec, MantissaPattern;
    var m := a + x;
    assert forall i | 0 <= i < |a| :: m[i] == a[i] && a[i] in a;
    if x != "" {
      assert m[|a|] == x[0] && m[|a| + 1..] == x[1..];
      DecimalPattern(x[1..]);
    }
    IndexOfFirst(m, {'e', 'E'}, |a|);
  }

  lemma ExponentChars(x: string)
    requires ExponentPattern(x)
    ensures forall c | c in x :: '0' <= c <= '9' || c in {'e', 'E', '+', '-'}
  {
    if x != "" {
      var sign, n :| x[1..] == sign + n && IsSign(sign) && n != "" && Digits(n);
      assert x == [x[0]] + (sign + n);
    }
  }

  lemma MagnitudeChars(m: string)
    requires MagnitudePattern(m)
    ensures m != "" && m[0] != '+' && m[0] != '-'
    ensures forall c | c in m :: '0' <= c <= '9' || c in {'.', 'e', 'E', '+', '-'}
  {
    var a, x :| m == a + x && MantissaPattern(a) && ExponentPattern(x);
    MantissaChars(a);
    ExponentChars(x);
    assert m[0] == a[0] && a[0] in a;
    hide MantissaPattern, ExponentPattern;
    assert forall c | c in m :: c in a || c in x;
  }

  /** The float texts are exactly a sign, or none, before a literal of the pattern. */
  lemma FloatTextIsPattern(s: string)
    ensures IsFloatText(s) <==> exists sign, m :: s == sign + m && IsSign(sign) && MagnitudePattern(m)
  {
    hide IsMantissa, IsIntDec, MagnitudePattern;
    MagnitudeIsPattern(StripSign(s));
    StripParts(s);
    forall sign, m | s == sign + m && IsSign(sign) && MagnitudePattern(m) ensures StripSign(s) == m {
      MagnitudeChars(m);
      SignedStrips(sign, m);
    }
  }

  // ---- what a float text resolves to -----------------------------------------------------------------

  lemma NoWords(s: string)
    requires s != "" && forall c | c in s :: '0' <= c <= '9' || c in {'.', 'e', 'E', '+', '-'}
    ensures !IsCoreNull(s) && CoreBool(s).None? && !IsIntHex(s) && !IsIntOct(s)
  {
    assert s[0] in s && s[0] !in {'~', 'n', 'N', 't', 'T', 'f', 'F'};
    if |s| > 2 { assert s[1] in s && s[..2][1] == s[1] && "0x"[1] == 'x' && "0o"[1] == 'o'; }
  }

  lemma NotSpecial(s: string)
    requires s != "" && forall c | c in s :: '0' <= c <= '9' || c in {'.', 'e', 'E', '+', '-'}
    ensures !IsFloatSpecial(s)
  {
    var m := StripSign(s);
    if |m| == 4 { assert m[1] in s && m[1] !in {'i', 'I'}; }
    if |s| == 4 { assert s[1] in s && s[1] !in {'n', 'N'}; }
    assert |".inf"| == 4 && |".Inf"| == 4 && |".INF"| == 4 && |".nan"| == 4 && |".NaN"| == 4 && |".NAN"| == 4;
  }

  /** The signed literal denotes no int64: it is not a decimal integer, or one out of range. */
  predicate PastIntegers(sign: string, m: string) {
    Digits(m) ==>
      !IsInt64(if sign == "-" then -(DigitsValue(m, 10) as int) else DigitsValue(m, 10))
  }

  lemma NoInteger(sign: string, m: string)
    requires IsSign(sign) && MagnitudePattern(m) && PastIntegers(sign, m)
    ensures var s := sign + m;
      !IsCoreNull(s) && CoreBool(s).None? && CoreInt(s).None? && !IsFloatSpecial(s)
  {
    hide IsIntHex, IsIntOct, IsIntDec, IsCoreNull, CoreBool, IsFloatSpecial, MagnitudePattern, ParseInt, DigitsValue;
    var s := sign + m;
    MagnitudeChars(m);
    SignedStrips(sign, m);
    assert forall c | c in s :: c in sign || c in m;
    NoWords(s);
    NotSpecial(s);
    DecimalPastInt64(sign, m);
  }

  lemma DecimalPastInt64(sign: string, m: string)
    requires IsSign(sign) && m != "" && m[0] != '+' && m[0] != '-' && PastIntegers(sign, m)
    ensures IsIntDec(sign + m) ==> ParseInt(sign + m, 10, 0).None?
  {
    var s := sign + m;
    SignedStrips(sign, m);
    DigitsAre(m);
    if IsIntDec(s) {
      DecimalTextParses(s);
      hide DigitsValue;
      if sign == "" { assert s == m; } else { assert s[1..] == m; }
      assert DecimalValue(s) == if sign == "-" then -(DigitsValue(m, 10) as int) else DigitsValue(m, 10);
    }
  }

  /** How far off the literal `a` with exponent text `x` is when it is out of range: too small, or too large. */
  predicate TooSmall(a: string, x: string) {
    if x != "" then |x| > 1 && x[1] == '-' else |a| >= 2 && a[0] == '0' && a[1] == '.'
  }

  /**
   Every float text that is no int64, decimal integers out of range included: the value
   the library reads from its magnitude, negated after a minus; out of range, a zero or
   an infinity of that sign; the text itself if the library cannot read it.
   */
  lemma FloatTextResolves(lib: Library, sign: string, a: string, x: string)
    requires IsSign(sign) && MantissaPattern(a) && ExponentPattern(x) && PastIntegers(sign, a + x)
    ensures var m := a + x; var r := ResolvePlain(lib, sign + m);
      match lib.fromChars(m)
      case Parsed(v) => r == RFloat(Finite(if sign == "-" then -v else v))
      case OutOfRange =>
        r == RFloat(if TooSmall(a, x) then Finite(0.0) else if sign == "-" then NegInf else PosInf)
      case Malformed => r == RString(sign + m)
  {
    hide MantissaPattern, ExponentPattern, PastIntegers, Underflows, TooSmall, ResolvePlain;
    Joins(a, x);
    SmallIsUnderflow(a, x);
    MagnitudeResolves(lib, sign, a + x, TooSmall(a, x));
  }

  lemma Joins(a: string, x: string)
    requires MantissaPattern(a) && ExponentPattern(x)
    ensures MagnitudePattern(a + x)
  {
    hide MantissaPattern, ExponentPattern;
  }

  lemma IsSignedFloat(sign: string, m: string)
    requires IsSign(sign) && MagnitudePattern(m)
    ensures IsFloatText(sign + m)
  {
    hide IsFloatText, MagnitudePattern;
    FloatTextIsPattern(sign + m);
  }

  lemma MagnitudeResolves(lib: Library, sign: string, m: string, small: bool)
    requires IsSign(sign) && MagnitudePattern(m) && PastIntegers(sign, m) && (Underflows(m) <==> small)
    ensures var r := ResolvePlain(lib, sign + m);
      match lib.fromChars(m)
      case Parsed(v) => r == RFloat(Finite(if sign == "-" then -v else v))
      case OutOfRange => r == RFloat(if small then Finite(0.0) else if sign == "-" then NegInf else PosInf)
      case Malformed => r == RString(sign + m)
  {
    hide CoreInt, CoreBool, IsCoreNull, IsFloatSpecial, IsFloatText, MagnitudePattern, Underflows, PastIntegers, CoreFloat;
    NoInteger(sign, m);
    IsSignedFloat(sign, m);
    MagnitudeChars(m);
    SignedFloat(lib, sign, m, small);
  }

  lemma SignedFloat(lib: Library, sign: string, m: string, small: bool)
    requires IsSign(sign) && m != "" && m[0] != '+' && m[0] != '-'
    requires IsFloatText(sign + m) && !IsFloatSpecial(sign + m) && (Underflows(m) <==> small)
    ensures CoreFloat(lib, sign + m) ==
      match lib.fromChars(m)
      case Parsed(v) => Some(Finite(if sign == "-" then -v else v))
      case OutOfRange => Some(if small then Finite(0.0) else if sign == "-" then NegInf else PosInf)
      case Malformed => None
  {
    hide IsFloatText, IsFloatSpecial, Underflows;
    SignedStrips(sign, m);
  }

  lemma SmallIsUnderflow(a: string, x: string)
    requires MantissaPattern(a) && ExponentPattern(x)
    ensures Underflows(a + x) <==> TooSmall(a, x)
  {
    MarkAt(a, x);
    hide MantissaPattern, ExponentPattern;
    var m := a + x;
    if x != "" {
      assert m[|a|..] == x;
    } else {
      assert m == a;
      if |a| >= 2 { assert a[..2] == [a[0], a[1]]; }
    }
  }

  lemma PointFirst(s: string, sign: string, w: string)
    requires s == sign + w && IsSign(sign) && |w| == 4 && w[0] == '.'
    ensures !IsCoreNull(s) && CoreBool(s).None? && CoreInt(s).None? && StripSign(s) == w && s[|s| - 1] == w[3]
    ensures s[0] == '-' <==> sign == "-"
  {
    SignedStrips(sign, w);
    assert s[0] in {'.', '+', '-'};
    if |s| > 2 { assert s[..2][0] == s[0] && "0x"[0] == '0' && "0o"[0] == '0'; }
  }

  /** The spellings of the infinities: `.inf`, `.Inf` and `.INF`, with either sign or none. */
  lemma InfinityResolves(lib: Library, sign: string, w: string)
    requires IsSign(sign) && w in {".inf", ".Inf", ".INF"}
    ensures ResolvePlain(lib, sign + w) == RFloat(if sign == "-" then NegInf else PosInf)
  {
    assert |w| == 4 && w[0] == '.' && w[3] in {'f', 'F'};
    PointFirst(sign + w, sign, w);
    assert IsFloatSpecial(sign + w);
    hide IsFloatSpecial, CoreInt, CoreBool, IsCoreNull, IsFloatText;
  }

  /** NaN is spelt without a sign. */
  lemma NanResolves(lib: Library, w: string)
    requires w in {".nan", ".NaN", ".NAN"}
    ensures ResolvePlain(lib, w) == RFloat(NaN)
  {
    assert |w| == 4 && w[0] == '.' && w[3] in {'n', 'N'} && "" + w == w;
    PointFirst(w, "", w);
    assert IsFloatSpecial(w);
    hide IsFloatSpecial, CoreInt, CoreBool, IsCoreNull, IsFloatText;
  }

  // ---- the words -----------------------------------------------------------------------------------------

  /** Exactly these plain texts are null, true and false. */
  lemma WordsResolve(lib: Library, s: string)
    ensures ResolvePlain(lib, s) == RNull <==> s in {"", "~", "null", "Null", "NULL"}
    ensures ResolvePlain(lib, s) == RBool(true) <==> s in {"true", "True", "TRUE"}
    ensures ResolvePlain(lib, s) == RBool(false) <==> s in {"false", "False", "FALSE"}
  {
    hide CoreInt, CoreFloat;
  }

  // ---- everything else is a string ---------------------------------------------------------------------------

  /** The plain text is an integer of int64, in one of the three notations. */
  predicate DenotesInteger(s: string) {
    || (IsIntDec(s) && IsInt64(DecimalValue(s)))
    || (IsIntHex(s) && IsInt64(DigitsValue(s[2..], 16)))
    || (IsIntOct(s) && IsInt64(DigitsValue(s[2..], 8)))
  }

  predicate IsWord(s: string) {
    s in {"", "~", "null", "Null", "NULL", "true", "True", "TRUE", "false", "False", "FALSE"}
  }

  lemma IntegerDenoted(lib: Library, s: string)
    ensures ResolvePlain(lib, s).RInt? <==> DenotesInteger(s)
    ensures !IsWord(s) ==> (CoreInt(s).Some? <==> DenotesInteger(s))
  {
    hide ResolvePlain;
    if IsIntDec(s) { DecimalTextResolves(lib, s); }
    if IsIntHex(s) { HexTextResolves(lib, s); }
    if IsIntOct(s) { OctTextResolves(lib, s); }
    NoOtherInteger(lib, s);
  }

  lemma NoOtherInteger(lib: Library, s: string)
    ensures ResolvePlain(lib, s).RInt? ==> IsIntDec(s) || IsIntHex(s) || IsIntOct(s)
    ensures !IsWord(s) ==> (CoreInt(s).Some? <==> ResolvePlain(lib, s).RInt?)
    ensures IsIntDec(s) ==> !IsIntHex(s) && !IsIntOct(s)
    ensures IsIntHex(s) ==> !IsIntOct(s)
  {
    hide CoreFloat, IsIntDec, IsIntHex, IsIntOct, ParseInt;
    if IsIntDec(s) { DecimalTextHasNoPrefix(s); }
    if IsIntHex(s) { HexNotOct(s); }
  }

  lemma HexNotOct(s: string)
    requires IsIntHex(s)
    ensures !IsIntOct(s)
  {
    assert s[..2][1] == 'x';
  }

  predicate IsSpecial(s: string) {
    StripSign(s) in {".inf", ".Inf", ".INF"} || s in {".nan", ".NaN", ".NAN"}
  }

  /** A plain scalar is a string, itself, exactly when it is no word, no integer, and no float the library reads. */
  lemma StringOtherwise(lib: Library, s: string)
    ensures ResolvePlain(lib, s) == RString(s) <==>
      && !IsWord(s) && !DenotesInteger(s) && !IsSpecial(s)
      && !(IsFloatText(s) && !lib.fromChars(StripSign(s)).Malformed?)
    ensures ResolvePlain(lib, s).RString? ==> ResolvePlain(lib, s) == RString(s)
    ensures ResolvePlain(lib, s) != NonScalar
  {
    IntegerDenoted(lib, s);
    WordsResolve(lib, s);
    FloatRead(lib, s);
    hide CoreInt, CoreFloat, DenotesInteger, IsFloatText, IsSpecial;
  }

  lemma FloatRead(lib: Library, s: string)
    ensures CoreFloat(lib, s).Some? <==> IsSpecial(s) || (IsFloatText(s) && !lib.fromChars(StripSign(s)).Malformed?)
  {
    hide IsFloatText;
  }

  // ---- extraction ----------------------------------------------------------------------------------------------

  /** A quoted scalar is its text whatever it looks like, and nothing else; other nodes have no scalar value. */
  lemma QuotedIsText(lib: Library, s: string)
    ensures var node := ScalarNode(s, true);
      AsString(lib, node) == Some(s) && AsBool(lib, node).None? && AsInt64(lib, node).None? && AsDouble(lib, node).None?
  {
  }

  /** What the typed helpers extract from a plain scalar. */
  lemma PlainExtraction(lib: Library, s: string)
    ensures var node := ScalarNode(s, false);
      && (AsBool(lib, node) == Some(true) <==> s in {"true", "True", "TRUE"})
      && (AsBool(lib, node) == Some(false) <==> s in {"false", "False", "FALSE"})
      && (AsString(lib, node).Some? ==> AsString(lib, node) == Some(s))
      && (DenotesInteger(s) ==> AsInt64(lib, node).Some? && AsString(lib, node).None? && AsBool(lib, node).None?)
  {
    hide ResolvePlain, DenotesInteger;
    IntegerDenoted(lib, s);
    WordsResolve(lib, s);
    StringOtherwise(lib, s);
  }

  /** A signed literal past the integers is extracted with its sign. */
  lemma FloatExtraction(lib: Library, sign: string, a: string, x: string, v: real)
    requires IsSign(sign) && MantissaPattern(a) && ExponentPattern(x) && PastIntegers(sign, a + x)
    requires lib.fromChars(a + x) == Parsed(v)
    ensures AsDouble(lib, ScalarNode(sign + (a + x), false)) == Some(Finite(if sign == "-" then -v else v))
  {
    hide MantissaPattern, ExponentPattern, PastIntegers, ResolvePlain;
    FloatTextResolves(lib, sign, a, x);
  }
}
