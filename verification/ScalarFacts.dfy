/** What the resolver promises: exact integers, and one meaning for I2C addresses. */
module ScalarFacts {
  import opened Base
  import opened Scalars

  /**
   A decimal text resolves to the integer it denotes exactly when that integer
   fits int64, and to no integer otherwise.
   */
  lemma DecimalTextResolves(lib: Library, s: string)
    requires IsIntDec(s)
    ensures ResolvePlain(lib, s).RInt? <==> IsInt64(DecimalValue(s))
    ensures IsInt64(DecimalValue(s)) ==> ResolvePlain(lib, s) == RInt(DecimalValue(s))
  {
    DecimalTextIsNoWord(s);
    DecimalTextParses(s);
    DecimalTextHasNoPrefix(s);
  }

  lemma DecimalTextIsNoWord(s: string)
    requires IsIntDec(s)
    ensures !IsCoreNull(s) && CoreBool(s).None?
  {
    var digits := StripSign(s);
    assert IsDigit(digits[0]);
    assert s[0] in {'+', '-'} || IsDigit(s[0]);
  }

  lemma DecimalTextHasNoPrefix(s: string)
    requires IsIntDec(s)
    ensures !IsIntHex(s) && !IsIntOct(s)
  {
    if |s| > 2 {
      var digits := StripSign(s);
      assert IsDigit(digits[0]) && IsDigit(digits[1]);
      assert IsDigit(s[1]);
      assert s[..2][1] == s[1];
    }
  }

  lemma DecimalTextParses(s: string)
    requires IsIntDec(s)
    ensures ParseInt(s, 10, 0) == if IsInt64(DecimalValue(s)) then Some(DecimalValue(s)) else None
  {
    var digits := StripSign(s);
    assert IsDigit(digits[0]);
    assert forall i | 0 <= i < |digits| :: IsDigit(digits[i]) && DigitOf(digits[i]) < 10;
    assert s[0..] == s;
  }

  /** Printing an int64 and resolving the text gives the integer back, INT64_MIN included. */
  lemma PrintedIntegerResolves(lib: Library, n: int)
    requires IsInt64(n)
    ensures ResolvePlain(lib, ToText(n)) == RInt(n)
  {
    var a := if n < 0 then -n else n;
    DigitsRoundTrip(a);
    var s := ToText(n);
    if n < 0 {
      assert s[1..] == ToDigits(a);
    } else {
      assert IsDigit(s[0]);
    }
    DecimalTextResolves(lib, s);
  }

  /** A hexadecimal text resolves to the integer its digits denote exactly when that fits int64. */
  lemma HexTextResolves(lib: Library, s: string)
    requires IsIntHex(s)
    ensures ResolvePlain(lib, s).RInt? <==> IsInt64(DigitsValue(s[2..], 16))
    ensures IsInt64(DigitsValue(s[2..], 16)) ==> ResolvePlain(lib, s) == RInt(DigitsValue(s[2..], 16))
  {
    PrefixedIsNoWord(s);
    PrefixedParses(s, 16);
    assert s[..2][1] == 'x';
  }

  /** The same for octal texts. */
  lemma OctTextResolves(lib: Library, s: string)
    requires IsIntOct(s)
    ensures ResolvePlain(lib, s).RInt? <==> IsInt64(DigitsValue(s[2..], 8))
    ensures IsInt64(DigitsValue(s[2..], 8)) ==> ResolvePlain(lib, s) == RInt(DigitsValue(s[2..], 8))
  {
    PrefixedIsNoWord(s);
    PrefixedParses(s, 8);
    assert s[..2][1] == 'o';
  }

  lemma PrefixedIsNoWord(s: string)
    requires IsIntHex(s) || IsIntOct(s)
    ensures !IsCoreNull(s) && CoreBool(s).None? && !IsIntDec(s)
  {
    assert s[0] == s[..2][0] == '0' && s[1] == s[..2][1];
    assert StripSign(s) == s && !IsDigit(s[1]);
  }

  lemma PrefixedParses(s: string, base: nat)
    requires (base == 16 && IsIntHex(s)) || (base == 8 && IsIntOct(s))
    ensures ParseInt(s, base, 2) ==
      if IsInt64(DigitsValue(s[2..], base)) then Some(DigitsValue(s[2..], base)) else None
  {
    assert s[0] == s[..2][0] == '0';
    var digits := s[2..];
    forall i | 0 <= i < |digits| ensures DigitOf(digits[i]) < base && digits[i] != '-' {
      assert digits[i] == s[i + 2];
    }
  }

  /** The built-in address pattern is exactly the two-digit hex texts in the addressable range. */
  lemma HexFormIsRange(s: string)
    ensures I2cHexForm(s) <==>
      && |s| == 4 && s[0] == '0' && (s[1] == 'x' || s[1] == 'X')
      && IsHexDigit(s[2]) && IsHexDigit(s[3])
      && I2C_MIN <= DigitsValue(s[2..], 16) <= I2C_MAX
  {
    if |s| == 4 {
      HexPairValue(s);
    }
  }

  lemma HexPairValue(s: string)
    requires |s| == 4
    ensures DigitsValue(s[2..], 16) == 16 * DigitOf(s[2]) + DigitOf(s[3])
  {
    var t := s[2..];
    assert t[..1] == [s[2]] && t[..1][..0] == [];
    assert DigitsValue(t[..1], 16) == DigitOf(s[2]);
  }

  /** Every text of the address pattern is parsed to the number its two digits denote. */
  lemma HexTextParses(s: string)
    requires I2cHexForm(s)
    ensures I2cAddressOf(RString(s)) == Some(DigitsValue(s[2..], 16))
    ensures I2C_MIN <= DigitsValue(s[2..], 16) <= I2C_MAX
  {
    HexFormIsRange(s);
    HexPairValue(s);
    var t := s[2..];
    assert t[0] == s[2] && t[1] == s[3];
  }

  // ---- integers that are doubles -----------------------------------------------------------

  function PowerOfTwo(k: nat): (p: nat)
    ensures p >= 1
  {
    if k == 0 then 1 else 2 * PowerOfTwo(k - 1)
  }

  /** `x` with a 53-bit significand `m` and the exponent `k`. */
  predicate Scaled(x: int, m: int, k: nat) {
    -0x20_0000_0000_0000 <= m <= 0x20_0000_0000_0000 && x == m * PowerOfTwo(k)
  }

  /** The integers IEEE 754 binary64 holds exactly, its largest exponent aside. */
  ghost predicate IsDouble(x: int) {
    exists m: int, k: nat :: Scaled(x, m, k)
  }

  function Abs(x: int): nat {
    if x < 0 then -x else x
  }

  lemma SpacingLaw(a: nat, step: nat)
    requires step > 0
    ensures a < 0x20_0000_0000_0000 * Spacing(a, step)
    ensures step == Spacing(a, step) || 0x10_0000_0000_0000 * Spacing(a, step) <= a
    decreases a - step
  {
    if a >= 0x20_0000_0000_0000 * step {
      SpacingLaw(a, 2 * step);
    }
  }

  lemma {:induction false} SpacingIsPower(a: nat, k: nat) returns (s: nat)
    ensures Spacing(a, PowerOfTwo(k)) == PowerOfTwo(s)
    decreases a - PowerOfTwo(k)
  {
    if a < 0x20_0000_0000_0000 * PowerOfTwo(k) {
      s := k;
    } else {
      s := SpacingIsPower(a, k + 1);
    }
  }

  lemma {:induction false} PowersMultiply(k: nat, s: nat)
    requires s <= k
    ensures PowerOfTwo(k) == PowerOfTwo(k - s) * PowerOfTwo(s)
  {
    if s > 0 {
      PowersMultiply(k - 1, s - 1);
      assert PowerOfTwo(k) == 2 * (PowerOfTwo(k - s) * PowerOfTwo(s - 1));
    }
  }

  lemma {:induction false} PowersGrow(k: nat, s: nat)
    requires k < s
    ensures 2 * PowerOfTwo(k) <= PowerOfTwo(s)
  {
    if k + 1 < s { PowersGrow(k, s - 1); }
  }

  lemma Products(a: int, b: int, step: nat)
    requires a <= b
    ensures a * step <= b * step
  {
  }

  /** No multiple of the spacing is nearer than the rounded one. */
  lemma NearestMultiple(a: nat, step: nat, j: int)
    requires step > 0
    ensures Abs(RoundHalfEven(a, step) - a) <= Abs(j * step - a)
  {
    var q, r := a / step, a % step;
    assert a == q * step + r;
    assert (q + 1) * step == q * step + step;
    if j <= q { Products(j, q, step); } else { Products(q + 1, j, step); }
  }

  lemma RoundedIsMultiple(a: nat, step: nat) returns (q: nat)
    requires step > 0 && a < 0x20_0000_0000_0000 * step
    ensures RoundHalfEven(a, step) == q * step && q <= 0x20_0000_0000_0000
  {
    q := a / step;
    assert a == q * step + a % step;
    if q >= 0x20_0000_0000_0000 { Products(0x20_0000_0000_0000, q, step); }
    if RoundHalfEven(a, step) != q * step { q := q + 1; }
  }

  /** What a conversion yields is a double. */
  lemma ConversionIsDouble(n: int)
    ensures IsDouble(DoubleOfInt(n))
  {
    var a := Abs(n);
    var s := SpacingIsPower(a, 0);
    SpacingLaw(a, 1);
    var q := RoundedIsMultiple(a, Spacing(a, 1));
    var m: int := if n < 0 then -(q as int) else q;
    assert Scaled(DoubleOfInt(n), m, s);
  }

  /** A double on a coarser or equal grid is a multiple of the spacing; on a finer one it is too small. */
  lemma OnGridOrSmall(x: int, m: int, k: nat, s: nat) returns (j: int)
    requires Scaled(x, m, k)
    ensures x == j * PowerOfTwo(s) || (j == 0x10_0000_0000_0000 && s > 0 && x <= j * PowerOfTwo(s))
  {
    if s <= k {
      PowersMultiply(k, s);
      j := m * PowerOfTwo(k - s);
      Associate(m, PowerOfTwo(k - s), PowerOfTwo(s));
    } else {
      PowersGrow(k, s);
      j := 0x10_0000_0000_0000;
      Products(m, 0x20_0000_0000_0000, PowerOfTwo(k));
    }
  }

  lemma Associate(a: int, b: int, c: int)
    ensures a * (b * c) == (a * b) * c
  {
  }

  lemma NearestFromAbove(a: nat, x: int, m: int, k: nat)
    requires Scaled(x, m, k)
    ensures Abs(RoundHalfEven(a, Spacing(a, 1)) - a) <= Abs(x - a)
  {
    hide RoundHalfEven, Scaled, PowerOfTwo, Spacing;
    var s := SpacingOne(a);
    SpacingLaw(a, 1);
    var j := OnGridOrSmall(x, m, k, s);
    NearestMultiple(a, PowerOfTwo(s), j);
    if x != j * PowerOfTwo(s) { PowersGrow(0, s); FirstPower(); }
  }

  lemma FirstPower()
    ensures PowerOfTwo(0) == 1
  {
  }

  lemma SpacingOne(a: nat) returns (s: nat)
    ensures Spacing(a, 1) == PowerOfTwo(s)
  {
    s := SpacingIsPower(a, 0);
  }

  /** No double is nearer to an integer than its conversion. */
  lemma ConversionIsNearest(n: int, x: int)
    requires IsDouble(x)
    ensures Abs(DoubleOfInt(n) - n) <= Abs(x - n)
  {
    hide RoundHalfEven, Spacing;
    var m, k :| Scaled(x, m, k);
    if n >= 0 {
      NearestFromAbove(n, x, m, k);
    } else {
      assert -x == (-m) * PowerOfTwo(k);
      NearestFromAbove(-n, -x, -m, k);
    }
  }

  /** The conversion leaves an integer alone exactly when it is a double. */
  lemma ExactIffDouble(n: int)
    ensures DoubleOfInt(n) == n <==> IsDouble(n)
  {
    hide DoubleOfInt;
    ConversionIsDouble(n);
    if IsDouble(n) { ConversionIsNearest(n, n); }
  }

  /** Integers up to 2^53 are doubles, and the next one is not. */
  lemma SmallIntegersExact(n: int)
    ensures Abs(n) <= 0x20_0000_0000_0000 ==> IsDouble(n)
    ensures Abs(n) == 0x20_0000_0000_0001 ==> !IsDouble(n)
  {
    if Abs(n) <= 0x20_0000_0000_0000 {
      assert Scaled(n, n, 0);
    } else if Abs(n) == 0x20_0000_0000_0001 {
      assert Spacing(0x20_0000_0000_0001, 2) == 2;
      ExactIffDouble(n);
    }
  }
}
