/**
 A model of the two numeric conversions the adsorption-time command relies on,
 `std::stoi` (a base-10 `strtol` whose result must fit an `int`) and `std::stof`
 (a decimal `strtof`), together with the decimal rendering of integers used to
 state their round trips.

 Both conversions skip leading white space, read an optional sign and then the
 longest prefix that forms a number; whatever follows that prefix is ignored.
 When no number can be read they fail with `InvalidArgument`, and `ParseInt`
 fails with `OutOfRange` when the value does not fit a 32-bit `int`.
 */
module Conversions {

  /** The two exceptions the C++ conversions throw. */
  datatype ConversionError = InvalidArgument | OutOfRange

  datatype Result<T> = Ok(value: T) | Err(error: ConversionError)

  /** Bounds of a 32-bit `int`. */
  const IntMin: int := -0x8000_0000
  const IntMax: int := 0x7FFF_FFFF

  /** `isspace` in the "C" locale: blank, \t, \n, \v, \f, \r. */
  predicate IsSpace(c: char) {
    c == ' ' || '\t' <= c <= '\r'
  }

  predicate IsDigit(c: char) {
    '0' <= c <= '9'
  }

  predicate AllDigits(s: string) {
    forall k :: 0 <= k < |s| ==> IsDigit(s[k])
  }

  function DigitValue(c: char): nat
    requires IsDigit(c)
  {
    (c as int) - ('0' as int)
  }

  function DigitChar(d: nat): (c: char)
    requires d < 10
    ensures IsDigit(c) && DigitValue(c) == d
  {
    (('0' as int) + d) as char
  }

  /** The first position at or after `i` that does not hold white space. */
  function SkipSpaces(s: string, i: nat): (j: nat)
    requires i <= |s|
    ensures i <= j <= |s|
    ensures forall k :: i <= k < j ==> IsSpace(s[k])
    ensures j < |s| ==> !IsSpace(s[j])
    decreases |s| - i
  {
    if i < |s| && IsSpace(s[i]) then SkipSpaces(s, i + 1) else i
  }

  /** The end of the longest run of digits that starts at `i`. */
  function DigitsEnd(s: string, i: nat): (j: nat)
    requires i <= |s|
    ensures i <= j <= |s|
    ensures AllDigits(s[i..j])
    ensures j < |s| ==> !IsDigit(s[j])
    decreases |s| - i
  {
    if i < |s| && IsDigit(s[i]) then DigitsEnd(s, i + 1) else i
  }

  /** The position after an optional '+' or '-' at `i`. */
  function SignEnd(s: string, i: nat): nat
    requires i <= |s|
  {
    if i < |s| && (s[i] == '+' || s[i] == '-') then i + 1 else i
  }

  /** The value of a string of decimal digits, most significant first. */
  function DigitsValue(ds: string): nat
    requires AllDigits(ds)
  {
    if ds == [] then 0 else DigitsValue(ds[..|ds| - 1]) * 10 + DigitValue(ds[|ds| - 1])
  }

  /** `m` times ten to the power `e`, for an exponent of either sign. */
  function ScaleBy10(m: real, e: int): real
    decreases if e < 0 then -e else e
  {
    if e == 0 then m
    else if e > 0 then ScaleBy10(m, e - 1) * 10.0
    else ScaleBy10(m, e + 1) / 10.0
  }

  /** Model of `std::stoi(s)`. */
  function ParseInt(s: string): (r: Result<int>)
    ensures r.Ok? ==> IntMin <= r.value <= IntMax
  {
    var i := SkipSpaces(s, 0);
    var j := SignEnd(s, i);
    var k := DigitsEnd(s, j);
    if k == j then Err(InvalidArgument)
    else
      var n: int := DigitsValue(s[j..k]);
      var v := if j > i && s[i] == '-' then -n else n;
      if IntMin <= v <= IntMax then Ok(v) else Err(OutOfRange)
  }

  /**
   The exponent written at the start of `t`: an 'e' or 'E', an optional sign
   and at least one digit. It is 0 when there is none, in which case the 'e' is
   left unread like any other trailing character.
   */
  function Exponent(t: string): int {
    if t != [] && (t[0] == 'e' || t[0] == 'E') then
      var j := SignEnd(t, 1);
      var k := DigitsEnd(t, j);
      if k == j then 0
      else
        var n: int := DigitsValue(t[j..k]);
        if j > 1 && t[1] == '-' then -n else n
    else 0
  }

  /**
   The unsigned decimal number written from `j` on: an integer part, an optional
   fraction after '.', at least one digit in the two together, and an optional
   exponent. The value is kept exact.
   */
  function UnsignedDecimal(s: string, j: nat): (r: Result<real>)
    requires j <= |s|
    ensures r.Err? ==> r.error == InvalidArgument
  {
    var k := DigitsEnd(s, j);
    var fracStart := if k < |s| && s[k] == '.' then k + 1 else k;
    var fracEnd := DigitsEnd(s, fracStart);
    if k == j && fracEnd == fracStart then Err(InvalidArgument)
    else
      var mantissa := DigitsValue(s[j..k]) as real + FractionValue(s[fracStart..fracEnd]);
      Ok(ScaleBy10(mantissa, Exponent(s[fracEnd..])))
  }

  /** The value of the digits written after a decimal point: one power of ten down per digit. */
  function FractionValue(ds: string): (r: real)
    requires AllDigits(ds)
    ensures ds == [] ==> r == 0.0
  {
    ScaleBy10(DigitsValue(ds) as real, -|ds|)
  }

  /** Model of `std::stof(s)` on decimal input: white space, an optional sign, a decimal number. */
  function ParseFloat(s: string): (r: Result<real>)
    ensures r.Err? ==> r.error == InvalidArgument
  {
    var i := SkipSpaces(s, 0);
    var j := SignEnd(s, i);
    match UnsignedDecimal(s, j)
    case Err(e) => Err(e)
    case Ok(m) => Ok(if j > i && s[i] == '-' then -m else m)
  }

  /** The decimal rendering of a natural number, without leading zeros. */
  function NatToString(n: nat): (s: string)
    ensures |s| > 0 && AllDigits(s)
    ensures s[0] != '0' || n == 0
  {
    if n < 10 then [DigitChar(n)] else NatToString(n / 10) + [DigitChar(n % 10)]
  }

  function IntToString(i: int): string {
    if i < 0 then "-" + NatToString(-i) else NatToString(i)
  }

  lemma {:induction false} NatToStringValue(n: nat)
    ensures DigitsValue(NatToString(n)) == n
  {
    var s := NatToString(n);
    if n >= 10 {
      assert s[..|s| - 1] == NatToString(n / 10);
      NatToStringValue(n / 10);
    }
  }

  /** A run of digits that fills the rest of the string is read to its end. */
  lemma DigitsToEnd(s: string, i: nat)
    requires i <= |s| && AllDigits(s[i..])
    ensures DigitsEnd(s, i) == |s|
  {
  }

  /**
   `stoi` on the rendering of any integer reads its digits to the end: it gives
   back the integer when it fits an `int`, and fails with `OutOfRange` otherwise.
   */
  lemma ParseIntReadsRendering(i: int)
    ensures ParseInt(IntToString(i)) == if IntMin <= i <= IntMax then Ok(i) else Err(OutOfRange)
  {
    var s := IntToString(i);
    var digits := NatToString(if i < 0 then -i else i);
    var start := if i < 0 then 1 else 0;
    assert s[start..] == digits;
    assert SkipSpaces(s, 0) == 0 by {
      assert !IsSpace(s[0]);
    }
    assert SignEnd(s, 0) == start;
    DigitsToEnd(s, start);
    assert s[start..|s|] == digits;
    NatToStringValue(if i < 0 then -i else i);
    assert DigitsValue(s[start..|s|]) == if i < 0 then -i else i;
  }

  /** `stoi` reads back every `int` that `IntToString` renders. */
  lemma ParseIntRoundTrip(i: int)
    requires IntMin <= i <= IntMax
    ensures ParseInt(IntToString(i)) == Ok(i)
  {
    ParseIntReadsRendering(i);
  }

  /** `stoi` throws `out_of_range` on a well-formed number that does not fit an `int`. */
  lemma ParseIntOutOfRange(i: int)
    requires i < IntMin || i > IntMax
    ensures ParseInt(IntToString(i)) == Err(OutOfRange)
  {
    ParseIntReadsRendering(i);
  }

  /** `stoi` throws `invalid_argument` on a string without any digit. */
  lemma ParseIntNoDigits(s: string)
    requires forall k :: 0 <= k < |s| ==> !IsDigit(s[k])
    ensures ParseInt(s) == Err(InvalidArgument)
  {
  }

  /**
   A run of digits from `i` to `j` that is followed by a non-digit or by the end
   is read to exactly `j`.
   */
  lemma {:induction false} DigitsUpTo(s: string, i: nat, j: nat)
    requires i <= j <= |s| && AllDigits(s[i..j])
    requires j < |s| ==> !IsDigit(s[j])
    ensures DigitsEnd(s, i) == j
    decreases j - i
  {
    if i < j {
      assert s[i..j][0] == s[i];
      assert s[i + 1..j] == s[i..j][1..];
      DigitsUpTo(s, i + 1, j);
    }
  }

  /** `stof` throws `invalid_argument` on a string without any digit. */
  lemma ParseFloatNoDigits(s: string)
    requires forall k :: 0 <= k < |s| ==> !IsDigit(s[k])
    ensures ParseFloat(s) == Err(InvalidArgument)
  {
  }

  /** `stof` reads a string of digits as the natural number it renders. */
  lemma ParseFloatOfNat(n: nat)
    ensures ParseFloat(NatToString(n)) == Ok(n as real)
  {
    var s := NatToString(n);
    assert SkipSpaces(s, 0) == 0 by {
      assert !IsSpace(s[0]);
    }
    assert SignEnd(s, 0) == 0;
    assert s[0..] == s;
    DigitsToEnd(s, 0);
    assert s[0..|s|] == s;
    NatToStringValue(n);
    assert DigitsValue(s[|s|..|s|]) == 0 by {
      assert s[|s|..|s|] == [];
    }
  }

  /** `stof` reads the decimal rendering of any integer, sign included, as that integer. */
  lemma ParseFloatOfInt(i: int)
    ensures ParseFloat(IntToString(i)) == Ok(i as real)
  {
    var s := IntToString(i);
    var n: nat := if i < 0 then -i else i;
    var digits := NatToString(n);
    var start := if i < 0 then 1 else 0;
    assert s[start..] == digits;
    assert SkipSpaces(s, 0) == 0 by {
      assert !IsSpace(s[0]);
    }
    assert SignEnd(s, 0) == start;
    DigitsToEnd(s, start);
    assert s[start..|s|] == digits;
    NatToStringValue(n);
    assert DigitsValue(s[|s|..|s|]) == 0 by {
      assert s[|s|..|s|] == [];
    }
    assert s[|s|..] == [];
  }

  /**
   `stof` reads "a.b" as a plus b scaled down by one power of ten per digit of
   b: the fraction digits are read as decimals.
   */
  lemma ParseFloatOfDecimal(a: nat, b: nat, s: string)
    requires s == NatToString(a) + "." + NatToString(b)
    ensures ParseFloat(s) == Ok(a as real + ScaleBy10(b as real, -|NatToString(b)|))
  {
    DecimalFields(a, b);
    ParseFloatFraction(s, |NatToString(a)|, a, b, |NatToString(b)|);
  }

  /**
   A string whose digits up to `k` are worth `a`, followed by '.' and `len`
   digits worth `b` up to the end, reads as a plus b times ten to the power -len.
   */
  lemma ParseFloatFraction(s: string, k: nat, a: nat, b: nat, len: nat)
    requires SkipSpaces(s, 0) == 0 && SignEnd(s, 0) == 0
    requires DigitsEnd(s, 0) == k && 0 < k < |s| && s[k] == '.'
    requires DigitsEnd(s, k + 1) == |s| && |s| - (k + 1) == len
    requires DigitsValue(s[0..k]) == a && DigitsValue(s[k + 1..|s|]) == b
    ensures ParseFloat(s) == Ok(a as real + ScaleBy10(b as real, -(len as int)))
  {
    assert s[|s|..] == [];
  }

  /** Where the fields of "a.b" start and end, and what their digits are worth. */
  lemma DecimalFields(a: nat, b: nat)
    ensures var s := NatToString(a) + "." + NatToString(b);
      var k := |NatToString(a)|;
      && SkipSpaces(s, 0) == 0 && SignEnd(s, 0) == 0
      && DigitsEnd(s, 0) == k && k < |s| && s[k] == '.'
      && DigitsEnd(s, k + 1) == |s|
      && DigitsValue(s[0..k]) == a
      && DigitsValue(s[k + 1..|s|]) == b && |s| - (k + 1) == |NatToString(b)|
  {
    var da, db := NatToString(a), NatToString(b);
    var s := da + "." + db;
    var k := |da|;
    assert s[0] == da[0];
    assert SkipSpaces(s, 0) == 0 by {
      assert !IsSpace(s[0]);
    }
    assert s[0..k] == da;
    assert s[k] == '.';
    DigitsUpTo(s, 0, k);
    assert s[k + 1..] == db;
    DigitsToEnd(s, k + 1);
    assert s[k + 1..|s|] == db;
    NatToStringValue(a);
    NatToStringValue(b);
  }

  /** `stof` reads "aEe" as a times ten to the power e, for an exponent of either sign. */
  lemma ParseFloatOfExponent(a: nat, e: int)
    ensures ParseFloat(NatToString(a) + "e" + IntToString(e)) == Ok(ScaleBy10(a as real, e))
  {
    var s := NatToString(a) + "e" + IntToString(e);
    var k := |NatToString(a)|;
    MantissaFields(a, e);
    ExponentField(a, e);
    ParseFloatScaled(s, k, a, e);
  }

  /** The exponent of "aEe", read from the 'e' on, is e. */
  lemma ExponentField(a: nat, e: int)
    ensures var s := NatToString(a) + "e" + IntToString(e);
      Exponent(s[|NatToString(a)|..]) == e
  {
    var s := NatToString(a) + "e" + IntToString(e);
    assert s[|NatToString(a)|..] == "e" + IntToString(e);
    ExponentOfRendering(e);
  }

  /**
   A string whose digits up to `k` are worth `a` and whose exponent starting at
   `k` is `e` reads as a times ten to the power e.
   */
  lemma ParseFloatScaled(s: string, k: nat, a: nat, e: int)
    requires SkipSpaces(s, 0) == 0 && SignEnd(s, 0) == 0
    requires DigitsEnd(s, 0) == k && 0 < k < |s| && s[k] == 'e' && DigitsEnd(s, k) == k
    requires DigitsValue(s[0..k]) == a
    requires Exponent(s[k..]) == e
    ensures ParseFloat(s) == Ok(ScaleBy10(a as real, e))
  {
    assert s[k..k] == [];
  }

  /** The mantissa of "aEe" is the digits of a, stopped by the 'e'. */
  lemma MantissaFields(a: nat, e: int)
    ensures var s := NatToString(a) + "e" + IntToString(e);
      var k := |NatToString(a)|;
      && SkipSpaces(s, 0) == 0 && SignEnd(s, 0) == 0
      && DigitsEnd(s, 0) == k && k < |s| && s[k] == 'e' && DigitsEnd(s, k) == k
      && DigitsValue(s[0..k]) == a
  {
    var da := NatToString(a);
    var s := da + "e" + IntToString(e);
    var k := |da|;
    assert s[0] == da[0];
    assert SkipSpaces(s, 0) == 0 by {
      assert !IsSpace(s[0]);
    }
    assert s[0..k] == da;
    assert s[k] == 'e';
    DigitsUpTo(s, 0, k);
    NatToStringValue(a);
  }

  /** An 'e' followed by the rendering of e is read as the exponent e. */
  lemma ExponentOfRendering(e: int)
    ensures Exponent("e" + IntToString(e)) == e
  {
    var t := "e" + IntToString(e);
    var n: nat := if e < 0 then -e else e;
    var start := if e < 0 then 2 else 1;
    var digits := NatToString(n);
    assert t[1..] == IntToString(e);
    assert SignEnd(t, 1) == start;
    assert t[start..] == digits by {
      if e < 0 {
        assert t[1..] == "-" + digits;
        assert t[2..] == t[1..][1..];
      }
    }
    DigitsToEnd(t, start);
    assert t[start..|t|] == digits;
    NatToStringValue(n);
  }
}
