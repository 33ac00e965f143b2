/**
 * `parseInt(s)` (no radix argument) and the "not NaN" outcome of
 * `parseFloat(s)`, following the ECMAScript algorithms on strings.
 */
module JsNumbers {
  import opened JsStrings

  /** A JavaScript number as `parseInt` can produce it: NaN or an integer. */
  datatype JsInt = NaN | Int(value: int)

  predicate IsDecimalDigit(c: char)
  {
    '0' <= c <= '9'
  }

  predicate IsHexDigit(c: char)
  {
    IsDecimalDigit(c) || 'a' <= c <= 'f' || 'A' <= c <= 'F'
  }

  /** A digit of radix 16 when `hex` holds, of radix 10 otherwise. */
  predicate IsRadixDigit(c: char, hex: bool)
  {
    if hex then IsHexDigit(c) else IsDecimalDigit(c)
  }

  function DigitValue(c: char): (d: nat)
    requires IsHexDigit(c)
    ensures d < 16 && (IsDecimalDigit(c) ==> d < 10)
  {
    if IsDecimalDigit(c) then (c as int) - ('0' as int)
    else if 'a' <= c <= 'f' then (c as int) - ('a' as int) + 10
    else (c as int) - ('A' as int) + 10
  }

  /** The longest prefix made of digits of the radix. */
  function DigitPrefix(s: string, hex: bool): (z: string)
    ensures |z| <= |s| && z == s[..|z|]
    ensures forall i :: 0 <= i < |z| ==> IsRadixDigit(z[i], hex)
    ensures |z| == |s| || !IsRadixDigit(s[|z|], hex)
  {
    if s != [] && IsRadixDigit(s[0], hex) then [s[0]] + DigitPrefix(s[1..], hex) else []
  }

  /** The value of a digit string, most significant digit first. */
  function DigitsValue(z: string, hex: bool): nat
    requires forall i :: 0 <= i < |z| ==> IsRadixDigit(z[i], hex)
  {
    if z == [] then 0
    else
      assert IsRadixDigit(z[|z| - 1], hex);
      DigitsValue(z[..|z| - 1], hex) * (if hex then 16 else 10) + DigitValue(z[|z| - 1])
  }

  /**
   * `parseInt(s)`: skip leading whitespace, take an optional sign, then read
   * the digits. (A negative zero is the integer 0 here.)
   */
  function ParseInt(s: string): JsInt
  {
    ParseSigned(TrimStart(s))
  }

  /** The steps of `parseInt` after the whitespace: an optional sign, then the unsigned part. */
  function ParseSigned(t: string): JsInt
  {
    if t != [] && t[0] == '-' then Negate(ParseUnsigned(t[1..]))
    else if t != [] && t[0] == '+' then ParseUnsigned(t[1..])
    else ParseUnsigned(t)
  }

  function Negate(x: JsInt): JsInt
  {
    match x
    case NaN => NaN
    case Int(v) => Int(-v)
  }

  /**
   * The unsigned part of `parseInt`: radix 16 after a `0x`/`0X` prefix,
   * radix 10 otherwise; the longest digit prefix, NaN when it is empty.
   */
  function ParseUnsigned(u: string): JsInt
  {
    var hex := |u| >= 2 && u[0] == '0' && (u[1] == 'x' || u[1] == 'X');
    var z := DigitPrefix(if hex then u[2..] else u, hex);
    if z == [] then NaN else Int(DigitsValue(z, hex))
  }

  /** The decimal numeral of a natural number, without leading zeros. */
  function NatToDecimal(n: nat): (s: string)
    ensures |s| >= 1
    ensures forall i :: 0 <= i < |s| ==> IsDecimalDigit(s[i])
    ensures s[0] == '0' ==> n == 0
  {
    var last := ['0' + (n % 10) as char];
    if n < 10 then last else NatToDecimal(n / 10) + last
  }

  /** Reading back the numeral of `n` gives `n`. */
  lemma {:induction false} DecimalValueRoundTrip(n: nat)
    ensures DigitsValue(NatToDecimal(n), false) == n
  {
    var s := NatToDecimal(n);
    if n >= 10 {
      DecimalValueRoundTrip(n / 10);
      assert s[..|s| - 1] == NatToDecimal(n / 10);
    }
  }

  /** The value of an optionally signed decimal digit string: negated after `-`. */
  function SignedValue(sign: string, d: string): (v: int)
    requires forall i :: 0 <= i < |d| ==> IsDecimalDigit(d[i])
    ensures sign == "-" ==> v <= 0
    ensures sign != "-" ==> v >= 0
  {
    if sign == "-" then -(DigitsValue(d, false) as int) else DigitsValue(d, false)
  }

  /**
   * `parseInt` of leading whitespace, an optional sign, decimal digits (leading
   * zeros allowed) and any text that does not continue them (no further
   * digit, and no `x`/`X` making a lone `0` a hexadecimal prefix) is the
   * signed value of the digits.
   */
  lemma ParseIntDigits(lead: string, sign: string, d: string, rest: string)
    requires AllWhitespace(lead)
    requires sign == "" || sign == "+" || sign == "-"
    requires d != [] && forall i :: 0 <= i < |d| ==> IsDecimalDigit(d[i])
    requires rest == [] || (!IsDecimalDigit(rest[0]) && (d == "0" ==> rest[0] != 'x' && rest[0] != 'X'))
    ensures ParseInt(lead + sign + d + rest) == Int(SignedValue(sign, d))
  {
    var t := sign + d + rest;
    SignedDigits(sign, d, rest);
    TrimStartWhitespacePrefix(lead, t);
    ConcatAssociates(lead, sign, d, rest);
  }

  lemma ConcatAssociates(a: string, b: string, c: string, e: string)
    ensures a + b + c + e == a + (b + c + e)
  {
  }

  /** The sign-and-digits step of `parseInt`, on text that starts with no whitespace. */
  lemma SignedDigits(sign: string, d: string, rest: string)
    requires sign == "" || sign == "+" || sign == "-"
    requires d != [] && forall i :: 0 <= i < |d| ==> IsDecimalDigit(d[i])
    requires rest == [] || (!IsDecimalDigit(rest[0]) && (d == "0" ==> rest[0] != 'x' && rest[0] != 'X'))
    ensures var t := sign + d + rest; t != [] && !IsJsWhitespace(t[0])
    ensures ParseSigned(sign + d + rest) == Int(SignedValue(sign, d))
  {
    ParseUnsignedDigits(d, rest);
    if sign == "" {
      UnsignedStart(d, rest);
    } else {
      SignStart(sign, d + rest);
      assert sign + d + rest == sign + (d + rest);
    }
  }

  lemma UnsignedStart(d: string, rest: string)
    requires d != [] && IsDecimalDigit(d[0])
    ensures var t := "" + d + rest; t != [] && !IsJsWhitespace(t[0]) && ParseSigned(t) == ParseUnsigned(d + rest)
  {
    assert "" + d + rest == d + rest;
    assert (d + rest)[0] == d[0];
  }

  lemma SignStart(sign: string, u: string)
    requires sign == "+" || sign == "-"
    ensures var t := sign + u; !IsJsWhitespace(t[0])
    ensures ParseSigned(sign + u) == if sign == "-" then Negate(ParseUnsigned(u)) else ParseUnsigned(u)
  {
    assert (sign + u)[1..] == u;
  }

  /** Decimal digits not followed by another digit (nor by `x`/`X` after a lone `0`) are read in radix 10. */
  lemma ParseUnsignedDigits(d: string, rest: string)
    requires d != [] && forall i :: 0 <= i < |d| ==> IsDecimalDigit(d[i])
    requires rest == [] || (!IsDecimalDigit(rest[0]) && (d == "0" ==> rest[0] != 'x' && rest[0] != 'X'))
    ensures ParseUnsigned(d + rest) == Int(DigitsValue(d, false))
  {
    var s := d + rest;
    assert !(|s| >= 2 && s[0] == '0' && (s[1] == 'x' || s[1] == 'X')) by {
      if |s| >= 2 && s[0] == '0' {
        if |d| >= 2 {
          assert s[1] == d[1] && IsDecimalDigit(d[1]);
        } else {
          assert d == "0";
          assert s[1] == rest[0];
        }
      }
    }
    DigitPrefixOfNumeral(d, rest);
  }

  /**
   * `parseInt` reads the leading numeral of a natural number, whatever
   * text follows that does not continue it.
   */
  lemma ParseIntNumeral(n: nat, rest: string)
    requires rest == [] || (!IsDecimalDigit(rest[0]) && (n == 0 ==> rest[0] != 'x' && rest[0] != 'X'))
    ensures ParseInt(NatToDecimal(n) + rest) == Int(n)
  {
    var s := NatToDecimal(n) + rest;
    assert TrimStart(s) == s;
    ParseUnsignedNumeral(n, rest);
  }

  /** A minus sign in front of a numeral negates the result. */
  lemma ParseIntNegative(n: nat)
    ensures ParseInt("-" + NatToDecimal(n)) == Int(-(n as int))
  {
    var d := NatToDecimal(n);
    var s := "-" + d;
    assert s[0] == '-' && !IsJsWhitespace(s[0]);
    assert TrimStart(s) == s;
    assert s[1..] == d + [];
    ParseUnsignedNumeral(n, []);
    assert ParseUnsigned(s[1..]) == Int(n);
  }

  lemma ParseUnsignedNumeral(n: nat, rest: string)
    requires rest == [] || (!IsDecimalDigit(rest[0]) && (n == 0 ==> rest[0] != 'x' && rest[0] != 'X'))
    ensures ParseUnsigned(NatToDecimal(n) + rest) == Int(n)
  {
    var d := NatToDecimal(n);
    assert d == "0" ==> n == 0 by {
      if d == "0" {
        assert d[0] == '0';
      }
    }
    ParseUnsignedDigits(d, rest);
    DecimalValueRoundTrip(n);
  }

  lemma {:induction false} DigitPrefixOfNumeral(d: string, rest: string)
    requires forall i :: 0 <= i < |d| ==> IsDecimalDigit(d[i])
    requires rest == [] || !IsDecimalDigit(rest[0])
    ensures DigitPrefix(d + rest, false) == d
  {
    if d != [] {
      assert (d + rest)[1..] == d[1..] + rest;
      DigitPrefixOfNumeral(d[1..], rest);
    }
  }

  /** Text whose first significant character is no digit and no sign parses to NaN. */
  lemma ParseIntNoDigits(s: string)
    requires var t := TrimStart(s); t == [] || !(IsDecimalDigit(t[0]) || t[0] == '-' || t[0] == '+')
    ensures ParseInt(s) == NaN
  {
  }

  /**
   * `!isNaN(parseFloat(s))`: after leading whitespace and an optional sign,
   * the text begins with a digit, with a point followed by a digit, or with
   * `Infinity`. Only this outcome is modelled, not the parsed value.
   */
  predicate HasFloatPrefix(s: string)
  {
    var t := TrimStart(s);
    var u := if t != [] && (t[0] == '-' || t[0] == '+') then t[1..] else t;
    || (u != [] && IsDecimalDigit(u[0]))
    || (|u| >= 2 && u[0] == '.' && IsDecimalDigit(u[1]))
    || (|u| >= 8 && u[..8] == "Infinity")
  }

  /** Text starting with a digit always has a numeric prefix. */
  lemma FloatPrefixFromDigit(s: string)
    requires s != [] && IsDecimalDigit(s[0])
    ensures HasFloatPrefix(s)
  {
    assert TrimStart(s) == s;
  }

  /** A point followed by a digit (`.5`) is a numeric prefix. */
  lemma FloatPrefixFromPoint(digits: string)
    requires digits != [] && IsDecimalDigit(digits[0])
    ensures HasFloatPrefix(['.'] + digits)
  {
    assert TrimStart(['.'] + digits) == ['.'] + digits;
  }

  /**
   * Text whose first character is none of whitespace, a sign, a digit, a
   * point or the `I` of `Infinity` has no numeric prefix.
   */
  lemma NoFloatPrefix(s: string)
    requires s == [] || !(IsJsWhitespace(s[0]) || s[0] in "+-.I" || IsDecimalDigit(s[0]))
    ensures !HasFloatPrefix(s)
  {
    assert TrimStart(s) == s;
  }
}
