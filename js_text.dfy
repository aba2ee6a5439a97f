/**
 * The handful of JavaScript string behaviours the application relies on:
 * the whitespace that `String.prototype.trim` strips and `\s` matches, the
 * UTF-16 length of a string, and the decimal text of an integer (what
 * `String(n)` and a template literal produce, and what an integer becomes
 * when it is used as an object key).
 */
module JsText {
  import opened Wrappers

  /** ECMA-262 WhiteSpace and LineTerminator code points. */
  predicate IsJsWhitespace(c: char) {
    || c == '\t' || c == '\n' || c == '\U{000B}' || c == '\U{000C}' || c == '\r' || c == ' '
    || c == '\U{00A0}' || c == '\U{1680}' || ('\U{2000}' <= c <= '\U{200A}')
    || c == '\U{2028}' || c == '\U{2029}' || c == '\U{202F}' || c == '\U{205F}'
    || c == '\U{3000}' || c == '\U{FEFF}'
  }

  /** `s.trim() === ''` */
  predicate IsBlank(s: string) {
    forall i :: 0 <= i < |s| ==> IsJsWhitespace(s[i])
  }

  /** Number of UTF-16 code units of `s`: code points above U+FFFF take two. */
  function Utf16Length(s: string): nat {
    if s == [] then 0 else (if s[0] as int > 0xFFFF then 2 else 1) + Utf16Length(s[1..])
  }

  predicate IsDigit(c: char) {
    '0' <= c <= '9'
  }

  predicate AllDigits(s: string) {
    forall i :: 0 <= i < |s| ==> IsDigit(s[i])
  }

  function DigitChar(d: nat): (c: char)
    requires d < 10
    ensures IsDigit(c) && c as int - '0' as int == d
  {
    (('0' as int) + d) as char
  }

  /** Decimal text of a natural number, most significant digit first, no leading zeros. */
  function NatToDecimal(n: nat): (r: string)
    ensures |r| > 0 && AllDigits(r)
    ensures |r| > 1 ==> r[0] != '0'
  {
    if n < 10 then [DigitChar(n)] else NatToDecimal(n / 10) + [DigitChar(n % 10)]
  }

  /** Decimal text of an integer, with a leading '-' when negative. */
  function IntToDecimal(i: int): (r: string)
    ensures |r| > 0
  {
    if i < 0 then "-" + NatToDecimal(-i) else NatToDecimal(i)
  }

  /** Value of a string of decimal digits; the inverse of NatToDecimal. */
  function DecimalValue(s: string): nat
    requires AllDigits(s)
  {
    if s == [] then 0 else 10 * DecimalValue(s[..|s| - 1]) + (s[|s| - 1] as int - '0' as int)
  }

  lemma {:induction false} DecimalValueOfNatToDecimal(n: nat)
    ensures DecimalValue(NatToDecimal(n)) == n
  {
    if n >= 10 {
      var r := NatToDecimal(n);
      assert r[..|r| - 1] == NatToDecimal(n / 10);
      DecimalValueOfNatToDecimal(n / 10);
    }
  }

  lemma NatToDecimalInjective(a: nat, b: nat)
    ensures NatToDecimal(a) == NatToDecimal(b) ==> a == b
  {
    DecimalValueOfNatToDecimal(a);
    DecimalValueOfNatToDecimal(b);
  }

  /** Distinct integers have distinct decimal texts, so distinct module ids are distinct object keys. */
  lemma IntToDecimalInjective(a: int, b: int)
    ensures IntToDecimal(a) == IntToDecimal(b) ==> a == b
  {
    var ta, tb := IntToDecimal(a), IntToDecimal(b);
    if a < 0 && b < 0 {
      assert ta[1..] == NatToDecimal(-a) && tb[1..] == NatToDecimal(-b);
      NatToDecimalInjective(-a, -b);
    } else if a >= 0 && b >= 0 {
      NatToDecimalInjective(a, b);
    } else {
      assert ta[0] == '-' || tb[0] == '-';
      assert IsDigit(ta[0]) || IsDigit(tb[0]);
    }
  }

  /** A non-empty run of decimal digits read as a number; None for anything else. */
  function ParseDecimal(s: string): (r: Option<nat>)
    ensures r.Some? <==> |s| > 0 && AllDigits(s)
  {
    if |s| > 0 && AllDigits(s) then Some(DecimalValue(s)) else None
  }

  lemma ParseNatToDecimal(n: nat)
    ensures ParseDecimal(NatToDecimal(n)) == Some(n)
  {
    DecimalValueOfNatToDecimal(n);
  }

  // --------------------------------------------------- parseInt(s, 10)

  /** What a JavaScript number reads as when it is known to be an integer or NaN. */
  datatype IntOrNaN = NaN | Int(value: int)

  /** `s` without its leading JavaScript whitespace. */
  function TrimStart(s: string): (r: string)
    ensures |r| <= |s| && r == s[|s| - |r|..]
    ensures IsBlank(s[..|s| - |r|])
    ensures r == [] || !IsJsWhitespace(r[0])
  {
    if s == [] || !IsJsWhitespace(s[0]) then s
    else
      var r := TrimStart(s[1..]);
      assert s[..|s| - |r|] == [s[0]] + s[1..][..|s[1..]| - |r|];
      r
  }

  /** The longest prefix of `s` made of decimal digits. */
  function DigitPrefix(s: string): (r: string)
    ensures |r| <= |s| && r == s[..|r|] && AllDigits(r)
    ensures |r| == |s| || !IsDigit(s[|r|])
  {
    if s == [] || !IsDigit(s[0]) then []
    else
      var r := DigitPrefix(s[1..]);
      [s[0]] + r
  }

  /**
   * `parseInt(s, 10)`: leading whitespace is skipped, one sign is read, then
   * the longest run of digits; no digit at all gives NaN. Whatever follows
   * the digits (a decimal point, an exponent) is ignored.
   */
  function ParseInt(s: string): (r: IntOrNaN)
    ensures IsBlank(s) ==> r == NaN
    ensures r.Int? ==> exists i :: 0 <= i < |s| && IsDigit(s[i])
    ensures r.Int? && r.value < 0 ==> '-' in s
  {
    var t := TrimStart(s);
    var negative := |t| > 0 && t[0] == '-';
    var unsigned := if |t| > 0 && (t[0] == '-' || t[0] == '+') then t[1..] else t;
    var digits := DigitPrefix(unsigned);
    if digits == [] then NaN
    else if negative then Int(-(DecimalValue(digits) as int))
    else Int(DecimalValue(digits))
  }

  lemma {:induction false} DigitPrefixOfDigits(d: string, rest: string)
    requires AllDigits(d)
    requires rest == [] || !IsDigit(rest[0])
    ensures DigitPrefix(d + rest) == d
  {
    if d == [] {
      assert d + rest == rest;
    } else {
      assert (d + rest)[0] == d[0] && (d + rest)[1..] == d[1..] + rest;
      DigitPrefixOfDigits(d[1..], rest);
    }
  }

  lemma TrimStartKeeps(s: string)
    requires s != [] && !IsJsWhitespace(s[0])
    ensures TrimStart(s) == s
  {
  }

  /** Text that starts with neither whitespace nor a sign reads as its leading digits. */
  lemma ParseIntUnsigned(s: string)
    requires s != [] && IsDigit(s[0])
    ensures ParseInt(s) == Int(DecimalValue(DigitPrefix(s)))
  {
    TrimStartKeeps(s);
  }

  /** Text that starts with a minus sign reads as minus its leading digits. */
  lemma ParseIntNegative(s: string)
    requires |s| > 1 && s[0] == '-' && IsDigit(s[1])
    ensures ParseInt(s) == Int(-(DecimalValue(DigitPrefix(s[1..])) as int))
  {
    TrimStartKeeps(s);
  }

  /** A run of digits followed by anything that is not a digit reads as the run's value. */
  lemma ParseIntOfDigits(d: string, rest: string, s: string)
    requires |d| > 0 && AllDigits(d)
    requires rest == [] || !IsDigit(rest[0])
    requires s == d + rest
    ensures ParseInt(s) == Int(DecimalValue(d))
  {
    DigitPrefixOfDigits(d, rest);
    ParseIntUnsigned(s);
  }

  lemma ParseIntOfNat(n: nat)
    ensures ParseInt(NatToDecimal(n)) == Int(n)
  {
    var d := NatToDecimal(n);
    DecimalValueOfNatToDecimal(n);
    DigitPrefixOfDigits(d, []);
    assert d + [] == d;
    ParseIntUnsigned(d);
  }

  lemma ParseIntOfMinusNat(n: nat)
    ensures ParseInt("-" + NatToDecimal(n)) == Int(-(n as int))
  {
    var d := NatToDecimal(n);
    var s := "-" + d;
    assert s[1..] == d + [];
    DecimalValueOfNatToDecimal(n);
    DigitPrefixOfDigits(d, []);
    ParseIntNegative(s);
  }

  /** `parseInt(String(i), 10) === i`: an integer's own text reads back as the integer. */
  lemma ParseIntOfIntToDecimal(i: int)
    ensures ParseInt(IntToDecimal(i)) == Int(i)
  {
    var n: nat := if i < 0 then -i else i;
    if i < 0 {
      ParseIntOfMinusNat(n);
      assert IntToDecimal(i) == "-" + NatToDecimal(n);
    } else {
      ParseIntOfNat(n);
      assert IntToDecimal(i) == NatToDecimal(n);
    }
  }

  /** `parseInt` truncates a decimal fraction: "{n}.{f}" reads as n. */
  lemma ParseIntTruncatesFraction(n: nat, fraction: string)
    ensures ParseInt(NatToDecimal(n) + "." + fraction) == Int(n)
  {
    DecimalValueOfNatToDecimal(n);
    var s := NatToDecimal(n) + "." + fraction;
    assert s == NatToDecimal(n) + ("." + fraction);
    ParseIntOfDigits(NatToDecimal(n), "." + fraction, s);
  }
}
