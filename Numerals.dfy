/**
 * The number syntax of Integer.parseInt and Long.parseLong (radix 10):
 * an optional '+' or '-', then one or more decimal digits, and a value
 * inside the type's range.  Only the ASCII digits '0'..'9' are modelled.
 * The formatting side (Integer.toString) is here too, so that parsing can
 * be proved to invert it.
 */
module Numerals {
  import opened Wrappers

  const INT_MIN: int := -0x8000_0000
  const INT_MAX: int := 0x7fff_ffff
  const LONG_MIN: int := -0x8000_0000_0000_0000
  const LONG_MAX: int := 0x7fff_ffff_ffff_ffff

  predicate IsDigit(c: char) {
    '0' <= c <= '9'
  }

  /** One or more decimal digits. */
  predicate IsDigits(s: string) {
    |s| > 0 && forall i :: 0 <= i < |s| ==> IsDigit(s[i])
  }

  function DigitValue(c: char): nat
    requires IsDigit(c)
  {
    c as int - '0' as int
  }

  function DigitChar(d: nat): (c: char)
    requires d < 10
    ensures IsDigit(c) && DigitValue(c) == d
  {
    ('0' as int + d) as char
  }

  /** The value of a run of decimal digits, most significant first. */
  function DigitsValue(s: string): nat
    requires forall i :: 0 <= i < |s| ==> IsDigit(s[i])
  {
    if s == [] then 0 else DigitsValue(s[..|s| - 1]) * 10 + DigitValue(s[|s| - 1])
  }

  predicate IsSign(c: char) {
    c == '-' || c == '+'
  }

  /** The text after an optional leading sign. */
  function Magnitude(s: string): string {
    if |s| > 0 && IsSign(s[0]) then s[1..] else s
  }

  /** An optionally signed decimal numeral. */
  predicate IsNumeral(s: string) {
    IsDigits(Magnitude(s))
  }

  function NumeralValue(s: string): int
    requires IsNumeral(s)
  {
    var m: int := DigitsValue(Magnitude(s));
    if s[0] == '-' then -m else m
  }

  /**
   * Integer.parseInt (min, max = INT_MIN, INT_MAX) or Long.parseLong
   * (LONG_MIN, LONG_MAX); None stands for NumberFormatException.
   */
  function ParseSigned(s: string, min: int, max: int): Option<int> {
    if IsNumeral(s) && min <= NumeralValue(s) <= max then Some(NumeralValue(s)) else None
  }

  /** The canonical digits of a natural number: no leading zero. */
  function Natural(n: nat): (r: string)
    ensures IsDigits(r) && DigitsValue(r) == n
    ensures |r| > 1 ==> r[0] != '0'
  {
    if n < 10 then [DigitChar(n)]
    else
      var init := Natural(n / 10);
      var r := init + [DigitChar(n % 10)];
      assert r[..|r| - 1] == init;
      r
  }

  /** Integer.toString / Long.toString in radix 10. */
  function ToDecimal(n: int): string {
    if n < 0 then "-" + Natural(-n) else Natural(n)
  }

  /** Parsing inverts formatting on every value of the type's range. */
  lemma ParseToDecimal(n: int, min: int, max: int)
    requires min <= n <= max
    ensures ParseSigned(ToDecimal(n), min, max) == Some(n)
  {
    var s := ToDecimal(n);
    if n < 0 {
      assert s[0] == '-' && Magnitude(s) == Natural(-n);
    } else {
      assert IsDigit(s[0]) && Magnitude(s) == Natural(n);
    }
  }
}
