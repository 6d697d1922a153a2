/**
 * Decimal numerals: Python's `str(n)` / f-string formatting of an `int`, and
 * Python's `int(s)` for base 10 on a string that has already been stripped.
 */
module Numerals {
  import opened Wrappers
  import Strings

  predicate IsDigit(c: char)
  {
    '0' <= c <= '9'
  }

  predicate AllDigits(s: string)
  {
    forall i :: 0 <= i < |s| ==> IsDigit(s[i])
  }

  function DigitChar(d: nat): (c: char)
    requires d < 10
    ensures IsDigit(c) && c as int - '0' as int == d
  {
    (d + '0' as int) as char
  }

  /** The value of a string of decimal digits, most significant first. */
  function DigitsValue(s: string): nat
    requires AllDigits(s)
  {
    if s == [] then 0 else 10 * DigitsValue(s[..|s| - 1]) + (s[|s| - 1] as int - '0' as int)
  }

  /** `str(n)` for `n >= 0`: the shortest decimal numeral of `n`. */
  function NatToString(n: nat): (r: string)
    ensures |r| > 0 && AllDigits(r)
    ensures r[0] == '0' ==> n == 0
  {
    if n < 10 then [DigitChar(n)] else NatToString(n / 10) + [DigitChar(n % 10)]
  }

  /** `str(n)`: a minus sign for negative numbers, then the numeral of `|n|`. */
  function IntToString(n: int): string
  {
    if n < 0 then "-" + NatToString(-n) else NatToString(n)
  }

  /** Digits with single underscores between them, as `int()` accepts: `"1_000"` but not
      `"_1"`, `"1_"` or `"1__0"`. */
  predicate IsDigitGroups(s: string)
  {
    && |s| > 0 && IsDigit(s[0]) && IsDigit(s[|s| - 1])
    && forall i :: 0 <= i < |s| ==> IsDigit(s[i]) || (s[i] == '_' && 0 < i < |s| - 1 && IsDigit(s[i + 1]))
  }

  lemma {:induction false} EraseKeepsDigits(s: string)
    requires forall i :: 0 <= i < |s| ==> IsDigit(s[i]) || s[i] == '_'
    ensures AllDigits(Strings.Erase(s, '_'))
  {
    if s != [] {
      EraseKeepsDigits(s[1..]);
    }
  }

  lemma DigitGroupsChars(s: string)
    requires IsDigitGroups(s)
    ensures forall i :: 0 <= i < |s| ==> IsDigit(s[i]) || s[i] == '_'
  {
    forall i | 0 <= i < |s| ensures IsDigit(s[i]) || s[i] == '_' {
      assert IsDigit(s[i]) || (s[i] == '_' && 0 < i < |s| - 1 && IsDigit(s[i + 1]));
    }
  }

  function ParseUnsigned(s: string): Option<nat>
  {
    if IsDigitGroups(s) then
      DigitGroupsChars(s);
      EraseKeepsDigits(s);
      Some(DigitsValue(Strings.Erase(s, '_')))
    else None
  }

  /** `int(s)` with base 10 for an `s` without surrounding whitespace: an optional sign, then
      digit groups; anything else raises `ValueError`, here `None`. */
  function ParseInt(s: string): Option<int>
  {
    if |s| > 0 && (s[0] == '+' || s[0] == '-') then
      match ParseUnsigned(s[1..])
      case None => None
      case Some(v) => var n: int := if s[0] == '-' then -(v as int) else v; Some(n)
    else
      match ParseUnsigned(s)
      case None => None
      case Some(v) => Some(v)
  }

  lemma {:induction false} NatToStringRoundTrip(n: nat)
    ensures DigitsValue(NatToString(n)) == n
  {
    if n >= 10 {
      var r := NatToString(n);
      assert r[..|r| - 1] == NatToString(n / 10);
      NatToStringRoundTrip(n / 10);
    }
  }

  lemma ParseUnsignedNumeral(m: nat)
    ensures ParseUnsigned(NatToString(m)) == Some(m)
  {
    var digits := NatToString(m);
    NatToStringRoundTrip(m);
    Strings.EraseAbsent(digits, '_');
    assert IsDigitGroups(digits);
  }

  /** What `str` prints, `int` reads back. */
  lemma ParseIntRoundTrip(n: int)
    ensures ParseInt(IntToString(n)) == Some(n)
  {
    if n < 0 {
      var digits := NatToString(-n);
      ParseUnsignedNumeral(-n);
      var s := "-" + digits;
      assert s[0] == '-' && s[1..] == digits;
    } else {
      var digits := NatToString(n);
      ParseUnsignedNumeral(n);
      assert digits[0] != '+' && digits[0] != '-';
    }
  }

  /** A printed integer is a minus sign or digits, and ends with a digit. */
  lemma IntToStringChars(n: int)
    ensures var r := IntToString(n);
            && |r| > 0 && IsDigit(r[|r| - 1]) && (IsDigit(r[0]) || r[0] == '-')
            && forall i :: 0 <= i < |r| ==> IsDigit(r[i]) || r[i] == '-'
  {
    if n < 0 {
      var d := NatToString(-n);
      assert forall i :: 1 <= i < |"-" + d| ==> ("-" + d)[i] == d[i - 1];
    }
  }

  /** The numeral of a number is unique: different numbers print differently. */
  lemma IntToStringInjective(m: int, n: int)
    requires IntToString(m) == IntToString(n)
    ensures m == n
  {
    ParseIntRoundTrip(m);
    ParseIntRoundTrip(n);
  }
}
