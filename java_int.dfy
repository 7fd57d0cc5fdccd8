/**
 * Java's 32-bit `int` as the loader and writer use it: the value range, wrap-around of
 * arithmetic, the truncating `%` and `/`, `Integer.parseInt` with radix 10 and
 * `Integer.toString`.
 */
module JavaInt {
  import opened Wrappers

  const INT_MIN: int := -0x8000_0000
  const INT_MAX: int := 0x7fff_ffff
  const TWO_32: int := 0x1_0000_0000

  /** A value of Java type `int`. */
  type int32 = x: int | -0x8000_0000 <= x <= 0x7fff_ffff

  /** `Entity.INT_MISSING`, the sentinel for a missing integer or time: Integer.MIN_VALUE. */
  const INT_MISSING: int32 := -0x8000_0000

  /** The int that Java arithmetic yields for an exact result x (two's complement wrap-around). */
  function ToInt32(x: int): (r: int32)
    ensures (r - x) % TWO_32 == 0
    ensures INT_MIN <= x <= INT_MAX ==> r == x
  {
    (x - INT_MIN) % TWO_32 + INT_MIN
  }

  /** Java `a % b` for b > 0: truncated division, so the remainder has the sign of a. */
  function Rem(a: int, b: int): (r: int)
    requires b > 0
    ensures a == b * Quot(a, b) + r
    ensures a >= 0 ==> 0 <= r < b
    ensures a < 0 ==> -b < r <= 0
  {
    if a >= 0 then a % b else -((-a) % b)
  }

  /** Java `a / b` for b > 0: rounds toward zero. */
  function Quot(a: int, b: int): (q: int)
    requires b > 0
  {
    if a >= 0 then a / b else -((-a) / b)
  }

  /** Rounding toward zero: what `a / b` leaves over has the sign of a and is smaller than b. */
  lemma QuotRounds(a: int, b: int)
    requires b > 0
    ensures a >= 0 ==> 0 <= a - b * Quot(a, b) < b
    ensures a < 0 ==> -b < a - b * Quot(a, b) <= 0
  {
  }

  predicate IsDigit(c: char) { '0' <= c <= '9' }

  predicate AllDigits(s: string) { forall i :: 0 <= i < |s| ==> IsDigit(s[i]) }

  function DigitValue(c: char): (r: nat)
    requires IsDigit(c)
  {
    (c as int) - ('0' as int)
  }

  function DigitChar(d: nat): (c: char)
    requires d < 10
    ensures IsDigit(c) && DigitValue(c) == d
  {
    (('0' as int) + d) as char
  }

  /** The number a string of decimal digits denotes, most significant digit first. */
  function DigitsValue(s: string): (r: nat)
    requires AllDigits(s)
    decreases |s|
  {
    if s == [] then 0 else 10 * DigitsValue(s[..|s| - 1]) + DigitValue(s[|s| - 1])
  }

  /**
   * `Integer.parseInt(s)`: an optional '+' or '-', then one or more decimal digits (leading
   * zeros allowed), denoting a value that fits an int. None stands for NumberFormatException.
   */
  function ParseInt(s: string): (r: Option<int32>)
  {
    if |s| > 0 && (s[0] == '-' || s[0] == '+') then
      var digits := s[1..];
      if digits != [] && AllDigits(digits) then
        var v: int := if s[0] == '-' then -(DigitsValue(digits) as int) else DigitsValue(digits);
        if INT_MIN <= v <= INT_MAX then Some(v) else None
      else None
    else if s != [] && AllDigits(s) then
      var v := DigitsValue(s);
      if v <= INT_MAX then Some(v) else None
    else None
  }

  /** The decimal digits of n without leading zeros. */
  function NatString(n: nat): (s: string)
    ensures s != [] && AllDigits(s) && DigitsValue(s) == n
    ensures s[0] == '0' <==> n == 0
    decreases n
  {
    if n < 10 then [DigitChar(n)]
    else
      var prefix := NatString(n / 10);
      var s := prefix + [DigitChar(n % 10)];
      assert s[..|s| - 1] == prefix;
      s
  }

  /**
   * What `Integer.parseInt` accepts: digits with an optional leading sign, read as the value
   * they denote; every digit string whose value fits an int is accepted.
   */
  lemma ParseIntCases(s: string)
    ensures ParseInt(s).Some? && AllDigits(s) ==> s != [] && ParseInt(s).value == DigitsValue(s)
    ensures ParseInt(s).Some? && !AllDigits(s) ==>
      |s| >= 2 && AllDigits(s[1..]) &&
      ((s[0] == '+' && ParseInt(s).value == DigitsValue(s[1..])) ||
       (s[0] == '-' && ParseInt(s).value == -(DigitsValue(s[1..]) as int)))
    ensures s != [] && AllDigits(s) && DigitsValue(s) <= INT_MAX ==> ParseInt(s).Some?
  {
  }

  /** `Integer.toString(n)`: a '-' for negative numbers, then the digits of |n|. */
  function DecimalString(n: int): (s: string)
    ensures ':' !in s
    ensures s != [] && (s[0] == '-' <==> n < 0)
    ensures n >= 0 ==> AllDigits(s)
  {
    if n < 0 then "-" + NatString(-n) else NatString(n)
  }

  /** Integer.parseInt reads back what Integer.toString wrote, for every int. */
  lemma ParseDecimalString(n: int32)
    ensures ParseInt(DecimalString(n)) == Some(n)
  {
    if n < 0 {
      var s := DecimalString(n);
      assert s[1..] == NatString(-(n as int));
    }
  }

  /**
   * Conversely, a string that Integer.parseInt accepts and that has the canonical shape (no
   * '+', no leading zeros, no "-0") is exactly what Integer.toString writes for its value.
   */
  lemma {:induction false} CanonicalDecimalString(s: string)
    requires ParseInt(s).Some?
    requires s[0] != '+'
    requires s[0] == '-' ==> s[1] != '0'
    requires s[0] == '0' ==> s == "0"
    ensures DecimalString(ParseInt(s).value) == s
  {
    if s[0] == '-' {
      DigitsUnique(s[1..], NatString(DigitsValue(s[1..])));
      assert DecimalString(ParseInt(s).value) == "-" + s[1..];
    } else {
      DigitsUnique(s, NatString(DigitsValue(s)));
    }
  }

  /** Two digit strings without leading zeros that denote the same number are equal. */
  lemma {:induction false} DigitsUnique(a: string, b: string)
    requires a != [] && b != [] && AllDigits(a) && AllDigits(b)
    requires a[0] == '0' ==> a == "0"
    requires b[0] == '0' ==> b == "0"
    requires DigitsValue(a) == DigitsValue(b)
    ensures a == b
    decreases |a|
  {
    var a', b' := a[..|a| - 1], b[..|b| - 1];
    if |a| == 1 || |b| == 1 {
      LeadingDigitBound(a);
      LeadingDigitBound(b);
    } else {
      assert a'[0] == a[0] && b'[0] == b[0];
      LeadingDigitBound(a');
      LeadingDigitBound(b');
      DigitsUnique(a', b');
      assert a == a' + [a[|a| - 1]] && b == b' + [b[|b| - 1]];
    }
  }

  /** A multi-digit string without a leading zero denotes at least 10^(length-1), so at least 10. */
  lemma {:induction false} LeadingDigitBound(s: string)
    requires s != [] && AllDigits(s) && (s[0] == '0' ==> s == "0")
    ensures |s| > 1 ==> DigitsValue(s) >= 10
    ensures |s| == 1 ==> DigitsValue(s) < 10
    ensures s != "0" ==> DigitsValue(s) >= 1
    decreases |s|
  {
    if |s| > 1 {
      var p := s[..|s| - 1];
      assert p[0] == s[0];
      LeadingDigitBound(p);
    }
  }
}
