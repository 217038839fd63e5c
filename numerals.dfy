/**
  C#'s 32-bit `int` as used by the contact store: unchecked addition wraps
  around, `{id}` formats an integer in decimal, and `int.Parse` /
  `int.TryParse` accept surrounding white space, an optional sign and decimal
  digits, and fail outside the 32-bit range.
 */
module Numerals {
  import opened Wrappers
  import opened Text

  const INT32_MIN: int := -0x8000_0000
  const INT32_MAX: int := 0x7fff_ffff

  type Int32 = x: int | INT32_MIN <= x <= INT32_MAX

  /** Unchecked 32-bit arithmetic: the value congruent to `x` modulo 2^32 that fits an `int`. */
  function Wrap32(x: int): (r: Int32)
    ensures (r - x) % 0x1_0000_0000 == 0
    ensures INT32_MIN <= x <= INT32_MAX ==> r == x
  {
    (x - INT32_MIN) % 0x1_0000_0000 + INT32_MIN
  }

  predicate IsDigit(c: char) {
    '0' <= c <= '9'
  }

  predicate AllDigits(s: string) {
    forall k :: 0 <= k < |s| ==> IsDigit(s[k])
  }

  function DigitChar(d: nat): (c: char)
    requires d < 10
    ensures IsDigit(c)
  {
    (d + '0' as int) as char
  }

  /** The value of a string of decimal digits, most significant first. */
  function DigitsValue(s: string): nat
    requires AllDigits(s)
    decreases |s|
  {
    if s == [] then 0
    else DigitsValue(s[..|s| - 1]) * 10 + (s[|s| - 1] as int - '0' as int)
  }

  /** The decimal digits of `n`, without leading zeros. */
  function NatToString(n: nat): (r: string)
    ensures |r| >= 1 && AllDigits(r)
    decreases n
  {
    if n < 10 then [DigitChar(n)] else NatToString(n / 10) + [DigitChar(n % 10)]
  }

  /** Reading back the digits of `n` gives `n`. */
  lemma {:induction false} NatToStringValue(n: nat)
    ensures DigitsValue(NatToString(n)) == n
    decreases n
  {
    if n >= 10 {
      NatToStringValue(n / 10);
      var s := NatToString(n);
      assert s[..|s| - 1] == NatToString(n / 10);
    }
  }

  /** `{n}` in an interpolated string: a minus sign for negative values, then the digits. */
  function IntToString(n: int): (r: string)
    ensures Tight(r)
    ensures forall k :: 0 <= k < |r| ==> IsDigit(r[k]) || r[k] == '-'
  {
    if n < 0 then "-" + NatToString(-n) else NatToString(n)
  }

  /** `int.Parse(s)` / `int.TryParse(s, out _)`: `None` where .NET throws or returns false. */
  function ParseInt32(s: string): Option<Int32> {
    ParseTrimmed(Trim(s))
  }

  /** The parse once surrounding white space is gone: an optional sign, then
      at least one decimal digit, and a value in the 32-bit range. */
  function ParseTrimmed(t: string): Option<Int32> {
    var signed := |t| > 0 && (t[0] == '-' || t[0] == '+');
    var digits := if signed then t[1..] else t;
    if |digits| == 0 || !AllDigits(digits) then None
    else
      var magnitude := DigitsValue(digits);
      var v: int := if signed && t[0] == '-' then -(magnitude as int) else magnitude;
      if INT32_MIN <= v <= INT32_MAX then Some(v) else None
  }

  /** Formatting then parsing an `int` gives it back, also with trailing white space. */
  lemma ParseFormatted(n: Int32, w: string)
    requires AllWhiteSpace(w)
    ensures ParseInt32(IntToString(n) + w) == Some(n)
  {
    var s := IntToString(n);
    assert Trim(s + w) == s by {
      TrimPadded("", s, w);
      assert "" + s + w == s + w;
    }
    if n < 0 {
      ParseNegative(n);
    } else {
      ParseNonNegative(n);
    }
  }

  lemma ParseNegative(n: Int32)
    requires n < 0
    ensures ParseTrimmed(IntToString(n)) == Some(n)
  {
    var m: nat := -(n as int);
    var s := IntToString(n);
    NatToStringValue(m);
    assert s[0] == '-' && s[1..] == NatToString(m);
  }

  lemma ParseNonNegative(n: Int32)
    requires n >= 0
    ensures ParseTrimmed(IntToString(n)) == Some(n)
  {
    var s := IntToString(n);
    NatToStringValue(n);
    assert s == NatToString(n) && IsDigit(s[0]);
  }
}
