/**
 * Java's 32-bit `int`, its decimal rendering (`String.format("%d")`,
 * `Integer.toString`) and `Integer.parseInt`.
 */
module JavaInt {
  import opened Wrappers

  const INT_MIN: int := -0x8000_0000
  /** `Integer.MAX_VALUE` */
  const INT_MAX: int := 0x7fff_ffff

  newtype int32 = x: int | -0x8000_0000 <= x < 0x8000_0000

  predicate IsDigit(c: char) {
    '0' <= c <= '9'
  }

  predicate AllDigits(s: string) {
    forall i :: 0 <= i < |s| ==> IsDigit(s[i])
  }

  function DigitChar(d: nat): (c: char)
    requires d < 10
    ensures IsDigit(c) && c as int - '0' as int == d
  {
    ('0' as int + d) as char
  }

  /** The value of a string of ASCII decimal digits, most significant first. */
  function DigitsValue(s: string): nat
    requires AllDigits(s)
  {
    if s == [] then 0
    else DigitsValue(s[..|s| - 1]) * 10 + (s[|s| - 1] as int - '0' as int)
  }

  /** The shortest decimal digits of n (no leading zeros). */
  function NatToDigits(n: nat): (s: string)
    ensures |s| >= 1 && AllDigits(s)
    ensures |s| > 1 ==> s[0] != '0'
  {
    if n < 10 then [DigitChar(n)] else NatToDigits(n / 10) + [DigitChar(n % 10)]
  }

  /** `Integer.toString(n)`, and `%d` in a locale with ASCII digits. */
  function FormatInt(n: int): string {
    if n < 0 then "-" + NatToDigits(-n) else NatToDigits(n)
  }

  /**
   * `Integer.parseInt(s)`: an optional `-` or `+`, at least one decimal digit,
   * and a value in the 32-bit signed range; anything else is a
   * NumberFormatException, here None.
   */
  function ParseInt32(s: string): Option<int32> {
    if s == [] then None
    else
      var digits := if s[0] == '-' || s[0] == '+' then s[1..] else s;
      if digits == [] || !AllDigits(digits) then None
      else
        var v: int := if s[0] == '-' then 0 - DigitsValue(digits) else DigitsValue(digits);
        if INT_MIN <= v <= INT_MAX then Some(v as int32) else None
  }

  lemma {:induction false} DigitsRoundTrip(n: nat)
    ensures DigitsValue(NatToDigits(n)) == n
  {
    if n >= 10 {
      var s := NatToDigits(n);
      assert s[..|s| - 1] == NatToDigits(n / 10);
      DigitsRoundTrip(n / 10);
    }
  }

  /** Parsing what `%d` printed gives back the same int. */
  lemma FormatParseRoundTrip(n: int32)
    ensures ParseInt32(FormatInt(n as int)) == Some(n)
  {
    if n < 0 {
      var s := FormatInt(n as int);
      assert s[1..] == NatToDigits(-(n as int));
      DigitsRoundTrip(-(n as int));
    } else {
      DigitsRoundTrip(n as nat);
    }
  }

  /** Distinct ints print differently. */
  lemma FormatIntInjective(a: int32, b: int32)
    requires FormatInt(a as int) == FormatInt(b as int)
    ensures a == b
  {
    FormatParseRoundTrip(a);
    FormatParseRoundTrip(b);
  }

  /** Distinct naturals have distinct digit strings. */
  lemma NatToDigitsInjective(a: nat, b: nat)
    requires NatToDigits(a) == NatToDigits(b)
    ensures a == b
  {
    DigitsRoundTrip(a);
    DigitsRoundTrip(b);
  }

  /** Every decimal integer outside the 32-bit range is a NumberFormatException. */
  lemma ParseInt32OutOfRange(n: int)
    requires n < INT_MIN || INT_MAX < n
    ensures ParseInt32(FormatInt(n)) == None
  {
    if n < 0 {
      var s := FormatInt(n);
      assert s[1..] == NatToDigits(-n);
      DigitsRoundTrip(-n);
    } else {
      DigitsRoundTrip(n);
    }
  }

  /** A sign alone, the empty string and trailing garbage are refused; `+` and leading zeros are accepted. */
  lemma ParseInt32Forms()
    ensures ParseInt32("-") == None && ParseInt32("") == None && ParseInt32("1x") == None
    ensures ParseInt32("+07") == Some(7)
  {
    assert !IsDigit("1x"[1]);
    var d := "+07"[1..];
    assert d == "07" && d[..1] == "0" && d[..1][..0] == [];
    assert DigitsValue(d) == 7;
  }
}
