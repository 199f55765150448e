/** Decimal rendering of a Java `int`, as string concatenation produces it
    (Integer.toString: an optional minus sign, then the digits of the
    magnitude, without leading zeros), and the parser that inverts it. */
module Decimal {
  import opened Wrappers

  /** A Java `int`. */
  type Int32 = x: int | -0x8000_0000 <= x < 0x8000_0000

  predicate IsDigit(c: char) {
    '0' <= c <= '9'
  }

  function DigitChar(d: nat): (c: char)
    requires d < 10
    ensures IsDigit(c) && DigitValue(c) == d
  {
    ('0' as int + d) as char
  }

  function DigitValue(c: char): (d: nat)
    requires IsDigit(c)
    ensures d < 10
  {
    c as int - '0' as int
  }

  /** The digits of `n`, most significant first. */
  function NatToString(n: nat): (s: string)
    ensures 0 < |s|
    decreases n
  {
    if n < 10 then [DigitChar(n)] else NatToString(n / 10) + [DigitChar(n % 10)]
  }

  function IntToString(n: Int32): (s: string)
    ensures 0 < |s|
  {
    if n < 0 then "-" + NatToString(-(n as int)) else NatToString(n)
  }

  /** The value of a non-empty string of digits. */
  function DigitsValue(s: string): nat
    requires AllDigits(s)
    decreases |s|
  {
    if |s| == 1 then DigitValue(s[0])
    else DigitsValue(s[..|s| - 1]) * 10 + DigitValue(s[|s| - 1])
  }

  predicate AllDigits(s: string) {
    0 < |s| && forall i :: 0 <= i < |s| ==> IsDigit(s[i])
  }

  /** Reads back an optionally signed decimal integer; None when `s` is not one. */
  function ParseInt(s: string): (r: Option<int>)
    ensures r.Some? ==> 0 < |s|
  {
    if 0 < |s| && s[0] == '-' && AllDigits(s[1..]) then Some(-(DigitsValue(s[1..]) as int))
    else if AllDigits(s) then Some(DigitsValue(s))
    else None
  }

  lemma {:induction false} NatToStringDigits(n: nat)
    ensures AllDigits(NatToString(n))
    ensures 1 < |NatToString(n)| ==> NatToString(n)[0] != '0'
    decreases n
  {
    if n >= 10 {
      NatToStringDigits(n / 10);
    }
  }

  /** A rendering always ends with a digit. */
  lemma IntToStringEndsWithDigit(n: Int32)
    ensures var s := IntToString(n); IsDigit(s[|s| - 1])
  {}

  /** The rendering is a minus sign exactly for negative numbers, followed by
      digits without a leading zero; in particular it never contains the
      separator '|'. */
  lemma IntToStringShape(n: Int32)
    ensures var s := IntToString(n);
            var d := if n < 0 then s[1..] else s;
            && (n < 0 <==> s[0] == '-')
            && AllDigits(d)
            && (1 < |d| ==> d[0] != '0')
            && forall i :: 0 <= i < |s| ==> s[i] != '|'
  {
    var s := IntToString(n);
    if n < 0 {
      assert s[1..] == NatToString(-(n as int));
      NatToStringDigits(-(n as int));
    } else {
      NatToStringDigits(n);
    }
  }

  lemma {:induction false} NatToStringRoundTrip(n: nat)
    ensures AllDigits(NatToString(n)) && DigitsValue(NatToString(n)) == n
    decreases n
  {
    NatToStringDigits(n);
    if n >= 10 {
      var s := NatToString(n);
      assert s[..|s| - 1] == NatToString(n / 10);
      NatToStringRoundTrip(n / 10);
    }
  }

  /** Parsing the rendering of an int gives the int back. */
  lemma IntToStringRoundTrip(n: Int32)
    ensures ParseInt(IntToString(n)) == Some(n)
  {
    var s := IntToString(n);
    if n < 0 {
      assert s[1..] == NatToString(-(n as int));
      NatToStringRoundTrip(-(n as int));
    } else {
      NatToStringRoundTrip(n);
    }
  }
}
