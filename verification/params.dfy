/**
 * Configuration parameter values and their text, as Python's `str()` gives
 * it inside an f-string: integers in decimal, strings as they are.
 */
module Params {
  import opened Wrappers

  /** A parameter value: the integers and strings the configuration maps hold. */
  datatype Value = IntVal(i: int) | StrVal(s: string)

  /** One entry of an insertion-ordered parameter map. */
  datatype Entry = Entry(key: string, value: Value)

  predicate IsDigit(c: char) {
    '0' <= c <= '9'
  }

  predicate AllDigits(s: string) {
    forall i :: 0 <= i < |s| ==> IsDigit(s[i])
  }

  function DigitChar(d: int): (c: char)
    requires 0 <= d < 10
    ensures IsDigit(c)
  {
    ('0' as int + d) as char
  }

  /** Decimal digits of a natural number, most significant first, without leading zeros. */
  function NatText(n: nat): (r: string)
    ensures |r| >= 1 && AllDigits(r)
    ensures r[0] == '0' ==> n == 0 && |r| == 1
    decreases n
  {
    if n < 10 then [DigitChar(n)] else NatText(n / 10) + [DigitChar(n % 10)]
  }

  /** `str(i)` for a Python int: a minus sign exactly for negative numbers, then decimal digits without a leading zero. */
  function IntText(i: int): (r: string)
    ensures |r| >= 1 && (r[0] == '-' <==> i < 0)
    ensures (i < 0 ==> |r| >= 2) && AllDigits(if i < 0 then r[1..] else r)
    ensures var d := if i < 0 then r[1..] else r; d[0] == '0' ==> d == "0"
  {
    if i < 0 then "-" + NatText(-i) else NatText(i)
  }

  /** `str(v)`: strings are rendered as they are, without quotes; integers read back from their text. */
  function Text(v: Value): (r: string)
    ensures v.StrVal? ==> r == v.s
    ensures v.IntVal? ==> r == IntText(v.i) && ParseInt(r) == Some(v.i)
  {
    match v
    case IntVal(i) =>
      IntTextRoundTrip(i);
      IntText(i)
    case StrVal(s) => s
  }

  /** The number a string of decimal digits denotes. */
  function DigitsValue(s: string): nat
    requires AllDigits(s)
  {
    if s == [] then 0 else DigitsValue(s[..|s| - 1]) * 10 + (s[|s| - 1] as int - '0' as int)
  }

  /** Reads back a decimal integer with an optional minus sign. */
  function ParseInt(s: string): Option<int>
  {
    if 1 < |s| && s[0] == '-' && AllDigits(s[1..]) then Some(-(DigitsValue(s[1..]) as int))
    else if 0 < |s| && AllDigits(s) then Some(DigitsValue(s))
    else None
  }

  lemma {:induction false} NatTextValue(n: nat)
    ensures DigitsValue(NatText(n)) == n
    decreases n
  {
    if n >= 10 {
      var t := NatText(n / 10) + [DigitChar(n % 10)];
      assert t[..|t| - 1] == NatText(n / 10);
      NatTextValue(n / 10);
    }
  }

  lemma NegativeTextValue(n: nat)
    requires n > 0
    ensures ParseInt("-" + NatText(n)) == Some(-(n as int))
  {
    assert ("-" + NatText(n))[1..] == NatText(n);
    NatTextValue(n);
  }

  /** Round trip: the decimal text of an integer reads back as that integer. */
  lemma IntTextRoundTrip(i: int)
    ensures ParseInt(IntText(i)) == Some(i)
  {
    if i < 0 {
      NegativeTextValue(-i);
    } else {
      NatTextValue(i);
    }
  }
}
