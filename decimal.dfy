/** Decimal rendering of integers, as Java's string concatenation `"…" + n`
    renders an `int`, together with the parser that inverts it. The parser is
    not part of the uploader; it is the partner that shows the rendering loses
    no information, so that two different chunk numbers never share a name. */
module Decimal {

  predicate IsDigit(c: char) {
    '0' <= c <= '9'
  }

  predicate AllDigits(s: string) {
    forall k :: 0 <= k < |s| ==> IsDigit(s[k])
  }

  function DigitChar(d: nat): (c: char)
    requires d < 10
    ensures IsDigit(c)
  {
    ('0' as int + d) as char
  }

  function DigitValue(c: char): (d: nat)
    requires IsDigit(c)
    ensures d < 10 && DigitChar(d) == c
  {
    c as int - '0' as int
  }

  /** The decimal digits of `n`, most significant first, without leading zeros. */
  function NatToString(n: nat): (s: string)
    ensures 1 <= |s| && AllDigits(s)
    ensures |s| > 1 ==> s[0] != '0'
  {
    if n < 10 then [DigitChar(n)] else NatToString(n / 10) + [DigitChar(n % 10)]
  }

  /** `Integer.toString(i)`: a minus sign in front of the magnitude exactly when `i` is negative. */
  function IntToString(i: int): (s: string)
    ensures 1 <= |s|
    ensures s[0] == '-' <==> i < 0
  {
    if i < 0 then "-" + NatToString(-i) else NatToString(i)
  }

  function ParseNat(s: string): (n: nat)
    requires 1 <= |s| && AllDigits(s)
  {
    if |s| == 1 then DigitValue(s[0])
    else ParseNat(s[..|s| - 1]) * 10 + DigitValue(s[|s| - 1])
  }

  function ParseInt(s: string): (i: int)
    requires 1 <= |s|
    requires s[0] == '-' ==> 2 <= |s| && AllDigits(s[1..])
    requires s[0] != '-' ==> AllDigits(s)
  {
    if s[0] == '-' then -(ParseNat(s[1..]) as int) else ParseNat(s)
  }

  lemma {:induction false} ParseNatToString(n: nat)
    ensures ParseNat(NatToString(n)) == n
  {
    if n >= 10 {
      var s := NatToString(n);
      assert s[..|s| - 1] == NatToString(n / 10);
      ParseNatToString(n / 10);
    }
  }

  /** Parsing undoes rendering, for every integer. */
  lemma ParseIntToString(i: int)
    ensures var s := IntToString(i);
            (s[0] == '-' ==> 2 <= |s| && AllDigits(s[1..])) &&
            (s[0] != '-' ==> AllDigits(s)) &&
            ParseInt(s) == i
  {
    if i < 0 {
      var s := IntToString(i);
      assert s[1..] == NatToString(-i);
      ParseNatToString(-i);
    } else {
      ParseNatToString(i);
    }
  }

  /** Two different integers never render to the same text. */
  lemma IntToStringInjective(i: int, j: int)
    ensures IntToString(i) == IntToString(j) ==> i == j
  {
    ParseIntToString(i);
    ParseIntToString(j);
  }
}
