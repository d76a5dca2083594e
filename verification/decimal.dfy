/**
 Python's `str` on an `int`: the decimal rendering that turns the provider's day
 index into the `date_int` key the month's entries are compared against.
 `Parse` (Python's `int` on a decimal string) is its inverse, which makes the
 rendering injective: two different days never share a key.
 */
module Decimal {

  predicate IsDigit(c: char) {
    '0' <= c <= '9'
  }

  predicate AllDigits(s: string) {
    forall i :: 0 <= i < |s| ==> IsDigit(s[i])
  }

  function DigitChar(d: nat): (c: char)
    requires d < 10
    ensures IsDigit(c)
  {
    ('0' as int + d) as char
  }

  function DigitValue(c: char): (d: nat)
    requires IsDigit(c)
    ensures d < 10
  {
    c as int - '0' as int
  }

  /** Decimal digits of `n`, most significant first, without leading zeros. */
  function NatStr(n: nat): (s: string)
    ensures |s| >= 1
    ensures AllDigits(s)
    ensures s[0] == '0' ==> n == 0
    decreases n
  {
    if n < 10 then [DigitChar(n)] else NatStr(n / 10) + [DigitChar(n % 10)]
  }

  /** Value of a string of decimal digits (the empty string reads as 0). */
  function ParseNat(s: string): nat
    requires AllDigits(s)
  {
    if |s| == 0 then 0 else ParseNat(s[..|s| - 1]) * 10 + DigitValue(s[|s| - 1])
  }

  /** `str(n)`: an optional minus sign followed by the digits of `|n|`. */
  function Str(n: int): (s: string)
    ensures |s| >= 1
    ensures s[0] == '-' <==> n < 0
    ensures n >= 0 ==> AllDigits(s)
    ensures n < 0 ==> |s| >= 2 && AllDigits(s[1..])
    ensures n >= 0 ==> (s[0] == '0' <==> n == 0)
    ensures n < 0 ==> s[1] != '0'
    ensures n == 0 ==> s == "0"
  {
    if n < 0 then "-" + NatStr(-n) else NatStr(n)
  }

  /** `int(s)` restricted to the strings `Str` produces. */
  function Parse(s: string): int
    requires |s| >= 1
    requires s[0] == '-' ==> |s| >= 2
    requires if s[0] == '-' then AllDigits(s[1..]) else AllDigits(s)
  {
    if s[0] == '-' then -(ParseNat(s[1..]) as int) else ParseNat(s)
  }

  lemma {:induction false} ParseNatStr(n: nat)
    ensures ParseNat(NatStr(n)) == n
    decreases n
  {
    if n >= 10 {
      var s := NatStr(n);
      assert s[..|s| - 1] == NatStr(n / 10);
      ParseNatStr(n / 10);
    }
  }

  /** Reading back a rendered day index gives the same day index. */
  lemma StrRoundTrip(n: int)
    ensures Parse(Str(n)) == n
  {
    if n < 0 {
      assert Str(n)[1..] == NatStr(-n);
      ParseNatStr(-n);
    } else {
      ParseNatStr(n);
    }
  }

  /** Two day indices render to the same key exactly when they are equal. */
  lemma StrInjective(a: int, b: int)
    ensures Str(a) == Str(b) <==> a == b
  {
    if Str(a) == Str(b) {
      StrRoundTrip(a);
      StrRoundTrip(b);
    }
  }
}
