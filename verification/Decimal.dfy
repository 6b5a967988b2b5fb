/** Decimal integers as strconv.AppendInt and the %d verb print them, and their reading. */
module Decimal {
  import opened Bytes

  function Digits(n: nat): seq<byte> {
    if n < 10 then [ZERO + n as byte] else Digits(n / 10) + [ZERO + (n % 10) as byte]
  }

  function IntText(n: int): seq<byte> {
    if n < 0 then [MINUS] + Digits(-n) else Digits(n)
  }

  predicate AllDigits(s: seq<byte>) {
    forall i | 0 <= i < |s| :: IsDigit(s[i])
  }

  function ReadDigits(s: seq<byte>): nat
    requires AllDigits(s)
  {
    if s == [] then 0 else ReadDigits(s[..|s| - 1]) * 10 + (s[|s| - 1] - ZERO) as nat
  }

  /** Printing and reading agree, and no number is printed with a leading zero. */
  lemma {:induction false} DigitsRoundTrip(n: nat)
    ensures Digits(n) != [] && AllDigits(Digits(n))
    ensures ReadDigits(Digits(n)) == n
    ensures Digits(n)[0] == ZERO ==> n == 0
  {
    if n >= 10 {
      DigitsRoundTrip(n / 10);
      assert Digits(n)[..|Digits(n)| - 1] == Digits(n / 10);
    }
  }

  /** Digits, after a minus sign or not. */
  predicate IsInteger(s: seq<byte>) {
    s != [] && if s[0] == MINUS then |s| > 1 && AllDigits(s[1..]) else AllDigits(s)
  }

  function ReadInt(s: seq<byte>): int
    requires IsInteger(s)
  {
    if s[0] == MINUS then 0 - ReadDigits(s[1..]) else ReadDigits(s)
  }

  /** Every integer, negative or not, reads back as itself. */
  lemma IntRoundTrip(n: int)
    ensures IsInteger(IntText(n)) && ReadInt(IntText(n)) == n
  {
    DigitsRoundTrip(if n < 0 then -n else n);
    assert n < 0 ==> IntText(n)[1..] == Digits(-n);
  }
}
