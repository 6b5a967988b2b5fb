/** Bytes, and those the SQL code treats specially. */
module Bytes {
  newtype byte = x: int | 0 <= x < 256

  const NUL: byte := 0
  const TAB: byte := 9
  const NEWLINE: byte := 10
  const RETURN: byte := 13
  const CTRL_Z: byte := 26
  const SPACE: byte := 32
  const DOUBLE_QUOTE: byte := 34
  const HASH: byte := 35
  const PERCENT: byte := 37
  const QUOTE: byte := 39
  const LEFT_PAREN: byte := 40
  const RIGHT_PAREN: byte := 41
  const STAR: byte := 42
  const COMMA: byte := 44
  const MINUS: byte := 45
  const DOT: byte := 46
  const SLASH: byte := 47
  const ZERO: byte := 48
  const ONE: byte := 49
  const COLON: byte := 58
  const SEMICOLON: byte := 59
  const EQUALS: byte := 61
  const QUESTION: byte := 63
  const BACKSLASH: byte := 92
  const UNDERSCORE: byte := 95
  const BACKTICK: byte := 96

  predicate IsDigit(c: byte) {
    ZERO <= c <= 57
  }

  /** The bytes of a run of ASCII text. */
  function Ascii(s: string): (r: seq<byte>)
    requires forall i | 0 <= i < |s| :: s[i] < 128 as char
    ensures |r| == |s|
    ensures forall i | 0 <= i < |s| :: r[i] == s[i] as byte
  {
    seq(|s|, i requires 0 <= i < |s| => s[i] as byte)
  }

  function Count(s: seq<byte>, c: byte): nat {
    if s == [] then 0 else Count(s[..|s| - 1], c) + if s[|s| - 1] == c then 1 else 0
  }

  lemma {:induction false} CountConcat(a: seq<byte>, b: seq<byte>, c: byte)
    ensures Count(a + b, c) == Count(a, c) + Count(b, c)
  {
    if b == [] {
      assert a + b == a;
    } else {
      var b' := b[..|b| - 1];
      assert (a + b)[..|a + b| - 1] == a + b';
      CountConcat(a, b', c);
    }
  }

  lemma CountOne(c: byte)
    ensures Count([c], c) == 1
  {
    assert Count([c][..0], c) == 0;
  }

  lemma {:induction false} CountAbsent(s: seq<byte>, c: byte)
    requires c !in s
    ensures Count(s, c) == 0
  {
    if s != [] {
      CountAbsent(s[..|s| - 1], c);
    }
  }
}
