/** String literals: the escaping done when one is written, and the reading of one
    as section 9.1.1 "String Literals" of the MySQL 5.7 Reference Manual defines it. */
module StringLiteral {
  import opened Options
  import opened Bytes

  /** How the server reads a literal: with backslash escapes, or, when it runs with
      NO_BACKSLASH_ESCAPES, with doubled quotes only. */
  datatype Mode = Backslash | Quotes

  /** How a literal is written: a backslash before every special character, a backslash
      before backslashes and quotes only, or quotes doubled. */
  datatype Style = AllSpecials | BackslashAndQuote | DoubledQuotes {
    /** The server mode a style is written for. */
    function For(): Mode {
      if DoubledQuotes? then Quotes else Backslash
    }
  }

  function EscapeByte(style: Style, c: byte): seq<byte> {
    match style
    case DoubledQuotes => if c == QUOTE then [QUOTE, QUOTE] else [c]
    case BackslashAndQuote => if c == BACKSLASH || c == QUOTE then [BACKSLASH, c] else [c]
    case AllSpecials =>
      if c == NUL then [BACKSLASH, ZERO]
      else if c == NEWLINE then [BACKSLASH, 110]
      else if c == RETURN then [BACKSLASH, 114]
      else if c == CTRL_Z then [BACKSLASH, 90]
      else if c == QUOTE then [BACKSLASH, QUOTE]
      else if c == DOUBLE_QUOTE then [BACKSLASH, DOUBLE_QUOTE]
      else if c == BACKSLASH then [BACKSLASH, BACKSLASH]
      else [c]
  }

  function Escape(style: Style, v: seq<byte>): seq<byte> {
    if v == [] then [] else Escape(style, v[..|v| - 1]) + EscapeByte(style, v[|v| - 1])
  }

  lemma EscapeStep(style: Style, v: seq<byte>, i: nat)
    requires i < |v|
    ensures Escape(style, v[..i + 1]) == Escape(style, v[..i]) + EscapeByte(style, v[i])
  {
    assert v[..i + 1][..i] == v[..i];
  }

  /** The value of a backslash sequence; `\%` and `\_` keep their backslash. */
  function Unescape(c: byte): seq<byte> {
    if c == ZERO then [NUL]
    else if c == 98 then [8]
    else if c == 110 then [NEWLINE]
    else if c == 114 then [RETURN]
    else if c == 116 then [TAB]
    else if c == 90 then [CTRL_Z]
    else if c == PERCENT || c == UNDERSCORE then [BACKSLASH, c]
    else [c]
  }

  datatype Literal = Literal(value: seq<byte>, rest: seq<byte>)

  function Prepend(v: seq<byte>, r: Option<Literal>): Option<Literal> {
    match r
    case None => None
    case Some(lit) => Some(Literal(v + lit.value, lit.rest))
  }

  /** Reads from just after an opening quote: the literal's value and the text after its
      closing quote, or None when the literal is not closed. */
  function ReadLiteral(mode: Mode, s: seq<byte>): Option<Literal> {
    if s == [] then None
    else if s[0] == BACKSLASH && mode.Backslash? then
      if |s| == 1 then None else Prepend(Unescape(s[1]), ReadLiteral(mode, s[2..]))
    else if s[0] == QUOTE then
      if |s| > 1 && s[1] == QUOTE then Prepend([QUOTE], ReadLiteral(mode, s[2..]))
      else Some(Literal([], s[1..]))
    else Prepend([s[0]], ReadLiteral(mode, s[1..]))
  }

  lemma {:induction false} ReadEscapedByte(style: Style, c: byte, s: seq<byte>)
    ensures ReadLiteral(style.For(), EscapeByte(style, c) + s) == Prepend([c], ReadLiteral(style.For(), s))
  {
    var e := EscapeByte(style, c);
    assert (e + s)[|e|..] == s;
  }

  lemma PrependTwice(v: seq<byte>, w: seq<byte>, r: Option<Literal>)
    ensures Prepend(v, Prepend(w, r)) == Prepend(v + w, r)
  {
    if r.Some? {
      assert v + (w + r.value.value) == v + w + r.value.value;
    }
  }

  /** Reading an escaped value yields that value and then reads on, whatever follows. */
  lemma {:induction false} ReadEscaped(style: Style, v: seq<byte>, s: seq<byte>)
    ensures ReadLiteral(style.For(), Escape(style, v) + s) == Prepend(v, ReadLiteral(style.For(), s))
  {
    if v == [] {
      assert Escape(style, v) + s == s;
      assert forall w: seq<byte> :: v + w == w;
    } else {
      var v', c := v[..|v| - 1], v[|v| - 1];
      var e := EscapeByte(style, c);
      calc {
        ReadLiteral(style.For(), Escape(style, v) + s);
        { assert Escape(style, v) + s == Escape(style, v') + (e + s); }
        ReadLiteral(style.For(), Escape(style, v') + (e + s));
        { ReadEscaped(style, v', e + s); }
        Prepend(v', ReadLiteral(style.For(), e + s));
        { ReadEscapedByte(style, c, s); }
        Prepend(v', Prepend([c], ReadLiteral(style.For(), s)));
        { PrependTwice(v', [c], ReadLiteral(style.For(), s)); }
        Prepend(v' + [c], ReadLiteral(style.For(), s));
        { assert v == v' + [c]; }
        Prepend(v, ReadLiteral(style.For(), s));
      }
    }
  }

  lemma {:induction false} RestIsShorter(mode: Mode, s: seq<byte>)
    ensures ReadLiteral(mode, s).Some? ==> |ReadLiteral(mode, s).value.rest| < |s|
    decreases |s|
  {
    if s != [] {
      RestIsShorter(mode, s[1..]);
      if |s| > 1 {
        RestIsShorter(mode, s[2..]);
      }
    }
  }

  /** The literal ends exactly at the quote written after the value, unless the text that
      follows begins with a quote, and then never. */
  lemma {:induction false} LiteralRoundTrip(style: Style, v: seq<byte>, rest: seq<byte>)
    ensures ReadLiteral(style.For(), Escape(style, v) + [QUOTE] + rest) == Some(Literal(v, rest))
        <==> !(rest != [] && rest[0] == QUOTE)
  {
    assert Escape(style, v) + [QUOTE] + rest == Escape(style, v) + ([QUOTE] + rest);
    ReadEscaped(style, v, [QUOTE] + rest);
    var s := [QUOTE] + rest;
    assert s[1..] == rest;
    if rest != [] && rest[0] == QUOTE {
      RestIsShorter(style.For(), s[2..]);
    } else {
      assert v + [] == v;
    }
  }

  /** Different values are written differently. */
  lemma EscapeInjective(style: Style, v: seq<byte>, w: seq<byte>)
    requires Escape(style, v) == Escape(style, w)
    ensures v == w
  {
    LiteralRoundTrip(style, v, []);
    LiteralRoundTrip(style, w, []);
  }

  /** Every byte takes one or two bytes, so twice the length is always room enough. */
  lemma {:induction false} EscapeLength(style: Style, v: seq<byte>)
    ensures |v| <= |Escape(style, v)| <= 2 * |v|
  {
    if v != [] {
      EscapeLength(style, v[..|v| - 1]);
    }
  }

  /** No NUL, line end or control-Z, and a backslash before each quote of either kind. */
  ghost predicate NothingRaw(e: seq<byte>) {
    && NUL !in e && NEWLINE !in e && RETURN !in e && CTRL_Z !in e
    && forall i | 0 <= i < |e| && (e[i] == QUOTE || e[i] == DOUBLE_QUOTE) :: i > 0 && e[i - 1] == BACKSLASH
  }

  lemma NothingRawConcat(a: seq<byte>, b: seq<byte>)
    requires NothingRaw(a) && NothingRaw(b)
    ensures NothingRaw(a + b)
  {
    var e := a + b;
    forall i | 0 <= i < |e| && (e[i] == QUOTE || e[i] == DOUBLE_QUOTE) ensures i > 0 && e[i - 1] == BACKSLASH {
      if i < |a| {
        assert a[i] == e[i];
      } else {
        assert b[i - |a|] == e[i];
      }
    }
  }

  lemma NothingRawByte(c: byte)
    ensures NothingRaw(EscapeByte(AllSpecials, c))
  {
    var e := EscapeByte(AllSpecials, c);
    assert |e| == 1 ==> e == [c];
  }

  /** The full escaping leaves nothing raw, so that a literal in double quotes would do as well. */
  lemma {:induction false} NoRawSpecials(v: seq<byte>)
    ensures NothingRaw(Escape(AllSpecials, v))
  {
    if v != [] {
      NoRawSpecials(v[..|v| - 1]);
      NothingRawByte(v[|v| - 1]);
      NothingRawConcat(Escape(AllSpecials, v[..|v| - 1]), EscapeByte(AllSpecials, v[|v| - 1]));
    }
  }
}
