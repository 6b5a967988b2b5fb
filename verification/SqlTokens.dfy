/** MySQL's lexical structure, read one byte at a time: words, quoted text, comments,
    placeholders and single-byte punctuation (chapter 9 "Language Structure" of the
    MySQL 5.7 Reference Manual). */
module SqlTokens {
  import opened Options
  import opened Bytes
  import opened StringLiteral

  type QuoteByte = c: byte | c == QUOTE || c == DOUBLE_QUOTE witness QUOTE

  datatype Token =
    | Word(text: seq<byte>)                    // identifier, keyword or number
    | Text(quote: QuoteByte, value: seq<byte>)      // string literal
    | Name(value: seq<byte>)                   // identifier in backticks
    | Punct(c: byte)
    | Placeholder

  datatype State =
    | Normal
    | InWord(text: seq<byte>)
    | InText(quote: QuoteByte, value: seq<byte>)
    | AfterBackslash(quote: QuoteByte, value: seq<byte>)
    | AfterQuote(quote: QuoteByte, value: seq<byte>)  // closed, unless the quote comes again
    | InName(value: seq<byte>)
    | AfterBacktick(value: seq<byte>)
    | AfterMinus
    | AfterTwoMinus
    | AfterSlash
    | InLine                                     // comment to the end of the line
    | InBlock
    | InBlockStar

  predicate IsWordByte(c: byte) {
    IsDigit(c) || 65 <= c <= 90 || 97 <= c <= 122 || c == UNDERSCORE || c == 36 || 128 <= c
  }

  predicate IsDelimiter(c: byte) {
    c == SPACE || c == LEFT_PAREN || c == RIGHT_PAREN || c == COMMA || c == EQUALS || c == SEMICOLON
  }

  /** A byte met where a token may begin: the next state, and the token it is by itself. */
  function Begin(c: byte): (State, seq<Token>) {
    if IsWordByte(c) then (InWord([c]), [])
    else if c <= SPACE then (Normal, [])
    else if c == QUOTE || c == DOUBLE_QUOTE then (InText(c, []), [])
    else if c == BACKTICK then (InName([]), [])
    else if c == MINUS then (AfterMinus, [])
    else if c == SLASH then (AfterSlash, [])
    else if c == HASH then (InLine, [])
    else if c == QUESTION then (Normal, [Placeholder])
    else (Normal, [Punct(c)])
  }

  function EndThenBegin(t: seq<Token>, c: byte): (State, seq<Token>) {
    var (st, ts) := Begin(c);
    (st, t + ts)
  }

  /** One byte: the next state and the tokens it completes. */
  function Step(mode: Mode, st: State, c: byte): (State, seq<Token>) {
    match st
    case Normal => Begin(c)
    case InWord(w) => if IsWordByte(c) then (InWord(w + [c]), []) else EndThenBegin([Word(w)], c)
    case InText(q, v) =>
      if c == BACKSLASH && mode.Backslash? then (AfterBackslash(q, v), [])
      else if c == q then (AfterQuote(q, v), [])
      else (InText(q, v + [c]), [])
    case AfterBackslash(q, v) => (InText(q, v + Unescape(c)), [])
    case AfterQuote(q, v) => if c == q then (InText(q, v + [q]), []) else EndThenBegin([Text(q, v)], c)
    case InName(v) => if c == BACKTICK then (AfterBacktick(v), []) else (InName(v + [c]), [])
    case AfterBacktick(v) => if c == BACKTICK then (InName(v + [c]), []) else EndThenBegin([Name(v)], c)
    case AfterMinus => if c == MINUS then (AfterTwoMinus, []) else EndThenBegin([Punct(MINUS)], c)
    case AfterTwoMinus =>
      // two dashes open a comment only before white space or a control character
      if c == NEWLINE then (Normal, [])
      else if c <= SPACE then (InLine, [])
      else if c == MINUS then (AfterTwoMinus, [Punct(MINUS)])
      else EndThenBegin([Punct(MINUS), Punct(MINUS)], c)
    case AfterSlash => if c == STAR then (InBlock, []) else EndThenBegin([Punct(SLASH)], c)
    case InLine => (if c == NEWLINE then Normal else InLine, [])
    case InBlock => (if c == STAR then InBlockStar else InBlock, [])
    case InBlockStar => (if c == SLASH then Normal else if c == STAR then InBlockStar else InBlock, [])
  }

  /** The token a state will complete if the text ends here; None inside an unclosed
      quotation or block comment. */
  function Pending(st: State): Option<seq<Token>> {
    match st
    case Normal => Some([])
    case InWord(w) => Some([Word(w)])
    case AfterQuote(q, v) => Some([Text(q, v)])
    case AfterBacktick(v) => Some([Name(v)])
    case AfterMinus => Some([Punct(MINUS)])
    case AfterTwoMinus => Some([])
    case AfterSlash => Some([Punct(SLASH)])
    case InLine => Some([])
    case _ => None
  }

  datatype Scan = Scan(st: State, tokens: seq<Token>)

  function Advance(mode: Mode, sc: Scan, c: byte): Scan {
    var (st, ts) := Step(mode, sc.st, c);
    Scan(st, if ts == [] then sc.tokens else sc.tokens + ts)
  }

  function Run(mode: Mode, sc: Scan, s: seq<byte>): Scan {
    if s == [] then sc else Advance(mode, Run(mode, sc, s[..|s| - 1]), s[|s| - 1])
  }

  const START := Scan(Normal, [])

  function Finish(sc: Scan): Option<seq<Token>> {
    match Pending(sc.st)
    case None => None
    case Some(ts) => Some(sc.tokens + ts)
  }

  /** The tokens of a whole text. */
  function Lex(mode: Mode, s: seq<byte>): Option<seq<Token>> {
    Finish(Run(mode, START, s))
  }

  lemma {:induction false} RunConcat(mode: Mode, sc: Scan, a: seq<byte>, b: seq<byte>)
    ensures Run(mode, sc, a + b) == Run(mode, Run(mode, sc, a), b)
  {
    if b == [] {
      assert a + b == a;
    } else {
      var b' := b[..|b| - 1];
      assert (a + b)[..|a + b| - 1] == a + b';
      RunConcat(mode, sc, a, b');
    }
  }

  lemma RunOne(mode: Mode, sc: Scan, c: byte)
    ensures Run(mode, sc, [c]) == Advance(mode, sc, c)
  {
    assert Run(mode, sc, [c][..0]) == sc;
  }

  // ---- how a value's own bytes are read ----

  /** Once its first byte has opened it, a word is collected byte by byte. */
  lemma {:induction false} RunWord(mode: Mode, sc: Scan, ts: seq<Token>, w: seq<byte>)
    requires w != [] && Advance(mode, sc, w[0]) == Scan(InWord([w[0]]), ts)
    requires forall i | 0 <= i < |w| :: IsWordByte(w[i])
    ensures Run(mode, sc, w) == Scan(InWord(w), ts)
  {
    var w' := w[..|w| - 1];
    if w' == [] {
      assert w == [w[0]];
      RunOne(mode, sc, w[0]);
    } else {
      RunWord(mode, sc, ts, w');
      assert w == w' + [w[|w| - 1]];
    }
  }

  lemma RunEscapedByte(style: Style, ts: seq<Token>, v: seq<byte>, c: byte)
    ensures Run(style.For(), Scan(InText(QUOTE, v), ts), EscapeByte(style, c)) == Scan(InText(QUOTE, v + [c]), ts)
  {
    var sc, e := Scan(InText(QUOTE, v), ts), EscapeByte(style, c);
    RunOne(style.For(), sc, e[0]);
    if |e| == 2 {
      assert e == [e[0]] + [e[1]];
      RunConcat(style.For(), sc, [e[0]], [e[1]]);
      RunOne(style.For(), Advance(style.For(), sc, e[0]), e[1]);
    } else {
      assert e == [e[0]];
    }
  }

  /** Within a string literal, an escaped value is read back unchanged. */
  lemma {:induction false} RunEscaped(style: Style, ts: seq<Token>, v: seq<byte>)
    ensures Run(style.For(), Scan(InText(QUOTE, []), ts), Escape(style, v)) == Scan(InText(QUOTE, v), ts)
  {
    var sc := Scan(InText(QUOTE, []), ts);
    if v != [] {
      var v', c := v[..|v| - 1], v[|v| - 1];
      var before, e := Escape(style, v'), EscapeByte(style, c);
      calc {
        Run(style.For(), sc, Escape(style, v));
        Run(style.For(), sc, before + e);
        { RunConcat(style.For(), sc, before, e); }
        Run(style.For(), Run(style.For(), sc, before), e);
        { RunEscaped(style, ts, v'); }
        Run(style.For(), Scan(InText(QUOTE, v'), ts), e);
        { RunEscapedByte(style, ts, v', c); }
        Scan(InText(QUOTE, v' + [c]), ts);
        { assert v' + [c] == v; }
        Scan(InText(QUOTE, v), ts);
      }
    }
  }

  /** Bytes that need no escaping are their own escaped form. */
  lemma {:induction false} EscapePlain(style: Style, v: seq<byte>)
    requires forall i | 0 <= i < |v| :: EscapeByte(style, v[i]) == [v[i]]
    ensures Escape(style, v) == v
  {
    if v != [] {
      EscapePlain(style, v[..|v| - 1]);
    }
  }

  lemma RunThree(mode: Mode, sc: Scan, c: byte, s: seq<byte>, d: byte)
    ensures Run(mode, sc, [c] + s + [d]) == Advance(mode, Run(mode, Advance(mode, sc, c), s), d)
  {
    RunConcat(mode, sc, [c] + s, [d]);
    RunConcat(mode, sc, [c], s);
    RunOne(mode, sc, c);
    RunOne(mode, Run(mode, Advance(mode, sc, c), s), d);
  }

  /** A whole quoted literal, entered where a token may begin. */
  lemma RunQuoted(style: Style, sc: Scan, v: seq<byte>)
    requires sc.st.Normal?
    ensures Run(style.For(), sc, [QUOTE] + Escape(style, v) + [QUOTE]) == Scan(AfterQuote(QUOTE, v), sc.tokens)
  {
    RunThree(style.For(), sc, QUOTE, Escape(style, v), QUOTE);
    RunEscaped(style, sc.tokens, v);
  }

  // ---- agreement with the reader of one literal ----

  /** The byte-wise lexer, entered just after an opening quote, sees the same literal as
      ReadLiteral: it delivers the value and reads on where the literal ends. */
  lemma {:induction false} LexerReadsLiteral(mode: Mode, v: seq<byte>, ts: seq<Token>, s: seq<byte>)
    requires ReadLiteral(mode, s).Some?
    ensures var lit := ReadLiteral(mode, s).value;
      Finish(Run(mode, Scan(InText(QUOTE, v), ts), s))
      == Finish(Run(mode, Scan(Normal, ts + [Text(QUOTE, v + lit.value)]), lit.rest))
    decreases |s|, 1
  {
    var sc, lit := Scan(InText(QUOTE, v), ts), ReadLiteral(mode, s).value;
    if s[0] == BACKSLASH && mode.Backslash? {
      ReadsOn(mode, v, Unescape(s[1]), ts, s, s[2..]) by {
        TwoBytes(mode, sc, s);
      }
    } else if s[0] == QUOTE && |s| > 1 && s[1] == QUOTE {
      ReadsOn(mode, v, [QUOTE], ts, s, s[2..]) by {
        TwoBytes(mode, sc, s);
      }
    } else if s[0] == QUOTE {
      OneByte(mode, sc, s);
      CloseLiteral(mode, Scan(AfterQuote(QUOTE, v), ts), s[1..]);
      assert v + [] == v;
    } else {
      ReadsOn(mode, v, [s[0]], ts, s, s[1..]) by {
        OneByte(mode, sc, s);
      }
    }
  }

  // The step shared by the cases in which the literal goes on: `w` is read and `s'` remains.
  lemma {:induction false} ReadsOn(mode: Mode, v: seq<byte>, w: seq<byte>, ts: seq<Token>, s: seq<byte>, s': seq<byte>)
    requires ReadLiteral(mode, s').Some? && |s'| < |s|
    requires ReadLiteral(mode, s) == Prepend(w, ReadLiteral(mode, s'))
    requires Run(mode, Scan(InText(QUOTE, v), ts), s) == Run(mode, Scan(InText(QUOTE, v + w), ts), s')
    ensures var lit := ReadLiteral(mode, s).value;
      Finish(Run(mode, Scan(InText(QUOTE, v), ts), s))
      == Finish(Run(mode, Scan(Normal, ts + [Text(QUOTE, v + lit.value)]), lit.rest))
    decreases |s|, 0
  {
    LexerReadsLiteral(mode, v + w, ts, s');
    assert v + w + ReadLiteral(mode, s').value.value == v + ReadLiteral(mode, s).value.value;
  }

  lemma OneByte(mode: Mode, sc: Scan, s: seq<byte>)
    requires s != []
    ensures Run(mode, sc, s) == Run(mode, Advance(mode, sc, s[0]), s[1..])
  {
    assert s == [s[0]] + s[1..];
    RunConcat(mode, sc, [s[0]], s[1..]);
    RunOne(mode, sc, s[0]);
  }

  lemma TwoBytes(mode: Mode, sc: Scan, s: seq<byte>)
    requires |s| > 1
    ensures Run(mode, sc, s) == Run(mode, Advance(mode, Advance(mode, sc, s[0]), s[1]), s[2..])
  {
    OneByte(mode, sc, s);
    OneByte(mode, Advance(mode, sc, s[0]), s[1..]);
  }

  /** After a closing quote, text that does not repeat the quote is read as from afresh. */
  lemma CloseLiteral(mode: Mode, sc: Scan, s: seq<byte>)
    requires sc.st.AfterQuote? && (s == [] || s[0] != sc.st.quote)
    ensures Finish(Run(mode, sc, s))
      == Finish(Run(mode, Scan(Normal, sc.tokens + [Text(sc.st.quote, sc.st.value)]), s))
  {
    var anew := Scan(Normal, sc.tokens + [Text(sc.st.quote, sc.st.value)]);
    if s == [] {
      assert anew.tokens + [] == anew.tokens;
    } else {
      OneByte(mode, sc, s);
      OneByte(mode, anew, s);
      assert Advance(mode, sc, s[0]) == Advance(mode, anew, s[0]);
    }
  }
}
