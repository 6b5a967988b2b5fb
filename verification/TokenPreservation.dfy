/** Building a statement keeps the template's tokens: MySQL reads the finished text as the
    template with each placeholder replaced by one literal that means the argument. */
module TokenPreservation {
  import opened Options
  import opened Bytes
  import opened Sequences
  import opened StringLiteral
  import opened Decimal
  import opened DateLiteral
  import opened SqlTokens
  import opened Interpolate
  import SpliceProofs

  // ---- what an argument means, and the literal that says so ----

  datatype Value = NullValue | IntValue(n: int) | TextValue(v: seq<byte>) | BinaryValue(v: seq<byte>)

  /** The SQL value of an argument; a time is sent as its text. Floats are left out: their
      rendering is a given. */
  function ValueOf(a: Arg): Value
    requires !a.Float? && Refusal(a).None?
  {
    match a
    case Nil => NullValue
    case Int(n) => IntValue(n)
    case Bool(b) => IntValue(if b then 1 else 0)
    case ZeroTime => TextValue(Ascii("0000-00-00"))
    case Time(c) => TextValue(DateBody(c))
    case NilBytes => NullValue
    case Binary(v) => BinaryValue(v)
    case Str(v) => TextValue(v)
  }

  /** The value of a token sequence that is one literal. */
  function ReadValue(ts: seq<Token>): Option<Value> {
    match |ts|
    case 1 =>
      if ts[0].Text? then Some(TextValue(ts[0].value))
      else if ts[0] == Word(Ascii("NULL")) then Some(NullValue)
      else if ts[0].Word? && ts[0].text != [] && AllDigits(ts[0].text) then Some(IntValue(ReadDigits(ts[0].text)))
      else None
    case 2 =>
      if ts[0] == Punct(MINUS) && ts[1].Word? && ts[1].text != [] && AllDigits(ts[1].text) then
        Some(IntValue(0 - ReadDigits(ts[1].text)))
      else if ts[0] == Word(Ascii("_binary")) && ts[1].Text? then Some(BinaryValue(ts[1].value))
      else None
    case _ => None
  }

  /** The tokens an argument's own text makes. */
  function LiteralTokens(style: Style, a: Arg): seq<Token>
    requires Refusal(a).None?
  {
    Settled(Run(style.For(), START, Render(style, a)))
  }

  /** The tokens so far, with the one a settled state is holding back. */
  function Settled(sc: Scan): seq<Token> {
    sc.tokens + Pending(sc.st).GetOr([])
  }

  /** The token being read is complete as soon as a delimiter follows. */
  predicate IsSettled(st: State) {
    st.InWord? || (st.AfterQuote? && st.quote == QUOTE)
  }

  /** A float's text must be readable as tokens that end in a word, as every text that
      AppendFloat prints does. */
  predicate Readable(mode: Mode, a: Arg) {
    Refusal(a).None? && (a.Float? ==> Run(mode, START, a.text).st.InWord?)
  }

  // ---- the state after an argument's text ----

  lemma NoPlaceholderByte(mode: Mode, st: State, c: byte)
    requires c != QUESTION
    ensures Placeholder !in Step(mode, st, c).1
  {
  }

  /** Tokens already delivered do not influence the reading of what follows. */
  lemma {:induction false} RunFrame(mode: Mode, sc: Scan, s: seq<byte>)
    ensures var r := Run(mode, Scan(sc.st, []), s);
      Run(mode, sc, s) == Scan(r.st, sc.tokens + r.tokens)
  {
    if s == [] {
      assert sc.tokens + [] == sc.tokens;
    } else {
      RunFrame(mode, sc, s[..|s| - 1]);
      AdvanceFrame(mode, sc.tokens, Run(mode, Scan(sc.st, []), s[..|s| - 1]), s[|s| - 1]);
    }
  }

  lemma AdvanceFrame(mode: Mode, before: seq<Token>, r: Scan, c: byte)
    ensures var r' := Advance(mode, r, c);
      Advance(mode, Scan(r.st, before + r.tokens), c) == Scan(r'.st, before + r'.tokens)
  {
    var ts := Step(mode, r.st, c).1;
    assert before + r.tokens + ts == before + (r.tokens + ts);
  }

  lemma AsciiWord(s: seq<byte>)
    requires s == NullText() || s == BinaryPrefix()
    ensures s != [] && forall i | 0 <= i < |s| :: IsWordByte(s[i])
  {
  }

  lemma WordSettles(mode: Mode, w: seq<byte>)
    requires w != [] && forall i | 0 <= i < |w| :: IsWordByte(w[i])
    ensures Run(mode, START, w) == Scan(InWord(w), [])
  {
    RunWord(mode, START, [], w);
  }

  lemma IntSettles(mode: Mode, n: int)
    ensures var digits := Digits(if n < 0 then -n else n);
      Run(mode, START, IntText(n)) == Scan(InWord(digits), if n < 0 then [Punct(MINUS)] else [])
  {
    var m := if n < 0 then -n else n;
    var digits := Digits(m);
    DigitsRoundTrip(m);
    if n < 0 {
      var dash := Advance(mode, START, MINUS);
      RunConcat(mode, START, [MINUS], digits);
      RunOne(mode, START, MINUS);
      RunWord(mode, dash, [Punct(MINUS)], digits);
    } else {
      RunWord(mode, START, [], digits);
    }
  }

  // Bytes that a quoted literal carries unescaped.
  predicate PlainBytes(style: Style, t: seq<byte>) {
    forall i | 0 <= i < |t| :: EscapeByte(style, t[i]) == [t[i]]
  }

  lemma {:induction false} PrintIsPlain(style: Style, marks: seq<Mark>)
    requires TwoDigit(marks) && forall i | 0 <= i < |marks| :: Separates(marks[i].separator)
    ensures PlainBytes(style, Print(marks))
  {
    if marks != [] {
      PrintIsPlain(style, marks[1..]);
    }
  }

  lemma DateIsPlain(style: Style, c: WallClock)
    requires 0 <= c.year <= 9999
    ensures Escape(style, DateBody(c)) == DateBody(c)
  {
    PrintIsPlain(style, SecondMarks(c) + MicroMarks(c.nano / 1000));
    EscapePlain(style, DateBody(c));
  }

  lemma IntroducedSettles(style: Style, p: seq<byte>, v: seq<byte>)
    requires p != [] && forall i | 0 <= i < |p| :: IsWordByte(p[i])
    ensures Run(style.For(), START, p + ([QUOTE] + Escape(style, v) + [QUOTE])) == Scan(AfterQuote(QUOTE, v), [Word(p)])
  {
    var t := [QUOTE] + Escape(style, v) + [QUOTE];
    var inWord, after := Scan(InWord(p), []), Scan(Normal, [Word(p)]);
    calc {
      Run(style.For(), START, p + t);
      { RunConcat(style.For(), START, p, t); WordSettles(style.For(), p); }
      Run(style.For(), inWord, t);
      { OneByte(style.For(), inWord, t); }
      Run(style.For(), Advance(style.For(), inWord, QUOTE), t[1..]);
      { assert Advance(style.For(), inWord, QUOTE) == Advance(style.For(), after, QUOTE); }
      Run(style.For(), Advance(style.For(), after, QUOTE), t[1..]);
      { OneByte(style.For(), after, t); }
      Run(style.For(), after, t);
      { RunQuoted(style, after, v); }
      Scan(AfterQuote(QUOTE, v), [Word(p)]);
    }
  }

  /** Where reading an argument's text leads: one literal, the last token of it held back. */
  function Reached(a: Arg): Scan
    requires !a.Float? && Refusal(a).None?
  {
    match a
    case Nil => Scan(InWord(NullText()), [])
    case Int(n) => if n < 0 then Scan(InWord(Digits(-n)), [Punct(MINUS)]) else Scan(InWord(Digits(n)), [])
    case Bool(b) => Scan(InWord([if b then ONE else ZERO]), [])
    case ZeroTime => Scan(AfterQuote(QUOTE, ZeroTimeText()), [])
    case Time(c) => Scan(AfterQuote(QUOTE, DateBody(c)), [])
    case NilBytes => Scan(InWord(NullText()), [])
    case Binary(v) => Scan(AfterQuote(QUOTE, v), [Word(BinaryPrefix())])
    case Str(v) => Scan(AfterQuote(QUOTE, v), [])
  }

  lemma ArgumentReached(style: Style, a: Arg)
    requires !a.Float? && Refusal(a).None?
    ensures Run(style.For(), START, Render(style, a)) == Reached(a)
  {
    match a
    case Int(n) => IntReached(style, n);
    case Bool(b) => BoolReached(style, b);
    case ZeroTime => ZeroTimeReached(style);
    case Time(c) => TimeReached(style, c);
    case Binary(v) => BinaryReached(style, v);
    case Str(v) => StrReached(style, v);
    case Nil => NullReached(style);
    case NilBytes => NullReached(style);
  }

  lemma IntReached(style: Style, n: int)
    ensures Run(style.For(), START, Render(style, Int(n))) == Reached(Int(n))
  {
    IntSettles(style.For(), n);
  }

  lemma BoolReached(style: Style, b: bool)
    ensures Run(style.For(), START, Render(style, Bool(b))) == Reached(Bool(b))
  {
    WordSettles(style.For(), [if b then ONE else ZERO]);
  }

  lemma StrReached(style: Style, v: seq<byte>)
    ensures Run(style.For(), START, Render(style, Str(v))) == Reached(Str(v))
  {
    RunQuoted(style, START, v);
  }

  lemma TimeReached(style: Style, c: WallClock)
    requires 0 <= c.year <= 9999
    ensures Run(style.For(), START, Render(style, Time(c))) == Reached(Time(c))
  {
    DateIsPlain(style, c);
    RunQuoted(style, START, DateBody(c));
  }

  lemma BinaryReached(style: Style, v: seq<byte>)
    ensures Run(style.For(), START, Render(style, Binary(v))) == Reached(Binary(v))
  {
    AsciiWord(BinaryPrefix());
    IntroducedSettles(style, BinaryPrefix(), v);
  }

  lemma NullReached(style: Style)
    ensures Run(style.For(), START, Render(style, Nil)) == Reached(Nil)
    ensures Run(style.For(), START, Render(style, NilBytes)) == Reached(NilBytes)
  {
    AsciiWord(NullText());
    WordSettles(style.For(), NullText());
  }

  lemma ZeroTimeIsPlain(style: Style)
    ensures PlainBytes(style, ZeroTimeText())
  {
  }

  lemma ZeroTimeReached(style: Style)
    ensures Run(style.For(), START, Render(style, ZeroTime)) == Reached(ZeroTime)
  {
    ZeroTimeIsPlain(style);
    EscapePlain(style, ZeroTimeText());
    RunQuoted(style, START, ZeroTimeText());
  }

  lemma ArgumentSettles(style: Style, a: Arg)
    requires Readable(style.For(), a)
    ensures IsSettled(Run(style.For(), START, Render(style, a)).st)
  {
    if !a.Float? {
      ArgumentReached(style, a);
    }
  }

  /** The literal written for an argument means that argument. */
  lemma LiteralMeaning(style: Style, a: Arg)
    requires !a.Float? && Refusal(a).None?
    ensures ReadValue(LiteralTokens(style, a)) == Some(ValueOf(a))
  {
    ArgumentReached(style, a);
    ReachedMeaning(a);
  }

  lemma NumberMeaning(digits: seq<byte>)
    requires digits != [] && AllDigits(digits)
    ensures ReadValue([Word(digits)]) == Some(IntValue(ReadDigits(digits)))
    ensures ReadValue([Punct(MINUS), Word(digits)]) == Some(IntValue(0 - ReadDigits(digits)))
  {
    assert NullText()[0] == 78 && IsDigit(digits[0]);
    assert digits != NullText();
  }

  lemma IntMeaning(n: int)
    ensures ReadValue(Settled(Reached(Int(n)))) == Some(IntValue(n))
  {
    var m := if n < 0 then -n else n;
    DigitsRoundTrip(m);
    NumberMeaning(Digits(m));
    assert Settled(Reached(Int(n))) == if n < 0 then [Punct(MINUS), Word(Digits(m))] else [Word(Digits(m))];
  }

  lemma BoolMeaning(b: bool)
    ensures ReadValue(Settled(Reached(Bool(b)))) == Some(IntValue(if b then 1 else 0))
  {
    var digits := [if b then ONE else ZERO];
    NumberMeaning(digits);
    assert ReadDigits(digits[..0]) == 0;
    assert Settled(Reached(Bool(b))) == [Word(digits)];
  }

  lemma ReachedMeaning(a: Arg)
    requires !a.Float? && Refusal(a).None?
    ensures ReadValue(Settled(Reached(a))) == Some(ValueOf(a))
  {
    match a
    case Int(n) => IntMeaning(n);
    case Bool(b) => BoolMeaning(b);
    case Binary(v) => assert Settled(Reached(a)) == [Word(BinaryPrefix()), Text(QUOTE, v)];
    case ZeroTime => assert Settled(Reached(a)) == [Text(QUOTE, ZeroTimeText())];
    case Time(c) => assert Settled(Reached(a)) == [Text(QUOTE, DateBody(c))];
    case Str(v) => assert Settled(Reached(a)) == [Text(QUOTE, v)];
    case Nil => assert Settled(Reached(a)) == [Word(NullText())];
    case NilBytes => assert Settled(Reached(a)) == [Word(NullText())];
  }

  // ---- templates ----

  predicate Outside(st: State) {
    !(st.InText? || st.AfterBackslash? || st.InName? || st.InLine? || st.InBlock? || st.InBlockStar?)
  }

  /** Every `?` lies outside quoted text and comments, and is set off by delimiters. */
  ghost predicate WellPlaced(mode: Mode, query: seq<byte>) {
    forall i | 0 <= i < |query| && query[i] == QUESTION ::
      && Outside(Run(mode, START, query[..i]).st)
      && (i > 0 ==> IsDelimiter(query[i - 1]))
      && (i + 1 < |query| ==> IsDelimiter(query[i + 1]))
  }

  function Placeholders(ts: seq<Token>): nat {
    if ts == [] then 0 else Placeholders(ts[..|ts| - 1]) + if ts[|ts| - 1] == Placeholder then 1 else 0
  }

  predicate AllReadable(mode: Mode, args: seq<Arg>) {
    forall k | 0 <= k < |args| :: Readable(mode, args[k])
  }

  /** A token sequence with each placeholder replaced by the literal of its argument. */
  function Fill(style: Style, ts: seq<Token>, args: seq<Arg>): seq<Token>
    requires Placeholders(ts) == |args| && AllReadable(style.For(), args)
  {
    if ts == [] then []
    else
      var before, t := ts[..|ts| - 1], ts[|ts| - 1];
      if t == Placeholder then Fill(style, before, args[..|args| - 1]) + LiteralTokens(style, args[|args| - 1])
      else Fill(style, before, args) + [t]
  }

  lemma {:induction false} FillTokens(style: Style, ts: seq<Token>, args: seq<Arg>, more: seq<Token>)
    requires Placeholders(ts) == |args| && AllReadable(style.For(), args) && Placeholder !in more
    ensures Placeholders(ts + more) == |args|
    ensures Fill(style, ts + more, args) == Fill(style, ts, args) + more
  {
    if more == [] {
      assert ts + more == ts;
      assert Fill(style, ts, args) + more == Fill(style, ts, args);
    } else {
      var more', t := more[..|more| - 1], more[|more| - 1];
      FillTokens(style, ts, args, more');
      FillOneToken(style, ts + more', args, t);
      assert more' + [t] == more;
      Associate(ts, more', [t]);
      Associate(Fill(style, ts, args), more', [t]);
    }
  }

  lemma FillOneToken(style: Style, ts: seq<Token>, args: seq<Arg>, t: Token)
    requires Placeholders(ts) == |args| && AllReadable(style.For(), args) && t != Placeholder
    ensures Placeholders(ts + [t]) == |args|
    ensures Fill(style, ts + [t], args) == Fill(style, ts, args) + [t]
  {
    assert (ts + [t])[..|ts|] == ts;
  }

  lemma FillPlaceholder(style: Style, ts: seq<Token>, args: seq<Arg>, a: Arg)
    requires Placeholders(ts) == |args| && AllReadable(style.For(), args) && Readable(style.For(), a)
    ensures Placeholders(ts + [Placeholder]) == |args + [a]| && AllReadable(style.For(), args + [a])
    ensures Fill(style, ts + [Placeholder], args + [a]) == Fill(style, ts, args) + LiteralTokens(style, a)
  {
    assert (ts + [Placeholder])[..|ts|] == ts && (args + [a])[..|args|] == args;
  }

  /** How the readings of the template, `t`, and of the finished text, `r`, stand to each other. */
  predicate InStep(style: Style, t: Scan, r: Scan, args: seq<Arg>, justFilled: bool)
    requires AllReadable(style.For(), args)
  {
    && Placeholders(t.tokens) == |args|
    && if justFilled then t.st.Normal? && IsSettled(r.st) && Settled(r) == Fill(style, t.tokens, args)
       else r.st == t.st && r.tokens == Fill(style, t.tokens, args)
  }

  lemma AdvanceTokens(mode: Mode, sc: Scan, c: byte)
    ensures Advance(mode, sc, c).tokens == sc.tokens + Step(mode, sc.st, c).1
  {
    assert sc.tokens + [] == sc.tokens;
  }

  lemma AdvanceSettled(mode: Mode, sc: Scan, c: byte)
    requires IsSettled(sc.st) && IsDelimiter(c)
    ensures Advance(mode, sc, c).st == Step(mode, Normal, c).0
    ensures Advance(mode, sc, c).tokens == Settled(sc) + Step(mode, Normal, c).1
  {
    var held, more := Pending(sc.st).value, Step(mode, Normal, c).1;
    AdvanceTokens(mode, sc, c);
    assert sc.tokens + (held + more) == sc.tokens + held + more;
  }

  lemma StepBoth(style: Style, t: Scan, r: Scan, args: seq<Arg>, justFilled: bool, c: byte)
    requires AllReadable(style.For(), args) && InStep(style, t, r, args, justFilled)
    requires c != QUESTION && (justFilled ==> IsDelimiter(c))
    ensures InStep(style, Advance(style.For(), t, c), Advance(style.For(), r, c), args, false)
  {
    NoPlaceholderByte(style.For(), t.st, c);
    AdvanceTokens(style.For(), t, c);
    FillTokens(style, t.tokens, args, Step(style.For(), t.st, c).1);
    if justFilled {
      AdvanceSettled(style.For(), r, c);
    } else {
      AdvanceTokens(style.For(), r, c);
    }
  }

  lemma SettledFrame(sc: Scan, before: seq<Token>)
    ensures Settled(Scan(sc.st, before + sc.tokens)) == before + Settled(sc)
  {
    var held := Pending(sc.st).GetOr([]);
    assert before + sc.tokens + held == before + (sc.tokens + held);
  }

  lemma SettledAfter(mode: Mode, r: Scan, text: seq<byte>)
    requires r.st.Normal? && IsSettled(Run(mode, START, text).st)
    ensures IsSettled(Run(mode, r, text).st)
    ensures Settled(Run(mode, r, text)) == r.tokens + Settled(Run(mode, START, text))
  {
    RunFrame(mode, r, text);
    SettledFrame(Run(mode, START, text), r.tokens);
  }

  lemma PlaceholderStep(mode: Mode, t: Scan)
    requires t.st.Normal?
    ensures Advance(mode, t, QUESTION) == Scan(Normal, t.tokens + [Placeholder])
  {
  }

  lemma FillBoth(style: Style, t: Scan, r: Scan, args: seq<Arg>, a: Arg)
    requires AllReadable(style.For(), args) && Readable(style.For(), a)
    requires InStep(style, t, r, args, false) && t.st.Normal?
    ensures AllReadable(style.For(), args + [a])
    ensures InStep(style, Advance(style.For(), t, QUESTION), Run(style.For(), r, Render(style, a)), args + [a], true)
  {
    ArgumentSettles(style, a);
    SettledAfter(style.For(), r, Render(style, a));
    PlaceholderStep(style.For(), t);
    FillPlaceholder(style, t.tokens, args, a);
  }

  /** Outside quotations and comments, a delimiter leaves the lexer where a token may begin. */
  lemma DelimiterEndsToken(mode: Mode, sc: Scan, c: byte)
    requires IsDelimiter(c) && Outside(Advance(mode, sc, c).st)
    ensures Advance(mode, sc, c).st.Normal?
  {
  }

  /** Well placed, said byte after byte: where the lexer stands at each `?`, and what follows one. */
  predicate BoundarySafe(mode: Mode, query: seq<byte>) {
    query == [] ||
    var before, c := query[..|query| - 1], query[|query| - 1];
    && BoundarySafe(mode, before)
    && (c == QUESTION ==> Run(mode, START, before).st.Normal?)
    && (before != [] && before[|before| - 1] == QUESTION ==> c != QUESTION && IsDelimiter(c))
  }

  lemma {:induction false} WellPlacedIsSafe(mode: Mode, query: seq<byte>)
    requires WellPlaced(mode, query)
    ensures BoundarySafe(mode, query)
  {
    if query != [] {
      WellPlacedPrefix(mode, query, |query| - 1);
      LastWellPlaced(mode, query);
      WellPlacedIsSafe(mode, query[..|query| - 1]);
    }
  }

  lemma WellPlacedPrefix(mode: Mode, query: seq<byte>, k: nat)
    requires k <= |query| && WellPlaced(mode, query)
    ensures WellPlaced(mode, query[..k])
  {
    var before := query[..k];
    forall i | 0 <= i < |before| && before[i] == QUESTION
      ensures Outside(Run(mode, START, before[..i]).st)
        && (i > 0 ==> IsDelimiter(before[i - 1])) && (i + 1 < |before| ==> IsDelimiter(before[i + 1]))
    {
      assert before[..i] == query[..i] && query[i] == QUESTION;
    }
  }

  lemma LastWellPlaced(mode: Mode, query: seq<byte>)
    requires query != [] && WellPlaced(mode, query)
    ensures var before, c := query[..|query| - 1], query[|query| - 1];
      && (c == QUESTION ==> Run(mode, START, before).st.Normal?)
      && (before != [] && before[|before| - 1] == QUESTION ==> IsDelimiter(c))
      && (before != [] && c == QUESTION ==> IsDelimiter(before[|before| - 1]))
  {
    var before, c := query[..|query| - 1], query[|query| - 1];
    if before != [] && c == QUESTION {
      DelimiterEndsToken(mode, Run(mode, START, before[..|before| - 1]), before[|before| - 1]);
    }
  }

  lemma RunMore(mode: Mode, s: seq<byte>, c: byte)
    ensures Run(mode, START, s + [c]) == Advance(mode, Run(mode, START, s), c)
  {
    assert (s + [c])[..|s|] == s;
  }

  lemma CountMore(s: seq<byte>, c: byte)
    ensures Count(s + [c], QUESTION) == Count(s, QUESTION) + if c == QUESTION then 1 else 0
  {
    assert (s + [c])[..|s|] == s;
  }

  lemma SpliceMore(style: Style, before: seq<byte>, args: seq<Arg>, c: byte)
    requires Count(before, QUESTION) == |args| && AllPrintable(args) && c != QUESTION
    ensures Count(before + [c], QUESTION) == |args|
    ensures Splice(style, before + [c], args) == Splice(style, before, args) + [c]
  {
    CountMore(before, c);
    assert (before + [c])[..|before|] == before;
  }

  lemma SpliceFilled(style: Style, before: seq<byte>, given: seq<Arg>, a: Arg)
    requires Count(before, QUESTION) == |given| && AllPrintable(given) && Refusal(a).None?
    ensures AllPrintable(given + [a])
    ensures Count(before + [QUESTION], QUESTION) == |given + [a]|
    ensures Splice(style, before + [QUESTION], given + [a]) == Splice(style, before, given) + Render(style, a)
  {
    CountMore(before, QUESTION);
    assert (before + [QUESTION])[..|before|] == before && (given + [a])[..|given|] == given;
  }

  lemma CopiedInStep(style: Style, before: seq<byte>, args: seq<Arg>, justFilled: bool, c: byte)
    requires Count(before, QUESTION) == |args| && AllReadable(style.For(), args)
    requires InStep(style, Run(style.For(), START, before), Run(style.For(), START, Splice(style, before, args)),
      args, justFilled)
    requires c != QUESTION && (justFilled ==> IsDelimiter(c))
    ensures Count(before + [c], QUESTION) == |args|
    ensures InStep(style, Run(style.For(), START, before + [c]),
      Run(style.For(), START, Splice(style, before + [c], args)), args, false)
  {
    var text := Splice(style, before, args);
    SpliceMore(style, before, args, c);
    RunMore(style.For(), before, c);
    RunMore(style.For(), text, c);
    StepBoth(style, Run(style.For(), START, before), Run(style.For(), START, text), args, justFilled, c);
  }

  lemma FilledInStep(style: Style, before: seq<byte>, given: seq<Arg>, a: Arg)
    requires Count(before, QUESTION) == |given| && AllReadable(style.For(), given) && Readable(style.For(), a)
    requires Run(style.For(), START, before).st.Normal?
    requires InStep(style, Run(style.For(), START, before), Run(style.For(), START, Splice(style, before, given)),
      given, false)
    ensures AllReadable(style.For(), given + [a]) && Count(before + [QUESTION], QUESTION) == |given + [a]|
    ensures InStep(style, Run(style.For(), START, before + [QUESTION]),
      Run(style.For(), START, Splice(style, before + [QUESTION], given + [a])), given + [a], true)
  {
    var text := Splice(style, before, given);
    FillBoth(style, Run(style.For(), START, before), Run(style.For(), START, text), given, a);
    SpliceFilled(style, before, given, a);
    RunMore(style.For(), before, QUESTION);
    RunConcat(style.For(), START, text, Render(style, a));
  }

  lemma {:induction false} ReadInStep(style: Style, query: seq<byte>, args: seq<Arg>)
    requires Count(query, QUESTION) == |args| && AllReadable(style.For(), args) && BoundarySafe(style.For(), query)
    ensures InStep(style, Run(style.For(), START, query), Run(style.For(), START, Splice(style, query, args)), args,
      query != [] && query[|query| - 1] == QUESTION)
  {
    if query != [] {
      var before, c := query[..|query| - 1], query[|query| - 1];
      assert query == before + [c];
      if c == QUESTION {
        var given, a := args[..|args| - 1], args[|args| - 1];
        assert args == given + [a];
        ReadInStep(style, before, given);
        FilledInStep(style, before, given, a);
      } else {
        ReadInStep(style, before, args);
        CopiedInStep(style, before, args, before != [] && before[|before| - 1] == QUESTION, c);
      }
    }
  }

  lemma FinishBoth(style: Style, t: Scan, r: Scan, args: seq<Arg>, justFilled: bool)
    requires AllReadable(style.For(), args) && InStep(style, t, r, args, justFilled)
    ensures Finish(t).None? ==> Finish(r).None?
    ensures Finish(t).Some? ==>
      && Placeholders(Finish(t).value) == |args|
      && Finish(r) == Some(Fill(style, Finish(t).value, args))
  {
    if justFilled {
      assert Finish(t).value == t.tokens;
    } else if Finish(t).Some? {
      FillTokens(style, t.tokens, args, Pending(t.st).value);
    }
  }

  lemma SplicePreserves(style: Style, query: seq<byte>, args: seq<Arg>)
    requires Count(query, QUESTION) == |args| && AllReadable(style.For(), args) && WellPlaced(style.For(), query)
    ensures Lex(style.For(), query).None? ==> Lex(style.For(), Splice(style, query, args)).None?
    ensures Lex(style.For(), query).Some? ==>
      && Placeholders(Lex(style.For(), query).value) == |args|
      && Lex(style.For(), Splice(style, query, args)) == Some(Fill(style, Lex(style.For(), query).value, args))
  {
    WellPlacedIsSafe(style.For(), query);
    ReadInStep(style, query, args);
    FinishBoth(style, Run(style.For(), START, query), Run(style.For(), START, Splice(style, query, args)), args,
      query != [] && query[|query| - 1] == QUESTION);
  }

  /** A successful build of a well-placed template reads as the template's own tokens with
      each placeholder replaced by its argument's literal. */
  lemma TokensPreserved(style: Style, max: int, query: seq<byte>, args: seq<Arg>)
    requires Count(query, QUESTION) == |args| && AllReadable(style.For(), args) && WellPlaced(style.For(), query)
    requires Outcome(style, max, query, args).Ok?
    ensures var sql := Outcome(style, max, query, args).sql;
      && (Lex(style.For(), query).None? ==> Lex(style.For(), sql).None?)
      && (Lex(style.For(), query).Some? ==>
        && Placeholders(Lex(style.For(), query).value) == |args|
        && Lex(style.For(), sql) == Some(Fill(style, Lex(style.For(), query).value, args)))
  {
    SpliceProofs.OutcomeExact(style, max, query, args);
    SplicePreserves(style, query, args);
  }

  /** What GetBuiltSQL returns, read in the mode of the servers its builder is configured for:
      each placeholder has become a literal that means its argument. */
  lemma BuiltReadsAsMeant(c: MySQLInterpolate, query: seq<byte>, args: seq<Arg>)
    requires var mode := if c.escapeUsingQuotes then Quotes else Backslash;
      AllReadable(mode, args) && WellPlaced(mode, query)
    requires Count(query, QUESTION) == |args|
    requires Outcome(c.SqlStyle(), c.maxAllowedPacket, query, args).Ok?
    ensures var mode := if c.escapeUsingQuotes then Quotes else Backslash;
      var sql := Outcome(c.SqlStyle(), c.maxAllowedPacket, query, args).sql;
      && (Lex(mode, query).None? ==> Lex(mode, sql).None?)
      && (Lex(mode, query).Some? ==>
        && Placeholders(Lex(mode, query).value) == |args|
        && Lex(mode, sql) == Some(Fill(c.SqlStyle(), Lex(mode, query).value, args)))
    ensures forall k | 0 <= k < |args| && !args[k].Float? ::
      ReadValue(LiteralTokens(c.SqlStyle(), args[k])) == Some(ValueOf(args[k]))
    ensures forall k | 0 <= k < |args| && args[k].Float? ::
      LiteralTokens(c.SqlStyle(), args[k])
      == Settled(Run(if c.escapeUsingQuotes then Quotes else Backslash, START, args[k].text))
  {
    TokensPreserved(c.SqlStyle(), c.maxAllowedPacket, query, args);
    forall k | 0 <= k < |args| && !args[k].Float?
      ensures ReadValue(LiteralTokens(c.SqlStyle(), args[k])) == Some(ValueOf(args[k]))
    {
      LiteralMeaning(c.SqlStyle(), args[k]);
    }
  }

  // ---- placeholders in quoted text and comments ----

  /** Outside quotations and comments a `?` is a placeholder; inside it is not, although
      the builder replaces it all the same. */
  lemma QuestionStep(mode: Mode, st: State)
    ensures Placeholders(Step(mode, st, QUESTION).1) == if Outside(st) then 1 else 0
  {
    var ts := Step(mode, st, QUESTION).1;
    if Outside(st) {
      assert ts[|ts| - 1] == Placeholder && Placeholder !in ts[..|ts| - 1];
      NoPlaceholders(ts[..|ts| - 1]);
    } else {
      NoPlaceholders(ts);
    }
  }

  lemma {:induction false} NoPlaceholders(ts: seq<Token>)
    requires Placeholder !in ts
    ensures Placeholders(ts) == 0
  {
    if ts != [] {
      NoPlaceholders(ts[..|ts| - 1]);
    }
  }

  lemma {:induction false} PlaceholdersConcat(a: seq<Token>, b: seq<Token>)
    ensures Placeholders(a + b) == Placeholders(a) + Placeholders(b)
  {
    if b == [] {
      assert a + b == a;
    } else {
      assert (a + b)[..|a + b| - 1] == a + b[..|b| - 1];
      PlaceholdersConcat(a, b[..|b| - 1]);
    }
  }

  ghost predicate AllOutside(mode: Mode, query: seq<byte>) {
    forall i | 0 <= i < |query| && query[i] == QUESTION :: Outside(Run(mode, START, query[..i]).st)
  }

  lemma AllOutsideStep(mode: Mode, query: seq<byte>, c: byte)
    ensures AllOutside(mode, query + [c])
      <==> AllOutside(mode, query) && (c == QUESTION ==> Outside(Run(mode, START, query).st))
  {
    var q := query + [c];
    assert forall i | 0 <= i < |query| :: q[..i] == query[..i] && q[i] == query[i];
    assert q[..|query|] == query;
  }

  lemma PlaceholdersStep(mode: Mode, sc: Scan, c: byte)
    ensures Placeholders(Advance(mode, sc, c).tokens)
      == Placeholders(sc.tokens) + if c == QUESTION && Outside(sc.st) then 1 else 0
  {
    AdvanceTokens(mode, sc, c);
    PlaceholdersConcat(sc.tokens, Step(mode, sc.st, c).1);
    if c == QUESTION {
      QuestionStep(mode, sc.st);
    } else {
      NoPlaceholderByte(mode, sc.st, c);
      NoPlaceholders(Step(mode, sc.st, c).1);
    }
  }

  /** MySQL sees as many placeholders in a template as the builder binds arguments exactly
      when no `?` stands in quoted text or a comment, and never more. */
  lemma {:induction false} PlaceholdersExactly(mode: Mode, query: seq<byte>)
    ensures Placeholders(Run(mode, START, query).tokens) <= Count(query, QUESTION)
    ensures Placeholders(Run(mode, START, query).tokens) == Count(query, QUESTION) <==> AllOutside(mode, query)
  {
    if query != [] {
      var before, c := query[..|query| - 1], query[|query| - 1];
      assert query == before + [c];
      PlaceholdersExactly(mode, before);
      OneMoreByte(mode, before, c);
      assert AllOutside(mode, query) <==> AllOutside(mode, before + [c]);
    }
  }

  lemma OneMoreByte(mode: Mode, before: seq<byte>, c: byte)
    requires Placeholders(Run(mode, START, before).tokens) <= Count(before, QUESTION)
    requires Placeholders(Run(mode, START, before).tokens) == Count(before, QUESTION) <==> AllOutside(mode, before)
    ensures Placeholders(Run(mode, START, before + [c]).tokens) <= Count(before + [c], QUESTION)
    ensures Placeholders(Run(mode, START, before + [c]).tokens) == Count(before + [c], QUESTION)
      <==> AllOutside(mode, before + [c])
  {
    CountMore(before, c);
    RunMore(mode, before, c);
    PlaceholdersStep(mode, Run(mode, START, before), c);
    AllOutsideStep(mode, before, c);
  }

  lemma PendingIsPlain(st: State)
    requires Pending(st).Some?
    ensures Placeholders(Pending(st).value) == 0
  {
    NoPlaceholders(Pending(st).value);
  }

  /** Nor does the token held back at the end add one. */
  lemma LexedPlaceholders(mode: Mode, query: seq<byte>)
    requires Lex(mode, query).Some?
    ensures Placeholders(Lex(mode, query).value) == Count(query, QUESTION) <==> AllOutside(mode, query)
  {
    var sc := Run(mode, START, query);
    PlaceholdersExactly(mode, query);
    PendingIsPlain(sc.st);
    PlaceholdersConcat(sc.tokens, Pending(sc.st).value);
  }

  lemma RunThreeBytes(mode: Mode, a: byte, b: byte, c: byte)
    ensures Run(mode, START, [a, b, c]) == Advance(mode, Advance(mode, Advance(mode, START, a), b), c)
  {
    RunMore(mode, [], a);
    RunMore(mode, [a], b);
    RunMore(mode, [a, b], c);
    assert [] + [a] == [a] && [a] + [b] == [a, b] && [a, b] + [c] == [a, b, c];
  }

  /** The text a quoted placeholder becomes when a one-byte string is bound to it. */
  lemma SplicedInQuotes()
    ensures Count([QUOTE, QUESTION, QUOTE], QUESTION) == 1
    ensures Splice(AllSpecials, [QUOTE, QUESTION, QUOTE], [Str([65])]) == [QUOTE, QUOTE, 65, QUOTE, QUOTE]
  {
    SplicedSoFar();
    SpliceMore(AllSpecials, [QUOTE, QUESTION], [Str([65])], QUOTE);
    assert [QUOTE, QUESTION] + [QUOTE] == [QUOTE, QUESTION, QUOTE];
    assert [QUOTE, QUOTE, 65, QUOTE] + [QUOTE] == [QUOTE, QUOTE, 65, QUOTE, QUOTE];
  }

  lemma SplicedSoFar()
    ensures Count([QUOTE, QUESTION], QUESTION) == 1
    ensures Splice(AllSpecials, [QUOTE, QUESTION], [Str([65])]) == [QUOTE, QUOTE, 65, QUOTE]
  {
    var a := Str([65]);
    SplicedQuote();
    SpliceFilled(AllSpecials, [QUOTE], [], a);
    RenderedLetter();
    assert [] + [a] == [a] && [QUOTE] + [QUESTION] == [QUOTE, QUESTION];
    assert [QUOTE] + [QUOTE, 65, QUOTE] == [QUOTE, QUOTE, 65, QUOTE];
  }

  lemma SplicedQuote()
    ensures Count([QUOTE], QUESTION) == 0 && Splice(AllSpecials, [QUOTE], []) == [QUOTE]
  {
    SpliceMore(AllSpecials, [], [], QUOTE);
    assert [] + [QUOTE] == [QUOTE];
  }

  lemma RenderedLetter()
    ensures Render(AllSpecials, Str([65])) == [QUOTE, 65, QUOTE]
  {
    EscapeStep(AllSpecials, [65], 0);
    assert Escape(AllSpecials, [65][..0]) == [] && [65][..1] == [65];
  }

  lemma ReadInQuotes(mode: Mode)
    ensures Lex(mode, [QUOTE, QUOTE, 65, QUOTE, QUOTE]) == Some([Text(QUOTE, []), Word([65]), Text(QUOTE, [])])
  {
    var word := Scan(InWord([65]), [Text(QUOTE, [])]);
    RunThreeBytes(mode, QUOTE, QUOTE, 65);
    assert Run(mode, START, [QUOTE, QUOTE, 65]) == word;
    RunMore(mode, [QUOTE, QUOTE, 65], QUOTE);
    RunMore(mode, [QUOTE, QUOTE, 65, QUOTE], QUOTE);
    assert [QUOTE, QUOTE, 65] + [QUOTE] == [QUOTE, QUOTE, 65, QUOTE];
    assert [QUOTE, QUOTE, 65, QUOTE] + [QUOTE] == [QUOTE, QUOTE, 65, QUOTE, QUOTE];
    var two := [Text(QUOTE, []), Word([65])];
    assert Run(mode, START, [QUOTE, QUOTE, 65, QUOTE, QUOTE]) == Scan(AfterQuote(QUOTE, []), two);
    assert two + [Text(QUOTE, [])] == [Text(QUOTE, []), Word([65]), Text(QUOTE, [])];
  }

  /** The builder binds an argument to the `?` of a quoted text, in which MySQL sees no
      placeholder; with the argument's literal in its place, the quoted text ends early. */
  lemma PlaceholderInQuotes(mode: Mode)
    ensures var query := [QUOTE, QUESTION, QUOTE];
      && Count(query, QUESTION) == 1
      && Lex(mode, query) == Some([Text(QUOTE, [QUESTION])])
      && Lex(mode, Splice(AllSpecials, query, [Str([65])])) == Some([Text(QUOTE, []), Word([65]), Text(QUOTE, [])])
  {
    RunThreeBytes(mode, QUOTE, QUESTION, QUOTE);
    assert [] + [QUESTION] == [QUESTION];
    assert Run(mode, START, [QUOTE, QUESTION, QUOTE]) == Scan(AfterQuote(QUOTE, [QUESTION]), []);
    assert [] + [Text(QUOTE, [QUESTION])] == [Text(QUOTE, [QUESTION])];
    SplicedInQuotes();
    ReadInQuotes(mode);
  }
}
