/** The finished condition, as MySQL reads it: a conjunction of membership tests. */
module WhereReading {
  import opened Options
  import opened Bytes
  import opened Sequences
  import opened StringLiteral
  import opened Decimal
  import opened SqlTokens
  import opened Interpolate
  import opened TokenPreservation
  import opened WhereClause

  /** A column is one of the given values. */
  datatype Test = Test(column: seq<byte>, values: seq<Value>)

  // ---- column names ----

  /** Word bytes only, as the lexer reads one word. */
  predicate IsWord(name: seq<byte>) {
    name != [] && forall i | 0 <= i < |name| :: IsWordByte(name[i])
  }

  function UpperByte(c: byte): byte {
    if 97 <= c <= 122 then c - 32 else c
  }

  function UpperCase(w: seq<byte>): seq<byte> {
    seq(|w|, i requires 0 <= i < |w| => UpperByte(w[i]))
  }

  /** The word starts like a number in scientific notation: digits, an E, and a digit. */
  predicate HasExponent(w: seq<byte>) {
    exists k | 0 < k < |w| - 1 :: AllDigits(w[..k]) && UpperByte(w[k]) == 69 && IsDigit(w[k + 1])
  }

  predicate IsHexadecimal(w: seq<byte>) {
    |w| > 2 && w[0] == ZERO && w[1] == 120 &&
    forall i | 2 <= i < |w| :: IsDigit(w[i]) || 65 <= UpperByte(w[i]) <= 70
  }

  predicate IsBinary(w: seq<byte>) {
    |w| > 2 && w[0] == ZERO && w[1] == 98 && forall i | 2 <= i < |w| :: w[i] == ZERO || w[i] == ONE
  }

  /** A word that MySQL reads as a number, or as one with something after it (sections 9.1.2,
      9.1.4 and 9.1.5 of the manual). */
  predicate IsNumber(w: seq<byte>) {
    AllDigits(w) || HasExponent(w) || IsHexadecimal(w) || IsBinary(w)
  }

  /** A word that names a column when it is not quoted: no number and no reserved word
      (section 9.2). `reserved` holds, in upper case, the words to which the server gives a
      meaning of their own: the reserved words of section 9.3 and the introducers of its
      character sets. */
  predicate IsColumn(reserved: set<seq<byte>>, w: seq<byte>) {
    !IsNumber(w) && UpperCase(w) !in reserved
  }

  // ---- parsing tokens ----

  /** One value, and the tokens after it. */
  function ParseValue(ts: seq<Token>): (r: Option<(Value, seq<Token>)>)
    ensures r.Some? ==> |r.value.1| < |ts|
  {
    if ts != [] && ReadValue(ts[..1]).Some? then Some((ReadValue(ts[..1]).value, ts[1..]))
    else if |ts| > 1 && ReadValue(ts[..2]).Some? then Some((ReadValue(ts[..2]).value, ts[2..]))
    else None
  }

  /** Values separated by commas, up to a closing parenthesis. */
  function ParseList(ts: seq<Token>): (r: Option<(seq<Value>, seq<Token>)>)
    ensures r.Some? ==> |r.value.1| < |ts|
    decreases |ts|
  {
    var (v, rest) :- ParseValue(ts);
    if rest == [] then None
    else if rest[0] == Punct(RIGHT_PAREN) then Some(([v], rest[1..]))
    else if rest[0] == Punct(COMMA) then
      var (vs, end) :- ParseList(rest[1..]);
      Some(([v] + vs, end))
    else None
  }

  function InKeyword(): Token { Word(Ascii("IN")) }
  function AndKeyword(): Token { Word(Ascii("AND")) }

  /** A column is compared with a value or a list; any other first token is no column. */
  function ParseTest(reserved: set<seq<byte>>, ts: seq<Token>): (r: Option<(Test, seq<Token>)>)
    ensures r.Some? ==> |r.value.1| < |ts|
  {
    if |ts| < 3 || !ts[0].Word? || !IsColumn(reserved, ts[0].text) then None
    else if ts[1] == Punct(EQUALS) then
      var (v, rest) :- ParseValue(ts[2..]);
      Some((Test(ts[0].text, [v]), rest))
    else if ts[1] == InKeyword() && ts[2] == Punct(LEFT_PAREN) then
      var (vs, rest) :- ParseList(ts[3..]);
      Some((Test(ts[0].text, vs), rest))
    else None
  }

  /** Tests joined by AND. */
  function ParseTests(reserved: set<seq<byte>>, ts: seq<Token>): Option<seq<Test>>
    decreases |ts|
  {
    var (t, rest) :- ParseTest(reserved, ts);
    if rest == [] then Some([t])
    else if rest[0] == AndKeyword() then
      var more :- ParseTests(reserved, rest[1..]);
      Some([t] + more)
    else None
  }

  /** A whole condition, as a server in the given mode reads it; the empty text tests nothing. */
  function ReadClause(mode: Mode, reserved: set<seq<byte>>, s: seq<byte>): Option<seq<Test>> {
    var ts :- Lex(mode, s);
    if ts == [] then Some([]) else ParseTests(reserved, ts)
  }

  // ---- what the clause should say ----

  function Values(items: seq<Arg>): (vs: seq<Value>)
    requires AreItems(items)
    ensures |vs| == |items|
  {
    seq(|items|, i requires 0 <= i < |items| => ValueOf(items[i]))
  }

  /** The values a column asks for. */
  function Asked(c: Column): (vs: seq<Value>)
    ensures vs == Values(Items(c))
  {
    match c
    case Texts(ts) => seq(|ts|, i requires 0 <= i < |ts| => TextValue(ts[i]))
    case Ints(ns) => seq(|ns|, i requires 0 <= i < |ns| => IntValue(ns[i]))
    case OneText(t) => [TextValue(t)]
    case OneInt(n) => [IntValue(n)]
    case OtherType => []
  }

  /** The tests, in the order in which the map was visited. */
  function Tests(cols: map<seq<byte>, Column>, order: seq<seq<byte>>): seq<Test>
    requires forall i | 0 <= i < |order| :: order[i] in cols
  {
    if order == [] then []
    else
      var before, name := Tests(cols, order[..|order| - 1]), order[|order| - 1];
      if Asked(cols[name]) == [] then before else before + [Test(name, Asked(cols[name]))]
  }

  // ---- the tokens of a clause ----

  function ItemTokens(a: Arg): seq<Token>
    requires a.Str? || a.Int?
  {
    Settled(Reached(a))
  }

  function ListTokens(items: seq<Arg>): seq<Token>
    requires AreItems(items)
  {
    if items == [] then []
    else if |items| == 1 then ItemTokens(items[0])
    else ListTokens(items[..|items| - 1]) + [Punct(COMMA)] + ItemTokens(items[|items| - 1])
  }

  function ConditionTokens(name: seq<byte>, items: seq<Arg>): seq<Token>
    requires AreItems(items)
  {
    if |items| == 1 then [Word(name), Punct(EQUALS)] + ListTokens(items)
    else [Word(name)] + [InKeyword(), Punct(LEFT_PAREN)] + ListTokens(items) + [Punct(RIGHT_PAREN)]
  }

  function ClauseTokens(cols: map<seq<byte>, Column>, order: seq<seq<byte>>): seq<Token>
    requires forall i | 0 <= i < |order| :: order[i] in cols
  {
    if order == [] then []
    else
      var before, name := ClauseTokens(cols, order[..|order| - 1]), order[|order| - 1];
      var items := Items(cols[name]);
      if items == [] then before
      else if before == [] then ConditionTokens(name, items)
      else before + [AndKeyword()] + ConditionTokens(name, items)
  }

  /** Read from where a token may begin, the text makes these tokens; when `open`, the last
      of them is held back until a delimiter comes. */
  predicate Reads(mode: Mode, t: seq<byte>, ts: seq<Token>, open: bool) {
    var r := Run(mode, START, t);
    Settled(r) == ts && if open then IsSettled(r.st) else r.st.Normal?
  }

  lemma DelimiterSettles(mode: Mode, r: Scan, c: byte)
    requires IsSettled(r.st) && IsDelimiter(c)
    ensures Advance(mode, r, c) == Advance(mode, Scan(Normal, Settled(r)), c)
  {
    var (_, ts) := Begin(c);
    var held := Pending(r.st).value;
    assert r.tokens + (held + ts) == r.tokens + held + ts;
    assert r.tokens + held + [] == r.tokens + held;
  }

  lemma ReadsConcat(mode: Mode, a: seq<byte>, as_: seq<Token>, openA: bool, b: seq<byte>, bs: seq<Token>, openB: bool)
    requires Reads(mode, a, as_, openA) && Reads(mode, b, bs, openB)
    requires b != [] && (openA ==> IsDelimiter(b[0]))
    ensures Reads(mode, a + b, as_ + bs, openB)
  {
    var r, anew, rb := Run(mode, START, a), Scan(Normal, as_), Run(mode, START, b);
    calc {
      Run(mode, START, a + b);
      { RunConcat(mode, START, a, b); }
      Run(mode, r, b);
      { OneByte(mode, r, b); }
      Run(mode, Advance(mode, r, b[0]), b[1..]);
      { if openA { DelimiterSettles(mode, r, b[0]); } else { assert r == anew; } }
      Run(mode, Advance(mode, anew, b[0]), b[1..]);
      { OneByte(mode, anew, b); }
      Run(mode, anew, b);
      { RunFrame(mode, anew, b); }
      Scan(rb.st, as_ + rb.tokens);
    }
    assert as_ + rb.tokens + Pending(rb.st).value == as_ + (rb.tokens + Pending(rb.st).value);
  }

  lemma ReadsByte(mode: Mode, c: byte)
    requires IsDelimiter(c)
    ensures Reads(mode, [c], if c == SPACE then [] else [Punct(c)], false)
  {
    RunOne(mode, START, c);
  }

  lemma ReadsName(mode: Mode, name: seq<byte>)
    requires IsWord(name)
    ensures Reads(mode, name, [Word(name)], true)
  {
    WordSettles(mode, name);
  }

  lemma ReadsKeyword(mode: Mode, w: seq<byte>)
    requires IsWord(w)
    ensures Reads(mode, [SPACE] + w + [SPACE], [Word(w)], false)
  {
    ReadsByte(mode, SPACE);
    ReadsName(mode, w);
    ReadsConcat(mode, [SPACE], [], false, w, [Word(w)], true);
    ReadsConcat(mode, [SPACE] + w, [] + [Word(w)], true, [SPACE], [], false);
    assert [] + [Word(w)] + [] == [Word(w)];
  }

  lemma ReadsInOpening(mode: Mode)
    ensures Reads(mode, InOpening(), [InKeyword(), Punct(LEFT_PAREN)], false)
  {
    var w := Ascii("IN");
    ReadsKeyword(mode, w);
    ReadsByte(mode, LEFT_PAREN);
    ReadsConcat(mode, [SPACE] + w + [SPACE], [Word(w)], false, [LEFT_PAREN], [Punct(LEFT_PAREN)], false);
    assert InOpening() == [SPACE] + w + [SPACE] + [LEFT_PAREN];
    assert [Word(w)] + [Punct(LEFT_PAREN)] == [InKeyword(), Punct(LEFT_PAREN)];
  }

  lemma ReadsAnd(mode: Mode)
    ensures Reads(mode, AndText(), [AndKeyword()], false)
  {
    var w := Ascii("AND");
    ReadsKeyword(mode, w);
    assert AndText() == [SPACE] + w + [SPACE];
  }

  /** Bytes that the clause's escaping leaves alone. */
  predicate PlainText(v: seq<byte>) {
    QUOTE !in v && BACKSLASH !in v
  }

  /** A server with backslash escapes undoes the escaping; one without reads an item as it is
      meant only if there was nothing to escape. */
  predicate PlainItem(mode: Mode, a: Arg) {
    mode.Backslash? || !a.Str? || PlainText(a.v)
  }

  predicate PlainItems(mode: Mode, items: seq<Arg>) {
    forall i | 0 <= i < |items| :: PlainItem(mode, items[i])
  }

  predicate PlainValues(mode: Mode, cols: map<seq<byte>, Column>, order: seq<seq<byte>>)
    requires forall i | 0 <= i < |order| :: order[i] in cols
  {
    forall i | 0 <= i < |order| :: PlainItems(mode, Items(cols[order[i]]))
  }

  lemma PlainEitherWay(v: seq<byte>)
    requires PlainText(v)
    ensures Render(BackslashAndQuote, Str(v)) == Render(DoubledQuotes, Str(v))
  {
    PlainEscapes(v);
  }

  lemma PlainEscapes(v: seq<byte>)
    requires PlainText(v)
    ensures Escape(BackslashAndQuote, v) == v == Escape(DoubledQuotes, v)
  {
    forall i | 0 <= i < |v|
      ensures EscapeByte(BackslashAndQuote, v[i]) == [v[i]] && EscapeByte(DoubledQuotes, v[i]) == [v[i]]
    {
      assert v[i] in v;
    }
    EscapePlain(BackslashAndQuote, v);
    EscapePlain(DoubledQuotes, v);
  }

  lemma ReadsItem(mode: Mode, a: Arg)
    requires (a.Str? || a.Int?) && PlainItem(mode, a)
    ensures Reads(mode, Render(BackslashAndQuote, a), ItemTokens(a), true)
    ensures Render(BackslashAndQuote, a) != []
  {
    if mode.Backslash? {
      ArgumentReached(BackslashAndQuote, a);
    } else {
      ArgumentReached(DoubledQuotes, a);
      if a.Str? {
        PlainEitherWay(a.v);
      }
    }
  }

  lemma {:induction false} ReadsList(mode: Mode, items: seq<Arg>)
    requires AreItems(items) && items != [] && PlainItems(mode, items)
    ensures Reads(mode, ListText(items), ListTokens(items), true) && ListText(items) != []
  {
    var last := items[|items| - 1];
    ReadsItem(mode, last);
    if |items| > 1 {
      var before := items[..|items| - 1];
      ReadsList(mode, before);
      ReadsByte(mode, COMMA);
      ReadsConcat(mode, ListText(before), ListTokens(before), true, [COMMA], [Punct(COMMA)], false);
      ReadsConcat(mode, ListText(before) + [COMMA], ListTokens(before) + [Punct(COMMA)], false,
        Render(BackslashAndQuote, last), ItemTokens(last), true);
    }
  }

  lemma ReadsClosing(mode: Mode)
    ensures Reads(mode, [RIGHT_PAREN, SPACE], [Punct(RIGHT_PAREN)], false)
  {
    ReadsByte(mode, RIGHT_PAREN);
    ReadsByte(mode, SPACE);
    ReadsConcat(mode, [RIGHT_PAREN], [Punct(RIGHT_PAREN)], false, [SPACE], [], false);
    assert [RIGHT_PAREN] + [SPACE] == [RIGHT_PAREN, SPACE];
    assert [Punct(RIGHT_PAREN)] + [] == [Punct(RIGHT_PAREN)];
  }

  lemma ReadsCondition(mode: Mode, name: seq<byte>, items: seq<Arg>)
    requires IsWord(name) && AreItems(items) && items != [] && PlainItems(mode, items)
    ensures Reads(mode, Condition(name, items), ConditionTokens(name, items), |items| == 1)
    ensures Condition(name, items) != []
  {
    ReadsName(mode, name);
    ReadsList(mode, items);
    var w := [Word(name)];
    if |items| == 1 {
      ReadsByte(mode, EQUALS);
      ReadsConcat(mode, name, w, true, [EQUALS], [Punct(EQUALS)], false);
      assert w + [Punct(EQUALS)] == [Word(name), Punct(EQUALS)];
      ReadsConcat(mode, name + [EQUALS], w + [Punct(EQUALS)], false, ListText(items), ListTokens(items), true);
    } else {
      ReadsInOpening(mode);
      ReadsClosing(mode);
      var opening := [InKeyword(), Punct(LEFT_PAREN)];
      ReadsConcat(mode, name, w, true, InOpening(), opening, false);
      ReadsConcat(mode, name + InOpening(), w + opening, false, ListText(items), ListTokens(items), true);
      ReadsConcat(mode, name + InOpening() + ListText(items), w + opening + ListTokens(items), true,
        [RIGHT_PAREN, SPACE], [Punct(RIGHT_PAREN)], false);
    }
  }

  lemma ReadsAnother(mode: Mode, before: seq<byte>, ts: seq<Token>, open: bool, name: seq<byte>, items: seq<Arg>)
    requires Reads(mode, before, ts, open) && IsWord(name) && AreItems(items) && items != [] && PlainItems(mode, items)
    ensures Reads(mode, before + AndText() + Condition(name, items),
      ts + [AndKeyword()] + ConditionTokens(name, items), |items| == 1)
  {
    ReadsCondition(mode, name, items);
    ReadsAnd(mode);
    ReadsConcat(mode, before, ts, open, AndText(), [AndKeyword()], false);
    ReadsConcat(mode, before + AndText(), ts + [AndKeyword()], false,
      Condition(name, items), ConditionTokens(name, items), |items| == 1);
  }

  // One more column at the end of a clause that reads as it should so far.
  lemma ReadsNext(mode: Mode, before: seq<byte>, ts: seq<Token>, open: bool, name: seq<byte>, items: seq<Arg>)
    requires Reads(mode, before, ts, open) && (before == [] <==> ts == [])
    requires IsWord(name) && AreItems(items) && items != [] && PlainItems(mode, items)
    ensures if before == [] then Reads(mode, Condition(name, items), ConditionTokens(name, items), |items| == 1)
      else Reads(mode, before + AndText() + Condition(name, items),
        ts + [AndKeyword()] + ConditionTokens(name, items), |items| == 1)
    ensures Condition(name, items) != [] && ConditionTokens(name, items) != []
  {
    ReadsCondition(mode, name, items);
    if before != [] {
      ReadsAnother(mode, before, ts, open, name, items);
    }
  }

  lemma {:induction false} ReadsClause(mode: Mode, cols: map<seq<byte>, Column>, order: seq<seq<byte>>)
    returns (open: bool)
    requires forall i | 0 <= i < |order| :: order[i] in cols && IsWord(order[i])
    requires PlainValues(mode, cols, order)
    ensures Reads(mode, Clause(cols, order), ClauseTokens(cols, order), open)
    ensures Clause(cols, order) == [] <==> ClauseTokens(cols, order) == []
  {
    if order == [] {
      open := false;
    } else {
      var order', name := order[..|order| - 1], order[|order| - 1];
      open := ReadsClause(mode, cols, order');
      var items := Items(cols[name]);
      if items != [] {
        ReadsNext(mode, Clause(cols, order'), ClauseTokens(cols, order'), open, name, items);
        open := |items| == 1;
      }
    }
  }

  // ---- parsing those tokens ----

  lemma ParseItem(a: Arg, rest: seq<Token>)
    requires a.Str? || a.Int?
    ensures ParseValue(ItemTokens(a) + rest) == Some((ValueOf(a), rest))
  {
    ReachedMeaning(a);
    var ts := ItemTokens(a) + rest;
    if a.Int? && a.n < 0 {
      assert ts[..1] == [Punct(MINUS)];
      assert ts[..2] == ItemTokens(a) && ts[2..] == rest;
    } else {
      assert ts[..1] == ItemTokens(a) && ts[1..] == rest;
    }
  }

  lemma ParseListItem(a: Arg, rest: seq<Token>)
    requires a.Str? || a.Int?
    ensures ParseList(ItemTokens(a) + ([Punct(RIGHT_PAREN)] + rest)) == Some(([ValueOf(a)], rest))
    ensures ParseList(rest).Some? ==>
      ParseList(ItemTokens(a) + ([Punct(COMMA)] + rest))
      == Some(([ValueOf(a)] + ParseList(rest).value.0, ParseList(rest).value.1))
  {
    ParseItem(a, [Punct(RIGHT_PAREN)] + rest);
    assert ([Punct(RIGHT_PAREN)] + rest)[1..] == rest;
    ParseItem(a, [Punct(COMMA)] + rest);
    assert ([Punct(COMMA)] + rest)[1..] == rest;
  }

  lemma ValuesOfLast(items: seq<Arg>, end: seq<Value>)
    requires AreItems(items) && items != []
    ensures Values(items) + end == Values(items[..|items| - 1]) + ([ValueOf(items[|items| - 1])] + end)
    ensures Values(items) == Values(items[..|items| - 1]) + [ValueOf(items[|items| - 1])]
  {
  }

  lemma {:induction false} ParseItems(items: seq<Arg>, more: seq<Token>)
    requires AreItems(items) && items != [] && ParseList(more).Some?
    ensures ParseList(ListTokens(items) + ([Punct(COMMA)] + more))
      == Some((Values(items) + ParseList(more).value.0, ParseList(more).value.1))
  {
    var before, last := items[..|items| - 1], items[|items| - 1];
    var (vs, end) := ParseList(more).value;
    var more' := ItemTokens(last) + ([Punct(COMMA)] + more);
    ParseListItem(last, more);
    ValuesOfLast(items, vs);
    if before == [] {
      assert Values(before) + ([ValueOf(last)] + vs) == [ValueOf(last)] + vs;
    } else {
      calc {
        ParseList(ListTokens(items) + ([Punct(COMMA)] + more));
        { Regroup(ListTokens(before), [Punct(COMMA)], ItemTokens(last), [Punct(COMMA)] + more); }
        ParseList(ListTokens(before) + ([Punct(COMMA)] + more'));
        { ParseItems(before, more'); }
        Some((Values(before) + ([ValueOf(last)] + vs), end));
        Some((Values(items) + vs, end));
      }
    }
  }

  lemma ParseWholeList(items: seq<Arg>, rest: seq<Token>)
    requires AreItems(items) && items != []
    ensures ParseList(ListTokens(items) + ([Punct(RIGHT_PAREN)] + rest)) == Some((Values(items), rest))
  {
    var before, last := items[..|items| - 1], items[|items| - 1];
    var more := ItemTokens(last) + ([Punct(RIGHT_PAREN)] + rest);
    ParseListItem(last, rest);
    ValuesOfLast(items, []);
    if before == [] {
      assert Values(before) + [ValueOf(last)] == [ValueOf(last)];
    } else {
      calc {
        ParseList(ListTokens(items) + ([Punct(RIGHT_PAREN)] + rest));
        { Regroup(ListTokens(before), [Punct(COMMA)], ItemTokens(last), [Punct(RIGHT_PAREN)] + rest); }
        ParseList(ListTokens(before) + ([Punct(COMMA)] + more));
        { ParseItems(before, more); }
        Some((Values(before) + [ValueOf(last)], rest));
        Some((Values(items), rest));
      }
    }
  }

  lemma ParseEquals(reserved: set<seq<byte>>, name: seq<byte>, a: Arg, rest: seq<Token>)
    requires IsColumn(reserved, name) && (a.Str? || a.Int?)
    ensures ParseTest(reserved, [Word(name), Punct(EQUALS)] + ItemTokens(a) + rest)
      == Some((Test(name, [ValueOf(a)]), rest))
  {
    var ts := [Word(name), Punct(EQUALS)] + ItemTokens(a) + rest;
    ParseItem(a, rest);
    assert ts[2..] == ItemTokens(a) + rest;
  }

  lemma InTokens(name: seq<byte>, list: seq<Token>, rest: seq<Token>)
    ensures [Word(name)] + [InKeyword(), Punct(LEFT_PAREN)] + list + [Punct(RIGHT_PAREN)] + rest
      == [Word(name), InKeyword(), Punct(LEFT_PAREN)] + (list + ([Punct(RIGHT_PAREN)] + rest))
  {
  }

  lemma ParseIn(reserved: set<seq<byte>>, name: seq<byte>, items: seq<Arg>, rest: seq<Token>)
    requires IsColumn(reserved, name) && AreItems(items) && items != []
    ensures ParseTest(reserved,
      [Word(name)] + [InKeyword(), Punct(LEFT_PAREN)] + ListTokens(items) + [Punct(RIGHT_PAREN)] + rest)
      == Some((Test(name, Values(items)), rest))
  {
    var list := ListTokens(items) + ([Punct(RIGHT_PAREN)] + rest);
    InTokens(name, ListTokens(items), rest);
    ParseWholeList(items, rest);
    assert ([Word(name), InKeyword(), Punct(LEFT_PAREN)] + list)[3..] == list;
  }

  lemma ConditionFirst(name: seq<byte>, items: seq<Arg>, rest: seq<Token>)
    requires AreItems(items) && items != []
    ensures ConditionTokens(name, items) != [] && (ConditionTokens(name, items) + rest)[0] == Word(name)
  {
  }

  /** A condition parses as its test if its name is a column's, and not at all if not. */
  lemma ParseCondition(reserved: set<seq<byte>>, name: seq<byte>, items: seq<Arg>, rest: seq<Token>)
    requires AreItems(items) && items != []
    ensures ParseTest(reserved, ConditionTokens(name, items) + rest)
      == if IsColumn(reserved, name) then Some((Test(name, Values(items)), rest)) else None
  {
    if !IsColumn(reserved, name) {
      ConditionFirst(name, items, rest);
    } else if |items| == 1 {
      ParseEquals(reserved, name, items[0], rest);
      assert Values(items) == [ValueOf(items[0])];
    } else {
      ParseIn(reserved, name, items, rest);
    }
  }

  /** What may follow a test: nothing, or AND and more tests. */
  function Continued(more: Option<seq<Token>>): seq<Token> {
    match more
    case None => []
    case Some(ts) => [AndKeyword()] + ts
  }

  function ParseContinued(reserved: set<seq<byte>>, more: Option<seq<Token>>): Option<seq<Test>> {
    match more
    case None => Some([])
    case Some(ts) => ParseTests(reserved, ts)
  }

  function Prepend(tests: seq<Test>, more: Option<seq<Test>>): Option<seq<Test>> {
    match more
    case None => None
    case Some(ts) => Some(tests + ts)
  }

  lemma ParseOneTest(reserved: set<seq<byte>>, name: seq<byte>, items: seq<Arg>, more: Option<seq<Token>>)
    requires AreItems(items) && items != []
    ensures ParseTests(reserved, ConditionTokens(name, items) + Continued(more)) ==
      if IsColumn(reserved, name) then Prepend([Test(name, Values(items))], ParseContinued(reserved, more)) else None
  {
    ParseCondition(reserved, name, items, Continued(more));
    if more.Some? {
      assert Continued(more)[1..] == more.value;
    } else {
      assert [Test(name, Values(items))] + [] == [Test(name, Values(items))];
    }
  }

  /** The columns that the clause mentions are names MySQL reads as columns. */
  predicate NamesColumns(reserved: set<seq<byte>>, cols: map<seq<byte>, Column>, order: seq<seq<byte>>)
    requires forall i | 0 <= i < |order| :: order[i] in cols
  {
    forall i | 0 <= i < |order| && Asked(cols[order[i]]) != [] :: IsColumn(reserved, order[i])
  }

  lemma NamesColumnsStep(reserved: set<seq<byte>>, cols: map<seq<byte>, Column>, order: seq<seq<byte>>)
    requires order != [] && forall i | 0 <= i < |order| :: order[i] in cols
    ensures var before, name := order[..|order| - 1], order[|order| - 1];
      NamesColumns(reserved, cols, order)
      <==> NamesColumns(reserved, cols, before) && (Asked(cols[name]) != [] ==> IsColumn(reserved, name))
  {
    assert forall i | 0 <= i < |order| - 1 :: order[..|order| - 1][i] == order[i];
  }

  lemma PrependTests(a: seq<Test>, b: seq<Test>, more: Option<seq<Test>>)
    ensures Prepend(a, Prepend(b, more)) == Prepend(a + b, more)
    ensures Prepend([], more) == more
  {
    if more.Some? {
      assert a + (b + more.value) == a + b + more.value;
      assert [] + more.value == more.value;
    }
  }

  /** What the parser makes of the tokens of a clause with whatever follows them: its tests and
      what follows if all its names are columns', and nothing if one is not. */
  function Parsed(reserved: set<seq<byte>>, cols: map<seq<byte>, Column>, order: seq<seq<byte>>,
    more: Option<seq<Token>>): Option<seq<Test>>
    requires forall i | 0 <= i < |order| :: order[i] in cols
  {
    if NamesColumns(reserved, cols, order) then Prepend(Tests(cols, order), ParseContinued(reserved, more)) else None
  }

  lemma {:induction false} ParseClause(reserved: set<seq<byte>>, cols: map<seq<byte>, Column>,
    order: seq<seq<byte>>, more: Option<seq<Token>>)
    requires forall i | 0 <= i < |order| :: order[i] in cols
    requires ClauseTokens(cols, order) != []
    ensures ParseTests(reserved, ClauseTokens(cols, order) + Continued(more)) == Parsed(reserved, cols, order, more)
    decreases |order|
  {
    var order', name := order[..|order| - 1], order[|order| - 1];
    var items := Items(cols[name]);
    if items == [] {
      ParseClause(reserved, cols, order', more);
      ParsedSkip(reserved, cols, order, more);
    } else if ClauseTokens(cols, order') == [] {
      ParseFirst(reserved, cols, order, more);
    } else {
      ParseClause(reserved, cols, order', Some(ConditionTokens(name, items) + Continued(more)));
      ParseAnother(reserved, cols, order, more);
    }
  }

  // A column without values changes nothing.
  lemma ParsedSkip(reserved: set<seq<byte>>, cols: map<seq<byte>, Column>, order: seq<seq<byte>>,
    more: Option<seq<Token>>)
    requires order != [] && forall i | 0 <= i < |order| :: order[i] in cols
    requires Items(cols[order[|order| - 1]]) == []
    ensures Parsed(reserved, cols, order, more) == Parsed(reserved, cols, order[..|order| - 1], more)
  {
    NamesColumnsStep(reserved, cols, order);
  }

  // The first column with values.
  lemma ParseFirst(reserved: set<seq<byte>>, cols: map<seq<byte>, Column>, order: seq<seq<byte>>,
    more: Option<seq<Token>>)
    requires order != [] && forall i | 0 <= i < |order| :: order[i] in cols
    requires Items(cols[order[|order| - 1]]) != [] && ClauseTokens(cols, order[..|order| - 1]) == []
    ensures ParseTests(reserved, ClauseTokens(cols, order) + Continued(more)) == Parsed(reserved, cols, order, more)
  {
    var order', name := order[..|order| - 1], order[|order| - 1];
    var t := Test(name, Values(Items(cols[name])));
    NamesColumnsStep(reserved, cols, order);
    NoTokensNamesColumns(reserved, cols, order');
    NoTests(cols, order');
    assert Tests(cols, order) == [] + [t] == [t];
    ParseOneTest(reserved, name, Items(cols[name]), more);
  }

  // A further column with values: what precedes it is parsed with the condition following.
  lemma ParseAnother(reserved: set<seq<byte>>, cols: map<seq<byte>, Column>, order: seq<seq<byte>>,
    more: Option<seq<Token>>)
    requires order != [] && forall i | 0 <= i < |order| :: order[i] in cols
    requires Items(cols[order[|order| - 1]]) != [] && ClauseTokens(cols, order[..|order| - 1]) != []
    requires var order', name := order[..|order| - 1], order[|order| - 1];
      var more' := Some(ConditionTokens(name, Items(cols[name])) + Continued(more));
      ParseTests(reserved, ClauseTokens(cols, order') + Continued(more')) == Parsed(reserved, cols, order', more')
    ensures ParseTests(reserved, ClauseTokens(cols, order) + Continued(more)) == Parsed(reserved, cols, order, more)
  {
    var order', name := order[..|order| - 1], order[|order| - 1];
    var items, ts := Items(cols[name]), ClauseTokens(cols, order');
    NamesColumnsStep(reserved, cols, order);
    Regroup(ts, [AndKeyword()], ConditionTokens(name, items), Continued(more));
    ParseOneTest(reserved, name, items, more);
    PrependTests(Tests(cols, order'), [Test(name, Values(items))], ParseContinued(reserved, more));
  }

  lemma {:induction false} NoTokensNamesColumns(reserved: set<seq<byte>>, cols: map<seq<byte>, Column>,
    order: seq<seq<byte>>)
    requires forall i | 0 <= i < |order| :: order[i] in cols
    requires ClauseTokens(cols, order) == []
    ensures NamesColumns(reserved, cols, order)
  {
    if order != [] {
      NamesColumnsStep(reserved, cols, order);
      NoTokensNamesColumns(reserved, cols, order[..|order| - 1]);
    }
  }

  lemma {:induction false} NoTests(cols: map<seq<byte>, Column>, order: seq<seq<byte>>)
    requires forall i | 0 <= i < |order| :: order[i] in cols
    ensures ClauseTokens(cols, order) == [] <==> Tests(cols, order) == []
  {
    if order != [] {
      NoTests(cols, order[..|order| - 1]);
    }
  }

  /** With names of word bytes, and values that the server's mode leaves plain, MySQL reads the
      clause back as exactly the tests meant when each column with a value has a name that is
      read as a column, and not at all when not. With backslash escapes every value is plain. */
  lemma ClauseReadsBack(mode: Mode, reserved: set<seq<byte>>, cols: map<seq<byte>, Column>, order: seq<seq<byte>>)
    requires forall i | 0 <= i < |order| :: order[i] in cols && IsWord(order[i])
    requires PlainValues(mode, cols, order)
    ensures ReadClause(mode, reserved, Clause(cols, order))
      == if NamesColumns(reserved, cols, order) then Some(Tests(cols, order)) else None
  {
    var open := ReadsClause(mode, cols, order);
    NoTests(cols, order);
    var ts := ClauseTokens(cols, order);
    assert Lex(mode, Clause(cols, order)) == Some(ts);
    if ts == [] {
      NoTokensNamesColumns(reserved, cols, order);
    } else {
      ParseClause(reserved, cols, order, None);
      assert ts + [] == ts && Tests(cols, order) + [] == Tests(cols, order);
    }
  }

  /** The tests are those of the columns with a value to test against, whatever the order. */
  lemma {:induction false} TestsExact(cols: map<seq<byte>, Column>, order: seq<seq<byte>>, t: Test)
    requires forall i | 0 <= i < |order| :: order[i] in cols
    ensures t in Tests(cols, order)
      <==> t.column in order && t.values != [] && t.values == Asked(cols[t.column])
  {
    if order != [] {
      TestsExact(cols, order[..|order| - 1], t);
      assert order == order[..|order| - 1] + [order[|order| - 1]];
    }
  }

  lemma Occurrences<T>(s: seq<T>, last: T, x: T)
    ensures multiset(s + [last])[x] == multiset(s)[x] + if last == x then 1 else 0
  {
    assert multiset(s + [last]) == multiset(s) + multiset([last]);
  }

  lemma TestAdded(cols: map<seq<byte>, Column>, before: seq<seq<byte>>, name: seq<byte>, t: Test)
    requires name in cols && forall i | 0 <= i < |before| :: before[i] in cols
    ensures multiset(Tests(cols, before + [name]))[t]
      == multiset(Tests(cols, before))[t] + if Demands(cols, t) && t.column == name then 1 else 0
  {
    var order, items := before + [name], Items(cols[name]);
    assert order[..|order| - 1] == before;
    if items != [] {
      Occurrences(Tests(cols, before), Test(name, Values(items)), t);
    }
  }

  /** How often a visit tests `t`: as often as it comes to a column with these values. */
  lemma {:induction false} TestsOnce(cols: map<seq<byte>, Column>, order: seq<seq<byte>>, t: Test)
    requires forall i | 0 <= i < |order| :: order[i] in cols
    ensures multiset(Tests(cols, order))[t] == if Demands(cols, t) then multiset(order)[t.column] else 0
  {
    if order != [] {
      var before, name := order[..|order| - 1], order[|order| - 1];
      TestsOnce(cols, before, t);
      assert order == before + [name];
      Occurrences(before, name, t.column);
      TestAdded(cols, before, name, t);
    }
  }

  /** The map has values for the column of `t`, and they are the values of `t`. */
  predicate Demands(cols: map<seq<byte>, Column>, t: Test) {
    t.column in cols && t.values != [] && t.values == Asked(cols[t.column])
  }

  /** Every key of the map is one word. */
  ghost predicate AllWords(cols: map<seq<byte>, Column>) {
    forall name | name in cols :: IsWord(name)
  }

  /** Every key with values to test against is read as a column. */
  ghost predicate AllColumns(reserved: set<seq<byte>>, cols: map<seq<byte>, Column>) {
    forall name | name in cols && Asked(cols[name]) != [] :: IsColumn(reserved, name)
  }

  /** Every value is read as it is meant; with backslash escapes, any value is. */
  ghost predicate AllPlain(mode: Mode, cols: map<seq<byte>, Column>) {
    forall name | name in cols :: PlainItems(mode, Items(cols[name]))
  }

  lemma VisitedNames(mode: Mode, reserved: set<seq<byte>>, cols: map<seq<byte>, Column>,
    order: seq<seq<byte>>)
    requires Visits(cols, order) && AllWords(cols) && AllPlain(mode, cols)
    ensures forall i | 0 <= i < |order| :: order[i] in cols && IsWord(order[i])
    ensures PlainValues(mode, cols, order)
    ensures NamesColumns(reserved, cols, order) <==> AllColumns(reserved, cols)
  {
    if NamesColumns(reserved, cols, order) {
      forall name | name in cols && Asked(cols[name]) != [] ensures IsColumn(reserved, name) {
        assert name in multiset(order);
        var i :| 0 <= i < |order| && order[i] == name;
      }
    }
  }

  /** Whatever the order in which the map is visited, and with values plain in its mode, MySQL
      reads the clause back as each test the map demands, once, and no other test, exactly when
      every key with values is read as a column; otherwise it reads no condition at all. */
  lemma ReadsAsDemanded(mode: Mode, reserved: set<seq<byte>>, cols: map<seq<byte>, Column>,
    order: seq<seq<byte>>, t: Test)
    requires Visits(cols, order) && AllWords(cols) && AllPlain(mode, cols)
    ensures ReadClause(mode, reserved, Clause(cols, order)).Some? <==> AllColumns(reserved, cols)
    ensures AllColumns(reserved, cols) ==>
      multiset(ReadClause(mode, reserved, Clause(cols, order)).value)[t] == if Demands(cols, t) then 1 else 0
  {
    VisitedNames(mode, reserved, cols, order);
    ClauseReadsBack(mode, reserved, cols, order);
    TestsOnce(cols, order, t);
  }

  /** Two visits of one map read back as the same conjunction, or neither reads back. */
  lemma OrderDoesNotMatter(mode: Mode, reserved: set<seq<byte>>, cols: map<seq<byte>, Column>,
    order: seq<seq<byte>>, other: seq<seq<byte>>)
    requires Visits(cols, order) && Visits(cols, other) && AllWords(cols) && AllPlain(mode, cols)
    ensures var read := ReadClause(mode, reserved, Clause(cols, order));
      var read' := ReadClause(mode, reserved, Clause(cols, other));
      && (read.Some? <==> read'.Some?)
      && (read.Some? ==> multiset(read.value) == multiset(read'.value))
  {
    VisitedNames(mode, reserved, cols, order);
    VisitedNames(mode, reserved, cols, other);
    ClauseReadsBack(mode, reserved, cols, order);
    ClauseReadsBack(mode, reserved, cols, other);
    forall t: Test
      ensures multiset(Tests(cols, order))[t] == multiset(Tests(cols, other))[t]
    {
      TestsOnce(cols, order, t);
      TestsOnce(cols, other, t);
    }
  }

  // ---- names that are no columns ----

  /** A column named by a number or by a reserved word is written bare, and is not read as a
      column: the clause does not read back. */
  lemma NoColumn(reserved: set<seq<byte>>, name: seq<byte>, n: int)
    requires name == [ONE] || (IsWord(name) && UpperCase(name) in reserved)
    ensures ReadClause(Backslash, reserved, Clause(map[name := OneInt(n)], [name])).None?
  {
    var cols := map[name := OneInt(n)];
    assert name == [ONE] ==> AllDigits(name);
    ClauseReadsBack(Backslash, reserved, cols, [name]);
    assert [name][0] == name && Items(cols[name]) == [Int(n)];
    assert !NamesColumns(reserved, cols, [name]);
  }
}
