/** The condition as a server reads it that runs with NO_BACKSLASH_ESCAPES, although the clause
    is always written with backslashes: when it reads back, and when not. */
module WhereQuotes {
  import opened Options
  import opened Bytes
  import opened Sequences
  import opened StringLiteral
  import opened SqlTokens
  import opened Interpolate
  import opened TokenPreservation
  import opened WhereClause
  import opened WhereReading

  // ---- the bytes of an escaped value ----

  lemma {:induction false} EscapeFirst(style: Style, v: seq<byte>)
    requires v != []
    ensures Escape(style, v) == EscapeByte(style, v[0]) + Escape(style, v[1..])
  {
    if |v| == 1 {
      assert v[..0] == [] && v[1..] == [];
    } else {
      var v', c := v[..|v| - 1], v[|v| - 1];
      EscapeFirst(style, v');
      assert v[1..][..|v[1..]| - 1] == v'[1..];
      Associate(EscapeByte(style, v[0]), Escape(style, v'[1..]), EscapeByte(style, c));
    }
  }

  function Backslashes(n: nat): seq<byte> {
    seq(n, _ => BACKSLASH)
  }

  // With some backslashes in front, an escaped text has an initial part without quotes that
  // is not an initial part of the text itself.
  lemma {:induction false} AheadOf(n: nat, v: seq<byte>) returns (u: seq<byte>)
    requires n > 0
    ensures u <= Escape(BackslashAndQuote, v) && QUOTE !in u && !(Backslashes(n) + u <= v)
    decreases |v|
  {
    if v == [] || v[0] != BACKSLASH {
      u := [];
      assert (Backslashes(n) + u)[0] == BACKSLASH;
    } else {
      var rest := v[1..];
      var u' := AheadOf(n + 1, rest);
      EscapeFirst(BackslashAndQuote, v);
      u := [BACKSLASH, BACKSLASH] + u';
      OneMoreBackslash(n, u', rest);
      assert v == [BACKSLASH] + rest;
    }
  }

  lemma OneMoreBackslash(n: nat, u: seq<byte>, rest: seq<byte>)
    ensures Backslashes(n) + ([BACKSLASH, BACKSLASH] + u) <= [BACKSLASH] + rest
      <==> Backslashes(n + 1) + u <= rest
  {
    assert Backslashes(n) + ([BACKSLASH, BACKSLASH] + u) == [BACKSLASH] + (Backslashes(n + 1) + u);
    PrefixCons(BACKSLASH, Backslashes(n + 1) + u, rest);
  }

  lemma PrefixCons(c: byte, a: seq<byte>, b: seq<byte>)
    ensures [c] + a <= [c] + b <==> a <= b
  {
    assert ([c] + a)[1..] == a && ([c] + b)[1..] == b;
  }

  /** Where there is something to escape, the escaped text departs from the value before it
      comes to a quote: at a quote, a backslash stands in its place; after backslashes, there
      are more of them than the value has. */
  lemma {:induction false} Departs(v: seq<byte>) returns (u: seq<byte>)
    requires !PlainText(v)
    ensures u <= Escape(BackslashAndQuote, v) && QUOTE !in u && !(u <= v)
  {
    if v[0] == QUOTE {
      EscapeFirst(BackslashAndQuote, v);
      u := [BACKSLASH];
    } else if v[0] == BACKSLASH {
      u := DepartsAtBackslash(v);
    } else {
      var u' := Departs(v[1..]);
      DepartsLater(v, u');
      u := [v[0]] + u';
    }
  }

  lemma DepartsAtBackslash(v: seq<byte>) returns (u: seq<byte>)
    requires v != [] && v[0] == BACKSLASH
    ensures u <= Escape(BackslashAndQuote, v) && QUOTE !in u && !(u <= v)
  {
    var rest := v[1..];
    var u' := AheadOf(1, rest);
    EscapeFirst(BackslashAndQuote, v);
    u := [BACKSLASH, BACKSLASH] + u';
    PrefixAfter([BACKSLASH, BACKSLASH], u', Escape(BackslashAndQuote, rest));
    assert Backslashes(1) == [BACKSLASH];
    Associate([BACKSLASH], [BACKSLASH], u');
    assert [BACKSLASH] + [BACKSLASH] == [BACKSLASH, BACKSLASH];
    PrefixCons(BACKSLASH, [BACKSLASH] + u', rest);
    assert v == [BACKSLASH] + rest;
  }

  lemma PrefixAfter(p: seq<byte>, a: seq<byte>, b: seq<byte>)
    requires a <= b
    ensures p + a <= p + b
  {
  }

  lemma DepartsLater(v: seq<byte>, u: seq<byte>)
    requires v != [] && v[0] != QUOTE && v[0] != BACKSLASH
    requires u <= Escape(BackslashAndQuote, v[1..]) && QUOTE !in u && !(u <= v[1..])
    ensures [v[0]] + u <= Escape(BackslashAndQuote, v) && QUOTE !in [v[0]] + u && !([v[0]] + u <= v)
  {
    EscapeFirst(BackslashAndQuote, v);
    PrefixCons(v[0], u, v[1..]);
    assert v == [v[0]] + v[1..];
  }

  // ---- a scan that has lost the meaning ----

  /** The values of the string literals among some tokens. */
  function Texts(ts: seq<Token>): seq<seq<byte>> {
    if ts == [] then []
    else Texts(ts[..|ts| - 1]) + if ts[|ts| - 1].Text? then [ts[|ts| - 1].value] else []
  }

  lemma {:induction false} TextsConcat(a: seq<Token>, b: seq<Token>)
    ensures Texts(a + b) == Texts(a) + Texts(b)
  {
    if b == [] {
      assert a + b == a;
    } else {
      TextsConcat(a, b[..|b| - 1]);
      assert (a + b)[..|a + b| - 1] == a + b[..|b| - 1];
    }
  }

  lemma TextsOne(t: Token)
    ensures Texts([t]) == if t.Text? then [t.value] else []
  {
    assert Texts([t][..0]) == [];
  }

  /** What has been read of a literal that may still go on. */
  function Partial(st: State): Option<seq<byte>> {
    match st
    case InText(_, v) => Some(v)
    case AfterQuote(_, v) => Some(v)
    case _ => None
  }

  /** Literal number `i` is not the one meant, whatever comes: it has been read and differs, or
      what has been read of it is no initial part of the meant value. */
  predicate LostAt(r: Scan, meant: seq<seq<byte>>, i: nat) {
    i < |meant| &&
    if i < |Texts(r.tokens)| then Texts(r.tokens)[i] != meant[i]
    else i == |Texts(r.tokens)| && Partial(r.st).Some? && !(Partial(r.st).value <= meant[i])
  }

  /** The literal a step completes, if it completes one, is the one that was being read. */
  lemma StepTexts(st: State, c: byte)
    ensures var (st', ts) := Step(Quotes, st, c);
      match Partial(st)
      case None => |Texts(ts)| == 0
      case Some(v) =>
        if Texts(ts) == [] then Partial(st').Some? && v <= Partial(st').value else Texts(ts) == [v]
  {
    var (st', ts) := Step(Quotes, st, c);
    NoTexts(Begin(c).1);
    if st.AfterQuote? && c != st.quote {
      TextsConcat([Text(st.quote, st.value)], Begin(c).1);
      TextsOne(Text(st.quote, st.value));
    } else if Partial(st).None? {
      forall i | 0 <= i < |ts| ensures !ts[i].Text? {
        assert ts[i] in ts;
      }
      NoTexts(ts);
    }
  }

  lemma {:induction false} NoTexts(ts: seq<Token>)
    requires forall i | 0 <= i < |ts| :: !ts[i].Text?
    ensures Texts(ts) == []
  {
    if ts != [] {
      NoTexts(ts[..|ts| - 1]);
    }
  }

  lemma LostStep(r: Scan, c: byte, meant: seq<seq<byte>>, i: nat)
    requires LostAt(r, meant, i)
    ensures LostAt(Advance(Quotes, r, c), meant, i)
  {
    var ts := Step(Quotes, r.st, c).1;
    AdvanceTokens(Quotes, r, c);
    TextsConcat(r.tokens, ts);
    StepTexts(r.st, c);
  }

  /** Nothing that follows brings the meaning back. */
  lemma {:induction false} LostForGood(r: Scan, s: seq<byte>, meant: seq<seq<byte>>, i: nat)
    requires LostAt(r, meant, i)
    ensures LostAt(Run(Quotes, r, s), meant, i)
  {
    if s != [] {
      LostForGood(r, s[..|s| - 1], meant, i);
      LostStep(Run(Quotes, r, s[..|s| - 1]), s[|s| - 1], meant, i);
    }
  }

  lemma LostAtEnd(r: Scan, meant: seq<seq<byte>>, i: nat)
    requires LostAt(r, meant, i) && Finish(r).Some?
    ensures i < |Texts(Finish(r).value)| && Texts(Finish(r).value)[i] != meant[i]
  {
    TextsConcat(r.tokens, Pending(r.st).value);
    if r.st.AfterQuote? {
      TextsOne(Text(r.st.quote, r.st.value));
    }
  }

  // ---- the clause loses it at a value with something to escape ----

  lemma OpenLiteral(r: Scan, u: seq<byte>)
    requires r.st.Normal? && QUOTE !in u
    ensures Run(Quotes, r, [QUOTE] + u) == Scan(InText(QUOTE, u), r.tokens)
  {
    RunConcat(Quotes, r, [QUOTE], u);
    RunOne(Quotes, r, QUOTE);
    EscapePlain(DoubledQuotes, u);
    RunEscaped(DoubledQuotes, r.tokens, u);
  }

  /** A literal with something to escape, read from where a token may begin. */
  lemma LostLiteral(r: Scan, v: seq<byte>, meant: seq<seq<byte>>)
    requires r.st.Normal? && !PlainText(v)
    requires |Texts(r.tokens)| < |meant| && meant[|Texts(r.tokens)|] == v
    ensures LostAt(Run(Quotes, r, Render(BackslashAndQuote, Str(v))), meant, |Texts(r.tokens)|)
  {
    var u := Departs(v);
    var rest := LiteralRest(v, u);
    var open := Scan(InText(QUOTE, u), r.tokens);
    OpenLiteral(r, u);
    RunConcat(Quotes, r, [QUOTE] + u, rest);
    LostForGood(open, rest, meant, |Texts(r.tokens)|);
  }

  lemma LiteralRest(v: seq<byte>, u: seq<byte>) returns (rest: seq<byte>)
    requires u <= Escape(BackslashAndQuote, v)
    ensures Render(BackslashAndQuote, Str(v)) == [QUOTE] + u + rest
  {
    rest := Escape(BackslashAndQuote, v)[|u|..] + [QUOTE];
    assert Escape(BackslashAndQuote, v) == u + Escape(BackslashAndQuote, v)[|u|..];
  }

  lemma ItemTexts(a: Arg)
    requires a.Str? || a.Int?
    ensures Texts(ItemTokens(a)) == if a.Str? then [a.v] else []
  {
    if a.Str? {
      assert ItemTokens(a) == [Text(QUOTE, a.v)];
      TextsOne(Text(QUOTE, a.v));
    } else {
      NoTexts(ItemTokens(a));
    }
  }

  /** The text has lost the meaning at literal number `i` of the tokens meant. */
  predicate Lost(s: seq<byte>, ts: seq<Token>, i: nat) {
    LostAt(Run(Quotes, START, s), Texts(ts), i)
  }

  /** A scan that is lost stays lost when more text is read and more tokens are meant. */
  lemma StaysLost(s: seq<byte>, ts: seq<Token>, i: nat, s': seq<byte>, ts': seq<Token>)
    requires Lost(s, ts, i)
    ensures Lost(s + s', ts + ts', i)
  {
    RunConcat(Quotes, START, s, s');
    LostForGood(Run(Quotes, START, s), s', Texts(ts), i);
    TextsConcat(ts, ts');
  }

  lemma LostItem(s: seq<byte>, ts: seq<Token>, a: Arg) returns (i: nat)
    requires Reads(Quotes, s, ts, false) && (a.Str? || a.Int?) && !PlainItem(Quotes, a)
    ensures Lost(s + Render(BackslashAndQuote, a), ts + ItemTokens(a), i)
  {
    var r := Run(Quotes, START, s);
    assert r.tokens == ts;
    i := |Texts(ts)|;
    ItemTexts(a);
    TextsConcat(ts, ItemTokens(a));
    RunConcat(Quotes, START, s, Render(BackslashAndQuote, a));
    LostLiteral(r, a.v, Texts(ts + ItemTokens(a)));
  }

  lemma PlainItemsStep(mode: Mode, items: seq<Arg>)
    requires items != []
    ensures PlainItems(mode, items)
      <==> PlainItems(mode, items[..|items| - 1]) && PlainItem(mode, items[|items| - 1])
  {
    assert forall i | 0 <= i < |items| - 1 :: items[..|items| - 1][i] == items[i];
  }

  lemma {:induction false} LostList(s: seq<byte>, ts: seq<Token>, items: seq<Arg>) returns (i: nat)
    requires Reads(Quotes, s, ts, false) && AreItems(items) && !PlainItems(Quotes, items)
    ensures Lost(s + ListText(items), ts + ListTokens(items), i)
    decreases |items|
  {
    var before, last := items[..|items| - 1], items[|items| - 1];
    var text, comma := Render(BackslashAndQuote, last), [Punct(COMMA)];
    PlainItemsStep(Quotes, items);
    if |items| == 1 {
      i := LostItem(s, ts, last);
    } else if !PlainItems(Quotes, before) {
      i := LostList(s, ts, before);
      StaysLost(s + ListText(before), ts + ListTokens(before), i, [COMMA] + text, comma + ItemTokens(last));
      Regroup(s, ListText(before), [COMMA], text);
      Regroup(ts, ListTokens(before), comma, ItemTokens(last));
    } else {
      ReadsList(Quotes, before);
      ReadsConcat(Quotes, s, ts, false, ListText(before), ListTokens(before), true);
      ReadsByte(Quotes, COMMA);
      ReadsConcat(Quotes, s + ListText(before), ts + ListTokens(before), true, [COMMA], comma, false);
      i := LostItem(s + ListText(before) + [COMMA], ts + ListTokens(before) + comma, last);
      Regroup(s, ListText(before), [COMMA], text);
      Regroup(ts, ListTokens(before), comma, ItemTokens(last));
    }
  }

  /** A condition over such values, after whatever is read as meant. */
  lemma LostCondition(s: seq<byte>, ts: seq<Token>, name: seq<byte>, items: seq<Arg>) returns (i: nat)
    requires Reads(Quotes, s, ts, false) && IsWord(name) && AreItems(items) && !PlainItems(Quotes, items)
    ensures Lost(s + Condition(name, items), ts + ConditionTokens(name, items), i)
  {
    ReadsName(Quotes, name);
    ReadsConcat(Quotes, s, ts, false, name, [Word(name)], true);
    if |items| == 1 {
      i := LostEquals(s, ts, name, items);
    } else {
      i := LostIn(s, ts, name, items);
    }
  }

  lemma LostEquals(s: seq<byte>, ts: seq<Token>, name: seq<byte>, items: seq<Arg>) returns (i: nat)
    requires Reads(Quotes, s + name, ts + [Word(name)], true)
    requires AreItems(items) && !PlainItems(Quotes, items) && |items| == 1
    ensures Lost(s + Condition(name, items), ts + ConditionTokens(name, items), i)
  {
    var w, equals := [Word(name)], [Punct(EQUALS)];
    ReadsByte(Quotes, EQUALS);
    ReadsConcat(Quotes, s + name, ts + w, true, [EQUALS], equals, false);
    i := LostList(s + name + [EQUALS], ts + w + equals, items);
    Regroup(s, name, [EQUALS], ListText(items));
    Regroup(ts, w, equals, ListTokens(items));
    assert w + equals == [Word(name), Punct(EQUALS)];
  }

  lemma LostIn(s: seq<byte>, ts: seq<Token>, name: seq<byte>, items: seq<Arg>) returns (i: nat)
    requires Reads(Quotes, s + name, ts + [Word(name)], true)
    requires AreItems(items) && !PlainItems(Quotes, items) && |items| > 1
    ensures Lost(s + Condition(name, items), ts + ConditionTokens(name, items), i)
  {
    var w, opening := [Word(name)], [InKeyword(), Punct(LEFT_PAREN)];
    var end, closing := [RIGHT_PAREN, SPACE], [Punct(RIGHT_PAREN)];
    ReadsInOpening(Quotes);
    ReadsConcat(Quotes, s + name, ts + w, true, InOpening(), opening, false);
    i := LostList(s + name + InOpening(), ts + w + opening, items);
    StaysLost(s + name + InOpening() + ListText(items), ts + w + opening + ListTokens(items), i, end, closing);
    RegroupIn(s, name, InOpening(), ListText(items), end);
    RegroupIn(ts, w, opening, ListTokens(items), closing);
  }

  lemma RegroupIn<T>(s: seq<T>, a: seq<T>, b: seq<T>, c: seq<T>, d: seq<T>)
    ensures s + a + b + c + d == s + (a + b + c + d)
  {
  }

  lemma PlainValuesStep(mode: Mode, cols: map<seq<byte>, Column>, order: seq<seq<byte>>)
    requires order != [] && forall i | 0 <= i < |order| :: order[i] in cols
    ensures PlainValues(mode, cols, order)
      <==> PlainValues(mode, cols, order[..|order| - 1]) && PlainItems(mode, Items(cols[order[|order| - 1]]))
  {
    assert forall i | 0 <= i < |order| - 1 :: order[..|order| - 1][i] == order[i];
  }

  // What a column's condition adds to the clause before it, and to its tokens.
  function Added(before: seq<byte>, condition: seq<byte>): seq<byte> {
    if before == [] then condition else before + AndText() + condition
  }

  function AddedTokens(before: seq<Token>, condition: seq<Token>): seq<Token> {
    if before == [] then condition else before + [AndKeyword()] + condition
  }

  lemma LostBefore(before: seq<byte>, ts: seq<Token>, i: nat, c: seq<byte>, cts: seq<Token>)
    requires before != [] && ts != [] && Lost(before, ts, i)
    ensures Lost(Added(before, c), AddedTokens(ts, cts), i)
  {
    StaysLost(before, ts, i, AndText() + c, [AndKeyword()] + cts);
    Associate(before, AndText(), c);
    Associate(ts, [AndKeyword()], cts);
  }

  lemma LostGoesOn(before: seq<byte>, ts: seq<Token>, i: nat, after: seq<byte>, ts': seq<Token>,
    c: seq<byte>, cts: seq<Token>)
    requires before != [] && ts != [] && Lost(before, ts, i)
    requires (after == before && ts' == ts) || (after == Added(before, c) && ts' == AddedTokens(ts, cts))
    ensures Lost(after, ts', i)
  {
    LostBefore(before, ts, i, c, cts);
  }

  lemma LostLast(before: seq<byte>, ts: seq<Token>, open: bool, name: seq<byte>, items: seq<Arg>) returns (i: nat)
    requires Reads(Quotes, before, ts, open) && (before == [] <==> ts == [])
    requires IsWord(name) && AreItems(items) && !PlainItems(Quotes, items)
    ensures Lost(Added(before, Condition(name, items)), AddedTokens(ts, ConditionTokens(name, items)), i)
  {
    if before == [] {
      i := LostCondition([], [], name, items);
      assert [] + Condition(name, items) == Condition(name, items);
      assert [] + ConditionTokens(name, items) == ConditionTokens(name, items);
    } else {
      ReadsAnd(Quotes);
      ReadsConcat(Quotes, before, ts, open, AndText(), [AndKeyword()], false);
      i := LostCondition(before + AndText(), ts + [AndKeyword()], name, items);
    }
  }

  lemma {:induction false} NoClause(cols: map<seq<byte>, Column>, order: seq<seq<byte>>)
    requires forall i | 0 <= i < |order| :: order[i] in cols
    ensures Clause(cols, order) == [] || ClauseTokens(cols, order) == [] ==> PlainValues(Quotes, cols, order)
  {
    if order != [] {
      PlainValuesStep(Quotes, cols, order);
      NoClause(cols, order[..|order| - 1]);
    }
  }

  lemma {:induction false} LostClause(cols: map<seq<byte>, Column>, order: seq<seq<byte>>) returns (i: nat)
    requires forall i | 0 <= i < |order| :: order[i] in cols && IsWord(order[i])
    requires !PlainValues(Quotes, cols, order)
    ensures Lost(Clause(cols, order), ClauseTokens(cols, order), i)
    decreases |order|
  {
    var order' := order[..|order| - 1];
    PlainValuesStep(Quotes, cols, order);
    if PlainValues(Quotes, cols, order') {
      i := LostHere(cols, order);
    } else {
      i := LostClause(cols, order');
      NoClause(cols, order');
      LostStill(cols, order, Clause(cols, order'), ClauseTokens(cols, order'), i);
    }
  }

  // The last column is the first with something to escape.
  lemma LostHere(cols: map<seq<byte>, Column>, order: seq<seq<byte>>) returns (i: nat)
    requires order != [] && forall i | 0 <= i < |order| :: order[i] in cols && IsWord(order[i])
    requires PlainValues(Quotes, cols, order[..|order| - 1])
    requires !PlainItems(Quotes, Items(cols[order[|order| - 1]]))
    ensures Lost(Clause(cols, order), ClauseTokens(cols, order), i)
  {
    var order', name := order[..|order| - 1], order[|order| - 1];
    var open := ReadsClause(Quotes, cols, order');
    i := LostLast(Clause(cols, order'), ClauseTokens(cols, order'), open, name, Items(cols[name]));
    ClauseAdds(cols, order);
  }

  // An earlier column has something to escape.
  lemma LostStill(cols: map<seq<byte>, Column>, order: seq<seq<byte>>, before: seq<byte>, ts: seq<Token>, i: nat)
    requires order != [] && forall i | 0 <= i < |order| :: order[i] in cols
    requires before == Clause(cols, order[..|order| - 1]) && ts == ClauseTokens(cols, order[..|order| - 1])
    requires before != [] && ts != [] && Lost(before, ts, i)
    ensures Lost(Clause(cols, order), ClauseTokens(cols, order), i)
  {
    var name := order[|order| - 1];
    ClauseAdds(cols, order);
    LostGoesOn(before, ts, i, Clause(cols, order), ClauseTokens(cols, order),
      Condition(name, Items(cols[name])), ConditionTokens(name, Items(cols[name])));
  }

  lemma ClauseAdds(cols: map<seq<byte>, Column>, order: seq<seq<byte>>)
    requires order != [] && forall i | 0 <= i < |order| :: order[i] in cols
    ensures var order', name := order[..|order| - 1], order[|order| - 1];
      var items := Items(cols[name]);
      if items == [] then
        Clause(cols, order) == Clause(cols, order') && ClauseTokens(cols, order) == ClauseTokens(cols, order')
      else
        && Clause(cols, order) == Added(Clause(cols, order'), Condition(name, items))
        && ClauseTokens(cols, order) == AddedTokens(ClauseTokens(cols, order'), ConditionTokens(name, items))
  {
  }

  // ---- what a condition that parses says about its tokens ----

  function ValueTexts(vs: seq<Value>): seq<seq<byte>> {
    if vs == [] then []
    else
      (match vs[0]
       case TextValue(v) => [v]
       case BinaryValue(v) => [v]
       case _ => []) + ValueTexts(vs[1..])
  }

  function TestTexts(tests: seq<Test>): seq<seq<byte>> {
    if tests == [] then [] else ValueTexts(tests[0].values) + TestTexts(tests[1..])
  }

  lemma TextsSplit(ts: seq<Token>, k: nat)
    requires k <= |ts|
    ensures Texts(ts) == Texts(ts[..k]) + Texts(ts[k..])
  {
    assert ts == ts[..k] + ts[k..];
    TextsConcat(ts[..k], ts[k..]);
  }

  lemma ValueReadTexts(ts: seq<Token>)
    requires ReadValue(ts).Some?
    ensures Texts(ts) == ValueTexts([ReadValue(ts).value])
  {
    if |ts| == 1 {
      assert ts == [ts[0]];
      TextsOne(ts[0]);
    } else {
      assert ts == [ts[0]] + [ts[1]];
      TextsConcat([ts[0]], [ts[1]]);
      TextsOne(ts[0]);
      TextsOne(ts[1]);
    }
    assert [ReadValue(ts).value][1..] == [];
  }

  lemma ValueParsedTexts(ts: seq<Token>)
    requires ParseValue(ts).Some?
    ensures Texts(ts) == ValueTexts([ParseValue(ts).value.0]) + Texts(ParseValue(ts).value.1)
  {
    var k := if ReadValue(ts[..1]).Some? then 1 else 2;
    TextsSplit(ts, k);
    ValueReadTexts(ts[..k]);
  }

  lemma {:induction false} ListParsedTexts(ts: seq<Token>)
    requires ParseList(ts).Some?
    ensures Texts(ts) == ValueTexts(ParseList(ts).value.0) + Texts(ParseList(ts).value.1)
    decreases |ts|
  {
    var (v, rest) := ParseValue(ts).value;
    ValueParsedTexts(ts);
    TextsAfter(rest);
    if rest[0] == Punct(COMMA) {
      ListParsedTexts(rest[1..]);
      var (vs, end) := ParseList(rest[1..]).value;
      ValueTextsMore(v, vs);
      Associate(ValueTexts([v]), ValueTexts(vs), Texts(end));
    }
  }

  lemma TextsAfter(ts: seq<Token>)
    requires ts != [] && !ts[0].Text?
    ensures Texts(ts) == Texts(ts[1..])
  {
    TextsSplit(ts, 1);
    TextsOne(ts[0]);
    assert ts[..1] == [ts[0]];
  }

  lemma ValueTextsMore(v: Value, vs: seq<Value>)
    ensures ValueTexts([v] + vs) == ValueTexts([v]) + ValueTexts(vs)
  {
    assert ([v] + vs)[1..] == vs && [v][1..] == [];
  }

  lemma TestTextsMore(t: Test, tests: seq<Test>)
    ensures TestTexts([t] + tests) == ValueTexts(t.values) + TestTexts(tests)
    ensures TestTexts([t]) == ValueTexts(t.values)
  {
    assert ([t] + tests)[1..] == tests && [t][1..] == [];
  }

  lemma TestParsedTexts(reserved: set<seq<byte>>, ts: seq<Token>)
    requires ParseTest(reserved, ts).Some?
    ensures var (t, rest) := ParseTest(reserved, ts).value;
      Texts(ts) == ValueTexts(t.values) + Texts(rest) && IsColumn(reserved, t.column)
  {
    if ts[1] == Punct(EQUALS) {
      TextsAfterSome(ts, 2);
      ValueParsedTexts(ts[2..]);
    } else {
      TextsAfterSome(ts, 3);
      ListParsedTexts(ts[3..]);
    }
  }

  lemma TextsAfterSome(ts: seq<Token>, k: nat)
    requires k <= |ts| && forall i | 0 <= i < k :: !ts[i].Text?
    ensures Texts(ts) == Texts(ts[k..])
  {
    TextsSplit(ts, k);
    NoTexts(ts[..k]);
  }

  /** The literals of a condition that parses are the text values of its tests, in order, and
      each test is of a column. */
  lemma {:induction false} ParsedTexts(reserved: set<seq<byte>>, ts: seq<Token>)
    requires ParseTests(reserved, ts).Some?
    ensures Texts(ts) == TestTexts(ParseTests(reserved, ts).value)
    ensures forall t | t in ParseTests(reserved, ts).value :: IsColumn(reserved, t.column)
    decreases |ts|
  {
    var (t, rest) := ParseTest(reserved, ts).value;
    TestParsedTexts(reserved, ts);
    if rest == [] {
      TestTextsMore(t, []);
      assert Texts(rest) == [];
    } else {
      ParsedTexts(reserved, rest[1..]);
      TextsAfter(rest);
      TestTextsMore(t, ParseTests(reserved, rest[1..]).value);
    }
  }

  // ---- the exact condition ----

  /** A clause that reads back names columns only. */
  lemma ReadNamesColumns(mode: Mode, reserved: set<seq<byte>>, cols: map<seq<byte>, Column>, order: seq<seq<byte>>)
    requires forall i | 0 <= i < |order| :: order[i] in cols
    requires ReadClause(mode, reserved, Clause(cols, order)) == Some(Tests(cols, order))
    ensures NamesColumns(reserved, cols, order)
  {
    var ts := Lex(mode, Clause(cols, order)).value;
    if ts != [] {
      ParsedTexts(reserved, ts);
    }
    forall i | 0 <= i < |order| && Asked(cols[order[i]]) != [] ensures IsColumn(reserved, order[i]) {
      var t := TestOf(cols, order, i);
    }
  }

  lemma TestOf(cols: map<seq<byte>, Column>, order: seq<seq<byte>>, i: nat) returns (t: Test)
    requires i < |order| && forall i | 0 <= i < |order| :: order[i] in cols
    requires Items(cols[order[i]]) != []
    ensures t in Tests(cols, order) && t.column == order[i]
  {
    t := Test(order[i], Values(Items(cols[order[i]])));
    TestsExact(cols, order, t);
  }

  lemma MeantTexts(reserved: set<seq<byte>>, cols: map<seq<byte>, Column>, order: seq<seq<byte>>)
    requires forall i | 0 <= i < |order| :: order[i] in cols
    requires ClauseTokens(cols, order) != [] && NamesColumns(reserved, cols, order)
    ensures Texts(ClauseTokens(cols, order)) == TestTexts(Tests(cols, order))
  {
    ParseClause(reserved, cols, order, None);
    assert ClauseTokens(cols, order) + [] == ClauseTokens(cols, order);
    assert Tests(cols, order) + [] == Tests(cols, order);
    ParsedTexts(reserved, ClauseTokens(cols, order));
  }

  /** With a quote or a backslash in a value, a server without backslash escapes reads
      something else, or nothing. */
  lemma SpecialsMisread(reserved: set<seq<byte>>, cols: map<seq<byte>, Column>, order: seq<seq<byte>>)
    requires forall i | 0 <= i < |order| :: order[i] in cols && IsWord(order[i])
    requires !PlainValues(Quotes, cols, order) && NamesColumns(reserved, cols, order)
    ensures ReadClause(Quotes, reserved, Clause(cols, order)) != Some(Tests(cols, order))
  {
    var i := LostClause(cols, order);
    var r := Run(Quotes, START, Clause(cols, order));
    NoClause(cols, order);
    MeantTexts(reserved, cols, order);
    if Finish(r).Some? {
      var ts := Finish(r).value;
      LostAtEnd(r, TestTexts(Tests(cols, order)), i);
      if ParseTests(reserved, ts).Some? {
        ParsedTexts(reserved, ts);
      }
    }
  }

  /** In both modes, exactly when a clause over one-word names reads back as the tests meant:
      every name with values is read as a column, and, without backslash escapes, no text of a
      visited column contains a quote or a backslash. */
  lemma ReadsBackExactly(mode: Mode, reserved: set<seq<byte>>, cols: map<seq<byte>, Column>, order: seq<seq<byte>>)
    requires forall i | 0 <= i < |order| :: order[i] in cols && IsWord(order[i])
    ensures ReadClause(mode, reserved, Clause(cols, order)) == Some(Tests(cols, order))
      <==> NamesColumns(reserved, cols, order) && PlainValues(mode, cols, order)
  {
    if !NamesColumns(reserved, cols, order) {
      if ReadClause(mode, reserved, Clause(cols, order)) == Some(Tests(cols, order)) {
        ReadNamesColumns(mode, reserved, cols, order);
      }
    } else if PlainValues(mode, cols, order) {
      ClauseReadsBack(mode, reserved, cols, order);
    } else {
      SpecialsMisread(reserved, cols, order);
    }
  }

  /** One quote as the value of column `a`: without backslash escapes the literal is not closed. */
  lemma QuoteUnread(reserved: set<seq<byte>>)
    ensures var clause := Clause(map[[97] := OneText([QUOTE])], [[97]]);
      && clause == [97, EQUALS, QUOTE, BACKSLASH, QUOTE, QUOTE]
      && ReadClause(Quotes, reserved, clause) == None
  {
    QuoteClause();
    var s := [97, EQUALS];
    AfterEquals();
    OpenLiteral(Run(Quotes, START, s), [BACKSLASH]);
    assert [QUOTE] + [BACKSLASH] == [QUOTE, BACKSLASH];
    QuoteGoesOn(Run(Quotes, START, s), [QUOTE, BACKSLASH]);
    RunConcat(Quotes, START, s, [QUOTE, BACKSLASH] + [QUOTE, QUOTE]);
    assert s + ([QUOTE, BACKSLASH] + [QUOTE, QUOTE]) == [97, EQUALS, QUOTE, BACKSLASH, QUOTE, QUOTE];
  }

  lemma AfterEquals()
    ensures Run(Quotes, START, [97, EQUALS]).st.Normal?
  {
    RunMore(Quotes, [], 97);
    RunMore(Quotes, [97], EQUALS);
    assert [] + [97] == [97] && [97] + [EQUALS] == [97, EQUALS];
  }

  lemma QuoteGoesOn(r: Scan, s: seq<byte>)
    requires Run(Quotes, r, s).st.InText? && Run(Quotes, r, s).st.quote == QUOTE
    ensures Run(Quotes, r, s + [QUOTE, QUOTE]).st.InText?
  {
    RunConcat(Quotes, r, s, [QUOTE, QUOTE]);
    TwoBytes(Quotes, Run(Quotes, r, s), [QUOTE, QUOTE]);
    assert [QUOTE, QUOTE][2..] == [];
  }

  lemma QuoteClause()
    ensures Clause(map[[97] := OneText([QUOTE])], [[97]]) == [97, EQUALS, QUOTE, BACKSLASH, QUOTE, QUOTE]
  {
    var order: seq<seq<byte>> := [[97]];
    assert order[..0] == [];
    EscapeFirst(BackslashAndQuote, [QUOTE]);
    assert [QUOTE][1..] == [];
    assert Escape(BackslashAndQuote, [QUOTE]) == [BACKSLASH, QUOTE];
  }
}
