/** GetWhereClause: a map from column names to values becomes a condition, and what MySQL
    reads in the finished condition. */
module WhereClause {
  import opened Bytes
  import opened StringLiteral
  import opened Interpolate

  // The value of a search column, by the dynamic type the function distinguishes.
  datatype Column =
    | Texts(texts: seq<seq<byte>>)
    | Ints(ints: seq<int>)
    | OneText(text: seq<byte>)
    | OneInt(n: int)
    | OtherType

  // ---- the two replacements ----

  /** strings.Replace of one byte, at every occurrence. */
  function ReplaceAll(s: seq<byte>, c: byte, replacement: seq<byte>): seq<byte> {
    if s == [] then []
    else ReplaceAll(s[..|s| - 1], c, replacement) + if s[|s| - 1] == c then replacement else [s[|s| - 1]]
  }

  function ReplaceBoth(s: seq<byte>): seq<byte> {
    ReplaceAll(ReplaceAll(s, BACKSLASH, [BACKSLASH, BACKSLASH]), QUOTE, [BACKSLASH, QUOTE])
  }

  lemma {:induction false} ReplaceConcat(a: seq<byte>, b: seq<byte>, c: byte, replacement: seq<byte>)
    ensures ReplaceAll(a + b, c, replacement) == ReplaceAll(a, c, replacement) + ReplaceAll(b, c, replacement)
  {
    if b == [] {
      assert a + b == a;
    } else {
      ReplaceConcat(a, b[..|b| - 1], c, replacement);
      assert (a + b)[..|a + b| - 1] == a + b[..|b| - 1];
    }
  }

  lemma ReplaceOne(d: byte, c: byte, replacement: seq<byte>)
    ensures ReplaceAll([d], c, replacement) == if d == c then replacement else [d]
  {
    assert ReplaceAll([d][..0], c, replacement) == [];
  }

  /** The second replacement leaves the first one's backslashes alone, so the two together
      put one backslash before each backslash and each quote. */
  lemma {:induction false} TwoReplacements(v: seq<byte>)
    ensures ReplaceBoth(v) == Escape(BackslashAndQuote, v)
  {
    if v != [] {
      var c := v[|v| - 1];
      TwoReplacements(v[..|v| - 1]);
      var first := if c == BACKSLASH then [BACKSLASH, BACKSLASH] else [c];
      ReplaceConcat(ReplaceAll(v[..|v| - 1], BACKSLASH, [BACKSLASH, BACKSLASH]), first, QUOTE, [BACKSLASH, QUOTE]);
      ReplaceConcat([BACKSLASH], [BACKSLASH], QUOTE, [BACKSLASH, QUOTE]);
      ReplaceOne(BACKSLASH, QUOTE, [BACKSLASH, QUOTE]);
      ReplaceOne(c, QUOTE, [BACKSLASH, QUOTE]);
    }
  }

  // ---- the clause ----

  /** The values a column is tested against, as builder arguments. */
  function Items(c: Column): (items: seq<Arg>)
    ensures AreItems(items)
  {
    match c
    case Texts(ts) => seq(|ts|, i requires 0 <= i < |ts| => Str(ts[i]))
    case Ints(ns) => seq(|ns|, i requires 0 <= i < |ns| => Int(ns[i]))
    case OneText(t) => [Str(t)]
    case OneInt(n) => [Int(n)]
    case OtherType => []
  }

  predicate AreItems(items: seq<Arg>) {
    forall i | 0 <= i < |items| :: items[i].Str? || items[i].Int?
  }

  /** The items' text, separated by commas. */
  function ListText(items: seq<Arg>): seq<byte>
    requires AreItems(items)
  {
    if items == [] then []
    else if |items| == 1 then Render(BackslashAndQuote, items[0])
    else ListText(items[..|items| - 1]) + [COMMA] + Render(BackslashAndQuote, items[|items| - 1])
  }

  function InOpening(): seq<byte> { Ascii(" IN (") }
  function AndText(): seq<byte> { Ascii(" AND ") }

  function Condition(name: seq<byte>, items: seq<Arg>): seq<byte>
    requires AreItems(items)
  {
    if |items| == 1 then name + [EQUALS] + ListText(items)
    else name + InOpening() + ListText(items) + [RIGHT_PAREN, SPACE]
  }

  /** The clause when the map is visited in the given order; columns without values are
      left out. */
  function Clause(cols: map<seq<byte>, Column>, order: seq<seq<byte>>): seq<byte>
    requires forall i | 0 <= i < |order| :: order[i] in cols
  {
    if order == [] then []
    else
      var before, name := Clause(cols, order[..|order| - 1]), order[|order| - 1];
      var items := Items(cols[name]);
      if items == [] then before
      else if before == [] then Condition(name, items)
      else before + AndText() + Condition(name, items)
  }

  lemma TextItem(t: seq<byte>)
    ensures [QUOTE] + ReplaceBoth(t) + [QUOTE] == Render(BackslashAndQuote, Str(t))
  {
    TwoReplacements(t);
  }

  /** An order in which the map can be visited. */
  ghost predicate Visits(cols: map<seq<byte>, Column>, order: seq<seq<byte>>) {
    && multiset(order) == multiset(cols.Keys)
    && forall i | 0 <= i < |order| :: order[i] in cols
  }

  method ItemTexts(c: Column) returns (r: seq<seq<byte>>)
    ensures |r| == |Items(c)|
    ensures forall i | 0 <= i < |r| :: r[i] == Render(BackslashAndQuote, Items(c)[i])
  {
    r := [];
    match c {
      case Texts(ts) =>
        for i := 0 to |ts|
          invariant |r| == i
          invariant forall k | 0 <= k < i :: r[k] == Render(BackslashAndQuote, Str(ts[k]))
        {
          TextItem(ts[i]);
          r := r + [[QUOTE] + ReplaceBoth(ts[i]) + [QUOTE]];
        }
      case Ints(ns) =>
        for i := 0 to |ns|
          invariant |r| == i
          invariant forall k | 0 <= k < i :: r[k] == Render(BackslashAndQuote, Int(ns[k]))
        {
          r := r + [Decimal.IntText(ns[i])];
        }
      case OneText(t) =>
        TextItem(t);
        r := [[QUOTE] + ReplaceBoth(t) + [QUOTE]];
      case OneInt(n) => r := [Decimal.IntText(n)];
      case OtherType =>
    }
  }

  /** strings.Join. */
  function Join(texts: seq<seq<byte>>, separator: seq<byte>): seq<byte> {
    if texts == [] then []
    else if |texts| == 1 then texts[0]
    else Join(texts[..|texts| - 1], separator) + separator + texts[|texts| - 1]
  }

  lemma {:induction false} JoinedItems(texts: seq<seq<byte>>, items: seq<Arg>)
    requires AreItems(items) && |texts| == |items|
    requires forall i | 0 <= i < |items| :: texts[i] == Render(BackslashAndQuote, items[i])
    ensures Join(texts, [COMMA]) == ListText(items)
  {
    if |items| > 1 {
      JoinedItems(texts[..|texts| - 1], items[..|items| - 1]);
    }
  }

  /** Visits the map in an order of the runtime's choosing. */
  method GetWhereClause(searchColumns: map<seq<byte>, Column>) returns (strWhereValue: seq<byte>)
    ensures exists order :: Visits(searchColumns, order) && strWhereValue == Clause(searchColumns, order)
  {
    strWhereValue := [];
    ghost var order: seq<seq<byte>> := [];
    var left := searchColumns.Keys;
    while left != {}
      invariant left <= searchColumns.Keys
      invariant multiset(order) + multiset(left) == multiset(searchColumns.Keys)
      invariant forall i | 0 <= i < |order| :: order[i] in searchColumns
      invariant strWhereValue == Clause(searchColumns, order)
    {
      var name :| name in left;
      left := left - {name};
      ghost var before := order;
      order := order + [name];
      assert order[..|order| - 1] == before;
      var strInValues := ItemTexts(searchColumns[name]);
      JoinedItems(strInValues, Items(searchColumns[name]));
      if |strInValues| > 0 {
        var c;
        if |strInValues| == 1 {
          c := name + [EQUALS] + strInValues[0];
        } else {
          c := name + InOpening() + Join(strInValues, [COMMA]) + [RIGHT_PAREN, SPACE];
        }
        if strWhereValue == [] {
          strWhereValue := c;
        } else {
          strWhereValue := strWhereValue + AndText() + c;
        }
      }
    }
    assert multiset(left) == multiset{};
    assert Visits(searchColumns, order);
  }
}
