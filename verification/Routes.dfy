/** REST route registration and resolution (api/restful_api.go). */
module Routes {
  import opened Options

  // ---- paths ----

  /** strings.Split at every slash. */
  function Split(s: string): (r: seq<string>)
    ensures r != []
  {
    if s == "" then [""]
    else
      var r := Split(s[1..]);
      if s[0] == '/' then [""] + r else [[s[0]] + r[0]] + r[1..]
  }

  /** strings.Join with slashes. */
  function Join(segments: seq<string>): string {
    if segments == [] then ""
    else if |segments| == 1 then segments[0]
    else segments[0] + "/" + Join(segments[1..])
  }

  lemma {:induction false} JoinSplit(s: string)
    ensures Join(Split(s)) == s
  {
    if s != "" {
      var r := Split(s[1..]);
      JoinSplit(s[1..]);
      if s[0] == '/' {
        assert ([""] + r)[1..] == r;
      } else if |r| > 1 {
        assert ([[s[0]] + r[0]] + r[1..])[1..] == r[1..];
      }
    }
  }

  /** The first segment, and what follows it. */
  lemma {:induction false} SplitFirst(s: string)
    ensures var f := Split(s)[0];
      && f <= s && '/' !in f && (|f| < |s| ==> s[|f|] == '/')
      && Split(s) == if |f| < |s| then [f] + Split(s[|f| + 1..]) else [f]
  {
    if s != "" {
      SplitFirst(s[1..]);
      var f := Split(s)[0];
      if s[0] != '/' && |f| < |s| {
        assert s[1..][|f| - 1 + 1..] == s[|f| + 1..];
      }
    }
  }

  predicate IsParameter(u: string) {
    u != "" && u[0] == ':'
  }

  // ---- patterns ----

  datatype Atom = Lit(c: char) | NotSlashes  // the class [^/]*

  const SEGMENT := "[^/]*"
  const META := "\\.+*?()|[]{}^$"

  function Then(p: seq<Atom>, r: Option<seq<Atom>>): Option<seq<Atom>> {
    match r
    case None => None
    case Some(q) => Some(p + q)
  }

  /** What regexp.MustCompile makes of an anchored text whose only special part is the
      class above; None if there is anything else special in it. */
  function Compile(text: string): Option<seq<Atom>> {
    if text == "" then Some([])
    else if SEGMENT <= text then Then([NotSlashes], Compile(text[|SEGMENT|..]))
    else if text[0] in META then None
    else Then([Lit(text[0])], Compile(text[1..]))
  }

  /** Whether the whole of `s` matches. */
  predicate Matches(p: seq<Atom>, s: string)
    decreases |p| + |s|
  {
    if p == [] then s == ""
    else if p[0].Lit? then s != "" && s[0] == p[0].c && Matches(p[1..], s[1..])
    else Matches(p[1..], s) || (s != "" && s[0] != '/' && Matches(p, s[1..]))
  }

  // ---- registration ----

  datatype Entry = Entry(url: string, urls: seq<string>, id: string, pattern: string, httpMethod: string)

  function KeySegment(u: string): string {
    if IsParameter(u) then SEGMENT else u
  }

  function KeySegments(urls: seq<string>): seq<string> {
    if urls == [] then [] else KeySegments(urls[..|urls| - 1]) + [KeySegment(urls[|urls| - 1])]
  }

  /** The name of the last parameter; empty if there is none. */
  function LastName(urls: seq<string>): string {
    if urls == [] then ""
    else if IsParameter(urls[|urls| - 1]) then urls[|urls| - 1][1..]
    else LastName(urls[..|urls| - 1])
  }

  function Upper(s: string): string {
    seq(|s|, i requires 0 <= i < |s| => if 'a' <= s[i] <= 'z' then (s[i] as int - 32) as char else s[i])
  }

  const LOWER_LETTERS := "abcdefghijklmnopqrstuvwxyz"
  const UPPER_LETTERS := "ABCDEFGHIJKLMNOPQRSTUVWXYZ"

  lemma LettersAt(k: nat)
    requires k < 26
    ensures |LOWER_LETTERS| == |UPPER_LETTERS| == 26
    ensures LOWER_LETTERS[k] == ('a' as int + k) as char && UPPER_LETTERS[k] == ('A' as int + k) as char
  {
  }

  /** Each small letter becomes the capital one, and everything else stays. */
  lemma UpperExactly(s: string, i: nat)
    requires i < |s|
    ensures |Upper(s)| == |s| && |LOWER_LETTERS| == |UPPER_LETTERS|
    ensures forall k | 0 <= k < |LOWER_LETTERS| && s[i] == LOWER_LETTERS[k] :: Upper(s)[i] == UPPER_LETTERS[k]
    ensures s[i] !in LOWER_LETTERS ==> Upper(s)[i] == s[i]
  {
    LettersAt(0);
    forall k | 0 <= k < 26 && s[i] == LOWER_LETTERS[k] ensures Upper(s)[i] == UPPER_LETTERS[k] {
      LettersAt(k);
    }
    if 'a' <= s[i] <= 'z' {
      LettersAt(s[i] as int - 'a' as int);
      assert s[i] in LOWER_LETTERS;
    }
  }

  /** The name is that of the last parameter, without its colon. */
  lemma {:induction false} LastNameIs(urls: seq<string>, i: nat)
    requires i < |urls| && IsParameter(urls[i])
    requires forall j | i < j < |urls| :: !IsParameter(urls[j])
    ensures LastName(urls) == urls[i][1..]
  {
    if i < |urls| - 1 {
      LastNameIs(urls[..|urls| - 1], i);
    }
  }

  function Registration(urlPath: string, httpMethod: string): Entry {
    var urls := Split(urlPath);
    Entry(urlPath, urls, LastName(urls), Join(KeySegments(urls)), Upper(httpMethod))
  }

  /** Every entry is filed under its own path, as registration files it. */
  ghost predicate WellFiled(table: map<string, Entry>) {
    forall k | k in table :: exists m :: table[k] == Registration(k, m)
  }

  // ---- resolution ----

  /** The anchored match; `special` stands for patterns Compile does not cover. */
  predicate PatternMatches(pattern: string, s: string, special: (string, string) -> bool) {
    match Compile(pattern)
    case Some(p) => Matches(p, s)
    case None => special(pattern, s)
  }

  predicate SegmentsMatch(urls: seq<string>, request: seq<string>) {
    && |request| == |urls|
    && forall i | 0 <= i < |urls| :: request[i] == urls[i] || IsParameter(urls[i])
  }

  predicate Hit(a: Entry, urlPath: string, httpMethod: string, special: (string, string) -> bool) {
    && (a.httpMethod == "" || a.httpMethod == httpMethod)
    && PatternMatches(a.pattern, urlPath, special)
    && SegmentsMatch(a.urls, Split(urlPath))
  }

  datatype Walk = Found(key: string) | Matched(keys: seq<string>)

  /** One entry visited: a match without a parameter name ends the walk, others are kept. */
  function Visit(w: Walk, table: map<string, Entry>, k: string, urlPath: string, httpMethod: string,
    special: (string, string) -> bool): Walk
    requires k in table
  {
    if w.Found? || !Hit(table[k], urlPath, httpMethod, special) then w
    else if table[k].id == "" then Found(k)
    else Matched(w.keys + [k])
  }

  function WalkIn(order: seq<string>, table: map<string, Entry>, urlPath: string, httpMethod: string,
    special: (string, string) -> bool): Walk
    requires forall i | 0 <= i < |order| :: order[i] in table
  {
    if order == [] then Matched([])
    else Visit(WalkIn(order[..|order| - 1], table, urlPath, httpMethod, special), table, order[|order| - 1],
      urlPath, httpMethod, special)
  }

  function Answer(w: Walk): Option<string> {
    match w
    case Found(k) => Some(k)
    case Matched(ks) => if |ks| == 1 then Some(ks[0]) else None
  }

  // ---- the answer without an order ----

  /** The entries a request matches, and those of them that end the search at once. */
  ghost function Hits(table: map<string, Entry>, urlPath: string, httpMethod: string,
    special: (string, string) -> bool): set<string>
  {
    set k | k in table && Hit(table[k], urlPath, httpMethod, special)
  }

  ghost function Immediate(table: map<string, Entry>, urlPath: string, httpMethod: string,
    special: (string, string) -> bool): set<string>
  {
    set k | k in table && Hit(table[k], urlPath, httpMethod, special) && table[k].id == ""
  }

  ghost predicate Order(order: seq<string>, table: map<string, Entry>) {
    multiset(order) == multiset(table.Keys) && forall i | 0 <= i < |order| :: order[i] in table
  }

  /** The answer, without an order: the one immediate match if there is one, else the one
      match there is, else nothing. */
  ghost predicate Resolves(r: Option<string>, table: map<string, Entry>, urlPath: string, httpMethod: string,
    special: (string, string) -> bool)
  {
    var hits, first := Hits(table, urlPath, httpMethod, special), Immediate(table, urlPath, httpMethod, special);
    if first != {} then r.Some? && first == {r.value}
    else if |hits| == 1 then r.Some? && hits == {r.value}
    else r.None?
  }

  /** An entry of the table, registered for the method or for all. */
  predicate ForMethod(table: map<string, Entry>, k: string, httpMethod: string) {
    k in table && (table[k].httpMethod == "" || table[k].httpMethod == httpMethod)
  }

  lemma {:induction false} WalkMethods(order: seq<string>, table: map<string, Entry>, urlPath: string,
    httpMethod: string, special: (string, string) -> bool)
    requires forall i | 0 <= i < |order| :: order[i] in table
    ensures var w := WalkIn(order, table, urlPath, httpMethod, special);
      && (w.Found? ==> ForMethod(table, w.key, httpMethod))
      && (w.Matched? ==> forall i | 0 <= i < |w.keys| :: ForMethod(table, w.keys[i], httpMethod))
  {
    if order != [] {
      WalkMethods(order[..|order| - 1], table, urlPath, httpMethod, special);
    }
  }

  /** Whatever is answered is registered for the request's method, or for all methods. */
  lemma AnswerHasMethod(order: seq<string>, table: map<string, Entry>, urlPath: string, httpMethod: string,
    special: (string, string) -> bool)
    requires forall i | 0 <= i < |order| :: order[i] in table
    requires Answer(WalkIn(order, table, urlPath, httpMethod, special)).Some?
    ensures var k := Answer(WalkIn(order, table, urlPath, httpMethod, special)).value;
      k in table && (table[k].httpMethod == "" || table[k].httpMethod == httpMethod)
  {
    WalkMethods(order, table, urlPath, httpMethod, special);
  }

  /** What a walk has seen: its first immediate match, or all its matches. */
  lemma {:induction false} WalkSees(order: seq<string>, table: map<string, Entry>, urlPath: string, httpMethod: string,
    special: (string, string) -> bool)
    requires forall i | 0 <= i < |order| :: order[i] in table
    ensures var w, first, hits := WalkIn(order, table, urlPath, httpMethod, special),
        Immediate(table, urlPath, httpMethod, special), Hits(table, urlPath, httpMethod, special);
      && (w.Found? ==> w.key in first && w.key in order)
      && (w.Matched? ==>
            && (forall k | k in order :: k !in first)
            && (forall k :: multiset(w.keys)[k] == if k in hits then multiset(order)[k] else 0))
  {
    if order != [] {
      WalkSees(order[..|order| - 1], table, urlPath, httpMethod, special);
      assert order == order[..|order| - 1] + [order[|order| - 1]];
    }
  }

  lemma MatchedKeys(order: seq<string>, table: map<string, Entry>, keys: seq<string>, hits: set<string>)
    requires Order(order, table) && hits <= table.Keys
    requires forall k :: multiset(keys)[k] == if k in hits then multiset(order)[k] else 0
    ensures |keys| == |hits| && (|keys| == 1 ==> hits == {keys[0]})
  {
    assert multiset(keys) == multiset(hits);
    assert |multiset(keys)| == |keys|;
    if |keys| == 1 {
      assert keys == [keys[0]];
      assert multiset(keys)[keys[0]] == 1;
      assert forall k | k in hits :: multiset(keys)[k] == 1;
    }
  }

  lemma WalkResolves(order: seq<string>, table: map<string, Entry>, urlPath: string, httpMethod: string,
    special: (string, string) -> bool)
    requires Order(order, table) && |Immediate(table, urlPath, httpMethod, special)| <= 1
    ensures Resolves(Answer(WalkIn(order, table, urlPath, httpMethod, special)), table, urlPath, httpMethod, special)
  {
    WalkSees(order, table, urlPath, httpMethod, special);
    var w, first := WalkIn(order, table, urlPath, httpMethod, special), Immediate(table, urlPath, httpMethod, special);
    if w.Found? {
      Singleton(first, w.key);
    } else {
      assert forall k :: k in multiset(order) <==> k in table.Keys;
      assert first == {};
      MatchedKeys(order, table, w.keys, Hits(table, urlPath, httpMethod, special));
    }
  }

  lemma Singleton(s: set<string>, k: string)
    requires k in s && |s| <= 1
    ensures s == {k}
  {
    assert |s - {k}| == 0;
  }

  class Router {
    var restFulHttpEntry: map<string, Entry>
    const special: (string, string) -> bool

    ghost predicate Valid()
      reads this
    {
      WellFiled(restFulHttpEntry)
    }

    constructor (special: (string, string) -> bool)
      ensures Valid() && restFulHttpEntry == map[]
    {
      this.special := special;
      restFulHttpEntry := map[];
    }

    method AddRESTFulAPIHttpHandle4(urlPath: string, httpMethod: string)
      requires Valid()
      modifies this`restFulHttpEntry
      ensures Valid() && restFulHttpEntry == old(restFulHttpEntry)[urlPath := Registration(urlPath, httpMethod)]
    {
      var urls, id := Split(urlPath), "";
      var keyUrl: seq<string> := [];
      for i := 0 to |urls|
        invariant keyUrl == KeySegments(urls[..i]) && id == LastName(urls[..i])
      {
        var u := urls[i];
        assert urls[..i + 1][..i] == urls[..i];
        if u != "" && u[0] == ':' {
          id := u[1..];
          keyUrl := keyUrl + [SEGMENT];
        } else {
          keyUrl := keyUrl + [u];
        }
      }
      assert urls[..|urls|] == urls;
      restFulHttpEntry := restFulHttpEntry[urlPath := Entry(urlPath, urls, id, Join(keyUrl), Upper(httpMethod))];
      assert restFulHttpEntry[urlPath] == Registration(urlPath, httpMethod);
    }

    /** The map is visited in an order of the runtime's choosing. */
    method IsExistRESTFul(urlPath: string, httpMethod: string) returns (r: Option<string>)
      ensures exists order ::
        Order(order, restFulHttpEntry) && r == Answer(WalkIn(order, restFulHttpEntry, urlPath, httpMethod, special))
      ensures |Immediate(restFulHttpEntry, urlPath, httpMethod, special)| <= 1 ==>
        Resolves(r, restFulHttpEntry, urlPath, httpMethod, special)
      ensures r.Some? ==>
        && r.value in restFulHttpEntry
        && (restFulHttpEntry[r.value].httpMethod == "" || restFulHttpEntry[r.value].httpMethod == httpMethod)
    {
      var requestURL := Split(urlPath);
      var matchedEntry: seq<string> := [];
      var found: Option<string> := None;
      var left := restFulHttpEntry.Keys;
      ghost var order: seq<string> := [];
      while left != {}
        invariant left <= restFulHttpEntry.Keys
        invariant multiset(order) + multiset(left) == multiset(restFulHttpEntry.Keys)
        invariant forall i | 0 <= i < |order| :: order[i] in restFulHttpEntry
        invariant WalkIn(order, restFulHttpEntry, urlPath, httpMethod, special)
          == if found.Some? then Found(found.value) else Matched(matchedEntry)
      {
        var k :| k in left;
        left := left - {k};
        ghost var before := order;
        order := order + [k];
        assert order[..|order| - 1] == before;
        var a := restFulHttpEntry[k];
        if found.None? && (a.httpMethod == "" || a.httpMethod == httpMethod)
          && PatternMatches(a.pattern, urlPath, special) && |requestURL| == |a.urls| {
          var isMatched := true;
          var i := 0;
          while i < |requestURL| && isMatched
            invariant i <= |requestURL|
            invariant isMatched ==> forall j | 0 <= j < i :: requestURL[j] == a.urls[j] || IsParameter(a.urls[j])
            invariant !isMatched ==> !SegmentsMatch(a.urls, requestURL)
            decreases |requestURL| - i, isMatched
          {
            if requestURL[i] != a.urls[i] && !IsParameter(a.urls[i]) {
              isMatched := false;
            } else {
              i := i + 1;
            }
          }
          if isMatched {
            if a.id == "" {
              found := Some(k);  // the source returns here
            } else {
              matchedEntry := matchedEntry + [k];
            }
          }
        }
      }
      assert multiset(left) == multiset{};
      assert Order(order, restFulHttpEntry);
      WalkMethods(order, restFulHttpEntry, urlPath, httpMethod, special);
      if |Immediate(restFulHttpEntry, urlPath, httpMethod, special)| <= 1 {
        WalkResolves(order, restFulHttpEntry, urlPath, httpMethod, special);
      }
      if found.Some? {
        return found;
      }
      if |matchedEntry| > 0 {
        if |matchedEntry| == 1 {
          return Some(matchedEntry[0]);
        }
      }
      return None;
    }
  }
}
