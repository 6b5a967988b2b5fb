/** The two matchers of a route agree, and the order of the map does not decide. */
module RouteProofs {
  import opened Options
  import opened Routes

  // ---- the pattern of a route ----

  function Lits(u: string): seq<Atom> {
    seq(|u|, i requires 0 <= i < |u| => Lit(u[i]))
  }

  function SegmentAtoms(u: string): seq<Atom> {
    if IsParameter(u) then [NotSlashes] else Lits(u)
  }

  function RouteAtoms(urls: seq<string>): seq<Atom> {
    if urls == [] then []
    else if |urls| == 1 then SegmentAtoms(urls[0])
    else SegmentAtoms(urls[0]) + ([Lit('/')] + RouteAtoms(urls[1..]))
  }

  /** A segment that is a parameter, or has nothing special to a regular expression in it. */
  predicate Plain(u: string) {
    '/' !in u && (IsParameter(u) || forall i | 0 <= i < |u| :: u[i] !in META)
  }

  predicate AllPlain(urls: seq<string>) {
    urls != [] && forall i | 0 <= i < |urls| :: Plain(urls[i])
  }

  lemma ThenThen(p: seq<Atom>, q: seq<Atom>, r: Option<seq<Atom>>)
    ensures Then(p, Then(q, r)) == Then(p + q, r)
    ensures Then([], r) == r
  {
    if r.Some? {
      assert p + (q + r.value) == p + q + r.value;
      assert [] + r.value == r.value;
    }
  }

  lemma CompileChar(c: char, rest: string)
    requires c !in META
    ensures Compile([c] + rest) == Then([Lit(c)], Compile(rest))
  {
    var t := [c] + rest;
    assert t[1..] == rest;
    assert META[8] == '[' == SEGMENT[0];
    assert !(SEGMENT <= t);
  }

  lemma {:induction false} CompileText(u: string, rest: string)
    requires forall i | 0 <= i < |u| :: u[i] !in META
    ensures Compile(u + rest) == Then(Lits(u), Compile(rest))
  {
    if u == "" {
      assert u + rest == rest;
      ThenThen([], [], Compile(rest));
    } else {
      calc {
        Compile(u + rest);
        { assert u + rest == [u[0]] + (u[1..] + rest); }
        Compile([u[0]] + (u[1..] + rest));
        { CompileChar(u[0], u[1..] + rest); }
        Then([Lit(u[0])], Compile(u[1..] + rest));
        { CompileText(u[1..], rest); }
        Then([Lit(u[0])], Then(Lits(u[1..]), Compile(rest)));
        { ThenThen([Lit(u[0])], Lits(u[1..]), Compile(rest)); }
        Then([Lit(u[0])] + Lits(u[1..]), Compile(rest));
        { assert Lits(u) == [Lit(u[0])] + Lits(u[1..]); }
        Then(Lits(u), Compile(rest));
      }
    }
  }

  lemma CompileSegment(u: string, rest: string)
    requires Plain(u)
    ensures Compile(KeySegment(u) + rest) == Then(SegmentAtoms(u), Compile(rest))
  {
    if IsParameter(u) {
      var t := SEGMENT + rest;
      assert t[|SEGMENT|..] == rest && SEGMENT <= t;
    } else {
      CompileText(u, rest);
    }
  }

  lemma {:induction false} KeySegmentsEach(urls: seq<string>)
    ensures |KeySegments(urls)| == |urls|
    ensures forall i | 0 <= i < |urls| :: KeySegments(urls)[i] == KeySegment(urls[i])
  {
    if urls != [] {
      KeySegmentsEach(urls[..|urls| - 1]);
    }
  }

  lemma {:induction false} CompileRoute(urls: seq<string>)
    requires AllPlain(urls)
    ensures Compile(Join(KeySegments(urls))) == Some(RouteAtoms(urls))
  {
    KeySegmentsEach(urls);
    var keys := KeySegments(urls);
    if |urls| == 1 {
      CompileSegment(urls[0], "");
      assert keys[0] + "" == keys[0] && SegmentAtoms(urls[0]) + [] == SegmentAtoms(urls[0]);
    } else {
      KeySegmentsEach(urls[1..]);
      assert keys[1..] == KeySegments(urls[1..]);
      var rest, atoms := Join(keys[1..]), RouteAtoms(urls[1..]);
      calc {
        Compile(Join(keys));
        { assert keys[0] + "/" + rest == keys[0] + (['/'] + rest); }
        Compile(KeySegment(urls[0]) + (['/'] + rest));
        { CompileSegment(urls[0], ['/'] + rest); }
        Then(SegmentAtoms(urls[0]), Compile(['/'] + rest));
        { assert '/' !in META; CompileChar('/', rest); }
        Then(SegmentAtoms(urls[0]), Then([Lit('/')], Compile(rest)));
        { CompileRoute(urls[1..]); }
        Some(SegmentAtoms(urls[0]) + ([Lit('/')] + atoms));
      }
    }
  }

  // ---- matching one segment ----

  /** What may follow a segment in a pattern: the end, or a slash. */
  predicate EndsSegment(rest: seq<Atom>) {
    rest == [] || rest[0] == Lit('/')
  }

  lemma {:induction false} MatchParameter(rest: seq<Atom>, s: string)
    requires EndsSegment(rest)
    ensures var f := Split(s)[0];
      |f| <= |s| && (Matches([NotSlashes] + rest, s) <==> Matches(rest, s[|f|..]))
  {
    SplitFirst(s);
    var p, f := [NotSlashes] + rest, Split(s)[0];
    assert p[1..] == rest;
    if s != "" && s[0] != '/' {
      MatchParameter(rest, s[1..]);
      SplitFirst(s[1..]);
      assert s[|f|..] == s[1..][|f| - 1..];
    } else {
      assert s[|f|..] == s;
    }
  }

  lemma {:induction false} MatchText(u: string, rest: seq<Atom>, s: string)
    ensures Matches(Lits(u) + rest, s) <==> u <= s && Matches(rest, s[|u|..])
  {
    var p := Lits(u) + rest;
    if u == "" {
      assert p == rest && s[|u|..] == s;
    } else {
      assert p[0] == Lit(u[0]) && p[1..] == Lits(u[1..]) + rest;
      if s != "" && s[0] == u[0] {
        MatchText(u[1..], rest, s[1..]);
        assert u <= s <==> u[1..] <= s[1..];
        if |u| <= |s| {
          assert s[1..][|u| - 1..] == s[|u|..];
        }
      }
    }
  }

  lemma MatchSegment(u: string, rest: seq<Atom>, s: string)
    requires Plain(u) && EndsSegment(rest)
    ensures var f := Split(s)[0];
      |f| <= |s|
      && (Matches(SegmentAtoms(u) + rest, s) <==> (f == u || IsParameter(u)) && Matches(rest, s[|f|..]))
  {
    SplitFirst(s);
    var f := Split(s)[0];
    if IsParameter(u) {
      MatchParameter(rest, s);
    } else {
      MatchText(u, rest, s);
      if u <= s && Matches(rest, s[|u|..]) {
        assert |u| < |s| ==> s[|u|] == s[|u|..][0] == '/';
        SameFirst(u, f, s);
      }
    }
  }

  lemma SameFirst(u: string, f: string, s: string)
    requires u <= s && f <= s && '/' !in u && '/' !in f
    requires |u| < |s| ==> s[|u|] == '/'
    requires |f| < |s| ==> s[|f|] == '/'
    ensures u == f
  {
    assert forall i | 0 <= i < |f| :: s[i] == f[i] != '/';
    assert forall i | 0 <= i < |u| :: s[i] == u[i] != '/';
    assert u == s[..|u|] && f == s[..|f|];
  }

  // ---- the matchers agree ----

  lemma FirstSegment(u: string, us: seq<string>, s: string)
    requires Plain(u) && AllPlain(us)
    requires var f := Split(s)[0];
      |f| < |s| ==> (Matches(RouteAtoms(us), s[|f| + 1..]) <==> SegmentsMatch(us, Split(s[|f| + 1..])))
    ensures Matches(SegmentAtoms(u) + ([Lit('/')] + RouteAtoms(us)), s) <==> SegmentsMatch([u] + us, Split(s))
  {
    var f, rest := Split(s)[0], [Lit('/')] + RouteAtoms(us);
    SplitFirst(s);
    MatchSegment(u, rest, s);
    assert rest[1..] == RouteAtoms(us);
    if |f| < |s| {
      assert s[|f|..][1..] == s[|f| + 1..];
      ConsMatch(u, us, f, Split(s[|f| + 1..]));
    } else {
      assert |Split(s)| == 1;
    }
  }

  lemma OnlySegment(u: string, s: string)
    requires Plain(u)
    ensures Matches(SegmentAtoms(u), s) <==> SegmentsMatch([u], Split(s))
  {
    SplitFirst(s);
    MatchSegment(u, [], s);
    assert SegmentAtoms(u) + [] == SegmentAtoms(u);
  }

  /** For plain routes the pattern matches a path exactly when the segment walk does. */
  lemma {:induction false} AtomsAgree(urls: seq<string>, s: string)
    requires AllPlain(urls)
    ensures Matches(RouteAtoms(urls), s) <==> SegmentsMatch(urls, Split(s))
  {
    var u, us := urls[0], urls[1..];
    assert urls == [u] + us;
    if us == [] {
      OnlySegment(u, s);
    } else {
      var f := Split(s)[0];
      SplitFirst(s);
      if |f| < |s| {
        AtomsAgree(us, s[|f| + 1..]);
      }
      FirstSegment(u, us, s);
    }
  }

  lemma ConsMatch(u: string, us: seq<string>, f: string, fs: seq<string>)
    ensures SegmentsMatch([u] + us, [f] + fs) <==> (f == u || IsParameter(u)) && SegmentsMatch(us, fs)
  {
    var urls, request := [u] + us, [f] + fs;
    if SegmentsMatch(urls, request) {
      assert request[0] == urls[0] || IsParameter(urls[0]);
      forall i | 0 <= i < |us| ensures fs[i] == us[i] || IsParameter(us[i]) {
        assert request[i + 1] == urls[i + 1] || IsParameter(urls[i + 1]);
      }
    }
  }

  lemma MatchersAgree(urlPath: string, httpMethod: string, s: string, special: (string, string) -> bool)
    requires AllPlain(Split(urlPath))
    ensures PatternMatches(Registration(urlPath, httpMethod).pattern, s, special)
      <==> SegmentsMatch(Split(urlPath), Split(s))
  {
    CompileRoute(Split(urlPath));
    AtomsAgree(Split(urlPath), s);
  }

  // ---- when the order of the map decides ----

  lemma {:induction false} SomeOrder(s: set<string>) returns (order: seq<string>)
    ensures multiset(order) == multiset(s) && forall i | 0 <= i < |order| :: order[i] in s
    decreases s
  {
    if s == {} {
      order := [];
    } else {
      var k :| k in s;
      order := SomeOrder(s - {k});
      order := [k] + order;
      assert s == (s - {k}) + {k};
    }
  }

  /** A walk that begins with an immediate match ends there. */
  lemma {:induction false} FirstEnds(k: string, rest: seq<string>, table: map<string, Entry>, urlPath: string,
    httpMethod: string, special: (string, string) -> bool)
    requires k in Immediate(table, urlPath, httpMethod, special)
    requires forall i | 0 <= i < |rest| :: rest[i] in table
    ensures WalkIn([k] + rest, table, urlPath, httpMethod, special) == Found(k)
  {
    var order := [k] + rest;
    if rest == [] {
      assert order[..|order| - 1] == [];
    } else {
      FirstEnds(k, rest[..|rest| - 1], table, urlPath, httpMethod, special);
      assert order[..|order| - 1] == [k] + rest[..|rest| - 1];
    }
  }

  ghost predicate SameInEveryOrder(table: map<string, Entry>, urlPath: string, httpMethod: string,
    special: (string, string) -> bool)
  {
    forall a, b | Order(a, table) && Order(b, table) ::
      Answer(WalkIn(a, table, urlPath, httpMethod, special)) == Answer(WalkIn(b, table, urlPath, httpMethod, special))
  }

  /** The answer is the same in every order exactly when at most one matching entry has no
      parameter name. */
  lemma OrderDecidesExactly(table: map<string, Entry>, urlPath: string, httpMethod: string,
    special: (string, string) -> bool)
    ensures SameInEveryOrder(table, urlPath, httpMethod, special)
      <==> |Immediate(table, urlPath, httpMethod, special)| <= 1
  {
    var first := Immediate(table, urlPath, httpMethod, special);
    if |first| <= 1 {
      forall a, b | Order(a, table) && Order(b, table)
        ensures Answer(WalkIn(a, table, urlPath, httpMethod, special))
          == Answer(WalkIn(b, table, urlPath, httpMethod, special))
      {
        WalkResolves(a, table, urlPath, httpMethod, special);
        WalkResolves(b, table, urlPath, httpMethod, special);
      }
    } else {
      var k :| k in first;
      assert |first - {k}| > 0;
      var m :| m in first - {k};
      var a := StartingWith(k, table);
      var b := StartingWith(m, table);
      FirstEnds(k, a[1..], table, urlPath, httpMethod, special);
      FirstEnds(m, b[1..], table, urlPath, httpMethod, special);
      assert a == [k] + a[1..] && b == [m] + b[1..];
    }
  }

  lemma StartingWith(k: string, table: map<string, Entry>) returns (order: seq<string>)
    requires k in table
    ensures Order(order, table) && order != [] && order[0] == k
  {
    var rest := SomeOrder(table.Keys - {k});
    order := [k] + rest;
    assert table.Keys == (table.Keys - {k}) + {k};
  }

  // ---- and when it never does ----

  ghost predicate NamesNotEmpty(urls: seq<string>) {
    forall i | 0 <= i < |urls| && IsParameter(urls[i]) :: |urls[i]| > 1
  }

  lemma {:induction false} NoNameNoParameter(urls: seq<string>)
    requires NamesNotEmpty(urls) && LastName(urls) == ""
    ensures forall i | 0 <= i < |urls| :: !IsParameter(urls[i])
  {
    if urls != [] {
      NoNameNoParameter(urls[..|urls| - 1]);
    }
  }

  /** With non-empty parameter names, only the entry filed under the very path of the
      request can be an immediate match, so the map's order never decides. */
  lemma OrderNeverDecides(table: map<string, Entry>, urlPath: string, httpMethod: string,
    special: (string, string) -> bool)
    requires WellFiled(table) && forall k | k in table :: NamesNotEmpty(table[k].urls)
    ensures Immediate(table, urlPath, httpMethod, special) <= {urlPath}
    ensures SameInEveryOrder(table, urlPath, httpMethod, special)
  {
    var first := Immediate(table, urlPath, httpMethod, special);
    forall k | k in first ensures k == urlPath {
      var m :| table[k] == Registration(k, m);
      NoNameNoParameter(table[k].urls);
      assert Split(k) == Split(urlPath);
      JoinSplit(k);
      JoinSplit(urlPath);
    }
    if urlPath in first {
      assert first == {urlPath};
    } else {
      assert first == {};
    }
    OrderDecidesExactly(table, urlPath, httpMethod, special);
  }

  // ---- a table for which the order decides ----

  lemma SplitPair(c: char)
    requires c != '/'
    ensures Split(['/', c]) == ["", [c]]
  {
    assert Split("") == [""];
    assert [c][1..] == "" && [c] + "" == [c];
    assert Split([c]) == [[c]];
    assert ['/', c][1..] == [c];
  }

  /** A route of one segment, with a parameter that has no name or with no parameter, is an
      immediate match for "/a". */
  lemma PairHits(c: char, special: (string, string) -> bool)
    requires c == ':' || c == 'a'
    ensures Hit(Registration(['/', c], ""), "/a", "GET", special) && Registration(['/', c], "").id == ""
  {
    var urls := ["", [c]];
    SplitPair(c);
    SplitPair('a');
    assert urls[..1] == [""] && urls[..1][..0] == [];
    assert LastName(urls[..1]) == "" && LastName(urls) == "";
    MatchersAgree(['/', c], "", "/a", special);
  }

  /** With a nameless parameter beside a plain route, a request for the plain route is answered
      with the one or the other, as the map's order has it. */
  lemma OrderCanDecide(special: (string, string) -> bool)
    ensures var table := map["/:" := Registration("/:", ""), "/a" := Registration("/a", "")];
      && Order(["/:", "/a"], table) && Order(["/a", "/:"], table)
      && Answer(WalkIn(["/:", "/a"], table, "/a", "GET", special)) == Some("/:")
      && Answer(WalkIn(["/a", "/:"], table, "/a", "GET", special)) == Some("/a")
  {
    var table := map["/:" := Registration("/:", ""), "/a" := Registration("/a", "")];
    PairHits(':', special);
    PairHits('a', special);
    assert table.Keys == {"/:", "/a"};
    FirstEnds("/:", ["/a"], table, "/a", "GET", special);
    FirstEnds("/a", ["/:"], table, "/a", "GET", special);
    assert ["/:"] + ["/a"] == ["/:", "/a"] && ["/a"] + ["/:"] == ["/a", "/:"];
  }

  // ---- registered routes are answered ----

  predicate NoParameters(urls: seq<string>) {
    forall i | 0 <= i < |urls| :: !IsParameter(urls[i])
  }

  lemma {:induction false} NoParameterNoName(urls: seq<string>)
    requires NoParameters(urls)
    ensures LastName(urls) == ""
  {
    if urls != [] {
      NoParameterNoName(urls[..|urls| - 1]);
    }
  }

  /** With non-empty parameter names, a request for a plain registered path without parameters,
      by the method it is registered for, is answered with its entry in every order. */
  lemma RegisteredIsAnswered(table: map<string, Entry>, urlPath: string, httpMethod: string,
    special: (string, string) -> bool, order: seq<string>)
    requires WellFiled(table) && forall k | k in table :: NamesNotEmpty(table[k].urls)
    requires urlPath in table && AllPlain(Split(urlPath)) && NoParameters(Split(urlPath))
    requires table[urlPath].httpMethod == "" || table[urlPath].httpMethod == httpMethod
    requires Order(order, table)
    ensures Immediate(table, urlPath, httpMethod, special) == {urlPath}
    ensures Answer(WalkIn(order, table, urlPath, httpMethod, special)) == Some(urlPath)
  {
    var m :| table[urlPath] == Registration(urlPath, m);
    MatchersAgree(urlPath, m, urlPath, special);
    NoParameterNoName(Split(urlPath));
    assert urlPath in Immediate(table, urlPath, httpMethod, special);
    OrderNeverDecides(table, urlPath, httpMethod, special);
    assert Immediate(table, urlPath, httpMethod, special) == {urlPath};
    WalkResolves(order, table, urlPath, httpMethod, special);
  }

  /** What the pattern text "/a+b" stands for: one or more a's before the b. */
  function ManyAs(n: nat): string {
    "/" + seq(n + 1, _ => 'a') + "b"
  }

  lemma PlusIsSpecial()
    ensures Compile("/a+b") == None
  {
    assert "/a+b"[1..] == "a+b" && "a+b"[1..] == "+b";
    assert META[2] == '+' && SEGMENT[0] == '[';
    assert Compile("+b") == None;
    assert Compile("a+b") == None;
  }

  lemma SplitOne(u: string)
    requires '/' !in u
    ensures Split("/" + u) == ["", u]
  {
    SplitFirst(u);
    var f := Split(u)[0];
    assert f == u && Split(u) == [u];
    assert ("/" + u)[1..] == u;
  }

  lemma KeyOne(u: string)
    requires !IsParameter(u)
    ensures Join(KeySegments(["", u])) == "/" + u
  {
    var urls := ["", u];
    assert urls[..1] == [""] && urls[..1][..0] == [];
    assert KeySegments(urls[..1]) == [""] && KeySegments(urls) == urls;
    assert urls[1..] == [u] && Join([u]) == u;
    assert "" + "/" + u == "/" + u;
  }

  lemma PlusRegistered()
    ensures Registration("/a+b", "").pattern == "/a+b"
  {
    assert "/" + "a+b" == "/a+b";
    SplitOne("a+b");
    KeyOne("a+b");
  }

  /** A plain sign that regular expressions give a meaning to can keep a route from ever being
      found: the pattern of "/a+b" does not match the path "/a+b". */
  lemma PlusIsNotAnswered(special: (string, string) -> bool)
    requires forall s :: special("/a+b", s) <==> exists n: nat :: s == ManyAs(n)
    ensures var table := map["/a+b" := Registration("/a+b", "")];
      Order(["/a+b"], table) && Answer(WalkIn(["/a+b"], table, "/a+b", "GET", special)) == None
  {
    var table := map["/a+b" := Registration("/a+b", "")];
    var order := ["/a+b"];
    PlusIsSpecial();
    PlusRegistered();
    forall n: nat ensures ManyAs(n) != "/a+b" {
      assert n > 0 ==> ManyAs(n)[2] == 'a';
    }
    assert !special("/a+b", "/a+b");
    assert table.Keys == {"/a+b"} && order[..0] == [];
    assert WalkIn(order[..0], table, "/a+b", "GET", special) == Matched([]);
  }

  // ---- the answer by the routes themselves ----

  /** The route filed under `k` is for the request: by its method, and segment by segment. */
  predicate IsFor(table: map<string, Entry>, k: string, urlPath: string, httpMethod: string)
    requires k in table
  {
    var route, request := Split(k), Split(urlPath);
    && (table[k].httpMethod == "" || table[k].httpMethod == httpMethod)
    && |route| == |request|
    && forall i | 0 <= i < |route| :: route[i] == request[i] || (route[i] != "" && route[i][0] == ':')
  }

  ghost predicate PlainTable(table: map<string, Entry>) {
    && WellFiled(table)
    && forall k | k in table :: AllPlain(Split(k)) && NamesNotEmpty(Split(k))
  }

  lemma HitExactly(table: map<string, Entry>, k: string, urlPath: string, httpMethod: string,
    special: (string, string) -> bool)
    requires PlainTable(table) && k in table
    ensures Hit(table[k], urlPath, httpMethod, special) <==> IsFor(table, k, urlPath, httpMethod)
    ensures table[k].id == "" <==> NoParameters(Split(k))
  {
    var m :| table[k] == Registration(k, m);
    MatchersAgree(k, m, urlPath, special);
    if NoParameters(Split(k)) {
      NoParameterNoName(Split(k));
    } else if LastName(Split(k)) == "" {
      NoNameNoParameter(Split(k));
    }
  }

  /** For plain routes with parameter names, every order answers with `k` exactly when the route
      of `k` is for the request and either has no parameters or is the only one for it. */
  lemma AnsweredExactly(table: map<string, Entry>, k: string, urlPath: string, httpMethod: string,
    special: (string, string) -> bool, order: seq<string>)
    requires PlainTable(table) && Order(order, table)
    ensures Answer(WalkIn(order, table, urlPath, httpMethod, special)) == Some(k) <==>
      && k in table && IsFor(table, k, urlPath, httpMethod)
      && (NoParameters(Split(k)) || forall m | m in table && IsFor(table, m, urlPath, httpMethod) :: m == k)
  {
    var hits, first := Hits(table, urlPath, httpMethod, special), Immediate(table, urlPath, httpMethod, special);
    forall m | m in table
      ensures m in hits <==> IsFor(table, m, urlPath, httpMethod)
      ensures m in first <==> IsFor(table, m, urlPath, httpMethod) && NoParameters(Split(m))
      ensures NamesNotEmpty(table[m].urls)
    {
      HitExactly(table, m, urlPath, httpMethod, special);
    }
    OrderNeverDecides(table, urlPath, httpMethod, special);
    AtMost(first, urlPath);
    WalkResolves(order, table, urlPath, httpMethod, special);
    ResolvedExactly(Answer(WalkIn(order, table, urlPath, httpMethod, special)), hits, first, k);
  }

  lemma AtMost(s: set<string>, a: string)
    requires s <= {a}
    ensures |s| <= 1
  {
    if a in s {
      assert s == {a};
    } else {
      assert s == {};
    }
  }

  lemma ResolvedExactly(r: Option<string>, hits: set<string>, first: set<string>, k: string)
    requires first <= hits && |first| <= 1
    requires if first != {} then r.Some? && first == {r.value}
      else if |hits| == 1 then r.Some? && hits == {r.value} else r.None?
    ensures r == Some(k) <==> k in hits && (k in first || forall m | m in hits :: m == k)
  {
    if k in hits && forall m | m in hits :: m == k {
      assert hits == {k};
    }
  }

  lemma PostRegistered()
    ensures Registration("/a", "post").httpMethod == "POST" && Split("/a") == ["", "a"]
  {
    assert Upper("post") == "POST";
    assert "/" + "a" == "/a";
    SplitOne("a");
  }

  lemma PostTable()
    ensures var table := map["/a" := Registration("/a", "post")];
      && PlainTable(table) && Order(["/a"], table) && NoParameters(Split("/a"))
      && forall m: string :: IsFor(table, "/a", "/a", m) <==> m == "POST"
  {
    var table := map["/a" := Registration("/a", "post")];
    PostRegistered();
    PostRoute();
    assert table.Keys == {"/a"};
    assert table["/a"] == Registration("/a", "post");
  }

  lemma PostRoute()
    ensures AllPlain(["", "a"]) && NamesNotEmpty(["", "a"]) && NoParameters(["", "a"])
  {
  }

  /** A route registered with "post" answers "POST" requests, and no request by another method. */
  lemma PostIsAnswered(httpMethod: string, special: (string, string) -> bool)
    ensures var table := map["/a" := Registration("/a", "post")];
      Order(["/a"], table) && Answer(WalkIn(["/a"], table, "/a", httpMethod, special))
        == if httpMethod == "POST" then Some("/a") else None
  {
    var table := map["/a" := Registration("/a", "post")];
    PostTable();
    AnsweredExactly(table, "/a", "/a", httpMethod, special, ["/a"]);
    var r := Answer(WalkIn(["/a"], table, "/a", httpMethod, special));
    if r.Some? {
      AnswerHasMethod(["/a"], table, "/a", httpMethod, special);
      assert r.value == "/a";
    }
  }
}
