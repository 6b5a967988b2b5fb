/** What a successful build returns, which builds succeed, and what the failing ones report. */
module SpliceProofs {
  import opened Bytes
  import opened Sequences
  import opened StringLiteral
  import opened DateLiteral
  import opened Interpolate

  /** The template up to and including its placeholder number `k`. */
  function PrefixThrough(query: seq<byte>, k: nat): (r: seq<byte>)
    requires k < Count(query, QUESTION)
    ensures r <= query && r != [] && r[|r| - 1] == QUESTION && Count(r, QUESTION) == k + 1
  {
    var before := query[..|query| - 1];
    if k < Count(before, QUESTION) then PrefixThrough(before, k) else query
  }

  /** The arguments can be printed, and the text through the last of them leaves four bytes
      of the packet free; a nil argument is not measured. */
  predicate Fits(style: Style, max: int, query: seq<byte>, args: seq<Arg>)
    requires 0 < |args| == Count(query, QUESTION)
  {
    AllPrintable(args) && (args[|args| - 1] == Nil || |Splice(style, query, args)| + 4 <= max)
  }

  /** The builder goes on after argument `k`. */
  predicate Accepts(style: Style, max: int, query: seq<byte>, args: seq<Arg>, k: nat)
    requires k < |args| == Count(query, QUESTION)
  {
    Fits(style, max, PrefixThrough(query, k), args[..k + 1])
  }

  predicate AcceptsAll(style: Style, max: int, query: seq<byte>, args: seq<Arg>)
    requires |args| == Count(query, QUESTION)
  {
    forall k | 0 <= k < |args| :: Accepts(style, max, query, args, k)
  }

  /** The first argument that is not accepted decides the error. */
  ghost predicate FirstRejected(style: Style, max: int, query: seq<byte>, args: seq<Arg>, k: nat, e: Error)
    requires |args| == Count(query, QUESTION)
  {
    && k < |args|
    && (forall j | 0 <= j < k :: Accepts(style, max, query, args, j))
    && !Accepts(style, max, query, args, k)
    && e == if Refusal(args[k]).Some? then Refusal(args[k]).value else TooLarge
  }

  lemma AcceptedBefore(style: Style, max: int, query: seq<byte>, args: seq<Arg>, k: nat)
    requires query != [] && |args| == Count(query, QUESTION)
    requires k < Count(query[..|query| - 1], QUESTION)
    ensures var before := query[..|query| - 1];
      Accepts(style, max, query, args, k) == Accepts(style, max, before, args[..Count(before, QUESTION)], k)
  {
    var before := query[..|query| - 1];
    assert args[..Count(before, QUESTION)][..k + 1] == args[..k + 1];
    assert PrefixThrough(query, k) == PrefixThrough(before, k);
  }

  /** Dropping the template's last byte does not change what is accepted before it. */
  lemma AcceptsBefore(style: Style, max: int, query: seq<byte>, args: seq<Arg>)
    requires query != [] && |args| == Count(query, QUESTION)
    ensures var before := query[..|query| - 1];
      var n := Count(before, QUESTION);
      forall k | 0 <= k < n ::
        Accepts(style, max, query, args, k) == Accepts(style, max, before, args[..n], k)
  {
    var before := query[..|query| - 1];
    var n := Count(before, QUESTION);
    forall k | 0 <= k < n
      ensures Accepts(style, max, query, args, k) == Accepts(style, max, before, args[..n], k)
    {
      AcceptedBefore(style, max, query, args, k);
    }
  }

  // What OutcomeExact says of one template.
  ghost predicate Exact(style: Style, max: int, query: seq<byte>, args: seq<Arg>)
    requires |args| == Count(query, QUESTION)
  {
    var r := Outcome(style, max, query, args);
    && (r.Ok? <==> AcceptsAll(style, max, query, args))
    && (r.Ok? ==> AllPrintable(args) && r.sql == Splice(style, query, args))
    && (r.Err? ==> exists k :: FirstRejected(style, max, query, args, k, r.error))
  }

  /** A build succeeds exactly when every argument is accepted, and then the statement is
      the template with each placeholder replaced; otherwise the first argument that is
      not accepted decides the error. */
  lemma {:induction false} OutcomeExact(style: Style, max: int, query: seq<byte>, args: seq<Arg>)
    requires |args| == Count(query, QUESTION)
    ensures Outcome(style, max, query, args).Ok? <==> AcceptsAll(style, max, query, args)
    ensures Outcome(style, max, query, args).Ok? ==>
      AllPrintable(args) && Outcome(style, max, query, args).sql == Splice(style, query, args)
    ensures Outcome(style, max, query, args).Err? ==>
      exists k :: FirstRejected(style, max, query, args, k, Outcome(style, max, query, args).error)
  {
    if query != [] {
      var before := query[..|query| - 1];
      var given := args[..Count(before, QUESTION)];
      OutcomeExact(style, max, before, given);
      assert Exact(style, max, before, given);
      if Outcome(style, max, before, given).Err? {
        FailedBefore(style, max, query, args);
      } else if query[|query| - 1] == QUESTION {
        LastArgument(style, max, query, args);
      } else {
        assert given == args;
        LastByte(style, max, query, args);
      }
    }
  }

  lemma FailedBefore(style: Style, max: int, query: seq<byte>, args: seq<Arg>)
    requires query != [] && |args| == Count(query, QUESTION)
    requires var before := query[..|query| - 1];
      var given := args[..Count(before, QUESTION)];
      Exact(style, max, before, given) && Outcome(style, max, before, given).Err?
    ensures Exact(style, max, query, args)
  {
    var before := query[..|query| - 1];
    var given := args[..Count(before, QUESTION)];
    var e := Outcome(style, max, before, given).error;
    assert Outcome(style, max, query, args) == Err(e) by {
      assert query[|query| - 1] != QUESTION ==> given == args;
    }
    var k: nat :| FirstRejected(style, max, before, given, k, e);
    RejectedBefore(style, max, query, args, k, e);
  }

  lemma RejectedBefore(style: Style, max: int, query: seq<byte>, args: seq<Arg>, k: nat, e: Error)
    requires query != [] && |args| == Count(query, QUESTION)
    requires var before := query[..|query| - 1];
      FirstRejected(style, max, before, args[..Count(before, QUESTION)], k, e)
    ensures FirstRejected(style, max, query, args, k, e)
  {
    AcceptsBefore(style, max, query, args);
  }

  lemma LastByte(style: Style, max: int, query: seq<byte>, args: seq<Arg>)
    requires query != [] && |args| == Count(query, QUESTION) && query[|query| - 1] != QUESTION
    requires var before := query[..|query| - 1];
      Exact(style, max, before, args) && Outcome(style, max, before, args).Ok?
    ensures Exact(style, max, query, args)
  {
    AcceptsBefore(style, max, query, args);
    assert args[..|args|] == args;
  }

  // Adding the last argument succeeds just when it is accepted.
  lemma LastAccepted(style: Style, max: int, query: seq<byte>, args: seq<Arg>)
    requires query != [] && |args| == Count(query, QUESTION) && query[|query| - 1] == QUESTION
    requires AllPrintable(args[..|args| - 1])
    ensures var before, given, k := query[..|query| - 1], args[..|args| - 1], |args| - 1;
      var r := AddArg(style, max, Ok(Splice(style, before, given)), args[k]);
      && (r.Ok? <==> Accepts(style, max, query, args, k))
      && (r.Ok? ==> AllPrintable(args) && r.sql == Splice(style, query, args))
      && (r.Err? ==> r.error == if Refusal(args[k]).Some? then Refusal(args[k]).value else TooLarge)
  {
    var k := |args| - 1;
    assert args[..k + 1] == args;
    assert PrefixThrough(query, k) == query;
    forall j | 0 <= j < k ensures Refusal(args[j]).None? {
      assert args[j] == args[..k][j];
    }
  }

  lemma LastArgument(style: Style, max: int, query: seq<byte>, args: seq<Arg>)
    requires query != [] && |args| == Count(query, QUESTION) && query[|query| - 1] == QUESTION
    requires var before, given := query[..|query| - 1], args[..|args| - 1];
      Exact(style, max, before, given) && Outcome(style, max, before, given).Ok?
    ensures Exact(style, max, query, args)
  {
    var before, given, k := query[..|query| - 1], args[..|args| - 1], |args| - 1;
    var r := AddArg(style, max, Ok(Splice(style, before, given)), args[k]);
    assert Outcome(style, max, query, args) == r;
    LastAccepted(style, max, query, args);
    EarlierAccepted(style, max, query, args);
    if r.Err? {
      assert FirstRejected(style, max, query, args, k, r.error);
    }
  }

  lemma EarlierAccepted(style: Style, max: int, query: seq<byte>, args: seq<Arg>)
    requires query != [] && |args| == Count(query, QUESTION) && query[|query| - 1] == QUESTION
    requires AcceptsAll(style, max, query[..|query| - 1], args[..|args| - 1])
    ensures forall j | 0 <= j < |args| - 1 :: Accepts(style, max, query, args, j)
  {
    assert Count(query[..|query| - 1], QUESTION) == |args| - 1;
    forall j | 0 <= j < |args| - 1 ensures Accepts(style, max, query, args, j) {
      AcceptedBefore(style, max, query, args, j);
    }
  }

  // ---- when the packet limit bounds the statement ----

  /** Whether the last thing in the statement is an argument that is measured. */
  predicate EndsMeasured(query: seq<byte>, args: seq<Arg>)
    requires |args| == Count(query, QUESTION)
  {
    query != [] && query[|query| - 1] == QUESTION && args[|args| - 1] != Nil
  }

  ghost predicate LimitKept(style: Style, query: seq<byte>, args: seq<Arg>)
    requires |args| == Count(query, QUESTION)
  {
    forall max | Outcome(style, max, query, args).Ok? :: |Outcome(style, max, query, args).sql| + 4 <= max
  }

  /** Every statement built from a template and arguments fits its packet limit exactly when
      it ends in an argument other than nil, or cannot be built at all. */
  lemma LimitKeptExactly(style: Style, query: seq<byte>, args: seq<Arg>)
    requires |args| == Count(query, QUESTION)
    ensures LimitKept(style, query, args) <==> EndsMeasured(query, args) || !AllPrintable(args)
  {
    if !AllPrintable(args) {
      forall max ensures Outcome(style, max, query, args).Err? {
        OutcomeExact(style, max, query, args);
      }
    } else if !EndsMeasured(query, args) {
      var max := |Splice(style, query, args)| + 3;
      RoomForAll(style, max, query, args);
    }
  }

  /** Without a measured argument at the end, the limit need not cover the whole statement:
      three bytes more than its length will do, and less if text follows the last argument. */
  lemma {:induction false} RoomForAll(style: Style, max: int, query: seq<byte>, args: seq<Arg>)
    requires |args| == Count(query, QUESTION) && AllPrintable(args)
    requires |Splice(style, query, args)| + 3 <= max
    requires EndsMeasured(query, args) ==> |Splice(style, query, args)| + 4 <= max
    ensures Outcome(style, max, query, args) == Ok(Splice(style, query, args))
    decreases |query|
  {
    if query != [] {
      var before := query[..|query| - 1];
      if query[|query| - 1] == QUESTION {
        var given, a := args[..|args| - 1], args[|args| - 1];
        RoomForAll(style, max, before, given);
      } else {
        RoomForAll(style, max, before, args);
      }
    }
  }

  /** For every limit there is a statement, of plain text alone, that is built and exceeds it. */
  lemma LimitExceeded(style: Style, max: nat)
    ensures var query := seq(max + 1, _ => ZERO);
      Count(query, QUESTION) == 0 && Outcome(style, max, query, []) == Ok(query) && |query| > max
  {
    var query := seq(max + 1, _ => ZERO);
    OutcomeOfText(style, max, [], query, []);
    assert [] + query == query;
  }

  /** Nor is a nil argument measured at the end of a statement. */
  lemma NilExceeds(style: Style)
    ensures Count([QUESTION], QUESTION) == 1
    ensures Outcome(style, 0, [QUESTION], [Nil]) == Ok(NullText())
  {
    CountOne(QUESTION);
    OutcomeOfPlaceholder(style, 0, [], [], Nil);
    assert [] + [QUESTION] == [QUESTION] && [] + [Nil] == [Nil];
  }

  // ---- years outside the tables ----

  /** The first year after the tables, and the last one before them, fail the build. */
  lemma YearsThatPanic(style: Style, max: int)
    ensures Count([QUESTION], QUESTION) == 1
    ensures Outcome(style, max, [QUESTION], [Time(Clock(10000, 1, 1, 0, 0, 0, 0))]) == Err(IndexOutOfRange)
    ensures Outcome(style, max, [QUESTION], [Time(Clock(-1, 12, 31, 23, 59, 59, 0))]) == Err(IndexOutOfRange)
  {
    YearPanics(style, max, Clock(10000, 1, 1, 0, 0, 0, 0));
    YearPanics(style, max, Clock(-1, 12, 31, 23, 59, 59, 0));
  }

  /** An argument of any other type is refused as such. */
  lemma OtherIsRefused(style: Style, max: int)
    ensures Count([QUESTION], QUESTION) == 1
    ensures Outcome(style, max, [QUESTION], [Other]) == Err(UnsupportedType)
  {
    CountOne(QUESTION);
    OutcomeOfPlaceholder(style, max, [], [], Other);
    assert [] + [QUESTION] == [QUESTION] && [] + [Other] == [Other];
  }

  lemma YearPanics(style: Style, max: int, c: WallClock)
    requires !Printable(c)
    ensures Count([QUESTION], QUESTION) == 1
    ensures Outcome(style, max, [QUESTION], [Time(c)]) == Err(IndexOutOfRange)
  {
    CountOne(QUESTION);
    OutcomeOfPlaceholder(style, max, [], [], Time(c));
    assert [] + [QUESTION] == [QUESTION] && [] + [Time(c)] == [Time(c)];
  }

  // ---- which argument goes where ----

  lemma {:induction false} SpliceText(style: Style, text: seq<byte>)
    requires QUESTION !in text
    ensures Count(text, QUESTION) == 0 && Splice(style, text, []) == text
  {
    CountAbsent(text, QUESTION);
    if text != [] {
      SpliceText(style, text[..|text| - 1]);
    }
  }

  lemma {:induction false} SpliceConcat(style: Style, a: seq<byte>, b: seq<byte>, args: seq<Arg>, more: seq<Arg>)
    requires Count(a, QUESTION) == |args| && Count(b, QUESTION) == |more|
    requires AllPrintable(args) && AllPrintable(more)
    ensures Count(a + b, QUESTION) == |args + more| && AllPrintable(args + more)
    ensures Splice(style, a + b, args + more) == Splice(style, a, args) + Splice(style, b, more)
    decreases |b|
  {
    CountConcat(a, b, QUESTION);
    if b == [] {
      assert a + b == a && args + more == args;
    } else {
      var b', c := b[..|b| - 1], b[|b| - 1];
      assert (a + b)[..|a + b| - 1] == a + b';
      if c == QUESTION {
        var more' := more[..|more| - 1];
        SpliceConcat(style, a, b', args, more');
        assert (args + more)[..|args + more| - 1] == args + more';
        Associate(Splice(style, a, args), Splice(style, b', more'), Render(style, more[|more| - 1]));
      } else {
        SpliceConcat(style, a, b', args, more);
        Associate(Splice(style, a, args), Splice(style, b', more), [c]);
      }
    }
  }

  lemma SpliceMark(style: Style, a: Arg)
    requires Refusal(a).None?
    ensures Count([QUESTION], QUESTION) == 1 && Splice(style, [QUESTION], [a]) == Render(style, a)
  {
    CountOne(QUESTION);
    assert [QUESTION][..0] == [] && [a][..0] == [];
    assert [] + Render(style, a) == Render(style, a);
  }

  /** The placeholder with `k` placeholders before it takes argument `k`: the statement is what
      the text before it makes of the arguments before, that argument's text, and what the text
      after it makes of the arguments after. */
  lemma ArgumentInPlace(style: Style, before: seq<byte>, after: seq<byte>, args: seq<Arg>, k: nat)
    requires k < |args| && AllPrintable(args)
    requires Count(before, QUESTION) == k && Count(after, QUESTION) == |args| - k - 1
    ensures Count(before + [QUESTION] + after, QUESTION) == |args|
    ensures Splice(style, before + [QUESTION] + after, args) ==
      Splice(style, before, args[..k]) + Render(style, args[k]) + Splice(style, after, args[k + 1..])
  {
    ArgumentLast(style, before, args[..k], args[k]);
    var given := args[..k] + [args[k]];
    assert given + args[k + 1..] == args;
    SpliceConcat(style, before + [QUESTION], after, given, args[k + 1..]);
  }

  lemma ArgumentLast(style: Style, before: seq<byte>, given: seq<Arg>, a: Arg)
    requires Count(before, QUESTION) == |given| && AllPrintable(given) && Refusal(a).None?
    ensures Count(before + [QUESTION], QUESTION) == |given| + 1 && AllPrintable(given + [a])
    ensures Splice(style, before + [QUESTION], given + [a]) == Splice(style, before, given) + Render(style, a)
  {
    SpliceMark(style, a);
    SpliceConcat(style, before, [QUESTION], given, [a]);
  }
}
