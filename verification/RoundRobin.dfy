/** Fairness of the round robin, and what the availability index means. */
module RoundRobin {
  import opened ServiceMesh

  // ---- the available indices in order ----

  /** The available indices below `k`, ascending. */
  function Ready(v: View, k: nat): (r: seq<nat>)
    ensures |r| <= k
    ensures forall i | 0 <= i < |r| :: r[i] < k && r[i] in v.available
  {
    if k == 0 then [] else Ready(v, k - 1) + if k - 1 in v.available then [k - 1] else []
  }

  function All(v: View): seq<nat> {
    Ready(v, |v.address|)
  }

  lemma {:induction false} ReadyPrefix(v: View, k: nat, m: nat)
    requires k <= m
    ensures Ready(v, k) <= Ready(v, m)
    ensures k < m && k in v.available ==> |Ready(v, k)| < |Ready(v, m)| && Ready(v, m)[|Ready(v, k)|] == k
  {
    if k < m {
      ReadyPrefix(v, k, m - 1);
    }
  }

  lemma ReadyGrows(v: View, k: nat, m: nat)
    ensures |Ready(v, k)| > |Ready(v, m)| ==> k > m
  {
    if k <= m {
      ReadyPrefix(v, k, m);
    }
  }

  lemma {:induction false} ReadyAscending(v: View, k: nat)
    ensures Ascending(Ready(v, k))
  {
    if k > 0 {
      ReadyAscending(v, k - 1);
    }
  }

  lemma {:induction false} ReadyComplete(v: View, k: nat, i: nat)
    requires i < k && i in v.available
    ensures i in Ready(v, k)
  {
    ReadyPrefix(v, i, k);
  }

  // ---- what one search finds ----

  predicate NoneIn(v: View, from: nat, to: nat) {
    forall k | from <= k < to :: k !in v.available
  }

  lemma {:induction false} SearchAhead(v: View, at: nat, i: nat, tries: nat)
    requires at <= i < |v.address| && i in v.available && NoneIn(v, at, i) && tries > i - at
    ensures Search(v, at, tries) == i
    decreases i - at
  {
    if at < i {
      SearchAhead(v, at + 1, i, tries - 1);
    }
  }

  lemma {:induction false} SearchAround(v: View, at: nat, i: nat, tries: nat)
    requires at <= |v.address| && i < |v.address| && NoneIn(v, at, |v.address|)
    requires i in v.available && NoneIn(v, 0, i) && tries > |v.address| - at + i
    ensures Search(v, at, tries) == i
    decreases |v.address| - at
  {
    if at < |v.address| {
      SearchAround(v, at + 1, i, tries - 1);
    } else {
      SearchAhead(v, 0, i, tries);
    }
  }

  lemma NoneBetween(v: View, at: nat, i: nat)
    requires at <= i <= |v.address| && |Ready(v, at)| == |Ready(v, i)|
    ensures NoneIn(v, at, i)
  {
    forall k | at <= k < i ensures k !in v.available {
      ReadyPrefix(v, at, k);
      ReadyPrefix(v, k, i);
    }
  }

  lemma {:induction false} ReadyBelow(v: View, j: nat)
    requires j < |All(v)|
    ensures |Ready(v, All(v)[j])| == j && |Ready(v, All(v)[j] + 1)| == j + 1
  {
    var i := All(v)[j];
    var p := |Ready(v, i)|;
    ReadyPrefix(v, i, |v.address|);
    ReadyAscending(v, |v.address|);
    assert All(v)[p] == i;
  }

  /** The position, among the available indices, of the one the next call takes. */
  function Position(v: View): nat {
    if |Ready(v, v.next)| < |All(v)| then |Ready(v, v.next)| else 0
  }

  /** With something available and a choice to make, the search never falls back: it takes
      the next available index from the cursor, or the first one if there is none left. */
  lemma ChooseExact(v: View)
    requires v.Valid() && v.available != {} && |v.address| > 1
    ensures All(v) != [] && Choose(v) == All(v)[Position(v)] && Choose(v) in v.available
  {
    var n, some :| n == |v.address| && some in v.available;
    ReadyComplete(v, n, some);
    ReadyPrefix(v, v.next, n);
    var j := |Ready(v, v.next)|;
    if j < |All(v)| {
      var i := All(v)[j];
      ReadyBelow(v, j);
      if i < v.next {
        ReadyPrefix(v, i + 1, v.next);
      } else {
        NoneBetween(v, v.next, i);
        SearchAhead(v, v.next, i, n);
      }
    } else {
      var i := All(v)[0];
      ReadyBelow(v, 0);
      NoneBetween(v, 0, i);
      NoneBetween(v, v.next, n);
      ReadyGrows(v, v.next, i);
      SearchAround(v, v.next, i, n);
    }
  }

  // ---- successive calls ----

  ghost predicate NoneEmpty(v: View, answers: seq<string>)
    requires v.Valid() && |answers| == |v.address|
  {
    forall i | i in v.available :: answers[i] != ""
  }

  ghost predicate Live(v: View, answers: seq<string>) {
    v.Valid() && |answers| == |v.address| && v.available != {} && |v.address| > 1 && NoneEmpty(v, answers)
  }

  lemma {:induction false} ReadyIgnoresCursor(v: View, next: nat, k: nat)
    ensures Ready(v.(next := next), k) == Ready(v, k)
  {
    if k > 0 {
      ReadyIgnoresCursor(v, next, k - 1);
    }
  }

  /** A call takes the available index after the one taken before it, cyclically. */
  lemma OneCall(v: View, answers: seq<string>)
    requires Live(v, answers)
    ensures var v' := Called(v, answers);
      && Live(v', answers) && All(v') == All(v) && All(v) != [] && Choose(v) == All(v)[Position(v)]
      && Position(v') == if Position(v) + 1 < |All(v)| then Position(v) + 1 else 0
  {
    ChooseExact(v);
    var j, v' := Position(v), Called(v, answers);
    ReadyBelow(v, j);
    ReadyIgnoresCursor(v, v'.next, v'.next);
    ReadyIgnoresCursor(v, v'.next, |v.address|);
  }

  /** From position `j`, up to the end of the list, calls take the indices in order. */
  lemma {:induction false} Straight(v: View, answers: seq<string>, n: nat)
    requires Live(v, answers) && Position(v) + n <= |All(v)|
    ensures Calls(v, answers, n) == All(v)[Position(v)..Position(v) + n]
    ensures var v' := After(v, answers, n);
      && Live(v', answers) && All(v') == All(v)
      && Position(v') == if Position(v) + n < |All(v)| then Position(v) + n else if n == 0 then Position(v) else 0
    decreases n
  {
    if n > 0 {
      OneCall(v, answers);
      var v' := Called(v, answers);
      if n > 1 {
        Straight(v', answers, n - 1);
      }
    }
  }

  lemma {:induction false} CallsSplit(v: View, answers: seq<string>, m: nat, n: nat)
    requires |answers| == |v.address|
    ensures Calls(v, answers, m + n) == Calls(v, answers, m) + Calls(After(v, answers, m), answers, n)
    ensures After(v, answers, m + n) == After(After(v, answers, m), answers, n)
    decreases m
  {
    if m > 0 {
      CallsSplit(Called(v, answers), answers, m - 1, n);
    }
  }

  /** From position `j`, the calls up to the end of the list lead to its first position. */
  lemma ToTheEnd(v: View, answers: seq<string>)
    requires Live(v, answers)
    ensures var s, j := All(v), Position(v);
      && j < |s| && Calls(v, answers, |s| - j) == s[j..]
      && var v1 := After(v, answers, |s| - j);
      Live(v1, answers) && All(v1) == s && Position(v1) == 0
  {
    ChooseExact(v);
    var s, j := All(v), Position(v);
    Straight(v, answers, |s| - j);
    assert s[j..j + (|s| - j)] == s[j..];
  }

  /** A window of as many calls as there are available indices goes once around them. */
  lemma OneRound(v: View, answers: seq<string>)
    requires Live(v, answers)
    ensures var s, j, v' := All(v), Position(v), After(v, answers, |All(v)|);
      && Calls(v, answers, |s|) == s[j..] + s[..j]
      && Live(v', answers) && All(v') == s && Position(v') == j
  {
    var s, j := All(v), Position(v);
    ToTheEnd(v, answers);
    var v1 := After(v, answers, |s| - j);
    Straight(v1, answers, j);
    CallsSplit(v, answers, |s| - j, j);
    assert s[0..j] == s[..j];
  }

  /** Any window of that length chooses each available index exactly once. */
  lemma WindowIsFair(v: View, answers: seq<string>)
    requires Live(v, answers)
    ensures multiset(Calls(v, answers, |All(v)|)) == multiset(v.available)
  {
    var s, j := All(v), Position(v);
    OneRound(v, answers);
    assert s == s[..j] + s[j..];
    EachOnce(v);
  }

  lemma EachOnce(v: View)
    requires v.Valid()
    ensures multiset(All(v)) == multiset(v.available)
  {
    ReadyAscending(v, |v.address|);
    forall i: nat ensures multiset(All(v))[i] == multiset(v.available)[i] {
      OnceEach(All(v), i);
      if i in v.available {
        ReadyComplete(v, |v.address|, i);
      }
    }
  }

  lemma AsManyAsAvailable(v: View)
    requires v.Valid()
    ensures |All(v)| == |v.available|
  {
    EachOnce(v);
    assert |multiset(All(v))| == |multiset(v.available)|;
  }

  lemma CountsAdd(s: seq<nat>, last: nat, i: nat)
    ensures multiset(s + [last])[i] == multiset(s)[i] + if last == i then 1 else 0
  {
    assert multiset(s + [last]) == multiset(s) + multiset([last]);
  }

  ghost predicate Ascending(s: seq<nat>) {
    forall i, j | 0 <= i < j < |s| :: s[i] < s[j]
  }

  lemma {:induction false} OnceEach(s: seq<nat>, i: nat)
    requires Ascending(s)
    ensures multiset(s)[i] == if i in s then 1 else 0
  {
    if s != [] {
      var before, last := s[..|s| - 1], s[|s| - 1];
      OnceEach(before, i);
      CountsAdd(before, last, i);
      assert s == before + [last];
      assert last !in before;
    }
  }

  /** `a`, an available index, is called at most once more often than `b` if `b` is
      available too, and `b` is not called at all if it is not. */
  ghost predicate Balanced(calls: seq<nat>, available: set<nat>, a: nat, b: nat) {
    if b in available then multiset(calls)[a] <= multiset(calls)[b] + 1 else multiset(calls)[b] == 0
  }

  lemma PartOfRound(part: seq<nat>, rest: seq<nat>, available: set<nat>, a: nat, b: nat)
    requires multiset(part + rest) == multiset(available)
    ensures Balanced(part, available, a, b)
  {
    var whole := multiset(part + rest);
    assert whole == multiset(part) + multiset(rest);
    assert whole[a] == multiset(part)[a] + multiset(rest)[a] && whole[b] == multiset(part)[b] + multiset(rest)[b];
  }

  lemma RoundThenMore(round: seq<nat>, more: seq<nat>, available: set<nat>, a: nat, b: nat)
    requires multiset(round) == multiset(available) && Balanced(more, available, a, b)
    ensures Balanced(round + more, available, a, b)
  {
    assert multiset(round + more) == multiset(round) + multiset(more);
  }

  /** Over any number of calls, two available indices are chosen equally often, give or
      take one, and no other index is chosen at all. */
  lemma {:induction false} TotalsDifferByOne(v: View, answers: seq<string>, n: nat, a: nat, b: nat)
    requires Live(v, answers) && a in v.available
    ensures Balanced(Calls(v, answers, n), v.available, a, b)
    decreases n
  {
    var m := |All(v)|;
    RoundKeeps(v, answers);
    if n < m {
      PartRound(v, answers, n, m - n, a, b);
    } else {
      var v', rest := After(v, answers, m), n - m;
      TotalsDifferByOne(v', answers, rest, a, b);
      assert Balanced(Calls(v', answers, rest), v.available, a, b);
      AfterRound(v, answers, m, rest, a, b);
    }
  }

  lemma PartRound(v: View, answers: seq<string>, n: nat, rest: nat, a: nat, b: nat)
    requires |answers| == |v.address|
    requires multiset(Calls(v, answers, n + rest)) == multiset(v.available)
    ensures Balanced(Calls(v, answers, n), v.available, a, b)
  {
    CallsSplit(v, answers, n, rest);
    PartOfRound(Calls(v, answers, n), Calls(After(v, answers, n), answers, rest), v.available, a, b);
  }

  lemma AfterRound(v: View, answers: seq<string>, m: nat, n: nat, a: nat, b: nat)
    requires |answers| == |v.address|
    requires multiset(Calls(v, answers, m)) == multiset(v.available)
    requires Balanced(Calls(After(v, answers, m), answers, n), v.available, a, b)
    ensures Balanced(Calls(v, answers, m + n), v.available, a, b)
  {
    CallsSplit(v, answers, m, n);
    RoundThenMore(Calls(v, answers, m), Calls(After(v, answers, m), answers, n), v.available, a, b);
  }

  lemma RoundKeeps(v: View, answers: seq<string>)
    requires Live(v, answers)
    ensures 0 < |All(v)| && multiset(Calls(v, answers, |All(v)|)) == multiset(v.available)
    ensures var v' := After(v, answers, |All(v)|); Live(v', answers) && v'.available == v.available
  {
    WindowIsFair(v, answers);
    ChooseExact(v);
    OneRound(v, answers);
  }

  // ---- empty addresses ----

  lemma {:induction false} Stuck(v: View, answers: seq<string>, n: nat)
    requires |answers| == |v.address| && v.address != [] && answers[Choose(v)] == ""
    ensures Calls(v, answers, n) == seq(n, _ => Choose(v))
    decreases n
  {
    if n > 0 {
      Stuck(v, answers, n - 1);
    }
  }

  ghost predicate FairFrom(v: View, answers: seq<string>, next: nat)
    requires |answers| == |v.address|
  {
    multiset(Calls(v.(next := next), answers, |All(v)|)) == multiset(v.available)
  }

  /** An empty address is never counted, so the cursor stays at it: calls are fair from every
      cursor just when at most one index is available or none of the available addresses is
      empty. */
  lemma FairUnlessEmpty(v: View, answers: seq<string>)
    requires |answers| == |v.address|
    requires v.Valid() && v.available != {} && |v.address| > 1
    ensures (forall next | 0 <= next <= |v.address| :: FairFrom(v, answers, next))
      <==> |All(v)| == 1 || NoneEmpty(v, answers)
  {
    EachOnce(v);
    if NoneEmpty(v, answers) {
      forall next | 0 <= next <= |v.address| ensures FairFrom(v, answers, next) {
        var w := v.(next := next);
        WindowIsFair(w, answers);
        ReadyIgnoresCursor(v, next, |v.address|);
      }
    } else if |All(v)| == 1 {
      forall next | 0 <= next <= |v.address| ensures FairFrom(v, answers, next) {
        OnlyChoice(v, answers, next);
      }
    } else {
      UnfairAt(v, answers);
    }
  }

  lemma OnlyChoice(v: View, answers: seq<string>, next: nat)
    requires |answers| == |v.address|
    requires v.Valid() && v.available != {} && |v.address| > 1 && |All(v)| == 1 && next <= |v.address|
    ensures FairFrom(v, answers, next)
  {
    var w := v.(next := next);
    ReadyIgnoresCursor(v, next, |v.address|);
    ChooseExact(w);
    EachOnce(v);
    assert Calls(w, answers, 1) == [Choose(w)] + Calls(Called(w, answers), answers, 0);
    assert Calls(w, answers, 1) == All(v);
  }

  lemma UnfairAt(v: View, answers: seq<string>)
    requires |answers| == |v.address|
    requires v.Valid() && v.available != {} && |v.address| > 1
    requires |All(v)| != 1 && !NoneEmpty(v, answers)
    ensures exists next | 0 <= next <= |v.address| :: !FairFrom(v, answers, next)
  {
    var i :| i in v.available && answers[i] == "";
    var w := v.(next := i);
    ReadyIgnoresCursor(v, i, i);
    ReadyIgnoresCursor(v, i, |v.address|);
    ReadyPrefix(v, i, |v.address|);
    ChooseExact(w);
    var m := |All(v)|;
    Stuck(w, answers, m);
    EachOnce(v);
    var calls := Calls(w, answers, m);
    assert calls[0] == i && calls[1] == i;
    assert calls == [i, i] + calls[2..];
    assert multiset(v.available)[i] == 1;
    assert !FairFrom(v, answers, i);
  }
}
