/** What the balance modes mean over runs of the cached address list. */
module AddrRuns {
  import opened Options
  import opened Modulo
  import opened AddrCache

  ghost predicate AllAsk(steps: seq<Step>, mode: BalanceMode) {
    forall i | 0 <= i < |steps| && steps[i].Call? :: steps[i].mode == mode
  }

  predicate Asks(c: Caller, mode: BalanceMode) {
    !c.Idle? ==> c.mode == mode
  }

  // ---- the last server ----

  /** A caller that uses the last index, or will. */
  predicate AtLast(s: State, c: Caller) {
    && Asks(c, LastServer)
    && (c.InList? ==>
          && c.id < |s.lists|
          && (c.phase.ReadIndex? || c.phase.Advance? || c.phase.Picked?)
          && (!c.phase.ReadIndex? ==> c.phase.used == s.lists[c.id].n - 1))
    && (c.Storing? ==> c.n > 0 && c.start == c.n - 1)
  }

  ghost predicate LastSound(s: State) {
    && (forall t | 0 <= t < |s.callers| :: AtLast(s, s.callers[t]))
    && (forall id | 0 <= id < |s.lists| :: s.lists[id].n > 0 && s.lists[id].cursor == s.lists[id].n - 1)
    && (s.cached.Some? ==> s.cached.value < |s.lists|)
    && (forall k | 0 <= k < |s.answers| ::
          s.answers[k].0 < |s.lists| && s.answers[k].1 == s.lists[s.answers[k].0].n - 1)
  }

  lemma LastGetAddr(s: State, t: nat, drawn: nat)
    requires LastSound(s) && t < |s.callers| && s.callers[t].InList?
    ensures s.callers[t].id < |s.lists| && LastSound(GetAddrStep(s, t, drawn))
  {
    var c := s.callers[t];
    assert AtLast(s, c);
    var s' := GetAddrStep(s, t, drawn);
    assert s'.lists == s.lists;
    forall u | 0 <= u < |s'.callers| ensures AtLast(s', s'.callers[u]) {
      assert u != t ==> s'.callers[u] == s.callers[u] && AtLast(s, s.callers[u]);
    }
  }

  // A step that leaves the lists alone or adds one whose cursor is at its end.
  lemma LastOther(s: State, s': State, t: nat)
    requires LastSound(s) && t < |s.callers| == |s'.callers| && AtLast(s', s'.callers[t])
    requires forall u | 0 <= u < |s.callers| && u != t :: s'.callers[u] == s.callers[u]
    requires s'.answers == s.answers && s.lists <= s'.lists
    requires forall id | |s.lists| <= id < |s'.lists| :: s'.lists[id].n > 0 && s'.lists[id].cursor == s'.lists[id].n - 1
    requires s'.cached.Some? ==> s'.cached.value < |s'.lists|
    ensures LastSound(s')
  {
    forall u | 0 <= u < |s'.callers| ensures AtLast(s', s'.callers[u]) {
      assert u != t ==> AtLast(s, s.callers[u]);
    }
  }

  lemma LastStep(s: State, step: Step)
    requires LastSound(s) && (step.Call? ==> step.mode == LastServer)
    ensures LastSound(Next(s, step))
  {
    if step.Evict? {
      EvictKeeps(s, step.watcher);
    } else if step.t < |s.callers| {
      assert AtLast(s, s.callers[step.t]);
      if step.Go? && s.callers[step.t].InList? {
        LastGetAddr(s, step.t, step.drawn);
      } else {
        LastOther(s, Next(s, step), step.t);
      }
    }
  }

  lemma EvictKeeps(s: State, w: nat)
    requires LastSound(s)
    ensures LastSound(Next(s, Evict(w)))
  {
    var s' := Next(s, Evict(w));
    forall u | 0 <= u < |s'.callers| ensures AtLast(s', s'.callers[u]) {
      assert AtLast(s, s.callers[u]);
    }
  }

  lemma {:induction false} LastAlways(callers: nat, steps: seq<Step>)
    requires AllAsk(steps, LastServer)
    ensures LastSound(Run(callers, steps))
  {
    if steps != [] {
      LastAlways(callers, steps[..|steps| - 1]);
      LastStep(Run(callers, steps[..|steps| - 1]), steps[|steps| - 1]);
    }
  }

  /** However callers and watchers interleave, if every call asks for the last server, every
      answer is the last address of its list. */
  lemma LastServerIsLast(callers: nat, steps: seq<Step>, k: nat)
    requires AllAsk(steps, LastServer) && k < |Run(callers, steps).answers|
    ensures var s := Run(callers, steps);
      s.answers[k].0 < |s.lists| && s.answers[k].1 == s.lists[s.answers[k].0].n - 1
  {
    LastAlways(callers, steps);
  }

  // ---- polling ----

  /** Where the only caller may be before anything is cached. */
  predicate BeforeList(c: Caller) {
    Asks(c, PollingServer) && !c.InList? && (c.Storing? ==> c.n > 0 && c.start == 0)
  }

  /** Where the cursor stands in the middle of call number `a`. */
  function CursorAt(phase: Phase, n: nat, a: nat): nat
    requires n > 0
  {
    match phase
    case CheckIndex(_) => a % n + 1
    case ResetIndex(_) => n
    case Picked(_) => (a + 1) % n
    case _ => a % n
  }

  /** And after: with `a` answers given from a list of `n`, what it has used and where it has left
      the cursor. */
  predicate OnList(c: Caller, cursor: nat, n: nat, a: nat)
    requires n > 0
  {
    && Asks(c, PollingServer)
    && if c.InList? then
         && c.id == 0
         && (c.phase.ReadIndex? || c.phase.used == a % n)
         && (c.phase.WriteIncrement? ==> c.phase.read == a % n)
         && cursor == CursorAt(c.phase, n, a)
         && (c.phase.ResetIndex? ==> a % n + 1 == n)
       else (c.Idle? || c.WaitRead? || c.Reading?) && cursor == a % n
  }

  ghost predicate PollSound(s: State) {
    && |s.callers| == 1
    && if s.lists == [] then s.answers == [] && s.cached.None? && BeforeList(s.callers[0])
       else
         && |s.lists| == 1 && s.lists[0].n > 0 && s.cached == Some(0)
         && OnList(s.callers[0], s.lists[0].cursor, s.lists[0].n, |s.answers|)
         && forall k | 0 <= k < |s.answers| :: s.answers[k] == (0, k % s.lists[0].n)
  }

  lemma PollGetAddr(s: State, drawn: nat)
    requires PollSound(s) && s.callers[0].InList?
    ensures s.lists != [] && PollSound(GetAddrStep(s, 0, drawn))
  {
    var n, a := s.lists[0].n, |s.answers|;
    NextModulo(a, n);
  }

  lemma PollStep(s: State, step: Step)
    requires PollSound(s) && !step.Evict? && (step.Call? ==> step.mode == PollingServer)
    ensures PollSound(Next(s, step))
  {
    if step.Go? && step.t == 0 && s.callers[0].InList? {
      PollGetAddr(s, step.drawn);
    } else if step.Go? && step.t == 0 && s.callers[0].Storing? {
      SmallModulo(0, s.callers[0].n);
    }
  }

  lemma {:induction false} PollAlways(steps: seq<Step>)
    requires AllAsk(steps, PollingServer) && forall i | 0 <= i < |steps| :: !steps[i].Evict?
    ensures PollSound(Run(1, steps))
  {
    if steps != [] {
      PollAlways(steps[..|steps| - 1]);
      PollStep(Run(1, steps[..|steps| - 1]), steps[|steps| - 1]);
    }
  }

  /** In every polling run of one caller without evictions there is one list, and answer `k` is
      its address k mod n: the list is gone round from its first address. */
  lemma PollingGoesRound(steps: seq<Step>, k: nat)
    requires AllAsk(steps, PollingServer) && forall i | 0 <= i < |steps| :: !steps[i].Evict?
    requires k < |Run(1, steps).answers|
    ensures var s := Run(1, steps);
      |s.lists| == 1 && s.lists[0].n > 0 && s.answers[k] == (0, k % s.lists[0].n)
  {
    PollAlways(steps);
  }

  // ---- random ----

  /** The numbers drawn in a run of one caller: one when the list is stored, and one in each call;
      a number out of range is none that could be drawn. */
  function Draws(steps: seq<Step>): seq<nat> {
    if steps == [] then []
    else
      var before, step := steps[..|steps| - 1], steps[|steps| - 1];
      Draws(before) + if step.Go? && step.t == 0 then Drawn(Run(1, before), step.drawn) else []
  }

  function Drawn(s: State, drawn: nat): seq<nat> {
    if s.callers == [] then []
    else
      var c := s.callers[0];
      if c.Storing? then [if drawn < c.n then drawn else c.start]
      else if c.InList? && c.id < |s.lists| && c.phase.Advance? && drawn < s.lists[c.id].n then [drawn]
      else []
  }

  /** With `a` answers given, how many numbers have been drawn, and which one the call uses. */
  predicate OnDraw(c: Caller, draws: seq<nat>, a: nat) {
    && Asks(c, RandomServer)
    && if c.InList? then
         && c.id == 0 && (c.phase.ReadIndex? || c.phase.Advance? || c.phase.Picked?)
         && |draws| == (if c.phase.Picked? then a + 2 else a + 1)
         && (!c.phase.ReadIndex? ==> c.phase.used == draws[a])
       else (c.Idle? || c.WaitRead? || c.Reading?) && |draws| == a + 1
  }

  ghost predicate RandomSound(s: State, draws: seq<nat>) {
    && |s.callers| == 1
    && if s.lists == [] then
         && s.answers == [] && s.cached.None? && draws == []
         && Asks(s.callers[0], RandomServer) && !s.callers[0].InList?
         && (s.callers[0].Storing? ==> s.callers[0].start < s.callers[0].n)
       else
         && |s.lists| == 1 && s.cached == Some(0) && draws != []
         && s.lists[0].cursor == draws[|draws| - 1] < s.lists[0].n
         && OnDraw(s.callers[0], draws, |s.answers|)
         && forall k | 0 <= k < |s.answers| :: k < |draws| && s.answers[k] == (0, draws[k])
  }

  lemma RandomStep(s: State, draws: seq<nat>, step: Step)
    requires RandomSound(s, draws) && !step.Evict? && (step.Call? ==> step.mode == RandomServer)
    ensures RandomSound(Next(s, step),
      draws + if step.Go? && step.t == 0 then Drawn(s, step.drawn) else [])
  {
    assert draws + [] == draws;
    if step.Go? && step.t == 0 {
      if s.callers[0].InList? {
        RandomGetAddr(s, draws, step.drawn);
      } else {
        RandomGo(s, draws, step);
      }
    }
  }

  lemma RandomGo(s: State, draws: seq<nat>, step: Step)
    requires RandomSound(s, draws) && step.Go? && step.t == 0 && !s.callers[0].InList?
    ensures RandomSound(Next(s, step), draws + Drawn(s, step.drawn))
  {
    assert draws + [] == draws && [] + Drawn(s, step.drawn) == Drawn(s, step.drawn);
  }

  lemma RandomGetAddr(s: State, draws: seq<nat>, drawn: nat)
    requires RandomSound(s, draws) && s.callers[0].InList?
    ensures s.lists != [] && RandomSound(GetAddrStep(s, 0, drawn), draws + Drawn(s, drawn))
  {
    assert draws + [] == draws;
  }

  lemma {:induction false} RandomAlways(steps: seq<Step>)
    requires AllAsk(steps, RandomServer) && forall i | 0 <= i < |steps| :: !steps[i].Evict?
    ensures RandomSound(Run(1, steps), Draws(steps))
  {
    if steps != [] {
      RandomAlways(steps[..|steps| - 1]);
      RandomStep(Run(1, steps[..|steps| - 1]), Draws(steps[..|steps| - 1]), steps[|steps| - 1]);
    }
  }

  /** In every random run of one caller without evictions, answer `k` is the address of the
      number drawn `k`-th, counting from the one drawn when the list was stored. */
  lemma RandomFollowsDraws(steps: seq<Step>, k: nat)
    requires AllAsk(steps, RandomServer) && forall i | 0 <= i < |steps| :: !steps[i].Evict?
    requires k < |Run(1, steps).answers|
    ensures k < |Draws(steps)| && Run(1, steps).answers[k] == (0, Draws(steps)[k])
  {
    RandomAlways(steps);
  }
}
