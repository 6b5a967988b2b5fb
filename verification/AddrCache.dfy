/** The cached address list of one zookeeper node: callers under a read-write lock, their
    shared cursor, and watchers that evict the list at any moment
    (protocol/service_addr_helper.go). Every read and write of shared state is one step. */
module AddrCache {
  import opened Options
  import opened Modulo

  datatype BalanceMode = RandomServer | LastServer | PollingServer

  // ---- one list, used by one caller at a time ----

  /** Where the cursor goes after a call; `random` is the number drawn. */
  function NextIndex(mode: BalanceMode, cursor: nat, n: nat, random: nat): nat {
    match mode
    case RandomServer => random
    case LastServer => cursor
    case PollingServer => if cursor + 1 >= n then 0 else cursor + 1
  }

  class ServiceAddress {
    const address: seq<(string, nat)>
    var nextUsingIndex: nat

    constructor (address: seq<(string, nat)>, nextUsingIndex: nat)
      ensures this.address == address && this.nextUsingIndex == nextUsingIndex
    {
      this.address := address;
      this.nextUsingIndex := nextUsingIndex;
    }

    method GetAddr(balanceMode: BalanceMode, random: nat) returns (ip: string, port: nat)
      requires address != []
      requires random < |address|  // what rand.Intn returns
      modifies this
      ensures var i := if old(nextUsingIndex) < |address| then old(nextUsingIndex) else 0;
        (ip, port) == address[i]
      ensures nextUsingIndex == NextIndex(balanceMode, old(nextUsingIndex), |address|, random)
      ensures balanceMode.RandomServer? ==> nextUsingIndex == random
      ensures balanceMode.LastServer? ==> nextUsingIndex == old(nextUsingIndex)
    {
      var usingIndex := nextUsingIndex;
      if usingIndex >= |address| {
        usingIndex := 0;
      }
      match balanceMode {
        case RandomServer => nextUsingIndex := random;
        case PollingServer =>
          nextUsingIndex := nextUsingIndex + 1;
          if nextUsingIndex >= |address| {
            nextUsingIndex := 0;
          }
        case LastServer =>
      }
      ip, port := address[usingIndex].0, address[usingIndex].1;
    }

    /** Successive polls that nothing disturbs go round the list. */
    method PollTimes(k: nat) returns (answers: seq<(string, nat)>)
      requires address != []
      modifies this
      ensures |answers| == k
      ensures old(nextUsingIndex) < |address| ==>
        && nextUsingIndex == (old(nextUsingIndex) + k) % |address|
        && forall j | 0 <= j < k :: answers[j] == address[(old(nextUsingIndex) + j) % |address|]
    {
      answers := [];
      for j := 0 to k
        invariant |answers| == j && nextUsingIndex == Polled(old(nextUsingIndex), |address|, j)
        invariant forall i | 0 <= i < j :: old(nextUsingIndex) < |address| ==>
          answers[i] == address[(old(nextUsingIndex) + i) % |address|]
      {
        if old(nextUsingIndex) < |address| {
          PollsCycle(old(nextUsingIndex), |address|, j);
        }
        var ip, port := GetAddr(PollingServer, 0);
        answers := answers + [(ip, port)];
      }
      if old(nextUsingIndex) < |address| {
        PollsCycle(old(nextUsingIndex), |address|, k);
      }
    }
  }

  /** The cursor after `k` undisturbed polls. */
  function Polled(start: nat, n: nat, k: nat): nat {
    if k == 0 then start else NextIndex(PollingServer, Polled(start, n, k - 1), n, 0)
  }

  /** Poll number `k` of an undisturbed sequence uses index (start + k) mod n. */
  lemma {:induction false} PollsCycle(start: nat, n: nat, k: nat)
    requires start < n
    ensures Polled(start, n, k) == (start + k) % n
  {
    if k > 0 {
      PollsCycle(start, n, k - 1);
      NextModulo(start + (k - 1), n);
    } else {
      SmallModulo(start, n);
    }
  }

  // ---- any number of callers and watchers ----

  // A list handed to the cache: its length, its cursor, and the watcher started for it.
  datatype List = List(n: nat, cursor: nat, watcher: nat)

  // Where a caller is inside getAddr.
  datatype Phase =
    | ReadIndex
    | Advance(used: nat)                  // about to change the cursor, if the mode does
    | WriteIncrement(used: nat, read: nat)  // has read the cursor to increment it
    | CheckIndex(used: nat)               // has written the increment
    | ResetIndex(used: nat)               // has seen the cursor at or past the end
    | Picked(used: nat)

  // Where a caller is inside GetAddr.
  datatype Caller =
    | Idle
    | WaitRead(mode: BalanceMode)
    | Reading(mode: BalanceMode)
    | InList(mode: BalanceMode, id: nat, exclusive: bool, phase: Phase)
    | Missed(mode: BalanceMode)
    | WaitWrite(mode: BalanceMode)
    | Writing(mode: BalanceMode)
    | Fetching(mode: BalanceMode)
    | Storing(mode: BalanceMode, n: nat, start: nat, watcher: nat)

  datatype State = State(
    callers: seq<Caller>,
    writer: Option<nat>,
    readers: set<nat>,
    lists: seq<List>,            // every list ever stored
    cached: Option<nat>,         // which of them the cache holds
    started: nat,                // watchers started so far, numbered from 0
    watchers: set<nat>,          // those that have not fired yet
    early: set<nat>,             // those that fired before the list they watch was stored
    stores: nat,
    evictions: nat,              // those that removed a list
    answers: seq<(nat, nat)>)    // list and index of every answer given

  // A step of caller `t`, with the outcome of whatever is not under the code's control:
  // the mode asked for, the numbers drawn, the number of children found.
  datatype Step =
    | Call(t: nat, mode: BalanceMode)
    | Go(t: nat, connected: bool, drawn: nat)
    | Evict(watcher: nat)

  function SetCursor(s: State, id: nat, cursor: nat): State
    requires id < |s.lists|
  {
    s.(lists := s.lists[id := s.lists[id].(cursor := cursor)])
  }

  function Move(s: State, t: nat, c: Caller): State
    requires t < |s.callers|
  {
    s.(callers := s.callers[t := c])
  }

  /** One step inside getAddr. */
  function GetAddrStep(s: State, t: nat, drawn: nat): State
    requires t < |s.callers| && s.callers[t].InList? && s.callers[t].id < |s.lists|
  {
    var c := s.callers[t];
    var list := s.lists[c.id];
    match c.phase
    case ReadIndex => Move(s, t, c.(phase := Advance(if list.cursor >= list.n then 0 else list.cursor)))
    case Advance(u) =>
      (match c.mode
       case RandomServer =>
         if drawn < list.n then Move(SetCursor(s, c.id, drawn), t, c.(phase := Picked(u))) else s
       case LastServer => Move(s, t, c.(phase := Picked(u)))
       case PollingServer => Move(s, t, c.(phase := WriteIncrement(u, list.cursor))))
    case WriteIncrement(u, r) => Move(SetCursor(s, c.id, r + 1), t, c.(phase := CheckIndex(u)))
    case CheckIndex(u) => Move(s, t, c.(phase := if list.cursor >= list.n then ResetIndex(u) else Picked(u)))
    case ResetIndex(u) => Move(SetCursor(s, c.id, 0), t, c.(phase := Picked(u)))
    case Picked(u) =>
      var s' := Move(s.(answers := s.answers + [(c.id, u)]), t, Idle);
      if c.exclusive then s'.(writer := None) else s'.(readers := s.readers - {t})
  }

  /** Some caller has fetched the list that watcher `w` watches, and has not stored it yet. */
  predicate AboutToStore(s: State, w: nat) {
    exists t | 0 <= t < |s.callers| :: s.callers[t].Storing? && s.callers[t].watcher == w
  }

  function Next(s: State, step: Step): State {
    match step
    case Evict(w) =>
      if w !in s.watchers then s
      else s.(watchers := s.watchers - {w}, cached := None,
              early := if AboutToStore(s, w) then s.early + {w} else s.early,
              evictions := s.evictions + if s.cached.Some? then 1 else 0)
    case Call(t, mode) => if t < |s.callers| && s.callers[t].Idle? then Move(s, t, WaitRead(mode)) else s
    case Go(t, connected, drawn) =>
      if t >= |s.callers| then s
      else match s.callers[t]
        case Idle => s
        case WaitRead(mode) =>
          if s.writer.Some? then s else Move(s.(readers := s.readers + {t}), t, Reading(mode))
        case Reading(mode) =>
          Move(s, t, if s.cached.Some? then InList(mode, s.cached.value, false, ReadIndex) else Missed(mode))
        case Missed(mode) => Move(s.(readers := s.readers - {t}), t, WaitWrite(mode))
        case WaitWrite(mode) =>
          if s.writer.Some? || s.readers != {} then s else Move(s.(writer := Some(t)), t, Writing(mode))
        case Writing(mode) =>
          Move(s, t, if s.cached.Some? then InList(mode, s.cached.value, true, ReadIndex) else Fetching(mode))
        case Fetching(mode) =>
          // a watcher is started as soon as the children are known, however many there are
          if !connected then Move(s.(writer := None), t, Idle)
          else
            var s' := s.(started := s.started + 1, watchers := s.watchers + {s.started});
            if drawn == 0 then Move(s'.(writer := None), t, Idle)
            else Move(s', t, Storing(mode, drawn, if mode.LastServer? then drawn - 1 else 0, s.started))
        case Storing(mode, n, start, w) =>
          // in random mode the first index is drawn
          var first := if mode.RandomServer? && drawn < n then drawn else start;
          Move(s.(lists := s.lists + [List(n, first, w)], cached := Some(|s.lists|), stores := s.stores + 1),
            t, InList(mode, |s.lists|, true, ReadIndex))
        case InList(_, id, _, _) => if id < |s.lists| then GetAddrStep(s, t, drawn) else s
  }

  function Init(callers: nat): State {
    State(seq(callers, _ => Idle), None, {}, [], None, 0, {}, {}, 0, 0, [])
  }

  function Run(callers: nat, steps: seq<Step>): State {
    if steps == [] then Init(callers) else Next(Run(callers, steps[..|steps| - 1]), steps[|steps| - 1])
  }

  // ---- what every step keeps ----

  predicate HoldsRead(c: Caller) {
    c.Reading? || c.Missed? || (c.InList? && !c.exclusive)
  }

  predicate HoldsWrite(c: Caller) {
    c.Writing? || c.Fetching? || c.Storing? || (c.InList? && c.exclusive)
  }

  /** The lock is held by exactly the callers whose position says so. */
  ghost predicate LockAgrees(s: State) {
    && (forall t | 0 <= t < |s.callers| :: HoldsRead(s.callers[t]) <==> t in s.readers)
    && (forall t | 0 <= t < |s.callers| :: HoldsWrite(s.callers[t]) <==> s.writer == Some(t))
    && (s.writer.Some? ==> s.readers == {} && s.writer.value < |s.callers|)
    && (forall t | t in s.readers :: t < |s.callers|)
  }

  /** Between its increment and its reset check, on list `id`. */
  predicate MidIncrement(c: Caller, id: nat) {
    c.InList? && c.id == id && (c.phase.CheckIndex? || c.phase.ResetIndex?)
  }

  /** A cursor is past the end only while some caller is between increment and reset. */
  ghost predicate CursorInRange(s: State) {
    forall id | 0 <= id < |s.lists| :: s.lists[id].cursor < s.lists[id].n
      || exists t :: 0 <= t < |s.callers| && MidIncrement(s.callers[t], id)
  }

  predicate PlaceValid(s: State, c: Caller) {
    match c
    case InList(_, id, _, phase) =>
      id < |s.lists| && (phase.ReadIndex? || phase.used < s.lists[id].n)
    case Storing(_, n, start, _) => start < n
    case _ => true
  }

  ghost predicate PlacesValid(s: State) {
    && (forall t | 0 <= t < |s.callers| :: PlaceValid(s, s.callers[t]))
    && (forall id | 0 <= id < |s.lists| :: s.lists[id].n > 0)
    && (s.cached.Some? ==> s.cached.value < |s.lists|)
    && (forall k | 0 <= k < |s.answers| ::
          s.answers[k].0 < |s.lists| && s.answers[k].1 < s.lists[s.answers[k].0].n)
  }

  /** While a caller fetches, nothing is cached; stores and evictions account for the cache. */
  ghost predicate CacheAgrees(s: State) {
    && (forall t | 0 <= t < |s.callers| :: s.callers[t].Fetching? || s.callers[t].Storing? ==> s.cached.None?)
    && s.stores == s.evictions + if s.cached.Some? then 1 else 0
  }

  /** Caller `t` moved, took or released the lock accordingly, and nobody else did. */
  ghost predicate Moved(s: State, s': State, t: nat) {
    && t < |s.callers| == |s'.callers|
    && (forall u | 0 <= u < |s.callers| && u != t :: s'.callers[u] == s.callers[u])
    && var c, c' := s.callers[t], s'.callers[t];
    && s'.readers == (if HoldsRead(c') then s.readers + {t} else s.readers - {t})
    && s'.writer == (if HoldsWrite(c') then Some(t) else if HoldsWrite(c) then None else s.writer)
    && (HoldsRead(c') && !HoldsRead(c) ==> s.writer.None?)
    && (HoldsWrite(c') && !HoldsWrite(c) ==> s.writer.None? && s.readers == {})
  }

  lemma MovedKeepsLock(s: State, s': State, t: nat)
    requires LockAgrees(s) && Moved(s, s', t)
    ensures LockAgrees(s')
  {
  }

  ghost predicate Unmoved(s: State, s': State) {
    s'.callers == s.callers && s'.readers == s.readers && s'.writer == s.writer
  }

  lemma GetAddrMoves(s: State, t: nat, drawn: nat)
    requires LockAgrees(s) && t < |s.callers| && s.callers[t].InList? && s.callers[t].id < |s.lists|
    ensures Moved(s, GetAddrStep(s, t, drawn), t)
  {
    assert HoldsRead(s.callers[t]) <==> t in s.readers;
  }

  lemma StepMoves(s: State, step: Step)
    requires LockAgrees(s)
    ensures Unmoved(s, Next(s, step)) || (!step.Evict? && Moved(s, Next(s, step), step.t))
  {
    if step.Go? && step.t < |s.callers| && s.callers[step.t].InList? && s.callers[step.t].id < |s.lists| {
      GetAddrMoves(s, step.t, step.drawn);
    }
  }

  lemma LockStep(s: State, step: Step)
    requires LockAgrees(s)
    ensures LockAgrees(Next(s, step))
  {
    StepMoves(s, step);
    if Unmoved(s, Next(s, step)) {
    } else {
      MovedKeepsLock(s, Next(s, step), step.t);
    }
  }

  /** Lists are only added, and keep their length. */
  ghost predicate Grown(s: State, s': State) {
    && |s.lists| <= |s'.lists|
    && (forall id | 0 <= id < |s.lists| :: s'.lists[id].n == s.lists[id].n)
    && (forall id | |s.lists| <= id < |s'.lists| :: s'.lists[id].n > 0)
  }

  lemma PlacesKept(s: State, s': State, t: nat)
    requires PlacesValid(s) && Grown(s, s') && t < |s.callers| == |s'.callers|
    requires forall u | 0 <= u < |s.callers| && u != t :: s'.callers[u] == s.callers[u]
    requires PlaceValid(s', s'.callers[t])
    requires s'.cached == s.cached || (s'.cached.Some? && s'.cached.value < |s'.lists|)
    requires s'.answers == s.answers
    ensures PlacesValid(s')
  {
  }

  lemma GetAddrKeepsPlaces(s: State, t: nat, drawn: nat)
    requires PlacesValid(s) && t < |s.callers| && s.callers[t].InList?
    ensures PlacesValid(GetAddrStep(s, t, drawn))
  {
    var s' := GetAddrStep(s, t, drawn);
    assert PlaceValid(s, s.callers[t]);
    if !s.callers[t].phase.Picked? {
      PlacesKept(s, s', t);
    }
  }

  lemma PlacesStep(s: State, step: Step)
    requires PlacesValid(s)
    ensures PlacesValid(Next(s, step))
  {
    if step.Evict? {
    } else if step.t < |s.callers| {
      assert PlaceValid(s, s.callers[step.t]);
      if step.Go? && s.callers[step.t].InList? {
        GetAddrKeepsPlaces(s, step.t, step.drawn);
      } else {
        PlacesKept(s, Next(s, step), step.t);
      }
    }
  }

  lemma GetAddrKeepsCache(s: State, t: nat, drawn: nat)
    requires CacheAgrees(s) && t < |s.callers| && s.callers[t].InList? && s.callers[t].id < |s.lists|
    ensures CacheAgrees(GetAddrStep(s, t, drawn))
  {
    var s' := GetAddrStep(s, t, drawn);
    assert s'.cached == s.cached && s'.stores == s.stores && s'.evictions == s.evictions;
  }

  lemma CacheStep(s: State, step: Step)
    requires LockAgrees(s) && CacheAgrees(s)
    ensures CacheAgrees(Next(s, step))
  {
    if step.Go? && step.t < |s.callers| && s.callers[step.t].InList? && s.callers[step.t].id < |s.lists| {
      GetAddrKeepsCache(s, step.t, step.drawn);
    }
  }

  /** A caller that is between increment and reset stays there, or leaves the cursor in range. */
  lemma GetAddrKeepsCursor(s: State, t: nat, drawn: nat, id: nat)
    requires PlacesValid(s) && CursorInRange(s) && t < |s.callers| && s.callers[t].InList? && id < |s.lists|
    ensures var s' := GetAddrStep(s, t, drawn);
      s'.lists[id].cursor < s'.lists[id].n
      || exists u :: 0 <= u < |s'.callers| && MidIncrement(s'.callers[u], id)
  {
    var s' := GetAddrStep(s, t, drawn);
    assert PlaceValid(s, s.callers[t]);
    if s.callers[t].phase.WriteIncrement? && s.callers[t].id == id {
      assert MidIncrement(s'.callers[t], id);
    } else if s.lists[id].cursor >= s.lists[id].n {
      var u :| 0 <= u < |s.callers| && MidIncrement(s.callers[u], id);
      if u != t {
        assert MidIncrement(s'.callers[u], id);
      } else if s.callers[t].phase.CheckIndex? {
        assert MidIncrement(s'.callers[t], id);
      }
    }
  }

  lemma CursorStep(s: State, step: Step)
    requires PlacesValid(s) && CursorInRange(s)
    ensures CursorInRange(Next(s, step))
  {
    var s' := Next(s, step);
    forall id | 0 <= id < |s'.lists|
      ensures s'.lists[id].cursor < s'.lists[id].n
        || exists t :: 0 <= t < |s'.callers| && MidIncrement(s'.callers[t], id)
    {
      if id == |s.lists| {
        assert PlaceValid(s, s.callers[step.t]);
      } else if step.Go? && step.t < |s.callers| && s.callers[step.t].InList? {
        assert PlaceValid(s, s.callers[step.t]);
        GetAddrKeepsCursor(s, step.t, step.drawn, id);
      } else if s.lists[id].cursor >= s.lists[id].n {
        var u :| 0 <= u < |s.callers| && MidIncrement(s.callers[u], id);
        assert MidIncrement(s'.callers[u], id);
      }
    }
  }

  /** A watcher is over exactly when it fired early, for a list about to be stored or cached. */
  predicate Watches(s: State, w: nat) {
    w < s.started && (w in s.watchers <==> w !in s.early)
  }

  ghost predicate WatchersAgree(s: State) {
    && (forall w | w in s.watchers :: w < s.started && w !in s.early)
    && (forall w | w in s.early :: w < s.started)
    && (forall t | 0 <= t < |s.callers| && s.callers[t].Storing? :: Watches(s, s.callers[t].watcher))
    && (s.cached.Some? ==> s.cached.value < |s.lists| && Watches(s, s.lists[s.cached.value].watcher))
  }

  lemma GetAddrKeepsWatchers(s: State, t: nat, drawn: nat)
    requires WatchersAgree(s) && t < |s.callers| && s.callers[t].InList? && s.callers[t].id < |s.lists|
    ensures WatchersAgree(GetAddrStep(s, t, drawn))
  {
    var s' := GetAddrStep(s, t, drawn);
    assert s'.watchers == s.watchers && s'.early == s.early && s'.started == s.started && s'.cached == s.cached;
    assert |s'.lists| == |s.lists|;
    assert forall id | 0 <= id < |s.lists| :: s'.lists[id].watcher == s.lists[id].watcher;
    assert forall u | 0 <= u < |s.callers| && s'.callers[u].Storing? :: s'.callers[u] == s.callers[u];
  }

  lemma EvictKeepsWatchers(s: State, w: nat)
    requires WatchersAgree(s)
    ensures WatchersAgree(Next(s, Evict(w)))
  {
    var s' := Next(s, Evict(w));
    forall t | 0 <= t < |s'.callers| && s'.callers[t].Storing? ensures Watches(s', s'.callers[t].watcher) {
      assert Watches(s, s.callers[t].watcher);
    }
  }

  lemma WatchersStep(s: State, step: Step)
    requires WatchersAgree(s)
    ensures WatchersAgree(Next(s, step))
  {
    if step.Evict? {
      EvictKeepsWatchers(s, step.watcher);
    } else if step.Go? && step.t < |s.callers| {
      var c := s.callers[step.t];
      if c.InList? && c.id < |s.lists| {
        GetAddrKeepsWatchers(s, step.t, step.drawn);
      } else if c.Fetching? {
        FetchKeepsWatchers(s, step);
      }
    }
  }

  lemma FetchKeepsWatchers(s: State, step: Step)
    requires WatchersAgree(s) && step.Go? && step.t < |s.callers| && s.callers[step.t].Fetching?
    ensures WatchersAgree(Next(s, step))
  {
    var s' := Next(s, step);
    forall u | 0 <= u < |s'.callers| && s'.callers[u].Storing? ensures Watches(s', s'.callers[u].watcher) {
      if u != step.t {
        assert Watches(s, s.callers[u].watcher);
      }
    }
  }

  // ---- every run ----

  ghost predicate Sound(s: State) {
    LockAgrees(s) && PlacesValid(s) && CacheAgrees(s) && CursorInRange(s)
  }

  lemma {:induction false} AlwaysSound(callers: nat, steps: seq<Step>)
    ensures Sound(Run(callers, steps))
  {
    if steps != [] {
      AlwaysSound(callers, steps[..|steps| - 1]);
      var s := Run(callers, steps[..|steps| - 1]);
      LockStep(s, steps[|steps| - 1]);
      PlacesStep(s, steps[|steps| - 1]);
      CacheStep(s, steps[|steps| - 1]);
      CursorStep(s, steps[|steps| - 1]);
    }
  }

  /** However the callers interleave, every answer is a member of the list it came from. */
  lemma AnswersAreMembers(callers: nat, steps: seq<Step>, k: nat)
    requires k < |Run(callers, steps).answers|
    ensures var s := Run(callers, steps);
      s.answers[k].0 < |s.lists| && s.answers[k].1 < s.lists[s.answers[k].0].n
  {
    AlwaysSound(callers, steps);
  }

  /** Whenever no caller is between its increment and its reset check on a list, the list's
      cursor is below its length. */
  lemma CursorSettles(callers: nat, steps: seq<Step>, id: nat)
    requires id < |Run(callers, steps).lists|
    requires forall t | 0 <= t < |Run(callers, steps).callers| :: !MidIncrement(Run(callers, steps).callers[t], id)
    ensures Run(callers, steps).lists[id].cursor < Run(callers, steps).lists[id].n
  {
    AlwaysSound(callers, steps);
  }

  /** A caller that holds the write lock never finds the cursor out of range. */
  lemma ExclusiveCallerInRange(callers: nat, steps: seq<Step>, t: nat)
    requires t < |Run(callers, steps).callers|
    requires var c := Run(callers, steps).callers[t]; c.InList? && c.exclusive && c.phase.ReadIndex?
    ensures var s := Run(callers, steps);
      s.callers[t].id < |s.lists| && s.lists[s.callers[t].id].cursor < s.lists[s.callers[t].id].n
  {
    AlwaysSound(callers, steps);
    var s := Run(callers, steps);
    assert PlaceValid(s, s.callers[t]);
    forall u | 0 <= u < |s.callers| ensures !MidIncrement(s.callers[u], s.callers[t].id) {
      assert HoldsWrite(s.callers[t]) && (HoldsWrite(s.callers[u]) <==> s.writer == Some(u));
      assert HoldsRead(s.callers[u]) <==> u in s.readers;
    }
  }

  /** A list is stored only into an empty cache, so the lists stored and not yet evicted
      are never more than the one the cache holds. */
  lemma StoreNeverOverwrites(callers: nat, steps: seq<Step>, next: Step)
    ensures var s := Run(callers, steps);
      && (Next(s, next).stores > s.stores ==> s.cached.None?)
      && s.stores - s.evictions == if s.cached.Some? then 1 else 0
  {
    AlwaysSound(callers, steps);
  }

  lemma {:induction false} WatchersAlwaysAgree(callers: nat, steps: seq<Step>)
    ensures WatchersAgree(Run(callers, steps))
  {
    if steps != [] {
      WatchersAlwaysAgree(callers, steps[..|steps| - 1]);
      WatchersStep(Run(callers, steps[..|steps| - 1]), steps[|steps| - 1]);
    }
  }

  /** In every reachable state, the cached list is watched exactly when its own watcher did not
      fire between the fetch and the store. */
  lemma WatchedUnlessEarly(callers: nat, steps: seq<Step>)
    requires Run(callers, steps).cached.Some?
    ensures var s := Run(callers, steps);
      s.cached.value < |s.lists|
      && (s.lists[s.cached.value].watcher in s.watchers <==> s.lists[s.cached.value].watcher !in s.early)
  {
    WatchersAlwaysAgree(callers, steps);
  }

  lemma {:induction false} RunMore(callers: nat, steps: seq<Step>, step: Step)
    ensures Run(callers, steps + [step]) == Next(Run(callers, steps), step)
  {
    assert (steps + [step])[..|steps|] == steps;
  }

  /** A list that is cached while no watcher is left stays cached for good. */
  lemma {:induction false} UnwatchedForGood(callers: nat, steps: seq<Step>, later: seq<Step>)
    requires Run(callers, steps).cached.Some? && Run(callers, steps).watchers == {}
    ensures var s, s' := Run(callers, steps), Run(callers, steps + later);
      s'.cached == s.cached && s'.watchers == {}
  {
    if later == [] {
      assert steps + later == steps;
    } else {
      var before, last := later[..|later| - 1], later[|later| - 1];
      UnwatchedForGood(callers, steps, before);
      AlwaysSound(callers, steps + before);
      RunMore(callers, steps + before, last);
      assert steps + later == steps + before + [last];
      UnwatchedStep(Run(callers, steps + before), last);
    }
  }

  lemma UnwatchedStep(s: State, step: Step)
    requires CacheAgrees(s) && s.cached.Some? && s.watchers == {}
    ensures Next(s, step).cached == s.cached && Next(s, step).watchers == {}
  {
    if step.Go? && step.t < |s.callers| {
      assert !s.callers[step.t].Fetching? && !s.callers[step.t].Storing?;
    }
  }

  // A caller alone, with nothing cached and no watcher, at the given place.
  ghost predicate AloneAt(s: State, c: Caller) {
    && s.callers == [c] && s.cached.None? && s.watchers == {}
    && s.writer == (if HoldsWrite(c) then Some(0) else None)
    && s.readers == if HoldsRead(c) then {0} else {}
  }

  lemma OneStep(steps: seq<Step>, step: Step, c: Caller, c': Caller) returns (more: seq<Step>)
    requires AloneAt(Run(1, steps), c) && AloneAt(Next(Run(1, steps), step), c')
    ensures AloneAt(Run(1, more), c')
  {
    RunMore(1, steps, step);
    more := steps + [step];
  }

  lemma ToMissed() returns (steps: seq<Step>)
    ensures AloneAt(Run(1, steps), Missed(PollingServer))
  {
    var go := Go(0, true, 1);
    steps := [];
    steps := OneStep(steps, Call(0, PollingServer), Idle, WaitRead(PollingServer));
    steps := OneStep(steps, go, WaitRead(PollingServer), Reading(PollingServer));
    steps := OneStep(steps, go, Reading(PollingServer), Missed(PollingServer));
  }

  lemma ToFetching() returns (steps: seq<Step>)
    ensures AloneAt(Run(1, steps), Fetching(PollingServer))
  {
    var go := Go(0, true, 1);
    steps := ToMissed();
    steps := OneStep(steps, go, Missed(PollingServer), WaitWrite(PollingServer));
    steps := OneStep(steps, go, WaitWrite(PollingServer), Writing(PollingServer));
    steps := OneStep(steps, go, Writing(PollingServer), Fetching(PollingServer));
  }

  /** One caller alone, whose watcher fires between its fetch and its store, caches a list that
      nothing watches. */
  lemma CachedUnwatched() returns (steps: seq<Step>)
    ensures Run(1, steps).cached.Some? && Run(1, steps).watchers == {}
  {
    var go := Go(0, true, 1);
    steps := ToFetching();
    var s := Run(1, steps);
    var w := s.started;
    RunMore(1, steps, go);
    RunMore(1, steps + [go], Evict(w));
    RunMore(1, steps + [go] + [Evict(w)], go);
    var fetched := Next(s, go);
    assert fetched.callers[0] == Storing(PollingServer, 1, 0, w) && fetched.watchers == {w};
    steps := steps + [go] + [Evict(w)] + [go];
  }

  /** The steps of one call, taken without interference, until the index is picked. */
  function Alone(s: State, t: nat, drawn: nat, steps: nat): State
    requires t < |s.callers| && s.callers[t].InList? && s.callers[t].id < |s.lists|
    decreases steps
  {
    if steps == 0 || s.callers[t].phase.Picked? then s else Alone(GetAddrStep(s, t, drawn), t, drawn, steps - 1)
  }

  /** Undisturbed, they do what the sequential method does. */
  lemma AloneIsSequential(s: State, t: nat, drawn: nat)
    requires t < |s.callers| && s.callers[t].InList? && s.callers[t].phase.ReadIndex? && s.callers[t].id < |s.lists|
    requires drawn < s.lists[s.callers[t].id].n
    ensures var c, list, s' := s.callers[t], s.lists[s.callers[t].id], Alone(s, t, drawn, 5);
      && s'.callers[t].InList?
      && s'.callers[t].phase == Picked(if list.cursor < list.n then list.cursor else 0)
      && s'.lists == s.lists[c.id := list.(cursor := NextIndex(c.mode, list.cursor, list.n, drawn))]
  {
    var s1 := GetAddrStep(s, t, drawn);
    var s2 := GetAddrStep(s1, t, drawn);
    assert Alone(s, t, drawn, 5) == Alone(s1, t, drawn, 4) == Alone(s2, t, drawn, 3);
    if s.callers[t].mode.PollingServer? {
      var s3 := GetAddrStep(s2, t, drawn);
      var s4 := GetAddrStep(s3, t, drawn);
      assert Alone(s2, t, drawn, 3) == Alone(s3, t, drawn, 2) == Alone(s4, t, drawn, 1);
    }
  }
}
