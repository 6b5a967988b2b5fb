/** Services known only by the heartbeats they push: registration, shutdown notices, and
    the choice of an address heard from recently (data/service_keepalive.go). */
module HeartbeatRegistry {
  import opened Modulo
  import opened ServiceMesh

  // One service's entry.
  datatype Received = Received(
    address: seq<string>,
    receiveTime: map<string, int>,
    onSecondary: set<string>,
    callCount: map<string, nat>,
    nextSequence: nat)

  datatype Entry = Absent | Present(service: Received)

  function Primary(addr: string, primaryOf: map<string, string>): string {
    if addr in primaryOf then primaryOf[addr] else addr
  }

  /** A heartbeat from `addr` at time `t`. */
  function Registered(e: Entry, addr: string, primary: string, t: int): Received {
    match e
    case Absent =>
      Received([primary], map[primary := t], if primary != addr then {addr} else {}, map[], 0)
    case Present(r) => r.(
      receiveTime := r.receiveTime[primary := t],
      onSecondary := if primary != addr then r.onSecondary + {primary} else r.onSecondary - {primary},
      address := if primary in r.address then r.address else r.address + [primary])
  }

  /** A shutdown notice from `addr`: the time goes back to 0, and the list is searched for
      the notice's own address, not for the primary one. */
  function ShutDown(e: Entry, addr: string, primary: string): Entry {
    match e
    case Absent => Absent
    case Present(r) => Present(r.(
      receiveTime := r.receiveTime[primary := 0],
      address := if addr in r.address then r.address else r.address + [primary]))
  }

  /** A call that was answered with `addr`. */
  function Answered(r: Received, next: nat, addr: string): Received {
    r.(nextSequence := next,
      callCount := r.callCount[addr := (if addr in r.callCount then r.callCount[addr] else 0) + 1])
  }

  /** The addresses heard from within `keep` seconds before `now`. */
  function Recent(r: Received, now: int, keep: int): set<string> {
    set a | a in r.receiveTime && now - r.receiveTime[a] <= keep
  }

  // ---- taking turns ----

  /** An order in which the addresses of `s` can be visited. */
  ghost predicate InSomeOrder(order: seq<string>, s: set<string>) {
    |order| == |s| && forall a :: a in order <==> a in s
  }

  /** Whose turn it is among `m` addresses, with the cursor at `next`. */
  function Turn(next: nat, m: nat): (i: nat)
    ensures m > 0 ==> i < m
  {
    if next < m then next else 0
  }

  function Chosen(r: Received, order: seq<string>): string {
    if order == [] then "" else order[Turn(r.nextSequence, |order|)]
  }

  /** One call: an empty answer is not counted. */
  function AfterCall(r: Received, order: seq<string>, secondaryOf: map<string, string>): Received {
    var addr := Substitute(Chosen(r, order), r.onSecondary, secondaryOf);
    if addr == "" then r
    else Answered(r, (if order == [] then r.nextSequence else Turn(r.nextSequence, |order|)) + 1, addr)
  }

  class ReceiveMesh {
    var services: map<string, Received>

    function EntryOf(name: string): Entry
      reads this
    {
      if name in services then Present(services[name]) else Absent
    }

    constructor ()
      ensures services == map[]
    {
      services := map[];
    }

    method RegisterReceiveService(serviceName: string, addr: string, t: int, primaryOf: map<string, string>)
      modifies this
      ensures services == old(services)[serviceName :=
        Registered(old(EntryOf(serviceName)), addr, Primary(addr, primaryOf), t)]
    {
      var primaryAddr := if addr in primaryOf then primaryOf[addr] else addr;
      if serviceName in services {
        var c := services[serviceName];
        c := c.(receiveTime := c.receiveTime[primaryAddr := t]);
        if primaryAddr != addr {
          c := c.(onSecondary := c.onSecondary + {primaryAddr});
        } else {
          c := c.(onSecondary := c.onSecondary - {primaryAddr});
        }
        var addrNotFound := NotFound(c.address, primaryAddr);
        if addrNotFound {
          c := c.(address := c.address + [primaryAddr]);
        }
        services := services[serviceName := c];
      } else {
        services := services[serviceName :=
          Received([primaryAddr], map[primaryAddr := t], if primaryAddr != addr then {addr} else {}, map[], 0)];
      }
    }

    method RemoveReceiveService(serviceName: string, addr: string, primaryOf: map<string, string>)
      modifies this
      ensures EntryOf(serviceName) == ShutDown(old(EntryOf(serviceName)), addr, Primary(addr, primaryOf))
      ensures services - {serviceName} == old(services) - {serviceName}
    {
      var primaryAddr := if addr in primaryOf then primaryOf[addr] else addr;
      if serviceName in services {
        var c := services[serviceName];
        c := c.(receiveTime := c.receiveTime[primaryAddr := 0]);
        var addrNotFound := NotFound(c.address, addr);
        if addrNotFound {
          c := c.(address := c.address + [primaryAddr]);
        }
        services := services[serviceName := c];
      }
    }

    /** One undisturbed call for a service that is not configured. `chosen` is the address
        before substitution; the map of times is visited in an arbitrary order. */
    method GetReceivedAddr(serviceName: string, now: int, keep: int, secondaryOf: map<string, string>)
      returns (addr: string, isPrimary: bool, chosen: string, usingReceivedSeq: nat)
      modifies this
      ensures serviceName !in old(services) ==> addr == "" == chosen && isPrimary
      ensures serviceName in old(services) ==> var r := old(services)[serviceName];
        && (if Recent(r, now, keep) == {} then chosen == "" else chosen in Recent(r, now, keep))
        && addr == Substitute(chosen, r.onSecondary, secondaryOf)
        && addr == (if isPrimary then chosen else if chosen in secondaryOf then secondaryOf[chosen] else "")
        && (isPrimary <==>
              chosen !in r.onSecondary || chosen !in secondaryOf || secondaryOf[chosen] == "")
        && usingReceivedSeq == if r.nextSequence < |Recent(r, now, keep)| then r.nextSequence
                               else if Recent(r, now, keep) == {} then r.nextSequence else 0
      ensures serviceName in old(services) ==> var r := old(services)[serviceName];
        exists order ::
          && InSomeOrder(order, Recent(r, now, keep))
          && chosen == Chosen(r, order)
          && services == old(services)[serviceName := AfterCall(r, order, secondaryOf)]
      ensures services == if addr == "" then old(services) else
        var r := old(services)[serviceName];
        old(services)[serviceName := Answered(r, usingReceivedSeq + 1, addr)]
    {
      addr, isPrimary, chosen, usingReceivedSeq := "", true, "", 0;
      if serviceName in services {
        var v := services[serviceName];
        usingReceivedSeq := v.nextSequence;
        var availableAddr := RecentInSomeOrder(v, now, keep);
        if |availableAddr| > 0 {
          if usingReceivedSeq >= |availableAddr| {
            usingReceivedSeq := 0;
          }
          chosen := availableAddr[usingReceivedSeq];
        }
        addr := chosen;
        if addr in v.onSecondary {
          if addr in secondaryOf && secondaryOf[addr] != "" {
            addr, isPrimary := secondaryOf[addr], false;
          }
        }
        if addr != "" {
          var count := if addr in v.callCount then v.callCount[addr] else 0;
          services := services[serviceName :=
            v.(nextSequence := usingReceivedSeq + 1, callCount := v.callCount[addr := count + 1])];
        }
        assert InSomeOrder(availableAddr, Recent(v, now, keep)) && chosen == Chosen(v, availableAddr);
      }
    }
  }

  method NotFound(s: seq<string>, addr: string) returns (r: bool)
    ensures r <==> addr !in s
  {
    for i := 0 to |s|
      invariant addr !in s[..i]
    {
      if s[i] == addr {
        return false;
      }
    }
    return true;
  }

  method RecentInSomeOrder(v: Received, now: int, keep: int) returns (r: seq<string>)
    ensures |r| == |Recent(v, now, keep)|
    ensures forall a :: a in r <==> a in Recent(v, now, keep)
  {
    r := [];
    var left := v.receiveTime.Keys;
    ghost var picked: set<string> := {};
    while left != {}
      invariant left <= v.receiveTime.Keys
      invariant picked == Recent(v, now, keep) - left
      invariant |r| == |picked| && forall a :: a in r <==> a in picked
    {
      var a :| a in left;
      left := left - {a};
      if now - v.receiveTime[a] <= keep {
        r := r + [a];
        picked := picked + {a};
      }
    }
  }

  // ---- runs ----

  datatype Event =
    | Heartbeat(addr: string, t: int)
    | Notice(addr: string)             // of shutdown
    | Called(next: nat, addr: string)  // an address was handed out and counted

  function After(e: Entry, event: Event, primaryOf: map<string, string>): Entry {
    match event
    case Heartbeat(a, t) => Present(Registered(e, a, Primary(a, primaryOf), t))
    case Notice(a) => ShutDown(e, a, Primary(a, primaryOf))
    case Called(n, a) =>
      if e.Absent? then e else Present(Answered(e.service, n, a))
  }

  function Run(h: seq<Event>, primaryOf: map<string, string>): Entry {
    if h == [] then Absent else After(Run(h[..|h| - 1], primaryOf), h[|h| - 1], primaryOf)
  }

  datatype News = Silence | HeardAt(t: int) | Gone

  /** The last thing said, directly or through its secondary address, about primary address
      `a`; a shutdown notice before the service's first heartbeat is not recorded. */
  function LastNews(h: seq<Event>, a: string, primaryOf: map<string, string>): News {
    if h == [] then Silence
    else
      var before, e := h[..|h| - 1], h[|h| - 1];
      if e.Heartbeat? && Primary(e.addr, primaryOf) == a then HeardAt(e.t)
      else if e.Notice? && Primary(e.addr, primaryOf) == a && Run(before, primaryOf).Present? then Gone
      else LastNews(before, a, primaryOf)
  }

  /** Every listed address has a receive time. */
  lemma {:induction false} ListedHaveTimes(h: seq<Event>, primaryOf: map<string, string>)
    requires Run(h, primaryOf).Present?
    ensures var r := Run(h, primaryOf).service; forall i | 0 <= i < |r.address| :: r.address[i] in r.receiveTime
  {
    var before := h[..|h| - 1];
    if Run(before, primaryOf).Present? {
      ListedHaveTimes(before, primaryOf);
    }
  }

  /** Every address heard from is listed. */
  lemma {:induction false} HeardAreListed(h: seq<Event>, primaryOf: map<string, string>, i: nat)
    requires i < |h| && h[i].Heartbeat?
    ensures Run(h, primaryOf).Present? && Primary(h[i].addr, primaryOf) in Run(h, primaryOf).service.address
  {
    if i < |h| - 1 {
      HeardAreListed(h[..|h| - 1], primaryOf, i);
    }
  }

  /** The times are exactly what was last said, and nothing else has one. */
  lemma {:induction false} TimesAreNews(h: seq<Event>, primaryOf: map<string, string>)
    ensures Run(h, primaryOf).Absent? ==> forall a :: LastNews(h, a, primaryOf) == Silence
    ensures Run(h, primaryOf).Present? ==> var r := Run(h, primaryOf).service;
      && (forall a :: a in r.receiveTime <==> LastNews(h, a, primaryOf) != Silence)
      && (forall a | a in r.receiveTime :: match LastNews(h, a, primaryOf)
            case HeardAt(t) => r.receiveTime[a] == t
            case _ => r.receiveTime[a] == 0)
  {
    if h != [] {
      TimesAreNews(h[..|h| - 1], primaryOf);
    }
  }

  /** An address can be chosen exactly when its last news is a heartbeat within the window,
      or a shutdown notice while the clock itself is still within the window. */
  lemma ChosenIffRecentlyHeard(h: seq<Event>, primaryOf: map<string, string>, now: int, keep: int, a: string)
    requires Run(h, primaryOf).Present?
    ensures a in Recent(Run(h, primaryOf).service, now, keep) <==>
      match LastNews(h, a, primaryOf)
      case Silence => false
      case HeardAt(t) => now - t <= keep
      case Gone => now <= keep
  {
    TimesAreNews(h, primaryOf);
  }

  /** So, once the clock is past the window, an address that announced its shutdown is not
      chosen again until a new heartbeat of its own comes. */
  lemma {:induction false} GoneStaysGone(h: seq<Event>, addr: string, later: seq<Event>,
    primaryOf: map<string, string>, now: int, keep: int)
    requires Run(h, primaryOf).Present? && now > keep
    requires forall i | 0 <= i < |later| && later[i].Heartbeat? ::
      Primary(later[i].addr, primaryOf) != Primary(addr, primaryOf)
    ensures var e := Run(h + [Notice(addr)] + later, primaryOf);
      e.Present? && Primary(addr, primaryOf) !in Recent(e.service, now, keep)
  {
    var a := Primary(addr, primaryOf);
    StaysGone(h, addr, later, primaryOf);
    ChosenIffRecentlyHeard(h + [Notice(addr)] + later, primaryOf, now, keep, a);
  }

  lemma OneMoreGone(h: seq<Event>, e: Event, a: string, primaryOf: map<string, string>)
    requires Run(h, primaryOf).Present? && LastNews(h, a, primaryOf) == Gone
    requires e.Heartbeat? ==> Primary(e.addr, primaryOf) != a
    ensures Run(h + [e], primaryOf).Present? && LastNews(h + [e], a, primaryOf) == Gone
  {
    assert (h + [e])[..|h|] == h;
  }

  lemma {:induction false} StaysGone(h: seq<Event>, addr: string, later: seq<Event>, primaryOf: map<string, string>)
    requires Run(h, primaryOf).Present?
    requires forall i | 0 <= i < |later| && later[i].Heartbeat? ::
      Primary(later[i].addr, primaryOf) != Primary(addr, primaryOf)
    ensures var h' := h + [Notice(addr)] + later;
      Run(h', primaryOf).Present? && LastNews(h', Primary(addr, primaryOf), primaryOf) == Gone
  {
    var h' := h + [Notice(addr)] + later;
    if later == [] {
      assert h'[..|h'| - 1] == h;
    } else {
      var before, e := later[..|later| - 1], later[|later| - 1];
      StaysGone(h, addr, before, primaryOf);
      assert h' == h + [Notice(addr)] + before + [e];
      OneMoreGone(h + [Notice(addr)] + before, e, Primary(addr, primaryOf), primaryOf);
    }
  }

  /** A shutdown notice lists an address twice exactly when it comes from an unlisted
      address whose primary is listed already. */
  lemma DuplicateExactly(r: Received, addr: string, primary: string)
    requires Distinct(r.address)
    ensures Distinct(ShutDown(Present(r), addr, primary).service.address)
      <==> addr in r.address || primary !in r.address
  {
    var s := r.address + [primary];
    if primary in r.address {
      var i :| 0 <= i < |r.address| && r.address[i] == primary;
      assert s[i] == s[|r.address|];
    }
  }

  /** No notice was stray at the time it came. */
  ghost predicate NoStrayNotice(h: seq<Event>, primaryOf: map<string, string>) {
    forall k | 0 <= k < |h| && Run(h[..k], primaryOf).Present? ::
      !Stray(Run(h[..k], primaryOf).service, h[k], primaryOf)
  }

  lemma NoStrayStep(h: seq<Event>, primaryOf: map<string, string>)
    requires h != []
    ensures var before, e := h[..|h| - 1], h[|h| - 1];
      NoStrayNotice(h, primaryOf) <==>
      && NoStrayNotice(before, primaryOf)
      && (Run(before, primaryOf).Present? ==> !Stray(Run(before, primaryOf).service, e, primaryOf))
  {
    assert forall k | 0 <= k < |h| - 1 :: h[..|h| - 1][..k] == h[..k] && h[..|h| - 1][k] == h[k];
  }

  /** A notice from an unlisted address whose primary is listed. */
  predicate Stray(r: Received, event: Event, primaryOf: map<string, string>) {
    event.Notice? && event.addr !in r.address && Primary(event.addr, primaryOf) in r.address
  }

  /** What one event does to the list: it stays or has one address more, which repeats one
      exactly for a stray notice. */
  lemma ListedStep(e: Entry, event: Event, primaryOf: map<string, string>)
    requires e.Present?
    ensures var e' := After(e, event, primaryOf);
      && e'.Present?
      && (Distinct(e'.service.address) <==> Distinct(e.service.address) && !Stray(e.service, event, primaryOf))
  {
    var s := e.service.address;
    var p := if event.Called? then "" else Primary(event.addr, primaryOf);
    AppendedDistinct(s, p);
    if event.Notice? && Distinct(s) {
      DuplicateExactly(e.service, event.addr, p);
    }
  }

  lemma AppendedDistinct(s: seq<string>, a: string)
    ensures Distinct(s + [a]) <==> Distinct(s) && a !in s
  {
    var t := s + [a];
    assert forall i | 0 <= i < |s| :: t[i] == s[i];
    assert t[|s|] == a;
  }

  /** In every run, the list has no address twice exactly when there was no stray notice. */
  lemma {:induction false} DistinctExactly(h: seq<Event>, primaryOf: map<string, string>)
    ensures Run(h, primaryOf).Absent? ==> NoStrayNotice(h, primaryOf)
    ensures Run(h, primaryOf).Present? ==>
      (Distinct(Run(h, primaryOf).service.address) <==> NoStrayNotice(h, primaryOf))
  {
    if h != [] {
      var before, e := h[..|h| - 1], h[|h| - 1];
      DistinctExactly(before, primaryOf);
      NoStrayStep(h, primaryOf);
      if Run(before, primaryOf).Present? {
        ListedStep(Run(before, primaryOf), e, primaryOf);
      }
    }
  }

  // ---- successive calls ----

  /** The entry after `k` calls that nothing disturbs, all of them visiting the recent addresses
      in the same order. */
  function AfterCalls(r: Received, order: seq<string>, secondaryOf: map<string, string>, k: nat): Received {
    if k == 0 then r else AfterCall(AfterCalls(r, order, secondaryOf, k - 1), order, secondaryOf)
  }

  lemma {:induction false} TurnsGoRound(r: Received, order: seq<string>, secondaryOf: map<string, string>, k: nat)
    requires order != [] && "" !in order
    ensures var r' := AfterCalls(r, order, secondaryOf, k);
      && r'.receiveTime == r.receiveTime && r'.onSecondary == r.onSecondary
      && Turn(r'.nextSequence, |order|) == (Turn(r.nextSequence, |order|) + k) % |order|
  {
    var m := |order|;
    var t := Turn(r.nextSequence, m);
    if k == 0 {
      SmallModulo(t, m);
    } else {
      TurnsGoRound(r, order, secondaryOf, k - 1);
      NextModulo(t + (k - 1), m);
      var before := AfterCalls(r, order, secondaryOf, k - 1);
      assert order[Turn(before.nextSequence, m)] in order;
    }
  }

  /** Such calls go round the recent addresses: call `k` chooses the k-th one after the first,
      cyclically. */
  lemma CallsGoRound(r: Received, order: seq<string>, secondaryOf: map<string, string>, k: nat)
    requires order != [] && "" !in order
    ensures Chosen(AfterCalls(r, order, secondaryOf, k), order)
      == order[(Turn(r.nextSequence, |order|) + k) % |order|]
  {
    TurnsGoRound(r, order, secondaryOf, k);
  }

  /** How often `a` has been handed out since the service became known. */
  function TimesCalled(h: seq<Event>, a: string, primaryOf: map<string, string>): nat {
    if h == [] then 0
    else
      var before, e := h[..|h| - 1], h[|h| - 1];
      TimesCalled(before, a, primaryOf) + if e.Called? && e.addr == a && Run(before, primaryOf).Present? then 1 else 0
  }

  lemma {:induction false} CountsAreCalls(h: seq<Event>, a: string, primaryOf: map<string, string>)
    ensures Run(h, primaryOf).Absent? ==> TimesCalled(h, a, primaryOf) == 0
    ensures Run(h, primaryOf).Present? ==> var c := Run(h, primaryOf).service.callCount;
      (if a in c then c[a] else 0) == TimesCalled(h, a, primaryOf)
  {
    if h != [] {
      CountsAreCalls(h[..|h| - 1], a, primaryOf);
    }
  }

  // ---- failover ----

  /** Whether the last heartbeat of primary address `p`, not counting the service's very first
      one, came from its other address. */
  predicate LastBySecondary(h: seq<Event>, p: string, primaryOf: map<string, string>) {
    h != [] &&
    var before, e := h[..|h| - 1], h[|h| - 1];
    if e.Heartbeat? && Primary(e.addr, primaryOf) == p && Run(before, primaryOf).Present? then e.addr != p
    else LastBySecondary(before, p, primaryOf)
  }

  /** A primary address is marked exactly then: the heartbeat that makes the service known marks
      the other address instead, so failover begins with the second one. */
  lemma {:induction false} MarkedExactly(h: seq<Event>, p: string, primaryOf: map<string, string>)
    requires Primary(p, primaryOf) == p
    ensures Run(h, primaryOf).Absent? ==> !LastBySecondary(h, p, primaryOf)
    ensures Run(h, primaryOf).Present? ==>
      (p in Run(h, primaryOf).service.onSecondary <==> LastBySecondary(h, p, primaryOf))
  {
    if h != [] {
      MarkedExactly(h[..|h| - 1], p, primaryOf);
    }
  }

  // ---- inputs for which the registry does not do what it is for ----

  /** A primary address is listed twice after a notice from its secondary one. */
  lemma ListedTwice(p: string, s: string, t: int)
    requires p != s
    ensures Run([Heartbeat(p, t), Notice(s)], map[s := p]) ==
      Present(Received([p, p], map[p := 0], {}, map[], 0))
  {
    var h := [Heartbeat(p, t), Notice(s)];
    assert h[..1] == [Heartbeat(p, t)] && h[..1][..0] == [];
    assert Run(h[..1], map[s := p]) == Present(Received([p], map[p := t], {}, map[], 0));
  }

  /** While the clock is within the window, an address can be chosen after its notice. */
  lemma ChosenAfterNotice(a: string, t: int, now: int, keep: int)
    requires now <= keep
    ensures Run([Heartbeat(a, t), Notice(a)], map[]) == Present(Received([a], map[a := 0], {}, map[], 0))
    ensures a in Recent(Run([Heartbeat(a, t), Notice(a)], map[]).service, now, keep)
  {
    var h := [Heartbeat(a, t), Notice(a)];
    assert h[..1] == [Heartbeat(a, t)] && h[..1][..0] == [];
    assert Run(h[..1], map[]) == Present(Received([a], map[a := t], {}, map[], 0));
  }
}
