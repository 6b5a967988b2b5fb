/** Every run of a configured service: callers that read and count in separate critical
    sections, health updates, and address additions, in any interleaving. Each event does
    what one method of ServiceMesh.ServiceHealthInfo is proved to do to its view: Update
    stands for UpdateHealthStatus, Add for AddAddresses, Read for Select, Count for Increment. */
module MeshHistory {
  import opened ServiceMesh
  import RoundRobin

  datatype Event =
    | Update(addr: string, status: int)  // a finished health check
    | Add(addresses: seq<string>)        // a configuration change
    | Read(caller: nat)                  // a caller chooses, under the read lock
    | Count(caller: nat)                 // the same caller counts, under the write lock

  datatype Mesh = Mesh(view: View, pending: map<nat, nat>)

  function After(m: Mesh, e: Event): Mesh {
    match e
    case Update(a, status) => m.(view := Updated(m.view, a, status))
    case Add(list) => m.(view := m.view.(address := Added(m.view.address, list)))
    case Read(t) => if m.view.address == [] then m else m.(pending := m.pending[t := Choose(m.view)])
    case Count(t) =>
      if t in m.pending then Mesh(Counted(m.view, m.pending[t]), m.pending - {t}) else m
  }

  /** The state after a history, from a freshly registered service. */
  function Run(configured: seq<string>, h: seq<Event>): Mesh {
    if h == [] then Mesh(View(configured, {}, 0), map[]) else After(Run(configured, h[..|h| - 1]), h[|h| - 1])
  }

  datatype Status = Unknown | Known(status: int)

  /** What the last health check of an address said, counting from when it was added. */
  function LastStatus(configured: seq<string>, h: seq<Event>, a: string): Status {
    if h == [] then Unknown
    else
      var before, e := h[..|h| - 1], h[|h| - 1];
      if e.Update? && e.addr == a && a in Run(configured, before).view.address then Known(e.status)
      else LastStatus(configured, before, a)
  }

  ghost predicate Sound(m: Mesh) {
    && m.view.Valid()
    && forall t | t in m.pending :: m.pending[t] < |m.view.address|
  }

  lemma {:induction false} AddedKeeps(address: seq<string>, more: seq<string>)
    requires Distinct(address)
    ensures Distinct(Added(address, more)) && address <= Added(address, more)
    ensures forall a :: a in Added(address, more) <==> a in address || a in more
  {
    if more != [] {
      AddedKeeps(address, more[..|more| - 1]);
      assert more == more[..|more| - 1] + [more[|more| - 1]];
    }
  }

  /** New addresses are appended in the order given. */
  lemma {:induction false} AddedInOrder(address: seq<string>, more: seq<string>)
    requires Distinct(address + more)
    ensures Added(address, more) == address + more
  {
    if more == [] {
      assert address + more == address;
    } else {
      var before, a := more[..|more| - 1], more[|more| - 1];
      var all := address + more;
      assert all[..|all| - 1] == address + before && all[|all| - 1] == a;
      AddedInOrder(address, before);
      assert a !in address + before;
      assert address + before + [a] == all;
    }
  }

  lemma StepSound(m: Mesh, e: Event)
    requires Sound(m)
    ensures Sound(After(m, e)) && m.view.address <= After(m, e).view.address
  {
    match e
    case Update(a, status) =>
    case Add(list) => AddedKeeps(m.view.address, list);
    case Read(t) =>
    case Count(t) =>
  }

  /** In every reachable state the addresses are distinct, every available index and every
      index a caller still holds is in range, and the cursor is at most the length. */
  lemma {:induction false} AlwaysSound(configured: seq<string>, h: seq<Event>)
    requires Distinct(configured)
    ensures Sound(Run(configured, h))
  {
    if h != [] {
      AlwaysSound(configured, h[..|h| - 1]);
      StepSound(Run(configured, h[..|h| - 1]), h[|h| - 1]);
    }
  }

  /** An index names the same address for good. */
  lemma {:induction false} AddressesStay(configured: seq<string>, h: seq<Event>, more: seq<Event>)
    requires Distinct(configured)
    ensures Run(configured, h).view.address <= Run(configured, h + more).view.address
  {
    if more == [] {
      assert h + more == h;
    } else {
      var more' := more[..|more| - 1];
      AddressesStay(configured, h, more');
      assert (h + more)[..|h + more| - 1] == h + more';
      AlwaysSound(configured, h + more');
      StepSound(Run(configured, h + more'), more[|more| - 1]);
    }
  }

  /** Index `i` is available exactly when the last check of its address, since the address
      was added, found it healthy. */
  lemma {:induction false} AvailableIffHealthy(configured: seq<string>, h: seq<Event>, i: nat)
    requires Distinct(configured) && i < |Run(configured, h).view.address|
    ensures i in Run(configured, h).view.available
      <==> LastStatus(configured, h, Run(configured, h).view.address[i]) == Known(1)
  {
    if h != [] {
      var before, e := h[..|h| - 1], h[|h| - 1];
      var m := Run(configured, before);
      AlwaysSound(configured, before);
      StepSound(m, e);
      if i < |m.view.address| {
        AvailableIffHealthy(configured, before, i);
      } else {
        AlwaysSound(configured, h);
        UnknownBefore(configured, before, Run(configured, h).view.address[i]);
      }
    }
  }

  lemma {:induction false} UnknownBefore(configured: seq<string>, h: seq<Event>, a: string)
    requires Distinct(configured) && a !in Run(configured, h).view.address
    ensures LastStatus(configured, h, a) == Unknown
  {
    if h != [] {
      var before := h[..|h| - 1];
      AlwaysSound(configured, before);
      StepSound(Run(configured, before), h[|h| - 1]);
      UnknownBefore(configured, before, a);
    }
  }

  // ---- fairness in every reachable state ----

  /** A check of the empty address never reports health: it asks a URL without a host. */
  ghost predicate EmptyNeverHealthy(h: seq<Event>) {
    forall i | 0 <= i < |h| && h[i].Update? && h[i].addr == "" :: h[i].status != 1
  }

  lemma {:induction false} EmptyNotKnownHealthy(configured: seq<string>, h: seq<Event>)
    requires EmptyNeverHealthy(h)
    ensures LastStatus(configured, h, "") != Known(1)
  {
    if h != [] {
      EmptyNotKnownHealthy(configured, h[..|h| - 1]);
    }
  }

  /** So no available address gives an empty answer, whatever the configuration lists. */
  lemma AvailableNotEmpty(configured: seq<string>, h: seq<Event>, onSecondary: set<string>,
    secondaryOf: map<string, string>)
    requires Distinct(configured) && EmptyNeverHealthy(h)
    ensures var v := Run(configured, h).view;
      v.Valid() && RoundRobin.NoneEmpty(v, Answers(v.address, onSecondary, secondaryOf))
  {
    AlwaysSound(configured, h);
    EmptyNotKnownHealthy(configured, h);
    var v := Run(configured, h).view;
    forall i | i in v.available ensures v.address[i] != "" {
      AvailableIffHealthy(configured, h, i);
    }
  }

  /** From every reachable state with something available and two addresses or more, as many
      undisturbed calls as there are available indices choose each of them once, and over any
      number of calls the totals of two of them differ by at most one. */
  lemma AlwaysFair(configured: seq<string>, h: seq<Event>, onSecondary: set<string>, secondaryOf: map<string, string>,
    n: nat, a: nat, b: nat)
    requires Distinct(configured) && EmptyNeverHealthy(h)
    requires |Run(configured, h).view.address| > 1 && a in Run(configured, h).view.available
    ensures var v := Run(configured, h).view;
      var answers := Answers(v.address, onSecondary, secondaryOf);
      && multiset(Calls(v, answers, |v.available|)) == multiset(v.available)
      && RoundRobin.Balanced(Calls(v, answers, n), v.available, a, b)
  {
    var v := Run(configured, h).view;
    var answers := Answers(v.address, onSecondary, secondaryOf);
    AvailableNotEmpty(configured, h, onSecondary, secondaryOf);
    RoundRobin.WindowIsFair(v, answers);
    RoundRobin.AsManyAsAvailable(v);
    RoundRobin.TotalsDifferByOne(v, answers, n, a, b);
  }
}
