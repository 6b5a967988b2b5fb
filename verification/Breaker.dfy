/** The bad-connection circuit breaker (data/db_conn_optimize.go). Each method of the class
    is one critical section of the source, so that every interleaving of its callers is some
    sequence of these methods; the ghost history records what has happened. */
module Breaker {
  datatype Entry = Entry(badConnectionCount: nat, isBlocked: bool, pingCheckTime: int)

  datatype Event =
    | Bad(conn: string)            // a bad-connection error was counted
    | Removed(conns: set<string>)  // entries were deleted

  // ---- the specification, over the history ----

  /** The errors of a connection since its entry was last removed. */
  function ErrorsSince(h: seq<Event>, conn: string): nat {
    if h == [] then 0
    else
      var before, e := ErrorsSince(h[..|h| - 1], conn), h[|h| - 1];
      match e
      case Bad(c) => if c == conn then before + 1 else before
      case Removed(cs) => if conn in cs then 0 else before
  }

  function ErrorsEver(h: seq<Event>, conn: string): nat {
    if h == [] then 0
    else ErrorsEver(h[..|h| - 1], conn) + if h[|h| - 1] == Bad(conn) then 1 else 0
  }

  /** The last event is the error that reached the threshold. */
  predicate Blocks(h: seq<Event>, conn: string, threshold: nat) {
    h != [] && h[|h| - 1] == Bad(conn) && ErrorsSince(h, conn) == threshold
  }

  function BlocksEver(h: seq<Event>, conn: string, threshold: nat): nat {
    if h == [] then 0
    else BlocksEver(h[..|h| - 1], conn, threshold) + if Blocks(h, conn, threshold) then 1 else 0
  }

  /** The entries are what the history says: one for each connection with errors since its
      removal, with their number, blocked from the threshold on. */
  ghost predicate Agrees(entries: map<string, Entry>, h: seq<Event>, threshold: nat) {
    && (forall c :: c in entries <==> ErrorsSince(h, c) > 0)
    && (forall c | c in entries ::
          && entries[c].badConnectionCount == ErrorsSince(h, c)
          && (entries[c].isBlocked <==> ErrorsSince(h, c) >= threshold))
  }

  ghost function Elements(s: seq<string>): set<string> {
    set c | c in s
  }

  class OptimizeConnections {
    const badConnectionCount: nat  // the threshold; the setter refuses less than 3
    const pingDBInterval: int
    var optimizeConnections: map<string, Entry>
    ghost var history: seq<Event>

    ghost predicate Valid()
      reads this
    {
      badConnectionCount >= 3 && Agrees(optimizeConnections, history, badConnectionCount)
    }

    constructor (badConnectionCount: nat, pingDBInterval: int)
      ensures this.badConnectionCount == if badConnectionCount >= 3 then badConnectionCount else 20
      ensures this.pingDBInterval == if pingDBInterval > 0 then pingDBInterval else 3
      ensures Valid() && history == []
    {
      this.badConnectionCount := if badConnectionCount >= 3 then badConnectionCount else 20;
      this.pingDBInterval := if pingDBInterval > 0 then pingDBInterval else 3;
      optimizeConnections := map[];
      history := [];
    }

    /** dbConnectionError under the lock; `block` says that a block event is sent. */
    method DbConnectionError(dbConnection: string) returns (block: bool)
      requires Valid()
      modifies this
      ensures Valid() && history == old(history) + [Bad(dbConnection)]
      ensures block <==> Blocks(history, dbConnection, badConnectionCount)
      ensures forall c | c in old(optimizeConnections) && c != dbConnection ::
        c in optimizeConnections && optimizeConnections[c] == old(optimizeConnections)[c]
      ensures dbConnection in optimizeConnections && optimizeConnections[dbConnection].pingCheckTime
        == if dbConnection in old(optimizeConnections) then old(optimizeConnections)[dbConnection].pingCheckTime else 0
    {
      block := false;
      if dbConnection in optimizeConnections {
        var v := optimizeConnections[dbConnection];
        v := v.(badConnectionCount := v.badConnectionCount + 1);
        if !v.isBlocked && v.badConnectionCount >= badConnectionCount {
          v := v.(isBlocked := true);
          block := true;
        }
        optimizeConnections := optimizeConnections[dbConnection := v];
      } else {
        optimizeConnections := optimizeConnections[dbConnection := Entry(1, false, 0)];
      }
      history := history + [Bad(dbConnection)];
      assert history[..|history| - 1] == old(history);
    }

    /** The read-locked half of dbConnectionOk. */
    method IsListed(dbConnection: string) returns (r: bool)
      requires Valid()
      ensures r <==> ErrorsSince(history, dbConnection) > 0
    {
      r := dbConnection in optimizeConnections;
    }

    /** Its write-locked half, which deletes whatever entry there is by then. */
    method Resume(dbConnection: string)
      requires Valid()
      modifies this
      ensures Valid() && history == old(history) + [Removed({dbConnection})]
      ensures optimizeConnections == old(optimizeConnections) - {dbConnection}
    {
      optimizeConnections := optimizeConnections - {dbConnection};
      history := history + [Removed({dbConnection})];
      assert history[..|history| - 1] == old(history);
    }

    method SkipDbAccess(dbConnection: string) returns (skip: bool)
      requires Valid()
      ensures skip <==> ErrorsSince(history, dbConnection) >= badConnectionCount
    {
      skip := dbConnection in optimizeConnections && optimizeConnections[dbConnection].isBlocked;
    }

    /** The start of a ping round: the connections due for a ping are stamped. */
    method PingBegin(t: int) returns (due: set<string>)
      requires Valid()
      modifies this`optimizeConnections
      ensures Valid()
      ensures due == set c | c in old(optimizeConnections)
        && t - old(optimizeConnections)[c].pingCheckTime >= pingDBInterval
      ensures optimizeConnections == map c | c in old(optimizeConnections) ::
        if c in due then old(optimizeConnections)[c].(pingCheckTime := t) else old(optimizeConnections)[c]
    {
      due := {};
      ghost var all := optimizeConnections;
      var left := optimizeConnections.Keys;
      while left != {}
        invariant left <= all.Keys
        invariant due == set c | c in all && c !in left && t - all[c].pingCheckTime >= pingDBInterval
        invariant optimizeConnections == map c | c in all ::
          if c in due then all[c].(pingCheckTime := t) else all[c]
      {
        var c :| c in left;
        left := left - {c};
        var d := optimizeConnections[c];
        if t - d.pingCheckTime >= pingDBInterval {
          optimizeConnections := optimizeConnections[c := d.(pingCheckTime := t)];
          due := due + {c};
        }
      }
    }

    /** The end of a ping round: connections that answered are resumed. */
    method PingEnd(pingOk: seq<string>)
      requires Valid()
      modifies this
      ensures Valid() && history == old(history) + [Removed(Elements(pingOk))]
      ensures optimizeConnections == old(optimizeConnections) - Elements(pingOk)
    {
      for i := 0 to |pingOk|
        invariant optimizeConnections == old(optimizeConnections) - Elements(pingOk[..i])
        invariant history == old(history)
      {
        assert Elements(pingOk[..i + 1]) == Elements(pingOk[..i]) + {pingOk[i]};
        optimizeConnections := optimizeConnections - {pingOk[i]};
      }
      assert pingOk[..|pingOk|] == pingOk;
      history := history + [Removed(Elements(pingOk))];
      assert history[..|history| - 1] == old(history);
    }

    /** Switching the optimization off forgets every connection. */
    method Disable()
      requires Valid()
      modifies this
      ensures Valid() && optimizeConnections == map[]
      ensures history == old(history) + [Removed(old(optimizeConnections).Keys)]
    {
      history := history + [Removed(optimizeConnections.Keys)];
      optimizeConnections := map[];
      assert history[..|history| - 1] == old(history);
    }
  }

  // ---- what follows for every run ----

  /** Each block event is paid for by as many errors as the threshold says. */
  lemma {:induction false} BlocksArePaidFor(h: seq<Event>, conn: string, threshold: nat)
    requires threshold > 0
    ensures var e := ErrorsSince(h, conn);
      threshold * BlocksEver(h, conn, threshold) + (if e >= threshold then e - threshold else e) <= ErrorsEver(h, conn)
  {
    if h != [] {
      BlocksArePaidFor(h[..|h| - 1], conn, threshold);
      var b := BlocksEver(h[..|h| - 1], conn, threshold);
      assert threshold * (b + 1) == threshold * b + threshold;
    }
  }

  lemma BlockRate(h: seq<Event>, conn: string, threshold: nat)
    requires threshold > 0
    ensures threshold * BlocksEver(h, conn, threshold) <= ErrorsEver(h, conn)
  {
    BlocksArePaidFor(h, conn, threshold);
  }

  /** Between two blocks of a connection its entry was removed. */
  lemma {:induction false} BlockedOncePerEntry(h: seq<Event>, more: seq<Event>, conn: string, threshold: nat)
    requires Blocks(h, conn, threshold) && more != [] && Blocks(h + more, conn, threshold)
    ensures exists i | 0 <= i < |more| :: more[i].Removed? && conn in more[i].conns
  {
    if forall i | 0 <= i < |more| :: !(more[i].Removed? && conn in more[i].conns) {
      CountGrows(h, more, conn);
    }
  }

  lemma {:induction false} CountGrows(h: seq<Event>, more: seq<Event>, conn: string)
    requires forall i | 0 <= i < |more| :: !(more[i].Removed? && conn in more[i].conns)
    ensures ErrorsSince(h + more, conn) >= ErrorsSince(h, conn)
    ensures more != [] && more[|more| - 1] == Bad(conn) ==> ErrorsSince(h + more, conn) > ErrorsSince(h, conn)
  {
    if more == [] {
      assert h + more == h;
    } else {
      CountGrows(h, more[..|more| - 1], conn);
      assert (h + more)[..|h + more| - 1] == h + more[..|more| - 1];
    }
  }
}
