/** Choosing an address of a configured service: an index set of available addresses and a
    wrapping cursor (data/service_keepalive.go). */
module ServiceMesh {
  // What selection depends on: the addresses, which of them are available, and the cursor.
  datatype View = View(address: seq<string>, available: set<nat>, next: nat) {
    ghost predicate Valid() {
      && Distinct(address)
      && (forall i | i in available :: i < |address|)
      && next <= |address|
    }
  }

  ghost predicate Distinct(s: seq<string>) {
    forall i, j | 0 <= i < j < |s| :: s[i] != s[j]
  }

  // ---- what each operation does to the view ----

  function IndexOf(s: seq<string>, a: string): (r: int)
    ensures -1 <= r < |s|
    ensures r == -1 <==> a !in s
    ensures r >= 0 ==> s[r] == a && a !in s[..r]
  {
    if s == [] then -1
    else
      var r := IndexOf(s[..|s| - 1], a);
      if r >= 0 then r else if s[|s| - 1] == a then |s| - 1 else -1
  }

  function Added(address: seq<string>, more: seq<string>): seq<string> {
    if more == [] then address
    else
      var before, a := Added(address, more[..|more| - 1]), more[|more| - 1];
      if a in before then before else before + [a]
  }

  function Updated(v: View, a: string, status: int): View {
    var i := IndexOf(v.address, a);
    if i < 0 then v
    else if status == 1 then v.(available := v.available + {i})
    else v.(available := v.available - {i})
  }

  /** The search from the cursor, wrapping once: the first available index, or 0 after
      `tries` failures. */
  function Search(v: View, at: nat, tries: nat): (i: nat)
    ensures v.address != [] ==> i < |v.address|
    decreases tries
  {
    if tries == 0 then 0
    else
      var i := if at >= |v.address| then 0 else at;
      if i in v.available then i else Search(v, i + 1, tries - 1)
  }

  function Choose(v: View): (i: nat)
    ensures v.address != [] ==> i < |v.address|
  {
    if v.available == {} || |v.address| == 1 then 0 else Search(v, v.next, |v.address|)
  }

  /** Counting a call moves the cursor behind the chosen index. */
  function Counted(v: View, index: nat): View {
    v.(next := index + 1)
  }

  /** One undisturbed call, with the answer that each index gives: an empty one is not counted. */
  function Called(v: View, answers: seq<string>): View
    requires |answers| == |v.address|
  {
    if v.address == [] || answers[Choose(v)] == "" then v else Counted(v, Choose(v))
  }

  /** The state after `n` undisturbed calls, and the index each of them chooses. */
  function After(v: View, answers: seq<string>, n: nat): (r: View)
    requires |answers| == |v.address|
    ensures r.address == v.address && r.available == v.available
    decreases n
  {
    if n == 0 then v else After(Called(v, answers), answers, n - 1)
  }

  function Calls(v: View, answers: seq<string>, n: nat): (r: seq<nat>)
    requires |answers| == |v.address|
    ensures |r| == n
    decreases n
  {
    if n == 0 then [] else [Choose(v)] + Calls(Called(v, answers), answers, n - 1)
  }

  // ---- the service ----

  predicate HasSubstitute(addr: string, onSecondary: set<string>, secondaryOf: map<string, string>) {
    addr in onSecondary && addr in secondaryOf && secondaryOf[addr] != ""
  }

  /** The other address by which a primary address was last reached, if there is one. */
  function Substitute(addr: string, onSecondary: set<string>, secondaryOf: map<string, string>): (r: string)
    ensures addr != "" ==> r != ""
  {
    if HasSubstitute(addr, onSecondary, secondaryOf) then secondaryOf[addr] else addr
  }

  /** The answer each index gives when it is chosen. */
  function Answers(address: seq<string>, onSecondary: set<string>, secondaryOf: map<string, string>): seq<string> {
    seq(|address|, i requires 0 <= i < |address| => Substitute(address[i], onSecondary, secondaryOf))
  }

  class ServiceHealthInfo {
    var Address: seq<string>
    var Health: map<string, int>
    var HealthOnSecondary: set<string>
    var CallCount: map<string, nat>
    var NextSequence: nat
    var AvailableSeq: set<nat>
    var ReceiveTime: map<string, int>

    ghost function Seen(): View
      reads this
    {
      View(Address, AvailableSeq, NextSequence)
    }

    constructor (address: seq<string>)
      ensures Seen() == View(address, {}, 0)
      ensures Health == map[] && HealthOnSecondary == {} && CallCount == map[] && ReceiveTime == map[]
    {
      Address, NextSequence, AvailableSeq := address, 0, {};
      Health, HealthOnSecondary, CallCount, ReceiveTime := map[], {}, map[], map[];
    }

    method IsExisted(addr: string) returns (r: bool)
      ensures r <==> addr in Address
    {
      for i := 0 to |Address|
        invariant addr !in Address[..i]
      {
        if Address[i] == addr {
          return true;
        }
      }
      return false;
    }

    /** New addresses go to the end; known ones stay where they are. */
    method AddAddresses(serviceAddress: seq<string>)
      modifies this`Address
      ensures Address == Added(old(Address), serviceAddress)
    {
      for i := 0 to |serviceAddress|
        invariant Address == Added(old(Address), serviceAddress[..i])
      {
        var existed := IsExisted(serviceAddress[i]);
        assert serviceAddress[..i + 1][..i] == serviceAddress[..i];
        if !existed {
          Address := Address + [serviceAddress[i]];
        }
      }
      assert serviceAddress[..|serviceAddress|] == serviceAddress;
    }

    method UpdateHealthStatus(address: string, healthStatus: int, now: int, primaryOf: map<string, string>)
      modifies this
      ensures Seen() == Updated(old(Seen()), address, healthStatus)
      ensures var primary := if address in primaryOf then primaryOf[address] else address;
        && Health == old(Health)[primary := healthStatus]
        && ReceiveTime == old(ReceiveTime)[primary := now]
        && HealthOnSecondary ==
          if primary != address then old(HealthOnSecondary) + {address}
          else if healthStatus == 1 then old(HealthOnSecondary) - {address}
          else old(HealthOnSecondary)
      ensures CallCount == old(CallCount)
    {
      var primaryAddr := if address in primaryOf then primaryOf[address] else address;
      Health := Health[primaryAddr := healthStatus];
      ReceiveTime := ReceiveTime[primaryAddr := now];
      if primaryAddr == address {
        if healthStatus == 1 {
          HealthOnSecondary := HealthOnSecondary - {address};
        }
      } else {
        HealthOnSecondary := HealthOnSecondary + {address};
      }
      var index := 0;
      while index < |Address|
        invariant index <= |Address| && address !in Address[..index]
        invariant Seen() == old(Seen())
      {
        if Address[index] == address {
          FirstIndex(Address, address, index);
          if healthStatus == 1 {
            AvailableSeq := AvailableSeq + {index};
          } else {
            AvailableSeq := AvailableSeq - {index};
          }
          return;
        }
        index := index + 1;
      }
      assert Address[..|Address|] == Address;
    }

    /** The part of a call that only reads: which index, and which address for it. With no
        address at all the result is empty. */
    method Select(secondaryOf: map<string, string>) returns (addr: string, usingSequence: nat, isPrimary: bool)
      ensures Address == [] ==> addr == "" && usingSequence == 0
      ensures Address != [] ==>
        && usingSequence == Choose(Seen()) < |Address|
        && addr == Substitute(Address[usingSequence], HealthOnSecondary, secondaryOf)
        && addr == (if isPrimary then Address[usingSequence] else
                    if Address[usingSequence] in secondaryOf then secondaryOf[Address[usingSequence]] else "")
      ensures isPrimary <==>
        Address == [] || Address[usingSequence] !in HealthOnSecondary || Address[usingSequence] !in secondaryOf
        || secondaryOf[Address[usingSequence]] == ""
      ensures AvailableSeq == {} || |Address| == 1 ==> usingSequence == 0
    {
      addr, usingSequence, isPrimary := "", 0, true;
      if |Address| > 0 {
        if AvailableSeq == {} || |Address| == 1 {
          addr := Address[0];
        } else {
          var tryCount := |Address|;
          usingSequence := NextSequence;
          while true
            invariant 0 < tryCount <= |Address|
            invariant Search(Seen(), usingSequence, tryCount) == Choose(Seen())
            decreases tryCount
          {
            if usingSequence >= |Address| {
              usingSequence := 0;
            }
            if usingSequence in AvailableSeq {
              addr := Address[usingSequence];
              break;
            }
            usingSequence := usingSequence + 1;
            tryCount := tryCount - 1;
            if tryCount <= 0 {
              addr, usingSequence := Address[0], 0;
              break;
            }
          }
        }
        if addr in HealthOnSecondary {
          if addr in secondaryOf && secondaryOf[addr] != "" {
            addr, isPrimary := secondaryOf[addr], false;
          }
        }
      }
    }

    method Increment(serviceAddress: string, usingSequence: nat)
      modifies this`CallCount, this`NextSequence
      ensures Seen() == Counted(old(Seen()), usingSequence)
      ensures CallCount == old(CallCount)[serviceAddress :=
        (if serviceAddress in old(CallCount) then old(CallCount)[serviceAddress] else 0) + 1]
    {
      var count := if serviceAddress in CallCount then CallCount[serviceAddress] else 0;
      CallCount := CallCount[serviceAddress := count + 1];
      NextSequence := usingSequence + 1;
    }

    /** One undisturbed call. An empty result sends the caller on to the heartbeat registry. */
    method GetServiceAddr(secondaryOf: map<string, string>) returns (addr: string, isPrimary: bool)
      modifies this`CallCount, this`NextSequence
      ensures Address == [] ==> addr == ""
      ensures var answers := Answers(Address, HealthOnSecondary, secondaryOf);
        && addr == (if Address == [] then "" else answers[Choose(old(Seen()))])
        && (isPrimary <==>
              Address == [] || !HasSubstitute(Address[Choose(old(Seen()))], HealthOnSecondary, secondaryOf))
        && Seen() == Called(old(Seen()), answers)
      ensures Address != [] && (AvailableSeq == {} || |Address| == 1) ==>
        addr == Substitute(Address[0], HealthOnSecondary, secondaryOf)
      ensures addr == "" ==> unchanged(this)
    {
      var usingSequence;
      addr, usingSequence, isPrimary := Select(secondaryOf);
      if addr != "" {
        Increment(addr, usingSequence);
      }
    }

    /** Successive calls that nothing disturbs choose the indices that Calls lists. */
    method GetServiceAddrs(n: nat, secondaryOf: map<string, string>) returns (addrs: seq<string>)
      modifies this`CallCount, this`NextSequence
      ensures |addrs| == n
      ensures var answers := Answers(Address, HealthOnSecondary, secondaryOf);
        var calls := Calls(old(Seen()), answers, n);
        && Seen() == After(old(Seen()), answers, n)
        && (Address != [] ==> forall k | 0 <= k < n :: calls[k] < |Address| && addrs[k] == answers[calls[k]])
    {
      addrs := [];
      ghost var start, answers := Seen(), Answers(Address, HealthOnSecondary, secondaryOf);
      for k := 0 to n
        invariant |addrs| == k && Seen() == After(start, answers, k)
        invariant Address != [] ==>
          var calls := Calls(start, answers, k);
          forall j | 0 <= j < k :: calls[j] < |Address| && addrs[j] == answers[calls[j]]
      {
        var addr, _ := GetServiceAddr(secondaryOf);
        OneMoreCall(start, answers, k);
        addrs := addrs + [addr];
      }
    }
  }

  lemma {:induction false} OneMoreCall(v: View, answers: seq<string>, n: nat)
    requires |answers| == |v.address|
    ensures After(v, answers, n + 1) == Called(After(v, answers, n), answers)
    ensures Calls(v, answers, n + 1) == Calls(v, answers, n) + [Choose(After(v, answers, n))]
    decreases n
  {
    if n > 0 {
      OneMoreCall(Called(v, answers), answers, n - 1);
    }
  }

  lemma FirstIndex(s: seq<string>, a: string, i: nat)
    requires i < |s| && s[i] == a && a !in s[..i]
    ensures IndexOf(s, a) == i
  {
    var r := IndexOf(s, a);
  }
}
