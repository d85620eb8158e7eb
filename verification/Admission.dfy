/**
 Counting and admitting connections (ftpepoll.cpp): how many connections each address has, how
 many there are in all, and which new ones are turned away.
 */
module Admission {
  import opened MachineInts
  import opened HashTables

  type Counts = map<uint32, uint32>

  // ---------- per-address counts ----------

  /** `handle_ip_count` on the table's contents. */
  function Incremented(m: Counts, ip: uint32): Counts {
    if ip !in m then m[ip := 1] else m[ip := AsUint32(m[ip] as int + 1)]
  }

  /** `drop_ip_count` on the table's contents. */
  function Decremented(m: Counts, ip: uint32): Counts {
    if ip !in m || m[ip] == 0 then m
    else if m[ip] == 1 then m - {ip}
    else m[ip := m[ip] - 1]
  }

  datatype CountOp = Up(ip: uint32) | Down(ip: uint32)

  function CountsAfter(ops: seq<CountOp>): Counts {
    if ops == [] then map[]
    else
      var m := CountsAfter(ops[..|ops| - 1]);
      match ops[|ops| - 1]
      case Up(ip) => Incremented(m, ip)
      case Down(ip) => Decremented(m, ip)
  }

  /** The tally of one address on its own, which never goes below zero. */
  function Tally(ops: seq<CountOp>, ip: uint32): nat {
    if ops == [] then 0
    else
      var t := Tally(ops[..|ops| - 1], ip);
      match ops[|ops| - 1]
      case Up(a) => if a == ip then t + 1 else t
      case Down(a) => if a == ip && t > 0 then t - 1 else t
  }

  /** By how much an address is counted up more often than down. */
  ghost function Excess(ops: seq<CountOp>, ip: uint32): int {
    multiset(ops)[Up(ip)] as int - multiset(ops)[Down(ip)] as int
  }

  lemma ExcessOneMore(ops: seq<CountOp>, op: CountOp, ip: uint32)
    ensures Excess(ops + [op], ip) ==
      Excess(ops, ip) + (if op == Up(ip) then 1 else if op == Down(ip) then -1 else 0)
  {
    assert multiset(ops + [op]) == multiset(ops) + multiset{op};
  }

  /** The tally is the greatest excess of any ending of the run, the `k`-th on: what an address has
      since it was last at zero. */
  lemma {:induction false} TallyIsGreatestExcess(ops: seq<CountOp>, ip: uint32) returns (k: nat)
    ensures k <= |ops| && Tally(ops, ip) == Excess(ops[k..], ip)
    ensures forall j :: 0 <= j <= |ops| ==> Excess(ops[j..], ip) <= Tally(ops, ip)
  {
    if ops == [] {
      return 0;
    }
    var before, op := ops[..|ops| - 1], ops[|ops| - 1];
    k := TallyIsGreatestExcess(before, ip);
    forall j | 0 <= j <= |before|
      ensures Excess(ops[j..], ip) ==
        Excess(before[j..], ip) + (if op == Up(ip) then 1 else if op == Down(ip) then -1 else 0)
    {
      assert ops[j..] == before[j..] + [op];
      ExcessOneMore(before[j..], op, ip);
    }
    assert ops[|ops|..] == [];
    if op == Down(ip) && Tally(before, ip) == 0 {
      k := |ops|;
    }
  }

  /** The table has an entry exactly for a positive tally, and it is the tally. */
  predicate Tallies(m: Counts, ip: uint32, tally: nat) {
    if tally == 0 then ip !in m else ip in m && m[ip] == tally
  }

  /** The tally of an address has stayed within `unsigned` throughout. */
  ghost predicate WithinRange(ops: seq<CountOp>, ip: uint32) {
    forall n :: 0 <= n <= |ops| ==> Tally(ops[..n], ip) < TWO_32
  }

  ghost predicate AlwaysTallies(ops: seq<CountOp>, ip: uint32) {
    forall n :: 0 <= n <= |ops| ==> Tallies(CountsAfter(ops[..n]), ip, Tally(ops[..n], ip))
  }

  lemma {:induction false} CountsTally(ops: seq<CountOp>, ip: uint32)
    requires WithinRange(ops, ip)
    ensures Tallies(CountsAfter(ops), ip, Tally(ops, ip))
  {
    if ops != [] {
      var before := ops[..|ops| - 1];
      assert forall n :: 0 <= n < |ops| ==> ops[..n] == before[..n];
      CountsTally(before, ip);
      assert ops[..|ops|] == ops;
    }
  }

  /** Over every run of increments and decrements the table agrees with the tally of an address
      at every point exactly when that tally has never passed the largest `unsigned`. */
  lemma CountsAreTallies(ops: seq<CountOp>, ip: uint32)
    ensures AlwaysTallies(ops, ip) <==> WithinRange(ops, ip)
  {
    if WithinRange(ops, ip) {
      forall n | 0 <= n <= |ops|
        ensures Tallies(CountsAfter(ops[..n]), ip, Tally(ops[..n], ip))
      {
        assert forall m :: 0 <= m <= n ==> ops[..n][..m] == ops[..m];
        CountsTally(ops[..n], ip);
      }
    }
  }

  /** Of 2^32 increments nothing is left in the table but a zero. */
  lemma CountWraps(ip: uint32)
    ensures var ops := seq(TWO_32, _ => Up(ip));
      Tally(ops, ip) == TWO_32 && ip in CountsAfter(ops) && CountsAfter(ops)[ip] == 0
  {
    Increments(ip, TWO_32);
  }

  lemma {:induction false} Increments(ip: uint32, n: nat)
    ensures var ops := seq(n, _ => Up(ip));
      Tally(ops, ip) == n && (n > 0 ==> ip in CountsAfter(ops) && CountsAfter(ops)[ip] == AsUint32(n))
  {
    if n > 0 {
      var ops := seq(n, _ => Up(ip));
      assert ops[..n - 1] == seq(n - 1, _ => Up(ip));
      Increments(ip, n - 1);
    }
  }

  // ---------- admission ----------

  const TOOMANYCONNTOT := -1
  const TOOMANYCONNPERIP := -2

  /** `isValid`: the code for a new session, 0 when it may stay. */
  function IsValid(numClients: uint32, numThisIp: uint32, maxClients: uint32, maxPerIp: uint32): int {
    if maxClients > 0 && numClients > maxClients then TOOMANYCONNTOT
    else if maxPerIp > 0 && numThisIp > maxPerIp then TOOMANYCONNPERIP
    else 0
  }

  /** A limit of 0 is none; the limit on all clients is looked at first. */
  lemma IsValidExactly(numClients: uint32, numThisIp: uint32, maxClients: uint32, maxPerIp: uint32)
    ensures var code := IsValid(numClients, numThisIp, maxClients, maxPerIp);
      && (code == -1 <==> 0 < maxClients < numClients)
      && (code == -2 <==> (maxClients == 0 || numClients <= maxClients) && 0 < maxPerIp < numThisIp)
      && (code == 0 <==> (maxClients == 0 || numClients <= maxClients) && (maxPerIp == 0 || numThisIp <= maxPerIp))
  {
  }

  datatype Tunables = Tunables(maxClients: uint32, maxPerIp: uint32)

  /** The counters, and how many connections have been accepted in all. */
  datatype Load = Load(children: uint32, counts: Counts, accepted: nat)

  /** `handleNewConn` on the counters. A new session starts with `num_this_ip` at 0, and that is
      the value the check sees. */
  function Admit(s: Load, ip: uint32, t: Tunables): Load {
    if IsValid(s.children, 0, t.maxClients, t.maxPerIp) < 0 then s
    else Load(AsUint32(s.children as int + 1), Incremented(s.counts, ip), s.accepted + 1)
  }

  /** The counters after connection attempts from these addresses. */
  function AdmitAll(ips: seq<uint32>, t: Tunables): (s: Load)
    ensures s.accepted <= |ips|
  {
    if ips == [] then Load(0, map[], 0)
    else Admit(AdmitAll(ips[..|ips| - 1], t), ips[|ips| - 1], t)
  }

  /** How many of the first `attempts` connections are accepted: the limit compares the number of
      those already there, so one more than `max_clients` get in, and none ever leaves. */
  function Capacity(attempts: nat, t: Tunables): nat {
    if 0 < t.maxClients < TWO_32 - 1 && attempts > t.maxClients + 1 then t.maxClients + 1 else attempts
  }

  /** The sum of all counts in the table. */
  ghost function Sum(m: Counts): nat
    decreases |m|
  {
    if m == map[] then 0
    else
      var k :| k in m;
      var rest := m - {k};
      assert rest.Keys == m.Keys - {k};
      m[k] + Sum(rest)
  }

  lemma {:induction false} SumAt(m: Counts, k: uint32)
    requires k in m
    ensures Sum(m) == m[k] + Sum(m - {k})
    decreases |m|
  {
    assert (m - {k}).Keys == m.Keys - {k};
    var j :| j in m && Sum(m) == m[j] + Sum(m - {j});
    if j != k {
      assert (m - {j}).Keys == m.Keys - {j};
      assert m - {j} - {k} == m - {k} - {j};
      SumAt(m - {j}, k);
      SumAt(m - {k}, j);
    }
  }

  lemma SumIncremented(m: Counts, ip: uint32)
    requires ip in m ==> m[ip] + 1 < TWO_32
    ensures Sum(Incremented(m, ip)) == Sum(m) + 1
  {
    var after := Incremented(m, ip);
    SumAt(after, ip);
    assert after - {ip} == m - {ip};
    if ip in m {
      SumAt(m, ip);
    } else {
      assert m - {ip} == m;
    }
  }

  /** The count of an address: the times it occurs among the accepted attempts. */
  ghost predicate CountsOccurrences(m: Counts, ips: seq<uint32>) {
    && (forall ip :: ip in m <==> ip in multiset(ips))
    && (forall ip :: ip in m ==> m[ip] == multiset(ips)[ip])
  }

  lemma CountsOn(n: nat)
    ensures AsUint32(AsUint32(n) as int + 1) == AsUint32(n + 1)
  {
  }

  /** One more attempt, when so many have been accepted so far. */
  lemma OneMoreAttempt(attempts: nat, t: Tunables)
    ensures var n := Capacity(attempts, t);
      Capacity(attempts + 1, t)
      == if IsValid(AsUint32(n), 0, t.maxClients, t.maxPerIp) < 0 then n else n + 1
  {
    if 0 < t.maxClients < TWO_32 - 1 {
      assert AsUint32(Capacity(attempts, t)) == Capacity(attempts, t);
    }
  }

  lemma AdmitOneMore(s: Load, ip: uint32, t: Tunables, attempts: nat)
    requires s.accepted == Capacity(attempts, t) && s.children == AsUint32(s.accepted)
    ensures var after := Admit(s, ip, t);
      after.accepted == Capacity(attempts + 1, t) && after.children == AsUint32(after.accepted)
  {
    OneMoreAttempt(attempts, t);
    CountsOn(s.accepted);
  }

  lemma {:induction false} AcceptedIsCapacity(ips: seq<uint32>, t: Tunables)
    ensures var s := AdmitAll(ips, t);
      && s.accepted == Capacity(|ips|, t)
      && s.children == AsUint32(s.accepted)
      && (s.accepted < TWO_32 ==> s.children == s.accepted)
  {
    if ips != [] {
      AcceptedIsCapacity(ips[..|ips| - 1], t);
      AdmitOneMore(AdmitAll(ips[..|ips| - 1], t), ips[|ips| - 1], t, |ips| - 1);
    }
  }

  /** The table after every one of these addresses has been counted. */
  function CountAll(ips: seq<uint32>): Counts {
    if ips == [] then map[] else Incremented(CountAll(ips[..|ips| - 1]), ips[|ips| - 1])
  }

  lemma CountsOneMore(m: Counts, ips: seq<uint32>, ip: uint32)
    requires CountsOccurrences(m, ips) && |ips| + 1 < TWO_32
    ensures CountsOccurrences(Incremented(m, ip), ips + [ip])
    ensures Sum(Incremented(m, ip)) == Sum(m) + 1
  {
    OccurrencesBounded(ips, ip);
    assert multiset(ips + [ip]) == multiset(ips) + multiset{ip};
    SumIncremented(m, ip);
  }

  lemma {:induction false} CountAllOccurrences(ips: seq<uint32>)
    requires |ips| < TWO_32
    ensures CountsOccurrences(CountAll(ips), ips) && Sum(CountAll(ips)) == |ips|
  {
    if ips != [] {
      var before, ip := ips[..|ips| - 1], ips[|ips| - 1];
      CountAllOccurrences(before);
      CountsOneMore(CountAll(before), before, ip);
      assert ips == before + [ip];
    }
  }

  /** The accepted attempts are the first ones of the run. */
  lemma {:induction false} AcceptedAreFirst(ips: seq<uint32>, t: Tunables)
    ensures var s := AdmitAll(ips, t); s.counts == CountAll(ips[..s.accepted])
  {
    if ips != [] {
      var before, ip := ips[..|ips| - 1], ips[|ips| - 1];
      var s := AdmitAll(before, t);
      AcceptedAreFirst(before, t);
      assert before[..s.accepted] == ips[..s.accepted];
      if AdmitAll(ips, t).accepted > s.accepted {
        AcceptedIsCapacity(before, t);
        AcceptedIsCapacity(ips, t);
        assert s.accepted == |before|;
        assert ips[..|ips|] == ips && before[..|before|] == before;
      }
    }
  }

  /** Conservation over every run of connection attempts, while fewer than 2^32 have been accepted:
      the number of clients, the number of accepted connections and the sum of the per-address
      counts are the same; each address is counted as often as it was accepted; the accepted ones
      are the first of the run, up to one more than the limit. */
  lemma {:induction false} AdmissionConserves(ips: seq<uint32>, t: Tunables)
    requires Capacity(|ips|, t) < TWO_32
    ensures var s := AdmitAll(ips, t);
      && s.children == s.accepted == Sum(s.counts) == Capacity(|ips|, t)
      && (t.maxClients == 0 || |ips| <= t.maxClients ==> s.children == |ips|)
      && (0 < t.maxClients < TWO_32 - 1 && |ips| > t.maxClients ==> s.children == t.maxClients + 1)
      && CountsOccurrences(s.counts, ips[..s.accepted])
  {
    AcceptedIsCapacity(ips, t);
    AcceptedAreFirst(ips, t);
    CountAllOccurrences(ips[..AdmitAll(ips, t).accepted]);
  }

  lemma {:induction false} OccurrencesBounded(ips: seq<uint32>, ip: uint32)
    ensures multiset(ips)[ip] <= |ips|
  {
    if ips != [] {
      var before := ips[..|ips| - 1];
      OccurrencesBounded(before, ip);
      assert ips == before + [ips[|ips| - 1]];
    }
  }

  /** The per-address limit has no effect: whatever it is set to, the same connections are accepted
      and counted, because the check runs before the session's own count is filled in. */
  lemma {:induction false} PerIpLimitIgnored(ips: seq<uint32>, t: Tunables, other: uint32)
    ensures AdmitAll(ips, t) == AdmitAll(ips, t.(maxPerIp := other))
  {
    if ips != [] {
      PerIpLimitIgnored(ips[..|ips| - 1], t, other);
    }
  }

  /** Two connections from one address get in under a limit of one. */
  lemma PerIpLimitExceeded()
    ensures var s := AdmitAll([7, 7], Tunables(2000, 1)); 7 in s.counts && s.counts[7] == 2
  {
    assert [7, 7][..1] == [7];
    assert AdmitAll([7], Tunables(2000, 1)).counts == map[7 := 1];
  }

  /** No address has more connections than the limit on them, if there is one. */
  ghost predicate PerIpLimitKept(m: Counts, t: Tunables) {
    t.maxPerIp > 0 ==> forall ip :: ip in m ==> m[ip] <= t.maxPerIp
  }

  /** So the limit is kept exactly when the addresses happen to keep it: none occurs more often among
      the attempts that the limit on all clients lets in. */
  lemma {:induction false} PerIpLimitKeptExactly(ips: seq<uint32>, t: Tunables)
    requires Capacity(|ips|, t) < TWO_32
    ensures PerIpLimitKept(AdmitAll(ips, t).counts, t)
       <==> t.maxPerIp == 0 || forall ip :: ip in ips ==> multiset(ips[..Capacity(|ips|, t)])[ip] <= t.maxPerIp
  {
    AdmissionConserves(ips, t);
    var m, first := AdmitAll(ips, t).counts, ips[..Capacity(|ips|, t)];
    assert CountsOccurrences(m, first);
    assert forall ip :: ip in first ==> ip in ips;
    if t.maxPerIp > 0 && PerIpLimitKept(m, t) {
      forall ip | ip in ips
        ensures multiset(first)[ip] <= t.maxPerIp
      {
        assert ip in multiset(first) ==> ip in m && m[ip] == multiset(first)[ip];
      }
    }
  }

  // ---------- the same on the hash table ----------

  /** The global counters of ftpepoll.cpp. */
  class Counters {
    var sChildren: uint32
    const sIpCountHash: HashTable
    const tunables: Tunables

    ghost predicate Valid()
      reads this, sIpCountHash, sIpCountHash.nodes, sIpCountHash.repr
    {
      sIpCountHash.Valid()
    }

    constructor (tunables: Tunables)
      ensures Valid() && sChildren == 0 && sIpCountHash.contents == map[] && this.tunables == tunables
      ensures fresh(sIpCountHash) && fresh(sIpCountHash.nodes) && fresh(sIpCountHash.repr)
      ensures sIpCountHash.buckets == 256
    {
      sChildren := 0;
      sIpCountHash := new HashTable(256);
      this.tunables := tunables;
    }

    method HandleIpCount(ip: uint32) returns (cnt: uint32)
      requires Valid()
      modifies sIpCountHash, sIpCountHash.nodes, sIpCountHash.repr
      ensures Valid() && fresh(sIpCountHash.repr - old(sIpCountHash.repr))
      ensures sIpCountHash.contents == Incremented(old(sIpCountHash.contents), ip)
      ensures cnt == sIpCountHash.contents[ip]
    {
      var pcnt := sIpCountHash.HashLookupEntry(ip);
      if pcnt == null {
        cnt := 1;
        sIpCountHash.HashAddEntry(ip, cnt);
      } else {
        cnt := AsUint32(pcnt.value as int + 1);
        sIpCountHash.Store(pcnt, cnt);
      }
    }

    method DropIpCount(ip: uint32)
      requires Valid()
      modifies sIpCountHash, sIpCountHash.nodes, sIpCountHash.repr
      ensures Valid() && fresh(sIpCountHash.repr - old(sIpCountHash.repr))
      ensures sIpCountHash.contents == Decremented(old(sIpCountHash.contents), ip)
    {
      var pcnt := sIpCountHash.HashLookupEntry(ip);
      if pcnt == null || pcnt.value <= 0 {
        return;
      }
      var ret := pcnt.value - 1;
      sIpCountHash.Store(pcnt, ret);
      if ret == 0 {
        sIpCountHash.HashFreeEntry(ip);
      }
    }

    ghost function View(accepted: nat): Load
      reads this, sIpCountHash
    {
      Load(sChildren, sIpCountHash.contents, accepted)
    }

    /** `handleNewConn`, as far as the counters go. */
    method HandleNewConn(ip: uint32, ghost accepted: nat) returns (rc: int, numThisIp: uint32, ghost acceptedNow: nat)
      requires Valid()
      modifies this`sChildren, sIpCountHash, sIpCountHash.nodes, sIpCountHash.repr
      ensures Valid() && fresh(sIpCountHash.repr - old(sIpCountHash.repr))
      ensures View(acceptedNow) == Admit(old(View(accepted)), ip, tunables)
      ensures rc == 0 <==> acceptedNow == accepted + 1
      ensures rc == if 0 < tunables.maxClients < old(sChildren) then -1 else 0
      ensures rc == 0 ==> numThisIp == sIpCountHash.contents[ip]
    {
      var numClients := sChildren;
      numThisIp, acceptedNow := 0, accepted;
      rc := IsValid(numClients, numThisIp, tunables.maxClients, tunables.maxPerIp);
      if rc < 0 {
        return;
      }
      sChildren, acceptedNow := AsUint32(sChildren as int + 1), accepted + 1;
      numThisIp := HandleIpCount(ip);
    }
  }

  /** Any run of increments and decrements, on the hash table. */
  method CountEach(ops: seq<CountOp>) returns (c: Counters)
    ensures fresh(c) && c.Valid() && c.sIpCountHash.contents == CountsAfter(ops)
  {
    c := new Counters(Tunables(2000, 50));
    for i := 0 to |ops|
      invariant fresh(c) && c.Valid() && fresh(c.sIpCountHash) && fresh(c.sIpCountHash.nodes)
      invariant fresh(c.sIpCountHash.repr)
      invariant c.sIpCountHash.contents == CountsAfter(ops[..i])
    {
      assert ops[..i + 1][..i] == ops[..i];
      match ops[i] {
        case Up(ip) => var cnt := c.HandleIpCount(ip);
        case Down(ip) => c.DropIpCount(ip);
      }
    }
    assert ops[..|ops|] == ops;
  }

  /** Any run of connection attempts, on the hash table. */
  method AdmitEach(ips: seq<uint32>, t: Tunables) returns (c: Counters, ghost accepted: nat)
    ensures fresh(c) && c.Valid() && c.View(accepted) == AdmitAll(ips, t)
  {
    c := new Counters(t);
    accepted := 0;
    for i := 0 to |ips|
      invariant fresh(c) && c.Valid() && c.tunables == t && fresh(c.sIpCountHash) && fresh(c.sIpCountHash.nodes)
      invariant fresh(c.sIpCountHash.repr)
      invariant c.View(accepted) == AdmitAll(ips[..i], t)
    {
      assert ips[..i + 1][..i] == ips[..i];
      var rc, numThisIp;
      rc, numThisIp, accepted := c.HandleNewConn(ips[i], accepted);
    }
    assert ips[..|ips|] == ips;
  }
}
