/**
 Whole runs of the idle-timeout machine: new sessions, requests on arbitrary sockets, and waits
 that end with no event. The list that is only ever touched at its ends is compared with an
 unordered table whose every entry is examined.
 */
module IdleRuns {
  import opened MachineInts
  import opened IdlePolicy
  import opened Seqs

  datatype Event =
    | Connect(fd: nat, now: int32)        // addtoNode
    | Activity(fd: nat, now: int32)       // refreshTimeout, for a socket with or without a node
    | IdleRound(readings: seq<int>)       // epoll_wait_timeout returning no event

  /** The position of a socket's entry, or the length of the list when it has none. */
  function Find(list: seq<Entry>, fd: nat): (i: nat)
    ensures i <= |list|
    ensures i < |list| ==> list[i].fd == fd
    ensures forall j :: 0 <= j < i ==> list[j].fd != fd
  {
    if list == [] then 0
    else if list[0].fd == fd then 0
    else 1 + Find(list[1..], fd)
  }

  /** The list after one event, computed as the server does. */
  function ListStep(list: seq<Entry>, e: Event, limit: uint32): seq<Entry> {
    match e
    case Connect(fd, now) => [Entry(fd, now)] + list
    case Activity(fd, now) =>
      var i := Find(list, fd);
      if i == |list| then list else [Entry(fd, now)] + Without(list, i)
    case IdleRound(readings) => EvictFromBack(list, readings, limit)
  }

  /** The unordered table after one event, computed by examining every entry. */
  function TableStep(table: set<Entry>, e: Event, clock: int, limit: uint32): set<Entry> {
    match e
    case Connect(fd, now) => table + {Entry(fd, now)}
    case Activity(fd, now) =>
      if exists x :: x in table && x.fd == fd
      then (set x | x in table && x.fd != fd) + {Entry(fd, now)}
      else table
    case IdleRound(readings) =>
      set x | x in table && !TimedOut(Latest(readings, clock), x.lastTime, limit)
  }

  function ClockStep(clock: int, e: Event): int {
    match e
    case Connect(_, now) => now
    case Activity(_, now) => now
    case IdleRound(readings) => Latest(readings, clock)
  }

  datatype State = State(list: seq<Entry>, table: set<Entry>, clock: int)

  function Run(start: int, events: seq<Event>, limit: uint32): State {
    if events == [] then State([], {}, start)
    else
      var s := Run(start, events[..|events| - 1], limit);
      var e := events[|events| - 1];
      State(ListStep(s.list, e, limit), TableStep(s.table, e, s.clock, limit), ClockStep(s.clock, e))
  }

  /** What the environment guarantees of the next event: the clock is never set back, `accept`
      returns a socket that no open session has, and a round reads the clock once per test. */
  ghost predicate Possible(s: State, e: Event, limit: uint32) {
    match e
    case Connect(fd, now) => s.clock <= now < CLOCK_END && Find(s.list, fd) == |s.list|
    case Activity(_, now) => s.clock <= now < CLOCK_END
    case IdleRound(readings) => Monotone(readings, s.clock) && CompleteRound(s.list, readings, limit)
  }

  ghost predicate PossibleRun(start: int, events: seq<Event>, limit: uint32) {
    events != [] ==>
      && PossibleRun(start, events[..|events| - 1], limit)
      && Possible(Run(start, events[..|events| - 1], limit), events[|events| - 1], limit)
  }

  ghost predicate DistinctFds(list: seq<Entry>) {
    forall i, j :: 0 <= i < j < |list| ==> list[i].fd != list[j].fd
  }

  ghost predicate Inv(s: State) {
    && 0 <= s.clock < CLOCK_END
    && InOrder(s.list, s.clock) && DistinctFds(s.list)
    && s.table == set x | x in s.list
  }

  lemma FindIs(list: seq<Entry>, fd: nat, i: nat)
    requires DistinctFds(list) && i < |list| && list[i].fd == fd
    ensures Find(list, fd) == i
  {
  }

  /** A fresh use in front of a sorted list keeps it sorted. */
  lemma UsedInFront(fd: nat, now: int32, rest: seq<Entry>, before: int)
    requires InOrder(rest, before) && 0 <= before <= now
    ensures InOrder([Entry(fd, now)] + rest, now)
  {
    assert ([Entry(fd, now)] + rest)[1..] == rest;
  }

  lemma ConnectKeepsInv(s: State, e: Event, limit: uint32)
    requires Inv(s) && e.Connect? && Possible(s, e, limit)
    ensures Inv(State(ListStep(s.list, e, limit), TableStep(s.table, e, s.clock, limit), e.now))
  {
    UsedInFront(e.fd, e.now, s.list, s.clock);
  }

  /** Taking an entry out leaves the others as they were. */
  lemma WithoutMembers(list: seq<Entry>, i: nat, x: Entry)
    requires DistinctFds(list) && i < |list|
    ensures x in Without(list, i) <==> x in list && x.fd != list[i].fd
  {
    var rest := Without(list, i);
    if x in list && x.fd != list[i].fd {
      var k :| 0 <= k < |list| && list[k] == x;
      assert rest[if k < i then k else k - 1] == x;
    }
    if x in rest {
      var k :| 0 <= k < |rest| && rest[k] == x;
      assert x == list[if k < i then k else k + 1];
    }
  }

  lemma {:induction false} WithoutKeepsOrder(list: seq<Entry>, i: nat, now: int)
    requires InOrder(list, now) && i < |list|
    ensures InOrder(Without(list, i), now)
  {
    if i == 0 {
      assert Without(list, i) == list[1..];
    } else {
      WithoutKeepsOrder(list[1..], i - 1, list[0].lastTime);
      WithoutTail(list, i);
    }
  }

  /** Moving an entry to the front with a later time keeps the list sorted. */
  lemma TouchKeepsOrder(list: seq<Entry>, fd: nat, before: int, now: int32, limit: uint32)
    requires InOrder(list, before) && 0 <= before <= now && Find(list, fd) < |list|
    ensures ListStep(list, Activity(fd, now), limit) == [Entry(fd, now)] + Without(list, Find(list, fd))
    ensures InOrder(ListStep(list, Activity(fd, now), limit), now)
  {
    WithoutKeepsOrder(list, Find(list, fd), before);
    UsedInFront(fd, now, Without(list, Find(list, fd)), before);
  }

  lemma WithoutKeepsDistinct(list: seq<Entry>, i: nat)
    requires DistinctFds(list) && i < |list|
    ensures DistinctFds(Without(list, i))
    ensures forall k :: 0 <= k < |list| - 1 ==> Without(list, i)[k].fd != list[i].fd
  {
    var rest := Without(list, i);
    assert forall k :: 0 <= k < |rest| ==> rest[k] == list[if k < i then k else k + 1];
  }

  lemma ActivityKeepsInv(s: State, e: Event, limit: uint32)
    requires Inv(s) && e.Activity? && Possible(s, e, limit)
    ensures Inv(State(ListStep(s.list, e, limit), TableStep(s.table, e, s.clock, limit), e.now))
  {
    var i := Find(s.list, e.fd);
    if i < |s.list| {
      var used, rest := Entry(e.fd, e.now), Without(s.list, i);
      WithoutKeepsOrder(s.list, i, s.clock);
      WithoutKeepsDistinct(s.list, i);
      assert s.list[i] in s.table;
      var list := [used] + rest;
      UsedInFront(e.fd, e.now, rest, s.clock);
      forall x ensures x in list <==> x in TableStep(s.table, e, s.clock, limit) {
        WithoutMembers(s.list, i, x);
      }
    }
  }

  lemma RoundKeepsOrder(list: seq<Entry>, readings: seq<int>, limit: uint32, clock: int)
    requires InOrder(list, clock) && Monotone(readings, clock) && CompleteRound(list, readings, limit)
    requires clock < CLOCK_END
    ensures EvictFromBack(list, readings, limit) == FullScan(list, Latest(readings, clock), limit)
    ensures InOrder(EvictFromBack(list, readings, limit), Latest(readings, clock))
  {
    var kept := EvictFromBack(list, readings, limit);
    InOrderExactly(list, clock);
    EvictionIsFullScan(list, readings, limit, clock);
    LatestInRange(readings, clock);
    PrefixInOrder(list, |kept|, clock);
    assert list[..|kept|] == kept;
  }

  lemma RoundKeepsInv(s: State, e: Event, limit: uint32)
    requires Inv(s) && e.IdleRound? && Possible(s, e, limit)
    ensures Inv(State(ListStep(s.list, e, limit), TableStep(s.table, e, s.clock, limit), ClockStep(s.clock, e)))
  {
    var now := Latest(e.readings, s.clock);
    LatestInRange(e.readings, s.clock);
    RoundKeepsOrder(s.list, e.readings, limit, s.clock);
    forall x ensures x in FullScan(s.list, now, limit) <==> x in s.list && !TimedOut(now, x.lastTime, limit) {
      FullScanMembers(s.list, now, limit, x);
    }
  }

  /** Main result over all runs: the list stays sorted by last use with one entry per socket, and
      it holds exactly the entries of the table that is scanned in full at every idle round. */
  lemma {:induction false} ListRefinesTable(start: int, events: seq<Event>, limit: uint32)
    requires 0 <= start < CLOCK_END && PossibleRun(start, events, limit)
    ensures Inv(Run(start, events, limit))
  {
    if events != [] {
      var before, e := events[..|events| - 1], events[|events| - 1];
      ListRefinesTable(start, before, limit);
      var s := Run(start, before, limit);
      match e {
        case Connect(_, _) => ConnectKeepsInv(s, e, limit);
        case Activity(_, _) => ActivityKeepsInv(s, e, limit);
        case IdleRound(_) => RoundKeepsInv(s, e, limit);
      }
    }
  }

  // ---------- what a surviving session means in terms of the trace ----------

  /** The time of the last event that names this socket. */
  function LastUse(events: seq<Event>, fd: nat): int {
    if events == [] then -1
    else match events[|events| - 1]
      case Connect(f, now) => if f == fd then now else LastUse(events[..|events| - 1], fd)
      case Activity(f, now) => if f == fd then now else LastUse(events[..|events| - 1], fd)
      case IdleRound(_) => LastUse(events[..|events| - 1], fd)
  }

  lemma {:induction false} LastTimeIsLastUse(start: int, events: seq<Event>, limit: uint32, x: Entry)
    requires 0 <= start < CLOCK_END && PossibleRun(start, events, limit)
    requires x in Run(start, events, limit).list
    ensures x.lastTime == LastUse(events, x.fd)
  {
    if events != [] {
      var before, e := events[..|events| - 1], events[|events| - 1];
      var s := Run(start, before, limit);
      ListRefinesTable(start, before, limit);
      ListRefinesTable(start, events, limit);
      assert x in TableStep(s.table, e, s.clock, limit);
      if x in s.list {
        LastTimeIsLastUse(start, before, limit, x);
      }
    }
  }

  /** After any run, an idle round keeps exactly the sessions whose last request is recent enough. */
  lemma {:induction false} SurvivesIffUsedRecently(start: int, events: seq<Event>, readings: seq<int>, limit: uint32,
                                                   fd: nat)
    requires 0 <= start < CLOCK_END && PossibleRun(start, events, limit)
    requires Possible(Run(start, events, limit), IdleRound(readings), limit)
    requires Find(Run(start, events, limit).list, fd) < |Run(start, events, limit).list|
    ensures var s := Run(start, events, limit);
      var kept := ListStep(s.list, IdleRound(readings), limit);
      Find(kept, fd) < |kept|
      <==> Latest(readings, s.clock) - LastUse(events, fd) + TIMEOUTSEG <= limit
  {
    var s := Run(start, events, limit);
    var kept := ListStep(s.list, IdleRound(readings), limit);
    ListRefinesTable(start, events, limit);
    var x := s.list[Find(s.list, fd)];
    LastTimeIsLastUse(start, events, limit, x);
    InOrderExactly(s.list, s.clock);
    EvictionByAge(s.list, readings, limit, s.clock, x);
    if x in kept {
      var k :| 0 <= k < |kept| && kept[k] == x;
    }
  }
}
