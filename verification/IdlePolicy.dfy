/**
 The idle-timeout policy on values: what the linked list of ftpepoll.cpp computes by looking
 only at its least recently used end, and the full scan over all sessions that it replaces.
 */
module IdlePolicy {
  import opened MachineInts

  const TIMEOUTSEG := 2

  /** What the list records of one session: its control socket and the time of its last request. */
  datatype Entry = Entry(fd: nat, lastTime: int32)

  /** `sessTime`: the difference of a `long` and an `int`, returned as an `int`. */
  function SessTime(now: int, lastTime: int32): int32 {
    AsInt32(now - lastTime)
  }

  /** `isTimeout`: an `int` sum compared with an `unsigned` setting. */
  predicate TimedOut(now: int, lastTime: int32, limit: uint32) {
    AsUint32(SessTime(now, lastTime) + TIMEOUTSEG) > limit
  }

  /** The wait bound: `unsigned` minus `int`, stored in an `int`. */
  function WaitTime(now: int, lastTime: int32, limit: uint32): int32 {
    AsInt32(AsUint32(limit - SessTime(now, lastTime)))
  }

  /** Clock values for which no `int` sum overflows. */
  const CLOCK_END := TWO_31 - TIMEOUTSEG

  /** The comparison of mixed signedness is the intended one exactly when the clock has not been
      set back by more than TIMEOUTSEG seconds, or the setting exceeds the wrapped age. */
  lemma TimedOutExactly(age: int, lastTime: int32, limit: uint32)
    requires -TWO_31 <= age < CLOCK_END
    ensures (TimedOut(lastTime + age, lastTime, limit) <==> age + TIMEOUTSEG > limit)
       <==> (age >= -TIMEOUTSEG || limit >= age + TIMEOUTSEG + TWO_32)
  {
    assert SessTime(lastTime + age, lastTime) == age;
  }

  /** With the clock set back by three seconds every session is timed out, under every setting but the
      largest, although none has any age. */
  lemma ClockSetBack(lastTime: int32, limit: uint32)
    requires limit < TWO_32 - 1
    ensures TimedOut(lastTime - 3, lastTime, limit) && !(-3 + TIMEOUTSEG > limit)
  {
    assert SessTime(lastTime - 3, lastTime) == -3;
  }

  /** With a clock that is not set back the test is on the age alone. */
  lemma TimedOutByAge(now: int, lastTime: int32, limit: uint32)
    requires 0 <= lastTime <= now < 0x7FFF_FFFE
    ensures SessTime(now, lastTime) == now - lastTime
    ensures TimedOut(now, lastTime, limit) <==> now - lastTime + 2 > limit
  {
    TimedOutExactly(now - lastTime, lastTime, limit);
  }

  /** Once timed out, a session stays timed out as the clock advances. */
  lemma TimedOutMonotone(now: int, later: int, older: int32, last: int32, limit: uint32)
    requires 0 <= older <= last <= now <= later < CLOCK_END
    requires TimedOut(now, last, limit)
    ensures TimedOut(later, older, limit)
  {
    TimedOutByAge(now, last, limit);
    TimedOutByAge(later, older, limit);
  }

  // ---------- the fast form and the simple form of one eviction round ----------

  /** The loop of `epoll_wait_timeout`: test the back entry against a fresh clock reading, pop it
      when it has timed out, stop at the first one that has not. */
  function EvictFromBack(list: seq<Entry>, readings: seq<int>, limit: uint32): (kept: seq<Entry>)
    ensures kept <= list
    decreases |list|
  {
    if list == [] || readings == [] then list
    else
      var back := list[|list| - 1];
      if TimedOut(readings[0], back.lastTime, limit)
      then EvictFromBack(list[..|list| - 1], readings[1..], limit)
      else list
  }

  /** `readings` are exactly the clock values one run of that loop reads. */
  predicate CompleteRound(list: seq<Entry>, readings: seq<int>, limit: uint32)
    decreases |list|
  {
    if list == [] then readings == []
    else
      && readings != []
      && if TimedOut(readings[0], list[|list| - 1].lastTime, limit)
         then CompleteRound(list[..|list| - 1], readings[1..], limit)
         else |readings| == 1
  }

  /** The simple form: look at every session. */
  function FullScan(list: seq<Entry>, now: int, limit: uint32): (kept: seq<Entry>)
  {
    if list == [] then []
    else
      var front := FullScan(list[..|list| - 1], now, limit);
      var back := list[|list| - 1];
      if TimedOut(now, back.lastTime, limit) then front else front + [back]
  }

  /** Most recently used first. */
  ghost predicate Ordered(list: seq<Entry>) {
    forall i, j :: 0 <= i < j < |list| ==> list[i].lastTime >= list[j].lastTime
  }

  ghost predicate Within(list: seq<Entry>, now: int) {
    forall i :: 0 <= i < |list| ==> 0 <= list[i].lastTime <= now
  }

  /** Both together, entry by entry: the times fall from `now` on. */
  ghost predicate InOrder(list: seq<Entry>, now: int) {
    list != [] ==> 0 <= list[0].lastTime <= now && InOrder(list[1..], list[0].lastTime)
  }

  lemma {:induction false} InOrderExactly(list: seq<Entry>, now: int)
    ensures InOrder(list, now) <==> Ordered(list) && Within(list, now)
  {
    if list != [] {
      var rest := list[1..];
      InOrderExactly(rest, list[0].lastTime);
      assert forall i :: 1 <= i < |list| ==> list[i] == rest[i - 1];
      if Ordered(list) && Within(list, now) {
        assert forall i :: 0 <= i < |rest| ==> rest[i] == list[i + 1];
      }
    }
  }

  lemma {:induction false} PrefixInOrder(list: seq<Entry>, k: nat, now: int)
    requires InOrder(list, now) && k <= |list|
    ensures InOrder(list[..k], now)
  {
    if k > 0 {
      PrefixInOrder(list[1..], k - 1, list[0].lastTime);
      assert list[..k][1..] == list[1..][..k - 1];
    }
  }

  /** Successive readings of a clock that is not set back. */
  ghost predicate Monotone(readings: seq<int>, from: int) {
    readings != [] ==> from <= readings[0] < CLOCK_END && Monotone(readings[1..], readings[0])
  }

  /** The clock after the readings of a round. */
  function Latest(readings: seq<int>, from: int): int {
    if readings == [] then from else readings[|readings| - 1]
  }

  lemma {:induction false} LatestInRange(readings: seq<int>, from: int)
    requires Monotone(readings, from) && from < CLOCK_END
    ensures from <= Latest(readings, from) < CLOCK_END
  {
    if readings != [] {
      LatestInRange(readings[1..], readings[0]);
    }
  }

  lemma MonotoneFromEarlier(readings: seq<int>, earlier: int, from: int)
    requires Monotone(readings, from) && earlier <= from
    ensures Monotone(readings, earlier)
  {
  }

  /** A session the scan keeps or drops is one of the list, and only its own age decides. */
  lemma {:induction false} FullScanMembers(list: seq<Entry>, now: int, limit: uint32, e: Entry)
    ensures e in FullScan(list, now, limit) <==> e in list && !TimedOut(now, e.lastTime, limit)
  {
    if list != [] {
      FullScanMembers(list[..|list| - 1], now, limit, e);
      assert list == list[..|list| - 1] + [list[|list| - 1]];
    }
  }

  lemma {:induction false} FullScanKeepsAll(list: seq<Entry>, now: int, limit: uint32)
    requires forall i :: 0 <= i < |list| ==> !TimedOut(now, list[i].lastTime, limit)
    ensures FullScan(list, now, limit) == list
  {
    if list != [] {
      FullScanKeepsAll(list[..|list| - 1], now, limit);
      assert list == list[..|list| - 1] + [list[|list| - 1]];
    }
  }

  /** Main result for one round: popping from the back, with the clock re-read before every test,
      removes exactly the sessions that a scan of all of them at the last reading would remove,
      and leaves the survivors in order. */
  lemma {:induction false} EvictionIsFullScan(list: seq<Entry>, readings: seq<int>, limit: uint32, from: int)
    requires Ordered(list) && Within(list, from) && Monotone(readings, from) && from < CLOCK_END
    requires CompleteRound(list, readings, limit)
    ensures EvictFromBack(list, readings, limit) == FullScan(list, Latest(readings, from), limit)
    decreases |list|
  {
    if list != [] {
      var front, back := list[..|list| - 1], list[|list| - 1];
      var now := Latest(readings, from);
      LatestInRange(readings[1..], readings[0]);
      if TimedOut(readings[0], back.lastTime, limit) {
        EvictionIsFullScan(front, readings[1..], limit, readings[0]);
        TimedOutMonotone(readings[0], now, back.lastTime, back.lastTime, limit);
      } else {
        forall i | 0 <= i < |list|
          ensures !TimedOut(now, list[i].lastTime, limit)
        {
          if TimedOut(now, list[i].lastTime, limit) {
            TimedOutMonotone(now, now, back.lastTime, list[i].lastTime, limit);
          }
        }
        FullScanKeepsAll(list, now, limit);
      }
    }
  }

  /** Nobody is evicted early, and nobody who is idle too long survives, in terms of ages. */
  lemma EvictionByAge(list: seq<Entry>, readings: seq<int>, limit: uint32, from: int, e: Entry)
    requires Ordered(list) && Within(list, from) && Monotone(readings, from) && from < CLOCK_END
    requires CompleteRound(list, readings, limit)
    requires e in list
    ensures e in EvictFromBack(list, readings, limit)
       <==> Latest(readings, from) - e.lastTime + TIMEOUTSEG <= limit
  {
    var now := Latest(readings, from);
    EvictionIsFullScan(list, readings, limit, from);
    LatestInRange(readings, from);
    FullScanMembers(list, now, limit, e);
    TimedOutByAge(now, e.lastTime, limit);
  }

  /** The time remaining to the back entry is the least of all sessions, and the wait bound is that time
      exactly when it is below 2^31. */
  lemma WaitTimeIsLeastRemaining(list: seq<Entry>, now: int, limit: uint32, i: nat)
    requires Ordered(list) && Within(list, now) && now < CLOCK_END
    requires i < |list|
    ensures var back := list[|list| - 1];
      && (WaitTime(now, back.lastTime, limit) == limit - (now - back.lastTime)
          <==> limit - (now - back.lastTime) < TWO_31)
      && limit - (now - back.lastTime) <= limit - (now - list[i].lastTime)
  {
    var back := list[|list| - 1];
    TimedOutByAge(now, back.lastTime, limit);
    assert list[i].lastTime >= back.lastTime;
  }

  /** A round under way: every reading so far has popped an entry, and `left` remains. */
  ghost predicate UnderWay(list: seq<Entry>, left: seq<Entry>, readings: seq<int>, from: int, limit: uint32)
    decreases |list|
  {
    if readings == [] then left == list
    else
      && list != []
      && from <= readings[0] < CLOCK_END
      && TimedOut(readings[0], list[|list| - 1].lastTime, limit)
      && UnderWay(list[..|list| - 1], left, readings[1..], readings[0], limit)
  }

  lemma {:induction false} PopOneMore(list: seq<Entry>, left: seq<Entry>, readings: seq<int>,
                                      from: int, t: int, limit: uint32)
    requires UnderWay(list, left, readings, from, limit) && Latest(readings, from) <= t < CLOCK_END
    requires left != [] && TimedOut(t, left[|left| - 1].lastTime, limit)
    ensures UnderWay(list, left[..|left| - 1], readings + [t], from, limit)
    decreases |list|
  {
    if readings != [] {
      assert (readings + [t])[1..] == readings[1..] + [t];
      PopOneMore(list[..|list| - 1], left, readings[1..], readings[0], t, limit);
    }
  }

  /** A round under way ends when its list is empty or a reading finds the back entry in time. */
  lemma {:induction false} RoundEnds(list: seq<Entry>, left: seq<Entry>, readings: seq<int>,
                                     last: seq<int>, from: int, limit: uint32)
    requires UnderWay(list, left, readings, from, limit)
    requires left == [] ==> last == []
    requires left != [] ==> |last| == 1 && Latest(readings, from) <= last[0] < CLOCK_END
    requires left != [] ==> !TimedOut(last[0], left[|left| - 1].lastTime, limit)
    ensures Monotone(readings + last, from) && CompleteRound(list, readings + last, limit)
    ensures EvictFromBack(list, readings + last, limit) == left
    decreases |list|
  {
    if readings == [] {
      assert readings + last == last;
    } else {
      assert (readings + last)[1..] == readings[1..] + last;
      RoundEnds(list[..|list| - 1], left, readings[1..], last, readings[0], limit);
    }
  }
}
