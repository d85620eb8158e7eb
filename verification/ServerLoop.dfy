/**
 The main loop of ftpepoll.cpp, as far as the idle-timeout list goes: connections are accepted, input
 arrives, and waits end. What happens on its socket decides what becomes of every session.
 */
module ServerLoop {
  import opened MachineInts
  import opened IdlePolicy
  import opened IdleRuns
  import opened IdleList
  import opened Seqs
  import opened Sessions

  /** One thing that happens: a connection is accepted, input arrives on some socket, or the wait ends
      with `num` events. */
  datatype Turn = Accepted(sess: Session) | Input(fd: nat) | Waited(num: int32)

  /** The events with one more, unless the step is none. */
  function Then(events: seq<Event>, step: Option<Event>): seq<Event> {
    if step.Some? then events + [step.value] else events
  }

  /** The events of a run, where every turn of the loop is one step. */
  function EventsOf(steps: seq<Option<Event>>): seq<Event> {
    if steps == [] then [] else Then(EventsOf(steps[..|steps| - 1]), steps[|steps| - 1])
  }

  /** The step of the policy that a turn makes: a new session is linked in, input is a use of its
      socket, and a wait without events is an idle round. `accept` returns no socket that is in use,
      so a turn that says so is passed over. */
  ghost predicate Matches(turn: Turn, step: Option<Event>, list: seq<Entry>) {
    match turn
    case Accepted(sess) =>
      if Find(list, sess.ctrlFd) == |list| then step.Some? && step.value.Connect? && step.value.fd == sess.ctrlFd
      else step.None?
    case Input(fd) => step.Some? && step.value.Activity? && step.value.fd == fd
    case Waited(num) => if num == 0 then step.Some? && step.value.IdleRound? else step.None?
  }

  /** Every turn of a run makes its step. */
  ghost predicate Trace(turns: seq<Turn>, steps: seq<Option<Event>>, limit: uint32)
    decreases |turns|
  {
    if turns == [] then steps == []
    else
      && steps != []
      && Trace(turns[..|turns| - 1], steps[..|steps| - 1], limit)
      && Matches(turns[|turns| - 1], steps[|steps| - 1], Run(0, EventsOf(steps[..|steps| - 1]), limit).list)
  }

  // ---------- what becomes of the sessions ----------

  /** The socket is used recently enough to outlast this step. */
  ghost predicate Spared(step: Option<Event>, events: seq<Event>, fd: nat, limit: uint32) {
    step.Some? && step.value.IdleRound? ==>
      Latest(step.value.readings, Run(0, events, limit).clock) - LastUse(events, fd) + TIMEOUTSEG <= limit
  }

  /** The same for the `r`-th step of a run. */
  ghost predicate SparedAt(steps: seq<Option<Event>>, r: nat, fd: nat, limit: uint32)
    requires r < |steps|
  {
    Spared(steps[r], EventsOf(steps[..r]), fd, limit)
  }

  /** Every idle round after the `i`-th step finds the socket used recently enough. */
  ghost predicate StillUsed(steps: seq<Option<Event>>, i: nat, fd: nat, limit: uint32) {
    forall r :: i < r < |steps| ==> SparedAt(steps, r, fd, limit)
  }

  /** A session that was accepted is listed if and only if it was linked in and has been used recently
      enough at every idle round since, and it has been closed if and only if it was linked in and is
      no longer listed. */
  ghost predicate Accounted(turns: seq<Turn>, steps: seq<Option<Event>>, owners: seq<Session>, closed: seq<Session>,
                            limit: uint32)
    requires |steps| == |turns|
  {
    forall i :: 0 <= i < |turns| && turns[i].Accepted? ==>
      var s := turns[i].sess;
      && (s in owners <==> steps[i].Some? && StillUsed(steps, i, s.ctrlFd, limit))
      && (s in closed <==> steps[i].Some? && s !in owners)
  }

  /** Nothing else is listed or closed. */
  ghost predicate AllAccepted(turns: seq<Turn>, sessions: seq<Session>) {
    forall s :: s in sessions ==> Accepted(s) in turns
  }

  /** What one step does to the listed and the closed sessions. */
  ghost predicate Effect(turn: Turn, step: Option<Event>, events: seq<Event>, limit: uint32,
                         owners: seq<Session>, closed: seq<Session>, owners1: seq<Session>, closed1: seq<Session>)
  {
    && (turn.Accepted? ==> (turn.sess in owners1 <==> step.Some?) && turn.sess !in closed1)
    && (forall s :: s in owners ==> (s in owners1 <==> Spared(step, events, s.ctrlFd, limit)))
    && (forall s :: s in owners1 ==> s in owners || turn == Accepted(s))
    && (forall s :: s in closed ==> s in closed1)
    && (forall s :: s in owners && s !in owners1 ==> s in closed1)
    && (forall s :: s in closed1 ==> s in closed || (s in owners && s !in owners1))
  }

  lemma SparedBefore(steps: seq<Option<Event>>, step: Option<Event>, i: nat, fd: nat, limit: uint32)
    requires i < |steps|
    ensures StillUsed(steps + [step], i, fd, limit)
       <==> StillUsed(steps, i, fd, limit) && Spared(step, EventsOf(steps), fd, limit)
  {
    var more := steps + [step];
    assert more[..|steps|] == steps;
    assert SparedAt(more, |steps|, fd, limit) <==> Spared(step, EventsOf(steps), fd, limit);
    forall r | 0 <= r < |steps|
      ensures SparedAt(more, r, fd, limit) <==> SparedAt(steps, r, fd, limit)
    {
      assert more[..r] == steps[..r];
    }
    if StillUsed(more, i, fd, limit) {
      assert SparedAt(more, |steps|, fd, limit);
      assert forall r :: i < r < |steps| ==> SparedAt(more, r, fd, limit);
    }
  }

  lemma AccountOne(turns: seq<Turn>, steps: seq<Option<Event>>, turn: Turn, step: Option<Event>, limit: uint32,
                   owners: seq<Session>, closed: seq<Session>, owners1: seq<Session>, closed1: seq<Session>, i: nat)
    requires |steps| == |turns| && Accounted(turns, steps, owners, closed, limit)
    requires Effect(turn, step, EventsOf(steps), limit, owners, closed, owners1, closed1)
    requires i < |turns| && turns[i].Accepted? && turn != turns[i]
    ensures var s := turns[i].sess;
      && (s in owners1 <==> steps[i].Some? && StillUsed(steps + [step], i, s.ctrlFd, limit))
      && (s in closed1 <==> steps[i].Some? && s !in owners1)
  {
    SparedBefore(steps, step, i, turns[i].sess.ctrlFd, limit);
  }

  lemma AccountMore(turns: seq<Turn>, steps: seq<Option<Event>>, turn: Turn, step: Option<Event>, limit: uint32,
                    owners: seq<Session>, closed: seq<Session>, owners1: seq<Session>, closed1: seq<Session>)
    requires |steps| == |turns| && Accounted(turns, steps, owners, closed, limit)
    requires Effect(turn, step, EventsOf(steps), limit, owners, closed, owners1, closed1)
    requires turn.Accepted? ==> turn !in turns
    ensures Accounted(turns + [turn], steps + [step], owners1, closed1, limit)
  {
    forall i | 0 <= i < |turns| && turns[i].Accepted?
      ensures var s := turns[i].sess;
        && (s in owners1 <==> steps[i].Some? && StillUsed(steps + [step], i, s.ctrlFd, limit))
        && (s in closed1 <==> steps[i].Some? && s !in owners1)
    {
      AccountOne(turns, steps, turn, step, limit, owners, closed, owners1, closed1, i);
    }
  }

  lemma AllAcceptedMore(turns: seq<Turn>, turn: Turn, step: Option<Event>, events: seq<Event>, limit: uint32,
                        owners: seq<Session>, closed: seq<Session>, owners1: seq<Session>, closed1: seq<Session>)
    requires Effect(turn, step, events, limit, owners, closed, owners1, closed1)
    requires AllAccepted(turns, owners) && AllAccepted(turns, closed)
    ensures AllAccepted(turns + [turn], owners1) && AllAccepted(turns + [turn], closed1)
  {
  }

  /** A run of turns so far, with the sessions listed and closed after it. */
  ghost predicate Told(turns: seq<Turn>, steps: seq<Option<Event>>, limit: uint32,
                       owners: seq<Session>, closed: seq<Session>)
  {
    && |steps| == |turns| && Trace(turns, steps, limit) && Accounted(turns, steps, owners, closed, limit)
    && AllAccepted(turns, owners) && AllAccepted(turns, closed)
  }

  lemma OneMoreTurn(turns: seq<Turn>, i: nat, steps: seq<Option<Event>>, step: Option<Event>, limit: uint32,
                    owners: seq<Session>, closed: seq<Session>, owners1: seq<Session>, closed1: seq<Session>)
    requires i < |turns| && (turns[i].Accepted? ==> turns[i] !in turns[..i])
    requires Told(turns[..i], steps, limit, owners, closed)
    requires Matches(turns[i], step, Run(0, EventsOf(steps), limit).list)
    requires Effect(turns[i], step, EventsOf(steps), limit, owners, closed, owners1, closed1)
    ensures Told(turns[..i + 1], steps + [step], limit, owners1, closed1)
    ensures EventsOf(steps + [step]) == Then(EventsOf(steps), step)
  {
    assert turns[..i + 1] == turns[..i] + [turns[i]] && turns[..i + 1][..i] == turns[..i];
    assert (steps + [step])[..|steps|] == steps;
    AccountMore(turns[..i], steps, turns[i], step, limit, owners, closed, owners1, closed1);
    AllAcceptedMore(turns[..i], turns[i], step, EventsOf(steps), limit, owners, closed, owners1, closed1);
  }

  // ---------- the steps in terms of the turns ----------

  /** A new session has this socket, or input arrives on it. */
  ghost predicate Names(turn: Turn, fd: nat) {
    (turn.Accepted? && turn.sess.ctrlFd == fd) || (turn.Input? && turn.fd == fd)
  }

  /** Input always makes a step, a wait makes one exactly if it answers 0, and a step that is no round
      is about the socket of its turn. */
  lemma {:induction false} StepsOfTurns(turns: seq<Turn>, steps: seq<Option<Event>>, limit: uint32, i: nat)
    requires Trace(turns, steps, limit) && i < |turns|
    ensures |steps| == |turns|
    ensures turns[i].Input? <==> steps[i].Some? && steps[i].value.Activity?
    ensures turns[i] == Waited(0) <==> steps[i].Some? && steps[i].value.IdleRound?
    ensures steps[i].Some? && !steps[i].value.IdleRound? ==> Names(turns[i], steps[i].value.fd)
    decreases |turns|
  {
    var last := |turns| - 1;
    if last > 0 {
      StepsOfTurns(turns[..last], steps[..|steps| - 1], limit, if i < last then i else 0);
    }
  }

  /** From the `i`-th turn on only connections that are passed over have this socket. */
  ghost predicate PassedOver(turns: seq<Turn>, steps: seq<Option<Event>>, i: nat, fd: nat)
    requires |steps| == |turns|
  {
    forall j :: i <= j < |turns| && Names(turns[j], fd) ==> turns[j].Accepted? && steps[j].None?
  }

  /** The last use of the socket was the `i`-th turn, at the time of its step, or there is none. */
  ghost predicate LastUsedAt(turns: seq<Turn>, steps: seq<Option<Event>>, i: int, fd: nat)
    requires |steps| == |turns|
  {
    && -1 <= i < |turns| && PassedOver(turns, steps, i + 1, fd)
    && (i == -1 ==> LastUse(EventsOf(steps), fd) == -1)
    && (i >= 0 ==>
      && Names(turns[i], fd) && steps[i].Some? && !steps[i].value.IdleRound?
      && LastUse(EventsOf(steps), fd) == steps[i].value.now)
  }

  lemma LastUseOneMore(events: seq<Event>, step: Option<Event>, fd: nat)
    ensures LastUse(Then(events, step), fd) ==
      if step.None? || step.value.IdleRound? || step.value.fd != fd then LastUse(events, fd) else step.value.now
  {
    if step.Some? {
      assert (events + [step.value])[..|events|] == events;
    }
  }

  lemma EventsOneMore(steps: seq<Option<Event>>, step: Option<Event>)
    ensures EventsOf(steps + [step]) == Then(EventsOf(steps), step)
  {
    assert (steps + [step])[..|steps|] == steps;
  }

  lemma PassedOverMore(turns: seq<Turn>, steps: seq<Option<Event>>, turn: Turn, step: Option<Event>, i: nat, fd: nat)
    requires |steps| == |turns| && PassedOver(turns, steps, i, fd)
    requires Names(turn, fd) ==> turn.Accepted? && step.None?
    ensures PassedOver(turns + [turn], steps + [step], i, fd)
  {
  }

  lemma LastUsedMore(turns: seq<Turn>, steps: seq<Option<Event>>, turn: Turn, step: Option<Event>,
                     list: seq<Entry>, i: int, fd: nat)
    requires |steps| == |turns| && Matches(turn, step, list) && LastUsedAt(turns, steps, i, fd)
    ensures var last := if Names(turn, fd) && step.Some? then |turns| else i;
      LastUsedAt(turns + [turn], steps + [step], last, fd)
  {
    EventsOneMore(steps, step);
    LastUseOneMore(EventsOf(steps), step, fd);
    if !Names(turn, fd) || step.None? {
      PassedOverMore(turns, steps, turn, step, i + 1, fd);
    }
  }

  /** The last use of a socket is the last turn that names it, the `i`-th, at the time of its step; only
      a connection on a socket in use is passed over. If there is none, `i` is -1. */
  lemma {:induction false} LastUseIsLastTurn(turns: seq<Turn>, steps: seq<Option<Event>>, limit: uint32, fd: nat)
    returns (i: int)
    requires |steps| == |turns| && Trace(turns, steps, limit)
    ensures LastUsedAt(turns, steps, i, fd)
    decreases |turns|
  {
    if turns == [] {
      return -1;
    }
    var n := |turns| - 1;
    i := LastUseIsLastTurn(turns[..n], steps[..n], limit, fd);
    LastUsedMore(turns[..n], steps[..n], turns[n], steps[n], Run(0, EventsOf(steps[..n]), limit).list, i, fd);
    AllButLast(turns);
    AllButLast(steps);
    i := if Names(turns[n], fd) && steps[n].Some? then n else i;
  }

  /** The list has an entry for the socket after these events. */
  ghost predicate InUse(events: seq<Event>, fd: nat, limit: uint32) {
    Find(Run(0, events, limit).list, fd) < |Run(0, events, limit).list|
  }

  lemma FindActive(list: seq<Entry>, used: nat, now: int32, limit: uint32, fd: nat)
    requires DistinctFds(list)
    ensures var after := ListStep(list, Activity(used, now), limit);
      Find(after, fd) < |after| <==> Find(list, fd) < |list|
  {
    var i, after := Find(list, used), ListStep(list, Activity(used, now), limit);
    if i < |list| && Find(list, fd) < |list| && fd != used {
      WithoutMembers(list, i, list[Find(list, fd)]);
      assert list[Find(list, fd)] in after;
    }
    if i < |list| && Find(after, fd) < |after| && fd != used {
      WithoutMembers(list, i, after[Find(after, fd)]);
      assert after[Find(after, fd)] in list;
    }
  }

  /** What one step does to the use of a socket. */
  lemma InUseOneMore(events: seq<Event>, step: Option<Event>, fd: nat, limit: uint32)
    requires PossibleRun(0, Then(events, step), limit)
    ensures PossibleRun(0, events, limit)
    ensures InUse(Then(events, step), fd, limit) <==>
      || (step.Some? && step.value.Connect? && step.value.fd == fd)
      || (InUse(events, fd, limit) && Spared(step, events, fd, limit))
  {
    if step.Some? {
      var list, e := Run(0, events, limit).list, step.value;
      assert (events + [e])[..|events|] == events;
      ListRefinesTable(0, events, limit);
      match e {
        case Connect(f, now) => assert ([Entry(f, now)] + list)[1..] == list;
        case Activity(f, now) => FindActive(list, f, now, limit, fd);
        case IdleRound(readings) => InUseAfterRound(events, readings, fd, limit);
      }
    }
  }

  lemma FindInFront(list: seq<Entry>, kept: seq<Entry>, fd: nat)
    requires kept <= list
    ensures Find(kept, fd) < |kept| ==> Find(list, fd) < |list|
  {
    if Find(kept, fd) < |kept| {
      assert list[Find(kept, fd)].fd == fd;
    }
  }

  lemma InUseAfterRound(events: seq<Event>, readings: seq<int>, fd: nat, limit: uint32)
    requires PossibleRun(0, events, limit) && Possible(Run(0, events, limit), IdleRound(readings), limit)
    ensures var list := Run(0, events, limit).list;
      var kept := ListStep(list, IdleRound(readings), limit);
      Find(kept, fd) < |kept| <==>
        Find(list, fd) < |list| && Spared(Some(IdleRound(readings)), events, fd, limit)
  {
    var list := Run(0, events, limit).list;
    FindInFront(list, ListStep(list, IdleRound(readings), limit), fd);
    if Find(list, fd) < |list| {
      SurvivesIffUsedRecently(0, events, readings, limit, fd);
    }
  }

  /** The `j`-th turn has linked in a session with this socket, and it has been used recently enough at
      every round since. */
  ghost predicate Holds(turns: seq<Turn>, steps: seq<Option<Event>>, j: nat, fd: nat, limit: uint32)
    requires j < |turns| == |steps|
  {
    turns[j].Accepted? && turns[j].sess.ctrlFd == fd && steps[j].Some? && StillUsed(steps, j, fd, limit)
  }

  ghost predicate IsHeld(turns: seq<Turn>, steps: seq<Option<Event>>, fd: nat, limit: uint32)
    requires |turns| == |steps|
  {
    exists j :: 0 <= j < |turns| && Holds(turns, steps, j, fd, limit)
  }

  lemma IsHeldOneMore(turns: seq<Turn>, steps: seq<Option<Event>>, turn: Turn, step: Option<Event>, fd: nat,
                      limit: uint32)
    requires |turns| == |steps|
    ensures IsHeld(turns + [turn], steps + [step], fd, limit) <==>
      || (turn.Accepted? && turn.sess.ctrlFd == fd && step.Some?)
      || (IsHeld(turns, steps, fd, limit) && Spared(step, EventsOf(steps), fd, limit))
  {
    var turns1, steps1 := turns + [turn], steps + [step];
    forall j | 0 <= j < |turns|
      ensures Holds(turns1, steps1, j, fd, limit)
         <==> Holds(turns, steps, j, fd, limit) && Spared(step, EventsOf(steps), fd, limit)
    {
      SparedBefore(steps, step, j, fd, limit);
    }
    assert Holds(turns1, steps1, |turns|, fd, limit) <==>
      turn.Accepted? && turn.sess.ctrlFd == fd && step.Some?;
  }

  /** A possible run, with the step of every turn. */
  ghost predicate Goes(turns: seq<Turn>, steps: seq<Option<Event>>, limit: uint32) {
    |steps| == |turns| && Trace(turns, steps, limit) && PossibleRun(0, EventsOf(steps), limit)
  }

  lemma GoesBefore(turns: seq<Turn>, steps: seq<Option<Event>>, limit: uint32)
    requires Goes(turns, steps, limit) && turns != []
    ensures Goes(turns[..|turns| - 1], steps[..|turns| - 1], limit)
    ensures Matches(turns[|turns| - 1], steps[|turns| - 1], Run(0, EventsOf(steps[..|turns| - 1]), limit).list)
  {
    InUseOneMore(EventsOf(steps[..|turns| - 1]), steps[|turns| - 1], 0, limit);
  }

  lemma {:induction false} GoesUpTo(turns: seq<Turn>, steps: seq<Option<Event>>, limit: uint32, i: nat)
    requires Goes(turns, steps, limit) && i <= |turns|
    ensures Goes(turns[..i], steps[..i], limit)
    decreases |turns|
  {
    if i == |turns| {
      assert turns[..i] == turns && steps[..i] == steps;
    } else {
      var n := |turns| - 1;
      GoesBefore(turns, steps, limit);
      GoesUpTo(turns[..n], steps[..n], limit, i);
      TakeTake(turns, n, i);
      TakeTake(steps, n, i);
    }
  }

  lemma InUseMore(turns: seq<Turn>, steps: seq<Option<Event>>, turn: Turn, step: Option<Event>, fd: nat,
                  limit: uint32)
    requires |turns| == |steps| && (InUse(EventsOf(steps), fd, limit) <==> IsHeld(turns, steps, fd, limit))
    requires Matches(turn, step, Run(0, EventsOf(steps), limit).list)
    requires PossibleRun(0, Then(EventsOf(steps), step), limit)
    ensures InUse(Then(EventsOf(steps), step), fd, limit) <==> IsHeld(turns + [turn], steps + [step], fd, limit)
  {
    InUseOneMore(EventsOf(steps), step, fd, limit);
    IsHeldOneMore(turns, steps, turn, step, fd, limit);
  }

  /** A socket is in use after any turns exactly when one of them has linked in a session that holds it. */
  lemma {:induction false} InUseExactly(turns: seq<Turn>, steps: seq<Option<Event>>, limit: uint32, fd: nat)
    requires Goes(turns, steps, limit)
    ensures InUse(EventsOf(steps), fd, limit) <==> IsHeld(turns, steps, fd, limit)
    decreases |turns|
  {
    if turns != [] {
      var last := |turns| - 1;
      GoesBefore(turns, steps, limit);
      InUseExactly(turns[..last], steps[..last], limit, fd);
      InUseMore(turns[..last], steps[..last], turns[last], steps[last], fd, limit);
      AllButLast(turns);
      AllButLast(steps);
    }
  }

  /** A session is linked in unless an earlier one still holds its socket. */
  lemma {:induction false} LinkedInExactly(turns: seq<Turn>, steps: seq<Option<Event>>, limit: uint32, i: nat)
    requires Goes(turns, steps, limit) && i < |turns| && turns[i].Accepted?
    ensures steps[i].None? <==> IsHeld(turns[..i], steps[..i], turns[i].sess.ctrlFd, limit)
  {
    GoesUpTo(turns, steps, limit, i + 1);
    GoesBefore(turns[..i + 1], steps[..i + 1], limit);
    TakeTake(turns, i + 1, i);
    TakeTake(steps, i + 1, i);
    InUseExactly(turns[..i], steps[..i], limit, turns[i].sess.ctrlFd);
  }

  // ---------- the sessions on the heap ----------

  /** The sessions of the listed nodes, in order. */
  function Owners(nodes: seq<ToNode>): (owners: seq<Session>)
    ensures |owners| == |nodes| && forall k :: 0 <= k < |nodes| ==> owners[k] == nodes[k].sess
  {
    if nodes == [] then [] else [nodes[0].sess] + Owners(nodes[1..])
  }

  lemma SameOwners(a: seq<ToNode>, b: seq<ToNode>)
    requires forall n :: n in a ==> n in b
    ensures forall s :: s in Owners(a) ==> s in Owners(b)
  {
    forall s | s in Owners(a)
      ensures s in Owners(b)
    {
      var k :| 0 <= k < |a| && Owners(a)[k] == s;
      assert a[k] in b;
      var j :| 0 <= j < |b| && b[j] == a[k];
      assert Owners(b)[j] == s;
    }
  }

  lemma {:induction false} FromBackMembers(nodes: seq<ToNode>)
    ensures forall s :: s in SessionsFromBack(nodes) <==> s in Owners(nodes)
  {
    if nodes != [] {
      FromBackMembers(nodes[1..]);
    }
  }

  /** These are the entries the policy has after these events, which are over by now. */
  ghost predicate Reached(events: seq<Event>, limit: uint32, now: int, list: seq<Entry>) {
    && PossibleRun(0, events, limit)
    && Run(0, events, limit).clock <= now && Run(0, events, limit).list == list
  }

  /** The list is the one of the policy after these events. */
  ghost predicate Follows(list: IdleList, events: seq<Event>)
    reads list, list.nodes, list.mapFdToNode
  {
    list.Valid() && Reached(events, list.idleTimeout, list.now, list.View())
  }

  lemma OneMoreEvent(events: seq<Event>, e: Event, limit: uint32)
    requires PossibleRun(0, events, limit) && Possible(Run(0, events, limit), e, limit)
    ensures PossibleRun(0, events + [e], limit)
    ensures var s := Run(0, events, limit);
      Run(0, events + [e], limit) ==
        State(ListStep(s.list, e, limit), TableStep(s.table, e, s.clock, limit), ClockStep(s.clock, e))
  {
    assert (events + [e])[..|events|] == events;
  }

  /** The round of a list that was up to date by a later clock than that of its last event. */
  lemma RoundFollows(events: seq<Event>, readings: seq<int>, before: int, limit: uint32)
    requires PossibleRun(0, events, limit) && Run(0, events, limit).clock <= before
    requires Possible(State(Run(0, events, limit).list, {}, before), IdleRound(readings), limit)
    ensures Possible(Run(0, events, limit), IdleRound(readings), limit)
  {
    MonotoneFromEarlier(readings, Run(0, events, limit).clock, before);
  }

  lemma RoundReached(events: seq<Event>, readings: seq<int>, before: int, now: int, limit: uint32,
                     list: seq<Entry>, list1: seq<Entry>)
    requires Reached(events, limit, before, list) && Latest(readings, before) <= now
    requires Possible(State(list, {}, before), IdleRound(readings), limit)
    requires list1 == ListStep(list, IdleRound(readings), limit)
    ensures Reached(events + [IdleRound(readings)], limit, now, list1)
  {
    RoundFollows(events, readings, before, limit);
    OneMoreEvent(events, IdleRound(readings), limit);
  }

  /** A round drops the nodes behind the `m`-th, and these are the ones not used recently enough. */
  lemma {:induction false} RoundOwner(nodes: seq<ToNode>, m: nat, k: nat, events: seq<Event>, readings: seq<int>,
                                      limit: uint32)
    requires m <= |nodes| && k < |nodes| && PossibleRun(0, events, limit)
    requires Entries(nodes) == Run(0, events, limit).list
    requires Possible(Run(0, events, limit), IdleRound(readings), limit)
    requires Entries(nodes)[..m] == ListStep(Entries(nodes), IdleRound(readings), limit)
    ensures k < m <==> Spared(Some(IdleRound(readings)), events, nodes[k].sess.ctrlFd, limit)
  {
    var list, fd := Entries(nodes), nodes[k].sess.ctrlFd;
    EntriesAt(nodes);
    ListRefinesTable(0, events, limit);
    FindIs(list, fd, k);
    SurvivesIffUsedRecently(0, events, readings, limit, fd);
    if k < m {
      FindIs(list[..m], fd, k);
    }
  }

  lemma CutOwners(nodes: seq<ToNode>, m: nat, k: nat)
    requires m <= |nodes| && k < |nodes| && Placed(nodes)
    ensures k < m <==> nodes[k].sess in Owners(nodes[..m])
    ensures k >= m <==> nodes[k].sess in Owners(nodes[m..])
  {
    DistinctNodes(nodes);
    assert k < m ==> Owners(nodes[..m])[k] == nodes[k].sess;
    assert k >= m ==> Owners(nodes[m..])[k - m] == nodes[k].sess;
  }

  lemma RoundOwners(nodes: seq<ToNode>, m: nat, events: seq<Event>, readings: seq<int>, limit: uint32)
    requires m <= |nodes| && PossibleRun(0, events, limit) && Placed(nodes)
    requires Entries(nodes) == Run(0, events, limit).list
    requires Possible(Run(0, events, limit), IdleRound(readings), limit)
    requires Entries(nodes)[..m] == ListStep(Entries(nodes), IdleRound(readings), limit)
    ensures forall s :: s in Owners(nodes) ==>
      && (s in Owners(nodes[..m]) <==> Spared(Some(IdleRound(readings)), events, s.ctrlFd, limit))
      && (s in Owners(nodes[m..]) <==> s !in Owners(nodes[..m]))
    ensures forall s :: s in Owners(nodes[..m]) || s in Owners(nodes[m..]) ==> s in Owners(nodes)
  {
    forall s | s in Owners(nodes)
      ensures s in Owners(nodes[..m]) <==> Spared(Some(IdleRound(readings)), events, s.ctrlFd, limit)
      ensures s in Owners(nodes[m..]) <==> s !in Owners(nodes[..m])
    {
      var k :| 0 <= k < |nodes| && Owners(nodes)[k] == s;
      RoundOwner(nodes, m, k, events, readings, limit);
      CutOwners(nodes, m, k);
    }
    SameOwners(nodes[..m], nodes);
    SameOwners(nodes[m..], nodes);
  }

  lemma EvictionEffect(step: Option<Event>, events: seq<Event>, limit: uint32,
                       owners: seq<Session>, kept: seq<Session>, gone: seq<Session>, closed: seq<Session>)
    requires forall s :: s in owners ==>
      (s in kept <==> Spared(step, events, s.ctrlFd, limit)) && (s in gone <==> s !in kept)
    requires forall s :: s in kept || s in gone ==> s in owners
    ensures Effect(Waited(0), step, events, limit, owners, closed, kept, closed + gone)
  {
  }

  lemma RoundEffect(nodes: seq<ToNode>, m: nat, events: seq<Event>, readings: seq<int>, limit: uint32,
                    closed: seq<Session>)
    requires m <= |nodes| && PossibleRun(0, events, limit) && Placed(nodes)
    requires Entries(nodes) == Run(0, events, limit).list
    requires Possible(Run(0, events, limit), IdleRound(readings), limit)
    requires Entries(nodes)[..m] == ListStep(Entries(nodes), IdleRound(readings), limit)
    ensures Effect(Waited(0), Some(IdleRound(readings)), events, limit,
                   Owners(nodes), closed, Owners(nodes[..m]), closed + SessionsFromBack(nodes[m..]))
  {
    RoundOwners(nodes, m, events, readings, limit);
    FromBackMembers(nodes[m..]);
    EvictionEffect(Some(IdleRound(readings)), events, limit,
                   Owners(nodes), Owners(nodes[..m]), SessionsFromBack(nodes[m..]), closed);
  }

  /** What a wait without events does to the sessions: the nodes behind the `m`-th are dropped. */
  lemma IdleServed(nodes: seq<ToNode>, m: nat, events: seq<Event>, readings: seq<int>, before: int,
                   limit: uint32, closed: seq<Session>)
    requires m <= |nodes| && Placed(nodes) && Reached(events, limit, before, Entries(nodes))
    requires Possible(State(Entries(nodes), {}, before), IdleRound(readings), limit)
    requires Entries(nodes[..m]) == ListStep(Entries(nodes), IdleRound(readings), limit)
    ensures Effect(Waited(0), Some(IdleRound(readings)), events, limit,
                   Owners(nodes), closed, Owners(nodes[..m]), closed + SessionsFromBack(nodes[m..]))
  {
    RoundFollows(events, readings, before, limit);
    EntriesOfFront(nodes, m);
    RoundEffect(nodes, m, events, readings, limit, closed);
  }

  lemma EntriesOfFront(nodes: seq<ToNode>, m: nat)
    requires m <= |nodes|
    ensures Entries(nodes)[..m] == Entries(nodes[..m])
  {
    EntriesAt(nodes);
    EntriesAt(nodes[..m]);
  }

  lemma ConnectEffect(sess: Session, now: int32, events: seq<Event>, limit: uint32,
                      owners: seq<Session>, owners1: seq<Session>, closed: seq<Session>)
    requires sess !in owners && sess !in closed && sess in owners1
    requires forall s :: s in owners ==> s in owners1
    requires forall s :: s in owners1 ==> s in owners || s == sess
    ensures Effect(Accepted(sess), Some(Connect(sess.ctrlFd, now)), events, limit, owners, closed, owners1, closed)
  {
  }

  lemma OneMoreOwner(nodes: seq<ToNode>, nodes1: seq<ToNode>)
    requires nodes1 != [] && forall n :: n in nodes1 <==> n == nodes1[0] || n in nodes
    ensures nodes1[0].sess in Owners(nodes1)
    ensures forall s :: s in Owners(nodes) ==> s in Owners(nodes1)
    ensures forall s :: s in Owners(nodes1) ==> s in Owners(nodes) || s == nodes1[0].sess
  {
    assert Owners(nodes1)[0] == nodes1[0].sess;
    SameOwners(nodes, nodes1);
    SameOwners(nodes1, [nodes1[0]] + nodes);
    assert forall s :: s in Owners([nodes1[0]] + nodes) ==> s in Owners(nodes) || s == nodes1[0].sess by {
      assert ([nodes1[0]] + nodes)[1..] == nodes;
    }
  }

  /** All that linking in a new session does. */
  lemma ConnectServed(nodes: seq<ToNode>, nodes1: seq<ToNode>, sess: Session, events: seq<Event>, now: int32,
                      before: int, limit: uint32, list: seq<Entry>, list1: seq<Entry>, closed: seq<Session>)
    requires sess !in Owners(nodes) && sess !in closed
    requires nodes1 != [] && nodes1[0].sess == sess && forall n :: n in nodes1 <==> n == nodes1[0] || n in nodes
    requires Reached(events, limit, before, list) && before <= now < CLOCK_END
    requires Find(list, sess.ctrlFd) == |list| && list1 == ListStep(list, Connect(sess.ctrlFd, now), limit)
    ensures Reached(events + [Connect(sess.ctrlFd, now)], limit, now, list1)
    ensures Effect(Accepted(sess), Some(Connect(sess.ctrlFd, now)), events, limit,
                   Owners(nodes), closed, Owners(nodes1), closed)
  {
    OneMoreEvent(events, Connect(sess.ctrlFd, now), limit);
    OneMoreOwner(nodes, nodes1);
    ConnectEffect(sess, now, events, limit, Owners(nodes), Owners(nodes1), closed);
  }

  // ---------- the turns ----------

  /** A session whose socket has no node is linked in. */
  method ServeNew(list: IdleList, sess: Session, ghost events: seq<Event>) returns (ghost step: Option<Event>)
    requires Follows(list, events) && sess.ctrlFd < MAX_SESSIONS && list.mapFdToNode[sess.ctrlFd] == null
    requires Find(list.View(), sess.ctrlFd) == |list.View()|
    requires sess !in list.closed && sess !in Owners(list.nodes)
    modifies list, list.nodes, list.mapFdToNode
    ensures step == Some(Connect(sess.ctrlFd, list.now)) && list.log == old(list.log) + [Reading(list.now)]
    ensures Follows(list, events + [Connect(sess.ctrlFd, list.now)])
    ensures Effect(Accepted(sess), step, events, list.idleTimeout,
                   old(Owners(list.nodes)), old(list.closed), Owners(list.nodes), list.closed)
    ensures forall k :: 0 <= k < |list.nodes| ==> list.nodes[k] in old(list.nodes) || fresh(list.nodes[k])
  {
    ghost var before, view, nodes := list.now, list.View(), list.nodes;
    list.AddToNode(sess);
    ConnectServed(nodes, list.nodes, sess, events, list.now, before, list.idleTimeout, view, list.View(), list.closed);
    step := Some(Connect(sess.ctrlFd, list.now));
  }

  method ServeAccepted(list: IdleList, sess: Session, ghost events: seq<Event>) returns (ghost step: Option<Event>)
    requires Follows(list, events)
    requires sess.ctrlFd < MAX_SESSIONS && sess !in list.closed && sess !in Owners(list.nodes)
    modifies list, list.nodes, list.mapFdToNode
    ensures Follows(list, Then(events, step))
    ensures Matches(Accepted(sess), step, Run(0, events, list.idleTimeout).list)
    ensures list.log == old(list.log) + if step.Some? then [Reading(step.value.now)] else []
    ensures Effect(Accepted(sess), step, events, list.idleTimeout,
                   old(Owners(list.nodes)), old(list.closed), Owners(list.nodes), list.closed)
    ensures forall k :: 0 <= k < |list.nodes| ==> list.nodes[k] in old(list.nodes) || fresh(list.nodes[k])
  {
    list.SlotsAreListed(sess.ctrlFd);
    if list.mapFdToNode[sess.ctrlFd] == null {
      step := ServeNew(list, sess, events);
    } else {
      step := None;
    }
  }

  lemma UseEffect(fd: nat, now: int32, events: seq<Event>, limit: uint32,
                  owners: seq<Session>, owners1: seq<Session>, closed: seq<Session>)
    requires (forall s :: s in owners ==> s in owners1) && forall s :: s in owners1 ==> s in owners
    ensures Effect(Input(fd), Some(Activity(fd, now)), events, limit, owners, closed, owners1, closed)
  {
  }

  /** All that input on a socket does. */
  lemma InputServed(nodes: seq<ToNode>, nodes1: seq<ToNode>, fd: nat, events: seq<Event>, now: int32,
                    before: int, limit: uint32, list: seq<Entry>, list1: seq<Entry>, closed: seq<Session>)
    requires forall n :: n in nodes1 <==> n in nodes
    requires Reached(events, limit, before, list) && before <= now < CLOCK_END
    requires list1 == ListStep(list, Activity(fd, now), limit)
    ensures Reached(events + [Activity(fd, now)], limit, now, list1)
    ensures Effect(Input(fd), Some(Activity(fd, now)), events, limit,
                   Owners(nodes), closed, Owners(nodes1), closed)
  {
    OneMoreEvent(events, Activity(fd, now), limit);
    SameOwners(nodes1, nodes);
    SameOwners(nodes, nodes1);
    UseEffect(fd, now, events, limit, Owners(nodes), Owners(nodes1), closed);
  }

  method ServeInput(list: IdleList, fd: nat, ghost events: seq<Event>) returns (ghost step: Option<Event>)
    requires Follows(list, events) && fd < MAX_SESSIONS
    modifies list, list.nodes, list.mapFdToNode
    ensures Follows(list, Then(events, step))
    ensures Matches(Input(fd), step, Run(0, events, list.idleTimeout).list)
    ensures list.log == old(list.log) + if old(list.mapFdToNode[fd]) == null then [] else [Reading(step.value.now)]
    ensures Effect(Input(fd), step, events, list.idleTimeout,
                   old(Owners(list.nodes)), old(list.closed), Owners(list.nodes), list.closed)
    ensures forall k :: 0 <= k < |list.nodes| ==> list.nodes[k] in old(list.nodes) || fresh(list.nodes[k])
  {
    ghost var before, view, nodes := list.now, list.View(), list.nodes;
    var r := list.RefreshTimeout(fd);
    InputServed(nodes, list.nodes, fd, events, list.now, before, list.idleTimeout, view, list.View(), list.closed);
    step := Some(Activity(fd, list.now));
  }

  /** A wait that ends with no event. */
  method ServeIdle(list: IdleList, ghost events: seq<Event>) returns (ghost step: Option<Event>, ghost asked: int32)
    requires Follows(list, events)
    modifies list, list.nodes, list.mapFdToNode
    ensures step.Some? && step.value.IdleRound? && Follows(list, Then(events, step))
    ensures old(list.View()) == [] ==> list.log == old(list.log) + [Wait(-1)]
    ensures old(list.View()) != [] ==>
      var bound := WaitTime(asked, old(list.View())[|old(list.View())| - 1].lastTime, list.idleTimeout);
      list.log == old(list.log) + [Reading(asked), Wait(bound)] + Readings(step.value.readings)
    ensures Effect(Waited(0), step, events, list.idleTimeout,
                   old(Owners(list.nodes)), old(list.closed), Owners(list.nodes), list.closed)
    ensures list.nodes <= old(list.nodes)
  {
    ghost var before, view, nodes, closed := list.now, list.View(), list.nodes, list.closed;
    ghost var readings;
    var r, bound;
    r, bound, asked, readings := list.EpollWaitTimeout(0);
    assert Entries(nodes) == view && list.nodes == nodes[..|list.nodes|];
    RoundReached(events, readings, before, list.now, list.idleTimeout, view, list.View());
    IdleServed(nodes, |list.nodes|, events, readings, before, list.idleTimeout, closed);
    step := Some(IdleRound(readings));
  }

  method ServeWait(list: IdleList, num: int32, ghost events: seq<Event>) returns (ghost step: Option<Event>)
    requires Follows(list, events)
    modifies list, list.nodes, list.mapFdToNode
    ensures Follows(list, Then(events, step))
    ensures Matches(Waited(num), step, Run(0, events, list.idleTimeout).list)
    ensures Effect(Waited(num), step, events, list.idleTimeout,
                   old(Owners(list.nodes)), old(list.closed), Owners(list.nodes), list.closed)
    ensures forall k :: 0 <= k < |list.nodes| ==> list.nodes[k] in old(list.nodes) || fresh(list.nodes[k])
  {
    if num == 0 {
      ghost var asked;
      step, asked := ServeIdle(list, events);
    } else {
      var r, bound, asked, readings := list.EpollWaitTimeout(num);
      step := None;
    }
  }

  /** Sockets are indices of the array from socket to node, and every session is a new one. */
  ghost predicate Admissible(turns: seq<Turn>) {
    forall i :: 0 <= i < |turns| ==>
      && (turns[i].Accepted? ==> turns[i].sess.ctrlFd < MAX_SESSIONS && turns[i] !in turns[..i])
      && (turns[i].Input? ==> turns[i].fd < MAX_SESSIONS)
  }

  /** One turn of the loop. */
  method ServeTurn(list: IdleList, turn: Turn, ghost events: seq<Event>) returns (ghost step: Option<Event>)
    requires Follows(list, events)
    requires turn.Accepted? ==>
      && turn.sess.ctrlFd < MAX_SESSIONS
      && turn.sess !in list.closed && turn.sess !in Owners(list.nodes)
    requires turn.Input? ==> turn.fd < MAX_SESSIONS
    modifies list, list.nodes, list.mapFdToNode
    ensures Follows(list, Then(events, step))
    ensures Matches(turn, step, Run(0, events, list.idleTimeout).list)
    ensures Effect(turn, step, events, list.idleTimeout,
                   old(Owners(list.nodes)), old(list.closed), Owners(list.nodes), list.closed)
    ensures forall k :: 0 <= k < |list.nodes| ==> list.nodes[k] in old(list.nodes) || fresh(list.nodes[k])
  {
    match turn {
      case Accepted(sess) => step := ServeAccepted(list, sess, events);
      case Input(fd) => step := ServeInput(list, fd, events);
      case Waited(num) => step := ServeWait(list, num, events);
    }
  }

  lemma IsNew(turns: seq<Turn>, i: nat, owners: seq<Session>, closed: seq<Session>)
    requires Admissible(turns) && i < |turns| && AllAccepted(turns[..i], owners) && AllAccepted(turns[..i], closed)
    ensures turns[i].Accepted? ==>
      turns[i] !in turns[..i] && turns[i].sess.ctrlFd < MAX_SESSIONS
      && turns[i].sess !in owners && turns[i].sess !in closed
    ensures turns[i].Input? ==> turns[i].fd < MAX_SESSIONS
  {
  }

  /** The next turn, and what has become of all sessions after it. */
  method ServeNext(list: IdleList, turns: seq<Turn>, i: nat, ghost steps: seq<Option<Event>>)
    returns (ghost step: Option<Event>)
    requires Admissible(turns) && i < |turns| && Follows(list, EventsOf(steps))
    requires Told(turns[..i], steps, list.idleTimeout, Owners(list.nodes), list.closed)
    modifies list, list.nodes, list.mapFdToNode
    ensures Follows(list, EventsOf(steps + [step]))
    ensures Told(turns[..i + 1], steps + [step], list.idleTimeout, Owners(list.nodes), list.closed)
    ensures forall k :: 0 <= k < |list.nodes| ==> list.nodes[k] in old(list.nodes) || fresh(list.nodes[k])
  {
    ghost var owners, closed := Owners(list.nodes), list.closed;
    IsNew(turns, i, owners, closed);
    step := ServeTurn(list, turns[i], EventsOf(steps));
    OneMoreTurn(turns, i, steps, step, list.idleTimeout, owners, closed, Owners(list.nodes), list.closed);
  }

  /** The main loop. Every turn makes its step of the policy, the list is the policy's after these
      steps, and so holds what the full scans would leave. A session that was accepted is still listed
      exactly when every idle round since has found it used recently enough, and it has been closed
      exactly when one has not. */
  method Serve(idleTimeout: uint32, turns: seq<Turn>) returns (list: IdleList, ghost steps: seq<Option<Event>>)
    requires Admissible(turns)
    ensures list.idleTimeout == idleTimeout
    ensures |steps| == |turns| && Trace(turns, steps, idleTimeout)
    ensures Follows(list, EventsOf(steps))
    ensures (set x | x in list.View()) == Run(0, EventsOf(steps), idleTimeout).table
    ensures Accounted(turns, steps, Owners(list.nodes), list.closed, idleTimeout)
    ensures AllAccepted(turns, Owners(list.nodes)) && AllAccepted(turns, list.closed)
  {
    list := new IdleList(idleTimeout);
    steps := [];
    for i := 0 to |turns|
      invariant Follows(list, EventsOf(steps)) && list.idleTimeout == idleTimeout
      invariant Told(turns[..i], steps, idleTimeout, Owners(list.nodes), list.closed)
      invariant fresh(list) && fresh(list.mapFdToNode)
      invariant forall k :: 0 <= k < |list.nodes| ==> fresh(list.nodes[k])
    {
      ghost var step := ServeNext(list, turns, i, steps);
      steps := steps + [step];
    }
    assert turns[..|turns|] == turns;
    ListRefinesTable(0, EventsOf(steps), idleTimeout);
  }
}
