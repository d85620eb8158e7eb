/**
 The idle-timeout list of ftpepoll.cpp on the heap: nodes linked by `left` and `right` between
 `pMRU` and `pLRU`, and the array from socket to node. The predicates follow the list from its
 front; lemmas give their position-by-position form.
 */
module IdleList {
  import opened MachineInts
  import opened IdlePolicy
  import opened IdleRuns
  import opened Seqs
  import opened Sessions

  const MAX_SESSIONS := 1200

  class ToNode {
    const sess: Session
    var lastTime: int32
    var left: ToNode?
    var right: ToNode?

    constructor (sess: Session, t: int32)
      ensures this.sess == sess && lastTime == t && left == null && right == null
    {
      this.sess, lastTime, left, right := sess, t, null, null;
    }
  }

  /** One chain: `right` leads from each node to the next, and `left` back again. */
  ghost predicate Chained(nodes: seq<ToNode>)
    reads nodes`left, nodes`right
  {
    && (forall i {:trigger nodes[i].left} :: 0 <= i < |nodes| ==>
          nodes[i].left == if i == 0 then null else nodes[i - 1])
    && (forall i {:trigger nodes[i].right} :: 0 <= i < |nodes| ==>
          nodes[i].right == if i == |nodes| - 1 then null else nodes[i + 1])
  }

  function First(nodes: seq<ToNode>): ToNode? {
    if nodes == [] then null else nodes[0]
  }

  function Last(nodes: seq<ToNode>): ToNode? {
    if nodes == [] then null else nodes[|nodes| - 1]
  }

  /** A chain whose links lead past its k-th node. */
  ghost predicate Bridged(nodes: seq<ToNode>, k: nat)
    requires k < |nodes|
    reads nodes`left, nodes`right
  {
    && (forall i {:trigger nodes[i].left} :: 0 <= i < |nodes| && i != k ==>
          nodes[i].left == var j := if i == k + 1 then k - 1 else i - 1; if j < 0 then null else nodes[j])
    && (forall i {:trigger nodes[i].right} :: 0 <= i < |nodes| && i != k ==>
          nodes[i].right == var j := if i + 1 == k then k + 1 else i + 1; if j == |nodes| then null else nodes[j])
  }

  lemma BridgedIsChained(nodes: seq<ToNode>, k: nat)
    requires k < |nodes| && Bridged(nodes, k)
    ensures Chained(Without(nodes, k))
    ensures First(Without(nodes, k)) == if k > 0 then nodes[0] else if |nodes| == 1 then null else nodes[1]
    ensures Last(Without(nodes, k)) ==
      if k + 1 < |nodes| then nodes[|nodes| - 1] else if k == 0 then null else nodes[k - 1]
  {
    var rest := Without(nodes, k);
    forall i | 0 <= i < |rest|
      ensures rest[i].left == if i == 0 then null else rest[i - 1]
      ensures rest[i].right == if i == |rest| - 1 then null else rest[i + 1]
    {
      assert rest[i] == nodes[if i < k then i else i + 1];
      assert i > 0 ==> rest[i - 1] == nodes[if i - 1 < k then i - 1 else i];
      assert i + 1 < |rest| ==> rest[i + 1] == nodes[if i + 1 < k then i + 1 else i + 2];
    }
  }

  ghost function Entries(nodes: seq<ToNode>): (list: seq<Entry>)
    reads nodes`lastTime
    ensures |list| == |nodes|
  {
    if nodes == [] then []
    else [Entry(nodes[0].sess.ctrlFd, nodes[0].lastTime)] + Entries(nodes[1..])
  }

  /** The contents of the array from socket to node when exactly these nodes are listed. */
  ghost function SlotsFor(nodes: seq<ToNode>): (slots: seq<ToNode?>)
    ensures |slots| == MAX_SESSIONS
  {
    if nodes == [] then seq(MAX_SESSIONS, _ => null)
    else
      var fd := nodes[0].sess.ctrlFd;
      if fd < MAX_SESSIONS then SlotsFor(nodes[1..])[fd := nodes[0]] else SlotsFor(nodes[1..])
  }

  /** Every listed node has a slot of its own. */
  ghost predicate Placed(nodes: seq<ToNode>) {
    nodes != [] ==>
      && nodes[0].sess.ctrlFd < MAX_SESSIONS
      && SlotsFor(nodes[1..])[nodes[0].sess.ctrlFd] == null
      && Placed(nodes[1..])
  }

  /** No listed session has been closed and freed. */
  ghost predicate Live(nodes: seq<ToNode>, closed: seq<Session>) {
    nodes != [] ==> nodes[0].sess !in closed && Live(nodes[1..], closed)
  }

  // ---------- the same facts, position by position ----------

  /** The array is non-null exactly at the sockets of listed nodes, and leads to those nodes. */
  lemma {:induction false} SlotsAt(nodes: seq<ToNode>)
    requires Placed(nodes)
    ensures forall i :: 0 <= i < |nodes| ==>
      nodes[i].sess.ctrlFd < MAX_SESSIONS && SlotsFor(nodes)[nodes[i].sess.ctrlFd] == nodes[i]
    ensures forall fd :: 0 <= fd < MAX_SESSIONS && SlotsFor(nodes)[fd] != null ==>
      SlotsFor(nodes)[fd] in nodes && SlotsFor(nodes)[fd].sess.ctrlFd == fd
  {
    if nodes != [] {
      var rest := nodes[1..];
      SlotsAt(rest);
      assert forall i :: 1 <= i < |nodes| ==> nodes[i] == rest[i - 1];
    }
  }

  lemma {:induction false} DistinctNodes(nodes: seq<ToNode>)
    requires Placed(nodes)
    ensures forall i, j :: 0 <= i < j < |nodes| ==> nodes[i].sess.ctrlFd != nodes[j].sess.ctrlFd
  {
    if nodes != [] {
      var rest := nodes[1..];
      DistinctNodes(rest);
      SlotsAt(rest);
      assert forall i :: 1 <= i < |nodes| ==> nodes[i] == rest[i - 1];
    }
  }

  lemma NoDuplicates(nodes: seq<ToNode>)
    requires Placed(nodes)
    ensures NoDup(nodes)
  {
    DistinctNodes(nodes);
  }

  lemma {:induction false} EntriesAt(nodes: seq<ToNode>)
    ensures forall i :: 0 <= i < |nodes| ==> Entries(nodes)[i] == Entry(nodes[i].sess.ctrlFd, nodes[i].lastTime)
  {
    if nodes != [] {
      var rest := nodes[1..];
      EntriesAt(rest);
      assert forall i :: 1 <= i < |nodes| ==> nodes[i] == rest[i - 1];
    }
  }

  // ---------- taking one node out ----------

  lemma {:induction false} EntriesCut(nodes: seq<ToNode>, k: nat)
    requires k < |nodes|
    ensures Entries(Without(nodes, k)) == Without(Entries(nodes), k)
  {
    EntriesAt(nodes);
    EntriesAt(Without(nodes, k));
  }

  lemma {:induction false} SlotsCut(nodes: seq<ToNode>, k: nat)
    requires Placed(nodes) && k < |nodes|
    ensures nodes[k].sess.ctrlFd < MAX_SESSIONS && SlotsFor(nodes)[nodes[k].sess.ctrlFd] == nodes[k]
    ensures Placed(Without(nodes, k))
    ensures SlotsFor(Without(nodes, k)) == SlotsFor(nodes)[nodes[k].sess.ctrlFd := null]
    ensures nodes[k] !in Without(nodes, k)
  {
    if k == 0 {
      SlotsAt(nodes);
      DistinctNodes(nodes);
      assert Without(nodes, k) == nodes[1..];
    } else {
      SlotsCut(nodes[1..], k - 1);
      WithoutTail(nodes, k);
    }
  }

  lemma {:induction false} LiveCut(nodes: seq<ToNode>, k: nat, closed: seq<Session>)
    requires Live(nodes, closed) && k < |nodes|
    ensures Live(Without(nodes, k), closed) && nodes[k].sess !in closed
  {
    if k == 0 {
      assert Without(nodes, k) == nodes[1..];
    } else {
      LiveCut(nodes[1..], k - 1, closed);
      WithoutTail(nodes, k);
    }
  }

  lemma {:induction false} LiveAfterClose(nodes: seq<ToNode>, closed: seq<Session>, s: Session)
    requires Live(nodes, closed) && Placed(nodes)
    requires s.ctrlFd < MAX_SESSIONS && SlotsFor(nodes)[s.ctrlFd] == null
    ensures Live(nodes, closed + [s])
  {
    if nodes != [] {
      LiveAfterClose(nodes[1..], closed, s);
    }
  }

  lemma NotListed(nodes: seq<ToNode>, fd: nat)
    requires Placed(nodes) && fd < MAX_SESSIONS && SlotsFor(nodes)[fd] == null
    ensures Find(Entries(nodes), fd) == |Entries(nodes)|
  {
    SlotsAt(nodes);
    EntriesAt(nodes);
  }

  /** Where a socket's node is. */
  lemma Listed(nodes: seq<ToNode>, fd: nat) returns (k: nat)
    requires Placed(nodes) && fd < MAX_SESSIONS && SlotsFor(nodes)[fd] != null
    ensures k < |nodes| && nodes[k] == SlotsFor(nodes)[fd] && nodes[k].sess.ctrlFd == fd
    ensures Find(Entries(nodes), fd) == k
  {
    SlotsAt(nodes);
    EntriesAt(nodes);
    DistinctNodes(nodes);
    k :| 0 <= k < |nodes| && nodes[k] == SlotsFor(nodes)[fd];
    FindIs(Entries(nodes), fd, k);
  }

  /** Moving a node to the front leaves the array right. */
  lemma MovedUp(nodes: seq<ToNode>, closed: seq<Session>, k: nat)
    requires Placed(nodes) && Live(nodes, closed) && k < |nodes|
    ensures nodes[k] !in Without(nodes, k) && Entries(Without(nodes, k)) == Without(Entries(nodes), k)
    ensures var moved := [nodes[k]] + Without(nodes, k);
      Placed(moved) && SlotsFor(moved) == SlotsFor(nodes) && Live(moved, closed)
  {
    SlotsCut(nodes, k);
    EntriesCut(nodes, k);
    LiveCut(nodes, k, closed);
    assert ([nodes[k]] + Without(nodes, k))[1..] == Without(nodes, k);
  }

  /** The list after a request on a listed socket. */
  lemma Touched(nodes: seq<ToNode>, closed: seq<Session>, fd: nat, before: int, t: int32, limit: uint32)
    returns (k: nat, moved: seq<ToNode>, after: seq<Entry>)
    requires Placed(nodes) && Live(nodes, closed) && fd < MAX_SESSIONS && SlotsFor(nodes)[fd] != null
    requires InOrder(Entries(nodes), before) && 0 <= before <= t
    ensures k < |nodes| && nodes[k] == SlotsFor(nodes)[fd] && nodes[k].sess.ctrlFd == fd
    ensures moved == [nodes[k]] + Without(nodes, k) && after == [Entry(fd, t)] + Entries(Without(nodes, k))
    ensures Placed(moved) && SlotsFor(moved) == SlotsFor(nodes) && Live(moved, closed)
    ensures after == ListStep(Entries(nodes), Activity(fd, t), limit) && InOrder(after, t)
  {
    k := Listed(nodes, fd);
    MovedUp(nodes, closed, k);
    TouchKeepsOrder(Entries(nodes), fd, before, t, limit);
    moved, after := [nodes[k]] + Without(nodes, k), [Entry(fd, t)] + Entries(Without(nodes, k));
  }

  /** What dropping the last node leaves. */
  lemma Dropped(nodes: seq<ToNode>, closed: seq<Session>)
    requires Placed(nodes) && Live(nodes, closed) && nodes != []
    ensures var last, front := nodes[|nodes| - 1], nodes[..|nodes| - 1];
      && last.sess.ctrlFd < MAX_SESSIONS
      && Placed(front) && SlotsFor(front) == SlotsFor(nodes)[last.sess.ctrlFd := null]
      && Live(front, closed + [last.sess])
      && Entries(front) == Entries(nodes)[..|nodes| - 1]
    ensures NoDup(nodes)
  {
    var k := |nodes| - 1;
    assert Without(nodes, k) == nodes[..k] && Without(Entries(nodes), k) == Entries(nodes)[..k];
    SlotsCut(nodes, k);
    EntriesCut(nodes, k);
    LiveCut(nodes, k, closed);
    LiveAfterClose(nodes[..k], closed, nodes[k].sess);
    NoDuplicates(nodes);
  }

  lemma LastEntry(nodes: seq<ToNode>)
    requires nodes != []
    ensures var last := nodes[|nodes| - 1];
      Entries(nodes)[|nodes| - 1] == Entry(last.sess.ctrlFd, last.lastTime)
  {
    EntriesAt(nodes);
  }

  /** The sessions of these nodes, last node first. */
  function SessionsFromBack(nodes: seq<ToNode>): seq<Session> {
    if nodes == [] then [] else SessionsFromBack(nodes[1..]) + [nodes[0].sess]
  }

  /** The nodes behind `nodes` have been dropped, and their sessions closed from the back. */
  ghost predicate ClosedOff(all: seq<ToNode>, nodes: seq<ToNode>, before: seq<Session>, closed: seq<Session>) {
    nodes <= all && closed == before + SessionsFromBack(all[|nodes|..])
  }

  lemma CloseOneMore(all: seq<ToNode>, nodes: seq<ToNode>, before: seq<Session>, closed: seq<Session>)
    requires ClosedOff(all, nodes, before, closed) && nodes != []
    ensures ClosedOff(all, nodes[..|nodes| - 1], before, closed + [nodes[|nodes| - 1].sess])
  {
    assert all[|nodes| - 1..][1..] == all[|nodes|..];
  }

  /** What the list asks of its surroundings: a reading of the clock, or a wait with a bound. */
  datatype Tick = Reading(t: int) | Wait(bound: int)

  function Readings(ts: seq<int>): (ticks: seq<Tick>)
    ensures |ticks| == |ts| && forall i :: 0 <= i < |ts| ==> ticks[i] == Reading(ts[i])
  {
    if ts == [] then [] else Readings(ts[..|ts| - 1]) + [Reading(ts[|ts| - 1])]
  }

  lemma OneMoreReading(log: seq<Tick>, ts: seq<int>, t: int)
    ensures log + Readings(ts + [t]) == log + Readings(ts) + [Reading(t)]
  {
    assert (ts + [t])[..|ts|] == ts;
  }

  class IdleList {
    var pMRU: ToNode?
    var pLRU: ToNode?
    const mapFdToNode: array<ToNode?>
    const idleTimeout: uint32
    var now: int32                  // the clock behind get_time_sec
    var closed: seq<Session>        // sessions handed to closeSess, in order
    ghost var nodes: seq<ToNode>    // from pMRU to pLRU
    ghost var log: seq<Tick>        // every reading and every wait, in order

    /** The chain and its two ends, which are null together. */
    ghost predicate Linked()
      reads this`pMRU, this`pLRU, this`nodes, nodes`left, nodes`right
    {
      Chained(nodes) && pMRU == First(nodes) && pLRU == Last(nodes)
    }

    ghost predicate Valid()
      reads this, nodes, mapFdToNode
    {
      && Linked() && Placed(nodes) && mapFdToNode[..] == SlotsFor(nodes)
      && Live(nodes, closed)
      && 0 <= now < CLOCK_END
      && InOrder(View(), now)
    }

    ghost function View(): (list: seq<Entry>)
      reads this`nodes, nodes`lastTime
      ensures |list| == |nodes|
    {
      Entries(nodes)
    }

    constructor (idleTimeout: uint32)
      ensures Valid() && nodes == [] && closed == [] && log == [] && this.idleTimeout == idleTimeout
      ensures fresh(mapFdToNode) && mapFdToNode.Length == 1200
    {
      pMRU, pLRU, now := null, null, 0;
      mapFdToNode := new ToNode?[MAX_SESSIONS](_ => null);
      this.idleTimeout := idleTimeout;
      nodes, closed, log := [], [], [];
    }

    /** `get_time_sec`: any amount of time may pass before a reading, none is taken back. */
    method GetTimeSec() returns (t: int32)
      requires 0 <= now < CLOCK_END
      modifies this`now, this`log
      ensures old(now) <= now < CLOCK_END && t == now && log == old(log) + [Reading(t)]
    {
      var later: int32 :| now <= later < CLOCK_END;
      now := later;
      t := now;
      log := log + [Reading(t)];
    }

    /** `Epoll_wait`, with the answer `num`. */
    method EpollWait(bound: int32, num: int32) returns (r: int32)
      modifies this`log
      ensures r == num && log == old(log) + [Wait(bound)]
    {
      log := log + [Wait(bound)];
      r := num;
    }

    method LinkMRU(node: ToNode)
      requires Linked() && Placed(nodes) && node !in nodes
      modifies this`pMRU, this`pLRU, this`nodes, node`left, node`right, nodes`left
      ensures Linked() && nodes == [node] + old(nodes)
    {
      NoDuplicates(nodes);
      node.right := pMRU;
      node.left := null;
      if pMRU != null {
        pMRU.left := node;
      }
      pMRU := node;
      if pLRU == null {
        pLRU := node;
      }
      nodes := [node] + nodes;
    }

    /** The links and the ends lead past a node. */
    method Bypass(node: ToNode, ghost k: nat)
      requires Linked() && NoDup(nodes) && k < |nodes| && nodes[k] == node
      modifies this`pMRU, this`pLRU, nodes`left, nodes`right
      ensures Bridged(nodes, k) && node.left == null && node.right == null
      ensures pMRU == if k > 0 then nodes[0] else if |nodes| == 1 then null else nodes[1]
      ensures pLRU == if k + 1 < |nodes| then nodes[|nodes| - 1] else if k == 0 then null else nodes[k - 1]
    {
      if node.left != null {
        node.left.right := node.right;
      } else {
        pMRU := node.right;
      }
      if node.right != null {
        node.right.left := node.left;
      } else {
        pLRU := node.left;
      }
      node.left, node.right := null, null;
    }

    method UnlinkNode(node: ToNode, ghost k: nat)
      requires Linked() && NoDup(nodes) && k < |nodes| && nodes[k] == node
      modifies this`pMRU, this`pLRU, this`nodes, nodes`left, nodes`right
      ensures Linked() && nodes == Without(old(nodes), k)
      ensures node.left == null && node.right == null
    {
      Bypass(node, k);
      BridgedIsChained(nodes, k);
      nodes := Without(nodes, k);
    }

    /** `unlinkNode` and `linkMRU` in a row. */
    method Relink(node: ToNode, ghost k: nat)
      requires Linked() && Placed(nodes) && k < |nodes| && nodes[k] == node
      modifies this`pMRU, this`pLRU, this`nodes, nodes`left, nodes`right
      ensures Linked() && nodes == [node] + Without(old(nodes), k)
    {
      SlotsCut(nodes, k);
      NoDuplicates(nodes);
      UnlinkNode(node, k);
      LinkMRU(node);
    }

    /** The part of `refreshTimeout` that follows the lookup and the clock reading. */
    method MoveToFront(node: ToNode, t: int32, ghost k: nat, ghost moved: seq<ToNode>, ghost after: seq<Entry>)
      requires Linked() && Placed(nodes) && k < |nodes| && nodes[k] == node
      requires moved == [node] + Without(nodes, k)
      requires after == [Entry(node.sess.ctrlFd, t)] + Entries(Without(nodes, k))
      modifies this`pMRU, this`pLRU, this`nodes, nodes
      ensures Linked() && nodes == moved && View() == after
    {
      ghost var rest := Without(nodes, k);
      assert node !in rest by {
        SlotsCut(nodes, k);
      }
      node.lastTime := t;
      Relink(node, k);
      assert nodes[1..] == rest && Entries(rest) == old(Entries(rest));
    }

    /** `newToNode` and `linkMRU`. */
    method LinkNew(sess: Session, sec: int32) returns (node: ToNode)
      requires Linked() && Placed(nodes)
      modifies this`pMRU, this`pLRU, this`nodes, nodes`left
      ensures Linked() && nodes == [node] + old(nodes) && nodes[1..] == old(nodes)
      ensures fresh(node) && node.sess == sess
      ensures View() == [Entry(sess.ctrlFd, sec)] + old(View())
    {
      ghost var before := nodes;
      node := new ToNode(sess, sec);
      LinkMRU(node);
      assert nodes[1..] == before;
    }

    method AddToNode(sess: Session)
      requires Valid() && sess !in closed
      requires sess.ctrlFd < MAX_SESSIONS && mapFdToNode[sess.ctrlFd] == null
      modifies this`now, this`log, this`pMRU, this`pLRU, this`nodes, nodes`left, mapFdToNode
      ensures Valid() && old(now) <= now
      ensures View() == ListStep(old(View()), Connect(sess.ctrlFd, now), idleTimeout)
      ensures log == old(log) + [Reading(now)]
      ensures |nodes| == |old(nodes)| + 1 && fresh(nodes[0]) && nodes[0].sess == sess
      ensures forall n :: n in nodes <==> n == nodes[0] || n in old(nodes)
    {
      var sec := GetTimeSec();
      UsedInFront(sess.ctrlFd, sec, View(), old(now));
      var node := LinkNew(sess, sec);
      mapFdToNode[sess.ctrlFd] := node;
    }

    /** The part of `refreshTimeout` that follows the lookup. */
    method RefreshNode(fd: nat, node: ToNode) returns (ghost k: nat)
      requires Valid() && fd < MAX_SESSIONS && mapFdToNode[fd] == node
      modifies this`now, this`log, this`pMRU, this`pLRU, this`nodes, nodes
      ensures Valid() && old(now) <= now
      ensures View() == ListStep(old(View()), Activity(fd, now), idleTimeout)
      ensures log == old(log) + [Reading(now)]
      ensures k < |old(nodes)| && nodes == [old(nodes)[k]] + Without(old(nodes), k)
    {
      var t := GetTimeSec();
      ghost var moved, after;
      k, moved, after := Touched(nodes, closed, fd, old(now), t, idleTimeout);
      MoveToFront(node, t, k, moved, after);
    }

    method RefreshTimeout(fd: nat) returns (r: int)
      requires Valid() && fd < MAX_SESSIONS
      modifies this`now, this`log, this`pMRU, this`pLRU, this`nodes, nodes
      ensures Valid() && old(now) <= now
      ensures View() == ListStep(old(View()), Activity(fd, now), idleTimeout)
      ensures r == if mapFdToNode[fd] == null then -1 else 0
      ensures r == -1 ==> nodes == old(nodes) && now == old(now)
      ensures log == if r == -1 then old(log) else old(log) + [Reading(now)]
      ensures forall n :: n in nodes <==> n in old(nodes)
    {
      if mapFdToNode[fd] == null {
        NotListed(nodes, fd);
        return -1;
      }
      ghost var k := RefreshNode(fd, mapFdToNode[fd]);
      WithoutSame(old(nodes), k);
      r := 0;
    }

    /** The position-by-position reading of the array: exactly the listed sockets have a node. */
    lemma SlotsAreListed(fd: nat)
      requires Valid() && fd < MAX_SESSIONS
      ensures mapFdToNode[fd] != null <==> Find(View(), fd) < |View()|
      ensures mapFdToNode[fd] != null ==>
        mapFdToNode[fd] == nodes[Find(View(), fd)] && mapFdToNode[fd].sess.ctrlFd == fd
    {
      if mapFdToNode[fd] == null {
        NotListed(nodes, fd);
      } else {
        var k := Listed(nodes, fd);
      }
    }

    method UnlinkLast(node: ToNode)
      requires Linked() && NoDup(nodes) && nodes != [] && node == pLRU
      modifies this`pMRU, this`pLRU, this`nodes, nodes`left, nodes`right
      ensures Linked() && nodes == old(nodes)[..|old(nodes)| - 1]
      ensures node.left == null && node.right == null
    {
      assert Without(nodes, |nodes| - 1) == nodes[..|nodes| - 1];
      UnlinkNode(node, |nodes| - 1);
    }

    /** `removeToNode`, for the node at the least recently used end. */
    method RemoveToNode(rmNode: ToNode)
      requires Valid() && rmNode == pLRU && nodes != []
      modifies this`pMRU, this`pLRU, this`nodes, this`closed, nodes`left, nodes`right, mapFdToNode
      ensures Valid()
      ensures nodes == old(nodes)[..|old(nodes)| - 1] && View() == old(View())[..|old(View())| - 1]
      ensures closed == old(closed) + [rmNode.sess]
      ensures rmNode.left == null && rmNode.right == null
    {
      Dropped(nodes, closed);
      PrefixInOrder(View(), |nodes| - 1, now);
      mapFdToNode[rmNode.sess.ctrlFd] := null;
      closed := closed + [rmNode.sess];
      UnlinkLast(rmNode);
    }

    /** `isTimeout`, in its only use: on the node at the least recently used end. */
    method IsTimeout() returns (timedOut: bool, t: int32)
      requires Valid() && pLRU != null
      modifies this`now, this`log
      ensures old(now) <= now && t == now && Valid() && log == old(log) + [Reading(t)]
      ensures timedOut == TimedOut(t, View()[|View()| - 1].lastTime, idleTimeout)
    {
      LastEntry(nodes);
      t := GetTimeSec();
      timedOut := TimedOut(t, pLRU.lastTime, idleTimeout);
    }

    /** The node at the least recently used end goes, and its session is the next one closed. */
    method EvictOne(ghost all: seq<ToNode>, ghost before: seq<Session>)
      requires Valid() && nodes != [] && ClosedOff(all, nodes, before, closed)
      modifies this`pMRU, this`pLRU, this`nodes, this`closed, nodes`left, nodes`right, mapFdToNode
      ensures Valid() && ClosedOff(all, nodes, before, closed)
      ensures nodes == old(nodes)[..|old(nodes)| - 1] && View() == old(View())[..|old(View())| - 1]
    {
      CloseOneMore(all, nodes, before, closed);
      RemoveToNode(pLRU);
    }

    /** One pass through the loop of `epoll_wait_timeout`: `list` and `all` are what was listed
        when the round began. */
    method TryEvict(ghost list: seq<Entry>, ghost all: seq<ToNode>, ghost before: seq<Session>,
                    ghost readings: seq<int>, ghost from: int) returns (evicted: bool, t: int32)
      requires Valid() && pLRU != null && now == Latest(readings, from)
      requires UnderWay(list, View(), readings, from, idleTimeout) && ClosedOff(all, nodes, before, closed)
      modifies this`now, this`log, this`pMRU, this`pLRU, this`nodes, this`closed, nodes`left, nodes`right, mapFdToNode
      ensures Valid() && now == t && old(now) <= now && log == old(log) + [Reading(t)]
      ensures ClosedOff(all, nodes, before, closed)
      ensures evicted ==>
        && nodes == old(nodes)[..|old(nodes)| - 1]
        && UnderWay(list, View(), readings + [t], from, idleTimeout)
      ensures !evicted ==>
        && nodes == old(nodes)
        && Monotone(readings + [t], from) && CompleteRound(list, readings + [t], idleTimeout)
        && View() == EvictFromBack(list, readings + [t], idleTimeout)
    {
      evicted, t := IsTimeout();
      if evicted {
        PopOneMore(list, View(), readings, from, t, idleTimeout);
        EvictOne(all, before);
      } else {
        RoundEnds(list, View(), readings, [t], from, idleTimeout);
      }
    }

    /** The loop of `epoll_wait_timeout`. */
    method EvictTimedOut() returns (ghost readings: seq<int>)
      requires Valid()
      modifies this`now, this`log, this`pMRU, this`pLRU, this`nodes, this`closed, nodes`left, nodes`right, mapFdToNode
      ensures Valid() && now == Latest(readings, old(now)) && log == old(log) + Readings(readings)
      ensures Monotone(readings, old(now)) && CompleteRound(old(View()), readings, idleTimeout)
      ensures View() == EvictFromBack(old(View()), readings, idleTimeout)
      ensures ClosedOff(old(nodes), nodes, old(closed), closed)
    {
      readings := [];
      ghost var list, all := View(), nodes;
      while pLRU != null
        invariant Valid() && now == Latest(readings, old(now)) && log == old(log) + Readings(readings)
        invariant UnderWay(list, View(), readings, old(now), idleTimeout)
        invariant ClosedOff(all, nodes, old(closed), closed)
        decreases |nodes|
      {
        var evicted, t := TryEvict(list, all, old(closed), readings, old(now));
        OneMoreReading(old(log), readings, t);
        readings := readings + [t];
        if !evicted {
          return;
        }
      }
      RoundEnds(list, [], readings, [], old(now), idleTimeout);
      assert readings + [] == readings;
    }

    /** The loop as an idle round of the policy, for a list that was up to date at time `from`. */
    method EvictSince(ghost from: int) returns (ghost readings: seq<int>)
      requires Valid() && InOrder(View(), from) && 0 <= from <= now
      modifies this`now, this`log, this`pMRU, this`pLRU, this`nodes, this`closed, nodes`left, nodes`right, mapFdToNode
      ensures Valid() && old(now) <= now && Latest(readings, from) <= now
      ensures log == old(log) + Readings(readings)
      ensures Possible(State(old(View()), {}, from), IdleRound(readings), idleTimeout)
      ensures View() == ListStep(old(View()), IdleRound(readings), idleTimeout)
      ensures ClosedOff(old(nodes), nodes, old(closed), closed)
    {
      readings := EvictTimedOut();
      MonotoneFromEarlier(readings, from, old(now));
      LatestInRange(readings, old(now));
    }

    /** The wait of `epoll_wait_timeout` for a list that is not empty: the clock is read for its bound. */
    method WaitForFirst(num: int32) returns (r: int32, bound: int32, t: int32)
      requires Valid() && pLRU != null
      modifies this`now, this`log
      ensures Valid() && r == num && old(now) <= now && t == now
      ensures bound == WaitTime(t, View()[|View()| - 1].lastTime, idleTimeout)
      ensures log == old(log) + [Reading(t), Wait(bound)]
    {
      LastEntry(nodes);
      t := GetTimeSec();
      bound := WaitTime(t, pLRU.lastTime, idleTimeout);
      r := EpollWait(bound, num);
    }

    /** `epoll_wait_timeout`, where the wait itself answers `num`: the bound it is given, and what
        becomes of the list. The clock is read for the bound, and after the wait for every test. */
    method EpollWaitTimeout(num: int32) returns (r: int, bound: int32, ghost asked: int32, ghost readings: seq<int>)
      requires Valid()
      modifies this`now, this`log, this`pMRU, this`pLRU, this`nodes, this`closed
      modifies nodes`left, nodes`right, mapFdToNode
      ensures Valid() && r == num && old(now) <= now
      ensures old(View()) == [] || num != 0 ==>
        View() == old(View()) && nodes == old(nodes) && closed == old(closed) && readings == []
      ensures old(View()) == [] ==> bound == -1 && log == old(log) + [Wait(-1)]
      ensures old(View()) != [] ==>
        && old(now) <= asked <= now
        && bound == WaitTime(asked, old(View())[|old(View())| - 1].lastTime, idleTimeout)
        && log == old(log) + [Reading(asked), Wait(bound)] + Readings(readings)
      ensures num == 0 ==>
        && Possible(State(old(View()), {}, old(now)), IdleRound(readings), idleTimeout)
        && View() == ListStep(old(View()), IdleRound(readings), idleTimeout)
        && now >= Latest(readings, old(now))
        && ClosedOff(old(nodes), nodes, old(closed), closed)
    {
      readings, asked := [], 0;
      if pLRU == null {
        r := EpollWait(-1, num);
        return r, -1, asked, readings;
      }
      var answer, t;
      answer, bound, t := WaitForFirst(num);
      asked := t;
      if answer == 0 {
        readings := EvictSince(old(now));
      }
      r := answer;
    }
  }
}
