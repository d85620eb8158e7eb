/**
 The protocol state of a session: the passive listener, the data connection, the restart offset
 and the pending rename, driven by commands one after the other and by data connections.
 */
module SessionProtocol {
  import opened MachineInts
  import opened Numerals
  import opened Sessions
  import opened StreamIo
  import opened Transfers

  datatype State = State(pasv: int, data: int, restart: int64, rnfr: Option<string>)

  /** `init_session`. */
  const INIT := State(NO_FD, NO_FD, 0, None)

  datatype Event =
    | Pasv(listener: nat)       // PASV, with the listener it opens
    | DataConn(accepted: int)   // a connection on the listener, with the result of accept
    | List
    | Retr(lookup: Lookup)
    | Stor(lookup: Lookup)
    | Rest(arg: string)
    | Rnfr(name: string)
    | Rnto(name: string)
    | Other                     // any command that leaves this state alone

  datatype Output =
    | Nothing
    | Exit                      // the server gives up: a data event without a listener
    | Listed
    | Attempt(offset: int64, started: bool)
    | Renamed(oldName: string, newName: string)
    | NeedRnfr                  // 503

  /** `str_to_longlong`. */
  function OffsetOf(arg: string): int64 {
    if AllDigits(arg) then AsInt64(Value(arg, 10)) else 0
  }

  /** REST with anything but digits restarts at 0. */
  lemma RestWithoutNumber(arg: string, i: nat)
    requires i < |arg| && !('0' <= arg[i] <= '9')
    ensures OffsetOf(arg) == OffsetOf("") == 0
  {
    assert !IsDigit(arg[i]);
  }

  /** `getPasvDataFd`, with 0 for no usable connection. */
  function PasvDataFd(s: State): int {
    if s.pasv == NO_FD || s.data == NO_FD then 0 else s.data
  }

  function Ended(s: State): State {
    s.(pasv := NO_FD, data := NO_FD)
  }

  function Step(s: State, e: Event): (State, Output) {
    match e
    case Pasv(fd) => (s.(pasv := fd), Nothing)
    case DataConn(fd) =>
      if s.pasv == NO_FD then (s, Exit)
      else if fd < 0 then (s, Nothing)
      else (s.(data := fd), Nothing)
    case List => if PasvDataFd(s) == 0 then (s, Nothing) else (Ended(s), Listed)
    case Retr(lookup) =>
      if PasvDataFd(s) == 0 then (s, Nothing)
      else
        var started := RetrStarts(lookup, s.restart);
        ((if started then Ended(s) else s).(restart := 0), Attempt(s.restart, started))
    case Stor(lookup) =>
      if PasvDataFd(s) == 0 then (s, Nothing)
      else
        var started := StorStarts(lookup, s.restart);
        ((if started then Ended(s) else s).(restart := 0), Attempt(s.restart, started))
    case Rest(arg) => (s.(restart := OffsetOf(arg)), Nothing)
    case Rnfr(name) => (s.(rnfr := Some(name)), Nothing)
    case Rnto(name) =>
      if s.rnfr == None then (s, NeedRnfr) else (s.(rnfr := None), Renamed(s.rnfr.value, name))
    case Other => (s, Nothing)
  }

  /** The state after the first `n` events of a run. */
  function After(events: seq<Event>, n: nat): State
    requires n <= |events|
  {
    if n == 0 then INIT else Step(After(events, n - 1), events[n - 1]).0
  }

  function OutputAt(events: seq<Event>, i: nat): Output
    requires i < |events|
  {
    Step(After(events, i), events[i]).1
  }

  // ---------- data connections ----------

  /** In every run an open data connection has an open listener. */
  lemma {:induction false} DataNeedsListener(events: seq<Event>, n: nat)
    requires n <= |events|
    ensures After(events, n).data != NO_FD ==> After(events, n).pasv != NO_FD
  {
    if n > 0 {
      DataNeedsListener(events, n - 1);
    }
  }

  lemma {:induction false} ListenerNeedsPasv(events: seq<Event>, i: nat, j: nat) returns (p: nat)
    requires i <= j <= |events|
    requires After(events, i).pasv == NO_FD && After(events, j).pasv != NO_FD
    ensures i <= p < j && events[p].Pasv?
    decreases j
  {
    if After(events, j - 1).pasv != NO_FD {
      p := ListenerNeedsPasv(events, i, j - 1);
    } else {
      p := j - 1;
    }
  }

  lemma {:induction false} ConnectionNeedsAccept(events: seq<Event>, i: nat, j: nat) returns (q: nat)
    requires i <= j <= |events|
    requires After(events, i).data == NO_FD && After(events, j).data != NO_FD
    ensures i <= q < j && events[q].DataConn? && events[q].accepted >= 0 && After(events, q).pasv != NO_FD
    decreases j
  {
    if After(events, j - 1).data != NO_FD {
      q := ConnectionNeedsAccept(events, i, j - 1);
    } else {
      q := j - 1;
    }
  }

  /** A transfer that runs to its end, successfully or not, and gives up its connection. */
  predicate IsFullTransfer(o: Output) {
    o.Listed? || (o.Attempt? && o.started)
  }

  /** Between any two transfers that run to their end there is a PASV and then an accepted data
      connection: no connection serves two transfers. */
  lemma TransfersNeedNewConnections(events: seq<Event>, i: nat, j: nat) returns (p: nat, q: nat)
    requires i < j < |events| && IsFullTransfer(OutputAt(events, i)) && IsFullTransfer(OutputAt(events, j))
    ensures i < p < q < j && events[p].Pasv? && events[q].DataConn? && events[q].accepted >= 0
  {
    assert After(events, i + 1).data == NO_FD && After(events, i + 1).pasv == NO_FD;
    q := ConnectionNeedsAccept(events, i + 1, j);
    p := ListenerNeedsPasv(events, i + 1, q);
  }

  /** Both descriptors are open, and the data descriptor is not the 0 that stands for none. */
  predicate IsOpen(s: State) {
    s.pasv != -1 && s.data != -1 && s.data != 0
  }

  /** What each event brings about, exactly: the server gives up on a data event without a listener;
      listings and attempts happen if and only if there is a data connection; a rename needs a name. */
  lemma OutputsExactly(events: seq<Event>, i: nat)
    requires i < |events|
    ensures var s, e, o := After(events, i), events[i], OutputAt(events, i);
      && (o == Exit <==> e.DataConn? && s.pasv == -1)
      && (o == Listed <==> e.List? && IsOpen(s))
      && (o.Attempt? <==> (e.Retr? || e.Stor?) && IsOpen(s))
      && (o.Attempt? ==> o.offset == s.restart)
      && (o.Attempt? && e.Retr? ==> (o.started <==> RetrStarts(e.lookup, s.restart)))
      && (o.Attempt? && e.Stor? ==> (o.started <==> StorStarts(e.lookup, s.restart)))
      && (o.Renamed? <==> e.Rnto? && s.rnfr.Some?)
      && (o == NeedRnfr <==> e.Rnto? && s.rnfr.None?)
  {
  }

  /** A full transfer leaves both descriptors closed; a data event that brings no connection leaves
      everything as it was. */
  lemma AfterTransfersAndAccepts(events: seq<Event>, i: nat)
    requires i < |events|
    ensures IsFullTransfer(OutputAt(events, i)) ==> After(events, i + 1).pasv == After(events, i + 1).data == -1
    ensures events[i].DataConn? && (events[i].accepted < 0 || OutputAt(events, i) == Exit) ==>
      After(events, i + 1) == After(events, i)
  {
  }

  /** No event strictly between `r` and `i` opens a listener or ends a transfer. */
  predicate ListenerQuiet(events: seq<Event>, r: int, i: nat)
    requires -1 <= r < i <= |events|
  {
    forall k :: r < k < i ==> !events[k].Pasv? && !IsFullTransfer(OutputAt(events, k))
  }

  lemma {:induction false} ListenerKept(events: seq<Event>, r: int, i: nat)
    requires -1 <= r < i <= |events| && ListenerQuiet(events, r, i)
    ensures After(events, i).pasv == After(events, r + 1).pasv
    decreases i
  {
    if r + 1 < i {
      ListenerKept(events, r, i - 1);
    }
  }

  /** The listener is that of the last PASV since the last full transfer, and there is none without. */
  lemma ListenerIsLastPasv(events: seq<Event>, r: int, i: nat)
    requires -1 <= r < i <= |events| && ListenerQuiet(events, r, i)
    ensures r >= 0 && events[r].Pasv? ==> After(events, i).pasv == events[r].listener
    ensures r >= 0 && IsFullTransfer(OutputAt(events, r)) ==> After(events, i).pasv == -1
    ensures r == -1 ==> After(events, i).pasv == -1
  {
    ListenerKept(events, r, i);
  }

  /** These cases leave nothing out. */
  lemma {:induction false} LastPasvOrTransfer(events: seq<Event>, i: nat) returns (r: int)
    requires 0 < i <= |events|
    ensures -1 <= r < i && ListenerQuiet(events, r, i)
    ensures r >= 0 ==> events[r].Pasv? || IsFullTransfer(OutputAt(events, r))
    decreases i
  {
    if events[i - 1].Pasv? || IsFullTransfer(OutputAt(events, i - 1)) {
      r := i - 1;
    } else if i == 1 {
      r := -1;
    } else {
      r := LastPasvOrTransfer(events, i - 1);
    }
  }

  /** A connection is accepted on the listener. */
  predicate Connects(events: seq<Event>, k: nat)
    requires k < |events|
  {
    events[k].DataConn? && events[k].accepted >= 0 && After(events, k).pasv != -1
  }

  /** No event strictly between `r` and `i` brings a connection or ends a transfer. */
  predicate DataQuiet(events: seq<Event>, r: int, i: nat)
    requires -1 <= r < i <= |events|
  {
    forall k :: r < k < i ==> !Connects(events, k) && !IsFullTransfer(OutputAt(events, k))
  }

  lemma {:induction false} DataKept(events: seq<Event>, r: int, i: nat)
    requires -1 <= r < i <= |events| && DataQuiet(events, r, i)
    ensures After(events, i).data == After(events, r + 1).data
    decreases i
  {
    if r + 1 < i {
      DataKept(events, r, i - 1);
      assert !Connects(events, i - 1);
    }
  }

  /** The data connection is the last one accepted since the last full transfer, and there is none
      without. */
  lemma DataIsLastAccepted(events: seq<Event>, r: int, i: nat)
    requires -1 <= r < i <= |events| && DataQuiet(events, r, i)
    ensures r >= 0 && Connects(events, r) ==> After(events, i).data == events[r].accepted
    ensures r >= 0 && IsFullTransfer(OutputAt(events, r)) ==> After(events, i).data == -1
    ensures r == -1 ==> After(events, i).data == -1
  {
    DataKept(events, r, i);
  }

  /** Nor do these. */
  lemma {:induction false} LastAcceptOrTransfer(events: seq<Event>, i: nat) returns (r: int)
    requires 0 < i <= |events|
    ensures -1 <= r < i && DataQuiet(events, r, i)
    ensures r >= 0 ==> Connects(events, r) || IsFullTransfer(OutputAt(events, r))
    decreases i
  {
    if Connects(events, i - 1) || IsFullTransfer(OutputAt(events, i - 1)) {
      r := i - 1;
    } else if i == 1 {
      r := -1;
    } else {
      r := LastAcceptOrTransfer(events, i - 1);
    }
  }

  // ---------- one-shot state ----------

  /** No event strictly between `r` and `i` sets the restart offset or uses it up. */
  predicate RestQuiet(events: seq<Event>, r: int, i: nat)
    requires -1 <= r < i <= |events|
  {
    forall k :: r < k < i ==> !events[k].Rest? && !OutputAt(events, k).Attempt?
  }

  lemma {:induction false} RestartKept(events: seq<Event>, r: int, i: nat)
    requires -1 <= r < i <= |events| && RestQuiet(events, r, i)
    ensures After(events, i).restart == After(events, r + 1).restart
    decreases i
  {
    if r + 1 < i {
      RestartKept(events, r, i - 1);
    }
  }

  /** The cases of the next lemma leave nothing out: before any point of a run there is a last event
      that sets the offset or uses it up, or none at all. */
  lemma {:induction false} LastRestOrAttempt(events: seq<Event>, i: nat) returns (r: int)
    requires i <= |events|
    ensures -1 <= r < i && (r >= 0 ==> events[r].Rest? || OutputAt(events, r).Attempt?)
    ensures forall k :: r < k < i ==> !events[k].Rest? && !OutputAt(events, k).Attempt?
    decreases i
  {
    if i == 0 {
      r := -1;
    } else if events[i - 1].Rest? || OutputAt(events, i - 1).Attempt? {
      r := i - 1;
    } else {
      r := LastRestOrAttempt(events, i - 1);
    }
  }

  /** A transfer attempt uses the offset of the last REST since the attempt before it, and 0 when
      there has been none. Commands that find no data connection are not attempts. */
  lemma OffsetIsLastRest(events: seq<Event>, i: nat)
    requires i < |events| && OutputAt(events, i).Attempt?
    ensures forall r :: 0 <= r < i && RestQuiet(events, r, i) && events[r].Rest? ==>
      OutputAt(events, i).offset == OffsetOf(events[r].arg)
    ensures forall r :: 0 <= r < i && RestQuiet(events, r, i) && OutputAt(events, r).Attempt? ==>
      OutputAt(events, i).offset == 0
    ensures RestQuiet(events, -1, i) ==> OutputAt(events, i).offset == 0
  {
    forall r | -1 <= r < i && RestQuiet(events, r, i)
      ensures OutputAt(events, i).offset == After(events, r + 1).restart
    {
      RestartKept(events, r, i);
    }
  }

  /** No event strictly between `r` and `i` names a file to rename or renames one. */
  predicate RenameQuiet(events: seq<Event>, r: int, i: nat)
    requires -1 <= r < i <= |events|
  {
    forall k :: r < k < i ==> !events[k].Rnfr? && !events[k].Rnto?
  }

  lemma {:induction false} RenameKept(events: seq<Event>, r: int, i: nat)
    requires -1 <= r < i <= |events| && RenameQuiet(events, r, i)
    ensures After(events, i).rnfr == After(events, r + 1).rnfr
    decreases i
  {
    if r + 1 < i {
      RenameKept(events, r, i - 1);
    }
  }

  /** RNTO renames from the last RNFR since the RNTO before it, and is refused with 503 when there
      has been none. */
  lemma RenameIsFromLastRnfr(events: seq<Event>, i: nat)
    requires i < |events| && events[i].Rnto?
    ensures forall r :: 0 <= r < i && RenameQuiet(events, r, i) && events[r].Rnfr? ==>
      OutputAt(events, i) == Renamed(events[r].name, events[i].name)
    ensures forall r :: 0 <= r < i && RenameQuiet(events, r, i) && events[r].Rnto? ==>
      OutputAt(events, i) == NeedRnfr
    ensures RenameQuiet(events, -1, i) ==> OutputAt(events, i) == NeedRnfr
  {
    forall r | -1 <= r < i && RenameQuiet(events, r, i)
      ensures After(events, i).rnfr == After(events, r + 1).rnfr
    {
      RenameKept(events, r, i);
    }
  }

  // ---------- the handlers on the session record ----------

  function Snapshot(sess: Session): State
    reads sess
  {
    State(sess.pasvListenFd, sess.dataFd, sess.restartPos, sess.rnfrName)
  }

  /** `do_pasv`, given the listener that `tcp_server` opens. */
  method DoPasv(sess: Session, listener: nat)
    modifies sess`pasvListenFd
    ensures sess.pasvListenFd == listener
    ensures Snapshot(sess) == Step(old(Snapshot(sess)), Pasv(listener)).0
  {
    sess.pasvListenFd := listener;
  }

  /** `processDataRead`, given the result of `accept`. */
  method ProcessDataRead(sess: Session, accepted: int) returns (ret: int, exited: bool)
    modifies sess`dataFd
    ensures Snapshot(sess) == Step(old(Snapshot(sess)), DataConn(accepted)).0
    ensures exited <==> Step(old(Snapshot(sess)), DataConn(accepted)).1 == Exit
    ensures exited <==> sess.pasvListenFd == -1
    ensures sess.dataFd == if !exited && accepted >= 0 then accepted else old(sess.dataFd)
    ensures !exited ==> ret == if accepted < 0 then -1 else 0
  {
    if sess.pasvListenFd == NO_FD {
      return 0, true;
    }
    if accepted < 0 {
      return -1, false;
    }
    sess.dataFd := accepted;
    return 0, false;
  }

  method GetPasvDataFd(sess: Session) returns (fd: int)
    ensures fd == PasvDataFd(Snapshot(sess))
    ensures fd != 0 <==> IsOpen(Snapshot(sess))
    ensures fd != 0 ==> fd == sess.dataFd
  {
    if sess.pasvListenFd == NO_FD {
      return 0;
    }
    if sess.dataFd == NO_FD {
      return 0;
    }
    return sess.dataFd;
  }

  /** `do_list`, around the listing itself. */
  method DoList(sess: Session) returns (replies: seq<int>)
    modifies sess`dataFd, sess`pasvListenFd
    ensures Snapshot(sess) == Step(old(Snapshot(sess)), List).0
    ensures replies == if Step(old(Snapshot(sess)), List).1 == Listed then [150, 226] else []
    ensures var open := old(sess.pasvListenFd) != -1 && old(sess.dataFd) != -1 && old(sess.dataFd) != 0;
      && replies == (if open then [150, 226] else [])
      && sess.pasvListenFd == (if open then -1 else old(sess.pasvListenFd))
      && sess.dataFd == (if open then -1 else old(sess.dataFd))
  {
    var fd := GetPasvDataFd(sess);
    if fd == 0 {
      return [];
    }
    sess.dataFd, sess.pasvListenFd := NO_FD, NO_FD;
    return [FTP_DATACONN, FTP_TRANSFEROK];
  }

  /** The transfer got as far as its first reply. */
  predicate Started(replies: seq<int>) {
    replies != [] && replies[0] == 150
  }

  /** `do_retr` and the thread it starts, which the client waits for. The file goes out on the data
      connection of the session. */
  method DoRetr(sess: Session, lookup: Lookup, file: Descriptor, conn: Descriptor, mayAbort: bool)
    returns (replies: seq<int>, ghost k: nat)
    requires file != conn && conn.pos == |conn.content| && file.pos == 0
    requires PasvDataFd(Snapshot(sess)) != 0 ==> conn.number == sess.dataFd
    modifies sess, file`pos, conn`content, conn`pos, conn`interrupts, conn`errors, conn`asked
    ensures Snapshot(sess) == Step(old(Snapshot(sess)), Retr(lookup)).0
    ensures Started(replies) <==> old(IsOpen(Snapshot(sess))) && RetrStarts(lookup, old(sess.restartPos))
    ensures !Started(replies) ==>
      replies == (if old(IsOpen(Snapshot(sess))) then [550] else []) && conn.content == old(conn.content)
    ensures Started(replies) ==>
      && old(sess.restartPos) >= 0
      && k <= |Tail(file.content, old(sess.restartPos))|
      && conn.content == old(conn.content) + Tail(file.content, old(sess.restartPos))[..k]
      && (replies == [150, 226] ==> k == |Tail(file.content, old(sess.restartPos))|)
      && (conn.errors < old(conn.errors) ==> replies == [150, 426])
    ensures SmallAsks(old(conn.asked), conn.asked) && conn.errors <= old(conn.errors)
    ensures !old(sess.aborReceived) ==>
      && !sess.aborReceived
      && (Started(replies) && conn.errors == old(conn.errors) && !mayAbort ==> replies == [150, 226])
  {
    k := 0;
    var fd := GetPasvDataFd(sess);
    if fd == 0 {
      return [], k;
    }
    replies, k := Transfers.Retr(sess, lookup, file, conn, mayAbort);
    RetrStartsExactly(lookup, old(sess.restartPos));
  }

  /** `do_stor` and the thread it starts, which the client waits for. The data comes in on the data
      connection of the session. */
  method DoStor(sess: Session, lookup: Lookup, file: Descriptor, conn: Descriptor, mayAbort: bool)
    returns (replies: seq<int>, ghost k: nat)
    requires file != conn && file.pos == 0
    requires PasvDataFd(Snapshot(sess)) != 0 ==> conn.number == sess.dataFd
    modifies sess, conn`input, conn`arrived, conn`ended, conn`interrupts, conn`errors
    modifies file`content, file`pos, file`interrupts, file`errors
    ensures Snapshot(sess) == Step(old(Snapshot(sess)), Stor(lookup)).0
    ensures Started(replies) <==> old(IsOpen(Snapshot(sess))) && StorStarts(lookup, old(sess.restartPos))
    ensures !Started(replies) ==>
      && replies == (if old(IsOpen(Snapshot(sess))) then [553] else [])
      && file.content == if replies != [] && lookup.NotRegular? then Base(old(file.content), old(sess.restartPos))
                         else old(file.content)
    ensures Started(replies) ==>
      && old(sess.restartPos) >= 0 && k <= |old(conn.input)|
      && file.content == Stored(old(file.content), old(sess.restartPos), old(conn.input)[..k])
      && (replies == [150, 226] ==> k == |old(conn.input)|)
      && (replies == [150, 451] <==> file.errors < old(file.errors))
      && (conn.errors < old(conn.errors) ==> replies == [150, 426])
    ensures conn.errors <= old(conn.errors) && file.errors <= old(file.errors)
    ensures !old(sess.aborReceived) ==>
      && !sess.aborReceived
      && (Started(replies) && conn.blocking && !mayAbort
          && conn.errors == old(conn.errors) && file.errors == old(file.errors)
          ==> replies == [150, 226])
  {
    k := 0;
    var fd := GetPasvDataFd(sess);
    if fd == 0 {
      return [], k;
    }
    replies, k := Transfers.Stor(sess, lookup, file, conn, mayAbort);
  }

  method DoRest(sess: Session, arg: string) returns (restart: int64)
    modifies sess`restartPos
    ensures Snapshot(sess) == Step(old(Snapshot(sess)), Rest(arg)).0
    ensures restart == sess.restartPos
  {
    sess.restartPos := StrToLonglong(arg);
    restart := sess.restartPos;
  }

  method DoRnfr(sess: Session, name: string)
    modifies sess`rnfrName
    ensures Snapshot(sess) == Step(old(Snapshot(sess)), Rnfr(name)).0
  {
    sess.rnfrName := Some(name);
  }

  /** `do_rnto`: the pair of names handed to `rename`, or 503. */
  method DoRnto(sess: Session, name: string) returns (o: Output)
    modifies sess`rnfrName
    ensures (Snapshot(sess), o) == Step(old(Snapshot(sess)), Rnto(name))
  {
    if sess.rnfrName == None {
      return NeedRnfr;
    }
    o := Renamed(sess.rnfrName.value, name);
    sess.rnfrName := None;
  }
}
