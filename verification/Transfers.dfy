/** The transfer threads of ftpproto.cpp: sending a file from an offset, and storing one. */
module Transfers {
  import opened MachineInts
  import opened Seqs
  import opened Sessions
  import opened StreamIo

  const FTP_DATACONN := 150
  const FTP_TRANSFEROK := 226
  const FTP_BADSENDNET := 426
  const FTP_BADSENDFILE := 451
  const FTP_FILEFAIL := 550
  const FTP_UPLOADFAIL := 553

  /** How looking up, locking and inspecting the named file went, with the largest offset its file
      system can seek to. */
  datatype Lookup = CannotOpen | CannotLock | NotRegular(maxOffset: nat) | Regular(maxOffset: nat)

  /** The reply that ends a transfer: `flag` 0 for a normal end, 1 for a local error, 2 for a
      network error or an abort. A normal end with an abort pending has none. */
  function FinalReply(flag: int, aborted: bool): seq<int> {
    if flag == 0 && !aborted then [FTP_TRANSFEROK]
    else if flag == 1 then [FTP_BADSENDFILE]
    else if flag == 2 then [FTP_BADSENDNET]
    else []
  }

  /** The end of every transfer: both descriptors are closed and forgotten, the final reply is
      sent, and `check_abor` clears a pending abort. */
  method Finish(sess: Session, flag: int) returns (replies: seq<int>)
    modifies sess`dataFd, sess`pasvListenFd, sess`aborReceived
    ensures sess.dataFd == sess.pasvListenFd == NO_FD && !sess.aborReceived
    ensures replies == FinalReply(flag, old(sess.aborReceived))
    ensures flag == 0 ==> replies == if old(sess.aborReceived) then [] else [226]
    ensures flag == 1 ==> replies == [451]
    ensures flag == 2 ==> replies == [426]
  {
    sess.dataFd, sess.pasvListenFd := NO_FD, NO_FD;
    replies := FinalReply(flag, sess.aborReceived);
    if sess.aborReceived {
      sess.aborReceived := false;
    }
  }

  /** An abort request may arrive while a transfer runs. */
  method MaybeAbort(sess: Session, mayAbort: bool)
    modifies sess`aborReceived
    ensures old(sess.aborReceived) ==> sess.aborReceived
    ensures !mayAbort ==> sess.aborReceived == old(sess.aborReceived)
  {
    var abort: bool := *;
    if mayAbort && abort {
      sess.aborReceived := true;
    }
  }

  // ---------- RETR ----------

  /** `lseek` from the start of a file. */
  function LSeek(offset: int64, maxOffset: nat): int64 {
    if 0 <= offset <= maxOffset then offset else -1
  }

  /** Whether a download gets as far as sending: no seek without an offset, and its result is cut to an
      `int` before it is compared with -1. */
  predicate RetrStarts(lookup: Lookup, offset: int64) {
    lookup.Regular? && (offset == 0 || AsInt32(LSeek(offset, lookup.maxOffset)) != -1)
  }

  /** The cut-off result of the seek refuses every restart at 4294967295 modulo 2^32, besides the
      offsets that the seek itself refuses. */
  lemma RetrStartsExactly(lookup: Lookup, offset: int64)
    ensures RetrStarts(lookup, offset) <==>
      lookup.Regular? && 0 <= offset <= lookup.maxOffset && offset % 0x1_0000_0000 != 0xFFFF_FFFF
  {
  }

  /** A restart in the middle of a file of five gigabytes that is refused. */
  lemma RestartRefused(maxOffset: nat)
    requires maxOffset >= 5_000_000_000
    ensures !RetrStarts(Regular(maxOffset), 0xFFFF_FFFF)
    ensures RetrStarts(Regular(maxOffset), 0xFFFF_FFFE) && RetrStarts(Regular(maxOffset), 0x1_0000_0000)
  {
    RetrStartsExactly(Regular(maxOffset), 0xFFFF_FFFF);
  }

  /** How much of a file is to be sent. */
  function Remaining(size: nat, offset: int64): nat
    requires offset >= 0
  {
    if offset > size then 0 else size - offset
  }

  /** The tail of a file from an offset. */
  function Tail(content: seq<char>, offset: int64): seq<char>
    requires offset >= 0
  {
    if offset > |content| then [] else content[offset..]
  }

  lemma TailPart(content: seq<char>, offset: int64, k: nat)
    requires offset >= 0 && k <= |Tail(content, offset)|
    ensures k > 0 ==> offset + k <= |content|
    ensures Part(content, offset, k) == Tail(content, offset)[..k]
  {
    if k > 0 {
      PartIs(content, offset, k);
    }
  }

  /** No call of `sendfile` asks for nothing, or for more than 4096 bytes. */
  ghost predicate SmallAsks(before: seq<nat>, after: seq<nat>) {
    before <= after && forall i :: |before| <= i < |after| ==> 0 < after[i] <= 4096
  }

  /** One `sendfile` of the loop of `threadRetr`: the file is sent up to `next`. */
  method SendOnce(file: Descriptor, conn: Descriptor, n: nat, k: nat, ghost sent: seq<char>, ghost pos: nat)
    returns (failed: bool, next: nat)
    requires file != conn && conn.pos == |conn.content| && 0 < n <= 4096
    requires file.pos == pos + k && pos + k + n <= |file.content|
    requires conn.content == sent + Part(file.content, pos, k)
    modifies file`pos, conn`content, conn`pos, conn`interrupts, conn`errors, conn`asked
    ensures conn.pos == |conn.content| && conn.asked == old(conn.asked) + [n]
    ensures k <= next <= k + n && file.pos == pos + next
    ensures conn.content == sent + Part(file.content, pos, next)
    ensures failed <==> conn.errors < old(conn.errors)
    ensures !failed ==> conn.errors == old(conn.errors) && (k < next || conn.interrupts < old(conn.interrupts))
    ensures failed ==> next == k
  {
    var ret := SendFile(conn, file, n);
    if !ret.Moved? {
      return true, k;
    }
    Regroup(sent, Part(file.content, pos, k), Part(file.content, pos + k, ret.n));
    PartMore(file.content, pos, k, ret.n);
    failed, next := false, k + ret.n;
  }

  /** The sending loop of `threadRetr`. */
  method SendLoop(sess: Session, file: Descriptor, conn: Descriptor, toSend: nat, mayAbort: bool)
    returns (flag: int, ghost k: nat)
    requires file != conn && conn.pos == |conn.content|
    requires toSend > 0 ==> file.pos + toSend == |file.content|
    modifies sess`aborReceived, file`pos, conn`content, conn`pos, conn`interrupts, conn`errors, conn`asked
    ensures conn.pos == |conn.content| && conn.errors <= old(conn.errors)
    ensures SmallAsks(old(conn.asked), conn.asked)
    ensures old(sess.aborReceived) ==> sess.aborReceived
    ensures k <= toSend
    ensures conn.content == old(conn.content) + Part(file.content, old(file.pos), k)
    ensures flag == 0 ==> k == toSend && (sess.aborReceived <==> old(sess.aborReceived) && toSend == 0)
    ensures flag == 0 || flag == 2
    ensures toSend == 0 ==> flag == 0
    ensures flag == 2 <==> conn.errors < old(conn.errors) || (toSend > 0 && sess.aborReceived)
    ensures !mayAbort ==> sess.aborReceived == old(sess.aborReceived)
  {
    ghost var sent, pos := conn.content, file.pos;
    var done := 0;
    while done < toSend
      invariant done <= toSend && conn.pos == |conn.content| && file.pos == pos + done
      invariant conn.content == sent + Part(file.content, pos, done)
      invariant old(sess.aborReceived) ==> sess.aborReceived
      invariant !mayAbort ==> sess.aborReceived == old(sess.aborReceived)
      invariant if done > 0 then !sess.aborReceived else sess.aborReceived == old(sess.aborReceived)
      invariant conn.errors == old(conn.errors) && SmallAsks(old(conn.asked), conn.asked)
      decreases toSend - done, conn.interrupts
    {
      var numThisTime := if toSend - done > 4096 then 4096 else toSend - done;
      var failed;
      failed, done := SendOnce(file, conn, numThisTime, done, sent, pos);
      if failed {
        return 2, done;
      }
      MaybeAbort(sess, mayAbort);
      if sess.aborReceived {
        return 2, done;
      }
    }
    flag, k := 0, done;
  }

  /** `threadRetr`. The offset is that of the last REST and is used up, even when the transfer does
      not start. `k` bytes of the tail go out. */
  method Retr(sess: Session, lookup: Lookup, file: Descriptor, conn: Descriptor, mayAbort: bool)
    returns (replies: seq<int>, ghost k: nat)
    requires file != conn && conn.pos == |conn.content| && file.pos == 0
    modifies sess, file`pos, conn`content, conn`pos, conn`interrupts, conn`errors, conn`asked
    ensures sess.restartPos == 0 && sess.rnfrName == old(sess.rnfrName)
    ensures SmallAsks(old(conn.asked), conn.asked) && conn.errors <= old(conn.errors)
    ensures !RetrStarts(lookup, old(sess.restartPos)) ==>
      && replies == [550] && conn.content == old(conn.content)
      && sess.dataFd == old(sess.dataFd) && sess.pasvListenFd == old(sess.pasvListenFd)
      && sess.aborReceived == old(sess.aborReceived)
    ensures RetrStarts(lookup, old(sess.restartPos)) ==>
      && sess.dataFd == sess.pasvListenFd == NO_FD && !sess.aborReceived
      && k <= |Tail(file.content, old(sess.restartPos))|
      && conn.content == old(conn.content) + Tail(file.content, old(sess.restartPos))[..k]
      && (replies == [150, 226] || replies == [150, 426] || replies == [150])
      && (replies == [150, 226] ==> k == |Tail(file.content, old(sess.restartPos))|)
      && (replies == [150] <==> old(sess.aborReceived) && Tail(file.content, old(sess.restartPos)) == [])
      && (conn.errors < old(conn.errors) ==> replies == [150, 426])
      && (conn.errors == old(conn.errors) && !mayAbort && !old(sess.aborReceived) ==> replies == [150, 226])
  {
    var offset := sess.restartPos;
    sess.restartPos := 0;
    k := 0;
    if !lookup.Regular? {
      return [FTP_FILEFAIL], k;
    }
    if offset != 0 {
      var ret := AsInt32(LSeek(offset, lookup.maxOffset));
      if ret == -1 {
        return [FTP_FILEFAIL], k;
      }
      RetrStartsExactly(lookup, offset);
      file.pos := offset;
    }
    var bytesToSend := Remaining(|file.content|, offset);
    var flag;
    flag, k := SendLoop(sess, file, conn, bytesToSend, mayAbort);
    TailPart(file.content, offset, k);
    var final := Finish(sess, flag);
    replies := [FTP_DATACONN] + final;
    assert final != [] ==> replies[1] == final[0];
  }

  // ---------- STOR ----------

  /** What an upload writes into: the old content, emptied unless there is an offset. */
  function Base(content: seq<char>, offset: int64): seq<char> {
    if offset == 0 then [] else content
  }

  /** What the file holds once this much has been received and written. */
  function Stored(content: seq<char>, offset: int64, data: seq<char>): seq<char>
    requires offset >= 0
  {
    Overwrite(Base(content, offset), offset, data)
  }

  datatype Chunk = More | Ended(flag: int)

  /** One pass through the receiving loop of `upload_common`: some bytes are received, and these reach
      the file. */
  method StoreChunk(sess: Session, file: Descriptor, conn: Descriptor, buf: array<char>, mayAbort: bool)
    returns (chunk: Chunk, ghost wrote: seq<char>)
    requires file != conn && buf.Length > 0
    modifies sess`aborReceived, conn`input, conn`arrived, conn`ended, conn`interrupts, conn`errors
    modifies file`content, file`pos, file`interrupts, file`errors, buf
    ensures old(sess.aborReceived) ==> sess.aborReceived
    ensures wrote <= old(conn.input) && file.pos == old(file.pos) + |wrote|
    ensures file.content == Overwrite(old(file.content), old(file.pos), wrote)
    ensures conn.errors <= old(conn.errors) && file.errors <= old(file.errors)
    ensures chunk.More? ==>
      && old(conn.input) == wrote + conn.input && conn.errors == old(conn.errors) && file.errors == old(file.errors)
      && (wrote == [] ==> conn.interrupts < old(conn.interrupts) && sess.aborReceived == old(sess.aborReceived))
      && (wrote != [] ==> !sess.aborReceived)
    ensures chunk.Ended? ==> 0 <= chunk.flag <= 2
    ensures chunk == Ended(0) ==>
      && old(conn.input) == conn.input == [] && sess.aborReceived == old(sess.aborReceived)
      && conn.errors == old(conn.errors) && file.errors == old(file.errors)
    ensures chunk == Ended(1) <==> file.errors < old(file.errors)
    ensures chunk == Ended(2) ==> conn.errors < old(conn.errors) || sess.aborReceived || !conn.blocking
    ensures conn.errors < old(conn.errors) ==> chunk == Ended(2)
    ensures chunk.Ended? && chunk.flag != 0 && conn.errors == old(conn.errors) && conn.blocking ==>
      old(conn.input) != []
    ensures !mayAbort ==> sess.aborReceived == old(sess.aborReceived)
  {
    wrote := [];
    var ret;
    ghost var got;
    ret, got := conn.Recv(buf, 0, buf.Length, false);
    if ret.Interrupted? {
      return More, wrote;
    }
    if !ret.Moved? {
      return Ended(2), wrote;
    }
    if ret.n == 0 {
      return Ended(0), wrote;
    }
    MaybeAbort(sess, mayAbort);
    if sess.aborReceived {
      return Ended(2), wrote;
    }
    assert buf[..ret.n] == got;
    var written;
    written, wrote := WriteN(file, buf[..ret.n]);
    chunk := if written == ret.n then More else Ended(1);
  }

  /** The same, as one more part of what has been stored so far. */
  method StoreNext(sess: Session, file: Descriptor, conn: Descriptor, buf: array<char>, mayAbort: bool,
                   ghost content: seq<char>, ghost pos: nat, ghost stored: seq<char>)
    returns (chunk: Chunk, ghost now: seq<char>)
    requires file != conn && buf.Length > 0
    requires file.pos == pos + |stored| && file.content == Overwrite(content, pos, stored)
    modifies sess`aborReceived, conn`input, conn`arrived, conn`ended, conn`interrupts, conn`errors
    modifies file`content, file`pos, file`interrupts, file`errors, buf
    ensures old(sess.aborReceived) ==> sess.aborReceived
    ensures stored <= now <= stored + old(conn.input)
    ensures file.pos == pos + |now| && file.content == Overwrite(content, pos, now)
    ensures conn.errors <= old(conn.errors) && file.errors <= old(file.errors)
    ensures chunk.More? ==>
      && stored + old(conn.input) == now + conn.input
      && conn.errors == old(conn.errors) && file.errors == old(file.errors)
      && (if now == stored then conn.interrupts < old(conn.interrupts) && sess.aborReceived == old(sess.aborReceived)
          else |conn.input| < |old(conn.input)| && !sess.aborReceived)
    ensures chunk.Ended? ==> 0 <= chunk.flag <= 2
    ensures chunk == Ended(0) ==>
      && now == stored && old(conn.input) == conn.input == [] && sess.aborReceived == old(sess.aborReceived)
    ensures chunk == Ended(1) <==> file.errors < old(file.errors)
    ensures chunk == Ended(2) ==> conn.errors < old(conn.errors) || sess.aborReceived || !conn.blocking
    ensures conn.errors < old(conn.errors) ==> chunk == Ended(2)
    ensures chunk.Ended? && chunk.flag != 0 && conn.errors == old(conn.errors) && conn.blocking ==>
      old(conn.input) != []
    ensures !mayAbort ==> sess.aborReceived == old(sess.aborReceived)
  {
    ghost var left, wrote := conn.input, [];
    chunk, wrote := StoreChunk(sess, file, conn, buf, mayAbort);
    OverwriteTwice(content, pos, stored, wrote);
    TwoParts(stored, wrote, left);
    Regroup(stored, wrote, conn.input);
    now := stored + wrote;
  }

  /** The receiving loop of `upload_common`, through its buffer of 1024 bytes. */
  method StoreLoop(sess: Session, file: Descriptor, conn: Descriptor, mayAbort: bool)
    returns (flag: int, ghost k: nat)
    requires file != conn
    modifies sess`aborReceived, conn`input, conn`arrived, conn`ended, conn`interrupts, conn`errors
    modifies file`content, file`pos, file`interrupts, file`errors
    ensures old(sess.aborReceived) ==> sess.aborReceived
    ensures k <= |old(conn.input)|
    ensures file.content == Overwrite(old(file.content), old(file.pos), old(conn.input)[..k])
    ensures 0 <= flag <= 2
    ensures flag == 0 ==>
      && k == |old(conn.input)| && conn.input == []
      && (sess.aborReceived <==> old(sess.aborReceived) && old(conn.input) == [])
    ensures conn.errors <= old(conn.errors) && file.errors <= old(file.errors)
    ensures flag == 1 <==> file.errors < old(file.errors)
    ensures flag == 2 ==> conn.errors < old(conn.errors) || sess.aborReceived || !conn.blocking
    ensures conn.errors < old(conn.errors) ==> flag == 2
    ensures flag != 0 && conn.errors == old(conn.errors) && conn.blocking ==> old(conn.input) != []
    ensures !mayAbort ==> sess.aborReceived == old(sess.aborReceived)
  {
    var buf := new char[1024](_ => '\0');
    ghost var content, pos, data, stored := file.content, file.pos, conn.input, [];
    while true
      invariant data == stored + conn.input
      invariant file.content == Overwrite(content, pos, stored) && file.pos == pos + |stored|
      invariant if stored != [] then !sess.aborReceived else sess.aborReceived == old(sess.aborReceived)
      invariant !mayAbort ==> sess.aborReceived == old(sess.aborReceived)
      invariant old(sess.aborReceived) ==> stored == []
      invariant conn.errors == old(conn.errors) && file.errors == old(file.errors)
      decreases |conn.input|, conn.interrupts
    {
      var chunk;
      chunk, stored := StoreNext(sess, file, conn, buf, mayAbort, content, pos, stored);
      if chunk.Ended? {
        StartsWith(stored, data);
        return chunk.flag, |stored|;
      }
    }
  }

  /** Whether an upload gets as far as receiving. Here the seek result is not cut off. */
  predicate StorStarts(lookup: Lookup, offset: int64) {
    lookup.Regular? && (offset == 0 || LSeek(offset, lookup.maxOffset) >= 0)
  }

  /** An upload is refused exactly when the file cannot be opened, locked or used, or when the seek is. */
  lemma StorStartsExactly(lookup: Lookup, offset: int64)
    ensures StorStarts(lookup, offset) <==> lookup.Regular? && 0 <= offset <= lookup.maxOffset
  {
  }

  /** `upload_common` without `is_append`. */
  method Stor(sess: Session, lookup: Lookup, file: Descriptor, conn: Descriptor, mayAbort: bool)
    returns (replies: seq<int>, ghost k: nat)
    requires file != conn && file.pos == 0
    modifies sess, conn`input, conn`arrived, conn`ended, conn`interrupts, conn`errors
    modifies file`content, file`pos, file`interrupts, file`errors
    ensures sess.restartPos == 0 && sess.rnfrName == old(sess.rnfrName)
    ensures conn.errors <= old(conn.errors) && file.errors <= old(file.errors)
    ensures !StorStarts(lookup, old(sess.restartPos)) ==>
      && replies == [553] && conn.input == old(conn.input)
      && file.content == (if lookup.NotRegular? then Base(old(file.content), old(sess.restartPos))
                          else old(file.content))
      && sess.dataFd == old(sess.dataFd) && sess.pasvListenFd == old(sess.pasvListenFd)
      && sess.aborReceived == old(sess.aborReceived)
    ensures StorStarts(lookup, old(sess.restartPos)) ==>
      && sess.dataFd == sess.pasvListenFd == NO_FD && !sess.aborReceived
      && k <= |old(conn.input)|
      && file.content == Stored(old(file.content), old(sess.restartPos), old(conn.input)[..k])
      && (replies == [150, 226] || replies == [150, 451] || replies == [150, 426] || replies == [150])
      && (replies == [150, 226] ==> k == |old(conn.input)| && conn.input == [])
      && (replies == [150, 451] <==> file.errors < old(file.errors))
      && (conn.errors < old(conn.errors) ==> replies == [150, 426])
      && (replies == [150] ==> old(sess.aborReceived) && old(conn.input) == [])
      && (conn.blocking && conn.errors == old(conn.errors) ==>
            (old(sess.aborReceived) && old(conn.input) == [] ==> replies == [150])
            && (file.errors == old(file.errors) && !mayAbort && !old(sess.aborReceived) ==> replies == [150, 226]))
  {
    var offset := sess.restartPos;
    sess.restartPos := 0;
    k := 0;
    if lookup.CannotOpen? || lookup.CannotLock? {
      return [FTP_UPLOADFAIL], k;
    }
    if offset == 0 {
      file.content, file.pos := [], 0;
    } else if LSeek(offset, lookup.maxOffset) < 0 {
      return [FTP_UPLOADFAIL], k;
    } else {
      file.pos := offset;
    }
    if lookup.NotRegular? {
      return [FTP_UPLOADFAIL], k;
    }
    var flag;
    flag, k := StoreLoop(sess, file, conn, mayAbort);
    var final := Finish(sess, flag);
    replies := [FTP_DATACONN] + final;
    assert final != [] ==> replies[1] == final[0];
  }

  /** Whatever the file held, an upload leaves the received bytes from the offset on, NULs in any
      gap before them, and the old bytes elsewhere; without an offset it leaves just those bytes. */
  lemma StoredBytes(content: seq<char>, offset: int64, data: seq<char>)
    requires offset >= 0
    ensures offset == 0 ==> Stored(content, offset, data) == data
    ensures offset > 0 && data == [] ==> Stored(content, offset, data) == content
    ensures offset > 0 && data != [] ==>
      var r := Stored(content, offset, data);
      && |r| == (if offset + |data| <= |content| then |content| else offset + |data|)
      && forall i :: 0 <= i < |r| ==>
           r[i] == if offset <= i < offset + |data| then data[i - offset]
                   else if i < |content| then content[i] else '\0'
  {
    if offset > 0 && data != [] {
      OverwriteBytes(content, offset, data, Stored(content, offset, data));
    }
  }
}
