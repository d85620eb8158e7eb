/**
 Interrupted transfers taken up again with REST (section 4.1.3 of RFC 959, section 5 of RFC 3659):
 the client asks to restart where the last attempt stopped, and sends or receives the rest.
 */
module Resume {
  import opened MachineInts
  import opened Numerals
  import opened Seqs
  import opened Sessions
  import opened StreamIo
  import opened Transfers
  import opened SessionProtocol

  /** The offset the server uses after "REST n" is n, for every size a file can have. */
  lemma RestOffset(n: nat)
    requires n < TWO_63
    ensures OffsetOf(PrintDec(n)) == n
  {
    LongLongRoundTrip(n);
  }

  // ---------- upload ----------

  /** The server's file after one attempt to upload `data` from the size it has: `k` more bytes of
      the rest arrive. */
  function UploadAttempt(file: seq<char>, data: seq<char>, k: nat): seq<char>
    requires |file| + k <= |data| < TWO_63
  {
    Stored(file, |file|, data[|file|..][..k])
  }

  /** One attempt extends the file by the bytes that arrived. */
  lemma UploadExtends(file: seq<char>, data: seq<char>, k: nat)
    requires file <= data && |file| + k <= |data| < TWO_63
    ensures UploadAttempt(file, data, k) == data[..|file| + k]
  {
    var more := data[|file|..][..k];
    assert data[..|file| + k] == file + more;
    OverwriteAtEnd(file, more);
  }

  /** Whether these attempts are possible: each brings no more than what is missing. */
  predicate Possible(size: nat, total: nat, ks: seq<nat>)
    decreases |ks|
  {
    ks != [] ==> size + ks[0] <= total && Possible(size + ks[0], total, ks[1..])
  }

  function Total(ks: seq<nat>): nat {
    if ks == [] then 0 else ks[0] + Total(ks[1..])
  }

  /** The server's file after any number of attempts, each broken off where it will. */
  function UploadRun(file: seq<char>, data: seq<char>, ks: seq<nat>): seq<char>
    requires file <= data && |data| < TWO_63 && Possible(|file|, |data|, ks)
    decreases |ks|
  {
    if ks == [] then file
    else
      UploadExtends(file, data, ks[0]);
      UploadRun(UploadAttempt(file, data, ks[0]), data, ks[1..])
  }

  /** Every file along the way is a prefix of the data, as long as all that has arrived, so once an
      attempt completes the file is the data. */
  lemma {:induction false} UploadResumes(file: seq<char>, data: seq<char>, ks: seq<nat>)
    requires file <= data && |data| < TWO_63 && Possible(|file|, |data|, ks)
    ensures |file| + Total(ks) <= |data|
    ensures UploadRun(file, data, ks) == data[..|file| + Total(ks)]
    ensures UploadRun(file, data, ks) == data <==> |file| + Total(ks) == |data|
    decreases |ks|
  {
    if ks != [] {
      UploadExtends(file, data, ks[0]);
      UploadResumes(UploadAttempt(file, data, ks[0]), data, ks[1..]);
    }
  }

  /** An upload that starts without an offset, over whatever the file held, and is then taken up again
      any number of times. */
  lemma UploadFromStart(before: seq<char>, data: seq<char>, k: nat, ks: seq<nat>)
    requires k <= |data| < TWO_63 && Possible(k, |data|, ks)
    ensures var first := Stored(before, 0, data[..k]);
      && first == data[..k] && first <= data
      && k + Total(ks) <= |data|
      && UploadRun(first, data, ks) == data[..k + Total(ks)]
      && (UploadRun(first, data, ks) == data <==> k + Total(ks) == |data|)
  {
    StoredBytes(before, 0, data[..k]);
    UploadResumes(data[..k], data, ks);
  }

  // ---------- download ----------

  /** What a client has after any number of attempts: each asks for the tail from what it has. */
  function DownloadRun(received: seq<char>, file: seq<char>, ks: seq<nat>): seq<char>
    requires |file| < TWO_63 && Possible(|received|, |file|, ks)
    decreases |ks|
  {
    if ks == [] then received
    else DownloadRun(received + Tail(file, |received|)[..ks[0]], file, ks[1..])
  }

  lemma {:induction false} DownloadResumes(received: seq<char>, file: seq<char>, ks: seq<nat>)
    requires received <= file && |file| < TWO_63 && Possible(|received|, |file|, ks)
    ensures |received| + Total(ks) <= |file|
    ensures DownloadRun(received, file, ks) == file[..|received| + Total(ks)]
    ensures DownloadRun(received, file, ks) == file <==> |received| + Total(ks) == |file|
    decreases |ks|
  {
    if ks != [] {
      var next := received + Tail(file, |received|)[..ks[0]];
      assert next == file[..|received| + ks[0]];
      DownloadResumes(next, file, ks[1..]);
    }
  }

  // ---------- the same over the server's commands ----------

  /** The conditions of one attempt: its listener and connection, what may go wrong on it, and how much
      gets through before the client's side of the connection is closed. */
  datatype Conditions = Conditions(
    listener: nat, accepted: nat, sent: nat, interrupts: nat, errors: nat, mayAbort: bool, lookup: Lookup)

  /** Nothing goes wrong on the server's side of this attempt, on a file of this size. */
  predicate Faultless(c: Conditions, size: nat) {
    c.errors == 0 && !c.mayAbort && c.lookup.Regular? && size <= c.lookup.maxOffset && c.accepted != 0
  }

  /** Nothing goes wrong on either side. */
  predicate Smooth(c: Conditions, size: nat) {
    Faultless(c, size) && size <= c.sent
  }

  /** As much of the data as gets through. */
  function Through(data: seq<char>, c: Conditions): (part: seq<char>)
    ensures part <= data && (part == data <==> |data| <= c.sent)
  {
    if |data| <= c.sent then data else data[..c.sent]
  }

  /** PASV and the data connection, on which the client sends this. */
  method Connect(sess: Session, input: seq<char>, c: Conditions) returns (conn: Descriptor)
    modifies sess`pasvListenFd, sess`dataFd
    ensures sess.pasvListenFd == c.listener && sess.dataFd == c.accepted
    ensures fresh(conn) && conn.number == sess.dataFd && conn.blocking
    ensures conn.input == input && conn.content == [] && conn.pos == 0 && conn.errors == c.errors
  {
    DoPasv(sess, c.listener);
    var ret, exited := ProcessDataRead(sess, c.accepted);
    conn := new Descriptor(c.accepted, true, true, input, c.interrupts, c.errors);
  }

  /** The same, and then REST with this size. */
  method ConnectAt(sess: Session, input: seq<char>, size: nat, c: Conditions) returns (conn: Descriptor)
    requires size < TWO_63
    modifies sess`pasvListenFd, sess`dataFd, sess`restartPos
    ensures sess.pasvListenFd == c.listener && sess.dataFd == c.accepted && sess.restartPos == size
    ensures fresh(conn) && conn.number == sess.dataFd && conn.blocking
    ensures conn.input == input && conn.content == [] && conn.pos == 0 && conn.errors == c.errors
  {
    conn := Connect(sess, input, c);
    var restart := DoRest(sess, PrintDec(size));
    RestOffset(size);
  }

  /** A first attempt: STOR without REST, over whatever the file holds. The server reports a transfer
      complete that the client has cut short: 226 says that what was sent is stored, and only the
      client knows whether it was everything. */
  method UploadFirst(sess: Session, file: Descriptor, data: seq<char>, c: Conditions)
    returns (started: bool, reported: bool, complete: bool)
    requires sess.restartPos == 0
    modifies sess, file`content, file`pos, file`interrupts, file`errors
    ensures sess.restartPos == 0 && file.errors <= old(file.errors)
    ensures started ==> file.content <= Through(data, c)
    ensures !started ==> file.content == old(file.content) || file.content == []
    ensures reported ==> started && file.content == Through(data, c)
    ensures complete <==> reported && |data| <= c.sent
    ensures !old(sess.aborReceived) ==>
      !sess.aborReceived && (Faultless(c, |data|) && file.errors == old(file.errors) ==> reported)
  {
    var conn := Connect(sess, Through(data, c), c);
    file.pos := 0;
    ghost var before := file.content;
    var replies, k := DoStor(sess, c.lookup, file, conn, c.mayAbort);
    started, reported := Started(replies), replies == [FTP_DATACONN, FTP_TRANSFEROK];
    complete := reported && |data| <= c.sent;
    if started {
      StoredBytes(before, 0, Through(data, c)[..k]);
    }
  }

  /** A later attempt: REST with the size the file has, and STOR with the data it does not have yet, or
      what gets through of it. */
  method UploadOnce(sess: Session, file: Descriptor, data: seq<char>, c: Conditions)
    returns (reported: bool, complete: bool)
    requires file.content <= data && |data| < TWO_63
    modifies sess, file`content, file`pos, file`interrupts, file`errors
    ensures old(file.content) <= file.content <= data && file.errors <= old(file.errors)
    ensures reported ==> file.content == old(file.content) + Through(data[|old(file.content)|..], c)
    ensures complete ==> file.content == data
    ensures complete <==> reported && |data| - |old(file.content)| <= c.sent
    ensures !old(sess.aborReceived) ==>
      !sess.aborReceived && (Faultless(c, |data|) && file.errors == old(file.errors) ==> reported)
  {
    var size := |file.content|;
    ghost var before := file.content;
    var rest := Through(data[size..], c);
    var conn := ConnectAt(sess, rest, size, c);
    file.pos := 0;
    var replies, k := DoStor(sess, c.lookup, file, conn, c.mayAbort);
    reported := replies == [FTP_DATACONN, FTP_TRANSFEROK];
    complete := reported && |data| - size <= c.sent;
    if k <= |rest| {
      UploadAttemptIsStored(before, data, rest, k);
    }
  }

  /** A client that uploads `data` over whatever the file holds: a plain STOR until one starts, then
      restarts at the server's file size, until it has sent everything there was to send and the server
      has reported the transfer complete, or it runs out of patience. Any attempt may be cut short by
      either side. From the first start on the file is a prefix of the data, and an attempt in which
      nothing goes wrong completes. */
  method UploadWithRestarts(sess: Session, file: Descriptor, data: seq<char>, attempts: seq<Conditions>)
    returns (started: bool, done: bool)
    requires |data| < TWO_63 && sess.restartPos == 0
    modifies sess, file`content, file`pos, file`interrupts, file`errors
    ensures started ==> file.content <= data
    ensures !started ==> file.content == old(file.content) || file.content == []
    ensures done ==> started && file.content == data
    ensures !old(sess.aborReceived) && file.errors == old(file.errors) && attempts != [] ==>
      Smooth(attempts[|attempts| - 1], |data|) ==> done
  {
    started, done := false, false;
    for i := 0 to |attempts|
      invariant started ==> file.content <= data
      invariant !started ==>
        sess.restartPos == 0 && (file.content == old(file.content) || file.content == [])
      invariant file.errors <= old(file.errors)
      invariant !old(sess.aborReceived) ==> !sess.aborReceived
      invariant !old(sess.aborReceived) && file.errors == old(file.errors) && i > 0 ==>
        !Smooth(attempts[i - 1], |data|)
    {
      var reported;
      if started {
        reported, done := UploadOnce(sess, file, data, attempts[i]);
      } else {
        started, reported, done := UploadFirst(sess, file, data, attempts[i]);
      }
      if done {
        return;
      }
    }
  }

  /** 226 alone does not prove that the whole file has arrived: a client that closes its side after part
      of the data gets it too, and the file holds that part. */
  method CutUploadIsReported(sess: Session, file: Descriptor, data: seq<char>, c: Conditions)
    requires sess.restartPos == 0 && !sess.aborReceived && file.errors == 0
    requires Faultless(c, |data|) && c.sent < |data|
    modifies sess, file`content, file`pos, file`interrupts, file`errors
    ensures file.content == data[..c.sent] && file.content != data
  {
    var started, reported, complete := UploadFirst(sess, file, data, c);
    assert reported && !complete;
  }

  /** What one attempt leaves when `k` bytes of `rest` are stored behind the file. */
  lemma UploadAttemptIsStored(file: seq<char>, data: seq<char>, rest: seq<char>, k: nat)
    requires file <= data && |data| < TWO_63 && rest <= data[|file|..] && k <= |rest|
    ensures Base(file, |file|) == file
    ensures Stored(file, |file|, rest[..k]) == file + rest[..k] <= data
    ensures k == |rest| ==> rest[..k] == rest
    ensures rest == data[|file|..] ==> file + rest == data
  {
    OverwriteAtEnd(file, rest[..k]);
    assert rest[..k] <= data[|file|..];
    TwoParts(file, rest[..k], data[|file|..]);
    StartsWith(file, data);
  }

  /** PASV, the data connection, REST and RETR, from the length received so far. What the server hands
      over need not get through. */
  method DownloadOnce(sess: Session, file: Descriptor, received: seq<char>, c: Conditions)
    returns (more: seq<char>, reported: bool, complete: bool)
    requires received <= file.content && |file.content| < TWO_63
    modifies sess, file`pos
    ensures received + more <= file.content && (complete ==> received + more == file.content)
    ensures reported ==> more == Through(file.content[|received|..], c)
    ensures complete <==> reported && |file.content| - |received| <= c.sent
    ensures !old(sess.aborReceived) ==>
      && !sess.aborReceived
      && (Faultless(c, |file.content|) && !reported ==> more == [] && |received| % TWO_32 == TWO_32 - 1)
  {
    var conn := ConnectAt(sess, [], |received|, c);
    file.pos := 0;
    var replies, k := DoRetr(sess, c.lookup, file, conn, c.mayAbort);
    RetrStartsExactly(c.lookup, |received|);
    reported := replies == [FTP_DATACONN, FTP_TRANSFEROK];
    complete := reported && |file.content| - |received| <= c.sent;
    more := Through(conn.content, c);
    DownloadServed(received, file.content, conn.content, k, c, reported);
  }

  /** What a client has once as much has got through of `k` bytes of the tail as does, or of nothing. */
  lemma DownloadServed(received: seq<char>, file: seq<char>, handed: seq<char>, k: nat, c: Conditions, all: bool)
    requires received <= file && |file| < TWO_63
    requires handed == [] || (k <= |Tail(file, |received|)| && handed == [] + Tail(file, |received|)[..k])
    requires all ==> k == |Tail(file, |received|)| && handed == [] + Tail(file, |received|)[..k]
    ensures received + Through(handed, c) <= file
    ensures all ==> Through(handed, c) == Through(file[|received|..], c)
    ensures all && |file| - |received| <= c.sent ==> received + Through(handed, c) == file
  {
    var tail := Tail(file, |received|);
    assert tail == file[|received|..];
    assert handed == [] || handed == tail[..k];
    assert all ==> handed == tail;
    TailExtends(received, file, handed, Through(handed, c));
  }

  /** A client that downloads a file, restarting at what it has received so far. It knows the size, so a
      transfer of which not everything gets through is not taken for complete. An attempt in which
      nothing goes wrong completes, unless it starts at one of the offsets the cut-off seek result
      refuses. */
  method DownloadWithRestarts(sess: Session, file: Descriptor, attempts: seq<Conditions>)
    returns (received: seq<char>, done: bool)
    requires |file.content| < TWO_63
    modifies sess, file`pos
    ensures received <= file.content
    ensures done ==> received == file.content
    ensures !old(sess.aborReceived) && attempts != [] && Smooth(attempts[|attempts| - 1], |file.content|) ==>
      done || |received| % TWO_32 == TWO_32 - 1
  {
    received, done := [], false;
    for i := 0 to |attempts|
      invariant received <= file.content
      invariant !old(sess.aborReceived) ==> !sess.aborReceived
      invariant !old(sess.aborReceived) && i > 0 && Smooth(attempts[i - 1], |file.content|) ==>
        |received| % TWO_32 == TWO_32 - 1
    {
      var more, reported, complete := DownloadOnce(sess, file, received, attempts[i]);
      received := received + more;
      if complete {
        return received, true;
      }
    }
  }

  /** What has been received and what gets through of the tail that was handed over. */
  lemma TailExtends(received: seq<char>, file: seq<char>, handed: seq<char>, more: seq<char>)
    requires received <= file && |file| < TWO_63 && handed <= Tail(file, |received|) && more <= handed
    ensures Tail(file, |received|) == file[|received|..]
    ensures received + more <= file && (more == Tail(file, |received|) ==> received + more == file)
  {
    TwoParts(received, more, file[|received|..]);
    StartsWith(received, file);
  }
}
