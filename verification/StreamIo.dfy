/**
 The read and write loops of sysutil.cpp over a kernel that moves as many bytes as it likes per
 call, may be interrupted, and may fail.
 */
module StreamIo {
  import opened CStrings
  import opened Seqs

  /** The outcome of one system call: a count, EINTR, EAGAIN, another error, or a write past the end of
      the buffer, after which nothing is defined. */
  datatype IoResult = Moved(n: nat) | Interrupted | WouldBlock | Failed | Overrun

  /** `s` with `data` in place of what it has at position `at`. */
  function Patch(s: seq<char>, at: nat, data: seq<char>): (r: seq<char>)
    requires at + |data| <= |s|
    ensures |r| == |s|
  {
    seq(|s|, i requires 0 <= i < |s| => if at <= i < at + |data| then data[i - at] else s[i])
  }

  /** What a file holds after a write at `pos`: a gap is filled with NULs, an empty write changes
      nothing. Written at its end, a file or a connection is appended to. */
  function Overwrite(content: seq<char>, pos: nat, data: seq<char>): seq<char> {
    if data == [] then content
    else
      var padded := if pos <= |content| then content else content + seq(pos - |content|, _ => NUL);
      padded[..pos] + data + (if pos + |data| <= |content| then content[pos + |data|..] else [])
  }

  /** Byte by byte: the data where it was written, NULs in a gap, the old bytes elsewhere. */
  ghost predicate Overwritten(after: seq<char>, content: seq<char>, pos: nat, data: seq<char>) {
    && |after| == (if pos + |data| <= |content| then |content| else pos + |data|)
    && forall i :: 0 <= i < |after| ==>
         after[i] ==
         if pos <= i < pos + |data| then data[i - pos] else if i < |content| then content[i] else NUL
  }

  /** A write leaves the bytes it is meant to leave, and no others. */
  lemma OverwriteBytes(content: seq<char>, pos: nat, data: seq<char>, after: seq<char>)
    requires data != []
    ensures after == Overwrite(content, pos, data) <==> Overwritten(after, content, pos, data)
  {
    assert Overwritten(Overwrite(content, pos, data), content, pos, data);
    if Overwritten(after, content, pos, data) {
      SameBytes(after, Overwrite(content, pos, data), content, pos, data);
    }
  }

  lemma SameBytes(a: seq<char>, b: seq<char>, content: seq<char>, pos: nat, data: seq<char>)
    requires Overwritten(a, content, pos, data) && Overwritten(b, content, pos, data)
    ensures a == b
  {
    assert forall i :: 0 <= i < |a| ==> a[i] == b[i];
  }

  lemma OverwrittenTwice(once: seq<char>, twice: seq<char>, content: seq<char>, pos: nat, a: seq<char>, b: seq<char>)
    requires Overwritten(once, content, pos, a) && Overwritten(twice, once, pos + |a|, b)
    ensures Overwritten(twice, content, pos, a + b)
  {
  }

  /** Two writes in a row are one write of both. */
  lemma OverwriteTwice(content: seq<char>, pos: nat, a: seq<char>, b: seq<char>)
    ensures Overwrite(Overwrite(content, pos, a), pos + |a|, b) == Overwrite(content, pos, a + b)
  {
    if a == [] {
      assert a + b == b;
    } else if b == [] {
      assert a + b == a;
    } else {
      var once := Overwrite(content, pos, a);
      var twice := Overwrite(once, pos + |a|, b);
      OverwriteBytes(content, pos, a, once);
      OverwriteBytes(once, pos + |a|, b, twice);
      OverwrittenTwice(once, twice, content, pos, a, b);
      OverwriteBytes(content, pos, a + b, twice);
    }
  }

  lemma OverwriteAtEnd(content: seq<char>, data: seq<char>)
    ensures Overwrite(content, |content|, data) == content + data
  {
  }

  method CopyIn(buf: array<char>, at: nat, data: seq<char>)
    requires at + |data| <= buf.Length
    modifies buf
    ensures buf[..] == Patch(old(buf[..]), at, data)
  {
    forall i | 0 <= i < |data| {
      buf[at + i] := data[i];
    }
  }

  function Min(a: nat, b: nat): (m: nat)
    ensures m <= a && m <= b && (m == a || m == b)
  {
    if a <= b then a else b
  }

  /** An open descriptor. What is to be received on it is `input` and then the end of the input; on a
      non-blocking descriptor a call sees only what has arrived of that. What has been written to it
      is `content`, with the position of the next read or write of a file; a connection is always at
      its end. */
  class Descriptor {
    const number: int
    const blocking: bool
    const arriving: bool      // whether more may arrive while a call is under way
    var input: seq<char>
    var arrived: nat          // how many bytes of the input have arrived
    var ended: bool           // whether the end of the input has
    var content: seq<char>
    var pos: nat
    var interrupts: nat       // how many more calls may be interrupted or write nothing
    var errors: nat           // how many more calls may fail for reasons of their own
    ghost var asked: seq<nat> // the sizes asked of sendfile
    ghost var mostPeeked: nat // the most a peek has asked for

    constructor (number: int, blocking: bool, arriving: bool, input: seq<char>, interrupts: nat, errors: nat)
      ensures this.number == number && this.blocking == blocking && this.arriving == arriving
      ensures this.input == input && arrived == 0 && !ended && content == [] && pos == 0
      ensures this.interrupts == interrupts && this.errors == errors && asked == [] && mostPeeked == 0
    {
      this.number, this.blocking, this.arriving := number, blocking, arriving;
      this.input, arrived, ended := input, 0, false;
      content, pos := [], 0;
      this.interrupts, this.errors, asked, mostPeeked := interrupts, errors, [], 0;
    }

    /** How much a call can take. */
    function Waiting(): nat
      reads this
    {
      if blocking then |input| else Min(arrived, |input|)
    }

    /** Whether a call reports the end of the input. */
    predicate AtEnd()
      reads this
    {
      input == [] && (blocking || ended)
    }

    /** More of the input arrives, with the end of it after the last byte. */
    method Arrive(more: nat, end: bool)
      modifies this`arrived, this`ended
      ensures arrived == old(arrived) + more && (ended <==> old(ended) || end)
    {
      arrived, ended := arrived + more, ended || end;
    }

    /** Whatever else may arrive during a call. */
    method MaybeArrive()
      modifies this`arrived, this`ended
      ensures arrived >= old(arrived) && (old(ended) ==> ended)
      ensures !arriving ==> arrived == old(arrived) && ended == old(ended)
    {
      var more: nat, end: bool := *, *;
      if arriving {
        Arrive(more, end);
      }
    }

    /** `read`, or `recv` with MSG_PEEK: some of the bytes waiting, at least one if there are any, and
        EAGAIN if there are none and the input has not ended. It may be asked for more than there is
        room for, which goes well as long as no more comes. */
    method Recv(buf: array<char>, at: nat, n: nat, peek: bool) returns (r: IoResult, ghost got: seq<char>)
      requires 0 < n && at <= buf.Length
      modifies this`input, this`arrived, this`ended, this`interrupts, this`errors, buf
      ensures Took(this, if peek then 0 else |got|)
      ensures r.Failed? <==> errors < old(errors)
      ensures r.Interrupted? ==> interrupts < old(interrupts)
      ensures r.WouldBlock? ==> Dry(this)
      ensures r.Overrun? ==>
        buf.Length < at + Min(n, |input|) && (!blocking ==> buf.Length < at + arrived) && input == old(input)
      ensures |got| == (if r.Moved? then r.n else 0) <= n && at + |got| <= buf.Length
      ensures buf[..] == Patch(old(buf[..]), at, got)
      ensures if peek then got <= input == old(input) else old(input) == got + input
      ensures r.Moved? ==> (r.n == 0 ==> AtEnd()) && (!blocking && peek ==> r.n <= arrived)
    {
      MaybeArrive();
      PatchNothing(buf[..], at);
      got := [];
      var fails: bool, interrupted: bool := *, *;
      if errors > 0 && fails {
        errors := errors - 1;
        return Failed, got;
      }
      if interrupts > 0 && interrupted {
        interrupts := interrupts - 1;
        return Interrupted, got;
      }
      if Waiting() == 0 && !AtEnd() {
        return WouldBlock, got;
      }
      var k: nat :| k <= Min(n, Waiting()) && (k == 0 <==> Waiting() == 0);
      assert k <= Min(n, Waiting()) && k <= |input|;
      if at + k > buf.Length {
        return Overrun, got;
      }
      got := input[..k];
      CopyIn(buf, at, input[..k]);
      StartsWith(got, input);
      if !peek {
        input := input[k..];
        arrived := if k <= arrived then arrived - k else 0;
      }
      r := Moved(k);
    }

    /** The peeking form, with a note of how much it asks for. */
    method Peek(buf: array<char>, at: nat, n: nat) returns (r: IoResult, ghost got: seq<char>)
      requires 0 < n && at <= buf.Length
      modifies this`input, this`arrived, this`ended, this`interrupts, this`errors, this`mostPeeked, buf
      ensures mostPeeked == if old(mostPeeked) < n then n else old(mostPeeked)
      ensures Took(this, 0) && got <= input == old(input)
      ensures r.Failed? <==> errors < old(errors)
      ensures r.Interrupted? ==> interrupts < old(interrupts)
      ensures r.WouldBlock? ==> Dry(this)
      ensures r.Overrun? ==>
        buf.Length < at + Min(n, |input|) && (!blocking ==> buf.Length < at + arrived)
      ensures |got| == (if r.Moved? then r.n else 0) <= n && at + |got| <= buf.Length
      ensures buf[..] == Patch(old(buf[..]), at, got)
      ensures r.Moved? ==> (r.n == 0 ==> AtEnd()) && (!blocking ==> r.n <= arrived)
    {
      r, got := Recv(buf, at, n, true);
      if mostPeeked < n {
        mostPeeked := n;
      }
    }

    /** `write`: some of the bytes offered. */
    method Write(data: seq<char>) returns (r: IoResult, ghost put: seq<char>)
      modifies this`content, this`pos, this`interrupts, this`errors
      ensures interrupts <= old(interrupts) && errors <= old(errors)
      ensures (r.Moved? || r.Interrupted? || r.Failed?) && (r.Failed? <==> errors < old(errors))
      ensures r.Interrupted? || r == Moved(0) ==> interrupts < old(interrupts) || data == []
      ensures |put| == (if r.Moved? then r.n else 0) && put <= data
      ensures pos == old(pos) + |put| && content == Overwrite(old(content), old(pos), put)
    {
      put := [];
      var fails: bool, idle: bool, interrupted: bool := *, *, *;
      if errors > 0 && fails {
        errors := errors - 1;
        return Failed, put;
      }
      if interrupts > 0 && idle {
        interrupts := interrupts - 1;
        return if interrupted then Interrupted else Moved(0), put;
      }
      var k: nat :| k <= |data| && (k == 0 <==> data == []);
      put := data[..k];
      content, pos := Overwrite(content, pos, data[..k]), pos + k;
      r := Moved(k);
    }
  }

  lemma PatchNothing(s: seq<char>, at: nat)
    requires at <= |s|
    ensures Patch(s, at, []) == s
  {
  }

  lemma PatchTwice(s: seq<char>, at: nat, a: seq<char>, b: seq<char>)
    requires at + |a| + |b| <= |s|
    ensures Patch(Patch(s, at, a), at + |a|, b) == Patch(s, at, a + b)
  {
  }

  /** `n` of the bytes from a position on. */
  function Part(s: seq<char>, pos: nat, n: nat): (part: seq<char>)
    requires n > 0 ==> pos + n <= |s|
    ensures |part| == n
  {
    if n == 0 then [] else Part(s, pos, n - 1) + [s[pos + n - 1]]
  }

  lemma {:induction false} PartIs(s: seq<char>, pos: nat, n: nat)
    requires pos + n <= |s|
    ensures Part(s, pos, n) == s[pos..pos + n]
  {
    if n > 0 {
      PartIs(s, pos, n - 1);
    }
  }

  lemma {:induction false} PartMore(s: seq<char>, pos: nat, k: nat, n: nat)
    requires k + n > 0 ==> pos + k + n <= |s|
    ensures Part(s, pos, k) + Part(s, pos + k, n) == Part(s, pos, k + n)
  {
    if n > 0 {
      PartMore(s, pos, k, n - 1);
      Regroup(Part(s, pos, k), Part(s, pos + k, n - 1), [s[pos + k + n - 1]]);
    } else {
      assert Part(s, pos, k) + [] == Part(s, pos, k);
    }
  }

  /** `sendfile`: some of the file's bytes from its position on, appended to a connection. Its
      callers treat EINTR like any other failure, so it is one here. */
  method SendFile(conn: Descriptor, file: Descriptor, n: nat) returns (r: IoResult)
    requires conn != file && conn.pos == |conn.content|
    modifies conn`content, conn`pos, conn`interrupts, conn`errors, conn`asked, file`pos
    ensures conn.asked == old(conn.asked) + [n]
    ensures conn.pos == |conn.content| && conn.interrupts <= old(conn.interrupts) && conn.errors <= old(conn.errors)
    ensures r.Moved? || r.Failed?
    ensures r.Failed? <==> conn.errors < old(conn.errors)
    ensures r.Failed? ==> conn.content == old(conn.content) && file.pos == old(file.pos)
    ensures r.Moved? ==>
      && r.n <= n && file.pos == old(file.pos) + r.n
      && (r.n == 0 ==> conn.interrupts < old(conn.interrupts) || n == 0 || file.pos >= |file.content|)
      && (r.n > 0 ==> file.pos <= |file.content|)
      && conn.content == old(conn.content) + Part(file.content, old(file.pos), r.n)
  {
    conn.asked := conn.asked + [n];
    var fails: bool, idle: bool := *, *;
    if conn.errors > 0 && fails {
      conn.errors := conn.errors - 1;
      return Failed;
    }
    if conn.interrupts > 0 && idle {
      conn.interrupts := conn.interrupts - 1;
      return Moved(0);
    }
    var left := if file.pos < |file.content| then Min(n, |file.content| - file.pos) else 0;
    var k: nat :| k <= left && (k == 0 <==> left == 0);
    conn.content := conn.content + Part(file.content, file.pos, k);
    conn.pos, file.pos := |conn.content|, file.pos + k;
    r := Moved(k);
  }

  /** Between two states, `k` bytes were taken; more may have arrived meanwhile, if any may. */
  twostate predicate Took(fd: Descriptor, k: nat)
    reads fd
  {
    && old(fd.arrived) <= fd.arrived + k && (old(fd.ended) ==> fd.ended)
    && (!fd.arriving ==> fd.ended == old(fd.ended))
    && (!fd.arriving && !fd.blocking ==> old(fd.arrived) == fd.arrived + k)
    && fd.interrupts <= old(fd.interrupts) && fd.errors <= old(fd.errors)
  }

  /** A call on this descriptor has nothing to report but EAGAIN. */
  predicate Dry(fd: Descriptor)
    reads fd
  {
    !fd.blocking && fd.Waiting() == 0 && !fd.AtEnd()
  }

  /** One `read` of the loop of `readn`: the buffer holds `next` bytes, or the loop ends. */
  datatype ReadPass = ReadOn | EndOfInput | Error

  method ReadOnce(fd: Descriptor, buf: array<char>, at: nat, k: nat, cnt: nat,
                  ghost before: seq<char>, ghost input: seq<char>, ghost took: seq<char>)
    returns (pass: ReadPass, next: nat, ghost taken: seq<char>)
    requires k == |took| < cnt && at + cnt <= buf.Length == |before|
    requires input == took + fd.input && buf[..] == Patch(before, at, took)
    modifies fd`input, fd`arrived, fd`ended, fd`interrupts, fd`errors, buf
    ensures k <= next == |taken| <= cnt && Took(fd, next - k)
    ensures input == taken + fd.input && buf[..] == Patch(before, at, taken)
    ensures pass.ReadOn? ==> k < next || fd.interrupts < old(fd.interrupts)
    ensures !pass.ReadOn? ==> next == k
    ensures pass.EndOfInput? ==> fd.input == []
    ensures pass.Error? ==> fd.errors < old(fd.errors) || Dry(fd)
    ensures !pass.Error? ==> fd.errors == old(fd.errors)
  {
    var nread;
    ghost var got;
    nread, got := fd.Recv(buf, at + k, cnt - k, false);
    PatchTwice(before, at, took, got);
    Regroup(took, got, fd.input);
    taken := took + got;
    next := if nread.Moved? then k + nread.n else k;
    pass := if nread.Interrupted? then ReadOn
            else if !nread.Moved? then Error
            else if nread.n == 0 then EndOfInput else ReadOn;
  }

  /** `readn`: all of the bytes asked for, fewer only at the end of the input, or -1 when a call fails
      or would have to wait. */
  method ReadN(fd: Descriptor, buf: array<char>, at: nat, cnt: nat) returns (r: int, ghost took: seq<char>)
    requires at + cnt <= buf.Length
    modifies fd`input, fd`arrived, fd`ended, fd`interrupts, fd`errors, buf
    ensures Took(fd, |took|) && |took| <= cnt
    ensures old(fd.input) == took + fd.input && buf[..] == Patch(old(buf[..]), at, took)
    ensures r == -1 || (r == |took| && (|took| < cnt ==> fd.input == []))
    ensures r == -1 ==> fd.errors < old(fd.errors) || (|took| < cnt && Dry(fd))
    ensures r != -1 ==> fd.errors == old(fd.errors)
  {
    ghost var before, input := buf[..], fd.input;
    PatchNothing(before, at);
    var done := 0;
    took := [];
    while done < cnt
      invariant done == |took| <= cnt
      invariant input == took + fd.input && buf[..] == Patch(before, at, took)
      invariant Took(fd, done) && fd.errors == old(fd.errors)
      decreases cnt - done, fd.interrupts
    {
      var pass;
      pass, done, took := ReadOnce(fd, buf, at, done, cnt, before, input, took);
      if pass.EndOfInput? {
        return done, took;
      }
      if pass.Error? {
        return -1, took;
      }
    }
    r := cnt;
  }

  /** One `write` of the loop of `writen`: `left` remains to be written, or the loop ends. */
  method WriteOnce(fd: Descriptor, rest: seq<char>, ghost content: seq<char>, ghost pos: nat, ghost wrote: seq<char>)
    returns (failed: bool, left: seq<char>, ghost written: seq<char>)
    requires rest != [] && fd.pos == pos + |wrote| && fd.content == Overwrite(content, pos, wrote)
    modifies fd`content, fd`pos, fd`interrupts, fd`errors
    ensures fd.interrupts <= old(fd.interrupts) && fd.errors <= old(fd.errors)
    ensures wrote + rest == written + left
    ensures fd.pos == pos + |written| && fd.content == Overwrite(content, pos, written)
    ensures failed <==> fd.errors < old(fd.errors)
    ensures failed || |left| < |rest| || (left == rest && fd.interrupts < old(fd.interrupts))
  {
    var nwrite;
    ghost var put;
    nwrite, put := fd.Write(rest);
    OverwriteTwice(content, pos, wrote, put);
    StartsWith(put, rest);
    failed, left := nwrite.Failed?, if nwrite.Moved? then rest[nwrite.n..] else rest;
    assert put + left == rest;
    Regroup(wrote, put, left);
    written := wrote + put;
  }

  /** `writen`: all of the bytes across any number of short writes, or -1 when a call fails. */
  method WriteN(fd: Descriptor, buf: seq<char>) returns (r: int, ghost wrote: seq<char>)
    modifies fd`content, fd`pos, fd`interrupts, fd`errors
    ensures fd.interrupts <= old(fd.interrupts) && fd.errors <= old(fd.errors)
    ensures wrote <= buf && fd.pos == old(fd.pos) + |wrote|
    ensures fd.content == Overwrite(old(fd.content), old(fd.pos), wrote)
    ensures r == -1 || (r == |buf| && wrote == buf)
    ensures r == -1 <==> fd.errors < old(fd.errors)
  {
    var rest := buf;
    wrote := [];
    while rest != []
      invariant wrote + rest == buf && fd.pos == old(fd.pos) + |wrote|
      invariant fd.content == Overwrite(old(fd.content), old(fd.pos), wrote)
      invariant fd.interrupts <= old(fd.interrupts) && fd.errors == old(fd.errors)
      decreases |rest|, fd.interrupts
    {
      var failed;
      failed, rest, wrote := WriteOnce(fd, rest, old(fd.content), old(fd.pos), wrote);
      if failed {
        return -1, wrote;
      }
    }
    r := |buf|;
  }

  /** `recv_peek`: retry until the call is not interrupted. */
  method RecvPeek(fd: Descriptor, buf: array<char>, at: nat, len: nat)
    returns (r: int, overrun: bool, ghost shown: seq<char>)
    requires 0 < len && at <= buf.Length
    modifies fd`input, fd`arrived, fd`ended, fd`interrupts, fd`errors, fd`mostPeeked, buf
    ensures Took(fd, 0) && shown <= fd.input == old(fd.input) && |shown| <= len && at + |shown| <= buf.Length
    ensures buf[..] == Patch(old(buf[..]), at, shown)
    ensures fd.mostPeeked == if old(fd.mostPeeked) < len then len else old(fd.mostPeeked)
    ensures overrun ==>
      && buf.Length < at + Min(len, |fd.input|) && (!fd.blocking ==> buf.Length < at + fd.arrived)
      && fd.errors == old(fd.errors)
    ensures !overrun && r == -1 ==> shown == [] && (fd.errors < old(fd.errors) || Dry(fd))
    ensures !overrun && r != -1 ==>
      && r == |shown| && (r == 0 ==> fd.AtEnd()) && fd.errors == old(fd.errors)
      && (!fd.blocking ==> r <= fd.arrived)
  {
    PatchNothing(buf[..], at);
    while true
      invariant fd.input == old(fd.input) && buf[..] == old(buf[..])
      invariant Took(fd, 0) && fd.errors == old(fd.errors)
      invariant fd.mostPeeked == old(fd.mostPeeked) ||
        (old(fd.mostPeeked) < len && fd.mostPeeked == len)
      decreases fd.interrupts
    {
      var ret;
      ret, shown := fd.Peek(buf, at, len);
      match ret {
        case Interrupted =>
        case WouldBlock => return -1, false, shown;
        case Failed => return -1, false, shown;
        case Overrun => return -1, true, shown;
        case Moved(n) => return n, false, shown;
      }
    }
  }
}
