/** `readline` of sysutil.cpp: peek, look for the end of the line, then take exactly that much. */
module LineReader {
  import opened CStrings
  import opened StreamIo
  import opened Framing
  import opened Seqs

  /** `strchr`: the position of the first `c` before any NUL, or -1 for its null result. Reading on
      past the buffer is undefined. */
  function StrChr(s: seq<char>, c: char): (n: int)
    requires c in s || NUL in s
    ensures -1 <= n < |s|
    ensures n >= 0 ==> s[n] == c
  {
    if s[0] == c then 0
    else if s[0] == NUL then -1
    else
      var n := StrChr(s[1..], c);
      if n == -1 then -1 else n + 1
  }

  /** In bytes followed by a zeroed rest, it finds the first `c` if no NUL comes before it. */
  lemma {:induction false} StrChrInData(data: seq<char>, pad: seq<char>, c: char)
    requires c != NUL && Zeroed(pad)
    requires c in data || pad != []
    requires NUL !in data[..IndexOf(data, c)]
    ensures c in data + pad || NUL in data + pad
    ensures StrChr(data + pad, c) == if IndexOf(data, c) < |data| then IndexOf(data, c) else -1
  {
    var s := data + pad;
    if data == [] {
      assert s == pad && pad[0] == NUL;
    } else if data[0] == c {
      assert s[0] == c;
    } else {
      var rest := data[1..];
      assert data[0] == data[..IndexOf(data, c)][0];
      assert forall i :: 0 <= i < IndexOf(rest, c) ==> rest[..IndexOf(rest, c)][i] == data[..IndexOf(data, c)][i + 1];
      StrChrInData(rest, pad, c);
      assert s[1..] == rest + pad;
      assert forall x :: x in rest + pad ==> x in s;
    }
  }

  /** A peek behind the bytes that were taken shows more of the input. */
  lemma ShowMore(before: seq<char>, input: seq<char>, tot: nat, shown: seq<char>)
    requires tot <= |input| && shown <= input[tot..] && tot + |shown| <= |before|
    ensures tot + |shown| <= |input|
    ensures Patch(Patch(before, 0, input[..tot]), tot, shown) == Patch(before, 0, input[..tot + |shown|])
  {
    StartsWith(shown, input[tot..]);
    TailOfTail(input, tot, shown, input[tot..][|shown|..]);
    PatchTwice(before, 0, input[..tot], shown);
  }

  /** Reading bytes that were already looked at changes nothing in the buffer. */
  lemma ShowAgain(before: seq<char>, input: seq<char>, tot: nat, took: seq<char>, rest: seq<char>, peeked: nat)
    requires tot + |took| <= peeked <= Min(|before|, |input|) && input[tot..] == took + rest
    ensures Patch(Patch(before, 0, input[..peeked]), tot, took) == Patch(before, 0, input[..peeked])
    ensures rest == input[tot + |took|..]
  {
    TailOfTail(input, tot, took, rest);
    assert forall i :: 0 <= i < |took| ==> took[i] == input[tot..][i];
  }

  /** `recv_peek` in `readline`: the buffer shows some more of the input, and nothing is taken. What is
      shown overruns the buffer when it leaves no NUL behind it for the searches that follow. */
  method PeekMore(fd: Descriptor, buf: array<char>, tot: nat, rest: nat,
                  ghost before: seq<char>, ghost input: seq<char>)
    returns (nread: int, overrun: bool)
    requires 0 < rest && tot < buf.Length == |before| && tot <= |input| && fd.input == input[tot..]
    requires buf[..] == Patch(before, 0, input[..tot])
    modifies fd`input, fd`arrived, fd`ended, fd`interrupts, fd`errors, fd`mostPeeked, buf
    ensures fd.mostPeeked == if old(fd.mostPeeked) < rest then rest else old(fd.mostPeeked)
    ensures Took(fd, 0) && fd.input == old(fd.input)
    ensures overrun ==>
      buf.Length <= |input| && (!fd.blocking ==> buf.Length <= tot + fd.arrived) && fd.errors == old(fd.errors)
    ensures !overrun && nread == -1 ==> fd.errors < old(fd.errors) || Dry(fd)
    ensures !overrun && nread != -1 ==>
      && 0 <= nread <= |input| - tot && tot + nread < buf.Length
      && (nread == 0 ==> fd.AtEnd()) && fd.errors == old(fd.errors)
      && (!fd.blocking ==> nread <= fd.arrived)
      && buf[..] == Patch(before, 0, input[..tot + nread])
  {
    ghost var shown;
    nread, overrun, shown := RecvPeek(fd, buf, tot, rest);
    ShowMore(before, input, tot, shown);
    overrun := overrun || tot + nread == buf.Length;
  }

  /** `readn` in `readline`: bytes already shown are taken, and the buffer stays as it is. Since they
      have arrived, only a failing call can stop it, after `k` of them. */
  method TakeShown(fd: Descriptor, buf: array<char>, tot: nat, n: nat,
                   ghost before: seq<char>, ghost input: seq<char>, ghost peeked: nat)
    returns (ret: int, ghost k: nat)
    requires tot + n <= peeked <= Min(|before|, |input|) && buf.Length == |before|
    requires fd.input == input[tot..] && buf[..] == Patch(before, 0, input[..peeked])
    requires !fd.blocking ==> n <= fd.arrived
    modifies fd`input, fd`arrived, fd`ended, fd`interrupts, fd`errors, buf
    ensures Took(fd, k) && k <= n && fd.input == input[tot + k..]
    ensures ret == n <==> fd.errors == old(fd.errors)
    ensures ret == n ==> k == n && buf[..] == Patch(before, 0, input[..peeked])
  {
    ghost var took;
    ret, took := ReadN(fd, buf, tot, n);
    ShowAgain(before, input, tot, took, fd.input, peeked);
    k := |took|;
  }

  /** The search in `readline`, after a peek. */
  method FindEnd(buf: array<char>, tot: nat, ghost before: seq<char>, ghost input: seq<char>, ghost peeked: nat)
    returns (p: int)
    requires Zeroed(before) && |before| == buf.Length && NUL !in FirstLine(input)
    requires Taken(input, tot) && tot < peeked <= |input| && peeked < buf.Length
    requires buf[..] == Patch(before, 0, input[..peeked])
    ensures p == if Complete(FirstLine(input)) && |FirstLine(input)| <= peeked then |FirstLine(input)| - tot - 1 else -1
    ensures p == -1 ==> Taken(input, peeked)
  {
    Peeked(input, before, tot, peeked - tot);
    assert buf[tot..] == buf[..][tot..];
    p := StrChr(buf[tot..], '\n');
  }

  /** How far the first line has been taken: all of it, or less with its end still to come. */
  ghost predicate Taken(input: seq<char>, tot: nat) {
    tot <= |FirstLine(input)| && (tot == |FirstLine(input)| ==> !Complete(FirstLine(input)))
  }

  /** The first line can be had without waiting: all of it has arrived, and when it is unfinished also
      the end of the input. */
  ghost predicate Ready(fd: Descriptor)
    reads fd
  {
    var line := FirstLine(fd.input);
    || fd.blocking
    || (Complete(line) && |line| <= fd.arrived)
    || (!Complete(line) && |line| <= fd.arrived && fd.ended)
  }

  /** The most that a peek can show. */
  ghost function CanShow(fd: Descriptor): nat
    reads fd
  {
    if fd.blocking || fd.arriving then |fd.input| else Min(fd.arrived, |fd.input|)
  }

  datatype Step = Again(tot: nat) | Return(ret: int) | Exit | Overrun

  /** The end of a pass that has looked for the end of the line: everything up to `next` is taken, which
      is the end of the line or as far as has been shown. */
  method TakeUpTo(fd: Descriptor, buf: array<char>, tot: nat, next: nat, found: bool,
                  ghost before: seq<char>, ghost input: seq<char>, ghost peeked: nat)
    returns (step: Step, ghost taken: nat)
    requires tot <= next <= peeked <= Min(|before|, |input|) && buf.Length == |before|
    requires fd.input == input[tot..] && buf[..] == Patch(before, 0, input[..peeked])
    requires !fd.blocking ==> next - tot <= fd.arrived
    modifies fd`input, fd`arrived, fd`ended, fd`interrupts, fd`errors, buf
    ensures tot <= taken <= next && Took(fd, taken - tot) && fd.input == input[taken..]
    ensures step == if fd.errors < old(fd.errors) then Exit else if found then Return(next) else Again(next)
    ensures !step.Exit? ==> taken == next && buf[..] == Patch(before, 0, input[..peeked])
  {
    var ret;
    ghost var k;
    ret, k := TakeShown(fd, buf, tot, next - tot, before, input, peeked);
    taken := tot + k;
    step := if ret != next - tot then Exit else if found then Return(next) else Again(next);
  }

  /** One pass through the loop of `readline`, which takes the bytes up to `taken`. A peek never shows
      more than it was asked for, so the check for that has no case here. */
  method ReadStep(fd: Descriptor, buf: array<char>, tot: nat, rest: nat,
                  ghost before: seq<char>, ghost input: seq<char>)
    returns (step: Step, ghost peeked: nat, ghost taken: nat)
    requires Zeroed(before) && 0 < rest && tot < |before| == buf.Length && NUL !in FirstLine(input)
    requires Taken(input, tot) && fd.input == input[tot..] && buf[..] == Patch(before, 0, input[..tot])
    modifies fd`input, fd`arrived, fd`ended, fd`interrupts, fd`errors, fd`mostPeeked, buf
    ensures fd.mostPeeked == if old(fd.mostPeeked) < rest then rest else old(fd.mostPeeked)
    ensures tot <= taken <= |FirstLine(input)| && Took(fd, taken - tot) && fd.input == input[taken..]
    ensures step.Exit? ==> fd.errors < old(fd.errors)
    ensures step.Overrun? ==>
      && taken == tot && fd.errors == old(fd.errors)
      && buf.Length <= |input| && (!fd.blocking ==> buf.Length <= tot + fd.arrived)
    ensures step.Again? ==>
      && step.tot == taken && tot < taken < buf.Length && Taken(input, taken) && fd.errors == old(fd.errors)
      && buf[..] == Patch(before, 0, input[..taken])
    ensures step.Return? ==> -1 <= step.ret
    ensures step == Return(-1) ==> Taken(input, taken) && (fd.errors < old(fd.errors) || Dry(fd))
    ensures step.Return? && step.ret >= 0 ==>
      && taken == |FirstLine(input)| && fd.errors == old(fd.errors)
      && step.ret == (if Complete(FirstLine(input)) then |FirstLine(input)| else 0)
      && |FirstLine(input)| <= peeked <= |input| && peeked < buf.Length
      && buf[..] == Patch(before, 0, input[..peeked])
      && (step.ret == 0 ==> fd.AtEnd())
      && (!fd.blocking && !fd.arriving ==> |FirstLine(input)| <= tot + old(fd.arrived) || step.ret == 0)
  {
    var nread, overrun := PeekMore(fd, buf, tot, rest, before, input);
    peeked, taken := tot, tot;
    if overrun {
      return Step.Overrun, peeked, taken;
    }
    if nread <= 0 {
      return Return(nread), peeked, taken;
    }
    peeked := tot + nread;
    var p := FindEnd(buf, tot, before, input, peeked);
    step, taken := TakeUpTo(fd, buf, tot, if p >= 0 then tot + p + 1 else tot + nread, p >= 0, before, input, peeked);
  }

  /** What comes of `readline`: a result, the exit on a failed `readn`, or an overrun of the buffer. */
  datatype ReadResult = Returned(ret: int) | Exits | Overruns

  /** The whole of a line, however the kernel chops it up. `peeked` bytes are left in the buffer: the
      line, and what was looked at of later ones. A result of 0 stands for the end of the input, also
      in the middle of a line.

      The call asks for up to `len` bytes, which may be more than the buffer holds; it cannot overrun
      the buffer unless that much can be shown. Otherwise, without an error of its own, it succeeds if
      and only if the line is ready beforehand, as long as nothing arrives meanwhile; else it takes
      what has arrived of the line and returns -1. */
  method ReadLine(fd: Descriptor, buf: array<char>, len: nat)
    returns (r: ReadResult, ghost peeked: nat, ghost taken: nat)
    requires 0 < buf.Length <= len && Zeroed(buf[..]) && NUL !in FirstLine(fd.input)
    modifies fd`input, fd`arrived, fd`ended, fd`interrupts, fd`errors, fd`mostPeeked, buf
    ensures fd.mostPeeked == if old(fd.mostPeeked) < len then len else old(fd.mostPeeked)
    ensures taken <= |FirstLine(old(fd.input))| && Took(fd, taken) && fd.input == old(fd.input)[taken..]
    ensures r.Returned? ==> -1 <= r.ret
    ensures r.Returned? && r.ret >= 0 ==>
      var line := FirstLine(old(fd.input));
      && taken == |line|
      && r.ret == (if Complete(line) then |line| else 0)
      && |line| <= peeked <= |old(fd.input)| && peeked < buf.Length
      && buf[..] == Patch(old(buf[..]), 0, old(fd.input)[..peeked])
    ensures r.Overruns? ==> buf.Length <= old(CanShow(fd)) && fd.errors == old(fd.errors)
    ensures fd.errors == old(fd.errors) && old(Ready(fd)) && !r.Overruns? ==> r.Returned? && r.ret >= 0
    ensures fd.errors == old(fd.errors) && !old(Ready(fd)) && !fd.arriving && !r.Overruns? ==>
      r == Returned(-1) && taken == Min(old(fd.arrived), |old(fd.input)|)
    ensures fd.errors < old(fd.errors) ==> r.Exits? || r == Returned(-1)
  {
    ghost var before, input := buf[..], fd.input;
    var tot := 0;
    taken := 0;
    PatchNothing(before, 0);
    while true
      invariant tot == taken && tot < buf.Length && Taken(input, tot)
      invariant fd.input == input[tot..] && buf[..] == Patch(before, 0, input[..tot])
      invariant Took(fd, tot) && fd.errors == old(fd.errors)
      invariant if tot == 0 then fd.mostPeeked == old(fd.mostPeeked)
                else fd.mostPeeked == if old(fd.mostPeeked) < len then len else old(fd.mostPeeked)
      decreases buf.Length - tot
    {
      var step;
      step, peeked, taken := ReadStep(fd, buf, tot, len - tot, before, input);
      match step {
        case Again(n) => tot := n;
        case Return(n) => return Returned(n), peeked, taken;
        case Exit => return Exits, peeked, taken;
        case Overrun => return Overruns, peeked, taken;
      }
    }
  }

  /** The first `c` of a part that does not start behind the first `c` of the whole. */
  lemma IndexOfPart(s: seq<char>, c: char, at: nat, k: nat)
    requires at <= IndexOf(s, c) && at + k <= |s|
    ensures IndexOf(s[at..at + k], c) == Min(k, IndexOf(s, c) - at)
  {
    NoneBefore(s, c);
    IndexOfIs(s[at..at + k], c, Min(k, IndexOf(s, c) - at));
  }

  /** What the search finds in some of the input and NULs behind it: the end of the first line as soon
      as it is there. */
  lemma SearchShown(input: seq<char>, pad: seq<char>, tot: nat, nread: nat)
    requires Zeroed(pad) && pad != [] && NUL !in FirstLine(input)
    requires Taken(input, tot) && 0 < nread && tot + nread <= |input|
    ensures var line, shown := FirstLine(input), input[tot..tot + nread] + pad;
      && ('\n' in shown || NUL in shown)
      && (if Complete(line) && |line| <= tot + nread then StrChr(shown, '\n') == |line| - tot - 1
          else StrChr(shown, '\n') == -1 && Taken(input, tot + nread))
  {
    var data := input[tot..tot + nread];
    FirstLineEnds(input);
    IndexOfPart(input, '\n', tot, nread);
    NoNulShown(input, tot, nread);
    StrChrInData(data, pad, '\n');
  }

  /** The same in the buffer, after a peek. */
  lemma Peeked(input: seq<char>, before: seq<char>, tot: nat, nread: nat)
    requires Zeroed(before) && NUL !in FirstLine(input)
    requires Taken(input, tot) && 0 < nread && tot + nread <= |input| && tot + nread < |before|
    ensures var line, shown := FirstLine(input), Patch(before, 0, input[..tot + nread])[tot..];
      && ('\n' in shown || NUL in shown)
      && (if Complete(line) && |line| <= tot + nread then StrChr(shown, '\n') == |line| - tot - 1
          else StrChr(shown, '\n') == -1 && Taken(input, tot + nread))
  {
    ShownIs(input, before, tot, nread);
    SearchShown(input, before[tot + nread..], tot, nread);
  }

  lemma ShownIs(input: seq<char>, before: seq<char>, tot: nat, nread: nat)
    requires Zeroed(before) && tot + nread <= |input| && tot + nread < |before|
    ensures Patch(before, 0, input[..tot + nread])[tot..] == input[tot..tot + nread] + before[tot + nread..]
    ensures Zeroed(before[tot + nread..])
  {
  }

  lemma NoNulShown(input: seq<char>, tot: nat, nread: nat)
    requires NUL !in FirstLine(input) && tot <= |FirstLine(input)| && tot + nread <= |input|
    requires tot <= IndexOf(input, '\n')
    ensures var data := input[tot..tot + nread]; NUL !in data[..IndexOf(data, '\n')]
  {
    var line, data := FirstLine(input), input[tot..tot + nread];
    FirstLineEnds(input);
    IndexOfPart(input, '\n', tot, nread);
    assert forall i :: 0 <= i < IndexOf(data, '\n') ==> data[i] == line[tot + i];
  }

  lemma FirstLineEnds(input: seq<char>)
    ensures var n := IndexOf(input, '\n');
      if n < |input| then Complete(FirstLine(input)) && |FirstLine(input)| == n + 1
      else !Complete(FirstLine(input)) && FirstLine(input) == input
  {
  }
}
