/**
 The server's end of a control connection (ftpproto.cpp): one command is read into the buffers of the
 session per input event.
 */
module ControlConnections {
  import opened CStrings
  import opened StreamIo
  import opened Framing
  import opened LineReader
  import opened Commands
  import opened ControlRuns
  import opened Seqs
  import opened Sessions

  /** After the line has been read and trimmed, the buffer holds its text: what was looked at of later
      lines lies behind a NUL. */
  lemma TrimmedLine(input: seq<char>, zeros: seq<char>, peeked: nat, after: seq<char>)
    requires Zeroed(zeros) && peeked <= |input| && peeked < |zeros|
    requires Complete(FirstLine(input)) && NUL !in FirstLine(input) && |FirstLine(input)| <= peeked
    requires NUL in Patch(zeros, 0, input[..peeked]) && Trimmed(Patch(zeros, 0, input[..peeked]), after)
    ensures NUL in after && CStr(after) == CutAtCrlf(FirstLine(input))
  {
    var line, shown := FirstLine(input), Patch(zeros, 0, input[..peeked]);
    assert shown[..|line|] == line;
    TrimmedIsCut(shown, after);
    LineIsPrefix(shown, line);
    CutAtCrlfIs(CStr(shown), CutAtCrlf(line));
  }

  lemma LineIsPrefix(shown: seq<char>, line: seq<char>)
    requires NUL in shown && line <= shown && NUL !in line && Complete(line)
    ensures line <= CStr(shown) && CutAtCrlf(line) <= CStr(shown)
    ensures |CutAtCrlf(line)| < |line|
  {
    assert StrLen(shown) >= |line|;
    assert line[|line| - 1] == '\n';
  }

  /** `bzero`. */
  method BZero(buf: array<char>)
    modifies buf
    ensures Zeroed(buf[..])
  {
    forall i | 0 <= i < buf.Length {
      buf[i] := NUL;
    }
  }

  /** Both parts of the text of a line that is in the line buffer have room in theirs. */
  lemma PartsFit(line: seq<char>)
    requires Complete(line) && |line| < MAX_COMMAND
    ensures SplitFits(CutAtCrlf(line), ' ', MAX_COMMAND, MAX_ARG)
  {
    assert line[|line| - 1] == '\n';
  }

  /** These commands, and then what is left. */
  ghost predicate Joined(all: seq<Command>, done: seq<Command>, left: seq<Command>)
    decreases |done|
  {
    if done == [] then all == left
    else all != [] && all[0] == done[0] && Joined(all[1..], done[1..], left)
  }

  lemma {:induction false} OneMore(all: seq<Command>, done: seq<Command>, c: Command, left: seq<Command>)
    requires Joined(all, done, [c] + left)
    ensures Joined(all, done + [c], left)
    decreases |done|
  {
    if done == [] {
      assert ([c] + left)[1..] == left;
    } else {
      OneMore(all[1..], done[1..], c, left);
      assert (done + [c])[1..] == done[1..] + [c];
    }
  }

  lemma {:induction false} Ends(all: seq<Command>, done: seq<Command>, left: seq<Command>)
    requires Joined(all, done, left)
    ensures done <= all && (left == [] ==> all == done)
    decreases |done|
  {
    if done != [] {
      Ends(all[1..], done[1..], left);
    }
  }

  lemma NextOfAll(all: seq<Command>, done: seq<Command>, left: seq<char>, c: Command, later: seq<char>)
    requires Joined(all, done, ParseEach(Lines(left)))
    requires Complete(FirstLine(left)) && c == ParseCommand(FirstLine(left)) && left == FirstLine(left) + later
    ensures Joined(all, done + [c], ParseEach(Lines(later)))
  {
    assert left[|FirstLine(left)|..] == later;
    NextLine(left);
    OneMore(all, done, c, ParseEach(Lines(later)));
  }

  /** A run that has received these commands: either it goes on like this rest of the whole run, or the
      whole run has overrun the buffer before. */
  ghost predicate Keeps(whole: Result, done: seq<Command>, rest: Result) {
    || (Joined(whole.commands, done, rest.commands) && whole.outcome == rest.outcome)
    || Overran(whole, done)
  }

  ghost predicate Overran(whole: Result, done: seq<Command>) {
    whole.outcome.Overflowed? && whole.commands <= done
  }

  lemma Longer(some: seq<Command>, done: seq<Command>, c: Command)
    requires some <= done
    ensures some <= done + [c]
  {
  }

  /** One more command, which the whole run has too unless it overruns the buffer here. */
  lemma KeepsOneMore(whole: Result, done: seq<Command>, rest: Result, c: Command, next: Result)
    requires Keeps(whole, done, rest)
    requires rest == Result([], Overflowed) || rest == Result([c] + next.commands, next.outcome)
    ensures Keeps(whole, done + [c], next)
  {
    if Overran(whole, done) {
      Longer(whole.commands, done, c);
    } else if rest == Result([], Overflowed) {
      Ends(whole.commands, done, []);
      Longer(whole.commands, done, c);
    } else {
      OneMore(whole.commands, done, c, next.commands);
    }
  }

  /** What the contract of the event loop says of a run that has come to its end: it is the whole run,
      unless that overruns the buffer. */
  ghost predicate IsRun(whole: Result, r: Result) {
    && (!whole.outcome.Overflowed? ==> r == whole)
    && (whole.outcome.Overflowed? ==> whole.commands <= r.commands)
  }

  lemma RunEnds(whole: Result, done: seq<Command>, rest: Result, outcome: Outcome)
    requires Keeps(whole, done, rest)
    requires rest.commands == [] && (rest.outcome == outcome || rest.outcome.Overflowed?)
    ensures IsRun(whole, Result(done, outcome))
  {
    if !Overran(whole, done) {
      Ends(whole.commands, done, []);
    }
  }

  /** What an event that brings a command leaves of the run. */
  lemma RunGoesOn(left: seq<char>, arrived: nat, ended: bool, events: seq<Arrival>,
                  c: Command, later: seq<char>, now: nat, end: bool)
    requires events != [] && Complete(FirstLine(left)) && |FirstLine(left)| <= arrived + events[0].more
    requires c == ParseCommand(FirstLine(left)) && left == FirstLine(left) + later
    requires now == arrived + events[0].more - |FirstLine(left)| && end == (ended || events[0].end)
    ensures var rest, next := ControlRun(left, arrived, ended, events), ControlRun(later, now, end, events[1..]);
      rest == Result([], Overflowed) || rest == Result([c] + next.commands, next.outcome)
  {
    assert left[|FirstLine(left)|..] == later;
    RunStep(left, arrived, ended, events);
  }

  /** What an event that brings none leaves of it. */
  lemma RunStops(left: seq<char>, arrived: nat, ended: bool, events: seq<Arrival>, outcome: Outcome)
    requires events != []
    requires Overflows(left, arrived + events[0].more)
      || (outcome.Exited? && !LineArrived(left, arrived + events[0].more, ended || events[0].end))
      || (outcome.Closed? && LineArrived(left, arrived + events[0].more, ended || events[0].end)
          && !Complete(FirstLine(left)))
    ensures var rest := ControlRun(left, arrived, ended, events);
      rest.commands == [] && (rest.outcome == outcome || rest.outcome.Overflowed?)
    ensures Overflows(left, arrived + events[0].more) ==>
      ControlRun(left, arrived, ended, events) == Result([], Overflowed)
  {
  }

  /** Where a run stands: the commands received are the first ones of the stream, and the run keeps to
      that of the events. */
  ghost predicate Stands(all: seq<Command>, whole: Result, done: seq<Command>,
                         left: seq<char>, arrived: nat, ended: bool, events: seq<Arrival>)
  {
    && Joined(all, done, ParseEach(Lines(left)))
    && Keeps(whole, done, ControlRun(left, arrived, ended, events))
  }

  lemma StandsAfter(all: seq<Command>, whole: Result, done: seq<Command>,
                    left: seq<char>, arrived: nat, ended: bool, events: seq<Arrival>,
                    c: Command, later: seq<char>, now: nat, end: bool)
    requires Stands(all, whole, done, left, arrived, ended, events)
    requires events != [] && Complete(FirstLine(left)) && |FirstLine(left)| <= arrived + events[0].more
    requires c == ParseCommand(FirstLine(left)) && left == FirstLine(left) + later
    requires now == arrived + events[0].more - |FirstLine(left)| && end == (ended || events[0].end)
    ensures Stands(all, whole, done + [c], later, now, end, events[1..])
  {
    NextOfAll(all, done, left, c, later);
    RunGoesOn(left, arrived, ended, events, c, later, now, end);
    KeepsOneMore(whole, done, ControlRun(left, arrived, ended, events), c, ControlRun(later, now, end, events[1..]));
  }

  lemma StandsLast(all: seq<Command>, whole: Result, done: seq<Command>, left: seq<char>, arrived: nat,
                   ended: bool, events: seq<Arrival>, outcome: Outcome, failed: bool)
    requires Stands(all, whole, done, left, arrived, ended, events) && events != []
    requires failed
      || Overflows(left, arrived + events[0].more)
      || (outcome.Exited? && !LineArrived(left, arrived + events[0].more, ended || events[0].end))
      || (outcome.Closed? && LineArrived(left, arrived + events[0].more, ended || events[0].end)
          && !Complete(FirstLine(left)))
    ensures done <= all && (!failed ==> IsRun(whole, Result(done, outcome)))
    ensures Overflows(left, arrived + events[0].more) ==> whole.outcome.Overflowed?
  {
    Ends(all, done, ParseEach(Lines(left)));
    if !failed || Overflows(left, arrived + events[0].more) {
      RunStops(left, arrived, ended, events, outcome);
      RunEnds(whole, done, ControlRun(left, arrived, ended, events), outcome);
    }
  }

  class ControlConnection {
    const ctrl: Descriptor
    const cmdline: array<char>
    const cmd: array<char>
    const arg: array<char>

    ghost predicate Valid() {
      && cmdline != cmd && cmdline != arg && cmd != arg
      && cmdline.Length == cmd.Length == MAX_COMMAND && arg.Length == MAX_ARG
    }

    /** The buffers of a session. */
    constructor (ctrl: Descriptor)
      ensures Valid() && this.ctrl == ctrl && cmdline.Length == cmd.Length == 32 && arg.Length == 1024
      ensures fresh(cmdline) && fresh(cmd) && fresh(arg)
    {
      this.ctrl := ctrl;
      cmdline, cmd := new char[MAX_COMMAND](_ => NUL), new char[MAX_COMMAND](_ => NUL);
      arg := new char[MAX_ARG](_ => NUL);
    }

    /** Splitting the trimmed line and raising the command. */
    method SplitAndRaise(ghost text: seq<char>)
      requires Valid() && Zeroed(cmd[..]) && Zeroed(arg[..])
      requires NUL in cmdline[..] && CStr(cmdline[..]) == text
      requires SplitFits(text, ' ', MAX_COMMAND, MAX_ARG)
      modifies cmd, arg
      ensures NUL in cmd[..] && NUL in arg[..]
      ensures var p := IndexOf(text, ' ');
        Command(CStr(cmd[..]), CStr(arg[..]))
        == if p == |text| then Command(Upper(text), "") else Command(Upper(text[..p]), text[p + 1..])
    {
      ghost var p, a := IndexOf(text, ' '), cmd[..];
      StrSplit(cmdline, cmd, arg, ' ');
      if p == |text| {
        CStrIs(cmd[..], text);
        CStrIs(arg[..], "");
      } else {
        SplitHeadExactly(text, p, a);
        CStrIs(arg[..], text[p + 1..]);
      }
      StrUpper(cmd);
    }

    /** Clearing the buffers and reading one line, with the call asking for MAX_COMMAND_LINE bytes. */
    method ReceiveLine() returns (r: ReadResult, ghost peeked: nat, ghost taken: nat, ghost zeros: seq<char>)
      requires Valid() && NUL !in FirstLine(ctrl.input)
      modifies ctrl`input, ctrl`arrived, ctrl`ended, ctrl`interrupts, ctrl`errors, ctrl`mostPeeked
      modifies cmdline, cmd, arg
      ensures ctrl.mostPeeked == if old(ctrl.mostPeeked) < 1024 then 1024 else old(ctrl.mostPeeked)
      ensures Zeroed(cmd[..]) && Zeroed(arg[..]) && Zeroed(zeros) && |zeros| == cmdline.Length
      ensures taken <= |FirstLine(old(ctrl.input))| && Took(ctrl, taken) && ctrl.input == old(ctrl.input)[taken..]
      ensures r.Returned? ==> -1 <= r.ret
      ensures r.Returned? && r.ret >= 0 ==>
        var line := FirstLine(old(ctrl.input));
        && taken == |line|
        && r.ret == (if Complete(line) then |line| else 0)
        && |line| <= peeked <= |old(ctrl.input)| && peeked < MAX_COMMAND
        && cmdline[..] == Patch(zeros, 0, old(ctrl.input)[..peeked])
      ensures r.Overruns? ==> MAX_COMMAND <= old(CanShow(ctrl)) && ctrl.errors == old(ctrl.errors)
      ensures ctrl.errors == old(ctrl.errors) && old(Ready(ctrl)) && !r.Overruns? ==> r.Returned? && r.ret >= 0
      ensures ctrl.errors == old(ctrl.errors) && !old(Ready(ctrl)) && !ctrl.arriving && !r.Overruns? ==>
        r == Returned(-1) && taken == Min(old(ctrl.arrived), |old(ctrl.input)|)
      ensures ctrl.errors < old(ctrl.errors) ==> r.Exits? || r == Returned(-1)
    {
      BZero(cmdline);
      BZero(cmd);
      BZero(arg);
      zeros := cmdline[..];
      r, peeked, taken := ReadLine(ctrl, cmdline, MAX_COMMAND_LINE);
    }

    /** `processCtrlRead` up to the dispatch of the command. The server exits when `readline` fails.

        As long as no more can be shown than the line buffer holds and no call has an error of its own,
        it receives the command exactly when the whole line has arrived, if nothing arrives meanwhile. */
    method ReceiveCommand() returns (outcome: Outcome, ghost taken: nat)
      requires Valid() && NUL !in FirstLine(ctrl.input)
      modifies ctrl`input, ctrl`arrived, ctrl`ended, ctrl`interrupts, ctrl`errors, ctrl`mostPeeked
      modifies cmdline, cmd, arg
      ensures ctrl.mostPeeked == if old(ctrl.mostPeeked) < 1024 then 1024 else old(ctrl.mostPeeked)
      ensures Took(ctrl, taken) && taken <= |FirstLine(old(ctrl.input))| && ctrl.input == old(ctrl.input)[taken..]
      ensures outcome.Open? ==>
        && Complete(FirstLine(old(ctrl.input))) && taken == |FirstLine(old(ctrl.input))| < MAX_COMMAND
        && NUL in cmd[..] && NUL in arg[..]
        && Command(CStr(cmd[..]), CStr(arg[..])) == ParseCommand(FirstLine(old(ctrl.input)))
      ensures outcome.Closed? ==>
        !Complete(FirstLine(old(ctrl.input))) && taken == |FirstLine(old(ctrl.input))|
      ensures outcome.Overflowed? ==> MAX_COMMAND <= old(CanShow(ctrl)) && ctrl.errors == old(ctrl.errors)
      ensures ctrl.errors == old(ctrl.errors) && old(Ready(ctrl)) ==> !outcome.Exited?
      ensures ctrl.errors == old(ctrl.errors) && !old(Ready(ctrl)) && !ctrl.arriving && !outcome.Overflowed? ==>
        outcome.Exited? && taken == Min(old(ctrl.arrived), |old(ctrl.input)|)
      ensures ctrl.errors < old(ctrl.errors) ==> outcome.Exited?
    {
      ghost var input, peeked, zeros := ctrl.input, 0, [];
      var r;
      r, peeked, taken, zeros := ReceiveLine();
      if r.Overruns? {
        return Overflowed, taken;
      }
      if r.Exits? || r.ret == -1 {
        return Exited, taken;
      }
      if r.ret == 0 {
        return Closed, taken;
      }
      assert cmdline[|cmdline[..]| - 1] in cmdline[..];
      StrTrimCrlf(cmdline);
      TrimmedLine(input, zeros, peeked, cmdline[..]);
      PartsFit(FirstLine(input));
      SplitAndRaise(CutAtCrlf(FirstLine(input)));
      outcome := Open;
    }

    /** One input event: more of the input has arrived, and one line is read. */
    method ServeEvent(e: Arrival) returns (outcome: Outcome, c: Command)
      requires Valid() && !ctrl.blocking && !ctrl.arriving && NUL !in ctrl.input
      modifies ctrl`input, ctrl`arrived, ctrl`ended, ctrl`interrupts, ctrl`errors, ctrl`mostPeeked
      modifies cmdline, cmd, arg
      ensures ctrl.errors <= old(ctrl.errors) && (ctrl.errors < old(ctrl.errors) ==> outcome.Exited?)
      ensures outcome.Overflowed? ==> Overflows(old(ctrl.input), old(ctrl.arrived) + e.more)
      ensures ctrl.errors == old(ctrl.errors) && !outcome.Overflowed? ==>
        outcome == if !LineArrived(old(ctrl.input), old(ctrl.arrived) + e.more, old(ctrl.ended) || e.end) then Exited
                   else if Complete(FirstLine(old(ctrl.input))) then Open else Closed
      ensures outcome.Open? ==>
        var line := FirstLine(old(ctrl.input));
        && c == ParseCommand(line) && old(ctrl.input) == line + ctrl.input
        && ctrl.arrived == old(ctrl.arrived) + e.more - |line| && ctrl.ended == (old(ctrl.ended) || e.end)
        && Complete(line) && |line| <= old(ctrl.arrived) + e.more && NUL !in ctrl.input
    {
      NoNulInLine(ctrl.input);
      StartsWith(FirstLine(ctrl.input), ctrl.input);
      ctrl.Arrive(e.more, e.end);
      ghost var taken;
      outcome, taken := ReceiveCommand();
      c := if outcome.Open? then Command(CStr(cmd[..]), CStr(arg[..])) else Command("", "");
    }

    /** One event of a run that got this far. */
    method ServeNext(events: seq<Arrival>, ghost all: seq<Command>, ghost whole: Result, ghost done: seq<Command>)
      returns (outcome: Outcome, c: Command)
      requires Valid() && !ctrl.blocking && !ctrl.arriving && events != [] && NUL !in ctrl.input
      requires Stands(all, whole, done, ctrl.input, ctrl.arrived, ctrl.ended, events)
      modifies ctrl`input, ctrl`arrived, ctrl`ended, ctrl`interrupts, ctrl`errors, ctrl`mostPeeked
      modifies cmdline, cmd, arg
      ensures ctrl.errors <= old(ctrl.errors) && (ctrl.errors < old(ctrl.errors) ==> outcome.Exited?)
      ensures !outcome.Open? ==>
        done <= all && (ctrl.errors == old(ctrl.errors) ==> IsRun(whole, Result(done, outcome)))
      ensures outcome.Overflowed? ==> whole.outcome.Overflowed?
      ensures outcome.Open? ==>
        NUL !in ctrl.input && Stands(all, whole, done + [c], ctrl.input, ctrl.arrived, ctrl.ended, events[1..])
    {
      ghost var left, arrived, ended := ctrl.input, ctrl.arrived, ctrl.ended;
      outcome, c := ServeEvent(events[0]);
      if outcome.Open? {
        StandsAfter(all, whole, done, left, arrived, ended, events, c, ctrl.input, ctrl.arrived, ctrl.ended);
      } else {
        StandsLast(all, whole, done, left, arrived, ended, events, outcome, ctrl.errors < old(ctrl.errors));
      }
    }

    /** The session in the event loop: every input event reads one line. Whatever fails, the commands
        received are the first ones of the stream. Unless a call has an error of its own or the run of
        these events overruns the line buffer, they and the outcome are those of that run; and the
        buffer is overrun only if the run does so. */
    method ServeControl(events: seq<Arrival>) returns (commands: seq<Command>, outcome: Outcome)
      requires Valid() && !ctrl.blocking && !ctrl.arriving && NUL !in ctrl.input
      modifies ctrl`input, ctrl`arrived, ctrl`ended, ctrl`interrupts, ctrl`errors, ctrl`mostPeeked
      modifies cmdline, cmd, arg
      ensures commands <= ParseEach(Lines(old(ctrl.input)))
      ensures ctrl.errors == old(ctrl.errors) ==>
        IsRun(ControlRun(old(ctrl.input), old(ctrl.arrived), old(ctrl.ended), events), Result(commands, outcome))
      ensures outcome.Overflowed? ==>
        ControlRun(old(ctrl.input), old(ctrl.arrived), old(ctrl.ended), events).outcome.Overflowed?
      ensures ctrl.errors <= old(ctrl.errors) && (ctrl.errors < old(ctrl.errors) ==> outcome.Exited?)
    {
      ghost var all := ParseEach(Lines(ctrl.input));
      ghost var whole := ControlRun(ctrl.input, ctrl.arrived, ctrl.ended, events);
      var pending := events;
      commands := [];
      while pending != []
        invariant ctrl.errors == old(ctrl.errors) && NUL !in ctrl.input
        invariant Stands(all, whole, commands, ctrl.input, ctrl.arrived, ctrl.ended, pending)
        decreases |pending|
      {
        var c;
        outcome, c := ServeNext(pending, all, whole, commands);
        if !outcome.Open? {
          return;
        }
        commands, pending := commands + [c], pending[1..];
      }
      Ends(all, commands, ParseEach(Lines(ctrl.input)));
      RunEnds(whole, commands, Result([], Open), Open);
      outcome := Open;
    }

    /** One pass through the loop of `handle_child`. */
    method ReceiveNext(ghost all: seq<Command>, ghost done: seq<Command>) returns (outcome: Outcome, c: Command)
      requires Valid() && NUL !in ctrl.input && Joined(all, done, ParseEach(Lines(ctrl.input)))
      modifies ctrl`input, ctrl`arrived, ctrl`ended, ctrl`interrupts, ctrl`errors, ctrl`mostPeeked
      modifies cmdline, cmd, arg
      ensures ctrl.errors <= old(ctrl.errors) && (ctrl.errors < old(ctrl.errors) ==> outcome.Exited?)
      ensures |ctrl.input| <= |old(ctrl.input)|
      ensures outcome.Open? ==>
        |ctrl.input| < |old(ctrl.input)| && NUL !in ctrl.input
        && Joined(all, done + [c], ParseEach(Lines(ctrl.input)))
      ensures !outcome.Open? ==> done <= all
      ensures outcome.Closed? ==> done == all && ctrl.input == []
      ensures outcome.Overflowed? ==> MAX_COMMAND <= |old(ctrl.input)|
      ensures ctrl.blocking && outcome.Exited? ==> ctrl.errors < old(ctrl.errors)
    {
      ghost var left, taken := ctrl.input, 0;
      NoNulInLine(left);
      outcome, taken := ReceiveCommand();
      c := if outcome.Open? then Command(CStr(cmd[..]), CStr(arg[..])) else Command("", "");
      if outcome.Open? {
        StartsWith(FirstLine(left), left);
        NextOfAll(all, done, left, c, ctrl.input);
      } else {
        Ends(all, done, ParseEach(Lines(left)));
      }
    }

    /** The reading part of the loop of `handle_child`, which takes line after line until one cannot be
        had. */
    method ReceiveAll() returns (commands: seq<Command>, outcome: Outcome)
      requires Valid() && NUL !in ctrl.input
      modifies ctrl`input, ctrl`arrived, ctrl`ended, ctrl`interrupts, ctrl`errors, ctrl`mostPeeked
      modifies cmdline, cmd, arg
      ensures commands <= ParseEach(Lines(old(ctrl.input)))
      ensures outcome.Closed? ==> commands == ParseEach(Lines(old(ctrl.input))) && ctrl.input == []
      ensures !outcome.Open? && (outcome.Overflowed? ==> MAX_COMMAND <= |old(ctrl.input)|)
      ensures ctrl.blocking && ctrl.errors == old(ctrl.errors) && |old(ctrl.input)| < MAX_COMMAND ==> outcome.Closed?
    {
      ghost var all := ParseEach(Lines(ctrl.input));
      commands := [];
      while true
        invariant ctrl.errors == old(ctrl.errors) && NUL !in ctrl.input && |ctrl.input| <= |old(ctrl.input)|
        invariant Joined(all, commands, ParseEach(Lines(ctrl.input)))
        decreases |ctrl.input|
      {
        var c;
        outcome, c := ReceiveNext(all, commands);
        if !outcome.Open? {
          return;
        }
        commands := commands + [c];
      }
    }
  }
}
