/**
 Runs of the event loop over one control connection. The socket is non-blocking and edge-triggered:
 every arrival is one event, every event reads one line, and a line that has not arrived in full
 ends the server. A read asks for MAX_COMMAND_LINE bytes where the line buffer holds MAX_COMMAND, so
 the run is undefined from the event on that finds more.
 */
module ControlRuns {
  import opened CStrings
  import opened Framing
  import opened Commands
  import opened Seqs
  import opened Sessions

  /** An input event: so many more bytes have arrived, and perhaps the end of the input. */
  datatype Arrival = Arrival(more: nat, end: bool)

  /** After some events the session is open, it was closed at the end of the input, the server has
      exited, or the line buffer was overrun. */
  datatype Outcome = Open | Closed | Exited | Overflowed

  datatype Result = Result(commands: seq<Command>, outcome: Outcome)

  /** The first line can be had without waiting. */
  predicate LineArrived(stream: seq<char>, arrived: nat, ended: bool) {
    |FirstLine(stream)| <= arrived && (Complete(FirstLine(stream)) || ended)
  }

  /** More can be shown of the stream than the line buffer holds with a NUL behind it. */
  predicate Overflows(stream: seq<char>, arrived: nat) {
    MAX_COMMAND <= arrived && MAX_COMMAND <= |stream|
  }

  /** The commands received from `stream`, of which so much has arrived beforehand. */
  function ControlRun(stream: seq<char>, arrived: nat, ended: bool, events: seq<Arrival>): Result
    decreases |events|
  {
    if events == [] then Result([], Open)
    else
      var now, end := arrived + events[0].more, ended || events[0].end;
      var line := FirstLine(stream);
      if Overflows(stream, now) then Result([], Overflowed)
      else if !LineArrived(stream, now, end) then Result([], Exited)
      else if !Complete(line) then Result([], Closed)
      else
        var r := ControlRun(stream[|line|..], now - |line|, end, events[1..]);
        Result([ParseCommand(line)] + r.commands, r.outcome)
  }

  lemma NextLine(stream: seq<char>)
    requires Complete(FirstLine(stream))
    ensures var line := FirstLine(stream);
      && Lines(stream) == [line] + Lines(stream[|line|..])
      && ParseEach(Lines(stream)) == [ParseCommand(line)] + ParseEach(Lines(stream[|line|..]))
  {
    assert Lines(stream)[1..] == Lines(stream[|FirstLine(stream)|..]);
  }

  lemma NextReceived(stream: seq<char>, later: seq<Command>)
    requires Complete(FirstLine(stream)) && later <= ParseEach(Lines(stream[|FirstLine(stream)|..]))
    ensures [ParseCommand(FirstLine(stream))] + later <= ParseEach(Lines(stream))
  {
    NextLine(stream);
    SameFirst(ParseCommand(FirstLine(stream)), later, ParseEach(Lines(stream[|FirstLine(stream)|..])));
  }

  /** The next event brings a command. */
  predicate Brings(stream: seq<char>, arrived: nat, events: seq<Arrival>) {
    && events != [] && Complete(FirstLine(stream))
    && |FirstLine(stream)| <= arrived + events[0].more && !Overflows(stream, arrived + events[0].more)
  }

  lemma RunStep(stream: seq<char>, arrived: nat, ended: bool, events: seq<Arrival>)
    ensures var line, whole := FirstLine(stream), ControlRun(stream, arrived, ended, events);
      if Brings(stream, arrived, events) then
        var r := ControlRun(stream[|line|..], arrived + events[0].more - |line|, ended || events[0].end, events[1..]);
        whole == Result([ParseCommand(line)] + r.commands, r.outcome)
      else whole.commands == [] && (whole.outcome.Open? <==> events == [])
  {
  }

  /** Whatever happens, the commands received are the first ones of the stream. */
  lemma {:induction false} ReceivedArePrefix(stream: seq<char>, arrived: nat, ended: bool, events: seq<Arrival>)
    ensures ControlRun(stream, arrived, ended, events).commands <= ParseEach(Lines(stream))
    decreases |events|
  {
    RunStep(stream, arrived, ended, events);
    if Brings(stream, arrived, events) {
      var line := FirstLine(stream);
      var left, end := arrived + events[0].more - |line|, ended || events[0].end;
      ReceivedArePrefix(stream[|line|..], left, end, events[1..]);
      NextReceived(stream, ControlRun(stream[|line|..], left, end, events[1..]).commands);
    }
  }

  /** No line of MAX_COMMAND bytes or more is ever received: it overruns the buffer, or it has not
      arrived in full. */
  lemma LongLineNeverReceived(stream: seq<char>, arrived: nat, ended: bool, events: seq<Arrival>)
    requires |FirstLine(stream)| >= MAX_COMMAND
    ensures var r := ControlRun(stream, arrived, ended, events);
      r.commands == [] && (events != [] ==> r.outcome.Exited? || r.outcome.Overflowed?)
  {
  }

  /** How much arrives with the first `n` events. */
  function Total(events: seq<Arrival>, n: nat): nat
    requires n <= |events|
  {
    if n == 0 then 0 else events[0].more + Total(events[1..], n - 1)
  }

  /** Where the first `n` lines of a stream end. */
  function LineEnd(stream: seq<char>, n: nat): nat
    requires n <= |Lines(stream)|
  {
    |Concat(Lines(stream)[..n])|
  }

  lemma LineEndNext(stream: seq<char>, n: nat)
    requires Complete(FirstLine(stream)) && 0 < n <= |Lines(stream)|
    ensures var line := FirstLine(stream);
      && n - 1 <= |Lines(stream[|line|..])|
      && LineEnd(stream, n) == |line| + LineEnd(stream[|line|..], n - 1)
  {
    var line := FirstLine(stream);
    var rest := Lines(stream[|line|..]);
    NextLine(stream);
    TakeNext(line, rest, n - 1);
    ConcatFirst(line, rest[..n - 1]);
  }

  /** The `n`-th event finds the `n`-th line of the stream arrived in full, and no more behind the lines
      before it than the line buffer holds. */
  predicate OnTime(stream: seq<char>, arrived: nat, events: seq<Arrival>, n: nat)
    requires 0 < n <= |events|
  {
    && n <= |Lines(stream)| && LineEnd(stream, n) <= arrived + Total(events, n)
    && (arrived + Total(events, n) < LineEnd(stream, n - 1) + MAX_COMMAND
        || |stream| < LineEnd(stream, n - 1) + MAX_COMMAND)
  }

  lemma OnTimeNext(stream: seq<char>, arrived: nat, events: seq<Arrival>, n: nat)
    requires Complete(FirstLine(stream)) && 1 < n <= |events|
    requires |FirstLine(stream)| <= arrived + events[0].more
    ensures var line := FirstLine(stream);
      OnTime(stream, arrived, events, n)
      <==> OnTime(stream[|line|..], arrived + events[0].more - |line|, events[1..], n - 1)
  {
    NextLine(stream);
    if n <= |Lines(stream)| {
      LineEndNext(stream, n);
      LineEndNext(stream, n - 1);
    }
  }

  /** The first event finds its line arrived exactly when it is on time. */
  lemma FirstOnTime(stream: seq<char>, arrived: nat, events: seq<Arrival>)
    requires events != []
    ensures var now := arrived + events[0].more;
      OnTime(stream, arrived, events, 1)
      <==> Complete(FirstLine(stream)) && |FirstLine(stream)| <= now && !Overflows(stream, now)
  {
    assert Total(events, 1) == events[0].more + Total(events[1..], 0);
    assert Lines(stream)[..0] == [];
    if Complete(FirstLine(stream)) {
      NextLine(stream);
      LineEndNext(stream, 1);
      assert Lines(stream[|FirstLine(stream)|..])[..0] == [];
    }
  }

  /** Every event brings a command, one event after the other. */
  predicate KeepsPace(stream: seq<char>, arrived: nat, events: seq<Arrival>)
    decreases |events|
  {
    events != [] ==>
      && Brings(stream, arrived, events)
      && var line := FirstLine(stream);
         KeepsPace(stream[|line|..], arrived + events[0].more - |line|, events[1..])
  }

  lemma {:induction false} OpenIfKeepsPace(stream: seq<char>, arrived: nat, ended: bool, events: seq<Arrival>)
    ensures ControlRun(stream, arrived, ended, events).outcome == Open <==> KeepsPace(stream, arrived, events)
    decreases |events|
  {
    RunStep(stream, arrived, ended, events);
    if Brings(stream, arrived, events) {
      var line := FirstLine(stream);
      OpenIfKeepsPace(stream[|line|..], arrived + events[0].more - |line|, ended || events[0].end, events[1..]);
    }
  }

  lemma {:induction false} PaceBringsCommands(stream: seq<char>, arrived: nat, ended: bool, events: seq<Arrival>)
    requires KeepsPace(stream, arrived, events)
    ensures |events| <= |Lines(stream)|
    ensures ControlRun(stream, arrived, ended, events).commands == ParseEach(Lines(stream))[..|events|]
    decreases |events|
  {
    if events != [] {
      var line := FirstLine(stream);
      var rest, left := stream[|line|..], arrived + events[0].more - |line|;
      NextLine(stream);
      PaceBringsCommands(rest, left, ended || events[0].end, events[1..]);
      TakeNext(ParseCommand(line), ParseEach(Lines(rest)), |events| - 1);
    }
  }

  lemma {:induction false} PaceIsOnTime(stream: seq<char>, arrived: nat, events: seq<Arrival>, n: nat)
    requires KeepsPace(stream, arrived, events) && 0 < n <= |events|
    ensures OnTime(stream, arrived, events, n)
    decreases n
  {
    if n == 1 {
      FirstOnTime(stream, arrived, events);
    } else {
      var line := FirstLine(stream);
      PaceIsOnTime(stream[|line|..], arrived + events[0].more - |line|, events[1..], n - 1);
      OnTimeNext(stream, arrived, events, n);
    }
  }

  lemma {:induction false} OnTimeIsPace(stream: seq<char>, arrived: nat, events: seq<Arrival>)
    requires forall n :: 0 < n <= |events| ==> OnTime(stream, arrived, events, n)
    ensures KeepsPace(stream, arrived, events)
    decreases |events|
  {
    if events != [] {
      assert OnTime(stream, arrived, events, 1);
      FirstOnTime(stream, arrived, events);
      var line := FirstLine(stream);
      var rest, left, later := stream[|line|..], arrived + events[0].more - |line|, events[1..];
      forall m | 0 < m <= |later|
        ensures OnTime(rest, left, later, m)
      {
        assert OnTime(stream, arrived, events, m + 1);
        OnTimeNext(stream, arrived, events, m + 1);
      }
      OnTimeIsPace(rest, left, later);
    }
  }

  /** The session stays open exactly when every event is on time, and then every event has brought one
      command. */
  lemma {:induction false} StaysOpenExactly(stream: seq<char>, arrived: nat, ended: bool, events: seq<Arrival>)
    ensures ControlRun(stream, arrived, ended, events).outcome == Open
       <==> forall n :: 0 < n <= |events| ==> OnTime(stream, arrived, events, n)
    ensures var r := ControlRun(stream, arrived, ended, events);
      r.outcome == Open ==> |events| <= |Lines(stream)| && r.commands == ParseEach(Lines(stream))[..|events|]
  {
    OpenIfKeepsPace(stream, arrived, ended, events);
    if KeepsPace(stream, arrived, events) {
      PaceBringsCommands(stream, arrived, ended, events);
      forall n | 0 < n <= |events| ensures OnTime(stream, arrived, events, n) {
        PaceIsOnTime(stream, arrived, events, n);
      }
    }
    if forall n :: 0 < n <= |events| ==> OnTime(stream, arrived, events, n) {
      OnTimeIsPace(stream, arrived, events);
    }
  }

  /** Commands sent in a row are all received, with the session still open, exactly when there is one
      event for each and it is on time. */
  lemma {:induction false} PipelinedCommandsReceived(cs: seq<Command>, events: seq<Arrival>)
    requires AllSendable(cs)
    ensures var stream := Concat(Formats(cs));
      ControlRun(stream, 0, false, events) == Result(Raised(cs), Open)
      <==> |events| == |cs| && forall n :: 0 < n <= |events| ==> OnTime(stream, 0, events, n)
  {
    var stream := Concat(Formats(cs));
    var r := ControlRun(stream, 0, false, events);
    PipelinedLines(cs);
    StaysOpenExactly(stream, 0, false, events);
    if r.outcome == Open {
      TakeAllExactly(Raised(cs), |events|);
    }
  }

  lemma TakeAllExactly(cs: seq<Command>, n: nat)
    requires n <= |cs|
    ensures cs[..n] == cs <==> n == |cs|
  {
  }

  lemma PipelinedLines(cs: seq<Command>)
    requires AllSendable(cs)
    ensures ParseEach(Lines(Concat(Formats(cs)))) == Raised(cs)
  {
    PipelinedCommandsArrive(cs, []);
    assert Concat(Formats(cs)) + [] == Concat(Formats(cs));
  }

  /** A line that arrives in two pieces ends the server, although all of it was sent. */
  lemma SplitLineExits(first: nat, second: nat)
    requires 0 < first && 0 < second && first + second == 6
    ensures ControlRun("NOOP\r\n", 0, false, [Arrival(first, false), Arrival(second, false)]) == Result([], Exited)
  {
    assert IsLine("NOOP\r\n") by {
      var n := IndexOf("NOOP\r\n", '\n');
      assert "NOOP\r\n"[5] == '\n';
    }
    assert "NOOP\r\n" + [] == "NOOP\r\n";
    FirstLineOf("NOOP\r\n", []);
  }

  /** Two commands that arrive together are one event, and the second is not received, even if the line
      buffer holds both. */
  lemma SecondCommandWaits(a: Command, b: Command)
    requires Sendable(a) && Sendable(b)
    ensures var stream := Format(a) + Format(b);
      ControlRun(stream, 0, false, [Arrival(|stream|, false)])
      == if |stream| < MAX_COMMAND then Result([Command(Upper(a.cmd), a.arg)], Open) else Result([], Overflowed)
  {
    FormatIsLine(a);
    FirstLineOf(Format(a), Format(b));
    SentIsParsed(a);
  }

  /** A command that arrives all at once is received exactly when its line is shorter than the line
      buffer. */
  lemma CommandFitsExactly(c: Command)
    requires Sendable(c)
    ensures ControlRun(Format(c), 0, false, [Arrival(|Format(c)|, false)])
      == if |Format(c)| < MAX_COMMAND then Result([Command(Upper(c.cmd), c.arg)], Open) else Result([], Overflowed)
  {
    FormatIsLine(c);
    FirstLineOf(Format(c), []);
    assert Format(c) + [] == Format(c);
    SentIsParsed(c);
  }

  lemma RetrLine(name: string)
    requires name != ""
    ensures Format(Command("RETR", name)) == "RETR " + name + "\r\n" && Upper("RETR") == "RETR"
    ensures |Format(Command("RETR", name))| == 7 + |name|
  {
    assert "RETR" + " " == "RETR ";
  }

  /** RETR is received with a file name of up to 24 characters, and with no longer one. */
  lemma RetrFitsExactly(name: string)
    requires name != "" && forall i :: 0 <= i < |name| ==> !IsCrlf(name[i])
    ensures var line := "RETR " + name + "\r\n";
      ControlRun(line, 0, false, [Arrival(|line|, false)])
      == if |name| <= 24 then Result([Command("RETR", name)], Open) else Result([], Overflowed)
  {
    CommandFitsExactly(Command("RETR", name));
    RetrLine(name);
  }

  /** The end of the input closes the session, between two lines and also within one. */
  lemma EndOfInputCloses(rest: seq<char>, arrived: nat, more: nat)
    requires '\n' !in rest && |rest| < MAX_COMMAND && |rest| <= arrived + more
    ensures ControlRun(rest, arrived, false, [Arrival(more, true)]) == Result([], Closed)
    ensures ControlRun(rest, arrived, false, [Arrival(more, false)]) == Result([], Exited)
  {
    CompleteIsLine(rest);
  }
}
