/** Commands and the lines that carry them, on both sides of a control connection. */
module Commands {
  import opened CStrings
  import opened Framing

  datatype Command = Command(cmd: string, arg: string)

  /** The command a line stands for: its text up to the first CR or LF, cut at the first blank. */
  function ParseCommand(line: seq<char>): Command {
    var text := CutAtCrlf(line);
    var p := IndexOf(text, ' ');
    if p == |text| then Command(Upper(text), "") else Command(Upper(text[..p]), text[p + 1..])
  }

  function ParseEach(lines: seq<seq<char>>): (cs: seq<Command>)
    ensures |cs| == |lines|
  {
    if lines == [] then [] else [ParseCommand(lines[0])] + ParseEach(lines[1..])
  }

  // ---------- the client's side ----------

  /** A command without its end of line: a blank comes only before an argument. */
  function Text(c: Command): seq<char> {
    if c.arg == "" then c.cmd else c.cmd + " " + c.arg
  }

  /** A command as a client sends it (section 5.3 of RFC 959). */
  function Format(c: Command): seq<char> {
    Text(c) + "\r\n"
  }

  predicate Sendable(c: Command) {
    && (forall i :: 0 <= i < |c.cmd| ==> !IsCrlf(c.cmd[i]) && c.cmd[i] != ' ')
    && (forall i :: 0 <= i < |c.arg| ==> !IsCrlf(c.arg[i]))
  }

  predicate AllSendable(cs: seq<Command>) {
    cs != [] ==> Sendable(cs[0]) && AllSendable(cs[1..])
  }

  function Formats(cs: seq<Command>): seq<seq<char>> {
    if cs == [] then [] else [Format(cs[0])] + Formats(cs[1..])
  }

  /** The commands with their names in upper case. */
  function Raised(cs: seq<Command>): (raised: seq<Command>)
    ensures |raised| == |cs|
  {
    if cs == [] then [] else [Command(Upper(cs[0].cmd), cs[0].arg)] + Raised(cs[1..])
  }

  lemma FormatIsLine(c: Command)
    requires Sendable(c)
    ensures IsLine(Format(c)) && CutAtCrlf(Format(c)) == Text(c)
  {
    var s, text := Format(c), Text(c);
    assert s[|text|] == '\r' && s[|text| + 1] == '\n';
    assert forall i :: 0 <= i < |text| ==> s[i] == text[i] && !IsCrlf(s[i]);
    CutAtCrlfIs(s, text);
    IndexOfIs(s, '\n', |text| + 1);
  }

  /** A command that is sent is the command that is parsed, with and without an argument. */
  lemma SentIsParsed(c: Command)
    requires Sendable(c)
    ensures ParseCommand(Format(c)) == Command(Upper(c.cmd), c.arg)
  {
    FormatIsLine(c);
    var text := Text(c);
    IndexOfIs(text, ' ', |c.cmd|);
    assert text[..|c.cmd|] == c.cmd;
    if c.arg != "" {
      assert text[|c.cmd| + 1..] == c.arg;
    }
  }

  /** A name without lower-case letters. */
  predicate IsRaised(name: string) {
    forall i :: 0 <= i < |name| ==> !('a' <= name[i] <= 'z')
  }

  /** The same name, with any of its letters in lower case. */
  predicate SameButCase(sent: string, name: string) {
    |sent| == |name| && forall i :: 0 <= i < |name| ==>
      sent[i] == name[i] || ('A' <= name[i] <= 'Z' && sent[i] as int == name[i] as int + 32)
  }

  /** However its letters are written, a command is received under its name in capitals. */
  lemma CaseIsIgnored(sent: string, name: string, arg: string)
    requires Sendable(Command(sent, arg)) && IsRaised(name) && SameButCase(sent, name)
    ensures ParseCommand(sent + "\r\n") == Command(name, "")
    ensures ParseCommand(sent + " " + arg + "\r\n") == Command(name, arg)
  {
    UpperIs(sent, name);
    SentIsParsed(Command(sent, ""));
    SentIsParsed(Command(sent, arg));
    if arg == "" {
      BlankAtEnd(sent);
    }
  }

  /** A blank with nothing behind it is no argument. */
  lemma BlankAtEnd(sent: string)
    requires Sendable(Command(sent, ""))
    ensures ParseCommand(sent + " " + "" + "\r\n") == Command(Upper(sent), "")
  {
    var text, line := sent + " ", sent + " " + "" + "\r\n";
    assert line[|text|] == '\r' && forall i :: 0 <= i < |text| ==> line[i] == text[i];
    CutAtCrlfIs(line, text);
    IndexOfIs(text, ' ', |sent|);
    assert text[..|sent|] == sent;
  }

  lemma UpperIs(sent: string, name: string)
    requires IsRaised(name) && SameButCase(sent, name)
    ensures Upper(sent) == name
  {
    forall i | 0 <= i < |name|
      ensures Upper(sent)[i] == name[i]
    {
    }
  }

  /** A line ended by LF alone, or by anything from its first CR on, stands for the same command. */
  lemma LineEndIsIgnored(c: Command, rest: string)
    requires Sendable(c) && rest != "" && (rest[0] == '\n' || rest[0] == '\r')
    ensures ParseCommand(Text(c) + rest) == ParseCommand(Format(c))
  {
    var text, line := Text(c), Text(c) + rest;
    FormatIsLine(c);
    TextHasNoLineEnd(c);
    assert line[|text|] == rest[0] && forall i :: 0 <= i < |text| ==> line[i] == text[i];
    CutAtCrlfIs(line, text);
  }

  lemma TextHasNoLineEnd(c: Command)
    requires Sendable(c)
    ensures forall i :: 0 <= i < |Text(c)| ==> !IsCrlf(Text(c)[i])
  {
  }

  /** Any number of commands sent one after the other without waiting are received as they were
      sent, whatever bytes of an unfinished line follow. */
  lemma {:induction false} PipelinedCommandsArrive(cs: seq<Command>, rest: seq<char>)
    requires AllSendable(cs) && '\n' !in rest
    ensures ParseEach(Lines(Concat(Formats(cs)) + rest)) == Raised(cs)
  {
    FormatsAreLines(cs);
    CutIsLines(Formats(cs), rest);
  }

  lemma {:induction false} FormatsAreLines(cs: seq<Command>)
    requires AllSendable(cs)
    ensures AllLines(Formats(cs)) && ParseEach(Formats(cs)) == Raised(cs)
  {
    if cs != [] {
      FormatIsLine(cs[0]);
      SentIsParsed(cs[0]);
      FormatsAreLines(cs[1..]);
      assert Formats(cs)[1..] == Formats(cs[1..]);
    }
  }
}
