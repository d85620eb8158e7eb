/** Lines as parts of a byte stream, independently of how the stream is read. */
module Framing {
  import opened CStrings
  import opened Seqs

  /** The bytes of the first line: through its '\n', or to the end of an unfinished line. */
  function FirstLine(s: seq<char>): (line: seq<char>)
    ensures line <= s && (s != [] ==> line != [])
  {
    var n := IndexOf(s, '\n');
    if n < |s| then s[..n + 1] else s
  }

  lemma NoNulInLine(s: seq<char>)
    requires NUL !in s
    ensures NUL !in FirstLine(s) && NUL !in s[|FirstLine(s)|..]
  {
    assert forall x :: x in FirstLine(s) || x in s[|FirstLine(s)|..] ==> x in s;
  }

  predicate Complete(line: seq<char>) {
    line != [] && line[|line| - 1] == '\n'
  }

  /** The finished lines of a stream, each with its '\n'. */
  function Lines(s: seq<char>): seq<seq<char>>
    decreases |s|
  {
    var line := FirstLine(s);
    if Complete(line) then [line] + Lines(s[|line|..]) else []
  }

  /** What follows the last '\n'. */
  function Unfinished(s: seq<char>): seq<char>
    decreases |s|
  {
    var line := FirstLine(s);
    if Complete(line) then Unfinished(s[|line|..]) else s
  }

  function Concat(parts: seq<seq<char>>): seq<char> {
    if parts == [] then [] else parts[0] + Concat(parts[1..])
  }

  /** A line has its only '\n' at its end. */
  predicate IsLine(line: seq<char>) {
    line != [] && IndexOf(line, '\n') == |line| - 1
  }

  predicate AllLines(parts: seq<seq<char>>) {
    parts != [] ==> IsLine(parts[0]) && AllLines(parts[1..])
  }

  lemma FirstLineOf(line: seq<char>, rest: seq<char>)
    requires IsLine(line)
    ensures FirstLine(line + rest) == line && Complete(line)
  {
    var s := line + rest;
    var n := IndexOf(s, '\n');
    assert s[|line| - 1] == '\n' && s[..|line| - 1] == line[..|line| - 1];
    assert n >= |line| - 1;
    assert n <= |line| - 1;
    assert s[..|line|] == line;
  }

  lemma CompleteIsLine(s: seq<char>)
    ensures Complete(FirstLine(s)) <==> '\n' in s
    ensures Complete(FirstLine(s)) ==> IsLine(FirstLine(s))
  {
    var n := IndexOf(s, '\n');
    if n < |s| {
      var line := s[..n + 1];
      var m := IndexOf(line, '\n');
      assert line[n] == '\n' && line[..n] == s[..n];
      assert m >= n;
      assert m <= n;
    }
  }

  /** The lines and the unfinished rest are the stream, and no other cut of it into lines is
      possible. */
  lemma {:induction false} LinesAreTheOnlyCut(s: seq<char>, parts: seq<seq<char>>, rest: seq<char>)
    ensures parts == Lines(s) && rest == Unfinished(s)
       <==> AllLines(parts) && '\n' !in rest && Concat(parts) + rest == s
    decreases |s|
  {
    LinesAreLines(s);
    LinesRejoin(s);
    if AllLines(parts) && '\n' !in rest && Concat(parts) + rest == s {
      CutIsLines(parts, rest);
    }
  }

  lemma {:induction false} LinesAreLines(s: seq<char>)
    ensures AllLines(Lines(s)) && '\n' !in Unfinished(s)
    decreases |s|
  {
    CompleteIsLine(s);
    var line := FirstLine(s);
    if Complete(line) {
      LinesAreLines(s[|line|..]);
      assert Lines(s)[1..] == Lines(s[|line|..]);
    }
  }

  lemma ConcatFirst(part: seq<char>, parts: seq<seq<char>>)
    ensures Concat([part] + parts) == part + Concat(parts)
  {
    assert ([part] + parts)[1..] == parts;
  }

  /** The first line, and what the rest of the stream is cut into. */
  lemma LinesSplit(s: seq<char>)
    requires Complete(FirstLine(s))
    ensures var line := FirstLine(s);
      && Concat(Lines(s)) == line + Concat(Lines(s[|line|..]))
      && Unfinished(s) == Unfinished(s[|line|..])
  {
    ConcatFirst(FirstLine(s), Lines(s[|FirstLine(s)|..]));
  }

  lemma {:induction false} LinesRejoin(s: seq<char>)
    ensures Concat(Lines(s)) + Unfinished(s) == s
    decreases |s|
  {
    var line := FirstLine(s);
    if Complete(line) {
      var after := s[|line|..];
      calc {
        Concat(Lines(s)) + Unfinished(s);
      == { LinesSplit(s); }
        line + Concat(Lines(after)) + Unfinished(after);
      == { Regroup(line, Concat(Lines(after)), Unfinished(after)); }
        line + (Concat(Lines(after)) + Unfinished(after));
      == { LinesRejoin(after); }
        line + after;
      == { StartsWith(line, s); }
        s;
      }
    }
  }

  lemma {:induction false} CutIsLines(parts: seq<seq<char>>, rest: seq<char>)
    requires AllLines(parts) && '\n' !in rest
    ensures Lines(Concat(parts) + rest) == parts && Unfinished(Concat(parts) + rest) == rest
  {
    var s := Concat(parts) + rest;
    CompleteIsLine(s);
    if parts == [] {
      assert s == rest;
    } else {
      var after := Concat(parts[1..]) + rest;
      Regroup(parts[0], Concat(parts[1..]), rest);
      FirstLineOf(parts[0], after);
      CutIsLines(parts[1..], rest);
      assert s[|parts[0]|..] == after;
    }
  }
}
