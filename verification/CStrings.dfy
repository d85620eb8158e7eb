/** The C strings of str.cpp: character buffers read up to their first NUL and edited in place. */
module CStrings {

  const NUL := '\0'

  predicate IsCrlf(c: char) {
    c == '\r' || c == '\n'
  }

  /** `strlen`. Reading a buffer that holds no NUL is undefined. */
  function StrLen(s: seq<char>): (n: nat)
    requires NUL in s
    ensures n < |s| && s[n] == NUL && NUL !in s[..n]
  {
    if s[0] == NUL then 0 else 1 + StrLen(s[1..])
  }

  /** The C string a buffer holds. */
  function CStr(s: seq<char>): (r: seq<char>)
    requires NUL in s
    ensures NUL !in r
  {
    s[..StrLen(s)]
  }

  /** A buffer that starts with these characters and a NUL holds them. */
  lemma CStrIs(s: seq<char>, r: seq<char>)
    requires |r| < |s| && s[..|r|] == r && s[|r|] == NUL && NUL !in r
    ensures NUL in s && CStr(s) == r
  {
    assert s[|r|] in s;
    var n := StrLen(s);
    assert n >= |r|;
    assert n <= |r|;
  }

  /** `strchr`: the position of the first `c`, or the length when there is none. */
  function IndexOf(s: seq<char>, c: char): (n: nat)
    ensures n <= |s| && c !in s[..n]
    ensures n < |s| ==> s[n] == c
  {
    if s == [] || s[0] == c then 0
    else
      var n := 1 + IndexOf(s[1..], c);
      assert s[..n] == [s[0]] + s[1..][..n - 1];
      n
  }

  lemma NoneBefore(s: seq<char>, c: char)
    ensures forall i :: 0 <= i < IndexOf(s, c) ==> s[i] != c
  {
    assert forall i :: 0 <= i < IndexOf(s, c) ==> s[i] == s[..IndexOf(s, c)][i];
  }

  /** It is the only position with its defining property. */
  lemma IndexOfIs(s: seq<char>, c: char, n: nat)
    requires n <= |s| && (n < |s| ==> s[n] == c) && forall i :: 0 <= i < n ==> s[i] != c
    ensures IndexOf(s, c) == n
  {
    NoneBefore(s, c);
    assert IndexOf(s, c) >= n;
    assert IndexOf(s, c) <= n;
  }

  /** The longest prefix without CR or LF. */
  function CutAtCrlf(s: seq<char>): (r: seq<char>)
    ensures r <= s && forall i :: 0 <= i < |r| ==> !IsCrlf(r[i])
    ensures |r| < |s| ==> IsCrlf(s[|r|])
  {
    if s == [] || IsCrlf(s[0]) then [] else [s[0]] + CutAtCrlf(s[1..])
  }

  /** No longer prefix would do, so it is the only such prefix. */
  lemma CutAtCrlfIs(s: seq<char>, r: seq<char>)
    requires r <= s && (forall i :: 0 <= i < |r| ==> !IsCrlf(r[i]))
    requires |r| < |s| ==> IsCrlf(s[|r|])
    ensures CutAtCrlf(s) == r
  {
    var cut := CutAtCrlf(s);
    assert |cut| >= |r|;
    assert |cut| <= |r|;
  }

  lemma CutOfBoth(a: seq<char>, b: seq<char>)
    requires CutAtCrlf(a) == a && CutAtCrlf(b) == b
    ensures CutAtCrlf(a + b) == a + b
  {
    assert forall i :: 0 <= i < |a + b| ==> (a + b)[i] == if i < |a| then a[i] else b[i - |a|];
    CutAtCrlfIs(a + b, a + b);
  }

  /** What `str_trim_crlf` makes of a buffer: every CR and LF before the NUL is overwritten. */
  ghost predicate Trimmed(before: seq<char>, after: seq<char>)
    requires NUL in before
  {
    && |after| == |before|
    && forall i :: 0 <= i < |before| ==>
         after[i] == if i < StrLen(before) && IsCrlf(before[i]) then NUL else before[i]
  }

  method StrTrimCrlf(str: array<char>)
    requires NUL in str[..]
    modifies str
    ensures Trimmed(old(str[..]), str[..])
  {
    ghost var before := str[..];
    var n := StrLen(str[..]);
    var i := n - 1;
    while i >= 0
      invariant -1 <= i < n
      invariant forall j :: 0 <= j < str.Length ==>
        str[j] == if i < j < n && IsCrlf(before[j]) then NUL else before[j]
    {
      if IsCrlf(str[i]) {
        str[i] := NUL;
      }
      i := i - 1;
    }
  }

  /** Overwriting every CR and LF, not only trailing ones, cuts the string at the first of them. */
  lemma TrimmedIsCut(before: seq<char>, after: seq<char>)
    requires NUL in before && Trimmed(before, after)
    ensures NUL in after && CStr(after) == CutAtCrlf(CStr(before))
  {
    var cut := CutAtCrlf(CStr(before));
    CStrIs(after, cut);
  }

  // ---------- splitting ----------

  /** What `str_split` writes into its first buffer when the separator is at `p`: `strncpy` copies
      no NUL, and the one that is written goes one place too far. */
  function SplitHead(s: seq<char>, p: nat, a: seq<char>): seq<char>
    requires p < |s| && p + 1 < |a|
  {
    s[..p] + [a[p], NUL] + a[p + 2..]
  }

  /** `strcpy` into a buffer. */
  function Copied(s: seq<char>, b: seq<char>): seq<char>
    requires |s| < |b|
  {
    s + [NUL] + b[|s| + 1..]
  }

  method StrCpy(dst: array<char>, s: seq<char>)
    requires |s| < dst.Length
    modifies dst
    ensures dst[..] == Copied(s, old(dst[..]))
  {
    forall i | 0 <= i < |s| {
      dst[i] := s[i];
    }
    dst[|s|] := NUL;
  }

  /** Room for what `str_split` writes. */
  predicate SplitFits(s: seq<char>, c: char, aSize: nat, bSize: nat) {
    var p := IndexOf(s, c);
    if p == |s| then |s| < aSize else p + 1 < aSize && |s| - p - 1 < bSize
  }

  method StrSplit(str: array<char>, a: array<char>, b: array<char>, c: char)
    requires NUL in str[..] && c != NUL && a != b && a != str && b != str
    requires SplitFits(CStr(str[..]), c, a.Length, b.Length)
    modifies a, b
    ensures var s := CStr(old(str[..])); var p := IndexOf(s, c);
      if p == |s| then a[..] == Copied(s, old(a[..])) && b[..] == old(b[..])
      else a[..] == SplitHead(s, p, old(a[..])) && b[..] == Copied(s[p + 1..], old(b[..]))
  {
    var s := CStr(str[..]);
    var p := IndexOf(s, c);
    if p == |s| {
      StrCpy(a, s);
    } else {
      forall i | 0 <= i < p {
        a[i] := s[i];
      }
      a[p + 1] := NUL;
      StrCpy(b, s[p + 1..]);
    }
  }

  predicate Zeroed(s: seq<char>) {
    forall i :: 0 <= i < |s| ==> s[i] == NUL
  }

  /** The first buffer holds the text before the separator exactly when the character at its end
      was NUL to begin with. */
  lemma SplitHeadExactly(s: seq<char>, p: nat, a: seq<char>)
    requires p < |s| && p + 1 < |a| && NUL !in s
    ensures NUL in SplitHead(s, p, a)
    ensures CStr(SplitHead(s, p, a)) == s[..p] <==> a[p] == NUL
  {
    var after := SplitHead(s, p, a);
    assert after[p + 1] == NUL && after[p] == a[p] && after[..p] == s[..p];
    if a[p] == NUL {
      CStrIs(after, s[..p]);
    } else {
      assert after[..p + 1] == s[..p] + [a[p]];
      CStrIs(after, s[..p] + [a[p]]);
    }
  }

  /** Splitting `key c value` into zeroed buffers gives back the key and the value. */
  lemma SplitRoundTrip(key: seq<char>, c: char, value: seq<char>, a: seq<char>, b: seq<char>)
    requires NUL !in key && NUL !in value && c != NUL && c !in key
    requires Zeroed(a) && Zeroed(b) && |key| + 1 < |a| && |value| < |b|
    ensures var s := key + [c] + value; var p := IndexOf(s, c);
      && p == |key| && s[p + 1..] == value
      && NUL in SplitHead(s, p, a) && CStr(SplitHead(s, p, a)) == key
      && NUL in Copied(value, b) && CStr(Copied(value, b)) == value
  {
    var s := key + [c] + value;
    var p := IndexOf(s, c);
    assert s[|key|] == c;
    assert p >= |key|;
    assert p <= |key|;
    SplitHeadExactly(s, p, a);
    CStrIs(Copied(value, b), value);
  }

  // ---------- upper case ----------

  /** `toupper` in the C locale. */
  function ToUpper(c: char): char {
    if 'a' <= c <= 'z' then c - 'a' + 'A' else c
  }

  function Upper(s: seq<char>): (r: seq<char>)
    ensures |r| == |s| && forall i :: 0 <= i < |s| ==> r[i] == ToUpper(s[i])
  {
    if s == [] then [] else [ToUpper(s[0])] + Upper(s[1..])
  }

  method StrUpper(str: array<char>)
    requires NUL in str[..]
    modifies str
    ensures NUL in str[..] && CStr(str[..]) == Upper(CStr(old(str[..])))
    ensures str[StrLen(old(str[..]))..] == old(str[StrLen(str[..])..])
  {
    ghost var before := str[..];
    ghost var n := StrLen(before);
    var i := 0;
    while str[i] != NUL
      invariant 0 <= i <= n
      invariant forall j :: 0 <= j < str.Length ==> str[j] == if j < i then ToUpper(before[j]) else before[j]
      decreases n - i
    {
      assert before[i] != NUL;
      str[i] := ToUpper(str[i]);
      i := i + 1;
    }
    assert i == n;
    UpperKeepsNulFree(CStr(before));
    CStrIs(str[..], Upper(CStr(before)));
  }

  lemma UpperKeepsNulFree(s: seq<char>)
    requires NUL !in s
    ensures NUL !in Upper(s)
  {
    forall i | 0 <= i < |s| ensures Upper(s)[i] != NUL {
      assert s[i] in s;
    }
  }
}
