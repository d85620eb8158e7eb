/** Numbers as text: the conversions of str.cpp, and the formats that print what they read. */
module Numerals {
  import opened MachineInts

  predicate IsDigit(c: char) {
    '0' <= c <= '9'
  }

  function DigitValue(c: char): nat
    requires IsDigit(c)
  {
    (c - '0') as nat
  }

  function DigitChar(d: nat): (c: char)
    requires d < 10
    ensures IsDigit(c) && DigitValue(c) == d && c as int == 48 + d
  {
    (d as char) + '0'
  }

  /** The number a text of digits stands for in a base. */
  function Value(s: string, base: nat): nat
    requires AllDigits(s)
  {
    if s == "" then 0
    else base * Value(s[..|s| - 1], base) + DigitValue(s[|s| - 1])
  }

  predicate AllDigits(s: string) {
    forall i :: 0 <= i < |s| ==> IsDigit(s[i])
  }

  predicate AllOctal(s: string) {
    forall i :: 0 <= i < |s| ==> '0' <= s[i] <= '7'
  }

  /** "%lld" of a number that is not negative, and "%u". */
  function PrintDec(n: nat): (s: string)
    ensures s != "" && AllDigits(s)
  {
    if n < 10 then [DigitChar(n)] else PrintDec(n / 10) + [DigitChar(n % 10)]
  }

  /** "%o". */
  function PrintOct(n: nat): (s: string)
    ensures s != "" && AllOctal(s)
  {
    if n < 8 then [DigitChar(n)] else PrintOct(n / 8) + [DigitChar(n % 8)]
  }

  lemma {:induction false} ValueOfDec(n: nat)
    ensures Value(PrintDec(n), 10) == n
  {
    if n >= 10 {
      ValueOfDec(n / 10);
      var s := PrintDec(n);
      assert s[..|s| - 1] == PrintDec(n / 10);
    }
  }

  lemma {:induction false} ValueOfOct(n: nat)
    ensures AllDigits(PrintOct(n)) && Value(PrintOct(n), 8) == n
  {
    if n >= 8 {
      ValueOfOct(n / 8);
      var s := PrintOct(n);
      assert s[..|s| - 1] == PrintOct(n / 8);
    }
  }

  // ---------- str_to_longlong ----------

  lemma Wrapped64(y: int, k: int)
    ensures (y + k * TWO_64) % TWO_64 == y % TWO_64
  {
  }

  lemma WrapStep64(x: int, d: nat)
    ensures AsInt64(AsInt64(x) * 10 + d) == AsInt64(x * 10 + d)
  {
    var w: int := AsInt64(x);
    var q := x / TWO_64 + if x % TWO_64 < TWO_63 then 0 else 1;
    assert x == w + q * TWO_64;
    Wrapped64(w * 10 + d, 10 * q);
    assert x * 10 + d == (w * 10 + d) + (10 * q) * TWO_64;
  }

  lemma AllDigitsStep(s: string, i: nat)
    requires i < |s| && AllDigits(s[..i])
    ensures AllDigits(s[..i + 1]) <==> IsDigit(s[i])
    ensures IsDigit(s[i]) ==> s[..i + 1][..i] == s[..i]
  {
    assert s[..i + 1] == s[..i] + [s[i]];
  }

  /** The whole text, or 0 if any character is not a digit. The accumulator wraps in 64 bits. */
  method StrToLonglong(str: string) returns (ret: int64)
    ensures ret == if AllDigits(str) then AsInt64(Value(str, 10)) else 0
  {
    ret := 0;
    var i := 0;
    while i < |str|
      invariant 0 <= i <= |str| && AllDigits(str[..i])
      invariant ret == AsInt64(Value(str[..i], 10))
    {
      AllDigitsStep(str, i);
      if !IsDigit(str[i]) {
        return 0;
      }
      WrapStep64(Value(str[..i], 10), DigitValue(str[i]));
      ret := AsInt64(ret as int * 10 + DigitValue(str[i]));
      i := i + 1;
    }
    assert str[..i] == str;
  }

  /** A prefix of a number stands for no larger number, so if the whole fits nothing overflows. */
  lemma {:induction false} PrefixIsSmaller(s: string, i: nat)
    requires AllDigits(s) && i <= |s|
    ensures Value(s[..i], 10) <= Value(s, 10)
    decreases |s|
  {
    if i == |s| {
      assert s[..i] == s;
    } else {
      var t := s[..|s| - 1];
      PrefixIsSmaller(t, i);
      assert t[..i] == s[..i];
    }
  }

  /** "%lld" is read back exactly for the numbers a `long long` holds. */
  lemma LongLongRoundTrip(n: nat)
    ensures AllDigits(PrintDec(n))
    ensures AsInt64(Value(PrintDec(n), 10)) == n <==> n < TWO_63
  {
    ValueOfDec(n);
  }

  // ---------- str_octal_to_uint ----------

  /** The octal digits a text starts with. */
  function OctalPrefix(s: string): (r: string)
    ensures r <= s && AllOctal(r) && AllDigits(r)
    ensures |r| < |s| ==> !('0' <= s[|r|] <= '7')
  {
    if s == "" || !('0' <= s[0] <= '7') then "" else [s[0]] + OctalPrefix(s[1..])
  }

  lemma Wrapped32(y: int, k: int)
    ensures (y + k * TWO_32) % TWO_32 == y % TWO_32
  {
  }

  lemma WrapStep32(x: int, d: nat)
    ensures AsUint32(AsUint32(x) * 8 + d) == AsUint32(x * 8 + d)
  {
    var w: int := AsUint32(x);
    var q := x / TWO_32;
    assert x == w + q * TWO_32;
    Wrapped32(w * 8 + d, 8 * q);
    assert x * 8 + d == (w * 8 + d) + (8 * q) * TWO_32;
  }

  /** The value of the leading octal digits. The accumulator wraps in 32 bits. */
  method StrOctalToUint(str: string) returns (ret: uint32)
    ensures ret == AsUint32(Value(OctalPrefix(str), 8))
  {
    ghost var prefix := OctalPrefix(str);
    ret := 0;
    var i := 0;
    while i < |str| && '0' <= str[i] <= '7'
      invariant 0 <= i <= |prefix|
      invariant ret == AsUint32(Value(prefix[..i], 8))
    {
      assert i < |prefix|;
      assert prefix[..i + 1][..i] == prefix[..i];
      WrapStep32(Value(prefix[..i], 8), DigitValue(str[i]));
      ret := AsUint32(ret as int * 8 + DigitValue(str[i]));
      i := i + 1;
    }
    assert prefix[..i] == prefix;
  }

  lemma {:induction false} OctalPrefixOfOctal(s: string, rest: string)
    requires AllOctal(s) && (rest != "" ==> !('0' <= rest[0] <= '7'))
    ensures OctalPrefix(s + rest) == s
  {
    if s == "" {
      assert s + rest == rest;
    } else {
      assert (s + rest)[0] == s[0] && (s + rest)[1..] == s[1..] + rest;
      OctalPrefixOfOctal(s[1..], rest);
    }
  }

  lemma {:induction false} LeadingZero(s: string)
    requires AllDigits(s)
    ensures AllDigits("0" + s) && Value("0" + s, 8) == Value(s, 8)
  {
    if s != "" {
      LeadingZero(s[..|s| - 1]);
      assert ("0" + s)[..|s|] == "0" + s[..|s| - 1];
    }
  }

  /** "0%o", as `SITE UMASK` reports it, is read back exactly for the numbers an `unsigned` holds. */
  lemma OctalRoundTrip(n: nat)
    ensures AsUint32(Value(OctalPrefix("0" + PrintOct(n)), 8)) == n <==> n < TWO_32
  {
    var s := "0" + PrintOct(n);
    OctalPrefixOfOctal(s, "");
    assert s + "" == s;
    ValueOfOct(n);
    LeadingZero(PrintOct(n));
  }

  // ---------- the six numbers of PASV and PORT ----------

  /** Numbers printed with a separator between them. */
  function Join(vs: seq<nat>, sep: char): string {
    if vs == [] then ""
    else if |vs| == 1 then PrintDec(vs[0])
    else PrintDec(vs[0]) + [sep] + Join(vs[1..], sep)
  }

  /** Numbers are written with the most significant digit first, and lists in their order. */
  lemma OnTheWire()
    ensures PrintDec(137) == "137" && PrintOct(63) == "77" && Join([19, 8], ',') == "19,8"
  {
    assert PrintDec(13) == "13" && PrintDec(19) == "19";
    assert [19, 8][1..] == [8];
    assert "19" + [','] + "8" == "19,8";
  }

  function DigitPrefix(s: string): (r: string)
    ensures r <= s && AllDigits(r)
    ensures |r| < |s| ==> !IsDigit(s[|r|])
  {
    if s == "" || !IsDigit(s[0]) then "" else [s[0]] + DigitPrefix(s[1..])
  }

  datatype Scan = Scanned(vs: seq<nat>) | Stuck

  /** `sscanf` with `n` conversions "%u" and separators between them, on text without blanks or
      signs. A conversion that fails leaves its variable unset. */
  function ScanList(s: string, sep: char, n: nat): Scan {
    if n == 0 then Scanned([])
    else
      var d := DigitPrefix(s);
      var rest := s[|d|..];
      if d == "" then Stuck
      else if n == 1 then Scanned([Value(d, 10)])
      else if rest == "" || rest[0] != sep then Stuck
      else
        match ScanList(rest[1..], sep, n - 1)
        case Stuck => Stuck
        case Scanned(vs) => Scanned([Value(d, 10)] + vs)
  }

  lemma {:induction false} DigitPrefixOfDigits(s: string, rest: string)
    requires AllDigits(s) && (rest != "" ==> !IsDigit(rest[0]))
    ensures DigitPrefix(s + rest) == s
  {
    if s == "" {
      assert s + rest == rest;
    } else {
      assert (s + rest)[0] == s[0] && (s + rest)[1..] == s[1..] + rest;
      DigitPrefixOfDigits(s[1..], rest);
    }
  }

  /** One number is scanned off the front. */
  lemma ScanFirst(v: nat, sep: char, more: string, n: nat)
    requires !IsDigit(sep) && n > 1
    ensures ScanList(PrintDec(v) + ([sep] + more), sep, n)
      == match ScanList(more, sep, n - 1) { case Stuck => Stuck case Scanned(vs) => Scanned([v] + vs) }
  {
    var first, tail := PrintDec(v), [sep] + more;
    ValueOfDec(v);
    DigitPrefixOfDigits(first, tail);
    assert (first + tail)[|first|..] == tail && tail[1..] == more;
  }

  lemma ScanLast(v: nat, sep: char, rest: string)
    requires rest != "" ==> !IsDigit(rest[0])
    ensures ScanList(PrintDec(v) + rest, sep, 1) == Scanned([v])
  {
    ValueOfDec(v);
    DigitPrefixOfDigits(PrintDec(v), rest);
  }

  lemma JoinFirst(vs: seq<nat>, sep: char, rest: string)
    requires |vs| > 1
    ensures Join(vs, sep) + rest == PrintDec(vs[0]) + ([sep] + (Join(vs[1..], sep) + rest))
  {
  }

  lemma {:induction false} ScanJoin(vs: seq<nat>, sep: char, rest: string)
    requires !IsDigit(sep) && (rest != "" ==> !IsDigit(rest[0]))
    ensures ScanList(Join(vs, sep) + rest, sep, |vs|) == Scanned(vs)
  {
    if |vs| == 1 {
      ScanLast(vs[0], sep, rest);
      assert Join(vs, sep) == PrintDec(vs[0]);
    } else if |vs| > 1 {
      JoinFirst(vs, sep, rest);
      ScanFirst(vs[0], sep, Join(vs[1..], sep) + rest, |vs|);
      ScanJoin(vs[1..], sep, rest);
      assert [vs[0]] + vs[1..] == vs;
    }
  }

  lemma ScanWhole(vs: seq<nat>, sep: char)
    requires !IsDigit(sep)
    ensures ScanList(Join(vs, sep), sep, |vs|) == Scanned(vs)
  {
    ScanJoin(vs, sep, "");
    assert Join(vs, sep) + "" == Join(vs, sep);
  }

  /** An IPv4 address and a port. */
  datatype Address = Address(ip: seq<nat>, port: nat)

  predicate ValidAddress(a: Address) {
    |a.ip| == 4 && (forall i :: 0 <= i < 4 ==> a.ip[i] < 256) && a.port < 0x1_0000
  }

  /** The tuple of the reply to PASV (section 4.2.2 of RFC 959). */
  function PasvTuple(a: Address): string
    requires ValidAddress(a)
  {
    Join(a.ip + [a.port / 256, a.port % 256], ',')
  }

  /** The tuple has the four numbers of the address in order, and then the port with its high byte
      first. */
  lemma TupleInOrder(a: Address)
    requires ValidAddress(a)
    ensures match ScanList(PasvTuple(a), ',', 6)
      case Stuck => false
      case Scanned(vs) => |vs| == 6 && vs[..4] == a.ip && vs[4] * 256 + vs[5] == a.port && vs[4] < 256 && vs[5] < 256
  {
    var high, low := a.port / 256, a.port % 256;
    ScanWhole(a.ip + [high, low], ',');
    assert (a.ip + [high, low])[..4] == a.ip;
  }

  /** What `do_port` stores: each number cut to a byte, the port in network order. */
  function PortAddress(arg: string): Scan {
    match ScanList(arg, ',', 6)
    case Stuck => Stuck
    case Scanned(vs) =>
      if |vs| != 6 then Stuck
      else Scanned([vs[0] % 256, vs[1] % 256, vs[2] % 256, vs[3] % 256, (vs[4] % 256) * 256 + vs[5] % 256])
  }

  lemma Bytes(a: Address, vs: seq<nat>, high: nat, low: nat)
    requires ValidAddress(a) && high == a.port / 256 && low == a.port % 256 && vs == a.ip + [high, low]
    ensures [vs[0] % 256, vs[1] % 256, vs[2] % 256, vs[3] % 256, (vs[4] % 256) * 256 + vs[5] % 256] == a.ip + [a.port]
  {
    assert high < 256;
    assert forall i :: 0 <= i < 4 ==> vs[i] == a.ip[i] && vs[i] % 256 == vs[i];
  }

  /** A client that sends back the tuple of a PASV reply as the argument of PORT names the same
      address and port. */
  lemma PasvPortRoundTrip(a: Address)
    requires ValidAddress(a)
    ensures PortAddress(PasvTuple(a)) == Scanned(a.ip + [a.port])
  {
    var high, low := a.port / 256, a.port % 256;
    var vs := a.ip + [high, low];
    ScanWhole(vs, ',');
    Bytes(a, vs, high, low);
  }

  /** `do_pasv` reads its own address from dotted text before printing it; nothing is lost. */
  lemma DottedToTuple(a: Address)
    requires ValidAddress(a)
    ensures ScanList(Join(a.ip, '.'), '.', 4) == Scanned(a.ip)
  {
    ScanWhole(a.ip, '.');
  }
}
