/** Loading the configuration file (parseconf.cpp): lines, settings, and which line wins. */
module ParseConf {
  import opened MachineInts
  import opened CStrings
  import opened Numerals

  const STR_SETTINGS: seq<string> := ["listen_address"]
  const BOOL_SETTINGS: seq<string> := ["pasv_enable", "port_enable"]
  const UINT_SETTINGS: seq<string> := [
    "listen_port", "max_clients", "max_per_ip", "accept_timeout", "connect_timeout",
    "idle_session_timeout", "data_connection_timeout", "local_umask", "upload_max_rate",
    "download_max_rate"]

  /** The value of a tunable variable. */
  datatype Tunable = Number(n: uint32) | Text(s: string) | Unset

  type Tunables = map<string, Tunable>

  /** The initial values of tunable.cpp. */
  const DEFAULTS: Tunables := map[
    "pasv_enable" := Number(1), "port_enable" := Number(1),
    "listen_port" := Number(21), "max_clients" := Number(2000), "max_per_ip" := Number(50),
    "accept_timeout" := Number(60), "connect_timeout" := Number(60),
    "idle_session_timeout" := Number(300), "data_connection_timeout" := Number(300),
    "local_umask" := Number(63), "upload_max_rate" := Number(0), "download_max_rate" := Number(0),
    "listen_address" := Unset]

  lemma InitialLimits()
    ensures DEFAULTS["pasv_enable"] == DEFAULTS["port_enable"] == Number(1)
    ensures DEFAULTS["listen_port"] == Number(21) && DEFAULTS["listen_address"] == Unset
    ensures DEFAULTS["max_clients"] == Number(2000) && DEFAULTS["max_per_ip"] == Number(50)
    ensures DEFAULTS["upload_max_rate"] == DEFAULTS["download_max_rate"] == Number(0)
  {
  }

  lemma InitialTimeouts()
    ensures DEFAULTS["accept_timeout"] == DEFAULTS["connect_timeout"] == Number(60)
    ensures DEFAULTS["idle_session_timeout"] == DEFAULTS["data_connection_timeout"] == Number(300)
    ensures DEFAULTS["local_umask"] == Number(63)
  {
  }

  /** `atoi` as an `unsigned`: blanks, a sign, digits. */
  function Atoi(s: string): uint32 {
    if s == "" then 0
    else if s[0] == ' ' || '\t' <= s[0] <= '\r' then Atoi(s[1..])
    else if s[0] == '-' then AsUint32(-(Value(DigitPrefix(s[1..]), 10) as int))
    else if s[0] == '+' then AsUint32(Value(DigitPrefix(s[1..]), 10))
    else AsUint32(Value(DigitPrefix(s), 10))
  }

  /** What a numeric setting is set to: octal after a leading 0, else decimal. */
  function UintOf(value: string): uint32
    requires value != ""
  {
    if value[0] == '0' then AsUint32(Numerals.Value(OctalPrefix(value), 8)) else Atoi(value)
  }

  datatype Assignment = Assign(name: string, value: Tunable) | Ignored

  /** The assignment of a value that is not empty: the three tables are searched in turn. */
  function AssignmentTo(key: string, value: string): Assignment
    requires value != ""
  {
    if key in STR_SETTINGS then Assign(key, Text(value))
    else if key in BOOL_SETTINGS then
      if value == "1" then Assign(key, Number(1))
      else if value == "0" then Assign(key, Number(0))
      else Ignored
    else if key in UINT_SETTINGS then Assign(key, Number(UintOf(value)))
    else Ignored
  }

  /** The assignment that a line "key=value" makes, if it is a valid one. */
  function AssignmentOf(text: string): Assignment {
    var p := IndexOf(text, '=');
    if p == |text| || p + 1 == |text| then Ignored else AssignmentTo(text[..p], text[p + 1..])
  }

  lemma AssignmentOfParts(text: string, key: string, value: string)
    requires var p := IndexOf(text, '=');
      key == text[..p] && value == if p == |text| then "" else text[p + 1..]
    ensures AssignmentOf(text) == if value == "" then Ignored else AssignmentTo(key, value)
  {
  }

  function Applied(t: Tunables, a: Assignment): Tunables {
    if a.Ignored? then t else t[a.name := a.value]
  }

  /** Giving the address when there is one already frees the address of the variable, which was never
      allocated. */
  predicate BadlyFrees(t: Tunables, a: Assignment) {
    a.Assign? && a.name in STR_SETTINGS && a.name in t && t[a.name] != Unset
  }

  /** Lines that are skipped before they are trimmed. */
  predicate Skipped(line: string) {
    line == "" || line[0] == '#' || forall i :: 0 <= i < |line| ==> line[i] == ' '
  }

  function LineAssignment(line: string): Assignment {
    if Skipped(line) then Ignored else AssignmentOf(CutAtCrlf(line))
  }

  /** How loading ends: with these values, or with the bad free at a line. */
  datatype LoadResult = Done(values: Tunables) | BadFree(line: nat)

  function LoadRun(t: Tunables, lines: seq<string>): LoadResult {
    if lines == [] then Done(t)
    else
      var n := |lines| - 1;
      var before := LoadRun(t, lines[..n]);
      if before.BadFree? then before
      else if BadlyFrees(before.values, LineAssignment(lines[n])) then BadFree(n)
      else Done(Applied(before.values, LineAssignment(lines[n])))
  }

  predicate Sets(line: string, name: string) {
    LineAssignment(line).Assign? && LineAssignment(line).name == name
  }

  /** How many lines validly set a name. */
  function Times(lines: seq<string>, name: string): nat {
    if lines == [] then 0
    else Times(lines[..|lines| - 1], name) + if Sets(lines[|lines| - 1], name) then 1 else 0
  }

  const ADDRESS := "listen_address"

  lemma AddressSetting(t: Tunables, line: string)
    requires ADDRESS in t
    ensures BadlyFrees(t, LineAssignment(line)) <==> Sets(line, ADDRESS) && t[ADDRESS] != Unset
    ensures ADDRESS in Applied(t, LineAssignment(line))
    ensures Sets(line, ADDRESS) ==> Applied(t, LineAssignment(line))[ADDRESS] != Unset
    ensures !Sets(line, ADDRESS) ==> Applied(t, LineAssignment(line))[ADDRESS] == t[ADDRESS]
  {
    var a := LineAssignment(line);
    assert a.Assign? && a.name in STR_SETTINGS <==> Sets(line, ADDRESS);
    assert Sets(line, ADDRESS) ==> a.value.Text?;
  }

  /** Loading completes if and only if at most one line validly sets the address. */
  lemma {:induction false} LoadCompletesExactly(t: Tunables, lines: seq<string>)
    requires ADDRESS in t && t[ADDRESS] == Unset
    ensures LoadRun(t, lines).Done? <==> Times(lines, ADDRESS) <= 1
    ensures LoadRun(t, lines).Done? ==>
      var v := LoadRun(t, lines).values;
      ADDRESS in v && (v[ADDRESS] == Unset <==> Times(lines, ADDRESS) == 0)
  {
    if lines != [] {
      var n := |lines| - 1;
      LoadCompletesExactly(t, lines[..n]);
      if LoadRun(t, lines[..n]).Done? {
        AddressSetting(LoadRun(t, lines[..n]).values, lines[n]);
      }
    }
  }

  /** Otherwise it ends at the second of those lines. */
  lemma {:induction false} BadFreeIsSecond(t: Tunables, lines: seq<string>, k: nat)
    requires ADDRESS in t && t[ADDRESS] == Unset
    ensures LoadRun(t, lines) == BadFree(k)
       <==> k < |lines| && Sets(lines[k], ADDRESS) && Times(lines[..k], ADDRESS) == 1
  {
    if lines != [] {
      var n := |lines| - 1;
      BadFreeIsSecond(t, lines[..n], k);
      LoadCompletesExactly(t, lines[..n]);
      if LoadRun(t, lines[..n]).Done? {
        AddressSetting(LoadRun(t, lines[..n]).values, lines[n]);
      }
      if k < n {
        assert lines[..n][..k] == lines[..k];
        TimesOfPrefix(lines[..n], k + 1, ADDRESS);
        assert lines[..n][..k + 1][..k] == lines[..k];
      }
    }
  }

  lemma {:induction false} TimesOfPrefix(lines: seq<string>, k: nat, name: string)
    requires k <= |lines|
    ensures Times(lines[..k], name) <= Times(lines, name)
    decreases |lines|
  {
    if k < |lines| {
      TimesOfPrefix(lines[..|lines| - 1], k, name);
      assert lines[..|lines| - 1][..k] == lines[..k];
    } else {
      assert lines[..k] == lines;
    }
  }

  /** Two lines that give an address, as any editor might leave them. */
  lemma {:induction false} TwoAddresses(first: string, second: string)
    requires first != "" && second != ""
    requires CutAtCrlf(first) == first && CutAtCrlf(second) == second
    ensures LoadRun(DEFAULTS, [ADDRESS + "=" + first, ADDRESS + "=" + second]) == BadFree(1)
  {
    var a, b := ADDRESS + "=" + first, ADDRESS + "=" + second;
    AddressLine(first);
    AddressLine(second);
    assert [a, b][..1] == [a] && [a][..0] == [];
    assert LoadRun(DEFAULTS, [a]) == Done(DEFAULTS[ADDRESS := Text(first)]);
  }

  /** Lower-case letters and underscores, as in the names of the tables. */
  predicate PlainName(name: string) {
    name != "" && forall i :: 0 <= i < |name| ==> 'a' <= name[i] <= 'z' || name[i] == '_'
  }

  lemma SwitchNamesArePlain()
    ensures PlainName("listen_address") && PlainName("pasv_enable") && PlainName("port_enable")
  {
  }

  lemma LimitNamesArePlain()
    ensures PlainName("listen_port") && PlainName("max_clients") && PlainName("max_per_ip")
    ensures PlainName("local_umask") && PlainName("upload_max_rate") && PlainName("download_max_rate")
  {
  }

  lemma TimeoutNamesArePlain()
    ensures PlainName("accept_timeout") && PlainName("connect_timeout")
    ensures PlainName("idle_session_timeout") && PlainName("data_connection_timeout")
  {
  }

  lemma NamesArePlain(name: string)
    requires name in STR_SETTINGS || name in BOOL_SETTINGS || name in UINT_SETTINGS
    ensures PlainName(name)
  {
    SwitchNamesArePlain();
    LimitNamesArePlain();
    TimeoutNamesArePlain();
  }

  /** The tables name every variable once: the address, the two switches, and all the numbers. */
  lemma TablesCoverDefaults(name: string)
    ensures name in STR_SETTINGS <==> name == "listen_address"
    ensures name in BOOL_SETTINGS <==> name == "pasv_enable" || name == "port_enable"
    ensures name in UINT_SETTINGS <==> name in DEFAULTS && name !in STR_SETTINGS && name !in BOOL_SETTINGS
  {
  }

  /** A setting written without CR or LF, on a line that is not skipped. */
  lemma SettingLine(key: string, value: string)
    requires PlainName(key) && value != "" && CutAtCrlf(value) == value
    ensures LineAssignment(key + "=" + value) == AssignmentTo(key, value)
  {
    var line := key + "=" + value;
    assert line[0] == key[0];
    CutAtCrlfIs(key, key);
    CutAtCrlfIs("=", "=");
    CutOfBoth(key, "=");
    CutOfBoth(key + "=", value);
    AssignmentRoundTrip(key, value);
  }

  lemma AddressLine(value: string)
    requires value != "" && CutAtCrlf(value) == value
    ensures LineAssignment(ADDRESS + "=" + value) == Assign(ADDRESS, Text(value))
  {
    NamesArePlain(ADDRESS);
    SettingLine(ADDRESS, value);
  }

  /** No line from the `i`-th on sets this name. */
  predicate Quiet(lines: seq<string>, i: nat, name: string) {
    forall j :: i <= j < |lines| ==> !Sets(lines[j], name)
  }

  /** Once loading completes, the last line that validly sets a name has won, and a name that no line
      validly sets keeps its value: `i` is that line, or -1. */
  lemma {:induction false} LastLineWins(t: Tunables, lines: seq<string>, name: string) returns (i: int)
    requires name in t && LoadRun(t, lines).Done?
    ensures -1 <= i < |lines| && Quiet(lines, i + 1, name) && name in LoadRun(t, lines).values
    ensures i >= 0 ==>
      Sets(lines[i], name) && LoadRun(t, lines).values[name] == LineAssignment(lines[i]).value
    ensures i == -1 ==> LoadRun(t, lines).values[name] == t[name]
  {
    if lines == [] {
      return -1;
    }
    var last := |lines| - 1;
    if Sets(lines[last], name) {
      return last;
    }
    i := LastLineWins(t, lines[..last], name);
    QuietLonger(lines, i + 1, name);
  }

  lemma QuietLonger(lines: seq<string>, i: nat, name: string)
    requires lines != [] && !Sets(lines[|lines| - 1], name) && Quiet(lines[..|lines| - 1], i, name)
    ensures Quiet(lines, i, name)
  {
    assert forall j :: 0 <= j < |lines| - 1 ==> lines[..|lines| - 1][j] == lines[j];
  }

  /** A line written as key, '=' and value is split back into them, whatever the value contains. */
  lemma {:induction false} AssignmentRoundTrip(key: string, value: string)
    requires '=' !in key && value != ""
    ensures AssignmentOf(key + "=" + value) == AssignmentTo(key, value)
  {
    var text := key + "=" + value;
    assert text[|key|] == '=' && text[..|key|] == key;
    var p := IndexOf(text, '=');
    assert p >= |key|;
    assert p <= |key|;
    assert text[p + 1..] == value;
  }

  // ---------- what lines of the file say ----------

  lemma AtoiDigits(s: string)
    requires s != "" && IsDigit(s[0])
    ensures Atoi(s) == AsUint32(Value(DigitPrefix(s), 10))
  {
  }

  lemma AtoiMinus(signed: string, s: string)
    requires signed != "" && signed[0] == '-' && signed[1..] == s
    ensures Atoi(signed) == AsUint32(-(Value(DigitPrefix(s), 10) as int))
  {
  }

  lemma AtoiPlus(signed: string, s: string)
    requires signed != "" && signed[0] == '+' && signed[1..] == s
    ensures Atoi(signed) == AsUint32(Value(DigitPrefix(s), 10))
  {
  }

  lemma SignInFront(sign: char, s: string)
    ensures ([sign] + s)[0] == sign && ([sign] + s)[1..] == s
  {
  }

  lemma PrefixOfNumber(n: nat, rest: string)
    requires rest != "" ==> !IsDigit(rest[0])
    ensures var s := PrintDec(n) + rest;
      s != "" && IsDigit(s[0]) && DigitPrefix(s) == PrintDec(n) && Value(DigitPrefix(s), 10) == n
  {
    ValueOfDec(n);
    DigitPrefixOfDigits(PrintDec(n), rest);
    assert (PrintDec(n) + rest)[0] == PrintDec(n)[0];
  }

  /** Text after the digits does not matter to `atoi`. */
  lemma AtoiOf(n: nat, rest: string)
    requires rest != "" ==> !IsDigit(rest[0])
    ensures Atoi(PrintDec(n) + rest) == AsUint32(n)
    ensures Atoi("-" + (PrintDec(n) + rest)) == AsUint32(-(n as int)) && Atoi("+" + (PrintDec(n) + rest)) == AsUint32(n)
  {
    var s := PrintDec(n) + rest;
    PrefixOfNumber(n, rest);
    AtoiDigits(s);
    SignInFront('-', s);
    AtoiMinus("-" + s, s);
    SignInFront('+', s);
    AtoiPlus("+" + s, s);
  }

  /** A decimal number is read back exactly if an `unsigned` holds it. */
  lemma AtoiExactly(n: nat)
    ensures Atoi(PrintDec(n)) == n <==> n < TWO_32
  {
    AtoiOf(n, "");
    assert PrintDec(n) + "" == PrintDec(n);
  }

  /** Blanks before a number do not matter, and what is no number is 0. */
  lemma AtoiOther(c: char, s: string)
    ensures c == ' ' || '\t' <= c <= '\r' ==> Atoi([c] + s) == Atoi(s)
    ensures c > ' ' && !IsDigit(c) && c != '+' && c != '-' ==> Atoi([c] + s) == 0
  {
    assert ([c] + s)[1..] == s;
    if c > ' ' && !IsDigit(c) && c != '+' && c != '-' {
      assert DigitPrefix([c] + s) == "";
    }
  }

  lemma {:induction false} NoLeadingZero(n: nat)
    requires n > 0
    ensures PrintDec(n)[0] != '0'
  {
    if n >= 10 {
      NoLeadingZero(n / 10);
      assert PrintDec(n)[0] == PrintDec(n / 10)[0];
    }
  }

  /** A numeric setting takes a number in decimal. */
  lemma DecimalUint(n: nat)
    ensures UintOf(PrintDec(n)) == AsUint32(n)
  {
    AtoiOf(n, "");
    assert PrintDec(n) + "" == PrintDec(n);
    if n == 0 {
      OctalPrefixOfOctal("0", "");
      assert "0" + "" == "0" && PrintDec(0) == "0";
    } else {
      NoLeadingZero(n);
    }
  }

  /** And in octal after a leading 0. */
  lemma OctalUint(n: nat)
    ensures UintOf("0" + PrintOct(n)) == AsUint32(n)
  {
    var s := "0" + PrintOct(n);
    OctalPrefixOfOctal(s, "");
    assert s + "" == s;
    ValueOfOct(n);
    LeadingZero(PrintOct(n));
  }

  lemma UintNames(name: string)
    requires name in UINT_SETTINGS
    ensures name !in STR_SETTINGS && name !in BOOL_SETTINGS
  {
  }

  lemma DigitsAreUncut(s: string)
    requires AllDigits(s)
    ensures CutAtCrlf(s) == s
  {
    assert forall i :: 0 <= i < |s| ==> IsDigit(s[i]);
    CutAtCrlfIs(s, s);
  }

  /** Every numeric setting is set to the number written behind its name. */
  lemma NumericLines(name: string, n: nat)
    requires name in UINT_SETTINGS
    ensures LineAssignment(name + "=" + PrintDec(n)) == Assign(name, Number(AsUint32(n)))
    ensures LineAssignment(name + "=" + ("0" + PrintOct(n))) == Assign(name, Number(AsUint32(n)))
  {
    NamesArePlain(name);
    UintNames(name);
    DecimalUint(n);
    OctalUint(n);
    ValueOfOct(n);
    LeadingZero(PrintOct(n));
    DigitsAreUncut(PrintDec(n));
    DigitsAreUncut("0" + PrintOct(n));
    SettingLine(name, PrintDec(n));
    SettingLine(name, "0" + PrintOct(n));
  }

  /** Every switch is set by 1 and 0 and by nothing else. */
  lemma SwitchLines(name: string, other: string)
    requires name in BOOL_SETTINGS
    requires other != "" && other != "1" && other != "0" && CutAtCrlf(other) == other
    ensures LineAssignment(name + "=" + "1") == Assign(name, Number(1))
    ensures LineAssignment(name + "=" + "0") == Assign(name, Number(0))
    ensures LineAssignment(name + "=" + other) == Ignored
  {
    NamesArePlain(name);
    assert name !in STR_SETTINGS;
    DigitsAreUncut("1");
    DigitsAreUncut("0");
    SettingLine(name, "1");
    SettingLine(name, "0");
    SettingLine(name, other);
  }

  /** Comments, lines of blanks, empty lines, lines without a value and unknown names set nothing. */
  lemma LinesThatSetNothing(line: string, name: string, value: string)
    requires PlainName(name) && name !in STR_SETTINGS && name !in BOOL_SETTINGS && name !in UINT_SETTINGS
    requires CutAtCrlf(value) == value
    ensures line != "" && line[0] == '#' ==> LineAssignment(line) == Ignored
    ensures (forall i :: 0 <= i < |line| ==> line[i] == ' ') ==> LineAssignment(line) == Ignored
    ensures '=' !in CutAtCrlf(line) ==> LineAssignment(line) == Ignored
    ensures LineAssignment(name + "=" + value) == Ignored
  {
    if '=' !in CutAtCrlf(line) {
      assert IndexOf(CutAtCrlf(line), '=') == |CutAtCrlf(line)|;
    }
    if value == "" {
      NoValue(name);
      assert name + "=" + value == name + "=";
    } else {
      SettingLine(name, value);
    }
  }

  lemma NoValue(name: string)
    requires PlainName(name)
    ensures LineAssignment(name + "=") == Ignored
  {
    CutAtCrlfIs(name + "=", name + "=");
    IndexOfIs(name + "=", '=', |name|);
  }

  /** A file of one numeric setting changes that value only. */
  lemma OneSettingLoads(name: string, n: nat)
    requires name in UINT_SETTINGS && n < TWO_32
    ensures LoadRun(DEFAULTS, [name + "=" + PrintDec(n)]) == Done(DEFAULTS[name := Number(n)])
  {
    var line := name + "=" + PrintDec(n);
    NumericLines(name, n);
    UintNames(name);
    assert [line][..0] == [];
  }

  // ---------- the loader ----------

  /** The tunable variables, which the tables of the loader point to. */
  class Loader {
    var values: Tunables

    constructor ()
      ensures values == DEFAULTS
    {
      values := DEFAULTS;
    }

    /** One of the table scans: whether the table has this name. */
    method InTable(table: seq<string>, key: string) returns (found: bool)
      ensures found <==> key in table
    {
      for i := 0 to |table|
        invariant key !in table[..i]
      {
        if table[i] == key {
          return true;
        }
      }
      return false;
    }

    /** `parseconf_load_setting`: the assignment made, or the bad free. */
    method LoadSetting(setting: array<char>) returns (badFree: bool)
      requires NUL in setting[..]
      requires SplitFits(CStr(setting[..]), '=', 128, 128)
      modifies this`values
      ensures badFree <==> BadlyFrees(old(values), AssignmentOf(CStr(setting[..])))
      ensures values == if badFree then old(values) else Applied(old(values), AssignmentOf(CStr(setting[..])))
    {
      var key, value := new char[128](_ => NUL), new char[128](_ => NUL);
      ghost var text := CStr(setting[..]);
      Split(setting, key, value);
      var k, v := CStr(key[..]), CStr(value[..]);
      AssignmentOfParts(text, k, v);
      if v == "" {
        return false;
      }
      badFree := SearchTables(k, v);
    }

    /** The three table scans. */
    method SearchTables(key: string, value: string) returns (badFree: bool)
      requires value != ""
      modifies this`values
      ensures badFree <==> BadlyFrees(old(values), AssignmentTo(key, value))
      ensures values == if badFree then old(values) else Applied(old(values), AssignmentTo(key, value))
    {
      var found := InTable(STR_SETTINGS, key);
      if found {
        if key in values && values[key] != Unset {
          return true;
        }
        values := values[key := Text(value)];
        return false;
      }
      found := InTable(BOOL_SETTINGS, key);
      if found {
        if value == "1" {
          values := values[key := Number(1)];
        } else if value == "0" {
          values := values[key := Number(0)];
        }
        return false;
      }
      found := InTable(UINT_SETTINGS, key);
      if found {
        var n;
        if value[0] == '0' {
          n := StrOctalToUint(value);
        } else {
          n := Atoi(value);
        }
        values := values[key := Number(n)];
      }
      return false;
    }

    method Split(setting: array<char>, key: array<char>, value: array<char>)
      requires NUL in setting[..] && SplitFits(CStr(setting[..]), '=', 128, 128)
      requires key != value && key != setting && value != setting
      requires key.Length == value.Length == 128 && Zeroed(key[..]) && Zeroed(value[..])
      modifies key, value
      ensures NUL in key[..] && NUL in value[..]
      ensures var text := CStr(old(setting[..])); var p := IndexOf(text, '=');
        && CStr(key[..]) == text[..p]
        && CStr(value[..]) == if p == |text| then "" else text[p + 1..]
    {
      ghost var text, a := CStr(setting[..]), key[..];
      ghost var p := IndexOf(text, '=');
      StrSplit(setting, key, value, '=');
      if p == |text| {
        CStrIs(key[..], text);
        CStrIs(value[..], "");
      } else {
        SplitHeadExactly(text, p, a);
        CStrIs(value[..], text[p + 1..]);
      }
    }

    /** One line of the file, in the buffer for lines. */
    method LoadLine(line: string, settingLine: array<char>) returns (badFree: bool)
      requires LineFits(line, settingLine.Length)
      modifies this`values, settingLine
      ensures badFree <==> BadlyFrees(old(values), LineAssignment(line))
      ensures values == if badFree then old(values) else Applied(old(values), LineAssignment(line))
    {
      if Skipped(line) {
        return false;
      }
      StrCpy(settingLine, line);
      CStrIs(settingLine[..], line);
      ghost var before := settingLine[..];
      StrTrimCrlf(settingLine);
      TrimmedIsCut(before, settingLine[..]);
      badFree := LoadSetting(settingLine);
    }

    /** `parseconf_load_file`, on the lines that `fgets` delivers into a buffer of this size. */
    method LoadFile(lines: seq<string>, size: nat) returns (r: LoadResult)
      requires forall i :: 0 <= i < |lines| ==> LineFits(lines[i], size)
      modifies this`values
      ensures r == LoadRun(old(values), lines) && (r.Done? ==> r.values == values)
    {
      var settingLine := new char[size](_ => NUL);
      for i := 0 to |lines|
        invariant LoadRun(old(values), lines[..i]) == Done(values)
      {
        NextLine(old(values), lines, i);
        var badFree := LoadLine(lines[i], settingLine);
        if badFree {
          StaysBad(old(values), lines, i + 1);
          return BadFree(i);
        }
      }
      assert lines[..|lines|] == lines;
      r := Done(values);
    }
  }

  lemma NextLine(t: Tunables, lines: seq<string>, i: nat)
    requires i < |lines| && LoadRun(t, lines[..i]).Done?
    ensures var v := LoadRun(t, lines[..i]).values;
      LoadRun(t, lines[..i + 1])
      == if BadlyFrees(v, LineAssignment(lines[i])) then BadFree(i) else Done(Applied(v, LineAssignment(lines[i])))
  {
    assert lines[..i + 1][..i] == lines[..i];
  }

  lemma {:induction false} StaysBad(t: Tunables, lines: seq<string>, i: nat)
    requires i <= |lines| && LoadRun(t, lines[..i]).BadFree?
    ensures LoadRun(t, lines) == LoadRun(t, lines[..i])
    decreases |lines|
  {
    if i == |lines| {
      assert lines[..i] == lines;
    } else {
      assert lines[..|lines| - 1][..i] == lines[..i];
      StaysBad(t, lines[..|lines| - 1], i);
    }
  }

  /** Room for a line in the buffer for lines, and for the two parts of a setting in theirs. */
  predicate LineFits(line: string, size: nat) {
    NUL !in line && |line| < size && (Skipped(line) || SplitFits(CutAtCrlf(line), '=', 128, 128))
  }
}
