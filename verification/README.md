# A verified model of the FTP server

The server is a single process that multiplexes FTP control connections with epoll and runs each
file transfer in a thread of its own. This project models the parts of it that keep state, loop or
compute, and proves what they promise:

- **Idle sessions** (`IdlePolicy`, `IdleRuns`, `IdleList`, `ServerLoop`). Sessions sit in a doubly
  linked list from the most to the least recently used. When a wait ends without an event, timed-out
  sessions are popped from the back, with the clock re-read before each test. The list on the heap,
  with its array from socket to node, is proved to follow the policy, and over every run the policy
  removes exactly what a scan of all sessions would. Over every run of the main loop, the requests on
  its socket and the idle rounds decide whether an accepted session is still listed or was closed.
- **Counting and admission** (`HashTables`, `Admission`). The chained hash table on the heap is a
  finite map; the per-address counts in it are tallies; the number of clients, the accepted
  connections and the sum of all counts agree over every run.
- **Reading commands** (`CStrings`, `StreamIo`, `Framing`, `LineReader`, `Commands`, `ControlRuns`,
  `ControlConnections`). Over a kernel that moves any number of the bytes that have arrived, peeks any
  length and interrupts any finite number of times, `readline` takes the first line if and only if all
  of it has arrived, as long as the line buffer holds what a peek can show. The buffer also holds bytes
  of later commands; trimming is what cuts it back. In the event loop every input event reads one line:
  the commands received are always the first ones of the stream, and the session stays open exactly as
  long as every event finds its line arrived and no more than the buffer holds.
- **Transfers** (`Transfers`, `Resume`). What RETR sends and what STOR leaves in the file, which
  replies go with it, and that transfers cut short by either side and taken up again with REST end
  with the whole file (section 4.1.3 of RFC 959, section 5 of RFC 3659).
- **Session state** (`SessionProtocol`). Listener, data connection, restart offset and pending
  rename over every run of commands.
- **Numbers and configuration** (`Numerals`, `ParseConf`). Printing and parsing undo each other
  (sections 4.1.2 and 4.2.2 of RFC 959 for the address tuple); the last valid line of the
  configuration file wins, if loading the file completes.

The kernel is modelled by methods that choose nondeterministically within their contracts: `Recv`,
`Write` and `SendFile` of `StreamIo`, `MaybeAbort` of `Transfers`, and `GetTimeSec` of `IdleList`.
How many more calls may be interrupted or move nothing, and how many may fail with an error of their
own, are numbers held by each descriptor, of any size; the first is what makes the retry loops end.
A descriptor also says how much of its input has arrived, whether the end of the input has, and
whether more may arrive while a call is under way. A receive on a non-blocking descriptor that finds
nothing fails with EAGAIN; control sockets are non-blocking (`epoll_util.cpp:22-31`), data connections
are not. `lseek` succeeds up to a largest offset that belongs to the file (`maxOffset` of
`Transfers.Lookup`). Characters are Dafny `char`s and integer widths are written out with the
conversions of `MachineInts`.

Where the code does less than it sets out to do, the model follows the code:

- A line that has not arrived in full when its event is served ends the whole server: the peek gets
  EAGAIN, `readline` returns -1, and the process exits (`ReadLine`, `SplitLineExits`). Commands that
  arrive together are one event and only the first of them is received (`SecondCommandWaits`).
  `StaysOpenExactly` and `PipelinedCommandsReceived` say exactly when all goes well.
- A read of a line asks for MAX_COMMAND_LINE = 1024 bytes (`ftpproto.cpp:169`) where the line buffer
  holds MAX_COMMAND = 32 (`session.h:10`). What happens once more has arrived than that with a NUL
  behind it is undefined in C; the model ends such a run as `Overflowed`. A command that arrives at
  once is received if and only if its line is shorter than the buffer (`CommandFitsExactly`): RETR
  with a name of up to 24 characters is, with a longer one it is not (`RetrFitsExactly`), and no line of 32 bytes or more ever is
  (`LongLineNeverReceived`).
- 226 alone does not prove that a whole file has arrived: the server takes the end of the input for
  the end of the data, so a client that closes its side after part of an upload is told 226 as well
  (`CutUploadIsReported`), and what it hands over of a download need not get through. The client of
  `UploadWithRestarts` and `DownloadWithRestarts` also compares sizes.
- A second line that sets `listen_address` frees the address of a global variable (`TwoAddresses`);
  loading completes if and only if at most one line validly sets it (`LoadCompletesExactly`).
- The result of `lseek` is cut to an `int` in RETR, so a restart at 4294967295 modulo 2^32 is
  refused (`RetrStartsExactly`, `RestartRefused`). STOR does not cut it.
- The limit on connections per address has no effect (`PerIpLimitIgnored`, `PerIpLimitExceeded`); it
  is kept if and only if the addresses keep it by themselves (`PerIpLimitKeptExactly`). One more
  client than `max_clients` is accepted, and since nothing decrements `s_children` that is the number
  accepted over the whole run (`AcceptedIsCapacity`).
- `str_split` writes no NUL after its first part; that part is right exactly when the buffer was
  zeroed there (`SplitHeadExactly`).
- The idle test mixes signed and unsigned numbers; it is the intended one exactly as long as the
  clock is not set back by more than two seconds, or the setting is very large
  (`TimedOutExactly`); set back by three seconds, it times everybody out (`ClockSetBack`).
- A count for an address that passes 2^32-1 wraps to 0 and the entry stays; the table agrees with
  the tally exactly up to there (`CountsAreTallies`, `CountWraps`).
- `readline` reports the end of the input in the middle of a line as 0, like one between lines.

## Model

| member | source | states |
|---|---|---|
| `IdlePolicy.TimedOutExactly` | ftpepoll.cpp:152-158 | the mixed signed and unsigned comparison is the mathematical one if and only if the clock was set back by at most two seconds or the setting exceeds the wrapped age |
| `IdlePolicy.ClockSetBack` | ftpepoll.cpp:152-158 | with the clock set back by three seconds every session is timed out, under every setting but the largest, although no age exceeds it |
| `IdlePolicy.TimedOutByAge` | ftpepoll.cpp:156-158 | with a clock not set back and below 2^31 - 2 the test is age + 2 > setting |
| `IdlePolicy.TimedOutMonotone` | ftpepoll.cpp:156-158 | a session timed out at one reading is so at every later one, and so is every session used before it |
| `IdlePolicy.FullScanMembers` | ftpepoll.cpp:179-181 | the reference scan keeps an entry if and only if it is listed and not timed out |
| `IdlePolicy.EvictionIsFullScan` | ftpepoll.cpp:169-185 | popping from the back with the clock re-read before each test leaves exactly what a scan of all sessions at the last reading leaves, in order |
| `IdlePolicy.EvictionByAge` | ftpepoll.cpp:169-185 | a session survives a round if and only if its age at the last reading plus 2 is within the setting |
| `IdlePolicy.WaitTimeIsLeastRemaining` | ftpepoll.cpp:174 | the wait bound from the least recently used node is the least remaining time of all sessions, and the mixed-sign arithmetic gives it if and only if it is below 2^31 |
| `IdlePolicy.InOrderExactly` | ftpepoll.cpp:188-226 | entry by entry the times fall from the clock on if and only if the list is sorted by last use and no time is negative or in the future |
| `MachineInts.ConversionsWrap` | ftpepoll.cpp:156-158 | a conversion to unsigned or int takes away a multiple of 2^32 and leaves a value of the type |
| `MachineInts.LongConversionWraps` | str.cpp:29-36 | a conversion to long long takes away a multiple of 2^64 and leaves a value of the type |
| `IdleRuns.ListRefinesTable` | ftpepoll.cpp:169-278 | over every run of new sessions, requests on any socket and idle rounds, the list stays sorted by last use with one entry per socket and equals an unordered table that is scanned in full at every round |
| `IdleRuns.LastTimeIsLastUse` | ftpepoll.cpp:216-226 | the time an entry records is that of the last event of the run that names its socket |
| `IdleRuns.SurvivesIffUsedRecently` | ftpepoll.cpp:179-181 | after any run a round keeps a socket if and only if its last use is recent enough |
| `IdleList.SlotsAt` | ftpepoll.cpp:31 | the array is non-null exactly at the sockets of listed nodes and leads to those nodes |
| `IdleList.IdleList.constructor` | ftpepoll.cpp:31-39 | the list starts valid and empty, both ends null, over an array of 1200 slots, with nothing asked of the clock yet |
| `IdleList.IdleList.GetTimeSec` | sysutil.cpp:480-483 | a reading is never before the one preceding it, and each is logged |
| `IdleList.IdleList.EpollWait` | ftpepoll.cpp:170-175 | the wait answers what the kernel says, and its bound is logged among the clock readings |
| `IdleList.IdleList.LinkMRU` | ftpepoll.cpp:188-197 | the chain with the node in front, both directions and both ends right |
| `IdleList.IdleList.UnlinkNode` | ftpepoll.cpp:199-213 | the chain without exactly that node, wherever it is, and its own links cleared |
| `IdleList.IdleList.MoveToFront` | ftpepoll.cpp:221-224 | the node is moved to the front with its new time, all others keep their order and times |
| `IdleList.IdleList.LinkNew` | session.cpp:6-13 | a new node in front of an otherwise unchanged chain |
| `IdleList.IdleList.AddToNode` | ftpepoll.cpp:272-278 | the list after the policy's connect event at a time read from the clock now, once; chain, array and order invariants kept |
| `IdleList.IdleList.RefreshTimeout` | ftpepoll.cpp:216-226 | the list after the policy's activity event at a time read from the clock now, once; -1, no reading and no change for a socket without a node |
| `IdleList.IdleList.SlotsAreListed` | ftpepoll.cpp:217-221 | the array slot of a socket is non-null if and only if the socket is listed, and is its node |
| `IdleList.IdleList.RemoveToNode` | ftpepoll.cpp:159-165 | the last node goes, its slot is null, its session is closed, everything else stays |
| `IdleList.IdleList.IsTimeout` | ftpepoll.cpp:152-158 | exactly one new clock reading, and the test of the least recently used entry against that reading |
| `IdleList.IdleList.TryEvict` | ftpepoll.cpp:179-181 | one pass of the loop reads the clock once and pops a timed-out node, or ends the round as the policy does |
| `IdleList.IdleList.EvictTimedOut` | ftpepoll.cpp:179-181 | the loop computes the policy's round for its readings, which are all read from the clock during the loop, and closes exactly the sessions it drops, from the back |
| `IdleList.IdleList.EpollWaitTimeout` | ftpepoll.cpp:169-185 | one reading, the wait with the bound computed from it, then the readings of the tests, and nothing else in that order; -1 and no reading for an empty list; no change when events arrive; otherwise the policy's idle round for the readings after the wait |
| `ServerLoop.RoundOwner` | ftpepoll.cpp:179-181 | an idle round keeps a listed node if and only if its socket was last used recently enough |
| `ServerLoop.StepsOfTurns` | ftpepoll.cpp:107-148 | input always makes a step, a wait makes one exactly if it answers 0, and every other step is about the socket of its turn |
| `ServerLoop.LastUseIsLastTurn` | ftpepoll.cpp:216-226 | the last use of a socket is the time of the last turn that names it, counting neither rounds nor connections on a socket in use |
| `ServerLoop.InUseExactly` | ftpepoll.cpp:169-278 | a socket has a node after any turns if and only if some turn linked in a session with it that was used recently enough at every round since |
| `ServerLoop.LinkedInExactly` | ftpepoll.cpp:263-277 | over any turns, an accepted session is linked in if and only if no session linked in before with its socket has been used recently enough at every round since |
| `ServerLoop.ServeAccepted` | ftpepoll.cpp:263-277 | an accepted session makes the connect step with its socket, timed by a new clock reading, and joins the listed ones; nobody else is touched |
| `ServerLoop.ServeInput` | ftpepoll.cpp:130-131 | input makes the activity step of its socket, timed by a new clock reading, and the same sessions stay listed |
| `ServerLoop.ServeIdle` | ftpepoll.cpp:169-185 | a wait without events reads the clock, waits with the bound of that reading and makes an idle round of the readings after it, which closes exactly the sessions it no longer lists |
| `ServerLoop.AccountMore` | ftpepoll.cpp:107-148 | one more turn keeps the account of every session: listed if and only if linked in and used recently enough at every round since, closed if and only if linked in and no longer listed |
| `ServerLoop.Serve` | ftpepoll.cpp:107-148 | over any turns of the main loop every turn makes its step of the policy, the heap list is the policy's after these steps and holds what the full scans leave, and every accepted session is listed or closed according to that account |
| `HashTables.HashFunc` | ftpepoll.cpp:307-309 | the bucket number is in range, so the check at hash.cpp:82 never fails |
| `HashTables.SameBucketExactly` | ftpepoll.cpp:307-309 | two keys share a bucket if and only if their difference is a multiple of the number of buckets |
| `HashTables.FindInCut` | hash.cpp:60-77 | unlinking a node hides its key and leaves every other key of the chain where it can be found |
| `HashTables.KeyedCut` | hash.cpp:60-77 | a chain without one node still has each key once and in its bucket |
| `HashTables.HashTable.constructor` | hash.cpp:22-30 | the table starts valid and empty |
| `HashTables.HashTable.GetNodeByKey` | hash.cpp:88-98 | the walk finds the node of the key if and only if the map has it |
| `HashTables.HashTable.HashLookupEntry` | hash.cpp:32-35 | the entry of the key with the map's value, or none |
| `HashTables.HashTable.Store` | ftpepoll.cpp:318-320 | writing through the returned pointer updates that key of the map only |
| `HashTables.HashTable.PushFront` | hash.cpp:51-57 | the bucket's chain with the node at its head, other buckets' heads unchanged |
| `HashTables.HashTable.Unlink` | hash.cpp:69-74 | the bucket's chain without the node, other buckets' heads unchanged |
| `HashTables.HashTable.Insert` | hash.cpp:42-57 | lookups of every key after the insertion, all chains kept well formed |
| `HashTables.HashTable.Remove` | hash.cpp:69-76 | lookups of every key after the removal, all chains kept well formed |
| `HashTables.HashTable.HashAddEntry` | hash.cpp:37-58 | the map with the entry added; a duplicate key changes neither map nor chains |
| `HashTables.HashTable.HashFreeEntry` | hash.cpp:60-77 | the map without the key; a missing key changes nothing |
| `Admission.CountsAreTallies` | ftpepoll.cpp:311-337 | over every run the entry of an address exists exactly for a positive tally and equals it, at every point, if and only if the tally never passes 2^32-1 |
| `Admission.TallyIsGreatestExcess` | ftpepoll.cpp:311-337 | the tally is the greatest excess of increments over decrements of any ending of the run |
| `Admission.CountWraps` | ftpepoll.cpp:318-320 | 2^32 increments of one address leave an entry of 0 |
| `Admission.AcceptedIsCapacity` | ftpepoll.cpp:236-292 | the accepted connections are as many as the attempts, up to one more than the limit, and s_children is that number in 32 bits |
| `Admission.AcceptedAreFirst` | ftpepoll.cpp:236-268 | the counts are those of the first attempts of the run, refused ones leave no trace |
| `Admission.AdmissionConserves` | ftpepoll.cpp:236-323 | s_children, the accepted connections and the sum of all counts are equal, each address is counted as often as it was accepted, and that is everybody up to the limit and one more than the limit beyond it |
| `Admission.IsValidExactly` | ftpepoll.cpp:281-293 | -1 and -2 exactly for a limit that is set and passed, the one on all clients first |
| `Admission.PerIpLimitIgnored` | ftpepoll.cpp:242-251 | every setting of the per-address limit gives the same run |
| `Admission.PerIpLimitExceeded` | ftpepoll.cpp:281-292 | two connections from one address are accepted under a limit of one |
| `Admission.PerIpLimitKeptExactly` | ftpepoll.cpp:281-292 | no count passes the per-address limit, if there is one, if and only if no address occurs more often than that among the attempts let in by the limit on all clients |
| `Admission.Counters.HandleIpCount` | ftpepoll.cpp:311-323 | on the hash table: a new address at 1, a known one incremented in 32 bits, and the new count returned |
| `Admission.Counters.DropIpCount` | ftpepoll.cpp:325-337 | on the hash table: decremented, removed at zero, a missing or zero entry left alone |
| `Admission.Counters.HandleNewConn` | ftpepoll.cpp:236-268 | the counters after one attempt, -1 exactly when the number of clients has passed a limit that is set, and otherwise 0 |
| `Admission.CountEach` | ftpepoll.cpp:311-337 | any run of increments and decrements on the hash table gives the counts of the fold |
| `Admission.AdmitEach` | ftpepoll.cpp:236-268 | any run of attempts on the hash table gives the counters of the fold |
| `CStrings.StrTrimCrlf` | str.cpp:4-7 | every CR and LF before the NUL is overwritten and nothing else |
| `CStrings.TrimmedIsCut` | str.cpp:4-7 | the string left is the longest prefix without CR or LF |
| `CStrings.CutAtCrlfIs` | str.cpp:4-7 | that prefix is the only one with its defining property |
| `CStrings.StrSplit` | str.cpp:9-17 | the exact contents of both buffers, with and without a separator |
| `CStrings.SplitHeadExactly` | str.cpp:13-14 | the first part is right if and only if the character after it was NUL before |
| `CStrings.SplitRoundTrip` | str.cpp:9-17 | splitting key, separator and value into zeroed buffers returns key and value |
| `CStrings.StrUpper` | str.cpp:25-27 | the string in upper case, the rest of the buffer unchanged (what upper case is: `Commands.CaseIsIgnored`) |
| `StreamIo.OverwriteBytes` | sysutil.cpp:224-237 | a file holds the result of a write if and only if it has the data where it was written, NULs in a gap and the old bytes elsewhere |
| `StreamIo.OverwriteTwice` | sysutil.cpp:224-237 | short writes in a row amount to one write of all |
| `StreamIo.ReadN` | sysutil.cpp:208-221 | exactly the bytes asked for, fewer only at the end of the input, or -1 when a call fails or finds nothing arrived, with what was taken in the buffer |
| `StreamIo.WriteN` | sysutil.cpp:224-237 | all bytes in order across short writes and interrupts, or -1 with a prefix written if and only if a call failed |
| `StreamIo.RecvPeek` | sysutil.cpp:240-246 | some of the bytes that have arrived shown, none taken, or -1 when a call fails or finds nothing; every peek asks for the given length |
| `Framing.LinesAreTheOnlyCut` | sysutil.cpp:250-273 | a cut of a stream is into lines ended by their only '\n' and a rest without one if and only if it is the cut into Lines and Unfinished |
| `LineReader.StrChrInData` | sysutil.cpp:257-257 | the search in a zeroed buffer finds the end of the line if it has been shown and nothing otherwise |
| `LineReader.FindEnd` | sysutil.cpp:257-258 | after a peek the search finds the end of the first line exactly when all of it has been shown |
| `LineReader.ReadStep` | sysutil.cpp:254-270 | one pass of the loop takes more of an unfinished line, ends with all of it, fails, or overruns the buffer when more can be shown than it holds |
| `LineReader.ReadLine` | sysutil.cpp:250-273 | for a buffer no larger than the length asked for: the buffer is overrun only if as much can be shown as it holds; otherwise, for every chunking and without errors of the calls themselves, the first line is taken and its length returned if and only if all of it (or, for an unfinished one, also the end of the input) has arrived before the call, else what has arrived is taken and -1 returned; the buffer holds the line and peeked bytes of later ones |
| `ControlConnections.TrimmedLine` | ftpproto.cpp:165-176 | trimming that buffer leaves the text of the first line although it holds bytes of later ones |
| `ControlConnections.ControlConnection.ReceiveCommand` | ftpproto.cpp:164-180 | with the buffer sizes of the session record: the command and argument are those of the first line, received exactly when that line has arrived unless the line buffer can be overrun; the session is closed at the end of the input, and the server exits otherwise |
| `ControlConnections.ControlConnection.ServeEvent` | ftpepoll.cpp:130-132 | an input event takes the first line of what has arrived, closes the session or ends the server, exactly according to what has arrived with it, and overruns the buffer only if that much has |
| `ControlConnections.ControlConnection.ServeControl` | ftpepoll.cpp:130-137 | over any events the commands received and the outcome are those of ControlRun unless that run overruns the buffer or a call has an error of its own, and always the first commands of the stream |
| `ControlConnections.ControlConnection.ReceiveAll` | ftpproto.cpp:213-228 | the loop of handle_child, which nothing calls: the commands are the first ones of the stream, and all of them on a blocking descriptor without errors and with a stream that fits the buffer |
| `ControlRuns.ReceivedArePrefix` | ftpproto.cpp:164-195 | whatever arrives when, the commands received are the first ones of the stream |
| `ControlRuns.StaysOpenExactly` | ftpproto.cpp:169-174 | the session stays open if and only if every event finds its line arrived in full and no more behind the lines before it than the line buffer holds, and then every event has brought one command |
| `ControlRuns.PipelinedCommandsReceived` | ftpproto.cpp:164-195 | commands sent in a row, with or without arguments, are all received with the session open if and only if there is one event for each and it is on time in that sense |
| `ControlRuns.SplitLineExits` | sysutil.cpp:254-256 | a line that arrives in two pieces ends the server |
| `ControlRuns.SecondCommandWaits` | epoll_util.cpp:22-31 | of two commands that arrive together only the first is received, or none if they overrun the buffer |
| `ControlRuns.LongLineNeverReceived` | session.h:10 | a stream that starts with a line of 32 bytes or more brings no command, whatever arrives when |
| `ControlRuns.CommandFitsExactly` | ftpproto.cpp:169 | a command that arrives at once is received if and only if its line is shorter than the line buffer |
| `ControlRuns.RetrFitsExactly` | common.h:42 | RETR with a file name is received if and only if the name has at most 24 characters |
| `ControlRuns.EndOfInputCloses` | ftpproto.cpp:171-174 | the end of the input closes the session, between lines and within one; the same bytes without it end the server |
| `Commands.SentIsParsed` | ftpproto.cpp:176-180 | a command sent with a blank and an argument, or bare, is parsed back, its name in upper case |
| `Commands.CaseIsIgnored` | str.cpp:25-27 | however its letters are written, a command is parsed under its name in capitals, with or without an argument |
| `Commands.LineEndIsIgnored` | str.cpp:4-7 | a line ended by LF alone, or going on after a CR, stands for the same command |
| `Commands.PipelinedCommandsArrive` | ftpproto.cpp:164-180 | the lines of any number of commands sent in a row stand for these commands, in order |
| `Numerals.StrToLonglong` | str.cpp:29-36 | the value of the digits in 64 bits, or 0 if any character is not a digit |
| `Numerals.PrefixIsSmaller` | str.cpp:31-34 | no intermediate value exceeds the final one, so nothing overflows when that fits |
| `Numerals.LongLongRoundTrip` | ftpproto.cpp:642-647 | a printed number is read back if and only if it is below 2^63 |
| `Numerals.StrOctalToUint` | str.cpp:39-46 | the value of the leading octal digits in 32 bits |
| `Numerals.OctalRoundTrip` | ftpproto.cpp:838-849 | a umask printed in octal is read back if and only if it is below 2^32 |
| `Numerals.OnTheWire` | str.cpp:29-46 | numbers are written with the most significant digit first, lists in their order |
| `Numerals.ScanJoin` | ftpproto.cpp:443-443 | numbers printed with separators are scanned back, however many there are |
| `Numerals.DottedToTuple` | ftpproto.cpp:469-470 | the dotted address is read without loss before it is printed as a tuple |
| `Numerals.TupleInOrder` | ftpproto.cpp:469-474 | the tuple has the four numbers of the address in order, then the high and the low byte of the port |
| `Numerals.PasvPortRoundTrip` | ftpproto.cpp:441-474 | the tuple of a PASV reply given to PORT restores every address and port |
| `Transfers.Finish` | ftpproto.cpp:583-595 | both descriptors forgotten, the abort flag cleared, and the final reply: 226 for flag 0 without an abort, none with one, 451 for flag 1, 426 for flag 2 |
| `Transfers.RetrStartsExactly` | ftpproto.cpp:547-553 | a download starts if and only if the file is regular and the offset is one lseek accepts and not 4294967295 modulo 2^32 |
| `Transfers.RestartRefused` | ftpproto.cpp:547-553 | a restart that is refused between two that are not |
| `Transfers.SendOnce` | ftpproto.cpp:569-574 | one sendfile extends what was sent of the file, or fails |
| `Transfers.SendLoop` | ftpproto.cpp:559-582 | a prefix of the tail is sent in order by calls of at most 4096 bytes, all of it when the flag is 0; the flag is 2 if and only if a call failed or an abort was seen |
| `Transfers.Retr` | ftpproto.cpp:521-599 | the offset is used up; 550 if the file cannot be sent; else 150, a prefix of the tail goes out and 226, 426 or nothing follows: 226 only if all of it did, and then if nothing fails |
| `Transfers.StoreChunk` | ftpproto.cpp:985-1005 | one pass of the loop writes what it took from the connection, or ends with the flag of its cause, which is 1 if and only if the write failed |
| `Transfers.StorStartsExactly` | ftpproto.cpp:928-959 | an upload starts if and only if the file is regular, can be locked, and the offset is one lseek accepts |
| `Transfers.StoreLoop` | ftpproto.cpp:984-1006 | a prefix of what was received is written in order, all of it when the flag is 0; the flag is 1 if and only if a write failed, and 2 for a failed receive or an abort |
| `Transfers.StoredBytes` | ftpproto.cpp:942-953 | byte by byte what an upload leaves: emptied without an offset, a gap filled with NULs, the old bytes elsewhere |
| `Transfers.Stor` | ftpproto.cpp:923-1023 | 553 if the upload cannot start; otherwise 150, the file after an upload, cut short or not, and 451 if and only if a write to it failed, 426 if the connection failed, 226 only if everything received is stored |
| `SessionProtocol.DataNeedsListener` | ftpproto.cpp:197-211 | in every run an open data connection has an open listener |
| `SessionProtocol.TransfersNeedNewConnections` | ftpproto.cpp:511-519 | between two transfers that run to their end there is a PASV and then an accepted connection |
| `SessionProtocol.OutputsExactly` | ftpproto.cpp:197-211 | in every run: a data event makes the process exit if and only if there is no listener, LIST lists and RETR and STOR attempt a transfer if and only if both descriptors are open and the data descriptor is not 0, RNTO renames if and only if a name is pending |
| `SessionProtocol.AfterTransfersAndAccepts` | ftpproto.cpp:205-208 | in every run a full transfer leaves both descriptors at -1, and a failed accept or one without a listener leaves the whole state as it was |
| `SessionProtocol.ListenerIsLastPasv` | ftpproto.cpp:455-467 | in every run the listener is that of the last PASV since the last full transfer, or -1 |
| `SessionProtocol.LastPasvOrTransfer` | ftpproto.cpp:455-467 | those cases leave nothing out |
| `SessionProtocol.DataIsLastAccepted` | ftpproto.cpp:197-211 | in every run the data connection is the last one accepted since the last full transfer, or -1 |
| `SessionProtocol.LastAcceptOrTransfer` | ftpproto.cpp:197-211 | those cases leave nothing out |
| `SessionProtocol.OffsetIsLastRest` | ftpproto.cpp:525-526 | an attempt uses the last REST since the attempt before it, else 0 |
| `SessionProtocol.LastRestOrAttempt` | ftpproto.cpp:928-929 | those cases leave nothing out |
| `SessionProtocol.RestWithoutNumber` | str.cpp:31-32 | REST with anything but digits restarts at 0 |
| `SessionProtocol.RenameIsFromLastRnfr` | ftpproto.cpp:698-712 | RNTO renames from the last RNFR since the RNTO before it, else 503 |
| `SessionProtocol.DoPasv` | ftpproto.cpp:455-467 | the state after PASV |
| `SessionProtocol.ProcessDataRead` | ftpproto.cpp:197-211 | the state after a data connection; a failed accept leaves both descriptors alone; the exit without a listener |
| `SessionProtocol.GetPasvDataFd` | ftpproto.cpp:511-519 | the data descriptor if both it and the listener are open, else 0 |
| `SessionProtocol.DoList` | ftpproto.cpp:615-628 | 150 and 226 and both descriptors given up if and only if both were open and the data descriptor is not 0; otherwise silence and both as they were |
| `SessionProtocol.DoRetr` | ftpproto.cpp:602-611 | the state of the protocol; the transfer starts if and only if there is a data connection and RETR can start, and sends a prefix of the tail on the connection of the session; 226 means the whole tail; without faults it is sent |
| `SessionProtocol.DoStor` | ftpproto.cpp:902-914 | the state of the protocol; the transfer starts if and only if there is a data connection and STOR can start, and the file is what was received so far stored at the offset; 226 means everything; without faults it is sent |
| `SessionProtocol.DoRest` | ftpproto.cpp:642-647 | the offset is the number given |
| `SessionProtocol.DoRnfr` | ftpproto.cpp:698-701 | the name is remembered |
| `SessionProtocol.DoRnto` | ftpproto.cpp:703-712 | the rename made or the refusal, and the name forgotten |
| `Resume.RestOffset` | ftpproto.cpp:642-647 | a file size given to REST is the offset used |
| `Resume.UploadResumes` | ftpproto.cpp:928-959 | after any number of attempts broken off anywhere the file is the prefix of the data that has arrived, and the data if and only if all has |
| `Resume.UploadFromStart` | ftpproto.cpp:942-948 | the same when the first attempt has no offset and the file held anything at all |
| `Resume.DownloadResumes` | ftpproto.cpp:547-582 | the same for what a client has received |
| `Resume.UploadFirst` | ftpproto.cpp:902-1023 | a plain STOR over any file: once it starts the file is a prefix of what gets through; 226 means all of that is stored, and it comes when nothing goes wrong on the server; the attempt completes when it was also the whole data |
| `Resume.CutUploadIsReported` | ftpproto.cpp:993-1013 | an upload that the client cuts short gets 226 and leaves a part of the data |
| `Resume.UploadOnce` | ftpproto.cpp:902-1023 | a later attempt with REST extends the file to a longer prefix of the data; 226 means that all that gets through is stored behind what was there |
| `Resume.UploadWithRestarts` | ftpproto.cpp:902-1023 | plain STOR over any file until one starts and then restarts, any of them cut short by either side: from the first start on the file is a prefix of the data, a completed attempt leaves the whole data, and one in which nothing goes wrong completes |
| `Resume.DownloadOnce` | ftpproto.cpp:521-611 | one attempt extends the prefix received by what gets through of the tail; 226 comes when nothing goes wrong on the server unless the offset is refused; the attempt completes when all of the tail got through |
| `Resume.DownloadWithRestarts` | ftpproto.cpp:521-611 | any number of attempts cut short by either side; what was received is a prefix, and the file once one completes |
| `ParseConf.LoadCompletesExactly` | parseconf.cpp:79-82 | starting without an address, loading completes if and only if at most one line validly sets it |
| `ParseConf.BadFreeIsSecond` | parseconf.cpp:79-82 | otherwise it ends at exactly the second such line |
| `ParseConf.TwoAddresses` | parseconf.cpp:79-82 | any two address lines are such a file |
| `ParseConf.LastLineWins` | parseconf.cpp:42-112 | once loading completes a setting has the value of the last line that validly sets it, or keeps its default when there is none |
| `ParseConf.AssignmentRoundTrip` | parseconf.cpp:65-69 | a line of key, '=' and value assigns that value to that key |
| `ParseConf.TablesCoverDefaults` | parseconf.cpp:8-39 | the tables name the address, the two switches and all the numeric variables, each in one table |
| `ParseConf.AtoiExactly` | parseconf.cpp:108 | a decimal number is read back if and only if it is below 2^32 |
| `ParseConf.AtoiOf` | parseconf.cpp:108 | a number behind an optional sign is read up to the first character that is no digit |
| `ParseConf.AtoiOther` | parseconf.cpp:108 | blanks in front do not matter, and what is no number is 0 |
| `ParseConf.NumericLines` | parseconf.cpp:101-111 | every numeric setting is set to the number written behind its name, in decimal or in octal after a 0 |
| `ParseConf.SwitchLines` | parseconf.cpp:90-98 | 1 and 0 set every switch to 1 and 0, any other value leaves it alone |
| `ParseConf.LinesThatSetNothing` | parseconf.cpp:49-53 | comments, lines of blanks, lines without a separator or a value, and unknown names set nothing |
| `ParseConf.OneSettingLoads` | parseconf.cpp:42-61 | a file of one numeric setting changes that variable to its number and no other |
| `ParseConf.InitialLimits` | tunable.cpp:3-15 | the initial switches, port, address, limits and rates, by number |
| `ParseConf.InitialTimeouts` | tunable.cpp:8-12 | the initial timeouts and umask, by number |
| `ParseConf.Loader.constructor` | tunable.cpp:3-15 | every variable starts with its initial value |
| `ParseConf.Loader.LoadSetting` | parseconf.cpp:65-112 | the tunables after one setting, through the two buffers, or the bad free |
| `ParseConf.Loader.SearchTables` | parseconf.cpp:76-111 | the three table scans make the assignment of the first table that has the key, or the bad free of an address that is already set |
| `ParseConf.Loader.LoadFile` | parseconf.cpp:42-61 | the result of loading is that of the fold over all lines, comments and blank lines ignored, up to the bad free if there is one |

## Left out

- Sockets, epoll registration, fcntl, passwords, stat and the directory listing: foreign calls. Their results are parameters where the modelled code branches on them.
- Closing by the peer (QUIT, end of input, EPOLLHUP): it frees the session and leaves its timeout node linked, so the list invariant does not survive it. The list machine has new sessions, requests and waits.
- Dispatch through the command table and the handlers that keep no state (USER, PASS, CWD, PWD, TYPE, SITE, HELP and others): easy members only.
- Interleaving of a transfer thread with commands of the same session, and record locks: a client is assumed to wait for the final reply.
- Append mode: `do_appe` starts no transfer.
- Rate limiting (returns at once), NLST (always returns early), SIGCHLD accounting (nothing forks) and the unused alarm code.
- IdleList.IdleList.EpollWaitTimeout: does not state that evictions are prompt. The bound is in seconds where the wait expects milliseconds, and it is negative once a session is overdue.
- IdleList.IdleList.AddToNode: requires the socket to have no node and the session not to have been closed, which the kernel's choice of descriptors provides.
- IdleList.IdleList.GetTimeSec: assumes that the clock is not set back and stays below 2^31 - 2 seconds; beyond that the sum in the idle test overflows.
- ServerLoop.Serve: requires sockets below the 1200 entries of the array from socket to node, which the source does not check. A turn that accepts a socket already in use cannot happen and is passed over.
- StreamIo.SendFile: requires the file not to shrink while it is sent; an unexpected end would repeat the call for ever.
- LineReader.ReadLine: requires a zeroed buffer and a first line without NUL. A peek that fills the buffer counts as an overrun, because the searches that follow need a NUL behind it.
- ControlConnections.ControlConnection.ReceiveCommand: says nothing of memory behind an overrun buffer, which C leaves undefined.
- ControlConnections.ControlConnection.ServeControl: what arrives between an event and the reading of its line is counted with the event.
- Numerals.StrToLonglong: overflow wraps in 64 bits, which C leaves undefined.
- Numerals.PasvPortRoundTrip: scanning is modelled for digits and separators, without the blanks and signs that sscanf also takes, and a PORT argument with fewer than six numbers leaves fields unset.
- Transfers.Finish: the extra reply of `check_abor` goes to the process's own dummy session and is not among the replies.
- HashTables.HashTable.HashAddEntry: keys and values are the four-byte unsigned integers of the table's two uses, not arbitrary memory.
- Admission.Counters.HandleNewConn: covers the counters; the session record, its registration and the greeting are not part of it.
- ParseConf.Loader.LoadFile: takes the lines as fgets delivers them, with room for both parts of a setting on those that are not skipped. What happens after the bad free is undefined and not modelled; atoi wraps where C leaves overflow undefined.
