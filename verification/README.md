# A verified model of gpsd3's buffers, daemon and port tables

This project models, in Dafny 4.11, the parts of gpsd3 that carry state from call to call, and proves what
they keep over whole runs. `dafny verify dfyconfig.toml` checks everything.

| files | what they model |
|---|---|
| `Words`, `BulkMacros`, `Dbts` | the Berkeley DB bulk macros of `db.h`: as functions on the bytes of a buffer, and as methods that store into `dbt->data` in place |
| `BulkLayout`, `BulkLists`, `BulkPairs`, `BulkRecnos`, `BulkRuns` | the two-ended layout of a bulk buffer, and what writers and readers do to it over whole runs |
| `BulkReservations`, `RecnoReservations` | runs in which space is also reserved and filled later |
| `Nmea` | the NMEA callback that gathers sentences and broadcasts them in batches |
| `Tokenizer`, `Argz` | the in-place argument divider, and the walk over NUL-separated blocks |
| `Watchdog`, `Lifecycle`, `Interleaving` | starting, stopping and supervising the GPS manager thread: in atomic steps, and with calls and threads interleaved move by move |
| `Search`, `ClientSockets`, `ClientRuns` | the client's cache of sockets by port |
| `ServerSlots`, `ServerRuns`, `ServerLoops` | the server's table of message loops by port, and what an ended loop finds in it |

How it is built. Code that updates state in place is a class whose methods are proved equal to a function on the
old state; the theorems are lemmas about those functions, for every input and every run. The main ones:

- **Bulk buffers.** A buffer behaves like a list with a limit on its encoded size. Whatever bytes it held and
  whatever mixture of plain and key appends is tried, the readers return exactly the appends that fit. The key
  macros are two plain macros taken both or not at all, in any buffer, well formed or not. Space may be reserved
  and filled later, with other appends in between; a fill changes its own item and no other.
- **Batches.** A journal names where every NMEA sentence goes: a batch that some call found pending with too little
  room is dropped whole, and nothing else is. All other accepted sentences are in the datagrams or pending, once each
  and in order.
- **Manager.** There is never more than one manager when each start and stop is one step, and it runs the kind that
  the message or command line asked for. Move by move, with several callers, a start is safe under every schedule of
  the calls and threads under way if and only if no other call or start-up was. Over any run of callers that keep to
  this, with stops that wait only for callers past a start's test, the program does what the atomic machine does, and
  its own flags agree with its threads.
- **Tables.** The client's cache is a map from ports to connections, for at most ten ports; the server's table is
  a set of at most twenty ports, from the program's start on, in which every port keeps its place.

Where a promise does not hold on every input, the exact condition is proved:

- A record-number batch comes back whole if and only if it fits and no record is numbered 0. The comment in
  `db.h` (1884-1885) explains why -1 cannot end such a list; the macros still accept the number 0, which does.
- The key reader stays inside the buffer if and only if the number of items is even. A pair written by two plain
  calls can leave a key alone; the gap sizes for which it does are given exactly.
- The client's cache leaks no descriptor if and only if `socket` never returns 0.
- Lookups in the client's table keep ports apart if and only if there are at most ten of them.
- A message loop that was ended goes on if its run flag is set again before it looks. After any number of starts that
  is so exactly when they start more ports not held than there were free slots below the loop's own; with ends among
  them, exactly when one of the starts took its slot and its port was not ended again.
- The first `udp_ipc_server_start` clears the table after it has looked its slot up (src/mds_udp_ipc_svr.cpp:245-247).
  It is the one operation after which a running loop sits in a slot that counts as free, and the next port started
  takes that slot over.
- A stop's request stands until its join, under every schedule of the calls and threads under way, if and only if no
  start was under way when it was made; the stop leaves threads and flags in agreement, under every such schedule, if
  and only if no caller was past the start's test.
- A started message loop reads the argument it was started with, however late it first runs, if and only if its port
  was not ended before, or a later start of the same port took the same slot for good.
- A send on a cached connection gets the receive timeout it asks for if and only if its port was not connected before,
  or with the same timeout.
- The two loops that `argz.h` documents visit the same entries if and only if the block is not empty or `argz` is NULL.
- Every accepted sentence is delivered or pending if and only if no call found a pending batch and too little room.
  The overflow test keeps a call's writes inside the array, after any run that stayed inside, if and only if the text
  fits with its carriage return and NUL, and the length passed counts both or is over 1020. Then whatever is pending
  gives way, since a pending sentence takes four characters at least.

Conventions. Addresses are byte offsets from the start of a buffer. Words are stored least significant byte first;
no theorem depends on it. The results of system calls (`socket`, `sendto`, `recvfrom`, `pthread_create`) are
parameters. `hide` keeps function bodies out of proofs that do not need them.

## Model

| member | source | states |
|---|---|---|
| Dbts.Dbt.WriteInit | pre-compile/include/db.h:1946-1952 | sets the bulk flag, puts the pointer at the last word and the terminator there, and changes no other byte |
| BulkMacros.InitWrites | pre-compile/include/db.h:1946-2025 | both inits put the pointer four bytes before the end, the word -1 or 0 there, and change no other byte |
| Words.WordsWrap | pre-compile/include/db.h:1957-1966 | casts to and sums of 32-bit words are modulo 2^32 |
| Dbts.Dbt.ReserveNext | pre-compile/include/db.h:1954-1969 | the in-place macro leaves the buffer, pointer and destination of the reserve function; refused, it leaves all bytes and the pointer alone |
| Dbts.Dbt.WriteNext | pre-compile/include/db.h:1971-1980 | reserve and copy in place; refused, only the pointer changes, to NULL |
| Dbts.Dbt.KeyReserveNext | pre-compile/include/db.h:1982-2003 | the in-place pair reserve leaves exactly the five stored words, pointer and two destinations, or nothing changed |
| Dbts.Dbt.KeyWriteNext | pre-compile/include/db.h:2005-2017 | the in-place pair write equals the pair write function on the old bytes |
| Dbts.Dbt.RecnoReserveNext | pre-compile/include/db.h:2027-2043 | the in-place record reserve stores number, offset, length and the zero terminator, or changes nothing |
| Dbts.Dbt.RecnoWriteNext | pre-compile/include/db.h:2045-2054 | the in-place record write equals the record write function on the old bytes |
| Dbts.Dbt.Init | pre-compile/include/db.h:1896-1898 | where it puts the pointer every reader sees the whole of any list the buffer holds |
| Dbts.Dbt.Next | pre-compile/include/db.h:1900-1913 | returns what the reader function returns, NULL and NULL at the terminator with the length left as it was |
| Dbts.Dbt.KeyNext | pre-compile/include/db.h:1915-1929 | the same for key and data |
| Dbts.Dbt.RecnoNext | pre-compile/include/db.h:1931-1944 | the same for record numbers |
| BulkLists.OffsetIsTotal | pre-compile/include/db.h:1957-1958 | in every encoded list the next offset is the total length so far, and the 32-bit sum of the two words never wraps |
| BulkLists.WriteAppends | pre-compile/include/db.h:1954-1980 | a write is accepted exactly when the longer list fits, and then the buffer encodes it; refused, every byte and the caller's pointer stay usable |
| BulkLists.ReserveAppends | pre-compile/include/db.h:1954-1969 | the same for a reservation not filled yet: the new item is what the gap held, the earlier ones are unchanged |
| BulkLists.FillReplaces | pre-compile/include/db.h:1954-1969 | bytes copied to an item's place, however many appends later, change that item and no other |
| BulkLists.EncodesTwoEnded | pre-compile/include/db.h:1881-1893 | where each item and its two words lie, that the two regions are disjoint, and that an offset word is at most ulen - 12 and so never the terminator |
| BulkLists.NextIsItem | pre-compile/include/db.h:1900-1913 | the reader hands out item k; its data pointer is NULL exactly for an empty item at offset 0, so NULL data is not the end |
| BulkLists.ReadsSuffix | pre-compile/include/db.h:1896-1913 | reading from item k returns exactly the items from k on and stops at the terminator and nowhere earlier |
| BulkPairs.KeyReserveIsTwoReserves | pre-compile/include/db.h:1982-2003 | in any buffer the pair reserve succeeds exactly when two plain reserves would, with the same bytes, pointer and destinations |
| BulkPairs.KeyWriteIsTwoWrites | pre-compile/include/db.h:2005-2017 | in any buffer the pair write equals two plain writes, or leaves everything unchanged if either would be refused |
| BulkPairs.PairAppends | pre-compile/include/db.h:1982-2017 | a pair is accepted exactly when the list with both its parts fits |
| BulkPairs.KeyNextIsTwoNexts | pre-compile/include/db.h:1915-1929 | one key step reads what two plain steps read, up to the plain reader's NULL for an empty item at offset 0 |
| BulkPairs.ReadsPairs | pre-compile/include/db.h:1915-1929 | the key reader returns the items two by two if their number is even, and leaves the buffer if it is odd |
| BulkRuns.StepRefinesAccept | pre-compile/include/db.h:1954-2017 | one append, plain or pair, accepted or refused, is one step of a list with a size limit; refused, buffer and pointer are unchanged |
| BulkRuns.ReadersSeeAccepted | pre-compile/include/db.h:1896-2017 | for any initial bytes and any run of mixed appends both readers return exactly the accepted items, in order |
| BulkRuns.AcceptAllExtends | pre-compile/include/db.h:1954-2017 | later appends only extend the list and never overrun the limit |
| BulkRuns.ReachableLayout | pre-compile/include/db.h:1881-1893 | the two-ended layout holds in every reachable buffer |
| BulkRuns.PlainRoundTrip | pre-compile/include/db.h:1896-1980 | a batch goes through if and only if its data plus 8 bytes an item plus 4 fit in ulen, and then it is read back |
| BulkRuns.PairRoundTrip | pre-compile/include/db.h:1915-2017 | the same for pairs at 16 bytes a pair |
| BulkRuns.TwoCallsStrandKey | pre-compile/include/db.h:1971-2017 | exactly which gap sizes make two plain calls leave a key alone; the key reader then runs past the terminator, and the pair form changes nothing |
| BulkReservations.PairReserveAppends | pre-compile/include/db.h:1982-2003 | a pair is reserved exactly when both its parts fit, at destinations that are the next two items' places |
| BulkReservations.StepRefinesAccept | pre-compile/include/db.h:1954-2017 | one write, reserve or fill is one step of a list of written and reserved entries with a size limit |
| BulkReservations.ReadersSeeEntries | pre-compile/include/db.h:1896-2017 | over any run of writes, reserves and fills the plain reader returns each accepted entry in order, as written or last filled, and the key reader the same two by two, or leaves the buffer if their number is odd |
| BulkRecnos.WriteAppends | pre-compile/include/db.h:2027-2054 | a record is accepted exactly when the longer list fits, and then the buffer encodes it |
| BulkRecnos.ReserveAppends | pre-compile/include/db.h:2027-2043 | the same for a record reserved and not filled yet: its data is what the gap held, the earlier records are unchanged |
| BulkRecnos.FillReplaces | pre-compile/include/db.h:2027-2054 | filling a reserved record later changes its data and nothing else |
| BulkRecnos.EncodesTwoEnded | pre-compile/include/db.h:1884-1893 | where a record's data and its three header words lie, with the data region below the pointer and the header region above |
| BulkRecnos.ReaderSeesAccepted | pre-compile/include/db.h:1931-2054 | over any run the reader returns the accepted records up to the first one numbered 0 |
| BulkRecnos.RecnoRoundTrip | pre-compile/include/db.h:1931-2054 | a batch of records comes back whole if and only if it fits at 12 bytes a record and no number is 0 |
| RecnoReservations.StepRefinesAccept | pre-compile/include/db.h:2027-2054 | one record write, reserve or fill is one step of a list of numbered entries with a size limit |
| RecnoReservations.ReaderSeesNumbered | pre-compile/include/db.h:1931-2054 | over any run of them the buffer holds each accepted entry with its number, as written or last filled, and the reader returns them up to the first one numbered 0 |
| Nmea.ContainsIff | src/garden_tools.cpp:125-148 | the search finds a needle exactly when the text is something, the needle and something more |
| Nmea.TestsAre | src/garden_tools.cpp:125-148 | a sentence is accepted exactly when `$GP` occurs in it, and is a fix exactly when `GPGGA` does |
| Nmea.Callback.OnNmea | src/garden_tools.cpp:104-163 | the callback's new buffer, size and datagrams as a function of the old ones |
| Nmea.FixIsSent | src/garden_tools.cpp:122-162 | a `$GPGGA,` sentence that finds room sends everything pending and itself with its carriage return, and leaves the buffer empty |
| Nmea.Conservation | src/garden_tools.cpp:122-162 | over any run the accepted sentences are those of the journal's sent and dropped batches in order and then its pending ones; a batch is dropped only by an accepted call that finds it pending and too little room, and then whole; each datagram is its batch with a carriage return after each sentence, and has exactly one fix sentence, its last |
| Nmea.DropsNothingIff | src/garden_tools.cpp:128-133 | the journal has no dropped batch if and only if no call found a pending batch and too little room |
| Nmea.AllDeliveredIff | src/garden_tools.cpp:122-162 | datagrams and buffer together hold exactly the accepted sentences if and only if no call found a pending batch and too little room for its sentence |
| Nmea.TestSufficesIff | src/garden_tools.cpp:122-139 | after every run that stayed inside the 1024 bytes a call's writes, NUL included, stay inside too, if and only if the text is not accepted, or it fits with two more and the length passed is at least its own plus two or over 1020 |
| Nmea.RunStaysInside | src/garden_tools.cpp:122-162 | a run whose calls all pass such lengths never writes past the array |
| Nmea.PendingSize | src/garden_tools.cpp:122-162 | what a run that stayed inside leaves pending: nothing, or 4 to 1023 characters |
| Nmea.SizeBounded | src/garden_tools.cpp:128-135 | with true lengths up to the buffer size, the text in the buffer and every datagram stay within 1025 characters, the NUL not counted |
| Tokenizer.DivideArgument | src/garden_tools.cpp:599-643 | what the divider returns and leaves in both arrays, including the part it zeroes and the argv entries it does not touch |
| Tokenizer.JoinSplit | src/garden_tools.cpp:618-633 | the fields between the spaces are space-free and join to the line again |
| Tokenizer.SplitJoin | src/garden_tools.cpp:618-633 | no other list of space-free tokens joins to that line |
| Tokenizer.TokenAt | src/garden_tools.cpp:618-633 | the C string at each recorded start is the field between two spaces |
| Tokenizer.DivideRoundTrip | src/garden_tools.cpp:599-643 | one token more than spaces, starts increasing and inside the buffer, tokens joined with spaces give the line back, empty tokens included |
| Argz.ArgzNext | pre-compile/include/argz.h:158-171 | a returned entry lies in the block and behind the one given |
| Argz.WalkVisitsStarts | pre-compile/include/argz.h:138-171 | the documented `while` loop visits every entry start once, in order, and nothing else |
| Argz.ForIsWhileIff | pre-compile/include/argz.h:138-171 | the documented `for` loop visits what the `while` loop does if and only if the block is not empty or argz is NULL |
| Argz.WalkRebuilds | pre-compile/include/argz.h:138-171 | the visited entries, each with its NUL, rebuild the block |
| Argz.WalkIsArgv | pre-compile/include/argz.h:158-171 | on a divided command line the walk visits exactly the starts the divider recorded |
| Watchdog.Round | src/garden_tools.cpp:468-490 | one round keeps the counter in 0..10 and pays eleven counts for a restart, whatever it reads |
| Watchdog.Accounting | src/garden_tools.cpp:466-490 | over every run, suspicious rounds = 11 times the restarts plus the counter |
| Watchdog.RestartsAre | src/garden_tools.cpp:466-490 | without nostart the restarts are one eleventh of the rounds that read a named manager not running, rounded down, and the counter is the remainder; no other round counts |
| Watchdog.NoStartNeverRestarts | src/garden_tools.cpp:466-490 | under nostart no restart, whatever the loop sees |
| Lifecycle.Daemon.constructor | src/garden_tools.cpp:411-460 | default type, first start and nostart flag from the arguments |
| Lifecycle.Daemon.GpsStart | src/garden_tools.cpp:195-259 | nothing while the status is set; else one new manager of the right command type, named and flagged |
| Lifecycle.Daemon.GpsStop | src/garden_tools.cpp:261-274 | nothing without a thread id; else the named manager is gone and both flags are clear |
| Lifecycle.Daemon.Receive | src/garden_tools.cpp:277-349 | new state and reply for every message, unknown ones included |
| Lifecycle.Daemon.WatchdogRound | src/garden_tools.cpp:473-487 | one round on the real flags, with the warm start it may make |
| Lifecycle.StepKeepsOneManager | src/garden_tools.cpp:178-274 | every step keeps: status 1 exactly when a manager lives, it is alone, named and not asked to stop |
| Lifecycle.OneManagerAlways | src/garden_tools.cpp:178-349 | so it is in every state reachable from any command line |
| Lifecycle.StartMessage | src/garden_tools.cpp:308-319 | a start message makes exactly the offered thread live, named and flagged, with the command of the requested kind and configured type (odd warm, even cold, two for each type), if none lives; otherwise it changes nothing |
| Lifecycle.ResetRunsRequested | src/garden_tools.cpp:327-340 | after a reset message exactly one manager lives, the same way, whatever ran before |
| Lifecycle.OtherMessage | src/garden_tools.cpp:277-349 | a stop message leaves no manager and no name; every other text, the status query included, changes nothing |
| Lifecycle.RepliesAre | src/garden_tools.cpp:277-349 | the status reply says 1 exactly when a manager lives, a command is confirmed with its own text, and nothing else is answered |
| Lifecycle.BootRuns | src/garden_tools.cpp:411-460 | no argument, `warm` or `cold` leave one manager of that kind and of the type named; every other command line leaves none |
| Lifecycle.CommandTypeIs | src/garden_tools.cpp:201-251 | the command is 1 to 6, even exactly for a cold start, and its half names the configured type, AGPS for an unknown one |
| Lifecycle.StopSticks | src/garden_tools.cpp:261-274 | after a stop only a start or reset brings a manager back; no run of watchdog rounds, queries or stops does |
| Lifecycle.RestartAfterEleven | src/garden_tools.cpp:466-490 | a manager that is gone is replaced by a warm one of the configured type after exactly as many rounds as the counter lacks to eleven; a stopped one, or under nostart, never |
| Lifecycle.ReturnedIsReplaced | src/garden_tools.cpp:178-193 | so a manager that returns by itself is replaced after exactly eleven rounds less those counted before |
| Lifecycle.NoStartRoundsCreateNothing | src/garden_tools.cpp:466-490 | under nostart a watchdog round changes nothing, after any run |
| Lifecycle.NoStartWaitsForCommand | src/garden_tools.cpp:418-460 | with nostart on the command line nothing runs until a start or reset arrives |
| Interleaving.ExclusiveKeepsInvariant | src/garden_tools.cpp:178-274 | kept apart, every move of callers and threads keeps one named manager and a standing stop request |
| Interleaving.ExclusiveRunsOneManager | src/garden_tools.cpp:178-274 | over any run from the program's start whose calls are kept apart there is at most one manager; the program's own thread id names it, its status is 1 exactly from the manager's prologue to its end, and its stop flag is 0 while a stop waits or nothing is named, and 1 once the manager has entered |
| Interleaving.CarefulKeepsOrderly | src/garden_tools.cpp:178-274 | with starts kept apart and stops that wait only for callers past a start's test, every move keeps: either any number of stops of the one named manager, or one start where there is none |
| Interleaving.CarefulRunsOneManager | src/garden_tools.cpp:178-274 | over any such run from the program's start there is at most one manager, the thread id names it, and the status is 1 exactly from its prologue to its end |
| Interleaving.CarefulSimulates | src/garden_tools.cpp:178-274 | each such move is one atomic step or none, a second stop of the same manager included |
| Interleaving.CarefulRunsRefine | src/garden_tools.cpp:178-274 | and over any such run the final state stands for what the atomic starts, stops and returns lead to, one after the other; these are read off the moves alone, a start's kind from its own call |
| Interleaving.StartRunsRequested | src/garden_tools.cpp:195-259 | a start made when all is quiet leads to a manager of the kind that the call asked for and the configured type, and to no other, under every schedule of the calls and threads under way |
| Interleaving.ExclusiveIsCareful | src/garden_tools.cpp:178-274 | calls kept apart altogether are a special case of these |
| Interleaving.StartSafeIffQuiet | src/garden_tools.cpp:195-259 | in every state such runs lead to, a start that finds status 0 is safe under every schedule of the calls and threads under way if and only if nothing else was under way |
| Interleaving.StopStandsIffNoStart | src/garden_tools.cpp:178-274 | in these states a stop's request stands until its join, under every schedule of the calls and threads under way, if and only if no caller was past the start's test and no manager was on its way to its entry |
| Interleaving.StopStandsUntilStart | src/garden_tools.cpp:195-274 | a request made when no start was under way stands through any run, further stops and refused starts included, until a start passes its test |
| Interleaving.StopSafeIffNobodyStarts | src/garden_tools.cpp:178-274 | in these states, after a stop began, there is at most one manager under every schedule of the calls and threads under way, and flags that agree with it once all has settled, if and only if no caller was past the start's test |
| Interleaving.EarlyStopIsLost | src/garden_tools.cpp:178-193 | in any state, the entry of a manager only created or only started overwrites a waiting stop's request |
| Interleaving.StopDuringStartIsLost | src/garden_tools.cpp:195-268 | and so does the manager of a caller that is past the start's test |
| Interleaving.ExclusiveStopStands | src/garden_tools.cpp:261-274 | kept apart, a waiting stop's request stands |
| ClientSockets.Client.GetSockIdx | src/mds_upd_ipc_clnt.cpp:17-42 | the two search loops find the port's index, or take the first free one, or fall back to 0 |
| ClientSockets.Client.InitIpcSock | src/mds_upd_ipc_clnt.cpp:44-76 | reuses the cached descriptor, or caches the new one with its timeout |
| ClientSockets.Client.CloseIpcSock | src/mds_upd_ipc_clnt.cpp:78-87 | closes a cached descriptor and empties the entry |
| ClientSockets.Client.BroadcastSend | src/mds_upd_ipc_clnt.cpp:90-125 | the cache after a send, its failures included |
| ClientSockets.Client.BroadcastSendRecv | src/mds_upd_ipc_clnt.cpp:128-174 | the same with a receive timeout, and the returned size |
| ClientRuns.SendConserves | src/mds_upd_ipc_clnt.cpp:44-174 | a send keeps: cached descriptors are open and at one index each, and every open one but 0 is cached |
| ClientRuns.SendDoes | src/mds_upd_ipc_clnt.cpp:44-174 | a send fails exactly when it has no descriptor or `sendto` fails, and then leaves nothing cached for its port; otherwise it uses the cached descriptor, or caches the new one |
| ClientRuns.CloseConserves | src/mds_upd_ipc_clnt.cpp:78-87 | a close gives back the port's open descriptor, so none is closed twice |
| ClientRuns.NoLeakIffNeverZero | src/mds_upd_ipc_clnt.cpp:44-87 | over any run on any ports nothing leaks if and only if socket never returned 0 |
| ClientRuns.IndexIsPermanent | src/mds_upd_ipc_clnt.cpp:17-42 | a port is given the same index at every lookup |
| ClientRuns.IndicesApartIffTen | src/mds_upd_ipc_clnt.cpp:17-42 | different ports are kept apart if and only if at most ten are looked up |
| ClientRuns.CacheIsMap | src/mds_upd_ipc_clnt.cpp:44-158 | with at most ten ports every send uses the descriptor and timeout of the port's first use since its last close |
| ClientRuns.OwnTimeoutIff | src/mds_upd_ipc_clnt.cpp:44-158 | after any run on at most ten ports, a send that goes out has the timeout it asked for if and only if its port was not connected or was connected with the same one |
| ClientRuns.PortsShareNothing | src/mds_upd_ipc_clnt.cpp:44-158 | and different ports never share a descriptor |
| ServerSlots.Server.LoopMgrInit | src/mds_udp_ipc_svr.cpp:34-45 | clears the whole table the first time and leaves it alone afterwards |
| ServerSlots.Server.GetThreadIdx | src/mds_udp_ipc_svr.cpp:46-74 | the two search loops find the port's slot, or take the first free one, or give -1 |
| ServerSlots.Server.ServerStart | src/mds_udp_ipc_svr.cpp:239-254 | the table after a start, the first one included, which clears it between the lookup and the stores |
| ServerSlots.Server.ServerEnd | src/mds_udp_ipc_svr.cpp:262-269 | the port's slot is cleared |
| ServerSlots.StepKeepsGood | src/mds_udp_ipc_svr.cpp:34-269 | every operation, the first start included, keeps held ports distinct across holes, and a running loop's index on its own slot |
| ServerSlots.StepKeepsTidyIff | src/mds_udp_ipc_svr.cpp:34-269 | free slots stay clear, and running loops on their own port, at every operation but the first start |
| ServerRuns.LookupFailsIffFull | src/mds_udp_ipc_svr.cpp:46-74 | a lookup gives -1 exactly when twenty other ports are held |
| ServerRuns.RunHolds | src/mds_udp_ipc_svr.cpp:34-269 | over any run from the program's start the table is the set of ports taken and not ended since, which the first start empties |
| ServerRuns.HeldKeepsSlot | src/mds_udp_ipc_svr.cpp:46-269 | a held port keeps its slot until it is ended or the first start comes, over any run |
| ServerRuns.LookupTakesLowest | src/mds_udp_ipc_svr.cpp:46-74 | a new port gets the lowest free slot, and only that slot's port changes |
| ServerRuns.LookupResolves | src/mds_udp_ipc_svr.cpp:46-58 | a lookup finds the one slot a port holds and changes nothing |
| ServerRuns.EndUndoesLookupIff | src/mds_udp_ipc_svr.cpp:46-269 | ending a port that was only looked up leaves the table as it was before if and only if the slot it took was clear |
| ServerRuns.FirstStartLeaves | src/mds_udp_ipc_svr.cpp:239-254 | the first start leaves no port held and its loop running in a free slot; the next lookup of any port takes slot 0 |
| ServerRuns.EndStopsFirstLoopIff | src/mds_udp_ipc_svr.cpp:239-269 | after the program's first start and a next one, ending the first port ends the loop in slot 0 if and only if the next port was the first again |
| ServerRuns.EndedLoopGoesOnIff | src/mds_udp_ipc_svr.cpp:124-269 | an ended loop finds its flag set again after any next start, of its own port or another, before or after the first, exactly when no lower slot was free and the port started held no other |
| ServerLoops.EndedLoopRunsIff | src/mds_udp_ipc_svr.cpp:46-269 | after any run of starts it finds the flag set exactly when they started more ports not held than there were free slots below its own |
| ServerLoops.SlotHeldIff | src/mds_udp_ipc_svr.cpp:46-269 | over any run of starts and ends a port holds a slot at the end exactly when it held it and was not ended, or a start of it, while it held none, met the slot free with all lower slots held and it was not ended later |
| ServerLoops.SlotRunsIff | src/mds_udp_ipc_svr.cpp:46-269 | so a slot's flag is set at the end exactly when the port that held it was not ended, or some start took it in this way |
| ServerLoops.EndedLoopFlagIff | src/mds_udp_ipc_svr.cpp:124-269 | and an ended loop goes on after any run of starts and ends exactly when one of the starts took its slot in this way |
| ServerLoops.OwnArgumentIff | src/mds_udp_ipc_svr.cpp:78-269 | after any run of starts and ends a thread that first runs then reads the argument it was started with exactly when its port was not ended or took the slot again for good; otherwise the slot is clear or holds another port's own argument |
| ServerLoops.TidyFromSecondCall | src/mds_udp_ipc_svr.cpp:239-269 | the first start spoils the table, and whatever start or end comes next restores it |

## Left out

- Sockets, `sendto`/`recvfrom`, `fork`, files, signals, logging, backtraces and the debug print counter: input and output; their results are parameters where a table needs them.
- `garden_entry` and the Qualcomm classes: their bodies are not part of this model; a manager runs until it is asked to stop or returns by itself.
- Failure of `pthread_create` and `malloc`: the program does not test for either.
- Dbts.Dbt.StoreWord: one 32-bit store is modelled as four byte stores; alignment and the byte order of the machine are not modelled.
- Dbts.Dbt.WriteNext: the source bytes are a value, so a source that overlaps the buffer is not modelled.
- Nmea.Callback.OnNmea: the send buffer is a sequence and not the 1024-byte array, because its overflow test (src/garden_tools.cpp:128) does not count the added carriage return and NUL; `TestSufficesIff` says when it keeps a call's writes inside. A NULL text is outside the model: the program passes it to `strstr`.
- Tokenizer.DivideArgument: requires room in `argv`; the array of 20 that the caller passes is not tied to the six command lines.
- Argz.ArgzNext: requires the block's last byte to be NUL, as `strchr` does.
- Interleaving.StartSafeIffQuiet: some neighbouring statements are one move: the two flag writes after a join, and in a stop the test of the thread id, the request and the read of the id for the join (src/garden_tools.cpp:264-268). Another caller's create or join between these is not modelled; nor is memory ordering. Two callers may both ask and join the same thread.
- ClientRuns.CacheIsMap: port 0 and more than ten ports are outside it; for those only the permanence and descriptor results hold.
- ServerSlots.Server.ServerStart: requires a slot, and `ServerEnd` too: with a full table they index slot -1. Port 0, which marks a free slot, is outside the theorems.
- The thread handle and callback of a server's slot, and what its loop receives.
- The XTRA download counters and `mds_api_remove_etc_char`: easy members.
- The rest of `db.h`, `db_cxx.h`, `argz.h` and the other vendored headers: declarations.
