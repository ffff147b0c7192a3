# inetd-win32: verified model

This project models the algorithmic core of inetd-win32, a super-server for Windows, in Dafny, and proves what
that core promises. It is self-contained: `dafny verify dfyconfig.toml` checks all of it.

What is modelled, file by file:

- `Periodicity`, `SuffixScan`, `Memmem`: the substring search of `libcompat/memmem.c`, that is the Crochemore-Perrin
  two-way search (Journal of the ACM 38(3)) with its shift table and memory, and the rolling-word searches for short
  needles. The search returns the leftmost occurrence, for every haystack and needle.
- `ProcessGroup`, `ChildReaper`: the task that pairs job notifications with tracked children
  (`libinetd/ProcessGroup.h`), and the reaper that waits on them, as a protocol between two threads.
- `BackIndex`, `ProcessRecords`, `Inetd`: the main loop of `libinetd/inetd.cpp` in its synchronous form, with the three
  indexes over process records and the switching of services at their child limit.
- `StartRuns`: the guard against looping services, over runs of starts.
- `ChildLives`: the two together, over runs of forking, notifying and reaping.
- `HostKey`, `RateLimit`, `LimiterRuns`, `HostCollection`: the per-host rate limiter of `libinetd/cmpip.cpp`.
- `LogPipe`, `PipeEndpoint`: the reassembly of log lines from a pipe in `libService/Service.cpp`.
- `Calendar`, `LogName`, `LogRoll`: `timegm`, the names of log files and the rolling of logs
  (`libcompat/timegm.c`, `libService/Logger.cpp`).
- `PrefixBits`: prefix and mask arithmetic on addresses (`libiptable/isc_netaddr.c`, `libiptable/isc_util.c`).
- `TempName`: the search for a temporary file name (`libcompat/mktemp.c`).
- `ObjectPool`: the slab allocator of `libinetd/ObjectPool.h`.
- `SimpleConfig`: the case-folding configuration and its index (`libService/SimpleConfig.h`, `.cpp`).
- `Octets`, `Basics`: what several of these share.

Objects that the program updates in place are classes whose methods are proved against functions on values; what the
program promises over whole runs is then proved about those functions. Oracles stand for everything outside: the
arrival order of messages, answers of the file system and of waits, descriptors, process numbers, the clock.

## Findings

Proving the model turned up places where the code does less than one would expect. Each is stated as a lemma, or as a
method where it takes several calls to show.

- The rate limiter recycles the least recently used record for every unknown host, because the age test in its guard
  holds for every clock that does not run backwards (`LimiterRuns.OnlyQuarantineProtects`,
  `LimiterRuns.LostExactlyWhen`). So calls of one host add up only while no other host calls in between: some call is
  over its limit exactly when an unbroken block of calls by one host is (`LimiterRuns.LimitedExactlyWhen`), and hosts
  that take turns are never limited (`LimiterRuns.TakingTurnsIsNeverLimited`). In the first minute after the epoch
  nothing is limited (`LimiterRuns.EarlyTicksAreUnlimited`).
- The limit on connections per host never refuses one. What is stored as the address of a peer is the pointer to it
  (`libinetd/inetd.cpp:2046`), whose low half-word is no internet family, so that no connection is ever found again
  (`Inetd.HostLimitNeverRefuses`); the second call of a peer is let in where one is allowed
  (`Inetd.SecondCallIsLetIn`). Were addresses read back, it would be turned away (`Inetd.SecondCallWouldBeRefused`).
- A tracking message that overtakes the announcement of its process would be reported as complete while the process
  runs (`ProcessGroup.TrackBeforeNewReportsTooEarly`). Whether the system can deliver the two in this order is not
  decided by the code.
- Closing a service that still has children deletes records that stay in the hash table
  (`Inetd.DrainConsistentIffChildless`).
- Two reads of the log pipe differ from one read of the same bytes exactly when the second starts with the return that
  belongs to the newline before it, unless another newline follows that return (`LogPipe.CutMattersWhen`).
- After the size of the next slab is set, the check of the object pool fails once that slab is made, unless it is the size
  that doubling gives; and it fails for a slab of 2^32 slots or more, whose size does not fit the field that records it
  (`ObjectPool.ObjectPool.GrowAsTold`, `ObjectPool.ObjectPool.Check`).
- A setting with a space anywhere in front of its equals sign, be it before, in or behind its key, is read as a key
  without a value, and the key is the whole line (`SimpleConfig.WrittenReadsBack`, with `name = v` in
  `SimpleConfig.SpacedSettingIsAKey`).
- A child that is dropped because waiting on it failed, or timed out for the third time, is never reported, so it stays on
  the list of its service. When everything else has drained, a service is off exactly when such children alone reach its
  limit (`ChildLives.OffWhenLostReachLimit`).
- Names of log files are not recognised from the year 2100 on (`LogName.RoundTrip`).

## Model

| member | source | states |
|---|---|---|
| Memmem.MemMem | libcompat/memmem.c:164-185 | For every haystack and needle the answer is the leftmost occurrence, or none if there is none |
| Memmem.FirstOccurrenceIsUnique | libcompat/memmem.c:164-185 | That answer is determined by the haystack and the needle |
| Memmem.TwoByte | libcompat/memmem.c:31-38 | The rolling 16-bit word finds the leftmost occurrence of two bytes |
| Memmem.ThreeByte | libcompat/memmem.c:40-48 | The rolling 24-bit word in the high bytes of 32 finds the leftmost occurrence of three bytes |
| Memmem.FourByte | libcompat/memmem.c:50-58 | The rolling 32-bit word finds the leftmost occurrence of four bytes |
| Memmem.TwoWay | libcompat/memmem.c:129-162 | The search loop, with shift table, period skip and remembered prefix, never steps past an occurrence |
| Memmem.Factor | libcompat/memmem.c:82-127 | The chosen start is a critical factorisation, and the step and the remembered length are those of a needle that is periodic or not |
| Memmem.FillTable | libcompat/memmem.c:78-80 | The table holds, for each byte of the needle, the position behind its last occurrence |
| Memmem.RightMismatch | libcompat/memmem.c:149-155 | After a mismatch in the right half at `k`, no occurrence starts within the next `k - ms - 1` places |
| Memmem.LeftMismatch | libcompat/memmem.c:156-160 | After a mismatch in the left half no occurrence starts before the step `p` |
| Memmem.LastByteShift | libcompat/memmem.c:134-147 | Skipping by the last byte's entry skips no occurrence |
| Memmem.MemoryShift | libcompat/memmem.c:137-141 | With a remembered prefix, skipping by its length instead skips no occurrence |
| Memmem.Remember | libcompat/memmem.c:159-160 | After the step of a periodic needle its first `l - p` bytes are known to match |
| Memmem.NotPeriodic | libcompat/memmem.c:122-126 | If the left half does not repeat after `p`, no repetition across the critical position is shorter than the step |
| SuffixScan.MaximalSuffix | libcompat/memmem.c:82-118 | Each scan ends, with the start of the maximal suffix under its byte order and the smallest period of that suffix |
| SuffixScan.LyndonPeriodIsSmallest | libcompat/memmem.c:83-98 | The period the scan has found is the smallest of the scanned suffix |
| Periodicity.CriticalFactorisation | libcompat/memmem.c:119-120 | The later of the two maximal suffixes starts at a critical position: the shortest repetition there is the needle's smallest period |
| ProcessGroup.CompletesExactlyOnce | libinetd/ProcessGroup.h:235-318 | Under every lawful interleaving a tracked child enters the queue once, and exactly when it was tracked and has exited |
| ProcessGroup.TrackedIsPendingPlusCompleted | libinetd/ProcessGroup.h:235-318 | Tracked children are those in the table plus those that entered the queue, throughout |
| ProcessGroup.SignalsAreExact | libinetd/ProcessGroup.h:252-309 | Over every history one signal is raised for each completed child and each exit of an unmanaged process, and for nothing else |
| ProcessGroup.TablesDrain | libinetd/ProcessGroup.h:237-238 | When all processes have exited both tables are empty and every tracked child has been queued |
| ProcessGroup.ChildIdsAreAlive | libinetd/ProcessGroup.h:254-277 | For any order of messages the set of numbers holds those last announced as running |
| ProcessGroup.TrackCompletesAtOnce | libinetd/ProcessGroup.h:293-307 | A tracking message completes its child on the spot exactly when the child is not announced as running |
| ProcessGroup.TrackBeforeNewReportsTooEarly | libinetd/ProcessGroup.h:301-307 | A tracking message ahead of the announcement reports a child that still runs |
| ChildReaper.NoWakeupIsLost | libinetd/ProcessGroup.h:194-330 | Under every interleaving of the two threads, down to single steps under the lock, a child in the queue or in hand is covered by a signal pending or about to be raised, or by the reaping that goes on |
| ChildReaper.EveryChildHasOneFate | libinetd/ProcessGroup.h:194-232 | Under every such interleaving a completed child is waited on at most three times, and is queued or in hand, or reported once, or dropped after a failed or third timed-out wait |
| ChildReaper.ReapingIsIndependent | libinetd/ProcessGroup.h:194-232 | Interleaving with the steps of the reaper leaves the task's tables as the messages alone make them |
| ChildReaper.ReapInSteps | libinetd/inetd.cpp:1165-1169 | Taken without interruption, the small steps make up what the reaping loop does |
| ChildLives.ListsAreExact | libinetd/inetd.cpp:1120-1221 | Over every run of forks, messages, signals and steps of the reaper, a number is on the list of a service exactly if that service forked the child and it has not been reported |
| ChildLives.OnlyLostRemain | libinetd/ProcessGroup.h:194-232 | When everything has drained, what is left on a list are exactly the children that were dropped without a report |
| ChildLives.OffWhenLostReachLimit | libinetd/inetd.cpp:1207-1211 | A bound service is then off exactly when its dropped children alone reach its limit |
| ChildLives.Accept | libinetd/inetd.cpp:802-806 | Accepting adds the forked child to the list that the records show, or leaves the lists alone |
| ChildLives.Reap | libinetd/inetd.cpp:1185-1221 | Reporting a child takes it, and no other, off the list that the records show |
| ChildReaper.JobGroup.Handle | libinetd/ProcessGroup.h:252-309 | Handling one message takes the task's state to the one the protocol prescribes |
| ChildReaper.JobGroup.WaitNoHang | libinetd/ProcessGroup.h:194-232 | One non-blocking wait: the number of the front child is reported exactly if its handle is signalled; otherwise it is queued again with a new signal up to twice, or dropped |
| ChildReaper.JobGroup.ReapChildren | libinetd/inetd.cpp:1159-1182 | Reaps until a wait reports nothing: the numbers handed on are those at the front of the queue, in order, as many as have their handles signalled |
| ChildReaper.ReportsItsChild | libinetd/ProcessGroup.h:194-232 | In every run a wait that answers a number has waited on a record of a tracked child with that number, not reported before |
| ChildReaper.ReapedInOrder | libinetd/inetd.cpp:1159-1182 | What reaping hands on are the numbers of the queue up to the first child whose handle is not signalled |
| BackIndex.PushThenSwapRemove | libinetd/connprocs.cpp:99-118 | Removing the record just pushed, by moving the last one into its place, restores the vector |
| BackIndex.SwapRemoveIsRemoval | libinetd/connprocs.cpp:105-114 | Moving the last record into the gap removes that record and no other |
| ProcessRecords.HashVal | libinetd/inetd.cpp:2206-2219 | The loop and the last fold give the bucket of the bytes, with 32-bit shifts and sign extension; on those of a process number it is the bucket the table uses |
| ProcessRecords.KnownBucket | libinetd/inetd.cpp:2206-2219 | The bucket of one process number, with negative bytes, worked out by hand |
| ProcessRecords.ReapedSettled | libinetd/inetd.cpp:1196-1218 | Taking a reaped record out of all indexes leaves them consistent, and no empty connection behind |
| ProcessRecords.ReleaseTracked | libinetd/inetd.cpp:794-800 | A failed fork leaves no trace: the record, and the connection if it was new, are gone from every index |
| ProcessRecords.AdmitTracked | libinetd/inetd.cpp:802-806 | An admitted child is in the bucket of its number, on its service's list and in its host's vector, once each |
| Inetd.Server.DoAccept | libinetd/inetd.cpp:736-820 | Exactly when a connection is refused, served locally, found looping, fails to fork or becomes a child, whatever names the stored addresses have; a child stands last in the vector of its caller's connection, the first that matches or a new one; all invariants hold afterwards, and without a child nothing but the start counter has changed |
| StartRuns.LoopsOnlyWhenFast | libinetd/inetd.cpp:774-790 | Over every run of starts, one is found looping only when it is one of at least `toomany` within 60 seconds, none of the others found looping |
| StartRuns.FastStartsLoop | libinetd/inetd.cpp:774-790 | Of any `2 * toomany` starts in a row within 60 seconds one at least is found looping; two fewer are enough where that leaves two |
| StartRuns.NeverLoops | libinetd/inetd.cpp:774-790 | Without a limit no start is found looping |
| Inetd.HostLimitNeverRefuses | libinetd/inetd.cpp:2022-2048 | As addresses are stored, only the access times turn a connection away |
| Inetd.SecondCallIsLetIn | libinetd/inetd.cpp:2022-2048 | Two calls of one peer both become children of a service for one call from each |
| Inetd.SecondCallWouldBeRefused | libinetd/inetd.cpp:1986-2080 | Were stored addresses read back as the names of their peers, the second of two calls of a new peer would be turned away under a limit of one |
| Inetd.Server.AddChild | libinetd/inetd.cpp:1120-1157 | The child joins the indexes, a duplicate number being fatal, and the service is off exactly at its limit |
| Inetd.Server.ReapChild | libinetd/inetd.cpp:1185-1221 | The record leaves all three indexes and its service runs again if it may take another child; an unknown number changes nothing |
| Inetd.Server.ReapAll | libinetd/inetd.cpp:1159-1182 | Exactly the numbers of the exited children are no longer in use, and only switches of services differ |
| Inetd.Server.SearchProc | libinetd/inetd.cpp:2153-2177 | Looking in one bucket finds the record with the number, if any record has it |
| Inetd.Server.FreeProc | libinetd/inetd.cpp:2179-2204 | The record is taken out of its vector, its child list and its bucket |
| Inetd.Server.SearchConnections | libinetd/inetd.cpp:1986-2058 | The first connection in the peer's bucket whose stored address is read back as the peer's name, or a new one if there is none; none is kept without a limit per host |
| Inetd.Server.NewConnection | libinetd/inetd.cpp:2060-2080 | A record joins the host's vector exactly while the host is below its limit |
| Inetd.Unlink | libinetd/connprocs.cpp:99-118 | The loop removes the record by moving the last one into its place |
| Inetd.Server.Enable | libinetd/inetd.cpp:1816-1874 | A service that is off joins the select set; one that runs is left alone |
| Inetd.Server.Disable | libinetd/inetd.cpp:1876-1923 | A running service leaves the select set; closing also gives up the descriptor |
| Inetd.Server.RetryOne | libinetd/inetd.cpp:1547-1549 | Only unbound services that can be bound are set up, and the invariants hold |
| Inetd.Server.Retry | libinetd/inetd.cpp:1539-1553 | Every unbound service that can be bound is set up as the system answers, the others are left as they are; all invariants and child limits are kept |
| Inetd.Server.Reconfigure | libinetd/inetd.cpp:1335-1464 | After a change of limits, mode or address the service is on exactly when bound and below its new limit |
| Inetd.Server.Configure | libinetd/inetd.cpp:1335-1464 | Each service has the limit and mode that the last change to it gives, and no child or record is lost |
| Inetd.Server.OnReadable | libinetd/inetd.cpp:678-708 | A connection that the service accepts itself and the access checks refuse changes nothing; every other gets the verdict of its arrival |
| Inetd.Server.NetworkEvents | libinetd/inetd.cpp:661-709 | Every bound service whose descriptor is readable has exactly one turn, in order, and no other has one; a turn touches no other service, counts the start, and closes its own service exactly when it is found looping |
| Inetd.Server.ConnectionsResize | libinetd/inetd.cpp:2082-2098 | The connections there are get the new limit per host, or are all released without one |
| Inetd.Server.Round | libinetd/inetd.cpp:597-709 | In each round every signal has its effect in turn: retrying sets up what is unbound, reaping frees exactly the numbers of those that exited, reconfiguring sets limits and modes; then each readable bound service gets the verdict of its arrival. The invariants hold, and without reconfiguring no service exceeds a positive child limit |
| Inetd.DrainConsistentIffChildless | libinetd/inetd.cpp:1776-1795 | Closing a service keeps the indexes consistent exactly when it has no children |
| HostKey.CompareIsTotal | libinetd/cmpip.cpp:105-121 | Keys compare as equal exactly when they are, and swapping them flips the sign |
| HostKey.CompareIsTransitive | libinetd/cmpip.cpp:105-121 | The comparison is transitive |
| RateLimit.RingCountsWindow | libinetd/cmpip.cpp:192-205 | The sum over the six slots is the number of counted calls in the last six ticks |
| RateLimit.ServeIsExact | libinetd/cmpip.cpp:185-214 | A call is barred, over the limit or let through by the quarantine and the window of its host's history |
| LimiterRuns.ListInvariant | libinetd/cmpip.cpp:218-251 | In every run keys stay distinct and the list stays in order of last use |
| LimiterRuns.RingHoldsLife | libinetd/cmpip.cpp:192-198 | In every run each ring holds the counted calls of its host since its record was last assigned |
| LimiterRuns.AnswerIsExact | libinetd/cmpip.cpp:192-214 | In every run, apart from quarantine, a call is over the limit exactly when its host's calls in the last six ticks exceed it |
| LimiterRuns.AtMostTheLimit | libinetd/cmpip.cpp:200-214 | While a host keeps its record, at most `maxcpm` of its calls pass in any six consecutive ticks |
| LimiterRuns.QuarantineHolds | libinetd/cmpip.cpp:185-190 | After an exceeded limit with a wait, every call of that host before the wait is over is turned away, whatever other hosts do |
| LimiterRuns.QuarantineHasACause | libinetd/cmpip.cpp:207-212 | A quarantine that runs was started by an earlier call of that host over the limit, for exactly its wait |
| LimiterRuns.WaitingExactlyWhen | libinetd/cmpip.cpp:185-212 | With waits on all calls of a host, its call is turned away as waiting exactly when an earlier one was over the limit less than its wait ago |
| LimiterRuns.OnlyQuarantineProtects | libinetd/cmpip.cpp:229-230 | The recycle guard comes down to the quarantine test: the age test never decides |
| LimiterRuns.LostExactlyWhen | libinetd/cmpip.cpp:224-241 | A host loses its record exactly when an unknown host calls while the record is at the front and out of quarantine |
| LimiterRuns.AnswersWithoutWaits | libinetd/cmpip.cpp:174-251 | Without waits the calls alone decide every answer: over the limit exactly when the unbroken block of calls by its host has more than `maxcpm` calls in the last six ticks |
| LimiterRuns.LimitedExactlyWhen | libinetd/cmpip.cpp:174-251 | Whatever the waits, some call of a run is over its limit exactly when some call ends such a block |
| LimiterRuns.TakingTurnsIsNeverLimited | libinetd/cmpip.cpp:229-235 | Hosts that take turns are never over the limit, and share one record |
| LimiterRuns.EarlyTicksAreUnlimited | libinetd/cmpip.cpp:202 | Before the sixth tick the lower end of the window wraps around and no call is over the limit |
| HostCollection.HostCollection.CheckLimit | libinetd/cmpip.cpp:174-215 | One call on tree, list and pool takes one step of the machine that the run results are about |
| HostCollection.HostCollection.GetNode | libinetd/cmpip.cpp:218-251 | The record is found, recycled or built as the machine says, and moved to the end of the list |
| HostCollection.HostCollection.CountsAgree | libinetd/cmpip.cpp:253-257 | Tree, list and pool hold the same number of records, with distinct keys |
| HostCollection.HostCollection.Descend | libinetd/cmpip.cpp:224 | Descending by comparison finds where a key belongs in the ordered tree |
| HostCollection.HostCollection.CpmIp | libinetd/cmpip.cpp:268-293 | Services without a limit or of other families, and unknown peers, pass; otherwise -1 unless the call is let through |
| HostCollection.CHost.Sum | libinetd/cmpip.cpp:200-205 | The loop adds up the slots in the window |
| LogPipe.ReadsAreFed | libService/Service.cpp:687-729 | However a stream without NULs is cut into reads that fit, the lines and the bytes held are those of a splitter that takes one byte at a time; no newline is held and there is always room |
| LogPipe.CutsDoNotMatter | libService/Service.cpp:687-729 | Two ways of cutting a stream that do not separate a newline from a return behind it that starts a line give the same lines |
| LogPipe.PlainStreamsReadTheSame | libService/Service.cpp:687-729 | A stream without a newline directly followed by a return gives the same lines however it is cut |
| LogPipe.CutMattersWhen | libService/Service.cpp:687-729 | Two reads give what one read of the same bytes gives exactly unless the second starts with a return behind a newline, not itself followed by a newline |
| LogPipe.TextsComeBack | libService/Service.cpp:687-729 | Texts written as lines come back as they were, without the empty ones, whether a line ends in a newline or in a return and a newline, and however the stream is cut cleanly into reads |
| LogPipe.LinesAreFed | libService/Service.cpp:692-718 | Scanning for newlines pushes the same lines as feeding the bytes one by one |
| PipeEndpoint.PipeEndpoint.Reading | libService/Service.cpp:687-730 | The handling of a completed read pushes the lines and keeps the bytes that the machine says, for which texts come back |
| PipeEndpoint.PipeEndpoint.Pushed | libService/Service.cpp:102-117 | The bytes read are taken in and terminated; nothing read with bytes held is the end of the stream |
| PipeEndpoint.PipeEndpoint.Pop | libService/Service.cpp:119-129 | Removing leading bytes moves the rest to the front; cursor and free space keep adding up to the size |
| PipeEndpoint.PipeEndpoint.PushLines | libService/Service.cpp:690-718 | The loop pushes the whole lines and counts the bytes they take up |
| Calendar.TimeGm | libcompat/timegm.c:68-116 | The result is the days counted one by one from the epoch, and the time of day; -1 for what is out of bounds |
| Calendar.ClosedForm | libcompat/timegm.c:52-57 | The closed form with leap years equals counting year by year |
| Calendar.MonthStartClosed | libcompat/timegm.c:72-73 | The table of month lengths gives the days before each month that the closed form with 153 days in five months gives |
| Calendar.BoundsAreExact | libcompat/timegm.c:79-93 | A time is accepted exactly when its fields are in range, 60 being a second, and its day of the year comes before the first of the next month |
| Calendar.PosixFormula | libcompat/timegm.c:97-110 | From 1970 on the result is the formula of section 4.16 of POSIX.1-2017, XBD, with the day of the year in closed form |
| Calendar.EarlierIsLess | libcompat/timegm.c:68-116 | On times outside leap seconds the result is strictly increasing |
| Calendar.TimeGmInvertsGmTime | libcompat/timegm.c:68-116 | Decoding by counting and `timegm` are inverse to each other |
| LogName.RoundTrip | libService/Logger.cpp:285-328 | Reading a generated name back gives the time exactly when it is before the year 2100 |
| LogName.StemIs | libService/Logger.cpp:296-300 | A base name loses a trailing ".log", in either case, unless it is nothing else; any other name is kept |
| LogName.StampIs | libService/Logger.cpp:287-302 | The stamp is an underscore, eight digits of year, month and day, an underscore, six digits of the time, and the ending |
| LogName.NamesSortByTime | libService/Logger.cpp:285-304 | Names made from one base sort as their times do, before the year 10000 |
| LogName.StampReads | libService/Logger.cpp:311-328 | The last twenty characters are read field by field |
| LogRoll.RollTime | libService/Logger.cpp:631-645 | The loop returns the least boundary after the given time |
| LogRoll.NextBoundaryIsNext | libService/Logger.cpp:631-645 | The closed form of that boundary is the least one |
| LogRoll.BoundaryIsOnTheClock | libService/Logger.cpp:631-645 | Boundaries are the midnights of the calendar and the whole periods since each |
| LogRoll.RollsAdvanceByBoundaries | libService/Logger.cpp:747-758 | Over every run of rolls the next one is due at the least boundary after the last file's stamp; early rolls leave it, overdue ones advance it by one boundary |
| LogRoll.FilesAreInOrder | libService/Logger.cpp:747-758 | Over every run the files are stamped in order |
| LogRoll.Consumer.Drain | libService/Logger.cpp:689-745 | However items arrive, each is appended to one file; no file passes the limit on items, or what it was opened with, by more than the 32 items between two checks; the rolls make up a run, and at the end none is called for unless the last check has just rolled |
| LogRoll.Consumer.Roll | libService/Logger.cpp:747-758 | One roll takes the consumer's state to the one that the run results are about, and closes the file with all that was appended |
| PrefixBits.EqPrefix | libiptable/isc_netaddr.c:109-165 | True exactly for internet addresses of one family whose first bits agree, as far as they go |
| PrefixBits.EqualIsBitwise | libiptable/isc_netaddr.c:73-107 | Addresses are equal exactly when all bits of one family agree, and in version 6 the zones |
| PrefixBits.PrefixOk | libiptable/isc_netaddr.c:260-298 | Accepted exactly when in range and no bit is set from the prefix length on |
| PrefixBits.MaskToPrefixLen | libiptable/isc_netaddr.c:300-342 | Accepted exactly when the bytes are ones followed by zeros, with the number of ones |
| PrefixBits.MaskLengthIsUnique | libiptable/isc_netaddr.c:340 | A mask has one length |
| PrefixBits.PrefixesDetermineNetworks | libiptable/isc_netaddr.c:72-107 | Addresses without host bits that agree on the prefix are equal, in version 6 if their zones are |
| PrefixBits.KeptIsHigh | libiptable/isc_netaddr.c:153-163 | Bytes masked with `0xFF << (8 - n)` are equal exactly when their high bits are |
| PrefixBits.DroppedIsLow | libiptable/isc_netaddr.c:287-291 | A byte masked with `0xFF >> n` is zero exactly when its low bits are |
| PrefixBits.HighBitsAgree | libiptable/isc_netaddr.c:153-163 | The high bits are equal exactly when they are equal one by one |
| PrefixBits.ComparePrefix | libiptable/isc_util.c:21-80 | The comparison for the address table gives what the one for addresses gives |
| ObjectPool.ObjectPool.Malloc | libinetd/ObjectPool.h:301-351 | A slot that was not in use, from a new slab when none is free; every slot stays on exactly one list with its tag, capacity is the sum of the slabs, and slabs that double keep doubling up to the maximum |
| ObjectPool.ObjectPool.Free | libinetd/ObjectPool.h:353-367 | The slot leaves the used list and goes to the end of the free list |
| ObjectPool.ObjectPool.Construct | libinetd/ObjectPool.h:152-179 | An element gets a slot that was not in use; when its constructor throws, the used list is as before |
| ObjectPool.ObjectPool.Destroy | libinetd/ObjectPool.h:181-194 | Only an element in use is given back |
| ObjectPool.ObjectPool.Check | libinetd/ObjectPool.h:218-248 | Its assertions hold exactly when every slab has the size that doubling gives and 32 bits record it; tags, owners and the number in use always match |
| ObjectPool.ObjectPool.GrowAsTold | libinetd/ObjectPool.h:270-274 | Setting the next size does not show in the check until the next slab is made, and then exactly if it is not the size that doubling gives |
| ObjectPool.SizeIsPower | libinetd/ObjectPool.h:301-351 | A slab has the first size times a power of two, doubled once for each slab before it until the maximum is reached |
| SimpleConfig.LessIsStrictWeakOrder | libService/SimpleConfig.h:56-143 | The comparison is a strict weak order whose ties are the texts equal once normalised |
| SimpleConfig.NormalisedAlike | libService/SimpleConfig.h:60-66 | Bytes are alike exactly when equal, the two cases of a letter, or the two separators |
| SimpleConfig.Strcasecmp | libService/SimpleConfig.h:68-76 | The loop over terminated texts orders them as their normalised texts |
| SimpleConfig.StrcasecmpView | libService/SimpleConfig.h:78-142 | The loop over texts with lengths, alone or against terminated ones, gives the same order |
| SimpleConfig.InsertIndexes | libService/SimpleConfig.h:169-173 | An index keeps agreeing with a linear scan when a new setting is added |
| SimpleConfig.Values.Insert | libService/SimpleConfig.h:169-173 | A key that is there keeps its value in the index, and the list of elements grows |
| SimpleConfig.SimpleConfig.FetchSection | libService/SimpleConfig.cpp:155-167 | The equivalent section is found, or made once |
| SimpleConfig.SimpleConfig.Load | libService/SimpleConfig.cpp:93-152 | The lines add their settings in order, each under its section; a header that is not closed empties the configuration |
| SimpleConfig.EntriesAreSettings | libService/SimpleConfig.cpp:126-146 | Every setting among the lines is an entry, in its place and under the section of its line |
| SimpleConfig.SectionIsLastHeader | libService/SimpleConfig.cpp:116-124 | The section of a line is the one of the last header before it |
| SimpleConfig.HeadersAreRead | libService/SimpleConfig.cpp:104-124 | A bracketed name reads as that section whatever blanks are around it, and without the closing bracket as an error |
| SimpleConfig.WrittenReadsBack | libService/SimpleConfig.cpp:104-141 | A setting with any blanks around its parts reads back exactly when no space is in front of its equals sign, its key holds no such sign, and it does not start like a header; with a space there the whole line is the key |
| SimpleConfig.SpacedSettingIsAKey | libService/SimpleConfig.cpp:127-132 | `name = v` is read as a key without a value |
| SimpleConfig.TailsAreDropped | libService/SimpleConfig.cpp:104-114 | Blanks at the end of a line and a comment behind them change nothing |
| SimpleConfig.SimpleConfig.GetValuePtr | libService/SimpleConfig.cpp:335-387 | The value of the first setting with an equivalent key given in any equivalent section |
| TempName.GetTemp | libcompat/mktemp.c:176-253 | Candidates keep the text before the Xs, the digits of the process number come first, no reading is passed over, and the search ends well exactly on a free name; it gives up because all were taken only when every run of letters was |
| TempName.NeverTwice | libcompat/mktemp.c:237-250 | No candidate is tried twice |
| TempName.NextCountsOne | libcompat/mktemp.c:237-250 | Every step of the odometer raises its reading, in base 26 with digits as zeros, by one |
| TempName.NoneIsPassedOver | libcompat/mktemp.c:226-250 | A search that comes to the last reading has tried each reading there is, and so every run of letters |
| TempName.PidReads | libcompat/mktemp.c:186-191 | The digits read as the process number, as far as there is room |
| TempName.Step | libcompat/mktemp.c:237-250 | The loop steps the run in place, and fails exactly after the last reading |
| TempName.Fill | libcompat/mktemp.c:186-191 | The run of Xs is filled with the lowest decimal digits of the process number |
| TempName.CheckDirectory | libcompat/mktemp.c:193-221 | The path up to the last separator must be a directory; the separator is put back only then |

## Left out

- Windows itself: sockets, handles, threads, the registry, the service control manager and consoles; their answers are
  parameters.
- The accept path over completion ports, the worker threads, and locks: the main loop is the synchronous one, and each
  handler runs to its end.
- Inetd.Server.DoAccept: records, connections and services are addresses, and each of their fields is a map from
  addresses, so that update in place and aliasing of the C++ objects are not captured beyond what the maps say; the
  array of hash buckets is a map as well.
- Inetd.Server.SearchConnections: the buckets of a service's connections are one list in which each connection knows its
  bucket, so that the order between buckets is lost. What `getnameinfo` answers to a stored address is a parameter; all
  results hold for any such answers, and Inetd.HostLimitNeverRefuses for those that name internet addresses only.
- Inetd.Server.Reconfigure: stops short of closing a service that still has children, which breaks the indexes
  (Inetd.DrainConsistentIffChildless); services added or removed by a configuration are not modelled, nor the reading
  of configuration files. The limit per host that new connections get is not updated by the source either.
- Inetd.Server.Round: what the access checks decide is a parameter; the banner; the early end of the scan once as many
  services were handled as `select` reported, which only saves work.
- Running out of memory ends the program or refuses the connection in the source; only the rate limiter models it. There
  `construct_nothrow` throws a null pointer instead of returning one, so the branch of `get_node` that expects null is
  never taken; the answer `Raised` stands for that exception.
- ChildReaper.JobGroup.WaitNoHang: the blocking form of `wait`, which the main loop never uses, and the decoding of exit
  status. The assertions that fetch exit codes are not modelled.
- ChildLives.ListsAreExact: a run ends where a child is forked under a number that is still on a list, as the program
  does. Forking is one act of the main loop; in the source the task may see the tracking message before the number is on
  the list, which makes no difference since it does not look at the lists.
- LimiterRuns.AnswerIsExact: counts are unbounded; the source's `int` sum overflows after 35 million counted calls of
  one host within a minute. Results about windows are stated from the sixth tick on and while the tick number fits
  32 bits, that is up to the year 3331.
- HostCollection.HostCollection.Descend: the search tree is its sequence of records in order, and descending is bisection
  on it; the balancing of the tree is library code. Service names are compared as text; that a configuration could free
  the name a record points at is not modelled.
- Memmem.FillTable: the bits of the byte set are kept in an array of booleans instead of packed words; the index that
  starts at the largest `size_t` and wraps is written as -1.
- PipeEndpoint.PipeEndpoint.Reading: log levels, the echo to a console, and the polling of several endpoints.
- Calendar.TimeGm: `int` overflow of the day count for years beyond five million; the debug comparison with the system's
  own function.
- LogName.StampReads: `sscanf` also accepts blanks, signs and short fields; fields here are digits of full width, as the
  generated names have them. The deletion of expired logs is not modelled.
- LogRoll.Consumer.Drain: that a file cannot be opened or written, the queue the items come from, the purging of old
  logs, and times before the epoch. The bound on items is stated for counts that stay 32 below 2^32, the width through
  which they are read.
- PrefixBits.MaskToPrefixLen: the word that is shifted there is a number that is doubled; it never exceeds 16 bits.
- ObjectPool.ObjectPool.Malloc: slots are pairs of a slab and an index instead of addresses, so alignment and the memory
  of the elements are not modelled; the allocation fails when its bytes would exceed the address space, which keeps the
  doubling from wrapping. A slab of `SIZE_MAX` slots, for which the request wraps around to none, is left out. The
  destructor walks the slabs as the check does.
- SimpleConfig.SimpleConfig.GetValuePtr: one of the overloads does not turn away the empty key, which finds nothing
  unless a key starts with a NUL. `GetKeys`, which advances the wrong iterator, is not modelled.
- SimpleConfig.SimpleConfig.Load: opening the file and taking it apart at its line ends.
- TempName.GetTemp: a path of nothing but Xs with one more X in front of it in memory, over which the source would write.
  Which kind of error the file system reports is one of three answers.
- The radix tree of addresses, the location database, the time-range parser and the wrappers of `libcompat`: they would
  only add easier members, or their sources are not part of the repository.
