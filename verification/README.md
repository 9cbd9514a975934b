# Verified model of the watchdog daemon and its mount tools

A Dafny model of the parts of the watchdog sources that keep state or transform data, with proofs about whole runs of them.
`dafny verify dfyconfig.toml` checks everything.

| file | what it models |
|---|---|
| `Common.dfy` | error codes, the C conversion to `int`, wait statuses |
| `Retry.dfy` | the retry clock and repair counter of one monitored item, as a step function, and what holds over all runs of reports |
| `Watchdog.dfy` | the main loop, `repair`, `wd_action`, `do_check` and `keep_alive` as methods on one clock, with a log of elapsed time and device refreshes |
| `TestBinary.dfy` | the table of test children: a linked list changed in place, specified by a sequence |
| `TestRuns.dfy` | whole runs of `check_bin`: nothing lost, repeated or reordered |
| `TestVerdicts.dfy` | the verdicts in reachable tables, and the time limit |
| `TestReports.dfy`, `TestHangs.dfy` | test children and the retry clock together: what a reset needs, and what a child that hangs leads to |
| `Mntent.dfy`, `MntFile.dfy`, `MntFormat.dfy` | the mount-table codec: as functions with the round trip, as the pointer loops over fixed buffers, and the format itself, written and read |
| `Mtab.dfy` | `update_mtab`, as a loop over two files and as a transformation of the file's bytes |
| `Umount.dfy` | the cached doubly linked mount list and the reverse unmount walk, which rewrites the file as it goes |
| `Strings.dfy`, `MountOptions.dfy`, `MountText.dfy`, `FlagWords.dfy`, `MountParser.dfy` | the mount option compiler: comma-separated text, sets of flags, what each option name means, the flags as the 32 bits of an `int`, and the loops with the fixed leftover buffer |
| `MountGroups.dfy` | how `mount_all` sorts fstab into chains |
| `Heartbeat.dfy` | the heartbeat ring and its file |
| `Checksum.dfy` | `in_cksum` against RFC 1071 |
| `Config.dfy`, `ConfigReader.dfy`, `ConfigText.dfy` | the configuration reader: settings as a fold over the lines, the loop with its in-place string edits, and what a file written in the usual way is read as |

Each part has a specification on values (functions and the lemmas about them) and, where the C code updates things step by
step, methods over classes, arrays and linked nodes whose `ensures` equal that specification. The answers of the operating
system (times, wait statuses, results of `fork`, `umount`, `malloc`) are inputs, for which the properties hold without
restriction unless a row says otherwise. What the functions compute is stated once more from the side of the inputs, in literal
codes, names and characters, so that a function and the method proved against it cannot both be wrong in the same way.

Some properties that one would expect hold only under a condition. The model keeps the code as it is, states the exact
condition and gives inputs for which the property fails:

- the shutdown bound needs retry timeout plus report gap to fit in an `int` (`Retry.BoundedShutdownExactly`): the truncated
  difference of times can otherwise hide a fault for any length of time;
- the refresh gap also contains the poll of the test children between the two sleeps of a turn, which `check_parameters` does
  not account for (`Watchdog.RefreshSafetyExactly`, `Watchdog.SlowPollStarves`);
- the status 247 of a test child is taken for a timeout, and an age beyond `int` hides a child from the time limit
  (`TestVerdicts.TooLongExactly`, `TestVerdicts.LimitEnforcedExactly`);
- a child that exits with 245 looks to callers as if there were no result (`TestRuns.CallersSeeExactly`,
  `TestVerdicts.ExitCodeLooksLikeDontKnow`);
- when fork or malloc fails, check_bin drops the result it has just taken from the table (`TestRuns.ResultKeptExactly`);
- the merged line of a remount can exceed the reader's buffer although old entry and record both fit
  (`Mtab.RemountReadsBackExactly`, `Mtab.UpdateTwice`, `Mtab.MergedLineTooLong`);
- update_mtab does not look at the result of closing the new table before it renames it, so a full disk can cost the last
  entry without an error (`Mtab.ClosedWhole`, `Mtab.FullDiskLosesEntry`);
- a heartbeat file with more records than the ring keeps its old tail (`Heartbeat.FileIsEndOfHistory`).

The comment at src/test_binary.c:194-195 says that a child still running makes the check return ENOERR; the code returns
EDONTKNOW (src/test_binary.c:257), which is what the model does.

## Model

| member | source | states |
|---|---|---|
| `Retry.BoundedShutdown` | src/watchdog.c:163-264 | a fault that never clears: the daemon still runs at a report only within (k+1)r + (2k+1)g seconds of the first one, whatever the repairs return |
| `Retry.BoundedShutdownIsTight` | src/watchdog.c:200-249 | for all settings and every gap of at least one second some run reaches exactly that age, so the bound cannot be lowered |
| `Retry.BoundedShutdownExactly` | src/watchdog.c:212-214 | the bound holds over every run if and only if r + g fits in an int |
| `Retry.EndlessFault` | src/watchdog.c:212-214 | otherwise a fault survives for any length of time |
| `Retry.FreshStart` | src/watchdog.c:184-192 | what happened before a clean state leaves no trace in states or survival afterwards |
| `Retry.SilenceChangesNothing` | src/watchdog.c:183-194 | leaving out the "don't know" reports changes neither the item's state nor survival |
| `Retry.FaultSincePassBounded` | src/watchdog.c:184-249 | the bound for a fault that sets in at any point of a run, after a passing report, with any silence between its error reports |
| `Retry.RepairLimit` | src/watchdog.c:184-249 | repairs since the last pass equal min(counter, k), so at most k run between passes |
| `Retry.ActionNeedsTimeout` | src/watchdog.c:200-249 | a repair, or a shutdown for a repairable error, needs an error report more than r seconds earlier with no pass and no repair in between |
| `Retry.RepairSpacing` | src/watchdog.c:200-249 | two repairs of an item are always more than r seconds apart |
| `Retry.StepVerdict` | src/watchdog.c:182-263 | the reaction to one report from its code, the clock and what the repair returns: 255, 254 and 252 end the run at once, an expired error is repaired unless k repairs have been counted, and then ends the run if the repair does not return 0 |
| `Retry.RepairsExactly` | src/watchdog.c:200-249 | a repair runs at a report if and only if it is an error more than r seconds after the first error since the last pass or repair, and fewer than k repairs have run since the last pass |
| `Retry.SurvivalExactly` | src/watchdog.c:163-264 | a run is survived if and only if none of its reports was 255, 254 or 252, none was overdue after k repairs since the last pass, and every repair that ran returned 0 |
| `Retry.ShutdownCode` | src/watchdog.c:243-262 | what do_shutdown gets: the code of the report if it cannot be repaired or k repairs have run, otherwise what the repair returned |
| `Watchdog.RefreshSafety` | src/watchdog.c:359-368 | with parameters that check_parameters accepts, checks of at most dev_timeout-2 seconds and polls under two seconds, the device never goes dev_timeout seconds without a refresh, for any list lengths and results |
| `Watchdog.RefreshSafetyExactly` | src/watchdog.c:513-570 | every run feeds the device in time if and only if a worst check plus one second, and the two sleeps with the worst poll, stay below the limit |
| `Watchdog.SlowPollStarves` | src/watchdog.c:516-570 | accepted parameters under which a poll as slow as a check lets the device starve |
| `Watchdog.FedAtEveryPoint` | src/keep_alive.c:182-209 | the safety predicate means: at every point of the log the time since the last refresh is below the limit |
| `Watchdog.SafePass` | src/watchdog.c:520-570 | one turn, completed or cut short by a shutdown, keeps the device fed |
| `Watchdog.RoundsBounded` | src/watchdog.c:131-141 | the repair wait loop ends after at most repair_timeout rounds, and after exactly that many if the child never answers |
| `Watchdog.RepairImpossible` | src/watchdog.c:80-146 | without a repair binary the error stands; a fork that fails or a program that hangs for the whole repair timeout makes it 255 |
| `Watchdog.RepairEnds` | src/watchdog.c:131-160 | a repair program that ends in time: bits 8 to 15 of its wait status; when waitpid fails, these bits of the error code, or errno with --softboot |
| `Watchdog.TurnLog` | src/watchdog.c:520-570 | one full turn in the log: refresh, checks, 50 ms, the poll of the test children, the rest of the interval |
| `Watchdog.RunningDaemonBounds` | src/watchdog.c:520-584 | while the daemon object runs, each of its items obeys the repair limit and the fault bound, "don't know" reports left out |
| `Watchdog.ReportKept` | src/watchdog.c:163-249 | entering a report in an item's history advances its state by one step |
| `Watchdog.Daemon.KeepAlive` | src/keep_alive.c:182-209 | an open device that accepts the write is refreshed; otherwise the error code comes back and nothing is refreshed |
| `Watchdog.Daemon.Repair` | src/watchdog.c:72-161 | result, elapsed time and refreshes: one second and one refresh for each wait round, or one blocking wait without a timeout |
| `Watchdog.Daemon.WdAction` | src/watchdog.c:163-264 | new clock and counter, shutdown code and refreshes are those of the step function for this report and the result of this repair |
| `Watchdog.Daemon.Refreshing` | src/watchdog.c:266-270 | a refresh that fails is judged at once without an item: a repairable error is repaired, and what ends the run is the error that cannot be repaired or the result of the repair |
| `Watchdog.Daemon.DoCheck` | src/watchdog.c:266-270 | check, judgement and refresh in this order: the item gets exactly the report of this check and the run ends with its verdict; without an item it ends with the error that cannot be repaired or the result of the repair |
| `Watchdog.Daemon.CheckList` | src/watchdog.c:537-562 | item i of a list gets exactly the report of check i, with its code, second and repair result; items that are not reached get none; what ends the run is the last report made |
| `Watchdog.Daemon.FixedChecks` | src/watchdog.c:523-535 | the five checks without a list, in order: the first that demands a shutdown ends the run, with its code or the result of its repair |
| `Watchdog.Daemon.ListChecks` | src/watchdog.c:537-562 | the six lists in order: each item gets the report of its own check at its own place, and nothing else |
| `Watchdog.Daemon.Pass` | src/watchdog.c:520-570 | one turn of the main loop: refresh, checks, short sleep, poll, long sleep; which item got which report, and what ended the run |
| `Watchdog.Daemon.MainLoop` | src/watchdog.c:513-584 | over the whole run, until a shutdown, SIGTERM or the --loop-exit count: the history of each item is its own column of the environment, one report in each turn, the device never starves, the number of turns is exact, and a run is ended by the last report about an item or by a check without one |
| `Watchdog.Daemon.FaultEndsRun` | src/watchdog.c:513-584 | an item whose check fails in every turn forces a shutdown: the loop does not get through more turns than fit in the fault bound, whatever the repairs return |
| `Watchdog.Daemon.FailingItemBound` | src/watchdog.c:513-584 | while the daemon runs, an item that has failed in every turn has done so for at most (k+1)r + (2k+1)g seconds, for the gap g that list lengths, repair timeout and interval give |
| `Watchdog.Daemon.ColumnIs` | src/watchdog.c:537-562 | after any number of complete turns the history of an item has one report per turn, of its own check in that turn |
| `Watchdog.Daemon.ReportsApart` | src/watchdog.c:513-570 | from one turn to the next the reports about an item are at least the interval and at most g seconds apart |
| `Watchdog.Daemon.ReportTells` | src/watchdog.c:173-180 | a report tells the code of the check and its second; a version 1 item is its own repair binary |
| `Watchdog.TurnsExactly` | src/watchdog.c:573-583 | the loop makes at least one turn and ends after the first one that SIGTERM or the count ends |
| `TestRuns.NoResultLost` | src/test_binary.c:201-305 | without fork or allocation failure: results handed back for a name are its children's outcomes in start order, each once; started = handed back + entries (0 or 1); what check_bin returned is these results in that order, "don't know" left out on both sides |
| `TestRuns.CallersSeeExactly` | src/test_binary.c:239-305 | callers see all results of a name if and only if no child of it exited with 245, the code of "don't know" |
| `TestRuns.TableDistinct` | src/test_binary.c:37-137 | every reachable table has distinct names and pids, also after failed forks and mallocs |
| `TestRuns.DistinctKept` | src/test_binary.c:239-305 | every call keeps names and pids distinct, given fresh pids and names shorter than PATH_MAX |
| `TestRuns.UnknownPidIgnored` | src/test_binary.c:104-137 | a status for a pid outside the table leaves it unchanged |
| `TestRuns.ResultKeptExactly` | src/test_binary.c:255-304 | a completed child's entry is always dropped, and its code returned if and only if fork and malloc succeed |
| `TestRuns.ReportedExactly` | src/test_binary.c:112-135 | a child counts as the code of its first death among the statuses of a call, exit code or 248 for a signal, and as nothing if it was only stopped |
| `TestRuns.ReapedIsFinished` | src/test_binary.c:104-137 | a call that reaps a tracked unfinished child leaves it finished with that code; one that finds it stopped leaves it alone unless it is too old |
| `TestRuns.ReapedIsReturned` | src/test_binary.c:239-305 | and if the call asks for its name, it returns that code and starts the next child |
| `TestRuns.CodesWithoutResult` | src/test_binary.c:239-305 | the other return codes: 0 without a name, 245 while the child runs or was just started, 255 if fork fails, 12 if malloc fails, which frees the chain |
| `TestRuns.KilledExactly` | src/test_binary.c:168-185 | the children killed by a timeout check are those unfinished beyond the limit, and exactly these are marked 247 |
| `TestRuns.LongNameNeverFound` | src/test_binary.c:47-53 | in any run every call for a name of 4096 characters or more starts another child under its first 4095 characters, and none of them is ever reported |
| `TestVerdicts.VerdictIsFate` | src/test_binary.c:37-185 | in every run, whatever fails in it, each entry of the table is the record of the latest child started for its name, has been so since its start, and its verdict is that child's fate |
| `TestVerdicts.ResultIsFate` | src/test_binary.c:201-226 | the code that check_processes finds for a name is the fate of the latest child started for it |
| `TestVerdicts.ResultsInOrder` | src/test_binary.c:201-305 | in every run two results found for a name belong to different children, and the second is not started before the first result is found |
| `TestVerdicts.VerdictStep` | src/test_binary.c:104-185 | one call leaves an entry that has its verdict as it is, unless it collects exactly that verdict or the chain is freed |
| `TestVerdicts.VerdictKept` | src/test_binary.c:104-226 | a recorded verdict stays in the table through any calls, reaps and timeouts until one asks for the name or frees the chain |
| `TestVerdicts.VerdictDecided` | src/test_binary.c:104-185 | an entry of a reachable table has verdict v if and only if a call after its child's start found it unfinished and decided so |
| `TestVerdicts.DeadIsFinished` | src/test_binary.c:104-165 | in no run is a child unfinished that waitpid has reported dead, exited or killed, since its start |
| `TestVerdicts.VerdictOfDeath` | src/test_binary.c:112-135 | the verdict of a child that dies while its entry is unfinished: bits 8 to 15 of the status after an exit, 248 after a signal |
| `TestVerdicts.TooLongExactly` | src/test_binary.c:168-185 | a reachable table reads ETOOLONG if and only if some call since the child's start found the entry over the limit and not yet reaped, or the child exited with 247 |
| `TestVerdicts.ExitCodeLooksLikeTimeout` | src/test_binary.c:115-124 | a run that starts a child which exits with 247: without any limit the table reads ETOOLONG |
| `TestVerdicts.ExitCodeLooksLikeDontKnow` | src/test_binary.c:115-124 | a run in which a child exits with 245: the result is handed back but reads "don't know" |
| `TestVerdicts.LimitEnforcedExactly` | src/test_binary.c:168-185 | some unfinished child is over the limit after the call if and only if before it an unreaped one had an age whose low 32 bits do not show that, and the chain is not freed |
| `TestVerdicts.AncientChildOverlooked` | src/test_binary.c:175 | for every limit no age up to INT_MAX is hidden, and at INT_MAX + 1 an unfinished child stays unfinished |
| `TestReports.ResetNeedsCleanExit` | src/watchdog.c:183-192 | in every run, whatever fails in it, a call that leads to clearing a test binary's counter, or its clock other than by a repair, hands back the result of the latest child started for that name, which was reaped with exit status 0 since its start |
| `TestReports.TwoResetsTwoExits` | src/watchdog.c:183-192 | two resets of an item need two children, the second not started before the first reset, each reaped with exit status 0 between its start and its reset |
| `TestReports.NoResultNoChange` | src/test_binary.c:239-258 | for any table, "just started" and "still running" leave clock and counter untouched, and so does a failed fork |
| `TestReports.ZeroMeansExit` | src/test_binary.c:112-135 | outcome 0 comes only from a reaped exit status 0 of that pid |
| `TestReports.PassIsAnOutcome` | src/test_binary.c:239-305 | in every run a call that returns 0 hands back the fate of the latest child started for that name |
| `TestHangs.HungTestForcesShutdown` | src/test_binary.c:144-305 | a test binary that always hangs forces a shutdown, whatever the repairs return: with test limit T, retry timeout r, k repairs and calls at most p seconds apart the daemon still runs after a report only within (k+1)r + (2k+2)(T+p) seconds of the first |
| `TestHangs.HangStep` | src/test_binary.c:168-305 | what one call does for a name whose children are never reaped: nothing new within the limit, ETOOLONG and a new child beyond it |
| `TestHangs.SteadyAfter` | src/test_binary.c:239-305 | after every call the error reports are at most T+p apart, with silence between, and the child now running was started with the last of them |
| `TestBinary.ProcessTable.AddProcess` | src/test_binary.c:37-56 | the new child at the head of the chain; without memory the chain is emptied |
| `TestBinary.ProcessTable.FreeProcess` | src/test_binary.c:63-75 | the walk ends at the end of the chain and the table is empty afterwards |
| `TestBinary.ProcessTable.RemoveProcess` | src/test_binary.c:81-97 | the first node with the pid is unlinked in place and the chain stays acyclic |
| `TestBinary.ProcessTable.UpdateProcess` | src/test_binary.c:104-137 | the first node with the pid gets the decoded status unless it has one |
| `TestBinary.ProcessTable.GatherChildren` | src/test_binary.c:144-165 | all reported statuses are recorded in order |
| `TestBinary.ProcessTable.CheckTimeouts` | src/test_binary.c:168-185 | exactly the overdue unfinished children are killed and marked, in table order |
| `TestBinary.ProcessTable.CheckProcesses` | src/test_binary.c:201-226 | status of a name; a completed child leaves the table |
| `TestBinary.ProcessTable.CheckBin` | src/test_binary.c:239-305 | return code and new table of one call |
| `Mntent.RoundTrip` | src/mntent.c:122-213 | printing representable entries and reading the text returns exactly these entries |
| `Mntent.RoundTripExactly` | src/mntent.c:158-166 | for well-formed entries the round trip is the identity if and only if every line fits the buffer |
| `Mntent.ReadPrinted` | src/mntent.c:146-213 | what is read back otherwise: the entries before the first line that does not fit |
| `Mntent.LineInverse` | src/mntent.c:135-205 | the parser takes a printed line apart into the printed entry |
| `Mntent.UnmangleMangle` | src/mntent.c:23-89 | unmangle of a mangled text, with any separator and any text behind it, is the text |
| `Mntent.MangleIsToken` | src/mntent.c:23-50 | the mangled form has no space, tab, newline or NUL |
| `Mntent.NumberInverse` | src/mntent.c:184-199 | a printed non-negative int is read back as itself |
| `Mntent.PrintAppend` | src/mntent.c:122-143 | appending a record to a printed file prints one entry more |
| `MntFormat.MangleConcat` | src/mntent.c:23-50 | escaping goes character by character |
| `MntFormat.MangleExactly` | src/mntent.c:21-50 | text without space, tab, newline and backslash, and no other, is written as it is; the four are written \040, \011, \012 and \134 |
| `MntFormat.DecimalExactly` | src/mntent.c:135-136 | numbers are written in decimal digits without leading zeros |
| `MntFormat.LineExactly` | src/mntent.c:129-136 | an entry is written as four escaped fields and two numbers with one space between each two |
| `MntFormat.PlainLine` | src/mntent.c:21-136 | an entry whose fields need no escapes is written as its fields and numbers |
| `MntFormat.LineSays` | src/mntent.c:168-205 | any line, however spaced: nothing if it is blank or starts with #; an entry if the fifth and sixth words are numbers or missing (0); otherwise bad; further words do not matter |
| `MntFormat.EveryLine` | src/mntent.c:168-205 | every line consists of words and gaps, so that MntFormat.LineSays is about all lines |
| `MntFormat.OctalDecoded` | src/mntent.c:81-83 | a backslash and three octal digits are read as one byte, of which eight bits are kept |
| `MntFormat.BackslashKept` | src/mntent.c:84-85 | any other backslash stands for itself |
| `MntFormat.OthersKept` | src/mntent.c:84-85 | and so does every other character |
| `MntFormat.NumberRead` | src/mntent.c:184-199 | digits are read in decimal; a number beyond long counts as -1 |
| `MntFormat.FileRead` | src/mntent.c:146-213 | a file of lines that fit the buffer, at most four of them bad, gives the entries of its good lines in order |
| `MntFormat.RestLost` | src/mntent.c:150-213 | after the fifth bad line, or a line that does not fit, the rest of the file is lost |
| `MntFile.MangleText` | src/mntent.c:23-50 | the loop computes the escaped text and never writes beyond 4n+1 characters |
| `MntFile.UnmangleAt` | src/mntent.c:74-89 | on arbitrary text reads stay in the line, the jump never passes the token, the loop stops on its end, and the output fits token length + 1 |
| `MntFile.SkipSpacesAt` | src/mntent.c:57-62 | the pointer ends at the first character that is no blank |
| `MntFile.SkipNonspacesAt` | src/mntent.c:64-69 | the pointer ends at the end of the token |
| `MntFile.ParseText` | src/mntent.c:168-205 | the pointer walk over a line computes the parser function |
| `MntFile.File.ReadBuffer` | src/mntent.c:158-167 | one fgets with the buffer limit and the search for the newline |
| `MntFile.File.GetMntEnt` | src/mntent.c:146-213 | next entry, read position and error counters are those of the reader function |
| `MntFile.File.AddMntEnt` | src/mntent.c:122-143 | fseek flushes the records before, and the new record's line goes to the end of the stream, or a part of it if fseek or fprintf fails |
| `MntFile.File.Close` | src/mntent.c:111-120 | what is on the disk after fclose, whose result nobody looks at: everything, or only a part of what was not flushed |
| `Mtab.RemovalReadsBack` | src/fstab.c:320-378 | re-reading after removing a directory gives the old entries minus those there, in order |
| `Mtab.RemountShape` | src/fstab.c:345-366 | with a record matching entries keep device and type and take the rest from it; without a match it is appended once; fields that are NULL read "none" |
| `Mtab.RemountReadsBackExactly` | src/fstab.c:320-378 | re-reading after a remount gives the rewritten entries if and only if every merged line fits |
| `Mtab.MergedLineTooLong` | src/fstab.c:348-363 | a representable table and record whose merged line is not read back |
| `Mtab.RewriteTwice` | src/fstab.c:345-366 | rewriting again changes nothing if and only if the record, if any, is for the directory itself |
| `Mtab.UpdateTwice` | src/fstab.c:320-378 | updating the file's bytes a second time leaves them as they are if and only if this is a removal, or a remount whose record is for the directory and whose merged lines all fit |
| `Mtab.UpdateTwiceLoses` | src/fstab.c:320-378 | if a merged line does not fit, the second update always makes the file shorter |
| `Mtab.CopyTable` | src/fstab.c:345-364 | the copying loop writes the rewritten entries and notices whether any matched; it ends the program exactly when one of its writes fails |
| `Mtab.WriteTable` | src/fstab.c:345-366 | the whole new table is written unless a write fails |
| `Mtab.Table.UpdateMtab` | src/fstab.c:320-378 | the table is left as it is (no table or a symlink, failing open, write or rename) or becomes the new table as closed, which is the whole new table if closing succeeds; the program ends exactly when a write fails |
| `Mtab.ClosedWhole` | src/fstab.c:368-374 | the new table is whole if and only if closing did not cut the last line |
| `Mtab.ClosedReadsBack` | src/fstab.c:368-374 | re-reading the renamed table gives the new entries, without the last one exactly when closing cut its line |
| `Mtab.FullDiskLosesEntry` | src/fstab.c:371-374 | for every table of two entries: removing the first on a full disk loses the second as well, without an error |
| `Umount.WalkRemovesExactly` | src/umount.c:177-312 | over the whole walk: the final file reads as the original minus entries whose directory was visited before the walk met a root entry and was released |
| `Umount.VisitsReversed` | src/umount.c:304-308 | every entry of matching type, every non-swap entry if no types are given, is visited exactly once, in reverse order |
| `Umount.MatchType` | src/sundries.c:141-168 | the loop over the types: swap never matches, a "no" entry excludes its type, a list that ends in "no" selects what it does not mention |
| `Umount.WalkWithoutLoops` | src/umount.c:177-312 | the whole walk with a writable table and no loop devices: the final file reads as the original minus the directories of visits before the first entry for /, root or rootfs whose first answer was none, 22 or 2, or was not 16 with another device that then unmounted |
| `Umount.StatusWithoutLoops` | src/umount.c:304-312 | without loop devices the status is 1 if and only if some unmount did not work, neither by directory nor by device |
| `Umount.DropsUnwritable` | src/umount.c:237-282 | with a table that cannot be written an entry goes if and only if its unmount failed and the directory gave 22 or 2 |
| `Umount.LoopDevices` | src/umount.c:246-282 | the first cached entry for the device says which loop device to free; when that fails, the entry stays unless the directory gave 22 or 2, and the unmount counts as failed before the first root entry |
| `Umount.CachedExactly` | src/fstab.c:95-116 | the cache holds device, directory, type and options of the entries before the first one of type "ignore" |
| `Umount.TypesSelected` | src/sundries.c:141-168 | which types a list selects: all but swap without one, those named, or those not named with "no" in front |
| `Umount.MountList.ReadMntEntChn` | src/fstab.c:95-116 | the list built is linked both ways, closed through the dummy, and holds the entries before the first "ignore"; after a read error it is empty and has no back link |
| `Umount.FindCached` | src/fstab.c:170-179 | first cached entry with that directory or device |
| `Umount.ScanLoopOptions` | src/umount.c:254-262 | is there an option that starts with "loop=" |
| `Umount.FreeLoop` | src/umount.c:246-262 | does a loop device that has to be freed stay behind |
| `Umount.Unmounter.UmountOne` | src/umount.c:177-289 | return code, root counter and table bytes of one unmount |
| `Umount.Unmounter.WalkBack` | src/umount.c:304-308 | the loop over the back links makes the visits in order and leaves the bytes of the walk function |
| `Umount.Unmounter.UmountAll` | src/umount.c:296-312 | visits, final bytes and error status of the whole walk for any list of types, the entries that remain without loop devices, and status 2 without a list |
| `Strings.TokensOfJoin` | src/mount.c:281-283 | splitting joined tokens at commas gives them back |
| `Strings.TokensConcat` | src/mount.c:281-283 | the tokens of two texts with a comma between them are those of both, in order |
| `Strings.JoinExactly` | src/mount.c:305-313 | joining puts one comma between each two pieces |
| `MountOptions.CanonicalRoundTrip` | src/mount.c:197-316 | for every option string: parse, print for mtab, parse gives the same flags minus remount, noauto, user and loop, the same string options minus vfs=, the same leftovers in order; printing again gives the same string |
| `MountOptions.OptMapOk` | src/mount.c:132-172 | the source's table has what the round trip needs: printed names are found again, and all flags are printed but read-only and loop |
| `MountOptions.MountRoundTrip` | src/mount.c:132-316 | the round trip for the source's table, whatever the -r and -w switches |
| `MountOptions.ParseYields` | src/mount.c:241-290 | what parsing can produce: comma-free values and leftovers that no tag or option matches |
| `MountText.TokenEffect` | src/mount.c:132-264 | what each of the 25 option names sets and clears; nouser, like user, also sets noexec, nosuid and nodev |
| `MountText.ParseExactly` | src/mount.c:268-290 | for every option string: a flag is set if and only if the last option about it sets it, read-only subject to -r and the stronger -w; loop=, vfs=, offset= and encryption= take the value of their last token; the leftovers are the unknown tokens in order |
| `MountText.PrintExactly` | src/mount.c:293-316 | the canonical string: ro or rw, the names of the flags set in a fixed order, loop=, offset= and encryption= if given, the leftovers |
| `MountText.ShownExactly` | src/mount.c:126-127 | what goes into the mount table leaves out remount, noauto and user only |
| `FlagWords.OrBits` | src/mount.c:250-252 | setting bits in the int adds the flags to the set |
| `FlagWords.ClearBits` | src/mount.c:248 | masking with a complement takes them out |
| `FlagWords.TestBits` | src/mount.c:303 | (flags & mask) == mask tests for all flags of the mask |
| `FlagWords.SameBits` | src/mount.c:119-124 | different sets of flags are different ints |
| `FlagWords.ApplyBits` | src/mount.c:241-264 | parse_opt's steps on the int are the steps on the set |
| `FlagWords.OverrideBits` | src/mount.c:286-289 | the -r and -w switches on the int |
| `FlagWords.WordRoundTrip` | src/mount.c:743 | on ints the round trip clears exactly the bits of remount, noauto, user and loop |
| `FlagWords.MaskConstant` | include/mount_constants.h:2-26 | the bits are those of the constants |
| `MountParser.ParseOpts` | src/mount.c:268-290 | int, string options and leftover text of an option string; the buffer of strlen + 1 always suffices |
| `MountParser.TakeToken` | src/mount.c:241-264 | one token is a string option, a known option or a leftover |
| `MountParser.AppendFlags` | src/mount.c:299-307 | the loop prints each flag once, clearing it in the int |
| `MountParser.FixOptsString` | src/mount.c:293-316 | the string built is the canonical form |
| `MountParser.MtabOptions` | src/mount.c:743 | parsing and printing with ~MS_NOMTAB |
| `MountGroups.BuildChains` | src/mount.c:1041-1087 | the linked chains hold every eligible entry in exactly one chain, in fstab order, with one group each |
| `MountGroups.ChildList.Place` | src/mount.c:1069-1084 | an entry is linked in place to the end of the chain of its group, or heads a new child at the end of the list; all other links stay |
| `MountGroups.ChildList.FindChild` | src/mount.c:1070-1071 | the first child of the group |
| `MountGroups.Child.Add` | src/mount.c:1072-1073 | meclast and its link move on to the new entry |
| `MountGroups.PlacedSorted` | src/mount.c:1041-1087 | one entry more keeps the partition |
| `MountGroups.SharedChain` | src/mount.c:1054-1081 | two entries share a chain if and only if they have the same non-null group |
| `MountGroups.GroupExactly` | src/mount.c:1054-1067 | the group is the host before the first colon for nfs, which overrides the disk, and otherwise the disk; none without --fork |
| `MountGroups.ChainedExactly` | src/mount.c:1041-1053 | an entry is chained, in one chain only, if and only if its type matches, it is not mounted and its directory is neither / nor root |
| `MountGroups.HostsTogether` | src/mount.c:1054-1081 | two chained nfs entries share a chain if and only if forking is on and their hosts are the same |
| `Heartbeat.FileIsEndOfHistory` | src/heartbeat.c:39-126 | across any sequence of sessions the file holds the last N of old records, restart marks and stamps if and only if the old file had at most N records |
| `Heartbeat.SessionExactly` | src/heartbeat.c:103-122 | after a session that wrote, the file is the last N records if and only if the old file had at most N |
| `Heartbeat.SessionLeaves` | src/heartbeat.c:103-122 | what the file holds otherwise: the old tail stays behind |
| `Heartbeat.FreshFile` | src/heartbeat.c:66-122 | on a new file with room the bytes are "--restart--", a newline and the stamps |
| `Heartbeat.RecordsOfBytes` | src/heartbeat.c:59-62 | reading a file of records gives the records, whatever the buffer held |
| `Heartbeat.OverlayBytes` | src/heartbeat.c:104-122 | writing whole records over the start of a file of records acts record by record |
| `Heartbeat.ViewPut` | src/heartbeat.c:26-32 | storing and stepping the ring appends the record to the view and drops the oldest if full |
| `Heartbeat.Ring.Put` | src/heartbeat.c:26-32 | the ring shows the end of the history |
| `Heartbeat.Ring.Load` | src/heartbeat.c:51-62 | the old records enter the history in order, for any file: a short line is filled up with a NUL and what the line buffer held |
| `Heartbeat.Ring.Emit` | src/heartbeat.c:103-122 | exactly the last N records are written, oldest first |
| `Heartbeat.Monitor.constructor` | src/heartbeat.c:39-74 | old records, then the restart mark |
| `Heartbeat.Monitor.Write` | src/heartbeat.c:77-126 | the stamp enters the history and the end of the history goes over the start of the file; without a time nothing happens |
| `Heartbeat.Monitor.WriteAll` | src/heartbeat.c:77-126 | a session's file bytes are those of the session function |
| `Heartbeat.RunSession` | src/heartbeat.c:39-126 | opening a file of records, writing and closing leaves the bytes of the session function |
| `Heartbeat.RunSessions` | src/heartbeat.c:39-126 | the same through any number of closes and reopens: the file is the end of the history if it began with at most N records |
| `Checksum.CksumIsRfc1071` | src/net.c:41-63 | the loop with two folds computes the complement of the one's complement sum (section 1 of RFC 1071) |
| `Checksum.ComputeCksum` | src/net.c:41-63 | the loop computes it, and the 32-bit sum does not overflow for packets up to 65536 bytes |
| `Checksum.FoldRepresents` | src/net.c:58-61 | two folds suffice for every 31-bit sum |
| `Checksum.LongerPacketOverflows` | src/net.c:51-54 | one word more and the sum can overflow |
| `Checksum.ChecksumVerifies` | src/net.c:102-107 | storing the result in a zeroed aligned field makes a recomputation give 0 |
| `Checksum.OddTailPadded` | src/net.c:55-57 | an odd last byte counts as if padded with zero |
| `Checksum.ByteOrderIndependent` | src/net.c:41-63 | swapping the bytes of every word, an odd last byte padded with zero, swaps the bytes of the result (section 2(B) of RFC 1071) |
| `Config.FilesInTextOrder` | src/configfile.c:185-201 | folding the settings gives the accepted file values in text order, each with the number of the last change line after it and before the next accepted file line, or 0 |
| `Config.SpacingIgnored` | src/configfile.c:163-182 | any white space around key and value and any further '=' in the value leave the setting the same |
| `Config.NextFile` | src/read-conf.c:232-248 | position of the next accepted file line |
| `Config.LastChange` | src/configfile.c:186-200 | position of the last change line of a stretch, or none |
| `ConfigText.IgnoredExactly` | src/configfile.c:163-174 | a line says nothing if and only if after white space (space, tab, carriage return, newline, backspace) it ends, starts with # or has no = |
| `ConfigText.SettingExactly` | src/configfile.c:163-182 | otherwise the text before the first = is the key and what follows the value, both trimmed |
| `ConfigText.NumberSets` | src/read-conf.c:110-139 | a change value that starts with a decimal number in the range of int, signed or not, sets that number whatever follows |
| `ConfigText.NoNumber` | src/read-conf.c:110-139 | a value that starts otherwise sets 0 |
| `ConfigText.ConfigRoundTrip` | src/configfile.c:159-201 | writing any list of files with intervals as lines "file = ..." and "change = ..." and reading the text gives the list back |
| `ConfigText.OthersIgnored` | src/configfile.c:185-201 | lines that are ignored, have another key or an empty file name do not matter |
| `ConfigReader.StrStart` | src/read-conf.c:82-91 | the pointer ends at the text without leading white space |
| `ConfigReader.TrimWhite` | src/read-conf.c:61-75 | trailing white space becomes NULs and nothing else changes |
| `ConfigReader.SplitLine` | src/configfile.c:163-182 | the in-place cut and trims leave key and value of the line's setting |
| `ConfigReader.Reader.AddList` | src/read-conf.c:264-285 | the new node is linked to the end of the list and the chain stays acyclic |
| `ConfigReader.Reader.SetLast` | src/configfile.c:192-200 | the interval of the last node, found by walking the list |
| `ConfigReader.Reader.TakeSetting` | src/configfile.c:185-201 | what one setting does to the linked list of files |
| `ConfigReader.Reader.ReadConfig` | src/configfile.c:159-201 | the linked list after the whole text holds what can be read off the text |

## Left out

- Watchdog.RefreshSafety: bounds the poll of the test children between the two sleeps by two seconds, because with a poll as slow as other checks the device can starve; Watchdog.RefreshSafetyExactly has the exact condition for all bounds.
- Watchdog.Daemon.MainLoop: every refresh succeeds, without which no bound on the time between refreshes can hold (Watchdog.Daemon.Refreshing has a refresh that fails), and a call of do_shutdown ends the run; a sleep that a signal cuts short, the verbose ticker and the MINLOAD test of check_parameters are left out.
- Watchdog.Daemon.FaultEndsRun: for intervals of at most 4294 seconds, beyond which the argument of usleep wraps, and under the conditions of MainLoop; the nodes of the lists are distinct, as add_list makes them.
- Watchdog.Daemon.Repair: the parent side only; redirections and exec in the repair child are not modelled, nor is the repair binary's name, of which only presence matters.
- Watchdog.LongWait: the product tint * 1000000 wraps to 32 bits as usleep's argument does; overflow of the int product itself, which C leaves undefined, is not modelled apart from that.
- The repair counter and times are unbounded integers; only the cast of a time difference to int is cut to 32 bits.
- The checks themselves (load, memory, files, pid files, interfaces, temperature, the network exchange of check_net): their results are inputs.
- TestBinary.ProcessTable.CheckBin: the child side of the fork (redirection and exec) and the effect of the kill signal are not modelled; waitpid reports are inputs.
- TestBinary.ProcessTable.FreeProcess: a node that is let go is garbage, so freed memory is not modelled.
- TestRuns.NoResultLost: for runs without fork or malloc failure, because a failure does lose a result; TestVerdicts.ResultsInOrder and TestRuns.ResultKeptExactly say what remains true in other runs. All run properties assume that fork never returns a pid that is still in the table and that names are shorter than PATH_MAX.
- Mtab.Table.UpdateMtab: one writer (the lock file is not part of this model); the warnings about a changed device or type are left out.
- Umount.MountList.ReadMntEntChn: the fallback to /proc/mounts is left out.
- Umount.Unmounter.UmountOne: the read-only remount of busy file systems, which only the unused main of src/umount.c can switch on, and the NFS call, which does not touch the table, are left out; rewriting the table succeeds; getmntoptfile cannot be reached because every visited entry is in the cached list; result codes of del_loop are inputs.
- MountOptions.Parse: a NULL option string and the messages of quiet and loud (mount_mount_quiet, mount_verbose) are left out; the table has MS_SILENT, MS_MANDLOCK, MS_NOATIME and MS_NODIRATIME but not MS_NOSUB, as on Linux.
- MountGroups.BuildChains: a link holds the position of its fstab entry instead of a copy; the disk group that stat gives, type matching and the mounted check are inputs; NFS support is compiled in; forking and mounting the chains is left out.
- Heartbeat.Monitor.Write: the stamp's text is an input; failed writes are left out.
- Checksum.ComputeCksum: host byte order is a parameter, and the packet a sequence of bytes.
- ConfigReader.Reader.ReadConfig: the keys file and change; other keys do not touch the list of files and are ignored. Opening the file succeeds and the log messages are left out.
- Shutdown, interface teardown, memory locking, device identification, pid files, NFS RPC code, device probing and the unused main functions of the mount tools: operating-system plumbing.
