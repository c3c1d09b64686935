# ACENetwork: verified models

Dafny models of the self-contained algorithms of the ACENetwork library, with proofs of what they
promise and, where they do not keep a promise, of exactly when they do.

- **Log rotation** (`LogNames`, `LogSlots`, `LogRotation`, `LogMeaning`, `LogExcess`, `LogFiles`,
  `LogHistory`, `LogLimits`, `LogRuns`). A directory is a map from file names to contents. `LogRotation` specifies
  the backward walk over the sorted listing with its moving index, on file names; `LogFiles` is the
  same walk on a directory that is changed in place. `LogSlots` says what a rotation means without any
  names: everything below the highest gap moves up by one, or, when there are at least as many
  entries as the maximum, everything moves up and the last slot is dropped. `LogMeaning` proves that
  the walk does just that, also for a program name without the prefix. `LogExcess` says what becomes of
  logs whose numbers exceed the slots, and when one is lost on the way. `LogHistory` lifts it to whole runs. `LogLimits` and `LogRuns` determine
  exactly which program names and maxima preserve the logs in one call and over whole runs; above a
  maximum of one the condition is the same. Two results may surprise. None of the callers meets it: two pass the prefix
  itself as program name (`test_u/client_server/net_server.cpp:1390`,
  `test_u/client_server/net_server_wxui.cpp:83`), so the number is looked for one character too early,
  nothing is ever renumbered, and every start overwrites slot 1 (`PrefixCallerKeepsOneLog`); the third
  passes a name without the prefix (`test_u/file_server/file_server.cpp:1290`), so its log is deleted
  by the write test (`ForeignProgramLosesItsLog`), while the numbered logs of the net servers are
  rotated (`FileServerRotates`). And the rotation needs one-digit numbers because ten
  sorts before nine (`TwoDigitsLoseALog`, `TwoDigitsForget`), although the comment at
  `src/client_server/net_server_defines.h:27` allows seven digits.
- **Logical to physical interfaces** (`InterfaceRewriting`). A list is rewritten in place by append,
  erase and restart. The result is exactly a stable sort by chain length of the examined names,
  resolved. The first position is never looked at again after a restart, which decides when the
  loop ends and when its answer is right.
- **URL host names** (`Regex`, `UrlHost`). `Regex` is a backtracking matcher for the patterns in use,
  sound and complete with respect to the division of a text among capture groups; `UrlHost` shows
  that its greedy result is a left-to-right scan, says on characters which cut of a URL that is, and
  proves the laws of `URLToHostName`.
- **Address text** (`DottedDecimal`, `AddressText`, `Decimal`). The exact language of the
  dotted-decimal validator, and the round trip of socket addresses through their text.
- **Subnets** (`Words`, `Subnet`). 32-bit masks, byte order, the two forms of the adapter search and
  exactly when they select the same interface.
- **Connection manager** (`ConnectionManager`, `ConnectionCalls`, `ConnectionRegistration`,
  `ConnectionOrder`). The
  protocol between the threads that register, deregister, wait for and abort connections, as a state
  machine over all interleavings. An event is one stretch of code under the lock or one access outside
  of it; in particular the test of a connection's flag, the write of the flag and the change of the
  list are separate events. References and wake-ups are right whatever
  overlaps, and the limit unless it is lowered below the length of the list.
  Flags and list stay together if and only if no two registrations or deregistrations of one
  connection overlap (`SafeExactly`): nothing in the library prevents that, and each of the four kinds
  of overlap has a run that spoils it.
- **Parser support** (`SourcePosition`, `ParserStack`). Clamped 32-bit positions, locations over whole
  scanner runs, and the reverse-indexed stack with its slices.

Conventions. Directory listings, adapter lists, the adapter table, the table of assigned addresses, the
best route, the byte order of the host and the mapping of interface names are inputs. `COMMON_LOG_FILENAME_SUFFIX` belongs to a companion library and
is taken to be `.log`. The doubled separator at
`src/client_server/net_server_common_tools.cpp:274-280` names the same file as a single one. Vector
iterators are positions. `Pow2(k)` stands for `1 << k`. The directories of the log models contain
only file names; a rename replaces an existing target, and creating a file that exists succeeds (the
bodies of these operations belong to other libraries). The parser of the base
library behind `stringToIPAddress` is any function that reads back what the printer of that library
prints. Its tests for the any and the loopback address compare with 0 and with the network 127/8. A
registration is asked for by code that holds a reference to the connection until it returns,
and the assertion at `src/net_connection_base.inl:130` ends a run that violates it; whatever a caller
reads from the flag before it asks for a deregistration only decides whether it asks.

## Model

| member | source | states |
|---|---|---|
| LogNames.OneDigitOrder | src/client_server/net_server_common_tools.cpp:62-70 | for one-digit numbers the alphabetical order of log names is the numeric order |
| LogNames.PrecedesExactly | src/client_server/net_server_common_tools.cpp:62-70 | the order of the listing is that of the first different character |
| LogNames.CurrentIsSelected | src/client_server/net_server_common_tools.cpp:45-60 | the listing shows the current log exactly if the program name has the prefix |
| LogNames.TwoDigitOrderFails | src/client_server/net_server_common_tools.cpp:62-70 | log ten sorts before log nine |
| LogNames.NumberOfNumberedName | src/client_server/net_server_common_tools.cpp:192-195 | reading the number of a name the rotation printed gives that number, for names whose program part is one character longer than the prefix |
| LogNames.CurrentIsNotNumbered | src/client_server/net_server_common_tools.cpp:177-186 | the current log is never taken for a numbered one |
| Decimal.ScanPrinted | src/client_server/net_server_common_tools.cpp:168-195 | scanning undoes printing for every number, up to the width of the variable |
| Decimal.ScanReads | src/client_server/net_server_common_tools.cpp:192-203 | blanks are skipped, one sign is read, then the digits; a minus sign negates modulo 2^32, and without a digit there is no number |
| Decimal.PrintedDigits | src/client_server/net_server_common_tools.cpp:247-251 | the digits 0 to 9, the most significant one first |
| LogSlots.RotateKeepsContents | src/client_server/net_server_common_tools.cpp:213-271 | a rotation keeps all contents in their age order; a crowded directory gives up the content of its last slot and no other |
| LogSlots.RotateMovesByAtMostOne | src/client_server/net_server_common_tools.cpp:213-271 | every surviving log n stays n or becomes n + 1 |
| LogSlots.RepeatedRotationPacks | src/client_server/net_server_common_tools.cpp:213-271 | repeated rotation packs the logs towards the last slot, in order, and reaches a fixed point |
| LogFiles.LogDirectory.VisitEntry | src/client_server/net_server_common_tools.cpp:177-271 | one iteration of the walk, for every file name and every program name: the current log is noticed, a name without a number is passed over, a log with the number of the last slot or a larger one is deleted from a crowded directory, any other is renamed to the next number or to the index if that is lower, and what the new index is |
| LogFiles.LogDirectory.GetNextLogFileName | src/client_server/net_server_common_tools.cpp:138-323 | no rename misses its source in any directory, and the returned name is free; in an orderly directory the slots are rotated, whether the program name has the prefix or not, the listed current log becomes number 1 and nothing else changes; logs numbered above the slots are given up in a crowded directory and otherwise taken into the highest slots if these are free |
| LogMeaning.LargestIsLast | src/client_server/net_server_common_tools.cpp:173-175 | the backward walk meets the numbers in descending order |
| LogMeaning.PlaceCases | src/client_server/net_server_common_tools.cpp:213-271 | each remaining number is at most the index; the log visited is evicted from the last slot, stays in a packed top, or moves up by one into a free slot |
| LogMeaning.NoRenameCollides | src/client_server/net_server_common_tools.cpp:242-302 | no rename of a whole call lands on another log: at every point of the walk the target is the log itself or a free name, and slot 1 is free for the current log in the end |
| LogMeaning.VisitMoves | src/client_server/net_server_common_tools.cpp:213-271 | an iteration renames its entry to that target, leaves the files alone, or deletes the last slot of a crowded directory |
| LogMeaning.WalkKeepsInvariant | src/client_server/net_server_common_tools.cpp:173-272 | the loop invariant, at every point of the walk: slots above the index are final, those below are as they were or vacated, other files are untouched |
| LogMeaning.SlotOneIsFree | src/client_server/net_server_common_tools.cpp:277-297 | by counting, slot 1 is free when the current log is moved there |
| LogMeaning.RotationShiftsSlots | src/client_server/net_server_common_tools.cpp:172-302 | the meaning of one call for every directory with distinct one-digit numbers, gaps and foreign files allowed, whatever the maximum and whether the program name has the prefix or not |
| LogExcess.ExcessIsTaken | src/client_server/net_server_common_tools.cpp:209-257 | numbers above the slots: a crowded directory deletes those logs and rotates the rest; otherwise the largest takes the highest slot, the next one the slot below, and the row so filled is rotated, as long as these slots are free; all other files are kept |
| LogExcess.ExcessKeepsLogsExactly | src/client_server/net_server_common_tools.cpp:209-257 | outside a crowded directory no log is lost if and only if as many of the highest slots are free as there are numbers above the slots |
| LogHistory.RotationPrepends | src/client_server/net_server_common_tools.cpp:172-302 | a rotation prepends the current log to the history and truncates it to the slots |
| LogHistory.BoundedHistory | src/client_server/net_server_common_tools.cpp:172-323 | with a program name one character longer than the prefix and a maximum of ten at most, over any number of sessions slot k holds the log of the k-th session before the last one, no other log is kept, and other files are untouched; with a larger maximum it is so for eleven sessions |
| LogLimits.ListingExists | src/client_server/net_server_common_tools.cpp:143-145 | every directory has a sorted listing of the selected names |
| LogLimits.IdleRunPacks | src/client_server/net_server_common_tools.cpp:213-271 | repeated calls without a current log delete nothing and pack the logs until a fixed point |
| LogLimits.PreservingExactly | src/client_server/net_server_common_tools.cpp:172-323 | for every maximum the logs of every tidy directory are preserved if and only if the program name and the maximum are suitable |
| LogLimits.ForeignProgramLosesItsLog | src/client_server/net_server_common_tools.cpp:305-319 | a program whose name lacks the prefix has its log deleted by the write test, as creating a file that exists succeeds |
| LogLimits.FileServerRotates | test_u/file_server/file_server.cpp:1290-1291 | the file server rotates the numbered logs of the net servers, leaves their current log alone, and deletes its own |
| LogLimits.MisalignedProgramLosesALog | src/client_server/net_server_common_tools.cpp:192-203 | with any other length of the program name the log of slot 1 or the current log is lost |
| LogLimits.TwoDigitsLoseALog | src/client_server/net_server_common_tools.cpp:62-70 | with numbers of two digits a log is renamed on top of another |
| LogLimits.PrefixCallerOverwritesSlotOne | test_u/client_server/net_server.cpp:1390-1391 | called with the prefix as program name, the call only moves the current log to slot 1, over what was there |
| LogLimits.PrefixCallerKeepsOneLog | test_u/client_server/net_server.cpp:1390-1391 | over any number of sessions such a caller keeps one old log |
| LogRuns.KeepsHistoryExactly | src/client_server/net_server_common_tools.cpp:172-323 | with a maximum of two and more the bounded history holds over every run that starts without a log if and only if the program name and the maximum are suitable; with a maximum of one if and only if they are not, since whoever loses no log keeps one too many |
| LogRuns.MisalignedCallerKeepsOneLog | src/client_server/net_server_common_tools.cpp:192-203 | over every run a program name with the prefix but of another length keeps one old log |
| LogRuns.TwoDigitsForget | src/client_server/net_server_common_tools.cpp:213-257 | with a maximum above ten the twelfth session loses a log that had to be kept |
| InterfaceRewriting.Rewrite | src/net_os_tools.cpp:1079-1090 | the loop ends with the head followed by the settled list of the examined names |
| InterfaceRewriting.IsManaged | src/net_os_tools.cpp:1079-1098 | the answer is membership in that list |
| InterfaceRewriting.SettleQueued | src/net_os_tools.cpp:1087-1089 | replacing a name and queueing its image does not change the settled list |
| InterfaceRewriting.StepKeepsInvariant | src/net_os_tools.cpp:1079-1090 | every iteration keeps the settled list and makes progress |
| InterfaceRewriting.StepConserves | src/net_os_tools.cpp:1087-1089 | every iteration keeps the length and the multiset of resolved names |
| InterfaceRewriting.SettleResolves | src/net_os_tools.cpp:1079-1090 | the settled list holds exactly the resolved names, with their multiplicities, and no key of the map |
| InterfaceRewriting.EndsExactly | src/net_os_tools.cpp:1079-1090 | the loop ends if and only if the chain of every examined name does |
| InterfaceRewriting.SelfMappedNeverEnds | src/net_os_tools.cpp:1079-1090 | a name mapped to itself behind the first position keeps the loop going forever |
| InterfaceRewriting.AnswersExactly | src/net_os_tools.cpp:1079-1098 | the answer is right for every interface if and only if the name left at the first position is physical |
| InterfaceRewriting.SecondNameIsMissed | src/net_os_tools.cpp:1079-1098 | with two logical names at the front, the interface of the second is not found |
| Regex.MatchesExactly | src/net_common_tools.cpp:4558-4561 | the backtracking matcher finds a match exactly when the text can be divided among the groups, and returns such a division |
| UrlHost.MatchIsScan | src/net_common_tools.cpp:4554-4561 | for every string the backtracking match is the deterministic scan, including the fallback of the scheme to the host |
| UrlHost.AcceptsExactly | src/net_common_tools.cpp:4554-4567 | a URL is accepted exactly when it decomposes into an optional scheme (letters, then "://"), a host without slash and colon, an optional port (a colon, then one to five digits) and a rest without line terminators |
| UrlHost.PreferredCutExactly | src/net_common_tools.cpp:4554-4567 | a URL is accepted exactly when it has a cut in which the host ends at a slash, a colon or the end, letters before "://" are a scheme if a host follows, and no digit of a port is left to the rest |
| UrlHost.PreferredCutIsUnique | src/net_common_tools.cpp:4558-4561 | there is at most one such cut |
| UrlHost.HostNameOfCuts | src/net_common_tools.cpp:4578-4586 | for every setting of the two flags the result is the scheme, if kept, the host and the port, if kept, of that cut |
| UrlHost.HostNameIsPrefix | src/net_common_tools.cpp:4578-4586 | with scheme and port kept the result is a prefix of the URL; whatever is kept, it is empty exactly when the URL has no such cut |
| UrlHost.HostNameTwice | src/net_common_tools.cpp:4546-4587 | taking the host name of a host name keeps what both settings keep: idempotence and the host of the full result |
| DottedDecimal.MatchIPAddress | src/net_common_tools.cpp:388-441 | accepted are exactly the texts of four fields, each empty or a canonical decimal up to 255 |
| DottedDecimal.AddressIsScanned | src/net_common_tools.cpp:392-410 | the backtracking match of the four groups never has to give a digit back |
| DottedDecimal.Validate | src/net_common_tools.cpp:414-440 | the tests on the captured numbers accept exactly canonical decimals up to 255 in all groups |
| AddressText.AcceptedExactlyPrinted | src/net_common_tools.cpp:388-441 | without empty fields the accepted texts are exactly the printed addresses, each of one address |
| AddressText.AddressToStringIs | src/net_common_tools.cpp:340-385 | address and port are printed, the port only if it is asked for and not 0 |
| AddressText.IPAddressToStringIs | src/net_common_tools.cpp:340-383 | the overload for network byte order prints the four octets in the order they have in memory, then the port of its two octets unless it is 0, on hosts of either byte order |
| AddressText.PortOctets | src/net_common_tools.cpp:349-352 | the first of the two octets of a port is the high one |
| AddressText.ReadsCanonicalTexts | src/net_common_tools.cpp:722-747 | whatever else the parser of the base library reads: a dotted address gives the address with port 0, with a colon and a decimal port it gives both |
| AddressText.StringToIPAddressIs | src/net_common_tools.cpp:722-747 | the same for the parser of canonical dotted texts only, with the default address for what it rejects |
| AddressText.ParsesExactlyPrinted | src/net_common_tools.cpp:388-441 | an accepted text without empty fields is the printed text of exactly the address made of its fields |
| AddressText.TextRoundTrip | src/net_common_tools.cpp:722-747 | parsing undoes printing for every address, port and byte order and every parser that reads what is printed; with the address only, the port comes back as 0 |
| AddressText.TextInjective | src/net_common_tools.h:217 | different addresses have different texts |
| Words.OctetsInOrder | src/net_common_tools.cpp:3147-3150 | brought to host byte order, the octets a.b.c.d in memory have the weights 2^24, 2^16, 2^8 and 1, on hosts of either byte order |
| Words.AndBits | src/net_common_tools.cpp:3147-3150 | the conjunction is set in exactly the bits set in both words |
| Words.SwapAnd | src/net_common_tools.cpp:3147-3150 | conjunction commutes with the byte swap |
| Subnet.MaskValue | src/net_common_tools.cpp:3131 | the mask expression is 2^32 - 2^(32-p), p leading ones |
| Subnet.AgreeUnderMask | src/net_common_tools.cpp:3147-3150 | addresses agree under the mask exactly when their quotients by 2^(32-p) agree |
| Subnet.ShorterPrefixAgrees | src/net_common_tools.cpp:3130-3150 | agreement under a longer prefix implies agreement under every shorter one |
| Subnet.CoversByOctets | src/net_common_tools.cpp:3130-3150 | two addresses a.b.c.d and e.f.g.h lie in one subnet exactly when the numbers their octets form in this order agree in the leading bits of the prefix |
| Subnet.CoversWholeOctets | src/net_common_tools.cpp:3130-3150 | for the prefixes 8, 16, 24 and 32 exactly when the first one, two, three or all octets agree |
| Subnet.SearchAdapters | src/net_common_tools.cpp:3106-3165 | the host-order search returns the first adapter whose first IPv4 address has the asked one in its subnet, and none exactly when there is none |
| Subnet.SearchInterfaceAddresses | src/net_common_tools.cpp:3213-3242 | the network-order search returns the name of the first entry that agrees under its netmask |
| Subnet.FormsAgree | src/net_common_tools.cpp:3236-3238 | comparing swapped addresses under the mask equals comparing raw addresses under the raw netmask |
| Subnet.SearchesAgreeExactly | src/net_common_tools.cpp:3047-3254 | with distinct names both searches give the same name if and only if the first adapter with any agreeing address, if there is one, agrees with its first IPv4 address |
| Subnet.SearchesAgree | src/net_common_tools.cpp:3047-3254 | so with one IPv4 address per adapter both select the same interface |
| Subnet.SecondAddressIsMissed | src/net_common_tools.cpp:3055-3118 | on a little-endian host, asked for the second address assigned to an adapter, only the network-order search finds the adapter |
| Subnet.IsLocalAddress | src/net_common_tools.cpp:444-716 | an address is local exactly when it is assigned, or stands for any or for the loopback |
| Subnet.AnyOrLoopbackByOctets | src/net_common_tools.cpp:449-451 | 0.0.0.0 and 127.b.c.d are local in every table |
| Subnet.IPAddressToInterface | src/net_common_tools.cpp:3047-3190 | for a local address the title of the first adapter on link, for any other the title of the interface of the best route: its friendly name if its name is a GUID, its name otherwise |
| Subnet.BuildsAgreeLocally | src/net_common_tools.cpp:3047-3254 | for a local address both builds of the function return the same name if and only if the first adapter with any agreeing address, if there is one, agrees with its first IPv4 address; for an address assigned to an adapter there is one |
| Subnet.BuildsAgreeRemotely | src/net_common_tools.cpp:3047-3254 | for any other address if and only if the best route leads through the first adapter with any agreeing address, or, if there is none, through no known one |
| Subnet.IndexToInterface | src/net_common_tools.cpp:2172-2237 | the friendly name of the first entry with the index if its name is a GUID, its name otherwise, or the empty name if there is no such entry |
| Subnet.InterfaceToIndex | src/net_common_tools.cpp:2097-2171 | the index of the first entry whose title is the name or at which the carried GUID is the asked one, or 0 |
| Subnet.TitleLeadsBack | src/net_common_tools.cpp:2097-2237 | in a table of GUIDs with different friendly names the look-up by name undoes the look-up by index |
| Subnet.GuidIsFound | src/net_common_tools.cpp:2144-2161 | a GUID that is asked for finds the first entry that carries it, wherever other entries stand |
| Subnet.LabelSearchExactly | src/net_common_tools.cpp:2107-2161 | a name that is no GUID is looked up by label alone if and only if the first entry carries a GUID or that label |
| SourcePosition.Position.Lines | 3rd_party/bison/position.hh:82-90 | any move by lines leads to column 1 and adds to the line, at least to 1; a move by 0 changes nothing |
| SourcePosition.AddIs | 3rd_party/bison/position.hh:109-114 | the sum modulo 2^32, and 1 where it is less |
| SourcePosition.AddIsClampedExactly | 3rd_party/bison/position.hh:109-114 | the wrapping sum is the sum clamped at 1 if and only if it does not overflow |
| SourcePosition.AddThenSubtract | 3rd_party/bison/position.hh:117-144 | adding and subtracting a width is the identity if and only if the column does not overflow |
| SourcePosition.SubtractThenAdd | 3rd_party/bison/position.hh:117-144 | subtracting and adding a width is the identity if and only if the width is below the column |
| SourcePosition.RangesTile | 3rd_party/bison/location.hh:88-126 | over every forward run positions stay valid, ranges stay ordered and tile the text, and join to the whole |
| ParserStack.Stack.Push | 3rd_party/bison/stack.hh:81-87 | the element becomes the first from the top |
| ParserStack.Stack.Pop | 3rd_party/bison/stack.hh:89-95 | the topmost elements are gone, the rest is unchanged |
| ParserStack.VectorRefinesList | 3rd_party/bison/stack.hh:64-95 | every run of pushes and pops on the vector is the run on a list, read from the end |
| ParserStack.SliceShowsPushed | 3rd_party/bison/stack.hh:133-151 | after n pushes a slice of range n shows the i-th pushed element at index i, and popping n restores the earlier stack |
| ConnectionManager.EventKeepsInvariant | src/net_connection_manager.inl:106-842 | every event keeps the account of references, and that a blocked thread has something to wait for |
| ConnectionManager.EventKeepsLimit | src/net_connection_manager.inl:106-124 | an event keeps the limit if and only if it sets no maximum below the length of the list; beyond the limit no event makes the list longer |
| ConnectionManager.RunKeepsLimitExactly | src/net_connection_manager.inl:397-399 | for every single run: the limit is kept at every moment if and only if every maximum that is set fits the list |
| ConnectionManager.RunApproachesLimit | src/net_connection_manager.inl:397-399 | until the next change of the maximum the list grows to it at most, or not at all if it is longer already |
| ConnectionManager.RunsAreSafe | src/net_connection_manager.inl:106-842 | over every run: connections that are listed, being registered or about to be closed are alive; nobody stays blocked when the list is empty; the limit is kept unless it is set below the length of the list |
| ConnectionManager.NothingLeaks | src/net_connection_manager.inl:402-467 | with nothing listed, being registered or to close, all references are those of other code |
| ConnectionManager.StoppedOnlyShrinks | src/net_connection_manager.inl:397-399 | while the manager is stopped the list only loses elements |
| ConnectionManager.WaitersGetOut | src/net_connection_manager.inl:473-745 | in every run during which the list stays empty, a thread that waits or aborts can always take its next step, and is out as soon as it has taken as many as it needs |
| ConnectionCalls.StopThenWaitDrains | src/net_connection_manager.inl:566-745 | over every run, from the calls on: when after a stop a thread has begun to wait, or to abort with waiting, and has returned, no connection is listed until the next start |
| ConnectionCalls.CallReturnsAtEmpty | src/net_connection_manager.inl:636-745 | over every run: a wait or a waiting abort returns only at a moment when the list is empty |
| ConnectionCalls.BlockedUntilEmptied | src/net_connection_manager.inl:731-744 | a waiting thread stays blocked as long as nothing is taken off the list |
| ConnectionCalls.CheckDecides | src/net_connection_manager.inl:731-744 | the check of a wait blocks the thread if anything is listed and returns otherwise |
| ConnectionCalls.LastSwitchDecides | src/net_connection_manager.inl:560-592 | after every run the manager is active exactly if the last start or stop was a start, or there was none and it was active before |
| ConnectionCalls.InsertExactly | src/net_connection_manager.inl:396-424 | a registration is accepted exactly if the manager is active and the list is below the maximum; it is appended, with one reference |
| ConnectionCalls.NoRegistrationAfterStop | src/net_connection_manager.inl:397-399 | over every run: after a stop every registration is refused until the next start |
| ConnectionCalls.RemoveExactly | src/net_connection_manager.inl:440-481 | a deregistration takes the first occurrence off the list and gives back one reference; the last one wakes every blocked thread, and one that finds nothing changes nothing |
| ConnectionCalls.AbortClosesListed | src/net_connection_manager.inl:660-700 | over every run: an abort takes a reference to every listed connection and closes exactly these, each as often as it was listed, in their order |
| ConnectionCalls.ClosingEnds | src/net_connection_manager.inl:706-710 | then it gathers again if it waits, and returns otherwise |
| ConnectionCalls.StepsAreForced | src/net_connection_manager.inl:382-842 | a thread in the middle of something has exactly one step to take, a blocked one none |
| ConnectionCalls.FlagExactly | src/net_connection_base.inl:125-226 | which events set and clear the flag of a connection |
| ConnectionCalls.ExternalExactly | src/net_connection_manager.inl:238-268 | which events give a reference to other code or take it back; an index gives one to the connection at that position |
| ConnectionRegistration.EventKeepsList | src/net_connection_base.inl:125-219 | an event keeps flags and list together, up to the activities under way, if and only if it writes no flag that was changed since it was tested |
| ConnectionRegistration.RunKeepsListExactly | src/net_connection_base.inl:125-219 | for every single run: flags and list agree at every moment if and only if no write of a flag is overtaken |
| ConnectionRegistration.DeregistrationFinds | src/net_connection_manager.inl:438-463 | as long as they agree, a deregistration finds its connection on the list |
| ConnectionRegistration.SafeExactly | src/net_connection_base.inl:125-226 | every run is sound (no connection twice on the list, those registered or being deregistered are on it, a deregistration that does nothing leaves nothing behind) if and only if no two activities of one connection overlap |
| ConnectionRegistration.RegistrationsOverlap | src/net_connection_base.inl:130-137 | two overlapping registrations put the connection on the list twice |
| ConnectionRegistration.DeregistrationComesEarly | src/net_streamconnection_base.inl:274-286 | a deregistration between the insertion and the store of the flag does nothing, and the connection stays on the list |
| ConnectionRegistration.RegistrationComesEarly | src/net_connection_base.inl:198-222 | a registration between the clearing of the flag and the removal puts the connection on the list a second time |
| ConnectionRegistration.DeregistrationsOverlap | src/net_connection_manager.inl:453-462 | of two overlapping deregistrations the second finds nothing on the list and a deleted connection |
| ConnectionRegistration.StopThenWaitUnregisters | src/net_connection_manager.inl:566-745 | without overlaps, over every run: when after a stop a thread has begun to wait, or to abort with waiting, and has returned, no connection is registered or being deregistered until the next start |
| ConnectionOrder.RunKeepsOrder | src/net_connection_manager.inl:382-467 | over every run the list stays in the order of registration |
| ConnectionOrder.AbortsFollowRegistration | src/net_connection_manager.inl:752-842 | over every run from an empty list, the two aborts take a reference to the oldest and to the youngest registration still listed, go on to close it, and change nothing else |

## Left out

- Failures of the operating system: a rename, deletion or creation that fails although the file is there, and the fallback over log directories that follows.
- Names that differ only in the spelling of their number (such as a leading zero): the directories of the main log results are orderly, which excludes them; the method itself is specified for them too.
- LogExcess.ExcessIsTaken: numbers above the slots have one digit here; several digits upset the order of the listing (`TwoDigitOrderFails`), and one iteration is specified for them too (`VisitEntry`).
- Numbers of eight digits and more: the conversion is modelled modulo 2^32, where the C library leaves the result open.
- A maximum of one file has no slots: `PreservingExactly` and `KeepsHistoryExactly` cover it, the results about the rotation of slots start at two.
- Iterators after `push_back` and `erase` on a vector: they are positions here, so that reallocation is not modelled.
- The stanza patterns of `isIfUpDownManagingInterface` and `networkManagerManageInterface`: lists and mappings are inputs.
- Subnet.Mask: defined for prefix lengths 2 to 32, because for 0 and 1 the shift or the subtraction leaves the signed range in the source.
- Subnet.IPAddressToInterface: failures of the calls that deliver the adapter list and the address table; the best route is an input.
- AddressText.StringToAddr: names that are resolved by DNS or by the service table, and numeric forms other than the canonical one, are not modelled; what the parser of the base library makes of them is left open.
- AddressText.StringToIPAddressIs: it speaks of the parser of canonical texts; for the parser of the base library only what `ReadsCanonicalTexts` and `TextRoundTrip` say is claimed.
- SourcePosition.Position.Minus: the width INT_MIN is excluded, because its negation leaves the range of `int`.
- ParserStack.Stack.Push: the element is copied; that `move` empties its argument is not modelled.
- ConnectionManager.Enabled: builds without assertions, in which a connection that is registered may be asked to register again; failures of `insert_tail` and of the lock, exceptions of connections, statistics, and look-ups by address or beyond the end of the list, whose result depends on the list iterator of the base library.
- `LinkLayerAddressToString` and the tables of enumeration names: they would only add easy members.
- Protocol parsers, sessions, socket handlers, connectors, listeners and the WLAN monitor.
