# bctoolbox: a verified model of its own algorithms

bctoolbox is a C and C++ utility library. Much of it wraps other libraries; this project models the
algorithms that are written in bctoolbox itself and proves what they are for. Each component is one module:

- `KeyWrap`: AES key wrap with padding (RFC 5649). AES is an arbitrary permutation of 16-octet blocks. The
  buffers A, B, R and input are arrays updated in place; the 6·n-step network is a recursive function whose
  reverse is proved inverse to it for every n.
- `KeyWrapLayout`: which octet meets which, for the same functions.
- `Scheduler`: the parallel test suite runner. One turn of its loop is a function of the state and of what fork
  and waitpid answer; runs are infinite sequences of legal turns. The class `Runner` is the loop.
- `PidReuse`: the same loop when fork hands out pids of finished suites again.
- `Options`, `Strings`, `Text`, `Fold`: optional values, substring search, split and replace, line folding and unfolding.
- `FoldOctets`: folding and unfolding octet by octet.
- `List`: the doubly linked list, on the heap, with a ghost flag per node that says it has not been freed.
- `AddrInfo`: relinking addrinfo chains through that list, and freeing them run by run with two allocators.
- `LogTags`: run-length compressed tag stacks and the cached view of their tops.
- `LogRotation`: the rotating log file, over a directory of files.
- `LogQueue`: deferred logging as a state machine in which storing threads and the log thread interleave, and
  the class `Logger` whose methods are shown to be runs of that machine.
- `LogFlushers`: the same queue with any number of flushing threads.
- `Escape`: percent escaping with a growing output buffer.
- `ParamString`, `ParamLists`: last-binding lookup in `name=value;...` strings.

`dafny verify dfyconfig.toml` checks everything.

Where the code and its documentation differ, the model follows the code:

- Unwrapping a key rejects every length that is a multiple of 8, which section 3 of RFC 5649 allows; it ignores
  the pad octets and any octets after the last whole block. `UnwrapOfWrap`, `AnyPaddingUnwraps` and
  `TrailingOctetsIgnored` state this exactly.
- Unfolding drops an end of line followed by any C whitespace, so a blank line is damaged (`BlankLineLost`);
  `UnfoldUndoesFold` gives the exact condition for the round trip.
- A flush does not apply the handlers' domain filter, direct output does: a handler keeps to its domain exactly
  when nothing else is stored (`DomainRespected`).
- Pasting log tags into a context that has tags keeps the old ones underneath, although the message says they
  are lost (`PasteLosesNothing`); `PasteShowsCopy` says when the copied tags are what is shown.
- With `max_size` 0 a reopen request on a non-empty log file rotates it (`NoRotationAtLimitZero`).
- A pid handed out twice in a run is booked on the first suite that had it (`ReusedPidExactly`), which can keep the
  loop from ending (`ReusedPidHangs`); `ReuseEndsExactly` says for which registries. A negative declared weight
  defeats the limit (`LimitSafeExactly`); a limit below 1 launches nothing (`RunEndsExactly`).
- Flushes from several threads can swap messages (`OverlapSwaps`); `FifoExactly` says when they do not.
- A parameter name that holds a `=`, or begins again behind one of its own separators, can be misread
  (`LookupExactly`).
- Removing from a list with a free function hands a pointer over twice when two matching positions hold it
  (`FreedOnce`).

## Model

| member | source | states |
|---|---|---|
| `KeyWrap.AesKeyWrap` | src/crypto/mbedtls.cc:280-375 | the buffer code yields the wrapping of the plaintext, or the invalid-input error for an unknown AES id |
| `KeyWrap.AesKeyUnwrap` | src/crypto/mbedtls.cc:377-470 | the buffer code yields the unwrapping, with its two error results |
| `KeyWrap.WrapRounds` | src/crypto/mbedtls.cc:347-365 | the nested loops run six rounds of the network on A and R in place |
| `KeyWrap.UnwrapRounds` | src/crypto/mbedtls.cc:427-445 | the reversed loops run the six rounds backwards in place |
| `KeyWrap.WrapBlock` | src/crypto/mbedtls.cc:349-363 | one iteration is one step of the network on block i with counter t |
| `KeyWrap.UnwrapBlock` | src/crypto/mbedtls.cc:429-443 | one iteration undoes the step on block i with counter t |
| `KeyWrap.CountersAreConsecutive` | src/crypto/mbedtls.cc:347-357 | the counters of the six rounds are 1, 2, ..., 6n in step order |
| `KeyWrap.OpenRegisters` | src/crypto/mbedtls.cc:382-446 | recovers A and R from the ciphertext, by the single-block path for n = 1 |
| `KeyWrap.AppendPadding` | src/crypto/mbedtls.cc:293-300 | R holds the plaintext padded with zeros to a multiple of 8 |
| `KeyWrap.InitialRegister` | src/crypto/mbedtls.cc:304-311 | A is the magic constant and the 32-bit length, big endian |
| `KeyWrap.UnwrapStepInvertsWrapStep` | src/crypto/mbedtls.cc:347-444 | an unwrap step undoes the wrap step with the same block and counter |
| `KeyWrap.WrapStepInvertsUnwrapStep` | src/crypto/mbedtls.cc:347-444 | and the other way round |
| `KeyWrap.BackwardInvertsForward` | src/crypto/mbedtls.cc:347-445 | the reversed network undoes the network for every number of blocks and rounds and every permutation |
| `KeyWrap.ForwardInvertsBackward` | src/crypto/mbedtls.cc:347-445 | the network undoes the reversed network |
| `KeyWrap.OpenInvertsSeal` | src/crypto/mbedtls.cc:331-446 | recovering the registers undoes sealing them, for every n including 0 and 1 |
| `KeyWrap.SealInvertsOpen` | src/crypto/mbedtls.cc:331-446 | sealing recovered registers gives the ciphertext back when it is whole blocks |
| `KeyWrap.InitialValueDecodes` | src/crypto/mbedtls.cc:309-311 | reading the length octets gives the length modulo 2^32 |
| `KeyWrap.InitialValueUnique` | src/crypto/mbedtls.cc:451-458 | a register with the magic constant is the initial value of the length it encodes |
| `KeyWrap.LengthAccepted` | src/crypto/mbedtls.cc:455-462 | the decoded length passes the window test exactly for lengths below 2^31 that are no multiple of 8 |
| `KeyWrap.AnyPaddingUnwraps` | src/crypto/mbedtls.cc:448-469 | whatever the pad octets, unwrapping yields the text or the error by its length alone |
| `KeyWrap.UnwrapOfWrap` | src/crypto/mbedtls.cc:280-470 | unwrap of wrap returns p if and only if the length is below 2^31 and no multiple of 8, else the error |
| `KeyWrap.WrapOfUnwrap` | src/crypto/mbedtls.cc:293-470 | an accepted ciphertext is the wrapping of its result if and only if it is whole blocks with zero padding |
| `KeyWrap.TrailingOctetsIgnored` | src/crypto/mbedtls.cc:382-390 | octets after the last whole block do not change the result |
| `KeyWrapLayout.XorIsExclusive` | src/crypto/mbedtls.cc:357-361 | a bit of the octet is set if and only if exactly one of the two bits is |
| `KeyWrapLayout.CounterBigEndian` | src/crypto/mbedtls.cc:357-361 | xored into a zero register, t can be read off it, big endian, modulo 2^64 |
| `KeyWrapLayout.CounterOctets` | src/crypto/mbedtls.cc:357-361 | the octets of any register meet the octets of t in that order |
| `KeyWrapLayout.InitialValueOctets` | src/crypto/mbedtls.cc:304-311 | A6 59 59 A6, then the length in 32 bits, big endian |
| `KeyWrapLayout.WrapHalfwise` | src/crypto/mbedtls.cc:347-374 | for a cipher that treats the halves of a block apart: its second half has been applied six times to each block of the padded text, its first half and the numbers 1 to 6n to the initial value, which stands in front |
| `KeyWrapLayout.WrapByIdentity` | src/crypto/mbedtls.cc:347-374 | under the identity the padded text stays, behind the initial value with 1, ..., 6n xored into it |
| `KeyWrapLayout.WrapOfShort` | src/crypto/mbedtls.cc:331-346 | up to eight octets are encrypted in one block behind the initial value; none leaves that alone |
| `KeyWrapLayout.AcceptedExactly` | src/crypto/mbedtls.cc:448-469 | of whole-block ciphertexts, unwrapping accepts exactly those that wrap a text of supported length, whatever its pad octets, and yields that text |
| `Scheduler.MaxParallelProcesses` | src/tester.c:662-665 | without a setting half the registered suites, rounded down, and one; any other setting as it is; at least 1 exactly when the setting is not negative |
| `Scheduler.Runner.CpuWeight` | src/tester.c:847-859 | never 0; between 1 and the limit exactly when the declared weight is not negative and the limit at least 1; a declared weight in that range is taken as it is, none or one above the limit counts 1 |
| `Scheduler.Runner.LookupSuite` | src/tester.c:834-845 | the first entry with the pid |
| `Scheduler.Runner.TryLaunch` | src/tester.c:971-996 | admission, and the abort when fork fails |
| `Scheduler.Runner.TryReap` | src/tester.c:997-1029 | booking of a finished child, and the abort when waitpid fails |
| `Scheduler.Runner.OneTurn` | src/tester.c:970-1029 | one turn of the loop is launch then reap, or an abort with -1 |
| `Scheduler.Runner.RunParallel` | src/tester.c:949-1071 | the loop is left after the turn in which the last suite is finished, with the verdict on count, timeout and threshold, or with -1 when fork or waitpid fails first |
| `Scheduler.FirstIndex` | src/tester.c:837-841 | the index found has the pid and no earlier one has |
| `Scheduler.LookupIsExact` | src/tester.c:834-845 | with distinct pids the entry found is the child's own |
| `Scheduler.TurnKeepsInv` | src/tester.c:970-1029 | every legal turn keeps the accounting invariant |
| `Scheduler.TurnKeepsBound` | src/tester.c:976-1008 | with declared weights of at least 0 a turn keeps the running weight within the limit |
| `Scheduler.RunSafe` | src/tester.c:970-1052 | in every reachable state running + finished = launched and the weight is that of the unfinished suites; without negative declared weights and with a limit of at least 0 it is within the limit |
| `Scheduler.NegativeWeightExceedsLimit` | src/tester.c:847-859 | a negative weight anywhere in any registry: with suites of weight 1 registered behind, a legal run exceeds the limit |
| `Scheduler.LimitSafeExactly` | src/tester.c:847-1008 | whatever is registered behind it, a registry keeps every run within the limit if and only if it declares no negative weight |
| `Scheduler.TraceInv` | src/tester.c:970-1029 | every state of every finite run satisfies the accounting invariant |
| `Scheduler.TraceSafe` | src/tester.c:970-1029 | without negative declared weights and with a limit of at least 0, every state of every finite run is within the limit |
| `Scheduler.LaunchWhenNothingRuns` | src/tester.c:971-976 | with nothing running the next suite is admitted exactly when its weight fits, that is when the limit is at least 1 |
| `Scheduler.UndeclaredAdmission` | src/tester.c:847-976 | suites that declare nothing, or more than the limit, are admitted exactly while fewer run than the limit |
| `Scheduler.NoLimitNoProgress` | src/tester.c:970-1052 | without negative declared weights, a limit below 1 keeps the loop in its first state for ever |
| `Scheduler.MeasureFalls` | src/tester.c:970-1029 | 2·count − launched − finished is not negative and falls by one for every launch and every reap |
| `Scheduler.TurnGrows` | src/tester.c:983-987 | suites are launched one by one in registry order and a recorded pid stays |
| `Scheduler.RunEnds` | src/tester.c:970-1052 | with a limit of at least 1 every legal and fair run finishes all suites |
| `Scheduler.RunEndsExactly` | src/tester.c:662-665 | a fair run of a non-empty registry without negative weights ends if and only if the limit is at least 1 |
| `Scheduler.ExitsMakeFair` | src/tester.c:997-1012 | if every child exits sooner or later and waitpid answers 0 only when none has, some child is reaped as long as one runs |
| `Scheduler.LoopStops` | src/tester.c:970-1052 | under a limit of at least 1 and these conditions there is a first turn behind which the loop condition fails |
| `Scheduler.EndState` | src/tester.c:1005-1012 | at the end every suite has been reaped exactly once and no weight is left |
| `Scheduler.CountedIsEnough` | src/tester.c:1013-1027 | the count for one child covers its failures; it is their number when it ended normally below 255 and the number of its tests otherwise |
| `Scheduler.ReapAdds` | src/tester.c:1004-1028 | the end of a child adds its exit code, or all tests of its suite after a signal or code 255 |
| `Scheduler.NeverUndercounts` | src/tester.c:799-832 | the parent's sum is at least the number of failed tests, with equality when all ended normally below 255 |
| `Scheduler.RunReports` | src/tester.c:949-1052 | under a limit of at least 1, if every child exits, waitpid is honest and neither call fails, the loop is left with every suite reaped once and, if the children report truthfully, no failure missing from the count |
| `Scheduler.GoodVerdict` | src/tester.c:1055-1070 | -1 means exactly that the run timed out, 1 exactly that the count is above the threshold; 0 means at most the tolerated failures, and with normal ends this is an equivalence |
| `Scheduler.TimeoutMsIs` | src/tester.c:957-960 | an hour by default, otherwise the set seconds, in milliseconds |
| `Scheduler.ReusedPid` | src/tester.c:1007-1009 | what goes wrong when a pid is handed out twice: weight, finished mark and count go to the earlier suite |
| `Scheduler.ReusedPidExactly` | src/tester.c:997-1012 | after the launch and the end of one child the weight matches the running suites, and its entry is marked, if and only if its pid is not that of a finished suite |
| `Scheduler.LaunchInvExactly` | src/tester.c:983-987 | a launch keeps the accounting invariant if and only if its pid is new in the run |
| `Scheduler.ReusedPidHangs` | src/tester.c:837-1052 | a run from the start in which a reused pid leaves weight on the books with nothing running, after which no turn changes anything: the loop never ends |
| `PidReuse.ReuseEndsExactly` | src/tester.c:837-1052 | with pids of finished suites handed out again at will, every fair run finishes all suites if and only if each suite fits beside the most that the ones before it can leave on the books, the sum of w[i] - min(w[0..i]); for all weights and limits |
| `PidReuse.StepSound` | src/tester.c:983-1012 | every turn keeps the books: an ended suite has released the weight of the first suite with its pid |
| `PidReuse.IdleWeight` | src/tester.c:997-1012 | when nothing runs, at most that sum is on the books |
| `PidReuse.ReuseAdvances` | src/tester.c:970-1052 | when all suites fit, a fair run gets nearer to its end from every state short of it |
| `PidReuse.StuckRun` | src/tester.c:837-1052 | otherwise a run in which each suite takes the pid of the lightest one so far never launches the first that does not fit |
| `Strings.FindFirst` | src/utils/utils.cc:34-34 | the position found is an occurrence and the first one from the start position |
| `Strings.OccursByOctets` | src/utils/utils.cc:34-34 | an occurrence is one octet by octet |
| `Text.SplitString` | src/utils/utils.cc:30-39 | the loop yields the pieces between leftmost occurrences |
| `Text.JoinOfSplit` | src/utils/utils.cc:30-39 | joining the pieces with the delimiter gives the string back |
| `Text.SplitIsLeftmost` | src/utils/utils.cc:30-39 | no piece holds the delimiter and no occurrence starts inside a piece |
| `Text.SplitOfJoin` | src/utils/utils.cc:30-39 | every leftmost decomposition is the split of its join, so split is unique |
| `Text.ReplaceAll` | src/utils/utils.cc:85-91 | the loop terminates and yields the pieces joined with the replacement, even if that contains the pattern |
| `Text.ReplaceFirst` | src/utils/utils.cc:85-91 | the leftmost occurrence is replaced, and the search goes on behind it |
| `Text.ReplaceNothing` | src/utils/utils.cc:85-91 | text without an occurrence stays as it is |
| `Fold.FoldString` | src/utils/utils.cc:41-60 | the in-place loop terminates and folds every CRLF-ended line |
| `Fold.UnfoldString` | src/utils/utils.cc:62-83 | the in-place loop yields the unfolded text |
| `Fold.UnfoldOfFold` | src/utils/utils.cc:41-83 | unfolding a folded text is unfolding the text itself |
| `Fold.UnfoldFixpoint` | src/utils/utils.cc:72-80 | unfolding changes nothing if and only if no end of line is followed by whitespace |
| `Fold.UnfoldUndoesFold` | src/utils/utils.cc:41-83 | unfold of fold returns the text if and only if its end of line is never followed by whitespace |
| `Fold.BlankLineLost` | src/utils/utils.cc:73-74 | a text with a blank line does not survive the round trip |
| `Fold.FoldedLinesFit` | src/utils/utils.cc:47-57 | every CRLF-ended line of a folded text has at most 75 octets |
| `Fold.FoldFixpoint` | src/utils/utils.cc:47-57 | folding changes nothing if and only if all CRLF-ended lines fit |
| `Fold.FoldIdempotent` | src/utils/utils.cc:41-60 | folding twice is folding once |
| `FoldOctets.FoldLineCuts` | src/utils/utils.cc:50-52 | the folded line is three octets longer for each cut, and CRLF and a space stand at octets 74, 150, 226 and so on |
| `FoldOctets.FoldLineAt` | src/utils/utils.cc:50-52 | every octet of the line stands behind the cuts in front of it |
| `FoldOctets.FoldBySplit` | src/utils/utils.cc:41-60 | folding is splitting at CRLF, folding all pieces but the last, and joining |
| `FoldOctets.EndLineByOctets` | src/utils/utils.cc:64-70 | the end of line is CRLF when the text holds one, else a line feed |
| `FoldOctets.UnfoldFixpointByOctets` | src/utils/utils.cc:62-83 | text without CRLF stays as it is exactly when no line feed is followed by one of the octets 9 to 13 and 32; text with CRLF exactly when no CRLF is |
| `FoldOctets.UnfoldAtLineFeed` | src/utils/utils.cc:72-80 | the first line feed goes away together with white space behind it, or stays |
| `FoldOctets.UnfoldAtFirstCrlf` | src/utils/utils.cc:72-80 | the same for the first CRLF |
| `FoldOctets.UnfoldsLineFeed` | src/utils/utils.cc:67-76 | a text of two lines joined by a line feed and a space |
| `List.Concat` | src/containers/list.c:87-96 | the two node sequences become one well-formed list |
| `List.Append` | src/containers/list.c:55-58 | one new node at the end, the others unchanged |
| `List.Prepend` | src/containers/list.c:67-69 | one new node in front, the others unchanged |
| `List.Unlink` | src/containers/list.c:207-223 | the list without that node; the node's links are cleared; NULL changes nothing |
| `List.EraseLink` | src/containers/list.c:225-234 | unlinked and freed exactly once |
| `List.FindNode` | src/containers/list.c:236-241 | the first node with the data, or NULL |
| `List.Remove` | src/containers/list.c:126-141 | erases the first node with the data and no other; exactly then its data goes to the free function, if there is one |
| `List.FreeAll` | src/containers/list.c:98-109 | frees every node once and reads no freed node |
| `List.RemoveCurrent` | src/containers/list.c:155-158 | the search by data hits the current node when no kept node has the same data, and its data is handed over |
| `List.RemoveCustom` | src/containers/list.c:147-161 | a node stays exactly when compare does not yield 0 for it; those stay in order and the others are freed; the calls of the free function, collected from the removals, are their data in order; the saved next node is never freed |
| `List.FreedOnce` | src/containers/list.c:126-161 | the free function gets no pointer twice if and only if no two matching positions hold the same one |
| `List.KeptNotFreed` | src/containers/list.c:147-161 | data that stays in the list has not been handed to the free function |
| `List.KeptContents` | src/containers/list.c:147-161 | filtering the nodes filters the data |
| `List.KeptInOrder` | src/containers/list.c:147-161 | what is kept, or matches, is what stands at all such positions, in ascending order |
| `List.KeptMembers` | src/containers/list.c:147-161 | a node is kept if and only if its data does not match |
| `List.InsertSorted` | src/containers/list.c:285-309 | a new node in front of the first element that the data does not exceed |
| `List.InsertSortedKeepsOrder` | src/containers/list.c:285-309 | with a total preorder the list stays sorted, gains exactly one element, and it stands before its equals |
| `List.LinkBefore` | src/containers/list.c:294-302 | relinking around a new node keeps a well-formed list |
| `List.Insert` | src/containers/list.c:311-327 | in front of the given node, at the end without one, nowhere when it is not in the list |
| `List.Copy` | src/containers/list.c:329-347 | a list of new nodes with the copied data, in order |
| `List.CopyReverse` | src/containers/list.c:357-364 | a list of new nodes with the copied data, reversed |
| `List.ReversedAt` | src/containers/list.c:357-364 | the first of the reversed elements is the last one, and so on |
| `List.PopFront` | src/containers/list.c:195-205 | the first data and the remaining list; the first node is freed |
| `List.Execute` | src/containers/list.c:51-364 | every run of append, prepend, insert, insert_sorted, remove, remove_custom, pop_front, unlink, erase_link, concat, copy and copy_reverse keeps a well-formed list that holds what the run on plain sequences yields |
| `AddrInfo.Sort` | src/utils/port.c:1424-1466 | a NULL-terminated chain: plain IPv6, V4-mapped, IPv4, each group in reverse input order |
| `AddrInfo.Partition` | src/utils/port.c:1434-1449 | each kind's list holds its nodes last one first, and the lists share no node |
| `AddrInfo.Merge` | src/utils/port.c:1450-1451 | the concatenated lists hold the nodes in sorted order |
| `AddrInfo.Relink` | src/utils/port.c:1453-1461 | the chain follows the list and ends in NULL |
| `AddrInfo.SortedPermutes` | src/utils/port.c:1424-1466 | the result is a permutation of the input nodes |
| `AddrInfo.SortedDistinct` | src/utils/port.c:1424-1466 | no node occurs twice and none is foreign |
| `AddrInfo.SortedByFamily` | src/utils/port.c:1434-1451 | no plain IPv6 node stands behind another sort, and no node of family AF_INET6 behind one of another family |
| `AddrInfo.SortedReverses` | src/utils/port.c:1434-1451 | two nodes of the same sort stand in reverse input order |
| `AddrInfo.FreeRun` | src/utils/port.c:1857-1863 | frees every node of a chain once, by its owner, reading no freed node |
| `AddrInfo.FreeOwned` | src/utils/port.c:1873-1890 | a cut-off run is freed by the allocator of its owner and the rest stays linked |
| `AddrInfo.FreeAddrInfo` | src/utils/port.c:1865-1891 | any mix of runs is freed completely, each node exactly once, by the matching allocator, with no read of a freed node |
| `LogTags.LogContext.PushTag` | src/logging/log-tags.cc:41-49 | pushes on the plain stack of the tag type |
| `LogTags.LogContext.PopTag` | src/logging/log-tags.cc:50-61 | pops the plain stack, does nothing on an empty one, and keeps the cached view valid |
| `LogTags.LogContext.GetTags` | src/logging/log-tags.cc:62-78 | the tops of the non-empty stacks in key order, for the list and the C list |
| `LogTags.LogContext.CreateCopy` | src/logging/log-tags.cc:85-94 | maps each tag type in use to its top |
| `LogTags.LogContext.Paste` | src/logging/log-tags.cc:95-103 | pushes every copied tag on top of what is there |
| `LogTags.LogContext.Execute` | src/logging/log-tags.cc:41-61 | every run of pushes and pops refines the run on plain stacks |
| `LogTags.PushExpands` | src/logging/log-tags.cc:43-47 | pushing on the compressed stack appends one value to its expansion |
| `LogTags.PopExpands` | src/logging/log-tags.cc:56-59 | popping the compressed stack drops the last value of its expansion |
| `LogTags.PushCompressed` | src/logging/log-tags.cc:43-47 | counts stay at least 1 and neighbours differ after a push |
| `LogTags.PopCompressed` | src/logging/log-tags.cc:56-59 | counts stay at least 1 and neighbours differ after a pop |
| `LogTags.DecrementKeepsView` | src/logging/log-tags.cc:56-59 | a pop that leaves a count positive changes no tag in the view |
| `LogTags.TopsAreView` | src/logging/log-tags.cc:67-74 | collecting tops over all keys in order, empty stacks skipped, is the view |
| `LogTags.LessByOctets` | src/logging/log-tags.cc:67-67 | the map's key order: the first octet that differs decides, and a proper prefix comes first |
| `LogTags.ViewByOctets` | src/logging/log-tags.cc:62-78 | the view has one value for each tag type in use, by ascending type, the last one of its stack |
| `LogTags.PasteShowsCopy` | src/logging/log-tags.cc:85-103 | a copy pasted into any context shows the copied tags if and only if that context has no tag type that the copy lacks |
| `LogTags.PasteOfCopy` | src/logging/log-tags.cc:85-103 | in particular it does so in a fresh context |
| `LogTags.PasteLosesNothing` | src/logging/log-tags.cc:95-103 | the tags already there are lost, as the message says, only when there are none |
| `LogTags.PasteCovers` | src/logging/log-tags.cc:95-103 | each copied value comes on top of its type's stack, and popping it uncovers what was there |
| `LogTags.BlocksRestore` | src/logging/log-tags.cc:41-61 | leaving properly nested push and pop blocks restores every stack |
| `LogTags.PushedShows` | src/logging/log-tags.cc:41-61 | what was pushed last is the type's value, no other type changes, and a pop undoes it |
| `LogRotation.LogFile.constructor` | src/logging/logging.c:218-249 | opening appends to the live file whatever its size |
| `LogRotation.LogFile.TryOpen` | src/logging/logging.c:674-691 | opening succeeds exactly when the live file is within the limit |
| `LogRotation.LogFile.Rotate` | src/logging/logging.c:693-721 | archives below the first gap move up by one and the live file becomes archive 1; no rename overwrites a file |
| `LogRotation.LogFile.Open` | src/logging/logging.c:723-728 | rotates exactly when the live file is above the limit; afterwards the tracked size is its length |
| `LogRotation.LogFile.Write` | src/logging/logging.c:827-838 | appends, then rotates exactly when the limit or a request demands it; with a limit the live file fits and its size is tracked |
| `LogRotation.LogFile.Execute` | src/logging/logging.c:827-838 | a run of writes and reopen requests is the run of the specification |
| `LogRotation.RotationKeepsHistory` | src/logging/logging.c:693-721 | reading archives by descending index and then the live file gives the same text before and after |
| `LogRotation.RotatedAt` | src/logging/logging.c:706-714 | each archive keeps its text under its new or old index |
| `LogRotation.RotationByIndex` | src/logging/logging.c:693-721 | up to the first free index archives move up by one, the live file takes index 1, the others stay |
| `LogRotation.RotationKeepsCount` | src/logging/logging.c:693-721 | no file disappears or is merged |
| `LogRotation.WriteAppendsHistory` | src/logging/logging.c:818-838 | a write adds exactly its line to the end of the history |
| `LogRotation.RunKeepsHistory` | src/logging/logging.c:818-838 | after any run the history is the old one followed by every line, in order |
| `LogRotation.WrittenFits` | src/logging/logging.c:827-838 | after a write of a non-empty line under a limit, or with a reopen request, the live file is within the limit |
| `LogRotation.GrowsOrRotates` | src/logging/logging.c:829-833 | without a request: a line that fits, or any line without a limit, just makes the live file grow; one that goes beyond turns the whole text into archive 1 |
| `LogRotation.ReopenGrowsOrRotates` | src/logging/logging.c:833-835 | with a request the same for every line, and the request is done with |
| `LogRotation.NoRotationAtLimitZero` | src/logging/logging.c:674-838 | with a limit of 0, which the header calls no rotation, a run leaves everything in the live file if and only if no write that directly follows a reopen request meets a non-empty file or makes it one |
| `LogRotation.RunKeepsFiles` | src/logging/logging.c:693-838 | under any limit, no run of writes and requests makes a file disappear |
| `LogQueue.Logger.Flush` | src/logging/logging.c:492-538 | empties the store; what it does is a run of the protocol |
| `LogQueue.Logger.FlushAs` | src/logging/logging.c:500-536 | every taken message goes to every handler, step by step as in the protocol |
| `LogQueue.Logger.PrintDirect` | src/logging/logging.c:551-562 | without a log thread, one call to each matching handler and no other |
| `LogQueue.Logger.FlushAndPrint` | src/logging/logging.c:563-576 | flush, then the own message to the matching handlers, as a run of the protocol |
| `LogQueue.Logger.Log` | src/logging/logging.c:547-586 | the three branches by log thread, and nothing for disabled levels or without handlers |
| `LogQueue.StepKeepsInv` | src/logging/logging.c:500-585 | every step of any thread keeps the invariant |
| `LogQueue.DeferredFifo` | src/logging/logging.c:500-536 | for every interleaving and handler: accepted = delivered ++ in flight ++ stored |
| `LogFlushers.DeliveredOnce` | src/logging/logging.c:492-544 | with any number of flushing threads, each accepted message is for each handler delivered, in the air or stored, exactly once |
| `LogFlushers.AllDelivered` | src/logging/logging.c:492-544 | once every flush is over and nothing is stored, each handler has had each message exactly once |
| `LogFlushers.FifoWithoutOverlap` | src/logging/logging.c:492-544 | when no two flushes overlap each handler gets the messages in order |
| `LogFlushers.FifoExactly` | src/logging/logging.c:492-544 | for distinct messages, a handler has got them in order if and only if each of its calls was made when no earlier flush still owed it one |
| `LogFlushers.OverlapSwaps` | src/logging/logging.c:492-544 | a run in which two overlapping flushes swap two messages |
| `LogQueue.OwnAfterItsFlush` | src/logging/logging.c:563-576 | a message of the log thread stands behind exactly the messages accepted before its flush took the list |
| `LogQueue.OwnExactlyOnce` | src/logging/logging.c:563-576 | own messages reach the matching handlers once each, in order, and no others |
| `LogQueue.WorkDecreases` | src/logging/logging.c:504-536 | each step of the log thread brings its flush nearer the end, and messages stored meanwhile do not lengthen it |
| `LogQueue.DomainRespected` | src/logging/logging.c:500-536 | for every run and handler: once everything is flushed, the handler has been given only messages of its domain, as direct output gives, if and only if all messages stored are of its domain |
| `LogQueue.FlushedInDomain` | src/logging/logging.c:520-529 | the same at any moment, for the messages flushed so far |
| `LogQueue.FlushSkipsDomainFilter` | src/logging/logging.c:520-529 | a witness: a flushed message reaches a handler whatever its domain |
| `LogQueue.DirectAppliesDomainFilter` | src/logging/logging.c:567-576 | a witness: the same message from the log thread reaches the handler exactly when the domains match (`OwnExactlyOnce` says so for all runs) |
| `LogQueue.PrintedByDomain` | src/logging/logging.c:551-562 | a message without a domain reaches every handler, a handler without one gets every message, otherwise the domains must be the same |
| `LogQueue.OwnByDomain` | src/logging/logging.c:565-576 | the same for the log thread's own message |
| `Escape.EscapeString` | src/parser.c:28-51 | the growing buffer receives the escaped text and its terminator, every write within the allocation |
| `Escape.PrintEscape` | src/parser.c:46-46 | with room for four octets the three-octet escape is written whole |
| `Escape.EscapeOfOctet` | src/parser.c:42-46 | an exempt octet stands for itself, any other becomes a percent sign and two digits of 0-9 and a-f, high one first |
| `Escape.EscapeOfJoin` | src/parser.c:36-48 | escaping goes octet by octet |
| `Escape.GetChar` | src/parser.c:70-84 | on any text, the octet read and the number of octets consumed, never past the terminator; the octet is what `%02x` stores, and any octet only when it stores nothing |
| `Escape.UnescapeString` | src/parser.c:86-97 | on any string the index stays within it and the buffer receives one octet for each escape or plain octet and a terminator; the unescaped text when every escape stores an octet |
| `Escape.ReadsWellFormed` | src/parser.c:70-97 | when every escape stores an octet there is one possible result, the unescaped text |
| `Escape.UnescapeDetermined` | src/parser.c:70-97 | the result is determined if and only if `%02x` stores something for every escape: behind white space there is a hexadecimal digit, or a sign and one, and no bare `0x` |
| `Escape.TwoDigitsRead` | src/parser.c:76-79 | two hexadecimal digits are stored as the octet meant by section 2.1 of RFC 3986 |
| `Escape.HexValueByOctet` | src/parser.c:76-79 | the hexadecimal digits in either case |
| `Escape.ScanPastSpace` | src/parser.c:76-79 | `%02x` passes over white space |
| `Escape.ScanDigit` | src/parser.c:76-79 | it reads one digit or two; a bare `0x` or no digit stores nothing |
| `Escape.ScanSign` | src/parser.c:76-79 | a sign takes up one of the two octets and needs a digit |
| `Escape.OneDigitRead` | src/parser.c:76-79 | `%4G` is read as the octet 4 |
| `Escape.UnescapeOfEscape` | src/parser.c:28-97 | unescape of escape returns every string when the percent sign is not exempt |
| `Escape.RoundTripExactly` | src/parser.c:28-97 | the round trip holds for all strings if and only if the percent sign is not exempt |
| `Escape.PercentMustBeEscaped` | src/parser.c:42-43 | with the percent sign exempt, "%AA" is never read back |
| `ParamString.FindParam` | src/param_string.c:23-39 | the result of the skipping scan; for a clean name, the first delimited `name=` from the start position |
| `ParamString.FindLastParam` | src/param_string.c:41-52 | the result of the restarting scan; for a clean name, the last delimited `name=` of the whole string |
| `ParamString.GetValue` | src/param_string.c:54-70 | for every name, TRUE exactly when the scan finds one; the text behind the next `=` up to `;` or the end, cut to the buffer, then NULs; for a clean name that is the last binding's value |
| `ParamString.LookupExactly` | src/param_string.c:23-70 | the code finds the last binding in every string if and only if the name holds no `=` and does not begin again behind one of its separators |
| `ParamString.ScanIsFirst` | src/param_string.c:23-39 | the scan finds the first binding although it skips ahead |
| `ParamString.ScanLastIsLast` | src/param_string.c:41-52 | restarting in the tail finds the last binding of the whole string |
| `ParamString.GotOfFormat` | src/param_string.c:23-70 | what the code reads from a formatted key=value list is the last value listed under the name |
| `ParamString.OverlapMissed` | src/param_string.c:35-35 | for a name that begins again behind a separator, a string whose binding is skipped over |
| `ParamString.EqualInNameMisread` | src/param_string.c:58-62 | for a name that holds a `=`, a string from which the value is read too early |
| `ParamString.LastBindingBefore` | src/param_string.c:41-52 | a binding with none after it, or none at all |
| `ParamString.SkipIsSafe` | src/param_string.c:35-35 | nothing delimited begins inside a false match |
| `ParamString.RestartIsSafe` | src/param_string.c:45-48 | restarting behind a binding finds the same bindings as the whole string has |
| `ParamString.LookupOfFormat` | src/param_string.c:23-70 | on a formatted key=value list the lookup is last-binding lookup |
| `ParamLists.LookupByOctets` | src/param_string.c:23-70 | the value is that behind the last `name=` at the start, behind a `;` or behind a space, up to a `;` or the end |
| `ParamLists.LookupOfMissing` | src/param_string.c:23-70 | without such a `name=` there is no value |
| `ParamLists.LookupOfSeparated` | src/param_string.c:23-70 | on lists joined by any `;` and spaces the code reads the last value under the name, and behind separators that begin with a space what follows it, up to a `;` |
| `ParamLists.LastValueIsLast` | src/param_string.c:23-70 | for separators that begin with a `;`, such as `; `, that is last-binding lookup |

## Left out

- KeyWrap.UnwrapOfWrap: lengths of 2^63 and more, which no vector can have; the shift of a length octet into the sign bit is read as two's complement with sign extension, as compilers do it.
- KeyWrap.AesKeyUnwrap: ciphertexts shorter than 8 octets, for which the code's size arithmetic wraps and it reads out of bounds; key schedules and key sizes belong to mbedTLS.
- Scheduler.Runner.RunParallel: sleeping, progress messages, JUnit files, the child's side of fork and 64-bit wrap of the clock; waitpid is taken to report terminated children only, as it does with WNOHANG alone.
- Scheduler.RunSafe: assumes that fork never repeats a pid within a run; `PidReuse` has the runs in which it does.
- Text.SplitString: an empty delimiter, on which the code does not terminate.
- Text.ReplaceAll: an empty pattern and `recursive` = false, which need not terminate.
- Fold.UnfoldString: locales other than "C" for isspace.
- List.RemoveCustom: the compare function is pure and total; `FreedOnce` says when the free function gets a pointer twice, but what a compare function does with data already freed is not modelled.
- List.Insert: the source's walk continues to the end after inserting, where no further node can match; the model stops there.
- AddrInfo.FreeAddrInfo: assumes that the C library never returns a node whose ai_canonname is the library's own marker; a NULL argument crashes the code.
- LogTags.LogContext.GetTags: the C list holds copies of the values here, pointers into the stacks in the source.
- LogRotation.LogFile.Write: the line is given already formatted; fopen, rename and fprintf are taken to succeed and no other process to touch the files; an empty line, which the code never writes, would not trigger the size test.
- LogQueue.DeferredFifo: one flushing thread; `LogFlushers` has any number, without own messages of the log thread. The abort after a fatal message and the reuse of the stored text as a format string are not modelled.
- Escape.UnescapeString: sscanf is taken as section 7.21.6.2 of C11 has it, where a bare `0x` matches nothing; some C libraries store 0 for it. A variable never set is taken to hold any octet.
- Escape.EscapeString: strings longer than the range of `int`.
- ParamString.GetValue: empty names, on which the code does not terminate; a buffer of size 0, in front of which the code writes; and strings or buffers of 2^31 octets and more, whose lengths the code casts to `int`.
- bctbx_unescaped_string_only_chars_in_rules, the rule-building helpers and get_bool_value.
- The list helpers that only read or repeat (size, nth_data, position, index, for_each, find_custom, delete_custom, last_elem, first_elem).
- The Windows variant of the scheduler and the serial test run.
- The rest of src/crypto, the encrypted VFS, src/containers/map.cc, src/conversion, sockets and platform helpers: calls into code that is not part of this model.
