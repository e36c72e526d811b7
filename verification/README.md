# Trailermatic, modelled and proved in Dafny

Trailermatic polls RSS feeds and downloads what matches its filters. It ships with the allocation
tracker memwatch. This project models the stateful parts of both and proves what they promise.

**memwatch** (`Mw*.dfy`). `MwLedger` gives every allocation call as a function of the whole state: the
chain of blocks with the bytes behind each header, the counters, the statistics records, the grab list, the
history of releases, the limit. `MwTracker.Tracker` is the program itself: linked headers, byte arrays,
records, grab nodes and the ring of 64 releases, all updated in place; each of its methods is proved to turn
one ledger state into the next. `MwShedding` and `MwOutcomes` say what each call comes to from its arguments, the
books before it and the answers of the C library, and the laws are then proved over all runs (`MwAccounting`,
`MwDrift`, `MwGuarantees`, `MwStatLaws`, `MwTotals`), and damage is treated on the real pointers: `MwChain` checks, votes on and
repairs chains of which nothing, or all but one block, is known to be intact. `MwGuard`, `MwGrab`, `MwRing`,
`MwStats` and `MwMarks` hold the parts.

**The download history** (`List`, `Downloads`, `StateFile`, `Polling`, `PollingRuns`): the singly linked list, the bounded
bucket, the state file as printed and as parsed in chunks, and the polling loop, whose runs are sequences of
events with arbitrary answers from the matcher, the file system and the network.

**Three codecs and a buffer** (`Base64`, `UrlCode`, `WebBuffer`).

Outcomes of the C library's `malloc`, of file operations and of the network are parameters ("oracles"), so
that a theorem speaks of every way they can turn out. The exceptions are allocations whose result the source
does not check; "Left out" names them.

## What turned out not to hold

Each of these is proved, with the exact condition where there is one; the second name in a pair is a lemma
with a concrete case.

- `mwRelink` reports failure after a complete repair whenever a no-mans-land block is on the chain, because
  src/memwatch.c:1870 compares the length of the whole chain with the number of live blocks
  (`MwTracker.Tracker.Relink`, `OneRetired`). In the same way it reports success for a stranger over an intact
  chain of live blocks, which makes `mwIsOwned` own it (`MwChain.Chain.Relink`).
- The constant-time vote of `mwIsOwned` agrees with a full walk except for a block that two blocks outside
  the chain (possibly itself) take for their neighbour (`VoteDecidesMembership`, `SelfLinkedStranger`).
- `mwIsOwned` mends a wrong checksum of a chain member by forgetting the recorded size (`IsOwned`).
- `mwRealloc` suspends the limit, so the recorded maximum can end above it: exactly if the old and the new
  block together exceed it (`ReallocPeak`).
- `mwFreeUp` gives up no-mans-land blocks without counting them down: the counters run ahead of the chain by
  exactly what its calls give up, and are exact exactly if each of them got by with grabbed kilobytes or found
  no block in no-mans-land (`StepDrifts`, `LosesWhenDigging`, `RunExact`).
- The live-block counter survives `mwAbort` and `mwInit`: memwatch restarts in order only after a run without
  leaks (`Tracker.Abort`, `Tracker.Init`, `Tracker.AutoInit`, `RestartNeedsNoLeaks`).
- Statistics cannot be switched on at any time: a change of level is harmless exactly if no bytes are in use,
  or, between files and lines, none that line records stand for (`LevelChange`, `LateStart`,
  `LateStatistics`). Nor are they true when a record cannot be had, neither found nor granted at once nor
  granted after `mwFreeUp` (`StepAgrees`); if all are granted at once they always are (`RunGranted`).
- `mwTestMem` takes the length as `unsigned`: of a block of 4 gigabytes and more only the size modulo 2^32
  is looked at (`MwGuard.TestMem`).
- `mwDropAll` empties the grab list only up to 60000 nodes a type; "grab all" stops at 65000 (`DropAllEmpties`,
  `OneTooMany`).
- `removeLast` on a single node leaves the caller with a freed node (`List.SimpleList.RemoveLast`);
  `addToBucket` never calls it that way (`AddToBucket`).
- A download is forgotten at once, and can be repeated, exactly if its URL is empty or memory for its list
  node is missing (`RepeatedAtOnce`).
- An orderly shutdown puts right what failed saves left in the state file exactly if every entry of the bucket
  can be stored (`StopPersists`).
- The state file reads back as the bucket exactly if every URL has 20 to 298 characters and neither newline
  nor NUL (`RoundTrip`, `ShortUrlIsLost`).
- The allocation of `base64_decode` is one byte short exactly for texts that are all alphabet with a length of
  3 modulo 4 (`DecodeFitsWhen`, `ThreeLettersDoNotFit`).
- `url_encode_whitespace` is undone by `url_decode` exactly on strings without '%' and '+'
  (`DecodeSpaceEncode`, `SpaceEncodeFails`).
- A failed `realloc` loses what the receive buffer held, and the callback reports the chunk as taken
  (`ChunkIsKept`, `WriteData`, `RefusedBlockLosesAll`).

## Model

| member | source | states |
|---|---|---|
| MwBlock.XorCancels | src/memwatch.c:142 | the exclusive or behind the checksum can be undone, for numbers of any width and sign |
| MwBlock.ChecksumDetectsOneField | src/memwatch.c:142 | two headers that differ in at most one of count, size and line have equal checksums only if they are equal in all three |
| MwBlock.ScrubbedFails | src/memwatch.c:1106-1107 | a header overwritten with MW_VAL_DEL never passes its own checksum |
| MwGuard.CheckOF | src/memwatch.c:672-683 | an error exactly if the zone differs from the template anywhere |
| MwGuard.WriteOF | src/memwatch.c:660-670 | writes the template there and nothing anywhere else |
| MwGuard.TestMem | src/memwatch.c:2133-2141 | a hit exactly if one of the bytes it looks at, the size modulo 2^32, differs from the fill value |
| MwGuard.WriteNoticed | src/memwatch.c:1990-2039 | a one-byte write is noticed by the guards exactly if it lies outside the payload and changes the byte |
| MwChain.Chain.PushFront | src/memwatch.c:909-920 | the new header becomes the head of a well-formed chain, in front of the old ones in order |
| MwChain.Chain.Unlink | src/memwatch.c:1573-1598 | takes exactly this block out of a well-formed chain and leaves the rest in order |
| MwChain.WalkIsDistinct | src/memwatch.c:1905-1916 | following answered links from a block without predecessor never meets a block twice, on any graph |
| MwChain.Chain.IsHeapOK | src/memwatch.c:1899-1920 | on any finite pointer graph it terminates; with a head, it answers yes exactly if head to tail is a duplicate-free, mutually linked chain (that includes the argument, if one is given) |
| MwChain.DamageShows | src/memwatch.c:1899-1920 | with one block's links arbitrary, no other chain can pass for the original: if any is well formed it is the original |
| MwChain.Chain.RepairLinks | src/memwatch.c:1628-1700 | whatever the links of one member held, both searches terminate and restore it, and fail both exactly for a stranger, which stays as it was |
| MwChain.Chain.RepairPrev | src/memwatch.c:1628-1662 | the walk from the head terminates and finds the true predecessor of any member |
| MwChain.Chain.RepairNext | src/memwatch.c:1664-1696 | the walk from the tail terminates and finds the true successor of any member |
| MwChain.Chain.Measure | src/memwatch.c:1857-1889 | counts the blocks of the chain and their bytes |
| MwChain.Chain.Relink | src/memwatch.c:1605-1889 | one damaged block: the original chain is restored, with its checksum; success exactly if the whole chain has as many blocks as are counted live; the size is cleared if the byte count disagrees |
| MwChain.Chain.VoteDecidesMembership | src/memwatch.c:1960-1967 | over a well-formed chain a block with a right checksum gets three votes exactly if it is a member or two outside blocks vouch for it |
| MwChain.Chain.IsOwned | src/memwatch.c:1922-1982 | every branch: nothing allocated, wrong checksum (adopted if the chain is intact and has it, size forgotten), full vote, repair |
| MwChain.Chain.TestBuf | src/memwatch.c:1990-2039 | intact header: nonzero exactly if a guard differs from the template, one error for each; damaged header: repaired, and the same verdict on the guards if the counters match |
| MwRing.FreeRing.Record | src/memwatch.c:1119-1124 | the ring holds the most recent 64 releases, this one included |
| MwRing.FreeRing.Search | src/memwatch.c:1131-1133 | finds a pointer exactly if it is among them |
| MwRing.RememberedUntil | src/memwatch.c:1119-1143 | a release is remembered exactly while fewer than 64 others followed it |
| MwShedding.FreeUpIs | src/memwatch.c:2082-2116 | `mwFreeUp` succeeds exactly if one of as many attempts does as there are grabbed kilobytes and retired blocks; it gives up as many as attempts were needed, kilobytes first, then the newest blocks, and reports each one of these that was written to |
| MwGrab.GrabList.Grab | src/memwatch.c:1403-1438 | adds as many nodes of the type as were asked for, as the C library grants and as the limit has room for, and returns how many |
| MwGrab.Obtainable | src/memwatch.c:1403-1438 | that number is the largest that respects all three |
| MwGrab.GrabList.DropKind | src/memwatch.c:1440-1483 | removes the first k nodes of the type in place, returns how many, and keeps the byte counter right |
| MwGrab.DropCounts | src/memwatch.c:1440-1483 | exactly min(k, count) nodes of the type go, and none of another |
| MwGrab.DropSplits | src/memwatch.c:1440-1483 | they are the first ones, and the rest stays in order |
| MwGrab.DropAllEmpties | src/memwatch.c:1382-1388 | `mwDropAll` empties the list exactly if neither type has more than 60000 nodes |
| MwStats.StatTable.Search | src/memwatch.c:2288-2307 | finds the record of file and line, or none if there is none |
| MwStats.StatTable.StatGet | src/memwatch.c:2288-2324 | the same, with a new record in front if there was none and memory lasts |
| MwStats.StatTable.Update | src/memwatch.c:2326-2363 | one record is charged or refunded in place, no other changes |
| MwStats.BookEffect | src/memwatch.c:2326-2363 | keys stay unique, and exactly the record booked on, and the sums it belongs to, move by the amount booked |
| MwTracker.Tracker.constructor | src/memwatch.c:300-369 | the books are empty before the first call |
| MwTracker.Tracker.AutoInit | src/memwatch.c:1511-1517 | memwatch runs afterwards: as it did, or begun anew |
| MwTracker.Tracker.Malloc | src/memwatch.c:863-945 | memwatch is started if it does not run; then linked headers, bytes, counters and records become what the ledger says of `mwMalloc`, and no other pointer loses its header |
| MwTracker.Tracker.Calloc | src/memwatch.c:1154-1161 | the same of `mwCalloc`, with the product of its arguments truncated and the payload zeroed |
| MwTracker.Tracker.Realloc | src/memwatch.c:947-1027 | the same of `mwRealloc`: NULL, size 0, stranger, no-mans-land, over the limit, and the exchange |
| MwTracker.Tracker.Free | src/memwatch.c:1051-1152 | the same of `mwFree`: no file name (nothing changes here, memwatch is not even started), NULL, owned and live, double, wild; the outcome is the ledger's |
| MwTracker.Tracker.FreeUp | src/memwatch.c:2082-2116 | the same of `mwFreeUp` when not urgent: grabbed kilobytes first, then no-mans-land blocks from the head, until an allocation succeeds |
| MwTracker.Tracker.FindOwned | src/memwatch.c:1922-1982 | on uncorrupted headers the lookup and vote find exactly the blocks on the chain and change nothing |
| MwTracker.Tracker.BookAll | src/memwatch.c:2326-2363 | per-file and per-line records are updated as the level asks, with `mwFreeUp` and a second attempt behind a failing allocation |
| MwTracker.Tracker.TestBuffer | src/memwatch.c:695-707 | 0 exactly for an owned buffer with both guards intact; one error is counted for each broken guard, and nothing else changes but that memwatch runs |
| MwTracker.Tracker.SetLimit | src/memwatch.c:1202-1218 | memwatch runs, the limit is switched on or off, and nothing else changes |
| MwTracker.Tracker.Statistics | src/memwatch.c:637-647 | memwatch runs, the statistics level is set, negative levels to 0, and nothing else changes |
| MwTracker.Tracker.NoMansLand | src/memwatch.c:1489-1505 | memwatch runs, and switching the mode grabs or drops no-mans-land kilobytes as the ledger says |
| MwTracker.Tracker.Abort | src/memwatch.c:517-622 | (memwatch is started if it does not run) reports one error for each marker, each block not released and each retired block written to, takes the chain down, and leaves the books as the ledger's `Aborted` |
| MwTracker.Tracker.Init | src/memwatch.c:413-447 | unless memwatch runs already, the records and the counters but that of live blocks start over |
| MwTracker.Tracker.Relink | src/memwatch.c:1605-1889 | under the ledger's accounting, one header with arbitrary links and checksum is restored to what the ledger has; success exactly if no no-mans-land block is on the chain |
| MwAccounting.MallocIs | src/memwatch.c:863-945 | an allocation fails, or puts one fresh live block on the chain under an unused address; besides it can only shed no-mans-land |
| MwAccounting.FreeIs | src/memwatch.c:1084-1128 | a release with a file name takes one live block off the counters, gives it back or retires it, and extends the history |
| MwAccounting.StepKeeps | src/memwatch.c:863-1161 | every call, whether it finds memwatch running or starts it, keeps the books: distinct addresses, live count and bytes equal to the counters, no-mans-land counters no lower than the chain, current at most maximum at most total |
| MwAccounting.RunKeeps | src/memwatch.c:863-1161 | so does every run, whatever fails |
| MwOutcomes.MallocOutcome | src/memwatch.c:863-945 | an allocation succeeds exactly if its size does not overflow, the limit (if any) has room and the C library has memory, at once or after `mwFreeUp`; it hands out the memory it got; and each way to fail counts its own number of errors |
| MwOutcomes.CallocHolds | src/memwatch.c:1154-1161 | `mwCalloc` takes nothing from the client and, if it succeeds, gives it one block of the truncated product, every payload byte 0, between intact guards |
| MwOutcomes.CallocOutcome | src/memwatch.c:1154-1161 | it succeeds, and counts errors, as the allocation of that size does |
| MwOutcomes.ReleaseOutcome | src/memwatch.c:1078-1128 | releasing a held block counts one error for each guard that differs from the template, and none else; the block leaves the chain, or in no-mans-land mode stays there with a payload of MW_VAL_NML |
| MwOutcomes.RefusedOutcome | src/memwatch.c:1051-1152 | any other release changes nothing but counters: none without a file name, no error for NULL, one for a stranger, one and the broken guards for a retired block; and the outcome says which |
| MwOutcomes.DamageCosts | src/memwatch.c:1990-2039 | one byte stored around a sound block costs exactly one error at its release if it lies in a guard and changes it, and none otherwise |
| MwOutcomes.ReallocRefused | src/memwatch.c:967-1026 | `mwRealloc` of a stranger counts one error, of a retired block two, and does nothing else |
| MwOutcomes.ReallocDegenerate | src/memwatch.c:954-955 | of NULL it allocates, and with size 0 it releases |
| MwOutcomes.ReallocOutcome | src/memwatch.c:967-1003 | of a held block it succeeds exactly if the size does not overflow, the limit (if any) has room once the old block is gone and the C library has memory; it hands out that memory; and it counts its own errors and the old block's broken guards |
| MwOutcomes.LimitBinds | src/memwatch.c:1202-1218 | once a limit is set, no run that leaves it alone ends with more bytes in use than the limit or than there were |
| MwOutcomes.LimitRefuses | src/memwatch.c:884-891 | an allocation beyond the limit that was set is refused, one error is counted, and nothing else happens |
| MwOutcomes.NoLimitRefusesNothing | src/memwatch.c:1202-1218 | once the limit is switched off, nothing but an overflow or the C library makes an allocation fail |
| MwOutcomes.ModeDecides | src/memwatch.c:1489-1505 | after a switch to mode 1 or 2 a released block stays behind, after one to mode 0 it is gone |
| MwOutcomes.ModeGrabs | src/memwatch.c:1489-1505 | mode 2 takes the largest number of kilobytes that 65000, the C library and the limit allow, mode 0 gives up to 60000 back, mode 1 and other numbers none; the mode itself changes for 0, 1 and 2 only |
| MwOutcomes.ScanIs | src/memwatch.c:549-605 | `mwAbort` counts each block not released, and each retired one with a changed byte among those it looks at |
| MwOutcomes.WildWriteReported | src/memwatch.c:549-605 | a byte stored into an untouched retired block is one more error in the end exactly if it changes one of them |
| MwOutcomes.RestartIsFresh | src/memwatch.c:413-622 | `mwAbort` and `mwInit` leave the books of a new memwatch, but for the number of live blocks, level, limit, mode, history, count of calls, and grabbed kilobytes beyond 60000 a type |
| MwOutcomes.StepReports | src/memwatch.c:863-1161 | every call of memwatch counts exactly its own faults (spelled out by its arguments), and those of wild writes to the blocks it sheds |
| MwOutcomes.RunReports | src/memwatch.c:863-1161 | over a run, a client that stays within its payloads is charged exactly for the faults of its calls |
| MwDrift.LosesWhenDigging | src/memwatch.c:2082-2116 | one call of `mwFreeUp` gives up a no-mans-land block exactly if no grabbed kilobyte frees enough and there is such a block |
| MwDrift.StepDrifts | src/memwatch.c:2097-2116 | the no-mans-land counters run ahead of the chain by exactly the blocks, and the bytes, that the up to five calls of `mwFreeUp` behind a call (for the block, for its records, for the records of a block `mwRealloc` lets go) give up |
| MwDrift.StepExact | src/memwatch.c:2097-2116 | a call keeps the counters equal to the chain exactly if none of these calls of `mwFreeUp` is one that gives up a block, read off the state each is made in |
| MwDrift.RunDrifts | src/memwatch.c:2097-2116 | over a run they run ahead by the sum over all its calls of `mwFreeUp` |
| MwDrift.RunExact | src/memwatch.c:2097-2116 | a run keeps them equal to the chain exactly if no call of `mwFreeUp` gives up a block |
| MwDrift.AbortComplains | src/memwatch.c:599-608 | what `mwAbort` leaves of the no-mans-land counters, and complains about, is what `mwFreeUp` gave up: nothing exactly if it never had to |
| MwGuarantees.FreeHolds | src/memwatch.c:1084-1128 | a release takes exactly the released block from the client |
| MwGuarantees.MallocHolds | src/memwatch.c:863-945 | an allocation takes nothing from the client and hands out no address it holds |
| MwGuarantees.ReallocMoves | src/memwatch.c:967-1003 | a live block stays untouched, or is exchanged for one with the same first bytes, MW_VAL_NEW behind them and intact guards; no other block changes, and the limit is in force again |
| MwGuarantees.ReallocPeak | src/memwatch.c:988-1001 | the recorded maximum ends above the limit exactly if both blocks together are |
| MwGuarantees.StepWithinLimit | src/memwatch.c:884-891 | no call raises the bytes in use above a limit in force |
| MwGuarantees.RunWithinLimit | src/memwatch.c:884-1218 | nor does any run that leaves the limit alone |
| MwGuarantees.RunReleased | src/memwatch.c:1084-1128 | a released pointer stays released, and is not entered in the history again, until it is handed out again |
| MwGuarantees.SecondRelease | src/memwatch.c:1078-1152 | after any run that does not hand the pointer out again, releasing it twice (with a file name) changes only the call and error counters (memwatch runs all the while), and is called a double free exactly if fewer than 64 releases came between, in no-mans-land mode or not |
| MwGuarantees.StepHealthy | src/memwatch.c:926-932 | a call of a client that writes only into payloads it holds leaves all guards and retired blocks as memwatch wrote them |
| MwGuarantees.RunHealthy | src/memwatch.c:926-932 | so does every run |
| MwGuarantees.AbortCountsLeaks | src/memwatch.c:534-605 | after such a run `mwAbort` counts exactly the blocks not released |
| MwGuarantees.RestartNeedsNoLeaks | src/memwatch.c:413-622 | after any run, `mwAbort` and then `mwInit` leave books that balance exactly if nothing was leaked |
| MwStatLaws.StepAgrees | src/memwatch.c:2288-2363 | a call leaves the statistics in order (each record equal to the bytes of the live blocks it stands for, keys unique, current at most maximum at most total; or off and at zero) exactly if an allocation that books bytes finds its module record and then its line record, or memory for it at once, or after `mwFreeUp`, and a change of level is one that may be made |
| MwStatLaws.LevelChange | src/memwatch.c:637-647 | switching on or off is harmless exactly if no bytes are in use; switching between files and lines, exactly if none that line records stand for |
| MwStatLaws.LateStart | src/memwatch.c:637-647 | statistics switched on over idle records are true exactly if no bytes are in use |
| MwStatLaws.RunAgrees | src/memwatch.c:2288-2363 | over a run the statistics stay in order exactly if that holds of every call |
| MwStatLaws.RunGranted | src/memwatch.c:2288-2363 | if the C library has memory for every new record at once and the level is left alone, the statistics are in order after every call of every run |
| MwTotals.BookRecord | src/memwatch.c:2326-2363 | an allocation adds its bytes, one to the number, and its peak to the record booked on; a release changes none of these; no other record changes |
| MwTotals.RunTallies | src/memwatch.c:933-939 | over a run the number of allocations and their total grow by the blocks handed out and their bytes, and the maximum is the highest use when a block had just been handed out |
| MwTotals.RunRecords | src/memwatch.c:2326-2346 | the same of every module and line record, for the blocks on its file and line, at one level and with memory for new records |
| MwStatLaws.ReportAddsUp | src/memwatch.c:2326-2363 | module records sum to the bytes in use, and each to its line records plus the bytes allocated on line -1, which get none |
| MwStatLaws.LateStatistics | src/memwatch.c:637-647 | a block allocated before statistics were switched on leaves its file with its size below zero when released |
| MwStatLaws.EveryRun | src/memwatch.c:863-1161 | all of it from the first call on: books, guards and leak report, statistics in order exactly if their records can be had, no-mans-land counters exact exactly if `mwFreeUp` never gives up a block |
| MwMarks.MarkCounts | src/memwatch.c:718-802 | a mark adds one to the counter of its pointer alone if memory is there for it, else nothing, and leaves at most one marker per host |
| MwMarks.MarkText | src/memwatch.c:718-802 | the first recorded mark of a pointer begins its text, each further one adds to it behind a comma, and no other text changes |
| MwMarks.UnmarkCounts | src/memwatch.c:804-825 | an unmark takes one off, and an unknown pointer is ignored |
| MwMarks.LevelsAreCounters | src/memwatch.c:718-825 | over any run, allocations failing or not, the level of a pointer is its outstanding recorded marks |
| MwMarks.MarkList.DoMark | src/memwatch.c:718-802 | the linked markers change as the specification says, whichever of the two allocations fails |
| MwMarks.MarkList.DoUnmark | src/memwatch.c:804-825 | the linked markers change as the specification says; the last unmark unlinks |
| MwMarks.MarkList.ReportAll | src/memwatch.c:534-542 | one report for each host still marked, and none is left |
| List.SimpleList.AddToHead | src/list.c:182-197 | a new first node, or -1 and no change |
| List.SimpleList.AddToTail | src/list.c:199-214 | a new last node, or -1 and no change |
| List.SimpleList.GetLastNode | src/list.c:99-106 | the last node, or NULL |
| List.SimpleList.ListCount | src/list.c:138-146 | the number of nodes |
| List.SimpleList.RemoveLast | src/list.c:253-266 | all but the last node stay, in order; the list is left good exactly if it did not have a single node |
| List.SimpleList.Reverse | src/list.c:118-131 | the same nodes, linked the other way round |
| List.ReversedAt | src/list.c:118-131 | the k-th item from the front becomes the k-th from the back |
| Downloads.HasBeenDownloaded | src/downloads.c:48-72 | whether the URL is in the bucket |
| Downloads.AddToBucket | src/downloads.c:84-92 | the URL in front if memory is there for its node, the oldest entry gone if the bound is exceeded, and no pointer to a freed node |
| Downloads.BucketedRemembers | src/downloads.c:84-92 | a new URL is in the bucket afterwards exactly if it is not empty and memory is there for its node |
| Downloads.BucketedKeeps | src/downloads.c:84-92 | a new URL brings no duplicate and no length above both the bound and the old length |
| StateFile.SaveState | src/state.c:59-83 | one URL a line; a line that cannot be written ends the file there with -1 |
| StateFile.LoadState | src/state.c:93-113 | appends the entries of the file, read in chunks of at most 299 characters, without their last character, except those for which there is no memory for a node; -1 and no change if it cannot be opened |
| StateFile.ParsedIsStorable | src/state.c:103-109 | from any file only entries of 20 to 298 characters without newline and NUL are read |
| StateFile.RoundTrip | src/state.c:71-109 | what was saved is what is loaded, in order, exactly if every entry is of that kind |
| StateFile.LongLineIsCut | src/state.c:103-109 | a longer line is read in pieces of 299 characters, each of which loses its last one |
| StateFile.KeptOneByOne | src/state.c:103-109 | each entry read is kept or lost by the allocation of its own node |
| Polling.BucketIsHistory | src/trailermatic.c:305-362 | after any run, restarts included, the bucket is the newest part of the whole history, no shorter than the smallest bound in force |
| Polling.NotAgainTooSoon | src/trailermatic.c:305-362 | two recorded downloads of one URL have at least as many others between them as the bound in force |
| Polling.NoWrapNoShrink | src/trailermatic.c:386-389 | without wrap-around of its 16 bits the bound shrinks at a restart only |
| Polling.Separation | src/trailermatic.c:305-398 | both together: at least the smallest bound a process began with; without restarts, the bound at the first download |
| Polling.SeparationOverRestarts | src/trailermatic.c:305-539 | the same across restarts, while saves go through and URLs can be stored |
| Polling.RepeatedAtOnce | src/trailermatic.c:320-341 | a download can be repeated at once exactly if its URL is empty or memory for its list node was missing |
| Polling.BucketStaysBounded | src/trailermatic.c:337-341 | no run makes the bucket longer than its bound or its old length |
| Polling.NeverTwice | src/trailermatic.c:320-341 | no run brings in a duplicate, whatever the bound |
| Polling.PersistsExactly | src/trailermatic.c:337-341 | after a completed save the file reads back as the bucket exactly if the new URL is storable or not remembered |
| Polling.StopPersists | src/trailermatic.c:142-151 | a save at shutdown that goes through makes the file read back as the bucket exactly if every entry can be stored, whatever became of earlier saves |
| Polling.StopAndRestart | src/trailermatic.c:142-539 | shut down in order and started again, the program has its bucket exactly if every entry can be stored, or, with nothing recorded, the file was right already |
| Polling.AlwaysPersisted | src/trailermatic.c:337-341 | between any two events of a run with completed saves the file reads back as the bucket, in order, so no restart loses anything |
| Polling.RestartKeepsHistory | src/trailermatic.c:512-539 | after any run with completed saves, stopped anywhere and started again with memory for every entry, the program has the same bucket; only its bound starts over |
| PollingRuns.LookDecides | src/trailermatic.c:315-356 | a URL is recorded exactly if it matches, the program downloads, its file is not present, it is not in the bucket and the response is 200; it goes in front (unless it is empty or without a node), at most one entry goes at the end, the bucket is marked changed and as much of it saved as can be written; otherwise nothing changes |
| PollingRuns.CutShort | src/state.c:59-83 | a save that was cut short leaves the newest entries to be read back, one that could not begin the old file |
| PollingRuns.WhereFrom | src/trailermatic.c:305-539 | whatever is in the bucket after a run was there before, was fetched with response 200 in the run, or was read from the state file by a restart |
| PollingRuns.FeedIs | src/trailermatic.c:371-398 | a fetched feed first makes the bound grow, on the first pass, by its items, and then each of its URLs is looked at, in order; one that could not be fetched does nothing |
| PollingRuns.PassSplits | src/trailermatic.c:519-532 | a pass is its feeds one after the other |
| PollingRuns.PollIs | src/trailermatic.c:513-539 | every URL of every fetched feed of every pass made is looked at, in order, and the bound is told to grow by the items of the first pass alone |
| PollingRuns.PollBound | src/trailermatic.c:386-389 | after any passes the bound is the configured one and the items of the first pass, in 16 bits |
| Polling.Session.constructor | src/trailermatic.c:512 | a session starts as the specification's restart does: with what its state file holds and memory allows, or with nothing if it cannot be read |
| Polling.Session.LookAt | src/trailermatic.c:315-356 | one URL: fetched only if matched, new and absent; recorded and saved only on response 200 |
| Polling.Session.ProcessFeed | src/trailermatic.c:371-398 | one feed is a run of the specification; the bound grows on the first pass only, modulo 65536 |
| Polling.Session.Poll | src/trailermatic.c:513-539 | the loop of `main` is a run of the specification, event for event |
| Polling.Session.Shutdown | src/trailermatic.c:142-151 | the specification's orderly stop: the bucket is saved once more if it changed |
| Base64.Encode | src/base64.c:31-91 | computes the encoding, with its NUL inside the allocation |
| Base64.Decode | src/base64.c:114-171 | computes the decoding of the longest alphabet prefix, with its NUL inside the allocation |
| Base64.Alphabet | src/base64.c:21 | the alphabet is that of Table 1 of RFC 4648 |
| Base64.Find | src/base64.c:97-105 | the value of an alphabet character, 255 for any other |
| Base64.EncodedLength | src/base64.c:31-91 | four characters for every three bytes begun |
| Base64.DecodedLength | src/base64.c:114-171 | three bytes for every four characters, and one less than is left over |
| Base64.DecodeEncode | src/base64.c:31-171 | decoding undoes encoding, for all byte strings, one- and two-byte tails included |
| Base64.EncodedBits | src/base64.c:48-86 | three bytes are written as the four 6-bit groups of their 24-bit number, one or two at the end filled up with zero bits and padding |
| Base64.DecodedBits | src/base64.c:133-168 | four characters are read as the three bytes of their 24-bit number, two or three at the end as the bytes they fill |
| Base64.EncodeDecode | src/base64.c:31-171 | encoding undoes decoding exactly on the canonical encodings of section 3.5 of RFC 4648 |
| Base64.DecodeFitsWhen | src/base64.c:126-168 | the decoder's allocation suffices exactly if the text is not all alphabet with a length of 3 modulo 4 |
| UrlCode.Encode | src/urlcode.c:21-37 | computes the encoding as one NUL-terminated string, inside the allocation |
| UrlCode.EncodeWhitespace | src/urlcode.c:39-53 | computes the encoding of spaces alone, inside the allocation |
| UrlCode.Decode | src/urlcode.c:58-78 | computes the decoding, inside the allocation, and reads nothing behind the NUL |
| UrlCode.PairOfEscape | src/urlcode.c:9-17 | two hexadecimal digits give back the character they were made of, for all 256 |
| UrlCode.DecodeEncode | src/urlcode.c:21-78 | decoding undoes encoding, for every string |
| UrlCode.EncodedCharacter | src/urlcode.c:21-53 | letters, digits and "-._~" stay, a space becomes "+", every other character "%" and the two lower-case hexadecimal digits of its code; of spaces alone, "%20" |
| UrlCode.EncodedBoth | src/urlcode.c:21-53 | a string is encoded character by character |
| UrlCode.DecodedFirst | src/urlcode.c:58-78 | an escape with digits in either case becomes its character, "+" a space, "%" with fewer than two characters behind it nothing, and others stay |
| UrlCode.EncodedIsSendable | src/urlcode.c:21-37 | only unreserved characters, '%' and '+' come out |
| UrlCode.EncodedLength | src/urlcode.c:21-37 | two characters more for each one escaped, so at most three times the length |
| UrlCode.DecodedLength | src/urlcode.c:58-78 | decoding never lengthens |
| UrlCode.DecodeSpaceEncode | src/urlcode.c:39-78 | decoding undoes the encoding of spaces exactly on strings without '%' and '+' |
| WebBuffer.Doubled | src/web.c:140-143 | the doubling loop ends, with at least what is needed and less than twice that |
| WebBuffer.HTTPData.WriteData | src/web.c:126-155 | one chunk: the buffer becomes what the specification says, ends with a NUL, and the chunk is reported as taken in any case |
| WebBuffer.HTTPData.ContentLength | src/web.c:95-107 | the announced length and one more byte are allocated |
| WebBuffer.ResponseIsWhole | src/web.c:95-155 | after any header lines and chunks, all memory granted, the buffer holds the chunks one after the other and nothing else, in at most the larger of its first size and twice what is stored |
| WebBuffer.SizeIsBounded | src/web.c:126-155 | the same bound, with the default size besides, whatever allocations fail |
| WebBuffer.LengthKept | src/web.c:95-155 | a body within its announced length never causes another allocation |
| WebBuffer.ChunkIsKept | src/web.c:132-152 | a chunk is added without loss exactly if the memory it needs is granted and no earlier failure dropped the buffer |

## Left out

- The emergency branch of `mwRelink`: of it only the answer for an empty heap is modelled. At
  src/memwatch.c:1752 and 1794 it negates before it compares, so it does not test what it means to.
- The urgent phase of `mwFreeUp`: every caller passes 0.
- Damage to more than one header, and to a header's size or count: the chain's contracts allow one block with
  arbitrary links, checksum and file.
- Address probing and SIGSEGV, mutexes, log files, ARI prompts, report formatting, the FBI overwrite, `mwStrdup`,
  and `mwTestNow`, whose walk has no termination argument on a damaged heap.
- Pointer arithmetic: a map from payload addresses to blocks stands for it. An address whose memory was given
  back counts as one that fails `mwIsSafeAddr`.
- Overflow of memwatch's `long` counters: they are unbounded here. Sizes, their sum with the overhead, the
  product in `mwCalloc` and the cast of a size to `long` are modelled at 64 bits.
- What the text of a marker is made of, and the contents of grabbed kilobytes.
- MwStatLaws.ReportAddsUp: speaks of the records, whose file names are compared exactly; the printed report
  groups line records by a case-insensitive prefix of the name (src/memwatch.c:2277) and is not modelled.
- MwTracker.Tracker.Free: without a file name, requires that the pointer is not the inside of a tracked block,
  since the C library's `free` is called on it.
- MwTracker.Tracker.Realloc: requires the same.
- MwChain.Chain.Unlink: assumes a well-formed chain; the source also copes with neighbours that do not point
  back, and then leaves them alone.
- MwChain.Chain.Relink: assumes that all links but those of the argument are intact.
- MwChain.Chain.TestBuf: assumes that the recorded size is the true one.
- The attempt of `mwIsOwned` to tell corrupted headers from foreign ones in its messages.
- StateFile.SaveState: requires URLs of at most 299 characters, because the line buffer holds no more and the
  source does not check.
- Polling.Session.LookAt: has the same bound on URLs.
- Polling.Session.ProcessFeed: requires URLs of at most 299 characters, as above.
- Polling.Session.Poll: requires URLs of at most 299 characters, as above.
- List functions that only add easy members: `freeList`, `removeFirst`, `printList`.
- Reading a feed from a file, redirects, cookies, curl, Prowl, PCRE, libxml, configuration, daemon and signals.
- Downloads.AddToBucket: assumes that the copy of the URL can be allocated; `am_strndup` writes to it without
  a check (src/utils.c:101-109).
- StateFile.LoadState: assumes the same of the copy of each entry.
- MwMarks.MarkList.DoMark: markers are a class of their own, so that `mwMark`, too, starts memwatch
  (src/memwatch.c:725) is not said.
- Base64.Encode: assumes that its buffer can be allocated, which the source does not check, and requires
  lengths whose allocation size fits 32 bits.
- Base64.Decode: assumes that its buffer can be allocated, which the source does not check, and requires that the allocation suffices, since a write behind it has no meaning here;
  `DecodeFitsWhen` says when that is.
- UrlCode.Encode: assumes that its buffer can be allocated; the source does not check.
- UrlCode.EncodeWhitespace: the same.
- UrlCode.Decode: the same.
- WebBuffer.HTTPData.ContentLength: models one response, with its length lines before its body; a length of
  2^31 - 1 or more overflows in the source.
- WebBuffer.HTTPData.WriteData: requires that doubling does not overflow `size_t`.
