# Inter-line coordination of the overhead controller: a verified model

An overhead line weighs birds hanging from shackles and drops them into bins
("drops"). Up to four lines share drops. The controllers coordinate over an
unreliable link; inside one controller, threads talk through semaphore
mailboxes. This project models that coordination layer and the small codecs and
allocators beside it, and proves what the code is there for.

* **Command protocol** - `CommandProtocol` (with `MaintQueue`, `WriteQueue`,
  `Messages`, `CyclicScan`). All four lines, an adversarial network that loses,
  delays, repeats and reorders but does not forge, and every interleaving of the
  threads. A command has two numbers: the drop manager's (`dmSeq`) and the write
  queue's (`seqNum`), and both counters come round. Main results:
  * `CommandNumbers` - a command the drop manager removes on a response was executed
    at its line since it was issued, exactly as issued, and then acknowledged; for
    every run, over any number of rounds of the counter, in which no number is given
    out that a command still under way has.
  * `AckNumbers` - an ack frees the entry it answers and no other, and that entry was
    posted since it was queued; for every run in which no write-queue number is given
    out under which a posted message may still be acknowledged.
  * `RemovalCounts` - what was issued once is removed at most once.
  * `WriteRetries` - a message that wants an ack and gets none is posted and given up
    to the look.
  * `CommandFate` - until a counter comes round, every command accepted is removed,
    reported failed or thrown away with the table within a fixed number of looks.
  * `ReusedNumbers`, `ReusedWriteNumbers` - what a number in use does when it is given
    out again, and runs from the start in which a counter comes round to one.

  Two commands, or two messages, that say the same are still two: the model tags each
  with its place in the history (`issue`, `entry`). The tags are not sent and nothing
  decides by them; they let the theorems say which of two equal commands was executed.
* **Threads** - `Mailbox` (one mailbox, byte by byte), `IpcDeadlock` (the two
  mailboxes and the mutex of the write queue together), `RxQueue` (the receive
  queue between RxServer and ISysThread).
* **Drop decisions** - `IsysDrops`, `DropCutoffs`, `StallOverride` with `StallTiming`
  (when its timer acts, told by settings, flag bits and reported numbers),
  `ExecuteMessage`.
* **Batch labels** - `BatchLabelSlots` (number allocator, slot choice),
  `BatchNumbers` (the numbers a counter gives out, over runs of allocations),
  `LabelLifecycle` (whole runs of opens, host answers, clears and resets) and
  `BatchReplies` (which numbers the lines send each other).
* **TCP server** - `TcpFraming` (stream decoder), `TcpClients` (slot table).
* **ISPD load cell** - `IspdFifo` (printer and ring), `IspdFramer` (line framer
  and parser), `IspdStream` (both ends together), `IspdLines` (the lines byte by byte).
* **Checksummed files** - `ChecksumFile`, over `Bytes`, and `FileIntegrity` (files told
  by their bytes).

Code that updates state in place is modelled by classes whose methods are proved
against functions on values; runs and interleavings are step systems over the
same functions. `hide` statements in proofs only keep the solver's context small.

Where a promise turned out to hold under a condition only, the code is kept as it
is and the condition is proved to be the exact one, as an equivalence:

| promise | holds exactly if | failing input |
|---|---|---|
| a drop-manager number names one command | `CommandNumbers.NumbersAgreeExactly` | `ReusedNumbers.WrapRunRemovesUnexecuted` |
| a write-queue entry meets its own acks only, and they find it | `AckNumbers.EntriesMeetTheirAcksExactly` | `ReusedWriteNumbers.WrapRunFreesUnposted` |
| a label slot does not leak | `LabelLifecycle.LeaksExactly` | `LabelLifecycle.LeakHappens` |
| a late repeat of a command is harmless | `ExecuteMessage.LateRepeatHarmlessExactly` | the same |
| the batch-loop reset ends | `ExecuteMessage.EndsExactlyWhenLinksEnd` | `ExecuteMessage.DefaultLinksNeverEnd` |
| a master stops whom it may | `DropCutoffs.StopsEverybodyItMay`, `DropCutoffs.SeveralOpenExactly` | `DropCutoffs.StrayMarkStopsNobody` |
| overrides follow full stalls | `StallOverride.FullStallsExactlyWithoutWeight` | the same |
| the overrides of a drop keep the sharing lines' count | `StallOverride.SharingKeptExactly` | `StallOverride.InactiveLineOpened` |
| the older counter is picked | `BatchLabelSlots.WrappedBeforeRightExactly` | `BatchLabelSlots.WideSpanPicksTheYounger` |
| the cutting of a stream does not matter | `TcpFraming.CutsMatterExactly` | the same |
| what was written reads back | `ChecksumFile.AppendsReadBack` | the same |
| a measured value stays in 64 bits | `IspdFramer.InRangeExactly` | the same |

What was found, in short:

* Once the drop manager's counter has come round to the number of a command posted
  long ago, that old message, or an old ack of it, removes the new command without
  its being executed - also if the new command says just the same. Likewise an old ack
  frees an entry of the write queue that was never posted: a line that checks a port
  under the number of an earlier check takes the old answer for the new one. Neither
  counter is compared with anything when it restarts at 1.
* The stall override binds the test of the line to the count alone (operator
  precedence, DropManager.cpp lines 216-223): with a weight setpoint it can close
  a line that was not the stalled one. It also searches the line to open among
  the drop's lines without asking whether that line is active.
* The count of open lines (DropManager.cpp lines 1211-1221) takes BATCHED flags into
  account of lines that do not have the drop: one left over on such a line can keep
  the master from stopping anybody.
* The batch-loop reset never ends if the NextEntry links leave the table other
  than by 0, or run into a circle that misses the start. The default links
  (overhead.cpp line 2253) make the last drop point past the table, so with them it
  never ends, whatever the start.
* A late duplicate of a set-flags command undoes a newer one; nothing at the
  receiver rejects it.
* The file buffer is MAXFILEBUFFER bytes including the checksum, so the four
  largest totals up to the stated limit fail.
* The outer lock of hWQ that is commented out in ProcessRx could bring three
  threads to a standstill with the first message each way, were the waits for
  hWQ not timed.
* A label slot whose pre-label has not begun is stranded when its drop is cleared
  while it counts as batched out (DropManager.cpp line 1422 sets that for every drop
  of several lines, the last bird is marked for local drops only), when the reset
  station wipes the drop, when a batch reply or a temporary number overwrites its
  number, or when its marked bird is weighed again after the drop went on - each
  time with no other marked bird on its way. From the host's answer of the 310 on,
  earlier or later, it leaks, until a 319, the line that does have the last bird, an
  unasked 321, or a full table helps.

Check it with `dafny verify dfyconfig.toml`.

## Model

| member | source | states |
|---|---|---|
| `CommandNumbers.RemovedMeansExecuted` | linux_port/overhead/InterSystems.cpp:1061-1256 | in every run that gives out no number a command under way has, over any rounds of the counter: each command removed on DROP_MAINT_RESP was issued once, then executed at its line exactly as issued, then its ack was posted, then it was removed; an equal command of another round counts for nothing |
| `CommandNumbers.NumbersAgreeExactly` | linux_port/overhead/DropManager.cpp:1912-1917 | in every run: at all times the number of each waiting command is that of no other under way, if and only if each number given out was not that of any command waiting, in the mailbox, queued or posted, equal or not |
| `CommandNumbers.IssueAgreesExactly` | linux_port/overhead/DropManager.cpp:1912-1937 | giving out one number keeps that if and only if no command under way has it |
| `CommandNumbers.NoWrapIsFresh` | linux_port/overhead/DropManager.cpp:1912-1917 | until a counter comes round every number given out is such a number |
| `CommandNumbers.AckJustifiesRemoval` | linux_port/overhead/DropManager.cpp:1823-1864 | an ack names by its drop-manager number only commands to its sender, and those its sender has executed |
| `CommandNumbers.NumberNamesOneCommand` | linux_port/overhead/DropManager.cpp:1912-1917 | while numbers rise the history decides which command carries a number |
| `ReusedNumbers.WrapRunRemovesUnexecuted` | linux_port/overhead/DropManager.cpp:1912-1917 | for any command, one equal to an earlier one included, a run from the start in which the counter comes round and it is removed as done though its line never executed it |
| `ReusedNumbers.UnfreshIssueHarms` | linux_port/overhead/DropManager.cpp:1823-1937 | whenever a number is given out that a command waiting, in the mailbox, queued or posted has, and the lines are at their loops with room for a message, at most six steps of theirs remove one of the two unexecuted |
| `ReusedNumbers.ReusedNumberHarms` | linux_port/overhead/DropManager.cpp:1823-1864 | for a posted one four steps do: delivered once more, executed, acknowledged, and the other is removed |
| `RemovalCounts.RemovedAtMostIssued` | linux_port/overhead/DropManager.cpp:1823-1864 | in every run, counters wrapping or not, a command is removed at most as often as it was issued |
| `RemovalCounts.EachRemovedOnce` | linux_port/overhead/DropManager.cpp:1823-1864 | in every run no two removals are of the same giving out of a command |
| `RemovalCounts.RemovedOnce` | linux_port/overhead/DropManager.cpp:1823-1864 | until a counter comes round no line removes two commands of the same number |
| `AckNumbers.EntriesMeetTheirAcksExactly` | linux_port/overhead/InterSystems.cpp:1744-1749 | in every run: at all times under the number of a live entry nothing but its own posting may be acknowledged, and its ack finds it, if and only if no number was given out that a posted message had that may be acknowledged, equal or not, or a live entry, unless neither wants an ack |
| `AckNumbers.AddCleanExactly` | linux_port/overhead/InterSystems.cpp:1736-1763 | the same for one number given out |
| `AckNumbers.AckFreesItsOwn` | linux_port/overhead/InterSystems.cpp:1781-1796 | in such a run an ack, early, late or repeated, frees exactly the live entry with its number; since that entry was queued, and it was queued once, it was posted and its destination answered it |
| `AckNumbers.BothNumbersNameOneCommand` | linux_port/overhead/InterSystems.cpp:1138-1147 | in such a run the live entry an ack frees by its first number carries the command its second number removes |
| `AckNumbers.BothNumbersUntilWrap` | linux_port/overhead/InterSystems.cpp:1138-1147 | until a counter comes round that holds of any slot with the first number, live or stale |
| `AckNumbers.NoWriteWrapIsFresh` | linux_port/overhead/InterSystems.cpp:1744-1749 | until a counter comes round every write-queue number given out is fresh |
| `AckNumbers.AnswersReached` | linux_port/overhead/InterSystems.cpp:1086-1236 | in every run each ack queued or posted answers a message its destination posted to the sender, and only acks make a line free an entry |
| `AckNumbers.SeqsReached` | linux_port/overhead/InterSystems.cpp:1724-1808 | until a counter comes round what was posted under a number is what any slot with that number carries |
| `ReusedWriteNumbers.WrapRunFreesUnposted` | linux_port/overhead/InterSystems.cpp:1744-1749 | for any message a line sends, a port check like the first included, a run from the start in which the counter comes round and its entry is freed as delivered though it was never posted |
| `ReusedWriteNumbers.ReusedWriteNumberHarms` | linux_port/overhead/InterSystems.cpp:1781-1796 | whenever the number of a posted message is given to another entry, if only for the same message again, and both lines are at their loops with room for an ack, at most five steps of theirs free that entry unposted and no other |
| `ReusedWriteNumbers.SharedWriteNumberHarms` | linux_port/overhead/InterSystems.cpp:1781-1796 | whenever two live entries share a number, the ack of the one that is not met first frees the other, in at most six steps |
| `CommandFate.EveryCommandMeetsItsFate` | linux_port/overhead/InterSystems.cpp:800-1017 | until a counter comes round and if nothing is lost on the way into the write queue: after 2*(ISYS_MSGTMO+2) looks at its slot a command does not wait any more, and it was removed as done, reported failed or thrown away with the table |
| `CommandFate.WaitEnds` | linux_port/overhead/DropManager.cpp:1779-1976 | there is no other way for a command to stop waiting |
| `CommandFate.FateReached` | linux_port/overhead/DropManager.cpp:1885-1937 | in such a run a waiting command is in the mailbox or in one live entry, and is told of before its entry is freed |
| `CommandProtocol.ExecutedIsACall` | linux_port/overhead/InterSystems.cpp:1249-1254 | each execution in the history is a call of ExecuteMessage by that line's thread, for that source and command |
| `CommandProtocol.ExecutedMeansIssued` | linux_port/overhead/InterSystems.cpp:1212-1254 | no line executes a command that was not issued and posted to it, exactly so, before |
| `CommandProtocol.InvKept` | linux_port/overhead/InterSystems.cpp:255-368 | every step of every thread of every line keeps the global invariant |
| `CommandProtocol.InvReached` | linux_port/overhead/InterSystems.cpp:255-368 | the global invariant holds after every run |
| `CommandProtocol.IssueKeeps` | linux_port/overhead/DropManager.cpp:1873-1937 | issuing, refusing and flushing keep the invariant |
| `CommandProtocol.LookKeeps` | linux_port/overhead/InterSystems.cpp:800-956 | posting, timing, retrying and giving up keep it |
| `CommandProtocol.ReceiveKeeps` | linux_port/overhead/InterSystems.cpp:1023-1256 | receiving any posted message, again or late, keeps it |
| `CommandProtocol.ExecuteKeeps` | linux_port/overhead/InterSystems.cpp:1246-1254 | executing after the ack is queued keeps it: the ack is only posted by the same thread later |
| `CommandProtocol.AnswerMeans` | linux_port/overhead/InterSystems.cpp:1195-1241 | what acknowledges a message, field by field: back to the sender, with the message's number and, of a command, its drop, action, drop-manager number and batch - a batch request gets the number given - and no flags |
| `CommandProtocol.ReceivingMeans` | linux_port/overhead/InterSystems.cpp:1212-1256 | a command received: its ack, if wanted, into the first unused slot without retries, and every command but a batch request is executed next |
| `MaintQueue.TrialMeans` | linux_port/overhead/DropManager.cpp:1885-1976 | one trial, field by field: no slot free, all are freed with their commands kept; a line out of 1 to 4 or unreachable changes nothing; otherwise the first free slot gets the command under the next number, 1 again from 0xfffffff0 on |
| `MaintQueue.DrpCtlWrtQ.Add` | linux_port/overhead/DropManager.cpp:1885-1976 | MaintainMsgQ add: from the first free slot on, numbered and stored until SendIsysMsg takes it; refused; or, with no slot left, the whole queue thrown away |
| `MaintQueue.AddedIsTrials` | linux_port/overhead/DropManager.cpp:1885-1976 | that loop is a row of trials of the first free slot, ended by the first that is refused, taken or without a slot |
| `MaintQueue.DrpCtlWrtQ.RemoveMsg` | linux_port/overhead/DropManager.cpp:1823-1864 | frees every slot with the number, none for 0, and says which commands that took out |
| `MaintQueue.DrpCtlWrtQ.RemoveFailedMsg` | linux_port/overhead/DropManager.cpp:1779-1812 | frees every slot with the number |
| `MaintQueue.TakenExactly` | linux_port/overhead/DropManager.cpp:1823-1864 | the commands taken out are those in use with that number and no others |
| `WriteQueue.WrtQ.Add` | linux_port/overhead/InterSystems.cpp:1736-1763 | ISYS_ADDQ: first unused slot, numbered, active; fails exactly when none is unused |
| `WriteQueue.WrtQ.DeleteSeq` | linux_port/overhead/InterSystems.cpp:1781-1796 | ISYS_DELQ1 frees the first slot with the number, live or stale |
| `WriteQueue.WrtQ.DeleteIndex` | linux_port/overhead/InterSystems.cpp:1766-1779 | ISYS_DELQ frees the slot at an index in range and nothing else |
| `WriteQueue.WrtQ.CleanUp` | linux_port/overhead/InterSystems.cpp:962-1017 | reports the fate of a command and frees its slot |
| `WriteQueue.WrtQ.VisitSlot` | linux_port/overhead/InterSystems.cpp:811-948 | one visit: post, count down, retry or give up; other slots untouched |
| `WriteQueue.WrtQ.ProcessWrites` | linux_port/overhead/InterSystems.cpp:800-956 | from any last_tx every slot is visited exactly once, in cyclic order, and the scan ends where it began |
| `WriteQueue.SeqInvReached` | linux_port/overhead/InterSystems.cpp:1744-1749 | over every run of fewer than the wrap limit of sends: nonzero numbers in slots, live or stale, are distinct and below the next one |
| `WriteQueue.AckHitsOnlyItsOwn` | linux_port/overhead/InterSystems.cpp:1781-1796 | a late or repeated ack changes only a slot that carries its number |
| `WriteQueue.AddKeepsAckInvExactly` | linux_port/overhead/InterSystems.cpp:1744-1749 | an ack goes on meeting the live entry with its number first, in the table, if and only if no live entry still has the number given out |
| `WriteQueue.AckFindsLive` | linux_port/overhead/InterSystems.cpp:1781-1796 | while acks are unambiguous the ack of a live entry frees that entry |
| `WriteQueue.TidyReached` | linux_port/overhead/InterSystems.cpp:1724-1808 | in every run a slot is in use exactly when it is active |
| `WriteQueue.VisitProgress` | linux_port/overhead/InterSystems.cpp:811-948 | each visit uses up one visit left, each post one post left |
| `WriteQueue.PostedExactlyWhenPosting` | linux_port/overhead/InterSystems.cpp:811-841 | a visit posts the slot's message exactly when it is active and not yet written |
| `WriteQueue.EntryBound` | linux_port/overhead/InterSystems.cpp:800-956 | over any run of sends, acks and visits the bounds on posts and visits hold |
| `WriteQueue.FreshEntryBound` | linux_port/overhead/InterSystems.cpp:800-956 | an entry with r retries is posted at most r+1 times and gone after (r+1)*(ISYS_MSGTMO+2) visits |
| `WriteQueue.GoneAfterCalls` | linux_port/overhead/InterSystems.cpp:800-956 | an entry with r retries has left the queue after (r+1)*(ISYS_MSGTMO+2) calls of ProcessWrites and was posted at most r+1 times, whatever is sent and acknowledged between any two visits |
| `WriteQueue.CallHoldsOneCall` | linux_port/overhead/InterSystems.cpp:807-951 | a call started at any last_tx looks at every slot exactly once |
| `WriteQueue.FateReported` | linux_port/overhead/InterSystems.cpp:962-1017 | a command that wants an ack is reported failed exactly when a visit takes it out, and never reported done by a visit |
| `WriteQueue.GoneOncePosted` | linux_port/overhead/InterSystems.cpp:843-878 | an ack, or a message that wants none, leaves with its first successful post and nothing is reported |
| `WriteRetries.UnackedExactly` | linux_port/overhead/InterSystems.cpp:800-956 | a message that wants an ack and gets none, with r retries, is in the queue for exactly (r+1)*302 looks at its slot and is posted at the first and every 302nd after it, r+1 times in all, whatever else is sent and acknowledged |
| `WriteRetries.UnackedStays` | linux_port/overhead/InterSystems.cpp:800-956 | the same from any live entry on, by what it has left |
| `WriteRetries.ReportsInOrder` | linux_port/overhead/InterSystems.cpp:800-956 | a call posts and reports for the slots from last_tx on in their order, and then for those in front of it |
| `CyclicScan.TurnsCover` | linux_port/overhead/InterSystems.cpp:950-951 | a cyclic scan of n turns meets every slot exactly once |
| `RxQueue.RdQ.Store` | linux_port/overhead/InterSystems.cpp:727-738 | the message goes whole into the first unused slot, or nowhere when all are used |
| `RxQueue.RdQ.ProcessAll` | linux_port/overhead/InterSystems.cpp:293-309 | one turn processes every used slot once, in cyclic order, and frees it |
| `RxQueue.PassInOrder` | linux_port/overhead/InterSystems.cpp:293-309 | a pass processes what the used slots from last_rx on hold, in their order, and then those in front of it |
| `RxQueue.NothingLostOrTwice` | linux_port/overhead/InterSystems.cpp:293-309 | under every interleaving, byte by byte: stored equals processed plus held, each message whole and once |
| `RxQueue.DroppedOnlyWhenAllUsed` | linux_port/overhead/InterSystems.cpp:727-738 | a message is dropped only if its scan met every slot in use |
| `RxQueue.InvKept` | linux_port/overhead/InterSystems.cpp:727-738 | no slot is marked used before it is wholly copied, none is overwritten while used |
| `RxQueue.BalanceKept` | linux_port/overhead/InterSystems.cpp:293-309 | each step of either thread keeps the balance of every message |
| `Mailbox.InvReached` | linux_port/overhead/InterSystems.cpp:1308-1360 | the mailbox invariant holds after every run of any number of clients, whatever count was left in the ack semaphore |
| `Mailbox.InvKept` | linux_port/overhead/DropManager.cpp:650-702 | every action of any client or the server keeps it |
| `Mailbox.ExactlyOnce` | linux_port/overhead/DropManager.cpp:520-545 | posts are handled in order, unaltered, exactly once; calls return in the order of their posts |
| `Mailbox.ReturnMeansHandled` | linux_port/overhead/InterSystems.cpp:1337-1351 | a client returns NO_ERRORS only after the server handled that client's own message |
| `Mailbox.BufferStable` | linux_port/overhead/InterSystems.cpp:1315-1319 | the buffer does not change while the server reads or handles it |
| `Mailbox.UncheckedReturnsEarly` | linux_port/overhead/InterSystems.cpp:1337-1351 | without the test of Ack, a left-over count lets a client return before its message is handled |
| `Mailbox.SomeoneCanAct` | linux_port/overhead/InterSystems.cpp:1337-1351 | while a client is inside, it or the server can act |
| `Mailbox.WorkDecreases` | linux_port/overhead/InterSystems.cpp:1308-1360 | every action of the two uses up work, so every post ends |
| `IpcDeadlock.NoWaitingCycle` | linux_port/overhead/InterSystems.cpp:1138-1147 | in every run no chain of threads waiting for each other, through acks, mailbox ownership or hWQ, closes into a cycle |
| `IpcDeadlock.SomebodyCanGoOn` | linux_port/overhead/DropManager.cpp:679-693 | in every run each busy thread can act or heads a chain of waits that ends with one that can |
| `IpcDeadlock.WaitsDescend` | linux_port/overhead/InterSystems.cpp:604-640 | waits go only from ISysThread to the drop manager to InterSystems to hWQ |
| `IpcDeadlock.InvKept` | linux_port/overhead/InterSystems.cpp:962-1017 | nobody comes to wait for an ack with hWQ in hand |
| `IpcDeadlock.OuterLockDeadlocks` | linux_port/overhead/InterSystems.cpp:1063-1069 | with the outer lock that is commented out there, a standstill of three threads is reachable from the start |
| `IpcDeadlock.StuckForever` | linux_port/overhead/InterSystems.cpp:1063-1069 | no step of anybody ends that standstill |
| `IpcDeadlock.StuckIsACycle` | linux_port/overhead/InterSystems.cpp:1063-1069 | the standstill is a cycle of waits |
| `IsysDrops.OneMaster` | linux_port/overhead/overheadmacros.h:268-288 | lines that share a drop and have lost nobody agree on its master |
| `IsysDrops.MasterExactly` | linux_port/overhead/overheadmacros.h:268-288 | which line is the master: the first up to this one that has the drop and is not lost, if this line has it; none exactly if there is no such line |
| `IsysDrops.OneOpen` | linux_port/overhead/DropManager.cpp:204 | all but one of the sharing lines are batched if and only if one line alone is open |
| `DropCutoffs.SharedDrop.CheckDropCutoffs` | linux_port/overhead/DropManager.cpp:1068-1312 | the whole decision: verdict, flags and requests |
| `DropCutoffs.SharedDrop.StopLines` | linux_port/overhead/DropManager.cpp:1238-1293 | the loop over the lines, in place |
| `DropCutoffs.SharedDrop.OpenLines` | linux_port/overhead/DropManager.cpp:1211-1221 | the count that decides whether several lines are open |
| `DropCutoffs.StopsInBits` | linux_port/overhead/DropManager.cpp:1088-1293 | every bit of every flag word after a check: SUSPENDED is added by a BPM check and BATCHED by the others, to a line of the drop without OVERRIDE, not the fastest until the setpoint, by the master, from the slow-down on, with two open lines more than stray flags; nothing else changes |
| `DropCutoffs.AtCutoffExactly` | linux_port/overhead/DropManager.cpp:1088-1175 | where the cut-off lies, by the setpoints and slow-down values themselves, the quotient of weight and count rounded to 0 |
| `DropCutoffs.StopReturned` | linux_port/overhead/DropManager.cpp:1187-1312 | what the check returns: stop-all exactly from setpoint and cut-off on, stop exactly then - for a BPM check on the master - or when this line's own flags changed |
| `DropCutoffs.SetpointBatchesAll` | linux_port/overhead/DropManager.cpp:1211-1293 | a count or weight check at the setpoint that is not cut short leaves every line of the drop without OVERRIDE batched |
| `DropCutoffs.BpmKeepsSeveralOpen` | linux_port/overhead/DropManager.cpp:1171-1221 | a BPM check never changes whether several lines are open |
| `DropCutoffs.OnlyStopsWhomItMay` | linux_port/overhead/DropManager.cpp:1238-1293 | no flag is cleared; lines without the drop or with OVERRIDE are left alone; the fastest line only from the setpoint on; only the master stops anybody; and exactly when a line changes |
| `DropCutoffs.StopsEverybodyItMay` | linux_port/overhead/DropManager.cpp:1211-1293 | from the cut-off on the master leaves running whom it may stop if and only if fewer than two of the drop's open lines are left over the stray BATCHED flags of other lines |
| `DropCutoffs.SeveralOpenExactly` | linux_port/overhead/DropManager.cpp:1211-1221 | the source takes several lines to be open if and only if the open ones exceed the stray flags by two |
| `DropCutoffs.StrayMarkStopsNobody` | linux_port/overhead/DropManager.cpp:1211-1221 | two open lines and one stray flag: the master stops nobody, even at the setpoint |
| `DropCutoffs.OneRequestPerChange` | linux_port/overhead/DropManager.cpp:1256-1278 | exactly one request, in line order, for each remote line whose flags changed, carrying its new flags |
| `DropCutoffs.RepeatIsQuiet` | linux_port/overhead/DropManager.cpp:1068-1312 | a repeat at the same or a lower count changes no flag and requests nothing |
| `DropCutoffs.SetpointNeverMissed` | linux_port/overhead/DropManager.cpp:1187-1194 | at the setpoint a check always says stop all, and stops this line unless it is not the master and waits for the BPM reset |
| `DropCutoffs.CutoffNotAbove` | linux_port/overhead/DropManager.cpp:1088-1172 | the cut-off is never above the setpoint |
| `DropCutoffs.EarlyStopMeansFlagged` | linux_port/overhead/DropManager.cpp:1298-1311 | below the setpoint this line stops only by being flagged as master and not as the fastest |
| `StallOverride.DropTimer.Fire` | linux_port/overhead/DropManager.cpp:150-316 | one firing of the timer for a drop: record, flags, fastest line, local drop and messages |
| `StallOverride.DropTimer.Survey` | linux_port/overhead/DropManager.cpp:170-204 | the counting loop recognises exactly the stalled condition and the open line |
| `StallOverride.DropTimer.DoOverride` | linux_port/overhead/DropManager.cpp:243-296 | opens the first batched line, closes the stalled one, tells both |
| `StallTiming.OnlyMasterActs` | linux_port/overhead/DropManager.cpp:131-168 | a line that is no InterSystems master, is inactive or lacks the drop, or a drop in no batch mode: in every run of ticks nothing is done and nothing recorded |
| `StallTiming.OverrideExactlyByCount` | linux_port/overhead/DropManager.cpp:131-316 | with a count setpoint alone, in every run: after the start or a broken condition an override comes exactly when one line has stood alone with an unchanged 32-bit count for two ticks a second of the delay, or 20, and it closes that line |
| `StallTiming.OverrideExactlyByWeight` | linux_port/overhead/DropManager.cpp:131-316 | with a weight setpoint alone: exactly when some line has stood alone at one weight for as long |
| `StallTiming.OverrideNeedsRow` | linux_port/overhead/DropManager.cpp:215-234 | with any setpoints an override ends a row of that many ticks that all fit one line, count and weight |
| `StallTiming.NoSetpointNoOverride` | linux_port/overhead/DropManager.cpp:215-223 | without setpoints there is none |
| `StallTiming.OverrideMeans` | linux_port/overhead/DropManager.cpp:243-296 | an override in bits and messages: the first batched line of the drop loses BATCHED and gets OVERRIDE, the line alone open the reverse, and each is told its new flags under its own id and drop number unless it is this line |
| `StallOverride.OverrideNeedsFullStall` | linux_port/overhead/DropManager.cpp:204-296 | without a weight setpoint, each override ends a full row of consecutive ticks with the same line alone open and an unchanged count |
| `StallOverride.OverridesApart` | linux_port/overhead/DropManager.cpp:204-214 | between two overrides of a drop some tick broke the condition |
| `StallOverride.OverrideKeepsCount` | linux_port/overhead/DropManager.cpp:243-296 | an override keeps the number of BATCHED lines; among the sharing lines exactly when the first batched line of the drop is active |
| `StallOverride.SharingKeptExactly` | linux_port/overhead/DropManager.cpp:243-262 | over every run of ticks from the start, the overrides of a drop keep the sharing lines' count if and only if two sharing lines come before each inactive line of the drop |
| `StallOverride.InactiveLineOpened` | linux_port/overhead/DropManager.cpp:243-262 | otherwise a run of ticks from the start ends with an override that opens an inactive line |
| `StallOverride.FullStallsExactlyWithoutWeight` | linux_port/overhead/DropManager.cpp:215-223 | a shared drop can rely on full stalls if and only if it has no weight setpoint |
| `StallOverride.RecordHonest` | linux_port/overhead/DropManager.cpp:299-316 | a record that has not run out describes the last ticks without a gap |
| `ExecuteMessage.LineDrops.Execute` | linux_port/overhead/DropManager.cpp:1664-1768 | a received command's effect on the drops |
| `ExecuteMessage.LineDrops.SetLineFlags` | linux_port/overhead/DropManager.cpp:1686-1719 | set-flags for one drop or all |
| `ExecuteMessage.LineDrops.FollowLoop` | linux_port/overhead/DropManager.cpp:1743-1755 | the first so many turns of the reset loop, and whether it has ended |
| `ExecuteMessage.LineDrops.Clear` | linux_port/overhead/overheadmacros.h:67-89 | clearing a drop's batch, its lines' counts and flags, and its fastest line |
| `ExecuteMessage.ResetMeans` | linux_port/overhead/overheadmacros.h:67-89 | a batch-loop reset that ends, field by field: at each drop it reaches no batch is left - flags of the drop false, number, count and weight 0, its lines' counts and numbers 0, their words without BATCHED and OVERRIDE and otherwise as they were - and the fastest line is the master, or the only sharing line; every other drop is unchanged |
| `ExecuteMessage.SetFlagsMeans` | linux_port/overhead/DropManager.cpp:1686-1719 | a set-flags command, field by field: at each drop it is for, this line's word, Batched and Suspended follow the flags sent, and for one drop the fastest line is this one exactly on OVERRIDE without BATCHED; nothing else changes |
| `ExecuteMessage.OtherCommandsMean` | linux_port/overhead/DropManager.cpp:1721-1766 | a BPM reset asks for a reset of the BPM and leaves the drops alone, a batch request does neither |
| `ExecuteMessage.RetryHarmless` | linux_port/overhead/DropManager.cpp:1686-1766 | any command executed twice in a row leaves what once leaves |
| `ExecuteMessage.CommandsKeepAgreement` | linux_port/overhead/DropManager.cpp:1686-1766 | every command keeps Batched and Suspended in agreement with the line's own flag word, and set-flags establishes it with the flags it carries |
| `ExecuteMessage.ClearedTwice` | linux_port/overhead/overheadmacros.h:67-89 | clearing a drop again changes nothing, fastest line included |
| `ExecuteMessage.LateRepeatHarmlessExactly` | linux_port/overhead/DropManager.cpp:1686-1719 | a late repeat of a set-flags command, for one drop or all, after any newer ones, is harmless if and only if at each drop it is for the last command had its flags; otherwise it undoes them there |
| `ExecuteMessage.InjectiveLinksEnd` | linux_port/overhead/DropManager.cpp:1743-1755 | links in range and injective: the reset ends within NumDrops turns |
| `ExecuteMessage.EndsInTimeOrNever` | linux_port/overhead/DropManager.cpp:1743-1755 | whatever the links, it ends within NumDrops turns or never |
| `ExecuteMessage.EndsExactlyWhenLinksEnd` | linux_port/overhead/DropManager.cpp:1743-1755 | it ends if and only if the links lead to 0 or back to the start without leaving the table |
| `ExecuteMessage.DefaultLinksNeverEnd` | linux_port/overhead/overhead.cpp:2253 | with the default links it never ends, from any start |
| `ExecuteMessage.ResetClearsTheChain` | linux_port/overhead/DropManager.cpp:1743-1755 | a reset that ends clears exactly the drops on the chain or cycle through the start |
| `ExecuteMessage.VisitsDistinct` | linux_port/overhead/DropManager.cpp:1743-1755 | and clears none of them twice |
| `BatchLabelSlots.FindSlot` | linux_port/overhead/BatchLabelSlots.h:43-54 | the first slot with the number, 0 never found |
| `BatchLabelSlots.FindFree` | linux_port/overhead/BatchLabelSlots.h:56-65 | the first free slot |
| `BatchLabelSlots.IsOpen` | linux_port/overhead/BatchLabelSlots.h:67-75 | whether an open drop has the number |
| `BatchLabelSlots.MarkCutShort` | linux_port/overhead/BatchLabelSlots.h:77-95 | free now, free on the 311, or hands off - and which slot field changes |
| `BatchLabelSlots.PickReclaim` | linux_port/overhead/BatchLabelSlots.h:107-125 | -1 exactly when nothing is eligible, else an eligible slot, truly the oldest if the counters span less than 2^31 |
| `BatchLabelSlots.WrappedBeforeIsBefore` | linux_port/overhead/BatchLabelSlots.h:107-125 | the 32-bit comparison orders counters less than 2^31 apart |
| `BatchLabelSlots.WrappedBeforeRightExactly` | linux_port/overhead/BatchLabelSlots.h:107-125 | of counters less than 2^32 apart it orders two rightly if and only if their difference is at least -2^31 and below 2^31 |
| `BatchLabelSlots.WideSpanPicksTheYounger` | linux_port/overhead/BatchLabelSlots.h:107-125 | 2^31 or more apart it picks the younger |
| `BatchLabelSlots.NumberCounter.NextBatchNumber` | linux_port/overhead/BatchLabelSlots.h:136-166 | terminates with the first number in cyclic order that nobody holds, or after a full turn |
| `BatchNumbers.NextNumberGiven` | linux_port/overhead/BatchLabelSlots.h:136-166 | if the number the counter stands at is not taken it is given, and the counter moves on by one, from the last to 1 |
| `BatchNumbers.SearchMeans` | linux_port/overhead/BatchLabelSlots.h:136-166 | otherwise all numbers from the counter - from 1, at 0 or past the end - cyclically up to the one given are taken, and the counter goes behind it; if all are, the first candidate is given |
| `BatchNumbers.ComesBackAfterATurn` | linux_port/overhead/BatchLabelSlots.h:127-166 | in every run of allocations, however soon numbers are freed: the same number comes again only after the counter has gone a whole turn |
| `BatchNumbers.NoEarlyReuse` | linux_port/overhead/BatchLabelSlots.h:127-166 | with at most m drops and slots no number comes again within (maxnum-1)/(m+1) allocations |
| `BatchLabelSlots.UsableNumberExists` | linux_port/overhead/BatchLabelSlots.h:127-135 | pigeonhole: with fewer drops and slots than numbers one is free |
| `BatchLabelSlots.AllocationIsUsable` | linux_port/overhead/BatchLabelSlots.h:136-166 | with room in the cycle every allocation is of a number nobody holds |
| `BatchLabelSlots.NumbersDistinct` | linux_port/overhead/BatchLabelSlots.h:136-166 | one turn never offers the same number twice, 32-bit wrap included |
| `LabelLifecycle.LiveNumbersDistinct` | linux_port/overhead/overhead.cpp:2851-2870 | in every run of opens, closes, frees, resets, foreign numbers and host answers no two drops of a line carry the same number of the line |
| `BatchReplies.RepliesAreForeign` | linux_port/overhead/InterSystems.cpp:1090-1100 | in every run of all four lines each batch reply, of any master, late or repeated, carries a number that is not one of the receiving line |
| `IsysDrops.MasterIsBelow` | linux_port/overhead/overheadmacros.h:268-288 | a master that is not the line itself has a lower id |
| `LabelLifecycle.LeaksExactly` | linux_port/overhead/BatchLabelSlots.h:11-26 | over every run: a slot is occupied with no answer, open batch or bird to wait for, if and only if some step stranded it, nothing has rescued it since, and its 310 was answered before or after |
| `LabelLifecycle.NothingLeaks` | linux_port/overhead/BatchLabelSlots.h:11-26 | in every run in which no step strands a slot, every occupied slot still has an answer, an open batch or a bird to wait for |
| `LabelLifecycle.StrandedStays` | linux_port/overhead/overhead.cpp:5016-5039 | a stranded slot stays so until a 319, a pre-label from another line, an unasked 321 or a reclaim; its 311 only makes it a leaked one |
| `LabelLifecycle.StrandedOnlyBy` | linux_port/overhead/overhead.cpp:2945-2977 | only clearing a batched drop, wiping or overwriting one without a marked bird, or losing that bird strands a slot |
| `LabelLifecycle.LeakHappens` | linux_port/overhead/DropManager.cpp:1415-1433 | a run of four steps from the start that leaks a slot: opened, batched out without a marked bird, cleared, 310 answered |
| `LabelLifecycle.CutShortFreesOrWaits` | linux_port/overhead/BatchLabelSlots.h:77-95 | a cut-short slot is freed at once if its 310 is answered and waits otherwise |
| `LabelLifecycle.CutShortWaitsForAnswer` | linux_port/overhead/overhead.cpp:2945-2977 | however long the run, nothing but its 311 (319, a late bird) frees, moves or reuses it |
| `LabelLifecycle.AnswerFreesCutShort` | linux_port/overhead/overhead.cpp:5016-5039 | its 311 frees exactly that slot |
| `TcpFraming.Connection.ReceiveTcpData` | linux_port/interface/tcpserver.cpp:229-293 | one readiness event: what is delivered and what stays, the buffer never full afterwards |
| `TcpFraming.Connection.DeliverMessages` | linux_port/interface/tcpserver.cpp:257-279 | the framing loop delivers the whole messages at the front, in order |
| `TcpFraming.StreamDelivered` | linux_port/interface/tcpserver.cpp:229-293 | any stream of messages of 28 to 50000 bytes, each with the number of bytes behind its header in bytes 20 to 23, cut in any way, is delivered as exactly those messages |
| `TcpFraming.FirstMessage` | linux_port/interface/tcpserver.cpp:257-293 | framing by the length field n: below 28 + n bytes it waits, then the first 28 + n are a message and the rest is framed; n above 49972, which takes in every n of 2^31 and more, throws all away |
| `TcpFraming.StreamUpToImpossible` | linux_port/interface/tcpserver.cpp:257-293 | of a stream with an impossible length the messages in front of it are delivered and nothing else |
| `TcpFraming.ChunkingIrrelevant` | linux_port/interface/tcpserver.cpp:229-293 | without an impossible length the cutting makes no difference |
| `TcpFraming.FrameConserves` | linux_port/interface/tcpserver.cpp:257-293 | framing neither invents nor drops a byte |
| `TcpFraming.CutsMatterExactly` | linux_port/interface/tcpserver.cpp:261-293 | all cuttings of a stream deliver the same if and only if no impossible length turns up before its last byte |
| `TcpClients.Serve` | linux_port/interface/tcpserver.cpp:398-437 | over every run of accepts, hang-ups, errors and evictions the count is the number of connected slots, bounded, and peers are distinct |
| `TcpClients.Server.Accept` | linux_port/interface/tcpserver.cpp:72-172 | the new peer gets one slot; only an older connection of the same peer, or slot 0 of a full table, gives way |
| `TcpClients.ChosenExactly` | linux_port/interface/tcpserver.cpp:97-127 | the new peer's slot, by the slots before: the first that is free or was its own, slot 0 if all are other peers' |
| `TcpClients.Server.HandleEvent` | linux_port/interface/tcpserver.cpp:409-434 | each event keeps the table valid and touches the slot it is for |
| `TcpClients.Server.Drop` | linux_port/interface/tcpserver.cpp:54-67 | frees a slot and counts it off |
| `TcpClients.Server.FindClientBySocket` | linux_port/interface/tcpserver.cpp:298-306 | the connected slot of a socket, or -1 |
| `IspdLines.PrintedLooks` | linux_port/overhead/ispd_sim.cpp:124-139 | a sample printed: S, the sign, its magnitude in decimal with six digits, or more without a leading zero, and CR |
| `IspdLines.MeaningExactly` | linux_port/overhead/ISPDLoadCell.cpp:502-564 | a line is understood as v if and only if it has three bytes or more and is at most one of SGNsgn, at most one sign, digits that say v, and anything from a point, CR or LF on |
| `IspdLines.LineTaken` | linux_port/overhead/ISPDLoadCell.cpp:639-708 | any bytes between two CRs: without LFs and without whole groups of 64, which overflow the buffer, three or more give one sample, 0 and a counted error if not understood, fewer give nothing |
| `IspdFifo.Fifo.PushMeasurement` | linux_port/overhead/ispd_sim.cpp:113-139 | a measurement arrives whole if and only if there is room for all of it; otherwise a prefix |
| `IspdFifo.Fifo.PushString` | linux_port/overhead/ispd_sim.cpp:83-91 | as much of a string as fits |
| `IspdFifo.Fifo.Push` | linux_port/overhead/ispd_sim.cpp:74-81 | one byte, lost when the ring is full |
| `IspdFifo.Fifo.Pop` | linux_port/overhead/ispd_sim.cpp:93-101 | the oldest byte |
| `IspdFifo.Fifo.Read` | linux_port/overhead/ispd_sim.cpp:496-518 | up to max_len oldest bytes leave, the rest stay |
| `IspdFramer.LoadCell.ParseMeasurementLine` | linux_port/overhead/ISPDLoadCell.cpp:502-564 | prefix, sign and digits; anything else is an error, counted, and 0 |
| `IspdFramer.LoadCell.ReceiveByte` | linux_port/overhead/ISPDLoadCell.cpp:659-708 | CR ends a line, LF is skipped, an overlong line is thrown away |
| `IspdFramer.LoadCell.SerialRead` | linux_port/overhead/ISPDLoadCell.cpp:639-716 | a call's bytes, one after the other |
| `IspdFramer.FeedAppend` | linux_port/overhead/ISPDLoadCell.cpp:639-716 | however the bytes are cut into reads, the framer ends up the same |
| `IspdFramer.InRangeExactly` | linux_port/overhead/ISPDLoadCell.cpp:538-545 | the digits of a line are added up within 64 bits if and only if their value fits |
| `IspdStream.StreamComesBack` | linux_port/overhead/ispd_sim.cpp:113-139 | any finite stream of samples but INT_MIN is queued exactly as printed, without a parse error |
| `IspdStream.LineMeansItsSample` | linux_port/overhead/ISPDLoadCell.cpp:502-564 | the parser reads back a printed line |
| `IspdStream.TransitIsFaithful` | linux_port/overhead/ispd_sim.cpp:496-518 | at any time the queue holds the first of the samples; with the ring empty, all |
| `IspdStream.Play` | linux_port/overhead/ISPDLoadCell.cpp:639-716 | any schedule of samples and polls of any size through ring and framer, as long as each sample fits |
| `ChecksumFile.FileIo.WriteFile` | linux_port/overhead/Utils.cpp:168-237 | Write_File: status and file for every mode |
| `ChecksumFile.FileIo.ReadFile` | linux_port/overhead/Utils.cpp:88-162 | Read_File for every file and every length asked for, LEN_UNKNOWN included: status and data |
| `FileIntegrity.ReadSucceedsExactly` | linux_port/overhead/Utils.cpp:88-162 | a read of any file, any length, known or not, succeeds if and only if the file is there, the bytes asked for and four more are there and fit the buffer, and the four are the sum of those bytes modulo 2^32; it gives exactly those bytes, otherwise none |
| `FileIntegrity.ReadOverrunsExactly` | linux_port/overhead/Utils.cpp:108-127 | it writes past the buffer if and only if a file of more than 50000 bytes is read whole or beyond 49996 |
| `FileIntegrity.DamageNoticed` | linux_port/overhead/Utils.cpp:126-141 | any single changed byte of a file written with its checksum fails the read, with the length known or not |
| `FileIntegrity.WriteSucceedsExactly` | linux_port/overhead/Utils.cpp:168-237 | a write succeeds if and only if its mode opens the file and what is kept, the data and the sum fit the buffer; the file then holds those, and behind them what OPEN_ALWAYS leaves of a longer one |
| `FileIntegrity.FailedWriteLeaves` | linux_port/overhead/Utils.cpp:168-213 | what a failed write leaves of the file, and exactly when it writes past the buffer |
| `ChecksumFile.KnownLengthReads` | linux_port/overhead/Utils.cpp:88-162 | asked for the length written it gives back what was written, asked for more it fails |
| `ChecksumFile.FileIo.BufferSum` | linux_port/overhead/Utils.cpp:16-26 | the checksum of a stretch of the buffer |
| `ChecksumFile.AppendsReadBack` | linux_port/overhead/Utils.cpp:168-237 | a write and any appends succeed if and only if data and checksum fit the buffer, and then read back as the concatenation |
| `ChecksumFile.SealedReads` | linux_port/overhead/Utils.cpp:88-162 | what was written with its checksum reads back |
| `ChecksumFile.OneByteDetected` | linux_port/overhead/Utils.cpp:88-162 | any single changed byte, of data or checksum, makes the read fail |
| `ChecksumFile.AppendSealsDamage` | linux_port/overhead/Utils.cpp:189-213 | an append turns a damaged file into one that reads back |

## Left out

- Timed waits: the wait at the mailbox mutex may time out in the model; the waits for hWQ (50 ms in the source) are modelled without a limit, which only makes the absence of a standstill stronger. ISysSendCommand releases hWQ even after a failed wait, so mutual exclusion is claimed without timeouts only.
- The static message buffers in ISysSendCommand, ISysSendDropInfo and the drop manager's requests, and DrpCtlWrtQ itself, are shared by threads without a lock; each call is modelled as atomic.
- `CommandNumbers.RemovedMeansExecuted` says nothing about commands lost on the way into the write queue: with it full a command is dropped while the drop manager keeps its entry.
- `CommandFate.EveryCommandMeetsItsFate` is about commands that found room in the write queue, in runs in which every send of the drop manager was passed on and no counter has come round; when the threads take their turns is not modelled, so it counts looks and not time.
- `AckNumbers.BothNumbersNameOneCommand` is about live entries: what a slot freed earlier carries is only settled until a counter comes round (`AckNumbers.BothNumbersUntilWrap`).
- Crash and restart of a line: counters and queues start fresh in the source and old messages may then match new numbers.
- The effect of a batch reply on shackles and of DROPMSG and PORTCHK messages: only their part in the queues is modelled, and of batch replies the numbers they carry.
- The communication-status updates in CleanUpWrite and ProcessRx, trace buffers, debug output, UDP and telnet shells: no state the properties need.
- `ExecuteMessage.LineDrops.Clear` leaves out the call of ReleaseCutShortLabel: its effect on label slots is the Clear step of LabelLifecycle.
- `LabelLifecycle.LeaksExactly` knows the birds of its own line only: a last bird on another line shows as the pre-label message it sends, a rescue that the line itself cannot foresee.
- The OVERRIDE bit that ISysSendDropInfo adds to drop updates, and everything the lines report between two firings of the timer: arbitrary in StallOverride.
- `IspdFramer.LoadCell.ParseMeasurementLine` computes on unbounded integers; what the source does once its 64-bit value overflows is undefined. `IspdFramer.InRangeExactly` says when that is.
- SearchLoopUtility, CheckDropMode and AddMsgQ: more branching over the same tables.
- CleanupTcpServer, reconnect handling, sockets, epoll, serial ports, shared memory and thread start-up: recv, accept and serial reads are arbitrary inputs.
- The HBM and SPD load cells and their simulators: twins of the ISPD code.
- ProcessTcpMessage: what is done with a delivered message.
