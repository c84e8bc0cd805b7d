# Verified models of the resource tracker, the TFTP sender and backup rotation

A Dafny project that models three parts of the repository and proves what they promise:

- **The resource tracker** (`prof/track`). A debugging allocator that wraps `malloc`, `free` and
  `realloc` inside a tracked process; the pipeline that turns its live blocks and open descriptors
  into a call tree printed by a manager; the manager's line editor and command history; the framed
  protocol between manager and processes; and the configuration file.
- **The TFTP sender** (`imgd/python/tftpd.py`), a stop-and-wait protocol, paired with a receiver
  that follows sections 2 and 6 of RFC 1350 over a network that loses, duplicates and reorders, and that
  may also deliver packets of any other kind to the sender's port.
- **Backup rotation** (`backup/sbin/backups.py`): reclaiming space oldest-first and the renames that
  publish a new snapshot, with any of the remote commands failing, the listings included, and with any
  rename taking effect although its success is never reported.

`dafny verify dfyconfig.toml` checks the whole project.

## How the model is organised

| module | models |
|---|---|
| `Words`, `Arith`, `Options` | 32-bit words, their byte order, division by a variable |
| `Slots`, `CallTree`, `Report` | report slots and their order, the printed tree, plain and snapshot reports |
| `Masks`, `Placement` | bit masks, and where header, payload and trailer go inside a raw block |
| `IntrusiveList` | the linked lists with a back link to a link |
| `Allocator`, `AllocatorRuns` | the allocator as a function on states, and its runs |
| `Tracker` | the library's globals and calls, proved against `Allocator` |
| `ProcessReport` | descriptors, and the slots a process reports |
| `LiveReports` | what reports and relative reports say about the states of a run |
| `Zipper`, `Screen`, `LineEditor`, `Console` | the edited line, the terminal, the editor, a session |
| `History` | the bounded command history |
| `Framing` | commands, payloads and acknowledgements on a byte stream |
| `Config` | the configuration file, written and read back |
| `Tftp`, `TftpTransfer` | the sender, and whole transfers |
| `Backups` | reclaiming and rotation |

State the code updates in place is a class (`ListHeap`, `Tracker`, `ReportingProcess`, `TreePrinter`,
`Client`, `Editor`, `History`, `Session`, `Pipe`, `Caller`, `Manager`, `Server`, `Target`). Each method's
contract ties the new state to a function of the old one, and the lemmas are about those functions.

The layout is the 32-bit one: `size_t`, `addr_t` and `uint32_t` are all one word. What the
environment decides is a parameter: the address the real `malloc` returns and the bytes in it, stack
traces, how much a partial read or write transfers, packets and timeouts, the outcome of each remote
command. A core dump is a `None` result, or `false` from a method.

## What the proofs found about the code

Each of these is proved, with the exact condition under which the code does what it should.

- **Sizes wrap.** As long as alignment and overhead stay below 2^31, placement is sound if and only if the
  rounded size plus twice the alignment and overhead stays below 2^32 (`Placement.PlacementExact`); just
  beyond that limit `malloc` is asked for 32 bytes (`Placement.WrappedRequest`). At alignment 2^31 an empty
  request wraps and can still be placed (`Placement.LargestAlignment`).
- **Alignments are not checked.** memalign accepts any alignment of a word or more; whenever there is room
  for one at all, every pointer it can return is aligned if and only if it is a power of two
  (`Placement.AlignedExactly`; with 12 it can answer 100, `Placement.MisalignedRequest`). The layout is sound for all of them.
- **Untracked `calloc` clears the wrong range.** It starts one byte past the raw address, so the
  payload is cleared only when it is empty (`Placement.UntrackedZeroFill`).
- **`LIST_PREV` yields the element itself**, so the check of the "previous neighbour" in `free`
  verifies the freed block a second time (`IntrusiveList.PrevPointsBack`).
- **A push from tag 254 selects tag 255**, and there are only 255 lists (`AllocatorRuns.ChangedTagInRange`);
  setting the tag is not checked at all (`Tracker.Tracker.ClientSet`).
- **One slot without a caller hides its whole group.** It sorts first and the traversal returns on it:
  at depth 0 the report is empty (`Report.TaggedTotal`), deeper the group has no children
  (`CallTree.ExactWhenBlocked`).
- **Overruns are caught late or not at all.** Only `validate` looks at trailers, and only in the release of the
  overrun block or of the one before it on its list (`AllocatorRuns.OverrunIsCaught`).
- **A tag's total is an `int`.** It is never more than the live bytes, which stay below 2^32, but from 2^31 on
  it is negative (`AllocatorRuns.CountersFit`).
- **An open descriptor hides what is deeper.** It has at most six callers, so under the stack it was
  opened with no report shows a seventh (`LiveReports.DescriptorHidesDeeper`).
- **TFTP takes any packet for an acknowledgement.** Only bytes 2 and 3 are looked at, so ERROR code 1 ends the
  transfer of a file of one block as a success (`TftpTransfer.ErrorTakenAsAck`), and a late copy of the
  read request counts by the first two letters of the file name (`TftpTransfer.RequestTakenAsAck`). The
  sender never gets ahead of the receiver if and only if no such packet carries the number of a block
  (`TftpTransfer.NeverAheadExactly`), and its success is always genuine if and only if none carries that of
  the last block (`TftpTransfer.GenuineExactly`).
- **TFTP file sizes.** A transfer can succeed exactly for files that are not empty and need at most 65535 blocks
  (`TftpTransfer.SendableFiles`), though the code warns only beyond 65534 and continues.
- **The line editor accepts one character too many**: inserting keeps the terminator exactly while the
  line is shorter than `maxl-1` (`LineEditor.InsertKeepsTerminator`).
- **`KILLWORD` and `WORD_BACKWARD` agree exactly** when the line starts with an alphanumeric or a word
  starts beyond its second position (`Zipper.KillMatchesMotion`; they differ on `" ls"`).
- **History references.** The tag scan starts at an unused slot (`History.History.GetIdx`), so with a
  stale tag in it `!1` answers no command (`History.MisreadTag`); and `!-n` cannot reach the oldest entry
  while `!-0` points past the newest (`History.RelativeReach`).
- **Payloads from a callback** keep the stream framed, and the commands after it readable, exactly when the
  declared length is 0 or the pieces add up to it (`Framing.CallbackFramed`, `Framing.CallbackThenFrames`).
- **The flag table pairs "validate" with FLAG_TRACK and "track" with FLAG_VALIDATE**; the round trip of
  the configuration is stated with that pairing (`Config.ParsePrinted`).
- **A rejected configuration may still change the defaults.** Rejected or not, a file leaves them alone
  if and only if the lines before the hundredth entry hold no default line, or the last of those says
  what they were (`Config.DefaultsExactly`); a default line and a malformed one suffice
  (`Config.RejectedYetChanged`, and `Config.RejectedText` for a text).
- **Backups: failing listings and lost replies.** Retention survives the failure of any command
  (`Backups.RetentionOverRuns`), but there is at most one Latest if and only if no run puts its snapshot
  in place while an existing Latest is not listed, or while the reply to that rename is lost and the
  rollback moves the old Latest back (`Backups.AtMostOneLatest`, `Backups.UnlistedLatest`,
  `Backups.UnheardLatest`). A snapshot whose reply is lost is kept but reported as a failure
  (`Backups.ReportedExactly`, which also covers runs that find nothing to copy: they report success).
  Reclaiming is bounded by the number of backups plus the rounds in which both
  the rm and the listing after it fail (`Backups.ReclaimEnds`), and by nothing else
  (`Backups.ReclaimMayGoOn`).

## Model

| member | source | states |
|---|---|---|
| Slots.CmpBackTraces | prof/track/trxmgrClient.c:289-299 | the word-by-word scan answers -1, 0 or 1 exactly as the call stacks compare lexicographically, for all ten words |
| Slots.LessIsStrictTotalOrder | prof/track/trxmgrClient.c:289-299 | that comparison is irreflexive, asymmetric, total and transitive, so sorting by it is well defined |
| CallTree.TreePrinter.CountMatching | prof/track/trxTree.c:28-36 | the loop finds the maximal run of slots with the same word at this depth, and its 32-bit sum |
| CallTree.TreePrinter.PrintEntry | prof/track/trxTree.c:37-41 | a line only for a positive size and no summary: its depth, address, size and mark, 'm' or 'f' at the outermost level and a blank deeper; only the outermost level is tallied |
| CallTree.TreePrinter.DiveAndPrint | prof/track/trxTree.c:24-51 | output and tally are those of the visited prefixes, of which TreeIsExactTrie says what they are |
| CallTree.TreePrinter.BuildShowTree | prof/track/trxTree.c:53-57 | the same for a whole vector, from a zero tally, which is kept modulo 2^32 |
| CallTree.VisitTally | prof/track/trxTree.c:37-38 | the tally splits over the groups of the outermost level, whatever their subtrees hold |
| CallTree.ExactWhenBlocked | prof/track/trxTree.c:28 | a group with a slot that has no caller at this depth shows no children |
| CallTree.VisitExact | prof/track/trxTree.c:24-51 | from any point of any group of a sorted vector: exactly the remaining unblocked prefixes, in increasing order, each with the sum of all slots under it |
| CallTree.TreeIsExactTrie | prof/track/trxTree.c:24-57 | the report tree is an exact trie: a prefix is visited if and only if it occurs and no prefix of it is blocked, once, with the sum over all slots sharing it |
| CallTree.LinesAreExact | prof/track/trxTree.c:37-49 | the lines printed tell, in order, of exactly the shown prefixes with a positive sum: depth, last address, sum, and the type of the first slot |
| CallTree.SummaryIsSilent | prof/track/trxTree.c:40 | in a summary no line is printed |
| Report.SumUnderPermutes | prof/track/trxmgrClient.c:347-348 | the size under a prefix depends only on the multiset of slots |
| Report.ShownPermutes | prof/track/trxmgrClient.c:347-348 | so does the set of prefixes reported |
| Report.ReportIgnoresTieOrder | prof/track/trxmgrClient.c:348-349 | any two sortings of the same slots give the same prefixes and sizes in the same order |
| Report.TaggedTotal | prof/track/trxTree.c:37-56 | the tagged total is the sum of all slots (mod 2^32) when each has a first caller, and nothing at all is visited otherwise |
| Report.SnapshotDifference | prof/track/trxmgrClient.c:362-406 | in a snap-relative report each node's size is the bytes under its prefix now less those in the snapshot |
| Report.LinesAreNetGrowth | prof/track/trxTree.c:39-41 | below 2 Gbytes of change a line is printed if and only if the prefix has net growth |
| Report.IdenticalSnapshotIsSilent | prof/track/trxmgrClient.c:379-406 | against an identical multiset of slots no line is printed and the total is zero |
| Report.QSort | prof/track/trxmgrClient.c:348 | a sorted permutation of the slots, from CmpBackTraces alone |
| Report.NegateSizes | prof/track/trxmgrClient.c:370-373 | the in-place loop negates every size and touches nothing else |
| Report.Client.ShowReport | prof/track/trxmgrClient.c:334-413 | the three commands: what is sorted and printed, which snapshot is kept, and what a failed malloc or a missing snapshot leaves alone |
| Masks.MaskRoundsDown | prof/track/trxlib.c:455 | masking with the complement of a power of two less one is rounding down, in any width |
| Masks.MaskTakesLessThan | prof/track/trxlib.c:455 | for any alignment the mask takes off less than it |
| Masks.OnlyPowersDivide | prof/track/trxlib.c:455 | no other number divides a power of two |
| Placement.MaskBounds | prof/track/trxlib.c:455 | the mask expression on words stays within one alignment, and rounds down for a power of two |
| Placement.NoWrap | prof/track/trxlib.c:430-441 | when the request fits, rounding and the size computation are exact in 32 bits |
| Placement.PlacementIsSound | prof/track/trxlib.c:420-491 | for every alignment, header, rounded payload and trailer lie disjoint inside the bytes requested, and for a power of two the pointer is aligned |
| Placement.AlignedExactly | prof/track/trxlib.c:455 | for every alignment for which a request can fit at all: every pointer that can be returned is aligned if and only if it is a power of two |
| Placement.MisalignedRequest | prof/track/trxlib.c:622-628 | a concrete request that memalign accepts and does not align |
| Placement.PlacementExact | prof/track/trxlib.c:430-487 | as long as alignment and overhead stay below 2^31, payload and trailer are inside the block if and only if the size computation does not wrap |
| Placement.LargestAlignment | prof/track/trxlib.c:430-487 | at alignment 2^31 a request that wraps can still be placed, so some bound below that is needed |
| Placement.WrappedRequest | prof/track/trxlib.c:430-441 | a concrete request for which malloc is asked for 32 bytes |
| Placement.UntrackedZeroFill | prof/track/trxlib.c:486 | the untracked zero fill covers the payload only when it is empty, and spares the header exactly when it stops short of it |
| IntrusiveList.ListHeap.constructor | prof/track/trxlib.c:94-99 | all heads start empty |
| IntrusiveList.ListHeap.InsertHead | prof/track/trxlist.h:43-48 | the element becomes the first of its list; all other lists and every threading are kept |
| IntrusiveList.ListHeap.Remove | prof/track/trxlist.h:50-55 | given only the element, it is deleted from whichever list holds it; the order of the rest and all other lists are kept |
| IntrusiveList.ListHeap.Walk | prof/track/trxlist.h:57-60 | the forward walk meets exactly the list, in order, and ends |
| IntrusiveList.ListHeap.ListPrev | prof/track/trxlist.h:68 | the macro answers the element it is given |
| IntrusiveList.PrevPointsBack | prof/track/trxlist.h:43-68 | the back link of an element is the address of a link that points to it |
| IntrusiveList.OneLinkPointsTo | prof/track/trxlist.h:43-60 | and of the only such link among heads and listed elements |
| IntrusiveList.RemoveThreads | prof/track/trxlist.h:50-55 | after the two writes of LIST_REMOVE each list is threaded through exactly its remaining elements |
| IntrusiveList.DeleteKeeps | prof/track/trxlist.h:50-55 | removal deletes that element and no other, and makes no duplicate |
| Allocator.InitialState | prof/track/trxlib.c:94-99 | the invariant holds before the first call |
| Allocator.NewBlockOk | prof/track/trxlib.c:457-491 | a new block is well formed, apart from all live ones, of the kind and tag in force, and the raw address can be recovered from it |
| Allocator.AllocPreserves | prof/track/trxlib.c:420-495 | an allocation keeps the invariant and every live block, and changes nothing when malloc fails |
| Allocator.AllocContents | prof/track/trxlib.c:457-491 | everything an allocation changes: the header's fields, a payload of zeros for calloc and of what malloc handed out otherwise, the head of the tag's list, the counters |
| Allocator.FreeExactly | prof/track/trxlib.c:513-568 | free dumps core if and only if the header is not live or, while validating, the trailer of the block or of the one after it on its list is broken |
| Allocator.FreeSucceeds | prof/track/trxlib.c:549-568 | as long as no trailer is broken, freeing a live block never dumps core |
| Allocator.FreeContents | prof/track/trxlib.c:560-584 | everything a release changes: the mark in the header, the freers, the payload (untouched without poison, the freers repeated or all ones with it), the list, the counters; and what it leaves alone |
| Allocator.FreePreserves | prof/track/trxlib.c:537-589 | a free that passes its checks keeps the invariant, changes only that block, and makes exactly it dead |
| Allocator.DataPreserves | prof/track/trxlib.c:513-535 | writes inside payloads keep the invariant |
| AllocatorRuns.ReallocFailure | prof/track/trxlib.c:605-617 | a realloc whose allocation fails changes nothing |
| AllocatorRuns.ReallocPreserves | prof/track/trxlib.c:605-617 | a successful realloc keeps the invariant and replaces exactly the old block by the new one among the live |
| AllocatorRuns.ReallocData | prof/track/trxlib.c:608-613 | the first min(old, new) bytes are kept, the others are what malloc handed out, and the new header is that of any new block |
| AllocatorRuns.ReallocOld | prof/track/trxlib.c:608-614 | the old block is left as free leaves it, every other live block as it was |
| AllocatorRuns.ReallocExactly | prof/track/trxlib.c:603-614 | when realloc dumps core, by its outcome |
| AllocatorRuns.ReallocEdges | prof/track/trxlib.c:601-602 | realloc of NULL is malloc, realloc to size 0 is free and answers NULL |
| AllocatorRuns.ReallocTotals | prof/track/trxlib.c:560-567 | the old size leaves the old tag's total, the new size enters the current one's, exactly |
| AllocatorRuns.ChangedTagInRange | prof/track/trxclient.c:135-140 | a push or pop stays within the lists if and only if it is not a push from 254 |
| AllocatorRuns.StepIsSafe | prof/track/trxlib.c:513-589 | no false alarms: without overruns a call on live pointers never dumps core, and every step keeps the invariant and the trailers |
| AllocatorRuns.EveryReachableState | prof/track/trxlib.c:457-567 | by induction from the start of the process: in every state of every run, with switches and tags changed at will, the counters are the sums over live blocks, each live tracked block is on exactly the list of its tag, and all trailers are in place |
| AllocatorRuns.NoFalseAlarms | prof/track/trxlib.c:513-568 | from each of those states every call on live pointers goes through |
| AllocatorRuns.RawPointerRoundTrip | prof/track/trxlib.c:455-586 | over a whole run: a pointer returned by malloc, memalign or realloc and not given up since still leads to the address the real malloc returned for it |
| AllocatorRuns.DeadPointerAborts | prof/track/trxlib.c:518-525 | free or realloc of a freed block whose header is in memory dumps core |
| AllocatorRuns.DoubleFreeAborts | prof/track/trxlib.c:513-568 | over a whole run: a second free is caught in every later state until an allocation is handed those header bytes |
| AllocatorRuns.OverrunIsCaught | prof/track/trxlib.c:526-557 | in every state of every run, after one trailer was overwritten: while validating exactly the releases of that block and of the one before it on its list dump core, and otherwise none does |
| AllocatorRuns.PayloadIsPrivate | prof/track/trxlib.c:457-491 | no payload byte of a live block belongs to any header, trailer or other payload, which justifies keeping memory as records |
| AllocatorRuns.CountersFit | prof/track/trxlib.c:93-99 | live bytes stay below 2^32; a tag's total lies between 0 and them, and its int holds it modulo 2^32 |
| Tracker.NextIsListNext | prof/track/trxlist.h:67 | the forward link in memory is the next element of the abstract list |
| Tracker.PoisonFill | prof/track/trxlib.c:569-583 | the loop fills exactly the payload with the periodic pattern, truncating the last copy |
| Tracker.Tracker.constructor | prof/track/trxlib.c:94-99 | the library starts in the initial state |
| Tracker.Tracker.ClientSet | prof/track/trxclient.c:63-100 | for each variable: the old value is returned and that one alone takes the new value, an unknown one changes nothing; it is a step of a run exactly when a new tag has a list |
| Tracker.Tracker.ChangeTag | prof/track/trxclient.c:135-140 | push and pop return the new tag, one more or one less but never below 0; a step of a run except for the push from 254 |
| Tracker.Tracker.Place | prof/track/trxlib.c:430-466 | the address, and header and payload in full: zeros for calloc, what malloc handed out otherwise |
| Tracker.Tracker.Record | prof/track/trxlib.c:469-490 | list, per-tag total and global count are updated to the specified state |
| Tracker.Tracker.TpAlloc | prof/track/trxlib.c:420-495 | what the new header and payload hold, how list and counters change, and that live blocks are left alone; nothing changes when malloc fails; alignment 0 means a word |
| Tracker.Tracker.Verify | prof/track/trxlib.c:513-535 | verify returns exactly for a live header whose trailer is intact, the trailer being looked at only when validating |
| Tracker.Tracker.CheckBlock | prof/track/trxlib.c:549-559 | the checks of free pass exactly when free does not dump core (Allocator.FreeExactly) |
| Tracker.Tracker.Scrub | prof/track/trxlib.c:564-584 | the header is marked free, the freers recorded, the payload scrubbed byte for byte as poison says, the trailer and all else kept |
| Tracker.Tracker.Release | prof/track/trxlib.c:552-584 | the state after the checks is the one specified |
| Tracker.Tracker.FreePtr | prof/track/trxlib.c:537-589 | when it dumps core; otherwise what header and payload are left with, byte for byte, how list and counters change, and the raw address handed to the real free |
| Tracker.Tracker.CopyOver | prof/track/trxlib.c:611-613 | min(old, new) bytes are copied and nothing else changes |
| Tracker.Tracker.ReallocPtr | prof/track/trxlib.c:598-620 | realloc refines Allocator.Realloc in all its cases |
| Tracker.Tracker.MoveBlock | prof/track/trxlib.c:605-617 | the allocation, the copy and the release of a moving realloc |
| Tracker.Tracker.Memalign | prof/track/trxlib.c:622-635 | alignments below a word are refused without effect; all others allocate with that alignment |
| ProcessReport.SlotsAreLiveResources | prof/track/trxlib.c:144-219 | a report on a tag has one slot for each live tracked block of that tag and each descriptor open under it, and its sizes add up to the tag's total plus those descriptors |
| ProcessReport.RunKeepsInv | prof/track/trxlib.c:420-713 | by induction from the start of the process: every mixture of allocator calls, opens, closes and tag changes keeps the invariant |
| ProcessReport.PrintedTotal | prof/track/trxTree.c:37-56 | end to end, after any run: the slots of a tag are its live blocks and open descriptors, and when every trace has a caller the tagged total printed, in any sorted order, is the list's total plus the open descriptors (mod 2^32) |
| ProcessReport.SlotsTell | prof/track/trxlib.c:184-209 | each slot is that of a live block, with its size, callers and type memory, or of an open descriptor, with size 1, its openers and type file |
| ProcessReport.SlotsUnderAreHeld | prof/track/trxlib.c:144-219 | under every call-stack prefix the slots add up to the bytes of the blocks and the descriptors obtained there |
| LiveReports.LinesOfVector | prof/track/trxmgrClient.c:347-349 | for every sorting: the lines tell, in order and with their sums, of exactly the prefixes within which no stack ends and whose sum, as an int, is positive |
| LiveReports.ReportShowsHeld | prof/track/trxlib.c:144-219 | after any run the lines of a report show exactly what is held: which prefixes, in which order, and on each line its depth, address, the bytes and descriptors held, and the type of something obtained there |
| LiveReports.RelativeReportShowsGrowth | prof/track/trxmgrClient.c:362-413 | a snapshot at one state of a run and a relative report at another: lines for exactly the prefixes under which what is held has grown, as an int, each saying by how much |
| LiveReports.LinesOfGrownPrefixes | prof/track/trxmgrClient.c:379-406 | below 2 Gbytes of growth: a line if and only if more is held under the prefix than when the snapshot was taken |
| LiveReports.DescriptorHidesDeeper | prof/track/trxlib.c:637-713 | beyond the six callers of an open descriptor nothing is shown under its stack |
| LiveReports.PlainReport | prof/track/trxmgrClient.c:334-361 | the lines a report adds are those of ReportShowsHeld, none in a summary; its total is the tag's bytes and descriptors, or 0 when something held has no caller |
| LiveReports.SnapThenReport | prof/track/trxmgrClient.c:362-413 | the two commands in turn add the lines of RelativeReportShowsGrowth, none in a summary, and give the growth of the total |
| ProcessReport.OpenFdsAfterOpen | prof/track/trxlib.c:682-694 | for every tag, what an open adds to the descriptors open under it |
| ProcessReport.OpenFdsAfterClose | prof/track/trxlib.c:696-713 | for every tag, what a close takes away |
| ProcessReport.ReportingProcess.RecordOpen | prof/track/trxlib.c:682-694 | a step of a run: the opener is recorded, the descriptor joins the current tag's if it was not in use, and no other's entry changes |
| ProcessReport.ReportingProcess.RecordClose | prof/track/trxlib.c:696-713 | a step of a run: after a successful close in range the descriptor is open under no tag |
| ProcessReport.ReportingProcess.CountFds | prof/track/trxlib.c:652-658 | the loop counts exactly the descriptors open under the tag |
| ProcessReport.ReportingProcess.AddFds | prof/track/trxlib.c:660-674 | it appends one slot for each, and none is dropped by the bound on slots |
| ProcessReport.ReportingProcess.AddBlocks | prof/track/trxlib.c:186-206 | one slot per block of the list, in order |
| ProcessReport.ReportingProcess.LibSendReport | prof/track/trxlib.c:144-219 | the segment holds exactly the slots of SlotsAreLiveResources |
| ProcessReport.ReportingProcess.SendReport | prof/track/trxclient.c:53-60 | tag 100 stands for the one in force, so what is recorded under 100 is reported only while it is |
| Tftp.GroupCuts | imgd/python/tftpd.py:22-23 | for every block size, the pieces concatenate to the input, there are ceil(len/n) of them, and all but the last are full |
| Tftp.DatasetRoundTrip | imgd/python/tftpd.py:63-68 | reassembling the blocks gives the file, the last block is always short, and only an empty file fails |
| Tftp.DatasetAt | imgd/python/tftpd.py:63-68 | block k is bytes 512k up to 512(k+1) of the file, or up to its end |
| Tftp.LeavesIsAfter | imgd/python/tftpd.py:70-91 | a block is left on the first input that acknowledges it, is too short to be read, or is the eleventh timeout, and on no other |
| Tftp.RetriesBounded | imgd/python/tftpd.py:78-86 | a block is abandoned on its eleventh timeout and never before |
| Tftp.Server.SendBlock | imgd/python/tftpd.py:70-91 | the packet goes out once before each recvfrom and nothing else does; the loop is left on the first acknowledgement of the block, the first unreadable packet or the eleventh timeout |
| Tftp.Server.SendFile | imgd/python/tftpd.py:53-94 | outcome and index are those of the transition system; the packets on the wire are opcode 3, number and bytes of the blocks of the file, in order from the first, each one once or more, all up to the index reached |
| TftpTransfer.StepKeepsLockstep | imgd/python/tftpd.py:69-91 | every action of sender, receiver and network, packets of other kinds included, keeps the lock step |
| TftpTransfer.RunKeepsLockstep | imgd/python/tftpd.py:69-91 | so it holds in every state of every run |
| TftpTransfer.EmptyFileFails | imgd/python/tftpd.py:63-66 | an empty file fails before anything is sent |
| TftpTransfer.TransferIsSafe | imgd/python/tftpd.py:63-94 | under any loss, duplication and reordering, and whatever other packets arrive, the receiver holds a prefix of the file and the sender is at most one block behind; it is not ahead, and "Done" means the receiver holds the file, if no such packet carries the number of a block, of the last block |
| TftpTransfer.NeverAheadExactly | imgd/python/tftpd.py:84-91 | in no run does the sender get ahead of the receiver if and only if no other packet carries the number of a block |
| TftpTransfer.GenuineExactly | imgd/python/tftpd.py:84-94 | in every run "Done" means that the receiver holds exactly the file if and only if no other packet carries the number of the last block |
| TftpTransfer.ErrorTakenAsAck | imgd/python/tftpd.py:84-91 | ERROR code 1 ends the transfer of any file of one block as a success |
| TftpTransfer.RequestTakenAsAck | imgd/python/tftpd.py:84-91 | a copy of the read request is taken as the acknowledgement that the first two letters of the name spell |
| TftpTransfer.SendableFiles | imgd/python/tftpd.py:63-72 | some run succeeds if and only if the file is not empty and needs at most 65535 blocks |
| TftpTransfer.LosslessRun | imgd/python/tftpd.py:69-94 | the run in which nothing is lost gets through any number of blocks |
| Backups.ReclaimDropsOldest | backup/sbin/backups.py:219-235 | the loop deletes strictly oldest-first, never the last backup, one in each round but those where rm and listing both fail, and stops with enough space, with at most one left or after a failed delete |
| Backups.ReclaimEnds | backup/sbin/backups.py:481-484 | it ends within as many readings as there are backups plus such rounds |
| Backups.ReclaimMayGoOn | backup/sbin/backups.py:228-233 | and goes on as long as both fail |
| Backups.RotateOverLatest | backup/sbin/backups.py:543-570 | the outcomes of the renames when a Latest is listed, by which of them fail or go unreported |
| Backups.RotateBlindly | backup/sbin/backups.py:197-202 | the outcomes when none is listed, because there is none or because the listing fails |
| Backups.RotateKeeps | backup/sbin/backups.py:543-570 | whatever fails or goes unreported, no completed snapshot is lost or duplicated and the new one is added exactly when its rename took effect; when a second Latest appears |
| Backups.StartKeeps | backup/sbin/backups.py:466-577 | a whole run drops only the oldest, never the newest, and otherwise keeps everything in order; it reports success exactly when the rename took effect and its reply arrived, or there was nothing to copy |
| Backups.AddedExactly | backup/sbin/backups.py:466-577 | when a run adds its snapshot, by the outcomes of its commands alone |
| Backups.PartialLeft | backup/sbin/backups.py:466-577 | what every run leaves in the partial directories, by the outcomes of its commands |
| Backups.RetentionOverRuns | backup/sbin/backups.py:466-577 | over any history with increasing stamps and any command failing or any rename going unreported, what is kept is a suffix of the completed backups including the newest, and a Latest ends with the newest |
| Backups.ReportedExactly | backup/sbin/backups.py:543-577 | the snapshots reported as successes are the completed ones if and only if no reply to the rename that completes one was lost and no run found nothing to copy |
| Backups.AtMostOneLatest | backup/sbin/backups.py:543-570 | over any such history there is never more than one Latest if and only if no run puts its snapshot beside a Latest that it failed to list or that it moves back |
| Backups.UnlistedLatest | backup/sbin/backups.py:197-202 | a concrete run that leaves two Latest because it cannot list the first |
| Backups.UnheardLatest | backup/sbin/backups.py:543-570 | a concrete run that leaves two Latest because the reply to its rename is lost |
| Backups.Target.GetBackups | backup/sbin/backups.py:183-192 | the names listed, followed by one empty name, which is all there is when the listing fails |
| Backups.Target.DeleteOldestOnce | backup/sbin/backups.py:219-235 | the oldest of at least two is deleted; success is reported unless the second listing still shows it |
| Backups.Target.ReclaimSpace | backup/sbin/backups.py:477-484 | the loop refines Reclaim |
| Backups.Target.RotateNames | backup/sbin/backups.py:543-570 | the rename sequence with its rollback refines Rotate |
| Backups.Target.StartBackup | backup/sbin/backups.py:466-577 | start refines Start |
| Screen.CellOrder | prof/track/trxmgrRl.c:275-287 | positions map one-to-one to cells, in screen order |
| Screen.RowsByDivision | prof/track/trxmgrRl.c:277-280 | row and column of a position are its quotient and remainder by the width |
| Screen.PutNext | prof/track/trxmgrRl.c:305-321 | printing one more character extends what is displayed, at the end of a row too |
| Screen.PutChunk | prof/track/trxmgrRl.c:305-321 | so does printing a chunk that stays inside one row |
| Screen.RowPrinted | prof/track/trxmgrRl.c:310-321 | and one pass of the loop, line break included |
| Screen.ClearKeepsPrefix | prof/track/trxmgrRl.c:302-303 | clearing to the end of the display keeps the text before the cursor and blanks the rest |
| Zipper.BackScan | prof/track/trxmgrRl.c:451-456 | the two backward loops end one before the last word start |
| Zipper.ForwardScan | prof/track/trxmgrRl.c:506-510 | the two forward loops end at the first word end |
| Zipper.KillMatchesMotion | prof/track/trxmgrRl.c:443-464 | KILLWORD deletes exactly the span WORD_BACKWARD crosses if and only if the line starts with an alphanumeric or a word starts beyond its second position |
| Zipper.KillDiffersAfterSpace | prof/track/trxmgrRl.c:443-464 | they differ on a line that starts with one space |
| LineEditor.Editor.CurBoth | prof/track/trxmgrRl.c:275-287 | the relative moves take the cursor from the cell of curpos to that of curpos+n |
| LineEditor.Editor.constructor | prof/track/trxmgrRl.c:46-146 | an empty line behind the prompt, displayed |
| LineEditor.Editor.PutPart | prof/track/trxmgrRl.c:310-315 | the temporary terminator prints exactly that part of the buffer and is undone |
| LineEditor.Editor.ShowRow | prof/track/trxmgrRl.c:306-321 | one pass of the loop displays one more row or the rest of the text |
| LineEditor.Editor.ShowBuf | prof/track/trxmgrRl.c:296-324 | from a correct prefix, afterwards every cell shows its character, the rest is blank and the cursor is where asked |
| LineEditor.GapClosed | prof/track/trxmgrRl.c:382 | the memmove leaves the string without the gap, terminated |
| LineEditor.KeptShown | prof/track/trxmgrRl.c:305-324 | up to where the line is unchanged the screen already shows the new one |
| LineEditor.Editor.CutLeft | prof/track/trxmgrRl.c:457-461 | a deletion before the cursor: the line loses exactly that part, the prompt stays, the screen follows |
| LineEditor.Editor.CutRight | prof/track/trxmgrRl.c:548-551 | the same after the cursor |
| LineEditor.Editor.Backspace | prof/track/trxmgrRl.c:373-388 | deletes the character before the cursor, if any |
| LineEditor.Editor.CursorLeft | prof/track/trxmgrRl.c:373-388 | moves over one character, stopping at the prompt |
| LineEditor.Editor.Delete | prof/track/trxmgrRl.c:389-399 | deletes the character under the cursor, if any |
| LineEditor.Editor.CursorRight | prof/track/trxmgrRl.c:400-405 | moves over one character, stopping at the end |
| LineEditor.Editor.KillLine | prof/track/trxmgrRl.c:434-441 | the line is empty, the prompt kept |
| LineEditor.Editor.KillWord | prof/track/trxmgrRl.c:443-464 | the text from the last word start to the cursor is deleted |
| LineEditor.Editor.KillToBol | prof/track/trxmgrRl.c:465-472 | everything before the cursor is deleted |
| LineEditor.Editor.KillToEol | prof/track/trxmgrRl.c:473-479 | everything after the cursor is deleted |
| LineEditor.Editor.GotoBol | prof/track/trxmgrRl.c:480 | the cursor goes to the start of the line |
| LineEditor.Editor.GotoEol | prof/track/trxmgrRl.c:481 | the cursor goes to its end |
| LineEditor.Editor.ClearScreen | prof/track/trxmgrRl.c:482-496 | the line is redrawn from the top of an empty screen, cursor in place |
| LineEditor.Editor.MoveWordForward | prof/track/trxmgrRl.c:499-513 | to the next word end |
| LineEditor.Editor.MoveWordBackward | prof/track/trxmgrRl.c:515-531 | to the last word start, except one at position 1, which its last loop runs past |
| LineEditor.Editor.KillWordForward | prof/track/trxmgrRl.c:533-553 | deletes up to the next word, keeping one separator |
| LineEditor.Editor.ScanBack | prof/track/trxmgrRl.c:449-455 | where the shared backward loops stop, in terms of word starts |
| LineEditor.Editor.ScanForward | prof/track/trxmgrRl.c:504-510 | the shared forward loops stop at the first word end |
| LineEditor.GapOpened | prof/track/trxmgrRl.c:564-565 | memmove and store leave the longer string, terminated |
| LineEditor.Editor.InsertChar | prof/track/trxmgrRl.c:561-567 | the character is in the line and on the screen, the cursor still before it |
| LineEditor.Editor.Type | prof/track/trxmgrRl.c:555-572 | a character is inserted before the cursor and the screen shows it |
| LineEditor.InsertKeepsTerminator | prof/track/trxmgrRl.c:561-566 | the insertion leaves a terminator if and only if the line was shorter than maxl-1 |
| LineEditor.FillUp | prof/track/trxmgrRl.c:555-572 | typing leads to a line of maxl-1 characters, where any further insertion leaves no terminator |
| LineEditor.Editor.ShowHistory | prof/track/trxmgrRl.c:356-371 | the line becomes the recalled one, the screen follows, histoff moves by one |
| LineEditor.Editor.EndLine | prof/track/trxmgrRl.c:406-414 | the whole line is handed on, the cursor goes below the text, which stays displayed |
| LineEditor.Editor.FreshPrompt | prof/track/trxmgrRl.c:326-342 | an empty line behind the prompt, displayed |
| Console.EditorKey | prof/track/trxmgrRl.c:354-572 | every key that leaves the history alone has its effect on text and cursor, word keys in terms of where words start and end, and keeps the screen faithful |
| Console.KeyMeans | prof/track/trxmgrRl.c:373-572 | the zipper's version of each key is the one on text and cursor |
| Console.Session.Start | prof/track/trxmgrRl.c:46-146 | a session starts with the empty line displayed and an empty history |
| Console.Session.Recall | prof/track/trxmgrRl.c:356-371 | the line shown is the command at the new offset, the empty one at 0; line and offset stay when no such command is kept |
| Console.Session.OnKey | prof/track/trxmgrRl.c:344-575 | UP shows the command one offset further back and DOWN one nearer, or nothing changes; every other key has its effect on text and cursor and leaves the offset alone; cell k shows buf[k], cells beyond the text are blank and the cursor is at its row and column |
| Console.Session.UpThenDown | prof/track/trxmgrRl.c:356-371 | the two keys restore the command shown before, by its place in the log |
| Console.Session.Submit | prof/track/trxmgrRl.c:406-432 | finishing a line hands it on, adds it without its leading blanks to the log, or the repeated entry, unless there is nothing to add, and shows a fresh prompt, histoff back at 0 |
| Console.StrippedSuffix | prof/track/trxmgrHist.c:182 | what is added is the line from its first character that is neither blank nor tab |
| History.HistoryIsNewestPart | prof/track/trxmgrHist.c:29-126 | after any mix of additions and resizes the entries are the newest part of the log and the entry tagged k is the k-th command ever added |
| History.LogIsWhatWasAdded | prof/track/trxmgrHist.c:96-126 | that log is exactly the commands added |
| History.DoKeepsNewest | prof/track/trxmgrHist.c:29-126 | each operation keeps this |
| History.RelativeReach | prof/track/trxmgrHist.c:239-242 | `!-n` reaches the n-th newest command exactly for 1 <= n below the number of entries |
| History.History.constructor | prof/track/trxmgrHist.c:71-86 | an empty history of the given size |
| History.History.SetMax | prof/track/trxmgrHist.c:29-69 | a valid size keeps as many of the newest entries as fit, with their tags, an invalid one or a failed malloc changes nothing |
| History.History.CopyNewest | prof/track/trxmgrHist.c:44-60 | the copying loop takes the newest commands with their tags |
| History.History.AddLine | prof/track/trxmgrHist.c:96-126 | the two parts joined and cut at maxl are the newest entry, and the oldest goes only when full; tags stay consecutive |
| History.History.Append | prof/track/trxmgrHist.c:122-124 | the entry and the next tag go to the first free slot |
| History.History.DropOldest | prof/track/trxmgrHist.c:111-120 | both arrays lose exactly their first element |
| History.History.GetCmd | prof/track/trxmgrHist.c:132-141 | the off-th newest command ever added, for exactly the offsets kept |
| History.History.GetIdx | prof/track/trxmgrHist.c:163-170 | the entry with that tag when it is kept, -1 otherwise, unless the unused slot it starts at happens to match |
| History.MisreadTag | prof/track/trxmgrHist.c:163-170 | a reachable misreading: a stale tag 1 in unused memory makes `!1` answer that slot |
| History.History.Repeat | prof/track/trxmgrHist.c:151-158 | the entry is added again with what followed the reference |
| Framing.ParseFrame | prof/track/trxcommon.c:124-129 | a frame is read back as its message and leaves the rest of the stream |
| Framing.HeaderFields | prof/track/trxcommon.c:124-129 | which byte of a header is what, and that each field is read back |
| Framing.ReceivedExactly | prof/track/trxcommon.c:167-203 | for every stream, by its bytes: when it is refused, what is received, and how much of it is consumed |
| Framing.FramingRoundTrip | prof/track/trxcommon.c:117-229 | any list of commands with payloads is read back exactly, in order, ending on a frame boundary |
| Framing.CallbackFramed | prof/track/trxcommon.c:142-155 | with a callback, and whatever follows, the frame is read as it was meant if and only if the declared length is 0 or the pieces add up to it |
| Framing.JoinedStops | prof/track/trxcommon.c:145 | a callback is asked until it answers 0 |
| Framing.CallbackThenFrames | prof/track/trxcommon.c:142-229 | so are then, and only then, all the commands that follow it |
| Framing.RepliesArrive | prof/track/trxcommon.c:162-165 | the acknowledgements of a list of commands are themselves read back exactly, in order |
| Framing.SessionInStep | prof/track/trxcommon.c:74-115 | each is accepted for its own command, with the handler's value, and the numbers stay in step through wrap-around |
| Framing.SendPayload | prof/track/trxcommon.c:132-141 | partial writes append exactly a prefix of the payload, all of it unless a write fails |
| Framing.SendCmdMore | prof/track/trxcommon.c:117-160 | success means the whole frame is on the stream; failure leaves a proper prefix of it |
| Framing.SendPieces | prof/track/trxcommon.c:144-153 | the callback's loop puts a prefix of its pieces on the stream, up to the first empty one, all of it unless a write fails |
| Framing.SendFromCallback | prof/track/trxcommon.c:117-160 | success means the header and all pieces are on the stream, whatever the declared length; failure leaves a proper prefix |
| Framing.RcvPayload | prof/track/trxcommon.c:193-197 | partial reads collect exactly the next bytes, fewer only at the end of the stream |
| Framing.RcvCmd | prof/track/trxcommon.c:167-218 | under any positive partial reads, exactly the message on the stream; and how much of the stream is consumed, errors included (ReceivedExactly) |
| Framing.Serve | prof/track/trxcommon.c:167-229 | the acknowledgement sent echoes the sequence number and carries the callback's value |
| Framing.Caller.RecvAck | prof/track/trxcommon.c:74-115 | -1 for no answer, a short one, no ack or the wrong number, otherwise the value, by the bytes that arrived; the number advances for anything that arrived |
| Framing.Exchange | prof/track/trxcommon.c:74-229 | a command and its acknowledgement get through whole, leaving both streams empty |
| Framing.Converse | prof/track/trxcommon.c:74-229 | for any list of commands and any fragmentation the callbacks see exactly those commands in order, the caller gets each callback's answer, and both streams end on a frame boundary |
| Config.ParsePrinted | prof/track/settings:50-57 | the words printed for a program parse, without an error, to the flags the table assigns to them |
| Config.KeyMask | prof/track/trxcommon.c:11-28 | each printed word selects the flag the table gives it, "track" and "validate" crosswise |
| Config.WordExactly | prof/track/trxmgr.c:71-99 | a word without `=` is an error; otherwise its key, in any case, sets or clears a flag by "on" or "off", and any other key or value is an error |
| Config.OneWord | prof/track/trxmgr.c:71-99 | words are taken one after the other, and one in error is counted and skipped |
| Config.TokenExactly | prof/track/trxmgr.c:56-71 | strtok gives the first run of other characters and goes on behind the delimiter that ends it |
| Config.LineLengthExactly | prof/track/trxmgr.c:54 | fgets gives the text up to its first newline, or as much as the buffer holds |
| Config.PrintedLine | prof/track/settings:57 | the line printed for a program, word for word |
| Config.ReadsWhatWasSaved | prof/track/trxmgr.c:54-113 | reading a printed file after any entries appends its programs, up to the hundredth entry, and leaves errors and defaults alone |
| Config.ConfigurationRoundTrip | prof/track/trxmgr.c:29-124 | each of the first hundred distinct names gets exactly the flags of its words |
| Config.UnlistedNameIsOff | prof/track/trxmgr.c:29-38 | a name that was not written gets no flag, nor does one beyond the hundredth |
| Config.Manager.ReadFlags | prof/track/trxmgr.c:71-99 | the token loop gives the flags and the error count of the rest of a line |
| Config.Manager.ReadOneLine | prof/track/trxmgr.c:56-112 | comments, blank lines, long names, the default entry and ordinary entries |
| Config.DefaultsExactly | prof/track/trxmgr.c:54-123 | for every text: the table it gives, when it is rejected, and the exact condition on its lines under which the defaults stay as they were |
| Config.RejectedYetChanged | prof/track/trxmgr.c:101-117 | a default line and a malformed one: rejected, and the defaults are changed |
| Config.RejectedText | prof/track/trxmgr.c:101-117 | a concrete text that is rejected and leaves the defaults at "enable" |
| Config.Manager.ReadConf | prof/track/trxmgr.c:41-124 | the table is replaced exactly when no line considered holds an error; the defaults follow the last default line either way |
| Config.Manager.GetAppConfig | prof/track/trxmgr.c:29-38 | the first entry with that name, else the defaults if set, else nothing |
| Words.Int32Absorbs | prof/track/trxTree.c:26-36 | adding in an int, wrapped at every step, is the wrapped mathematical sum |
| Words.WordRoundTrip | prof/track/trxcommon.c:125-129 | a word is recovered from its bytes in memory order |

## Left out

- Sockets, select, shared memory, dlsym, signals, threads, syslog, shell and ssh commands; calls under the lock are atomic steps.
- The early-allocation buffer, the `enable` switch set to 0 and its value in clientSet, fork, and the 64-bit layout.
- The stack walk of tp_gettrace: a trace is an input of any contents.
- Untracked calloc in runs: its zero fill writes outside the payload (Placement.UntrackedZeroFill), so a request to clear requires tracking; the overflow of calloc's multiplication is not modelled.
- Memory is kept as header records by payload address, with the two list links in a separate map; AllocatorRuns.PayloadIsPrivate is the reason this loses nothing.
- A dead header disappears as soon as an allocation is handed one of its bytes; what the program then writes there is not modelled.
- The closers of a descriptor, which no report shows.
- The total allocation and process size in a report's last line, which are printed unchanged; banners around a report.
- Recognition of `h`, `!!`, `!n` and `!str` in hist_cmd: Console.Submit is told which it was; lines that outgrow the buffer through a repeat.
- getinput's escape sequences and terminfo, non-printable characters, scrolling at the bottom of the screen, terminals without a home capability.
- The CLI's counter of waiting reports, and console commands other than the ones above.
- The backup lock file and pid, stop, recover, the transports and the size estimate; start's own return code, which stays true when space is short.
- TFTP option text, change of the peer's address, the choice of file, what follows a completed transfer, and DATA packets of other transfers that reach the receiver.
- A prompt as wide as the terminal: rl_init has one of 1 and a width of 80.
- Descriptors opened or closed between the blocks and the descriptors of one report, which addFds writes after the lock is released.
- DHCP, ISO mounting, Xen consoles, lxc, java, spec files, kernel configuration and patch scripts.
- Tracker.Tracker.ClientSet: the switches are booleans, so a value other than 0 or 1 comes back as 1.
- AllocatorRuns.EveryReachableState: a run sets only tags below 255, because what the code does with a missing list is undefined.
- Tracker.Tracker.TpAlloc: a request whose size wraps and an untracked request to clear are excluded, because they write outside the block or over its header; Placement says exactly when.
- History.History.constructor: the size must be valid; hist_init with an invalid one leaves a history without arrays.
- History.History.AddLine: the first part is at most maxl long; the original copies a longer one past its allocation.
- Report.ReportIgnoresTieOrder: speaks of prefixes and sizes only; the type mark is that of whichever equal slot sorts first.
- Report.QSort: an insertion sort stands for the C library's; only its contract is used.
- Console.EditorKey: a typed character must leave room for the terminator, as for LineEditor.Editor.Type.
- Console.Session.Submit: a repeated line must fit in the buffer; the original copies it whatever its length.
- Framing.RcvPayload: a failing malloc is not modelled except for a negative length.
- Tracker.Tracker.ReallocPtr: as TpAlloc, for the new size.
- Tracker.Tracker.MoveBlock: as TpAlloc, for the new size.
- Tracker.Tracker.Memalign: as TpAlloc, for the size and the alignment.
- LineEditor.Editor.InsertChar: as Type.
- LineEditor.Editor.Type: requires room for the terminator; InsertKeepsTerminator says what happens without it.
- Framing.SendCmdMore: a header written in part is a failure, as in the original; write takes 0 bytes finitely often, because the original would otherwise loop for ever.
- Framing.SendFromCallback: a callback that answers a negative length is not modelled.
- Tftp.Server.SendFile: ends when its script of inputs ends, because the original waits for ever for an acknowledgement of the right number.
- Config.Manager.ReadConf: a line longer than 198 characters is read in pieces, as fgets does; a missing file is not modelled.
- Console.Session.OnKey: a typed character must leave room for the terminator; the bell for a key that does nothing is not shown.
