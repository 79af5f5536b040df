# A verified model of firmware and build-script logic in a UEFI tree

The project models the parts of the tree that carry real algorithms and proves what they
promise. Each module follows one source file or one component of it:

| file | component |
|---|---|
| `EventLog.dfy`, `EventLogBuild.dfy`, `EventLogFormat.dfy`, `EventLogReplay.dfy`, `EventLogLocality.dfy` | the TPM event log walker: digest walks, iterator, HOB emission; the outcome on arbitrary bytes; the log format and its serializer; PCR replay, from given or from announced initial values |
| `MemoryInit.dfy` | placing the UEFI region, splitting the descriptor that holds the firmware device (FD), classifying the FD |
| `Sec.dfy` | PPI list, hand-off layout and temporary RAM migration |
| `PatchCheckSpec.dfy`, `PatchCheckNames.dfy`, `GitDiff.dfy`, `PatchCheck.dfy` | what a git diff says, read off positions; whose policy its names select; what git prints for a list of changes; the state machine that checks it |
| `FormatDosFiles.dfy` | the five formatting passes |
| `UpdateInf.dfy`, `AnonLabels.dfy`, `ProcUses.dfy` | MASM to NASM: in-place INF rewriting, anonymous labels, USES prologues |
| `DetectNotUsedItem.dfy` | the reverse scan that deletes by value, and DEC cleaning |
| `GdbSerial.dfy` | the GDB File-I/O exchange and the F reply parser |
| `BinToPcd.dfy` | XDR packing and PCD values |
| `Words.dfy`, `Wrappers.dfy`, `PyStrings.dfy` | bytes, words and memory; optional values; Python string operations |

Imperative code is modelled imperatively (classes, arrays, loops) and each method is proved
against a function or predicate that describes its result without its control flow. The
lemmas about those functions are the properties.

## What the proofs found

Where the code falls short of a property one would expect, the exact condition is proved, and
a second lemma shows an input that fails.

- PatchCheck stops at the first hunk line that does not begin with a blank, '-', '+', "\r\n" or
  "\ No newline". It takes that line for the end of the patch mail, but a bare "\n" is such a
  line, as git prints an empty context line under diff.suppressBlankEmpty, and so is the rest of
  a hunk line that splitlines cut at a form feed. Added lines behind it are never looked at. The
  lines checked are all the added lines exactly when no line behind the stop begins with '+' or
  the file is RTF (`ChecksAllAddedIff`). The verdict is that of the whole diff exactly when a line
  before the stop fails already, or the file is RTF, or each '+' line behind the stop meets the
  policy (`VerdictCoversDiffIff`, `PassesUncheckedLine`).
- PatchCheck reads what git prints for any list of changes to its end and reports exactly the
  inserted lines and the new binaries, if and only if no change carries a "dissimilarity index",
  an extended header that git documents and the checker does not know (`PrintedDiffIff`,
  `RewriteIsRejected`).
- PatchCheck takes a file's policy from the old name in git's header, up to its first blank. The
  lines added to the new file are judged by its own policy exactly when that cut-off name means
  the same one (`FileNameOfHeaderIff`, `JudgedAsNewFileIff`); a shell script renamed to a C file
  (`RenameKeepsOldPolicy`) and one with a blank in its name (`BlankInNameLosesPolicy`) are judged
  by another.
- A StartupLocality record is dropped on the strength of its data alone; the code does not
  check that it is EV_NO_ACTION. The HOBs replay to the PCR values of the log exactly when
  every dropped record is (`HobsReplayTheLogIff`, `DroppedMeasurementIsLost`).
- A verifier that starts PCR 0 from the announced locality also needs the announcement, and only
  one of locality 3 is kept. The source argues that the others are optional; the replay from the
  announced start is preserved exactly when, besides, the log starts from locality 3, or from 0
  with no announcement of 3 behind (`HobsReplayFromStartIff`, `LocalityFourIsLost`).
- The SpecID test looks inside the first digest of a crypto-agile record. A log is walked record
  by record exactly when every event that passes the test has the same size by both rules
  (`WalkInvertsSerializerIff`, `LookalikeIsMisread`).
- An event log at address 0 would be walked for ever, as 0 is also the iterator's "not
  started" mark (`NullBaseNeverAdvances`).
- InitializeMemory's ASSERTs admit an FD that encloses all of memory, and a region larger
  than memory when the FD lies outside it (`RegionIsSafeIff`, `UnsafeRegions`). An empty FD in
  memory makes an ASSERT fail although the region would fit across it (`AssertFailsIffNoRoom`,
  `EmptyFdIsInTheWay`).
- MemoryPeim marks the FD's range as allocated even where it leaves the descriptor whole. The
  range is a descriptor of its own exactly when the holder was split or was as long as the FD
  (`FdHasOwnPieceIff`, `FdHasOwnDescriptorIff`, `FdIsMarkedButNotSplitOff`).
- MemoryPeim's ASSERT (Found) fails exactly when a descriptor covers the base of memory but
  none holds the FD (`FoundIff`, `FdIsNotFound`).
- PeilessSec and MemoryPeim disagree on an empty FD at either edge of memory
  (`ClassificationAgreesIff`, `EmptyFdIsClassifiedTwice`). InitializeMemory clamps memory and
  MemoryPeim does not, so they disagree on an FD in memory past the clamp (`ClampingAgreesIff`,
  `FdPastClamp`).
- Temporary RAM of 2 to 15 bytes makes the stack size underflow (`HeapFitsIff`), and the copy
  then leaves memory (`SecTemporaryRamSupport`). Heap bytes are lost exactly when the new stack
  overlaps the old heap (`HeapArrivesIff`, `HeapIsOverwritten`). The comment on
  SecTemporaryRamSupport promises EFI_INVALID_PARAMETER for overlapping regions; the code never
  returns it, and the model follows the code.
- A platform PPI that already carries the terminate flag hides the entries behind it
  (`WholeListIsSeenIff`, `FlaggedEntryEndsList`).
- Converting Foo.asm rewrites every INF line that holds its name, that of MyFoo.asm included. A line
  is rewritten just for listing a source exactly when it lists one or holds the name of none
  (`RewrittenIffListedIff`, `RewritesLongerName`).
- Registers named by USES are restored only at the first line that reads just "ret"; a return
  with an operand, and any later "ret", leave them on the stack (`ReturnIsBalancedIff`,
  `UnbalancedReturns`). A "ret" before any PROC reads an attribute that does not exist
  (`Translate`).
- The passes that rewrite "@b" and "@f" also hit identifiers that merely hold them: "@base"
  becomes ".0ase". They translate references and nothing else exactly when no longer identifier
  holds '@' followed by b, B, f or F (`ConvertsReferencesIff`, `CutsIdentifier`).
- A label between an anonymous label and its reference leaves the translated reference
  undefined (`BackReferenceIff`, `ForwardReferenceIff`, `LabelBetweenHidesTarget`).
- DetectNotUsedItem takes the header of a section for an item of it. A used item keeps its
  section exactly when the header's own text counts as used too; otherwise Clean deletes the
  header, and the item falls into the section before (`KeepsSectionIff`, `HeaderOfUsedItemGoes`).
- The F reply parser reads every negative return code as 0, so "F-1,errno" is not seen as an
  error (`ParserInvertsPrinterIff`, `FailureReadsAsZeroBytes`). GdbWrite, unlike GdbRead, does
  not hold gProcessingFPacket during its exchange (`GdbWrite`).
- The "unexpected patch line" error of PatchCheck needs an empty line, which splitlines never
  yields (`HunkLinesAreWellFormed`).

## Model

| member | source | states |
|---|---|---|
| EventLog.GetHashInfo | ArmPlatformPkg/PlatformPei/PlatformPeiTpmEventLog.c:53-68 | the table search succeeds for exactly the four supported algorithms and yields their digest sizes |
| EventLog.GetDigestListSize | ArmPlatformPkg/PlatformPei/PlatformPeiTpmEventLog.c:144-182 | for arbitrary memory, the read-ahead-and-back-up loop returns the length of the packed digest list, or 0 for an unknown algorithm; and how far its cursor gets in either case |
| EventLog.DigestsReachBounds | ArmPlatformPkg/PlatformPei/PlatformPeiTpmEventLog.c:155-175 | the cursor of the digest walk, whether it succeeds or fails, moves at most 66 bytes for each digest announced |
| EventLog.RecordSizeBounds | ArmPlatformPkg/PlatformPei/PlatformPeiTpmEventLog.c:247-269 | for arbitrary bytes an accepted record spans at least 32 bytes, so the walk advances, and at most a fixed bound |
| EventLog.AddressesDoNotWrap | ArmPlatformPkg/PlatformPei/PlatformPeiTpmEventLog.c:240-269 | no address that one step computes, for an accepted or a rejected record, reaches 2^64 if the log ends at least that bound below |
| EventLog.EventLogIterator.constructor | ArmPlatformPkg/PlatformPei/PlatformPeiTpmEventLog.c:195-205 | the initial state: not started |
| EventLog.EventLogIterator.GetNext | ArmPlatformPkg/PlatformPei/PlatformPeiTpmEventLog.c:222-275 | one call yields the record at the position behind the last one; past the end it is EFI_NOT_FOUND, at an invalid record EFI_INVALID_PARAMETER, and both put the iterator back into its initial state |
| EventLog.RecordStart | ArmPlatformPkg/PlatformPei/PlatformPeiTpmEventLog.c:234-269 | record k of any walk starts at the base plus the sizes of the records before it, inside the log |
| EventLog.WalkEnd | ArmPlatformPkg/PlatformPei/PlatformPeiTpmEventLog.c:240-261 | a walk ends only past the end of the log or at an invalid record |
| EventLog.WalkIsContiguous | ArmPlatformPkg/PlatformPei/PlatformPeiTpmEventLog.c:234-275 | for arbitrary bytes: starts are prefix sums of sizes, lie inside the log, each record has at least 32 bytes, and the walk ends where the statuses say |
| EventLog.WalkDoesNotWrap | ArmPlatformPkg/PlatformPei/PlatformPeiTpmEventLog.c:222-275 | nor does any address of a whole walk |
| EventLog.DumpTpmEventLog | ArmPlatformPkg/PlatformPei/PlatformPeiTpmEventLog.c:439-457 | the consuming loop terminates on every log but one at address 0 with a valid first record, and visits exactly the records of the walk |
| EventLog.NullBaseNeverAdvances | ArmPlatformPkg/PlatformPei/PlatformPeiTpmEventLog.c:234-238 | with a log at address 0, every further call yields the first record again |
| EventLog.BuildOnePeiEventLogHob | ArmPlatformPkg/PlatformPei/PlatformPeiTpmEventLog.c:472-540 | for arbitrary memory, its own digest walk ends at the same EventSize field as GetDigestListSize, and the record is dropped, copied into a HOB, or refused |
| EventLog.BuildPeiEventLogHobs | ArmPlatformPkg/PlatformPei/PlatformPeiTpmEventLog.c:554-611 | for arbitrary memory: status and HOBs of the whole loop, including a missing log, a bad first record and the first failure |
| EventLogBuild.SignaturesSpelledOut | ArmPlatformPkg/PlatformPei/PlatformPeiTpmEventLog.c:93-106 | the signatures compared are those of the TCG structures, with their NUL |
| EventLogBuild.SupportedAlgorithms | ArmPlatformPkg/PlatformPei/PlatformPeiTpmEventLog.c:27-32 | SHA-1, SHA-256, SHA-384 and SHA-512 by identifier and digest size, and no other |
| EventLogBuild.BuildFollowsWalk | ArmPlatformPkg/PlatformPei/PlatformPeiTpmEventLog.c:554-611 | for arbitrary bytes and with room for every HOB: refusal without a SpecID first, else the HOBs are the bytes of the walk's further records that are not skipped, in order, and the status follows from the walk |
| EventLogBuild.SuccessMeansWholeLog | ArmPlatformPkg/PlatformPei/PlatformPeiTpmEventLog.c:575-611 | whatever the allocator does, success means type EV_NO_ACTION and a SpecID signature at the start and a walk to the end of the log |
| EventLogFormat.DigestsEndInvertsSerializer | ArmPlatformPkg/PlatformPei/PlatformPeiTpmEventLog.c:155-181 | over a serialized digest list the walk stops exactly at its end |
| EventLogFormat.EventFields | ArmPlatformPkg/PlatformPei/PlatformPeiTpmEventLog.c:253-268 | type, digest count, end of digests, data size and data of a serialized record are found where the walkers read them |
| EventLogFormat.RecordSizeOfEventIff | ArmPlatformPkg/PlatformPei/PlatformPeiTpmEventLog.c:247-269 | a serialized record is measured exactly iff it does not pass the SpecID test or both rules give the same size |
| EventLogFormat.RecordSizeOfSpecId | ArmPlatformPkg/PlatformPei/PlatformPeiTpmEventLog.c:82-131 | a serialized SpecID record is recognised and measured exactly |
| EventLogFormat.EventIsNotSpecId | ArmPlatformPkg/PlatformPei/PlatformPeiTpmEventLog.c:93-106 | a record that is not EV_NO_ACTION, or whose first digest has no 'S' as 19th byte, never passes the SpecID test |
| EventLogFormat.NoLookalikes | ArmPlatformPkg/PlatformPei/PlatformPeiTpmEventLog.c:82-109 | that condition on every record rules out wrong measures in the whole log |
| EventLogFormat.WalkEventsIff | ArmPlatformPkg/PlatformPei/PlatformPeiTpmEventLog.c:222-275 | the walk over any list of serialized events yields their offsets and sizes iff each event that passes the SpecID test has the same size by both rules |
| EventLogFormat.WalkInvertsSerializerIff | ArmPlatformPkg/PlatformPei/PlatformPeiTpmEventLog.c:142-275 | the iterator inverts the serializer, yielding exactly the records' offsets and sizes in order and then EFI_NOT_FOUND, iff that holds of the log's events |
| EventLogFormat.LookalikeIsMisread | ArmPlatformPkg/PlatformPei/PlatformPeiTpmEventLog.c:82-131 | a valid EV_NO_ACTION record of 66 bytes that is taken for a SpecID record of 32 |
| EventLogFormat.Kept | ArmPlatformPkg/PlatformPei/PlatformPeiTpmEventLog.c:509-531 | the re-emitted events are those that are not StartupLocality with a locality other than 3 |
| EventLogFormat.DroppedInMemory | ArmPlatformPkg/PlatformPei/PlatformPeiTpmEventLog.c:504-515 | the in-memory test drops exactly those events |
| EventLogFormat.EmitOneEvent | ArmPlatformPkg/PlatformPei/PlatformPeiTpmEventLog.c:487-537 | a serialized event is dropped or offered to the HOB builder byte for byte |
| EventLogFormat.EmitFromEvents | ArmPlatformPkg/PlatformPei/PlatformPeiTpmEventLog.c:599-604 | the emission loop over serialized events offers exactly the kept ones in order, up to the first refusal |
| EventLogFormat.BuildEmitsKeptEvents | ArmPlatformPkg/PlatformPei/PlatformPeiTpmEventLog.c:575-610 | on any log BuildPeiEventLogHobs skips the SpecID record and emits the kept events, in order and byte for byte, under any allocator |
| EventLogFormat.EmitAllWhenAccepted | ArmPlatformPkg/PlatformPei/PlatformPeiTpmEventLog.c:532-539 | when no HOB is refused, the status is success and every kept event has one HOB |
| EventLogReplay.ReplayOfKept | ArmPlatformPkg/PlatformPei/PlatformPeiTpmEventLog.c:517-529 | replaying the kept events equals replaying all, if the dropped ones are EV_NO_ACTION |
| EventLogReplay.ReplayPreservedIff | ArmPlatformPkg/PlatformPei/PlatformPeiTpmEventLog.c:509-531 | replay is preserved under every hash function exactly when every dropped event is EV_NO_ACTION |
| EventLogReplay.DecodeInvertsSerializer | ArmPlatformPkg/PlatformPei/PlatformPeiTpmEventLog.c:487-507 | every field of a record is recovered from its bytes |
| EventLogReplay.EventBytesInjective | ArmPlatformPkg/PlatformPei/PlatformPeiTpmEventLog.c:532-532 | different records give different HOBs |
| EventLogReplay.DecodeHobsOfEvents | ArmPlatformPkg/PlatformPei/PlatformPeiTpmEventLog.c:532-532 | a consumer that decodes the HOBs finds exactly the events |
| EventLogReplay.HobsHoldKeptEvents | ArmPlatformPkg/PlatformPei/PlatformPeiTpmEventLog.c:554-611 | from log bytes to decoded HOBs: exactly the kept events |
| EventLogReplay.HobsReplayTheLogIff | ArmPlatformPkg/PlatformPei/PlatformPeiTpmEventLog.c:554-611 | end to end from log bytes to PCR values: building succeeds, and the HOBs replay like the whole log exactly when the dropped records are EV_NO_ACTION |
| EventLogReplay.DroppedMeasurementIsLost | ArmPlatformPkg/PlatformPei/PlatformPeiTpmEventLog.c:509-531 | a log whose only measurement extends PCR 0 and yields no HOB |
| EventLogLocality.KeptLocality | ArmPlatformPkg/PlatformPei/PlatformPeiTpmEventLog.c:509-531 | the kept events announce locality 3 if any event did, and otherwise none |
| EventLogLocality.LocalitySurvivesIff | ArmPlatformPkg/PlatformPei/PlatformPeiTpmEventLog.c:509-531 | the announced start survives the dropping iff it is 3, or 0 with no announcement of 3 behind |
| EventLogLocality.ReplayFromStartPreservedIff | ArmPlatformPkg/PlatformPei/PlatformPeiTpmEventLog.c:509-531 | replay from the announced start is preserved, for every hash function and every effect of the locality, iff dropped events are EV_NO_ACTION and the start survives |
| EventLogLocality.HobsReplayFromStartIff | ArmPlatformPkg/PlatformPei/PlatformPeiTpmEventLog.c:554-611 | the same end to end, from log bytes to what a verifier computes from the HOBs |
| EventLogLocality.LocalityFourIsLost | ArmPlatformPkg/PlatformPei/PlatformPeiTpmEventLog.c:509-531 | a log that starts from locality 4 replays from 0 |
| MemoryInit.InitializeMemory | ArmPlatformPkg/MemoryInitPei/MemoryInitPeim.c:77-128 | exactly when an ASSERT fails, and otherwise where the region is placed, including the 64-bit underflow |
| MemoryInit.RegionIsSafeIff | ArmPlatformPkg/MemoryInitPei/MemoryInitPeim.c:108-126 | when the ASSERTs pass, the region is inside clamped memory and clear of the FD, except for an FD outside memory with too large a region and an FD enclosing memory |
| MemoryInit.RegionIsHighest | ArmPlatformPkg/MemoryInitPei/MemoryInitPeim.c:108-126 | no safe region lies higher than the one chosen |
| MemoryInit.AssertFailsIffNoRoom | ArmPlatformPkg/MemoryInitPei/MemoryInitPeim.c:109-120 | with an FD in memory the ASSERT fails exactly when no region is safe, except across an empty FD |
| MemoryInit.EmptyFdIsInTheWay | ArmPlatformPkg/MemoryInitPei/MemoryInitPeim.c:109-120 | a region that fits across an empty FD is refused |
| MemoryInit.RegionGoesToTop | ArmPlatformPkg/MemoryInitPei/MemoryInitPeim.c:112-113 | a usual configuration, with the region at the top of memory |
| MemoryInit.UnsafeRegions | ArmPlatformPkg/MemoryInitPei/MemoryInitPeim.c:108-126 | a configuration of either kind that passes the ASSERTs and gets an unsafe region |
| MemoryInit.FirstHolding | ArmPlatformPkg/MemoryInitPei/MemoryInitPeiLib.c:142-146 | the first system memory descriptor that holds a range, or none |
| MemoryInit.Scan | ArmPlatformPkg/MemoryInitPei/MemoryInitPeiLib.c:102-114 | a scan stops at the first descriptor that holds the range |
| MemoryInit.SplitHolder | ArmPlatformPkg/MemoryInitPei/MemoryInitPeiLib.c:147-193 | the in-place edit and the appended descriptors of all three branches |
| MemoryInit.MemoryPeim | ArmPlatformPkg/MemoryInitPei/MemoryInitPeiLib.c:96-210 | the final HOBs and the outcome of ASSERT (Found); no address gains or loses memory, the total length is unchanged, disjoint descriptors stay disjoint |
| MemoryInit.PiecesTile | ArmPlatformPkg/MemoryInitPei/MemoryInitPeiLib.c:151-193 | the pieces of the split descriptor are disjoint, inherit type and attributes, and cover it exactly |
| MemoryInit.SplitPreservesMap | ArmPlatformPkg/MemoryInitPei/MemoryInitPeiLib.c:147-193 | every address keeps its type and resource attributes |
| MemoryInit.SplitPreservesLength | ArmPlatformPkg/MemoryInitPei/MemoryInitPeiLib.c:147-193 | the total length is conserved |
| MemoryInit.SplitPreservesDisjointness | ArmPlatformPkg/MemoryInitPei/MemoryInitPeiLib.c:147-193 | pairwise disjoint descriptors stay so |
| MemoryInit.SplitIsolatesFd | ArmPlatformPkg/MemoryInitPei/MemoryInitPeiLib.c:152-200 | unless the FD starts its descriptor and ends with memory, one descriptor is write-back memory over exactly the range that the allocation HOB marks, and memory attributes elsewhere are unchanged |
| MemoryInit.FdHasOwnPieceIff | ArmPlatformPkg/MemoryInitPei/MemoryInitPeiLib.c:147-200 | some piece of the holder is exactly the marked range iff the FD does not start it, does not end with memory, or is as long as it |
| MemoryInit.FdHasOwnDescriptorIff | ArmPlatformPkg/MemoryInitPei/MemoryInitPeiLib.c:147-200 | likewise over the whole list, when its descriptors are disjoint and the FD is not empty |
| MemoryInit.FdIsMarkedButNotSplitOff | ArmPlatformPkg/MemoryInitPei/MemoryInitPeiLib.c:151-200 | an FD that fills system memory at the start of a longer descriptor is marked and left in it |
| MemoryInit.RegionIsDescribedIff | ArmPlatformPkg/MemoryInitPei/MemoryInitPeim.c:128-133 | across both files: a byte of a safe region is described as system memory after MemoryPeim iff the memory base was undescribed or the platform described that byte; it is not in the FD's range |
| MemoryInit.FoundIff | ArmPlatformPkg/MemoryInitPei/MemoryInitPeiLib.c:102-209 | ASSERT (Found) fails exactly when some descriptor covers the memory base and none holds the FD |
| MemoryInit.DeclaredMemory | ArmPlatformPkg/MemoryInitPei/MemoryInitPeiLib.c:83-126 | undescribed memory is declared once, write-back and with the default attributes |
| MemoryInit.FdIsNotFound | ArmPlatformPkg/MemoryInitPei/MemoryInitPeiLib.c:102-209 | a platform that describes the first page of memory only, and fails the ASSERT |
| MemoryInit.ClassificationAgreesIff | ArmPlatformPkg/PeilessSec/PeilessSec.c:12-16 | for configurations that pass the ASSERT, "in memory" is the opposite of IS_XIP except for an empty FD at an edge of memory |
| MemoryInit.ClampingAgreesIff | ArmPlatformPkg/MemoryInitPei/MemoryInitPeim.c:95-109 | InitializeMemory and MemoryPeim agree on an FD in memory iff it is not in memory past the clamp |
| MemoryInit.ThreeClassificationsAgreeIff | ArmPlatformPkg/MemoryInitPei/MemoryInitPeim.c:95-109 | all three files agree iff the FD is neither past the clamp nor empty at an edge of memory |
| MemoryInit.FdPastClamp | ArmPlatformPkg/MemoryInitPei/MemoryInitPeim.c:95-109 | an FD at 2^48 that MemoryPeim splits off and InitializeMemory takes to be outside memory |
| MemoryInit.EmptyFdIsClassifiedTwice | ArmPlatformPkg/PeilessSec/PeilessSec.c:12-16 | an empty FD at the base of memory is in memory and executed in place |
| MemoryInit.PeilessFdIsAlwaysSplitOff | ArmPlatformPkg/PeilessSec/PeilessSec.c:110-114 | under that ASSERT an FD in memory that is found always gets its own descriptor |
| Sec.AlignIsLeast | ArmPlatformPkg/Sec/Sec.c:203-203 | ALIGN_VALUE gives the least multiple of 16 that is not below |
| Sec.HeapIsAlignedHalf | ArmPlatformPkg/Sec/Sec.c:48-48 | the heap is the least multiple of 16 that is at least half |
| Sec.HeapFitsIff | ArmPlatformPkg/Sec/Sec.c:48-48 | the rounded half fits exactly for sizes 0, 1 and from 16 on |
| Sec.SecTemporaryRamSupport | ArmPlatformPkg/Sec/Sec.c:35-69 | for every move: whether both copies stay in memory, with the stack size that wraps for sizes 2 to 15; then memory after both copies and the 64-bit stack pointer adjustment |
| Sec.MigrationMovesStack | ArmPlatformPkg/Sec/Sec.c:48-66 | whatever the overlap, the stack arrives, the adjusted pointer finds each byte, and nothing outside the destination changes |
| Sec.HeapArrivesWhenClear | ArmPlatformPkg/Sec/Sec.c:56-64 | the heap arrives at its translated address when the new stack does not overlap it |
| Sec.HeapArrivesIff | ArmPlatformPkg/Sec/Sec.c:56-64 | the heap arrives for every memory content exactly when the new stack does not overlap the old heap |
| Sec.HeapIsOverwritten | ArmPlatformPkg/Sec/Sec.c:56-64 | moving 32 bytes onto themselves loses the heap |
| Sec.CreatePpiList | ArmPlatformPkg/Sec/Sec.c:93-130 | the slots hold common, platform and transfer list entries with the last one terminated, the rest is untouched, and the size is right |
| Sec.SeenUpToFirst | ArmPlatformPkg/Sec/Sec.c:127-129 | a consumer sees the list up to the first terminate flag |
| Sec.WholeListIsSeenIff | ArmPlatformPkg/Sec/Sec.c:109-129 | the consumer sees exactly common, platform and transfer list entries, iff no platform entry before the last entry is flagged |
| Sec.PpisAreLocated | ArmPlatformPkg/Sec/Sec.c:75-129 | a consumer finds the temporary RAM support and the transfer list by their GUIDs |
| Sec.FlaggedEntryEndsList | ArmPlatformPkg/Sec/Sec.c:109-129 | a flagged first platform entry hides the second |
| Sec.SecMainLayout | ArmPlatformPkg/Sec/Sec.c:203-220 | the hand-off values, in wrapping arithmetic; list, heap and stack tile the primary stack when the list leaves room |
| Sec.LayoutTilesIff | ArmPlatformPkg/Sec/Sec.c:203-220 | list, heap and stack tile the primary stack exactly when the list leaves room of a size whose half fits |
| Sec.LayoutIsAligned | ArmPlatformPkg/Sec/Sec.c:203-220 | the list takes the least aligned room, the heap the least aligned half of the rest, and heap and stack keep the alignment of the primary stack |
| Sec.HandOffSurvivesMigration | ArmPlatformPkg/Sec/Sec.c:35-220 | end to end: migrating the handed-off RAM puts the bytes of the announced stack at the start of permanent memory and, unless the first copy runs over them, those of the announced heap right behind |
| PatchCheckSpec.Header | BaseTools/Scripts/PatchCheck.py:404-407 | the last "diff --git" line before a position |
| PatchCheckSpec.FirstOpener | BaseTools/Scripts/PatchCheck.py:442-448 | the first hunk or binary marker of a file section |
| PatchCheckSpec.SectionOf | BaseTools/Scripts/PatchCheck.py:388-393 | where the section of a line begins |
| PatchCheckSpec.AddedIff | BaseTools/Scripts/PatchCheck.py:465-471 | the added lines of the whole diff, before or behind the early stop, are the '+' lines of non-binary hunks in files that are not RTF |
| PatchCheckSpec.ChecksAllAddedIff | BaseTools/Scripts/PatchCheck.py:394-402 | the lines before the stop hold all the added lines iff none lies behind it; in a well-formed diff, iff no line behind begins with '+' or the file is RTF |
| PatchCheckSpec.VerdictCoversDiffIff | BaseTools/Scripts/PatchCheck.py:394-402 | in a well-formed diff the verdict says whether every added line is fine, iff checking ran to the end, a line before the stop fails, the file is RTF, or each line behind the stop that begins with '+' meets the policy |
| PatchCheckSpec.PassesUncheckedLine | BaseTools/Scripts/PatchCheck.py:394-402 | a diff with a bare "\n" context line passes with nothing checked, though its added line has a tab |
| PatchCheckNames.FileNameOfHeaderIff | BaseTools/Scripts/PatchCheck.py:407-407 | the name taken from git's header is the old name up to its first blank, and the old name itself iff it holds none |
| PatchCheckNames.JudgedAlikeIff | BaseTools/Scripts/PatchCheck.py:408-437 | files of two names are judged alike on every line iff the names mean the same policy |
| PatchCheckNames.JudgedByOldName | BaseTools/Scripts/PatchCheck.py:407-471 | a '+' line of a text hunk under git's header passes iff it passes in a file of the cut-off old name |
| PatchCheckNames.JudgedAsNewFileIff | BaseTools/Scripts/PatchCheck.py:407-437 | added lines are judged by the new file's policy, whatever they are, iff the cut-off old name means the same policy; so for an unchanged name without a blank |
| PatchCheckNames.RenameKeepsOldPolicy | BaseTools/Scripts/PatchCheck.py:407-424 | x.sh renamed to x.c: line feeds alone pass |
| PatchCheckNames.BlankInNameLosesPolicy | BaseTools/Scripts/PatchCheck.py:407-424 | "my x.sh" is judged as "my", and CRLF is demanded |
| PatchCheckNames.LineFeedFiles | BaseTools/Scripts/PatchCheck.py:411-431 | RTF files, shell scripts and git's own files need no CRLF, whatever their stem |
| PatchCheckNames.TabbedFiles | BaseTools/Scripts/PatchCheck.py:411-437 | RTF files, git's own files and makefiles may hold tabs, in any directory |
| PatchCheckNames.CFilePolicy | BaseTools/Scripts/PatchCheck.py:409-437 | a C file needs CRLF and no tabs exactly unless its directory exempts it |
| PatchCheckNames.OldDebugLine | BaseTools/Scripts/PatchCheck.py:534-537 | old DEBUG macros are rejected |
| PatchCheckNames.SubprojectLine | BaseTools/Scripts/PatchCheck.py:525-527 | a submodule line may end in a line feed |
| GitDiff.HeaderIsKnownIff | BaseTools/Scripts/PatchCheck.py:459-492 | each of git's extended headers is accepted, but for the dissimilarity index |
| GitDiff.ChangePlaysPart | BaseTools/Scripts/PatchCheck.py:385-478 | each line that git prints for a change is taken for what it was printed for, whatever precedes or follows |
| GitDiff.PrintedDiffIff | BaseTools/Scripts/PatchCheck.py:360-478 | for every list of changes: the diff is read to its end, the added lines are the inserted ones, the new binaries the new binary files, and it passes iff every inserted text meets its policy, all iff no change has a dissimilarity index |
| GitDiff.SignatureEndsPatch | BaseTools/Scripts/PatchCheck.py:394-402 | the signature of a patch mail ends the check and changes no result |
| GitDiff.RewriteIsRejected | BaseTools/Scripts/PatchCheck.py:459-492 | a rewrite with its dissimilarity index is an error, and none without it |
| PatchCheckSpec.HunkLinesAreWellFormed | BaseTools/Scripts/PatchCheck.py:394-402 | inside hunks only an empty line is malformed |
| PatchCheckSpec.StopFrom | BaseTools/Scripts/PatchCheck.py:368-371 | the first line at which checking stops |
| PatchCheckSpec.AddedLinesInOrder | BaseTools/Scripts/PatchCheck.py:470-471 | each added line is listed once, in order |
| PatchCheckSpec.ReportsCrlfIff | BaseTools/Scripts/PatchCheck.py:518-527 | the non-breaking loop reports CRLF exactly for a body followed by CRLF, the body ending in neither CR nor LF |
| PatchCheckSpec.SplitsOrdinaryLine | BaseTools/Scripts/PatchCheck.py:518-523 | a line with one of the four endings or none is split into text and ending |
| PatchCheck.SplitEnding | BaseTools/Scripts/PatchCheck.py:519-523 | the ending loop computes that split |
| PatchCheck.HasKnownPrefix | BaseTools/Scripts/PatchCheck.py:457-463 | the prefix loop recognises exactly the extended headers |
| PatchCheck.GitDiffCheck.constructor | BaseTools/Scripts/PatchCheck.py:360-372 | over all inputs: the lines checked are exactly the added lines before the stop, in order, and ok holds iff the diff is well formed and each of them meets the policy of the name taken from its header; and, in terms of the lines behind the stop, exactly when both extend to the whole diff |
| PatchCheck.GitDiffCheck.RunAll | BaseTools/Scripts/PatchCheck.py:368-371 | the loop ends with the results and the verdict for the lines before the stop; its assertion can not fail |
| PatchCheck.GitDiffCheck.Run | BaseTools/Scripts/PatchCheck.py:385-478 | every call advances within the input; attributes exist whenever they are read |
| PatchCheck.GitDiffCheck.RunStart | BaseTools/Scripts/PatchCheck.py:404-440 | a diff line opens a section with its file's policy; other text must be blank |
| PatchCheck.GitDiffCheck.SetPolicy | BaseTools/Scripts/PatchCheck.py:409-437 | the flags end up as the file name demands |
| PatchCheck.GitDiffCheck.RunPrePatch | BaseTools/Scripts/PatchCheck.py:441-464 | extended headers, submodules, new binaries and the opening of hunks |
| PatchCheck.GitDiffCheck.RunPatch | BaseTools/Scripts/PatchCheck.py:465-478 | hunk lines: the added ones are checked, once |
| PatchCheck.GitDiffCheck.SearchTrailer | BaseTools/Scripts/PatchCheck.py:394-402 | after the end of the patch only a further diff is an error |
| PatchCheck.GitDiffCheck.CheckAddedLine | BaseTools/Scripts/PatchCheck.py:518-545 | ok survives exactly if the line meets the policy |
| FormatDosFiles.TwoPassesMakeCrlf | BaseTools/Scripts/FormatDosFiles.py:32-34 | the second pass finds exactly the line feeds the first one misses |
| FormatDosFiles.CrlfOfLine | BaseTools/Scripts/FormatDosFiles.py:32-34 | each line gets one CRLF |
| FormatDosFiles.StripLine | BaseTools/Scripts/FormatDosFiles.py:37-38 | the fourth pass trims each line and nothing else |
| FormatDosFiles.FormatIsLineByLine | BaseTools/Scripts/FormatDosFiles.py:32-40 | for every byte string the five passes compute the line-by-line formatter |
| FormatDosFiles.FormatLinesIsNormal | BaseTools/Scripts/FormatDosFiles.py:32-40 | its result is in normal form |
| FormatDosFiles.NormalIsKept | BaseTools/Scripts/FormatDosFiles.py:32-40 | it leaves a normal text alone |
| FormatDosFiles.UnchangedIffNormal | BaseTools/Scripts/FormatDosFiles.py:32-40 | a file is unchanged iff it is in normal form: every LF after CR, no blank before CRLF, no tab, ends in CR or LF |
| FormatDosFiles.FormatReachesNormalForm | BaseTools/Scripts/FormatDosFiles.py:32-40 | every file reaches normal form and formatting is idempotent |
| FormatDosFiles.FormatKeepsText | BaseTools/Scripts/FormatDosFiles.py:32-40 | bytes other than blanks and line ends are preserved in order |
| FormatDosFiles.TabsBecomeTwoSpaces | BaseTools/Scripts/FormatDosFiles.py:40-40 | a tab becomes two spaces, and the text grows by one byte for each |
| FormatDosFiles.FormatsLineByItself | BaseTools/Scripts/FormatDosFiles.py:32-40 | a line and the rest of the file are formatted by themselves |
| FormatDosFiles.FormatsOneLine | BaseTools/Scripts/FormatDosFiles.py:32-40 | a line comes out as its text with two spaces for each tab, no blanks behind it, and CRLF |
| UpdateInf.RewriteLine | BaseTools/Scripts/ConvertMasmToNasm.py:858-869 | the first source whose replacement changes the line decides |
| UpdateInf.ChangesIffMentioned | BaseTools/Scripts/ConvertMasmToNasm.py:105-117 | replacing changes a line exactly if the name of the source occurs in it |
| UpdateInf.RewrittenIffMentioned | BaseTools/Scripts/ConvertMasmToNasm.py:858-869 | the rewritten lines are those in which the name of a converted source occurs |
| UpdateInf.RewrittenIffListedIff | BaseTools/Scripts/ConvertMasmToNasm.py:747-869 | a line is rewritten exactly if the path it lists is a converted source, iff it lists one or no source name occurs in it |
| UpdateInf.RewritesLongerName | BaseTools/Scripts/ConvertMasmToNasm.py:858-869 | "  MyFoo.asm" is rewritten for Foo.asm |
| UpdateInf.TakesFollowingSpaces | BaseTools/Scripts/ConvertMasmToNasm.py:105-117 | where the old name occurs once, the new one takes its place and that of as many following spaces as it needs and finds, so columns are kept |
| UpdateInf.FirstSourceDecides | BaseTools/Scripts/ConvertMasmToNasm.py:862-869 | the first source whose name occurs decides the text and whether the old line is kept |
| UpdateInf.PadsShorterName | BaseTools/Scripts/ConvertMasmToNasm.py:105-117 | a shorter name is padded to the length of the old one |
| UpdateInf.RewrittenText | BaseTools/Scripts/ConvertMasmToNasm.py:105-117 | the text of a rewritten line: the new name in place of the old one and of the blanks it needs |
| UpdateInf.ScanStep | BaseTools/Scripts/ConvertMasmToNasm.py:871-895 | each of the five branches adds the line's contribution and maintains recentSources |
| UpdateInf.InfFile.ScanLine | BaseTools/Scripts/ConvertMasmToNasm.py:855-896 | one line of the in-place scan, insertion included, leaves the contributions so far in front and the unread lines behind |
| UpdateInf.InfFile.UpdateLines | BaseTools/Scripts/ConvertMasmToNasm.py:854-901 | the scan terminates despite its insertions, reads no blanked-out line, and leaves exactly the lines' contributions |
| UpdateInf.SurvivorsKeepOrder | BaseTools/Scripts/ConvertMasmToNasm.py:871-901 | unchanged lines and kept originals survive verbatim and in order |
| UpdateInf.EmittedText | BaseTools/Scripts/ConvertMasmToNasm.py:875-893 | an emitted text stands, ended by a line feed, where the lines before have left off |
| UpdateInf.NothingElse | BaseTools/Scripts/ConvertMasmToNasm.py:871-901 | the new file holds the emissions and the survivors and nothing else |
| UpdateInf.OncePerRun | BaseTools/Scripts/ConvertMasmToNasm.py:873-893 | in a run of rewritten lines each rewritten text, but for the white space around it, is emitted exactly once |
| AnonLabels.LabelInjective | BaseTools/Scripts/ConvertMasmToNasm.py:531-532 | label names are unique to their number |
| AnonLabels.FourPassesAreOne | BaseTools/Scripts/ConvertMasmToNasm.py:521-529 | for every text, the four replacement passes do what one pass would, wherever in an identifier the letters stand |
| AnonLabels.ConvertsReferencesIff | BaseTools/Scripts/ConvertMasmToNasm.py:521-529 | the passes translate the whole identifiers "@b", "@B", "@f", "@F" and nothing else iff no longer identifier holds '@' followed by one of the letters |
| AnonLabels.CutsIdentifier | BaseTools/Scripts/ConvertMasmToNasm.py:521-529 | "@base" becomes ".0ase" |
| AnonLabels.Convert | BaseTools/Scripts/ConvertMasmToNasm.py:272-433 | line by line output with the label counter; what it means is stated by the rows below |
| AnonLabels.UniqueNumber | BaseTools/Scripts/ConvertMasmToNasm.py:421-423 | only the anonymous label with that number defines it |
| AnonLabels.NamedLabelsStay | BaseTools/Scripts/ConvertMasmToNasm.py:421-433 | a named label is defined by the line that defined it before and no other |
| AnonLabels.EmitsResolvingNamesIff | BaseTools/Scripts/ConvertMasmToNasm.py:421-529 | the emitted instruction is the line with each reference replaced by a name that resolves, in the output, to the line it meant, iff no longer identifier holds '@' and one of the letters |
| AnonLabels.JumpsBack | BaseTools/Scripts/ConvertMasmToNasm.py:421-529 | "@b" behind "@@:" becomes its label |
| AnonLabels.BackReferenceIff | BaseTools/Scripts/ConvertMasmToNasm.py:421-529 | a back reference resolves to its MASM target and nothing else, iff no other label is between them |
| AnonLabels.ForwardReferenceIff | BaseTools/Scripts/ConvertMasmToNasm.py:421-529 | likewise for a forward reference |
| AnonLabels.LabelBetweenHidesTarget | BaseTools/Scripts/ConvertMasmToNasm.py:421-529 | a label between the two, in either direction, and nothing resolves |
| AnonLabels.DanglingBackReference | BaseTools/Scripts/ConvertMasmToNasm.py:272-523 | a back reference with no label before it resolves to nothing |
| ProcUses.EmitPushes | BaseTools/Scripts/ConvertMasmToNasm.py:487-488 | one push for each register, in order |
| ProcUses.EmitPops | BaseTools/Scripts/ConvertMasmToNasm.py:428-430 | one pop for each register, in reverse |
| ProcUses.Translate | BaseTools/Scripts/ConvertMasmToNasm.py:427-488 | the output, by the text of each line, and that it fails exactly at a plain "ret" that neither PROC nor plain "ret" precedes |
| ProcUses.UsesOfProc | BaseTools/Scripts/ConvertMasmToNasm.py:433-486 | the registers are remembered up to the procedure's first plain "ret" |
| ProcUses.UsesMissingIff | BaseTools/Scripts/ConvertMasmToNasm.py:427-428 | when the attribute does not exist |
| ProcUses.PrologueSaves | BaseTools/Scripts/ConvertMasmToNasm.py:487-488 | the pushes put the register values on the stack |
| ProcUses.EpilogueRestores | BaseTools/Scripts/ConvertMasmToNasm.py:428-430 | the pops restore them and the stack, and no other register |
| ProcUses.ProcSaves | BaseTools/Scripts/ConvertMasmToNasm.py:479-488 | what is emitted for a PROC line saves its registers on the stack |
| ProcUses.ProcedureReturns | BaseTools/Scripts/ConvertMasmToNasm.py:427-488 | running the output from PROC to the first plain "ret" returns to the caller with stack and registers as on entry |
| ProcUses.FirstRetRestores | BaseTools/Scripts/ConvertMasmToNasm.py:427-488 | from what is emitted for PROC to what is emitted for the first plain "ret": it returns to the caller, with the registers of USES and the stack as on entry, whatever the body did to registers |
| ProcUses.ReturnIsBalancedIff | BaseTools/Scripts/ConvertMasmToNasm.py:427-488 | any line that returns, with or without an operand, returns to the caller with its stack iff nothing is saved or it is the first plain "ret" |
| ProcUses.UnbalancedReturns | BaseTools/Scripts/ConvertMasmToNasm.py:427-433 | a second "ret" and a "ret 16" leave a saved register on the stack |
| DetectNotUsedItem.RemoveFirstKeepsContent | BaseTools/Scripts/DetectNotUsedItem.py:93-93 | deleting the first equal line drops the same content as deleting the current one |
| DetectNotUsedItem.ParseDscFdfInfContent | BaseTools/Scripts/DetectNotUsedItem.py:88-98 | the reverse scan computes filter-then-strip |
| DetectNotUsedItem.TrimsLine | BaseTools/Scripts/DetectNotUsedItem.py:94-97 | a kept line yields its text without white space around it and without its comment |
| DetectNotUsedItem.DropsLine | BaseTools/Scripts/DetectNotUsedItem.py:91-93 | comments and empty lines are dropped |
| DetectNotUsedItem.ParseDecContent | BaseTools/Scripts/DetectNotUsedItem.py:60-79 | the items, their names, and for each exactly the lines it owns, in order |
| DetectNotUsedItem.ItemNameOf | BaseTools/Scripts/DetectNotUsedItem.py:76-76 | an item's name is what stands before a value, a PCD field or a comment |
| DetectNotUsedItem.NeededSections | BaseTools/Scripts/DetectNotUsedItem.py:81-85 | the sections that are looked at |
| DetectNotUsedItem.OwnerIsUnique | BaseTools/Scripts/DetectNotUsedItem.py:72-78 | the lists of different items are disjoint |
| DetectNotUsedItem.Clean | BaseTools/Scripts/DetectNotUsedItem.py:126-139 | the lines named by the unused items' lists are left out, the others kept in order |
| DetectNotUsedItem.RemovedIffGoes | BaseTools/Scripts/DetectNotUsedItem.py:127-137 | a line is named iff the item that owns it is unused |
| DetectNotUsedItem.FindUnused | BaseTools/Scripts/DetectNotUsedItem.py:104-113 | exactly the items that nothing references |
| DetectNotUsedItem.DetectAndClean | BaseTools/Scripts/DetectNotUsedItem.py:100-139 | exactly the lines owned by unused items go |
| DetectNotUsedItem.BlockGoesTogether | BaseTools/Scripts/DetectNotUsedItem.py:72-137 | an item goes with the comments and empty lines above it, exactly when its name is not used |
| DetectNotUsedItem.OthersStay | BaseTools/Scripts/DetectNotUsedItem.py:68-137 | lines of other sections and comments behind the last item stay |
| DetectNotUsedItem.StaysInOrder | BaseTools/Scripts/DetectNotUsedItem.py:126-139 | the lines that stay, in order and nothing else |
| DetectNotUsedItem.HeaderGoesIff | BaseTools/Scripts/DetectNotUsedItem.py:68-78 | the header of a section goes iff the section is looked at and the header's own text is not matched |
| DetectNotUsedItem.KeepsSectionIff | BaseTools/Scripts/DetectNotUsedItem.py:60-139 | a line that stays keeps its section iff it had none, the section is not looked at, or the header's text is matched |
| DetectNotUsedItem.HeaderOfUsedItemGoes | BaseTools/Scripts/DetectNotUsedItem.py:60-139 | a used GUID stays without the header above it |
| GdbSerial.GdbStub.GdbParseFReplyPacket | EmbeddedPkg/GdbStub/SerialIo.c:62-100 | the fields of the reply, -1 for another packet; the Ctrl-C flag is set iff the third field begins with C |
| GdbSerial.GdbStub.Serve | EmbeddedPkg/GdbStub/SerialIo.c:143-169 | packets up to the F packet are served or refused in order |
| GdbSerial.ServedInOrder | EmbeddedPkg/GdbStub/SerialIo.c:143-169 | the M packets of a read, or the m packets of a write, are served in order, and every other packet is refused once |
| GdbSerial.GdbStub.GdbRead | EmbeddedPkg/GdbStub/SerialIo.c:115-182 | M packets applied in order, one refusal for each other packet, flag held throughout and cleared, the reply's fields returned |
| GdbSerial.GdbStub.GdbWrite | EmbeddedPkg/GdbStub/SerialIo.c:197-261 | likewise for m packets, but the flag stays as it was found |
| GdbSerial.HexRoundTrip | EmbeddedPkg/GdbStub/SerialIo.c:74-85 | the C library reads back a printed hexadecimal number |
| GdbSerial.TailIsRead | EmbeddedPkg/GdbStub/SerialIo.c:76-97 | error number and Ctrl-C mark are read back |
| GdbSerial.CodeIsRead | EmbeddedPkg/GdbStub/SerialIo.c:74-74 | a negative return code reads as 0 |
| GdbSerial.ParserInvertsPrinterIff | EmbeddedPkg/GdbStub/SerialIo.c:62-100 | the parser inverts the printer exactly for non-negative return codes |
| GdbSerial.FailureReadsAsZeroBytes | EmbeddedPkg/GdbStub/SerialIo.c:62-100 | "F-1,5" reads as return code 0 with error 5 |
| BinToPcd.XdrPackBuffer | BaseTools/Scripts/BinToPcd.py:51-60 | the packed bytes, or an error iff some length needs more than 32 bits |
| BinToPcd.UnpackInvertsPack | BaseTools/Scripts/BinToPcd.py:51-60 | a decoder of section 4.10 of RFC 4506 recovers the list of buffers |
| BinToPcd.PackInvertsUnpack | BaseTools/Scripts/BinToPcd.py:51-60 | every accepted byte string is the packing of its decoding |
| BinToPcd.PackIsInjective | BaseTools/Scripts/BinToPcd.py:51-60 | different lists pack differently |
| BinToPcd.PackedLength | BaseTools/Scripts/BinToPcd.py:57-58 | the length is a multiple of four |
| BinToPcd.ByteArray | BaseTools/Scripts/BinToPcd.py:62-77 | the value, read back, is as many bytes as reported: the files one behind the other, or an XDR stream that unpacks to them; it fails only on a file too long for XDR |
| BinToPcd.FlattenConcat | BaseTools/Scripts/BinToPcd.py:72-72 | files are joined in order |
| BinToPcd.SmallExamples | BaseTools/Scripts/BinToPcd.py:51-77 | the encoding of three bytes and the notation of a value |
| BinToPcd.PrintedBytesRoundTrip | BaseTools/Scripts/BinToPcd.py:77-77 | a byte list parser inverts the printer |
| BinToPcd.PcdRoundTrip | BaseTools/Scripts/BinToPcd.py:62-77 | the files are recovered from the printed PCD value |

## Assumptions about the surroundings

- Memory is a total function from addresses to bytes, because the event log walkers do not
  bound their reads. Event log addresses are unbounded integers; `WalkDoesNotWrap` shows that
  64-bit arithmetic does not wrap for a log that ends at least `MAX_RECORD_SIZE` bytes below the
  top of the address space, whether the walk succeeds or fails.
- BuildGuidDataHob may refuse any HOB: the allocator is an arbitrary function of the HOB list
  and the data. CopyMem, the HOB builders and ReceivePacket have the short contracts shown.
- The memory theorems are for platforms where memory, FD and descriptors end below 2^64
  (`NoWrap`); the methods themselves use wrapping arithmetic. MAX_ALLOC_ADDRESS,
  CPU_STACK_ALIGNMENT and structure sizes are those of AArch64.
- White space, the \w of identifiers, the old_debug_re search, the comparison of real paths, the files a user keeps
  and the search for references to an item are function parameters. Diffs and files arrive as
  lists of lines.
- A CopyMem whose range is not all memory is taken to fail before it writes.
- NASM binds a label that starts with a dot to the last label before it that does not.

## Left out

- Printing and dumping: DumpTcgEfiSpecIdEvent, DumpEvent, PrintFirmwareVersion, the reports of the scripts.
- EventLog.DumpTpmEventLog: not stated for a log at address 0 that begins with a valid record, on which the loop does not end; records which records are visited, not what is printed about them.
- EventLog.BuildPeiEventLogHobs: not stated for that log either, since it dumps it first.
- MMU, cache, stack-switch assembly and FV services around the modelled functions.
- SecMain of PeilessSec.c apart from IS_XIP and its opening ASSERT.
- MemoryPeim: does not model ArmPlatformGetVirtualMemoryMap, InitMmu and the memory type information HOB.
- CommitMessageCheck and EmailAddressCheck: independent checks that would only add easy members.
- The git, mail, argument parsing and file handling parts of all scripts, FormatFilesInDir included.
- AnonLabels.Convert: lines arrive classified as anonymous label, other label or code; the other regular-expression conversions of TranslateAsm are not modelled.
- ProcUses.ReturnIsBalancedIff: the arguments that the operand of a return releases are not modelled, since they lie below the return address.
- GitDiff.PrintedDiffIff: does not model combined diffs of merges, nor the quotes around unusual names.
- ProcUses.Translate: PROC lines arrive with their registers, other lines as stripped text; empty-line and comment handling is not modelled.
- InfFile: does not model GetInfAsmFileMapping, so the sources of a destination are a parameter.
- PatchCheckNames.FileNameOfHeaderIff: does not model the quotes git puts around names with unusual characters.
- DetectNotUsedItem.FindUnused: the search itself is the parameter `isUsed`, as in DetectAndClean.
- DetectNotUsedItem.DetectAndClean: the regular expression built from an item name is the parameter `isUsed`.
- GdbSerial.GdbStub.GdbRead: assumes that an F packet arrives, since the code waits for one for ever; what WriteToMemory of GdbStub.c does with a packet is not part of this model.
- GdbSerial.GdbStub.GdbWrite: likewise; what ReadFromMemory of GdbStub.c answers to a packet is not part of this model.
- The serial protocol wrappers GdbSerialRead and GdbSerialWrite, which only pass on results.
- The DSC statement formatting of BinToPcd.py behind ByteArray.
- Policy service, OneCrypto, PRM and DynamicTables headers: documentation and declarations.
