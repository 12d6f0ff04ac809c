# The agent's reliable telemetry pipeline

The agent collects events about its host, writes them to a segmented write-ahead log, sends
them to any number of endpoints until each has acknowledged them, and reclaims the log behind
the slowest one. When the log is under pressure it refuses records by priority, and the
collect loop replaces what was refused by one-minute rollups, data-loss events and explicit
sequence gaps. This project models that pipeline and proves what it promises: what survives a
crash, what may be reclaimed, what must still be sent, and that every sequence number is
accounted for.

The log, the cursor store, the rollup and the collect loop are objects that their methods
update in place. Every such method is tied to a function on values, and the theorems about
whole runs are about those functions.

| file | contents |
|---|---|
| `Proto.dfy` | records (event, gap, or neither), priorities, samples |
| `Scanning.dfy` | scanning a segment file, for any framing that is bounded, local and detects cuts |
| `Frames.dfy` | the agent's framing: 16-byte big-endian header, marshalled record, checksum |
| `WalLog.dfy` | the log as a value and its operations: admission, append, sync, rotate, reclaim |
| `LogInvariants.dfy` | what every operation keeps |
| `Reclaiming.dfy` | what a reclaim removes |
| `Recovery.dfy` | opening a directory; crashes; crashes in the middle of a sync |
| `Interruptions.dfy` | crashes in the middle of a reclaim and of a recovery |
| `PowerLoss.dfy` | which bytes are forced to disk, and what a power loss can take |
| `PowerRuns.dfy` | runs with kills and power losses: what they keep |
| `Stranded.dfy` | a run that ends with a synced record in a segment that a power loss takes as a whole |
| `Quarantine.dfy` | rotten files and what is reported about them; frames the scanner rejects |
| `LogRuns.dfy` | runs of appends, syncs, reclaims and crashes: invariants, capacity, durability |
| `Manifests.dfy` | manifests are exact; what is reported about a segment that is set aside, and about a rotten record |
| `SegmentNames.dfy` | segment file names and the order in which they are listed |
| `Wal.dfy` | the log as an object |
| `Cursors.dfy` | endpoints, cursors, visibility and acknowledgement |
| `StateStore.dfy` | the cursor store as an object; copies handed out |
| `Pending.dfy` | the index of durable heads against the log |
| `Retention.dfy` | log and cursors together: reclaiming with a stale snapshot |
| `Drain.dfy` | the send loop of one endpoint |
| `Rollups.dfy` | the one-minute rollup: extremes, truncating average, wrapping counters |
| `Manager.dfy` | the collect loop as a value, over any journal that accepts or refuses |
| `Accounting.dfy` | every sequence number is accounted for |
| `Conservation.dfy` | every compacted sample is in one rollup of its own minute |
| `Chronicle.dfy` | what the collect loop tries: each tick, well-formed records, the latest number |
| `Ledger.dfy` | the journal is the write-ahead log: the log against what was tried |
| `Outcomes.dfy` | what becomes of each tick, by the answer of the log and by its size |
| `Startup.dfy` | what is appended about a recovery before the loop starts |
| `StartupLog.dfy` | startup on the write-ahead log: which reports fit, and the way of a lost record to the gap that stands for it |
| `Identity.dfy` | the session: sequence numbers and event ids |
| `TelemetryManager.dfy` | the collect loop as an object |

Assumptions that the theorems name: marshalling and unmarshalling are inverse; where a theorem
speaks of reading files back, payload lengths are between 1 and 16 MiB (`Frames.Legal`); a
crash leaves every file as it was, with some prefix of the bytes written since the last sync.
The death of the process is such a crash. A power loss is one when every byte that readers had
been shown is forced to disk; `PowerLoss.dfy` drops that assumption and says what happens
without it. Nothing is asked of the checksum; a theorem about rotten bytes says that the checksum
tells them from what was written.

No lemma relies on an induction hypothesis that Dafny adds by itself: where it would,
`{:induction false}` switches it off, and the proof calls the lemma again where it needs to.

## Where the code does not keep the property as one would first state it

Each of these has a lemma with an input that shows it, and a lemma that says exactly when the
property holds.

* An append checks no payload length, the scanner does. A record whose payload is empty or
  longer than 16 MiB is written (`Quarantine.IllegalFrameStopsScan`) and then costs its whole
  segment (`Quarantine.RejectedFrameLosesSegment`). The log stays readable if and only if the
  frame reads back (`Quarantine.AppendStaysReadableIff`), which is for legal lengths
  (`Quarantine.FrameHoldsIff`, `Frames.EncodeScanRoundTrip`). Structure, capacity, manifests and
  heads do not depend on it: `LogRuns.RunKeepsSound`, `LogRuns.RunKeepsCapacity`.
* The index of heads is never lowered by a reclaim, so an endpoint can find it set and nothing
  to send: `Pending.ReclaimedHeadStays`; it is exact if and only if every head is still the end
  of a durable record: `Pending.IndexIsExactIff`.
* A reclaim with a stale snapshot can remove a record that an endpoint has come to see since:
  after an acknowledgement for a session that the endpoint did not know
  (`Retention.UnknownSessionAckBreaksRetention`) or an assignment
  (`Retention.UpsertBreaksRetention`). `Retention.QuietChangeIff` says exactly which changes show
  nothing new, and `Retention.StaleReclaimSafeIff` and `Retention.SafeSnapshotIff` exactly which
  snapshots are safe.
* Not every durable record that a damaged file loses is named by a recovery issue. A file cut
  at a frame boundary is read back without one (`Quarantine.BoundaryCutReportsNothing`), the
  last file cut anywhere is truncated without a range (`Quarantine.TruncationReportsNoRange`).
  The losses of a segment are reported if and only if its file is set aside or no well-formed
  record is missing from it: `Quarantine.LossesReportedIff`.
* Recovery forces nothing to disk, and a sync with nothing to write returns at once. After a
  kill, readers can be shown records that a power loss takes away again: some record exactly
  when recovery had found an unsynced one (`PowerRuns.KilledReadersSafeIff`). What readers saw is
  safe if and only if every byte is forced: `PowerLoss.PowerLossSafeIff`; the next sync sees to
  that if and only if it has something to write: `PowerRuns.SyncTightensIff`.
* Even what had been synced before the kill can go. When an append rotates before anything new
  is synced, the recovered tail stays unforced in an old segment; a power loss that cuts that
  file inside a frame makes the next recovery set the whole segment aside:
  `Stranded.SyncedRecordIsLost`. All forced records are safe if and only if no old segment with
  one can be cut inside a frame (`PowerLoss.ForcedSafeIff`), that is, for the agent's frames, if
  and only if each such segment is forced as a whole (`PowerLoss.NoneStrandedIff`). An append
  puts them at risk if and only if it rotates like that (`PowerRuns.StrandingAppendIff`); on runs
  without such an append they survive any number of kills and power losses
  (`PowerRuns.RunKeepsFirm`).
* Recovery issues are kept in memory only. A recovery that is cut off forgets those it had
  found (`Interruptions.RecoveryCrash`), and so does every later start when nothing was appended
  about them (`Interruptions.IssuesAreForgotten`). Records and heads are the same either way.
* A data-loss event that is refused while the agent starts leaves sequence numbers that nothing
  ever accounts for: `StartupLog.HolesHappen`; `Startup.StartAccounts` names them. There are none
  if and only if the reports fit below the capacity: `StartupLog.HolesIff`.
* The running average overflows 64 bits for large values: `Rollups.OverflowBreaksAverage`; its
  distance from the true mean is bounded if and only if no step overflowed:
  `Rollups.LagBoundIff`.
* File names of segments sort in the order of their numbers below 10^12: `SegmentNames.SmallNamesSort`,
  and no longer at it: `SegmentNames.WiderNameSortsEarly`; `SegmentNames.NamesSortIff` says how
  any two sort.

## Model

| member | source | states |
|---|---|---|
| `Scanning.ScanFile` | pkg/wal/wal.go:613-653 | the loop over a file and a byte limit reads the maximal sequence of whole frames, their length, and why it stopped |
| `Scanning.ScanConcat` | pkg/wal/wal.go:613-653 | behind bytes that scan cleanly, scanning goes on as from the start |
| `Scanning.ScanValidPrefix` | pkg/wal/wal.go:613-653 | the valid length reported with any error is a clean file of exactly the records reported |
| `Scanning.ScanCut` | pkg/wal/wal.go:613-653 | a cut of a clean file gives a prefix of its records, and is torn exactly when bytes are left over |
| `Scanning.TornTail` | pkg/wal/wal.go:613-653 | for every list of legal records and every cut, the scan is exactly the whole records before the cut, with their length |
| `Scanning.TornIffInsideFrame` | pkg/wal/wal.go:621-640 | the scan reports a torn tail if and only if the cut is not at a frame boundary, and no other error |
| `Frames.WrittenFrameReadsBack` | pkg/wal/wal.go:207-218 | a written frame reads back whatever follows it when its payload length is legal, and is rejected for its length when it is not |
| `Frames.FormatIsValid` | pkg/wal/wal.go:617-650 | the agent's framing is bounded, local, detects every cut, and reads back legal records |
| `Frames.EncodeScanRoundTrip` | pkg/wal/wal.go:207-218 | writing a list of records and scanning the file gives back the list if and only if all payload lengths are legal |
| `Frames.HeaderLayout` | pkg/wal/wal.go:207-212 | a header begins with the letters STZ2 and version one; priority, length and checksum follow, each most significant byte first |
| `Frames.ParsedIff` | pkg/wal/wal.go:621-650 | a record is read from some bytes if and only if they begin with an intact frame of it: marks, a legal length, that many bytes whose checksum is the one announced, and which decode to it |
| `Frames.RejectedIff` | pkg/wal/wal.go:631-648 | exactly which bytes are rejected for their header, their length, their checksum, and their payload |
| `Frames.RottenPayloadRejected` | pkg/wal/wal.go:642-644 | other bytes in the place of a payload are rejected, whatever follows, when their checksum differs |
| `WalLog.Normalize` | pkg/wal/wal.go:61-80 | positive settings are kept and others take their defaults; a reserve, given or by default, that is not below the capacity becomes a hundredth of it |
| `WalLog.NormalizeSettles` | pkg/wal/wal.go:61-80 | normalising twice changes nothing more, and leaves a wholly positive configuration alone if and only if its reserve is below its capacity |
| `LogInvariants.AddRangesCovers` | pkg/wal/wal.go:511-546 | the ranges of a manifest contain the interval of every well-formed record that was added |
| `Manifests.RangesAreExact` | pkg/wal/wal.go:511-546 | the ranges of a list of records contain them all, and each begins and ends with one of them |
| `Manifests.RunKeepsManifested` | pkg/wal/wal.go:179-463 | over every run of appends of any records, syncs, reclaims and crashes a segment has the ranges of its records, and its manifest those of the records that readers see |
| `LogInvariants.NoteAllCovers` | pkg/wal/wal.go:317-325 | after noting records durable, the head of each session is at least the end of each of them, and no head falls |
| `LogInvariants.SyncMovesPending` | pkg/wal/wal.go:237-259 | a sync makes exactly the pending records durable, in order, behind those that were |
| `LogInvariants.SyncKeepsInv` | pkg/wal/wal.go:237-259 | a sync keeps structure, readability of every file, manifests that cover and heads that cover |
| `LogInvariants.AppendKeepsShape` | pkg/wal/wal.go:179-229 | every append, whatever the record, keeps ids ascending, inactive segments durable, pending frames and total accounted for; the total grows by the frame exactly when the record is accepted |
| `LogInvariants.AppendKeepsSound` | pkg/wal/wal.go:179-229 | every append, whatever the record, keeps structure, manifests that cover and heads that cover |
| `LogInvariants.AppendKeepsInv` | pkg/wal/wal.go:179-229 | an append of a legal record also keeps every file readable |
| `LogInvariants.AppendKeepsSized` | pkg/wal/wal.go:201-220 | no append makes a segment exceed the configured size unless it holds a single record |
| `LogInvariants.AppendExtendsLog` | pkg/wal/wal.go:179-229 | an accepted record joins the end of the log, a refused one changes no record, and what was durable stays a prefix |
| `Reclaiming.ReclaimKeepsInv` | pkg/wal/wal.go:329-372 | a reclaim keeps every invariant of the log |
| `Reclaiming.ReclaimKeepsSound` | pkg/wal/wal.go:329-372 | a reclaim keeps structure, manifests and heads of any log, readable or not |
| `Reclaiming.ReclaimIsExact` | pkg/wal/wal.go:329-372 | a segment survives if and only if it is active, empty, or holds an unacknowledged record |
| `Reclaiming.ReclaimAccounts` | pkg/wal/wal.go:329-372 | survivors keep their order, and the total drops by the bytes given back |
| `Reclaiming.ReclaimKeepsUnacknowledged` | pkg/wal/wal.go:329-372 | no unacknowledged record is removed, durable or pending |
| `Reclaiming.ReclaimAddsNothing` | pkg/wal/wal.go:329-372 | nothing is in the log after a reclaim that was not there before |
| `Reclaiming.ReclaimIsIdempotent` | pkg/wal/wal.go:329-372 | repeating a reclaim with the same predicate changes nothing |
| `Recovery.OpenLogInv` | pkg/wal/wal.go:406-480 | whatever bytes the files hold, the opened log keeps every invariant and its heads are exactly those of its records |
| `Recovery.RecoveryIsIdempotent` | pkg/wal/wal.go:406-463 | recovering what a recovery left reports no issue and gives the same segments, records, sizes, total and heads |
| `Recovery.EmptyRecoveryIsIdempotent` | pkg/wal/wal.go:406-480 | the same when no file survived and the first segment was created |
| `Recovery.CrashDurability` | pkg/wal/wal.go:406-463 | after any crash that keeps the synced bytes and any prefix of the later ones, recovery gives the durable records in order, then a prefix of the pending ones, and nothing else; a truncated tail is reported exactly when the cut fell inside a frame |
| `Recovery.CrashBounds` | pkg/wal/wal.go:201-273 | nothing that readers had been shown is lost in a crash, and nothing appears that was not appended |
| `Recovery.CompleteCrashLosesNothing` | pkg/wal/wal.go:406-463 | when all written bytes were kept, all accepted records are recovered and no issue is reported |
| `Recovery.CrashShrinks` | pkg/wal/wal.go:406-463 | a crash and recovery never make the log larger, whatever has been appended |
| `Recovery.CrashKeepsSized` | pkg/wal/wal.go:406-463 | a crash and recovery keep every segment within the configured size |
| `Recovery.SyncCrash` | pkg/wal/wal.go:237-259 | wherever flush, fsync and manifest are cut off, recovery gives all that readers had seen and nothing new; from the fsync on it gives everything |
| `Interruptions.ReclaimCrash` | pkg/wal/wal.go:329-372 | wherever a reclaim is cut off, the log reopens without an issue, has every unacknowledged record, and nothing new |
| `Interruptions.ReclaimResumes` | pkg/wal/wal.go:329-372 | reclaiming again after that leaves the records of a reclaim that was never cut off |
| `Interruptions.RecoveryCrash` | pkg/wal/wal.go:406-463 | recovering after a recovery was cut off gives the same segments, total and heads, without the issues found before |
| `Interruptions.IssuesAreForgotten` | pkg/wal/wal.go:429-445 | however the log is used after a recovery, closing and reopening it reports no issue |
| `PowerLoss.TightPowerLoss` | pkg/wal/wal.go:237-259 | when every byte is forced, a power loss keeps all that readers saw and adds nothing |
| `PowerLoss.PowerLossSafeIff` | pkg/wal/wal.go:237-259 | no power loss takes a durable record if and only if every byte of every file is forced |
| `PowerLoss.AnchoredPowerLoss` | pkg/wal/wal.go:406-463 | when at most the active file has unforced bytes, a power loss keeps every forced record and adds nothing, and what is read back is forced |
| `PowerLoss.ForcedSafeIff` | pkg/wal/wal.go:424-460 | every forced record survives every power loss if and only if no old segment with a forced record can be cut inside a frame |
| `PowerLoss.NoneStrandedIff` | pkg/wal/wal.go:424-460 | for frames longer than a byte that is so if and only if every old segment with a forced record is forced as a whole |
| `PowerRuns.StrandingAppendIff` | pkg/wal/wal.go:201-205 | an append keeps the forced records safe if and only if it does not rotate away from unforced bytes with nothing to sync |
| `PowerRuns.SyncTightensIff` | pkg/wal/wal.go:237-246 | unforced bytes of the active file are forced by the next sync if and only if it has something to write; a rotation without that leaves them |
| `PowerRuns.KilledTightIff` | pkg/wal/wal.go:406-463 | after a kill every byte is forced if and only if recovery found no unsynced record |
| `PowerRuns.KillThenPowerLoss` | pkg/wal/wal.go:406-463 | what readers saw with every byte forced is still there after a kill, any events after it that strand nothing, and a power loss |
| `PowerRuns.KilledReadersSafeIff` | pkg/wal/wal.go:424-460 | what readers are shown after a kill is safe from a power loss if and only if no unsynced record was found |
| `PowerRuns.RunStaysTight` | pkg/wal/wal.go:179-372 | over runs of appends of any records, syncs, reclaims and power losses every byte readers see stays forced |
| `PowerRuns.RunKeepsDurable` | pkg/wal/wal.go:179-463 | what readers see only grows, through any number of kills, and of power losses that find every byte forced |
| `PowerRuns.RunKeepsFirm` | pkg/wal/wal.go:179-463 | over runs whose appends strand nothing, what is forced survives any number of kills and power losses at any time |
| `Stranded.SyncedRecordIsLost` | pkg/wal/wal.go:482-499 | a run from an empty directory after which a power loss takes a record that was synced, shown and forced |
| `LogRuns.RunKeepsSound` | pkg/wal/wal.go:179-463 | every run of appends of any records, syncs, reclaims and crashes keeps structure, manifests and heads |
| `LogRuns.RunKeepsInv` | pkg/wal/wal.go:179-463 | over runs of appends of legal records, syncs, reclaims and crashes every file also stays readable and every segment within its size |
| `LogRuns.FreshLog` | pkg/wal/wal.go:125-142 | an empty directory opens as a log on which all of this holds |
| `LogRuns.RunKeepsCapacity` | pkg/wal/wal.go:179-229 | over every run, whatever is appended, the total never exceeds the capacity less one, or what it was when the log was opened |
| `LogRuns.AdmissionIff` | pkg/wal/wal.go:162-200 | acceptance as one condition per priority |
| `LogRuns.AppendBounds` | pkg/wal/wal.go:179-229 | no accepted record above P0 eats into the reserve, none fills the log, and a refusal changes nothing at all |
| `LogRuns.AdmissionMonotone` | pkg/wal/wal.go:162-200 | acceptance is preserved by a smaller log and by a more critical priority |
| `LogRuns.CriticalRefusedOnlyWhenFull` | pkg/wal/wal.go:162-200 | a critical record is refused if and only if it would reach the capacity itself |
| `LogRuns.PressureBands` | pkg/wal/wal.go:162-177 | the bands of pressure as ranges of the size |
| `LogRuns.HardLimitIff` | pkg/wal/wal.go:186-194 | a record meets the hard limit if and only if the log would be full with it, or, unless it is critical, in its reserve |
| `LogRuns.NeedsRollupIff` | pkg/wal/wal.go:195-197 | a record is to be rolled up if and only if there is room, it is a sample or optional, and the log would be at 85 hundredths |
| `LogRuns.DownsampledIff` | pkg/wal/wal.go:198-200 | a record is dropped for downsampling if and only if there is room, it is optional, and the log would be between 70 and 85 hundredths |
| `LogRuns.AppendRotatesIff` | pkg/wal/wal.go:201-205 | an accepted frame starts a segment, with the next number, if and only if the active one is not empty and would outgrow its size |
| `LogRuns.AppendSyncsIff` | pkg/wal/wal.go:225-229 | what waits for a sync after an append: nothing exactly when there are as many records as configured |
| `LogRuns.RunBoundsUnsynced` | pkg/wal/wal.go:179-259 | in every reachable state fewer records than that are waiting |
| `LogRuns.CrashLosesFew` | pkg/wal/wal.go:179-463 | so a crash after any run of legal records costs fewer than that |
| `LogRuns.RunExtendsDurable` | pkg/wal/wal.go:179-273 | without reclaims what readers see only grows at its end, through any number of crashes that leave the files as they were |
| `Quarantine.NoSilentQuarantine` | pkg/wal/wal.go:424-460 | whatever the files turn into, a segment is read back exactly as far as it scans, or set aside with ranges around every well-formed record that was durable in it |
| `Quarantine.LossesReportedIff` | pkg/wal/wal.go:424-460 | the losses of a segment are named by issues if and only if it is set aside or scanning misses no well-formed record |
| `Quarantine.BoundaryCutReportsNothing` | pkg/wal/wal.go:424-460 | a file of any segment cut at a frame boundary, or to nothing, loses durable records without an issue |
| `Quarantine.TruncationReportsNoRange` | pkg/wal/wal.go:426-431 | a cut inside a frame of the synced bytes of the last file loses durable records without a range that names them |
| `Quarantine.AppendStaysReadableIff` | pkg/wal/wal.go:179-229 | through the rotation before it and the sync after it, an accepted append leaves the log readable if and only if its frame scans as the record |
| `Quarantine.FrameHoldsIff` | pkg/wal/wal.go:634-637 | a written frame scans as its record if and only if its payload length is legal |
| `Quarantine.IllegalFrameStopsScan` | pkg/wal/wal.go:634-637 | the scanner rejects the length of what the writer wrote for an illegal record |
| `Quarantine.RejectedFrameLosesSegment` | pkg/wal/wal.go:425-446 | once a rejected frame is accepted, its segment is set aside as a whole, even when every byte of it is kept |
| `Manifests.ReportedRanges` | pkg/wal/wal.go:424-446 | the issue of a segment that is set aside has the ranges of its manifest, or, without one, exactly those of the records in front of the damage |
| `Manifests.ReportsAreExact` | pkg/wal/wal.go:433-446 | nothing is reported lost beyond the durable records of the segment: each range begins and ends with one of them |
| `Manifests.RottenRecordSetsAside` | pkg/wal/wal.go:424-446 | a segment in which one payload rotted is set aside for its checksum, the last one too, and never read back as something else |
| `SegmentNames.FirstName` | pkg/wal/wal.go:605-607 | the name of the first segment: twelve decimal digits and the suffix |
| `SegmentNames.ParsesIff` | pkg/wal/wal.go:609-611 | a name gives a number if and only if nothing but digits stands before its suffix and the number fits 64 bits |
| `SegmentNames.NameReadsBack` | pkg/wal/wal.go:605-611 | every 64-bit segment number is parsed back from its file name |
| `SegmentNames.NamesSortIff` | pkg/wal/wal.go:605-607 | how the names of any two segments sort |
| `SegmentNames.SmallNamesSort` | pkg/wal/wal.go:605-607 | below 10^12 names sort as their numbers |
| `SegmentNames.SortedListingAscends` | pkg/wal/wal.go:411-419 | so a sorted listing gives the segments in ascending order |
| `SegmentNames.WiderNameSortsEarly` | pkg/wal/wal.go:605-607 | at 10^12 they do not |
| `Wal.AddRecordRangeTo` | pkg/wal/wal.go:511-538 | the step of the loop over ranges, with its skipped records |
| `Wal.RangesFromRecords` | pkg/wal/wal.go:540-546 | the loop gives the ranges of all the records |
| `Wal.WAL.constructor` | pkg/wal/wal.go:125-142 | opening normalises the configuration and recovers the directory |
| `Wal.WAL.Recover` | pkg/wal/wal.go:406-463 | the loop over the files of a directory |
| `Wal.WAL.RecoverOne` | pkg/wal/wal.go:420-461 | one file is kept, truncated when it is the last and torn, or set aside with the ranges of its manifest |
| `Wal.WAL.OpenActive` | pkg/wal/wal.go:465-480 | a first segment is created when none survived |
| `Wal.WAL.NoteAllDurable` | pkg/wal/wal.go:317-325 | the heads after noting a list of records |
| `Wal.WAL.Append` | pkg/wal/wal.go:179-229 | admission, rotation, write and sync: the whole new state, and the refusal |
| `Wal.WAL.Sync` | pkg/wal/wal.go:231-235 | the whole state after a sync |
| `Wal.WAL.SyncLocked` | pkg/wal/wal.go:237-259 | flush, manifest, durable size, records, heads: the whole state after them |
| `Wal.WAL.RotateLocked` | pkg/wal/wal.go:482-499 | a sync, and a new empty segment with the next number |
| `Wal.WAL.ReadDurable` | pkg/wal/wal.go:261-273 | all durable records, in order |
| `Wal.WAL.HasPending` | pkg/wal/wal.go:285-294 | true if and only if some head is visible, in whatever order the map gives them |
| `Wal.WAL.CollectPending` | pkg/wal/wal.go:296-315 | the first matching durable records up to the limit, in order |
| `Wal.WAL.Reclaim` | pkg/wal/wal.go:329-372 | the whole state after a reclaim, and the bytes it gave back |
| `Wal.SelectKept` | pkg/wal/wal.go:335-370 | the pass over the segments keeps the right ones and adds up the bytes of the others |
| `Cursors.AckedByIffUnseen` | cmd/agent/telemetry_v2.go:947-986 | a record counts as acknowledged if and only if some reliable endpoint was obligated to it and no endpoint still sees it |
| `Cursors.AckedByEndIff` | cmd/agent/telemetry_v2.go:961-986 | the same for every record, whatever its start: only its session and its end count |
| `Cursors.RecordAckedBy` | cmd/agent/telemetry_v2.go:961-986 | the loop over the endpoints decides that, in whatever order the map gives them |
| `Cursors.CursorsNeverFall` | pkg/wal/state.go:56-114 | within one generation no sequence of acknowledgements and refreshes lowers or drops a cursor |
| `Cursors.RunKeepsCursorInvariants` | pkg/wal/state.go:56-114 | over all changes every activation has a cursor and the config version only grows |
| `Cursors.AckMovesOneCursor` | pkg/wal/state.go:101-114 | a stale acknowledgement changes nothing; a matching one raises one cursor and touches nothing else |
| `Cursors.UpsertTakesEffect` | pkg/wal/state.go:56-82 | after any assignment the endpoint answers to the new generation and no other, is as reliable as told, is activated for the session named from the number named, with a cursor for it; nothing else in the store changes |
| `Cursors.NewGenerationIsAcknowledged` | pkg/wal/state.go:101-114 | so acknowledgements of the new generation are taken |
| `Cursors.GivenMapsAreTaken` | pkg/wal/state.go:60-79 | without a refresh, the cursors and activations are those handed in, or none, but for the session named |
| `Cursors.VersionIsLargest` | pkg/wal/state.go:84-92 | the version stored is the larger one |
| `Cursors.NewGenerationStartsFresh` | pkg/wal/state.go:56-82 | a new generation has exactly the cursor before its activation, and sees exactly what lies from there on |
| `Cursors.RefreshKeepsCursors` | pkg/wal/state.go:56-82 | a refresh may move an activation; it keeps every cursor and every other activation, whatever activations are handed in |
| `StateStores.CloneMap` | pkg/wal/state.go:156-165 | the loop copies the map |
| `StateStores.EndpointState.Clone` | pkg/wal/state.go:146-154 | a new object with equal contents |
| `StateStores.StateStore.UpsertEndpoint` | pkg/wal/state.go:56-82 | the whole state after an assignment; a new object for this endpoint and the old ones for all others |
| `StateStores.StateStore.SetConfigVersion` | pkg/wal/state.go:84-92 | the version only moves up |
| `StateStores.StateStore.RemoveEndpoint` | pkg/wal/state.go:94-99 | one endpoint is gone, all others stay |
| `StateStores.StateStore.UpdateAck` | pkg/wal/state.go:101-114 | the whole state after an acknowledgement, and whether endpoint and generation matched |
| `StateStores.StateStore.AckOf` | pkg/wal/state.go:116-124 | the cursor, zero for anything unknown |
| `StateStores.StateStore.EndpointOf` | pkg/wal/state.go:126-130 | a copy of the endpoint, or nothing |
| `StateStores.StateStore.Snapshot` | pkg/wal/state.go:132-144 | fresh copies of all endpoints, equal to what they copy |
| `StateStores.SnapshotIsIndependent` | pkg/wal/state.go:132-165 | an acknowledgement after a snapshot does not reach into the snapshot |
| `Pending.IndexNeverMisses` | cmd/agent/telemetry_v2.go:935-945 | when the heads cover the durable records, one that an endpoint sees shows in the index |
| `Pending.IndexNeverMissesOnRuns` | cmd/agent/telemetry_v2.go:935-945 | that is so after every run of appends of any records, syncs, reclaims and crashes |
| `Pending.ShortcutChangesNothing` | cmd/agent/telemetry_v2.go:909-923 | asking the index first changes no batch |
| `Pending.CollectedPlaces` | pkg/wal/wal.go:296-315 | a batch has at most as many records as it may, in log order, and a match that is left out comes after a full batch |
| `Pending.IndexIsExactIff` | pkg/wal/wal.go:285-325 | the index tells every endpoint the truth if and only if every head is the end of a durable record with start <= end |
| `Pending.IndexIsExactOnRuns` | pkg/wal/wal.go:285-325 | so it does after any run without reclaims whose records have start <= end |
| `Pending.RunKeepsHeadsExact` | pkg/wal/wal.go:317-325 | without reclaims the heads are exactly those of the durable records, crashes included |
| `Pending.ReclaimedHeadStays` | pkg/wal/wal.go:329-372 | after a reclaim the index can be set with nothing to send |
| `Retention.SeesIffQuiet` | cmd/agent/telemetry_v2.go:947-959 | one version of an endpoint sees all that another sees if and only if it starts no later in each session the other knows |
| `Retention.AckShrinksViewIff` | pkg/wal/state.go:108-113 | which acknowledgements make nothing visible, exactly |
| `Retention.RefreshIsQuiet` | pkg/wal/state.go:56-82 | a refresh within a generation that does not move its activation back shows nothing new |
| `Retention.QuietChangeIff` | pkg/wal/state.go:56-114 | which acknowledgements, assignments and removals make nothing visible to anyone, exactly |
| `Retention.StaleReclaimSafeIff` | cmd/agent/telemetry_v2.go:227-233 | no log loses a wanted legal record to a reclaim with a snapshot if and only if no legal record is wanted now and acknowledged in it |
| `Retention.SafeSnapshotIff` | cmd/agent/telemetry_v2.go:947-986 | the same per session as a comparison of finitely many numbers: where the snapshot owes, where it sees, and where the store sees |
| `Retention.ReclaimKeepsWanted` | cmd/agent/telemetry_v2.go:227-233 | a record that some endpoint still sees is not removed, however stale the snapshot |
| `Retention.WantedRecordsAreRetained` | cmd/agent/telemetry_v2.go:227-233 | over any run with appends of any records, syncs, removals, stale reclaims, changes that are quiet while a snapshot is outstanding, and crashes that find readable files, a durable record stays as long as some reliable endpoint sees it |
| `Retention.WhenGuarded` | cmd/agent/telemetry_v2.go:227-233 | runs without a crash, and runs from a readable log that write legal records only, are such runs |
| `Retention.StillVisibleMeansStillThere` | cmd/agent/telemetry_v2.go:947-986 | over a run of quiet changes whose crashes find readable files, whatever is still visible at the end is still in the log |
| `Retention.UnknownSessionAckBreaksRetention` | pkg/wal/state.go:108-113 | an acknowledgement for an unknown session between snapshot and reclaim loses a visible record |
| `Retention.UpsertBreaksRetention` | pkg/wal/state.go:56-82 | so does an assignment between them |
| `Drain.RoundSettles` | cmd/agent/telemetry_v2.go:854-862 | after any response that acknowledges through the end of a record of the batch, whatever else it names, strictly fewer durable records lie beyond their cursors |
| `Drain.RoundShrinks` | cmd/agent/telemetry_v2.go:854-862 | if it names known sessions only, nothing has become visible and strictly fewer records are left to send |
| `Drain.EmptyBatchMeansDrained` | cmd/agent/telemetry_v2.go:909-923 | an empty batch means that every durable record was acknowledged |
| `Drain.UnknownSessionAckWidens` | pkg/wal/state.go:108-113 | an acknowledgement for an unknown session can show more than it settles |
| `Drain.ApplyAcks` | cmd/agent/telemetry_v2.go:854-862 | the loop over a response: other nodes skipped, stopped at the first refusal, only this endpoint touched |
| `Drain.SendLoop` | cmd/agent/telemetry_v2.go:815-864 | if every response settles some record of its batch the loop reaches an empty batch, with nothing left to send, in at most as many rounds as records lay beyond their cursors; with known sessions only, in at most as many as were visible, and shows nothing new |
| `Drain.DrainedReclaim` | cmd/agent/telemetry_v2.go:227-233 | once every endpoint has drained, a reclaim leaves exactly the active segment, empty ones, and those with a record that nobody owes |
| `Rollups.CounterDeltaLeads` | cmd/agent/telemetry_v2.go:542-561 | a delta is at most 2^50, and a non-zero one leads from one reading to the next modulo 2^64 |
| `Rollups.CounterDeltaLeadsIff` | cmd/agent/telemetry_v2.go:542-561 | which steps are counted in full, exactly |
| `Rollups.CounterDeltaExact` | cmd/agent/telemetry_v2.go:542-561 | a credible step is counted in full, and any other not at all |
| `Rollups.ExtremesAttained` | cmd/agent/telemetry_v2.go:488-526 | minimum and maximum bound every sample and are each attained by one |
| `Rollups.AverageBounds` | cmd/agent/telemetry_v2.go:528-540 | minimum <= average <= maximum when no step overflows |
| `Rollups.LagBoundIff` | cmd/agent/telemetry_v2.go:528-540 | 0 <= sum - k * average <= k(k - 1)/2 if and only if no step overflows |
| `Rollups.SmallValuesFit` | cmd/agent/telemetry_v2.go:528-540 | no step overflows when the largest value times the count fits 64 bits |
| `Rollups.OverflowBreaksAverage` | cmd/agent/telemetry_v2.go:528-540 | two readings of 2^64 - 1 average to 2^63 - 1 |
| `Rollups.MetersOfFirst` | cmd/agent/telemetry_v2.go:463-478 | the three samples of a rollup keep the meters and the uptime of its first one |
| `Rollups.TotalsAreTraffic` | cmd/agent/telemetry_v2.go:463-478 | the two totals are, modulo 2^64, the sums of the credible steps between the incoming readings and between the outgoing readings |
| `Rollups.RebootAddsNothing` | cmd/agent/telemetry_v2.go:473-474 | a sample with a smaller uptime adds nothing to either |
| `Rollups.InTotalTelescopes` | cmd/agent/telemetry_v2.go:463-478 | when each incoming reading is credible after the one before, first reading + incoming total = last reading modulo 2^64 |
| `Rollups.OutTotalTelescopes` | cmd/agent/telemetry_v2.go:463-478 | the same for outgoing traffic |
| `Rollups.PressureStateRollup.Add` | cmd/agent/telemetry_v2.go:463-478 | the whole rollup after one more sample |
| `Accounting.RunAccounts` | cmd/agent/telemetry_v2.go:190-366 | over any run, every number issued is an accepted event or inside one gap that was tried, never both, never two, and no other number is covered |
| `Accounting.RecordedOnceIff` | cmd/agent/telemetry_v2.go:368-380 | what the log accepted covers a number once if and only if no refused gap contains it |
| `Accounting.NothingElseRecorded` | cmd/agent/telemetry_v2.go:238-262 | the log covers no number that was not issued |
| `Conservation.RunConserves` | cmd/agent/telemetry_v2.go:290-362 | over any run the compacted samples, in order and with their minutes, are those of the emitted rollups followed by those of the open one, and every emitted window lies within its minute |
| `Conservation.CountsAddUp` | cmd/agent/telemetry_v2.go:290-362 | samples compacted = sample counts of the emitted rollups + count of the open one |
| `Conservation.CloseLeavesNoneOpen` | cmd/agent/telemetry_v2.go:177-188 | after closing no rollup is open and every compacted sample has been emitted |
| `Conservation.EmittedIsHonest` | cmd/agent/telemetry_v2.go:463-486 | every emitted rollup counts its samples, bounds each gauge by values that some sample has, gives an average between them when no step overflowed, and totals that are the traffic of its samples |
| `Manager.MinuteContains` | cmd/agent/telemetry_v2.go:293 | a minute begins on a minute, and the time lies in it |
| `Manager.ClampEndIsNearest` | cmd/agent/telemetry_v2.go:351-356 | the end of a window is the instant of its minute nearest to the one asked for |
| `Chronicle.RunChronicles` | cmd/agent/telemetry_v2.go:190-380 | over any run, as many heartbeats, hosts and samples are tried as the ticks ask for, every record is well formed and about issued numbers of this session, and the latest number is that of the last event accepted |
| `Chronicle.AddedRecordsAreWellFormed` | cmd/agent/telemetry_v2.go:190-380 | so every record that a run adds to the log takes part in manifests |
| `Outcomes.LossIsReported` | cmd/agent/telemetry_v2.go:303-317 | a loss is reported by a hard-limit event with the next number and a gap from the lost number to the last one not recorded; no sample is compacted |
| `Outcomes.FailedEventOutcome` | cmd/agent/telemetry_v2.go:319-336 | so is an event that failed, unless it has no number |
| `Outcomes.EventOutcome` | cmd/agent/telemetry_v2.go:217-224 | an event is tried first; its loss is reported exactly when it is refused |
| `Outcomes.FlushOutcome` | cmd/agent/telemetry_v2.go:344-362 | the open rollup is tried as an important event over its window, and its loss is reported exactly when it is refused |
| `Outcomes.CompletedOutcome` | cmd/agent/telemetry_v2.go:338-342 | a rollup stays open exactly as long as its minute lasts, and is then emitted over the whole minute |
| `Outcomes.RecordedSample` | cmd/agent/telemetry_v2.go:204-216 | a sample that the log takes is one event, and nothing else |
| `Outcomes.CompactedSample` | cmd/agent/telemetry_v2.go:290-302 | under rollup pressure exactly this sample is compacted, with its minute, its number is in a compacted gap, and no loss is reported |
| `Outcomes.LostSample` | cmd/agent/telemetry_v2.go:303-317 | at the hard limit the loss of the sample is reported, and no rollup changes |
| `Outcomes.StateTickFlushesFirst` | cmd/agent/telemetry_v2.go:204-216 | a state tick deals with a completed rollup first, and leaves none open but that of a current minute |
| `Ledger.WalJournalIsWal` | pkg/wal/wal.go:179-229 | the write-ahead log is a journal for the collect loop |
| `Ledger.WalIsSane` | pkg/wal/wal.go:186-200 | it refuses only optional records for downsampling |
| `Ledger.WalIsFaithful` | pkg/wal/wal.go:179-229 | it adds a record exactly when it accepts it |
| `Ledger.RunMatches` | cmd/agent/telemetry_v2.go:190-380 | over a run that reclaims nothing the log is what it was, followed by the accepted records in the order they were tried |
| `Ledger.LogTellsAll` | cmd/agent/telemetry_v2.go:190-380 | each number a run issued lies in the range of exactly one record it added to the log, unless a gap around it was refused; no other number lies in any |
| `Ledger.SyncedRunTellsAll` | cmd/agent/telemetry_v2.go:190-380 | that is so for runs whose log is maintained by the sync timer alone |
| `Outcomes.SampleOutcomeIff` | cmd/agent/telemetry_v2.go:204-216 | by the size of the log with it, a sample is recorded below 85 hundredths of the capacity, compacted from there on while the reserve is free, and lost after that |
| `Outcomes.HeartbeatOutcomeIff` | cmd/agent/telemetry_v2.go:217-224 | a heartbeat is recorded if and only if the log stays below its capacity with it |
| `Outcomes.HostOutcomeIff` | cmd/agent/telemetry_v2.go:404-413 | host information is recorded if and only if the reserve stays free |
| `Outcomes.RollupOutcomeIff` | cmd/agent/telemetry_v2.go:344-362 | and so is a rollup when the loop is closed |
| `Startup.StartAccounts` | cmd/agent/telemetry_v2.go:133-169 | over startup and any run after it every number is accounted for exactly once, except the holes |
| `Startup.RangesReported` | cmd/agent/telemetry_v2.go:166-168 | unless the data-loss event of the issue was refused, each of its ranges is tried as a gap of its own, in order |
| `Startup.ReportBeginsWithLoss` | cmd/agent/telemetry_v2.go:144-165 | a report begins with its data-loss event, after a skipped number when no range is known; it is accepted exactly when there is no hole |
| `Startup.LostRecordsCount` | cmd/agent/telemetry_v2.go:146-149 | that event counts the numbers in the ranges, modulo 2^64 |
| `StartupLog.AnnounceIff` | cmd/agent/telemetry_v2.go:133-142 | the agent starts if and only if its first two events fit below the capacity and the reserve |
| `StartupLog.HoleIff` | cmd/agent/telemetry_v2.go:144-161 | reporting an issue leaves a hole if and only if its data-loss event would reach the capacity |
| `StartupLog.HolesIff` | cmd/agent/telemetry_v2.go:144-169 | reporting all issues leaves no hole if and only if each data-loss event fits when its turn comes, by frame sizes alone |
| `StartupLog.HolesHappen` | cmd/agent/telemetry_v2.go:133-161 | a directory and settings with which the agent starts and leaves two numbers open |
| `StartupLog.StartMatches` | cmd/agent/telemetry_v2.go:133-169 | after startup the log is what recovery left, followed by the accepted records in the order they were tried |
| `StartupLog.StartTellsAll` | cmd/agent/telemetry_v2.go:133-380 | each number issued in startup and a run after it lies in the range of exactly one record added to the log, unless it is a hole or a gap around it was refused |
| `StartupLog.QuarantinedRecordIsReported` | cmd/agent/telemetry_v2.go:144-169 | for every well-formed record lost with a segment that is set aside, a gap around it is tried at startup, and is in the log if accepted |
| `Identities.EventInputTellsAll` | pkg/identity/identity.go:101-109 | different events have different event-id inputs |
| `Identities.EventInputLayout` | pkg/identity/identity.go:101-105 | the input is node, session, and the 64 bits of the number, most significant byte first |
| `Identities.Session.Next` | pkg/identity/identity.go:125-128 | numbers go up by one, and the id is that of node, session and number |
| `TelemetryManagers.TelemetryManager.TryAppend` | cmd/agent/telemetry_v2.go:253-255 | the whole state after one append, its outcome on record |
| `TelemetryManagers.TelemetryManager.AppendEvent` | cmd/agent/telemetry_v2.go:238-262 | the number is issued first and stays issued when the event is refused |
| `TelemetryManagers.TelemetryManager.AppendGap` | cmd/agent/telemetry_v2.go:364-380 | a critical gap of this session; a refusal is only noted |
| `TelemetryManagers.TelemetryManager.AppendLoss` | cmd/agent/telemetry_v2.go:303-317 | a data-loss event, and a gap up to the last number that was not recorded |
| `TelemetryManagers.TelemetryManager.AppendFailedEventGap` | cmd/agent/telemetry_v2.go:319-336 | the same for an event that failed, nothing for number zero |
| `TelemetryManagers.TelemetryManager.FlushPressureRollup` | cmd/agent/telemetry_v2.go:344-362 | the open rollup is closed, its end clamped to its minute, and appended or replaced |
| `TelemetryManagers.TelemetryManager.FlushCompletedPressureRollup` | cmd/agent/telemetry_v2.go:338-342 | the same only when its minute is over |
| `TelemetryManagers.TelemetryManager.AppendPressureReplacement` | cmd/agent/telemetry_v2.go:290-317 | a refused sample is folded into its own minute or reported lost |
| `TelemetryManagers.TelemetryManager.OnStateTick` | cmd/agent/telemetry_v2.go:204-216 | the whole state after a tick, for every outcome of the append, with the host published at once when it has moved |
| `TelemetryManagers.TelemetryManager.OnHeartbeatTick` | cmd/agent/telemetry_v2.go:217-224 | the same for a heartbeat |
| `TelemetryManagers.TelemetryManager.PublishHost` | cmd/agent/telemetry_v2.go:404-413 | the same for host information |
| `TelemetryManagers.TelemetryManager.OnGcTick` | cmd/agent/telemetry_v2.go:227-233 | a reclaim with the snapshot that was taken |
| `TelemetryManagers.TelemetryManager.Close` | cmd/agent/telemetry_v2.go:177-188 | the open rollup is flushed and the log synced |

## Left out

- Wire formats: marshalling, the checksum and the SHA-256 digest of event ids are abstract functions; marshalling errors, the manifest's JSON and gap ids are not modelled. Hexadecimal map keys stand as the byte strings they encode.
- File system: create, rename, remove and truncate are atomic and do not fail; directory entries and truncations are durable. A reclaim's exit on an I/O error and the temporary files of atomic writes are not modelled.
- Reclaim's second reading of a segment whose cached records are missing: `Wal.WAL.Valid` shows that the branch is never taken.
- Retention.WantedRecordsAreRetained: asks that changes are quiet while a snapshot is outstanding, one way only; a change that shows something need not lose it. `Retention.StaleReclaimSafeIff` is the exact statement for the reclaim.
- PowerRuns.RunKeepsFirm: about runs that reclaim nothing, and asks that no append of the run strands unforced bytes, one way only over a run; `PowerRuns.StrandingAppendIff` is the exact statement for one append, `PowerLoss.ForcedSafeIff` for any state.
- LogRuns.RunExtendsDurable: about crashes that leave the files as they were; `PowerRuns.RunKeepsDurable` and `PowerLoss.PowerLossSafeIff` are about power losses.
- Drain.SendLoop: what becomes of a response that settles no record of its batch is not modelled; the loop sends the batch again.
- Rollups.AverageBounds: one way only; an average that overflowed can fall between the extremes by chance. `Rollups.LagBoundIff` is the exact statement.
- Foreign `.seg` files: a name that is not a number makes opening fail; the model's directory holds segments with distinct numbers.
- Segments are values inside the log object rather than objects of their own, and each carries the contents of its file; aliasing between them is not captured. Maps handed to an assignment are copied by value.
- Numbers: sizes in bytes and segment numbers do not wrap at 64 bits, the session counter does not wrap, and the 32-bit sample count of a rollup does not wrap. Counters and averages of samples do wrap.
- Pressure watermarks are exact ratios (.70, .85, .95) by cross-multiplication, not floating-point quotients.
- The floating-point fields of samples (CPU and load averages).
- How a change of the host's location is noticed: each state tick is told whether there was one.
- Timers, goroutines and mutexes: each locked method is one step, and runs interleave steps in any order. The pair snapshot, then reclaim, is kept apart.
- The log's own sync timer and its close are `SyncLog` steps; the error of a closed log is not modelled.
- The order in which recovery issues list their ranges: a map in the log, an arbitrary list in `Startup`.
- Saving the cursor store to disk after each change.
- Real-time snapshots, pings and round-trip times of the send loop; reconnecting; a batch whose response carries an error ends the loop in the code, and is not a round of the model's.
- Reconciling workers with assignments, enrolment, control messages, probes, host address retention, dialling and TLS: network plumbing around the pipeline.
