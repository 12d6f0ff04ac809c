/** Files that rotted: what recovery reports about the records lost with them. */
module Quarantine {
  import opened Proto
  import opened Scanning
  import opened WalLog
  import opened LogInvariants
  import opened Recovery
  import Frames

  /** The directory of a log with arbitrary bytes in place of every segment file. */
  function CorruptFiles(segments: seq<Segment>, datas: seq<seq<byte>>): seq<FoundFile>
    requires |datas| == |segments|
  {
    seq(|segments|, i requires 0 <= i < |segments| =>
      FoundFile(segments[i].id, segments[i].file.(data := datas[i])))
  }

  lemma {:induction false} OutcomeIsRecorded(f: Format, cfg: Config, files: seq<FoundFile>, n: nat, i: nat)
    requires f.Valid() && i < n <= |files|
    ensures match RecoverFile(f, files[i], i + 1 == |files|)
            case Keep(segment, _) => segment in RecoverUpTo(f, cfg, files, n).segments
            case SetAside(issue) => issue in RecoverUpTo(f, cfg, files, n).issues
  {
    if i < n - 1 {
      OutcomeIsRecorded(f, cfg, files, n - 1, i);
    }
  }

  // What is reported about segment `i` of a log whose files have turned into `datas`.

  ghost function Reopen(f: Format, log: Log, datas: seq<seq<byte>>): Log
    requires f.Valid() && log.Open() && |datas| == |log.segments|
  {
    OpenLog(f, log.cfg, CorruptFiles(log.segments, datas))
  }

  /** The record is still in the segment that held it. */
  predicate StillIn(after: Log, id: nat, r: Record) {
    exists s | s in after.segments :: s.id == id && r in s.records
  }

  /** Some issue about that segment names a range around the record. */
  predicate Reported(after: Log, id: nat, r: Record) {
    exists issue | issue in after.issues :: issue.segment == id && Covers(issue.ranges, r)
  }

  function IssuesOf(outcome: Outcome): seq<Issue> {
    match outcome
    case Keep(_, issues) => issues
    case SetAside(issue) => [issue]
  }

  ghost function OutcomeOf(f: Format, log: Log, datas: seq<seq<byte>>, i: nat): Outcome
    requires f.Valid() && |datas| == |log.segments| && i < |log.segments|
  {
    RecoverFile(f, CorruptFiles(log.segments, datas)[i], i + 1 == |log.segments|)
  }

  lemma OutcomeBearsId(f: Format, found: FoundFile, last: bool)
    requires f.Valid()
    ensures RecoverFile(f, found, last).Keep? ==> RecoverFile(f, found, last).segment.id == found.id
    ensures forall issue <- IssuesOf(RecoverFile(f, found, last)) :: issue.segment == found.id
  {
  }

  lemma OutcomeAdds(log: Log, outcome: Outcome)
    ensures AddOutcome(log, outcome).segments == log.segments + (if outcome.Keep? then [outcome.segment] else [])
    ensures AddOutcome(log, outcome).issues == log.issues + IssuesOf(outcome)
  {
  }

  /** Every segment and every issue that recovery yields comes from one file, and bears its id. */
  lemma {:induction false} NothingElseRecovered(f: Format, cfg: Config, files: seq<FoundFile>, n: nat, i: nat)
    requires f.Valid() && n <= |files| && i < |files| && AscendingFiles(files)
    ensures forall s | s in RecoverUpTo(f, cfg, files, n).segments && s.id == files[i].id ::
              var outcome := RecoverFile(f, files[i], i + 1 == |files|); outcome.Keep? && outcome.segment == s
    ensures forall issue | issue in RecoverUpTo(f, cfg, files, n).issues && issue.segment == files[i].id ::
              issue in IssuesOf(RecoverFile(f, files[i], i + 1 == |files|))
  {
    if n > 0 {
      NothingElseRecovered(f, cfg, files, n - 1, i);
      OutcomeBearsId(f, files[n - 1], n == |files|);
      OutcomeAdds(RecoverUpTo(f, cfg, files, n - 1), RecoverFile(f, files[n - 1], n == |files|));
      assert i != n - 1 ==> files[i].id != files[n - 1].id;
    }
  }

  lemma ReopenedFromOutcome(f: Format, log: Log, datas: seq<seq<byte>>, i: nat)
    requires f.Valid() && Shape(log) && |datas| == |log.segments| && i < |log.segments|
    ensures var after, outcome, id := Reopen(f, log, datas), OutcomeOf(f, log, datas, i), log.segments[i].id;
            && (forall r :: StillIn(after, id, r) <==> outcome.Keep? && r in outcome.segment.records)
            && (forall r | Reported(after, id, r) ::
                  exists issue | issue in IssuesOf(outcome) :: Covers(issue.ranges, r))
  {
    var files := CorruptFiles(log.segments, datas);
    OutcomeIsRecorded(f, log.cfg, files, |files|, i);
    NothingElseRecovered(f, log.cfg, files, |files|, i);
  }

  /** Set aside, with the ranges of the manifest: everything well formed is named. */
  lemma SetAsideIsReported(f: Format, log: Log, datas: seq<seq<byte>>, i: nat)
    requires f.Valid() && Sound(log) && |datas| == |log.segments| && i < |log.segments|
    requires OutcomeOf(f, log, datas, i).SetAside?
    ensures forall r <- log.segments[i].records :: Reported(Reopen(f, log, datas), log.segments[i].id, r)
  {
    var files := CorruptFiles(log.segments, datas);
    OutcomeIsRecorded(f, log.cfg, files, |files|, i);
    assert ManifestCovers(log.segments[i]);
  }

  /** No silent quarantine, whatever the files turn into: the segment is read back as far as it
      scans, or it is set aside with ranges around every well-formed record that was durable in it. */
  lemma {:induction false} NoSilentQuarantine(f: Format, log: Log, datas: seq<seq<byte>>, i: nat)
    requires f.Valid() && Sound(log) && |datas| == |log.segments| && i < |log.segments|
    ensures var after, id, scan := Reopen(f, log, datas), log.segments[i].id, Scan(f, datas[i]);
            if scan.status == Clean || (scan.status == Torn && i + 1 == |log.segments|)
            then forall r :: StillIn(after, id, r) <==> r in scan.records
            else forall r <- log.segments[i].records :: Reported(after, id, r) && !StillIn(after, id, r)
  {
    ReopenedFromOutcome(f, log, datas, i);
    if OutcomeOf(f, log, datas, i).SetAside? {
      SetAsideIsReported(f, log, datas, i);
    }
  }

  /** A well-formed record of the segment that did not survive is named by some issue. */
  predicate LossesReported(after: Log, s: Segment) {
    forall r <- s.records :: WellFormed(r) && !StillIn(after, s.id, r) ==> Reported(after, s.id, r)
  }

  lemma EmptyRangesCoverNothing(r: Record)
    requires WellFormed(r)
    ensures !Covers(map[], r)
  {
  }

  /** Exactly when losses are reported: the file is set aside, or scanning it misses no
      well-formed record. */
  lemma {:induction false} LossesReportedIff(f: Format, log: Log, datas: seq<seq<byte>>, i: nat)
    requires f.Valid() && Sound(log) && |datas| == |log.segments| && i < |log.segments|
    ensures var scan := Scan(f, datas[i]);
            LossesReported(Reopen(f, log, datas), log.segments[i]) <==>
              || (scan.status != Clean && !(scan.status == Torn && i + 1 == |log.segments|))
              || (forall r <- log.segments[i].records :: WellFormed(r) ==> r in scan.records)
  {
    ReopenedFromOutcome(f, log, datas, i);
    var scan, after, s := Scan(f, datas[i]), Reopen(f, log, datas), log.segments[i];
    if OutcomeOf(f, log, datas, i).SetAside? {
      SetAsideIsReported(f, log, datas, i);
    } else {
      forall r | r in s.records && WellFormed(r) ensures !Reported(after, s.id, r) {
        EmptyRangesCoverNothing(r);
      }
    }
  }

  /** All files as they are but one, which keeps its first `n` bytes. */
  function OneCut(segments: seq<Segment>, i: nat, n: nat): seq<seq<byte>>
    requires i < |segments| && n <= |segments[i].file.data|
  {
    seq(|segments|, k requires 0 <= k < |segments| =>
      if k == i then segments[k].file.data[..n] else segments[k].file.data)
  }

  /** A file of any segment, cut at a frame boundary, scans cleanly: durable records are gone,
      and no issue says anything about it. Cutting off everything is such a cut. */
  lemma {:induction false} BoundaryCutReportsNothing(f: Format, log: Log, i: nat, n: nat)
    requires f.Valid() && Inv(f, log) && i < |log.segments| && n < |log.segments[i].file.data|
    requires n == 0 || Scan(f, log.segments[i].file.data[..n]).status == Clean
    ensures var after, s := Reopen(f, log, OneCut(log.segments, i, n)), log.segments[i];
            var kept := Scan(f, s.file.data[..n]).records;
            && kept < s.records
            && (forall r :: StillIn(after, s.id, r) <==> r in kept)
            && (forall issue | issue in after.issues :: issue.segment != s.id)
  {
    var s, datas := log.segments[i], OneCut(log.segments, i, n);
    assert s in log.segments;
    assert n == 0 ==> s.file.data[..n] == [];
    ScanCut(f, s.file.data, n);
    ScanFewerRecords(f, s.file.data, n);
    ReopenedFromOutcome(f, log, datas, i);
    var files := CorruptFiles(log.segments, datas);
    NothingElseRecovered(f, log.cfg, files, |files|, i);
  }

  /** The limit of that report: when the last file is cut inside its durable bytes, recovery
      takes it for a torn tail, and durable records are gone without a range that names them. */
  lemma {:induction false} TruncationReportsNoRange(f: Format, log: Log, n: nat)
    requires f.Valid() && Inv(f, log)
    requires n < |log.Active().file.data| && Scan(f, log.Active().file.data[..n]).status == Torn
    ensures var file := log.Active().file;
            var outcome := RecoverFile(f, FoundFile(log.Active().id, file.(data := file.data[..n])), true);
            && outcome.Keep?
            && outcome.segment.records < log.Active().records
            && outcome.issues == [Issue(log.Active().id, TruncatedPartialTail, map[])]
  {
    var data := log.Active().file.data;
    assert log.Active() in log.segments;
    ScanCut(f, data, n);
    var cut := Scan(f, data[..n]);
    ScanFewerRecords(f, data, n);
  }

  /** A proper cut of a clean file misses at least one record. */
  lemma {:induction false} ScanFewerRecords(f: Format, data: seq<byte>, n: nat)
    requires f.Valid() && Scan(f, data).status == Clean && n < |data|
    ensures |Scan(f, data[..n]).records| < |Scan(f, data).records|
    decreases |data|
  {
    var size := f.parse(data).size;
    assert f.BoundedAt(data) && f.LocalAt(data, data[..n]);
    if size <= n {
      assert data[..n][..size] == data[..size];
      assert data[..n][size..] == data[size..][..n - size];
      ScanFewerRecords(f, data[size..], n - size);
    } else {
      assert n > 0 ==> f.parse(data[..n]) == Stop(Torn);
    }
  }

  // The writer accepts frames that the scanner rejects.

  lemma WriteStaysReadableIff(f: Format, log: Log, record: Record, priority: Priority)
    requires f.Valid() && log.Open() && Readable(f, log)
    ensures Readable(f, WriteLog(f, log, record, priority)) <==> Holds(f, f.frame(record, priority), [record])
  {
    var frame := f.frame(record, priority);
    ScanConcat(f, log.buffer, frame);
    SuffixHoldsIff(log.pending, Scan(f, frame).records, record);
  }

  lemma SuffixHoldsIff(before: seq<Record>, records: seq<Record>, record: Record)
    ensures before + records == before + [record] <==> records == [record]
  {
    if before + records == before + [record] {
      assert records == (before + records)[|before|..] == [record];
    }
  }

  lemma {:induction false} WrittenFileScan(f: Format, log: Log, frame: seq<byte>)
    requires f.Valid() && log.Open() && Readable(f, log)
    ensures var active := log.Active();
            Scan(f, active.file.data + (log.buffer + frame))
            == Join(active.records + log.pending, |active.file.data + log.buffer|, Scan(f, frame))
  {
    var active := log.Active();
    assert active in log.segments;
    ScanConcat(f, active.file.data, log.buffer);
    ScanConcat(f, active.file.data + log.buffer, frame);
    assert active.file.data + (log.buffer + frame) == active.file.data + log.buffer + frame;
  }

  lemma SyncWrittenHolds(f: Format, log: Log, record: Record, priority: Priority)
    requires f.Valid() && log.Open() && Readable(f, log) && log.unsynced == |log.pending|
    requires Readable(f, SyncLog(WriteLog(f, log, record, priority)))
    ensures Holds(f, f.frame(record, priority), [record])
  {
    var after, active := SyncLog(WriteLog(f, log, record, priority)), log.Active();
    assert after.Active() in after.segments;
    WrittenFileScan(f, log, f.frame(record, priority));
    SuffixHoldsIff(active.records + log.pending, Scan(f, f.frame(record, priority)).records, record);
    assert active.records + (log.pending + [record]) == active.records + log.pending + [record];
  }

  /** Syncing what has just been written neither repairs nor spoils it. */
  lemma SyncWrittenReadableIff(f: Format, log: Log, record: Record, priority: Priority)
    requires f.Valid() && log.Open() && Readable(f, log) && log.unsynced == |log.pending|
    ensures Readable(f, SyncLog(WriteLog(f, log, record, priority))) <==> Holds(f, f.frame(record, priority), [record])
  {
    WriteStaysReadableIff(f, log, record, priority);
    if Holds(f, f.frame(record, priority), [record]) {
      SyncKeepsReadable(f, WriteLog(f, log, record, priority));
    } else if Readable(f, SyncLog(WriteLog(f, log, record, priority))) {
      SyncWrittenHolds(f, log, record, priority);
    }
  }

  /** A record is accepted whether its frame can be read back or not. Through the rotation before
      it and the sync after it, the log stays readable if and only if the frame scans as the record. */
  lemma AppendStaysReadableIff(f: Format, log: Log, record: Record, priority: Priority)
    requires f.Valid() && log.Open() && Readable(f, log) && log.unsynced == |log.pending|
    requires Accepts(f, log, record, priority)
    ensures Readable(f, AppendLog(f, log, record, priority)) <==> Holds(f, f.frame(record, priority), [record])
  {
    var size := |f.frame(record, priority)|;
    ReadyKeepsReadable(f, log, size);
    ReadyKeepsRecords(log, size);
    WriteStaysReadableIff(f, ReadyLog(log, size), record, priority);
    SyncWrittenReadableIff(f, ReadyLog(log, size), record, priority);
  }

  /** For the agent's frames of 32-bit lengths, that means a legal payload length. */
  lemma FrameHoldsIff(c: Frames.Codec, record: Record, priority: Priority)
    requires c.Valid() && Frames.FormatOf(c).Valid()
    requires |c.marshal(record)| < 0x1_0000_0000
    ensures Holds(Frames.FormatOf(c), Frames.FormatOf(c).frame(record, priority), [record]) <==> Frames.Legal(c, record)
  {
    if Frames.Legal(c, record) {
      OneFrameHolds(Frames.FormatOf(c), record, priority);
    } else {
      IllegalFrameStopsScan(c, record, priority);
    }
  }

  lemma IllegalFrameStopsScan(c: Frames.Codec, record: Record, priority: Priority)
    requires c.Valid() && Frames.FormatOf(c).Valid()
    requires |c.marshal(record)| < 0x1_0000_0000 && !Frames.Legal(c, record)
    ensures Scan(Frames.FormatOf(c), Frames.FormatOf(c).frame(record, priority)) == ScanResult([], 0, BadLength)
  {
    var frame := Frames.Frame(c, record, priority);
    Frames.WrittenFrameReadsBack(c, record, priority, []);
    assert frame + [] == frame;
  }

  lemma {:induction false} RejectedFrameScan(f: Format, log: Log, record: Record, priority: Priority)
    requires f.Valid() && log.Open() && Readable(f, log)
    requires Scan(f, f.frame(record, priority)).status != Clean
    ensures var active := log.Active();
            Scan(f, active.file.data + (log.buffer + f.frame(record, priority))).status
            == Scan(f, f.frame(record, priority)).status
  {
    assert log.Active() in log.segments;
    ScanConcat(f, log.buffer, f.frame(record, priority));
    ScanConcat(f, log.Active().file.data, log.buffer + f.frame(record, priority));
  }

  /** The file of the active segment when every byte is kept, whether or not the append synced. */
  lemma AppendedBytes(f: Format, log: Log, record: Record, priority: Priority)
    requires log.Open() && log.unsynced == |log.pending| && Accepts(f, log, record, priority)
    ensures var frame, after := f.frame(record, priority), AppendLog(f, log, record, priority);
            var ready := ReadyLog(log, |frame|);
            && after.Active().id == ready.Active().id
            && after.Active().file.data + after.buffer == ready.Active().file.data + (ready.buffer + frame)
  {
  }

  /** What that costs: when a rejected frame is accepted, even a stop that keeps every byte sets
      aside the whole segment it was written to, and the log reopens without it. */
  lemma {:induction false} RejectedFrameLosesSegment(f: Format, log: Log, record: Record, priority: Priority)
    requires f.Valid() && log.Open() && Readable(f, log) && log.unsynced == |log.pending|
    requires Accepts(f, log, record, priority)
    requires var status := Scan(f, f.frame(record, priority)).status; status != Clean && status != Torn
    ensures var after := AppendLog(f, log, record, priority);
            var files := CrashFiles(after, |after.buffer|);
            var outcome := RecoverFile(f, files[|files| - 1], true);
            && outcome.SetAside?
            && outcome.issue.segment == after.Active().id
            && outcome.issue.reason == Quarantined(Scan(f, f.frame(record, priority)).status)
  {
    var frame, after := f.frame(record, priority), AppendLog(f, log, record, priority);
    var ready := ReadyLog(log, |frame|);
    ReadyKeepsReadable(f, log, |frame|);
    RejectedFrameScan(f, ready, record, priority);
    AppendedBytes(f, log, record, priority);
    assert after.buffer[..|after.buffer|] == after.buffer;
  }
}
