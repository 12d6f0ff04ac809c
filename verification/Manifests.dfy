/** Manifests are exact: they cover every record of a segment, and nothing that its records do
    not reach. */
module Manifests {
  import opened Proto
  import opened Scanning
  import opened WalLog
  import opened LogInvariants
  import opened Recovery
  import opened Quarantine
  import Frames
  import LogRuns
  import Reclaiming

  // Ranges of a list of records.

  /** A well-formed record of that node and session which starts (ends) there. */
  predicate StartsAt(records: seq<Record>, key: RangeKey, n: nat) {
    exists r <- records :: WellFormed(r) && KeyOf(r) == key && RecordRange(r).start == n
  }

  predicate EndsAt(records: seq<Record>, key: RangeKey, n: nat) {
    exists r <- records :: WellFormed(r) && KeyOf(r) == key && RecordRange(r).end == n
  }

  /** Every range contains the records of its node and session, and is attained at both ends. */
  predicate Exact(ranges: Ranges, records: seq<Record>) {
    && CoversAll(ranges, records)
    && (forall key | key in ranges ::
          StartsAt(records, key, ranges[key].start) && EndsAt(records, key, ranges[key].end))
  }

  lemma AddRecordRangeStep(ranges: Ranges, record: Record, key: RangeKey)
    requires key in AddRecordRange(ranges, record)
    ensures var after := AddRecordRange(ranges, record)[key];
            && (|| (key in ranges && after.start == ranges[key].start)
                || (WellFormed(record) && KeyOf(record) == key && after.start == RecordRange(record).start))
            && (|| (key in ranges && after.end == ranges[key].end)
                || (WellFormed(record) && KeyOf(record) == key && after.end == RecordRange(record).end))
  {
  }

  /** The ranges of a list of records are exact. */
  lemma {:induction false} RangesAreExact(records: seq<Record>)
    ensures Exact(AddRanges(map[], records), records)
  {
    AddRangesCovers(map[], records);
    if records != [] {
      var front, last := records[..|records| - 1], records[|records| - 1];
      RangesAreExact(front);
      forall key | key in AddRanges(map[], records)
        ensures StartsAt(records, key, AddRanges(map[], records)[key].start)
        ensures EndsAt(records, key, AddRanges(map[], records)[key].end)
      {
        AddRecordRangeStep(AddRanges(map[], front), last, key);
        assert last in records && forall r <- front :: r in records;
      }
    }
  }

  // The manifests of a log.

  /** The ranges of a segment are those of its records, written or not, and the manifest beside
      it has those of the records that readers see. */
  predicate Faithful(s: Segment, pending: seq<Record>) {
    && s.ranges == AddRanges(map[], s.records + pending)
    && (s.records != [] ==> s.file.manifest == Some(AddRanges(map[], s.records)))
  }

  predicate Manifested(log: Log) {
    && log.Open()
    && (forall s <- log.segments[..|log.segments| - 1] :: Faithful(s, []))
    && Faithful(log.Active(), log.pending)
  }

  lemma SyncKeepsManifested(log: Log)
    requires Manifested(log) && log.unsynced == |log.pending|
    ensures Manifested(SyncLog(log))
  {
    var after := SyncLog(log);
    if log.unsynced != 0 {
      assert after.segments[..|after.segments| - 1] == log.segments[..|log.segments| - 1];
      assert after.Active().records + [] == after.Active().records;
    }
  }

  lemma AllFaithful(log: Log)
    requires Manifested(log) && log.pending == []
    ensures forall s <- log.segments :: Faithful(s, [])
  {
    forall s | s in log.segments ensures Faithful(s, []) {
      assert s in log.segments[..|log.segments| - 1] || s == log.Active();
    }
  }

  lemma ReadyKeepsManifested(log: Log, frameSize: nat)
    requires Manifested(log) && Shape(log)
    ensures Manifested(ReadyLog(log, frameSize))
  {
    if NeedsRotation(log, frameSize) {
      SyncKeepsShape(log);
      SyncKeepsManifested(log);
      AllFaithful(SyncLog(log));
      RotateStartsEmpty(log);
    }
  }

  lemma WriteKeepsManifested(f: Format, log: Log, record: Record, priority: Priority)
    requires Manifested(log)
    ensures Manifested(WriteLog(f, log, record, priority))
  {
    var after, active := WriteLog(f, log, record, priority), log.Active();
    assert after.segments[..|after.segments| - 1] == log.segments[..|log.segments| - 1];
    var all := active.records + log.pending;
    assert active.records + (log.pending + [record]) == all + [record];
    assert (all + [record])[..|all|] == all;
  }

  lemma SyncIfDueKeepsManifested(log: Log)
    requires Manifested(log) && log.unsynced == |log.pending|
    ensures Manifested(SyncIfDue(log))
  {
    SyncKeepsManifested(log);
  }

  lemma AppendKeepsManifested(f: Format, log: Log, record: Record, priority: Priority)
    requires Manifested(log) && Shape(log)
    ensures Manifested(AppendLog(f, log, record, priority))
  {
    if Accepts(f, log, record, priority) {
      var ready := ReadyLog(log, |f.frame(record, priority)|);
      ReadyKeepsShape(log, |f.frame(record, priority)|);
      ReadyKeepsManifested(log, |f.frame(record, priority)|);
      WriteKeepsShape(f, ready, record, priority);
      WriteKeepsManifested(f, ready, record, priority);
      SyncIfDueKeepsManifested(WriteLog(f, ready, record, priority));
    }
  }

  lemma ReclaimKeepsManifested(log: Log, acknowledged: Record -> bool)
    requires Manifested(log) && Shape(log)
    ensures Manifested(ReclaimLog(log, acknowledged))
  {
    SyncKeepsShape(log);
    SyncKeepsManifested(log);
    AllFaithful(SyncLog(log));
    Reclaiming.KeptAreOld(SyncLog(log).segments, acknowledged);
    var after := ReclaimLog(log, acknowledged);
    assert forall s <- after.segments[..|after.segments| - 1] :: s in after.segments;
    assert after.Active() in after.segments;
  }

  lemma OpenIsManifested(f: Format, cfg: Config, files: seq<FoundFile>)
    requires f.Valid() && AscendingFiles(files)
    ensures Manifested(OpenLog(f, cfg, files))
  {
    RecoverUpToSettles(f, cfg, files, |files|);
    var log := OpenLog(f, cfg, files);
    forall s | s in log.segments ensures Faithful(s, []) {
      assert s.records + [] == s.records;
    }
    assert forall s <- log.segments[..|log.segments| - 1] :: s in log.segments;
    assert log.Active() in log.segments;
  }

  lemma StepKeepsManifested(f: Format, log: Log, step: LogRuns.Step)
    requires f.Valid() && Manifested(log) && Shape(log)
    ensures Manifested(LogRuns.After(f, log, step))
  {
    match step {
      case AppendStep(record, priority) => AppendKeepsManifested(f, log, record, priority);
      case SyncStep => SyncKeepsManifested(log);
      case ReclaimStep(acknowledged) => ReclaimKeepsManifested(log, acknowledged);
      case CrashStep(kept) =>
        var n := if kept <= |log.buffer| then kept else |log.buffer|;
        CrashFilesAscend(log, n);
        OpenIsManifested(f, log.cfg, CrashFiles(log, n));
    }
  }

  /** Over every run from an opened directory, whatever is appended, manifests are exact. */
  lemma {:induction false} RunKeepsManifested(f: Format, log: Log, steps: seq<LogRuns.Step>)
    requires f.Valid() && Manifested(log) && Sound(log)
    ensures Manifested(LogRuns.Run(f, log, steps))
    decreases |steps|
  {
    if steps != [] {
      StepKeepsManifested(f, log, steps[0]);
      LogRuns.StepKeepsSound(f, log, steps[0]);
      RunKeepsManifested(f, LogRuns.After(f, log, steps[0]), steps[1..]);
    }
  }

  // What a recovery reports about a segment that it sets aside.

  /** The ranges are those of the manifest, or, when there is none to be read, those of the
      records in front of the damage. */
  lemma {:induction false} ReportedRanges(f: Format, found: FoundFile, last: bool)
    requires f.Valid() && RecoverFile(f, found, last).SetAside?
    ensures var issue := RecoverFile(f, found, last).issue;
            && issue.segment == found.id && issue.reason == Quarantined(Scan(f, found.file.data).status)
            && (found.file.manifest.Some? ==> issue.ranges == found.file.manifest.value)
            && (found.file.manifest.None? ==> Exact(issue.ranges, Scan(f, found.file.data).records))
  {
    RangesAreExact(Scan(f, found.file.data).records);
  }

  /** So nothing is reported lost that was not: when a segment of a manifested log that holds
      records is set aside, its ranges begin and end with durable records of that segment. */
  lemma ReportsAreExact(f: Format, log: Log, datas: seq<seq<byte>>, i: nat)
    requires f.Valid() && Manifested(log) && |datas| == |log.segments| && i < |log.segments|
    requires log.segments[i].records != [] && OutcomeOf(f, log, datas, i).SetAside?
    ensures Exact(OutcomeOf(f, log, datas, i).issue.ranges, log.segments[i].records)
  {
    var s, front := log.segments[i], log.segments[..|log.segments| - 1];
    assert s in front || s == log.Active() by {
      if i < |front| {
        assert front[i] == s;
      }
    }
    assert Faithful(s, []) || Faithful(s, log.pending);
    assert s.file.manifest == Some(AddRanges(map[], s.records));
    ReportedRanges(f, CorruptFiles(log.segments, datas)[i], i + 1 == |log.segments|);
    RangesAreExact(s.records);
  }

  // A record that rotted.

  /** A file in which one payload has rotted: records, a header, other bytes, and whatever follows. */
  function RottenBytes(c: Frames.Codec, before: seq<Entry>, record: Record, priority: Priority, payload: seq<byte>,
                       tail: seq<byte>): seq<byte>
  {
    Encode(Frames.FormatOf(c), before) + (Frames.Header(c, c.marshal(record), priority) + payload + tail)
  }

  lemma {:induction false} RottenScan(c: Frames.Codec, before: seq<Entry>, record: Record, priority: Priority,
                                      payload: seq<byte>, tail: seq<byte>)
    requires c.Valid() && Frames.FormatOf(c).Valid() && AllLegal(Frames.FormatOf(c), RecordsOf(before))
    requires Frames.Legal(c, record) && |payload| == |c.marshal(record)|
    requires c.checksum(payload) != c.checksum(c.marshal(record))
    ensures Scan(Frames.FormatOf(c), RottenBytes(c, before, record, priority, payload, tail))
         == ScanResult(RecordsOf(before), |Encode(Frames.FormatOf(c), before)|, BadChecksum)
  {
    var f := Frames.FormatOf(c);
    EncodeHolds(f, before);
    Frames.RottenPayloadRejected(c, record, priority, payload, tail);
    ScanConcat(f, Encode(f, before), Frames.Header(c, c.marshal(record), priority) + payload + tail);
    assert RecordsOf(before) + [] == RecordsOf(before);
  }

  /** A rotten record is never taken for another one: its segment is set aside, be it the last one
      or not, and reported with the ranges of its manifest, or of the records in front of the damage. */
  lemma RottenRecordSetsAside(c: Frames.Codec, before: seq<Entry>, record: Record, priority: Priority,
                              payload: seq<byte>, tail: seq<byte>, found: FoundFile, last: bool)
    requires c.Valid() && Frames.FormatOf(c).Valid() && AllLegal(Frames.FormatOf(c), RecordsOf(before))
    requires Frames.Legal(c, record) && |payload| == |c.marshal(record)|
    requires c.checksum(payload) != c.checksum(c.marshal(record))
    requires found.file.data == RottenBytes(c, before, record, priority, payload, tail)
    ensures var outcome := RecoverFile(Frames.FormatOf(c), found, last);
            && outcome.SetAside? && outcome.issue.segment == found.id
            && outcome.issue.reason == Quarantined(BadChecksum)
            && (found.file.manifest.Some? ==> outcome.issue.ranges == found.file.manifest.value)
            && (found.file.manifest.None? ==> Exact(outcome.issue.ranges, RecordsOf(before)))
  {
    RottenScan(c, before, record, priority, payload, tail);
    ReportedRanges(Frames.FormatOf(c), found, last);
  }
}
