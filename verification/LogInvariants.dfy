/** What every reachable state of the log keeps. */
module LogInvariants {
  import opened Proto
  import opened Scanning
  import opened WalLog

  // Structure.

  predicate Ascending(segments: seq<Segment>) {
    forall i, j | 0 <= i < j < |segments| :: segments[i].id < segments[j].id
  }

  /** Ids ascend with the active segment last; all but the active segment are durable; the
      buffered bytes are exactly the active segment's unsynced part; the counters add up. */
  predicate Shape(log: Log) {
    && log.Open()
    && Ascending(log.segments)
    && (forall s <- log.segments :: s.durableSize == |s.file.data|)
    && (forall s <- log.segments[..|log.segments| - 1] :: s.size == s.durableSize)
    && log.Active().size == log.Active().durableSize + |log.buffer|
    && log.unsynced == |log.pending|
    && (log.pending == [] ==> log.buffer == [])
    && log.total == TotalSize(log.segments)
  }

  // Contents.

  /** Every file holds the frames of its segment's records, and the buffer those of the pending ones. */
  ghost predicate Readable(f: Format, log: Log)
    requires f.Valid()
  {
    && (forall s <- log.segments :: Holds(f, s.file.data, s.records))
    && Holds(f, log.buffer, log.pending)
  }

  // Segment sizes.

  /** A segment outgrows the configured size only when it holds a single record. */
  predicate Sized(log: Log) {
    && log.Open()
    && (forall s <- log.segments[..|log.segments| - 1] :: s.size <= log.cfg.segmentSize || |s.records| == 1)
    && (var a := log.Active();
        && (a.size <= log.cfg.segmentSize || |a.records| + |log.pending| == 1)
        && (a.size <= 0 ==> a.records == [] && log.pending == []))
  }

  // Manifests.

  predicate Covers(ranges: Ranges, record: Record) {
    WellFormed(record) ==>
      var key, span := KeyOf(record), RecordRange(record);
      key in ranges && ranges[key].start <= span.start && span.end <= ranges[key].end
  }

  predicate CoversAll(ranges: Ranges, records: seq<Record>) {
    forall r <- records :: Covers(ranges, r)
  }

  predicate ManifestCovers(s: Segment) {
    && CoversAll(s.ranges, s.records)
    && (s.records != [] ==> s.file.manifest.Some? && CoversAll(s.file.manifest.value, s.records))
  }

  predicate Covered(log: Log) {
    && log.Open()
    && (forall s <- log.segments :: ManifestCovers(s))
    && CoversAll(log.Active().ranges, log.pending)
  }

  // Heads.

  predicate HeadCovers(heads: Heads, record: Record) {
    var span := RecordRange(record);
    span.session != [] && span.end > 0 ==> span.session in heads && span.end <= heads[span.session]
  }

  predicate HeadsCover(heads: Heads, records: seq<Record>) {
    forall r <- records :: HeadCovers(heads, r)
  }

  predicate Indexed(log: Log) {
    && (forall s <- log.segments :: HeadsCover(log.heads, s.records))
    && (forall session | session in log.heads :: session != [] && log.heads[session] > 0)
  }

  /** What holds whatever is appended. */
  predicate Sound(log: Log) {
    Shape(log) && Covered(log) && Indexed(log)
  }

  /** What holds as long as only legal records are appended. */
  ghost predicate Inv(f: Format, log: Log)
    requires f.Valid()
  {
    Sound(log) && Readable(f, log)
  }

  // Sums and concatenations over segments.

  lemma {:induction false} TotalSizeSnoc(segments: seq<Segment>, s: Segment)
    ensures TotalSize(segments + [s]) == TotalSize(segments) + s.size
  {
    if segments == [] {
      assert [] + [s] == [s];
    } else {
      TotalSizeSnoc(segments[1..], s);
      assert (segments + [s])[1..] == segments[1..] + [s];
    }
  }

  lemma TotalSizeWithActive(log: Log, active: Segment)
    requires log.Open()
    ensures TotalSize(log.WithActive(active).segments) == TotalSize(log.segments) - log.Active().size + active.size
  {
    var front := log.segments[..|log.segments| - 1];
    TotalSizeSnoc(front, active);
    TotalSizeSnoc(front, log.Active());
    assert front + [log.Active()] == log.segments;
  }

  lemma {:induction false} RecordsInSnoc(segments: seq<Segment>, s: Segment)
    ensures RecordsIn(segments + [s]) == RecordsIn(segments) + s.records
  {
    if segments == [] {
      assert [] + [s] == [s];
      assert RecordsIn([s]) == s.records + RecordsIn([]) == s.records;
    } else {
      RecordsInSnoc(segments[1..], s);
      assert (segments + [s])[1..] == segments[1..] + [s];
      assert segments[0].records + (RecordsIn(segments[1..]) + s.records)
          == segments[0].records + RecordsIn(segments[1..]) + s.records;
    }
  }

  lemma {:induction false} InRecordsIn(segments: seq<Segment>, r: Record)
    ensures r in RecordsIn(segments) <==> exists s | s in segments :: r in s.records
  {
    if segments != [] {
      InRecordsIn(segments[1..], r);
      assert segments == [segments[0]] + segments[1..];
    }
  }

  // Ranges and heads grow.

  lemma AddRecordRangeCovers(ranges: Ranges, record: Record, other: Record)
    ensures Covers(AddRecordRange(ranges, record), record)
    ensures Covers(ranges, other) ==> Covers(AddRecordRange(ranges, record), other)
  {
  }

  lemma {:induction false} AddRangesCovers(ranges: Ranges, records: seq<Record>)
    ensures CoversAll(AddRanges(ranges, records), records)
  {
    if records != [] {
      var front, last := records[..|records| - 1], records[|records| - 1];
      AddRangesCovers(ranges, front);
      forall r | r in records ensures Covers(AddRanges(ranges, records), r) {
        AddRecordRangeCovers(AddRanges(ranges, front), last, r);
        assert r in front || r == last;
      }
    }
  }

  lemma {:induction false} NoteAllCovers(heads: Heads, records: seq<Record>)
    ensures HeadsCover(NoteAll(heads, records), records)
    ensures forall r | HeadCovers(heads, r) :: HeadCovers(NoteAll(heads, records), r)
    ensures (forall session | session in heads :: session != [] && heads[session] > 0) ==>
              forall session | session in NoteAll(heads, records) ::
                session != [] && NoteAll(heads, records)[session] > 0
  {
    if records != [] {
      var front, last := records[..|records| - 1], records[|records| - 1];
      NoteAllCovers(heads, front);
      forall r | r in records ensures HeadCovers(NoteAll(heads, records), r) {
        assert r in front || r == last;
      }
    }
  }

  // Sync.

  lemma SyncKeepsShape(log: Log)
    requires Shape(log)
    ensures Shape(SyncLog(log)) && SyncLog(log).total == log.total && SyncLog(log).pending == []
    ensures SyncLog(log).Active().id == log.Active().id && SyncLog(log).Active().size == log.Active().size
    ensures SyncLog(log).Active().durableSize == SyncLog(log).Active().size
  {
    if log.unsynced != 0 {
      var after := SyncLog(log);
      TotalSizeWithActive(log, after.Active());
      assert after.segments[..|after.segments| - 1] == log.segments[..|log.segments| - 1];
    }
  }

  lemma SyncKeepsReadable(f: Format, log: Log)
    requires f.Valid() && log.Open() && Readable(f, log) && log.unsynced == |log.pending|
    ensures Readable(f, SyncLog(log))
  {
    if log.unsynced != 0 {
      var active := log.Active();
      ScanConcat(f, active.file.data, log.buffer);
      assert Holds(f, active.file.data + log.buffer, active.records + log.pending);
      assert Holds(f, [], []);
    }
  }

  lemma SyncKeepsSized(log: Log)
    requires Shape(log) && Sized(log)
    ensures Sized(SyncLog(log))
  {
    if log.unsynced != 0 {
      var after := SyncLog(log);
      assert after.segments[..|after.segments| - 1] == log.segments[..|log.segments| - 1];
    }
  }

  lemma SyncKeepsCovered(log: Log)
    requires Covered(log)
    ensures Covered(SyncLog(log))
  {
    if log.unsynced != 0 {
      var active := log.Active();
      assert ManifestCovers(active);
      assert ManifestCovers(SyncLog(log).Active());
    }
  }

  lemma SyncKeepsIndexed(log: Log)
    requires log.Open() && Indexed(log)
    ensures Indexed(SyncLog(log))
  {
    if log.unsynced != 0 {
      NoteAllCovers(log.heads, log.pending);
      var after := SyncLog(log);
      forall s | s in after.segments ensures HeadsCover(after.heads, s.records) {
        assert s in log.segments || s == after.Active();
        forall r | r in s.records ensures HeadCovers(after.heads, r) {
          assert s in log.segments || r in log.Active().records || r in log.pending;
        }
      }
    }
  }

  /** Syncing moves the pending records to the durable ones and changes nothing else a reader sees. */
  lemma SyncMovesPending(log: Log)
    requires log.Open() && log.unsynced == |log.pending|
    ensures Durable(SyncLog(log)) == Durable(log) + log.pending
    ensures SyncLog(log).pending == []
  {
    if log.unsynced != 0 {
      var front, active := log.segments[..|log.segments| - 1], log.Active();
      assert front + [active] == log.segments;
      RecordsInSnoc(front, active);
      RecordsInSnoc(front, SyncLog(log).Active());
      assert RecordsIn(front) + (active.records + log.pending) == RecordsIn(front) + active.records + log.pending;
    }
  }

  // Rotation.

  lemma RotateKeepsShape(log: Log)
    requires Shape(log)
    ensures Shape(RotateLog(log)) && RotateLog(log).total == log.total && RotateLog(log).pending == []
  {
    SyncKeepsShape(log);
    AddEmptyKeepsShape(SyncLog(log));
  }

  lemma RotateStartsEmpty(log: Log)
    requires log.Open()
    ensures RotateLog(log).Active() == EmptySegment(SyncLog(log).Active().id + 1)
    ensures RotateLog(log).segments[..|RotateLog(log).segments| - 1] == SyncLog(log).segments
  {
  }

  lemma AllDurable(log: Log)
    requires Shape(log) && log.buffer == []
    ensures forall s <- log.segments :: s.size == s.durableSize
  {
    forall s | s in log.segments ensures s.size == s.durableSize {
      assert s in log.segments[..|log.segments| - 1] || s == log.Active();
    }
  }

  lemma AddEmptyKeepsShape(log: Log)
    requires Shape(log) && log.buffer == [] && log.pending == []
    ensures Shape(WithNextSegment(log))
    ensures WithNextSegment(log).total == log.total && WithNextSegment(log).pending == []
  {
    var next := EmptySegment(log.Active().id + 1);
    var after := log.segments + [next];
    TotalSizeSnoc(log.segments, next);
    AllDurable(log);
    assert after[..|after| - 1] == log.segments;
  }

  lemma RotateKeepsReadable(f: Format, log: Log)
    requires f.Valid() && log.Open() && Readable(f, log) && log.unsynced == |log.pending|
    ensures Readable(f, RotateLog(log))
  {
    SyncKeepsReadable(f, log);
    assert Holds(f, [], []);
  }

  lemma RotateKeepsSized(log: Log)
    requires Shape(log) && Sized(log) && 0 <= log.cfg.segmentSize
    ensures Sized(RotateLog(log))
  {
    SyncKeepsShape(log);
    SyncKeepsSized(log);
    RotateStartsEmpty(log);
    var synced := SyncLog(log);
    forall s | s in synced.segments ensures s.size <= log.cfg.segmentSize || |s.records| == 1 {
      assert s in synced.segments[..|synced.segments| - 1] || s == synced.Active();
    }
  }

  lemma RotateMovesPending(log: Log)
    requires log.Open() && log.unsynced == |log.pending|
    ensures Durable(RotateLog(log)) == Durable(log) + log.pending
  {
    SyncMovesPending(log);
    RecordsInSnoc(SyncLog(log).segments, EmptySegment(SyncLog(log).Active().id + 1));
  }

  // Writing one frame.

  lemma WriteKeepsShape(f: Format, log: Log, record: Record, priority: Priority)
    requires Shape(log)
    ensures Shape(WriteLog(f, log, record, priority))
  {
    var after := WriteLog(f, log, record, priority);
    TotalSizeWithActive(log, after.Active());
    assert after.segments[..|after.segments| - 1] == log.segments[..|log.segments| - 1];
  }

  /** Appending keeps the log readable exactly when the frame reads back. */
  lemma WriteKeepsReadable(f: Format, log: Log, record: Record, priority: Priority)
    requires f.Valid() && log.Open() && Readable(f, log) && f.legal(record)
    ensures Readable(f, WriteLog(f, log, record, priority))
  {
    OneFrameHolds(f, record, priority);
    ScanConcat(f, log.buffer, f.frame(record, priority));
  }

  lemma WriteKeepsSized(f: Format, log: Log, record: Record, priority: Priority)
    requires f.Valid() && Shape(log) && Sized(log) && !NeedsRotation(log, |f.frame(record, priority)|)
    ensures Sized(WriteLog(f, log, record, priority))
  {
    assert f.NonEmptyAt(record, priority);
    var after := WriteLog(f, log, record, priority);
    assert after.segments[..|after.segments| - 1] == log.segments[..|log.segments| - 1];
  }

  lemma WriteKeepsCovered(f: Format, log: Log, record: Record, priority: Priority)
    requires Covered(log)
    ensures Covered(WriteLog(f, log, record, priority))
  {
    var old_, new_ := log.Active().ranges, AddRecordRange(log.Active().ranges, record);
    forall r | Covers(old_, r) || r == record ensures Covers(new_, r) {
      AddRecordRangeCovers(old_, record, r);
    }
    assert ManifestCovers(log.Active());
    assert ManifestCovers(WriteLog(f, log, record, priority).Active());
  }

  lemma WriteKeepsIndexed(f: Format, log: Log, record: Record, priority: Priority)
    requires log.Open() && Indexed(log)
    ensures Indexed(WriteLog(f, log, record, priority))
  {
  }

  lemma WriteAddsPending(f: Format, log: Log, record: Record, priority: Priority)
    requires log.Open()
    ensures Durable(WriteLog(f, log, record, priority)) == Durable(log)
  {
    var after := WriteLog(f, log, record, priority);
    var front := log.segments[..|log.segments| - 1];
    assert front + [log.Active()] == log.segments;
    RecordsInSnoc(front, log.Active());
    RecordsInSnoc(front, after.Active());
  }

  // Append: every branch.

  lemma ReadyKeepsShape(log: Log, frameSize: nat)
    requires Shape(log)
    ensures Shape(ReadyLog(log, frameSize))
    ensures ReadyLog(log, frameSize).total == log.total
  {
    if NeedsRotation(log, frameSize) {
      RotateKeepsShape(log);
    }
  }

  /** Structure survives every append, whatever the record. */
  lemma AppendKeepsShape(f: Format, log: Log, record: Record, priority: Priority)
    requires Shape(log)
    ensures Shape(AppendLog(f, log, record, priority))
    ensures AppendLog(f, log, record, priority).total
         == log.total + if Accepts(f, log, record, priority) then |f.frame(record, priority)| else 0
  {
    var ready := ReadyLog(log, |f.frame(record, priority)|);
    ReadyKeepsShape(log, |f.frame(record, priority)|);
    WriteKeepsShape(f, ready, record, priority);
    SyncKeepsShape(WriteLog(f, ready, record, priority));
  }

  lemma ReadyKeepsSized(log: Log, frameSize: nat)
    requires Shape(log) && Sized(log) && 0 <= log.cfg.segmentSize
    ensures Sized(ReadyLog(log, frameSize)) && !NeedsRotation(ReadyLog(log, frameSize), frameSize)
  {
    if NeedsRotation(log, frameSize) {
      RotateStartsEmpty(log);
      RotateKeepsSized(log);
    }
  }

  lemma AppendKeepsSized(f: Format, log: Log, record: Record, priority: Priority)
    requires f.Valid() && Shape(log) && Sized(log) && log.cfg.Normal()
    ensures Sized(AppendLog(f, log, record, priority))
  {
    if Accepts(f, log, record, priority) {
      ReadyKeepsShape(log, |f.frame(record, priority)|);
      ReadyKeepsSized(log, |f.frame(record, priority)|);
      WriteSyncKeepsSized(f, ReadyLog(log, |f.frame(record, priority)|), record, priority);
    }
  }

  lemma WriteSyncKeepsSized(f: Format, log: Log, record: Record, priority: Priority)
    requires f.Valid() && Shape(log) && Sized(log) && !NeedsRotation(log, |f.frame(record, priority)|)
    ensures Sized(SyncIfDue(WriteLog(f, log, record, priority)))
  {
    WriteKeepsShape(f, log, record, priority);
    WriteKeepsSized(f, log, record, priority);
    SyncIfDueKeepsSized(WriteLog(f, log, record, priority));
  }

  lemma SyncIfDueKeepsSized(log: Log)
    requires Shape(log) && Sized(log)
    ensures Sized(SyncIfDue(log))
  {
    SyncKeepsSized(log);
  }

  lemma SyncKeepsSound(log: Log)
    requires Sound(log)
    ensures Sound(SyncLog(log))
  {
    SyncKeepsShape(log);
    SyncKeepsCovered(log);
    SyncKeepsIndexed(log);
  }

  lemma SyncKeepsInv(f: Format, log: Log)
    requires f.Valid() && Inv(f, log)
    ensures Inv(f, SyncLog(log))
  {
    SyncKeepsSound(log);
    SyncKeepsReadable(f, log);
  }

  lemma ReadyKeepsSound(log: Log, frameSize: nat)
    requires Sound(log)
    ensures Sound(ReadyLog(log, frameSize))
  {
    if NeedsRotation(log, frameSize) {
      RotateKeepsShape(log);
      SyncKeepsCovered(log);
      SyncKeepsIndexed(log);
    }
  }

  lemma ReadyKeepsReadable(f: Format, log: Log, frameSize: nat)
    requires f.Valid() && log.Open() && Readable(f, log) && log.unsynced == |log.pending|
    ensures Readable(f, ReadyLog(log, frameSize))
  {
    if NeedsRotation(log, frameSize) {
      RotateKeepsReadable(f, log);
    }
  }

  lemma WriteKeepsSound(f: Format, log: Log, record: Record, priority: Priority)
    requires Sound(log)
    ensures Sound(WriteLog(f, log, record, priority))
  {
    WriteKeepsShape(f, log, record, priority);
    WriteKeepsCovered(f, log, record, priority);
    WriteKeepsIndexed(f, log, record, priority);
  }

  /** Every append, whatever the record and its payload, keeps structure, manifests and heads. */
  lemma AppendKeepsSound(f: Format, log: Log, record: Record, priority: Priority)
    requires Sound(log)
    ensures Sound(AppendLog(f, log, record, priority))
  {
    if Accepts(f, log, record, priority) {
      var ready := ReadyLog(log, |f.frame(record, priority)|);
      ReadyKeepsSound(log, |f.frame(record, priority)|);
      WriteKeepsSound(f, ready, record, priority);
      SyncIfDueKeepsSound(WriteLog(f, ready, record, priority));
    }
  }

  lemma SyncIfDueKeepsSound(log: Log)
    requires Sound(log)
    ensures Sound(SyncIfDue(log))
  {
    SyncKeepsSound(log);
  }

  lemma AppendKeepsReadable(f: Format, log: Log, record: Record, priority: Priority)
    requires f.Valid() && log.Open() && Readable(f, log) && log.unsynced == |log.pending| && f.legal(record)
    ensures Readable(f, AppendLog(f, log, record, priority))
  {
    if Accepts(f, log, record, priority) {
      var ready := ReadyLog(log, |f.frame(record, priority)|);
      ReadyKeepsReadable(f, log, |f.frame(record, priority)|);
      ReadyKeepsRecords(log, |f.frame(record, priority)|);
      WriteKeepsReadable(f, ready, record, priority);
      SyncIfDueKeepsReadable(f, WriteLog(f, ready, record, priority));
    }
  }

  lemma SyncIfDueKeepsReadable(f: Format, log: Log)
    requires f.Valid() && log.Open() && Readable(f, log) && log.unsynced == |log.pending|
    ensures Readable(f, SyncIfDue(log))
  {
    SyncKeepsReadable(f, log);
  }

  lemma AppendKeepsInv(f: Format, log: Log, record: Record, priority: Priority)
    requires f.Valid() && Inv(f, log) && f.legal(record)
    ensures Inv(f, AppendLog(f, log, record, priority))
  {
    AppendKeepsSound(f, log, record, priority);
    AppendKeepsReadable(f, log, record, priority);
  }

  /** All records the log holds, durable first. */
  function Everything(log: Log): seq<Record> {
    Durable(log) + log.pending
  }

  lemma ReadyKeepsRecords(log: Log, frameSize: nat)
    requires log.Open() && log.unsynced == |log.pending|
    ensures Everything(ReadyLog(log, frameSize)) == Everything(log)
    ensures Durable(log) <= Durable(ReadyLog(log, frameSize))
    ensures ReadyLog(log, frameSize).unsynced == |ReadyLog(log, frameSize).pending|
  {
    if NeedsRotation(log, frameSize) {
      RotateMovesPending(log);
      SyncMovesPending(log);
    }
  }

  lemma SyncKeepsRecords(log: Log)
    requires log.Open() && log.unsynced == |log.pending|
    ensures Everything(SyncLog(log)) == Everything(log)
    ensures Durable(log) <= Durable(SyncLog(log))
  {
    SyncMovesPending(log);
  }

  /** An accepted record joins the end of the log; a refused one changes nothing. What was
      durable stays so, in order, and only pending records become durable. */
  lemma AppendExtendsLog(f: Format, log: Log, record: Record, priority: Priority)
    requires log.Open() && log.unsynced == |log.pending|
    ensures var after := AppendLog(f, log, record, priority);
            && Everything(after) == Everything(log) + (if Accepts(f, log, record, priority) then [record] else [])
            && Durable(log) <= Durable(after)
  {
    if Accepts(f, log, record, priority) {
      var ready := ReadyLog(log, |f.frame(record, priority)|);
      ReadyKeepsRecords(log, |f.frame(record, priority)|);
      var written := WriteLog(f, ready, record, priority);
      WriteAddsPending(f, ready, record, priority);
      assert Everything(written) == Everything(ready) + [record];
      SyncKeepsRecords(written);
    } else {
      assert Everything(log) + [] == Everything(log);
    }
  }
}
