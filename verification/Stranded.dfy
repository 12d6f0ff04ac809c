/** A run that ends with a synced record in a segment that a power loss takes as a whole. */
module Stranded {
  import opened Proto
  import opened Scanning
  import opened WalLog
  import opened LogInvariants
  import opened Recovery
  import opened Quarantine
  import opened PowerLoss
  import opened PowerRuns
  import LogRuns

  /** One segment with these bytes and records, and what is buffered behind them. */
  predicate At(d: Disk, cfg: Config, data: seq<byte>, records: seq<Record>, buffer: seq<byte>, pending: seq<Record>) {
    && d.log.cfg == cfg && |d.log.segments| == 1
    && d.log.segments[0].id == 1 && d.log.segments[0].file.data == data && d.log.segments[0].records == records
    && d.log.segments[0].size == |data| + |buffer| == d.log.total
    && d.log.buffer == buffer && d.log.pending == pending && d.log.unsynced == |pending|
  }

  lemma WriteAt(f: Format, d: Disk, cfg: Config, data: seq<byte>, records: seq<Record>, r: Record)
    requires At(d, cfg, data, records, [], [])
    ensures var after := WriteDisk(f, d, r, P0Critical);
            At(after, cfg, data, records, f.frame(r, P0Critical), [r]) && after.forced == d.forced
  {
    assert [] + f.frame(r, P0Critical) == f.frame(r, P0Critical);
  }

  /** Neither refused, nor rotated before, nor synced after. */
  lemma AppendOnlyWrites(f: Format, d: Disk, r: Record)
    requires d.log.Open() && d.log.cfg.Normal() && d.log.unsynced + 1 < d.log.cfg.fsyncRecords
    requires d.log.total + |f.frame(r, P0Critical)| < d.log.cfg.maxSize
    requires !NeedsRotation(d.log, |f.frame(r, P0Critical)|)
    ensures AppendDisk(f, d, r, P0Critical) == WriteDisk(f, d, r, P0Critical)
  {
    LogRuns.CriticalRefusedOnlyWhenFull(d.log.cfg, d.log.total, |f.frame(r, P0Critical)|, P0Critical);
  }

  lemma AppendAt(f: Format, d: Disk, cfg: Config, data: seq<byte>, records: seq<Record>, r: Record)
    requires cfg.Normal() && cfg.fsyncRecords > 1 && At(d, cfg, data, records, [], [])
    requires |data| + |f.frame(r, P0Critical)| < cfg.maxSize
    requires |data| == 0 || |data| + |f.frame(r, P0Critical)| <= cfg.segmentSize
    ensures var after := AppendDisk(f, d, r, P0Critical);
            At(after, cfg, data, records, f.frame(r, P0Critical), [r]) && after.forced == d.forced
  {
    AppendOnlyWrites(f, d, r);
    WriteAt(f, d, cfg, data, records, r);
  }

  lemma SyncAt(d: Disk, cfg: Config, data: seq<byte>, records: seq<Record>, buffer: seq<byte>, pending: seq<Record>)
    requires At(d, cfg, data, records, buffer, pending) && pending != []
    ensures var after := SyncDisk(d);
            At(after, cfg, data + buffer, records + pending, [], []) && after.forced == d.forced - {1}
  {
  }

  lemma KilledSegment(f: Format, log: Log)
    requires f.Valid() && Inv(f, log) && |log.segments| == 1
    ensures var s := log.segments[0];
            CrashedLog(f, log, |log.buffer|).segments
            == [Reopened(s.id, s.file.data + log.buffer, s.records + log.pending)]
  {
    CrashedSegments(f, log, |log.buffer|);
    assert log.buffer[..|log.buffer|] == log.buffer;
    assert log.segments[..0] == [] && ReopenedAll(log.segments[..0]) == [];
  }

  lemma OneSegmentSize(log: Log, s: Segment)
    requires Shape(log) && log.segments == [s]
    ensures log.total == s.size
  {
    assert log.segments[0] == s && log.segments[1..] == [];
    assert TotalSize(log.segments) == s.size + TotalSize(log.segments[1..]);
  }

  lemma KilledLog(f: Format, log: Log)
    requires f.Valid() && Inv(f, log) && |log.segments| == 1
    ensures var s, after := log.segments[0], CrashedLog(f, log, |log.buffer|);
            && after.segments == [Reopened(s.id, s.file.data + log.buffer, s.records + log.pending)]
            && after.total == |s.file.data| + |log.buffer| && after.cfg == log.cfg
            && after.buffer == [] && after.pending == [] && after.unsynced == 0 && Inv(f, after)
  {
    KilledSegment(f, log);
    CrashDurability(f, log, |log.buffer|);
    OneSegmentSize(CrashedLog(f, log, |log.buffer|), CrashedLog(f, log, |log.buffer|).segments[0]);
  }

  lemma KillAt(f: Format, d: Disk, cfg: Config, data: seq<byte>, records: seq<Record>, buffer: seq<byte>,
               pending: seq<Record>)
    requires f.Valid() && Inv(f, d.log) && At(d, cfg, data, records, buffer, pending) && d.forced == map[]
    ensures var after := KillDisk(f, d, |buffer|);
            && At(after, cfg, data + buffer, records + pending, [], []) && after.forced == map[1 := |data|]
            && Inv(f, after.log)
  {
    KilledLog(f, d.log);
  }

  /** Two segments: the old one as it was, and one frame in the new one. */
  predicate Rotated(d: Disk, old_: Segment, data: seq<byte>, records: seq<Record>, buffer: seq<byte>,
                    pending: seq<Record>) {
    && |d.log.segments| == 2 && d.log.segments[0] == old_
    && d.log.segments[1].id == 2 && d.log.segments[1].file.data == data && d.log.segments[1].records == records
    && d.log.buffer == buffer && d.log.pending == pending && d.log.unsynced == |pending|
  }

  lemma RotateAt(f: Format, d: Disk, cfg: Config, data: seq<byte>, records: seq<Record>, r: Record)
    requires cfg.Normal() && cfg.fsyncRecords > 1 && At(d, cfg, data, records, [], []) && data != []
    requires |data| + |f.frame(r, P0Critical)| < cfg.maxSize
    requires |data| + |f.frame(r, P0Critical)| > cfg.segmentSize
    ensures var after := AppendDisk(f, d, r, P0Critical);
            && Rotated(after, d.log.segments[0], [], [], f.frame(r, P0Critical), [r]) && after.forced == d.forced
  {
    assert [] + f.frame(r, P0Critical) == f.frame(r, P0Critical);
  }

  lemma SyncRotated(d: Disk, old_: Segment, buffer: seq<byte>, pending: seq<Record>)
    requires Rotated(d, old_, [], [], buffer, pending) && pending != []
    ensures Rotated(SyncDisk(d), old_, buffer, pending, [], []) && SyncDisk(d).forced == d.forced - {2}
  {
    assert [] + buffer == buffer && [] + pending == pending;
  }

  // The run.

  /** Room for two frames in a segment and for three in the log; positive settings throughout. */
  function TwoFrames(f: Format, r1: Record, r2: Record, r3: Record): Config {
    var two := |f.frame(r1, P0Critical)| + |f.frame(r2, P0Critical)|;
    Config(two, two + |f.frame(r3, P0Critical)| + 2, DEFAULT_FSYNC_RECORDS, 1)
  }

  function Opened(f: Format, r1: Record, r2: Record, r3: Record): Disk
    requires f.Valid()
  {
    Disk(OpenLog(f, TwoFrames(f, r1, r2, r3), []), map[])
  }

  /** The first record is synced. */
  function Synced(r1: Record): seq<PowerRuns.Event> {
    [Append(r1, P0Critical), Sync]
  }

  /** A second one reaches the file unsynced when the process dies; the third one rotates. */
  function KilledAndRotated(f: Format, r2: Record, r3: Record): seq<PowerRuns.Event> {
    [Append(r2, P0Critical), Kill(|f.frame(r2, P0Critical)|), Append(r3, P0Critical), Sync]
  }

  lemma OpenedAt(f: Format, cfg: Config)
    requires f.Valid()
    ensures var d := Disk(OpenLog(f, cfg, []), map[]); At(d, cfg, [], [], [], []) && Inv(f, d.log)
  {
    OpenLogInv(f, cfg, []);
  }

  lemma SyncedSteps(f: Format, d: Disk, cfg: Config, r1: Record)
    requires f.Valid() && f.legal(r1) && cfg.Normal() && cfg.fsyncRecords > 1
    requires At(d, cfg, [], [], [], []) && d.forced == map[] && Inv(f, d.log)
    requires |f.frame(r1, P0Critical)| < cfg.maxSize
    ensures var after := Next(f, Next(f, d, Append(r1, P0Critical)), Sync);
            && At(after, cfg, f.frame(r1, P0Critical), [r1], [], []) && after.forced == map[] && Inv(f, after.log)
  {
    AppendAt(f, d, cfg, [], [], r1);
    AppendKeepsInv(f, d.log, r1, P0Critical);
    var written := Next(f, d, Append(r1, P0Critical));
    SyncAt(written, cfg, [], [], f.frame(r1, P0Critical), [r1]);
    SyncKeepsInv(f, written.log);
    assert [] + f.frame(r1, P0Critical) == f.frame(r1, P0Critical);
  }

  lemma {:induction false} RunTwo(f: Format, d: Disk, r1: Record)
    requires f.Valid() && d.log.Open()
    ensures Run(f, d, Synced(r1)) == Next(f, Next(f, d, Append(r1, P0Critical)), Sync)
  {
    var one := Next(f, d, Append(r1, P0Critical));
    calc {
      Run(f, d, Synced(r1));
      { assert Synced(r1)[1..] == [Sync]; }
      Run(f, one, [Sync]);
      { assert [PowerRuns.Event.Sync][1..] == []; }
      Run(f, Next(f, one, Sync), []);
    }
  }

  lemma {:induction false} SyncedState(f: Format, r1: Record, r2: Record, r3: Record)
    requires f.Valid() && f.legal(r1)
    ensures var d := Run(f, Opened(f, r1, r2, r3), Synced(r1));
            && At(d, TwoFrames(f, r1, r2, r3), f.frame(r1, P0Critical), [r1], [], []) && d.forced == map[]
            && Inv(f, d.log)
  {
    assert f.NonEmptyAt(r1, P0Critical);
    OpenedAt(f, TwoFrames(f, r1, r2, r3));
    SyncedSteps(f, Opened(f, r1, r2, r3), TwoFrames(f, r1, r2, r3), r1);
    RunTwo(f, Opened(f, r1, r2, r3), r1);
  }

  lemma WrittenState(f: Format, d: Disk, r1: Record, r2: Record, r3: Record)
    requires f.Valid() && f.legal(r2) && Inv(f, d.log)
    requires At(d, TwoFrames(f, r1, r2, r3), f.frame(r1, P0Critical), [r1], [], [])
    ensures var written := Next(f, d, Append(r2, P0Critical));
            && At(written, TwoFrames(f, r1, r2, r3), f.frame(r1, P0Critical), [r1], f.frame(r2, P0Critical), [r2])
            && written.forced == d.forced && Inv(f, written.log)
  {
    assert f.NonEmptyAt(r1, P0Critical);
    AppendAt(f, d, TwoFrames(f, r1, r2, r3), f.frame(r1, P0Critical), [r1], r2);
    AppendKeepsInv(f, d.log, r2, P0Critical);
  }

  lemma KillNext(f: Format, d: Disk, cfg: Config, data: seq<byte>, records: seq<Record>, buffer: seq<byte>,
                 pending: seq<Record>)
    requires f.Valid() && Inv(f, d.log) && At(d, cfg, data, records, buffer, pending) && d.forced == map[]
    ensures var after := Next(f, d, Kill(|buffer|));
            && At(after, cfg, data + buffer, records + pending, [], []) && after.forced == map[1 := |data|]
            && Inv(f, after.log)
  {
    KillAt(f, d, cfg, data, records, buffer, pending);
  }

  lemma KilledState(f: Format, d: Disk, r1: Record, r2: Record, r3: Record)
    requires f.Valid() && f.legal(r2) && Inv(f, d.log) && d.forced == map[]
    requires At(d, TwoFrames(f, r1, r2, r3), f.frame(r1, P0Critical), [r1], [], [])
    ensures var killed := Next(f, Next(f, d, Append(r2, P0Critical)), Kill(|f.frame(r2, P0Critical)|));
            && At(killed, TwoFrames(f, r1, r2, r3), f.frame(r1, P0Critical) + f.frame(r2, P0Critical), [r1, r2], [], [])
            && killed.forced == map[1 := |f.frame(r1, P0Critical)|] && Inv(f, killed.log)
  {
    WrittenState(f, d, r1, r2, r3);
    KillNext(f, Next(f, d, Append(r2, P0Critical)), TwoFrames(f, r1, r2, r3), f.frame(r1, P0Critical), [r1],
             f.frame(r2, P0Critical), [r2]);
    assert [r1] + [r2] == [r1, r2];
  }

  lemma RotatedInv(f: Format, d: Disk, r3: Record)
    requires f.Valid() && f.legal(r3) && Inv(f, d.log)
    ensures Inv(f, Next(f, Next(f, d, Append(r3, P0Critical)), Sync).log)
  {
    AppendKeepsInv(f, d.log, r3, P0Critical);
    SyncKeepsInv(f, Next(f, d, Append(r3, P0Critical)).log);
  }

  lemma RotatedState(f: Format, d: Disk, r1: Record, r2: Record, r3: Record)
    requires f.Valid() && d.forced == map[1 := |f.frame(r1, P0Critical)|]
    requires At(d, TwoFrames(f, r1, r2, r3), f.frame(r1, P0Critical) + f.frame(r2, P0Critical), [r1, r2], [], [])
    ensures var end := Next(f, Next(f, d, Append(r3, P0Critical)), Sync);
            && Rotated(end, d.log.segments[0], f.frame(r3, P0Critical), [r3], [], [])
            && end.forced == map[1 := |f.frame(r1, P0Critical)|]
  {
    assert f.NonEmptyAt(r1, P0Critical) && f.NonEmptyAt(r3, P0Critical);
    RotateAt(f, d, TwoFrames(f, r1, r2, r3), f.frame(r1, P0Critical) + f.frame(r2, P0Critical), [r1, r2], r3);
    SyncRotated(Next(f, d, Append(r3, P0Critical)), d.log.segments[0], f.frame(r3, P0Critical), [r3]);
  }

  lemma {:induction false} RunFour(f: Format, d: Disk, r2: Record, r3: Record)
    requires f.Valid() && d.log.Open()
    ensures Run(f, d, KilledAndRotated(f, r2, r3))
         == Next(f, Next(f, Next(f, Next(f, d, Append(r2, P0Critical)), Kill(|f.frame(r2, P0Critical)|)),
                         Append(r3, P0Critical)), Sync)
  {
    var events := KilledAndRotated(f, r2, r3);
    var one := Next(f, d, events[0]);
    var two := Next(f, one, events[1]);
    var three := Next(f, two, events[2]);
    assert events[1..][1..] == events[2..] && events[2..][1..] == events[3..] && events[3..][1..] == [];
    calc {
      Run(f, d, events);
      Run(f, one, events[1..]);
      Run(f, two, events[2..]);
      Run(f, three, events[3..]);
      Run(f, Next(f, three, events[3]), []);
    }
  }

  /** The first frame and one byte of the second: torn, behind the first record. */
  lemma {:induction false} TornBehindFirst(f: Format, r1: Record, r2: Record)
    requires f.Valid() && LongFrames(f) && f.legal(r1) && f.legal(r2)
    ensures var a, b := f.frame(r1, P0Critical), f.frame(r2, P0Critical);
            |b| > 1 && Scan(f, (a + b)[..|a| + 1]).status == Torn
  {
    var a, b := f.frame(r1, P0Critical), f.frame(r2, P0Critical);
    OneFrameHolds(f, r1, P0Critical);
    assert f.ReadsBackAt(r2, P0Critical, []);
    assert b + [] == b;
    assert f.BoundedAt(b) && f.LocalAt(b, b[..1]);
    ScanConcat(f, a, b[..1]);
    assert (a + b)[..|a| + 1] == a + b[..1];
  }

  /** The records of a recovered log come from the segments it was recovered from. */
  lemma OnlyTheseFiles(f: Format, cfg: Config, files: seq<FoundFile>, r: Record)
    requires f.Valid() && AscendingFiles(files) && r in Durable(OpenLog(f, cfg, files))
    ensures exists i | 0 <= i < |files| :: StillIn(OpenLog(f, cfg, files), files[i].id, r)
  {
    var log := OpenLog(f, cfg, files);
    RecoverUpToSettles(f, cfg, files, |files|);
    assert files[..|files|] == files;
    InRecordsIn(log.segments, r);
    var s :| s in log.segments && r in s.records;
    var i :| 0 <= i < |files| && files[i].id == s.id;
    assert StillIn(log, files[i].id, r);
  }

  lemma OldSegmentGone(f: Format, d: Disk, cuts: seq<nat>, old_: Segment, r1: Record, r2: Record,
                       third: seq<byte>, rest: seq<Record>)
    requires f.Valid() && LongFrames(f) && f.legal(r1) && f.legal(r2) && Inv(f, d.log)
    requires old_.id == 1 && old_.records == [r1, r2]
    requires old_.file.data == f.frame(r1, P0Critical) + f.frame(r2, P0Critical)
    requires Rotated(d, old_, third, rest, [], []) && Possible(d, cuts)
    requires cuts[0] == |f.frame(r1, P0Critical)| + 1
    ensures !StillIn(LosePower(f, d, cuts).log, 1, r1)
  {
    TornBehindFirst(f, r1, r2);
    LeftSegment(f, d, cuts, 0);
  }

  lemma NewSegmentStays(f: Format, d: Disk, cuts: seq<nat>, old_: Segment, r3: Record, r: Record)
    requires f.Valid() && f.legal(r3) && Inv(f, d.log)
    requires Rotated(d, old_, f.frame(r3, P0Critical), [r3], [], []) && Possible(d, cuts)
    requires cuts[1] == |f.frame(r3, P0Critical)|
    ensures StillIn(LosePower(f, d, cuts).log, 2, r) <==> r == r3
  {
    OneFrameHolds(f, r3, P0Critical);
    assert (f.frame(r3, P0Critical) + [])[..|f.frame(r3, P0Critical)|] == f.frame(r3, P0Critical);
    LeftSegment(f, d, cuts, 1);
  }

  lemma StrandedRecordLost(f: Format, d: Disk, old_: Segment, r1: Record, r2: Record, r3: Record)
    requires f.Valid() && LongFrames(f) && f.legal(r1) && f.legal(r2) && f.legal(r3) && r1 != r3
    requires Inv(f, d.log) && d.forced == map[1 := |f.frame(r1, P0Critical)|]
    requires old_.id == 1 && old_.records == [r1, r2]
    requires old_.file.data == f.frame(r1, P0Critical) + f.frame(r2, P0Critical)
    requires Rotated(d, old_, f.frame(r3, P0Critical), [r3], [], [])
    ensures var cuts := [|f.frame(r1, P0Critical)| + 1, |f.frame(r3, P0Critical)|];
            && r1 in Durable(d.log) && Possible(d, cuts) && r1 !in Durable(LosePower(f, d, cuts).log)
  {
    var cuts := [|f.frame(r1, P0Critical)| + 1, |f.frame(r3, P0Critical)|];
    InRecordsIn(d.log.segments, r1);
    TornBehindFirst(f, r1, r2);
    assert Possible(d, cuts);
    OldSegmentGone(f, d, cuts, old_, r1, r2, f.frame(r3, P0Critical), [r3]);
    NewSegmentStays(f, d, cuts, old_, r3, r1);
    LeftFilesAscend(d, cuts);
    if r1 in Durable(LosePower(f, d, cuts).log) {
      OnlyTheseFiles(f, d.log.cfg, LeftFiles(d, cuts), r1);
    }
  }

  /** The segment that the rotation leaves behind. */
  predicate LeftBehind(f: Format, s: Segment, r1: Record, r2: Record) {
    s.id == 1 && s.records == [r1, r2] && s.file.data == f.frame(r1, P0Critical) + f.frame(r2, P0Critical)
  }

  lemma FourSteps(f: Format, d: Disk, r1: Record, r2: Record, r3: Record) returns (old_: Segment)
    requires f.Valid() && f.legal(r2) && f.legal(r3) && Inv(f, d.log) && d.forced == map[]
    requires At(d, TwoFrames(f, r1, r2, r3), f.frame(r1, P0Critical), [r1], [], [])
    ensures LeftBehind(f, old_, r1, r2)
    ensures var end := Next(f, Next(f, Next(f, Next(f, d, Append(r2, P0Critical)), Kill(|f.frame(r2, P0Critical)|)),
                                    Append(r3, P0Critical)), Sync);
            && Rotated(end, old_, f.frame(r3, P0Critical), [r3], [], [])
            && end.forced == map[1 := |f.frame(r1, P0Critical)|] && Inv(f, end.log)
  {
    KilledState(f, d, r1, r2, r3);
    var killed := Next(f, Next(f, d, Append(r2, P0Critical)), Kill(|f.frame(r2, P0Critical)|));
    RotatedState(f, killed, r1, r2, r3);
    RotatedInv(f, killed, r3);
    old_ := killed.log.segments[0];
  }

  lemma EndState(f: Format, d: Disk, r1: Record, r2: Record, r3: Record) returns (old_: Segment)
    requires f.Valid() && f.legal(r2) && f.legal(r3) && Inv(f, d.log) && d.forced == map[]
    requires At(d, TwoFrames(f, r1, r2, r3), f.frame(r1, P0Critical), [r1], [], [])
    ensures LeftBehind(f, old_, r1, r2)
    ensures var end := Run(f, d, KilledAndRotated(f, r2, r3));
            && Rotated(end, old_, f.frame(r3, P0Critical), [r3], [], [])
            && end.forced == map[1 := |f.frame(r1, P0Critical)|] && Inv(f, end.log)
  {
    RunFour(f, d, r2, r3);
    old_ := FourSteps(f, d, r1, r2, r3);
  }

  lemma SyncedShown(d: Disk, cfg: Config, data: seq<byte>, r1: Record)
    requires At(d, cfg, data, [r1], [], []) && d.forced == map[]
    ensures d.Tight() && r1 in Durable(d.log)
  {
    InRecordsIn(d.log.segments, r1);
  }

  /** The record is shown while every byte is forced, and is still shown after these events; but
      what a power loss leaves then does not have it. */
  predicate LosesShown(f: Format, d: Disk, events: seq<PowerRuns.Event>, cuts: seq<nat>, r: Record)
    requires f.Valid() && d.log.Open()
  {
    var end := Run(f, d, events);
    && d.Tight() && r in Durable(d.log) && r in Durable(end.log)
    && Possible(end, cuts) && r !in Durable(LosePower(f, end, cuts).log)
  }

  lemma LostAfterwards(f: Format, synced: Disk, r1: Record, r2: Record, r3: Record)
    requires f.Valid() && LongFrames(f) && f.legal(r1) && f.legal(r2) && f.legal(r3) && r1 != r3
    requires Inv(f, synced.log) && synced.forced == map[]
    requires At(synced, TwoFrames(f, r1, r2, r3), f.frame(r1, P0Critical), [r1], [], [])
    ensures LosesShown(f, synced, KilledAndRotated(f, r2, r3),
                       [|f.frame(r1, P0Critical)| + 1, |f.frame(r3, P0Critical)|], r1)
  {
    SyncedShown(synced, TwoFrames(f, r1, r2, r3), f.frame(r1, P0Critical), r1);
    var old_ := EndState(f, synced, r1, r2, r3);
    StrandedRecordLost(f, Run(f, synced, KilledAndRotated(f, r2, r3)), old_, r1, r2, r3);
  }

  /** From an empty directory, with settings that normalising leaves alone: a record is synced
      and every byte forced; a second one reaches the file before the process dies; a third one
      rotates. The first record is still shown, its bytes are forced, and a power loss takes it. */
  lemma {:induction false} SyncedRecordIsLost(f: Format, r1: Record, r2: Record, r3: Record)
    requires f.Valid() && LongFrames(f) && f.legal(r1) && f.legal(r2) && f.legal(r3) && r1 != r3
    ensures Normalize(TwoFrames(f, r1, r2, r3)) == TwoFrames(f, r1, r2, r3)
    ensures LosesShown(f, Run(f, Opened(f, r1, r2, r3), Synced(r1)), KilledAndRotated(f, r2, r3),
                       [|f.frame(r1, P0Critical)| + 1, |f.frame(r3, P0Critical)|], r1)
  {
    assert f.NonEmptyAt(r1, P0Critical);
    SyncedState(f, r1, r2, r3);
    LostAfterwards(f, Run(f, Opened(f, r1, r2, r3), Synced(r1)), r1, r2, r3);
  }
}
