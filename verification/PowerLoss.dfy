/** Which bytes are forced to disk. Recovery reads files back without forcing them, and a sync
    with nothing to write returns at once, so after a kill readers can be shown bytes that a
    power loss still takes away. */
module PowerLoss {
  import opened Proto
  import opened Scanning
  import opened WalLog
  import opened LogInvariants
  import opened Recovery
  import opened Quarantine
  import Frames

  /** `forced` says how many bytes of a segment file are on disk for certain; all of them when
      it says nothing. */
  datatype Disk = Disk(log: Log, forced: map<nat, nat>) {
    function ForcedBytes(s: Segment): (n: nat)
      ensures n <= |s.file.data|
    {
      if s.id in forced && forced[s.id] <= |s.file.data| then forced[s.id] else |s.file.data|
    }

    /** Everything readers have been shown is on disk. */
    predicate Tight() {
      forall s <- log.segments :: ForcedBytes(s) == |s.file.data|
    }

    /** At most the active file has bytes that are not forced. */
    predicate Anchored() {
      forall i | 0 <= i < |log.segments| - 1 :: ForcedBytes(log.segments[i]) == |log.segments[i].file.data|
    }

    predicate Loose(i: nat)
      requires i < |log.segments|
    {
      ForcedBytes(log.segments[i]) < |log.segments[i].file.data|
    }
  }

  // Operations.

  /** Only a sync that has something to write forces the active file. */
  function SyncDisk(d: Disk): (after: Disk)
    requires d.log.Open()
    ensures after.log == SyncLog(d.log)
  {
    Disk(SyncLog(d.log), if d.log.unsynced == 0 then d.forced else d.forced - {d.log.Active().id})
  }

  function ReadyDisk(d: Disk, frameSize: nat): (after: Disk)
    requires d.log.Open()
    ensures after.log == ReadyLog(d.log, frameSize)
  {
    if NeedsRotation(d.log, frameSize) then Disk(RotateLog(d.log), SyncDisk(d).forced) else d
  }

  function WriteDisk(f: Format, d: Disk, record: Record, priority: Priority): (after: Disk)
    requires d.log.Open()
    ensures after.log == WriteLog(f, d.log, record, priority)
  {
    d.(log := WriteLog(f, d.log, record, priority))
  }

  function SyncDiskIfDue(d: Disk): (after: Disk)
    requires d.log.Open()
    ensures after.log == SyncIfDue(d.log)
  {
    if d.log.unsynced >= d.log.cfg.fsyncRecords then SyncDisk(d) else d
  }

  function AppendDisk(f: Format, d: Disk, record: Record, priority: Priority): (after: Disk)
    requires d.log.Open()
    ensures after.log == AppendLog(f, d.log, record, priority)
  {
    if !Accepts(f, d.log, record, priority) then d
    else SyncDiskIfDue(WriteDisk(f, ReadyDisk(d, |f.frame(record, priority)|), record, priority))
  }

  function ReclaimDisk(d: Disk, acknowledged: Record -> bool): (after: Disk)
    requires d.log.Open()
    ensures after.log == ReclaimLog(d.log, acknowledged)
  {
    Disk(ReclaimLog(d.log, acknowledged), SyncDisk(d).forced)
  }

  /** The process dies and starts again: files stay as they are, and `n` bytes of the buffer had
      reached the active one, unforced. */
  function KillDisk(f: Format, d: Disk, n: nat): Disk
    requires f.Valid() && d.log.Open() && n <= |d.log.buffer|
  {
    var active := d.log.Active();
    Disk(CrashedLog(f, d.log, n), d.forced[active.id := d.ForcedBytes(active)])
  }

  /** What a power loss can leave of each file: all that was forced, and some of the rest. */
  predicate Possible(d: Disk, cuts: seq<nat>)
    requires d.log.Open()
  {
    var last := |d.log.segments| - 1;
    && |cuts| == |d.log.segments|
    && (forall i | 0 <= i < last :: d.ForcedBytes(d.log.segments[i]) <= cuts[i] <= |d.log.segments[i].file.data|)
    && d.ForcedBytes(d.log.Active()) <= cuts[last] <= |d.log.Active().file.data| + |d.log.buffer|
  }

  function LeftBytes(d: Disk, cuts: seq<nat>, i: nat): seq<byte>
    requires d.log.Open() && Possible(d, cuts) && i < |cuts|
  {
    if i == |cuts| - 1 then (d.log.Active().file.data + d.log.buffer)[..cuts[i]]
    else d.log.segments[i].file.data[..cuts[i]]
  }

  function LeftFiles(d: Disk, cuts: seq<nat>): seq<FoundFile>
    requires d.log.Open() && Possible(d, cuts)
  {
    CorruptFiles(d.log.segments, seq(|cuts|, i requires 0 <= i < |cuts| => LeftBytes(d, cuts, i)))
  }

  /** What is read back after a power loss is what the disk holds. */
  function LosePower(f: Format, d: Disk, cuts: seq<nat>): Disk
    requires f.Valid() && d.log.Open() && Possible(d, cuts)
  {
    Disk(OpenLog(f, d.log.cfg, LeftFiles(d, cuts)), map[])
  }

  // What of each file is there for certain.

  /** The records in the forced bytes of a segment. */
  function ForcedRecords(f: Format, d: Disk, i: nat): seq<Record>
    requires f.Valid() && i < |d.log.segments|
  {
    Scan(f, d.log.segments[i].file.data[..d.ForcedBytes(d.log.segments[i])]).records
  }

  /** What readers see, without the unforced bytes of the active file. */
  function Firm(f: Format, d: Disk): seq<Record>
    requires f.Valid() && d.log.Open()
  {
    RecordsIn(d.log.segments[..|d.log.segments| - 1]) + ForcedRecords(f, d, |d.log.segments| - 1)
  }

  lemma TightIffAnchored(d: Disk)
    requires d.log.Open()
    ensures d.Tight() <==> d.Anchored() && !d.Loose(|d.log.segments| - 1)
  {
    if d.Tight() {
      forall i | 0 <= i < |d.log.segments| ensures d.ForcedBytes(d.log.segments[i]) == |d.log.segments[i].file.data| {
        assert d.log.segments[i] in d.log.segments;
      }
    }
  }

  lemma SplitLast(log: Log)
    requires log.Open()
    ensures Durable(log) == RecordsIn(log.segments[..|log.segments| - 1]) + log.Active().records
  {
    RecordsInSnoc(log.segments[..|log.segments| - 1], log.Active());
    assert log.segments[..|log.segments| - 1] + [log.Active()] == log.segments;
  }

  lemma FirmWithin(f: Format, d: Disk)
    requires f.Valid() && d.log.Open() && Readable(f, d.log)
    ensures Firm(f, d) <= Durable(d.log)
    ensures !d.Loose(|d.log.segments| - 1) ==> Firm(f, d) == Durable(d.log)
  {
    var active := d.log.Active();
    assert active in d.log.segments;
    ScanCut(f, active.file.data, d.ForcedBytes(active));
    assert active.file.data[..|active.file.data|] == active.file.data;
    SplitLast(d.log);
    PrefixBounds(RecordsIn(d.log.segments[..|d.log.segments| - 1]), ForcedRecords(f, d, |d.log.segments| - 1),
        active.records);
  }

  /** A cut behind the first frame leaves it and cuts the rest; a cut inside it leaves no frame. */
  lemma {:induction false} CutAfterFrame(f: Format, data: seq<byte>, n: nat)
    requires f.Valid() && f.parse(data).Whole? && n <= |data|
    ensures var size := f.parse(data).size;
            if size <= n then f.parse(data[..n]) == f.parse(data) && data[..n][size..] == data[size..][..n - size]
            else Scan(f, data[..n]).records == []
  {
    assert f.BoundedAt(data) && f.LocalAt(data, data[..n]);
    var size := f.parse(data).size;
    if size <= n {
      assert data[..n][..size] == data[..size];
    }
  }

  /** A shorter cut of a clean file gives no more records, and the same ones. */
  lemma {:induction false} ScanNested(f: Format, data: seq<byte>, m: nat, n: nat)
    requires f.Valid() && Scan(f, data).status == Clean && m <= n <= |data|
    ensures Scan(f, data[..m]).records <= Scan(f, data[..n]).records
    decreases |data|
  {
    if m > 0 {
      assert f.BoundedAt(data);
      var size := f.parse(data).size;
      CutAfterFrame(f, data, m);
      CutAfterFrame(f, data, n);
      if size <= m {
        ScanNested(f, data[size..], m - size, n - size);
      }
    }
  }

  // A power loss when at most the active file is loose.

  /** All bytes that were written to the active segment. */
  function ActiveBytes(log: Log): seq<byte>
    requires log.Open()
  {
    log.Active().file.data + log.buffer
  }

  lemma ActiveBytesClean(f: Format, log: Log)
    requires f.Valid() && log.Open() && Readable(f, log)
    ensures Holds(f, ActiveBytes(log), log.Active().records + log.pending)
  {
    assert log.Active() in log.segments;
    ScanConcat(f, log.Active().file.data, log.buffer);
  }

  lemma {:induction false} CutFileKept(f: Format, id: nat, bytes: seq<byte>, manifest: Option<Ranges>, cut: nat)
    requires f.Valid() && Scan(f, bytes).status == Clean && cut <= |bytes|
    ensures var scan := Scan(f, bytes[..cut]);
            var outcome := RecoverFile(f, FoundFile(id, File(bytes[..cut], manifest)), true);
            outcome.Keep? && outcome.segment == Reopened(id, bytes[..scan.valid], scan.records)
  {
    ScanCut(f, bytes, cut);
    assert bytes[..cut][..Scan(f, bytes[..cut]).valid] == bytes[..Scan(f, bytes[..cut]).valid];
  }

  /** Old files as they were, and some of the active one. */
  predicate CutActive(log: Log, files: seq<FoundFile>, cut: nat)
    requires log.Open()
  {
    var last := |log.segments| - 1;
    && |files| == |log.segments| && cut <= |ActiveBytes(log)|
    && (forall i | 0 <= i < last ::
          files[i].id == log.segments[i].id && files[i].file.data == log.segments[i].file.data)
    && files[last].id == log.segments[last].id && files[last].file.data == ActiveBytes(log)[..cut]
  }

  lemma AnchoredLeaves(d: Disk, cuts: seq<nat>)
    requires d.log.Open() && d.Anchored() && Possible(d, cuts)
    ensures CutActive(d.log, LeftFiles(d, cuts), cuts[|cuts| - 1])
  {
    forall i | 0 <= i < |cuts| - 1 ensures LeftFiles(d, cuts)[i].file.data == d.log.segments[i].file.data {
      assert d.log.segments[i].file.data[..cuts[i]] == d.log.segments[i].file.data;
    }
  }

  lemma {:induction false} FrontReopens(f: Format, cfg: Config, files: seq<FoundFile>, front: seq<Segment>)
    requires f.Valid() && CleanUpTo(f, files, front, |front|)
    ensures RecoverUpTo(f, cfg, files, |front|).segments == ReopenedAll(front)
  {
    RecoverClean(f, cfg, files, front, |front|);
    assert front[..|front|] == front;
  }

  lemma CutActiveClean(f: Format, log: Log, files: seq<FoundFile>, cut: nat)
    requires f.Valid() && log.Open() && Readable(f, log) && CutActive(log, files, cut)
    ensures CleanUpTo(f, files, log.segments[..|log.segments| - 1], |log.segments| - 1)
  {
    var front := log.segments[..|log.segments| - 1];
    forall i | 0 <= i < |front| ensures Holds(f, front[i].file.data, front[i].records) {
      assert front[i] == log.segments[i] && log.segments[i] in log.segments;
    }
  }

  lemma {:induction false} CutActiveFront(f: Format, log: Log, files: seq<FoundFile>, cut: nat)
    requires f.Valid() && log.Open() && Readable(f, log) && CutActive(log, files, cut)
    ensures RecoverUpTo(f, log.cfg, files, |files| - 1).segments == ReopenedAll(log.segments[..|log.segments| - 1])
  {
    CutActiveClean(f, log, files, cut);
    FrontReopens(f, log.cfg, files, log.segments[..|log.segments| - 1]);
  }

  lemma {:induction false} CutActiveRecords(f: Format, log: Log, files: seq<FoundFile>, cut: nat)
    requires f.Valid() && log.Open() && Readable(f, log) && CutActive(log, files, cut)
    ensures Durable(OpenLog(f, log.cfg, files))
         == RecordsIn(log.segments[..|log.segments| - 1]) + Scan(f, ActiveBytes(log)[..cut]).records
  {
    var last := |log.segments| - 1;
    var front, scan := log.segments[..last], Scan(f, ActiveBytes(log)[..cut]);
    CutActiveFront(f, log, files, cut);
    ActiveBytesClean(f, log);
    CutFileKept(f, files[last].id, ActiveBytes(log), files[last].file.manifest, cut);
    assert files[last] == FoundFile(files[last].id, File(ActiveBytes(log)[..cut], files[last].file.manifest));
    RecordsInSnoc(ReopenedAll(front), Reopened(files[last].id, ActiveBytes(log)[..scan.valid], scan.records));
    RecordsInReopened(front);
  }

  lemma LeftFilesAscend(d: Disk, cuts: seq<nat>)
    requires Shape(d.log) && Possible(d, cuts)
    ensures AscendingFiles(LeftFiles(d, cuts))
  {
  }

  lemma PowerLossOpens(f: Format, d: Disk, cuts: seq<nat>)
    requires f.Valid() && Shape(d.log) && Possible(d, cuts)
    ensures Inv(f, LosePower(f, d, cuts).log) && LosePower(f, d, cuts).Tight()
  {
    LeftFilesAscend(d, cuts);
    OpenLogInv(f, d.log.cfg, LeftFiles(d, cuts));
  }

  /** The cut active file: at least its forced records, and none that was not written. */
  lemma {:induction false} ActiveCutBounds(f: Format, d: Disk, cut: nat)
    requires f.Valid() && d.log.Open() && Readable(f, d.log)
    requires d.ForcedBytes(d.log.Active()) <= cut <= |ActiveBytes(d.log)|
    ensures ForcedRecords(f, d, |d.log.segments| - 1) <= Scan(f, ActiveBytes(d.log)[..cut]).records
    ensures Scan(f, ActiveBytes(d.log)[..cut]).records <= d.log.Active().records + d.log.pending
  {
    var active, bytes := d.log.Active(), ActiveBytes(d.log);
    var forced := d.ForcedBytes(active);
    ActiveBytesClean(f, d.log);
    assert bytes[..forced] == active.file.data[..forced];
    ScanNested(f, bytes, forced, cut);
    ScanCut(f, bytes, cut);
  }

  lemma {:induction false} CutActiveBounds(f: Format, d: Disk, cut: nat, found: seq<Record>)
    requires f.Valid() && d.log.Open() && Readable(f, d.log)
    requires d.ForcedBytes(d.log.Active()) <= cut <= |ActiveBytes(d.log)|
    requires found == RecordsIn(d.log.segments[..|d.log.segments| - 1]) + Scan(f, ActiveBytes(d.log)[..cut]).records
    ensures Firm(f, d) <= found <= Everything(d.log)
  {
    var last := |d.log.segments| - 1;
    var front, left := RecordsIn(d.log.segments[..last]), Scan(f, ActiveBytes(d.log)[..cut]).records;
    ActiveCutBounds(f, d, cut);
    SplitLast(d.log);
    PrefixBounds(front, ForcedRecords(f, d, last), left);
    PrefixBounds(front, left, d.log.Active().records + d.log.pending);
    assert front + (d.log.Active().records + d.log.pending) == front + d.log.Active().records + d.log.pending;
  }

  /** Whatever a power loss leaves, the forced records survive and nothing appears; and what is
      read back is on disk. */
  lemma AnchoredPowerLoss(f: Format, d: Disk, cuts: seq<nat>)
    requires f.Valid() && Inv(f, d.log) && d.Anchored() && Possible(d, cuts)
    ensures var after := LosePower(f, d, cuts);
            && Inv(f, after.log) && after.Tight()
            && Firm(f, d) <= Durable(after.log) <= Everything(d.log)
  {
    PowerLossOpens(f, d, cuts);
    AnchoredLeaves(d, cuts);
    CutActiveRecords(f, d.log, LeftFiles(d, cuts), cuts[|cuts| - 1]);
    CutActiveBounds(f, d, cuts[|cuts| - 1], Durable(LosePower(f, d, cuts).log));
  }

  /** From a tight disk a power loss is a crash like any other. */
  lemma TightPowerLoss(f: Format, d: Disk, cuts: seq<nat>)
    requires f.Valid() && Inv(f, d.log) && d.Tight() && Possible(d, cuts)
    ensures var after := LosePower(f, d, cuts).log;
            Inv(f, after) && Durable(d.log) <= Durable(after) <= Everything(d.log)
  {
    TightIffAnchored(d);
    FirmWithin(f, d);
    AnchoredPowerLoss(f, d, cuts);
  }

  // A disk that is not tight can lose something.

  function Count(segments: seq<Segment>, n: nat): nat
    requires n <= |segments|
  {
    if n == 0 then 0 else Count(segments, n - 1) + |segments[n - 1].records|
  }

  lemma {:induction false} CountAll(segments: seq<Segment>, n: nat)
    requires n <= |segments|
    ensures |RecordsIn(segments[..n])| == Count(segments, n)
  {
    if n > 0 {
      CountAll(segments, n - 1);
      RecordsInSnoc(segments[..n - 1], segments[n - 1]);
      assert segments[..n] == segments[..n - 1] + [segments[n - 1]];
    }
  }

  /** No file yields more than its segment held. */
  predicate NoneGrew(f: Format, files: seq<FoundFile>, segments: seq<Segment>)
    requires f.Valid() && |files| == |segments|
  {
    forall k | 0 <= k < |files| :: |Scan(f, files[k].file.data).records| <= |segments[k].records|
  }

  lemma {:induction false} OutcomeCount(f: Format, log: Log, found: FoundFile, last: bool)
    requires f.Valid()
    ensures |RecordsIn(AddOutcome(log, RecoverFile(f, found, last)).segments)|
         <= |RecordsIn(log.segments)| + |Scan(f, found.file.data).records|
  {
    match RecoverFile(f, found, last) {
      case Keep(s, _) => RecordsInSnoc(log.segments, s);
      case SetAside(_) =>
    }
  }

  function ScanCount(f: Format, files: seq<FoundFile>, n: nat): nat
    requires f.Valid() && n <= |files|
  {
    if n == 0 then 0 else ScanCount(f, files, n - 1) + |Scan(f, files[n - 1].file.data).records|
  }

  lemma {:induction false} RecoveredAtMost(f: Format, cfg: Config, files: seq<FoundFile>, n: nat)
    requires f.Valid() && n <= |files|
    ensures |RecordsIn(RecoverUpTo(f, cfg, files, n).segments)| <= ScanCount(f, files, n)
  {
    if n > 0 {
      RecoveredAtMost(f, cfg, files, n - 1);
      OutcomeCount(f, RecoverUpTo(f, cfg, files, n - 1), files[n - 1], n == |files|);
    }
  }

  lemma {:induction false} CountsShort(f: Format, files: seq<FoundFile>, segments: seq<Segment>, n: nat, short: nat)
    requires f.Valid() && |files| == |segments| && n <= |files| && NoneGrew(f, files, segments)
    requires short < |files| && |Scan(f, files[short].file.data).records| < |segments[short].records|
    ensures if short < n then ScanCount(f, files, n) < Count(segments, n)
        else ScanCount(f, files, n) <= Count(segments, n)
  {
    if n > 0 {
      CountsShort(f, files, segments, n - 1, short);
      assert |Scan(f, files[n - 1].file.data).records| <= |segments[n - 1].records|;
    }
  }

  lemma {:induction false} OpensShort(f: Format, cfg: Config, files: seq<FoundFile>, segments: seq<Segment>, short: nat)
    requires f.Valid() && |files| == |segments| && NoneGrew(f, files, segments)
    requires short < |files| && |Scan(f, files[short].file.data).records| < |segments[short].records|
    ensures |Durable(OpenLog(f, cfg, files))| < |RecordsIn(segments)|
  {
    RecoveredAtMost(f, cfg, files, |files|);
    CountsShort(f, files, segments, |files|, short);
    CountAll(segments, |segments|);
    assert segments[..|segments|] == segments;
    assert RecordsIn([EmptySegment(1)]) == [];
  }

  /** Everything stays but the bytes of segment `i` from `n` on. */
  function CutsAt(d: Disk, i: nat, n: nat): seq<nat>
    requires i < |d.log.segments|
  {
    seq(|d.log.segments|, k requires 0 <= k < |d.log.segments| =>
      if k == i then n else |d.log.segments[k].file.data|)
  }

  lemma CutsAtLeave(d: Disk, i: nat, n: nat)
    requires d.log.Open() && i < |d.log.segments|
    requires d.ForcedBytes(d.log.segments[i]) <= n <= |d.log.segments[i].file.data|
    ensures Possible(d, CutsAt(d, i, n))
    ensures LeftFiles(d, CutsAt(d, i, n)) == CorruptFiles(d.log.segments, OneCut(d.log.segments, i, n))
  {
    var cuts, last := CutsAt(d, i, n), |d.log.segments| - 1;
    forall k | 0 <= k <= last ensures LeftBytes(d, cuts, k) == OneCut(d.log.segments, i, n)[k] {
      var data := d.log.segments[k].file.data;
      assert (data + d.log.buffer)[..cuts[k]] == data[..cuts[k]];
    }
  }

  lemma {:induction false} CutShrinks(f: Format, segments: seq<Segment>, i: nat, n: nat)
    requires f.Valid() && i < |segments| && n < |segments[i].file.data|
    requires forall s <- segments :: Holds(f, s.file.data, s.records)
    ensures var files := CorruptFiles(segments, OneCut(segments, i, n));
            NoneGrew(f, files, segments) && |Scan(f, files[i].file.data).records| < |segments[i].records|
  {
    assert segments[i] in segments;
    ScanFewerRecords(f, segments[i].file.data, n);
    forall k | 0 <= k < |segments| && k != i ensures Scan(f, segments[k].file.data).records == segments[k].records {
      assert segments[k] in segments;
    }
  }

  lemma UnforcedBytesMatter(f: Format, d: Disk, i: nat)
    requires f.Valid() && Inv(f, d.log) && i < |d.log.segments| && d.Loose(i)
    ensures var cuts := CutsAt(d, i, d.ForcedBytes(d.log.segments[i]));
            Possible(d, cuts) && |Durable(LosePower(f, d, cuts).log)| < |Durable(d.log)|
  {
    var segments, n := d.log.segments, d.ForcedBytes(d.log.segments[i]);
    CutsAtLeave(d, i, n);
    CutShrinks(f, segments, i, n);
    OpensShort(f, d.log.cfg, CorruptFiles(segments, OneCut(segments, i, n)), segments, i);
  }

  /** Exactly when readers can rely on what they were shown: no power loss takes a durable
      record away if and only if every byte of every file is forced. */
  lemma PowerLossSafeIff(f: Format, d: Disk)
    requires f.Valid() && Inv(f, d.log)
    ensures (forall cuts | Possible(d, cuts) :: Durable(d.log) <= Durable(LosePower(f, d, cuts).log)) <==> d.Tight()
  {
    if d.Tight() {
      forall cuts | Possible(d, cuts) ensures Durable(d.log) <= Durable(LosePower(f, d, cuts).log) {
        TightPowerLoss(f, d, cuts);
      }
    } else {
      var s :| s in d.log.segments && d.ForcedBytes(s) != |s.file.data|;
      var i :| 0 <= i < |d.log.segments| && d.log.segments[i] == s;
      UnforcedBytesMatter(f, d, i);
    }
  }

  // When the forced records themselves are safe.

  /** The forced records of every segment are still there, each in its own segment. */
  ghost predicate ForcedSurvive(f: Format, d: Disk, after: Log)
    requires f.Valid()
  {
    forall i, r | 0 <= i < |d.log.segments| && r in ForcedRecords(f, d, i) :: StillIn(after, d.log.segments[i].id, r)
  }

  /** A cut of the loose bytes of an old segment always comes at the end of a frame. */
  ghost predicate CleanCuts(f: Format, d: Disk, i: nat)
    requires f.Valid() && i < |d.log.segments|
  {
    forall n | d.ForcedBytes(d.log.segments[i]) <= n <= |d.log.segments[i].file.data| ::
      Scan(f, d.log.segments[i].file.data[..n]).status == Clean
  }

  /** No old segment with a forced record can be torn, and so set aside as a whole. */
  ghost predicate NoneStranded(f: Format, d: Disk)
    requires f.Valid()
  {
    forall i | 0 <= i < |d.log.segments| - 1 && ForcedRecords(f, d, i) != [] :: CleanCuts(f, d, i)
  }

  /** How segment `i` comes out of a power loss. */
  lemma {:induction false} LeftSegment(f: Format, d: Disk, cuts: seq<nat>, i: nat)
    requires f.Valid() && Inv(f, d.log) && Possible(d, cuts) && i < |cuts|
    ensures var after, scan := LosePower(f, d, cuts).log, Scan(f, LeftBytes(d, cuts, i));
            if scan.status == Clean || (scan.status == Torn && i == |cuts| - 1)
            then forall r :: StillIn(after, d.log.segments[i].id, r) <==> r in scan.records
            else forall r <- d.log.segments[i].records :: !StillIn(after, d.log.segments[i].id, r)
  {
    NoSilentQuarantine(f, d.log, seq(|cuts|, k requires 0 <= k < |cuts| => LeftBytes(d, cuts, k)), i);
  }

  lemma ForcedWithinSegment(f: Format, d: Disk, i: nat)
    requires f.Valid() && d.log.Open() && Readable(f, d.log) && i < |d.log.segments|
    ensures ForcedRecords(f, d, i) <= d.log.segments[i].records
  {
    assert d.log.segments[i] in d.log.segments;
    ScanCut(f, d.log.segments[i].file.data, d.ForcedBytes(d.log.segments[i]));
  }

  lemma {:induction false} ForcedWithinLeft(f: Format, d: Disk, cuts: seq<nat>, i: nat)
    requires f.Valid() && d.log.Open() && Readable(f, d.log) && Possible(d, cuts) && i < |cuts|
    ensures ForcedRecords(f, d, i) <= Scan(f, LeftBytes(d, cuts, i)).records
    ensures i == |cuts| - 1 ==> Scan(f, LeftBytes(d, cuts, i)).status in {Clean, Torn}
  {
    var s, forced := d.log.segments[i], d.ForcedBytes(d.log.segments[i]);
    assert s in d.log.segments;
    var bytes := if i == |cuts| - 1 then ActiveBytes(d.log) else s.file.data;
    ActiveBytesClean(f, d.log);
    assert bytes[..forced] == s.file.data[..forced];
    ScanNested(f, bytes, forced, cuts[i]);
    ScanCut(f, bytes, cuts[i]);
  }

  lemma NoneStrandedSurvive(f: Format, d: Disk, cuts: seq<nat>)
    requires f.Valid() && Inv(f, d.log) && NoneStranded(f, d) && Possible(d, cuts)
    ensures ForcedSurvive(f, d, LosePower(f, d, cuts).log)
  {
    forall i, r | 0 <= i < |d.log.segments| && r in ForcedRecords(f, d, i)
      ensures StillIn(LosePower(f, d, cuts).log, d.log.segments[i].id, r)
    {
      ForcedWithinLeft(f, d, cuts, i);
      LeftSegment(f, d, cuts, i);
      if i < |d.log.segments| - 1 {
        assert CleanCuts(f, d, i);
      }
    }
  }

  /** A torn cut of an old segment takes all of it. */
  lemma {:induction false} StrandedLoses(f: Format, d: Disk, i: nat, n: nat)
    requires f.Valid() && Inv(f, d.log) && i < |d.log.segments| - 1
    requires d.ForcedBytes(d.log.segments[i]) <= n <= |d.log.segments[i].file.data|
    requires Scan(f, d.log.segments[i].file.data[..n]).status != Clean
    ensures Possible(d, CutsAt(d, i, n))
    ensures forall r <- d.log.segments[i].records ::
              !StillIn(LosePower(f, d, CutsAt(d, i, n)).log, d.log.segments[i].id, r)
  {
    CutsAtLeave(d, i, n);
    LeftSegment(f, d, CutsAt(d, i, n), i);
  }

  /** Exactly when a power loss cannot take what was forced: every forced record survives every
      power loss if and only if no old segment with one can be cut inside a frame. */
  lemma ForcedSafeIff(f: Format, d: Disk)
    requires f.Valid() && Inv(f, d.log)
    ensures (forall cuts | Possible(d, cuts) :: ForcedSurvive(f, d, LosePower(f, d, cuts).log)) <==> NoneStranded(f, d)
  {
    if NoneStranded(f, d) {
      forall cuts | Possible(d, cuts) ensures ForcedSurvive(f, d, LosePower(f, d, cuts).log) {
        NoneStrandedSurvive(f, d, cuts);
      }
    } else {
      var i :| 0 <= i < |d.log.segments| - 1 && ForcedRecords(f, d, i) != [] && !CleanCuts(f, d, i);
      var n :| d.ForcedBytes(d.log.segments[i]) <= n <= |d.log.segments[i].file.data|
               && Scan(f, d.log.segments[i].file.data[..n]).status != Clean;
      StrandedLoses(f, d, i, n);
      ForcedWithinSegment(f, d, i);
      var r := ForcedRecords(f, d, i)[0];
      assert r in ForcedRecords(f, d, i) && r in d.log.segments[i].records;
    }
  }

  /** No frame is a single byte, so a file that misses its last byte is torn. */
  ghost predicate LongFrames(f: Format) {
    forall data :: f.parse(data).Whole? ==> f.parse(data).size > 1
  }

  lemma {:induction false} LastByteMatters(f: Format, data: seq<byte>)
    requires f.Valid() && LongFrames(f) && Scan(f, data).status == Clean && data != []
    ensures Scan(f, data[..|data| - 1]).status == Torn
    decreases |data|
  {
    var n, size := |data| - 1, f.parse(data).size;
    assert f.BoundedAt(data) && f.LocalAt(data, data[..n]);
    assert f.parse(data).Whole?;
    if size <= n {
      assert data[..n][..size] == data[..size];
      assert data[..n][size..] == data[size..][..|data[size..]| - 1];
      LastByteMatters(f, data[size..]);
    }
  }

  /** For such frames, and the agent's are, the condition is one that can be read off: every old
      segment with a forced record is forced as a whole. */
  lemma NoneStrandedIff(f: Format, d: Disk)
    requires f.Valid() && d.log.Open() && Readable(f, d.log) && LongFrames(f)
    ensures NoneStranded(f, d) <==>
              forall i | 0 <= i < |d.log.segments| - 1 && ForcedRecords(f, d, i) != [] :: !d.Loose(i)
  {
    forall i | 0 <= i < |d.log.segments| - 1 ensures CleanCuts(f, d, i) <==> !d.Loose(i) {
      var data := d.log.segments[i].file.data;
      assert d.log.segments[i] in d.log.segments;
      assert data[..|data|] == data;
      if d.Loose(i) {
        LastByteMatters(f, data);
      }
    }
  }

  lemma AgentFramesAreLong(c: Frames.Codec)
    ensures LongFrames(Frames.FormatOf(c))
  {
  }
}
