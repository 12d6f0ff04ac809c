/** Opening a log directory, and what survives a crash. */
module Recovery {
  import opened Proto
  import opened Scanning
  import opened WalLog
  import opened LogInvariants

  /** A `.seg` file as the directory listing gives it, with the manifest beside it if readable. */
  datatype FoundFile = FoundFile(id: nat, file: File)

  datatype Outcome = Keep(segment: Segment, issues: seq<Issue>) | SetAside(issue: Issue)

  predicate AscendingFiles(files: seq<FoundFile>) {
    forall i, j | 0 <= i < j < |files| :: files[i].id < files[j].id
  }

  function Reopened(id: nat, data: seq<byte>, records: seq<Record>): Segment {
    var ranges := AddRanges(map[], records);
    Segment(id, |data|, |data|, ranges, records, File(data, Some(ranges)))
  }

  /** One file: kept as it is, kept without its torn tail if it is the last, or quarantined
      with the ranges of its manifest (of the records read so far when there is none). */
  function RecoverFile(f: Format, found: FoundFile, last: bool): Outcome
    requires f.Valid()
  {
    var scan := Scan(f, found.file.data);
    if scan.status == Clean then
      Keep(Reopened(found.id, found.file.data, scan.records), [])
    else if scan.status == Torn && last then
      Keep(Reopened(found.id, found.file.data[..scan.valid], scan.records),
           [Issue(found.id, TruncatedPartialTail, map[])])
    else
      SetAside(Issue(found.id, Quarantined(scan.status),
                     match found.file.manifest case Some(m) => m case None => AddRanges(map[], scan.records)))
  }

  function NewLog(cfg: Config): Log {
    Log(cfg, [], [], 0, 0, [], [], map[])
  }

  function AddOutcome(log: Log, outcome: Outcome): Log {
    match outcome
    case Keep(segment, issues) =>
      log.(segments := log.segments + [segment], total := log.total + segment.size,
           issues := log.issues + issues, heads := NoteAll(log.heads, segment.records))
    case SetAside(issue) =>
      log.(issues := log.issues + [issue])
  }

  /** The log after the first `n` files. */
  function RecoverUpTo(f: Format, cfg: Config, files: seq<FoundFile>, n: nat): (log: Log)
    requires f.Valid() && n <= |files|
    ensures log.cfg == cfg && log.buffer == [] && log.pending == [] && log.unsynced == 0
  {
    if n == 0 then NewLog(cfg)
    else AddOutcome(RecoverUpTo(f, cfg, files, n - 1), RecoverFile(f, files[n - 1], n == |files|))
  }

  /** A first segment is created when none survives. */
  function WithFirstSegment(log: Log): (after: Log)
    ensures after.Open() && after.cfg == log.cfg
  {
    if log.segments == [] then log.(segments := [EmptySegment(1)]) else log
  }

  function OpenLog(f: Format, cfg: Config, files: seq<FoundFile>): (log: Log)
    requires f.Valid()
    ensures log.Open() && log.cfg == cfg
  {
    WithFirstSegment(RecoverUpTo(f, cfg, files, |files|))
  }

  /** The segment files of a log, as a directory listing shows them. */
  function Listing(segments: seq<Segment>): seq<FoundFile> {
    seq(|segments|, i requires 0 <= i < |segments| => FoundFile(segments[i].id, segments[i].file))
  }

  // Whatever the files hold, the opened log is in order.

  lemma {:induction false} NoteAllConcat(heads: Heads, a: seq<Record>, b: seq<Record>)
    ensures NoteAll(NoteAll(heads, a), b) == NoteAll(heads, a + b)
  {
    if b == [] {
      assert a + b == a;
    } else {
      var front := b[..|b| - 1];
      NoteAllConcat(heads, a, front);
      assert (a + b)[..|a + b| - 1] == a + front;
      assert (a + b)[|a + b| - 1] == b[|b| - 1];
    }
  }

  /** Segments as recovery leaves them. */
  ghost predicate Settled(f: Format, s: Segment)
    requires f.Valid()
  {
    s == Reopened(s.id, s.file.data, s.records) && Holds(f, s.file.data, s.records)
  }

  lemma RecoverFileSettles(f: Format, found: FoundFile, last: bool)
    requires f.Valid()
    ensures var outcome := RecoverFile(f, found, last);
            outcome.Keep? ==> outcome.segment.id == found.id && Settled(f, outcome.segment)
                              && outcome.segment.size <= |found.file.data|
  {
    ScanValidPrefix(f, found.file.data);
  }

  /** The logs that recovery builds up from `files`. */
  ghost predicate Recovered(f: Format, log: Log, files: seq<FoundFile>)
    requires f.Valid()
  {
    && Ascending(log.segments)
    && (forall s <- log.segments :: Settled(f, s))
    && (forall s <- log.segments :: exists i | 0 <= i < |files| :: files[i].id == s.id)
    && log.total == TotalSize(log.segments)
    && log.heads == NoteAll(map[], RecordsIn(log.segments))
  }

  lemma KeepRecovers(f: Format, log: Log, files: seq<FoundFile>, s: Segment, issues: seq<Issue>)
    requires f.Valid() && Recovered(f, log, files) && Settled(f, s)
    requires forall t <- log.segments :: t.id < s.id
    requires exists i | 0 <= i < |files| :: files[i].id == s.id
    ensures Recovered(f, AddOutcome(log, Keep(s, issues)), files)
  {
    TotalSizeSnoc(log.segments, s);
    RecordsInSnoc(log.segments, s);
    NoteAllConcat(map[], RecordsIn(log.segments), s.records);
  }

  /** Looking at one more file. */
  lemma MoreFiles(f: Format, log: Log, files: seq<FoundFile>, found: FoundFile)
    requires f.Valid() && Recovered(f, log, files) && AscendingFiles(files + [found])
    ensures Recovered(f, log, files + [found])
    ensures forall s <- log.segments :: s.id < found.id
  {
    var more := files + [found];
    forall s | s in log.segments ensures s.id < found.id && exists i | 0 <= i < |more| :: more[i].id == s.id {
      var i :| 0 <= i < |files| && files[i].id == s.id;
      assert more[i].id == s.id && more[|files|] == found;
    }
  }

  lemma AddOutcomeRecovers(f: Format, log: Log, files: seq<FoundFile>, found: FoundFile, last: bool)
    requires f.Valid() && Recovered(f, log, files) && AscendingFiles(files + [found])
    ensures Recovered(f, AddOutcome(log, RecoverFile(f, found, last)), files + [found])
  {
    MoreFiles(f, log, files, found);
    RecoverFileSettles(f, found, last);
    match RecoverFile(f, found, last) {
      case Keep(s, issues) =>
        assert (files + [found])[|files|].id == s.id;
        KeepRecovers(f, log, files + [found], s, issues);
      case SetAside(_) =>
    }
  }

  lemma {:induction false} RecoverUpToSettles(f: Format, cfg: Config, files: seq<FoundFile>, n: nat)
    requires f.Valid() && n <= |files| && AscendingFiles(files)
    ensures Recovered(f, RecoverUpTo(f, cfg, files, n), files[..n])
  {
    if n > 0 {
      RecoverUpToSettles(f, cfg, files, n - 1);
      assert files[..n] == files[..n - 1] + [files[n - 1]];
      AddOutcomeRecovers(f, RecoverUpTo(f, cfg, files, n - 1), files[..n - 1], files[n - 1], n == |files|);
    }
  }

  /** Opening any directory of distinct segments gives a log that keeps every invariant,
      with heads that are exactly those of its records. */
  lemma OpenLogInv(f: Format, cfg: Config, files: seq<FoundFile>)
    requires f.Valid() && AscendingFiles(files)
    ensures Inv(f, OpenLog(f, cfg, files))
    ensures OpenLog(f, cfg, files).heads == NoteAll(map[], Durable(OpenLog(f, cfg, files)))
    ensures OpenLog(f, cfg, files).pending == []
  {
    RecoverUpToSettles(f, cfg, files, |files|);
    SettledLogInv(f, OpenLog(f, cfg, files));
  }

  lemma SettledLogInv(f: Format, log: Log)
    requires f.Valid() && log.Open() && Ascending(log.segments)
    requires (forall s <- log.segments :: Settled(f, s)) || log.segments == [EmptySegment(1)]
    requires log.buffer == [] && log.pending == [] && log.unsynced == 0
    requires log.total == TotalSize(log.segments) && log.heads == NoteAll(map[], RecordsIn(log.segments))
    ensures Inv(f, log)
  {
    assert Holds(f, [], []);
    assert log.Active() in log.segments;
    assert forall s <- log.segments[..|log.segments| - 1] :: s in log.segments;
    NoteAllCovers(map[], RecordsIn(log.segments));
    forall s | s in log.segments ensures ManifestCovers(s) && HeadsCover(log.heads, s.records) {
      AddRangesCovers(map[], s.records);
      forall r | r in s.records ensures HeadCovers(log.heads, r) {
        InRecordsIn(log.segments, r);
      }
    }
  }

  // Clean files are reopened as they are.

  ghost predicate CleanUpTo(f: Format, files: seq<FoundFile>, segments: seq<Segment>, n: nat)
    requires f.Valid()
  {
    && n <= |files| && n <= |segments|
    && forall i | 0 <= i < n ::
         && files[i].id == segments[i].id
         && files[i].file.data == segments[i].file.data
         && Holds(f, segments[i].file.data, segments[i].records)
  }

  function ReopenedAll(segments: seq<Segment>): (r: seq<Segment>)
    ensures |r| == |segments|
  {
    seq(|segments|, i requires 0 <= i < |segments| =>
      Reopened(segments[i].id, segments[i].file.data, segments[i].records))
  }

  lemma CleanFileKept(f: Format, found: FoundFile, s: Segment, last: bool)
    requires f.Valid() && found.id == s.id && found.file.data == s.file.data && Holds(f, s.file.data, s.records)
    ensures RecoverFile(f, found, last) == Keep(Reopened(s.id, s.file.data, s.records), [])
  {
  }

  lemma ReopenedSnoc(segments: seq<Segment>, s: Segment)
    ensures ReopenedAll(segments + [s]) == ReopenedAll(segments) + [Reopened(s.id, s.file.data, s.records)]
  {
  }

  lemma {:induction false} RecoverClean(f: Format, cfg: Config, files: seq<FoundFile>, segments: seq<Segment>, n: nat)
    requires f.Valid() && CleanUpTo(f, files, segments, n)
    ensures RecoverUpTo(f, cfg, files, n).segments == ReopenedAll(segments[..n])
    ensures RecoverUpTo(f, cfg, files, n).issues == []
  {
    if n > 0 {
      RecoverClean(f, cfg, files, segments, n - 1);
      CleanFileKept(f, files[n - 1], segments[n - 1], n == |files|);
      ReopenedSnoc(segments[..n - 1], segments[n - 1]);
      assert segments[..n] == segments[..n - 1] + [segments[n - 1]];
      assert RecoverUpTo(f, cfg, files, n).issues == RecoverUpTo(f, cfg, files, n - 1).issues + [];
    }
  }

  lemma {:induction false} RecordsInReopened(segments: seq<Segment>)
    ensures RecordsIn(ReopenedAll(segments)) == RecordsIn(segments)
  {
    if segments != [] {
      RecordsInReopened(segments[1..]);
      assert ReopenedAll(segments)[1..] == ReopenedAll(segments[1..]);
    }
  }

  // Idempotence.

  lemma ListingAscends(segments: seq<Segment>)
    requires Ascending(segments)
    ensures AscendingFiles(Listing(segments))
  {
  }

  lemma SettledReopens(f: Format, segments: seq<Segment>)
    requires f.Valid() && forall s <- segments :: Settled(f, s)
    ensures ReopenedAll(segments) == segments
  {
    forall i | 0 <= i < |segments| ensures ReopenedAll(segments)[i] == segments[i] {
      assert segments[i] in segments;
    }
  }

  /** Reopening clean segments only rewrites their manifests. */
  lemma {:induction false} OpenCleanListing(f: Format, cfg: Config, segments: seq<Segment>)
    requires f.Valid() && Ascending(segments) && segments != []
    requires forall s <- segments :: Holds(f, s.file.data, s.records)
    ensures OpenLog(f, cfg, Listing(segments))
         == Log(cfg, ReopenedAll(segments), [], 0, TotalSize(ReopenedAll(segments)), [], [],
                NoteAll(map[], RecordsIn(segments)))
  {
    forall i | 0 <= i < |segments| ensures Holds(f, segments[i].file.data, segments[i].records) {
      assert segments[i] in segments;
    }
    RecoverClean(f, cfg, Listing(segments), segments, |segments|);
    assert segments[..|segments|] == segments;
    ListingAscends(segments);
    RecoverUpToSettles(f, cfg, Listing(segments), |segments|);
    RecordsInReopened(segments);
  }

  /** Recovering the directory that a recovery left behind reports no issue and gives the
      same segments, records, sizes, total and heads, whatever the files held at first. */
  lemma {:induction false} RecoveryIsIdempotent(f: Format, cfg: Config, files: seq<FoundFile>)
    requires f.Valid() && AscendingFiles(files) && RecoverUpTo(f, cfg, files, |files|).segments != []
    ensures var once := OpenLog(f, cfg, files);
            OpenLog(f, cfg, Listing(once.segments)) == once.(issues := [])
  {
    RecoverUpToSettles(f, cfg, files, |files|);
    var once := OpenLog(f, cfg, files);
    SettledReopens(f, once.segments);
    OpenCleanListing(f, cfg, once.segments);
  }

  /** When nothing survived the first time, the second recovery finds the new first segment. */
  lemma {:induction false} EmptyRecoveryIsIdempotent(f: Format, cfg: Config, files: seq<FoundFile>)
    requires f.Valid() && AscendingFiles(files) && RecoverUpTo(f, cfg, files, |files|).segments == []
    ensures var once := OpenLog(f, cfg, files);
            OpenLog(f, cfg, Listing(once.segments)) == once.(issues := [], segments := [Reopened(1, [], [])])
  {
    RecoverUpToSettles(f, cfg, files, |files|);
    var once := OpenLog(f, cfg, files);
    assert Holds(f, [], []);
    OpenCleanListing(f, cfg, once.segments);
    assert ReopenedAll(once.segments) == [Reopened(1, [], [])];
    assert RecordsIn([EmptySegment(1)]) == [];
  }

  // Crashes.

  /** The files after a crash that keeps the first `n` bytes written since the last sync. */
  function CrashFiles(log: Log, n: nat): seq<FoundFile>
    requires log.Open() && n <= |log.buffer|
  {
    var active := log.Active();
    Listing(log.segments[..|log.segments| - 1])
    + [FoundFile(active.id, active.file.(data := active.file.data + log.buffer[..n]))]
  }

  function CrashedLog(f: Format, log: Log, n: nat): Log
    requires f.Valid() && log.Open() && n <= |log.buffer|
  {
    OpenLog(f, log.cfg, CrashFiles(log, n))
  }

  /** The records of the buffer that a crash keeps. */
  function Salvaged(f: Format, log: Log, n: nat): ScanResult
    requires f.Valid() && n <= |log.buffer|
  {
    Scan(f, log.buffer[..n])
  }

  /** A file that is torn, or whole, as the last one: kept as far as it scans. */
  lemma {:induction false} LastFileKept(f: Format, id: nat, file: File)
    requires f.Valid() && Scan(f, file.data).status in {Clean, Torn}
    ensures var scan := Scan(f, file.data);
            RecoverFile(f, FoundFile(id, file), true)
            == Keep(Reopened(id, file.data[..scan.valid], scan.records),
                    if scan.valid == |file.data| then [] else [Issue(id, TruncatedPartialTail, map[])])
  {
    if Scan(f, file.data).status == Clean {
      assert file.data[..|file.data|] == file.data;
    }
  }

  lemma {:induction false} CutFileScan(f: Format, data: seq<byte>, records: seq<Record>, more: seq<byte>)
    requires f.Valid() && Holds(f, data, records)
    ensures Scan(f, data + more)
         == ScanResult(records + Scan(f, more).records, |data| + Scan(f, more).valid, Scan(f, more).status)
  {
    ScanConcat(f, data, more);
  }

  lemma CutBytes(data: seq<byte>, buffer: seq<byte>, n: nat, valid: nat)
    requires valid <= n <= |buffer|
    ensures (data + buffer[..n])[..|data| + valid] == data + buffer[..valid]
  {
  }

  /** The active file after the crash: its torn tail goes, everything whole stays. */
  lemma {:induction false} RecoverCutFile(f: Format, id: nat, file: File, records: seq<Record>, buffer: seq<byte>,
                                          n: nat)
    requires f.Valid() && Holds(f, file.data, records) && Scan(f, buffer).status == Clean && n <= |buffer|
    ensures var saved := Scan(f, buffer[..n]);
            && saved.records <= Scan(f, buffer).records
            && RecoverFile(f, FoundFile(id, file.(data := file.data + buffer[..n])), true)
            == Keep(Reopened(id, file.data + buffer[..saved.valid], records + saved.records),
                    if saved.valid == n then [] else [Issue(id, TruncatedPartialTail, map[])])
  {
    ScanCut(f, buffer, n);
    CutFileScan(f, file.data, records, buffer[..n]);
    LastFileKept(f, id, file.(data := file.data + buffer[..n]));
    CutBytes(file.data, buffer, n, Scan(f, buffer[..n]).valid);
  }

  lemma {:induction false} CrashedFront(f: Format, log: Log, n: nat)
    requires f.Valid() && log.Open() && Readable(f, log) && n <= |log.buffer|
    ensures var front := log.segments[..|log.segments| - 1];
            var before := RecoverUpTo(f, log.cfg, CrashFiles(log, n), |front|);
            before.segments == ReopenedAll(front) && before.issues == []
  {
    var front := log.segments[..|log.segments| - 1];
    forall i | 0 <= i < |front| ensures Holds(f, front[i].file.data, front[i].records) {
      assert front[i] in log.segments;
    }
    RecoverClean(f, log.cfg, CrashFiles(log, n), front, |front|);
    assert front[..|front|] == front;
  }

  lemma CrashedSegments(f: Format, log: Log, n: nat)
    requires f.Valid() && log.Open() && Readable(f, log) && n <= |log.buffer|
    ensures var active, saved := log.Active(), Salvaged(f, log, n);
            var after := CrashedLog(f, log, n);
            && after.segments == ReopenedAll(log.segments[..|log.segments| - 1])
               + [Reopened(active.id, active.file.data + log.buffer[..saved.valid], active.records + saved.records)]
            && after.issues == (if saved.valid == n then [] else [Issue(active.id, TruncatedPartialTail, map[])])
            && saved.records <= log.pending
  {
    var active, files, last := log.Active(), CrashFiles(log, n), |log.segments| - 1;
    CrashedFront(f, log, n);
    assert active in log.segments;
    RecoverCutFile(f, active.id, active.file, active.records, log.buffer, n);
    assert files[last] == FoundFile(active.id, active.file.(data := active.file.data + log.buffer[..n]));
    assert RecoverUpTo(f, log.cfg, files, |files|)
        == AddOutcome(RecoverUpTo(f, log.cfg, files, last), RecoverFile(f, files[last], true));
  }

  lemma {:induction false} RecordsInReplaced(front: seq<Segment>, active: Segment, reopened: Segment, more: seq<Record>)
    requires reopened.records == active.records + more
    ensures RecordsIn(ReopenedAll(front) + [reopened]) == RecordsIn(front + [active]) + more
  {
    RecordsInSnoc(ReopenedAll(front), reopened);
    RecordsInReopened(front);
    RecordsInSnoc(front, active);
    assert RecordsIn(front) + (active.records + more) == RecordsIn(front) + active.records + more;
  }

  lemma LastReplaced(log: Log, after: Log, reopened: Segment, more: seq<Record>)
    requires log.Open() && reopened.records == log.Active().records + more
    requires after.segments == ReopenedAll(log.segments[..|log.segments| - 1]) + [reopened]
    ensures Durable(after) == Durable(log) + more
  {
    var front, active := log.segments[..|log.segments| - 1], log.Active();
    assert front + [active] == log.segments;
    RecordsInReplaced(front, active, reopened, more);
  }

  lemma CrashedRecords(f: Format, log: Log, n: nat)
    requires f.Valid() && log.Open() && Readable(f, log) && n <= |log.buffer|
    ensures Durable(CrashedLog(f, log, n)) == Durable(log) + Salvaged(f, log, n).records
  {
    CrashedSegments(f, log, n);
    var active, saved := log.Active(), Salvaged(f, log, n);
    LastReplaced(log, CrashedLog(f, log, n),
      Reopened(active.id, active.file.data + log.buffer[..saved.valid], active.records + saved.records), saved.records);
  }

  lemma CrashFilesAscend(log: Log, n: nat)
    requires Shape(log) && n <= |log.buffer|
    ensures AscendingFiles(CrashFiles(log, n))
  {
  }

  /** Crash durability. After any crash that keeps the synced bytes and any prefix of the
      later ones, recovery gives every durable record in order, then a prefix of the pending
      ones, and nothing else; it reports a truncated tail exactly when the cut fell inside
      a frame; and the reopened log keeps every invariant. */
  lemma CrashDurability(f: Format, log: Log, n: nat)
    requires f.Valid() && Inv(f, log) && n <= |log.buffer|
    ensures var after, saved := CrashedLog(f, log, n), Salvaged(f, log, n);
            && Inv(f, after) && after.pending == []
            && Durable(after) == Durable(log) + saved.records && saved.records <= log.pending
            && after.issues == (if saved.valid == n then []
                                else [Issue(log.Active().id, TruncatedPartialTail, map[])])
  {
    CrashedSegments(f, log, n);
    CrashedRecords(f, log, n);
    CrashFilesAscend(log, n);
    OpenLogInv(f, log.cfg, CrashFiles(log, n));
  }

  lemma PrefixBounds(a: seq<Record>, b: seq<Record>, c: seq<Record>)
    requires b <= c
    ensures a <= a + b <= a + c
  {
    assert a + c == a + b + c[|b|..];
  }

  /** In terms of what readers saw: nothing exposed is lost, nothing unwritten appears. */
  lemma CrashBounds(f: Format, log: Log, n: nat)
    requires f.Valid() && Inv(f, log) && n <= |log.buffer|
    ensures Durable(log) <= Durable(CrashedLog(f, log, n)) <= Everything(log)
  {
    CrashDurability(f, log, n);
    PrefixBounds(Durable(log), Salvaged(f, log, n).records, log.pending);
  }

  /** Nothing is lost by a clean stop: keeping all the bytes recovers all the records. */
  lemma CompleteCrashLosesNothing(f: Format, log: Log)
    requires f.Valid() && Inv(f, log)
    ensures Durable(CrashedLog(f, log, |log.buffer|)) == Everything(log)
    ensures CrashedLog(f, log, |log.buffer|).issues == []
  {
    CrashDurability(f, log, |log.buffer|);
    assert log.buffer[..|log.buffer|] == log.buffer;
  }

  /** The bytes of the first `n` files. */
  function BytesIn(files: seq<FoundFile>, n: nat): nat
    requires n <= |files|
  {
    if n == 0 then 0 else BytesIn(files, n - 1) + |files[n - 1].file.data|
  }

  /** Recovery never accounts for more than it found. */
  lemma {:induction false} RecoveredBytes(f: Format, cfg: Config, files: seq<FoundFile>, n: nat)
    requires f.Valid() && n <= |files|
    ensures RecoverUpTo(f, cfg, files, n).total <= BytesIn(files, n)
  {
    if n > 0 {
      RecoveredBytes(f, cfg, files, n - 1);
      RecoverFileSettles(f, files[n - 1], n == |files|);
    }
  }

  lemma {:induction false} ListedBytes(segments: seq<Segment>, files: seq<FoundFile>, n: nat)
    requires n <= |segments| && n <= |files|
    requires forall i | 0 <= i < n :: |files[i].file.data| == segments[i].size
    ensures BytesIn(files, n) == TotalSize(segments[..n])
  {
    if n > 0 {
      ListedBytes(segments, files, n - 1);
      TotalSizeSnoc(segments[..n - 1], segments[n - 1]);
      assert segments[..n] == segments[..n - 1] + [segments[n - 1]];
    }
  }

  /** A crash never makes the log larger, whatever has been appended. */
  lemma CrashShrinks(f: Format, log: Log, n: nat)
    requires f.Valid() && Shape(log) && n <= |log.buffer|
    ensures CrashedLog(f, log, n).total <= log.total
  {
    var files, last := CrashFiles(log, n), |log.segments| - 1;
    RecoveredBytes(f, log.cfg, files, |files|);
    forall i | 0 <= i < last ensures |files[i].file.data| == log.segments[i].size {
      assert log.segments[..last][i] in log.segments && log.segments[..last][i] in log.segments[..last];
    }
    ListedBytes(log.segments, files, last);
    TotalSizeSnoc(log.segments[..last], log.Active());
    assert log.segments == log.segments[..last] + [log.Active()];
    assert log.Active() in log.segments;
    assert BytesIn(files, |files|) == BytesIn(files, last) + |log.Active().file.data + log.buffer[..n]|;
  }

  lemma {:induction false} ScanEmptyIff(f: Format, data: seq<byte>)
    requires f.Valid()
    ensures Scan(f, data).records == [] <==> Scan(f, data).valid == 0
  {
    assert f.BoundedAt(data);
  }

  lemma CrashedActiveSized(f: Format, log: Log, n: nat)
    requires f.Valid() && Inv(f, log) && Sized(log) && log.cfg.Normal() && n <= |log.buffer|
    ensures var active, saved := log.Active(), Salvaged(f, log, n);
            var size, count := |active.file.data| + saved.valid, |active.records| + |saved.records|;
            && (size <= log.cfg.segmentSize || count == 1)
            && (size <= 0 ==> count == 0)
  {
    var active := log.Active();
    assert active in log.segments;
    ScanCut(f, log.buffer, n);
    ScanEmptyIff(f, log.buffer[..n]);
    ScanEmptyIff(f, active.file.data);
  }

  /** After a crash every segment still keeps within the configured size. */
  lemma CrashKeepsSized(f: Format, log: Log, n: nat)
    requires f.Valid() && Inv(f, log) && Sized(log) && log.cfg.Normal() && n <= |log.buffer|
    ensures Sized(CrashedLog(f, log, n))
  {
    var after, front := CrashedLog(f, log, n), log.segments[..|log.segments| - 1];
    CrashedSegments(f, log, n);
    CrashedActiveSized(f, log, n);
    CrashDurability(f, log, n);
    assert after.segments[..|after.segments| - 1] == ReopenedAll(front);
    forall i | 0 <= i < |front|
      ensures ReopenedAll(front)[i].size <= log.cfg.segmentSize || |ReopenedAll(front)[i].records| == 1
    {
      assert front[i] in front && front[i] in log.segments;
    }
  }

  // Crashes in the middle of a sync.

  /** How far a sync has come: some of the buffer written, all of it forced to disk, and then
      the new manifest in its place. Only after that do readers see the records. */
  datatype SyncPoint = Flushing(kept: nat) | Fsynced | ManifestWritten

  function SyncImage(log: Log, point: SyncPoint): seq<FoundFile>
    requires log.Open()
  {
    match point
    case Flushing(kept) => CrashFiles(log, if kept <= |log.buffer| then kept else |log.buffer|)
    case Fsynced => CrashFiles(log, |log.buffer|)
    case ManifestWritten => Listing(SyncLog(log).segments)
  }

  lemma SyncedImage(log: Log)
    requires log.Open()
    ensures Listing(log.segments) == CrashFiles(log.(buffer := []), 0)
  {
    var file := log.Active().file;
    assert file.(data := file.data + []) == file;
  }

  /** Wherever a sync is cut off, recovery gives all that readers had seen and nothing that was
      not appended; once the data is on disk it gives everything, whichever manifest is there. */
  lemma SyncCrash(f: Format, log: Log, point: SyncPoint)
    requires f.Valid() && Inv(f, log)
    ensures var after := OpenLog(f, log.cfg, SyncImage(log, point));
            && Durable(log) <= Durable(after) <= Everything(log)
            && (!point.Flushing? ==> Durable(after) == Everything(log) && after.issues == [])
  {
    match point
    case Flushing(kept) => CrashBounds(f, log, if kept <= |log.buffer| then kept else |log.buffer|);
    case Fsynced => CrashBounds(f, log, |log.buffer|); CompleteCrashLosesNothing(f, log);
    case ManifestWritten =>
      var synced := SyncLog(log);
      SyncKeepsInv(f, log);
      SyncKeepsShape(log);
      SyncKeepsRecords(log);
      assert synced.(buffer := []) == synced;
      SyncedImage(synced);
      CompleteCrashLosesNothing(f, synced);
  }

  // The smallest log with something to reclaim.

  /** `r` is the only record of the log, in a segment that is no longer active. */
  predicate OldRecordOnly(log: Log, r: Record) {
    && |log.segments| == 2 && log.unsynced == 0
    && log.segments[0].records == [r] && log.segments[1].records == []
  }

  /** A file with one record, and an empty one behind it. */
  function OldRecordFiles(f: Format, r: Record): seq<FoundFile> {
    [FoundFile(1, File(f.frame(r, P2Normal), None)), FoundFile(2, File([], None))]
  }

  lemma OldRecordLog(f: Format, cfg: Config, r: Record)
    requires f.Valid() && f.legal(r)
    ensures var log := OpenLog(f, cfg, OldRecordFiles(f, r));
            && Inv(f, log) && OldRecordOnly(log, r) && Durable(log) == [r]
            && log.heads == NoteAll(map[], [r])
  {
    var files, frame := OldRecordFiles(f, r), f.frame(r, P2Normal);
    OneFrameHolds(f, r, P2Normal);
    assert Holds(f, [], []);
    assert RecoverUpTo(f, cfg, files, 1) == AddOutcome(NewLog(cfg), Keep(Reopened(1, frame, [r]), []));
    assert RecoverUpTo(f, cfg, files, 2) == AddOutcome(RecoverUpTo(f, cfg, files, 1), Keep(Reopened(2, [], []), []));
    assert OpenLog(f, cfg, files).segments == [Reopened(1, frame, [r]), Reopened(2, [], [])];
    OldRecordDurable(OpenLog(f, cfg, files), r);
    OpenLogInv(f, cfg, files);
  }

  lemma OldRecordDurable(log: Log, r: Record)
    requires OldRecordOnly(log, r)
    ensures Durable(log) == [r]
  {
    assert log.segments[1..] == [log.segments[1]];
    assert RecordsIn([log.segments[1]]) == [] + RecordsIn([]) == [];
  }

  /** Reclaiming it empties the log. */
  lemma OldRecordReclaimed(log: Log, r: Record, acknowledged: Record -> bool)
    requires OldRecordOnly(log, r) && acknowledged(r)
    ensures Durable(ReclaimLog(log, acknowledged)) == []
  {
    assert log.segments[1..] == [log.segments[1]];
    assert RecordsIn([log.segments[1]]) == [] + RecordsIn([]) == [];
    assert Kept(log.segments, acknowledged) == Kept([log.segments[1]], acknowledged) == [log.segments[1]];
  }
}
