/** The write-ahead log as the agent runs it: one object whose fields every operation
    updates in place. Each method is tied to the functions of `WalLog` and `Recovery`. */
module Wal {
  import opened Proto
  import opened Scanning
  import opened WalLog
  import opened LogInvariants
  import opened Reclaiming
  import opened Recovery

  /** Durable bytes come with cached records, so reclaiming never has to read a file again. */
  predicate Cached(log: Log) {
    forall s <- log.segments :: s.records == [] ==> s.durableSize <= 0
  }

  lemma SyncKeepsCached(log: Log)
    requires Shape(log) && Cached(log)
    ensures Cached(SyncLog(log))
  {
    if log.unsynced != 0 {
      assert SyncLog(log).Active().records != [];
    }
  }

  lemma RotateKeepsCached(log: Log)
    requires Shape(log) && Cached(log)
    ensures Cached(RotateLog(log))
  {
    SyncKeepsCached(log);
  }

  lemma WriteKeepsCached(f: Format, log: Log, record: Record, priority: Priority)
    requires log.Open() && Cached(log)
    ensures Cached(WriteLog(f, log, record, priority))
  {
    assert log.Active() in log.segments;
  }

  lemma DropKeepsCached(log: Log, acknowledged: Record -> bool)
    requires log.Open() && Cached(log)
    ensures Cached(DropAcknowledged(log, acknowledged))
  {
    var kept := Kept(log.segments, acknowledged);
    forall s | s in kept ensures s in log.segments {
      var i :| 0 <= i < |kept| && kept[i] == s;
      KeptWithin(log.segments, acknowledged, i);
    }
  }

  lemma OpenIsCached(f: Format, cfg: Config, files: seq<FoundFile>)
    requires f.Valid() && AscendingFiles(files)
    ensures Cached(OpenLog(f, cfg, files))
  {
    OpenLogInv(f, cfg, files);
    forall s | s in OpenLog(f, cfg, files).segments && s.records == [] ensures s.durableSize <= 0 {
      ScanEmptyIff(f, s.file.data);
    }
  }

  method AddRecordRangeTo(ranges: Ranges, record: Record) returns (after: Ranges)
    ensures after == AddRecordRange(ranges, record)
  {
    after := ranges;
    var node, span := NodeOf(record), RecordRange(record);
    if |node| != 16 || |span.session| != 16 || span.start == 0 || span.end < span.start {
      return;
    }
    var key := RangeKey(node, span.session);
    if key !in after {
      after := after[key := SequenceRange(span.start, span.end)];
      return;
    }
    var current := after[key];
    if span.start < current.start {
      current := current.(start := span.start);
    }
    if span.end > current.end {
      current := current.(end := span.end);
    }
    after := after[key := current];
  }

  method RangesFromRecords(records: seq<Record>) returns (ranges: Ranges)
    ensures ranges == AddRanges(map[], records)
  {
    ranges := map[];
    for i := 0 to |records|
      invariant ranges == AddRanges(map[], records[..i])
    {
      assert records[..i + 1][..i] == records[..i];
      ranges := AddRecordRangeTo(ranges, records[i]);
    }
    assert records[..|records|] == records;
  }

  class WAL {
    const format: Format
    const cfg: Config
    var segments: seq<Segment>
    var buffer: seq<byte>
    var unsynced: nat
    var total: int
    var issues: seq<Issue>
    var pending: seq<Record>
    var heads: Heads

    function State(): Log
      reads this
    {
      Log(cfg, segments, buffer, unsynced, total, issues, pending, heads)
    }

    ghost predicate Valid()
      reads this
    {
      format.Valid() && Shape(State()) && Cached(State())
    }

    /** Opening a directory: recover what the files hold, then make sure there is an active segment. */
    constructor (format: Format, given: Config, files: seq<FoundFile>)
      requires format.Valid() && AscendingFiles(files)
      ensures Valid() && this.format == format && cfg == Normalize(given)
      ensures State() == OpenLog(format, Normalize(given), files)
    {
      this.format := format;
      cfg := Normalize(given);
      segments, buffer, unsynced, total, issues, pending, heads := [], [], 0, 0, [], [], map[];
      new;
      Recover(files);
      OpenActive();
      OpenLogInv(format, cfg, files);
      OpenIsCached(format, cfg, files);
    }

    method Recover(files: seq<FoundFile>)
      requires format.Valid() && State() == NewLog(cfg)
      modifies this
      ensures State() == RecoverUpTo(format, cfg, files, |files|)
    {
      for i := 0 to |files|
        invariant State() == RecoverUpTo(format, cfg, files, i)
      {
        RecoverOne(files[i], i == |files| - 1);
      }
    }

    method RecoverOne(found: FoundFile, last: bool)
      requires format.Valid()
      modifies this
      ensures State() == AddOutcome(old(State()), RecoverFile(format, found, last))
    {
      var data := found.file.data;
      var scan := ScanFile(format, data, |data|);
      assert data[..|data|] == data;
      var ranges := RangesFromRecords(scan.records);
      if scan.status != Clean {
        if scan.status == Torn && last {
          data := data[..scan.valid];
          issues := issues + [Issue(found.id, TruncatedPartialTail, map[])];
        } else {
          if found.file.manifest.Some? {
            ranges := found.file.manifest.value;
          }
          issues := issues + [Issue(found.id, Quarantined(scan.status), ranges)];
          return;
        }
      }
      var item := Segment(found.id, |data|, |data|, ranges, scan.records, File(data, Some(ranges)));
      NoteAllDurable(scan.records);
      segments := segments + [item];
      total := total + item.size;
      assert scan.status == Clean ==> issues + [] == issues;
    }

    method OpenActive()
      modifies this
      ensures State() == WithFirstSegment(old(State()))
    {
      if |segments| == 0 {
        segments := [EmptySegment(1)];
      }
    }

    method NoteDurableOne(record: Record)
      modifies this`heads
      ensures heads == NoteDurable(old(heads), record)
    {
      var span := RecordRange(record);
      if span.session == [] {
        return;
      }
      if span.end > (if span.session in heads then heads[span.session] else 0) {
        heads := heads[span.session := span.end];
      }
    }

    method NoteAllDurable(records: seq<Record>)
      modifies this`heads
      ensures heads == NoteAll(old(heads), records)
    {
      for i := 0 to |records|
        invariant heads == NoteAll(old(heads), records[..i])
      {
        assert records[..i + 1][..i] == records[..i];
        NoteDurableOne(records[i]);
      }
      assert records[..|records|] == records;
    }

    method Append(record: Record, priority: Priority) returns (err: Option<Refusal>)
      requires Valid()
      modifies this
      ensures Valid() && State() == AppendLog(format, old(State()), record, priority)
      ensures err == Admission(cfg, old(total), |format.frame(record, priority)|, priority)
    {
      var frame := format.frame(record, priority);
      err := Admit(|frame|, priority);
      if err.Some? {
        return;
      }
      MakeRoom(|frame|);
      Write(frame, record, priority);
      SyncIfEnough();
    }

    method MakeRoom(frameSize: nat)
      requires Valid()
      modifies this
      ensures Valid() && State() == ReadyLog(old(State()), frameSize)
    {
      var last := segments[|segments| - 1];
      if last.size > 0 && last.size + frameSize > cfg.segmentSize {
        RotateLocked();
      }
    }

    method SyncIfEnough()
      requires Valid()
      modifies this
      ensures Valid() && State() == SyncIfDue(old(State()))
    {
      if unsynced >= cfg.fsyncRecords {
        SyncLocked();
      }
    }

    method Admit(frameSize: nat, priority: Priority) returns (err: Option<Refusal>)
      ensures err == Admission(cfg, total, frameSize, priority)
    {
      var pressure := PressureFor(total + frameSize, cfg.maxSize);
      if pressure == HardLimit {
        return Some(ErrHardLimit);
      }
      if total + frameSize > cfg.maxSize - cfg.reserveBytes && priority.Rank() > P0Critical.Rank() {
        return Some(ErrHardLimit);
      }
      if pressure.Level() >= Rollup.Level() && priority.Rank() >= P2Normal.Rank() {
        return Some(ErrNeedsRollup);
      }
      if pressure.Level() >= Downsample.Level() && priority.Rank() >= P3Optional.Rank() {
        return Some(ErrDownsampled);
      }
      err := None;
    }

    method Write(frame: seq<byte>, record: Record, ghost priority: Priority)
      requires Valid() && frame == format.frame(record, priority)
      modifies this
      ensures Valid() && State() == WriteLog(format, old(State()), record, priority)
    {
      ghost var start := State();
      var active := segments[|segments| - 1];
      var ranges := AddRecordRangeTo(active.ranges, record);
      buffer := buffer + frame;
      active := active.(size := active.size + |frame|, ranges := ranges);
      segments := segments[..|segments| - 1] + [active];
      total := total + |frame|;
      unsynced := unsynced + 1;
      pending := pending + [record];
      assert State() == WriteLog(format, start, record, priority);
      WriteKeepsShape(format, start, record, priority);
      WriteKeepsCached(format, start, record, priority);
    }

    method Sync()
      requires Valid()
      modifies this
      ensures Valid() && State() == SyncLog(old(State()))
    {
      SyncKeepsShape(State());
      SyncKeepsCached(State());
      SyncLocked();
    }

    /** Flush and fsync; then the manifest; only then do the records count as durable. */
    method SyncLocked()
      requires Valid()
      modifies this
      ensures Valid() && State() == SyncLog(old(State()))
    {
      ghost var start := State();
      SyncKeepsShape(start);
      SyncKeepsCached(start);
      if unsynced == 0 {
        return;
      }
      var active := segments[|segments| - 1];
      active := active.(file := active.file.(data := active.file.data + buffer));
      active := active.(file := active.file.(manifest := Some(active.ranges)));
      active := active.(durableSize := active.size);
      active := active.(records := active.records + pending);
      NoteAllDurable(pending);
      buffer := [];
      pending := [];
      unsynced := 0;
      segments := segments[..|segments| - 1] + [active];
      assert State() == SyncLog(start);
    }

    method RotateLocked()
      requires Valid()
      modifies this
      ensures Valid() && State() == RotateLog(old(State()))
    {
      ghost var start := State();
      RotateKeepsShape(start);
      RotateKeepsCached(start);
      SyncLocked();
      AddSegment();
      assert State() == RotateLog(start);
    }

    method AddSegment()
      requires |segments| > 0
      modifies this`segments
      ensures State() == WithNextSegment(old(State()))
    {
      var id := segments[|segments| - 1].id + 1;
      segments := segments + [EmptySegment(id)];
    }

    method ReadDurable() returns (records: seq<Record>)
      ensures records == Durable(State())
    {
      records := [];
      for i := 0 to |segments|
        invariant records == RecordsIn(segments[..i])
      {
        assert segments[..i + 1] == segments[..i] + [segments[i]];
        RecordsInSnoc(segments[..i], segments[i]);
        records := records + segments[i].records;
      }
      assert segments[..|segments|] == segments;
    }

    method HasPending(visible: (Identity, nat) -> bool) returns (found: bool)
      ensures found <==> AnyHead(State(), visible)
    {
      var rest := heads.Keys;
      while rest != {}
        invariant rest <= heads.Keys
        invariant forall session | session in heads.Keys - rest :: !visible(session, heads[session])
        decreases rest
      {
        var session :| session in rest;
        if visible(session, heads[session]) {
          return true;
        }
        rest := rest - {session};
      }
      found := false;
    }

    /** Stops at the limit, possibly in the middle of a segment. */
    method CollectPending(match_: Record -> bool, limit: int) returns (found: seq<Record>)
      ensures found == Collected(State(), match_, limit)
    {
      found := [];
      if limit <= 0 {
        return;
      }
      for i := 0 to |segments|
        invariant found == Matching(RecordsIn(segments[..i]), match_) && |found| < limit
      {
        var records := segments[i].records;
        ghost var before := RecordsIn(segments[..i]);
        assert segments[..i + 1] == segments[..i] + [segments[i]];
        RecordsInSnoc(segments[..i], segments[i]);
        assert before + records[..0] == before;
        for j := 0 to |records|
          invariant found == Matching(before + records[..j], match_) && |found| < limit
        {
          MatchingSnoc(before + records[..j], match_, records[j]);
          assert before + records[..j + 1] == before + records[..j] + [records[j]];
          if !match_(records[j]) {
            continue;
          }
          found := found + [records[j]];
          if |found| >= limit {
            CutIsPrefix(State(), match_, i, j + 1);
            return;
          }
        }
        assert records[..|records|] == records;
      }
      assert segments[..|segments|] == segments;
    }

    /** Removes fully acknowledged segments in front of the active one, and never rewrites any. */
    method Reclaim(acknowledged: Record -> bool) returns (reclaimed: int)
      requires Valid()
      modifies this
      ensures Valid() && State() == ReclaimLog(old(State()), acknowledged)
      ensures reclaimed == old(total) - total
    {
      SyncKeepsShape(State());
      SyncLocked();
      DropKeepsShape(State(), acknowledged);
      DropKeepsCached(State(), acknowledged);
      reclaimed := Drop(acknowledged);
    }

    method Drop(acknowledged: Record -> bool) returns (reclaimed: int)
      requires State().Open()
      modifies this
      ensures State() == DropAcknowledged(old(State()), acknowledged)
      ensures reclaimed == old(total) - total
    {
      var kept;
      kept, reclaimed := SelectKept(segments, acknowledged);
      segments := kept;
      total := total - reclaimed;
    }
  }

  method CheckAcknowledged(records: seq<Record>, acknowledged: Record -> bool) returns (all: bool)
    ensures all <==> records != [] && AllAcknowledged(records, acknowledged)
  {
    all := |records| > 0;
    for i := 0 to |records|
      invariant all <==> records != [] && AllAcknowledged(records[..i], acknowledged)
    {
      if !acknowledged(records[i]) {
        return false;
      }
    }
  }

  /** The pass over the segments: which stay, and how many bytes the others give back. */
  method SelectKept(segments: seq<Segment>, acknowledged: Record -> bool) returns (kept: seq<Segment>, reclaimed: int)
    ensures kept == Kept(segments, acknowledged) && reclaimed == ReclaimedBytes(segments, acknowledged)
  {
    reclaimed, kept := 0, [];
    assert segments[0..] == segments;
    for index := 0 to |segments|
      invariant kept + Kept(segments[index..], acknowledged) == Kept(segments, acknowledged)
      invariant reclaimed + ReclaimedBytes(segments[index..], acknowledged) == ReclaimedBytes(segments, acknowledged)
    {
      var item := segments[index];
      ghost var rest := segments[index..];
      assert rest[0] == item && rest[1..] == segments[index + 1..];
      if index == |segments| - 1 {
        assert rest == [item] && segments[index + 1..] == [];
        kept := kept + [item];
        continue;
      }
      var all := CheckAcknowledged(item.records, acknowledged);
      if !all {
        kept := kept + [item];
        continue;
      }
      reclaimed := reclaimed + item.size;
    }
  }

  lemma {:induction false} MatchingSnoc(records: seq<Record>, match_: Record -> bool, r: Record)
    ensures Matching(records + [r], match_) == Matching(records, match_) + (if match_(r) then [r] else [])
  {
    if records == [] {
      assert [] + [r] == [r];
    } else {
      MatchingSnoc(records[1..], match_, r);
      assert (records + [r])[1..] == records[1..] + [r];
    }
  }

  lemma {:induction false} MatchingConcat(a: seq<Record>, b: seq<Record>, match_: Record -> bool)
    ensures Matching(a + b, match_) == Matching(a, match_) + Matching(b, match_)
  {
    if a == [] {
      assert [] + b == b;
    } else {
      MatchingConcat(a[1..], b, match_);
      assert (a + b)[1..] == a[1..] + b;
      var head, rest := if match_(a[0]) then [a[0]] else [], Matching(a[1..], match_);
      assert Matching(a + b, match_) == head + (rest + Matching(b, match_)) == head + rest + Matching(b, match_);
    }
  }

  lemma {:induction false} RecordsInSplit(segments: seq<Segment>, i: nat)
    requires i <= |segments|
    ensures RecordsIn(segments) == RecordsIn(segments[..i]) + RecordsIn(segments[i..])
  {
    if i > 0 {
      RecordsInSplit(segments[1..], i - 1);
      assert segments[..i][1..] == segments[1..][..i - 1];
      assert segments[1..][i - 1..] == segments[i..];
    } else {
      assert segments[..0] == [] && segments[0..] == segments;
    }
  }

  /** The records scanned so far are a prefix of the log, so their matches are the first ones. */
  lemma CutIsPrefix(log: Log, match_: Record -> bool, i: nat, j: nat)
    requires i < |log.segments| && j <= |log.segments[i].records|
    ensures var seen := RecordsIn(log.segments[..i]) + log.segments[i].records[..j];
            Matching(seen, match_) <= Matching(Durable(log), match_)
  {
    var records := log.segments[i].records;
    var seen := RecordsIn(log.segments[..i]) + records[..j];
    var rest := records[j..] + RecordsIn(log.segments[i + 1..]);
    RecordsInSplit(log.segments, i);
    assert log.segments[i..][0] == log.segments[i] && log.segments[i..][1..] == log.segments[i + 1..];
    assert records == records[..j] + records[j..];
    assert Durable(log) == seen + rest;
    MatchingConcat(seen, rest, match_);
  }
}
