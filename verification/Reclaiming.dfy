/** What reclaiming removes, and what it keeps. */
module Reclaiming {
  import opened Proto
  import opened Scanning
  import opened WalLog
  import opened LogInvariants

  /** A segment stays exactly when it is the last one, is empty, or holds an unacknowledged record. */
  lemma {:induction false} KeptMembers(segments: seq<Segment>, acknowledged: Record -> bool, s: Segment)
    requires segments != [] && Ascending(segments)
    ensures s in Kept(segments, acknowledged) <==>
              s in segments && (s == segments[|segments| - 1] || !Reclaimable(s, acknowledged))
  {
    if |segments| > 1 {
      var first, rest := segments[0], segments[1..];
      assert Ascending(rest) && rest[|rest| - 1] == segments[|segments| - 1];
      KeptMembers(rest, acknowledged, s);
      assert segments == [first] + rest;
      assert first.id < segments[|segments| - 1].id;
    }
  }

  lemma {:induction false} KeptWithin(segments: seq<Segment>, acknowledged: Record -> bool, i: nat)
    requires i < |Kept(segments, acknowledged)|
    ensures Kept(segments, acknowledged)[i] in segments
  {
    if |segments| > 1 {
      var first, rest := segments[0], segments[1..];
      assert segments == [first] + rest;
      if Reclaimable(first, acknowledged) {
        KeptWithin(rest, acknowledged, i);
      } else if i > 0 {
        KeptWithin(rest, acknowledged, i - 1);
      }
    }
  }

  /** What stays keeps its order. */
  lemma {:induction false} KeptAscends(segments: seq<Segment>, acknowledged: Record -> bool)
    requires Ascending(segments)
    ensures Ascending(Kept(segments, acknowledged))
  {
    if |segments| > 1 {
      var first, rest := segments[0], segments[1..];
      var kept := Kept(rest, acknowledged);
      KeptAscends(rest, acknowledged);
      forall i | 0 <= i < |kept| ensures first.id < kept[i].id {
        KeptWithin(rest, acknowledged, i);
        var j :| 0 <= j < |rest| && rest[j] == kept[i];
      }
      assert Ascending([first] + kept);
    }
  }

  lemma {:induction false} KeptTotal(segments: seq<Segment>, acknowledged: Record -> bool)
    ensures TotalSize(Kept(segments, acknowledged)) == TotalSize(segments) - ReclaimedBytes(segments, acknowledged)
  {
    if |segments| > 1 {
      KeptTotal(segments[1..], acknowledged);
      assert Kept(segments, acknowledged) == Kept(segments[1..], acknowledged)
          || Kept(segments, acknowledged)[1..] == Kept(segments[1..], acknowledged);
    }
  }

  /** Nothing more can be taken: a second pass with the same predicate keeps everything. */
  lemma {:induction false} KeptIdempotent(segments: seq<Segment>, acknowledged: Record -> bool)
    ensures Kept(Kept(segments, acknowledged), acknowledged) == Kept(segments, acknowledged)
    ensures ReclaimedBytes(Kept(segments, acknowledged), acknowledged) == 0
  {
    if |segments| > 1 {
      KeptIdempotent(segments[1..], acknowledged);
      if !Reclaimable(segments[0], acknowledged) {
        assert Kept(segments, acknowledged)[1..] == Kept(segments[1..], acknowledged);
      }
    }
  }

  lemma {:induction false} KeptSizesNonNegative(segments: seq<Segment>, acknowledged: Record -> bool)
    requires forall s <- segments :: s.size >= 0
    ensures ReclaimedBytes(segments, acknowledged) >= 0
  {
    if |segments| > 1 {
      assert segments[0] in segments;
      KeptSizesNonNegative(segments[1..], acknowledged);
    }
  }

  lemma KeptFrontDurable(log: Log, kept: seq<Segment>)
    requires Shape(log) && kept != [] && kept[|kept| - 1] == log.Active() && Ascending(kept)
    requires forall i | 0 <= i < |kept| :: kept[i] in log.segments
    ensures forall s <- kept[..|kept| - 1] :: s.size == s.durableSize
  {
    forall s | s in kept[..|kept| - 1] ensures s.size == s.durableSize {
      FrontOfKept(log.segments, kept, s);
    }
  }

  lemma KeptFilesDurable(log: Log, kept: seq<Segment>)
    requires Shape(log) && forall i | 0 <= i < |kept| :: kept[i] in log.segments
    ensures forall s <- kept :: s.durableSize == |s.file.data|
  {
    forall s | s in kept ensures s.durableSize == |s.file.data| {
      var i :| 0 <= i < |kept| && kept[i] == s;
      assert kept[i] in log.segments;
    }
  }

  /** Dropping segments in front of the active one keeps the structure. */
  lemma {:induction false} KeptFrontShape(log: Log, kept: seq<Segment>)
    requires Shape(log) && kept != [] && kept[|kept| - 1] == log.Active() && Ascending(kept)
    requires forall i | 0 <= i < |kept| :: kept[i] in log.segments
    ensures Shape(log.(segments := kept, total := TotalSize(kept)))
  {
    KeptFrontDurable(log, kept);
    KeptFilesDurable(log, kept);
  }

  lemma FrontOfKept(segments: seq<Segment>, kept: seq<Segment>, s: Segment)
    requires segments != [] && kept != [] && kept[|kept| - 1] == segments[|segments| - 1] && Ascending(kept)
    requires forall i | 0 <= i < |kept| :: kept[i] in segments
    requires s in kept[..|kept| - 1]
    ensures s in segments[..|segments| - 1]
  {
    var i :| 0 <= i < |kept| - 1 && kept[i] == s;
    var j :| 0 <= j < |segments| && segments[j] == s;
    assert s.id < kept[|kept| - 1].id;
    assert segments[..|segments| - 1][j] == s;
  }

  lemma SizesNonNegative(log: Log)
    requires Shape(log)
    ensures forall s <- log.segments :: s.size >= 0
  {
    forall s | s in log.segments ensures s.size >= 0 {
      assert s in log.segments[..|log.segments| - 1] || s == log.Active();
    }
  }

  lemma DropKeepsShape(log: Log, acknowledged: Record -> bool)
    requires Shape(log)
    ensures Shape(DropAcknowledged(log, acknowledged))
    ensures DropAcknowledged(log, acknowledged).total <= log.total
  {
    var kept := Kept(log.segments, acknowledged);
    KeptAscends(log.segments, acknowledged);
    forall i | 0 <= i < |kept| ensures kept[i] in log.segments {
      KeptWithin(log.segments, acknowledged, i);
    }
    KeptTotal(log.segments, acknowledged);
    SizesNonNegative(log);
    KeptSizesNonNegative(log.segments, acknowledged);
    KeptFrontShape(log, kept);
    assert DropAcknowledged(log, acknowledged) == log.(segments := kept, total := TotalSize(kept));
  }

  lemma ReclaimKeepsShape(log: Log, acknowledged: Record -> bool)
    requires Shape(log)
    ensures Shape(ReclaimLog(log, acknowledged))
    ensures ReclaimLog(log, acknowledged).total <= log.total
    ensures ReclaimLog(log, acknowledged).pending == []
  {
    SyncKeepsShape(log);
    DropKeepsShape(SyncLog(log), acknowledged);
  }

  lemma DropKeepsSized(log: Log, acknowledged: Record -> bool)
    requires Shape(log) && Sized(log)
    ensures Sized(DropAcknowledged(log, acknowledged))
  {
    var kept := Kept(log.segments, acknowledged);
    KeptAscends(log.segments, acknowledged);
    forall i | 0 <= i < |kept| ensures kept[i] in log.segments {
      KeptWithin(log.segments, acknowledged, i);
    }
    forall s | s in kept[..|kept| - 1] ensures s.size <= log.cfg.segmentSize || |s.records| == 1 {
      FrontOfKept(log.segments, kept, s);
    }
  }

  lemma ReclaimKeepsSized(log: Log, acknowledged: Record -> bool)
    requires Shape(log) && Sized(log)
    ensures Sized(ReclaimLog(log, acknowledged))
  {
    SyncKeepsShape(log);
    SyncKeepsSized(log);
    DropKeepsSized(SyncLog(log), acknowledged);
  }

  lemma {:induction false} KeptAreOld(segments: seq<Segment>, acknowledged: Record -> bool)
    ensures forall s <- Kept(segments, acknowledged) :: s in segments
  {
    var kept := Kept(segments, acknowledged);
    forall s | s in kept ensures s in segments {
      var i :| 0 <= i < |kept| && kept[i] == s;
      KeptWithin(segments, acknowledged, i);
    }
  }

  lemma DropKeepsSound(log: Log, acknowledged: Record -> bool)
    requires Sound(log)
    ensures Sound(DropAcknowledged(log, acknowledged))
  {
    DropKeepsShape(log, acknowledged);
    KeptAreOld(log.segments, acknowledged);
  }

  lemma ReclaimKeepsSound(log: Log, acknowledged: Record -> bool)
    requires Sound(log)
    ensures Sound(ReclaimLog(log, acknowledged))
  {
    SyncKeepsSound(log);
    DropKeepsSound(SyncLog(log), acknowledged);
  }

  lemma ReclaimKeepsInv(f: Format, log: Log, acknowledged: Record -> bool)
    requires f.Valid() && Inv(f, log)
    ensures Inv(f, ReclaimLog(log, acknowledged))
  {
    ReclaimKeepsSound(log, acknowledged);
    SyncKeepsReadable(f, log);
    KeptAreOld(SyncLog(log).segments, acknowledged);
  }

  lemma ReclaimableIff(s: Segment, acknowledged: Record -> bool)
    ensures Reclaimable(s, acknowledged) <==> s.records != [] && forall r | r in s.records :: acknowledged(r)
  {
    if r :| r in s.records && !acknowledged(r) {
      var i :| 0 <= i < |s.records| && s.records[i] == r;
    }
  }

  /** Exact and maximal: a segment of the synced log survives if and only if it is active,
      empty, or holds a record that is not acknowledged. */
  lemma ReclaimIsExact(log: Log, acknowledged: Record -> bool, s: Segment)
    requires Shape(log)
    ensures s in ReclaimLog(log, acknowledged).segments <==>
              && s in SyncLog(log).segments
              && (s == SyncLog(log).Active() || s.records == [] || exists r | r in s.records :: !acknowledged(r))
  {
    SyncKeepsShape(log);
    KeptMembers(SyncLog(log).segments, acknowledged, s);
    ReclaimableIff(s, acknowledged);
  }

  /** Survivors keep their order, and the total drops by the bytes given back. */
  lemma ReclaimAccounts(log: Log, acknowledged: Record -> bool)
    requires Shape(log)
    ensures var after := ReclaimLog(log, acknowledged);
            && Ascending(after.segments)
            && after.total == TotalSize(after.segments)
            && after.total == log.total - ReclaimedBytes(SyncLog(log).segments, acknowledged)
  {
    SyncKeepsShape(log);
    DropKeepsShape(SyncLog(log), acknowledged);
  }

  /** No unacknowledged record is ever removed, durable or still pending. */
  lemma ReclaimKeepsUnacknowledged(log: Log, acknowledged: Record -> bool, r: Record)
    requires Shape(log) && r in Everything(log) && !acknowledged(r)
    ensures r in Durable(ReclaimLog(log, acknowledged))
  {
    SyncMovesPending(log);
    InRecordsIn(SyncLog(log).segments, r);
    var s :| s in SyncLog(log).segments && r in s.records;
    ReclaimIsExact(log, acknowledged, s);
    InRecordsIn(ReclaimLog(log, acknowledged).segments, r);
  }

  lemma ReclaimAddsNothing(log: Log, acknowledged: Record -> bool, r: Record)
    requires Shape(log) && r in Durable(ReclaimLog(log, acknowledged))
    ensures r in Everything(log)
  {
    InRecordsIn(ReclaimLog(log, acknowledged).segments, r);
    var s :| s in ReclaimLog(log, acknowledged).segments && r in s.records;
    ReclaimIsExact(log, acknowledged, s);
    InRecordsIn(SyncLog(log).segments, r);
    SyncMovesPending(log);
  }

  /** Repeating with the same predicate removes nothing and changes nothing. */
  lemma ReclaimIsIdempotent(log: Log, acknowledged: Record -> bool)
    requires Shape(log)
    ensures ReclaimLog(ReclaimLog(log, acknowledged), acknowledged) == ReclaimLog(log, acknowledged)
  {
    SyncKeepsShape(log);
    KeptIdempotent(SyncLog(log).segments, acknowledged);
    var once := ReclaimLog(log, acknowledged);
    assert once.unsynced == 0 && SyncLog(once) == once;
  }
}
