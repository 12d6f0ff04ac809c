/** Runs of appends, syncs, reclaims, kills and power losses, and what they do to the forced bytes. */
module PowerRuns {
  import opened Proto
  import opened Scanning
  import opened WalLog
  import opened LogInvariants
  import opened Recovery
  import opened PowerLoss
  import Reclaiming

  // What each operation does to the forced records.

  lemma SyncKeepsTight(d: Disk)
    requires d.log.Open() && d.Tight()
    ensures SyncDisk(d).Tight()
  {
  }

  /** When only the active file has unforced bytes, the next sync forces them if and only if
      there is something new to write; a rotation before that leaves them so for good. */
  lemma SyncTightensIff(d: Disk)
    requires Shape(d.log) && d.Anchored() && d.Loose(|d.log.segments| - 1)
    ensures SyncDisk(d).Anchored()
    ensures SyncDisk(d).Tight() <==> d.log.unsynced > 0
    ensures d.log.unsynced == 0 ==> !Disk(RotateLog(d.log), SyncDisk(d).forced).Anchored()
  {
    var after, last := SyncDisk(d), |d.log.segments| - 1;
    TightIffAnchored(after);
    if d.log.unsynced == 0 {
      assert RotateLog(d.log).segments[last] == d.log.segments[last];
    }
  }

  lemma SyncFirm(f: Format, d: Disk)
    requires f.Valid() && Inv(f, d.log) && d.Anchored()
    ensures SyncDisk(d).Anchored() && Firm(f, d) <= Firm(f, SyncDisk(d))
  {
    FirmWithin(f, d);
    SyncKeepsInv(f, d.log);
    SyncKeepsRecords(d.log);
    FirmWithin(f, SyncDisk(d));
  }

  /** An append that leaves the active file behind with bytes that are not forced: it rotates,
      and the sync before the rotation has nothing to write. */
  predicate Strands(f: Format, d: Disk, record: Record, priority: Priority)
    requires d.log.Open()
  {
    && Accepts(f, d.log, record, priority) && NeedsRotation(d.log, |f.frame(record, priority)|)
    && d.log.unsynced == 0 && d.Loose(|d.log.segments| - 1)
  }

  lemma RotateFirm(f: Format, d: Disk)
    requires f.Valid() && Inv(f, d.log) && d.Anchored() && (d.log.unsynced > 0 || !d.Loose(|d.log.segments| - 1))
    ensures var after := Disk(RotateLog(d.log), SyncDisk(d).forced);
            Inv(f, after.log) && after.Anchored() && !after.Loose(|after.log.segments| - 1)
                && Firm(f, d) <= Firm(f, after)
  {
    var synced, after := SyncDisk(d), Disk(RotateLog(d.log), SyncDisk(d).forced);
    SyncFirm(f, d);
    RotateKeepsInv(f, d.log);
    assert !synced.Loose(|synced.log.segments| - 1);
    RotateStartsEmpty(d.log);
    RotateMovesPending(d.log);
    SyncMovesPending(d.log);
    FirmWithin(f, synced);
    SyncKeepsReadable(f, d.log);
    FirmWithin(f, after);
    SyncKeepsRecords(d.log);
  }

  lemma RotateKeepsInv(f: Format, log: Log)
    requires f.Valid() && Inv(f, log)
    ensures Inv(f, RotateLog(log))
  {
    RotateKeepsShape(log);
    RotateKeepsReadable(f, log);
    SyncKeepsCovered(log);
    SyncKeepsIndexed(log);
  }

  lemma ReadyFirm(f: Format, d: Disk, frameSize: nat)
    requires f.Valid() && Inv(f, d.log) && d.Anchored()
    requires NeedsRotation(d.log, frameSize) ==> d.log.unsynced > 0 || !d.Loose(|d.log.segments| - 1)
    ensures var after := ReadyDisk(d, frameSize);
            Inv(f, after.log) && after.Anchored() && Firm(f, d) <= Firm(f, after)
  {
    if NeedsRotation(d.log, frameSize) {
      RotateFirm(f, d);
    }
  }

  /** Writing to the buffer changes no file. */
  lemma WriteFirm(f: Format, d: Disk, record: Record, priority: Priority)
    requires f.Valid() && d.log.Open() && d.Anchored()
    ensures WriteDisk(f, d, record, priority).Anchored()
    ensures Firm(f, WriteDisk(f, d, record, priority)) == Firm(f, d)
  {
    var after := WriteDisk(f, d, record, priority);
    assert after.log.segments[..|after.log.segments| - 1] == d.log.segments[..|d.log.segments| - 1];
  }

  lemma SyncIfDueFirm(f: Format, d: Disk)
    requires f.Valid() && Inv(f, d.log) && d.Anchored()
    ensures SyncDiskIfDue(d).Anchored() && Firm(f, d) <= Firm(f, SyncDiskIfDue(d))
  {
    SyncFirm(f, d);
  }

  lemma WriteSyncFirm(f: Format, d: Disk, record: Record, priority: Priority)
    requires f.Valid() && Inv(f, d.log) && d.Anchored() && f.legal(record)
    ensures var after := SyncDiskIfDue(WriteDisk(f, d, record, priority));
            after.Anchored() && Firm(f, d) <= Firm(f, after)
  {
    WriteFirm(f, d, record, priority);
    WriteKeepsSound(f, d.log, record, priority);
    WriteKeepsReadable(f, d.log, record, priority);
    SyncIfDueFirm(f, WriteDisk(f, d, record, priority));
  }

  lemma FirmTransitive(a: seq<Record>, b: seq<Record>, c: seq<Record>)
    requires a <= b <= c
    ensures a <= c
  {
  }

  /** An append that strands nothing keeps every forced record where it is. */
  lemma AppendFirm(f: Format, d: Disk, record: Record, priority: Priority)
    requires f.Valid() && Inv(f, d.log) && d.Anchored() && f.legal(record) && !Strands(f, d, record, priority)
    ensures var after := AppendDisk(f, d, record, priority);
            after.Anchored() && Firm(f, d) <= Firm(f, after)
  {
    if Accepts(f, d.log, record, priority) {
      var ready := ReadyDisk(d, |f.frame(record, priority)|);
      ReadyFirm(f, d, |f.frame(record, priority)|);
      WriteSyncFirm(f, ready, record, priority);
      FirmTransitive(Firm(f, d), Firm(f, ready), Firm(f, AppendDisk(f, d, record, priority)));
    }
  }

  /** An append that strands leaves a loose segment behind. */
  lemma StrandsLeavesLoose(f: Format, d: Disk, record: Record, priority: Priority)
    requires Shape(d.log) && Strands(f, d, record, priority)
    ensures var after, i := AppendDisk(f, d, record, priority), |d.log.segments| - 1;
            && i < |after.log.segments| - 1 && after.log.segments[i] == d.log.segments[i]
            && after.ForcedBytes(after.log.segments[i]) == d.ForcedBytes(d.log.segments[i]) && after.Loose(i)
  {
    var rotated := RotateLog(d.log);
    RotateStartsEmpty(d.log);
    assert rotated.segments[|d.log.segments| - 1] == d.log.Active();
  }

  /** Exactly the stranding appends put forced records at risk: when the active file has a forced
      record, they are all safe after an append that strands nothing, and some power loss takes
      them after one that does. */
  lemma StrandingAppendIff(f: Format, d: Disk, record: Record, priority: Priority)
    requires f.Valid() && Inv(f, d.log) && d.Anchored() && f.legal(record) && LongFrames(f)
    requires ForcedRecords(f, d, |d.log.segments| - 1) != []
    ensures var after := AppendDisk(f, d, record, priority);
            (forall cuts | Possible(after, cuts) :: ForcedSurvive(f, after, LosePower(f, after, cuts).log))
            <==> !Strands(f, d, record, priority)
  {
    var after := AppendDisk(f, d, record, priority);
    AppendKeepsInv(f, d.log, record, priority);
    ForcedSafeIff(f, after);
    NoneStrandedIff(f, after);
    if Strands(f, d, record, priority) {
      StrandsLeavesLoose(f, d, record, priority);
      assert ForcedRecords(f, after, |d.log.segments| - 1) != [];
    } else {
      AppendFirm(f, d, record, priority);
    }
  }

  lemma ReadyKeepsTight(d: Disk, frameSize: nat)
    requires d.log.Open() && d.Tight()
    ensures ReadyDisk(d, frameSize).Tight()
  {
    SyncKeepsTight(d);
  }

  lemma WriteKeepsTight(f: Format, d: Disk, record: Record, priority: Priority)
    requires d.log.Open() && d.Tight()
    ensures WriteDisk(f, d, record, priority).Tight()
  {
    assert d.log.Active() in d.log.segments;
  }

  lemma SyncIfDueKeepsTight(d: Disk)
    requires d.log.Open() && d.Tight()
    ensures SyncDiskIfDue(d).Tight()
  {
    SyncKeepsTight(d);
  }

  lemma AppendKeepsTight(f: Format, d: Disk, record: Record, priority: Priority)
    requires d.log.Open() && d.Tight()
    ensures AppendDisk(f, d, record, priority).Tight()
  {
    if Accepts(f, d.log, record, priority) {
      var ready := ReadyDisk(d, |f.frame(record, priority)|);
      ReadyKeepsTight(d, |f.frame(record, priority)|);
      WriteKeepsTight(f, ready, record, priority);
      SyncIfDueKeepsTight(WriteDisk(f, ready, record, priority));
    }
  }

  lemma ReclaimKeepsTight(d: Disk, acknowledged: Record -> bool)
    requires d.log.Open() && d.Tight()
    ensures ReclaimDisk(d, acknowledged).Tight()
  {
    SyncKeepsTight(d);
    Reclaiming.KeptAreOld(SyncLog(d.log).segments, acknowledged);
  }

  // Kills.

  /** `killed` has the files of `d`, the active one with `saved` more bytes, and no more of them forced. */
  predicate Survivor(d: Disk, killed: Disk, saved: nat)
    requires d.log.Open()
  {
    var last := |d.log.segments| - 1;
    && |killed.log.segments| == |d.log.segments| && saved <= |d.log.buffer|
    && (forall i | 0 <= i <= last ::
          && killed.log.segments[i].id == d.log.segments[i].id
          && killed.log.segments[i].file.data
             == d.log.segments[i].file.data + (if i == last then d.log.buffer[..saved] else [])
          && killed.ForcedBytes(killed.log.segments[i]) == d.ForcedBytes(d.log.segments[i]))
  }

  lemma KilledForced(d: Disk, log: Log, s: Segment, i: nat)
    requires Shape(d.log) && i < |d.log.segments| && s.id == d.log.segments[i].id
    requires if i == |d.log.segments| - 1 then d.log.segments[i].file.data <= s.file.data
             else d.log.segments[i].file.data == s.file.data
    ensures Disk(log, d.forced[d.log.Active().id := d.ForcedBytes(d.log.Active())]).ForcedBytes(s)
         == d.ForcedBytes(d.log.segments[i])
  {
  }

  lemma ReopenedSurvives(d: Disk, log: Log, saved: nat, records: seq<Record>)
    requires Shape(d.log) && saved <= |d.log.buffer|
    requires log.segments == ReopenedAll(d.log.segments[..|d.log.segments| - 1])
               + [Reopened(d.log.Active().id, d.log.Active().file.data + d.log.buffer[..saved], records)]
    ensures Survivor(d, Disk(log, d.forced[d.log.Active().id := d.ForcedBytes(d.log.Active())]), saved)
  {
    forall i | 0 <= i < |d.log.segments|
      ensures Disk(log, d.forced[d.log.Active().id := d.ForcedBytes(d.log.Active())]).ForcedBytes(log.segments[i])
           == d.ForcedBytes(d.log.segments[i])
    {
      KilledForced(d, log, log.segments[i], i);
    }
  }

  lemma KilledSurvives(f: Format, d: Disk, n: nat)
    requires f.Valid() && Inv(f, d.log) && n <= |d.log.buffer|
    ensures Survivor(d, KillDisk(f, d, n), Salvaged(f, d.log, n).valid)
  {
    CrashedSegments(f, d.log, n);
    var saved := Salvaged(f, d.log, n);
    ReopenedSurvives(d, CrashedLog(f, d.log, n), saved.valid, d.log.Active().records + saved.records);
  }

  lemma SurvivorTightIff(d: Disk, killed: Disk, saved: nat)
    requires d.log.Open() && Survivor(d, killed, saved) && d.Tight()
    ensures killed.Anchored() && (killed.Tight() <==> saved == 0)
  {
    TightIffAnchored(d);
    TightIffAnchored(killed);
  }

  /** After a kill the disk is tight if and only if recovery found nothing that had not been synced. */
  lemma KilledTightIff(f: Format, d: Disk, n: nat)
    requires f.Valid() && Inv(f, d.log) && d.Tight() && n <= |d.log.buffer|
    ensures KillDisk(f, d, n).Tight() <==> Salvaged(f, d.log, n).records == []
  {
    KilledSurvives(f, d, n);
    ScanEmptyIff(f, d.log.buffer[..n]);
    SurvivorTightIff(d, KillDisk(f, d, n), Salvaged(f, d.log, n).valid);
  }

  lemma SurvivorAnchored(d: Disk, killed: Disk, saved: nat)
    requires d.log.Open() && Survivor(d, killed, saved) && d.Anchored()
    ensures killed.Anchored()
  {
  }

  lemma SurvivorForced(f: Format, d: Disk, killed: Disk, saved: nat)
    requires f.Valid() && d.log.Open() && Survivor(d, killed, saved)
    ensures var last := |d.log.segments| - 1; ForcedRecords(f, killed, last) == ForcedRecords(f, d, last)
  {
    var last := |d.log.segments| - 1;
    var forced := d.ForcedBytes(d.log.segments[last]);
    assert killed.log.segments[last].file.data[..forced] == d.log.segments[last].file.data[..forced];
  }

  /** A kill forces nothing and takes nothing that was forced. */
  lemma KillFirm(f: Format, d: Disk, n: nat)
    requires f.Valid() && Inv(f, d.log) && d.Anchored() && n <= |d.log.buffer|
    ensures var killed := KillDisk(f, d, n);
            Inv(f, killed.log) && killed.Anchored() && Firm(f, killed) == Firm(f, d)
  {
    var killed, last := KillDisk(f, d, n), |d.log.segments| - 1;
    CrashDurability(f, d.log, n);
    KilledSurvives(f, d, n);
    SurvivorAnchored(d, killed, Salvaged(f, d.log, n).valid);
    SurvivorForced(f, d, killed, Salvaged(f, d.log, n).valid);
    CrashedSegments(f, d.log, n);
    assert killed.log.segments[..last] == ReopenedAll(d.log.segments[..last]);
    RecordsInReopened(d.log.segments[..last]);
  }

  /** But what the restarted log has shown in between is safe if and only if it is no more than
      what had been synced: with any unsynced record found, some power loss takes shown records away. */
  lemma KilledReadersSafeIff(f: Format, d: Disk, n: nat)
    requires f.Valid() && Inv(f, d.log) && d.Tight() && n <= |d.log.buffer|
    ensures var killed := KillDisk(f, d, n);
            (forall cuts | Possible(killed, cuts) :: Durable(killed.log) <= Durable(LosePower(f, killed, cuts).log))
            <==> Salvaged(f, d.log, n).records == []
  {
    CrashDurability(f, d.log, n);
    KilledTightIff(f, d, n);
    PowerLossSafeIff(f, KillDisk(f, d, n));
  }

  // Runs.

  datatype Event =
    | Append(record: Record, priority: Priority)
    | Sync
    | Reclaim(acknowledged: Record -> bool)
    | Kill(n: nat)
    | PowerLoss(cuts: seq<nat>)

  function Next(f: Format, d: Disk, e: Event): (after: Disk)
    requires f.Valid() && d.log.Open()
    ensures after.log.Open()
  {
    match e
    case Append(record, priority) => AppendDisk(f, d, record, priority)
    case Sync => SyncDisk(d)
    case Reclaim(acknowledged) => ReclaimDisk(d, acknowledged)
    case Kill(n) => KillDisk(f, d, if n <= |d.log.buffer| then n else |d.log.buffer|)
    case PowerLoss(cuts) => if Possible(d, cuts) then LosePower(f, d, cuts) else d
  }

  function Run(f: Format, d: Disk, events: seq<Event>): (after: Disk)
    requires f.Valid() && d.log.Open()
    ensures after.log.Open()
    decreases |events|
  {
    if events == [] then d else Run(f, Next(f, d, events[0]), events[1..])
  }

  /** Payloads are legal, nothing is reclaimed, and no append strands unforced bytes. */
  predicate Careful(f: Format, d: Disk, e: Event)
    requires d.log.Open()
  {
    match e
    case Append(record, priority) => f.legal(record) && !Strands(f, d, record, priority)
    case Reclaim(_) => false
    case _ => true
  }

  predicate CarefulRun(f: Format, d: Disk, events: seq<Event>)
    requires f.Valid() && d.log.Open()
    decreases |events|
  {
    events == [] || (Careful(f, d, events[0]) && CarefulRun(f, Next(f, d, events[0]), events[1..]))
  }

  lemma NextFirm(f: Format, d: Disk, e: Event)
    requires f.Valid() && Inv(f, d.log) && d.Anchored() && Careful(f, d, e)
    ensures var after := Next(f, d, e); Inv(f, after.log) && after.Anchored() && Firm(f, d) <= Firm(f, after)
  {
    match e {
      case Append(record, priority) =>
        AppendFirm(f, d, record, priority);
        AppendKeepsInv(f, d.log, record, priority);
      case Sync => SyncFirm(f, d); SyncKeepsInv(f, d.log);
      case Kill(n) => KillFirm(f, d, if n <= |d.log.buffer| then n else |d.log.buffer|);
      case PowerLoss(cuts) =>
        if Possible(d, cuts) {
          AnchoredPowerLoss(f, d, cuts);
          TightIffAnchored(LosePower(f, d, cuts));
          FirmWithin(f, LosePower(f, d, cuts));
        }
    }
  }

  /** Through any number of kills and power losses, at any time, what was forced is never lost,
      as long as no append strands unforced bytes in an old segment. */
  lemma {:induction false} RunKeepsFirm(f: Format, d: Disk, events: seq<Event>)
    requires f.Valid() && Inv(f, d.log) && d.Anchored() && CarefulRun(f, d, events)
    ensures var after := Run(f, d, events);
            Inv(f, after.log) && after.Anchored() && Firm(f, d) <= Firm(f, after) <= Durable(after.log)
    decreases |events|
  {
    if events == [] {
      FirmWithin(f, d);
    } else {
      NextFirm(f, d, events[0]);
      RunKeepsFirm(f, Next(f, d, events[0]), events[1..]);
    }
  }

  /** In particular whatever readers saw when every byte was forced, before any kill, is still
      there after a kill, whatever comes then, and a power loss. */
  lemma {:induction false} KillThenPowerLoss(f: Format, d: Disk, n: nat, between: seq<Event>, cuts: seq<nat>)
    requires f.Valid() && Inv(f, d.log) && d.Tight() && n <= |d.log.buffer|
    requires CarefulRun(f, KillDisk(f, d, n), between) && Possible(Run(f, KillDisk(f, d, n), between), cuts)
    ensures Durable(d.log) <= Durable(LosePower(f, Run(f, KillDisk(f, d, n), between), cuts).log)
  {
    TightIffAnchored(d);
    FirmWithin(f, d);
    KillFirm(f, d, n);
    RunKeepsFirm(f, KillDisk(f, d, n), between);
    AnchoredPowerLoss(f, Run(f, KillDisk(f, d, n), between), cuts);
  }

  /** Payloads are legal, nothing is reclaimed, and the power goes only when every byte is forced. */
  predicate Guarded(f: Format, d: Disk, e: Event) {
    match e
    case Append(record, _) => f.legal(record)
    case Reclaim(_) => false
    case PowerLoss(_) => d.Tight()
    case _ => true
  }

  predicate GuardedRun(f: Format, d: Disk, events: seq<Event>)
    requires f.Valid() && d.log.Open()
    decreases |events|
  {
    events == [] || (Guarded(f, d, events[0]) && GuardedRun(f, Next(f, d, events[0]), events[1..]))
  }

  lemma NextKeepsDurable(f: Format, d: Disk, e: Event)
    requires f.Valid() && Inv(f, d.log) && Guarded(f, d, e)
    ensures Inv(f, Next(f, d, e).log) && Durable(d.log) <= Durable(Next(f, d, e).log)
  {
    match e
    case Append(record, priority) =>
      AppendKeepsInv(f, d.log, record, priority);
      AppendExtendsLog(f, d.log, record, priority);
    case Sync =>
      SyncKeepsInv(f, d.log);
      SyncKeepsRecords(d.log);
    case Kill(n) =>
      var kept := if n <= |d.log.buffer| then n else |d.log.buffer|;
      CrashDurability(f, d.log, kept);
      CrashBounds(f, d.log, kept);
    case PowerLoss(cuts) =>
      if Possible(d, cuts) {
        TightPowerLoss(f, d, cuts);
      }
  }

  /** Through any number of kills, and of power losses that find every byte forced, what readers
      see only grows at its end. */
  lemma {:induction false} RunKeepsDurable(f: Format, d: Disk, events: seq<Event>)
    requires f.Valid() && Inv(f, d.log) && GuardedRun(f, d, events)
    ensures Inv(f, Run(f, d, events).log) && Durable(d.log) <= Durable(Run(f, d, events).log)
    decreases |events|
  {
    if events != [] {
      NextKeepsDurable(f, d, events[0]);
      RunKeepsDurable(f, Next(f, d, events[0]), events[1..]);
    }
  }

  predicate NoKills(events: seq<Event>) {
    forall i | 0 <= i < |events| :: !events[i].Kill?
  }

  /** Without kills every byte stays forced, whatever is appended or reclaimed, so the power may
      go at any time. */
  lemma {:induction false} RunStaysTight(f: Format, d: Disk, events: seq<Event>)
    requires f.Valid() && d.log.Open() && d.Tight() && NoKills(events)
    ensures Run(f, d, events).Tight()
    decreases |events|
  {
    if events != [] {
      match events[0] {
        case Append(record, priority) => AppendKeepsTight(f, d, record, priority);
        case Sync => SyncKeepsTight(d);
        case Reclaim(acknowledged) => ReclaimKeepsTight(d, acknowledged);
        case PowerLoss(_) =>
      }
      RunStaysTight(f, Next(f, d, events[0]), events[1..]);
    }
  }
}
