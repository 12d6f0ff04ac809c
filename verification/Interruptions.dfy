/** Crashes in the middle of a reclaim and in the middle of a recovery. */
module Interruptions {
  import opened Proto
  import opened Scanning
  import opened WalLog
  import opened LogInvariants
  import opened Recovery
  import opened Reclaiming
  import LogRuns

  // Reclaim: segment files go one by one, in order.

  /** The segments whose files are left once `k` have been removed. */
  function Removed(segments: seq<Segment>, acknowledged: Record -> bool, k: nat): (left: seq<Segment>)
    ensures segments != [] ==> left != []
  {
    if |segments| <= 1 || k == 0 then segments
    else if Reclaimable(segments[0], acknowledged) then Removed(segments[1..], acknowledged, k - 1)
    else [segments[0]] + Removed(segments[1..], acknowledged, k)
  }

  lemma {:induction false} RemovedMembers(segments: seq<Segment>, acknowledged: Record -> bool, k: nat, s: Segment)
    ensures s in Removed(segments, acknowledged, k) ==> s in segments
    ensures s in segments && !Reclaimable(s, acknowledged) ==> s in Removed(segments, acknowledged, k)
  {
    if !(|segments| <= 1 || k == 0) {
      assert segments == [segments[0]] + segments[1..];
      RemovedMembers(segments[1..], acknowledged, if Reclaimable(segments[0], acknowledged) then k - 1 else k, s);
    }
  }

  lemma {:induction false} RemovedAscends(segments: seq<Segment>, acknowledged: Record -> bool, k: nat)
    requires Ascending(segments)
    ensures Ascending(Removed(segments, acknowledged, k))
  {
    if !(|segments| <= 1 || k == 0) {
      var next := if Reclaimable(segments[0], acknowledged) then k - 1 else k;
      RemovedAscends(segments[1..], acknowledged, next);
      var rest := Removed(segments[1..], acknowledged, next);
      forall i | 0 <= i < |rest| ensures segments[0].id < rest[i].id {
        RemovedMembers(segments[1..], acknowledged, next, rest[i]);
      }
    }
  }

  lemma {:induction false} KeptOfRemoved(segments: seq<Segment>, acknowledged: Record -> bool, k: nat)
    ensures Kept(Removed(segments, acknowledged, k), acknowledged) == Kept(segments, acknowledged)
  {
    if !(|segments| <= 1 || k == 0) {
      var next := if Reclaimable(segments[0], acknowledged) then k - 1 else k;
      KeptOfRemoved(segments[1..], acknowledged, next);
      if !Reclaimable(segments[0], acknowledged) {
        var rest := Removed(segments[1..], acknowledged, next);
        assert ([segments[0]] + rest)[1..] == rest;
      }
    }
  }

  lemma ReopenedCons(s: Segment, rest: seq<Segment>)
    ensures ReopenedAll([s] + rest) == [Reopened(s.id, s.file.data, s.records)] + ReopenedAll(rest)
  {
  }

  lemma {:induction false} KeptCons(s: Segment, rest: seq<Segment>, acknowledged: Record -> bool)
    requires rest != []
    ensures Kept([s] + rest, acknowledged)
         == if Reclaimable(s, acknowledged) then Kept(rest, acknowledged) else [s] + Kept(rest, acknowledged)
  {
    assert ([s] + rest)[1..] == rest;
  }

  lemma {:induction false} KeptOfReopened(segments: seq<Segment>, acknowledged: Record -> bool)
    ensures Kept(ReopenedAll(segments), acknowledged) == ReopenedAll(Kept(segments, acknowledged))
  {
    if |segments| > 1 {
      var s, rest := segments[0], segments[1..];
      KeptOfReopened(rest, acknowledged);
      assert segments == [s] + rest;
      ReopenedCons(s, rest);
      KeptCons(s, rest, acknowledged);
      KeptCons(Reopened(s.id, s.file.data, s.records), ReopenedAll(rest), acknowledged);
      ReopenedCons(s, Kept(rest, acknowledged));
    }
  }

  function ReclaimImage(log: Log, acknowledged: Record -> bool, k: nat): seq<FoundFile>
    requires log.Open()
  {
    Listing(Removed(SyncLog(log).segments, acknowledged, k))
  }

  /** What opening finds after a reclaim was cut off: the files left are clean. */
  lemma {:induction false} ReclaimImageOpens(f: Format, log: Log, acknowledged: Record -> bool, k: nat)
    requires f.Valid() && Inv(f, log)
    ensures var after := OpenLog(f, log.cfg, ReclaimImage(log, acknowledged, k));
            && after.segments == ReopenedAll(Removed(SyncLog(log).segments, acknowledged, k))
            && after.issues == [] && after.unsynced == 0 && Inv(f, after)
  {
    SyncKeepsInv(f, log);
    var left := Removed(SyncLog(log).segments, acknowledged, k);
    RemovedAscends(SyncLog(log).segments, acknowledged, k);
    forall s | s in left ensures Holds(f, s.file.data, s.records) {
      RemovedMembers(SyncLog(log).segments, acknowledged, k, s);
    }
    OpenCleanListing(f, log.cfg, left);
    ListingAscends(left);
    OpenLogInv(f, log.cfg, Listing(left));
  }

  /** Wherever a reclaim is cut off, the log reopens without an issue, has every unacknowledged
      record, and nothing that was not there. */
  lemma ReclaimCrash(f: Format, log: Log, acknowledged: Record -> bool, k: nat, r: Record)
    requires f.Valid() && Inv(f, log)
    ensures var after := OpenLog(f, log.cfg, ReclaimImage(log, acknowledged, k));
            && after.issues == []
            && (r in Everything(log) && !acknowledged(r) ==> r in Durable(after))
            && (r in Durable(after) ==> r in Everything(log))
  {
    ReclaimImageOpens(f, log, acknowledged, k);
    var synced := SyncLog(log).segments;
    var left := Removed(synced, acknowledged, k);
    RecordsInReopened(left);
    SyncMovesPending(log);
    InRecordsIn(synced, r);
    InRecordsIn(left, r);
    forall s | s in synced && r in s.records && !acknowledged(r) ensures s in left {
      RemovedMembers(synced, acknowledged, k, s);
      ReclaimableIff(s, acknowledged);
    }
    forall s | s in left ensures s in synced {
      RemovedMembers(synced, acknowledged, k, s);
    }
  }

  /** And reclaiming again finishes the work: the records left are those of a reclaim that was
      never cut off. */
  lemma ReclaimResumes(f: Format, log: Log, acknowledged: Record -> bool, k: nat)
    requires f.Valid() && Inv(f, log)
    ensures var after := OpenLog(f, log.cfg, ReclaimImage(log, acknowledged, k));
            Durable(ReclaimLog(after, acknowledged)) == Durable(ReclaimLog(log, acknowledged))
  {
    ReclaimImageOpens(f, log, acknowledged, k);
    var synced := SyncLog(log).segments;
    KeptOfReopened(Removed(synced, acknowledged, k), acknowledged);
    KeptOfRemoved(synced, acknowledged, k);
    RecordsInReopened(Kept(synced, acknowledged));
  }

  // Recovery: files are truncated, renamed and given new manifests one by one.

  /** The directory when recovery has dealt with the first `k` files. */
  function HalfRecovered(f: Format, cfg: Config, files: seq<FoundFile>, k: nat): seq<FoundFile>
    requires f.Valid() && k <= |files|
  {
    Listing(RecoverUpTo(f, cfg, files, k).segments) + files[k..]
  }

  lemma {:induction false} HalfRecoveredFront(f: Format, cfg: Config, files: seq<FoundFile>, k: nat)
    requires f.Valid() && k <= |files| && AscendingFiles(files)
    ensures var half, done := HalfRecovered(f, cfg, files, k), RecoverUpTo(f, cfg, files, k);
            RecoverUpTo(f, cfg, half, |done.segments|) == done.(issues := [])
  {
    var half, done := HalfRecovered(f, cfg, files, k), RecoverUpTo(f, cfg, files, k);
    var m := |done.segments|;
    RecoverUpToSettles(f, cfg, files, k);
    forall i | 0 <= i < m ensures Holds(f, done.segments[i].file.data, done.segments[i].records) {
      assert done.segments[i] in done.segments;
    }
    RecoverClean(f, cfg, half, done.segments, m);
    assert done.segments[..m] == done.segments;
    SettledReopens(f, done.segments);
    RecoverTotals(f, cfg, half, m);
  }

  /** Total and heads are those of the segments. */
  lemma {:induction false} RecoverTotals(f: Format, cfg: Config, files: seq<FoundFile>, n: nat)
    requires f.Valid() && n <= |files|
    ensures var log := RecoverUpTo(f, cfg, files, n);
            log.total == TotalSize(log.segments) && log.heads == NoteAll(map[], RecordsIn(log.segments))
  {
    if n > 0 {
      RecoverTotals(f, cfg, files, n - 1);
      var before := RecoverUpTo(f, cfg, files, n - 1);
      match RecoverFile(f, files[n - 1], n == |files|) {
        case Keep(s, _) => KeepTotals(before, s);
        case SetAside(_) =>
      }
    }
  }

  lemma KeepTotals(log: Log, s: Segment)
    requires log.total == TotalSize(log.segments) && log.heads == NoteAll(map[], RecordsIn(log.segments))
    ensures log.total + s.size == TotalSize(log.segments + [s])
    ensures NoteAll(log.heads, s.records) == NoteAll(map[], RecordsIn(log.segments + [s]))
  {
    TotalSizeSnoc(log.segments, s);
    RecordsInSnoc(log.segments, s);
    NoteAllConcat(map[], RecordsIn(log.segments), s.records);
  }

  /** `again` is `once` without its first issues. */
  predicate WithoutFirst(again: Log, once: Log, issues: seq<Issue>) {
    issues <= once.issues && again == once.(issues := once.issues[|issues|..])
  }

  lemma OutcomeWithoutFirst(again: Log, once: Log, issues: seq<Issue>, outcome: Outcome)
    requires WithoutFirst(again, once, issues)
    ensures WithoutFirst(AddOutcome(again, outcome), AddOutcome(once, outcome), issues)
  {
    var more := match outcome case Keep(_, added) => added case SetAside(issue) => [issue];
    assert (once.issues + more)[|issues|..] == once.issues[|issues|..] + more;
  }

  lemma SameNextFile(f: Format, cfg: Config, half: seq<FoundFile>, at: nat, files: seq<FoundFile>, n: nat,
                     issues: seq<Issue>)
    requires f.Valid() && 0 < at <= |half| && 0 < n <= |files|
    requires half[at - 1] == files[n - 1] && (at == |half| <==> n == |files|)
    requires WithoutFirst(RecoverUpTo(f, cfg, half, at - 1), RecoverUpTo(f, cfg, files, n - 1), issues)
    ensures WithoutFirst(RecoverUpTo(f, cfg, half, at), RecoverUpTo(f, cfg, files, n), issues)
  {
    OutcomeWithoutFirst(RecoverUpTo(f, cfg, half, at - 1), RecoverUpTo(f, cfg, files, n - 1), issues,
                        RecoverFile(f, files[n - 1], n == |files|));
  }

  /** From file `k` on, `half` goes on from its file `m` as `files` does. */
  predicate SameRest(half: seq<FoundFile>, m: nat, files: seq<FoundFile>, k: nat) {
    k <= |files| && |half| == m + |files| - k && half[m..] == files[k..]
  }

  lemma {:induction false} SameRestRecovers(f: Format, cfg: Config, half: seq<FoundFile>, m: nat,
                                            files: seq<FoundFile>, k: nat, n: nat, issues: seq<Issue>)
    requires f.Valid() && SameRest(half, m, files, k) && k <= n <= |files|
    requires WithoutFirst(RecoverUpTo(f, cfg, half, m), RecoverUpTo(f, cfg, files, k), issues)
    ensures WithoutFirst(RecoverUpTo(f, cfg, half, m + n - k), RecoverUpTo(f, cfg, files, n), issues)
    decreases n
  {
    if n > k {
      SameRestRecovers(f, cfg, half, m, files, k, n - 1, issues);
      assert half[m..][n - 1 - k] == files[k..][n - 1 - k];
      SameNextFile(f, cfg, half, m + n - k, files, n, issues);
    }
  }

  /** Recovering after a recovery was cut off gives the same segments, total and heads; but the
      issues of the files that had been dealt with are kept in memory only, and are gone. */
  lemma {:induction false} RecoveryCrash(f: Format, cfg: Config, files: seq<FoundFile>, k: nat)
    requires f.Valid() && k <= |files| && AscendingFiles(files)
    ensures WithoutFirst(OpenLog(f, cfg, HalfRecovered(f, cfg, files, k)), OpenLog(f, cfg, files),
                         RecoverUpTo(f, cfg, files, k).issues)
  {
    var half, done := HalfRecovered(f, cfg, files, k), RecoverUpTo(f, cfg, files, k);
    HalfRecoveredFront(f, cfg, files, k);
    assert half[|done.segments|..] == files[k..];
    SameRestRecovers(f, cfg, half, |done.segments|, files, k, |files|, done.issues);
  }

  /** The same after a complete recovery: unless something is appended about its issues, no later
      start will know of them, however the log is used until it is closed. */
  lemma {:induction false} IssuesAreForgotten(f: Format, cfg: Config, files: seq<FoundFile>, steps: seq<LogRuns.Step>)
    requires f.Valid() && AscendingFiles(files) && LogRuns.LegalSteps(f, steps)
    ensures var log := LogRuns.Run(f, OpenLog(f, cfg, files), steps);
            CrashedLog(f, log, |log.buffer|).issues == []
                && Durable(CrashedLog(f, log, |log.buffer|)) == Everything(log)
  {
    OpenLogInv(f, cfg, files);
    LogRuns.RunKeepsInv(f, OpenLog(f, cfg, files), steps);
    CompleteCrashLosesNothing(f, LogRuns.Run(f, OpenLog(f, cfg, files), steps));
  }
}
