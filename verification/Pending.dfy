/** The index of durable heads against the log it stands for. */
module Pending {
  import opened Proto
  import opened Scanning
  import opened WalLog
  import opened LogInvariants
  import opened Cursors
  import Recovery
  import LogRuns

  function SeesHead(e: Endpoint): (Identity, nat) -> bool {
    (session: Identity, sequence: nat) => VisibleTo(e, session, 1, sequence)
  }

  function SeesRecord(e: Endpoint): Record -> bool {
    record => RecordVisibleTo(e, record)
  }

  /** What the send loop asks for: the index first, the log only if the index says so. */
  function PendingFor(log: Log, e: Endpoint, limit: int): seq<Record> {
    if !e.reliable then []
    else if !AnyHead(log, SeesHead(e)) then []
    else Collected(log, SeesRecord(e), limit)
  }

  // Matching.

  lemma {:induction false} MatchingMembers(records: seq<Record>, match_: Record -> bool, r: Record)
    ensures r in Matching(records, match_) <==> r in records && match_(r)
  {
    if records != [] {
      MatchingMembers(records[1..], match_, r);
      assert records == [records[0]] + records[1..];
    }
  }

  lemma CollectedMembers(log: Log, match_: Record -> bool, limit: int, r: Record)
    requires r in Collected(log, match_, limit)
    ensures r in Durable(log) && match_(r)
  {
    MatchingMembers(Durable(log), match_, r);
  }

  /** `picked` are the records at those places, in their order, all of which match. */
  predicate PickedAt(records: seq<Record>, match_: Record -> bool, picked: seq<Record>, at: seq<nat>) {
    && |at| == |picked|
    && (forall k | 0 <= k < |at| :: at[k] < |records| && picked[k] == records[at[k]] && match_(picked[k]))
    && (forall k, l | 0 <= k < l < |at| :: at[k] < at[l])
  }

  /** Every matching record is at one of the places. */
  predicate NoneMissed(records: seq<Record>, match_: Record -> bool, at: seq<nat>) {
    forall i | 0 <= i < |records| && match_(records[i]) :: i in at
  }

  /** The places seen from one record further in front. */
  function Shifted(at: seq<nat>): (shifted: seq<nat>)
    ensures |shifted| == |at|
  {
    seq(|at|, k requires 0 <= k < |at| => at[k] + 1)
  }

  lemma ShiftedPlaces(first: Record, records: seq<Record>, match_: Record -> bool, picked: seq<Record>, at: seq<nat>)
    requires PickedAt(records, match_, picked, at)
    ensures PickedAt([first] + records, match_, picked, Shifted(at))
    ensures match_(first) ==> PickedAt([first] + records, match_, [first] + picked, [0] + Shifted(at))
  {
  }

  lemma ShiftedMisses(first: Record, records: seq<Record>, match_: Record -> bool, at: seq<nat>)
    requires NoneMissed(records, match_, at)
    ensures NoneMissed([first] + records, match_, [0] + Shifted(at))
    ensures !match_(first) ==> NoneMissed([first] + records, match_, Shifted(at))
  {
    forall i | 0 < i <= |records| && match_(([first] + records)[i]) ensures i in Shifted(at) {
      assert records[i - 1] == ([first] + records)[i];
      var k :| 0 <= k < |at| && at[k] == i - 1;
      assert Shifted(at)[k] == i;
    }
  }

  lemma {:induction false} MatchingPlaces(records: seq<Record>, match_: Record -> bool) returns (at: seq<nat>)
    ensures PickedAt(records, match_, Matching(records, match_), at) && NoneMissed(records, match_, at)
    decreases |records|
  {
    if records == [] {
      at := [];
    } else {
      var first, rest := records[0], records[1..];
      var places := MatchingPlaces(rest, match_);
      ShiftedPlaces(first, rest, match_, Matching(rest, match_), places);
      ShiftedMisses(first, rest, match_, places);
      assert [first] + rest == records;
      assert [] + Matching(rest, match_) == Matching(rest, match_);
      at := if match_(first) then [0] + Shifted(places) else Shifted(places);
    }
  }

  /** A batch holds at most as many records as it may, all of which match, in the order of the log;
      and a matching record that is left out comes after a batch that is full. */
  lemma CollectedPlaces(log: Log, match_: Record -> bool, limit: int) returns (at: seq<nat>)
    ensures PickedAt(Durable(log), match_, Collected(log, match_, limit), at)
    ensures if limit <= 0 then at == [] else |at| <= limit
    ensures forall i | 0 <= i < |Durable(log)| && match_(Durable(log)[i]) ::
              i in at || (|at| >= limit && forall k | 0 <= k < |at| :: at[k] < i)
  {
    var all := MatchingPlaces(Durable(log), match_);
    at := if limit <= 0 then [] else if |all| <= limit then all else all[..limit];
    forall i | 0 <= i < |Durable(log)| && match_(Durable(log)[i])
      ensures i in at || (|at| >= limit && forall k | 0 <= k < |at| :: at[k] < i)
    {
      var k :| 0 <= k < |all| && all[k] == i;
      if k < |at| {
        assert at[k] == i;
      }
    }
  }

  // The index never misses.

  /** A durable record that an endpoint sees shows in the index. */
  lemma IndexNeverMisses(log: Log, e: Endpoint, r: Record)
    requires Indexed(log) && r in Durable(log) && RecordVisibleTo(e, r)
    ensures AnyHead(log, SeesHead(e))
  {
    InRecordsIn(log.segments, r);
    var span := RecordRange(r);
    assert HeadCovers(log.heads, r);
    assert SeesHead(e)(span.session, log.heads[span.session]);
  }

  /** That is so in every reachable state: after appends of any records, syncs, reclaims and crashes. */
  lemma {:induction false} IndexNeverMissesOnRuns(f: Format, log: Log, steps: seq<LogRuns.Step>, e: Endpoint, r: Record)
    requires f.Valid() && Sound(log)
    requires r in Durable(LogRuns.Run(f, log, steps)) && RecordVisibleTo(e, r)
    ensures AnyHead(LogRuns.Run(f, log, steps), SeesHead(e))
  {
    LogRuns.RunKeepsSound(f, log, steps);
    IndexNeverMisses(LogRuns.Run(f, log, steps), e, r);
  }

  /** So the shortcut is safe: it changes no batch. */
  lemma ShortcutChangesNothing(log: Log, e: Endpoint, limit: int)
    requires Indexed(log)
    ensures PendingFor(log, e, limit) == Collected(log, SeesRecord(e), limit)
  {
    var all := Matching(Durable(log), SeesRecord(e));
    if all != [] {
      MatchingMembers(Durable(log), SeesRecord(e), all[0]);
      IndexNeverMisses(log, e, all[0]);
    }
  }

  // Without reclaiming, the index is exact.

  /** The heads are those of the durable records, no more. */
  predicate HeadsExact(log: Log) {
    log.heads == NoteAll(map[], Durable(log))
  }

  lemma {:induction false} HeadsAttained(records: seq<Record>, session: Identity)
    requires session in NoteAll(map[], records)
    ensures session != [] && NoteAll(map[], records)[session] > 0
    ensures exists r | r in records ::
              RecordRange(r).session == session && RecordRange(r).end == NoteAll(map[], records)[session]
  {
    var front, last := records[..|records| - 1], records[|records| - 1];
    if session in NoteAll(map[], front) && NoteAll(map[], front)[session] == NoteAll(map[], records)[session] {
      HeadsAttained(front, session);
      var r :| r in front && RecordRange(r).session == session && RecordRange(r).end == NoteAll(map[], front)[session];
      assert r in records;
    } else {
      assert last in records;
    }
  }

  predicate Ordered(records: seq<Record>) {
    forall r <- records :: RecordRange(r).start <= RecordRange(r).end
  }

  /** Every head of the index is the end of some durable record with start <= end. */
  predicate HeadsStand(log: Log) {
    forall session | session in log.heads :: exists r | r in Durable(log) ::
      RecordRange(r).session == session && RecordRange(r).start <= RecordRange(r).end == log.heads[session]
  }

  lemma ExactHeadsStand(log: Log)
    requires HeadsExact(log) && Ordered(Durable(log))
    ensures HeadsStand(log)
  {
    forall session | session in log.heads
      ensures exists r | r in Durable(log) ::
        RecordRange(r).session == session && RecordRange(r).start <= RecordRange(r).end == log.heads[session]
    {
      HeadsAttained(Durable(log), session);
    }
  }

  /** The index tells the truth to an endpoint: it is set if and only if there is something to send. */
  ghost predicate TruthfulTo(log: Log, e: Endpoint, limit: int) {
    AnyHead(log, SeesHead(e)) <==> Collected(log, SeesRecord(e), limit) != []
  }

  lemma StandingHeadsAreTruthful(log: Log, e: Endpoint, limit: int)
    requires Indexed(log) && HeadsStand(log) && limit >= 1
    ensures TruthfulTo(log, e, limit)
  {
    var collected := Collected(log, SeesRecord(e), limit);
    if collected != [] {
      CollectedMembers(log, SeesRecord(e), limit, collected[0]);
      IndexNeverMisses(log, e, collected[0]);
    }
    if AnyHead(log, SeesHead(e)) {
      var session :| session in log.heads && SeesHead(e)(session, log.heads[session]);
      var r :| r in Durable(log) && RecordRange(r).session == session
               && RecordRange(r).start <= RecordRange(r).end == log.heads[session];
      MatchingMembers(Durable(log), SeesRecord(e), r);
    }
  }

  /** An endpoint that has everything of the session but the head itself. */
  function OneBehind(session: Identity, head: nat): Endpoint
    requires head > 0
  {
    Endpoint(1, true, [], 0, map[session := head - 1], map[])
  }

  lemma TruthNeedsStandingHead(log: Log, session: Identity, limit: int)
    requires Indexed(log) && session in log.heads && TruthfulTo(log, OneBehind(session, log.heads[session]), limit)
    ensures exists r | r in Durable(log) ::
              RecordRange(r).session == session && RecordRange(r).start <= RecordRange(r).end == log.heads[session]
  {
    var e := OneBehind(session, log.heads[session]);
    assert SeesHead(e)(session, log.heads[session]);
    var r := Collected(log, SeesRecord(e), limit)[0];
    CollectedMembers(log, SeesRecord(e), limit, r);
    InRecordsIn(log.segments, r);
    assert HeadCovers(log.heads, r);
  }

  /** The index tells every endpoint the truth if and only if all its heads stand. */
  lemma IndexIsExactIff(log: Log, limit: int)
    requires Indexed(log) && limit >= 1
    ensures (forall e :: TruthfulTo(log, e, limit)) <==> HeadsStand(log)
  {
    if HeadsStand(log) {
      forall e ensures TruthfulTo(log, e, limit) {
        StandingHeadsAreTruthful(log, e, limit);
      }
    }
    if forall e :: TruthfulTo(log, e, limit) {
      forall session | session in log.heads
        ensures exists r | r in Durable(log) ::
          RecordRange(r).session == session && RecordRange(r).start <= RecordRange(r).end == log.heads[session]
      {
        assert TruthfulTo(log, OneBehind(session, log.heads[session]), limit);
        TruthNeedsStandingHead(log, session, limit);
      }
    }
  }

  /** On runs without reclaim whose records all have start <= end the index is exact. */
  lemma {:induction false} IndexIsExactOnRuns(f: Format, log: Log, steps: seq<LogRuns.Step>, e: Endpoint, limit: int)
    requires f.Valid() && Sound(log) && LogRuns.ReclaimFree(steps) && HeadsExact(log)
    requires Ordered(Durable(LogRuns.Run(f, log, steps))) && limit >= 1
    ensures TruthfulTo(LogRuns.Run(f, log, steps), e, limit)
  {
    RunKeepsHeadsExact(f, log, steps);
    LogRuns.RunKeepsSound(f, log, steps);
    ExactHeadsStand(LogRuns.Run(f, log, steps));
    StandingHeadsAreTruthful(LogRuns.Run(f, log, steps), e, limit);
  }

  lemma SyncKeepsHeadsExact(log: Log)
    requires log.Open() && log.unsynced == |log.pending| && HeadsExact(log)
    ensures HeadsExact(SyncLog(log))
  {
    SyncMovesPending(log);
    Recovery.NoteAllConcat(map[], Durable(log), log.pending);
  }

  lemma ReadyKeepsHeadsExact(log: Log, frameSize: nat)
    requires log.Open() && log.unsynced == |log.pending| && HeadsExact(log)
    ensures HeadsExact(ReadyLog(log, frameSize))
  {
    SyncKeepsHeadsExact(log);
    RotateMovesPending(log);
    SyncMovesPending(log);
  }

  lemma AppendKeepsHeadsExact(f: Format, log: Log, record: Record, priority: Priority)
    requires log.Open() && log.unsynced == |log.pending| && HeadsExact(log)
    ensures HeadsExact(AppendLog(f, log, record, priority))
  {
    var size := |f.frame(record, priority)|;
    ReadyKeepsRecords(log, size);
    ReadyKeepsHeadsExact(log, size);
    WriteAddsPending(f, ReadyLog(log, size), record, priority);
    SyncKeepsHeadsExact(WriteLog(f, ReadyLog(log, size), record, priority));
  }

  lemma StepKeepsHeadsExact(f: Format, log: Log, step: LogRuns.Step)
    requires f.Valid() && Shape(log) && !step.ReclaimStep? && HeadsExact(log)
    ensures HeadsExact(LogRuns.After(f, log, step))
  {
    match step {
      case AppendStep(record, priority) => AppendKeepsHeadsExact(f, log, record, priority);
      case SyncStep => SyncKeepsHeadsExact(log);
      case CrashStep(kept) =>
        var n := if kept <= |log.buffer| then kept else |log.buffer|;
        Recovery.CrashFilesAscend(log, n);
        Recovery.OpenLogInv(f, log.cfg, Recovery.CrashFiles(log, n));
    }
  }

  /** Exact heads survive everything but reclaiming, crashes included. */
  lemma {:induction false} RunKeepsHeadsExact(f: Format, log: Log, steps: seq<LogRuns.Step>)
    requires f.Valid() && Sound(log) && LogRuns.ReclaimFree(steps) && HeadsExact(log)
    ensures HeadsExact(LogRuns.Run(f, log, steps))
    decreases |steps|
  {
    if steps != [] {
      LogRuns.StepKeepsSound(f, log, steps[0]);
      StepKeepsHeadsExact(f, log, steps[0]);
      RunKeepsHeadsExact(f, LogRuns.After(f, log, steps[0]), steps[1..]);
    }
  }

  /** Reclaiming is what breaks exactness: it drops records but never lowers a head, so an
      endpoint that starts from nothing afterwards finds the index set and the log empty. */
  lemma ReclaimedHeadStays(f: Format, cfg: Config, node: Identity, session: Identity)
    requires f.Valid() && session != [] && f.legal(Event(node, session, 1, Heartbeat))
    ensures var log := Recovery.OpenLog(f, cfg, Recovery.OldRecordFiles(f, Event(node, session, 1, Heartbeat)));
            var after := ReclaimLog(log, r => true);
            var late := Endpoint(1, true, session, 1, map[session := 0], map[session := 1]);
            && Inv(f, log) && HeadsExact(log)
            && AnyHead(after, SeesHead(late)) && forall limit :: Collected(after, SeesRecord(late), limit) == []
  {
    var r := Event(node, session, 1, Heartbeat);
    var log := Recovery.OpenLog(f, cfg, Recovery.OldRecordFiles(f, r));
    Recovery.OldRecordLog(f, cfg, r);
    Recovery.OldRecordReclaimed(log, r, x => true);
    OneHead(r);
    var late := Endpoint(1, true, session, 1, map[session := 0], map[session := 1]);
    assert SeesHead(late)(session, ReclaimLog(log, x => true).heads[session]);
  }

  lemma OneHead(r: Record)
    requires RecordRange(r).session != [] && RecordRange(r).end > 0
    ensures NoteAll(map[], [r]) == map[RecordRange(r).session := RecordRange(r).end]
  {
    assert NoteAll(map[], [r]) == NoteDurable(NoteAll(map[], []), r);
  }
}
