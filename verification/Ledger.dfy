/** The history of attempts against the log it was written to. */
module Ledger {
  import opened Proto
  import opened Scanning
  import opened WalLog
  import opened LogInvariants
  import opened Cursors
  import opened Rollups
  import opened Manager
  import opened Accounting
  import Retention

  /** The records that the log accepted, in order. */
  function AcceptedRecords(attempts: seq<Attempt>): seq<Record>
    decreases |attempts|
  {
    if attempts == [] then []
    else
      var last := attempts[|attempts| - 1];
      AcceptedRecords(attempts[..|attempts| - 1]) + (if last.accepted then [last.record] else [])
  }

  // The write-ahead log as a journal.

  type LiveLog = log: Log | log.Open() && log.unsynced == |log.pending|
    witness Log(Config(1, 1, 1, 0), [EmptySegment(1)], [], 0, 0, [], [], map[])

  lemma AppendKeepsUnsynced(f: Format, log: Log, record: Record, priority: Priority)
    requires log.Open() && log.unsynced == |log.pending|
    ensures var after := AppendLog(f, log, record, priority); after.unsynced == |after.pending|
  {
    ReadyKeepsRecords(log, |f.frame(record, priority)|);
  }

  /** An append to the journal does what `AppendLog` does, and reports what admission says. */
  ghost predicate Answers(j: Journal<LiveLog>, f: Format, log: LiveLog, record: Record, priority: Priority) {
    && j.append(log, record, priority).0 == AppendLog(f, log, record, priority)
    && j.append(log, record, priority).1 == Admission(log.cfg, log.total, |f.frame(record, priority)|, priority)
  }

  ghost predicate IsWal(j: Journal<LiveLog>, f: Format) {
    forall log: LiveLog, record, priority :: Answers(j, f, log, record, priority)
  }

  function WalAppend(f: Format, log: LiveLog, record: Record, priority: Priority): (LiveLog, Option<Refusal>) {
    AppendKeepsUnsynced(f, log, record, priority);
    (AppendLog(f, log, record, priority), Admission(log.cfg, log.total, |f.frame(record, priority)|, priority))
  }

  function WalJournal(f: Format): Journal<LiveLog> {
    Journal<LiveLog>.Journal((log, record, priority) => WalAppend(f, log, record, priority))
  }

  lemma WalJournalIsWal(f: Format)
    ensures IsWal(WalJournal(f), f)
  {
    forall log: LiveLog, record, priority ensures Answers(WalJournal(f), f, log, record, priority) {}
  }

  lemma WalIsSane(j: Journal<LiveLog>, f: Format)
    requires IsWal(j, f)
    ensures Sane(j)
  {
    forall log: LiveLog, record, priority
      ensures j.append(log, record, priority).1 == Some(ErrDownsampled) ==> priority.Rank() >= P3Optional.Rank()
    {
      assert Answers(j, f, log, record, priority);
    }
  }

  /** An accepted record joins the end of the log; a refused one leaves its records alone. */
  ghost predicate RecordsAt(j: Journal<LiveLog>, log: LiveLog, record: Record, priority: Priority) {
    var (after, err) := j.append(log, record, priority);
    Everything(after) == Everything(log) + if err.None? then [record] else []
  }

  ghost predicate Faithful(j: Journal<LiveLog>) {
    forall log: LiveLog, record, priority :: RecordsAt(j, log, record, priority)
  }

  lemma WalIsFaithful(j: Journal<LiveLog>, f: Format)
    requires IsWal(j, f)
    ensures Faithful(j)
  {
    forall log: LiveLog, record, priority ensures RecordsAt(j, log, record, priority) {
      assert Answers(j, f, log, record, priority);
      AppendExtendsLog(f, log, record, priority);
    }
  }

  // The log against the attempts.

  /** The log is what was there before, and then the accepted records, in order. */
  predicate LogMatches(m: State<LiveLog>, before: seq<Record>) {
    Everything(m.log) == before + AcceptedRecords(m.history.attempts)
  }

  lemma TryMatches(j: Journal<LiveLog>, m: State<LiveLog>, record: Record, priority: Priority, before: seq<Record>)
    requires Faithful(j) && LogMatches(m, before)
    ensures LogMatches(TryAppend(j, m, record, priority), before)
  {
    assert RecordsAt(j, m.log, record, priority);
    var a := Attempt(record, j.append(m.log, record, priority).1.None?);
    assert (m.history.attempts + [a])[..|m.history.attempts|] == m.history.attempts;
    var added := if a.accepted then [record] else [];
    assert before + AcceptedRecords(m.history.attempts) + added
        == before + (AcceptedRecords(m.history.attempts) + added);
  }

  lemma EventMatches(j: Journal<LiveLog>, m: State<LiveLog>, body: Body, priority: Priority, before: seq<Record>)
    requires Faithful(j) && LogMatches(m, before)
    ensures LogMatches(AppendEvent(j, m, body, priority).state, before)
  {
    TryMatches(j, m.(sequence := m.sequence + 1), EventOf(m, body), priority, before);
  }

  lemma GapMatches(j: Journal<LiveLog>, m: State<LiveLog>, start: nat, end: nat, reason: GapReason, before: seq<Record>)
    requires Faithful(j) && LogMatches(m, before)
    ensures LogMatches(AppendGap(j, m, start, end, reason), before)
  {
    TryMatches(j, m, Gap(m.node, m.session, start, end, reason), P0Critical, before);
  }

  lemma LossMatches(j: Journal<LiveLog>, m: State<LiveLog>, failed: nat, before: seq<Record>)
    requires Faithful(j) && LogMatches(m, before)
    ensures LogMatches(AppendLoss(j, m, failed), before)
  {
    var r := AppendEvent(j, m, DataLoss(HardLimitDataLoss, 1), P0Critical);
    EventMatches(j, m, DataLoss(HardLimitDataLoss, 1), P0Critical, before);
    GapMatches(j, r.state, failed, if r.err.Some? && r.sequence > failed then r.sequence else failed,
               HardLimitDataLoss, before);
  }

  lemma EventTickMatches(j: Journal<LiveLog>, m: State<LiveLog>, body: Body, priority: Priority, before: seq<Record>)
    requires Faithful(j) && LogMatches(m, before)
    ensures LogMatches(EventTick(j, m, body, priority), before)
  {
    EventMatches(j, m, body, priority, before);
    var r := AppendEvent(j, m, body, priority);
    LossMatches(j, r.state, r.sequence, before);
  }

  lemma FlushMatches(j: Journal<LiveLog>, m: State<LiveLog>, end: int, before: seq<Record>)
    requires Faithful(j) && LogMatches(m, before)
    ensures LogMatches(FlushRollup(j, m, end), before)
  {
    if m.rollup.Some? && m.rollup.value.count != 0 {
      var rollup := m.rollup.value;
      var closed := CloseBlock(m);
      EventTickMatches(j, closed, StateRollup(Payload(rollup, ClampEnd(rollup.windowStart, end))), P1Important, before);
    }
  }

  lemma FlushCompletedMatches(j: Journal<LiveLog>, m: State<LiveLog>, now: nat, before: seq<Record>)
    requires Faithful(j) && LogMatches(m, before)
    ensures LogMatches(FlushCompleted(j, m, now), before)
  {
    if RollupIsOver(m, now) {
      FlushMatches(j, m, m.rollup.value.windowStart + MINUTE, before);
    }
  }

  lemma ReplacementMatches(j: Journal<LiveLog>, m: State<LiveLog>, now: nat, sample: Sample, skipped: nat,
                           cause: Refusal, before: seq<Record>)
    requires Faithful(j) && Fits(sample) && LogMatches(m, before)
    ensures LogMatches(AppendPressureReplacement(j, m, now, sample, skipped, cause), before)
  {
    if cause == WalLog.ErrNeedsRollup {
      FlushCompletedMatches(j, m, now, before);
      GapMatches(j, Compact(FlushCompleted(j, m, now), now, sample), skipped, skipped, Compacted, before);
    } else {
      LossMatches(j, m, skipped, before);
    }
  }

  lemma SampleMatches(j: Journal<LiveLog>, m: State<LiveLog>, now: nat, sample: Sample, before: seq<Record>)
    requires Faithful(j) && Fits(sample) && LogMatches(m, before)
    ensures LogMatches(SampleTick(j, m, now, sample), before)
  {
    EventMatches(j, m, Body.State(sample), P2Normal, before);
    var event := AppendEvent(j, m, Body.State(sample), P2Normal);
    if event.err.Some? {
      ReplacementMatches(j, event.state, now, sample, event.sequence, event.err.value, before);
    }
  }

  lemma StateTickMatches(j: Journal<LiveLog>, m: State<LiveLog>, flushedAt: nat, now: nat, sample: Sample,
                         moved: bool, before: seq<Record>)
    requires Faithful(j) && Fits(sample) && LogMatches(m, before)
    ensures LogMatches(StateTick(j, m, flushedAt, now, sample, moved), before)
  {
    FlushCompletedMatches(j, m, flushedAt, before);
    SampleMatches(j, FlushCompleted(j, m, flushedAt), now, sample, before);
    if moved {
      var sampled := SampleTick(j, FlushCompleted(j, m, flushedAt), now, sample);
      EventTickMatches(j, sampled, Host, P1Important, before);
    }
  }

  ghost predicate KeepsAt(work: LiveLog -> LiveLog, log: LiveLog) {
    Everything(work(log)) == Everything(log)
  }

  /** Maintenance that reclaims nothing. */
  ghost predicate KeepsRecords(t: Tick<LiveLog>) {
    t.Maintained? ==> forall log: LiveLog :: KeepsAt(t.work, log)
  }

  function SyncWork(log: LiveLog): LiveLog {
    SyncLog(log)
  }

  /** Reclaiming with a copy of the cursors that was taken before. */
  function ReclaimWork(log: LiveLog, snapshot: CursorState): LiveLog {
    ReclaimLog(log, Retention.AckedTest(snapshot))
  }

  lemma SyncWorkKeepsRecords()
    ensures KeepsRecords(Maintained(SyncWork))
  {
    forall log: LiveLog ensures KeepsAt(SyncWork, log) {
      SyncKeepsRecords(log);
    }
  }

  lemma TickMatches(j: Journal<LiveLog>, m: State<LiveLog>, t: Tick<LiveLog>, before: seq<Record>)
    requires Faithful(j) && TickFits(t) && LogMatches(m, before) && KeepsRecords(t)
    ensures LogMatches(Ticked(j, m, t), before)
  {
    match t
    case StateTicked(flushedAt, now, sample, moved) => StateTickMatches(j, m, flushedAt, now, sample, moved, before);
    case HeartbeatTicked => EventTickMatches(j, m, Heartbeat, P0Critical, before);
    case HostTicked => EventTickMatches(j, m, Host, P1Important, before);
    case Maintained(work) => assert KeepsAt(work, m.log);
    case Closed(now) => FlushMatches(j, m, now, before);
  }

  /** Over any run that reclaims nothing, the log is exactly what was there before followed by
      the records of the accepted attempts, in the order they were tried. */
  lemma {:induction false} RunMatches(j: Journal<LiveLog>, m: State<LiveLog>, ticks: seq<Tick<LiveLog>>,
                                      before: seq<Record>)
    requires Faithful(j) && LogMatches(m, before)
    requires forall i | 0 <= i < |ticks| :: TickFits(ticks[i]) && KeepsRecords(ticks[i])
    ensures LogMatches(RunTicks(j, m, ticks), before)
    decreases |ticks|
  {
    if ticks != [] {
      TickMatches(j, m, ticks[0], before);
      RunMatches(j, Ticked(j, m, ticks[0]), ticks[1..], before);
    }
  }

  // What a reader of the log finds.

  predicate Speaks(session: Identity, record: Record, n: nat) {
    && !record.Unset?
    && RecordRange(record).session == session
    && RecordRange(record).start <= n <= RecordRange(record).end
  }

  /** How many records of the session have `n` in their range. */
  function Speaking(session: Identity, records: seq<Record>, n: nat): nat
    decreases |records|
  {
    if records == [] then 0
    else Speaking(session, records[..|records| - 1], n) + if Speaks(session, records[|records| - 1], n) then 1 else 0
  }

  lemma {:induction false} RecordedIsSpeaking(session: Identity, attempts: seq<Attempt>, n: nat)
    ensures Recorded(session, attempts, n) == Speaking(session, AcceptedRecords(attempts), n)
    decreases |attempts|
  {
    if attempts != [] {
      var front, last := attempts[..|attempts| - 1], attempts[|attempts| - 1];
      RecordedIsSpeaking(session, front, n);
      var accepted := AcceptedRecords(front);
      if last.accepted {
        assert (accepted + [last.record])[..|accepted|] == accepted;
      } else {
        assert accepted + [] == accepted;
      }
    }
  }

  /** The log tells the whole story: after any run that reclaims nothing, each number issued
      in it lies in the range of exactly one record that the run added to the log, unless a gap
      around it was refused; and no other number lies in any. */
  lemma {:induction false} LogTellsAll(j: Journal<LiveLog>, f: Format, m: State<LiveLog>, ticks: seq<Tick<LiveLog>>,
                                       n: nat)
    requires IsWal(j, f) && m.history.attempts == []
    requires forall i | 0 <= i < |ticks| :: TickFits(ticks[i]) && KeepsRecords(ticks[i])
    ensures var r := RunTicks(j, m, ticks);
            var issued := m.sequence < n <= r.sequence;
            var lost := exists i | 0 <= i < |r.history.attempts| :: Dropped(m.session, r.history.attempts[i], n);
            && Everything(m.log) <= Everything(r.log)
            && Speaking(m.session, Everything(r.log)[|Everything(m.log)|..], n) == if issued && !lost then 1 else 0
  {
    WalIsSane(j, f);
    WalIsFaithful(j, f);
    var r, before := RunTicks(j, m, ticks), Everything(m.log);
    RunAccounts(j, m, ticks, m.sequence, {});
    RunMatches(j, m, ticks, before);
    assert Everything(r.log)[|before|..] == AcceptedRecords(r.history.attempts);
    RecordedIsSpeaking(m.session, r.history.attempts, n);
    RecordedWithin(m.session, r.history.attempts, n);
  }

  /** So it is when the log is maintained by nothing but the sync timer. */
  lemma {:induction false} SyncedRunTellsAll(j: Journal<LiveLog>, f: Format, m: State<LiveLog>,
                                             ticks: seq<Tick<LiveLog>>, n: nat)
    requires IsWal(j, f) && m.history.attempts == []
    requires forall i | 0 <= i < |ticks| :: TickFits(ticks[i])
    requires forall i | 0 <= i < |ticks| && ticks[i].Maintained? :: ticks[i] == Maintained(SyncWork)
    ensures var r := RunTicks(j, m, ticks);
            var issued := m.sequence < n <= r.sequence;
            var lost := exists i | 0 <= i < |r.history.attempts| :: Dropped(m.session, r.history.attempts[i], n);
            && Everything(m.log) <= Everything(r.log)
            && Speaking(m.session, Everything(r.log)[|Everything(m.log)|..], n) == if issued && !lost then 1 else 0
  {
    SyncWorkKeepsRecords();
    LogTellsAll(j, f, m, ticks, n);
  }
}
