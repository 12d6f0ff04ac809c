/** The collect loop as the agent runs it: an object that owns the session counter, the log
    and the open rollup. Each method is tied to the functions of `Manager`. */
module TelemetryManagers {
  import opened Proto
  import opened WalLog
  import opened Rollups
  import opened Cursors
  import opened Identities
  import opened Manager
  import opened Ledger
  import Retention
  import Wal

  class TelemetryManager {
    const node: Identity
    const session: Session
    const wal: Wal.WAL
    ghost const journal: Journal<LiveLog>
    var latest: nat
    var rollup: PressureStateRollup?
    ghost var history: History

    constructor (node: Identity, session: Session, wal: Wal.WAL, ghost journal: Journal<LiveLog>)
      requires wal.Valid() && IsWal(journal, wal.format)
      ensures Valid() && this.session == session && this.wal == wal && this.journal == journal
      ensures View() == Manager.State<LiveLog>.State(node, session.id, session.sequence, 0, wal.State(), None,
          History([], [], [], []))
    {
      this.node, this.session, this.wal, latest, rollup := node, session, wal, 0, null;
      this.journal := journal;
      history := History([], [], [], []);
    }

    ghost predicate Valid()
      reads this, wal, rollup
    {
      wal.Valid() && IsWal(journal, wal.format) && (rollup != null ==> Fits(rollup.previous))
    }

    ghost function View(): State<LiveLog>
      requires Valid()
      reads this, session, wal, rollup
    {
      Manager.State<LiveLog>.State(node, session.id, session.sequence, latest, wal.State(),
            if rollup == null then None else Some(rollup.View()), history)
    }

    method AppendToLog(record: Record, priority: Priority) returns (err: Option<Refusal>)
      requires Valid()
      modifies wal
      ensures Valid() && View() == old(View()).(log := journal.append(old(View()).log, record, priority).0)
      ensures err == journal.append(old(View()).log, record, priority).1
    {
      ghost var log: LiveLog := wal.State();
      assert Answers(journal, wal.format, log, record, priority);
      err := wal.Append(record, priority);
      assert wal.State() == journal.append(log, record, priority).0;
    }

    method TryAppend(record: Record, priority: Priority) returns (err: Option<Refusal>)
      requires Valid()
      modifies this`history, wal
      ensures Valid() && View() == Manager.TryAppend(journal, old(View()), record, priority)
      ensures err == journal.append(old(View()).log, record, priority).1
    {
      err := AppendToLog(record, priority);
      history := history.(attempts := history.attempts + [Attempt(record, err.None?)]);
    }

    method IssueNumber() returns (sequence: nat)
      requires Valid()
      modifies session
      ensures Valid() && sequence == old(View()).sequence + 1
      ensures View() == old(View()).(sequence := sequence)
    {
      var eventId;
      sequence, eventId := session.Next(node);
    }

    method AppendEvent(body: Body, priority: Priority) returns (sequence: nat, err: Option<Refusal>)
      requires Valid()
      modifies this`history, this`latest, wal, session
      ensures Valid() && Appended(View(), sequence, err) == Manager.AppendEvent(journal, old(View()), body, priority)
    {
      sequence := IssueNumber();
      err := TryAppend(Event(node, session.id, sequence, body), priority);
      if err.Some? {
        return;
      }
      latest := sequence;
    }

    method AppendGap(start: nat, end: nat, reason: GapReason)
      requires Valid()
      modifies this`history, wal
      ensures Valid() && View() == Manager.AppendGap(journal, old(View()), start, end, reason)
    {
      var err := TryAppend(Gap(node, session.id, start, end, reason), P0Critical);
    }

    method AppendLoss(failed: nat)
      requires Valid()
      modifies this`history, this`latest, wal, session
      ensures Valid() && View() == Manager.AppendLoss(journal, old(View()), failed)
    {
      var sequence, err := AppendEvent(DataLoss(HardLimitDataLoss, 1), P0Critical);
      if err.Some? {
        var end := failed;
        if sequence > end {
          end := sequence;
        }
        AppendGap(failed, end, HardLimitDataLoss);
        return;
      }
      AppendGap(failed, failed, HardLimitDataLoss);
    }

    method AppendFailedEventGap(failed: nat)
      requires Valid()
      modifies this`history, this`latest, wal, session
      ensures Valid() && View() == Manager.AppendFailedEventGap(journal, old(View()), failed)
    {
      if failed == 0 {
        return;
      }
      AppendLoss(failed);
    }

    method AppendOrReplace(body: Body, priority: Priority)
      requires Valid()
      modifies this`history, this`latest, wal, session
      ensures Valid() && View() == EventTick(journal, old(View()), body, priority)
    {
      var sequence, err := AppendEvent(body, priority);
      if err.Some? {
        AppendFailedEventGap(sequence);
      }
    }

    method FlushPressureRollup(end: int)
      requires Valid()
      modifies this, wal, session
      ensures Valid() && rollup == null && View() == FlushRollup(journal, old(View()), end)
    {
      ghost var start := View();
      if rollup == null || rollup.count == 0 {
        rollup := null;
        return;
      }
      var closing := rollup;
      rollup := null;
      history := history.(blocks := history.blocks + [history.open], open := []);
      var clamped := end;
      if clamped > closing.windowStart + MINUTE {
        clamped := closing.windowStart + MINUTE;
      }
      if clamped < closing.windowStart {
        clamped := closing.windowStart;
      }
      assert clamped == ClampEnd(closing.windowStart, end);
      AppendOrReplace(StateRollup(Payload(closing.View(), clamped)), P1Important);
    }

    method FlushCompletedPressureRollup(now: nat)
      requires Valid()
      modifies this, wal, session
      ensures Valid() && View() == FlushCompleted(journal, old(View()), now)
      ensures rollup == null || rollup == old(rollup)
    {
      ghost var start := View();
      if rollup != null && rollup.windowStart != MinuteOf(now) {
        assert RollupIsOver(start, now);
        FlushPressureRollup(rollup.windowStart + MINUTE);
      }
    }

    method Fold(now: nat, sample: Sample)
      requires Valid() && Fits(sample)
      requires rollup != null ==> rollup.windowStart == MinuteOf(now)
      modifies this`rollup, this`history, rollup
      ensures Valid() && View() == Compact(old(View()), now, sample)
      ensures rollup == old(rollup) || fresh(rollup)
    {
      if rollup == null {
        rollup := new PressureStateRollup(MinuteOf(now));
      }
      rollup.Add(sample);
      history := history.(compacted := history.compacted + [Compaction(MinuteOf(now), sample)],
                          open := history.open + [sample]);
    }

    method AppendPressureReplacement(now: nat, sample: Sample, skipped: nat, cause: Refusal)
      requires Valid() && Fits(sample)
      modifies this, wal, session, rollup
      ensures Valid() && View() == Manager.AppendPressureReplacement(journal, old(View()), now, sample, skipped, cause)
      ensures rollup == null || rollup == old(rollup) || fresh(rollup)
    {
      if cause == ErrNeedsRollup {
        FlushCompletedPressureRollup(now);
        Fold(now, sample);
        AppendGap(skipped, skipped, Compacted);
        return;
      }
      AppendLoss(skipped);
    }

    method OnStateTick(flushedAt: nat, now: nat, sample: Sample, moved: bool)
      requires Valid() && Fits(sample)
      modifies this, wal, session, rollup
      ensures Valid() && View() == StateTick(journal, old(View()), flushedAt, now, sample, moved)
      ensures rollup == null || rollup == old(rollup) || fresh(rollup)
    {
      FlushCompletedPressureRollup(flushedAt);
      AppendSample(now, sample);
      if moved {
        PublishHost();
      }
    }

    method AppendSample(now: nat, sample: Sample)
      requires Valid() && Fits(sample)
      modifies this, wal, session, rollup
      ensures Valid() && View() == SampleTick(journal, old(View()), now, sample)
      ensures rollup == null || rollup == old(rollup) || fresh(rollup)
    {
      var sequence, err := AppendEvent(Body.State(sample), P2Normal);
      if err == Some(ErrNeedsRollup) || err == Some(ErrHardLimit) {
        AppendPressureReplacement(now, sample, sequence, err.value);
      }
    }

    method OnHeartbeatTick()
      requires Valid()
      modifies this`history, this`latest, wal, session
      ensures Valid() && View() == EventTick(journal, old(View()), Heartbeat, P0Critical)
    {
      AppendOrReplace(Heartbeat, P0Critical);
    }

    method PublishHost()
      requires Valid()
      modifies this`history, this`latest, wal, session
      ensures Valid() && View() == HostTick(journal, old(View()))
    {
      AppendOrReplace(Host, P1Important);
    }

    /** Reclaims with a copy of the cursors that was taken before. */
    method OnGcTick(snapshot: CursorState) returns (reclaimed: int)
      requires Valid()
      modifies wal
      ensures Valid() && View() == old(View()).(log := ReclaimWork(old(View()).log, snapshot))
      ensures reclaimed == old(wal.total) - wal.total
    {
      reclaimed := wal.Reclaim(Retention.AckedTest(snapshot));
    }

    method Close(now: nat)
      requires Valid()
      modifies this, wal, session
      ensures Valid() && rollup == null
      ensures View() == (var flushed := FlushRollup(journal, old(View()), now); flushed.(log := SyncWork(flushed.log)))
    {
      FlushPressureRollup(now);
      wal.Sync();
    }
  }
}
