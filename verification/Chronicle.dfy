/** What the collect loop writes: each tick is tried, every record is well formed and bears the
    numbers that were issued, and the latest number is that of the last event accepted. */
module Chronicle {
  import opened Proto
  import opened Rollups
  import opened Manager
  import opened Ledger
  import opened LogInvariants
  import Scanning
  import WalLog

  /** How many events of each kind were tried. */
  datatype Tally = Tally(heartbeats: nat, hosts: nat, samples: nat) {
    function With(record: Record): Tally {
      if !record.Event? then this
      else
        match record.body
        case Heartbeat => this.(heartbeats := heartbeats + 1)
        case Host => this.(hosts := hosts + 1)
        case State(_) => this.(samples := samples + 1)
        case _ => this
    }

    /** What a tick asks for. */
    function Plus<L>(t: Tick<L>): Tally {
      match t
      case StateTicked(_, _, _, moved) => this.(samples := samples + 1, hosts := hosts + if moved then 1 else 0)
      case HeartbeatTicked => this.(heartbeats := heartbeats + 1)
      case HostTicked => this.(hosts := hosts + 1)
      case Maintained(_) => this
      case Closed(_) => this
    }

    function PlusAll<L>(ticks: seq<Tick<L>>): Tally
      decreases |ticks|
    {
      if ticks == [] then this else Plus(ticks[0]).PlusAll(ticks[1..])
    }
  }

  function TallyOf(attempts: seq<Attempt>): Tally
    decreases |attempts|
  {
    if attempts == [] then Tally(0, 0, 0)
    else TallyOf(attempts[..|attempts| - 1]).With(attempts[|attempts| - 1].record)
  }

  /** The number of the last event that was accepted, zero if none was. */
  function LatestOf(attempts: seq<Attempt>): nat
    decreases |attempts|
  {
    if attempts == [] then 0
    else
      var last := attempts[|attempts| - 1];
      if last.accepted && last.record.Event? then last.record.sequence else LatestOf(attempts[..|attempts| - 1])
  }

  /** A well-formed record of this node and session, about numbers that have been issued. */
  predicate Own(node: Identity, session: Identity, sequence: nat, record: Record) {
    && WalLog.WellFormed(record) && NodeOf(record) == node
    && RecordRange(record).session == session && RecordRange(record).end <= sequence
  }

  predicate AllOwn(node: Identity, session: Identity, sequence: nat, attempts: seq<Attempt>)
    decreases |attempts|
  {
    attempts == [] ||
    (&& AllOwn(node, session, sequence, attempts[..|attempts| - 1])
     && Own(node, session, sequence, attempts[|attempts| - 1].record))
  }

  lemma {:induction false} MoreIssued(node: Identity, session: Identity, sequence: nat, more: nat,
                                      attempts: seq<Attempt>)
    requires AllOwn(node, session, sequence, attempts) && sequence <= more
    ensures AllOwn(node, session, more, attempts)
    decreases |attempts|
  {
    if attempts != [] {
      MoreIssued(node, session, sequence, more, attempts[..|attempts| - 1]);
    }
  }

  lemma {:induction false} AcceptedIsOwn(node: Identity, session: Identity, sequence: nat, attempts: seq<Attempt>,
                                         r: Record)
    requires AllOwn(node, session, sequence, attempts) && r in AcceptedRecords(attempts)
    ensures Own(node, session, sequence, r)
    decreases |attempts|
  {
    var front, last := attempts[..|attempts| - 1], attempts[|attempts| - 1];
    if r in AcceptedRecords(front) {
      AcceptedIsOwn(node, session, sequence, front, r);
    }
  }

  predicate Chronicled<L>(m: State<L>, tally: Tally) {
    && |m.node| == 16 && |m.session| == 16
    && AllOwn(m.node, m.session, m.sequence, m.history.attempts)
    && m.latest == LatestOf(m.history.attempts)
    && TallyOf(m.history.attempts) == tally
  }

  // Each append keeps the chronicle.

  lemma TryChronicles<L>(j: Journal<L>, m: State<L>, record: Record, priority: Priority)
    requires AllOwn(m.node, m.session, m.sequence, m.history.attempts) && Own(m.node, m.session, m.sequence, record)
    ensures var r, accepted := TryAppend(j, m, record, priority), j.append(m.log, record, priority).1.None?;
            && AllOwn(r.node, r.session, r.sequence, r.history.attempts)
            && TallyOf(r.history.attempts) == TallyOf(m.history.attempts).With(record)
            && LatestOf(r.history.attempts)
               == if accepted && record.Event? then record.sequence else LatestOf(m.history.attempts)
  {
    var a := Attempt(record, j.append(m.log, record, priority).1.None?);
    assert (m.history.attempts + [a])[..|m.history.attempts|] == m.history.attempts;
  }

  lemma EventChronicles<L>(j: Journal<L>, m: State<L>, body: Body, priority: Priority, tally: Tally)
    requires Chronicled(m, tally)
    ensures Chronicled(AppendEvent(j, m, body, priority).state, tally.With(EventOf(m, body)))
    ensures AppendEvent(j, m, body, priority).state.sequence == m.sequence + 1
  {
    MoreIssued(m.node, m.session, m.sequence, m.sequence + 1, m.history.attempts);
    TryChronicles(j, m.(sequence := m.sequence + 1), EventOf(m, body), priority);
  }

  lemma GapChronicles<L>(j: Journal<L>, m: State<L>, start: nat, end: nat, reason: GapReason, tally: Tally)
    requires Chronicled(m, tally) && 0 < start <= end <= m.sequence
    ensures Chronicled(AppendGap(j, m, start, end, reason), tally)
  {
    TryChronicles(j, m, Gap(m.node, m.session, start, end, reason), P0Critical);
  }

  lemma LossChronicles<L>(j: Journal<L>, m: State<L>, failed: nat, tally: Tally)
    requires Chronicled(m, tally) && 0 < failed <= m.sequence
    ensures Chronicled(AppendLoss(j, m, failed), tally)
  {
    var r := AppendEvent(j, m, DataLoss(HardLimitDataLoss, 1), P0Critical);
    EventChronicles(j, m, DataLoss(HardLimitDataLoss, 1), P0Critical, tally);
    GapChronicles(j, r.state, failed, if r.err.Some? && r.sequence > failed then r.sequence else failed,
                  HardLimitDataLoss, tally);
  }

  lemma EventTickChronicles<L>(j: Journal<L>, m: State<L>, body: Body, priority: Priority, tally: Tally)
    requires Chronicled(m, tally)
    ensures Chronicled(EventTick(j, m, body, priority), tally.With(EventOf(m, body)))
  {
    EventChronicles(j, m, body, priority, tally);
    var r := AppendEvent(j, m, body, priority);
    LossChronicles(j, r.state, r.sequence, tally.With(EventOf(m, body)));
  }

  lemma FlushChronicles<L>(j: Journal<L>, m: State<L>, end: int, tally: Tally)
    requires Chronicled(m, tally)
    ensures Chronicled(FlushRollup(j, m, end), tally)
  {
    if m.rollup.Some? && m.rollup.value.count != 0 {
      var rollup, closed := m.rollup.value, CloseBlock(m);
      assert Chronicled(closed, tally);
      EventTickChronicles(j, closed, StateRollup(Payload(rollup, ClampEnd(rollup.windowStart, end))), P1Important,
          tally);
    }
  }

  lemma FlushAtEndChronicles<L>(j: Journal<L>, m: State<L>, tally: Tally)
    requires m.rollup.Some? && Chronicled(m, tally)
    ensures Chronicled(FlushAtWindowEnd(j, m), tally)
  {
    FlushChronicles(j, m, m.rollup.value.windowStart + MINUTE, tally);
  }

  lemma FlushCompletedChronicles<L>(j: Journal<L>, m: State<L>, now: nat, tally: Tally)
    requires Chronicled(m, tally)
    ensures Chronicled(FlushCompleted(j, m, now), tally)
  {
    if RollupIsOver(m, now) {
      FlushAtEndChronicles(j, m, tally);
    }
  }

  lemma FlushIssues<L>(j: Journal<L>, m: State<L>, now: nat)
    ensures m.sequence <= FlushCompleted(j, m, now).sequence
  {
  }

  lemma ReplacementChronicles<L>(j: Journal<L>, m: State<L>, now: nat, sample: Sample, skipped: nat, cause: Refusal,
                                 tally: Tally)
    requires Fits(sample) && Chronicled(m, tally) && 0 < skipped <= m.sequence
    ensures Chronicled(AppendPressureReplacement(j, m, now, sample, skipped, cause), tally)
  {
    if cause == WalLog.ErrNeedsRollup {
      FlushCompletedChronicles(j, m, now, tally);
      FlushIssues(j, m, now);
      var compacted := Compact(FlushCompleted(j, m, now), now, sample);
      assert Chronicled(compacted, tally);
      GapChronicles(j, compacted, skipped, skipped, Compacted, tally);
    } else {
      LossChronicles(j, m, skipped, tally);
    }
  }

  lemma SampleChronicles<L>(j: Journal<L>, m: State<L>, now: nat, sample: Sample, tally: Tally)
    requires Fits(sample) && Chronicled(m, tally)
    ensures Chronicled(SampleTick(j, m, now, sample), tally.(samples := tally.samples + 1))
  {
    EventChronicles(j, m, Body.State(sample), P2Normal, tally);
    var event := AppendEvent(j, m, Body.State(sample), P2Normal);
    if event.err.Some? {
      ReplacementChronicles(j, event.state, now, sample, event.sequence, event.err.value,
          tally.(samples := tally.samples + 1));
    }
  }

  lemma StateTickChronicles<L>(j: Journal<L>, m: State<L>, flushedAt: nat, now: nat, sample: Sample, moved: bool,
                               tally: Tally)
    requires Fits(sample) && Chronicled(m, tally)
    ensures Chronicled(StateTick(j, m, flushedAt, now, sample, moved),
                       tally.Plus(Tick<L>.StateTicked(flushedAt, now, sample, moved)))
  {
    FlushCompletedChronicles(j, m, flushedAt, tally);
    SampleChronicles(j, FlushCompleted(j, m, flushedAt), now, sample, tally);
    if moved {
      EventTickChronicles(j, SampleTick(j, FlushCompleted(j, m, flushedAt), now, sample), Host, P1Important,
          tally.(samples := tally.samples + 1));
    }
  }

  lemma TickChronicles<L>(j: Journal<L>, m: State<L>, t: Tick<L>, tally: Tally)
    requires TickFits(t) && Chronicled(m, tally)
    ensures Chronicled(Ticked(j, m, t), tally.Plus(t))
  {
    match t
    case StateTicked(flushedAt, now, sample, moved) =>
      StateTickChronicles(j, m, flushedAt, now, sample, moved, tally);
    case HeartbeatTicked => EventTickChronicles(j, m, Heartbeat, P0Critical, tally);
    case HostTicked => EventTickChronicles(j, m, Host, P1Important, tally);
    case Maintained(work) =>
    case Closed(now) => FlushChronicles(j, m, now, tally);
  }

  /** Over any run, whatever the log refuses: as many heartbeats, hosts and samples are tried as the
      ticks ask for, every record is well formed and about issued numbers of this session, and the
      latest number is that of the last event that was accepted. */
  lemma {:induction false} RunChronicles<L>(j: Journal<L>, m: State<L>, ticks: seq<Tick<L>>, tally: Tally)
    requires Chronicled(m, tally) && forall i | 0 <= i < |ticks| :: TickFits(ticks[i])
    ensures Chronicled(RunTicks(j, m, ticks), tally.PlusAll(ticks))
    decreases |ticks|
  {
    if ticks != [] {
      TickChronicles(j, m, ticks[0], tally);
      RunChronicles(j, Ticked(j, m, ticks[0]), ticks[1..], tally.Plus(ticks[0]));
    }
  }

  /** So a run adds to the log only records that take part in manifests, with start <= end. */
  lemma {:induction false} AddedRecordsAreWellFormed(j: Journal<LiveLog>, f: Scanning.Format, m: State<LiveLog>,
                                                     ticks: seq<Tick<LiveLog>>, r: Record)
    requires IsWal(j, f) && m.history.attempts == [] && m.latest == 0 && |m.node| == 16 && |m.session| == 16
    requires forall i | 0 <= i < |ticks| :: TickFits(ticks[i]) && KeepsRecords(ticks[i])
    requires r in Everything(RunTicks(j, m, ticks).log)
    ensures var end := RunTicks(j, m, ticks);
            r in Everything(m.log) || Own(end.node, end.session, end.sequence, r)
  {
    WalIsFaithful(j, f);
    RunMatches(j, m, ticks, Everything(m.log));
    RunChronicles(j, m, ticks, Tally(0, 0, 0));
    var end := RunTicks(j, m, ticks);
    if r !in Everything(m.log) {
      AcceptedIsOwn(end.node, end.session, end.sequence, end.history.attempts, r);
    }
  }
}
