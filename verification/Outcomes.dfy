/** What becomes of each tick of the collect loop, by the answer of the log, and, on the
    write-ahead log, by the size that the log would have. */
module Outcomes {
  import opened Proto
  import opened Scanning
  import opened Rollups
  import opened Manager
  import opened Ledger
  import WalLog
  import LogRuns

  // Losses.

  /** What stands for a number that was refused for good: a data-loss event with the next number,
      and a gap from the number up to whatever was not recorded. */
  predicate LossReport<L>(m: State<L>, failed: nat, report: seq<Attempt>) {
    && |report| == 2
    && report[0].record == Event(m.node, m.session, m.sequence + 1, DataLoss(HardLimitDataLoss, 1))
    && report[1].record
       == Gap(m.node, m.session, failed, if report[0].accepted then failed else m.sequence + 1, HardLimitDataLoss)
  }

  /** Nothing has been compacted or emitted. */
  predicate SameRollup<L>(m: State<L>, after: State<L>) {
    && after.rollup == m.rollup && after.history.compacted == m.history.compacted
    && after.history.blocks == m.history.blocks && after.history.open == m.history.open
  }

  lemma LossIsReported<L>(j: Journal<L>, m: State<L>, failed: nat)
    requires failed <= m.sequence
    ensures var r, before := AppendLoss(j, m, failed), m.history.attempts;
            && SameRollup(m, r) && before <= r.history.attempts
            && LossReport(m, failed, r.history.attempts[|before|..])
            && r.history.attempts[|before|].accepted
               == j.append(m.log, r.history.attempts[|before|].record, P0Critical).1.None?
  {
  }

  /** There is no number zero; any other number that failed is reported lost. */
  lemma FailedEventOutcome<L>(j: Journal<L>, m: State<L>, failed: nat)
    requires failed <= m.sequence
    ensures var r, before := AppendFailedEventGap(j, m, failed), m.history.attempts;
            if failed == 0 then r == m
            else before <= r.history.attempts && LossReport(m, failed, r.history.attempts[|before|..])
  {
    LossIsReported(j, m, failed);
  }

  // Events.

  /** An event is tried first; when it is refused, its loss is reported, and nothing else happens. */
  lemma EventOutcome<L>(j: Journal<L>, m: State<L>, body: Body, priority: Priority)
    ensures var r, before := EventTick(j, m, body, priority), m.history.attempts;
            var tried := Attempt(EventOf(m, body), j.append(m.log, EventOf(m, body), priority).1.None?);
            && before + [tried] <= r.history.attempts && SameRollup(m, r)
            && (if tried.accepted then r.history.attempts == before + [tried]
                else LossReport(m.(sequence := m.sequence + 1), m.sequence + 1, r.history.attempts[|before| + 1..]))
  {
    var event := AppendEvent(j, m, body, priority);
    if event.err.Some? {
      LossIsReported(j, event.state, event.sequence);
    }
  }

  // Rollups.

  /** The open rollup is tried as an event over its window, cut to the minute; when it is refused
      its loss is reported, and nothing else happens. */
  lemma FlushOutcome<L>(j: Journal<L>, m: State<L>, end: int)
    requires m.rollup.Some? && m.rollup.value.count > 0
    ensures var r, before, rollup := FlushRollup(j, m, end), m.history.attempts, m.rollup.value;
            var event := EventOf(m, StateRollup(Payload(rollup, ClampEnd(rollup.windowStart, end))));
            var tried := Attempt(event, j.append(m.log, event, P1Important).1.None?);
            && r.rollup.None? && before + [tried] <= r.history.attempts
            && (if tried.accepted then r.history.attempts == before + [tried]
                else LossReport(m.(sequence := m.sequence + 1), m.sequence + 1, r.history.attempts[|before| + 1..]))
  {
    var rollup := m.rollup.value;
    EventOutcome(j, CloseBlock(m), StateRollup(Payload(rollup, ClampEnd(rollup.windowStart, end))), P1Important);
  }

  /** A rollup stays open for exactly as long as its minute lasts, and is then emitted over all of it. */
  lemma CompletedOutcome<L>(j: Journal<L>, m: State<L>, now: nat)
    requires m.rollup.Some? && m.rollup.value.count > 0 && m.rollup.value.windowStart % MINUTE == 0
    ensures var r, before, start := FlushCompleted(j, m, now), m.history.attempts, m.rollup.value.windowStart;
            if start <= now < start + MINUTE
            then r == m
            else && r.rollup.None? && |before| < |r.history.attempts|
                 && r.history.attempts[|before|].record
                    == EventOf(m, StateRollup(Payload(m.rollup.value, start + MINUTE)))
  {
    MinuteContains(now);
    if RollupIsOver(m, now) {
      FlushOutcome(j, m, m.rollup.value.windowStart + MINUTE);
    }
  }

  lemma FlushExtends<L>(j: Journal<L>, m: State<L>, now: nat)
    ensures m.history.attempts <= FlushCompleted(j, m, now).history.attempts
    ensures m.history.compacted == FlushCompleted(j, m, now).history.compacted
    ensures FlushCompleted(j, m, now).node == m.node && FlushCompleted(j, m, now).session == m.session
  {
    if RollupIsOver(m, now) && m.rollup.value.count > 0 {
      var rollup := m.rollup.value;
      FlushOutcome(j, m, rollup.windowStart + MINUTE);
      EventOutcome(j, CloseBlock(m), StateRollup(Payload(rollup, ClampEnd(rollup.windowStart,
          rollup.windowStart + MINUTE))), P1Important);
    }
  }

  // Samples.

  function SampleEvent<L>(m: State<L>, sample: Sample): Record {
    EventOf(m, Body.State(sample))
  }

  /** What the log answers to the sample. */
  function Answer<L>(j: Journal<L>, m: State<L>, sample: Sample): Option<Refusal> {
    j.append(m.log, SampleEvent(m, sample), P2Normal).1
  }

  /** A sample that the log takes is one event, and nothing else. */
  lemma RecordedSample<L>(j: Journal<L>, m: State<L>, now: nat, sample: Sample)
    requires Fits(sample) && Answer(j, m, sample).None?
    ensures var r := SampleTick(j, m, now, sample);
            && r.history.attempts == m.history.attempts + [Attempt(SampleEvent(m, sample), true)]
            && SameRollup(m, r) && r.latest == m.sequence + 1
  {
  }

  /** Under rollup pressure a sample is compacted: it joins the rollup of its own minute, and a gap
      for its number says so. Its loss is not reported. */
  lemma CompactedSample<L>(j: Journal<L>, m: State<L>, now: nat, sample: Sample)
    requires Fits(sample) && Answer(j, m, sample) == Some(WalLog.ErrNeedsRollup)
    ensures var r, number := SampleTick(j, m, now, sample), m.sequence + 1;
            && r.history.compacted == m.history.compacted + [Compaction(MinuteOf(now), sample)]
            && r.rollup.Some? && r.rollup.value.windowStart == MinuteOf(now) && r.rollup.value.previous == sample
            && m.history.attempts + [Attempt(SampleEvent(m, sample), false)] <= r.history.attempts
            && r.history.attempts[|r.history.attempts| - 1].record
               == Gap(m.node, m.session, number, number, Compacted)
            && (!RollupIsOver(m, now) ==> |r.history.attempts| == |m.history.attempts| + 2)
  {
    var refused := AppendEvent(j, m, Body.State(sample), P2Normal).state;
    FlushExtends(j, refused, now);
    CompactJoins(FlushCompleted(j, refused, now), now, sample);
  }

  lemma CompactJoins<L>(m: State<L>, now: nat, sample: Sample)
    requires Fits(sample) && (m.rollup.Some? ==> m.rollup.value.windowStart == MinuteOf(now))
    ensures var r := Compact(m, now, sample);
            r.rollup.Some? && r.rollup.value.windowStart == MinuteOf(now) && r.rollup.value.previous == sample
  {
  }

  /** At the hard limit a sample is lost: its loss is reported, and it joins no rollup. */
  lemma LostSample<L>(j: Journal<L>, m: State<L>, now: nat, sample: Sample)
    requires Fits(sample) && Answer(j, m, sample) == Some(WalLog.ErrHardLimit)
    ensures var r, before := SampleTick(j, m, now, sample), m.history.attempts;
            && SameRollup(m, r)
            && before + [Attempt(SampleEvent(m, sample), false)] <= r.history.attempts
            && LossReport(m.(sequence := m.sequence + 1), m.sequence + 1, r.history.attempts[|before| + 1..])
  {
    var refused := AppendEvent(j, m, Body.State(sample), P2Normal).state;
    LossIsReported(j, refused, m.sequence + 1);
  }

  /** A tick of the state timer emits the rollup first when its minute is over, and leaves none
      open but that of the minute of the flush or of the sample. */
  lemma StateTickFlushesFirst<L>(j: Journal<L>, m: State<L>, flushedAt: nat, now: nat, sample: Sample, moved: bool)
    requires Fits(sample)
    ensures var r := StateTick(j, m, flushedAt, now, sample, moved);
            && FlushCompleted(j, m, flushedAt).history.attempts <= r.history.attempts
            && (r.rollup.Some? ==> r.rollup.value.windowStart in {MinuteOf(flushedAt), MinuteOf(now)})
  {
    var flushed := FlushCompleted(j, m, flushedAt);
    var sampled := SampleTick(j, flushed, now, sample);
    SampleExtends(j, flushed, now, sample);
    EventOutcome(j, sampled, Host, P1Important);
  }

  lemma SampleExtends<L>(j: Journal<L>, m: State<L>, now: nat, sample: Sample)
    requires Fits(sample)
    ensures var r := SampleTick(j, m, now, sample);
            && m.history.attempts <= r.history.attempts
            && (r.rollup == m.rollup || (r.rollup.Some? && r.rollup.value.windowStart == MinuteOf(now)))
  {
    match Answer(j, m, sample) {
      case Some(ErrNeedsRollup) => CompactedSample(j, m, now, sample);
      case Some(ErrHardLimit) => LostSample(j, m, now, sample);
      case _ =>
    }
  }

  // On the write-ahead log.

  /** The size of the log with this record. */
  function SizeWith(f: Format, m: State<LiveLog>, record: Record, priority: Priority): int {
    m.log.total + |f.frame(record, priority)|
  }

  /** What the log does with a sample is told by its size: below 85 hundredths of the capacity the
      sample is recorded, from there on it is compacted as long as the reserve is free, and after
      that it is lost. */
  lemma SampleOutcomeIff(j: Journal<LiveLog>, f: Format, m: State<LiveLog>, now: nat, sample: Sample)
    requires IsWal(j, f) && m.log.cfg.Normal() && Fits(sample)
    ensures var r, before, cfg := SampleTick(j, m, now, sample), m.history.attempts, m.log.cfg;
            var size := SizeWith(f, m, SampleEvent(m, sample), P2Normal);
            var room := size < cfg.maxSize && size <= cfg.maxSize - cfg.reserveBytes;
            && |before| < |r.history.attempts| && r.history.attempts[|before|].record == SampleEvent(m, sample)
            && (r.history.attempts[|before|].accepted <==> room && 100 * size < 85 * cfg.maxSize)
            && (|r.history.compacted| == |m.history.compacted| + 1 <==> room && 100 * size >= 85 * cfg.maxSize)
            && (SameRollup(m, r) && |r.history.attempts| == |before| + 3 <==> !room)
  {
    var log, event := m.log, SampleEvent(m, sample);
    assert Answers(j, f, log, event, P2Normal);
    LogRuns.NeedsRollupIff(log.cfg, log.total, |f.frame(event, P2Normal)|, P2Normal);
    LogRuns.HardLimitIff(log.cfg, log.total, |f.frame(event, P2Normal)|, P2Normal);
    LogRuns.DownsampledIff(log.cfg, log.total, |f.frame(event, P2Normal)|, P2Normal);
    match Answer(j, m, sample) {
      case Some(ErrNeedsRollup) => CompactedSample(j, m, now, sample);
      case Some(ErrHardLimit) => LostSample(j, m, now, sample);
      case _ => RecordedSample(j, m, now, sample);
    }
  }

  /** A heartbeat is recorded as long as the capacity is not reached. */
  lemma HeartbeatOutcomeIff(j: Journal<LiveLog>, f: Format, m: State<LiveLog>)
    requires IsWal(j, f) && m.log.cfg.Normal()
    ensures var r, before := Ticked(j, m, HeartbeatTicked), m.history.attempts;
            && |before| < |r.history.attempts| && r.history.attempts[|before|].record == EventOf(m, Heartbeat)
            && (r.history.attempts[|before|].accepted <==>
                  SizeWith(f, m, EventOf(m, Heartbeat), P0Critical) < m.log.cfg.maxSize)
  {
    EventOutcome(j, m, Heartbeat, P0Critical);
    assert Answers(j, f, m.log, EventOf(m, Heartbeat), P0Critical);
    LogRuns.AdmissionIff(m.log.cfg, m.log.total, |f.frame(EventOf(m, Heartbeat), P0Critical)|, P0Critical);
  }

  /** An event about the host, or a rollup, is recorded as long as the reserve is free. */
  lemma HostOutcomeIff(j: Journal<LiveLog>, f: Format, m: State<LiveLog>)
    requires IsWal(j, f) && m.log.cfg.Normal()
    ensures var r, before := Ticked(j, m, HostTicked), m.history.attempts;
            && |before| < |r.history.attempts| && r.history.attempts[|before|].record == EventOf(m, Host)
            && (r.history.attempts[|before|].accepted <==>
                  !LogRuns.NoRoom(m.log.cfg, SizeWith(f, m, EventOf(m, Host), P1Important), P1Important))
  {
    EventOutcome(j, m, Host, P1Important);
    assert Answers(j, f, m.log, EventOf(m, Host), P1Important);
    LogRuns.AdmissionIff(m.log.cfg, m.log.total, |f.frame(EventOf(m, Host), P1Important)|, P1Important);
  }

  lemma RollupOutcomeIff(j: Journal<LiveLog>, f: Format, m: State<LiveLog>, now: nat)
    requires IsWal(j, f) && m.log.cfg.Normal() && m.rollup.Some? && m.rollup.value.count > 0
    ensures var r, before, rollup := Ticked(j, m, Closed(now)), m.history.attempts, m.rollup.value;
            var event := EventOf(m, StateRollup(Payload(rollup, ClampEnd(rollup.windowStart, now))));
            && r.rollup.None? && |before| < |r.history.attempts| && r.history.attempts[|before|].record == event
            && (r.history.attempts[|before|].accepted <==>
                  !LogRuns.NoRoom(m.log.cfg, SizeWith(f, m, event, P1Important), P1Important))
  {
    var rollup := m.rollup.value;
    var event := EventOf(m, StateRollup(Payload(rollup, ClampEnd(rollup.windowStart, now))));
    FlushOutcome(j, m, now);
    assert Answers(j, f, m.log, event, P1Important);
    LogRuns.AdmissionIff(m.log.cfg, m.log.total, |f.frame(event, P1Important)|, P1Important);
  }
}
