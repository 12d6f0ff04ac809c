/** Every compacted sample ends up in exactly one rollup, that of its own minute. */
module Conservation {
  import opened Proto
  import opened Rollups
  import WalLog
  import opened Manager

  // What the attempts say.

  predicate IsRollup(a: Attempt) {
    a.record.Event? && a.record.body.StateRollup?
  }

  predicate IsCompactedGap(a: Attempt) {
    a.record.Gap? && a.record.reason == Compacted
  }

  /** The rollups that were emitted, accepted or not. */
  function RollupsOf(attempts: seq<Attempt>): seq<RollupPayload>
    decreases |attempts|
  {
    if attempts == [] then []
    else
      var last := attempts[|attempts| - 1];
      RollupsOf(attempts[..|attempts| - 1]) + (if IsRollup(last) then [last.record.body.rollup] else [])
  }

  /** The samples that were compacted: each one leaves a gap with that reason. */
  function CompactedGaps(attempts: seq<Attempt>): nat
    decreases |attempts|
  {
    if attempts == [] then 0
    else CompactedGaps(attempts[..|attempts| - 1]) + if IsCompactedGap(attempts[|attempts| - 1]) then 1 else 0
  }

  lemma {:induction false} AttemptsSnoc(attempts: seq<Attempt>, a: Attempt)
    ensures RollupsOf(attempts + [a]) == RollupsOf(attempts) + (if IsRollup(a) then [a.record.body.rollup] else [])
    ensures CompactedGaps(attempts + [a]) == CompactedGaps(attempts) + (if IsCompactedGap(a) then 1 else 0)
  {
    assert (attempts + [a])[..|attempts|] == attempts;
  }

  function Tag(minute: int, samples: seq<Sample>): seq<Compaction> {
    seq(|samples|, i requires 0 <= i < |samples| => Compaction(minute, samples[i]))
  }

  /** The samples of the emitted rollups, each with the minute of its window. */
  function Explained(rollups: seq<RollupPayload>, blocks: seq<seq<Sample>>): seq<Compaction>
    requires |rollups| == |blocks|
    decreases |blocks|
  {
    if blocks == [] then []
    else
      var k := |blocks| - 1;
      Explained(rollups[..k], blocks[..k]) + Tag(rollups[k].windowStart, blocks[k])
  }

  /** The rollup is that of these samples, over a window of at most a minute. */
  predicate Emitted(p: RollupPayload, samples: seq<Sample>) {
    && samples != [] && AllFit(samples)
    && p == Payload(Fold(p.windowStart, samples), p.windowEnd)
    && p.windowStart <= p.windowEnd <= p.windowStart + MINUTE
  }

  predicate OpenMatches(rollup: Option<Rollup>, open: seq<Sample>) {
    match rollup
    case None => open == []
    case Some(r) => open != [] && AllFit(open) && r == Fold(r.windowStart, open)
  }

  function OpenTagged(rollup: Option<Rollup>, open: seq<Sample>): seq<Compaction> {
    match rollup
    case None => []
    case Some(r) => Tag(r.windowStart, open)
  }

  /** The compacted samples, in order and with their minutes, are those of the emitted rollups
      followed by those of the open one. `lag` gaps are still to be tried. */
  predicate Balanced(h: History, rollup: Option<Rollup>, lag: nat) {
    var rollups := RollupsOf(h.attempts);
    && |rollups| == |h.blocks|
    && (forall i | 0 <= i < |h.blocks| :: Emitted(rollups[i], h.blocks[i]))
    && OpenMatches(rollup, h.open)
    && h.compacted == Explained(rollups, h.blocks) + OpenTagged(rollup, h.open)
    && CompactedGaps(h.attempts) + lag == |h.compacted|
  }

  predicate Conserved<L>(m: State<L>, lag: nat) {
    Balanced(m.history, m.rollup, lag)
  }

  // Each append keeps it.

  lemma TryConserves<L>(j: Journal<L>, m: State<L>, record: Record, priority: Priority, lag: nat)
    requires Conserved(m, lag)
    requires record.Event? ==> !record.body.StateRollup?
    requires record.Gap? && record.reason == Compacted ==> lag > 0
    ensures var after := if record.Gap? && record.reason == Compacted then lag - 1 else lag;
            Conserved(TryAppend(j, m, record, priority), after)
  {
    var a := Attempt(record, j.append(m.log, record, priority).1.None?);
    AttemptsSnoc(m.history.attempts, a);
    assert RollupsOf(m.history.attempts) + [] == RollupsOf(m.history.attempts);
  }

  lemma EventConserves<L>(j: Journal<L>, m: State<L>, body: Body, priority: Priority, lag: nat)
    requires Conserved(m, lag) && !body.StateRollup?
    ensures Conserved(AppendEvent(j, m, body, priority).state, lag)
  {
    TryConserves(j, m.(sequence := m.sequence + 1), EventOf(m, body), priority, lag);
  }

  lemma GapConserves<L>(j: Journal<L>, m: State<L>, start: nat, end: nat, reason: GapReason, lag: nat)
    requires Conserved(m, lag) && (reason == Compacted ==> lag > 0)
    ensures Conserved(AppendGap(j, m, start, end, reason), if reason == Compacted then lag - 1 else lag)
  {
    TryConserves(j, m, Gap(m.node, m.session, start, end, reason), P0Critical, lag);
  }

  lemma LossConserves<L>(j: Journal<L>, m: State<L>, failed: nat, lag: nat)
    requires Conserved(m, lag)
    ensures Conserved(AppendLoss(j, m, failed), lag)
  {
    var r := AppendEvent(j, m, DataLoss(HardLimitDataLoss, 1), P0Critical);
    EventConserves(j, m, DataLoss(HardLimitDataLoss, 1), P0Critical, lag);
    GapConserves(j, r.state, failed, if r.err.Some? && r.sequence > failed then r.sequence else failed,
                 HardLimitDataLoss, lag);
  }

  lemma EventTickConserves<L>(j: Journal<L>, m: State<L>, body: Body, priority: Priority, lag: nat)
    requires Conserved(m, lag) && !body.StateRollup?
    ensures Conserved(EventTick(j, m, body, priority), lag)
  {
    EventConserves(j, m, body, priority, lag);
    var r := AppendEvent(j, m, body, priority);
    LossConserves(j, r.state, r.sequence, lag);
  }

  // Folding and flushing.

  lemma {:induction false} ExplainedSnoc(rollups: seq<RollupPayload>, blocks: seq<seq<Sample>>, p: RollupPayload,
                                         b: seq<Sample>)
    requires |rollups| == |blocks|
    ensures Explained(rollups + [p], blocks + [b]) == Explained(rollups, blocks) + Tag(p.windowStart, b)
  {
    assert (rollups + [p])[..|blocks|] == rollups && (blocks + [b])[..|blocks|] == blocks;
  }

  lemma {:induction false} FoldGrows(windowStart: int, open: seq<Sample>, sample: Sample)
    requires AllFit(open) && Fits(sample)
    ensures AllFit(open + [sample])
    ensures Fold(windowStart, open + [sample]) == AddSample(Fold(windowStart, open), sample)
    ensures Fold(windowStart, open + [sample]).windowStart == windowStart
    ensures Tag(windowStart, open + [sample]) == Tag(windowStart, open) + [Compaction(windowStart, sample)]
  {
    assert (open + [sample])[..|open|] == open;
    FoldBasics(windowStart, open + [sample]);
  }

  lemma CompactConserves<L>(m: State<L>, now: nat, sample: Sample)
    requires Fits(sample) && Conserved(m, 0)
    requires m.rollup.Some? ==> m.rollup.value.windowStart == MinuteOf(now)
    ensures Conserved(Compact(m, now, sample), 1)
  {
    var r, minute, open := Compact(m, now, sample), MinuteOf(now), m.history.open;
    FoldGrows(minute, open, sample);
    assert m.rollup.None? ==> Fold(minute, open) == NewRollup(minute);
    assert r.rollup == Some(Fold(minute, open + [sample]));
    assert Tag(minute, []) == [];
    assert OpenTagged(r.rollup, r.history.open) == OpenTagged(m.rollup, open) + [Compaction(minute, sample)];
    var explained := Explained(RollupsOf(m.history.attempts), m.history.blocks);
    assert explained + OpenTagged(m.rollup, open) + [Compaction(minute, sample)]
        == explained + OpenTagged(r.rollup, r.history.open);
  }

  /** The state just after the open rollup was tried, whatever came of it. */
  lemma EmitConserves<L>(j: Journal<L>, m: State<L>, end: int, lag: nat)
    requires Conserved(m, lag) && m.rollup.Some?
    ensures var r := m.rollup.value;
            var closed := CloseBlock(m);
            Conserved(AppendEvent(j, closed, StateRollup(Payload(r, ClampEnd(r.windowStart, end))),
                P1Important).state, lag)
  {
    var r, open := m.rollup.value, m.history.open;
    var closed := CloseBlock(m);
    var p := Payload(r, ClampEnd(r.windowStart, end));
    var after := AppendEvent(j, closed, StateRollup(p), P1Important).state;
    var record := EventOf(closed, StateRollup(p));
    var a := Attempt(record, j.append(m.log, record, P1Important).1.None?);
    assert after.history.attempts == m.history.attempts + [a];
    AttemptsSnoc(m.history.attempts, a);
    FoldBasics(r.windowStart, open);
    assert Emitted(p, open);
    ExplainedSnoc(RollupsOf(m.history.attempts), m.history.blocks, p, open);
    assert OpenTagged(after.rollup, after.history.open) == [];
  }

  lemma FlushConserves<L>(j: Journal<L>, m: State<L>, end: int, lag: nat)
    requires Conserved(m, lag)
    ensures Conserved(FlushRollup(j, m, end), lag)
  {
    if m.rollup.Some? {
      FoldBasics(m.rollup.value.windowStart, m.history.open);
      var rollup := m.rollup.value;
      var closed := CloseBlock(m);
      var event := AppendEvent(j, closed, StateRollup(Payload(rollup, ClampEnd(rollup.windowStart, end))), P1Important);
      EmitConserves(j, m, end, lag);
      LossConserves(j, event.state, event.sequence, lag);
    }
  }

  lemma FlushAtEndConserves<L>(j: Journal<L>, m: State<L>, lag: nat)
    requires m.rollup.Some? && Conserved(m, lag)
    ensures Conserved(FlushAtWindowEnd(j, m), lag)
  {
    FlushConserves(j, m, m.rollup.value.windowStart + MINUTE, lag);
  }

  lemma FlushCompletedConserves<L>(j: Journal<L>, m: State<L>, now: nat, lag: nat)
    requires Conserved(m, lag)
    ensures Conserved(FlushCompleted(j, m, now), lag)
  {
    if RollupIsOver(m, now) {
      FlushAtEndConserves(j, m, lag);
    }
  }

  lemma ReplacementConserves<L>(j: Journal<L>, m: State<L>, now: nat, sample: Sample, skipped: nat, cause: Refusal)
    requires Fits(sample) && Conserved(m, 0)
    ensures Conserved(AppendPressureReplacement(j, m, now, sample, skipped, cause), 0)
  {
    if cause == WalLog.ErrNeedsRollup {
      FlushCompletedConserves(j, m, now, 0);
      var flushed := FlushCompleted(j, m, now);
      CompactConserves(flushed, now, sample);
      GapConserves(j, Compact(flushed, now, sample), skipped, skipped, Compacted, 1);
    } else {
      LossConserves(j, m, skipped, 0);
    }
  }

  lemma SampleConserves<L>(j: Journal<L>, m: State<L>, now: nat, sample: Sample)
    requires Fits(sample) && Conserved(m, 0)
    ensures Conserved(SampleTick(j, m, now, sample), 0)
  {
    EventConserves(j, m, Body.State(sample), P2Normal, 0);
    var event := AppendEvent(j, m, Body.State(sample), P2Normal);
    if event.err.Some? {
      ReplacementConserves(j, event.state, now, sample, event.sequence, event.err.value);
    }
  }

  lemma StateTickConserves<L>(j: Journal<L>, m: State<L>, flushedAt: nat, now: nat, sample: Sample, moved: bool)
    requires Fits(sample) && Conserved(m, 0)
    ensures Conserved(StateTick(j, m, flushedAt, now, sample, moved), 0)
  {
    FlushCompletedConserves(j, m, flushedAt, 0);
    SampleConserves(j, FlushCompleted(j, m, flushedAt), now, sample);
    if moved {
      var sampled := SampleTick(j, FlushCompleted(j, m, flushedAt), now, sample);
      EventTickConserves(j, sampled, Host, P1Important, 0);
    }
  }

  lemma TickConserves<L>(j: Journal<L>, m: State<L>, t: Tick<L>)
    requires TickFits(t) && Conserved(m, 0)
    ensures Conserved(Ticked(j, m, t), 0)
  {
    match t
    case StateTicked(flushedAt, now, sample, moved) => StateTickConserves(j, m, flushedAt, now, sample, moved);
    case HeartbeatTicked => EventTickConserves(j, m, Heartbeat, P0Critical, 0);
    case HostTicked => EventTickConserves(j, m, Host, P1Important, 0);
    case Maintained(_) =>
    case Closed(now) => FlushConserves(j, m, now, 0);
  }

  /** Rollup conservation over runs. */
  lemma {:induction false} RunConserves<L>(j: Journal<L>, m: State<L>, ticks: seq<Tick<L>>)
    requires Conserved(m, 0) && forall i | 0 <= i < |ticks| :: TickFits(ticks[i])
    ensures Conserved(RunTicks(j, m, ticks), 0)
    decreases |ticks|
  {
    if ticks != [] {
      TickConserves(j, m, ticks[0]);
      RunConserves(j, Ticked(j, m, ticks[0]), ticks[1..]);
    }
  }

  // In numbers.

  function SampleCounts(rollups: seq<RollupPayload>): nat
    decreases |rollups|
  {
    if rollups == [] then 0 else SampleCounts(rollups[..|rollups| - 1]) + rollups[|rollups| - 1].sampleCount
  }

  lemma {:induction false} ExplainedCount(rollups: seq<RollupPayload>, blocks: seq<seq<Sample>>)
    requires |rollups| == |blocks| && forall i | 0 <= i < |blocks| :: Emitted(rollups[i], blocks[i])
    ensures |Explained(rollups, blocks)| == SampleCounts(rollups)
    decreases |blocks|
  {
    if blocks != [] {
      var k := |blocks| - 1;
      assert forall i | 0 <= i < k :: rollups[..k][i] == rollups[i] && blocks[..k][i] == blocks[i];
      ExplainedCount(rollups[..k], blocks[..k]);
      assert Emitted(rollups[k], blocks[k]);
      FoldBasics(rollups[k].windowStart, blocks[k]);
    }
  }

  /** Compacted samples = samples of the emitted rollups + samples of the open one. */
  lemma CountsAddUp<L>(m: State<L>)
    requires Conserved(m, 0)
    ensures CompactedGaps(m.history.attempts)
         == SampleCounts(RollupsOf(m.history.attempts)) + (if m.rollup.Some? then m.rollup.value.count else 0)
  {
    ExplainedCount(RollupsOf(m.history.attempts), m.history.blocks);
    if m.rollup.Some? {
      FoldBasics(m.rollup.value.windowStart, m.history.open);
    }
  }

  lemma CloseOnce<L>(j: Journal<L>, m: State<L>, now: nat)
    requires Conserved(m, 0)
    ensures var end := FlushRollup(j, m, now);
            end.rollup.None? && CompactedGaps(end.history.attempts) == SampleCounts(RollupsOf(end.history.attempts))
  {
    FlushConserves(j, m, now, 0);
    CountsAddUp(FlushRollup(j, m, now));
  }

  /** Closing leaves no rollup open, so every compacted sample of the run has been emitted. */
  lemma {:induction false} CloseLeavesNoneOpen<L>(j: Journal<L>, m: State<L>, ticks: seq<Tick<L>>, now: nat)
    requires Conserved(m, 0) && forall i | 0 <= i < |ticks| :: TickFits(ticks[i])
    ensures var end := FlushRollup(j, RunTicks(j, m, ticks), now);
            end.rollup.None? && CompactedGaps(end.history.attempts) == SampleCounts(RollupsOf(end.history.attempts))
  {
    RunConserves(j, m, ticks);
    CloseOnce(j, RunTicks(j, m, ticks), now);
  }

  /** An emitted rollup is honest: it counts its samples, for each gauge some sample attains its
      extremes and none lies outside, the average lies between them unless it overflowed, and the
      totals are the traffic of its samples. */
  lemma {:induction false} EmittedIsHonest(p: RollupPayload, samples: seq<Sample>, g: Gauge)
    requires Emitted(p, samples)
    ensures p.sampleCount == |samples|
    ensures Least(Get(p.minimum, g), ValuesOf(samples, g)) && Greatest(Get(p.maximum, g), ValuesOf(samples, g))
    ensures StepsFit(p.windowStart, samples, g) ==>
              Get(p.minimum, g) <= Get(p.average, g) <= Get(p.maximum, g)
    ensures p.netInTotal == Wrap(Traffic(InReadings(samples)))
    ensures p.netOutTotal == Wrap(Traffic(OutReadings(samples)))
  {
    FoldBasics(p.windowStart, samples);
    MinimumAttained(p.windowStart, samples, g);
    MaximumAttained(p.windowStart, samples, g);
    TotalsAreTraffic(p.windowStart, samples);
    if StepsFit(p.windowStart, samples, g) {
      AverageBounds(p.windowStart, samples, g);
    }
  }
}
