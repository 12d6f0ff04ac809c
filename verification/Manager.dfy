/** The collect loop of the agent as a value: which records it tries to append, in order,
    when the log may refuse them. Sequence numbers come from the session's counter. The log
    is any `Journal`; `Ledger` gives the write-ahead log as one. */
module Manager {
  import opened Proto
  import opened Rollups
  import WalLog

  type Refusal = WalLog.Refusal

  /** A log that takes or refuses records. */
  datatype Journal<!L> = Journal(append: (L, Record, Priority) -> (L, Option<Refusal>))

  /** Only optional records are ever refused for downsampling. */
  ghost predicate Sane<L(!new)>(j: Journal<L>) {
    forall log, record, priority ::
      j.append(log, record, priority).1 == Some(WalLog.ErrDownsampled) ==> priority.Rank() >= P3Optional.Rank()
  }

  const MINUTE: nat := 60_000_000_000

  /** Truncation of a time in nanoseconds to the minute. */
  function MinuteOf(now: nat): nat {
    now - now % MINUTE
  }

  /** The minute that the time lies in. */
  lemma MinuteContains(now: nat)
    ensures MinuteOf(now) <= now < MinuteOf(now) + MINUTE && MinuteOf(now) % MINUTE == 0
  {
  }

  /** One append that was tried. */
  datatype Attempt = Attempt(record: Record, accepted: bool)

  /** A sample that was folded into a rollup, and the minute it belongs to. */
  datatype Compaction = Compaction(minute: int, sample: Sample)

  /** What happened: every append tried, every sample compacted, the samples of each emitted
      rollup, and those of the open one. */
  datatype History = History(
    attempts: seq<Attempt>,
    compacted: seq<Compaction>,
    blocks: seq<seq<Sample>>,
    open: seq<Sample>)

  datatype State<L> = State(
    node: Identity,
    session: Identity,
    sequence: nat,
    latest: nat,
    log: L,
    rollup: Option<OpenRollup>,
    history: History)

  // Single appends.

  datatype Appended<L> = Appended(state: State<L>, sequence: nat, err: Option<Refusal>)

  function EventOf<L>(m: State<L>, body: Body): Record {
    Event(m.node, m.session, m.sequence + 1, body)
  }

  /** One append, and its outcome on record. */
  function TryAppend<L>(j: Journal<L>, m: State<L>, record: Record, priority: Priority): State<L> {
    var (log, err) := j.append(m.log, record, priority);
    m.(log := log, history := m.history.(attempts := m.history.attempts + [Attempt(record, err.None?)]))
  }

  /** The number is issued first, and stays issued when the append is refused. */
  function AppendEvent<L>(j: Journal<L>, m: State<L>, body: Body, priority: Priority): (r: Appended<L>)
    ensures r.sequence == m.sequence + 1
  {
    var issued := m.(sequence := m.sequence + 1);
    var err := j.append(issued.log, EventOf(m, body), priority).1;
    var tried := TryAppend(j, issued, EventOf(m, body), priority);
    Appended(if err.None? then tried.(latest := m.sequence + 1) else tried, m.sequence + 1, err)
  }

  /** A gap of some session; a refusal is only logged. */
  function AppendExplicitGap<L>(j: Journal<L>, m: State<L>, node: Identity, session: Identity, start: nat, end: nat,
                             reason: GapReason): State<L>
  {
    TryAppend(j, m, Gap(node, session, start, end, reason), P0Critical)
  }

  function AppendGap<L>(j: Journal<L>, m: State<L>, start: nat, end: nat, reason: GapReason): State<L> {
    AppendExplicitGap(j, m, m.node, m.session, start, end, reason)
  }

  // Replacements.

  /** A data-loss event instead of a refused one, and a gap for whatever was not recorded. */
  function AppendLoss<L>(j: Journal<L>, m: State<L>, failed: nat): State<L> {
    var replacement := AppendEvent(j, m, DataLoss(HardLimitDataLoss, 1), P0Critical);
    var end := if replacement.err.Some? && replacement.sequence > failed then replacement.sequence else failed;
    AppendGap(j, replacement.state, failed, end, HardLimitDataLoss)
  }

  function AppendFailedEventGap<L>(j: Journal<L>, m: State<L>, failed: nat): State<L> {
    if failed == 0 then m else AppendLoss(j, m, failed)
  }

  // Rollups.

  function ClampEnd(windowStart: int, end: int): int {
    if end > windowStart + MINUTE then windowStart + MINUTE
    else if end < windowStart then windowStart
    else end
  }

  function Distance(a: int, b: int): nat {
    if a <= b then b - a else a - b
  }

  /** The end of a window is the instant of its minute that is nearest to the one asked for. */
  lemma ClampEndIsNearest(windowStart: int, end: int, other: int)
    ensures windowStart <= ClampEnd(windowStart, end) <= windowStart + MINUTE
    ensures windowStart <= other <= windowStart + MINUTE ==>
              Distance(end, ClampEnd(windowStart, end)) <= Distance(end, other)
  {
  }

  /** The open rollup is done with; its samples go on record. */
  function CloseBlock<L>(m: State<L>): State<L> {
    m.(rollup := None, history := m.history.(blocks := m.history.blocks + [m.history.open], open := []))
  }

  function FlushRollup<L>(j: Journal<L>, m: State<L>, end: int): (r: State<L>)
    ensures r.rollup.None?
  {
    if m.rollup.None? || m.rollup.value.count == 0 then
      m.(rollup := None)
    else
      var rollup := m.rollup.value;
      var closed := CloseBlock(m);
      var event := AppendEvent(j, closed, StateRollup(Payload(rollup, ClampEnd(rollup.windowStart, end))), P1Important);
      if event.err.Some? then AppendFailedEventGap(j, event.state, event.sequence) else event.state
  }

  predicate RollupIsOver<L>(m: State<L>, now: nat) {
    m.rollup.Some? && m.rollup.value.windowStart != MinuteOf(now)
  }

  function FlushAtWindowEnd<L>(j: Journal<L>, m: State<L>): (r: State<L>)
    requires m.rollup.Some?
    ensures r.rollup.None?
  {
    FlushRollup(j, m, m.rollup.value.windowStart + MINUTE)
  }

  /** Flushes the open rollup when its minute is over. */
  function FlushCompleted<L>(j: Journal<L>, m: State<L>, now: nat): (r: State<L>)
    ensures r.rollup.Some? ==> r.rollup.value.windowStart == MinuteOf(now)
  {
    if RollupIsOver(m, now) then FlushAtWindowEnd(j, m) else m
  }

  /** Folds a sample into the rollup of its own minute. */
  function Compact<L>(m: State<L>, now: nat, sample: Sample): (r: State<L>)
    requires Fits(sample)
    requires m.rollup.Some? ==> m.rollup.value.windowStart == MinuteOf(now)
  {
    var rollup := if m.rollup.Some? then m.rollup.value else NewRollup(MinuteOf(now));
    m.(rollup := Some(AddSample(rollup, sample)),
       history := m.history.(compacted := m.history.compacted + [Compaction(MinuteOf(now), sample)],
                             open := m.history.open + [sample]))
  }

  /** A refused sample: folded into its minute under rollup pressure, replaced by a loss at the hard limit. */
  function AppendPressureReplacement<L>(j: Journal<L>, m: State<L>, now: nat, sample: Sample, skipped: nat,
                                        cause: Refusal): (r: State<L>)
    requires Fits(sample)
  {
    if cause == WalLog.ErrNeedsRollup then
      AppendGap(j, Compact(FlushCompleted(j, m, now), now, sample), skipped, skipped, Compacted)
    else
      AppendLoss(j, m, skipped)
  }

  // The ticks of the loop.

  /** A sample is appended, or replaced when pressure refuses it. */
  function SampleTick<L>(j: Journal<L>, m: State<L>, now: nat, sample: Sample): (r: State<L>)
    requires Fits(sample)
  {
    var event := AppendEvent(j, m, Body.State(sample), P2Normal);
    match event.err
    case Some(ErrNeedsRollup) =>
      AppendPressureReplacement(j, event.state, now, sample, event.sequence, WalLog.ErrNeedsRollup)
    case Some(ErrHardLimit) =>
      AppendPressureReplacement(j, event.state, now, sample, event.sequence, WalLog.ErrHardLimit)
    case _ => event.state
  }

  function EventTick<L>(j: Journal<L>, m: State<L>, body: Body, priority: Priority): State<L> {
    var event := AppendEvent(j, m, body, priority);
    if event.err.Some? then AppendFailedEventGap(j, event.state, event.sequence) else event.state
  }

  function HostTick<L>(j: Journal<L>, m: State<L>): State<L> {
    EventTick(j, m, Host, P1Important)
  }

  /** A tick of the state timer; `moved` when the location of the host has changed, which is
      published at once. */
  function StateTick<L>(j: Journal<L>, m: State<L>, flushedAt: nat, now: nat, sample: Sample,
                        moved: bool): (r: State<L>)
    requires Fits(sample)
  {
    var sampled := SampleTick(j, FlushCompleted(j, m, flushedAt), now, sample);
    if moved then HostTick(j, sampled) else sampled
  }

  /** `Maintained` is what the sync timer or a reclaim does to the log in between. */
  datatype Tick<!L> =
    | StateTicked(flushedAt: nat, now: nat, sample: Sample, moved: bool)
    | HeartbeatTicked
    | HostTicked
    | Maintained(work: L -> L)
    | Closed(now: nat)

  predicate TickFits<L>(t: Tick<L>) {
    t.StateTicked? ==> Fits(t.sample)
  }

  function Ticked<L>(j: Journal<L>, m: State<L>, t: Tick<L>): (r: State<L>)
    requires TickFits(t)
  {
    match t
    case StateTicked(flushedAt, now, sample, moved) => StateTick(j, m, flushedAt, now, sample, moved)
    case HeartbeatTicked => EventTick(j, m, Heartbeat, P0Critical)
    case HostTicked => HostTick(j, m)
    case Maintained(work) => m.(log := work(m.log))
    case Closed(now) => FlushRollup(j, m, now)
  }

  function RunTicks<L>(j: Journal<L>, m: State<L>, ticks: seq<Tick<L>>): (r: State<L>)
    requires forall i | 0 <= i < |ticks| :: TickFits(ticks[i])
    decreases |ticks|
  {
    if ticks == [] then m else RunTicks(j, Ticked(j, m, ticks[0]), ticks[1..])
  }
}
