/** Whole runs of the log: any sequence of appends, syncs, reclaims and crashes. */
module LogRuns {
  import opened Proto
  import opened Scanning
  import opened WalLog
  import opened LogInvariants
  import Reclaiming
  import Recovery

  datatype Step =
    | AppendStep(record: Record, priority: Priority)
    | SyncStep
    | ReclaimStep(acknowledged: Record -> bool)
    | CrashStep(kept: nat)

  /** A crash leaves every file as it was, and some of the bytes written since the last sync.
      The death of the process is always one, a power loss as long as `PowerLoss.Disk.Tight`. */
  function After(f: Format, log: Log, step: Step): (after: Log)
    requires f.Valid() && log.Open()
    ensures after.Open() && after.cfg == log.cfg
  {
    match step
    case AppendStep(record, priority) => AppendLog(f, log, record, priority)
    case SyncStep => SyncLog(log)
    case ReclaimStep(acknowledged) => ReclaimLog(log, acknowledged)
    case CrashStep(kept) => Recovery.CrashedLog(f, log, if kept <= |log.buffer| then kept else |log.buffer|)
  }

  function Run(f: Format, log: Log, steps: seq<Step>): (after: Log)
    requires f.Valid() && log.Open()
    ensures after.Open() && after.cfg == log.cfg
    decreases |steps|
  {
    if steps == [] then log else Run(f, After(f, log, steps[0]), steps[1..])
  }

  /** Payload lengths that the scanner accepts. */
  predicate LegalSteps(f: Format, steps: seq<Step>) {
    forall i | 0 <= i < |steps| && steps[i].AppendStep? :: f.legal(steps[i].record)
  }

  lemma StepKeepsSound(f: Format, log: Log, step: Step)
    requires f.Valid() && Sound(log)
    ensures Sound(After(f, log, step))
  {
    match step
    case AppendStep(record, priority) => AppendKeepsSound(f, log, record, priority);
    case SyncStep => SyncKeepsSound(log);
    case ReclaimStep(acknowledged) => Reclaiming.ReclaimKeepsSound(log, acknowledged);
    case CrashStep(kept) =>
      var n := if kept <= |log.buffer| then kept else |log.buffer|;
      Recovery.CrashFilesAscend(log, n);
      Recovery.OpenLogInv(f, log.cfg, Recovery.CrashFiles(log, n));
  }

  /** Structure, manifests and heads hold in every reachable state, whatever is appended. */
  lemma {:induction false} RunKeepsSound(f: Format, log: Log, steps: seq<Step>)
    requires f.Valid() && Sound(log)
    ensures Sound(Run(f, log, steps))
    decreases |steps|
  {
    if steps != [] {
      StepKeepsSound(f, log, steps[0]);
      RunKeepsSound(f, After(f, log, steps[0]), steps[1..]);
    }
  }

  lemma StepKeepsInv(f: Format, log: Log, step: Step)
    requires f.Valid() && Inv(f, log) && (step.AppendStep? ==> f.legal(step.record))
    ensures Inv(f, After(f, log, step))
  {
    match step
    case AppendStep(record, priority) => AppendKeepsInv(f, log, record, priority);
    case SyncStep => SyncKeepsInv(f, log);
    case ReclaimStep(acknowledged) => Reclaiming.ReclaimKeepsInv(f, log, acknowledged);
    case CrashStep(kept) => Recovery.CrashDurability(f, log, if kept <= |log.buffer| then kept else |log.buffer|);
  }

  lemma StepKeepsSized(f: Format, log: Log, step: Step)
    requires f.Valid() && Inv(f, log) && Sized(log) && log.cfg.Normal()
    ensures Sized(After(f, log, step))
  {
    match step
    case AppendStep(record, priority) => AppendKeepsSized(f, log, record, priority);
    case SyncStep => SyncKeepsSized(log);
    case ReclaimStep(acknowledged) => Reclaiming.ReclaimKeepsSized(log, acknowledged);
    case CrashStep(kept) => Recovery.CrashKeepsSized(f, log, if kept <= |log.buffer| then kept else |log.buffer|);
  }

  /** When all payload lengths are legal, every file stays readable too, and from a fresh log
      every segment keeps within the configured size. */
  lemma {:induction false} RunKeepsInv(f: Format, log: Log, steps: seq<Step>)
    requires f.Valid() && Inv(f, log) && LegalSteps(f, steps)
    ensures Inv(f, Run(f, log, steps))
    ensures Sized(log) && log.cfg.Normal() ==> Sized(Run(f, log, steps))
    decreases |steps|
  {
    if steps != [] {
      StepKeepsInv(f, log, steps[0]);
      if Sized(log) && log.cfg.Normal() {
        StepKeepsSized(f, log, steps[0]);
      }
      RunKeepsInv(f, After(f, log, steps[0]), steps[1..]);
    }
  }

  /** Every run starts here: an empty directory gives a fresh log that is sized. */
  lemma FreshLog(f: Format, cfg: Config)
    requires f.Valid() && cfg.Normal()
    ensures var log := Recovery.OpenLog(f, cfg, []);
            Inv(f, log) && Sized(log) && Everything(log) == [] && log.total == 0 && log.unsynced == 0
  {
    Recovery.OpenLogInv(f, cfg, []);
  }

  // Capacity.

  function Max(a: int, b: int): int {
    if a > b then a else b
  }

  lemma StepKeepsCapacity(f: Format, log: Log, step: Step)
    requires f.Valid() && Shape(log)
    ensures After(f, log, step).total <= Max(log.total, log.cfg.maxSize - 1)
  {
    match step
    case AppendStep(record, priority) => AppendKeepsShape(f, log, record, priority);
    case SyncStep => SyncKeepsShape(log);
    case ReclaimStep(acknowledged) => Reclaiming.ReclaimKeepsShape(log, acknowledged);
    case CrashStep(kept) => Recovery.CrashShrinks(f, log, if kept <= |log.buffer| then kept else |log.buffer|);
  }

  /** Over any run the log never outgrows its capacity, or what it already was when opened. */
  lemma {:induction false} RunKeepsCapacity(f: Format, log: Log, steps: seq<Step>)
    requires f.Valid() && Sound(log)
    ensures Run(f, log, steps).total <= Max(log.total, log.cfg.maxSize - 1)
    decreases |steps|
  {
    if steps != [] {
      StepKeepsSound(f, log, steps[0]);
      StepKeepsCapacity(f, log, steps[0]);
      RunKeepsCapacity(f, After(f, log, steps[0]), steps[1..]);
    }
  }

  /** The ladder in one line per rung: an append is accepted if and only if it ends below
      the capacity, leaves the reserve free unless it is critical, ends below the rollup
      mark unless it is important, and below the downsample mark if it is optional. */
  lemma AdmissionIff(cfg: Config, total: int, size: nat, priority: Priority)
    requires cfg.Normal()
    ensures Admission(cfg, total, size, priority).None? <==>
              && total + size < cfg.maxSize
              && (priority.Rank() > P0Critical.Rank() ==> total + size <= cfg.maxSize - cfg.reserveBytes)
              && (priority.Rank() >= P2Normal.Rank() ==> 100 * (total + size) < 85 * cfg.maxSize)
              && (priority.Rank() >= P3Optional.Rank() ==> 100 * (total + size) < 70 * cfg.maxSize)
  {
  }

  /** The bands of the capacity: 70, 85 and 95 hundredths of it, and the capacity itself. */
  lemma PressureBands(size: int, max: int)
    ensures PressureFor(size, max) == HardLimit <==> max <= 0 || max <= size
    ensures PressureFor(size, max) == Critical <==> size < max && 95 * max <= 100 * size
    ensures PressureFor(size, max) == Rollup <==> size < max && 85 * max <= 100 * size < 95 * max
    ensures PressureFor(size, max) == Downsample <==> size < max && 70 * max <= 100 * size < 85 * max
  {
  }

  // Which refusal a record gets, by the size that the log would have with it.

  /** No room: the capacity would be reached, or a record that is not critical would use the reserve. */
  predicate NoRoom(cfg: Config, size: int, priority: Priority) {
    size >= cfg.maxSize || (size > cfg.maxSize - cfg.reserveBytes && priority !in {Unspecified, P0Critical})
  }

  lemma HardLimitIff(cfg: Config, total: int, size: nat, priority: Priority)
    requires cfg.Normal()
    ensures Admission(cfg, total, size, priority) == Some(ErrHardLimit) <==> NoRoom(cfg, total + size, priority)
  {
  }

  /** A sample, or anything less critical, is to be rolled up when there is room and the log would
      be at 85 hundredths of its capacity. */
  lemma NeedsRollupIff(cfg: Config, total: int, size: nat, priority: Priority)
    requires cfg.Normal()
    ensures Admission(cfg, total, size, priority) == Some(ErrNeedsRollup) <==>
              && !NoRoom(cfg, total + size, priority)
              && priority in {P2Normal, P3Optional} && 100 * (total + size) >= 85 * cfg.maxSize
  {
  }

  /** Only an optional record is dropped for downsampling, between 70 and 85 hundredths. */
  lemma DownsampledIff(cfg: Config, total: int, size: nat, priority: Priority)
    requires cfg.Normal()
    ensures Admission(cfg, total, size, priority) == Some(ErrDownsampled) <==>
              && !NoRoom(cfg, total + size, priority)
              && priority == P3Optional && 70 * cfg.maxSize <= 100 * (total + size) < 85 * cfg.maxSize
  {
  }

  /** What an append does to the total: a refusal changes nothing at all. */
  lemma AppendBounds(f: Format, log: Log, record: Record, priority: Priority)
    requires Shape(log) && log.cfg.Normal()
    ensures Accepts(f, log, record, priority) ==>
              var total := AppendLog(f, log, record, priority).total;
              && total < log.cfg.maxSize
              && (priority.Rank() > P0Critical.Rank() ==> total <= log.cfg.maxSize - log.cfg.reserveBytes)
    ensures !Accepts(f, log, record, priority) ==> AppendLog(f, log, record, priority) == log
  {
    if Accepts(f, log, record, priority) {
      AppendKeepsShape(f, log, record, priority);
      AdmissionIff(log.cfg, log.total, |f.frame(record, priority)|, priority);
    }
  }

  /** Refusal never comes from having more room or from mattering more. */
  lemma AdmissionMonotone(cfg: Config, total: int, smaller: int, size: nat, priority: Priority, sooner: Priority)
    requires smaller <= total && sooner.Rank() <= priority.Rank()
    requires Admission(cfg, total, size, priority).None?
    ensures Admission(cfg, smaller, size, sooner).None?
  {
  }

  /** A critical record is refused only at the hard limit itself. */
  lemma CriticalRefusedOnlyWhenFull(cfg: Config, total: int, size: nat, priority: Priority)
    requires cfg.Normal() && priority.Rank() <= P0Critical.Rank()
    ensures Admission(cfg, total, size, priority).Some? <==> total + size >= cfg.maxSize
  {
  }

  // Rotation and sync.

  /** An accepted frame goes to a new segment, with the next number, if and only if the active one
      holds something and would outgrow the configured size with it. */
  lemma AppendRotatesIff(f: Format, log: Log, record: Record, priority: Priority)
    requires log.Open() && Accepts(f, log, record, priority)
    ensures var after, size := AppendLog(f, log, record, priority), |f.frame(record, priority)|;
            if 0 < log.Active().size && log.cfg.segmentSize < log.Active().size + size
            then && |after.segments| == |log.segments| + 1
                 && after.Active().id == log.Active().id + 1 && after.Active().size == size
            else && |after.segments| == |log.segments|
                 && after.Active().id == log.Active().id && after.Active().size == log.Active().size + size
  {
  }

  lemma ReadyPending(log: Log, frameSize: nat)
    requires log.Open() && log.unsynced == |log.pending|
    ensures ReadyLog(log, frameSize).pending == if NeedsRotation(log, frameSize) then [] else log.pending
    ensures ReadyLog(log, frameSize).unsynced == |ReadyLog(log, frameSize).pending|
  {
  }

  lemma SyncIfDuePending(log: Log)
    requires log.Open() && log.unsynced == |log.pending|
    ensures SyncIfDue(log).pending == if |log.pending| >= log.cfg.fsyncRecords then [] else log.pending
  {
  }

  /** Records wait to be synced until there are as many as configured, or the segment is left. */
  lemma AppendSyncsIff(f: Format, log: Log, record: Record, priority: Priority)
    requires log.Open() && log.unsynced == |log.pending| && Accepts(f, log, record, priority)
    ensures var after := AppendLog(f, log, record, priority);
            var left := |after.segments| > |log.segments|;
            var waiting := (if left then [] else log.pending) + [record];
            after.pending == if |waiting| >= log.cfg.fsyncRecords then [] else waiting
  {
    var size := |f.frame(record, priority)|;
    AppendRotatesIff(f, log, record, priority);
    ReadyPending(log, size);
    SyncIfDuePending(WriteLog(f, ReadyLog(log, size), record, priority));
  }

  lemma StepBoundsUnsynced(f: Format, log: Log, step: Step)
    requires f.Valid() && Shape(log) && log.unsynced < log.cfg.fsyncRecords
    ensures After(f, log, step).unsynced < log.cfg.fsyncRecords
  {
    match step {
      case AppendStep(record, priority) =>
        if Accepts(f, log, record, priority) {
          AppendKeepsShape(f, log, record, priority);
          AppendSyncsIff(f, log, record, priority);
        }
      case SyncStep =>
      case ReclaimStep(acknowledged) =>
      case CrashStep(kept) =>
    }
  }

  /** So in every reachable state fewer records than that are waiting. */
  lemma {:induction false} RunBoundsUnsynced(f: Format, log: Log, steps: seq<Step>)
    requires f.Valid() && Sound(log) && log.unsynced < log.cfg.fsyncRecords
    ensures Run(f, log, steps).unsynced < log.cfg.fsyncRecords
    decreases |steps|
  {
    if steps != [] {
      StepBoundsUnsynced(f, log, steps[0]);
      StepKeepsSound(f, log, steps[0]);
      RunBoundsUnsynced(f, After(f, log, steps[0]), steps[1..]);
    }
  }

  /** What a crash can cost: after any run of legal records, fewer records than are synced at once. */
  lemma {:induction false} CrashLosesFew(f: Format, log: Log, steps: seq<Step>, kept: nat)
    requires f.Valid() && Inv(f, log) && LegalSteps(f, steps) && log.unsynced < log.cfg.fsyncRecords
    requires kept <= |Run(f, log, steps).buffer|
    ensures var end := Run(f, log, steps);
            |Everything(end)| - |Durable(Recovery.CrashedLog(f, end, kept))| < log.cfg.fsyncRecords
  {
    RunKeepsInv(f, log, steps);
    RunBoundsUnsynced(f, log, steps);
    Recovery.CrashBounds(f, Run(f, log, steps), kept);
  }

  // Durability over runs.

  predicate ReclaimFree(steps: seq<Step>) {
    forall i | 0 <= i < |steps| :: !steps[i].ReclaimStep?
  }

  lemma StepExtendsDurable(f: Format, log: Log, step: Step)
    requires f.Valid() && Inv(f, log) && !step.ReclaimStep?
    ensures Durable(log) <= Durable(After(f, log, step))
  {
    match step {
      case AppendStep(record, priority) => AppendExtendsLog(f, log, record, priority);
      case SyncStep => SyncKeepsRecords(log);
      case CrashStep(kept) =>
        Recovery.CrashBounds(f, log, if kept <= |log.buffer| then kept else |log.buffer|);
    }
  }

  /** Without reclaiming, the durable log only grows at its end, through any number of crashes
      that leave the files as they were. */
  lemma {:induction false} RunExtendsDurable(f: Format, log: Log, steps: seq<Step>)
    requires f.Valid() && Inv(f, log) && LegalSteps(f, steps) && ReclaimFree(steps)
    ensures Durable(log) <= Durable(Run(f, log, steps))
    decreases |steps|
  {
    if steps != [] {
      StepKeepsInv(f, log, steps[0]);
      StepExtendsDurable(f, log, steps[0]);
      RunExtendsDurable(f, After(f, log, steps[0]), steps[1..]);
    }
  }
}
