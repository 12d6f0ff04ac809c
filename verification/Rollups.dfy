/** The one-minute rollup of host samples: minimum, truncating running average, maximum and
    wrapping traffic counters, all on 64-bit unsigned numbers. */
module Rollups {
  import opened Proto

  const MAXIMUM_PLAUSIBLE_DELTA: nat := 0x4_0000_0000_0000
  const WRAP_WINDOW: nat := 0x1_0000_0000

  function Wrap(x: int): nat {
    x % UINT64_LIMIT
  }

  // Counters.

  /** Traffic between two readings, or zero when the step cannot be trusted. */
  function CounterDelta(previous: nat, current: nat, continuousBoot: bool): nat
    requires previous < UINT64_LIMIT && current < UINT64_LIMIT
  {
    if !continuousBoot then 0
    else if current >= previous then
      var delta := current - previous;
      if delta <= MAXIMUM_PLAUSIBLE_DELTA then delta else 0
    else if previous > UINT64_LIMIT - 1 - WRAP_WINDOW then
      var delta := Wrap(UINT64_LIMIT - 1 - previous + current + 1);
      if delta <= MAXIMUM_PLAUSIBLE_DELTA then delta else 0
    else 0
  }

  /** A delta is never implausible, and a non-zero one leads from one reading to the next. */
  lemma CounterDeltaLeads(previous: nat, current: nat, continuousBoot: bool)
    requires previous < UINT64_LIMIT && current < UINT64_LIMIT
    ensures CounterDelta(previous, current, continuousBoot) <= MAXIMUM_PLAUSIBLE_DELTA
    ensures CounterDelta(previous, current, continuousBoot) != 0 ==>
              Wrap(previous + CounterDelta(previous, current, continuousBoot)) == current
  {
  }

  /** Which steps are counted in full: the same reading, a plausible climb, or a plausible
      wrap from the top of the range, both without a reboot. */
  lemma CounterDeltaLeadsIff(previous: nat, current: nat, continuousBoot: bool)
    requires previous < UINT64_LIMIT && current < UINT64_LIMIT
    ensures Wrap(previous + CounterDelta(previous, current, continuousBoot)) == current <==>
              || current == previous
              || (continuousBoot && Wrap(current - previous) <= MAXIMUM_PLAUSIBLE_DELTA
                  && (current > previous || previous > UINT64_LIMIT - 1 - WRAP_WINDOW))
  {
  }

  // Gauges.

  datatype Gauge = MemUsed | SwapUsed | DiskUsed | TcpConnCount | UdpConnCount | ProcessCount

  function Get(s: Sample, g: Gauge): nat {
    match g
    case MemUsed => s.memUsed
    case SwapUsed => s.swapUsed
    case DiskUsed => s.diskUsed
    case TcpConnCount => s.tcpConnCount
    case UdpConnCount => s.udpConnCount
    case ProcessCount => s.processCount
  }

  /** Every field fits a 64-bit unsigned number. */
  predicate Fits(s: Sample) {
    && s.memUsed < UINT64_LIMIT && s.swapUsed < UINT64_LIMIT && s.diskUsed < UINT64_LIMIT
    && s.tcpConnCount < UINT64_LIMIT && s.udpConnCount < UINT64_LIMIT && s.processCount < UINT64_LIMIT
    && s.netInTransfer < UINT64_LIMIT && s.netOutTransfer < UINT64_LIMIT
  }

  function MinUint64(left: nat, right: nat): nat {
    if left < right then left else right
  }

  function MaxUint64(left: nat, right: nat): nat {
    if left > right then left else right
  }

  function UpdateMinimum(target: Sample, sample: Sample): Sample {
    target.(memUsed := MinUint64(target.memUsed, sample.memUsed),
            swapUsed := MinUint64(target.swapUsed, sample.swapUsed),
            diskUsed := MinUint64(target.diskUsed, sample.diskUsed),
            tcpConnCount := MinUint64(target.tcpConnCount, sample.tcpConnCount),
            udpConnCount := MinUint64(target.udpConnCount, sample.udpConnCount),
            processCount := MinUint64(target.processCount, sample.processCount))
  }

  function UpdateMaximum(target: Sample, sample: Sample): Sample {
    target.(memUsed := MaxUint64(target.memUsed, sample.memUsed),
            swapUsed := MaxUint64(target.swapUsed, sample.swapUsed),
            diskUsed := MaxUint64(target.diskUsed, sample.diskUsed),
            tcpConnCount := MaxUint64(target.tcpConnCount, sample.tcpConnCount),
            udpConnCount := MaxUint64(target.udpConnCount, sample.udpConnCount),
            processCount := MaxUint64(target.processCount, sample.processCount))
  }

  /** The running average of `count` values, in wrapping arithmetic and truncating division. */
  function RunningAverage(average: nat, x: nat, count: nat): nat
    requires count > 0
  {
    Wrap(Wrap(average * (count - 1)) + x) / count
  }

  function UpdateAverage(target: Sample, sample: Sample, count: nat): Sample
    requires count > 0
  {
    target.(memUsed := RunningAverage(target.memUsed, sample.memUsed, count),
            swapUsed := RunningAverage(target.swapUsed, sample.swapUsed, count),
            diskUsed := RunningAverage(target.diskUsed, sample.diskUsed, count),
            tcpConnCount := RunningAverage(target.tcpConnCount, sample.tcpConnCount, count),
            udpConnCount := RunningAverage(target.udpConnCount, sample.udpConnCount, count),
            processCount := RunningAverage(target.processCount, sample.processCount, count))
  }

  // The rollup.

  const NO_SAMPLE := Sample(0, 0, 0, 0, 0, 0, 0, 0, 0)

  datatype Rollup = Rollup(
    windowStart: int, count: nat,
    minimum: Sample, average: Sample, maximum: Sample, previous: Sample,
    netIn: nat, netOut: nat)

  function NewRollup(windowStart: int): Rollup {
    Rollup(windowStart, 0, NO_SAMPLE, NO_SAMPLE, NO_SAMPLE, NO_SAMPLE, 0, 0)
  }

  /** A rollup whose last readings fit 64 bits. */
  type OpenRollup = r: Rollup | Fits(r.previous) witness NewRollup(0)

  function InDelta(previous: Sample, s: Sample): nat
    requires Fits(previous) && Fits(s)
  {
    CounterDelta(previous.netInTransfer, s.netInTransfer, s.uptime >= previous.uptime)
  }

  function OutDelta(previous: Sample, s: Sample): nat
    requires Fits(previous) && Fits(s)
  {
    CounterDelta(previous.netOutTransfer, s.netOutTransfer, s.uptime >= previous.uptime)
  }

  function AddSample(r: Rollup, s: Sample): (after: Rollup)
    requires Fits(r.previous) && Fits(s)
    ensures Fits(after.previous)
  {
    if r.count == 0 then
      r.(minimum := s, average := s, maximum := s, previous := s, count := 1)
    else
      r.(minimum := UpdateMinimum(r.minimum, s),
         maximum := UpdateMaximum(r.maximum, s),
         average := UpdateAverage(r.average, s, r.count + 1),
         netIn := Wrap(r.netIn + InDelta(r.previous, s)),
         netOut := Wrap(r.netOut + OutDelta(r.previous, s)),
         previous := s,
         count := r.count + 1)
  }

  predicate AllFit(samples: seq<Sample>) {
    forall i | 0 <= i < |samples| :: Fits(samples[i])
  }

  /** The rollup of a window that has seen these samples. */
  function Fold(windowStart: int, samples: seq<Sample>): (r: Rollup)
    requires AllFit(samples)
    ensures Fits(r.previous)
    decreases |samples|
  {
    if samples == [] then NewRollup(windowStart)
    else AddSample(Fold(windowStart, samples[..|samples| - 1]), samples[|samples| - 1])
  }

  function Payload(r: Rollup, end: int): RollupPayload {
    RollupPayload(r.windowStart, end, r.count, r.minimum, r.average, r.maximum, r.netIn, r.netOut)
  }

  lemma {:induction false} FoldBasics(windowStart: int, samples: seq<Sample>)
    requires AllFit(samples)
    ensures var r := Fold(windowStart, samples);
            r.windowStart == windowStart && r.count == |samples|
            && (samples != [] ==> r.previous == samples[|samples| - 1])
    decreases |samples|
  {
    if samples != [] {
      FoldBasics(windowStart, samples[..|samples| - 1]);
    }
  }

  // Extremes.

  predicate Least(m: nat, values: seq<nat>) {
    m in values && forall i | 0 <= i < |values| :: m <= values[i]
  }

  predicate Greatest(m: nat, values: seq<nat>) {
    m in values && forall i | 0 <= i < |values| :: values[i] <= m
  }

  lemma LeastSnoc(m: nat, values: seq<nat>, x: nat)
    requires Least(m, values)
    ensures Least(MinUint64(m, x), values + [x])
  {
    assert (values + [x])[|values|] == x;
  }

  lemma GreatestSnoc(m: nat, values: seq<nat>, x: nat)
    requires Greatest(m, values)
    ensures Greatest(MaxUint64(m, x), values + [x])
  {
    assert (values + [x])[|values|] == x;
  }

  function ValuesOf(samples: seq<Sample>, g: Gauge): (values: seq<nat>)
    ensures |values| == |samples|
  {
    seq(|samples|, i requires 0 <= i < |samples| => Get(samples[i], g))
  }

  lemma ValuesSnoc(samples: seq<Sample>, g: Gauge)
    requires samples != []
    ensures ValuesOf(samples, g) == ValuesOf(samples[..|samples| - 1], g) + [Get(samples[|samples| - 1], g)]
  {
  }

  lemma {:induction false} MinimumAttained(windowStart: int, samples: seq<Sample>, g: Gauge)
    requires AllFit(samples) && samples != []
    ensures Least(Get(Fold(windowStart, samples).minimum, g), ValuesOf(samples, g))
    decreases |samples|
  {
    var front, last := samples[..|samples| - 1], samples[|samples| - 1];
    FoldBasics(windowStart, front);
    ValuesSnoc(samples, g);
    if front != [] {
      MinimumAttained(windowStart, front, g);
      GaugeStep(Fold(windowStart, front), last, g);
      LeastSnoc(Get(Fold(windowStart, front).minimum, g), ValuesOf(front, g), Get(last, g));
    }
  }

  lemma {:induction false} MaximumAttained(windowStart: int, samples: seq<Sample>, g: Gauge)
    requires AllFit(samples) && samples != []
    ensures Greatest(Get(Fold(windowStart, samples).maximum, g), ValuesOf(samples, g))
    decreases |samples|
  {
    var front, last := samples[..|samples| - 1], samples[|samples| - 1];
    FoldBasics(windowStart, front);
    ValuesSnoc(samples, g);
    if front != [] {
      MaximumAttained(windowStart, front, g);
      GaugeStep(Fold(windowStart, front), last, g);
      GreatestSnoc(Get(Fold(windowStart, front).maximum, g), ValuesOf(front, g), Get(last, g));
    }
  }

  /** The minimum and the maximum bound every sample, and some sample attains each. */
  lemma {:induction false} ExtremesAttained(windowStart: int, samples: seq<Sample>, g: Gauge)
    requires AllFit(samples) && samples != []
    ensures var r := Fold(windowStart, samples);
            && (forall i | 0 <= i < |samples| :: Get(r.minimum, g) <= Get(samples[i], g) <= Get(r.maximum, g))
            && (exists i | 0 <= i < |samples| :: Get(samples[i], g) == Get(r.minimum, g))
            && (exists i | 0 <= i < |samples| :: Get(samples[i], g) == Get(r.maximum, g))
  {
    MinimumAttained(windowStart, samples, g);
    MaximumAttained(windowStart, samples, g);
    var r, values := Fold(windowStart, samples), ValuesOf(samples, g);
    forall i | 0 <= i < |samples| ensures Get(r.minimum, g) <= Get(samples[i], g) <= Get(r.maximum, g) {
      assert values[i] == Get(samples[i], g);
    }
  }

  /** Meters are not averaged: the three samples of a rollup keep those of its first one. */
  predicate SameMeters(a: Sample, b: Sample) {
    a.netInTransfer == b.netInTransfer && a.netOutTransfer == b.netOutTransfer && a.uptime == b.uptime
  }

  lemma AddKeepsMeters(r: Rollup, s: Sample)
    requires Fits(r.previous) && Fits(s) && r.count > 0
    ensures var after := AddSample(r, s);
            SameMeters(after.minimum, r.minimum) && SameMeters(after.average, r.average)
            && SameMeters(after.maximum, r.maximum)
  {
  }

  lemma {:induction false} MetersOfFirst(windowStart: int, samples: seq<Sample>)
    requires AllFit(samples) && samples != []
    ensures var r := Fold(windowStart, samples);
            SameMeters(r.minimum, samples[0]) && SameMeters(r.average, samples[0]) && SameMeters(r.maximum, samples[0])
    decreases |samples|
  {
    var front, last := samples[..|samples| - 1], samples[|samples| - 1];
    FoldBasics(windowStart, front);
    if front != [] {
      MetersOfFirst(windowStart, front);
      AddKeepsMeters(Fold(windowStart, front), last);
    }
  }

  // The average.

  function Sum(samples: seq<Sample>, g: Gauge): nat
    decreases |samples|
  {
    if samples == [] then 0 else Sum(samples[..|samples| - 1], g) + Get(samples[|samples| - 1], g)
  }

  /** No step of the running average overflows 64 bits. */
  predicate StepsFit(windowStart: int, samples: seq<Sample>, g: Gauge)
    requires AllFit(samples)
    decreases |samples|
  {
    samples == [] ||
    var front, last := samples[..|samples| - 1], samples[|samples| - 1];
    && StepsFit(windowStart, front, g)
    && Get(Fold(windowStart, front).average, g) * |front| + Get(last, g) < UINT64_LIMIT
  }

  /** What can be told from the samples alone: the largest value times the count fits. */
  predicate AverageFits(samples: seq<Sample>, g: Gauge) {
    forall i | 0 <= i < |samples| :: Get(samples[i], g) * |samples| < UINT64_LIMIT
  }

  lemma DivideBounds(total: nat, count: nat, low: nat, high: nat)
    requires count > 0 && count * low <= total <= count * high
    ensures low <= total / count <= high && 0 <= total - count * (total / count) < count
  {
    var next := total / count;
    assert total == count * next + total % count;
    assert next >= low by {
      if next + 1 <= low { MultiplyMonotone(count, next + 1, low); }
    }
    assert next <= high by {
      if next >= high + 1 { MultiplyMonotone(count, high + 1, next); }
    }
  }

  lemma MultiplyMonotone(k: nat, a: nat, b: nat)
    requires a <= b
    ensures k * a <= k * b
  {
  }

  lemma WrapSmall(x: nat)
    requires x < UINT64_LIMIT
    ensures Wrap(x) == x
  {
  }

  lemma Scaled(a: nat, b: nat, k: nat)
    requires a <= b
    ensures a * k <= b * k
  {
  }

  lemma OneMore(a: nat, count: nat)
    requires count >= 1
    ensures a * (count - 1) + a == count * a
  {
  }

  lemma TotalBounds(average: nat, x: nat, count: nat, low: nat, high: nat)
    requires count >= 1 && low <= average <= high && low <= x <= high
    ensures count * low <= average * (count - 1) + x <= count * high
  {
    Scaled(low, average, count - 1);
    Scaled(average, high, count - 1);
    OneMore(low, count);
    OneMore(high, count);
  }

  /** One step that fits stays between the bounds of its operands. */
  lemma AverageStep(average: nat, x: nat, count: nat, low: nat, high: nat)
    requires count >= 2 && low <= average <= high && low <= x <= high
    requires average * (count - 1) + x < UINT64_LIMIT
    ensures low <= RunningAverage(average, x, count) <= high
  {
    var total := average * (count - 1) + x;
    TotalBounds(average, x, count, low, high);
    WrapSmall(average * (count - 1));
    WrapSmall(total);
    DivideBounds(total, count, low, high);
  }

  lemma WrapLoses(x: nat)
    requires x >= UINT64_LIMIT
    ensures Wrap(x) <= x - UINT64_LIMIT
  {
  }

  /** What one step drops: less than the count by truncation, at least 2^64 by overflow. */
  lemma StepLag(average: nat, x: nat, count: nat)
    requires count >= 1
    ensures var lag := average * (count - 1) + x - count * RunningAverage(average, x, count);
            if average * (count - 1) + x < UINT64_LIMIT then 0 <= lag < count else lag >= UINT64_LIMIT
  {
    var product := average * (count - 1);
    var wrapped := Wrap(Wrap(product) + x);
    WrapAdds(0, product, x);
    assert wrapped == Wrap(product + x);
    assert wrapped == count * (wrapped / count) + wrapped % count;
    if product + x < UINT64_LIMIT {
      WrapSmall(product + x);
    } else {
      WrapLoses(product + x);
    }
  }

  /** How one gauge moves when a sample is added. */
  lemma GaugeStep(r: Rollup, s: Sample, g: Gauge)
    requires Fits(r.previous) && Fits(s) && r.count > 0
    ensures var after := AddSample(r, s);
            && Get(after.minimum, g) == MinUint64(Get(r.minimum, g), Get(s, g))
            && Get(after.maximum, g) == MaxUint64(Get(r.maximum, g), Get(s, g))
            && Get(after.average, g) == RunningAverage(Get(r.average, g), Get(s, g), r.count + 1)
  {
  }

  /** The truncating running average stays between the extremes. */
  lemma {:induction false} AverageBounds(windowStart: int, samples: seq<Sample>, g: Gauge)
    requires AllFit(samples) && samples != [] && StepsFit(windowStart, samples, g)
    ensures var r := Fold(windowStart, samples); Get(r.minimum, g) <= Get(r.average, g) <= Get(r.maximum, g)
    decreases |samples|
  {
    var front, last := samples[..|samples| - 1], samples[|samples| - 1];
    FoldBasics(windowStart, front);
    if front != [] {
      AverageBounds(windowStart, front, g);
      var before, r := Fold(windowStart, front), Fold(windowStart, samples);
      GaugeStep(before, last, g);
      AverageStep(Get(before.average, g), Get(last, g), |samples|, Get(r.minimum, g), Get(r.maximum, g));
    }
  }

  function Lag(windowStart: int, samples: seq<Sample>, g: Gauge): int
    requires AllFit(samples)
  {
    Sum(samples, g) - |samples| * Get(Fold(windowStart, samples).average, g)
  }

  lemma {:induction false} LagStep(windowStart: int, samples: seq<Sample>, g: Gauge)
    requires AllFit(samples) && |samples| >= 2
    ensures var front, last, k := samples[..|samples| - 1], samples[|samples| - 1], |samples|;
            var average, x := Get(Fold(windowStart, front).average, g), Get(last, g);
            Lag(windowStart, samples, g)
            == Lag(windowStart, front, g) + (average * (k - 1) + x - k * RunningAverage(average, x, k))
  {
    var front, last := samples[..|samples| - 1], samples[|samples| - 1];
    FoldBasics(windowStart, front);
    GaugeStep(Fold(windowStart, front), last, g);
  }

  /** 0 + 1 + ... + (k - 1) */
  function Triangle(k: nat): nat {
    if k == 0 then 0 else Triangle(k - 1) + k - 1
  }

  lemma {:induction false} TriangleTwice(k: nat)
    ensures 2 * Triangle(k) == k * (k - 1)
  {
    if k > 0 {
      TriangleTwice(k - 1);
      assert (k - 1) * (k - 2) + 2 * (k - 1) == k * (k - 1);
    }
  }

  lemma {:induction false} OneSampleLag(windowStart: int, samples: seq<Sample>, g: Gauge)
    requires AllFit(samples) && |samples| == 1
    ensures StepsFit(windowStart, samples, g) && Lag(windowStart, samples, g) == 0
  {
    var front, last := samples[..0], samples[0];
    assert Sum(samples, g) == Sum(front, g) + Get(last, g);
    assert Fold(windowStart, samples) == AddSample(Fold(windowStart, front), last);
  }

  /** How far the average lags behind: by at most (k - 1) / 2 when no step overflowed, and by
      more than any such bound as soon as one did. */
  lemma {:induction false} LagBounds(windowStart: int, samples: seq<Sample>, g: Gauge)
    requires AllFit(samples) && samples != []
    ensures var lag := Lag(windowStart, samples, g);
            if StepsFit(windowStart, samples, g) then 0 <= lag <= Triangle(|samples|) else lag >= UINT64_LIMIT
    decreases |samples|
  {
    var front, last, k := samples[..|samples| - 1], samples[|samples| - 1], |samples|;
    if k == 1 {
      OneSampleLag(windowStart, samples, g);
    } else {
      LagBounds(windowStart, front, g);
      LagStep(windowStart, samples, g);
      StepLag(Get(Fold(windowStart, front).average, g), Get(last, g), k);
    }
  }

  lemma {:induction false} TriangleFits(k: nat)
    requires 0 < k < 0x1_0000_0000
    ensures Triangle(k) < UINT64_LIMIT
  {
    TriangleTwice(k);
    Scaled(k, 0x1_0000_0000, k - 1);
  }

  /** The average of k samples is within (k - 1) / 2 of the true mean if and only if no step
      overflowed; counts are 32-bit numbers. */
  lemma {:induction false} LagBoundIff(windowStart: int, samples: seq<Sample>, g: Gauge)
    requires AllFit(samples) && 0 < |samples| < 0x1_0000_0000
    ensures var k, lag := |samples|, Lag(windowStart, samples, g);
            0 <= 2 * lag <= k * (k - 1) <==> StepsFit(windowStart, samples, g)
  {
    LagBounds(windowStart, samples, g);
    TriangleFits(|samples|);
    TriangleTwice(|samples|);
  }

  lemma FrontFits(samples: seq<Sample>, g: Gauge)
    requires AverageFits(samples, g) && samples != []
    ensures AverageFits(samples[..|samples| - 1], g)
  {
    var front := samples[..|samples| - 1];
    forall i | 0 <= i < |front| ensures Get(front[i], g) * |front| < UINT64_LIMIT {
      Scaled(|front|, |samples|, Get(samples[i], g));
    }
  }

  /** Small values never overflow: the samples alone can tell. */
  lemma {:induction false} SmallValuesFit(windowStart: int, samples: seq<Sample>, g: Gauge)
    requires AllFit(samples) && AverageFits(samples, g)
    ensures StepsFit(windowStart, samples, g)
    decreases |samples|
  {
    if samples != [] {
      var front, last, k := samples[..|samples| - 1], samples[|samples| - 1], |samples|;
      FrontFits(samples, g);
      SmallValuesFit(windowStart, front, g);
      if front != [] {
        AverageBounds(windowStart, front, g);
        ExtremesAttained(windowStart, samples, g);
        FoldBasics(windowStart, front);
        var before, r := Fold(windowStart, front), Fold(windowStart, samples);
        GaugeStep(before, last, g);
        var i :| 0 <= i < k && Get(samples[i], g) == Get(r.maximum, g);
        TotalBounds(Get(before.average, g), Get(last, g), k, 0, Get(r.maximum, g));
      }
    }
  }

  /** Overflow is possible: two readings of 2^64 - 1 average to 2^63 - 1. */
  lemma OverflowBreaksAverage(windowStart: int)
    ensures var s := NO_SAMPLE.(memUsed := UINT64_LIMIT - 1);
            AllFit([s, s]) && Get(Fold(windowStart, [s, s]).average, MemUsed) == UINT64_LIMIT / 2 - 1
  {
    var s := NO_SAMPLE.(memUsed := UINT64_LIMIT - 1);
    assert [s, s][..1] == [s] && [s][..0] == [];
    assert Fold(windowStart, [s]) == AddSample(Fold(windowStart, []), s);
    assert Fold(windowStart, [s, s]) == AddSample(Fold(windowStart, [s]), s);
  }

  // Traffic.

  lemma WrapAdds(a: nat, b: nat, c: nat)
    ensures Wrap(a + Wrap(b + c)) == Wrap(Wrap(a + b) + c)
  {
    var q, p := (b + c) / UINT64_LIMIT, (a + b) / UINT64_LIMIT;
    assert b + c == UINT64_LIMIT * q + Wrap(b + c);
    assert a + b == UINT64_LIMIT * p + Wrap(a + b);
    assert a + Wrap(b + c) == a + b + c - UINT64_LIMIT * q;
    assert Wrap(a + b) + c == a + b + c - UINT64_LIMIT * p;
  }

  /** How far a 64-bit counter has climbed, when it has wrapped once or not at all. */
  function Climb(previous: nat, current: nat): int {
    if current >= previous then current - previous else current + UINT64_LIMIT - previous
  }

  /** A step from one reading to the next that can be trusted: the same reading, or a plausible
      climb, or a plausible wrap from the top of the range, both without a reboot. */
  predicate Credible(previous: nat, current: nat, continuousBoot: bool) {
    current == previous
    || (continuousBoot && 0 <= Climb(previous, current) <= MAXIMUM_PLAUSIBLE_DELTA
        && (current > previous || previous > UINT64_LIMIT - 1 - WRAP_WINDOW))
  }

  /** A credible step is counted in full, and any other not at all. */
  lemma CounterDeltaExact(previous: nat, current: nat, continuousBoot: bool)
    requires previous < UINT64_LIMIT && current < UINT64_LIMIT
    ensures CounterDelta(previous, current, continuousBoot)
         == if Credible(previous, current, continuousBoot) then Climb(previous, current) else 0
  {
  }

  /** What a meter read, and how long the host had been up by then. */
  datatype Reading = Reading(value: nat, uptime: nat)

  predicate CredibleStep(a: Reading, b: Reading) {
    Credible(a.value, b.value, b.uptime >= a.uptime)
  }

  predicate AllCredible(readings: seq<Reading>) {
    forall i | 0 < i < |readings| :: CredibleStep(readings[i - 1], readings[i])
  }

  /** What one more step counts. */
  function Step(a: Reading, b: Reading): nat {
    if CredibleStep(a, b) then Climb(a.value, b.value) else 0
  }

  /** The traffic from the first reading to the last, as far as its steps are credible. */
  function Traffic(readings: seq<Reading>): nat
    decreases |readings|
  {
    if |readings| <= 1 then 0
    else
      var k := |readings| - 1;
      Traffic(readings[..k]) + Step(readings[k - 1], readings[k])
  }

  lemma {:induction false} TrafficSnoc(readings: seq<Reading>, next: Reading)
    requires readings != []
    ensures Traffic(readings + [next]) == Traffic(readings) + Step(readings[|readings| - 1], next)
  {
    assert (readings + [next])[..|readings|] == readings;
  }

  lemma WrapTwice(a: int, b: int)
    ensures Wrap(Wrap(a) + b) == Wrap(a + b)
  {
    var q := a / UINT64_LIMIT;
    assert Wrap(a) + b == a + b - UINT64_LIMIT * q;
  }

  /** A credible step leads from one reading to the next. */
  lemma StepLeads(a: Reading, b: Reading)
    requires CredibleStep(a, b) && b.value < UINT64_LIMIT
    ensures Wrap(a.value + Step(a, b)) == b.value
  {
    WrapSmall(b.value);
  }

  lemma OneStepFurther(start: nat, total: nat, previous: nat, step: nat, next: nat)
    requires Wrap(start + total) == previous && Wrap(previous + step) == next
    ensures Wrap(start + (total + step)) == next
  {
    WrapTwice(start + total, step);
  }

  lemma WrappedTotal(start: nat, traffic: nat)
    ensures Wrap(start + Wrap(traffic)) == Wrap(start + traffic)
  {
    WrapTwice(traffic, start);
  }

  /** The first reading and the traffic give the last reading, modulo 2^64. */
  predicate Reaches(readings: seq<Reading>) {
    readings != [] && Wrap(readings[0].value + Traffic(readings)) == readings[|readings| - 1].value
  }

  lemma OneMoreReading(readings: seq<Reading>, next: Reading)
    requires Reaches(readings) && CredibleStep(readings[|readings| - 1], next) && next.value < UINT64_LIMIT
    ensures Reaches(readings + [next])
  {
    var last := readings[|readings| - 1];
    StepLeads(last, next);
    TrafficSnoc(readings, next);
    OneStepFurther(readings[0].value, Traffic(readings), last.value, Step(last, next), next.value);
  }

  /** They do when every step is credible. */
  lemma {:induction false} TrafficTelescopes(readings: seq<Reading>)
    requires readings != [] && AllCredible(readings)
    requires forall i | 0 <= i < |readings| :: readings[i].value < UINT64_LIMIT
    ensures Reaches(readings)
    decreases |readings|
  {
    var k := |readings| - 1;
    if k == 0 {
      WrapSmall(readings[0].value);
    } else {
      assert CredibleStep(readings[k - 1], readings[k]);
      TrafficTelescopes(readings[..k]);
      OneMoreReading(readings[..k], readings[k]);
      assert readings[..k] + [readings[k]] == readings;
    }
  }

  function InReading(s: Sample): Reading {
    Reading(s.netInTransfer, s.uptime)
  }

  function OutReading(s: Sample): Reading {
    Reading(s.netOutTransfer, s.uptime)
  }

  function InReadings(samples: seq<Sample>): (r: seq<Reading>)
    ensures |r| == |samples|
  {
    seq(|samples|, i requires 0 <= i < |samples| => InReading(samples[i]))
  }

  function OutReadings(samples: seq<Sample>): (r: seq<Reading>)
    ensures |r| == |samples|
  {
    seq(|samples|, i requires 0 <= i < |samples| => OutReading(samples[i]))
  }

  lemma TotalsStep(r: Rollup, s: Sample)
    requires Fits(r.previous) && Fits(s) && r.count > 0
    ensures AddSample(r, s).netIn == Wrap(r.netIn + Step(InReading(r.previous), InReading(s)))
    ensures AddSample(r, s).netOut == Wrap(r.netOut + Step(OutReading(r.previous), OutReading(s)))
  {
    CounterDeltaExact(r.previous.netInTransfer, s.netInTransfer, s.uptime >= r.previous.uptime);
    CounterDeltaExact(r.previous.netOutTransfer, s.netOutTransfer, s.uptime >= r.previous.uptime);
  }

  /** One more step of a wrapping total. */
  lemma TotalGrows(before: nat, total: nat, traffic: nat, step: nat)
    requires before == Wrap(traffic) && total == Wrap(before + step)
    ensures total == Wrap(traffic + step)
  {
    WrapTwice(traffic, step);
  }

  /** The totals are the traffic of the samples that the rollup has seen, modulo 2^64. */
  predicate Counts(r: Rollup, samples: seq<Sample>) {
    && samples != [] && r.count == |samples| && r.previous == samples[|samples| - 1]
    && r.netIn == Wrap(Traffic(InReadings(samples))) && r.netOut == Wrap(Traffic(OutReadings(samples)))
  }

  lemma AddCountsIn(r: Rollup, samples: seq<Sample>, s: Sample)
    requires Fits(r.previous) && Fits(s) && Counts(r, samples)
    ensures AddSample(r, s).netIn == Wrap(Traffic(InReadings(samples + [s])))
  {
    TotalsStep(r, s);
    assert InReadings(samples + [s]) == InReadings(samples) + [InReading(s)];
    TrafficSnoc(InReadings(samples), InReading(s));
    TotalGrows(r.netIn, AddSample(r, s).netIn, Traffic(InReadings(samples)), Step(InReading(r.previous), InReading(s)));
  }

  lemma AddCountsOut(r: Rollup, samples: seq<Sample>, s: Sample)
    requires Fits(r.previous) && Fits(s) && Counts(r, samples)
    ensures AddSample(r, s).netOut == Wrap(Traffic(OutReadings(samples + [s])))
  {
    TotalsStep(r, s);
    assert OutReadings(samples + [s]) == OutReadings(samples) + [OutReading(s)];
    TrafficSnoc(OutReadings(samples), OutReading(s));
    TotalGrows(r.netOut, AddSample(r, s).netOut, Traffic(OutReadings(samples)),
               Step(OutReading(r.previous), OutReading(s)));
  }

  lemma AddCounts(r: Rollup, samples: seq<Sample>, s: Sample)
    requires Fits(r.previous) && Fits(s)
    requires if samples == [] then r.count == 0 && r.netIn == 0 && r.netOut == 0 else Counts(r, samples)
    ensures Counts(AddSample(r, s), samples + [s])
  {
    if samples == [] {
      WrapSmall(0);
    } else {
      AddCountsIn(r, samples, s);
      AddCountsOut(r, samples, s);
    }
  }

  /** The totals of a rollup are the incoming and the outgoing traffic of its samples. */
  lemma {:induction false} TotalsAreTraffic(windowStart: int, samples: seq<Sample>)
    requires AllFit(samples) && samples != []
    ensures Counts(Fold(windowStart, samples), samples)
    decreases |samples|
  {
    var front, last := samples[..|samples| - 1], samples[|samples| - 1];
    if front != [] {
      TotalsAreTraffic(windowStart, front);
    }
    AddCounts(Fold(windowStart, front), front, last);
    assert front + [last] == samples;
  }

  lemma StepAfterReboot(a: Reading, b: Reading)
    requires b.uptime < a.uptime
    ensures Step(a, b) == 0
  {
  }

  /** A sample after a reboot adds nothing to either total. */
  lemma RebootAddsNothing(r: Rollup, samples: seq<Sample>, s: Sample)
    requires Fits(r.previous) && Fits(s) && Counts(r, samples) && s.uptime < r.previous.uptime
    ensures AddSample(r, s).netIn == r.netIn && AddSample(r, s).netOut == r.netOut
  {
    TotalsStep(r, s);
    StepAfterReboot(InReading(r.previous), InReading(s));
    StepAfterReboot(OutReading(r.previous), OutReading(s));
    WrapSmall(r.netIn);
    WrapSmall(r.netOut);
  }

  /** Totals telescope: over a window whose steps are all credible, the first reading plus the
      total is the last reading, modulo 2^64. */
  lemma {:induction false} InTotalTelescopes(windowStart: int, samples: seq<Sample>)
    requires AllFit(samples) && samples != [] && AllCredible(InReadings(samples))
    ensures Wrap(samples[0].netInTransfer + Fold(windowStart, samples).netIn) == samples[|samples| - 1].netInTransfer
  {
    TotalsAreTraffic(windowStart, samples);
    TrafficTelescopes(InReadings(samples));
    WrappedTotal(samples[0].netInTransfer, Traffic(InReadings(samples)));
  }

  lemma {:induction false} OutTotalTelescopes(windowStart: int, samples: seq<Sample>)
    requires AllFit(samples) && samples != [] && AllCredible(OutReadings(samples))
    ensures Wrap(samples[0].netOutTransfer + Fold(windowStart, samples).netOut) == samples[|samples| - 1].netOutTransfer
  {
    TotalsAreTraffic(windowStart, samples);
    TrafficTelescopes(OutReadings(samples));
    WrappedTotal(samples[0].netOutTransfer, Traffic(OutReadings(samples)));
  }

  // In place.

  /** The rollup object of the manager: three samples updated field by field. */
  class PressureStateRollup {
    var windowStart: int
    var count: nat
    var minimum: Sample
    var average: Sample
    var maximum: Sample
    var previous: Sample
    var netIn: nat
    var netOut: nat

    constructor (windowStart: int)
      ensures View() == NewRollup(windowStart)
    {
      this.windowStart, count := windowStart, 0;
      minimum, average, maximum, previous := NO_SAMPLE, NO_SAMPLE, NO_SAMPLE, NO_SAMPLE;
      netIn, netOut := 0, 0;
    }

    function View(): Rollup
      reads this
    {
      Rollup(windowStart, count, minimum, average, maximum, previous, netIn, netOut)
    }

    method Add(s: Sample)
      requires Fits(previous) && Fits(s)
      modifies this
      ensures View() == AddSample(old(View()), s)
    {
      if count == 0 {
        minimum, average, maximum := s, s, s;
      } else {
        minimum := UpdateMinimum(minimum, s);
        maximum := UpdateMaximum(maximum, s);
        average := UpdateAverage(average, s, count + 1);
        var boot := s.uptime >= previous.uptime;
        netIn := Wrap(netIn + CounterDelta(previous.netInTransfer, s.netInTransfer, boot));
        netOut := Wrap(netOut + CounterDelta(previous.netOutTransfer, s.netOutTransfer, boot));
      }
      previous := s;
      count := count + 1;
    }
  }
}
