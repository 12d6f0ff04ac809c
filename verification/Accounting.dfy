/** Every sequence number that the session issues is accounted for, exactly once. */
module Accounting {
  import opened Proto
  import opened Rollups
  import WalLog
  import opened Manager

  // Coverage.

  /** How often one attempt speaks for number `n` of the session: an event when it was
      accepted, a gap when it was tried. */
  function Covering(session: Identity, a: Attempt, n: nat): nat {
    match a.record
    case Event(_, s, sequence, _) => if s == session && a.accepted && sequence == n then 1 else 0
    case Gap(_, s, start, end, _) => if s == session && start <= n <= end then 1 else 0
    case Unset => 0
  }

  function Cover(session: Identity, attempts: seq<Attempt>, n: nat): nat
    decreases |attempts|
  {
    if attempts == [] then 0
    else Cover(session, attempts[..|attempts| - 1], n) + Covering(session, attempts[|attempts| - 1], n)
  }

  /** The same, counting only what the log accepted. */
  function Recorded(session: Identity, attempts: seq<Attempt>, n: nat): nat
    decreases |attempts|
  {
    if attempts == [] then 0
    else
      var last := attempts[|attempts| - 1];
      Recorded(session, attempts[..|attempts| - 1], n) + (if last.accepted then Covering(session, last, n) else 0)
  }

  lemma {:induction false} CoverSnoc(session: Identity, attempts: seq<Attempt>, a: Attempt, n: nat)
    ensures Cover(session, attempts + [a], n) == Cover(session, attempts, n) + Covering(session, a, n)
  {
    assert (attempts + [a])[..|attempts|] == attempts;
  }

  /** Since `base`, every issued number that is not owed is covered once, and nothing else is. */
  ghost predicate Owing<L>(m: State<L>, base: nat, owed: set<nat>) {
    && base <= m.sequence
    && (forall n | n in owed :: base < n <= m.sequence)
    && (forall n: nat ::
          Cover(m.session, m.history.attempts, n) == if base < n <= m.sequence && n !in owed then 1 else 0)
  }

  // Each append keeps the account.

  lemma {:induction false} EventCover<L>(j: Journal<L>, m: State<L>, body: Body, priority: Priority, n: nat)
    ensures var r := AppendEvent(j, m, body, priority);
            Cover(m.session, r.state.history.attempts, n)
            == Cover(m.session, m.history.attempts, n) + if r.err.None? && n == m.sequence + 1 then 1 else 0
  {
    var err := j.append(m.log, EventOf(m, body), priority).1;
    CoverSnoc(m.session, m.history.attempts, Attempt(EventOf(m, body), err.None?), n);
  }

  /** Issuing one more number, which is covered or owed from then on. */
  lemma OneMoreNumber<L>(m: State<L>, after: State<L>, covered: bool, base: nat, owed: set<nat>)
    requires Owing(m, base, owed) && after.session == m.session && after.sequence == m.sequence + 1
    requires forall n: nat ::
               Cover(m.session, after.history.attempts, n)
               == Cover(m.session, m.history.attempts, n) + if covered && n == m.sequence + 1 then 1 else 0
    ensures Owing(after, base, if covered then owed else owed + {m.sequence + 1})
  {
  }

  lemma EventAccounts<L>(j: Journal<L>, m: State<L>, body: Body, priority: Priority, base: nat, owed: set<nat>)
    requires Owing(m, base, owed)
    ensures var r := AppendEvent(j, m, body, priority);
            && Owing(r.state, base, if r.err.None? then owed else owed + {r.sequence})
            && r.sequence == r.state.sequence && r.sequence !in owed
            && r.state.session == m.session
  {
    var r := AppendEvent(j, m, body, priority);
    forall n: nat
      ensures Cover(m.session, r.state.history.attempts, n)
           == Cover(m.session, m.history.attempts, n) + if r.err.None? && n == m.sequence + 1 then 1 else 0
    {
      EventCover(j, m, body, priority, n);
    }
    OneMoreNumber(m, r.state, r.err.None?, base, owed);
  }

  /** A gap settles the numbers it names, when they are owed. */
  lemma GapAccounts<L>(j: Journal<L>, m: State<L>, start: nat, end: nat, reason: GapReason, base: nat, owed: set<nat>,
                       left: set<nat>)
    requires Owing(m, base, owed)
    requires forall n: nat :: n in owed <==> n in left || start <= n <= end
    requires forall n | n in left :: !(start <= n <= end)
    ensures Owing(AppendGap(j, m, start, end, reason), base, left)
    ensures AppendGap(j, m, start, end, reason).session == m.session
  {
    var r := AppendGap(j, m, start, end, reason);
    var a := r.history.attempts[|m.history.attempts|];
    assert r.history.attempts == m.history.attempts + [a];
    forall n: nat ensures Cover(m.session, r.history.attempts, n)
                       == if base < n <= m.sequence && n !in left then 1 else 0
    {
      CoverSnoc(m.session, m.history.attempts, a, n);
      assert Covering(m.session, a, n) == if start <= n <= end then 1 else 0;
      assert n in owed <==> n in left || start <= n <= end;
    }
  }

  /** A replacement settles the number that failed last, and its own. */
  lemma LossAccounts<L>(j: Journal<L>, m: State<L>, failed: nat, base: nat, owed: set<nat>)
    requires failed !in owed && Owing(m, base, owed + {failed}) && failed == m.sequence
    ensures Owing(AppendLoss(j, m, failed), base, owed) && AppendLoss(j, m, failed).session == m.session
  {
    var body := DataLoss(HardLimitDataLoss, 1);
    var r := AppendEvent(j, m, body, P0Critical);
    EventAccounts(j, m, body, P0Critical, base, owed + {failed});
    if r.err.None? {
      GapAccounts(j, r.state, failed, failed, HardLimitDataLoss, base, owed + {failed}, owed);
    } else {
      GapAccounts(j, r.state, failed, r.sequence, HardLimitDataLoss, base, owed + {failed} + {r.sequence}, owed);
    }
  }

  /** An event whose refusal is replaced leaves no number owed that was not owed before. */
  lemma EventTickAccounts<L>(j: Journal<L>, m: State<L>, body: Body, priority: Priority, base: nat, owed: set<nat>)
    requires Owing(m, base, owed)
    ensures Owing(EventTick(j, m, body, priority), base, owed) && EventTick(j, m, body, priority).session == m.session
  {
    EventAccounts(j, m, body, priority, base, owed);
    var r := AppendEvent(j, m, body, priority);
    if r.err.Some? {
      LossAccounts(j, r.state, r.sequence, base, owed);
    }
  }

  lemma FlushAccounts<L>(j: Journal<L>, m: State<L>, end: int, base: nat, owed: set<nat>)
    requires Owing(m, base, owed)
    ensures Owing(FlushRollup(j, m, end), base, owed) && FlushRollup(j, m, end).session == m.session
  {
    if m.rollup.Some? && m.rollup.value.count != 0 {
      var rollup := m.rollup.value;
      var closed := CloseBlock(m);
      assert Owing(closed, base, owed);
      EventTickAccounts(j, closed, StateRollup(Payload(rollup, ClampEnd(rollup.windowStart, end))), P1Important, base,
          owed);
    }
  }

  lemma FlushAtEndAccounts<L>(j: Journal<L>, m: State<L>, base: nat, owed: set<nat>)
    requires m.rollup.Some? && Owing(m, base, owed)
    ensures Owing(FlushAtWindowEnd(j, m), base, owed) && FlushAtWindowEnd(j, m).session == m.session
  {
    FlushAccounts(j, m, m.rollup.value.windowStart + MINUTE, base, owed);
  }

  lemma FlushCompletedAccounts<L>(j: Journal<L>, m: State<L>, now: nat, base: nat, owed: set<nat>)
    requires Owing(m, base, owed)
    ensures Owing(FlushCompleted(j, m, now), base, owed) && FlushCompleted(j, m, now).session == m.session
  {
    if RollupIsOver(m, now) {
      FlushAtEndAccounts(j, m, base, owed);
    }
  }

  lemma ReplacementAccounts<L>(j: Journal<L>, m: State<L>, now: nat, sample: Sample, skipped: nat, cause: Refusal,
                               base: nat, owed: set<nat>)
    requires Fits(sample)
    requires skipped !in owed && Owing(m, base, owed + {skipped}) && skipped == m.sequence
    ensures var r := AppendPressureReplacement(j, m, now, sample, skipped, cause);
            Owing(r, base, owed) && r.session == m.session
  {
    if cause == WalLog.ErrNeedsRollup {
      FlushCompletedAccounts(j, m, now, base, owed + {skipped});
      var flushed := FlushCompleted(j, m, now);
      var compacted := Compact(flushed, now, sample);
      assert Owing(compacted, base, owed + {skipped});
      GapAccounts(j, compacted, skipped, skipped, Compacted, base, owed + {skipped}, owed);
    } else {
      LossAccounts(j, m, skipped, base, owed);
    }
  }

  lemma SampleAccounts<L(!new)>(j: Journal<L>, m: State<L>, now: nat, sample: Sample, base: nat, owed: set<nat>)
    requires Sane(j) && Fits(sample) && Owing(m, base, owed)
    ensures var r := SampleTick(j, m, now, sample); Owing(r, base, owed) && r.session == m.session
  {
    EventAccounts(j, m, Body.State(sample), P2Normal, base, owed);
    var event := AppendEvent(j, m, Body.State(sample), P2Normal);
    match event.err {
      case None =>
      case Some(cause) =>
        assert cause != WalLog.ErrDownsampled;
        ReplacementAccounts(j, event.state, now, sample, event.sequence, cause, base, owed);
    }
  }

  lemma StateTickAccounts<L(!new)>(j: Journal<L>, m: State<L>, flushedAt: nat, now: nat, sample: Sample, moved: bool,
                                   base: nat, owed: set<nat>)
    requires Sane(j) && Fits(sample) && Owing(m, base, owed)
    ensures var r := StateTick(j, m, flushedAt, now, sample, moved); Owing(r, base, owed) && r.session == m.session
  {
    FlushCompletedAccounts(j, m, flushedAt, base, owed);
    SampleAccounts(j, FlushCompleted(j, m, flushedAt), now, sample, base, owed);
    if moved {
      var sampled := SampleTick(j, FlushCompleted(j, m, flushedAt), now, sample);
      EventTickAccounts(j, sampled, Host, P1Important, base, owed);
    }
  }

  lemma TickAccounts<L(!new)>(j: Journal<L>, m: State<L>, t: Tick<L>, base: nat, owed: set<nat>)
    requires Sane(j) && TickFits(t) && Owing(m, base, owed)
    ensures Owing(Ticked(j, m, t), base, owed) && Ticked(j, m, t).session == m.session
  {
    match t
    case StateTicked(flushedAt, now, sample, moved) => StateTickAccounts(j, m, flushedAt, now, sample, moved, base,
        owed);
    case HeartbeatTicked => EventTickAccounts(j, m, Heartbeat, P0Critical, base, owed);
    case HostTicked => EventTickAccounts(j, m, Host, P1Important, base, owed);
    case Maintained(_) =>
    case Closed(now) => FlushAccounts(j, m, now, base, owed);
  }

  /** Sequence accounting over runs: whatever the log refuses, every number the loop issues is
      either an accepted event or inside one gap that was tried, never both and never two. */
  lemma {:induction false} RunAccounts<L(!new)>(j: Journal<L>, m: State<L>, ticks: seq<Tick<L>>, base: nat,
                                         owed: set<nat>)
    requires Sane(j) && Owing(m, base, owed) && forall i | 0 <= i < |ticks| :: TickFits(ticks[i])
    ensures Owing(RunTicks(j, m, ticks), base, owed) && RunTicks(j, m, ticks).session == m.session
    decreases |ticks|
  {
    if ticks != [] {
      TickAccounts(j, m, ticks[0], base, owed);
      RunAccounts(j, Ticked(j, m, ticks[0]), ticks[1..], base, owed);
    }
  }

  // What the log holds of it.

  /** A gap of this session that the log refused. */
  predicate Dropped(session: Identity, a: Attempt, n: nat) {
    !a.accepted && Covering(session, a, n) == 1
  }

  lemma {:induction false} RecordedWithin(session: Identity, attempts: seq<Attempt>, n: nat)
    ensures Recorded(session, attempts, n) <= Cover(session, attempts, n)
    ensures Recorded(session, attempts, n) == Cover(session, attempts, n) <==>
              forall i | 0 <= i < |attempts| :: !Dropped(session, attempts[i], n)
    decreases |attempts|
  {
    if attempts != [] {
      var front, last := attempts[..|attempts| - 1], attempts[|attempts| - 1];
      RecordedWithin(session, front, n);
      assert attempts == front + [last];
    }
  }

  /** What the log accepted partitions the issued numbers exactly when it refused no gap: each
      number is recorded once if and only if no refused gap contains it. */
  lemma {:induction false} RecordedOnceIff<L>(m: State<L>, base: nat, n: nat)
    requires Owing(m, base, {}) && base < n <= m.sequence
    ensures Recorded(m.session, m.history.attempts, n) <= 1
    ensures Recorded(m.session, m.history.attempts, n) == 1 <==>
              forall i | 0 <= i < |m.history.attempts| :: !Dropped(m.session, m.history.attempts[i], n)
  {
    RecordedWithin(m.session, m.history.attempts, n);
  }

  lemma {:induction false} NothingElseRecorded<L>(m: State<L>, base: nat, n: nat)
    requires Owing(m, base, {}) && !(base < n <= m.sequence)
    ensures Recorded(m.session, m.history.attempts, n) == 0
  {
    RecordedWithin(m.session, m.history.attempts, n);
  }
}
