/** Starting up: what is appended about the recovery before the collect loop runs. */
module Startup {
  import opened Proto
  import opened Rollups
  import opened Manager
  import opened Accounting

  /** A range of numbers that a recovery issue reports as lost. */
  datatype LostRange = LostRange(node: Identity, session: Identity, start: nat, end: nat)

  /** Records lost with these ranges, counted in 64 bits. */
  function LostRecords(ranges: seq<LostRange>): nat
    decreases |ranges|
  {
    if ranges == [] then 0
    else
      var last := ranges[|ranges| - 1];
      Wrap(LostRecords(ranges[..|ranges| - 1]) + Wrap(last.end - last.start + 1))
  }

  predicate Spans(range: LostRange, n: nat) {
    range.start <= n <= range.end
  }

  /** The numbers that a range spans. */
  function Span(range: LostRange): set<nat> {
    set n: nat | n <= range.end && Spans(range, n)
  }

  function SpanTotal(ranges: seq<LostRange>): nat
    decreases |ranges|
  {
    if ranges == [] then 0 else SpanTotal(ranges[..|ranges| - 1]) + |Span(ranges[|ranges| - 1])|
  }

  lemma {:induction false} SpanSize(range: LostRange)
    requires range.start <= range.end + 1
    ensures |Span(range)| == range.end + 1 - range.start
    decreases range.end + 1 - range.start
  {
    if range.start == range.end + 1 {
      assert Span(range) == {};
    } else {
      SpanSize(range.(start := range.start + 1));
      assert Span(range) == {range.start} + Span(range.(start := range.start + 1));
    }
  }

  lemma WrapOneMore(total: nat, size: nat)
    ensures Wrap(Wrap(total) + Wrap(size)) == Wrap(total + size)
  {
    assert Wrap(total) + Wrap(size)
        == total + size - UINT64_LIMIT * (total / UINT64_LIMIT) - UINT64_LIMIT * (size / UINT64_LIMIT);
  }

  /** A data-loss event counts the numbers in its ranges, modulo 2^64. */
  lemma {:induction false} LostRecordsCount(ranges: seq<LostRange>)
    requires forall i | 0 <= i < |ranges| :: ranges[i].start <= ranges[i].end
    ensures LostRecords(ranges) == Wrap(SpanTotal(ranges))
    decreases |ranges|
  {
    if ranges != [] {
      var front, last := ranges[..|ranges| - 1], ranges[|ranges| - 1];
      LostRecordsCount(front);
      SpanSize(last);
      WrapOneMore(SpanTotal(front), last.end - last.start + 1);
    }
  }

  function AppendRanges<L>(j: Journal<L>, m: State<L>, ranges: seq<LostRange>): (r: State<L>)
    decreases |ranges|
  {
    if ranges == [] then m
    else
      var first := ranges[0];
      AppendRanges(j, AppendExplicitGap(j, m, first.node, first.session, first.start, first.end, Corruption),
          ranges[1..])
  }

  /** Without ranges a number is issued only to be skipped, and its gap follows the event. When
      the event is refused, nothing more is said about the issue. */
  function ReportIssue<L>(j: Journal<L>, m: State<L>, ranges: seq<LostRange>): State<L> {
    if ranges == [] then
      var skipped := m.sequence + 1;
      var loss := AppendEvent(j, m.(sequence := skipped), DataLoss(Corruption, 1), P0Critical);
      if loss.err.Some? then loss.state else AppendGap(j, loss.state, skipped, skipped, Corruption)
    else
      var loss := AppendEvent(j, m, DataLoss(Corruption, LostRecords(ranges)), P0Critical);
      if loss.err.Some? then loss.state else AppendRanges(j, loss.state, ranges)
  }

  function ReportIssues<L>(j: Journal<L>, m: State<L>, issues: seq<seq<LostRange>>): (r: State<L>)
    decreases |issues|
  {
    if issues == [] then m else ReportIssues(j, ReportIssue(j, m, issues[0]), issues[1..])
  }

  /** Nothing when one of the first two events is refused: the agent does not start. */
  function Announce<L>(j: Journal<L>, m: State<L>): Option<State<L>> {
    var started := AppendEvent(j, m, Lifecycle, P0Critical);
    if started.err.Some? then None
    else
      var host := AppendEvent(j, started.state, Host, P1Important);
      if host.err.Some? then None else Some(host.state)
  }

  function Start<L>(j: Journal<L>, m: State<L>, issues: seq<seq<LostRange>>): Option<State<L>> {
    match Announce(j, m)
    case None => None
    case Some(announced) => Some(ReportIssues(j, announced, issues))
  }

  // What is left unaccounted for.

  /** The numbers that reporting one issue leaves open. */
  function Hole<L>(j: Journal<L>, m: State<L>, ranges: seq<LostRange>): set<nat>
  {
    if ranges == [] then
      if AppendEvent(j, m.(sequence := m.sequence + 1), DataLoss(Corruption, 1), P0Critical).err.Some?
      then {m.sequence + 1, m.sequence + 2} else {}
    else
      if AppendEvent(j, m, DataLoss(Corruption, LostRecords(ranges)), P0Critical).err.Some?
      then {m.sequence + 1} else {}
  }

  function Holes<L>(j: Journal<L>, m: State<L>, issues: seq<seq<LostRange>>): set<nat>
    decreases |issues|
  {
    if issues == [] then {} else Hole(j, m, issues[0]) + Holes(j, ReportIssue(j, m, issues[0]), issues[1..])
  }

  /** Lost ranges are those of earlier sessions. */
  predicate Foreign(session: Identity, ranges: seq<LostRange>) {
    forall i | 0 <= i < |ranges| :: ranges[i].session != session
  }

  lemma {:induction false} RangesAccount<L>(j: Journal<L>, m: State<L>, ranges: seq<LostRange>, base: nat,
                                            owed: set<nat>)
    requires Owing(m, base, owed) && Foreign(m.session, ranges)
    ensures var r := AppendRanges(j, m, ranges); Owing(r, base, owed) && r.session == m.session
    decreases |ranges|
  {
    if ranges != [] {
      var first := ranges[0];
      var next := AppendExplicitGap(j, m, first.node, first.session, first.start, first.end, Corruption);
      var a := next.history.attempts[|m.history.attempts|];
      assert next.history.attempts == m.history.attempts + [a];
      forall n: nat ensures Cover(m.session, next.history.attempts, n) == Cover(m.session, m.history.attempts, n) {
        CoverSnoc(m.session, m.history.attempts, a, n);
      }
      RangesAccount(j, next, ranges[1..], base, owed);
    }
  }

  /** A number that is issued and not used is owed. */
  lemma SkipOwes<L>(m: State<L>, base: nat, owed: set<nat>)
    requires Owing(m, base, owed)
    ensures Owing(m.(sequence := m.sequence + 1), base, owed + {m.sequence + 1})
  {
  }

  lemma SkippedLossAccounts<L>(j: Journal<L>, issued: State<L>, skipped: nat, base: nat, owed: set<nat>)
    requires skipped == issued.sequence && skipped !in owed && Owing(issued, base, owed + {skipped})
    ensures var loss := AppendEvent(j, issued, DataLoss(Corruption, 1), P0Critical);
            && loss.state.session == issued.session
            && Owing(loss.state, base, if loss.err.None? then owed + {skipped} else owed + {skipped, skipped + 1})
  {
    EventAccounts(j, issued, DataLoss(Corruption, 1), P0Critical, base, owed + {skipped});
    assert owed + {skipped} + {skipped + 1} == owed + {skipped, skipped + 1};
  }

  lemma SkippedIssueAccounts<L>(j: Journal<L>, m: State<L>, base: nat, owed: set<nat>)
    requires Owing(m, base, owed)
    ensures var r := ReportIssue(j, m, []); Owing(r, base, owed + Hole(j, m, [])) && r.session == m.session
  {
    var skipped := m.sequence + 1;
    SkipOwes(m, base, owed);
    SkippedLossAccounts(j, m.(sequence := skipped), skipped, base, owed);
    var loss := AppendEvent(j, m.(sequence := skipped), DataLoss(Corruption, 1), P0Critical);
    if loss.err.None? {
      assert owed + {} == owed;
      GapAccounts(j, loss.state, skipped, skipped, Corruption, base, owed + {skipped}, owed);
    }
  }

  lemma IssueAccounts<L>(j: Journal<L>, m: State<L>, ranges: seq<LostRange>, base: nat, owed: set<nat>)
    requires Owing(m, base, owed) && Foreign(m.session, ranges)
    ensures var r := ReportIssue(j, m, ranges); Owing(r, base, owed + Hole(j, m, ranges)) && r.session == m.session
  {
    if ranges == [] {
      SkippedIssueAccounts(j, m, base, owed);
    } else {
      EventAccounts(j, m, DataLoss(Corruption, LostRecords(ranges)), P0Critical, base, owed);
      var loss := AppendEvent(j, m, DataLoss(Corruption, LostRecords(ranges)), P0Critical);
      if loss.err.None? {
        assert owed + {} == owed;
        RangesAccount(j, loss.state, ranges, base, owed);
      }
    }
  }

  lemma {:induction false} IssuesAccount<L>(j: Journal<L>, m: State<L>, issues: seq<seq<LostRange>>, base: nat,
                                            owed: set<nat>)
    requires Owing(m, base, owed) && forall i | 0 <= i < |issues| :: Foreign(m.session, issues[i])
    ensures var r := ReportIssues(j, m, issues); Owing(r, base, owed + Holes(j, m, issues)) && r.session == m.session
    decreases |issues|
  {
    if issues == [] {
      assert owed + {} == owed;
    } else {
      var hole := Hole(j, m, issues[0]);
      var next := ReportIssue(j, m, issues[0]);
      IssueAccounts(j, m, issues[0], base, owed);
      IssuesAccount(j, next, issues[1..], base, owed + hole);
      assert owed + hole + Holes(j, next, issues[1..]) == owed + Holes(j, m, issues);
    }
  }

  lemma AnnounceAccounts<L>(j: Journal<L>, m: State<L>)
    requires m.history.attempts == [] && Announce(j, m).Some?
    ensures Owing(Announce(j, m).value, m.sequence, {}) && Announce(j, m).value.session == m.session
  {
    EventAccounts(j, m, Lifecycle, P0Critical, m.sequence, {});
    EventAccounts(j, AppendEvent(j, m, Lifecycle, P0Critical).state, Host, P1Important, m.sequence, {});
  }

  /** Over startup and any run of the loop after it, every number issued is accounted for
      exactly once, except the holes; those stay open for ever. */
  lemma {:induction false} StartAccounts<L(!new)>(j: Journal<L>, m: State<L>, issues: seq<seq<LostRange>>,
                                           ticks: seq<Tick<L>>)
    requires Sane(j) && m.history.attempts == [] && Start(j, m, issues).Some?
    requires forall i | 0 <= i < |issues| :: Foreign(m.session, issues[i])
    requires forall i | 0 <= i < |ticks| :: TickFits(ticks[i])
    ensures var r := RunTicks(j, Start(j, m, issues).value, ticks);
            Owing(r, m.sequence, Holes(j, Announce(j, m).value, issues)) && r.session == m.session
  {
    var announced := Announce(j, m).value;
    var holes := Holes(j, announced, issues);
    AnnounceAccounts(j, m);
    IssuesAccount(j, announced, issues, m.sequence, {});
    assert {} + holes == holes;
    RunAccounts(j, ReportIssues(j, announced, issues), ticks, m.sequence, holes);
  }

  /** Each range is tried as a gap of its own, in order. */
  lemma {:induction false} RangesTried<L>(j: Journal<L>, m: State<L>, ranges: seq<LostRange>)
    ensures var before, after := m.history.attempts, AppendRanges(j, m, ranges).history.attempts;
            && before <= after && |after| == |before| + |ranges|
            && forall i | 0 <= i < |ranges| ::
                 after[|before| + i].record
                 == Gap(ranges[i].node, ranges[i].session, ranges[i].start, ranges[i].end, Corruption)
    decreases |ranges|
  {
    if ranges != [] {
      var first, before := ranges[0], m.history.attempts;
      var next := AppendExplicitGap(j, m, first.node, first.session, first.start, first.end, Corruption);
      RangesTried(j, next, ranges[1..]);
      var after := AppendRanges(j, m, ranges).history.attempts;
      forall i | 0 <= i < |ranges|
        ensures after[|before| + i].record
             == Gap(ranges[i].node, ranges[i].session, ranges[i].start, ranges[i].end, Corruption)
      {
        if i == 0 {
          assert after[|before|] == next.history.attempts[|before|];
        } else {
          assert ranges[i] == ranges[1..][i - 1];
        }
      }
    }
  }

  /** A report begins with its data-loss event: one lost record, and the number after the one that
      is skipped, when nothing is known; the numbers in the ranges otherwise. */
  lemma {:induction false} ReportBeginsWithLoss<L>(j: Journal<L>, m: State<L>, ranges: seq<LostRange>)
    ensures var before, after := m.history.attempts, ReportIssue(j, m, ranges).history.attempts;
            && before <= after && |after| > |before|
            && after[|before|].record
               == (if ranges == [] then Event(m.node, m.session, m.sequence + 2, DataLoss(Corruption, 1))
                   else Event(m.node, m.session, m.sequence + 1, DataLoss(Corruption, LostRecords(ranges))))
            && (after[|before|].accepted <==> Hole(j, m, ranges) == {})
            && (ranges == [] && after[|before|].accepted ==>
                  && |after| == |before| + 2
                  && after[|before| + 1].record
                     == Gap(m.node, m.session, m.sequence + 1, m.sequence + 1, Corruption))
  {
    assert Hole(j, m, ranges) == {} || m.sequence + 1 in Hole(j, m, ranges);
    if ranges != [] {
      var loss := AppendEvent(j, m, DataLoss(Corruption, LostRecords(ranges)), P0Critical);
      RangesTried(j, loss.state, ranges);
    }
  }

  /** Unless its data-loss event is refused, every range of an issue is tried as a gap. */
  lemma RangesReported<L>(j: Journal<L>, m: State<L>, ranges: seq<LostRange>, i: nat)
    requires Hole(j, m, ranges) == {} && i < |ranges|
    ensures var before, after := m.history.attempts, ReportIssue(j, m, ranges).history.attempts;
            && before <= after && |after| == |before| + 1 + |ranges|
            && after[|before| + 1 + i].record
               == Gap(ranges[i].node, ranges[i].session, ranges[i].start, ranges[i].end, Corruption)
  {
    var loss := AppendEvent(j, m, DataLoss(Corruption, LostRecords(ranges)), P0Critical);
    assert m.sequence + 1 !in Hole(j, m, ranges);
    RangesTried(j, loss.state, ranges);
    assert m.history.attempts <= loss.state.history.attempts;
  }
}
