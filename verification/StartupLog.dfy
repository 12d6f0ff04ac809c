/** Starting up on the write-ahead log: when the reports of a recovery fit into it, and what
    becomes of the records that were set aside. */
module StartupLog {
  import opened Proto
  import opened Scanning
  import opened WalLog
  import opened LogInvariants
  import opened Manager
  import opened Accounting
  import opened Ledger
  import opened Startup
  import opened Recovery
  import opened Quarantine
  import Frames
  import LogRuns

  // Sizes.

  lemma AppendTotal(f: Format, log: Log, record: Record, priority: Priority)
    requires log.Open()
    ensures AppendLog(f, log, record, priority).total
         == log.total + if Accepts(f, log, record, priority) then |f.frame(record, priority)| else 0
  {
  }

  /** The journal takes a critical record exactly when it stays below the capacity with it. */
  lemma CriticalTaken(j: Journal<LiveLog>, f: Format, log: LiveLog, record: Record)
    requires IsWal(j, f) && log.cfg.Normal()
    ensures var (after, err) := j.append(log, record, P0Critical);
            && after.cfg == log.cfg
            && (err.None? <==> log.total + |f.frame(record, P0Critical)| < log.cfg.maxSize)
            && after.total == log.total + if err.None? then |f.frame(record, P0Critical)| else 0
  {
    assert Answers(j, f, log, record, P0Critical);
    AppendTotal(f, log, record, P0Critical);
    LogRuns.CriticalRefusedOnlyWhenFull(log.cfg, log.total, |f.frame(record, P0Critical)|, P0Critical);
  }

  /** The agent starts if and only if its first two events fit, the second one beside the reserve. */
  lemma AnnounceIff(j: Journal<LiveLog>, f: Format, m: State<LiveLog>)
    requires IsWal(j, f) && m.log.cfg.Normal()
    ensures var first := m.log.total + |f.frame(Event(m.node, m.session, m.sequence + 1, Lifecycle), P0Critical)|;
            var both := first + |f.frame(Event(m.node, m.session, m.sequence + 2, Host), P1Important)|;
            Announce(j, m).Some? <==> both < m.log.cfg.maxSize && both <= m.log.cfg.maxSize - m.log.cfg.reserveBytes
    ensures Announce(j, m).Some? ==>
              var a := Announce(j, m).value;
              && a.log.cfg == m.log.cfg && a.node == m.node && a.session == m.session && a.sequence == m.sequence + 2
              && a.log.total == m.log.total + |f.frame(Event(m.node, m.session, m.sequence + 1, Lifecycle), P0Critical)|
                                + |f.frame(Event(m.node, m.session, m.sequence + 2, Host), P1Important)|
  {
    CriticalTaken(j, f, m.log, EventOf(m, Lifecycle));
    var started := AppendEvent(j, m, Lifecycle, P0Critical).state;
    var host := EventOf(started, Host);
    assert Answers(j, f, started.log, host, P1Important);
    AppendTotal(f, started.log, host, P1Important);
    LogRuns.AdmissionIff(m.log.cfg, started.log.total, |f.frame(host, P1Important)|, P1Important);
  }

  // Which reports fit.

  function RangeGaps(ranges: seq<LostRange>): seq<Record> {
    if ranges == [] then []
    else [Gap(ranges[0].node, ranges[0].session, ranges[0].start, ranges[0].end, Corruption)] + RangeGaps(ranges[1..])
  }

  /** The numbers that one report issues. */
  function NumbersOf(ranges: seq<LostRange>): nat {
    if ranges == [] then 2 else 1
  }

  function LossEvent(node: Identity, session: Identity, sequence: nat, ranges: seq<LostRange>): Record {
    Event(node, session, sequence + NumbersOf(ranges),
          DataLoss(Corruption, if ranges == [] then 1 else LostRecords(ranges)))
  }

  function LossGaps(node: Identity, session: Identity, sequence: nat, ranges: seq<LostRange>): seq<Record> {
    if ranges == [] then [Gap(node, session, sequence + 1, sequence + 1, Corruption)] else RangeGaps(ranges)
  }

  /** The bytes in the log once these critical records have been tried in turn. */
  function SizeAfter(f: Format, maxSize: int, total: int, records: seq<Record>): int
    decreases |records|
  {
    if records == [] then total
    else
      var next := total + |f.frame(records[0], P0Critical)|;
      SizeAfter(f, maxSize, if next < maxSize then next else total, records[1..])
  }

  /** The data-loss event of every issue fits below the capacity when its turn comes. */
  predicate ReportsFit(f: Format, maxSize: int, total: int, node: Identity, session: Identity, sequence: nat,
                       issues: seq<seq<LostRange>>)
    decreases |issues|
  {
    issues == [] ||
    var next := total + |f.frame(LossEvent(node, session, sequence, issues[0]), P0Critical)|;
    && next < maxSize
    && ReportsFit(f, maxSize, SizeAfter(f, maxSize, next, LossGaps(node, session, sequence, issues[0])),
                  node, session, sequence + NumbersOf(issues[0]), issues[1..])
  }

  /** An issue leaves a hole if and only if its data-loss event would reach the capacity. */
  lemma HoleIff(j: Journal<LiveLog>, f: Format, m: State<LiveLog>, ranges: seq<LostRange>)
    requires IsWal(j, f) && m.log.cfg.Normal()
    ensures Hole(j, m, ranges) != {} <==>
              m.log.total + |f.frame(LossEvent(m.node, m.session, m.sequence, ranges), P0Critical)| >= m.log.cfg.maxSize
  {
    CriticalTaken(j, f, m.log, LossEvent(m.node, m.session, m.sequence, ranges));
    assert Hole(j, m, ranges) != {} ==> m.sequence + 1 in Hole(j, m, ranges);
    if m.log.total + |f.frame(LossEvent(m.node, m.session, m.sequence, ranges), P0Critical)| >= m.log.cfg.maxSize {
      assert m.sequence + 1 in Hole(j, m, ranges);
    }
  }

  lemma {:induction false} RangesSize(j: Journal<LiveLog>, f: Format, m: State<LiveLog>, ranges: seq<LostRange>)
    requires IsWal(j, f) && m.log.cfg.Normal()
    ensures var r := AppendRanges(j, m, ranges);
            && r.log.cfg == m.log.cfg && r.node == m.node && r.session == m.session && r.sequence == m.sequence
            && r.log.total == SizeAfter(f, m.log.cfg.maxSize, m.log.total, RangeGaps(ranges))
    decreases |ranges|
  {
    if ranges != [] {
      var first := ranges[0];
      CriticalTaken(j, f, m.log, Gap(first.node, first.session, first.start, first.end, Corruption));
      RangesSize(j, f, AppendExplicitGap(j, m, first.node, first.session, first.start, first.end, Corruption),
          ranges[1..]);
      assert RangeGaps(ranges)[1..] == RangeGaps(ranges[1..]);
    }
  }

  lemma {:induction false} IssueSize(j: Journal<LiveLog>, f: Format, m: State<LiveLog>, ranges: seq<LostRange>)
    requires IsWal(j, f) && m.log.cfg.Normal() && Hole(j, m, ranges) == {}
    ensures var r, next := ReportIssue(j, m, ranges),
                           m.log.total + |f.frame(LossEvent(m.node, m.session, m.sequence, ranges), P0Critical)|;
            && r.log.cfg == m.log.cfg && r.node == m.node && r.session == m.session
            && r.sequence == m.sequence + NumbersOf(ranges)
            && r.log.total == SizeAfter(f, m.log.cfg.maxSize, next, LossGaps(m.node, m.session, m.sequence, ranges))
  {
    HoleIff(j, f, m, ranges);
    CriticalTaken(j, f, m.log, LossEvent(m.node, m.session, m.sequence, ranges));
    if ranges == [] {
      var loss := AppendEvent(j, m.(sequence := m.sequence + 1), DataLoss(Corruption, 1), P0Critical).state;
      CriticalTaken(j, f, loss.log, Gap(m.node, m.session, m.sequence + 1, m.sequence + 1, Corruption));
    } else {
      RangesSize(j, f, AppendEvent(j, m, DataLoss(Corruption, LostRecords(ranges)), P0Critical).state, ranges);
    }
  }

  /** Reporting leaves no hole if and only if the reports fit: a sum of frame sizes, known before
      anything is appended. */
  lemma {:induction false} HolesIff(j: Journal<LiveLog>, f: Format, m: State<LiveLog>, issues: seq<seq<LostRange>>)
    requires IsWal(j, f) && m.log.cfg.Normal()
    ensures Holes(j, m, issues) == {} <==>
              ReportsFit(f, m.log.cfg.maxSize, m.log.total, m.node, m.session, m.sequence, issues)
    decreases |issues|
  {
    if issues != [] {
      var hole, next := Hole(j, m, issues[0]), ReportIssue(j, m, issues[0]);
      HoleIff(j, f, m, issues[0]);
      assert Holes(j, m, issues) == hole + Holes(j, next, issues[1..]);
      if hole == {} {
        IssueSize(j, f, m, issues[0]);
        HolesIff(j, f, next, issues[1..]);
      } else {
        assert Holes(j, m, issues) != {};
      }
    }
  }

  /** A directory whose only file is one byte long: a torn tail. */
  const TORN_FILE: seq<FoundFile> := [FoundFile(1, File([0], None))]

  /** Room for the first two events beside a reserve of one byte. */
  function TightConfig(f: Format, node: Identity, session: Identity): Config {
    Config(1, |f.frame(Event(node, session, 1, Lifecycle), P0Critical)|
              + |f.frame(Event(node, session, 2, Host), P1Important)| + 1, 1, 1)
  }

  lemma TornFileOpens(c: Frames.Codec, cfg: Config)
    requires c.Valid() && Frames.FormatOf(c).Valid()
    ensures var log := OpenLog(Frames.FormatOf(c), cfg, TORN_FILE);
            && log.segments == [Reopened(1, [], [])] && log.total == 0
            && log.unsynced == 0 && log.pending == [] && log.cfg == cfg
            && log.issues == [Issue(1, TruncatedPartialTail, map[])]
  {
    var f := Frames.FormatOf(c);
    assert f.parse([0]) == Stop(Torn);
    assert TORN_FILE[0].file.data[..0] == [];
    assert RecoverFile(f, TORN_FILE[0], true) == Keep(Reopened(1, [], []), [Issue(1, TruncatedPartialTail, map[])]);
    assert RecoverUpTo(f, cfg, TORN_FILE, 1) == AddOutcome(NewLog(cfg), RecoverFile(f, TORN_FILE[0], true));
  }

  lemma {:induction false} ReportRefused(j: Journal<LiveLog>, f: Format, a: State<LiveLog>)
    requires f.Valid() && IsWal(j, f) && a.log.cfg.Normal() && a.log.total >= a.log.cfg.maxSize - 1
    ensures Holes(j, a, [[]]) == {a.sequence + 1, a.sequence + 2}
  {
    assert f.NonEmptyAt(LossEvent(a.node, a.session, a.sequence, []), P0Critical);
    CriticalTaken(j, f, a.log, LossEvent(a.node, a.session, a.sequence, []));
    assert Hole(j, a, []) == {a.sequence + 1, a.sequence + 2};
    assert Holes(j, a, [[]]) == Hole(j, a, []) + Holes(j, ReportIssue(j, a, []), []);
  }

  /** A directory and settings, left alone by normalising, with which the agent starts while the
      report of its recovery is refused: numbers 3 and 4 are never accounted for. */
  lemma {:induction false} HolesHappen(c: Frames.Codec, j: Journal<LiveLog>, node: Identity, session: Identity)
    requires c.Valid() && Frames.FormatOf(c).Valid() && IsWal(j, Frames.FormatOf(c))
    ensures var f := Frames.FormatOf(c);
            var cfg := TightConfig(f, node, session);
            var log: LiveLog := OpenLog(f, cfg, TORN_FILE);
            var m := Manager.State<LiveLog>.State(node, session, 0, 0, log, None, History([], [], [], []));
            && Normalize(cfg) == cfg && ListsAll(log.issues, [[]])
            && Start(j, m, [[]]).Some? && Holes(j, Announce(j, m).value, [[]]) == {3, 4}
  {
    var f := Frames.FormatOf(c);
    var cfg := TightConfig(f, node, session);
    assert f.NonEmptyAt(Event(node, session, 1, Lifecycle), P0Critical);
    assert f.NonEmptyAt(Event(node, session, 2, Host), P1Important);
    TornFileOpens(c, cfg);
    var log: LiveLog := OpenLog(f, cfg, TORN_FILE);
    var m := Manager.State<LiveLog>.State(node, session, 0, 0, log, None, History([], [], [], []));
    AnnounceIff(j, f, m);
    ReportRefused(j, f, Announce(j, m).value);
  }

  // The log after the reports.

  lemma {:induction false} RangesMatch(j: Journal<LiveLog>, m: State<LiveLog>, ranges: seq<LostRange>,
                                       before: seq<Record>)
    requires Faithful(j) && LogMatches(m, before)
    ensures LogMatches(AppendRanges(j, m, ranges), before)
    decreases |ranges|
  {
    if ranges != [] {
      var first := ranges[0];
      TryMatches(j, m, Gap(first.node, first.session, first.start, first.end, Corruption), P0Critical, before);
      RangesMatch(j, AppendExplicitGap(j, m, first.node, first.session, first.start, first.end, Corruption),
          ranges[1..], before);
    }
  }

  lemma IssueMatches(j: Journal<LiveLog>, m: State<LiveLog>, ranges: seq<LostRange>, before: seq<Record>)
    requires Faithful(j) && LogMatches(m, before)
    ensures LogMatches(ReportIssue(j, m, ranges), before)
  {
    if ranges == [] {
      var skipped := m.(sequence := m.sequence + 1);
      EventMatches(j, skipped, DataLoss(Corruption, 1), P0Critical, before);
      var loss := AppendEvent(j, skipped, DataLoss(Corruption, 1), P0Critical);
      GapMatches(j, loss.state, m.sequence + 1, m.sequence + 1, Corruption, before);
    } else {
      EventMatches(j, m, DataLoss(Corruption, LostRecords(ranges)), P0Critical, before);
      RangesMatch(j, AppendEvent(j, m, DataLoss(Corruption, LostRecords(ranges)), P0Critical).state, ranges, before);
    }
  }

  lemma {:induction false} IssuesMatch(j: Journal<LiveLog>, m: State<LiveLog>, issues: seq<seq<LostRange>>,
                                       before: seq<Record>)
    requires Faithful(j) && LogMatches(m, before)
    ensures LogMatches(ReportIssues(j, m, issues), before)
    decreases |issues|
  {
    if issues != [] {
      IssueMatches(j, m, issues[0], before);
      IssuesMatch(j, ReportIssue(j, m, issues[0]), issues[1..], before);
    }
  }

  /** After startup the log is what recovery left, and then the accepted records, in order. */
  lemma StartMatches(j: Journal<LiveLog>, m: State<LiveLog>, issues: seq<seq<LostRange>>)
    requires Faithful(j) && m.history.attempts == [] && Start(j, m, issues).Some?
    ensures LogMatches(Start(j, m, issues).value, Everything(m.log))
  {
    EventMatches(j, m, Lifecycle, P0Critical, Everything(m.log));
    EventMatches(j, AppendEvent(j, m, Lifecycle, P0Critical).state, Host, P1Important, Everything(m.log));
    IssuesMatch(j, Announce(j, m).value, issues, Everything(m.log));
  }

  lemma {:induction false} AcceptedIn(attempts: seq<Attempt>, k: nat)
    requires k < |attempts| && attempts[k].accepted
    ensures attempts[k].record in AcceptedRecords(attempts)
    decreases |attempts|
  {
    var front := attempts[..|attempts| - 1];
    if k < |front| {
      assert front[k] == attempts[k];
      AcceptedIn(front, k);
    }
  }

  /** The log tells the whole story from the first event on: each number issued in startup and
      in a run after it that reclaims nothing lies in the range of exactly one record added to
      the log, unless it is a hole or a gap around it was refused; no other number lies in any. */
  lemma {:induction false} StartTellsAll(j: Journal<LiveLog>, f: Format, m: State<LiveLog>,
                                         issues: seq<seq<LostRange>>, ticks: seq<Tick<LiveLog>>, n: nat)
    requires IsWal(j, f) && m.history.attempts == [] && Start(j, m, issues).Some?
    requires forall i | 0 <= i < |issues| :: Foreign(m.session, issues[i])
    requires forall i | 0 <= i < |ticks| :: TickFits(ticks[i]) && KeepsRecords(ticks[i])
    ensures var r := RunTicks(j, Start(j, m, issues).value, ticks);
            var issued := m.sequence < n <= r.sequence && n !in Holes(j, Announce(j, m).value, issues);
            var lost := exists i | 0 <= i < |r.history.attempts| :: Dropped(m.session, r.history.attempts[i], n);
            && Everything(m.log) <= Everything(r.log)
            && Speaking(m.session, Everything(r.log)[|Everything(m.log)|..], n) == if issued && !lost then 1 else 0
  {
    WalIsSane(j, f);
    WalIsFaithful(j, f);
    var r, before := RunTicks(j, Start(j, m, issues).value, ticks), Everything(m.log);
    StartAccounts(j, m, issues, ticks);
    StartMatches(j, m, issues);
    RunMatches(j, Start(j, m, issues).value, ticks, before);
    assert Everything(r.log)[|before|..] == AcceptedRecords(r.history.attempts);
    RecordedIsSpeaking(m.session, r.history.attempts, n);
    RecordedWithin(m.session, r.history.attempts, n);
  }

  // From a record that was set aside to the gap that stands for it.

  /** The ranges of an issue, listed in some order. */
  predicate Lists(ranges: Ranges, list: seq<LostRange>) {
    && (forall key | key in ranges :: LostRange(key.node, key.session, ranges[key].start, ranges[key].end) in list)
    && (forall i | 0 <= i < |list| ::
          var key := RangeKey(list[i].node, list[i].session);
          key in ranges && ranges[key] == SequenceRange(list[i].start, list[i].end))
  }

  predicate ListsAll(issues: seq<Issue>, lists: seq<seq<LostRange>>) {
    |lists| == |issues| && forall k | 0 <= k < |issues| :: Lists(issues[k].ranges, lists[k])
  }

  /** A gap for corruption that contains the record. */
  predicate GapAround(gap: Record, r: Record) {
    && gap.Gap? && gap.reason == Corruption && gap.node == NodeOf(r) && gap.session == RecordRange(r).session
    && gap.start <= RecordRange(r).start && RecordRange(r).end <= gap.end
  }

  /** Such a gap was tried at some point from `from` on. */
  predicate GapTried(attempts: seq<Attempt>, from: nat, r: Record) {
    exists k | from <= k < |attempts| :: GapAround(attempts[k].record, r)
  }

  lemma IssueTried(j: Journal<LiveLog>, m: State<LiveLog>, ranges: Ranges, list: seq<LostRange>, r: Record)
    requires Lists(ranges, list) && Covers(ranges, r) && WellFormed(r) && Hole(j, m, list) == {}
    ensures GapTried(ReportIssue(j, m, list).history.attempts, |m.history.attempts|, r)
  {
    var key := KeyOf(r);
    var lost := LostRange(key.node, key.session, ranges[key].start, ranges[key].end);
    var i :| 0 <= i < |list| && list[i] == lost;
    RangesReported(j, m, list, i);
    assert GapAround(ReportIssue(j, m, list).history.attempts[|m.history.attempts| + 1 + i].record, r);
  }

  lemma IssueExtends(j: Journal<LiveLog>, m: State<LiveLog>, ranges: seq<LostRange>)
    ensures m.history.attempts <= ReportIssue(j, m, ranges).history.attempts
  {
    if ranges != [] {
      RangesTried(j, AppendEvent(j, m, DataLoss(Corruption, LostRecords(ranges)), P0Critical).state, ranges);
    }
  }

  lemma {:induction false} IssuesExtend(j: Journal<LiveLog>, m: State<LiveLog>, issues: seq<seq<LostRange>>)
    ensures m.history.attempts <= ReportIssues(j, m, issues).history.attempts
    decreases |issues|
  {
    if issues != [] {
      IssueExtends(j, m, issues[0]);
      IssuesExtend(j, ReportIssue(j, m, issues[0]), issues[1..]);
    }
  }

  lemma GapStaysTried(attempts: seq<Attempt>, more: seq<Attempt>, from: nat, to: nat, r: Record)
    requires attempts <= more && to <= from && GapTried(attempts, from, r)
    ensures GapTried(more, to, r)
  {
    var k :| from <= k < |attempts| && GapAround(attempts[k].record, r);
    assert more[k] == attempts[k];
  }

  lemma {:induction false} IssuesTried(j: Journal<LiveLog>, m: State<LiveLog>, issues: seq<Issue>,
                                       lists: seq<seq<LostRange>>, k: nat, r: Record)
    requires ListsAll(issues, lists) && Holes(j, m, lists) == {}
    requires k < |issues| && Covers(issues[k].ranges, r) && WellFormed(r)
    ensures GapTried(ReportIssues(j, m, lists).history.attempts, |m.history.attempts|, r)
    decreases |issues|
  {
    var next := ReportIssue(j, m, lists[0]);
    assert Holes(j, m, lists) == Hole(j, m, lists[0]) + Holes(j, next, lists[1..]);
    IssueExtends(j, m, lists[0]);
    IssuesExtend(j, next, lists[1..]);
    var tried := ReportIssues(j, next, lists[1..]).history.attempts;
    if k == 0 {
      IssueTried(j, m, issues[0].ranges, lists[0], r);
      GapStaysTried(next.history.attempts, tried, |m.history.attempts|, |m.history.attempts|, r);
    } else {
      IssuesTried(j, next, issues[1..], lists[1..], k - 1, r);
      GapStaysTried(tried, tried, |next.history.attempts|, |m.history.attempts|, r);
    }
  }

  /** The issue that names a record whose segment is set aside. */
  lemma IssueOfLost(f: Format, log: Log, datas: seq<seq<byte>>, i: nat, r: Record) returns (n: nat)
    requires f.Valid() && Sound(log) && |datas| == |log.segments| && i < |log.segments|
    requires OutcomeOf(f, log, datas, i).SetAside? && r in log.segments[i].records
    ensures n < |Reopen(f, log, datas).issues| && Covers(Reopen(f, log, datas).issues[n].ranges, r)
  {
    SetAsideIsReported(f, log, datas, i);
    var issues := Reopen(f, log, datas).issues;
    var issue :| issue in issues && issue.segment == log.segments[i].id && Covers(issue.ranges, r);
    n :| 0 <= n < |issues| && issues[n] == issue;
  }

  /** When the segment of a record is set aside and the agent starts with room for its reports, a
      gap around the record is tried. */
  lemma {:induction false} LostRecordIsTried(j: Journal<LiveLog>, f: Format, log: Log, datas: seq<seq<byte>>, i: nat,
                                             r: Record, m: State<LiveLog>, lists: seq<seq<LostRange>>)
    requires f.Valid() && Sound(log) && |datas| == |log.segments| && i < |log.segments|
    requires OutcomeOf(f, log, datas, i).SetAside? && r in log.segments[i].records && WellFormed(r)
    requires m.history.attempts == [] && ListsAll(Reopen(f, log, datas).issues, lists)
    requires Start(j, m, lists).Some? && Holes(j, Announce(j, m).value, lists) == {}
    ensures GapTried(Start(j, m, lists).value.history.attempts, 0, r)
  {
    var n := IssueOfLost(f, log, datas, i, r);
    var announced := Announce(j, m).value;
    IssuesTried(j, announced, Reopen(f, log, datas).issues, lists, n, r);
    var attempts := Start(j, m, lists).value.history.attempts;
    GapStaysTried(attempts, attempts, |announced.history.attempts|, 0, r);
  }

  /** The whole way of a lost record. When its segment is set aside and the agent starts on what
      is left with room for its reports, a gap around the record is tried, and it is in the log
      if it was accepted. */
  lemma {:induction false} QuarantinedRecordIsReported(j: Journal<LiveLog>, f: Format, log: Log, datas: seq<seq<byte>>,
                                                       i: nat, r: Record, m: State<LiveLog>, lists: seq<seq<LostRange>>)
    requires f.Valid() && IsWal(j, f) && Sound(log) && |datas| == |log.segments| && i < |log.segments|
    requires OutcomeOf(f, log, datas, i).SetAside? && r in log.segments[i].records && WellFormed(r)
    requires m.history.attempts == [] && m.log == Reopen(f, log, datas)
    requires ListsAll(Reopen(f, log, datas).issues, lists)
    requires Start(j, m, lists).Some? && Holes(j, Announce(j, m).value, lists) == {}
    ensures var end := Start(j, m, lists).value;
            exists k | 0 <= k < |end.history.attempts| ::
              && GapAround(end.history.attempts[k].record, r)
              && (end.history.attempts[k].accepted ==> end.history.attempts[k].record in Everything(end.log))
  {
    LostRecordIsTried(j, f, log, datas, i, r, m, lists);
    var end := Start(j, m, lists).value;
    var k :| 0 <= k < |end.history.attempts| && GapAround(end.history.attempts[k].record, r);
    if end.history.attempts[k].accepted {
      WalIsFaithful(j, f);
      StartMatches(j, m, lists);
      AcceptedIn(end.history.attempts, k);
    }
  }
}
