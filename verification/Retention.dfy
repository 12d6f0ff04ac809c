/** The log and the cursors together: reclaiming with a snapshot that may be stale. */
module Retention {
  import opened Proto
  import opened Scanning
  import opened WalLog
  import opened LogInvariants
  import opened Cursors
  import Reclaiming
  import Recovery

  /** `snapshot` is the copy of the cursors taken for a reclaim that has not run yet. */
  datatype System = System(log: Log, store: CursorState, snapshot: Option<CursorState>)

  datatype Action =
    | Write(record: Record, priority: Priority)
    | Sync
    | Change(change: Change)
    | TakeSnapshot
    | Reclaim
    | Crash(kept: nat)

  function AckedTest(snapshot: CursorState): Record -> bool {
    record => AckedBy(snapshot, record)
  }

  /** Acknowledgements, assignments and appends may come between a snapshot and its reclaim;
      a crash keeps the saved cursors and the files as they were, and loses the snapshot. */
  ghost function Next(f: Format, s: System, a: Action): (after: System)
    requires f.Valid() && s.log.Open()
    ensures after.log.Open()
  {
    match a
    case Write(record, priority) => s.(log := AppendLog(f, s.log, record, priority))
    case Sync => s.(log := SyncLog(s.log))
    case Change(change) => s.(store := Changed(s.store, change))
    case TakeSnapshot => s.(snapshot := Some(s.store))
    case Reclaim =>
      if s.snapshot.None? then s
      else s.(log := ReclaimLog(s.log, AckedTest(s.snapshot.value)), snapshot := None)
    case Crash(kept) =>
      s.(log := Recovery.CrashedLog(f, s.log, if kept <= |s.log.buffer|
          then kept else |s.log.buffer|), snapshot := None)
  }

  ghost function Run(f: Format, s: System, actions: seq<Action>): (after: System)
    requires f.Valid() && s.log.Open()
    ensures after.log.Open()
    decreases |actions|
  {
    if actions == [] then s else Run(f, Next(f, s, actions[0]), actions[1..])
  }

  // What a change of the store shows.

  /** Everything `b` sees, `a` sees. */
  ghost predicate Sees(a: Endpoint, b: Endpoint) {
    forall session, start, end :: VisibleTo(b, session, start, end) ==> VisibleTo(a, session, start, end)
  }

  /** The least number of the session that the endpoint sees. */
  function FirstVisible(e: Endpoint, session: Identity): Option<nat> {
    if !e.reliable || session == [] then None
    else if session in e.activations then
      Some(if e.activations[session] > e.Cursor(session) then e.activations[session] else e.Cursor(session) + 1)
    else if session in e.cursors then Some(e.Cursor(session) + 1)
    else None
  }

  lemma VisibleIff(e: Endpoint, session: Identity, start: nat, end: nat)
    ensures VisibleTo(e, session, start, end) <==>
              var first := FirstVisible(e, session); first.Some? && start <= end && first.value <= end
  {
  }

  /** `later` starts no earlier than `e` in any session it sees: a comparison of finitely many numbers. */
  predicate QuietRefresh(e: Endpoint, later: Endpoint) {
    forall session | session in later.activations.Keys + later.cursors.Keys && FirstVisible(later, session).Some? ::
      FirstVisible(e, session).Some? && FirstVisible(e, session).value <= FirstVisible(later, session).value
  }

  /** Exactly the quiet refreshes make nothing visible. */
  lemma SeesIffQuiet(e: Endpoint, later: Endpoint)
    ensures Sees(e, later) <==> QuietRefresh(e, later)
  {
    if QuietRefresh(e, later) {
      forall session, start, end | VisibleTo(later, session, start, end) ensures VisibleTo(e, session, start, end) {
        VisibleIff(later, session, start, end);
        VisibleIff(e, session, start, end);
      }
    }
    if Sees(e, later) {
      forall session | session in later.activations.Keys + later.cursors.Keys && FirstVisible(later, session).Some?
        ensures FirstVisible(e, session).Some? && FirstVisible(e, session).value <= FirstVisible(later, session).value
      {
        var first := FirstVisible(later, session).value;
        VisibleIff(later, session, first, first);
        VisibleIff(e, session, first, first);
        assert VisibleTo(later, session, first, first);
      }
    }
  }

  /** An acknowledgement that opens no view: the endpoint knows the session, or sees nothing of it anyway. */
  predicate AckIsQuiet(e: Endpoint, session: Identity, through: nat) {
    e.Knows(session) || !e.reliable || session == [] || through == 0
  }

  /** Exactly the quiet acknowledgements make nothing visible: any other one shows the endpoint
      all that lies beyond it in a session it had not been given. */
  lemma AckShrinksViewIff(e: Endpoint, session: Identity, through: nat)
    ensures Sees(e, Acked(e, session, through)) <==> AckIsQuiet(e, session, through)
  {
    if !AckIsQuiet(e, session, through) {
      assert VisibleTo(Acked(e, session, through), session, 1, through + 1);
    }
  }

  /** A refresh within a generation, with an activation that is not moved back, is quiet; so is
      one that names no session. */
  lemma RefreshIsQuiet(e: Endpoint, u: EndpointUpdate)
    requires u.Plain() && u.generation == e.generation && (u.reliable ==> e.reliable)
    requires u.activationSession in e.activations ==> e.activations[u.activationSession] <= u.activationSequence
    requires u.activationSession == [] || u.activationSession in e.activations
    ensures QuietRefresh(e, Upserted(Some(e), u))
  {
  }

  ghost predicate Wanted(store: CursorState, r: Record) {
    exists id | id in store.endpoints :: RecordVisibleTo(store.endpoints[id], r)
  }

  /** An endpoint that sees nothing stands for a missing one. */
  const BLIND := Endpoint(0, false, [], 0, map[], map[])

  function EndpointIn(store: CursorState, id: EndpointId): Endpoint {
    if id in store.endpoints then store.endpoints[id] else BLIND
  }

  /** Changes that make nothing visible: removals, new versions, and the quiet acknowledgements
      and assignments. */
  predicate Quiet(store: CursorState, c: Change) {
    match c
    case Upsert(id, update) => QuietRefresh(EndpointIn(store, id), Upserted(Lookup(store, id), update))
    case Ack(id, generation, session, through) =>
      AckMatches(store, id, generation) ==> AckIsQuiet(store.endpoints[id], session, through)
    case Remove(_) => true
    case SetVersion(_) => true
  }

  ghost predicate StoreSees(a: CursorState, b: CursorState) {
    forall id | id in b.endpoints :: Sees(EndpointIn(a, id), b.endpoints[id])
  }

  /** Exactly the quiet changes make nothing visible to anyone. */
  lemma QuietChangeIff(store: CursorState, c: Change)
    ensures StoreSees(store, Changed(store, c)) <==> Quiet(store, c)
  {
    var after := Changed(store, c);
    match c {
      case Upsert(id, update) =>
        SeesIffQuiet(EndpointIn(store, id), after.endpoints[id]);
      case Ack(id, generation, session, through) =>
        if AckMatches(store, id, generation) {
          AckShrinksViewIff(store.endpoints[id], session, through);
          assert after.endpoints[id] == Acked(store.endpoints[id], session, through);
        }
      case Remove(_) =>
      case SetVersion(_) =>
    }
  }

  lemma StoreSeesTransitive(a: CursorState, b: CursorState, c: CursorState)
    requires StoreSees(a, b) && StoreSees(b, c)
    ensures StoreSees(a, c)
  {
    forall id | id in c.endpoints ensures Sees(EndpointIn(a, id), c.endpoints[id]) {
      assert Sees(EndpointIn(b, id), c.endpoints[id]);
      assert id in b.endpoints ==> Sees(EndpointIn(a, id), b.endpoints[id]);
    }
  }

  lemma WantedBySeeing(a: CursorState, b: CursorState, r: Record)
    requires StoreSees(a, b) && Wanted(b, r)
    ensures Wanted(a, r)
  {
    var id :| id in b.endpoints && RecordVisibleTo(b.endpoints[id], r);
    var span := RecordRange(r);
    assert VisibleTo(b.endpoints[id], span.session, span.start, span.end);
    assert VisibleTo(EndpointIn(a, id), span.session, span.start, span.end);
    assert RecordVisibleTo(a.endpoints[id], r);
  }

  // The invariant between a snapshot and its reclaim.

  ghost predicate SystemInv(s: System) {
    && Shape(s.log)
    && (s.snapshot.Some? ==> StoreSees(s.snapshot.value, s.store))
  }

  /** What keeps a stale snapshot sound: while one is outstanding, no change shows anything new. */
  predicate QuietWhenStale(s: System, a: Action) {
    a.Change? ==> s.snapshot.None? || Quiet(s.store, a.change)
  }

  /** A crash, besides, must find files that can be read back. */
  ghost predicate Guarded(f: Format, s: System, a: Action)
    requires f.Valid() && s.log.Open()
  {
    QuietWhenStale(s, a) && (a.Crash? ==> Readable(f, s.log))
  }

  lemma NextKeepsInv(f: Format, s: System, a: Action)
    requires f.Valid() && SystemInv(s) && QuietWhenStale(s, a)
    ensures SystemInv(Next(f, s, a))
  {
    match a {
      case Write(record, priority) => AppendKeepsShape(f, s.log, record, priority);
      case Sync => SyncKeepsShape(s.log);
      case Change(change) =>
        if s.snapshot.Some? {
          QuietChangeIff(s.store, change);
          StoreSeesTransitive(s.snapshot.value, s.store, Changed(s.store, change));
        }
      case TakeSnapshot =>
      case Reclaim =>
        if s.snapshot.Some? {
          Reclaiming.ReclaimKeepsShape(s.log, AckedTest(s.snapshot.value));
        }
      case Crash(kept) =>
        var n := if kept <= |s.log.buffer| then kept else |s.log.buffer|;
        Recovery.CrashFilesAscend(s.log, n);
        Recovery.OpenLogInv(f, s.log.cfg, Recovery.CrashFiles(s.log, n));
    }
  }

  lemma PrefixContains(a: seq<Record>, b: seq<Record>, r: Record)
    requires a <= b && r in a
    ensures r in b
  {
    var i :| 0 <= i < |a| && a[i] == r;
    assert b[i] == r;
  }

  lemma WantedIsUnacked(snapshot: CursorState, r: Record)
    requires Wanted(snapshot, r)
    ensures !AckedTest(snapshot)(r)
  {
    AckedByIffUnseen(snapshot, r);
  }

  /** A record that some endpoint sees is not removed, however stale the snapshot. */
  lemma ReclaimKeepsWanted(f: Format, s: System, r: Record)
    requires f.Valid() && SystemInv(s) && s.snapshot.Some?
    requires r in Durable(s.log) && Wanted(s.store, r)
    ensures r in Durable(Next(f, s, Reclaim).log)
  {
    var snapshot := s.snapshot.value;
    WantedBySeeing(snapshot, s.store, r);
    WantedIsUnacked(snapshot, r);
    Reclaiming.ReclaimKeepsUnacknowledged(s.log, AckedTest(snapshot), r);
  }

  /** One action: what is durable and still wanted stays durable. */
  lemma NextKeepsWanted(f: Format, s: System, a: Action, r: Record)
    requires f.Valid() && SystemInv(s) && Guarded(f, s, a)
    requires r in Durable(s.log) && Wanted(s.store, r)
    ensures r in Durable(Next(f, s, a).log)
  {
    match a {
      case Write(record, priority) =>
        AppendExtendsLog(f, s.log, record, priority);
        PrefixContains(Durable(s.log), Durable(AppendLog(f, s.log, record, priority)), r);
      case Sync =>
        SyncKeepsRecords(s.log);
        PrefixContains(Durable(s.log), Durable(SyncLog(s.log)), r);
      case Change(_) =>
      case TakeSnapshot =>
      case Reclaim =>
        if s.snapshot.Some? {
          ReclaimKeepsWanted(f, s, r);
        }
      case Crash(kept) =>
        var n := if kept <= |s.log.buffer| then kept else |s.log.buffer|;
        Recovery.CrashedRecords(f, s.log, n);
        PrefixContains(Durable(s.log), Durable(Recovery.CrashedLog(f, s.log, n)), r);
    }
  }

  // Whole runs.

  ghost predicate GuardedRun(f: Format, s: System, actions: seq<Action>)
    requires f.Valid() && s.log.Open()
    decreases |actions|
  {
    actions == [] || (Guarded(f, s, actions[0]) && GuardedRun(f, Next(f, s, actions[0]), actions[1..]))
  }

  ghost predicate WantedThroughout(f: Format, s: System, actions: seq<Action>, r: Record)
    requires f.Valid() && s.log.Open()
    decreases |actions|
  {
    Wanted(s.store, r) && (actions == [] || WantedThroughout(f, Next(f, s, actions[0]), actions[1..], r))
  }

  /** Retention over runs: with appends, syncs, acknowledgements, assignments, removals, stale
      reclaims and crashes interleaved, a durable record stays durable as long as some
      reliable endpoint still sees it. */
  lemma {:induction false} WantedRecordsAreRetained(f: Format, s: System, actions: seq<Action>, r: Record)
    requires f.Valid() && SystemInv(s) && GuardedRun(f, s, actions)
    requires r in Durable(s.log) && WantedThroughout(f, s, actions, r)
    ensures r in Durable(Run(f, s, actions).log) && SystemInv(Run(f, s, actions))
    decreases |actions|
  {
    if actions != [] {
      NextKeepsInv(f, s, actions[0]);
      NextKeepsWanted(f, s, actions[0], r);
      WantedRecordsAreRetained(f, Next(f, s, actions[0]), actions[1..], r);
    }
  }

  /** Only crashes ask for files that can be read back: a run without any is guarded when its
      changes are quiet, and so is a run from a readable log that writes legal records only. */
  ghost predicate QuietWhenStaleRun(f: Format, s: System, actions: seq<Action>)
    requires f.Valid() && s.log.Open()
    decreases |actions|
  {
    actions == [] || (QuietWhenStale(s, actions[0]) && QuietWhenStaleRun(f, Next(f, s, actions[0]), actions[1..]))
  }

  predicate NoCrash(actions: seq<Action>) {
    forall i | 0 <= i < |actions| :: !actions[i].Crash?
  }

  predicate LegalWrites(f: Format, actions: seq<Action>) {
    forall i | 0 <= i < |actions| && actions[i].Write? :: f.legal(actions[i].record)
  }

  lemma NextKeepsReadable(f: Format, s: System, a: Action)
    requires f.Valid() && Inv(f, s.log) && (a.Write? ==> f.legal(a.record))
    ensures Inv(f, Next(f, s, a).log)
  {
    match a {
      case Write(record, priority) => AppendKeepsInv(f, s.log, record, priority);
      case Sync => SyncKeepsInv(f, s.log);
      case Change(_) =>
      case TakeSnapshot =>
      case Reclaim =>
        if s.snapshot.Some? {
          Reclaiming.ReclaimKeepsInv(f, s.log, AckedTest(s.snapshot.value));
        }
      case Crash(kept) =>
        Recovery.CrashDurability(f, s.log, if kept <= |s.log.buffer| then kept else |s.log.buffer|);
    }
  }

  lemma {:induction false} WhenGuarded(f: Format, s: System, actions: seq<Action>)
    requires f.Valid() && s.log.Open() && QuietWhenStaleRun(f, s, actions)
    requires NoCrash(actions) || (Inv(f, s.log) && LegalWrites(f, actions))
    ensures GuardedRun(f, s, actions)
    decreases |actions|
  {
    if actions != [] {
      if !NoCrash(actions) {
        NextKeepsReadable(f, s, actions[0]);
      }
      WhenGuarded(f, Next(f, s, actions[0]), actions[1..]);
    }
  }

  /** Every change of the run is a quiet one, snapshot or not, and every crash finds readable files. */
  ghost predicate QuietRun(f: Format, s: System, actions: seq<Action>)
    requires f.Valid() && s.log.Open()
    decreases |actions|
  {
    actions == [] ||
    (&& (actions[0].Crash? ==> Readable(f, s.log))
     && (actions[0].Change? ==> Quiet(s.store, actions[0].change))
     && QuietRun(f, Next(f, s, actions[0]), actions[1..]))
  }

  lemma {:induction false} QuietRunSees(f: Format, s: System, actions: seq<Action>)
    requires f.Valid() && s.log.Open() && QuietRun(f, s, actions)
    ensures StoreSees(s.store, Run(f, s, actions).store)
    decreases |actions|
  {
    if actions != [] {
      var next := Next(f, s, actions[0]);
      if actions[0].Change? {
        QuietChangeIff(s.store, actions[0].change);
      }
      QuietRunSees(f, next, actions[1..]);
      StoreSeesTransitive(s.store, next.store, Run(f, s, actions).store);
    }
  }

  /** When nothing becomes visible it is enough to look at the end: every record that was durable
      and that some reliable endpoint still sees at the end of the run is still in the log. */
  lemma {:induction false} StillVisibleMeansStillThere(f: Format, s: System, actions: seq<Action>, r: Record)
    requires f.Valid() && SystemInv(s) && QuietRun(f, s, actions)
    requires r in Durable(s.log) && Wanted(Run(f, s, actions).store, r)
    ensures r in Durable(Run(f, s, actions).log)
    decreases |actions|
  {
    if actions != [] {
      QuietRunSees(f, s, actions);
      WantedBySeeing(s.store, Run(f, s, actions).store, r);
      NextKeepsInv(f, s, actions[0]);
      NextKeepsWanted(f, s, actions[0], r);
      StillVisibleMeansStillThere(f, Next(f, s, actions[0]), actions[1..], r);
    }
  }

  // Which snapshots are safe to reclaim with.

  /** This log loses no wanted record to a reclaim with the snapshot. */
  ghost predicate KeepsWanted(f: Format, snapshot: CursorState, store: CursorState, log: Log, r: Record)
    requires f.Valid()
  {
    Inv(f, log) && r in Durable(log) && Wanted(store, r) ==> r in Durable(ReclaimLog(log, AckedTest(snapshot)))
  }

  /** A stale snapshot is safe for every log if and only if no legal record is both wanted now
      and acknowledged in the snapshot. */
  lemma StaleReclaimSafeIff(f: Format, snapshot: CursorState, store: CursorState)
    requires f.Valid()
    ensures (forall log, r | f.legal(r) :: KeepsWanted(f, snapshot, store, log, r)) <==>
              forall r | f.legal(r) :: !(Wanted(store, r) && AckedBy(snapshot, r))
  {
    if r :| f.legal(r) && Wanted(store, r) && AckedBy(snapshot, r) {
      StaleReclaimLoses(f, snapshot, store, r);
      assert !KeepsWanted(f, snapshot, store, Recovery.OpenLog(f, ANY_CONFIG, Recovery.OldRecordFiles(f, r)), r);
    } else {
      forall log, r | f.legal(r) ensures KeepsWanted(f, snapshot, store, log, r) {
        if Inv(f, log) && r in Durable(log) && Wanted(store, r) {
          Reclaiming.ReclaimKeepsUnacknowledged(log, AckedTest(snapshot), r);
        }
      }
    }
  }

  const ANY_CONFIG := Config(1, 1, 1, 0)

  lemma StaleReclaimLoses(f: Format, snapshot: CursorState, store: CursorState, r: Record)
    requires f.Valid() && f.legal(r) && Wanted(store, r) && AckedBy(snapshot, r)
    ensures var log := Recovery.OpenLog(f, ANY_CONFIG, Recovery.OldRecordFiles(f, r));
            && Inv(f, log) && r in Durable(log) && r !in Durable(ReclaimLog(log, AckedTest(snapshot)))
            && r !in Durable(Next(f, System(log, store, Some(snapshot)), Reclaim).log)
  {
    Recovery.OldRecordLog(f, ANY_CONFIG, r);
    var log := Recovery.OpenLog(f, ANY_CONFIG, Recovery.OldRecordFiles(f, r));
    assert AckedTest(snapshot)(r);
    Recovery.OldRecordReclaimed(log, r, AckedTest(snapshot));
  }

  lemma ChangedOnly(f: Format, log: Log, store: CursorState, c: Change)
    requires f.Valid() && log.Open()
    ensures Next(f, System(log, store, Some(store)), Change(c)) == System(log, Changed(store, c), Some(store))
  {
  }

  // The same in finitely many numbers.

  /** From where on the endpoint owes acknowledgements for the session. */
  function Activation(e: Endpoint, session: Identity): Option<nat> {
    if !e.reliable then None
    else if session in e.activations then Some(e.activations[session])
    else if session in e.cursors then Some(1)
    else None
  }

  lemma ObligatedIff(e: Endpoint, session: Identity, end: nat)
    ensures Obligated(e, session, end) <==> Activation(e, session).Some? && Activation(e, session).value <= end
  {
  }

  /** Some endpoint of the snapshot sees the session from no later than `bound`. */
  predicate SeenFrom(snapshot: CursorState, session: Identity, bound: nat) {
    exists v | v in snapshot.endpoints ::
      FirstVisible(snapshot.endpoints[v], session).Some? && FirstVisible(snapshot.endpoints[v], session).value <= bound
  }

  /** The larger of where `a` begins to owe and where `t` begins to see. */
  function From(a: Endpoint, t: Endpoint, session: Identity): nat
    requires Activation(a, session).Some? && FirstVisible(t, session).Some?
  {
    if Activation(a, session).value > FirstVisible(t, session).value then Activation(a, session).value
    else FirstVisible(t, session).value
  }

  /** `a` owes a session and `t` sees it, and the snapshot does not see from where both begin. */
  predicate UnsafePair(snapshot: CursorState, a: Endpoint, t: Endpoint) {
    exists session | session in a.activations.Keys + a.cursors.Keys
                     && Activation(a, session).Some? && FirstVisible(t, session).Some? ::
      !SeenFrom(snapshot, session, From(a, t, session))
  }

  /** In every session that some endpoint of the snapshot owes and some endpoint of the store sees,
      the snapshot already sees from where both begin. */
  predicate SafeSnapshot(snapshot: CursorState, store: CursorState) {
    forall a, t | a in snapshot.endpoints && t in store.endpoints ::
      !UnsafePair(snapshot, snapshot.endpoints[a], store.endpoints[t])
  }

  lemma OwedIsSeen(snapshot: CursorState, store: CursorState, a: EndpointId, t: EndpointId, r: Record)
    requires SafeSnapshot(snapshot, store) && a in snapshot.endpoints && t in store.endpoints
    requires Obligated(snapshot.endpoints[a], RecordRange(r).session, RecordRange(r).end)
    requires RecordVisibleTo(store.endpoints[t], r)
    ensures Wanted(snapshot, r)
  {
    var span := RecordRange(r);
    VisibleIff(store.endpoints[t], span.session, span.start, span.end);
    ObligatedIff(snapshot.endpoints[a], span.session, span.end);
    var from := From(snapshot.endpoints[a], store.endpoints[t], span.session);
    assert !UnsafePair(snapshot, snapshot.endpoints[a], store.endpoints[t]);
    assert SeenFrom(snapshot, span.session, from);
    var v :| v in snapshot.endpoints && FirstVisible(snapshot.endpoints[v], span.session).Some?
             && FirstVisible(snapshot.endpoints[v], span.session).value <= from;
    VisibleIff(snapshot.endpoints[v], span.session, span.start, span.end);
    assert RecordVisibleTo(snapshot.endpoints[v], r);
  }

  lemma SafeSnapshotKeeps(snapshot: CursorState, store: CursorState, r: Record)
    requires SafeSnapshot(snapshot, store) && Wanted(store, r)
    ensures !AckedBy(snapshot, r)
  {
    var span := RecordRange(r);
    var t :| t in store.endpoints && RecordVisibleTo(store.endpoints[t], r);
    AckedByIffUnseen(snapshot, r);
    if a :| a in snapshot.endpoints && Obligated(snapshot.endpoints[a], span.session, span.end) {
      OwedIsSeen(snapshot, store, a, t, r);
    }
  }

  lemma UnsafeSnapshotLoses(snapshot: CursorState, store: CursorState, a: EndpointId, t: EndpointId,
                            session: Identity, r: Record)
    requires a in snapshot.endpoints && t in store.endpoints
    requires Activation(snapshot.endpoints[a], session).Some? && FirstVisible(store.endpoints[t], session).Some?
    requires var from := From(snapshot.endpoints[a], store.endpoints[t], session);
             !SeenFrom(snapshot, session, from) && RecordRange(r) == RecordSpan(session, from, from)
    ensures Wanted(store, r) && AckedBy(snapshot, r)
  {
    var from := From(snapshot.endpoints[a], store.endpoints[t], session);
    VisibleIff(store.endpoints[t], session, from, from);
    assert RecordVisibleTo(store.endpoints[t], r);
    ObligatedIff(snapshot.endpoints[a], session, from);
    AckedByIffUnseen(snapshot, r);
    forall v | v in snapshot.endpoints ensures !RecordVisibleTo(snapshot.endpoints[v], r) {
      VisibleIff(snapshot.endpoints[v], session, from, from);
    }
  }

  /** The numbers that endpoints of the snapshot have behind them belong to legal events. */
  ghost predicate PastEventsLegal(f: Format, snapshot: CursorState) {
    forall v, session, sequence: nat | v in snapshot.endpoints ::
      FirstVisible(snapshot.endpoints[v], session).Some?
          && sequence < FirstVisible(snapshot.endpoints[v], session).value ==>
        f.legal(Event([], session, sequence, Heartbeat))
  }

  /** A stale snapshot is safe for every log if and only if, per session, it already sees from
      where it owes and the store sees: a comparison of finitely many numbers. */
  lemma SafeSnapshotIff(f: Format, snapshot: CursorState, store: CursorState)
    requires f.Valid()
    ensures SafeSnapshot(snapshot, store) ==> forall log, r | f.legal(r) :: KeepsWanted(f, snapshot, store, log, r)
    ensures PastEventsLegal(f, snapshot) && (forall log, r | f.legal(r) :: KeepsWanted(f, snapshot, store, log, r)) ==>
              SafeSnapshot(snapshot, store)
  {
    StaleReclaimSafeIff(f, snapshot, store);
    if SafeSnapshot(snapshot, store) {
      forall r | f.legal(r) && Wanted(store, r) ensures !AckedBy(snapshot, r) {
        SafeSnapshotKeeps(snapshot, store, r);
      }
    } else if PastEventsLegal(f, snapshot) {
      var a, t :| a in snapshot.endpoints && t in store.endpoints
                  && UnsafePair(snapshot, snapshot.endpoints[a], store.endpoints[t]);
      var session :| session in snapshot.endpoints[a].activations.Keys + snapshot.endpoints[a].cursors.Keys
                     && Activation(snapshot.endpoints[a], session).Some?
                     && FirstVisible(store.endpoints[t], session).Some?
                     && !SeenFrom(snapshot, session, From(snapshot.endpoints[a], store.endpoints[t], session));
      var from := From(snapshot.endpoints[a], store.endpoints[t], session);
      assert from < FirstVisible(snapshot.endpoints[a], session).value;
      UnsafeSnapshotLoses(snapshot, store, a, t, session, Event([], session, from, Heartbeat));
    }
  }

  // Why the guard is there.

  const DONE := "done"
  const LATE := "late"

  /** One endpoint has acknowledged the session up to 2; another does not know it. */
  function LateStore(session: Identity): CursorState {
    CursorState(0, map[
      DONE := Endpoint(1, true, session, 1, map[session := 2], map[session := 1]),
      LATE := Endpoint(1, true, [], 0, map[], map[])])
  }

  lemma LateStoreAcked(r: Record)
    requires RecordRange(r).session != [] && RecordRange(r).start == 2 == RecordRange(r).end
    ensures AckedBy(LateStore(RecordRange(r).session), r)
  {
    var store := LateStore(RecordRange(r).session);
    assert Obligated(store.endpoints[DONE], RecordRange(r).session, 2);
    assert !Obligated(store.endpoints[LATE], RecordRange(r).session, 2);
  }

  lemma LateAckWidens(r: Record)
    requires RecordRange(r).session != [] && RecordRange(r).start == 2 == RecordRange(r).end
    ensures Wanted(AckState(LateStore(RecordRange(r).session), LATE, 1, RecordRange(r).session, 1), r)
  {
    var after := AckState(LateStore(RecordRange(r).session), LATE, 1, RecordRange(r).session, 1);
    assert RecordVisibleTo(after.endpoints[LATE], r);
  }

  /** An acknowledgement below the record's end, for a session that the endpoint did not know,
      makes the record visible to it. When it comes between the snapshot and the reclaim, the
      record is removed all the same. */
  lemma UnknownSessionAckBreaksRetention(f: Format, node: Identity, session: Identity)
    requires f.Valid() && session != [] && f.legal(Event(node, session, 2, Heartbeat))
    ensures var r := Event(node, session, 2, Heartbeat);
            var log := Recovery.OpenLog(f, ANY_CONFIG, Recovery.OldRecordFiles(f, r));
            var before := System(log, LateStore(session), Some(LateStore(session)));
            var acked := Next(f, before, Change(Ack(LATE, 1, session, 1)));
            && SystemInv(before) && r in Durable(acked.log) && Wanted(acked.store, r)
            && r !in Durable(Next(f, acked, Reclaim).log)
  {
    var r := Event(node, session, 2, Heartbeat);
    var log := Recovery.OpenLog(f, ANY_CONFIG, Recovery.OldRecordFiles(f, r));
    LateStoreAcked(r);
    LateAckWidens(r);
    ChangedOnly(f, log, LateStore(session), Ack(LATE, 1, session, 1));
    StaleReclaimLoses(f, LateStore(session), AckState(LateStore(session), LATE, 1, session, 1), r);
  }

  function DoneStore(session: Identity): CursorState {
    CursorState(0, map[DONE := Endpoint(1, true, session, 1, map[session := 2], map[session := 1])])
  }

  lemma DoneStoreAcked(r: Record)
    requires RecordRange(r).session != [] && RecordRange(r).start == 2 == RecordRange(r).end
    ensures AckedBy(DoneStore(RecordRange(r).session), r)
  {
    assert Obligated(DoneStore(RecordRange(r).session).endpoints[DONE], RecordRange(r).session, 2);
  }

  lemma UpsertWidens(r: Record)
    requires RecordRange(r).session != [] && RecordRange(r).start == 2 == RecordRange(r).end
    ensures var session := RecordRange(r).session;
            Wanted(UpsertState(DoneStore(session), LATE, EndpointUpdate(1, true, session, 1, None, None)), r)
  {
    var session := RecordRange(r).session;
    var after := UpsertState(DoneStore(session), LATE, EndpointUpdate(1, true, session, 1, None, None));
    assert RecordVisibleTo(after.endpoints[LATE], r);
  }

  /** The same with a new endpoint assigned between the snapshot and the reclaim. */
  lemma UpsertBreaksRetention(f: Format, node: Identity, session: Identity)
    requires f.Valid() && session != [] && f.legal(Event(node, session, 2, Heartbeat))
    ensures var r := Event(node, session, 2, Heartbeat);
            var log := Recovery.OpenLog(f, ANY_CONFIG, Recovery.OldRecordFiles(f, r));
            var before := System(log, DoneStore(session), Some(DoneStore(session)));
            var widened := Next(f, before, Change(Upsert(LATE, EndpointUpdate(1, true, session, 1, None, None))));
            && SystemInv(before) && r in Durable(widened.log) && Wanted(widened.store, r)
            && r !in Durable(Next(f, widened, Reclaim).log)
  {
    var r := Event(node, session, 2, Heartbeat);
    var log := Recovery.OpenLog(f, ANY_CONFIG, Recovery.OldRecordFiles(f, r));
    DoneStoreAcked(r);
    UpsertWidens(r);
    ChangedOnly(f, log, DoneStore(session), Upsert(LATE, EndpointUpdate(1, true, session, 1, None, None)));
    StaleReclaimLoses(f, DoneStore(session),
      UpsertState(DoneStore(session), LATE, EndpointUpdate(1, true, session, 1, None, None)), r);
  }
}
