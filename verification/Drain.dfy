/** The send loop of one endpoint against a log that stands still. */
module Drain {
  import opened Proto
  import opened WalLog
  import opened LogInvariants
  import opened Cursors
  import opened Pending
  import opened StateStores
  import Reclaiming
  import Retention

  /** One acknowledgement of a response. */
  datatype AckRange = AckRange(node: Identity, session: Identity, through: nat)

  /** The cursors of an endpoint after a response; acknowledgements for other nodes are skipped. */
  function AckedAll(e: Endpoint, node: Identity, acks: seq<AckRange>): Endpoint
    decreases |acks|
  {
    if acks == [] then e
    else
      var last := acks[|acks| - 1];
      var before := AckedAll(e, node, acks[..|acks| - 1]);
      if last.node == node then Acked(before, last.session, last.through) else before
  }

  /** A response that settles something: it acknowledges through the end of some record of the batch. */
  predicate Settles(node: Identity, batch: seq<Record>, acks: seq<AckRange>) {
    exists i, j | 0 <= i < |acks| && 0 <= j < |batch| ::
      acks[i].node == node && acks[i].session == RecordRange(batch[j]).session
      && acks[i].through >= RecordRange(batch[j]).end
  }

  /** A response that names no session that the endpoint does not know. */
  predicate NamesKnown(e: Endpoint, node: Identity, acks: seq<AckRange>) {
    forall i | 0 <= i < |acks| && acks[i].node == node :: e.Knows(acks[i].session)
  }

  function VisibleRecords(log: Log, e: Endpoint): seq<Record> {
    Matching(Durable(log), SeesRecord(e))
  }

  /** `later` knows the same sessions with the same activations, and has cursors as far or further. */
  ghost predicate Further(e: Endpoint, later: Endpoint) {
    && later.reliable == e.reliable && later.activations == e.activations
    && later.generation == e.generation
    && (forall session :: later.Knows(session) <==> e.Knows(session))
    && (forall session :: e.Cursor(session) <= later.Cursor(session))
  }

  lemma FurtherSeesLess(e: Endpoint, later: Endpoint, r: Record)
    requires Further(e, later) && RecordVisibleTo(later, r)
    ensures RecordVisibleTo(e, r)
  {
    assert later.Knows(RecordRange(r).session) <==> e.Knows(RecordRange(r).session);
  }

  lemma {:induction false} AcksGoFurther(e: Endpoint, node: Identity, acks: seq<AckRange>)
    requires NamesKnown(e, node, acks)
    ensures Further(e, AckedAll(e, node, acks))
    decreases |acks|
  {
    if acks != [] {
      var front, last := acks[..|acks| - 1], acks[|acks| - 1];
      AcksGoFurther(e, node, front);
      assert last == acks[|acks| - 1];
      var before := AckedAll(e, node, front);
      assert e.Knows(last.session) || last.node != node;
      assert Further(before, AckedAll(e, node, acks));
    }
  }

  lemma {:induction false} MatchingShrinks(records: seq<Record>, wide: Record -> bool, narrow: Record -> bool)
    requires forall r | r in records && narrow(r) :: wide(r)
    ensures |Matching(records, narrow)| <= |Matching(records, wide)|
    ensures (exists r | r in records :: wide(r) && !narrow(r)) ==>
        |Matching(records, narrow)| < |Matching(records, wide)|
  {
    if records != [] {
      assert records == [records[0]] + records[1..];
      MatchingShrinks(records[1..], wide, narrow);
    }
  }

  // Any response that settles something.

  /** The record ends beyond what the endpoint has acknowledged of its session. */
  function Unsettled(e: Endpoint): Record -> bool {
    record => RecordRange(record).end > e.Cursor(RecordRange(record).session)
  }

  function UnsettledRecords(log: Log, e: Endpoint): seq<Record> {
    Matching(Durable(log), Unsettled(e))
  }

  ghost predicate CursorsRise(e: Endpoint, later: Endpoint) {
    forall session :: e.Cursor(session) <= later.Cursor(session)
  }

  /** Whatever sessions a response names, cursors only rise, and reach what it acknowledges. */
  lemma {:induction false} AcksRaiseCursors(e: Endpoint, node: Identity, acks: seq<AckRange>)
    ensures CursorsRise(e, AckedAll(e, node, acks))
    ensures forall i | 0 <= i < |acks| && acks[i].node == node ::
              acks[i].through <= AckedAll(e, node, acks).Cursor(acks[i].session)
    decreases |acks|
  {
    if acks != [] {
      var front, last := acks[..|acks| - 1], acks[|acks| - 1];
      AcksRaiseCursors(e, node, front);
      var before, after := AckedAll(e, node, front), AckedAll(e, node, acks);
      assert CursorsRise(before, after);
      forall i | 0 <= i < |acks| && acks[i].node == node ensures acks[i].through <= after.Cursor(acks[i].session) {
        assert i < |front| ==> front[i] == acks[i];
      }
    }
  }

  lemma BatchMembers(log: Log, e: Endpoint, limit: int, r: Record)
    requires r in PendingFor(log, e, limit)
    ensures r in Durable(log) && RecordVisibleTo(e, r) && Unsettled(e)(r)
  {
    CollectedMembers(log, SeesRecord(e), limit, r);
  }

  /** One round, whatever else the response says: strictly fewer records are unsettled. */
  lemma {:induction false} RoundSettles(log: Log, e: Endpoint, node: Identity, limit: int, acks: seq<AckRange>)
    requires Settles(node, PendingFor(log, e, limit), acks)
    ensures var later := AckedAll(e, node, acks);
            CursorsRise(e, later) && |UnsettledRecords(log, later)| < |UnsettledRecords(log, e)|
  {
    var batch, later := PendingFor(log, e, limit), AckedAll(e, node, acks);
    AcksRaiseCursors(e, node, acks);
    var i, j :| 0 <= i < |acks| && 0 <= j < |batch|
                && acks[i].node == node && acks[i].session == RecordRange(batch[j]).session
                && acks[i].through >= RecordRange(batch[j]).end;
    BatchMembers(log, e, limit, batch[j]);
    assert !Unsettled(later)(batch[j]);
    MatchingShrinks(Durable(log), Unsettled(e), Unsettled(later));
  }

  // Responses that also name known sessions only.

  /** One round: nothing becomes visible, and strictly fewer records remain to be sent. */
  lemma {:induction false} RoundShrinks(log: Log, e: Endpoint, node: Identity, limit: int, acks: seq<AckRange>)
    requires Settles(node, PendingFor(log, e, limit), acks) && NamesKnown(e, node, acks)
    ensures var later := AckedAll(e, node, acks);
            && Further(e, later)
            && (forall r | r in VisibleRecords(log, later) :: r in VisibleRecords(log, e))
            && |VisibleRecords(log, later)| < |VisibleRecords(log, e)|
  {
    var batch, later := PendingFor(log, e, limit), AckedAll(e, node, acks);
    AcksGoFurther(e, node, acks);
    AcksRaiseCursors(e, node, acks);
    forall r | RecordVisibleTo(later, r) ensures RecordVisibleTo(e, r) {
      FurtherSeesLess(e, later, r);
    }
    forall r | r in VisibleRecords(log, later) ensures r in VisibleRecords(log, e) {
      MatchingMembers(Durable(log), SeesRecord(later), r);
      MatchingMembers(Durable(log), SeesRecord(e), r);
    }
    var i, j :| 0 <= i < |acks| && 0 <= j < |batch|
                && acks[i].node == node && acks[i].session == RecordRange(batch[j]).session
                && acks[i].through >= RecordRange(batch[j]).end;
    BatchMembers(log, e, limit, batch[j]);
    assert SeesRecord(e)(batch[j]) && !SeesRecord(later)(batch[j]);
    MatchingShrinks(Durable(log), SeesRecord(e), SeesRecord(later));
  }

  /** An empty batch means that everything has been acknowledged. */
  lemma EmptyBatchMeansDrained(log: Log, e: Endpoint, limit: int)
    requires Indexed(log) && limit >= 1 && PendingFor(log, e, limit) == []
    ensures VisibleRecords(log, e) == []
  {
    ShortcutChangesNothing(log, e, limit);
  }

  /** Why the second condition is needed for that: an acknowledgement for a session that the
      endpoint does not know makes it known, and can put more records in view than it takes out. */
  lemma UnknownSessionAckWidens(e: Endpoint, session: Identity, through: nat, end: nat)
    requires e.reliable && session != [] && !e.Knows(session) && 0 < through < end
    ensures !VisibleTo(e, session, end, end) && VisibleTo(Acked(e, session, through), session, end, end)
  {
  }

  /** The store after a response; nothing for an unknown endpoint or generation. */
  function Applied(s: CursorState, id: EndpointId, generation: nat, node: Identity, acks: seq<AckRange>): CursorState {
    if !AckMatches(s, id, generation) then s
    else s.(endpoints := s.endpoints[id := AckedAll(s.endpoints[id], node, acks)])
  }

  lemma AppliedNone(s: CursorState, id: EndpointId, generation: nat, node: Identity)
    ensures Applied(s, id, generation, node, []) == s
  {
    if AckMatches(s, id, generation) {
      assert s.endpoints[id := s.endpoints[id]] == s.endpoints;
    }
  }

  lemma {:induction false} AckedAllKeepsGeneration(e: Endpoint, node: Identity, acks: seq<AckRange>)
    ensures AckedAll(e, node, acks).generation == e.generation
    decreases |acks|
  {
    if acks != [] {
      AckedAllKeepsGeneration(e, node, acks[..|acks| - 1]);
    }
  }

  lemma AppliedOneMore(s: CursorState, id: EndpointId, generation: nat, node: Identity, acks: seq<AckRange>, i: nat)
    requires i < |acks|
    ensures var before := Applied(s, id, generation, node, acks[..i]);
            && AckMatches(before, id, generation) == AckMatches(s, id, generation)
            && Applied(s, id, generation, node, acks[..i + 1])
            == if acks[i].node == node then AckState(before, id, generation, acks[i].session, acks[i].through)
                else before
  {
    assert acks[..i + 1][..i] == acks[..i];
    if AckMatches(s, id, generation) {
      AckedAllKeepsGeneration(s.endpoints[id], node, acks[..i]);
    }
  }

  /** Applying one response to the store, up to the first acknowledgement it does not take. */
  method ApplyAcks(store: StateStore, id: EndpointId, generation: nat, node: Identity, acks: seq<AckRange>)
    returns (ok: bool)
    requires store.Valid()
    modifies store`state, if id in store.endpoints then {store.endpoints[id]} else {}
    ensures store.Valid() && store.endpoints == old(store.endpoints)
    ensures store.state == Applied(old(store.state), id, generation, node, acks)
    ensures ok <==> AckMatches(old(store.state), id, generation) || forall i | 0 <= i < |acks| :: acks[i].node != node
  {
    ghost var start := store.state;
    AppliedNone(start, id, generation, node);
    assert acks[..0] == [] && acks[..|acks|] == acks;
    for i := 0 to |acks|
      invariant store.Valid() && store.endpoints == old(store.endpoints)
      invariant store.state == Applied(start, id, generation, node, acks[..i])
      invariant AckMatches(store.state, id, generation) == AckMatches(start, id, generation)
      invariant AckMatches(start, id, generation) || forall j | 0 <= j < i :: acks[j].node != node
    {
      AppliedOneMore(start, id, generation, node, acks, i);
      if acks[i].node != node {
        continue;
      }
      ok := store.UpdateAck(id, generation, acks[i].session, acks[i].through);
      if !ok {
        return;
      }
    }
    ok := true;
  }

  /** A collector whose every response settles something. */
  ghost predicate Settling(log: Log, node: Identity, limit: int, respond: (Endpoint, seq<Record>) -> seq<AckRange>) {
    forall e | PendingFor(log, e, limit) != [] ::
      Settles(node, PendingFor(log, e, limit), respond(e, PendingFor(log, e, limit)))
  }

  /** A collector that names only sessions the endpoint knows. */
  ghost predicate Discreet(log: Log, node: Identity, limit: int, respond: (Endpoint, seq<Record>) -> seq<AckRange>) {
    forall e | PendingFor(log, e, limit) != [] :: NamesKnown(e, node, respond(e, PendingFor(log, e, limit)))
  }

  /** Where the loop stands after some rounds. */
  ghost predicate Progress(log: Log, start: Endpoint, e: Endpoint, rounds: nat, discreet: bool) {
    && CursorsRise(start, e) && e.generation == start.generation
    && rounds + |UnsettledRecords(log, e)| <= |UnsettledRecords(log, start)|
    && (discreet ==> Further(start, e) && rounds + |VisibleRecords(log, e)| <= |VisibleRecords(log, start)|)
  }

  lemma {:induction false} RoundProgress(log: Log, start: Endpoint, e: Endpoint, rounds: nat, discreet: bool,
                                         node: Identity, limit: int, acks: seq<AckRange>)
    requires Progress(log, start, e, rounds, discreet) && Settles(node, PendingFor(log, e, limit), acks)
    requires discreet ==> NamesKnown(e, node, acks)
    ensures Progress(log, start, AckedAll(e, node, acks), rounds + 1, discreet)
    ensures |UnsettledRecords(log, AckedAll(e, node, acks))| < |UnsettledRecords(log, e)|
  {
    RoundSettles(log, e, node, limit, acks);
    AckedAllKeepsGeneration(e, node, acks);
    if discreet {
      RoundShrinks(log, e, node, limit, acks);
      FurtherTransitive(start, e, AckedAll(e, node, acks));
    }
  }

  lemma FurtherTransitive(a: Endpoint, b: Endpoint, c: Endpoint)
    requires Further(a, b) && Further(b, c)
    ensures Further(a, c)
  {
    forall session ensures c.Knows(session) <==> a.Knows(session) {
      assert b.Knows(session) <==> a.Knows(session);
    }
  }

  /** The store as it was, but for one endpoint. */
  ghost predicate OnlyChanged(before: CursorState, after: CursorState, id: EndpointId) {
    && id in after.endpoints && after.endpoints.Keys == before.endpoints.Keys
    && (forall other | other in after.endpoints && other != id :: after.endpoints[other] == before.endpoints[other])
  }

  /** One round: the batch goes out, and the response is applied. */
  method Round(store: StateStore, ghost log: Log, id: EndpointId, node: Identity, ghost limit: int,
               acks: seq<AckRange>, ghost start: CursorState, ghost rounds: nat, ghost discreet: bool)
    requires store.Valid() && id in store.endpoints && id in start.endpoints
    requires OnlyChanged(start, store.state, id)
    requires Progress(log, start.endpoints[id], store.state.endpoints[id], rounds, discreet)
    requires Settles(node, PendingFor(log, store.state.endpoints[id], limit), acks)
    requires discreet ==> NamesKnown(store.state.endpoints[id], node, acks)
    modifies store`state, store.endpoints[id]
    ensures store.Valid() && store.endpoints == old(store.endpoints)
    ensures OnlyChanged(start, store.state, id)
    ensures Progress(log, start.endpoints[id], store.state.endpoints[id], rounds + 1, discreet)
    ensures |UnsettledRecords(log, store.state.endpoints[id])| < |UnsettledRecords(log, old(store.state).endpoints[id])|
  {
    ghost var e := store.state.endpoints[id];
    assert store.endpoints[id].View() == e;
    RoundProgress(log, start.endpoints[id], e, rounds, discreet, node, limit, acks);
    var ok := ApplyAcks(store, id, store.endpoints[id].generation, node, acks);
  }

  /** The loop ends: if every response settles something, an empty batch comes after at most as
      many rounds as there were unsettled records, and then nothing is left to send. If the
      responses also name known sessions only, nothing becomes visible on the way, and the
      rounds are no more than there were records to send. */
  method SendLoop(store: StateStore, log: Log, id: EndpointId, node: Identity, limit: int,
                  respond: (Endpoint, seq<Record>) -> seq<AckRange>) returns (rounds: nat)
    requires store.Valid() && id in store.state.endpoints && Indexed(log)
    requires Settling(log, node, limit, respond)
    modifies store`state, store.endpoints[id]
    ensures store.Valid() && OnlyChanged(old(store.state), store.state, id)
    ensures PendingFor(log, store.state.endpoints[id], limit) == []
    ensures limit >= 1 ==> VisibleRecords(log, store.state.endpoints[id]) == []
    ensures CursorsRise(old(store.state).endpoints[id], store.state.endpoints[id])
    ensures rounds <= |UnsettledRecords(log, old(store.state).endpoints[id])|
    ensures Discreet(log, node, limit, respond) ==>
              && rounds <= |VisibleRecords(log, old(store.state).endpoints[id])|
              && Further(old(store.state).endpoints[id], store.state.endpoints[id])
  {
    ghost var start := store.state;
    ghost var discreet := Discreet(log, node, limit, respond);
    rounds := 0;
    while true
      invariant store.Valid() && store.endpoints == old(store.endpoints) && id in store.endpoints
      invariant OnlyChanged(start, store.state, id)
      invariant Progress(log, start.endpoints[id], store.state.endpoints[id], rounds, discreet)
      decreases |UnsettledRecords(log, store.state.endpoints[id])|
    {
      var e := store.endpoints[id].View();
      assert e == store.state.endpoints[id];
      var batch := PendingFor(log, e, limit);
      if batch == [] {
        if limit >= 1 {
          EmptyBatchMeansDrained(log, e, limit);
        }
        return;
      }
      Round(store, log, id, node, limit, respond(e, batch), start, rounds, discreet);
      rounds := rounds + 1;
    }
  }

  // Drained, and then reclaimed.

  /** No endpoint is left with a durable record to be sent. */
  predicate Drained(log: Log, store: CursorState) {
    forall id | id in store.endpoints :: VisibleRecords(log, store.endpoints[id]) == []
  }

  /** Some reliable endpoint has to acknowledge the record. */
  predicate Owed(store: CursorState, r: Record) {
    && RecordRange(r).session != []
    && exists id | id in store.endpoints ::
         Obligated(store.endpoints[id], RecordRange(r).session, RecordRange(r).end)
  }

  lemma DrainedIsAcked(log: Log, store: CursorState, r: Record)
    requires Drained(log, store) && r in Durable(log) && RecordRange(r).start <= RecordRange(r).end
    ensures AckedBy(store, r) <==> Owed(store, r)
  {
    if RecordRange(r).session != [] {
      AckedByIffUnseen(store, r);
      forall id | id in store.endpoints ensures !RecordVisibleTo(store.endpoints[id], r) {
        MatchingMembers(Durable(log), SeesRecord(store.endpoints[id]), r);
      }
    }
  }

  /** Once every endpoint has drained the synced log, a reclaim with the cursors as they are leaves
      exactly the active segment, empty ones, and those with a record that nobody owes. */
  lemma DrainedReclaim(log: Log, store: CursorState, s: Segment)
    requires Shape(log) && Drained(SyncLog(log), store) && Ordered(Durable(SyncLog(log)))
    ensures s in ReclaimLog(log, Retention.AckedTest(store)).segments <==>
              && s in SyncLog(log).segments
              && (s == SyncLog(log).Active() || s.records == [] || exists r | r in s.records :: !Owed(store, r))
  {
    Reclaiming.ReclaimIsExact(log, Retention.AckedTest(store), s);
    if s in SyncLog(log).segments {
      forall r | r in s.records ensures Retention.AckedTest(store)(r) <==> Owed(store, r) {
        InRecordsIn(SyncLog(log).segments, r);
        DrainedIsAcked(SyncLog(log), store, r);
      }
    }
  }
}
