/** Endpoints, their cursors, and which records they must still be sent. */
module Cursors {
  import opened Proto

  type EndpointId = string
  type SequenceMap = map<Identity, nat>

  datatype Endpoint = Endpoint(
    generation: nat,
    reliable: bool,
    activationSession: Identity,
    activationSequence: nat,
    cursors: SequenceMap,
    activations: SequenceMap)
  {
    /** A missing key reads as zero. */
    function Cursor(session: Identity): nat {
      if session in cursors then cursors[session] else 0
    }

    predicate Knows(session: Identity) {
      session in activations || session in cursors
    }
  }

  datatype CursorState = CursorState(configVersion: nat, endpoints: map<EndpointId, Endpoint>)

  // Visibility and acknowledgement.

  predicate VisibleTo(e: Endpoint, session: Identity, start: nat, end: nat) {
    if !e.reliable || session == [] || start > end then
      false
    else if session in e.activations then
      end >= e.activations[session] && end > e.Cursor(session)
    else
      session in e.cursors && end >= 1 && end > e.Cursor(session)
  }

  predicate RecordVisibleTo(e: Endpoint, record: Record) {
    var span := RecordRange(record);
    VisibleTo(e, span.session, span.start, span.end)
  }

  /** A reliable endpoint owes an acknowledgement for everything from its activation on. */
  predicate Obligated(e: Endpoint, session: Identity, end: nat) {
    && e.reliable
    && (if session in e.activations then end >= e.activations[session] else session in e.cursors && end >= 1)
  }

  /** Some endpoint is obligated to the record, and every one that is has acknowledged it. */
  predicate AckedBy(snapshot: CursorState, record: Record) {
    var span := RecordRange(record);
    && span.session != []
    && (exists id | id in snapshot.endpoints :: Obligated(snapshot.endpoints[id], span.session, span.end))
    && (forall id | id in snapshot.endpoints && Obligated(snapshot.endpoints[id], span.session, span.end) ::
          span.end <= snapshot.endpoints[id].Cursor(span.session))
  }

  /** Duality: a record may be reclaimed if and only if some reliable endpoint was obligated
      to it and no endpoint of the snapshot still sees it. */
  lemma AckedByIffUnseen(snapshot: CursorState, record: Record)
    requires RecordRange(record).session != [] && RecordRange(record).start <= RecordRange(record).end
    ensures AckedBy(snapshot, record) <==>
              && (exists id | id in snapshot.endpoints ::
                    Obligated(snapshot.endpoints[id], RecordRange(record).session, RecordRange(record).end))
              && (forall id | id in snapshot.endpoints :: !RecordVisibleTo(snapshot.endpoints[id], record))
  {
    var span := RecordRange(record);
    forall id | id in snapshot.endpoints
      ensures RecordVisibleTo(snapshot.endpoints[id], record)
         <==> Obligated(snapshot.endpoints[id], span.session, span.end)
              && snapshot.endpoints[id].Cursor(span.session) < span.end
    {
    }
  }

  /** Only the session and the end of a record count, whatever its start: it is acknowledged if and
      only if it names a session, some endpoint is obligated to its end, and none sees that end. */
  lemma AckedByEndIff(snapshot: CursorState, record: Record)
    ensures var session, end := RecordRange(record).session, RecordRange(record).end;
            AckedBy(snapshot, record) <==>
              && session != []
              && (exists id | id in snapshot.endpoints :: Obligated(snapshot.endpoints[id], session, end))
              && (forall id | id in snapshot.endpoints :: !VisibleTo(snapshot.endpoints[id], session, end, end))
  {
    var session, end := RecordRange(record).session, RecordRange(record).end;
    if session != [] {
      forall id | id in snapshot.endpoints
        ensures VisibleTo(snapshot.endpoints[id], session, end, end)
           <==> Obligated(snapshot.endpoints[id], session, end) && snapshot.endpoints[id].Cursor(session) < end
      {
      }
    }
  }

  /** The loop over the endpoints, in whatever order the map gives them. */
  method RecordAckedBy(snapshot: CursorState, record: Record) returns (acked: bool)
    ensures acked <==> AckedBy(snapshot, record)
  {
    var span := RecordRange(record);
    if span.session == [] {
      return false;
    }
    var obligated := false;
    var rest := snapshot.endpoints.Keys;
    while rest != {}
      invariant rest <= snapshot.endpoints.Keys
      invariant obligated <==> exists id | id in snapshot.endpoints.Keys - rest ::
                                 Obligated(snapshot.endpoints[id], span.session, span.end)
      invariant forall id | id in snapshot.endpoints.Keys - rest
                            && Obligated(snapshot.endpoints[id], span.session, span.end) ::
                  span.end <= snapshot.endpoints[id].Cursor(span.session)
      decreases rest
    {
      var id :| id in rest;
      ghost var before := snapshot.endpoints.Keys - rest;
      rest := rest - {id};
      assert snapshot.endpoints.Keys - rest == before + {id};
      var e := snapshot.endpoints[id];
      if !e.reliable {
        continue;
      }
      var activation, active := 0, span.session in e.activations;
      if active {
        activation := e.activations[span.session];
      } else if span.session in e.cursors {
        active, activation := true, 1;
      }
      if !active || span.end < activation {
        continue;
      }
      assert Obligated(e, span.session, span.end);
      obligated := true;
      if e.Cursor(span.session) < span.end {
        return false;
      }
    }
    assert snapshot.endpoints.Keys - rest == snapshot.endpoints.Keys;
    acked := obligated;
  }

  // Changes.

  /** What a caller hands to `UpsertEndpoint`; `None` is a nil map. */
  datatype EndpointUpdate = EndpointUpdate(
    generation: nat,
    reliable: bool,
    activationSession: Identity,
    activationSequence: nat,
    cursors: Option<SequenceMap>,
    activations: Option<SequenceMap>)
  {
    /** The only form the agent uses: it never hands in maps of its own. */
    predicate Plain() {
      cursors.None? && activations.None?
    }
  }

  function GetOrEmpty(m: Option<SequenceMap>): SequenceMap {
    match m case Some(v) => v case None => map[]
  }

  function Upserted(current: Option<Endpoint>, u: EndpointUpdate): Endpoint {
    var inherits := current.Some? && current.value.generation == u.generation && u.cursors.None?;
    var cursors := if inherits then current.value.cursors else GetOrEmpty(u.cursors);
    var activations := if inherits then current.value.activations else GetOrEmpty(u.activations);
    if u.activationSession == [] then
      Endpoint(u.generation, u.reliable, u.activationSession, u.activationSequence, cursors, activations)
    else
      var activation := if u.activationSequence == 0 then 1 else u.activationSequence;
      Endpoint(u.generation, u.reliable, u.activationSession, u.activationSequence,
               if u.activationSession in cursors then cursors else cursors[u.activationSession := activation - 1],
               activations[u.activationSession := activation])
  }

  function Lookup(s: CursorState, id: EndpointId): Option<Endpoint> {
    if id in s.endpoints then Some(s.endpoints[id]) else None
  }

  function UpsertState(s: CursorState, id: EndpointId, u: EndpointUpdate): CursorState {
    s.(endpoints := s.endpoints[id := Upserted(Lookup(s, id), u)])
  }

  predicate AckMatches(s: CursorState, id: EndpointId, generation: nat) {
    id in s.endpoints && s.endpoints[id].generation == generation
  }

  function Acked(e: Endpoint, session: Identity, through: nat): Endpoint {
    if e.Cursor(session) >= through then e else e.(cursors := e.cursors[session := through])
  }

  function AckState(s: CursorState, id: EndpointId, generation: nat, session: Identity, through: nat): CursorState {
    if !AckMatches(s, id, generation) then s
    else s.(endpoints := s.endpoints[id := Acked(s.endpoints[id], session, through)])
  }

  function RemoveState(s: CursorState, id: EndpointId): CursorState {
    s.(endpoints := s.endpoints - {id})
  }

  function VersionState(s: CursorState, version: nat): CursorState {
    if version <= s.configVersion then s else s.(configVersion := version)
  }

  // Runs.

  datatype Change =
    | Upsert(id: EndpointId, update: EndpointUpdate)
    | Ack(id: EndpointId, generation: nat, session: Identity, through: nat)
    | Remove(id: EndpointId)
    | SetVersion(version: nat)

  function Changed(s: CursorState, c: Change): CursorState {
    match c
    case Upsert(id, update) => UpsertState(s, id, update)
    case Ack(id, generation, session, through) => AckState(s, id, generation, session, through)
    case Remove(id) => RemoveState(s, id)
    case SetVersion(version) => VersionState(s, version)
  }

  function RunChanges(s: CursorState, changes: seq<Change>): CursorState
    decreases |changes|
  {
    if changes == [] then s else RunChanges(Changed(s, changes[0]), changes[1..])
  }

  /** No change in the run removes the endpoint or gives it another generation. */
  predicate SameGeneration(changes: seq<Change>, id: EndpointId, generation: nat) {
    forall i | 0 <= i < |changes| ::
      && changes[i] != Remove(id)
      && (changes[i].Upsert? ==>
            changes[i].update.Plain() && (changes[i].id == id ==> changes[i].update.generation == generation))
  }

  /** `b` has every cursor of `a`, at least as far. */
  predicate CursorsReach(a: SequenceMap, b: SequenceMap) {
    forall session | session in a :: session in b && a[session] <= b[session]
  }

  predicate ActivationsHaveCursors(s: CursorState) {
    forall id | id in s.endpoints :: s.endpoints[id].activations.Keys <= s.endpoints[id].cursors.Keys
  }

  lemma ChangeKeepsCursors(s: CursorState, c: Change, id: EndpointId)
    requires id in s.endpoints && SameGeneration([c], id, s.endpoints[id].generation)
    ensures id in Changed(s, c).endpoints
    ensures Changed(s, c).endpoints[id].generation == s.endpoints[id].generation
    ensures CursorsReach(s.endpoints[id].cursors, Changed(s, c).endpoints[id].cursors)
  {
    assert [c][0] == c;
  }

  /** Within one generation, no sequence of acknowledgements and refreshes lowers or drops a cursor. */
  lemma {:induction false} CursorsNeverFall(s: CursorState, changes: seq<Change>, id: EndpointId)
    requires id in s.endpoints && SameGeneration(changes, id, s.endpoints[id].generation)
    ensures id in RunChanges(s, changes).endpoints
    ensures RunChanges(s, changes).endpoints[id].generation == s.endpoints[id].generation
    ensures CursorsReach(s.endpoints[id].cursors, RunChanges(s, changes).endpoints[id].cursors)
    decreases |changes|
  {
    if changes != [] {
      ChangeKeepsCursors(s, changes[0], id);
      CursorsNeverFall(Changed(s, changes[0]), changes[1..], id);
    }
  }

  predicate PlainChanges(changes: seq<Change>) {
    forall i | 0 <= i < |changes| && changes[i].Upsert? :: changes[i].update.Plain()
  }

  /** Whatever happens, every activation has a cursor and the config version only grows. */
  lemma {:induction false} RunKeepsCursorInvariants(s: CursorState, changes: seq<Change>)
    requires ActivationsHaveCursors(s) && PlainChanges(changes)
    ensures ActivationsHaveCursors(RunChanges(s, changes))
    ensures s.configVersion <= RunChanges(s, changes).configVersion
    decreases |changes|
  {
    if changes != [] {
      RunKeepsCursorInvariants(Changed(s, changes[0]), changes[1..]);
    }
  }

  /** A stale acknowledgement changes nothing; a matching one moves one cursor, upwards only. */
  lemma AckMovesOneCursor(s: CursorState, id: EndpointId, generation: nat, session: Identity, through: nat)
    ensures !AckMatches(s, id, generation) ==> AckState(s, id, generation, session, through) == s
    ensures AckMatches(s, id, generation) ==>
              var e, after := s.endpoints[id], AckState(s, id, generation, session, through);
              && after.endpoints.Keys == s.endpoints.Keys
              && (forall other | other in s.endpoints && other != id :: after.endpoints[other] == s.endpoints[other])
              && after.endpoints[id].Cursor(session)
                  == (if e.Cursor(session) < through then through else e.Cursor(session))
              && (forall other | other != session :: after.endpoints[id].Cursor(other) == e.Cursor(other))
              && after.endpoints[id].activations == e.activations
  {
  }

  /** An assignment takes effect, whatever it says and whatever was there: the endpoint answers to
      the new generation and to no other, is as reliable as it is told to be, and is activated for
      the session that is named, with a cursor for it; nothing else in the store changes. */
  lemma UpsertTakesEffect(s: CursorState, id: EndpointId, u: EndpointUpdate)
    ensures var after := UpsertState(s, id, u);
            && (forall generation :: AckMatches(after, id, generation) <==> generation == u.generation)
            && after.endpoints[id].reliable == u.reliable
            && after.endpoints[id].activationSession == u.activationSession
            && after.endpoints[id].activationSequence == u.activationSequence
            && (u.activationSession != [] ==>
                  && u.activationSession in after.endpoints[id].activations
                  && after.endpoints[id].activations[u.activationSession]
                     == (if u.activationSequence > 1 then u.activationSequence else 1)
                  && u.activationSession in after.endpoints[id].cursors)
            && after.endpoints.Keys == s.endpoints.Keys + {id} && after.configVersion == s.configVersion
            && (forall other | other in s.endpoints && other != id :: after.endpoints[other] == s.endpoints[other])
  {
  }

  /** So the new generation is acknowledged: what it acknowledges is reached. */
  lemma NewGenerationIsAcknowledged(s: CursorState, id: EndpointId, u: EndpointUpdate, session: Identity, through: nat)
    ensures var after := AckState(UpsertState(s, id, u), id, u.generation, session, through);
            id in after.endpoints && after.endpoints[id].generation == u.generation
            && after.endpoints[id].reliable == u.reliable && through <= after.endpoints[id].Cursor(session)
  {
    UpsertTakesEffect(s, id, u);
    AckMovesOneCursor(UpsertState(s, id, u), id, u.generation, session, through);
  }

  /** Maps that are handed in, or none, take the place of those that were there, but for the session
      named; only a refresh without cursors inherits what was there. */
  lemma GivenMapsAreTaken(s: CursorState, id: EndpointId, u: EndpointUpdate)
    requires u.cursors.Some? || (id in s.endpoints ==> s.endpoints[id].generation != u.generation)
    ensures var e := UpsertState(s, id, u).endpoints[id];
            var cursors, activations := GetOrEmpty(u.cursors), GetOrEmpty(u.activations);
            && e.cursors.Keys == cursors.Keys + (if u.activationSession == [] then {} else {u.activationSession})
            && (forall session | session in cursors :: e.cursors[session] == cursors[session])
            && (forall session | session != u.activationSession ::
                  (session in e.activations <==> session in activations)
                  && (session in activations ==> e.activations[session] == activations[session]))
  {
  }

  /** The stored version is the larger one, and no endpoint is touched. */
  lemma VersionIsLargest(s: CursorState, version: nat)
    ensures var after := VersionState(s, version);
            && s.configVersion <= after.configVersion && version <= after.configVersion
            && after.configVersion in {s.configVersion, version} && after.endpoints == s.endpoints
  {
  }

  /** A new generation forgets every old obligation: it starts with one cursor, just before its activation. */
  lemma NewGenerationStartsFresh(s: CursorState, id: EndpointId, u: EndpointUpdate)
    requires u.Plain() && u.activationSession != []
    requires id in s.endpoints ==> s.endpoints[id].generation != u.generation
    ensures var e := UpsertState(s, id, u).endpoints[id];
            var activation := if u.activationSequence == 0 then 1 else u.activationSequence;
            && e.cursors == map[u.activationSession := activation - 1]
            && e.activations == map[u.activationSession := activation]
            && (forall session, start, end :: VisibleTo(e, session, start, end) <==>
                  u.reliable && session == u.activationSession && start <= end && activation <= end)
  {
  }

  /** A refresh within a generation may move the activation, but never the cursor. */
  lemma RefreshKeepsCursors(s: CursorState, id: EndpointId, u: EndpointUpdate)
    requires u.cursors.None? && id in s.endpoints && s.endpoints[id].generation == u.generation
    ensures var e, after := s.endpoints[id], UpsertState(s, id, u).endpoints[id];
            && (forall session | session in e.cursors ::
                  session in after.cursors && after.cursors[session] == e.cursors[session])
            && after.cursors.Keys == e.cursors.Keys + (if u.activationSession == [] then {} else {u.activationSession})
            && (forall session | session != u.activationSession ::
                  (session in after.activations <==> session in e.activations)
                  && (session in e.activations ==> after.activations[session] == e.activations[session]))
  {
  }
}
