/** The cursor store as the agent keeps it: endpoint objects changed in place, and copies
    handed out. Each method is tied to the functions of `Cursors`. */
module StateStores {
  import opened Proto
  import opened Cursors

  method CloneMap(src: SequenceMap) returns (out: SequenceMap)
    ensures out == src
  {
    out := map[];
    var rest := src.Keys;
    while rest != {}
      invariant rest <= src.Keys
      invariant out == map session | session in src.Keys - rest :: src[session]
      decreases rest
    {
      var session :| session in rest;
      out := out[session := src[session]];
      rest := rest - {session};
    }
  }

  class EndpointState {
    var generation: nat
    var reliable: bool
    var activationSession: Identity
    var activationSequence: nat
    var cursors: SequenceMap
    var activations: SequenceMap

    constructor (e: Endpoint)
      ensures View() == e
    {
      generation, reliable := e.generation, e.reliable;
      activationSession, activationSequence := e.activationSession, e.activationSequence;
      cursors, activations := e.cursors, e.activations;
    }

    function View(): Endpoint
      reads this
    {
      Endpoint(generation, reliable, activationSession, activationSequence, cursors, activations)
    }

    /** A deep copy: a new object with its own maps. */
    method Clone() returns (copy: EndpointState)
      ensures fresh(copy) && copy.View() == View()
    {
      var cursorCopy := CloneMap(cursors);
      var activationCopy := CloneMap(activations);
      copy := new EndpointState(
        Endpoint(generation, reliable, activationSession, activationSequence, cursorCopy, activationCopy));
    }
  }

  class StateStore {
    /** The store as a value. */
    ghost var state: CursorState

    var configVersion: nat
    var endpoints: map<EndpointId, EndpointState>

    constructor ()
      ensures Valid() && state == CursorState(0, map[])
    {
      configVersion, endpoints := 0, map[];
      state := CursorState(0, map[]);
    }

    /** No two ids share an endpoint object, and `state` is what the objects hold. */
    ghost predicate Valid()
      reads this, endpoints.Values
    {
      && (forall a, b | a in endpoints && b in endpoints && a != b :: endpoints[a] != endpoints[b])
      && state.configVersion == configVersion
      && state.endpoints.Keys == endpoints.Keys
      && (forall id | id in endpoints :: endpoints[id].View() == state.endpoints[id])
    }

    method UpsertEndpoint(id: EndpointId, u: EndpointUpdate)
      requires Valid()
      modifies this
      ensures Valid() && state == UpsertState(old(state), id, u)
      ensures endpoints.Keys == old(endpoints.Keys) + {id} && fresh(endpoints[id])
      ensures forall other | other in old(endpoints) && other != id :: endpoints[other] == old(endpoints[other])
    {
      ghost var current := Lookup(state, id);
      var cursors, activations := u.cursors, u.activations;
      if id in endpoints && endpoints[id].generation == u.generation && cursors.None? {
        assert endpoints[id].View() == state.endpoints[id];
        cursors := Some(endpoints[id].cursors);
        activations := Some(endpoints[id].activations);
      }
      if cursors.None? {
        cursors := Some(map[]);
      }
      if activations.None? {
        activations := Some(map[]);
      }
      var c, a := cursors.value, activations.value;
      if u.activationSession != [] {
        var activation := u.activationSequence;
        if activation == 0 {
          activation := 1;
        }
        a := a[u.activationSession := activation];
        if u.activationSession !in c {
          c := c[u.activationSession := activation - 1];
        }
      }
      var endpoint := Endpoint(u.generation, u.reliable, u.activationSession, u.activationSequence, c, a);
      assert endpoint == Upserted(current, u);
      Install(id, endpoint);
    }

    method Install(id: EndpointId, endpoint: Endpoint)
      requires Valid()
      modifies this
      ensures Valid() && state == old(state).(endpoints := old(state).endpoints[id := endpoint])
      ensures endpoints.Keys == old(endpoints.Keys) + {id} && fresh(endpoints[id])
      ensures forall other | other in old(endpoints) && other != id :: endpoints[other] == old(endpoints[other])
    {
      var e := new EndpointState(endpoint);
      endpoints := endpoints[id := e];
      state := state.(endpoints := state.endpoints[id := endpoint]);
    }

    method SetConfigVersion(version: nat)
      requires Valid()
      modifies this
      ensures Valid() && state == VersionState(old(state), version) && endpoints == old(endpoints)
    {
      if version <= configVersion {
        return;
      }
      configVersion := version;
      state := state.(configVersion := version);
    }

    method RemoveEndpoint(id: EndpointId)
      requires Valid()
      modifies this
      ensures Valid() && state == RemoveState(old(state), id) && endpoints == old(endpoints) - {id}
    {
      endpoints := endpoints - {id};
      state := RemoveState(state, id);
    }

    /** `ok` is false for an unknown endpoint or generation. */
    method UpdateAck(id: EndpointId, generation: nat, session: Identity, through: nat) returns (ok: bool)
      requires Valid()
      modifies this`state, if id in endpoints then {endpoints[id]} else {}
      ensures Valid() && state == AckState(old(state), id, generation, session, through)
      ensures ok == AckMatches(old(state), id, generation)
    {
      if id !in endpoints {
        return false;
      }
      assert endpoints[id].View() == state.endpoints[id];
      if endpoints[id].generation != generation {
        return false;
      }
      ok := true;
      var endpoint := endpoints[id];
      if (if session in endpoint.cursors then endpoint.cursors[session] else 0) >= through {
        assert state.endpoints[id := state.endpoints[id]] == state.endpoints;
        return;
      }
      endpoint.cursors := endpoint.cursors[session := through];
      state := state.(endpoints := state.endpoints[id := endpoint.View()]);
    }

    method AckOf(id: EndpointId, session: Identity) returns (through: nat)
      requires Valid()
      ensures through == if id in state.endpoints then state.endpoints[id].Cursor(session) else 0
    {
      if id !in endpoints {
        return 0;
      }
      assert endpoints[id].View() == state.endpoints[id];
      through := if session in endpoints[id].cursors then endpoints[id].cursors[session] else 0;
    }

    /** A copy of one endpoint, or null. */
    method EndpointOf(id: EndpointId) returns (copy: EndpointState?)
      requires Valid()
      ensures copy == null <==> id !in state.endpoints
      ensures copy != null ==> fresh(copy) && copy.View() == state.endpoints[id]
    {
      if id !in endpoints {
        return null;
      }
      copy := endpoints[id].Clone();
    }

    /** A deep copy of the store: equal now, and out of reach of every later change. */
    method Snapshot() returns (version: nat, copies: map<EndpointId, EndpointState>)
      requires Valid()
      ensures version == state.configVersion && copies.Keys == state.endpoints.Keys
      ensures forall id | id in copies :: fresh(copies[id]) && copies[id].View() == state.endpoints[id]
    {
      version, copies := configVersion, map[];
      var rest := endpoints.Keys;
      while rest != {}
        invariant rest <= endpoints.Keys && copies.Keys == endpoints.Keys - rest
        invariant forall id | id in copies :: fresh(copies[id]) && copies[id].View() == endpoints[id].View()
        decreases rest
      {
        var id :| id in rest;
        var copy := endpoints[id].Clone();
        copies := copies[id := copy];
        rest := rest - {id};
      }
    }
  }

  /** What a snapshot protects against: acknowledging afterwards moves the store, not the copy. */
  method SnapshotIsIndependent(store: StateStore, id: EndpointId, generation: nat, session: Identity, through: nat)
    returns (copies: map<EndpointId, EndpointState>)
    requires store.Valid()
    modifies store`state, if id in store.endpoints then {store.endpoints[id]} else {}
    ensures store.state == AckState(old(store.state), id, generation, session, through)
    ensures copies.Keys == old(store.state).endpoints.Keys
    ensures forall other | other in copies :: copies[other].View() == old(store.state).endpoints[other]
  {
    var version;
    version, copies := store.Snapshot();
    var ok := store.UpdateAck(id, generation, session, through);
  }
}
