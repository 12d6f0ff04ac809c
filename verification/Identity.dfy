/** The session: the source of sequence numbers and event ids. */
module Identities {
  import opened Proto
  import opened Frames

  function PutUint64(v: nat): (b: seq<byte>)
    requires v < UINT64_LIMIT
    ensures |b| == 8
  {
    PutUint32(v / 0x1_0000_0000) + PutUint32(v % 0x1_0000_0000)
  }

  /** What an event id is a digest of. */
  function EventInput(node: Identity, session: Identity, sequence: nat): seq<byte>
    requires sequence < UINT64_LIMIT
  {
    node + session + PutUint64(sequence)
  }

  lemma Uint32ReadsBack(v: nat)
    requires v < 0x1_0000_0000
    ensures Uint32At(PutUint32(v), 0) == v
  {
    assert PutUint32(v)[0..4] == PutUint32(v);
    Uint32Field(PutUint32(v), 0, v);
  }

  /** The node first, then the session, then the 64 bits of the number, most significant byte first. */
  lemma EventInputLayout(node: Identity, session: Identity, sequence: nat)
    requires |node| == 16 && |session| == 16 && sequence < UINT64_LIMIT
    ensures var input := EventInput(node, session, sequence);
            && |input| == 40 && input[..16] == node && input[16..32] == session && BigEndian(input[32..]) == sequence
  {
    var input, high, low := EventInput(node, session, sequence), sequence / 0x1_0000_0000, sequence % 0x1_0000_0000;
    assert input[32..] == PutUint64(sequence) == PutUint32(high) + PutUint32(low);
    Uint32ReadsBack(high);
    Uint32ReadsBack(low);
    FieldsAreBigEndian(PutUint32(high), 0);
    FieldsAreBigEndian(PutUint32(low), 0);
    assert PutUint32(high)[0..4] == PutUint32(high) && PutUint32(low)[0..4] == PutUint32(low);
    BigEndianConcat(PutUint32(high), PutUint32(low));
  }

  lemma {:induction false} BigEndianConcat(high: seq<byte>, low: seq<byte>)
    requires |low| == 4
    ensures BigEndian(high + low) == BigEndian(high) * 0x1_0000_0000 + BigEndian(low)
  {
    assert high + low == high + [low[0]] + [low[1]] + [low[2]] + [low[3]];
    assert low == [] + [low[0]] + [low[1]] + [low[2]] + [low[3]];
    BigEndianSnoc(high, low[0]);
    BigEndianSnoc(high + [low[0]], low[1]);
    BigEndianSnoc(high + [low[0]] + [low[1]], low[2]);
    BigEndianSnoc(high + [low[0]] + [low[1]] + [low[2]], low[3]);
    BigEndianSnoc([], low[0]);
    BigEndianSnoc([] + [low[0]], low[1]);
    BigEndianSnoc([] + [low[0]] + [low[1]], low[2]);
    BigEndianSnoc([] + [low[0]] + [low[1]] + [low[2]], low[3]);
  }

  /** Different events have different inputs: for full identities nothing of node, session or
      number is lost. */
  lemma EventInputTellsAll(node: Identity, session: Identity, sequence: nat,
                           node': Identity, session': Identity, sequence': nat)
    requires |node| == |node'| == 16 && |session| == |session'| == 16
    requires sequence < UINT64_LIMIT && sequence' < UINT64_LIMIT
    requires EventInput(node, session, sequence) == EventInput(node', session', sequence')
    ensures node == node' && session == session' && sequence == sequence'
  {
    EventInputLayout(node, session, sequence);
    EventInputLayout(node', session', sequence');
  }

  /** `digest` stands for the first 16 bytes of a SHA-256 sum. */
  class Session {
    const id: Identity
    const digest: seq<byte> -> Identity
    var sequence: nat

    constructor (id: Identity, digest: seq<byte> -> Identity)
      ensures this.id == id && this.digest == digest && sequence == 0
    {
      this.id, this.digest, sequence := id, digest, 0;
    }

    /** The id is made from the 64 bits of the number. */
    method Next(node: Identity) returns (issued: nat, eventId: Identity)
      modifies this
      ensures issued == sequence == old(sequence) + 1
      ensures eventId == digest(EventInput(node, id, issued % UINT64_LIMIT))
    {
      sequence := sequence + 1;
      issued, eventId := sequence, digest(EventInput(node, id, sequence % UINT64_LIMIT));
    }
  }
}
