/** The agent's framing: a sixteen-byte big-endian header and the encoded message.
    The message encoding and the checksum are parameters (`Codec`). */
module Frames {
  import opened Proto
  import opened Scanning

  const FRAME_MAGIC: nat := 0x53545a32
  const FRAME_VERSION: nat := 1
  const FRAME_HEADER_SIZE: nat := 16
  const DEFAULT_SEGMENT_SIZE: nat := 0x80_0000
  const MAX_PAYLOAD: nat := 2 * DEFAULT_SEGMENT_SIZE

  datatype Codec = Codec(
    marshal: Record -> seq<byte>,
    unmarshal: seq<byte> -> Option<Record>,
    checksum: seq<byte> -> uint32)
  {
    /** Decoding undoes encoding. Nothing is asked of the checksum. */
    ghost predicate Valid() {
      forall r :: unmarshal(marshal(r)) == Some(r)
    }
  }

  // Big-endian integers.

  function PutUint16(v: nat): (b: seq<byte>)
    ensures |b| == 2
  {
    [(v / 0x100 % 0x100) as byte, (v % 0x100) as byte]
  }

  function PutUint32(v: nat): (b: seq<byte>)
    ensures |b| == 4
  {
    [(v / 0x100_0000 % 0x100) as byte, (v / 0x1_0000 % 0x100) as byte, (v / 0x100 % 0x100) as byte, (v % 0x100) as byte]
  }

  function Uint16At(data: seq<byte>, at: nat): nat
    requires at + 2 <= |data|
  {
    data[at] as nat * 0x100 + data[at + 1] as nat
  }

  function Uint32At(data: seq<byte>, at: nat): nat
    requires at + 4 <= |data|
  {
    data[at] as nat * 0x100_0000 + data[at + 1] as nat * 0x1_0000 + data[at + 2] as nat * 0x100 + data[at + 3] as nat
  }

  lemma Uint16Field(data: seq<byte>, at: nat, v: nat)
    requires at + 2 <= |data| && data[at..at + 2] == PutUint16(v)
    ensures Uint16At(data, at) == v % 0x1_0000
  {
    var b := data[at..at + 2];
    assert data[at] == b[0] && data[at + 1] == b[1];
    assert v == v / 0x100 * 0x100 + v % 0x100;
    assert v / 0x100 == v / 0x1_0000 * 0x100 + v / 0x100 % 0x100;
  }

  lemma Uint32Field(data: seq<byte>, at: nat, v: nat)
    requires at + 4 <= |data| && data[at..at + 4] == PutUint32(v)
    ensures Uint32At(data, at) == v % 0x1_0000_0000
  {
    var b := data[at..at + 4];
    assert data[at] == b[0] && data[at + 1] == b[1] && data[at + 2] == b[2] && data[at + 3] == b[3];
    assert v == v / 0x100 * 0x100 + v % 0x100;
    assert v / 0x100 == v / 0x1_0000 * 0x100 + v / 0x100 % 0x100;
    assert v / 0x1_0000 == v / 0x100_0000 * 0x100 + v / 0x1_0000 % 0x100;
    assert v / 0x100_0000 == v / 0x1_0000_0000 * 0x100 + v / 0x100_0000 % 0x100;
  }

  /** The number that some bytes stand for, most significant byte first. */
  function BigEndian(b: seq<byte>): nat
    decreases |b|
  {
    if b == [] then 0 else BigEndian(b[..|b| - 1]) * 0x100 + b[|b| - 1] as nat
  }

  lemma {:induction false} BigEndianSnoc(b: seq<byte>, x: byte)
    ensures BigEndian(b + [x]) == BigEndian(b) * 0x100 + x as nat
  {
    assert (b + [x])[..|b|] == b;
  }

  /** The fields of a header are read in that order. */
  lemma FieldsAreBigEndian(data: seq<byte>, at: nat)
    ensures at + 2 <= |data| ==> BigEndian(data[at..at + 2]) == Uint16At(data, at)
    ensures at + 4 <= |data| ==> BigEndian(data[at..at + 4]) == Uint32At(data, at)
  {
    if at + 2 <= |data| {
      assert data[at..at + 2] == [] + [data[at]] + [data[at + 1]];
      BigEndianSnoc([], data[at]);
      BigEndianSnoc([] + [data[at]], data[at + 1]);
    }
    if at + 4 <= |data| {
      assert data[at..at + 4] == data[at..at + 2] + [data[at + 2]] + [data[at + 3]];
      BigEndianSnoc(data[at..at + 2], data[at + 2]);
      BigEndianSnoc(data[at..at + 2] + [data[at + 2]], data[at + 3]);
    }
  }

  // Writing.

  /** The sixteen header bytes; the length field is a 32-bit truncation. */
  function Header(c: Codec, payload: seq<byte>, priority: Priority): (h: seq<byte>)
    ensures |h| == FRAME_HEADER_SIZE
  {
    PutUint32(FRAME_MAGIC) + PutUint16(FRAME_VERSION) + PutUint16(priority.Rank())
    + PutUint32(|payload| % 0x1_0000_0000) + PutUint32(c.checksum(payload) as nat)
  }

  function Frame(c: Codec, record: Record, priority: Priority): (f: seq<byte>)
    ensures |f| == FRAME_HEADER_SIZE + |c.marshal(record)|
  {
    Header(c, c.marshal(record), priority) + c.marshal(record)
  }

  /** The payload lengths that the scanner accepts; the writer checks neither bound. */
  predicate Legal(c: Codec, record: Record) {
    1 <= |c.marshal(record)| <= MAX_PAYLOAD
  }

  // Reading.

  function ParseFrame(c: Codec, data: seq<byte>): (f: FrameRead)
    ensures f.Whole? ==> FRAME_HEADER_SIZE < f.size <= |data|
    ensures f.Stop? ==> f.status != Clean
  {
    if |data| < FRAME_HEADER_SIZE then
      Stop(Torn)
    else if Uint32At(data, 0) != FRAME_MAGIC || Uint16At(data, 4) != FRAME_VERSION then
      Stop(BadHeader)
    else
      var length := Uint32At(data, 8);
      if length == 0 || length > MAX_PAYLOAD then
        Stop(BadLength)
      else if |data| - FRAME_HEADER_SIZE < length then
        Stop(Torn)
      else
        var payload := data[FRAME_HEADER_SIZE..FRAME_HEADER_SIZE + length];
        if c.checksum(payload) as nat != Uint32At(data, 12) then
          Stop(BadChecksum)
        else
          match c.unmarshal(payload)
          case None => Stop(BadRecord)
          case Some(record) => Whole(record, FRAME_HEADER_SIZE + length)
  }

  /** The framing of the agent, as the scanner uses it. */
  function FormatOf(c: Codec): Format {
    Format((record, priority) => Frame(c, record, priority), data => ParseFrame(c, data), record => Legal(c, record))
  }

  lemma SameHeaderFields(data: seq<byte>, more: seq<byte>)
    requires FRAME_HEADER_SIZE <= |data| && FRAME_HEADER_SIZE <= |more|
    requires more[..FRAME_HEADER_SIZE] == data[..FRAME_HEADER_SIZE]
    ensures Uint32At(data, 0) == Uint32At(more, 0) && Uint16At(data, 4) == Uint16At(more, 4)
    ensures Uint32At(data, 8) == Uint32At(more, 8) && Uint32At(data, 12) == Uint32At(more, 12)
  {
    assert forall i {:trigger data[i]} {:trigger more[i]} | 0 <= i < FRAME_HEADER_SIZE ::
        data[i] == data[..FRAME_HEADER_SIZE][i] == more[..FRAME_HEADER_SIZE][i] == more[i];
  }

  lemma FrameReadIsLocal(c: Codec, data: seq<byte>, more: seq<byte>)
    requires ParseFrame(c, data).Whole? && ParseFrame(c, data).size <= |more|
    requires more[..ParseFrame(c, data).size] == data[..ParseFrame(c, data).size]
    ensures ParseFrame(c, more) == ParseFrame(c, data)
  {
    var n := ParseFrame(c, data).size;
    assert more[..FRAME_HEADER_SIZE] == more[..n][..FRAME_HEADER_SIZE];
    assert data[..FRAME_HEADER_SIZE] == data[..n][..FRAME_HEADER_SIZE];
    SameHeaderFields(data, more);
    assert more[FRAME_HEADER_SIZE..n] == more[..n][FRAME_HEADER_SIZE..];
    assert data[FRAME_HEADER_SIZE..n] == data[..n][FRAME_HEADER_SIZE..];
  }

  lemma CutFrameIsTorn(c: Codec, data: seq<byte>, n: nat)
    requires ParseFrame(c, data).Whole? && n < ParseFrame(c, data).size
    ensures ParseFrame(c, data[..n]) == Stop(Torn)
  {
    if FRAME_HEADER_SIZE <= n {
      assert data[..n][..FRAME_HEADER_SIZE] == data[..FRAME_HEADER_SIZE];
      SameHeaderFields(data, data[..n]);
    }
  }

  lemma FivePieces(a: seq<byte>, b: seq<byte>, c: seq<byte>, d: seq<byte>, e: seq<byte>)
    requires |a| == 4 && |b| == 2 && |c| == 2 && |d| == 4 && |e| == 4
    ensures var h := a + b + c + d + e;
            h[0..4] == a && h[4..6] == b && h[6..8] == c && h[8..12] == d && h[12..16] == e
  {
  }

  lemma HeaderPieces(c: Codec, payload: seq<byte>, priority: Priority)
    ensures var h := Header(c, payload, priority);
            && h[0..4] == PutUint32(FRAME_MAGIC) && h[4..6] == PutUint16(FRAME_VERSION)
            && h[6..8] == PutUint16(priority.Rank())
            && h[8..12] == PutUint32(|payload| % 0x1_0000_0000) && h[12..16] == PutUint32(c.checksum(payload) as nat)
  {
    FivePieces(PutUint32(FRAME_MAGIC), PutUint16(FRAME_VERSION), PutUint16(priority.Rank()),
               PutUint32(|payload| % 0x1_0000_0000), PutUint32(c.checksum(payload) as nat));
  }

  lemma HeaderMarks(c: Codec, payload: seq<byte>, priority: Priority)
    ensures var h := Header(c, payload, priority);
            Uint32At(h, 0) == FRAME_MAGIC && Uint16At(h, 4) == FRAME_VERSION
  {
    HeaderPieces(c, payload, priority);
    Uint32Field(Header(c, payload, priority), 0, FRAME_MAGIC);
    Uint16Field(Header(c, payload, priority), 4, FRAME_VERSION);
  }

  lemma HeaderFields(c: Codec, payload: seq<byte>, priority: Priority)
    ensures var h := Header(c, payload, priority);
            && Uint32At(h, 0) == FRAME_MAGIC && Uint16At(h, 4) == FRAME_VERSION
            && Uint32At(h, 8) == |payload| % 0x1_0000_0000 && Uint32At(h, 12) == c.checksum(payload) as nat
  {
    HeaderMarks(c, payload, priority);
    HeaderPieces(c, payload, priority);
    Uint32Field(Header(c, payload, priority), 8, |payload| % 0x1_0000_0000);
    Uint32Field(Header(c, payload, priority), 12, c.checksum(payload) as nat);
  }

  lemma FrameFields(c: Codec, record: Record, priority: Priority, tail: seq<byte>)
    ensures var data := Frame(c, record, priority) + tail; var payload := c.marshal(record);
            && Uint32At(data, 0) == FRAME_MAGIC && Uint16At(data, 4) == FRAME_VERSION
            && Uint32At(data, 8) == |payload| % 0x1_0000_0000 && Uint32At(data, 12) == c.checksum(payload) as nat
            && data[FRAME_HEADER_SIZE..FRAME_HEADER_SIZE + |payload|] == payload
  {
    var data, h := Frame(c, record, priority) + tail, Header(c, c.marshal(record), priority);
    HeaderFields(c, c.marshal(record), priority);
    assert data[..FRAME_HEADER_SIZE] == h == h[..FRAME_HEADER_SIZE];
    SameHeaderFields(h, data);
  }

  /** The first six bytes of every frame: the letters STZ2 and version one. */
  const PREAMBLE: seq<byte> := [0x53, 0x54, 0x5a, 0x32, 0, 1]

  lemma PreambleIff(data: seq<byte>)
    requires |data| >= FRAME_HEADER_SIZE
    ensures data[..6] == PREAMBLE <==> Uint32At(data, 0) == FRAME_MAGIC && Uint16At(data, 4) == FRAME_VERSION
  {
    assert data[..6] == [data[0], data[1], data[2], data[3], data[4], data[5]];
    assert PutUint32(FRAME_MAGIC) + PutUint16(FRAME_VERSION) == PREAMBLE;
  }

  /** Where everything stands in a header, most significant bytes first. */
  lemma HeaderLayout(c: Codec, payload: seq<byte>, priority: Priority)
    ensures var h := Header(c, payload, priority);
            && h[..6] == PREAMBLE && BigEndian(h[6..8]) == priority.Rank()
            && BigEndian(h[8..12]) == |payload| % 0x1_0000_0000 && BigEndian(h[12..16]) == c.checksum(payload) as nat
  {
    var h := Header(c, payload, priority);
    HeaderFields(c, payload, priority);
    HeaderPieces(c, payload, priority);
    Uint16Field(h, 6, priority.Rank());
    PreambleIff(h);
    FieldsAreBigEndian(h, 6);
    FieldsAreBigEndian(h, 8);
    FieldsAreBigEndian(h, 12);
  }

  /** A written frame reads back, whatever follows it, if and only if its payload length is legal. */
  lemma WrittenFrameReadsBack(c: Codec, record: Record, priority: Priority, tail: seq<byte>)
    requires c.Valid()
    ensures Legal(c, record) ==>
              ParseFrame(c, Frame(c, record, priority) + tail) == Whole(record, |Frame(c, record, priority)|)
    ensures |c.marshal(record)| < 0x1_0000_0000 && !Legal(c, record) ==>
              ParseFrame(c, Frame(c, record, priority) + tail) == Stop(BadLength)
  {
    FrameFields(c, record, priority, tail);
  }

  // What is rejected, and why.

  /** The payload length that a header announces. */
  function Announced(data: seq<byte>): nat
    requires |data| >= FRAME_HEADER_SIZE
  {
    BigEndian(data[8..12])
  }

  /** There is a whole frame in front, of a length that is allowed. */
  predicate Framed(data: seq<byte>) {
    && |data| >= FRAME_HEADER_SIZE && data[..6] == PREAMBLE
    && 1 <= Announced(data) <= MAX_PAYLOAD && FRAME_HEADER_SIZE + Announced(data) <= |data|
  }

  function PayloadOf(data: seq<byte>): seq<byte>
    requires Framed(data)
  {
    data[FRAME_HEADER_SIZE..FRAME_HEADER_SIZE + Announced(data)]
  }

  /** The checksum of the payload is the one in the header. */
  predicate Intact(c: Codec, data: seq<byte>) {
    Framed(data) && BigEndian(data[12..16]) == c.checksum(PayloadOf(data)) as nat
  }

  lemma ParsedFields(data: seq<byte>)
    requires |data| >= FRAME_HEADER_SIZE
    ensures data[..6] == PREAMBLE <==> Uint32At(data, 0) == FRAME_MAGIC && Uint16At(data, 4) == FRAME_VERSION
    ensures Announced(data) == Uint32At(data, 8) && BigEndian(data[12..16]) == Uint32At(data, 12)
  {
    PreambleIff(data);
    FieldsAreBigEndian(data, 8);
    FieldsAreBigEndian(data, 12);
  }

  /** A record is read from some bytes if and only if they begin with an intact frame of it. */
  lemma ParsedIff(c: Codec, data: seq<byte>, record: Record, size: nat)
    ensures ParseFrame(c, data) == Whole(record, size) <==>
              && Intact(c, data) && size == FRAME_HEADER_SIZE + Announced(data)
              && c.unmarshal(PayloadOf(data)) == Some(record)
  {
    if |data| >= FRAME_HEADER_SIZE {
      ParsedFields(data);
    }
  }

  /** Why anything else is rejected. */
  lemma RejectedIff(c: Codec, data: seq<byte>)
    ensures ParseFrame(c, data) == Stop(BadHeader) <==> |data| >= FRAME_HEADER_SIZE && data[..6] != PREAMBLE
    ensures ParseFrame(c, data) == Stop(BadLength) <==>
              && |data| >= FRAME_HEADER_SIZE && data[..6] == PREAMBLE
              && (Announced(data) == 0 || Announced(data) > MAX_PAYLOAD)
    ensures ParseFrame(c, data) == Stop(BadChecksum) <==> Framed(data) && !Intact(c, data)
    ensures ParseFrame(c, data) == Stop(BadRecord) <==> Intact(c, data) && c.unmarshal(PayloadOf(data)).None?
  {
    if |data| >= FRAME_HEADER_SIZE {
      ParsedFields(data);
    }
  }

  /** A payload that rotted on disk is never read as a record, whatever follows it, as long as the
      checksum tells it from what was written. */
  lemma RottenPayloadRejected(c: Codec, record: Record, priority: Priority, payload: seq<byte>, tail: seq<byte>)
    requires Legal(c, record) && |payload| == |c.marshal(record)|
    requires c.checksum(payload) != c.checksum(c.marshal(record))
    ensures ParseFrame(c, Header(c, c.marshal(record), priority) + payload + tail) == Stop(BadChecksum)
  {
    var h := Header(c, c.marshal(record), priority);
    var data := h + payload + tail;
    HeaderFields(c, c.marshal(record), priority);
    assert data[..FRAME_HEADER_SIZE] == h == h[..FRAME_HEADER_SIZE];
    SameHeaderFields(h, data);
    assert data[FRAME_HEADER_SIZE..FRAME_HEADER_SIZE + |payload|] == payload;
  }

  /** The agent's framing meets the assumptions of the scanner. */
  lemma FormatIsValid(c: Codec)
    requires c.Valid()
    ensures FormatOf(c).Valid()
  {
    var f := FormatOf(c);
    forall data ensures f.BoundedAt(data) {
    }
    forall record, priority ensures f.NonEmptyAt(record, priority) {
    }
    forall data, more ensures f.LocalAt(data, more) {
      if ParseFrame(c, data).Whole? {
        var n := ParseFrame(c, data).size;
        if n <= |more| && more[..n] == data[..n] {
          FrameReadIsLocal(c, data, more);
        }
        if |more| < n {
          CutFrameIsTorn(c, data, |more|);
        }
      }
    }
    forall record, priority, tail ensures f.ReadsBackAt(record, priority, tail) {
      WrittenFrameReadsBack(c, record, priority, tail);
    }
  }

  /** Encoding round-trips exactly when every payload length is legal. */
  lemma {:induction false} EncodeScanRoundTrip(c: Codec, entries: seq<Entry>)
    requires c.Valid() && FormatOf(c).Valid()
    requires forall i | 0 <= i < |entries| :: |c.marshal(entries[i].record)| < 0x1_0000_0000
    ensures Holds(FormatOf(c), Encode(FormatOf(c), entries), RecordsOf(entries))
       <==> forall i | 0 <= i < |entries| :: Legal(c, entries[i].record)
  {
    var f := FormatOf(c);
    if forall i | 0 <= i < |entries| :: Legal(c, entries[i].record) {
      EncodeHolds(f, entries);
    } else {
      FirstIllegalStopsScan(c, entries);
    }
  }

  lemma {:induction false} FirstIllegalStopsScan(c: Codec, entries: seq<Entry>)
    requires c.Valid() && FormatOf(c).Valid()
    requires forall i | 0 <= i < |entries| :: |c.marshal(entries[i].record)| < 0x1_0000_0000
    requires exists i | 0 <= i < |entries| :: !Legal(c, entries[i].record)
    ensures Scan(FormatOf(c), Encode(FormatOf(c), entries)).status == BadLength
  {
    var f := FormatOf(c);
    var e, rest := entries[0], Encode(f, entries[1..]);
    WrittenFrameReadsBack(c, e.record, e.priority, rest);
    if Legal(c, e.record) {
      FirstIllegalStopsScan(c, entries[1..]);
      OneFrameHolds(f, e.record, e.priority);
      ScanConcat(f, f.frame(e.record, e.priority), rest);
    }
  }
}
