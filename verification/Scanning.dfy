/** Scanning a segment file, for any framing of records that is bounded, local and
    prefix-detecting. `Frames` gives the agent's framing and proves that it is one. */
module Scanning {
  import opened Proto

  datatype ScanStatus = Clean | Torn | BadHeader | BadLength | BadChecksum | BadRecord

  /** One frame read from the front of some bytes, or the reason why there is none. */
  datatype FrameRead = Whole(record: Record, size: nat) | Stop(status: ScanStatus)

  datatype Format = Format(
    frame: (Record, Priority) -> seq<byte>,
    parse: seq<byte> -> FrameRead,
    legal: Record -> bool)
  {
    /** A frame lies within the bytes it is read from; not reading one is never clean. */
    ghost predicate BoundedAt(data: seq<byte>) {
      match parse(data)
      case Whole(_, size) => 0 < size <= |data|
      case Stop(status) => status != Clean
    }

    /** Reading a frame looks at that frame only, and any cut inside it is torn. */
    ghost predicate LocalAt(data: seq<byte>, more: seq<byte>) {
      parse(data).Whole? && BoundedAt(data) ==>
        var n := parse(data).size;
        && (n <= |more| && more[..n] == data[..n] ==> parse(more) == parse(data))
        && (|more| < n && more == data[..|more|] ==> parse(more) == Stop(Torn))
    }

    /** A legal record reads back whatever follows its frame. */
    ghost predicate ReadsBackAt(record: Record, priority: Priority, tail: seq<byte>) {
      legal(record) ==> parse(frame(record, priority) + tail) == Whole(record, |frame(record, priority)|)
    }

    ghost predicate NonEmptyAt(record: Record, priority: Priority) {
      frame(record, priority) != []
    }

    ghost predicate Valid() {
      && (forall data :: BoundedAt(data))
      && (forall record, priority :: NonEmptyAt(record, priority))
      && (forall data, more :: LocalAt(data, more))
      && (forall record, priority, tail :: ReadsBackAt(record, priority, tail))
    }
  }

  datatype ScanResult = ScanResult(records: seq<Record>, valid: nat, status: ScanStatus)

  /** The outcome of scanning `size` bytes that hold `records`, and then `rest`. */
  function Join(records: seq<Record>, size: nat, rest: ScanResult): ScanResult {
    ScanResult(records + rest.records, size + rest.valid, rest.status)
  }

  lemma JoinAssociates(a: seq<Record>, m: nat, b: seq<Record>, n: nat, rest: ScanResult)
    ensures Join(a, m, Join(b, n, rest)) == Join(a + b, m + n, rest)
  {
    assert a + (b + rest.records) == a + b + rest.records;
  }

  /** What the scanner makes of a whole file. */
  function Scan(f: Format, data: seq<byte>): (r: ScanResult)
    requires f.Valid()
    ensures r.valid <= |data|
    ensures r.status == Clean <==> r.valid == |data|
    decreases |data|
  {
    if data == [] then
      ScanResult([], 0, Clean)
    else
      assert f.BoundedAt(data);
      match f.parse(data)
      case Stop(status) => ScanResult([], 0, status)
      case Whole(record, size) => Join([record], size, Scan(f, data[size..]))
  }

  /** `data` is exactly the frames of `records`. */
  ghost predicate Holds(f: Format, data: seq<byte>, records: seq<Record>)
    requires f.Valid()
  {
    Scan(f, data) == ScanResult(records, |data|, Clean)
  }

  // The scanner reads front to back: what is known after `offset` bytes.

  ghost predicate ScannedTo(f: Format, data: seq<byte>, offset: nat, records: seq<Record>)
    requires f.Valid() && offset <= |data|
  {
    Scan(f, data) == Join(records, offset, Scan(f, data[offset..]))
  }

  lemma StartScan(f: Format, data: seq<byte>)
    requires f.Valid()
    ensures ScannedTo(f, data, 0, [])
  {
    assert data[0..] == data;
    assert [] + Scan(f, data).records == Scan(f, data).records;
  }

  lemma {:induction false} StepScan(f: Format, data: seq<byte>, offset: nat, records: seq<Record>, read: FrameRead)
    requires f.Valid() && offset < |data| && ScannedTo(f, data, offset, records)
    requires read == f.parse(data[offset..])
    ensures read.Stop? ==> Scan(f, data) == ScanResult(records, offset, read.status)
    ensures read.Whole? ==> 0 < read.size && offset + read.size <= |data|
    ensures read.Whole? ==> ScannedTo(f, data, offset + read.size, records + [read.record])
  {
    assert f.BoundedAt(data[offset..]);
    if read.Whole? {
      assert data[offset..][read.size..] == data[offset + read.size..];
      JoinAssociates(records, offset, [read.record], read.size, Scan(f, data[offset + read.size..]));
    }
  }

  lemma {:induction false} EndScan(f: Format, data: seq<byte>, offset: nat, records: seq<Record>)
    requires f.Valid() && offset == |data| && ScannedTo(f, data, offset, records)
    ensures Scan(f, data) == ScanResult(records, offset, Clean)
  {
  }

  lemma FrameThenMore(f: Format, a: seq<byte>, b: seq<byte>)
    requires f.Valid() && f.parse(a).Whole?
    ensures f.BoundedAt(a)
    ensures f.parse(a + b) == f.parse(a)
    ensures (a + b)[f.parse(a).size..] == a[f.parse(a).size..] + b
  {
    assert f.BoundedAt(a) && f.LocalAt(a, a + b);
    assert (a + b)[..f.parse(a).size] == a[..f.parse(a).size];
  }

  /** Scanning a clean file with more bytes after it continues where the file ended. */
  lemma {:induction false} ScanConcat(f: Format, a: seq<byte>, b: seq<byte>)
    requires f.Valid() && Scan(f, a).status == Clean
    ensures Scan(f, a + b) == Join(Scan(f, a).records, |a|, Scan(f, b))
    decreases |a|
  {
    if a == [] {
      assert a + b == b;
    } else {
      var Whole(record, size) := f.parse(a);
      FrameThenMore(f, a, b);
      var rest := a[size..];
      ScanConcat(f, rest, b);
      JoinAssociates([record], size, Scan(f, rest).records, |rest|, Scan(f, b));
    }
  }

  /** Truncating any file at the scanned offset leaves a clean file with the same records. */
  lemma {:induction false} ScanValidPrefix(f: Format, data: seq<byte>)
    requires f.Valid()
    ensures Holds(f, data[..Scan(f, data).valid], Scan(f, data).records)
    decreases |data|
  {
    var r := Scan(f, data);
    if data != [] && f.parse(data).Whole? {
      var size := f.parse(data).size;
      assert f.BoundedAt(data) && f.LocalAt(data, data[..r.valid]);
      assert data[..r.valid][..size] == data[..size];
      assert data[..r.valid][size..] == data[size..][..r.valid - size];
      ScanValidPrefix(f, data[size..]);
    }
  }

  /** Cutting a clean file anywhere leaves a prefix of its records, and the scanner
      reports a torn tail exactly when whole records do not fill the cut. */
  lemma {:induction false} ScanCut(f: Format, data: seq<byte>, n: nat)
    requires f.Valid() && Scan(f, data).status == Clean && n <= |data|
    ensures Scan(f, data[..n]).records <= Scan(f, data).records
    ensures Scan(f, data[..n]).status == if Scan(f, data[..n]).valid == n then Clean else Torn
    decreases |data|
  {
    if n != 0 {
      var size := f.parse(data).size;
      assert f.BoundedAt(data) && f.LocalAt(data, data[..n]);
      if size <= n {
        assert data[..n][..size] == data[..size];
        assert data[..n][size..] == data[size..][..n - size];
        ScanCut(f, data[size..], n - size);
      }
    }
  }

  /** The reading loop. `limit` bounds what is read: the size taken before opening, or the durable size. */
  method ScanFile(f: Format, file: seq<byte>, limit: nat) returns (r: ScanResult)
    requires f.Valid()
    ensures r == Scan(f, file[..if limit <= |file| then limit else |file|])
  {
    var data := file[..if limit <= |file| then limit else |file|];
    var records: seq<Record>, offset: nat := [], 0;
    StartScan(f, data);
    while offset < limit
      invariant offset <= |data|
      invariant ScannedTo(f, data, offset, records)
      decreases |data| - offset
    {
      if offset == |data| {
        EndScan(f, data, offset, records);
        return ScanResult(records, offset, Clean);
      }
      var read := f.parse(data[offset..]);
      StepScan(f, data, offset, records, read);
      match read {
        case Stop(status) =>
          return ScanResult(records, offset, status);
        case Whole(record, size) =>
          records := records + [record];
          offset := offset + size;
      }
    }
    EndScan(f, data, offset, records);
    r := ScanResult(records, offset, Clean);
  }

  // Encoded lists of records.

  datatype Entry = Entry(record: Record, priority: Priority)

  function Encode(f: Format, entries: seq<Entry>): seq<byte> {
    if entries == [] then [] else f.frame(entries[0].record, entries[0].priority) + Encode(f, entries[1..])
  }

  function RecordsOf(entries: seq<Entry>): (records: seq<Record>)
    ensures |records| == |entries|
  {
    seq(|entries|, i requires 0 <= i < |entries| => entries[i].record)
  }

  predicate AllLegal(f: Format, records: seq<Record>) {
    forall i | 0 <= i < |records| :: f.legal(records[i])
  }

  lemma OneFrameHolds(f: Format, record: Record, priority: Priority)
    requires f.Valid() && f.legal(record)
    ensures Holds(f, f.frame(record, priority), [record])
  {
    var b := f.frame(record, priority);
    assert f.ReadsBackAt(record, priority, []);
    assert b + [] == b;
    assert f.BoundedAt(b);
    assert b[|b|..] == [];
  }

  /** What is written reads back. */
  lemma {:induction false} EncodeHolds(f: Format, entries: seq<Entry>)
    requires f.Valid() && AllLegal(f, RecordsOf(entries))
    ensures Holds(f, Encode(f, entries), RecordsOf(entries))
  {
    if entries != [] {
      var e := entries[0];
      assert RecordsOf(entries)[0] == e.record;
      assert RecordsOf(entries)[1..] == RecordsOf(entries[1..]);
      EncodeHolds(f, entries[1..]);
      OneFrameHolds(f, e.record, e.priority);
      ScanConcat(f, f.frame(e.record, e.priority), Encode(f, entries[1..]));
      assert RecordsOf(entries) == [e.record] + RecordsOf(entries[1..]);
    }
  }

  lemma {:induction false} EncodeSplit(f: Format, entries: seq<Entry>, k: nat)
    requires k <= |entries|
    ensures Encode(f, entries) == Encode(f, entries[..k]) + Encode(f, entries[k..])
  {
    if k == 0 {
      assert entries[..0] == [] && entries[0..] == entries;
    } else {
      EncodeSplit(f, entries[1..], k - 1);
      assert entries[..k][1..] == entries[1..][..k - 1];
      assert entries[1..][k - 1..] == entries[k..];
    }
  }

  lemma {:induction false} EncodeLengthMonotone(f: Format, entries: seq<Entry>, i: nat, j: nat)
    requires i <= j <= |entries|
    ensures |Encode(f, entries[..i])| <= |Encode(f, entries[..j])|
  {
    EncodeSplit(f, entries[..j], i);
    assert entries[..j][..i] == entries[..i];
  }

  lemma {:induction false} EncodeSplitAt(f: Format, entries: seq<Entry>, k: nat)
    requires k < |entries|
    ensures var frame := f.frame(entries[k].record, entries[k].priority);
            && Encode(f, entries) == Encode(f, entries[..k]) + (frame + Encode(f, entries[k + 1..]))
            && Encode(f, entries[..k + 1]) == Encode(f, entries[..k]) + frame
  {
    EncodeSplit(f, entries, k);
    assert entries[k..][0] == entries[k] && entries[k..][1..] == entries[k + 1..];
    EncodeSplit(f, entries[..k + 1], k);
    assert entries[..k + 1][..k] == entries[..k] && entries[..k + 1][k..] == [entries[k]];
    var frame := f.frame(entries[k].record, entries[k].priority);
    assert Encode(f, [entries[k]]) == frame + [] == frame;
  }

  /** What is left of the frame in which a cut falls. */
  lemma CutInsideFrame(f: Format, entries: seq<Entry>, n: nat, k: nat)
    requires f.Valid() && AllLegal(f, RecordsOf(entries)) && k < |entries|
    requires |Encode(f, entries[..k])| < n < |Encode(f, entries[..k + 1])|
    requires n <= |Encode(f, entries)|
    ensures f.parse(Encode(f, entries)[|Encode(f, entries[..k])|..n]) == Stop(Torn)
  {
    var m := |Encode(f, entries[..k])|;
    var frame := f.frame(entries[k].record, entries[k].priority);
    var after := Encode(f, entries[k + 1..]);
    EncodeSplitAt(f, entries, k);
    var tail := Encode(f, entries)[m..n];
    assert RecordsOf(entries)[k] == entries[k].record;
    assert f.ReadsBackAt(entries[k].record, entries[k].priority, after);
    assert f.BoundedAt(frame + after) && f.LocalAt(frame + after, tail);
    assert tail == (frame + after)[..n - m];
  }

  /** Torn-tail parsing. For legal records and every cut `n` of their frames, the scanner
      returns exactly the `k` whole records before the cut and their length, and stops
      with an unexpected end of file when the cut falls inside a frame. */
  lemma {:induction false} TornTail(f: Format, entries: seq<Entry>, n: nat, k: nat)
    requires f.Valid() && AllLegal(f, RecordsOf(entries))
    requires k <= |entries| && |Encode(f, entries[..k])| <= n <= |Encode(f, entries)|
    requires k < |entries| ==> n < |Encode(f, entries[..k + 1])|
    ensures Scan(f, Encode(f, entries)[..n])
         == ScanResult(RecordsOf(entries[..k]), |Encode(f, entries[..k])|,
                       if |Encode(f, entries[..k])| == n then Clean else Torn)
  {
    var whole := Encode(f, entries[..k]);
    assert RecordsOf(entries[..k]) == RecordsOf(entries)[..k];
    EncodeHolds(f, entries[..k]);
    EncodeSplit(f, entries, k);
    var tail := Encode(f, entries)[|whole|..n];
    assert Encode(f, entries)[..n] == whole + tail;
    ScanConcat(f, whole, tail);
    if tail != [] {
      assert entries[..|entries|] == entries;
      CutInsideFrame(f, entries, n, k);
    }
  }

  /** Every cut has such a `k`: the number of whole frames before it. */
  lemma {:induction false} WholeFramesBefore(f: Format, entries: seq<Entry>, n: nat) returns (k: nat)
    requires n <= |Encode(f, entries)|
    ensures k <= |entries| && |Encode(f, entries[..k])| <= n
    ensures k < |entries| ==> n < |Encode(f, entries[..k + 1])|
  {
    k := 0;
    while k < |entries| && |Encode(f, entries[..k + 1])| <= n
      invariant k <= |entries| && |Encode(f, entries[..k])| <= n
    {
      k := k + 1;
    }
  }

  /** Torn if and only if the cut is no frame boundary; no other failure is ever reported. */
  lemma {:induction false} TornIffInsideFrame(f: Format, entries: seq<Entry>, n: nat)
    requires f.Valid() && AllLegal(f, RecordsOf(entries)) && n <= |Encode(f, entries)|
    ensures Scan(f, Encode(f, entries)[..n]).status in {Clean, Torn}
    ensures Scan(f, Encode(f, entries)[..n]).status == Torn <==>
              !exists j | 0 <= j <= |entries| :: |Encode(f, entries[..j])| == n
  {
    var k := WholeFramesBefore(f, entries, n);
    TornTail(f, entries, n, k);
    forall j | 0 <= j <= |entries| && |Encode(f, entries[..j])| == n ensures |Encode(f, entries[..k])| == n {
      if j <= k {
        EncodeLengthMonotone(f, entries, j, k);
      } else {
        EncodeLengthMonotone(f, entries, k + 1, j);
      }
    }
  }
}
