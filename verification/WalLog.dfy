/** The write-ahead log as a value: its state and, for each operation, the function that
    gives the state after it. `Wal` proves the in-place methods against these functions;
    the modules between prove what the functions keep. */
module WalLog {
  import opened Proto
  import opened Scanning

  // Configuration and admission.

  datatype Config = Config(segmentSize: int, maxSize: int, fsyncRecords: int, reserveBytes: int) {
    predicate Normal() {
      0 < segmentSize && 0 < fsyncRecords && 0 <= reserveBytes < maxSize
    }
  }

  const DEFAULT_SEGMENT_BYTES: int := 0x80_0000
  const DEFAULT_MAX_BYTES: int := 0x1000_0000
  const DEFAULT_RESERVE_BYTES: int := 0x10_0000
  const DEFAULT_FSYNC_RECORDS: int := 64

  /** Defaults, and a reserve that always stays below the capacity. */
  function Normalize(c: Config): (r: Config)
    ensures r.Normal()
    ensures r.segmentSize == (if c.segmentSize > 0 then c.segmentSize else DEFAULT_SEGMENT_BYTES)
    ensures r.maxSize == (if c.maxSize > 0 then c.maxSize else DEFAULT_MAX_BYTES)
    ensures r.fsyncRecords == (if c.fsyncRecords > 0 then c.fsyncRecords else DEFAULT_FSYNC_RECORDS)
    ensures 0 < c.reserveBytes < r.maxSize ==> r.reserveBytes == c.reserveBytes
    ensures c.reserveBytes <= 0 && DEFAULT_RESERVE_BYTES < r.maxSize ==> r.reserveBytes == DEFAULT_RESERVE_BYTES
    ensures c.reserveBytes <= 0 && DEFAULT_RESERVE_BYTES >= r.maxSize ==> r.reserveBytes == r.maxSize / 100
    ensures c.reserveBytes >= r.maxSize ==> r.reserveBytes == r.maxSize / 100
  {
    var segmentSize := if c.segmentSize <= 0 then DEFAULT_SEGMENT_BYTES else c.segmentSize;
    var maxSize := if c.maxSize <= 0 then DEFAULT_MAX_BYTES else c.maxSize;
    var fsyncRecords := if c.fsyncRecords <= 0 then DEFAULT_FSYNC_RECORDS else c.fsyncRecords;
    var reserve := if c.reserveBytes <= 0 then DEFAULT_RESERVE_BYTES else c.reserveBytes;
    Config(segmentSize, maxSize, fsyncRecords, if reserve >= maxSize then maxSize / 100 else reserve)
  }

  /** Normalising again changes nothing, and settings that are all positive are kept as they are
      if and only if the reserve is below the capacity. */
  lemma NormalizeSettles(c: Config)
    ensures Normalize(Normalize(c)) == Normalize(c)
    ensures c.segmentSize > 0 && c.maxSize > 0 && c.fsyncRecords > 0 && c.reserveBytes > 0 ==>
              (Normalize(c) == c <==> c.reserveBytes < c.maxSize)
  {
  }

  datatype Pressure = Healthy | Downsample | Rollup | Critical | HardLimit {
    function Level(): nat {
      match this
      case Healthy => 0
      case Downsample => 1
      case Rollup => 2
      case Critical => 3
      case HardLimit => 4
    }
  }

  /** The watermarks .70, .85 and .95 of the capacity, by exact cross-multiplication. */
  function PressureFor(size: int, max: int): Pressure {
    if max <= 0 || size >= max then HardLimit
    else if 100 * size >= 95 * max then Critical
    else if 100 * size >= 85 * max then Rollup
    else if 100 * size >= 70 * max then Downsample
    else Healthy
  }

  datatype Refusal = ErrDownsampled | ErrNeedsRollup | ErrHardLimit

  /** The admission ladder of an append of `frameSize` bytes. */
  function Admission(cfg: Config, total: int, frameSize: nat, priority: Priority): Option<Refusal> {
    var pressure := PressureFor(total + frameSize, cfg.maxSize);
    if pressure == HardLimit then
      Some(ErrHardLimit)
    else if total + frameSize > cfg.maxSize - cfg.reserveBytes && priority.Rank() > P0Critical.Rank() then
      Some(ErrHardLimit)
    else if pressure.Level() >= Rollup.Level() && priority.Rank() >= P2Normal.Rank() then
      Some(ErrNeedsRollup)
    else if pressure.Level() >= Downsample.Level() && priority.Rank() >= P3Optional.Rank() then
      Some(ErrDownsampled)
    else
      None
  }

  // Ranges of sequence numbers, per node and session.

  datatype RangeKey = RangeKey(node: Identity, session: Identity)
  datatype SequenceRange = SequenceRange(start: nat, end: nat)
  type Ranges = map<RangeKey, SequenceRange>

  /** Records that take part in manifests: full identities and a real interval. */
  predicate WellFormed(record: Record) {
    var span := RecordRange(record);
    |NodeOf(record)| == 16 && |span.session| == 16 && span.start != 0 && span.start <= span.end
  }

  function KeyOf(record: Record): RangeKey {
    RangeKey(NodeOf(record), RecordRange(record).session)
  }

  function AddRecordRange(ranges: Ranges, record: Record): Ranges {
    if !WellFormed(record) then
      ranges
    else
      var key, span := KeyOf(record), RecordRange(record);
      if key !in ranges then
        ranges[key := SequenceRange(span.start, span.end)]
      else
        var current := ranges[key];
        ranges[key := SequenceRange(if span.start < current.start then span.start else current.start,
                                    if span.end > current.end then span.end else current.end)]
  }

  function AddRanges(ranges: Ranges, records: seq<Record>): Ranges {
    if records == [] then ranges
    else AddRecordRange(AddRanges(ranges, records[..|records| - 1]), records[|records| - 1])
  }

  // Durable heads.

  type Heads = map<Identity, nat>

  function NoteDurable(heads: Heads, record: Record): Heads {
    var span := RecordRange(record);
    if span.session == [] then heads
    else if span.end > (if span.session in heads then heads[span.session] else 0) then heads[span.session := span.end]
    else heads
  }

  function NoteAll(heads: Heads, records: seq<Record>): Heads {
    if records == [] then heads
    else NoteDurable(NoteAll(heads, records[..|records| - 1]), records[|records| - 1])
  }

  // The state.

  /** A segment file: the bytes that readers may be shown, which a sync writes and a recovery
      finds (`PowerLoss` says which of them are forced to disk), and the manifest beside them. */
  datatype File = File(data: seq<byte>, manifest: Option<Ranges>)

  /** `file` is what stands on disk at the path of the segment. */
  datatype Segment = Segment(id: nat, size: int, durableSize: int, ranges: Ranges, records: seq<Record>, file: File)

  datatype IssueReason = TruncatedPartialTail | Quarantined(status: ScanStatus)

  datatype Issue = Issue(segment: nat, reason: IssueReason, ranges: Ranges)

  /** `buffer` holds the bytes written to the active segment since the last sync. */
  datatype Log = Log(
    cfg: Config,
    segments: seq<Segment>,
    buffer: seq<byte>,
    unsynced: nat,
    total: int,
    issues: seq<Issue>,
    pending: seq<Record>,
    heads: Heads)
  {
    predicate Open() {
      segments != []
    }

    function Active(): Segment
      requires Open()
    {
      segments[|segments| - 1]
    }

    function WithActive(active: Segment): (log: Log)
      requires Open()
      ensures log.Open() && log.Active() == active
    {
      this.(segments := segments[..|segments| - 1] + [active])
    }
  }

  /** The records of some segments, in order: what `ReadDurable` returns for all of them. */
  function RecordsIn(segments: seq<Segment>): seq<Record> {
    if segments == [] then [] else segments[0].records + RecordsIn(segments[1..])
  }

  function Durable(log: Log): seq<Record> {
    RecordsIn(log.segments)
  }

  function TotalSize(segments: seq<Segment>): int {
    if segments == [] then 0 else segments[0].size + TotalSize(segments[1..])
  }

  // Operations.

  /** Flush and fsync, then the manifest, and only then the records count as durable. */
  function SyncLog(log: Log): (after: Log)
    requires log.Open()
    ensures after.Open() && after.cfg == log.cfg
  {
    if log.unsynced == 0 then
      log
    else
      var active := log.Active();
      log.WithActive(active.(
                     durableSize := active.size,
                     records := active.records + log.pending,
                     file := File(active.file.data + log.buffer, Some(active.ranges))))
      .(buffer := [], unsynced := 0, pending := [], heads := NoteAll(log.heads, log.pending))
  }

  function EmptySegment(id: nat): Segment {
    Segment(id, 0, 0, map[], [], File([], None))
  }

  function WithNextSegment(log: Log): (after: Log)
    requires log.Open()
    ensures after.Open() && after.cfg == log.cfg
  {
    log.(segments := log.segments + [EmptySegment(log.Active().id + 1)])
  }

  function RotateLog(log: Log): (after: Log)
    requires log.Open()
    ensures after.Open() && after.cfg == log.cfg
  {
    WithNextSegment(SyncLog(log))
  }

  /** Writing one admitted frame to the active segment. */
  function WriteLog(f: Format, log: Log, record: Record, priority: Priority): (after: Log)
    requires log.Open()
    ensures after.Open() && after.cfg == log.cfg
  {
    var frame := f.frame(record, priority);
    var active := log.Active();
    log.WithActive(active.(size := active.size + |frame|, ranges := AddRecordRange(active.ranges, record)))
    .(buffer := log.buffer + frame, total := log.total + |frame|, unsynced := log.unsynced + 1,
      pending := log.pending + [record])
  }

  predicate NeedsRotation(log: Log, frameSize: nat)
    requires log.Open()
  {
    log.Active().size > 0 && log.Active().size + frameSize > log.cfg.segmentSize
  }

  /** The log with room for a frame in its active segment. */
  function ReadyLog(log: Log, frameSize: nat): (after: Log)
    requires log.Open()
    ensures after.Open() && after.cfg == log.cfg
  {
    if NeedsRotation(log, frameSize) then RotateLog(log) else log
  }

  function SyncIfDue(log: Log): (after: Log)
    requires log.Open()
    ensures after.Open() && after.cfg == log.cfg
  {
    if log.unsynced >= log.cfg.fsyncRecords then SyncLog(log) else log
  }

  predicate Accepts(f: Format, log: Log, record: Record, priority: Priority) {
    Admission(log.cfg, log.total, |f.frame(record, priority)|, priority).None?
  }

  function AppendLog(f: Format, log: Log, record: Record, priority: Priority): (after: Log)
    requires log.Open()
    ensures after.Open() && after.cfg == log.cfg
  {
    if !Accepts(f, log, record, priority) then log
    else SyncIfDue(WriteLog(f, ReadyLog(log, |f.frame(record, priority)|), record, priority))
  }

  // Queries.

  function Matching(records: seq<Record>, match_: Record -> bool): seq<Record> {
    if records == [] then []
    else (if match_(records[0]) then [records[0]] else []) + Matching(records[1..], match_)
  }

  /** The first `limit` durable records that match, in log order. */
  function Collected(log: Log, match_: Record -> bool, limit: int): seq<Record> {
    var all := Matching(Durable(log), match_);
    if limit <= 0 then [] else if |all| <= limit then all else all[..limit]
  }

  predicate AnyHead(log: Log, visible: (Identity, nat) -> bool) {
    exists session | session in log.heads :: visible(session, log.heads[session])
  }

  // Reclaim.

  predicate AllAcknowledged(records: seq<Record>, acknowledged: Record -> bool) {
    forall i | 0 <= i < |records| :: acknowledged(records[i])
  }

  predicate Reclaimable(segment: Segment, acknowledged: Record -> bool) {
    segment.records != [] && AllAcknowledged(segment.records, acknowledged)
  }

  /** All segments but the reclaimable ones; the last segment always stays. */
  function Kept(segments: seq<Segment>, acknowledged: Record -> bool): (kept: seq<Segment>)
    ensures segments != [] ==> kept != [] && kept[|kept| - 1] == segments[|segments| - 1]
  {
    if |segments| <= 1 then segments
    else if Reclaimable(segments[0], acknowledged) then Kept(segments[1..], acknowledged)
    else [segments[0]] + Kept(segments[1..], acknowledged)
  }

  /** The bytes given back by the segments that do not stay. */
  function ReclaimedBytes(segments: seq<Segment>, acknowledged: Record -> bool): int {
    if |segments| <= 1 then 0
    else (if Reclaimable(segments[0], acknowledged) then segments[0].size else 0)
         + ReclaimedBytes(segments[1..], acknowledged)
  }

  function DropAcknowledged(log: Log, acknowledged: Record -> bool): (after: Log)
    requires log.Open()
    ensures after.Open() && after.cfg == log.cfg
  {
    log.(segments := Kept(log.segments, acknowledged),
         total := log.total - ReclaimedBytes(log.segments, acknowledged))
  }

  /** Reclaiming syncs first, and then drops whole segments. */
  function ReclaimLog(log: Log, acknowledged: Record -> bool): (after: Log)
    requires log.Open()
    ensures after.Open() && after.cfg == log.cfg
  {
    DropAcknowledged(SyncLog(log), acknowledged)
  }
}
