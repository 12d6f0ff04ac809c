/** The messages the agent writes to its log, cut down to what the log, the cursors
    and the collect loop look at. A record is an event, a gap, or neither (an empty
    `oneof`). Session and node identities are byte strings; the hexadecimal keys of the
    source are an injective renaming of them, the empty key standing for no bytes. */
module Proto {

  newtype byte = x: int | 0 <= x < 0x100
  newtype uint32 = x: int | 0 <= x < 0x1_0000_0000

  const UINT64_LIMIT: nat := 0x1_0000_0000_0000_0000

  datatype Option<+T> = None | Some(value: T)

  type Identity = seq<byte>

  /** TelemetryPriority: a larger number is less critical. */
  datatype Priority = Unspecified | P0Critical | P1Important | P2Normal | P3Optional {
    function Rank(): nat {
      match this
      case Unspecified => 0
      case P0Critical => 1
      case P1Important => 2
      case P2Normal => 3
      case P3Optional => 4
    }
  }

  datatype GapReason = Compacted | HardLimitDataLoss | Corruption

  /** The whole-number fields of one host sample. */
  datatype Sample = Sample(
    memUsed: nat, swapUsed: nat, diskUsed: nat,
    tcpConnCount: nat, udpConnCount: nat, processCount: nat,
    netInTransfer: nat, netOutTransfer: nat, uptime: nat)

  datatype RollupPayload = RollupPayload(
    windowStart: int, windowEnd: int, sampleCount: nat,
    minimum: Sample, average: Sample, maximum: Sample,
    netInTotal: nat, netOutTotal: nat)

  datatype Body =
    | Lifecycle
    | Heartbeat
    | Host
    | State(sample: Sample)
    | StateRollup(rollup: RollupPayload)
    | DataLoss(reason: GapReason, lostRecords: nat)

  datatype Record =
    | Event(node: Identity, session: Identity, sequence: nat, body: Body)
    | Gap(node: Identity, session: Identity, start: nat, end: nat, reason: GapReason)
    | Unset

  datatype RecordSpan = RecordSpan(session: Identity, start: nat, end: nat)

  /** The session and the closed interval of sequence numbers a record speaks for. */
  function RecordRange(record: Record): RecordSpan {
    match record
    case Event(_, session, sequence, _) => RecordSpan(session, sequence, sequence)
    case Gap(_, session, start, end, _) => RecordSpan(session, start, end)
    case Unset => RecordSpan([], 0, 0)
  }

  function NodeOf(record: Record): Identity {
    match record
    case Event(node, _, _, _) => node
    case Gap(node, _, _, _, _) => node
    case Unset => []
  }
}
