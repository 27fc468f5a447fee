// ymp/mod.rs as a state machine: one node's session state and its atomic
// steps. The histories (arrivals, sent, delivered, dropped) record what has
// happened so far; no step reads them.
module YmpState {
  import opened Bytes
  import opened Wrappers
  import opened YmpWire
  import opened YmpSegments
  import SynThrottle

  /** Milliseconds of a monotone clock. */
  type Time = nat
  type MsgId = u64
  /** Buffers are keyed by message id and source, so that no source can add to another's message. */
  type BufferKey = (MsgId, Key)

  const MAX_REASSEMBLY_BUFFERS: nat := 256
  const REASSEMBLY_TIMEOUT_SECS: nat := 600
  const MAX_RETRIES: nat := 12
  const MAX_SYN_RETRIES: nat := 5

  // ---------------------------------------------------------------- packets

  datatype Segment = Segment(msgId: MsgId, index: u16, total: u16, payload: bytes)

  datatype Arrival = Arrival(src: Key, packet: bytes, at: Time)

  datatype Sent = Sent(dst: Key, packet: bytes)

  /** A DATA packet that passes the length, index and size checks. */
  function ParseData(packet: bytes): Option<Segment> {
    match Decode(packet)
    case None => None
    case Some(h) =>
      if h.pktType.Data? && |packet| - HEADER_SIZE == h.payloadLen && h.seqNo < h.total && Admitted(h.total)
      then Some(Segment(h.msgId, h.seqNo, h.total, packet[HEADER_SIZE..]))
      else None
  }

  /** The packet acknowledges segment `index` of message `id`. */
  predicate IsAck(packet: bytes, id: MsgId, index: u16) {
    match Decode(packet)
    case None => false
    case Some(h) => h.pktType.Ack? && h.msgId == id && h.seqNo == index
  }

  function DataPacket(id: MsgId, message: bytes, i: u16): bytes
    requires i * FRAGMENT_SIZE <= |message|
  {
    Encoded(DataHeader(id, i, SegmentCount(|message|), |Slice(message, i)|)) + Slice(message, i)
  }

  // ---------------------------------------------------------------- receiving half

  datatype Buffer = Buffer(total: u16, segments: seq<Option<bytes>>, received: nat, created: Time)

  /** A completed reassembly; the channel carries its source and joined bytes. */
  datatype Delivery = Delivery(msgId: MsgId, src: Key, segments: seq<Option<bytes>>)

  datatype Receiver = Receiver(
    buffers: map<BufferKey, Buffer>,
    delivered: seq<Delivery>,
    dropped: set<BufferKey>,
    alive: bool)

  function EmptyBuffer(total: u16, now: Time): Buffer {
    Buffer(total, seq(total, _ => None), 0, now)
  }

  /** A slot is filled once; later copies of the segment are ignored. */
  function WithSegment(b: Buffer, i: nat, payload: bytes): Buffer
    requires i < |b.segments|
  {
    if b.segments[i].None? then b.(segments := b.segments[i := Some(payload)], received := b.received + 1) else b
  }

  predicate IsOldest(buffers: map<BufferKey, Buffer>, k: BufferKey) {
    k in buffers && forall other :: other in buffers ==> buffers[k].created <= buffers[other].created
  }

  predicate MustEvict(rx: Receiver, key: BufferKey) {
    key !in rx.buffers && |rx.buffers| >= MAX_REASSEMBLY_BUFFERS
  }

  /** When the packet opens a buffer beyond the cap, the victim is an oldest buffer. */
  predicate VictimOk(rx: Receiver, src: Key, packet: bytes, victim: BufferKey) {
    match ParseData(packet)
    case None => true
    case Some(seg) => MustEvict(rx, (seg.msgId, src)) ==> IsOldest(rx.buffers, victim)
  }

  function Evicted(rx: Receiver, key: BufferKey, victim: BufferKey): Receiver {
    if MustEvict(rx, key) then rx.(buffers := rx.buffers - {victim}, dropped := rx.dropped + {victim}) else rx
  }

  /** Reassembly of one accepted segment. An index past the first segment's total ends the reader task. */
  function OnSegment(rx: Receiver, src: Key, seg: Segment, now: Time, victim: BufferKey): Receiver {
    var key := (seg.msgId, src);
    var rx1 := Evicted(rx, key, victim);
    var b := if key in rx1.buffers then rx1.buffers[key] else EmptyBuffer(seg.total, now);
    if seg.index >= |b.segments| then rx1.(alive := false, dropped := rx1.dropped + {key})
    else
      var filled := WithSegment(b, seg.index, seg.payload);
      if filled.received == filled.total
      then rx1.(buffers := rx1.buffers - {key}, delivered := rx1.delivered + [Delivery(seg.msgId, src, filled.segments)])
      else rx1.(buffers := rx1.buffers[key := filled])
  }

  predicate Expired(b: Buffer, now: Time) {
    now > b.created && (now - b.created) / 1000 >= REASSEMBLY_TIMEOUT_SECS
  }

  /** The periodic cleanup task. */
  function Cleaned(rx: Receiver, now: Time): Receiver {
    var kept := map k | k in rx.buffers && !Expired(rx.buffers[k], now) :: rx.buffers[k];
    rx.(buffers := kept, dropped := rx.dropped + (rx.buffers.Keys - kept.Keys))
  }

  // ---------------------------------------------------------------- sending half

  datatype PendingSend = PendingSend(total: u16, acked: seq<bool>, notified: bool)

  datatype PendingSyn = PendingSyn(expectedSrc: Key, notified: bool)

  datatype Failure = TooLarge | Unreachable | MaxRetriesExceeded

  /** Where a call of `send` stands. */
  datatype Phase =
    | Handshake(attempt: nat)
    | Transfer(attempt: nat, cursor: nat)
    | Finished(result: Result<MsgId, Failure>)

  datatype Task = Task(dest: Key, message: bytes, phase: Phase)

  datatype Sender = Sender(
    nextId: nat,
    tasks: map<MsgId, Task>,
    pending: map<MsgId, PendingSend>,
    syns: map<MsgId, PendingSyn>)

  function AllAcked(acked: seq<bool>): bool {
    forall i :: 0 <= i < |acked| ==> acked[i]
  }

  /** The reader's ACK arm: one ACK confirms exactly one segment. */
  function OnAck(tx: Sender, id: MsgId, index: u16): Sender {
    if id !in tx.pending then tx
    else
      var ps := tx.pending[id];
      var acked := if index < ps.total && index < |ps.acked| then ps.acked[index := true] else ps.acked;
      tx.(pending := tx.pending[id := ps.(acked := acked, notified := ps.notified || AllAcked(acked))])
  }

  function OnSynAck(tx: Sender, src: Key, id: MsgId): Sender {
    if id in tx.syns && tx.syns[id].expectedSrc == src
    then tx.(syns := tx.syns[id := tx.syns[id].(notified := true)])
    else tx
  }

  function WithPhase(tx: Sender, id: MsgId, phase: Phase): Sender
    requires id in tx.tasks
  {
    tx.(tasks := tx.tasks[id := tx.tasks[id].(phase := phase)])
  }

  // ---------------------------------------------------------------- a session

  datatype Session = Session(
    rx: Receiver,
    tx: Sender,
    throttle: SynThrottle.Table,
    sent: seq<Sent>,
    lookups: seq<Key>,
    arrivals: seq<Arrival>)

  const INITIAL: Session :=
    Session(Receiver(map[], [], {}, true), Sender(0, map[], map[], map[]), map[], [], [], [])

  datatype Action =
    | Read(src: Key, packet: bytes, now: Time, victim: BufferKey)
    | Begin(dest: Key, message: bytes)
    | HandshakeTimeout(id: MsgId)
    | HandshakeDone(id: MsgId)
    | Transmit(id: MsgId)
    | Wake(id: MsgId)
    | TransferTimeout(id: MsgId)
    | Cleanup(now: Time)

  predicate InPhaseHandshake(s: Session, id: MsgId) {
    id in s.tx.tasks && s.tx.tasks[id].phase.Handshake?
  }

  predicate InPhaseTransfer(s: Session, id: MsgId) {
    id in s.tx.tasks && s.tx.tasks[id].phase.Transfer?
  }

  function SegmentsOf(t: Task): u16 {
    SegmentCount(|t.message|)
  }

  predicate Enabled(s: Session, a: Action) {
    match a
    case Read(src, packet, now, victim) =>
      s.rx.alive && VictimOk(s.rx, src, packet, victim)
    case Begin(dest, message) => |message| <= MAX_MESSAGE_SIZE && s.tx.nextId < 0x1_0000_0000_0000_0000
    case HandshakeTimeout(id) => InPhaseHandshake(s, id)
    case HandshakeDone(id) => InPhaseHandshake(s, id) && id in s.tx.syns && s.tx.syns[id].notified
    case Transmit(id) => InPhaseTransfer(s, id) && s.tx.tasks[id].phase.cursor < SegmentsOf(s.tx.tasks[id])
    case Wake(id) =>
      && InPhaseTransfer(s, id) && s.tx.tasks[id].phase.cursor >= SegmentsOf(s.tx.tasks[id])
      && (id in s.tx.pending ==> s.tx.pending[id].notified)
    case TransferTimeout(id) =>
      InPhaseTransfer(s, id) && s.tx.tasks[id].phase.cursor >= SegmentsOf(s.tx.tasks[id])
    case Cleanup(now) => true
  }

  /** The reader's SYN arm: the lookup is throttled, the SYN-ACK never is. */
  function OnSyn(s: Session, src: Key, id: MsgId, now: Time): Session {
    s.(throttle := SynThrottle.After(s.throttle, src, now, true),
       lookups := if SynThrottle.Throttled(s.throttle, src, now) then s.lookups else s.lookups + [src],
       sent := s.sent + [Sent(src, Encoded(SynAckHeader(id)))])
  }

  /** The reader's DATA arm: acknowledge what passes the checks, then reassemble. */
  function OnData(s: Session, src: Key, packet: bytes, now: Time, victim: BufferKey): Session {
    match ParseData(packet)
    case None => s
    case Some(seg) =>
      s.(sent := s.sent + [Sent(src, Encoded(AckHeader(seg.msgId, seg.index)))],
         rx := OnSegment(s.rx, src, seg, now, victim))
  }

  /** One iteration of the reader loop. */
  function OnPacket(s: Session, src: Key, packet: bytes, now: Time, victim: BufferKey): Session {
    var s := s.(arrivals := s.arrivals + [Arrival(src, packet, now)]);
    match Decode(packet)
    case None => s
    case Some(h) =>
      match h.pktType
      case Syn => OnSyn(s, src, h.msgId, now)
      case SynAck => s.(tx := OnSynAck(s.tx, src, h.msgId))
      case Data => OnData(s, src, packet, now, victim)
      case Ack => s.(tx := OnAck(s.tx, h.msgId, h.seqNo))
  }

  function SynPacket(dest: Key, id: MsgId): Sent {
    Sent(dest, Encoded(SynHeader(id)))
  }

  function OnBegin(s: Session, dest: Key, message: bytes): Session
    requires s.tx.nextId < 0x1_0000_0000_0000_0000
  {
    var id: MsgId := s.tx.nextId;
    s.(tx := s.tx.(nextId := id + 1,
                   tasks := s.tx.tasks[id := Task(dest, message, Handshake(0))],
                   syns := s.tx.syns[id := PendingSyn(dest, false)]),
       lookups := s.lookups + [dest],
       sent := s.sent + [SynPacket(dest, id)])
  }

  function OnHandshakeTimeout(s: Session, id: MsgId): Session
    requires InPhaseHandshake(s, id)
  {
    var t := s.tx.tasks[id];
    if t.phase.attempt + 1 < MAX_SYN_RETRIES
    then s.(tx := WithPhase(s.tx, id, Handshake(t.phase.attempt + 1)),
            lookups := s.lookups + [t.dest],
            sent := s.sent + [SynPacket(t.dest, id)])
    else s.(tx := WithPhase(s.tx.(syns := s.tx.syns - {id}), id, Finished(Err(Unreachable))))
  }

  function OnHandshakeDone(s: Session, id: MsgId): Session
    requires InPhaseHandshake(s, id)
  {
    var total := SegmentsOf(s.tx.tasks[id]);
    s.(tx := WithPhase(s.tx.(syns := s.tx.syns - {id},
                             pending := s.tx.pending[id := PendingSend(total, seq(total, _ => false), false)]),
                       id, Transfer(0, 0)))
  }

  /** One turn of the burst loop: write the segment at the cursor unless it is acknowledged. */
  function OnTransmit(s: Session, id: MsgId): Session
    requires Enabled(s, Transmit(id)) && |s.tx.tasks[id].message| <= MAX_MESSAGE_SIZE
  {
    var t := s.tx.tasks[id];
    var i := t.phase.cursor;
    var skip := id !in s.tx.pending || (i < |s.tx.pending[id].acked| && s.tx.pending[id].acked[i]);
    CastsAreExact(|t.message|);
    var moved := s.(tx := WithPhase(s.tx, id, Transfer(t.phase.attempt, i + 1)));
    if skip then moved else moved.(sent := s.sent + [Sent(t.dest, DataPacket(id, t.message, i))])
  }

  /** The wait for acknowledgements wakes up. A missing pending entry counts as done. */
  function OnWake(s: Session, id: MsgId): Session
    requires InPhaseTransfer(s, id)
  {
    if id !in s.tx.pending || AllAcked(s.tx.pending[id].acked)
    then s.(tx := WithPhase(s.tx.(pending := s.tx.pending - {id}), id, Finished(Ok(id))))
    else s.(tx := s.tx.(pending := s.tx.pending[id := s.tx.pending[id].(notified := false)]))
  }

  function OnTransferTimeout(s: Session, id: MsgId): Session
    requires InPhaseTransfer(s, id)
  {
    var attempt := s.tx.tasks[id].phase.attempt;
    if attempt + 1 < MAX_RETRIES
    then s.(tx := WithPhase(s.tx, id, Transfer(attempt + 1, 0)))
    else s.(tx := WithPhase(s.tx.(pending := s.tx.pending - {id}), id, Finished(Err(MaxRetriesExceeded))))
  }

  ghost predicate TasksFit(tasks: map<MsgId, Task>) {
    forall id :: id in tasks ==> |tasks[id].message| <= MAX_MESSAGE_SIZE
  }

  ghost predicate MessagesFit(s: Session) {
    TasksFit(s.tx.tasks)
  }

  ghost function Apply(s: Session, a: Action): Session
    requires Enabled(s, a) && MessagesFit(s)
  {
    match a
    case Read(src, packet, now, victim) => OnPacket(s, src, packet, now, victim)
    case Begin(dest, message) => OnBegin(s, dest, message)
    case HandshakeTimeout(id) => OnHandshakeTimeout(s, id)
    case HandshakeDone(id) => OnHandshakeDone(s, id)
    case Transmit(id) => OnTransmit(s, id)
    case Wake(id) => OnWake(s, id)
    case TransferTimeout(id) => OnTransferTimeout(s, id)
    case Cleanup(now) => s.(rx := Cleaned(s.rx, now))
  }
}
