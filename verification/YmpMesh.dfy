// YMP over a lossy mesh: any packet ever sent may arrive at its destination any
// number of times, in any order, or never. Keys outside the mesh may send anything.
module YmpMesh {
  import opened Bytes
  import opened Wrappers
  import opened YmpWire
  import opened YmpSegments
  import opened YmpState
  import opened YmpReceiverProofs

  // ---------------------------------------------------------------- one node

  predicate Succeeded(t: Task) {
    t.phase.Finished? && t.phase.result.Ok?
  }

  ghost predicate AckArrived(arrivals: seq<Arrival>, id: MsgId, i: u16) {
    exists n :: 0 <= n < |arrivals| && IsAck(arrivals[n].packet, id, i)
  }

  ghost predicate AllAcksArrived(arrivals: seq<Arrival>, id: MsgId, total: u16) {
    forall i: u16 :: i < total ==> AckArrived(arrivals, id, i)
  }

  /** A registered transfer: its flags are backed by acknowledgements that arrived. */
  ghost predicate PendingOk(ps: PendingSend, id: MsgId, t: Task, arrivals: seq<Arrival>) {
    && t.phase.Transfer? && ps.total == SegmentsOf(t) && |ps.acked| == ps.total
    && forall i: u16 :: i < ps.total && ps.acked[i] ==> AckArrived(arrivals, id, i)
  }

  ghost predicate SenderInv(tx: Sender, arrivals: seq<Arrival>) {
    && (forall id :: id in tx.tasks ==> id < tx.nextId && |tx.tasks[id].message| <= MAX_MESSAGE_SIZE)
    && (forall id :: id in tx.pending ==> id in tx.tasks && PendingOk(tx.pending[id], id, tx.tasks[id], arrivals))
    && (forall id :: id in tx.tasks && tx.tasks[id].phase.Transfer? ==> id in tx.pending)
    && (forall id :: id in tx.tasks && Succeeded(tx.tasks[id]) ==>
          AllAcksArrived(arrivals, id, SegmentsOf(tx.tasks[id])))
  }

  /** The packet is segment `i` of the message of task `t`. */
  predicate IsSegmentOf(packet: bytes, id: MsgId, t: Task, i: u16) {
    i < SegmentsOf(t) && i * FRAGMENT_SIZE <= |t.message| && packet == DataPacket(id, t.message, i)
  }

  /** DATA packets carry segments of a message this node sends; ACKs answer segments it received. */
  ghost predicate SentOk(p: Sent, tasks: map<MsgId, Task>, arrivals: seq<Arrival>) {
    match Decode(p.packet)
    case None => true
    case Some(h) =>
      && (h.pktType.Data? ==>
            h.msgId in tasks && tasks[h.msgId].dest == p.dst && IsSegmentOf(p.packet, h.msgId, tasks[h.msgId], h.seqNo))
      && (h.pktType.Ack? ==> IndexArrived(arrivals, (h.msgId, p.dst), h.seqNo))
  }

  ghost predicate AllSentOk(sent: seq<Sent>, tasks: map<MsgId, Task>, arrivals: seq<Arrival>) {
    forall n :: 0 <= n < |sent| ==> SentOk(sent[n], tasks, arrivals)
  }

  ghost predicate NodeInv(s: Session) {
    && ReceiverInv(s.rx, s.arrivals)
    && SenderInv(s.tx, s.arrivals)
    && AllSentOk(s.sent, s.tx.tasks, s.arrivals)
  }

  // ---------------------------------------------------------------- packets

  /** The receiver accepts a segment packet iff the message is admitted, and reads it back exactly. */
  lemma ParseOfDataPacket(id: MsgId, message: bytes, i: u16)
    requires |message| <= MAX_MESSAGE_SIZE && i < SegmentCount(|message|) && i * FRAGMENT_SIZE <= |message|
    ensures ParseData(DataPacket(id, message, i)) ==
            if Admitted(SegmentCount(|message|)) then Some(Segment(id, i, SegmentCount(|message|), Slice(message, i))) else None
    ensures Decode(DataPacket(id, message, i)) == Some(DataHeader(id, i, SegmentCount(|message|), |Slice(message, i)|))
  {
    var h := DataHeader(id, i, SegmentCount(|message|), |Slice(message, i)|);
    DecodeOfEncoded(h, Slice(message, i));
    assert DataPacket(id, message, i)[HEADER_SIZE..] == Slice(message, i);
  }

  lemma DecodeOfControl(h: SegmentHeader)
    ensures Decode(Encoded(h)) == Some(h)
  {
    DecodeOfEncoded(h, []);
    assert Encoded(h) + [] == Encoded(h);
  }

  // ---------------------------------------------------------------- frame lemmas

  lemma AcksGrow(arrivals: seq<Arrival>, a: Arrival, id: MsgId, i: u16)
    requires AckArrived(arrivals, id, i)
    ensures AckArrived(arrivals + [a], id, i)
  {
    var n :| 0 <= n < |arrivals| && IsAck(arrivals[n].packet, id, i);
    assert (arrivals + [a])[n] == arrivals[n];
  }

  lemma SenderGrows(tx: Sender, arrivals: seq<Arrival>, a: Arrival)
    requires SenderInv(tx, arrivals)
    ensures SenderInv(tx, arrivals + [a])
  {
    forall id: MsgId, i: u16 | AckArrived(arrivals, id, i)
      ensures AckArrived(arrivals + [a], id, i)
    {
      AcksGrow(arrivals, a, id, i);
    }
  }

  lemma IndexGrows(arrivals: seq<Arrival>, a: Arrival, k: BufferKey, i: nat)
    requires IndexArrived(arrivals, k, i)
    ensures IndexArrived(arrivals + [a], k, i)
  {
    var n :| 0 <= n < |arrivals| && SegmentFor(arrivals[n], k).Some? && SegmentFor(arrivals[n], k).value.index == i;
    assert (arrivals + [a])[n] == arrivals[n];
  }

  lemma SentGrows(sent: seq<Sent>, tasks: map<MsgId, Task>, arrivals: seq<Arrival>, a: Arrival)
    requires AllSentOk(sent, tasks, arrivals)
    ensures AllSentOk(sent, tasks, arrivals + [a])
  {
    forall n | 0 <= n < |sent|
      ensures SentOk(sent[n], tasks, arrivals + [a])
    {
      var h := Decode(sent[n].packet);
      if h.Some? && h.value.pktType.Ack? {
        IndexGrows(arrivals, a, (h.value.msgId, sent[n].dst), h.value.seqNo);
      }
    }
  }

  /** Changing phases, or adding a task under a new id, keeps what was sent explained. */
  lemma SentSurvives(sent: seq<Sent>, tasks: map<MsgId, Task>, after: map<MsgId, Task>, arrivals: seq<Arrival>)
    requires AllSentOk(sent, tasks, arrivals)
    requires forall id :: id in tasks ==>
      id in after && after[id].dest == tasks[id].dest && after[id].message == tasks[id].message
    ensures AllSentOk(sent, after, arrivals)
  {
    forall n | 0 <= n < |sent|
      ensures SentOk(sent[n], after, arrivals)
    {
      assert SentOk(sent[n], tasks, arrivals);
    }
  }

  lemma SentMore(sent: seq<Sent>, p: Sent, tasks: map<MsgId, Task>, arrivals: seq<Arrival>)
    requires AllSentOk(sent, tasks, arrivals) && SentOk(p, tasks, arrivals)
    ensures AllSentOk(sent + [p], tasks, arrivals)
  {
  }

  // ---------------------------------------------------------------- each step keeps the node invariant

  /** Writing one more explained packet. */
  lemma WriteKeeps(s: Session, p: Sent)
    requires NodeInv(s) && SentOk(p, s.tx.tasks, s.arrivals)
    ensures NodeInv(s.(sent := s.sent + [p]))
  {
    SentMore(s.sent, p, s.tx.tasks, s.arrivals);
  }

  /** An arrival by itself, before the packet is acted on. */
  lemma ArrivalKeeps(s: Session, a: Arrival)
    requires NodeInv(s) && ParseData(a.packet).None?
    ensures NodeInv(s.(arrivals := s.arrivals + [a]))
  {
    SenderGrows(s.tx, s.arrivals, a);
    SentGrows(s.sent, s.tx.tasks, s.arrivals, a);
    OtherPacketKeeps(s.rx, s.arrivals, a);
  }

  lemma ReadKeeps(s: Session, src: Key, packet: bytes, now: Time, victim: BufferKey)
    requires NodeInv(s) && Enabled(s, Read(src, packet, now, victim))
    ensures NodeInv(OnPacket(s, src, packet, now, victim))
  {
    if ParseData(packet).Some? {
      DataKeeps(s, src, packet, now, victim);
    } else {
      var a := Arrival(src, packet, now);
      var read := s.(arrivals := s.arrivals + [a]);
      ArrivalKeeps(s, a);
      match Decode(packet)
      case None =>
      case Some(h) =>
        match h.pktType
        case Syn => SynKeeps(read, src, h.msgId, now);
        case Ack => AckKeeps(s, a, h.msgId, h.seqNo);
        case SynAck =>
        case Data =>
    }
  }

  lemma SynKeeps(s: Session, src: Key, id: MsgId, now: Time)
    requires NodeInv(s)
    ensures NodeInv(OnSyn(s, src, id, now))
  {
    DecodeOfControl(SynAckHeader(id));
    WriteKeeps(s, Sent(src, Encoded(SynAckHeader(id))));
  }

  lemma DataKeeps(s: Session, src: Key, packet: bytes, now: Time, victim: BufferKey)
    requires NodeInv(s) && Enabled(s, Read(src, packet, now, victim)) && ParseData(packet).Some?
    ensures NodeInv(OnPacket(s, src, packet, now, victim))
  {
    var a := Arrival(src, packet, now);
    var seg := ParseData(packet).value;
    SenderGrows(s.tx, s.arrivals, a);
    SentGrows(s.sent, s.tx.tasks, s.arrivals, a);
    SegmentKeeps(s.rx, s.arrivals, src, packet, seg, now, victim);
    DecodeOfControl(AckHeader(seg.msgId, seg.index));
    assert IndexArrived(s.arrivals + [a], (seg.msgId, src), seg.index) by {
      assert SegmentFor((s.arrivals + [a])[|s.arrivals|], (seg.msgId, src)) == Some(seg);
    }
    SentMore(s.sent, Sent(src, Encoded(AckHeader(seg.msgId, seg.index))), s.tx.tasks, s.arrivals + [a]);
  }

  lemma AckKeeps(s: Session, a: Arrival, id: MsgId, index: u16)
    requires SenderInv(s.tx, s.arrivals + [a]) && IsAck(a.packet, id, index)
    ensures SenderInv(OnAck(s.tx, id, index), s.arrivals + [a])
    ensures OnAck(s.tx, id, index).tasks == s.tx.tasks
  {
    assert (s.arrivals + [a])[|s.arrivals|] == a;
    assert AckArrived(s.arrivals + [a], id, index);
  }

  lemma BeginKeeps(s: Session, dest: Key, message: bytes)
    requires NodeInv(s) && Enabled(s, Begin(dest, message))
    ensures NodeInv(OnBegin(s, dest, message))
  {
    var id: MsgId := s.tx.nextId;
    var added := OnBegin(s, dest, message).(sent := s.sent);
    NewTaskKeeps(s, id, Task(dest, message, Handshake(0)), added.tx);
    SentSurvives(s.sent, s.tx.tasks, added.tx.tasks, s.arrivals);
    DecodeOfControl(SynHeader(id));
    WriteKeeps(added, SynPacket(dest, id));
  }

  lemma NewTaskKeeps(s: Session, id: MsgId, t: Task, after: Sender)
    requires SenderInv(s.tx, s.arrivals) && id == s.tx.nextId
    requires t.phase.Handshake? && |t.message| <= MAX_MESSAGE_SIZE
    requires after.nextId == id + 1 && after.tasks == s.tx.tasks[id := t] && after.pending == s.tx.pending
    ensures SenderInv(after, s.arrivals)
    ensures id !in s.tx.tasks
  {
  }

  /** One call of `send` moves on: its phase and its pending entry change together. */
  lemma MoveKeepsSender(tx: Sender, arrivals: seq<Arrival>, id: MsgId, t: Task, after: Sender)
    requires SenderInv(tx, arrivals) && id in tx.tasks && t == tx.tasks[id].(phase := t.phase)
    requires after.nextId == tx.nextId && after.tasks == tx.tasks[id := t]
    requires after.pending - {id} == tx.pending - {id}
    requires t.phase.Transfer? <==> id in after.pending
    requires t.phase.Transfer? ==> PendingOk(after.pending[id], id, t, arrivals)
    requires Succeeded(t) ==> AllAcksArrived(arrivals, id, SegmentsOf(t))
    ensures SenderInv(after, arrivals)
  {
    forall other | other in after.pending
      ensures other in after.tasks && PendingOk(after.pending[other], other, after.tasks[other], arrivals)
    {
      if other != id {
        assert other in after.pending - {id};
        assert other in tx.pending && after.pending[other] == tx.pending[other];
      }
    }
    forall other | other in after.tasks && after.tasks[other].phase.Transfer?
      ensures other in after.pending
    {
      if other != id {
        assert other in tx.pending - {id};
      }
    }
  }

  lemma MoveKeeps(s: Session, id: MsgId, phase: Phase, after: Session)
    requires NodeInv(s) && id in s.tx.tasks
    requires after.rx == s.rx && after.arrivals == s.arrivals && after.sent == s.sent
    requires after.tx.nextId == s.tx.nextId
    requires after.tx.tasks == s.tx.tasks[id := s.tx.tasks[id].(phase := phase)]
    requires after.tx.pending - {id} == s.tx.pending - {id}
    requires phase.Transfer? <==> id in after.tx.pending
    requires phase.Transfer? ==> PendingOk(after.tx.pending[id], id, after.tx.tasks[id], s.arrivals)
    requires Succeeded(after.tx.tasks[id]) ==> AllAcksArrived(s.arrivals, id, SegmentsOf(s.tx.tasks[id]))
    ensures NodeInv(after)
  {
    MoveKeepsSender(s.tx, s.arrivals, id, after.tx.tasks[id], after.tx);
    SentSurvives(s.sent, s.tx.tasks, after.tx.tasks, s.arrivals);
  }

  lemma HandshakeTimeoutKeeps(s: Session, id: MsgId)
    requires NodeInv(s) && InPhaseHandshake(s, id)
    ensures NodeInv(OnHandshakeTimeout(s, id))
  {
    var t := s.tx.tasks[id];
    var after := OnHandshakeTimeout(s, id);
    var moved := after.(sent := s.sent);
    MoveKeeps(s, id, after.tx.tasks[id].phase, moved);
    if t.phase.attempt + 1 < MAX_SYN_RETRIES {
      DecodeOfControl(SynHeader(id));
      WriteKeeps(moved, SynPacket(t.dest, id));
    }
  }

  lemma HandshakeDoneKeeps(s: Session, id: MsgId)
    requires NodeInv(s) && InPhaseHandshake(s, id)
    ensures NodeInv(OnHandshakeDone(s, id))
  {
    MoveKeeps(s, id, Transfer(0, 0), OnHandshakeDone(s, id));
  }

  /** The segment at the cursor is written, or skipped because it is acknowledged; the cursor moves on. */
  lemma TransmitEffect(s: Session, id: MsgId, i: u16, moved: Session)
    requires Enabled(s, Transmit(id)) && i == s.tx.tasks[id].phase.cursor && |s.tx.tasks[id].message| <= MAX_MESSAGE_SIZE
    requires moved == s.(tx := WithPhase(s.tx, id, Transfer(s.tx.tasks[id].phase.attempt, i + 1)))
    ensures i < SegmentsOf(s.tx.tasks[id]) && i * FRAGMENT_SIZE <= |s.tx.tasks[id].message|
    ensures var t := s.tx.tasks[id];
            OnTransmit(s, id) == moved || OnTransmit(s, id) == moved.(sent := moved.sent + [Sent(t.dest, DataPacket(id, t.message, i))])
  {
    CastsAreExact(|s.tx.tasks[id].message|);
  }

  lemma TransmitKeeps(s: Session, id: MsgId)
    requires NodeInv(s) && Enabled(s, Transmit(id))
    ensures NodeInv(OnTransmit(s, id))
  {
    var t := s.tx.tasks[id];
    var i: u16 := t.phase.cursor;
    var phase := Transfer(t.phase.attempt, i + 1);
    var moved := s.(tx := WithPhase(s.tx, id, phase));
    TransmitEffect(s, id, i, moved);
    PhaseKeeps(s, id, phase, moved);
    SegmentIsExplained(moved, id, i);
    WriteKeeps(moved, Sent(t.dest, DataPacket(id, t.message, i)));
  }

  /** Within the transfer only the phase changes. */
  lemma PhaseKeeps(s: Session, id: MsgId, phase: Phase, moved: Session)
    requires NodeInv(s) && InPhaseTransfer(s, id) && phase.Transfer? && moved == s.(tx := WithPhase(s.tx, id, phase))
    ensures NodeInv(moved)
  {
    MoveKeeps(s, id, phase, moved);
  }

  lemma SegmentIsExplained(s: Session, id: MsgId, i: u16)
    requires NodeInv(s) && id in s.tx.tasks && i < SegmentsOf(s.tx.tasks[id])
    requires i * FRAGMENT_SIZE <= |s.tx.tasks[id].message|
    ensures SentOk(Sent(s.tx.tasks[id].dest, DataPacket(id, s.tx.tasks[id].message, i)), s.tx.tasks, s.arrivals)
  {
    ParseOfDataPacket(id, s.tx.tasks[id].message, i);
  }

  lemma WokenDone(s: Session, id: MsgId)
    requires NodeInv(s) && Enabled(s, Wake(id)) && id in s.tx.pending && AllAcked(s.tx.pending[id].acked)
    ensures NodeInv(OnWake(s, id))
  {
    assert PendingOk(s.tx.pending[id], id, s.tx.tasks[id], s.arrivals);
    MoveKeeps(s, id, Finished(Ok(id)), OnWake(s, id));
  }

  lemma WokenEarly(s: Session, id: MsgId)
    requires NodeInv(s) && Enabled(s, Wake(id)) && id in s.tx.pending && !AllAcked(s.tx.pending[id].acked)
    ensures NodeInv(OnWake(s, id))
  {
    var after := OnWake(s, id);
    assert after.tx.tasks == s.tx.tasks[id := s.tx.tasks[id].(phase := s.tx.tasks[id].phase)];
    MoveKeeps(s, id, s.tx.tasks[id].phase, after);
  }

  /** A woken `send` finds its pending entry: the branch for a missing one is never taken. */
  lemma WakeKeeps(s: Session, id: MsgId)
    requires NodeInv(s) && Enabled(s, Wake(id))
    ensures NodeInv(OnWake(s, id))
    ensures id in s.tx.pending
  {
    if AllAcked(s.tx.pending[id].acked) {
      WokenDone(s, id);
    } else {
      WokenEarly(s, id);
    }
  }

  lemma RetryEffect(s: Session, id: MsgId, attempt: nat)
    requires InPhaseTransfer(s, id) && attempt == s.tx.tasks[id].phase.attempt + 1 && attempt < MAX_RETRIES
    ensures OnTransferTimeout(s, id) == s.(tx := WithPhase(s.tx, id, Transfer(attempt, 0)))
  {
  }

  lemma RetryKeeps(s: Session, id: MsgId)
    requires NodeInv(s) && InPhaseTransfer(s, id) && s.tx.tasks[id].phase.attempt + 1 < MAX_RETRIES
    ensures NodeInv(OnTransferTimeout(s, id))
  {
    var attempt := s.tx.tasks[id].phase.attempt + 1;
    RetryEffect(s, id, attempt);
    PhaseKeeps(s, id, Transfer(attempt, 0), s.(tx := WithPhase(s.tx, id, Transfer(attempt, 0))));
  }

  lemma GivingUpKeeps(s: Session, id: MsgId)
    requires NodeInv(s) && InPhaseTransfer(s, id) && s.tx.tasks[id].phase.attempt + 1 >= MAX_RETRIES
    ensures NodeInv(OnTransferTimeout(s, id))
  {
    MoveKeeps(s, id, Finished(Err(MaxRetriesExceeded)), OnTransferTimeout(s, id));
  }

  lemma TransferTimeoutKeeps(s: Session, id: MsgId)
    requires NodeInv(s) && Enabled(s, TransferTimeout(id))
    ensures NodeInv(OnTransferTimeout(s, id))
  {
    if s.tx.tasks[id].phase.attempt + 1 < MAX_RETRIES {
      RetryKeeps(s, id);
    } else {
      GivingUpKeeps(s, id);
    }
  }

  /** Every step of a node keeps its invariant. */
  lemma StepKeeps(s: Session, a: Action)
    requires NodeInv(s) && Enabled(s, a)
    ensures NodeInv(Apply(s, a))
  {
    match a
    case Read(src, packet, now, victim) => ReadKeeps(s, src, packet, now, victim);
    case Begin(dest, message) => BeginKeeps(s, dest, message);
    case HandshakeTimeout(id) => HandshakeTimeoutKeeps(s, id);
    case HandshakeDone(id) => HandshakeDoneKeeps(s, id);
    case Transmit(id) => TransmitKeeps(s, id);
    case Wake(id) => WakeKeeps(s, id);
    case TransferTimeout(id) => TransferTimeoutKeeps(s, id);
    case Cleanup(now) => CleanupKeeps(s.rx, s.arrivals, now);
  }

  /** Histories only grow, and only a read adds an arrival. */
  lemma HistoriesGrow(s: Session, a: Action)
    requires Enabled(s, a) && MessagesFit(s)
    ensures s.sent <= Apply(s, a).sent
    ensures Apply(s, a).arrivals == if a.Read? then s.arrivals + [Arrival(a.src, a.packet, a.now)] else s.arrivals
  {
  }

  // ---------------------------------------------------------------- the mesh

  type Mesh = map<Key, Session>

  predicate WasSent(m: Mesh, src: Key, dst: Key, packet: bytes)
    requires src in m
  {
    exists n :: 0 <= n < |m[src].sent| && m[src].sent[n] == Sent(dst, packet)
  }

  /** Sources are authentic: what arrives from a node of the mesh was sent by it to the reader. */
  predicate CanHappen(m: Mesh, n: Key, a: Action)
    requires n in m
  {
    && Enabled(m[n], a)
    && (a.Read? && a.src in m ==> WasSent(m, a.src, n, a.packet))
  }

  ghost predicate Next(m: Mesh, after: Mesh) {
    exists n: Key, a: Action :: n in m && CanHappen(m, n, a) && MessagesFit(m[n]) && after == m[n := Apply(m[n], a)]
  }

  ghost predicate Initial(m: Mesh) {
    forall n :: n in m ==> m[n] == INITIAL
  }

  ghost predicate IsRun(run: seq<Mesh>) {
    && |run| > 0 && Initial(run[0])
    && forall i :: 0 <= i < |run| - 1 ==> Next(run[i], run[i + 1])
  }

  ghost predicate Authentic(m: Mesh) {
    forall n, i :: n in m && 0 <= i < |m[n].arrivals| && m[n].arrivals[i].src in m ==>
      WasSent(m, m[n].arrivals[i].src, n, m[n].arrivals[i].packet)
  }

  ghost predicate MeshInv(m: Mesh) {
    (forall n :: n in m ==> NodeInv(m[n])) && Authentic(m)
  }

  lemma SentStays(m: Mesh, n: Key, s: Session, src: Key, dst: Key, packet: bytes)
    requires n in m && src in m && m[n].sent <= s.sent && WasSent(m, src, dst, packet)
    ensures WasSent(m[n := s], src, dst, packet)
  {
    var i :| 0 <= i < |m[src].sent| && m[src].sent[i] == Sent(dst, packet);
    assert m[n := s][src].sent[i] == Sent(dst, packet);
  }

  lemma NodeSteps(s: Session, a: Action, after: Session)
    requires NodeInv(s) && Enabled(s, a) && (MessagesFit(s) ==> after == Apply(s, a))
    ensures MessagesFit(s) && NodeInv(after)
  {
    assert SenderInv(s.tx, s.arrivals);
    StepKeeps(s, a);
  }

  lemma OneNodeChanges(m: Mesh, n: Key, s: Session, after: Mesh)
    requires (forall k :: k in m ==> NodeInv(m[k])) && NodeInv(s) && after == m[n := s]
    ensures forall k :: k in after ==> NodeInv(after[k])
  {
  }

  lemma NextKeeps(m: Mesh, after: Mesh)
    requires MeshInv(m) && Next(m, after)
    ensures MeshInv(after)
  {
    var n: Key, a: Action :| n in m && CanHappen(m, n, a) && MessagesFit(m[n]) && after == m[n := Apply(m[n], a)];
    NodeSteps(m[n], a, after[n]);
    OneNodeChanges(m, n, after[n], after);
    StaysAuthentic(m, n, a);
  }

  lemma StaysAuthentic(m: Mesh, n: Key, a: Action)
    requires Authentic(m) && n in m && CanHappen(m, n, a) && MessagesFit(m[n])
    ensures Authentic(m[n := Apply(m[n], a)])
  {
    var s := Apply(m[n], a);
    var after := m[n := s];
    HistoriesGrow(m[n], a);
    forall d, i | d in after && 0 <= i < |after[d].arrivals| && after[d].arrivals[i].src in after
      ensures WasSent(after, after[d].arrivals[i].src, d, after[d].arrivals[i].packet)
    {
      var arrival := after[d].arrivals[i];
      assert WasSent(m, arrival.src, d, arrival.packet) by {
        if d == n && i == |m[n].arrivals| {
          assert arrival == Arrival(a.src, a.packet, a.now);
        } else {
          assert arrival == m[d].arrivals[i];
        }
      }
      SentStays(m, n, s, arrival.src, d, arrival.packet);
    }
  }

  lemma InitialInv()
    ensures NodeInv(INITIAL)
  {
    forall k: BufferKey, i: nat
      ensures Deliveries([], k, i) + Slot(map[], k, i) <= Copies([], k, i)
    {
    }
  }

  lemma {:induction false} RunsKeepInvariant(run: seq<Mesh>, i: nat)
    requires IsRun(run) && i < |run|
    ensures MeshInv(run[i])
  {
    InitialInv();
    if i > 0 {
      RunsKeepInvariant(run, i - 1);
      NextKeeps(run[i - 1], run[i]);
    }
  }

  // ---------------------------------------------------------------- what a run guarantees

  /** An accepted segment from a node of the mesh is a slice of a message that node sends to the reader. */
  lemma ArrivedSegmentIsGenuine(m: Mesh, n: Key, k: BufferKey, i: nat)
    requires MeshInv(m) && n in m && k.1 in m && i < |m[n].arrivals| && SegmentFor(m[n].arrivals[i], k).Some?
    ensures k.0 in m[k.1].tx.tasks
    ensures var t := m[k.1].tx.tasks[k.0];
            var seg := SegmentFor(m[n].arrivals[i], k).value;
            && t.dest == n && |t.message| <= MAX_MESSAGE_SIZE && Admitted(SegmentsOf(t))
            && seg.total == SegmentsOf(t) && seg.index < seg.total
            && seg.index * FRAGMENT_SIZE <= |t.message| && seg.payload == Slice(t.message, seg.index)
  {
    var a := m[n].arrivals[i];
    var src := m[k.1];
    assert WasSent(m, a.src, n, a.packet);
    var j :| 0 <= j < |src.sent| && src.sent[j] == Sent(n, a.packet);
    assert SentOk(src.sent[j], src.tx.tasks, src.arrivals);
    var h := Decode(a.packet).value;
    ParseOfDataPacket(k.0, src.tx.tasks[k.0].message, h.seqNo);
  }

  /** Slots filled from a node of the mesh hold the matching slices of one message. */
  lemma SlotsAreGenuine(m: Mesh, n: Key, k: BufferKey, segments: seq<Option<bytes>>)
    requires MeshInv(m) && n in m && k.1 in m && FromArrivals(m[n].arrivals, k, segments)
    ensures k.0 in m[k.1].tx.tasks
    ensures var t := m[k.1].tx.tasks[k.0];
            && t.dest == n && |t.message| <= MAX_MESSAGE_SIZE && |segments| == SegmentsOf(t)
            && forall i: nat :: i < |segments| && segments[i].Some? ==>
                 i * FRAGMENT_SIZE <= |t.message| && segments[i] == Some(Slice(t.message, i))
  {
    var arr := m[n].arrivals;
    var j :| 0 <= j < |arr| && SegmentFor(arr[j], k).Some? && SegmentFor(arr[j], k).value.total == |segments|;
    ArrivedSegmentIsGenuine(m, n, k, j);
    var t := m[k.1].tx.tasks[k.0];
    forall i: nat | i < |segments| && segments[i].Some?
      ensures i * FRAGMENT_SIZE <= |t.message| && segments[i] == Some(Slice(t.message, i))
    {
      assert SlotArrived(arr, k, i, segments[i].value);
      var l :| 0 <= l < |arr| && SegmentFor(arr[l], k).Some?
        && SegmentFor(arr[l], k).value.index == i && SegmentFor(arr[l], k).value.payload == segments[i].value;
      ArrivedSegmentIsGenuine(m, n, k, l);
    }
  }

  lemma DeliveryIsGenuine(m: Mesh, n: Key, d: Delivery)
    requires MeshInv(m) && n in m && d in m[n].rx.delivered && d.src in m
    ensures d.msgId in m[d.src].tx.tasks
    ensures var t := m[d.src].tx.tasks[d.msgId];
            t.dest == n && |d.segments| == SegmentsOf(t) && Joined(d.segments) == t.message
  {
    DeliveryCameFromArrivals(m, n, d);
    SlotsAreGenuine(m, n, KeyOf(d), d.segments);
    var message := m[d.src].tx.tasks[d.msgId].message;
    assert HoldsSlices(d.segments, message) by {
      forall i: nat | i < |d.segments|
        ensures i * FRAGMENT_SIZE <= |message| && d.segments[i] == Some(Slice(message, i))
      {
        assert d.segments[i].Some?;
      }
    }
    FragmentReassemble(message, d.segments);
  }

  lemma DeliveryCameFromArrivals(m: Mesh, n: Key, d: Delivery)
    requires MeshInv(m) && n in m && d in m[n].rx.delivered
    ensures DeliveryOk(d, m[n].arrivals)
  {
    var j :| 0 <= j < |m[n].rx.delivered| && m[n].rx.delivered[j] == d;
    assert NodeInv(m[n]);
  }

  /**
   * Integrity. Whatever is lost, duplicated, reordered, evicted or aged out, and
   * whatever keys outside the mesh send, what a node hands to `recv` under a
   * source of the mesh is one whole message that source passed to `send` for it.
   */
  lemma Integrity(run: seq<Mesh>, i: nat, n: Key, d: Delivery)
    requires IsRun(run) && i < |run| && n in run[i] && d in run[i][n].rx.delivered && d.src in run[i]
    ensures d.msgId in run[i][d.src].tx.tasks
    ensures run[i][d.src].tx.tasks[d.msgId].dest == n
    ensures Joined(d.segments) == run[i][d.src].tx.tasks[d.msgId].message
  {
    RunsKeepInvariant(run, i);
    DeliveryIsGenuine(run[i], n, d);
  }

  /** The buffer holds slices of the message its key names, for a source of the mesh. */
  ghost predicate BufferIsGenuine(m: Mesh, n: Key, k: BufferKey)
    requires n in m && k in m[n].rx.buffers && k.1 in m
  {
    var b := m[n].rx.buffers[k];
    && k.0 in m[k.1].tx.tasks
    && var t := m[k.1].tx.tasks[k.0];
       && t.dest == n && |b.segments| == b.total == SegmentsOf(t)
       && forall j: nat :: j < |b.segments| && b.segments[j].Some? ==>
            j * FRAGMENT_SIZE <= |t.message| && b.segments[j] == Some(Slice(t.message, j))
  }

  /** The live buffers: never more than 256, each filled slot the matching slice, `received` their number. */
  lemma BuffersAreGenuine(run: seq<Mesh>, i: nat, n: Key)
    requires IsRun(run) && i < |run| && n in run[i]
    ensures |run[i][n].rx.buffers| <= 256
    ensures forall k :: k in run[i][n].rx.buffers ==>
      run[i][n].rx.buffers[k].received == Filled(run[i][n].rx.buffers[k].segments) < run[i][n].rx.buffers[k].total
    ensures forall k :: k in run[i][n].rx.buffers && k.1 in run[i] ==> BufferIsGenuine(run[i], n, k)
  {
    RunsKeepInvariant(run, i);
    forall k | k in run[i][n].rx.buffers && k.1 in run[i]
      ensures BufferIsGenuine(run[i], n, k)
    {
      SlotsAreGenuine(run[i], n, k, run[i][n].rx.buffers[k].segments);
    }
  }

  /**
   * A message is delivered at most as often as copies of each one of its segments
   * arrived, eviction and ageing included.
   */
  lemma DeliveryCountBound(run: seq<Mesh>, i: nat, n: Key, k: BufferKey, segment: nat)
    requires IsRun(run) && i < |run| && n in run[i] && k.1 in run[i] && k.0 in run[i][k.1].tx.tasks
    requires segment < SegmentsOf(run[i][k.1].tx.tasks[k.0])
    ensures Deliveries(run[i][n].rx.delivered, k, 0) <= Copies(run[i][n].arrivals, k, segment)
  {
    var m := run[i];
    RunsKeepInvariant(run, i);
    var rx := m[n].rx;
    forall j | 0 <= j < |rx.delivered| && KeyOf(rx.delivered[j]) == k
      ensures |rx.delivered[j].segments| == SegmentsOf(m[k.1].tx.tasks[k.0])
    {
      DeliveryIsGenuine(m, n, rx.delivered[j]);
    }
    SameCount(rx.delivered, k, segment);
    assert Deliveries(rx.delivered, k, segment) + Slot(rx.buffers, k, segment) <= Copies(m[n].arrivals, k, segment);
  }

  lemma {:induction false} SameCount(delivered: seq<Delivery>, k: BufferKey, i: nat)
    requires forall j :: 0 <= j < |delivered| && KeyOf(delivered[j]) == k ==> i < |delivered[j].segments|
    ensures Deliveries(delivered, k, 0) == Deliveries(delivered, k, i)
  {
    if delivered != [] {
      SameCount(delivered[..|delivered| - 1], k, i);
    }
  }

  /** An ACK of this very segment reached the node from a key outside the mesh. */
  ghost predicate ForeignAck(m: Mesh, n: Key, id: MsgId, i: u16)
    requires n in m
  {
    exists j :: 0 <= j < |m[n].arrivals| && IsAck(m[n].arrivals[j].packet, id, i) && m[n].arrivals[j].src !in m
  }

  /** The destination's reader accepted this very segment. */
  ghost predicate Reached(m: Mesh, n: Key, id: MsgId, i: u16)
    requires n in m && id in m[n].tx.tasks
  {
    var dest := m[n].tx.tasks[id].dest;
    dest in m && IndexArrived(m[dest].arrivals, (id, n), i)
  }

  /** One acknowledgement from a node of the mesh means the destination accepted that very segment. */
  lemma AckMeansReached(m: Mesh, n: Key, id: MsgId, i: u16, j: nat)
    requires MeshInv(m) && n in m && j < |m[n].arrivals|
    requires IsAck(m[n].arrivals[j].packet, id, i) && m[n].arrivals[j].src in m
    ensures id in m[n].tx.tasks && Admitted(SegmentsOf(m[n].tx.tasks[id])) && Reached(m, n, id, i)
  {
    var a := m[n].arrivals[j];
    assert WasSent(m, a.src, n, a.packet);
    var peer := m[a.src];
    var l :| 0 <= l < |peer.sent| && peer.sent[l] == Sent(n, a.packet);
    assert SentOk(peer.sent[l], peer.tx.tasks, peer.arrivals);
    assert IndexArrived(peer.arrivals, (id, n), i);
    var q :| 0 <= q < |peer.arrivals| && SegmentFor(peer.arrivals[q], (id, n)).Some? && SegmentFor(peer.arrivals[q], (id, n)).value.index == i;
    ArrivedSegmentIsGenuine(m, a.src, (id, n), q);
  }

  /** Every segment of a message whose `send` succeeded reached its destination, or a foreign key acknowledged it. */
  lemma SuccessIsExplained(m: Mesh, n: Key, id: MsgId, i: u16)
    requires MeshInv(m) && n in m && id in m[n].tx.tasks && Succeeded(m[n].tx.tasks[id]) && i < SegmentsOf(m[n].tx.tasks[id])
    ensures (Reached(m, n, id, i) && Admitted(SegmentsOf(m[n].tx.tasks[id]))) || ForeignAck(m, n, id, i)
  {
    assert AllAcksArrived(m[n].arrivals, id, SegmentsOf(m[n].tx.tasks[id]));
    assert AckArrived(m[n].arrivals, id, i);
    var j :| 0 <= j < |m[n].arrivals| && IsAck(m[n].arrivals[j].packet, id, i);
    if m[n].arrivals[j].src in m {
      AckMeansReached(m, n, id, i, j);
    }
  }

  /** What `send` returning Ok says about the destination. */
  ghost predicate Confirmed(m: Mesh, n: Key, id: MsgId, t: Task) {
    && t.dest in m
    && (forall j: u16 :: j < SegmentsOf(t) ==> IndexArrived(m[t.dest].arrivals, (id, n), j))
    && ((id, n) !in m[t.dest].rx.dropped ==> Deliveries(m[t.dest].rx.delivered, (id, n), 0) > 0)
  }

  lemma AcceptedMeansDelivered(m: Mesh, n: Key, id: MsgId)
    requires MeshInv(m) && n in m && id in m[n].tx.tasks && m[n].tx.tasks[id].dest in m
    requires forall j: u16 :: j < SegmentsOf(m[n].tx.tasks[id]) ==> IndexArrived(m[m[n].tx.tasks[id].dest].arrivals, (id, n), j)
    requires (id, n) !in m[m[n].tx.tasks[id].dest].rx.dropped
    ensures Deliveries(m[m[n].tx.tasks[id].dest].rx.delivered, (id, n), 0) > 0
  {
    var t := m[n].tx.tasks[id];
    var peer := m[t.dest];
    CastsAreExact(|t.message|);
    forall q | 0 <= q < |peer.arrivals| && SegmentFor(peer.arrivals[q], (id, n)).Some?
      ensures SegmentFor(peer.arrivals[q], (id, n)).value.total == SegmentsOf(t)
    {
      ArrivedSegmentIsGenuine(m, t.dest, (id, n), q);
    }
    AllArrivedMeansDelivered(peer.rx, peer.arrivals, (id, n), SegmentsOf(t));
  }

  /**
   * Acknowledgement soundness, as far as it goes. The reader takes an ACK from
   * any source. So when `send` has returned Ok, each single segment reached the
   * destination's reader, or was acknowledged by a key outside the mesh.
   */
  lemma AckSoundness(run: seq<Mesh>, i: nat, n: Key, id: MsgId)
    requires IsRun(run) && i < |run| && n in run[i]
    requires id in run[i][n].tx.tasks && Succeeded(run[i][n].tx.tasks[id])
    ensures forall j: u16 :: j < SegmentsOf(run[i][n].tx.tasks[id]) ==>
      Reached(run[i], n, id, j) || ForeignAck(run[i], n, id, j)
    ensures (forall j: u16 :: j < SegmentsOf(run[i][n].tx.tasks[id]) ==> !ForeignAck(run[i], n, id, j)) ==>
      Confirmed(run[i], n, id, run[i][n].tx.tasks[id])
  {
    var m := run[i];
    RunsKeepInvariant(run, i);
    var t := m[n].tx.tasks[id];
    forall j: u16 | j < SegmentsOf(t)
      ensures Reached(m, n, id, j) || ForeignAck(m, n, id, j)
    {
      SuccessIsExplained(m, n, id, j);
    }
    if forall j: u16 :: j < SegmentsOf(t) ==> !ForeignAck(m, n, id, j) {
      CastsAreExact(|t.message|);
      assert Reached(m, n, id, 0);
      forall j: u16 | j < SegmentsOf(t)
        ensures IndexArrived(m[t.dest].arrivals, (id, n), j)
      {
        assert Reached(m, n, id, j);
      }
      if (id, n) !in m[t.dest].rx.dropped {
        AcceptedMeansDelivered(m, n, id);
      }
    }
  }

  /**
   * No receiver admits the last 8192 lengths that `send` accepts. Such a `send`
   * returns Ok only if a key outside the mesh acknowledged every single segment.
   */
  lemma OversizeNeedsForeignAcks(run: seq<Mesh>, i: nat, n: Key, id: MsgId, j: u16)
    requires IsRun(run) && i < |run| && n in run[i] && id in run[i][n].tx.tasks
    requires |run[i][n].tx.tasks[id].message| > MAX_MESSAGE_SIZE - 8192 && j < SegmentsOf(run[i][n].tx.tasks[id])
    ensures Succeeded(run[i][n].tx.tasks[id]) ==> ForeignAck(run[i], n, id, j)
  {
    RunsKeepInvariant(run, i);
    AdmissionBound(|run[i][n].tx.tasks[id].message|);
    if Succeeded(run[i][n].tx.tasks[id]) {
      SuccessIsExplained(run[i], n, id, j);
    }
  }
}
