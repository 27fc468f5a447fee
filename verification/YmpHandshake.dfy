// What a handshake is worth: no segment is written before the destination has
// answered, and no SYN without a lookup of the path.
module YmpHandshake {
  import opened Bytes
  import opened Wrappers
  import opened YmpWire
  import opened YmpSegments
  import opened YmpState
  import opened YmpMesh
  import opened YmpWritten

  predicate IsSynAckFrom(a: Arrival, id: MsgId, src: Key) {
    && a.src == src && Decode(a.packet).Some?
    && Decode(a.packet).value.pktType.SynAck? && Decode(a.packet).value.msgId == id
  }

  /** A SYN-ACK of this message has come from this source. */
  ghost predicate Answered(arrivals: seq<Arrival>, id: MsgId, src: Key) {
    exists n :: 0 <= n < |arrivals| && IsSynAckFrom(arrivals[n], id, src)
  }

  predicate IsPastHandshake(phase: Phase) {
    phase.Transfer? || (phase.Finished? && phase.result != Err(Unreachable))
  }

  /** A call waits for an answer of its destination just while in its handshake, and is past that only with one. */
  ghost predicate TaskGreeted(tx: Sender, arrivals: seq<Arrival>, id: MsgId)
    requires id in tx.tasks
  {
    var t := tx.tasks[id];
    && (id in tx.syns ==> tx.syns[id].expectedSrc == t.dest && (tx.syns[id].notified ==> Answered(arrivals, id, t.dest)))
    && (IsPastHandshake(t.phase) ==> Answered(arrivals, id, t.dest))
    && (id in tx.syns <==> t.phase.Handshake?)
  }

  ghost predicate GreetInv(tx: Sender, arrivals: seq<Arrival>) {
    && (forall id :: id in tx.tasks ==> TaskGreeted(tx, arrivals, id))
    && (forall id :: id in tx.syns ==> id in tx.tasks)
  }

  /** How many SYNs have been written to `k`. */
  function SynsTo(sent: seq<Sent>, k: Key): nat {
    if sent == [] then 0
    else
      var p := sent[|sent| - 1];
      SynsTo(sent[..|sent| - 1], k) + if p.dst == k && IsSyn(p) then 1 else 0
  }

  /** At least one lookup per SYN. */
  ghost predicate LooksUp(s: Session) {
    forall k :: SynsTo(s.sent, k) <= multiset(s.lookups)[k]
  }

  // ---------------------------------------------------------------- answers

  lemma AnswersStay(arrivals: seq<Arrival>, a: Arrival, id: MsgId, src: Key)
    requires Answered(arrivals, id, src)
    ensures Answered(arrivals + [a], id, src)
  {
    var n :| 0 <= n < |arrivals| && IsSynAckFrom(arrivals[n], id, src);
    assert (arrivals + [a])[n] == arrivals[n];
  }

  lemma ArrivalKeepsGreeted(tx: Sender, arrivals: seq<Arrival>, a: Arrival)
    requires GreetInv(tx, arrivals)
    ensures GreetInv(tx, arrivals + [a])
  {
    forall id | id in tx.tasks
      ensures TaskGreeted(tx, arrivals + [a], id)
    {
      if Answered(arrivals, id, tx.tasks[id].dest) {
        AnswersStay(arrivals, a, id, tx.tasks[id].dest);
      }
    }
  }

  lemma SynAckGreets(tx: Sender, arrivals: seq<Arrival>, a: Arrival, id: MsgId)
    requires GreetInv(tx, arrivals + [a]) && IsSynAckFrom(a, id, a.src)
    ensures GreetInv(OnSynAck(tx, a.src, id), arrivals + [a])
  {
    assert (arrivals + [a])[|arrivals|] == a;
  }

  lemma AckGreets(tx: Sender, arrivals: seq<Arrival>, id: MsgId, index: u16)
    requires GreetInv(tx, arrivals)
    ensures GreetInv(OnAck(tx, id, index), arrivals)
  {
  }

  lemma ReadGreets(s: Session, src: Key, packet: bytes, now: Time, victim: BufferKey)
    requires GreetInv(s.tx, s.arrivals)
    ensures GreetInv(OnPacket(s, src, packet, now, victim).tx, OnPacket(s, src, packet, now, victim).arrivals)
  {
    var a := Arrival(src, packet, now);
    ArrivalKeepsGreeted(s.tx, s.arrivals, a);
    match Decode(packet)
    case None =>
    case Some(h) =>
      match h.pktType
      case Syn =>
      case Data =>
      case SynAck => SynAckGreets(s.tx, s.arrivals, a, h.msgId);
      case Ack => AckGreets(s.tx, s.arrivals + [a], h.msgId, h.seqNo);
  }

  /** One call moves on; what it awaits goes with its handshake. */
  lemma MoveGreets(tx: Sender, arrivals: seq<Arrival>, id: MsgId, phase: Phase, after: Sender)
    requires GreetInv(tx, arrivals) && id in tx.tasks
    requires after.tasks == tx.tasks[id := tx.tasks[id].(phase := phase)]
    requires after.syns == if phase.Handshake? then tx.syns else tx.syns - {id}
    requires phase.Handshake? ==> tx.tasks[id].phase.Handshake?
    requires IsPastHandshake(phase) ==> Answered(arrivals, id, tx.tasks[id].dest)
    ensures GreetInv(after, arrivals)
  {
    forall other | other in after.tasks
      ensures TaskGreeted(after, arrivals, other)
    {
      assert TaskGreeted(tx, arrivals, other);
    }
  }

  lemma BeginGreets(s: Session, dest: Key, message: bytes)
    requires GreetInv(s.tx, s.arrivals) && Enabled(s, Begin(dest, message))
    ensures GreetInv(OnBegin(s, dest, message).tx, s.arrivals)
  {
    var after := OnBegin(s, dest, message).tx;
    forall other | other in after.tasks
      ensures TaskGreeted(after, s.arrivals, other)
    {
      if other != s.tx.nextId {
        assert TaskGreeted(s.tx, s.arrivals, other);
      }
    }
  }

  lemma NotAwaited(tx: Sender, id: MsgId)
    requires id !in tx.syns
    ensures tx.syns - {id} == tx.syns
  {
  }

  lemma WakeGreets(s: Session, id: MsgId)
    requires GreetInv(s.tx, s.arrivals) && InPhaseTransfer(s, id)
    ensures GreetInv(OnWake(s, id).tx, s.arrivals)
  {
    assert TaskGreeted(s.tx, s.arrivals, id);
    NotAwaited(s.tx, id);
    var after := OnWake(s, id).tx;
    if after.tasks == s.tx.tasks {
      assert s.tx.tasks[id := s.tx.tasks[id].(phase := s.tx.tasks[id].phase)] == s.tx.tasks;
      MoveGreets(s.tx, s.arrivals, id, s.tx.tasks[id].phase, after);
    } else {
      MoveGreets(s.tx, s.arrivals, id, Finished(Ok(id)), after);
    }
  }

  lemma TransferGreets(s: Session, id: MsgId, after: Session, phase: Phase)
    requires GreetInv(s.tx, s.arrivals) && InPhaseTransfer(s, id)
    requires after.tx.tasks == s.tx.tasks[id := s.tx.tasks[id].(phase := phase)] && after.tx.syns == s.tx.syns && !phase.Handshake?
    ensures GreetInv(after.tx, s.arrivals)
  {
    assert TaskGreeted(s.tx, s.arrivals, id);
    NotAwaited(s.tx, id);
    MoveGreets(s.tx, s.arrivals, id, phase, after.tx);
  }

  lemma TimeoutGreets(s: Session, id: MsgId)
    requires GreetInv(s.tx, s.arrivals) && InPhaseHandshake(s, id)
    ensures GreetInv(OnHandshakeTimeout(s, id).tx, s.arrivals)
  {
    MoveGreets(s.tx, s.arrivals, id, OnHandshakeTimeout(s, id).tx.tasks[id].phase, OnHandshakeTimeout(s, id).tx);
  }

  lemma DoneGreets(s: Session, id: MsgId)
    requires GreetInv(s.tx, s.arrivals) && Enabled(s, HandshakeDone(id))
    ensures GreetInv(OnHandshakeDone(s, id).tx, s.arrivals)
  {
    assert TaskGreeted(s.tx, s.arrivals, id);
    MoveGreets(s.tx, s.arrivals, id, Transfer(0, 0), OnHandshakeDone(s, id).tx);
  }

  lemma TransmitGreets(s: Session, id: MsgId)
    requires GreetInv(s.tx, s.arrivals) && Enabled(s, Transmit(id)) && |s.tx.tasks[id].message| <= MAX_MESSAGE_SIZE
    ensures GreetInv(OnTransmit(s, id).tx, s.arrivals)
  {
    TransferGreets(s, id, OnTransmit(s, id), OnTransmit(s, id).tx.tasks[id].phase);
  }

  lemma StepGreets(s: Session, a: Action)
    requires GreetInv(s.tx, s.arrivals) && Enabled(s, a) && MessagesFit(s)
    ensures GreetInv(Apply(s, a).tx, Apply(s, a).arrivals)
  {
    match a
    case Read(src, packet, now, victim) => ReadGreets(s, src, packet, now, victim);
    case Begin(dest, message) => BeginGreets(s, dest, message);
    case HandshakeTimeout(id) => TimeoutGreets(s, id);
    case HandshakeDone(id) => DoneGreets(s, id);
    case Transmit(id) => TransmitGreets(s, id);
    case Wake(id) => WakeGreets(s, id);
    case TransferTimeout(id) => TransferGreets(s, id, OnTransferTimeout(s, id), OnTransferTimeout(s, id).tx.tasks[id].phase);
    case Cleanup(now) =>
  }

  // ---------------------------------------------------------------- lookups

  lemma SynsStep(sent: seq<Sent>, p: Sent, k: Key)
    ensures SynsTo(sent + [p], k) == SynsTo(sent, k) + if p.dst == k && IsSyn(p) then 1 else 0
  {
    assert (sent + [p])[..|sent|] == sent;
  }

  /** A SYN and its lookup. */
  lemma SynLooksUp(s: Session, after: Session, dest: Key, id: MsgId)
    requires LooksUp(s) && after.sent == s.sent + [SynPacket(dest, id)] && after.lookups == s.lookups + [dest]
    ensures LooksUp(after)
  {
    forall k
      ensures SynsTo(after.sent, k) <= multiset(after.lookups)[k]
    {
      SynsStep(s.sent, SynPacket(dest, id), k);
    }
  }

  /** A packet that is no SYN, or none, and any number of lookups. */
  lemma OtherLooksUp(s: Session, after: Session, p: Sent)
    requires LooksUp(s) && !IsSyn(p) && (after.sent == s.sent || after.sent == s.sent + [p])
    requires exists more: seq<Key> :: after.lookups == s.lookups + more
    ensures LooksUp(after)
  {
    var more: seq<Key> :| after.lookups == s.lookups + more;
    forall k
      ensures SynsTo(after.sent, k) <= multiset(after.lookups)[k]
    {
      SynsStep(s.sent, p, k);
    }
  }

  lemma ReadLooksUp(s: Session, src: Key, packet: bytes, now: Time, victim: BufferKey)
    requires LooksUp(s)
    ensures LooksUp(OnPacket(s, src, packet, now, victim))
  {
    var after := OnPacket(s, src, packet, now, victim);
    ReadingReplies(s, src, packet, now, victim);
    ReadLookups(s, src, packet, now, victim);
    var p := if after.sent == s.sent then Sent(src, []) else after.sent[|after.sent| - 1];
    OtherLooksUp(s, after, p);
  }

  lemma ReadLookups(s: Session, src: Key, packet: bytes, now: Time, victim: BufferKey)
    ensures exists more: seq<Key> :: OnPacket(s, src, packet, now, victim).lookups == s.lookups + more
  {
    var after := OnPacket(s, src, packet, now, victim);
    assert s.lookups == s.lookups + [];
    assert after.lookups == s.lookups || after.lookups == s.lookups + [src];
  }

  lemma TransmitLooksUp(s: Session, id: MsgId)
    requires LooksUp(s) && NodeInv(s) && Enabled(s, Transmit(id))
    ensures LooksUp(OnTransmit(s, id))
  {
    var t := s.tx.tasks[id];
    var i: u16 := t.phase.cursor;
    CallKnown(s, id);
    TransmitMoves(s, id, i);
    CopyHeader(t, id, i);
    assert OnTransmit(s, id).lookups == s.lookups + [];
    OtherLooksUp(s, OnTransmit(s, id), Sent(t.dest, DataPacket(id, t.message, i)));
  }

  lemma TimeoutLooksUp(s: Session, id: MsgId)
    requires LooksUp(s) && InPhaseHandshake(s, id)
    ensures LooksUp(OnHandshakeTimeout(s, id))
  {
    var t := s.tx.tasks[id];
    if t.phase.attempt + 1 < MAX_SYN_RETRIES {
      SynLooksUp(s, OnHandshakeTimeout(s, id), t.dest, id);
    }
  }

  lemma StepLooksUp(s: Session, a: Action)
    requires LooksUp(s) && NodeInv(s) && Enabled(s, a) && MessagesFit(s)
    ensures LooksUp(Apply(s, a))
  {
    match a
    case Read(src, packet, now, victim) => ReadLooksUp(s, src, packet, now, victim);
    case Begin(dest, message) => SynLooksUp(s, OnBegin(s, dest, message), dest, s.tx.nextId);
    case HandshakeTimeout(id) => TimeoutLooksUp(s, id);
    case Transmit(id) => TransmitLooksUp(s, id);
    case HandshakeDone(id) =>
    case Wake(id) =>
    case TransferTimeout(id) =>
    case Cleanup(now) =>
  }

  // ---------------------------------------------------------------- runs

  ghost predicate AllGreeted(m: Mesh) {
    forall n :: n in m ==> GreetInv(m[n].tx, m[n].arrivals) && LooksUp(m[n])
  }

  lemma NodeGreets(s: Session, a: Action, after: Session)
    requires NodeInv(s) && GreetInv(s.tx, s.arrivals) && LooksUp(s) && Enabled(s, a) && (MessagesFit(s) ==> after == Apply(s, a))
    ensures GreetInv(after.tx, after.arrivals) && LooksUp(after)
  {
    assert MessagesFit(s) by {
      assert SenderInv(s.tx, s.arrivals);
    }
    StepGreets(s, a);
    StepLooksUp(s, a);
  }

  lemma NextGreets(m: Mesh, after: Mesh)
    requires MeshInv(m) && AllGreeted(m) && Next(m, after)
    ensures AllGreeted(after)
  {
    var n: Key, a: Action :| n in m && CanHappen(m, n, a) && MessagesFit(m[n]) && after == m[n := Apply(m[n], a)];
    NodeGreets(m[n], a, after[n]);
    OneNodeGreeted(m, n, after[n], after);
  }

  lemma OneNodeGreeted(m: Mesh, n: Key, s: Session, after: Mesh)
    requires AllGreeted(m) && GreetInv(s.tx, s.arrivals) && LooksUp(s) && after == m[n := s]
    ensures AllGreeted(after)
  {
  }

  lemma InitialGreeted()
    ensures GreetInv(INITIAL.tx, INITIAL.arrivals) && LooksUp(INITIAL)
  {
  }

  lemma {:induction false} RunsGreet(run: seq<Mesh>, i: nat)
    requires IsRun(run) && i < |run|
    ensures AllGreeted(run[i])
  {
    if i == 0 {
      InitialGreeted();
    } else {
      RunsGreet(run, i - 1);
      RunStepGreets(run, i - 1);
    }
  }

  lemma RunStepGreets(run: seq<Mesh>, i: nat)
    requires IsRun(run) && i < |run| - 1 && AllGreeted(run[i])
    ensures AllGreeted(run[i + 1])
  {
    RunsKeepInvariant(run, i);
    NextGreets(run[i], run[i + 1]);
  }

  lemma UnsentBefore(sent: seq<Sent>, t: Task, id: MsgId, flags: seq<bool>, arrivals: seq<Arrival>, p: Sent, i: u16)
    requires TaskWritten(sent, t, id, flags, arrivals) && !IsPastHandshake(t.phase) && i < SegmentsOf(t)
    requires i * FRAGMENT_SIZE <= |t.message| && p == Sent(t.dest, DataPacket(id, t.message, i))
    ensures p !in sent
  {
    assert WrittenAtMost(sent, t, id, i, 0);
  }

  /** In every run a segment is written only to a destination that has answered a SYN of its message. */
  lemma SegmentsFollowHandshake(run: seq<Mesh>, i: nat, n: Key, k: nat)
    requires IsRun(run) && i < |run| && n in run[i] && k < |run[i][n].sent|
    requires Decode(run[i][n].sent[k].packet).Some? && Decode(run[i][n].sent[k].packet).value.pktType.Data?
    ensures Answered(run[i][n].arrivals, Decode(run[i][n].sent[k].packet).value.msgId, run[i][n].sent[k].dst)
  {
    var s := run[i][n];
    var p := s.sent[k];
    var h := Decode(p.packet).value;
    RunsKeepWritten(run, i);
    RunsGreet(run, i);
    assert NodeInv(s) && SentOk(p, s.tx.tasks, s.arrivals);
    var t := s.tx.tasks[h.msgId];
    assert TaskGreeted(s.tx, s.arrivals, h.msgId);
    if !IsPastHandshake(t.phase) {
      UnsentBefore(s.sent, t, h.msgId, FlagsOf(s.tx, h.msgId), s.arrivals, p, h.seqNo);
    }
  }

  /** In every run there is a lookup of a destination for each SYN written to it. */
  lemma EverySynIsLookedUp(run: seq<Mesh>, i: nat, n: Key, k: Key)
    requires IsRun(run) && i < |run| && n in run[i]
    ensures SynsTo(run[i][n].sent, k) <= multiset(run[i][n].lookups)[k]
  {
    RunsGreet(run, i);
  }

  /** In every run the table of handshakes holds exactly the calls that wait for a SYN-ACK. */
  lemma HandshakesAreTracked(run: seq<Mesh>, i: nat, n: Key, id: MsgId)
    requires IsRun(run) && i < |run| && n in run[i]
    ensures id in run[i][n].tx.syns <==> id in run[i][n].tx.tasks && run[i][n].tx.tasks[id].phase.Handshake?
  {
    RunsGreet(run, i);
    assert GreetInv(run[i][n].tx, run[i][n].arrivals);
    if id in run[i][n].tx.tasks {
      assert TaskGreeted(run[i][n].tx, run[i][n].arrivals, id);
    }
  }
}
