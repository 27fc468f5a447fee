// The SYN arm of the reader over whole runs: every SYN is answered exactly
// once, and reverse-path lookups follow the history-based throttle rule.
module YmpSyn {
  import opened Bytes
  import opened Wrappers
  import opened YmpSegments
  import opened YmpWire
  import opened YmpState
  import opened YmpMesh
  import SynThrottle

  predicate IsType(packet: bytes, t: PktType) {
    Decode(packet).Some? && Decode(packet).value.pktType == t
  }

  /** The SYNs a node has read, with their sources and times. */
  function SynHistory(arrivals: seq<Arrival>): seq<SynThrottle.Syn> {
    if arrivals == [] then []
    else
      var a := arrivals[|arrivals| - 1];
      SynHistory(arrivals[..|arrivals| - 1]) + (if IsType(a.packet, Syn) then [SynThrottle.Syn(a.src, a.at)] else [])
  }

  function SynsFrom(arrivals: seq<Arrival>, k: Key): nat {
    if arrivals == [] then 0
    else
      var a := arrivals[|arrivals| - 1];
      SynsFrom(arrivals[..|arrivals| - 1], k) + (if a.src == k && IsType(a.packet, Syn) then 1 else 0)
  }

  function SynAcksTo(sent: seq<Sent>, k: Key): nat {
    if sent == [] then 0
    else
      var p := sent[|sent| - 1];
      SynAcksTo(sent[..|sent| - 1], k) + (if p.dst == k && IsType(p.packet, SynAck) then 1 else 0)
  }

  ghost predicate SynInv(s: Session) {
    && s.throttle == SynThrottle.TableAfter(SynHistory(s.arrivals), true)
    && forall k :: SynAcksTo(s.sent, k) == SynsFrom(s.arrivals, k)
  }

  lemma ArrivalStep(arrivals: seq<Arrival>, a: Arrival, k: Key)
    ensures SynsFrom(arrivals + [a], k) == SynsFrom(arrivals, k) + (if a.src == k && IsType(a.packet, Syn) then 1 else 0)
    ensures SynHistory(arrivals + [a]) ==
            SynHistory(arrivals) + (if IsType(a.packet, Syn) then [SynThrottle.Syn(a.src, a.at)] else [])
  {
    assert (arrivals + [a])[..|arrivals|] == arrivals;
  }

  lemma SentStep(sent: seq<Sent>, p: Sent, k: Key)
    ensures SynAcksTo(sent + [p], k) == SynAcksTo(sent, k) + (if p.dst == k && IsType(p.packet, SynAck) then 1 else 0)
  {
    assert (sent + [p])[..|sent|] == sent;
  }

  lemma SynStep(syns: seq<SynThrottle.Syn>, syn: SynThrottle.Syn)
    ensures SynThrottle.TableAfter(syns + [syn], true)
         == SynThrottle.After(SynThrottle.TableAfter(syns, true), syn.src, syn.at, true)
  {
    var more := syns + [syn];
    assert more[..|more|] == more && more[..|syns|] == syns;
    SynThrottle.TableStep(more, |more|, true);
  }

  /** The reply a packet earns from the reader. */
  function Reply(packet: bytes): Option<bytes> {
    if IsType(packet, Syn) then Some(Encoded(SynAckHeader(Decode(packet).value.msgId)))
    else match ParseData(packet)
      case None => None
      case Some(seg) => Some(Encoded(AckHeader(seg.msgId, seg.index)))
  }

  /** What a reader's step leaves: one more arrival, its throttle, and one more packet at most. */
  ghost predicate Answers(s: Session, after: Session, a: Arrival, throttle: SynThrottle.Table, reply: Option<bytes>) {
    && after.arrivals == s.arrivals + [a] && after.throttle == throttle
    && match reply
       case Some(packet) => after.sent == s.sent + [Sent(a.src, packet)]
       case None => after.sent == s.sent
  }

  lemma SynRead(s: Session, src: Key, packet: bytes, now: Time, victim: BufferKey)
    requires IsType(packet, Syn)
    ensures Answers(s, OnPacket(s, src, packet, now, victim), Arrival(src, packet, now), SynThrottle.After(s.throttle, src, now, true), Reply(packet))
  {
  }

  lemma DataRead(s: Session, src: Key, packet: bytes, now: Time, victim: BufferKey)
    requires IsType(packet, Data)
    ensures Answers(s, OnPacket(s, src, packet, now, victim), Arrival(src, packet, now), s.throttle, Reply(packet))
  {
  }

  lemma OtherRead(s: Session, src: Key, packet: bytes, now: Time, victim: BufferKey)
    requires !IsType(packet, Syn) && !IsType(packet, Data)
    ensures Answers(s, OnPacket(s, src, packet, now, victim), Arrival(src, packet, now), s.throttle, Reply(packet))
  {
  }

  /** A SYN earns a SYN-ACK, and nothing else does. */
  lemma ReplyType(packet: bytes)
    ensures IsType(packet, Syn) <==> Reply(packet).Some? && IsType(Reply(packet).value, SynAck)
  {
    AnswerType(packet);
  }

  /** What one read writes, and what it does to the throttle. */
  lemma OneRead(s: Session, src: Key, packet: bytes, now: Time, victim: BufferKey)
    ensures Answers(s, OnPacket(s, src, packet, now, victim), Arrival(src, packet, now),
                    if IsType(packet, Syn) then SynThrottle.After(s.throttle, src, now, true) else s.throttle, Reply(packet))
  {
    if IsType(packet, Syn) {
      SynRead(s, src, packet, now, victim);
    } else if IsType(packet, Data) {
      DataRead(s, src, packet, now, victim);
    } else {
      OtherRead(s, src, packet, now, victim);
    }
  }

  lemma ReadingKeepsSyn(s: Session, src: Key, packet: bytes, now: Time, victim: BufferKey)
    requires SynInv(s)
    ensures SynInv(OnPacket(s, src, packet, now, victim))
  {
    var a := Arrival(src, packet, now);
    var after := OnPacket(s, src, packet, now, victim);
    OneRead(s, src, packet, now, victim);
    ReplyType(packet);
    forall k
      ensures SynAcksTo(after.sent, k) == SynsFrom(after.arrivals, k)
    {
      ArrivalStep(s.arrivals, a, k);
      if Reply(packet).Some? {
        SentStep(s.sent, Sent(src, Reply(packet).value), k);
      }
    }
    ThrottleStep(s.arrivals, a);
  }

  lemma ThrottleStep(arrivals: seq<Arrival>, a: Arrival)
    ensures var before := SynThrottle.TableAfter(SynHistory(arrivals), true);
            SynThrottle.TableAfter(SynHistory(arrivals + [a]), true) ==
            if IsType(a.packet, Syn) then SynThrottle.After(before, a.src, a.at, true) else before
  {
    ArrivalStep(arrivals, a, a.src);
    if IsType(a.packet, Syn) {
      SynStep(SynHistory(arrivals), SynThrottle.Syn(a.src, a.at));
    } else {
      assert SynHistory(arrivals) + [] == SynHistory(arrivals);
    }
  }

  /** A SYN is answered by a SYN-ACK, a segment by an ACK. */
  lemma AnswerType(packet: bytes)
    ensures forall id :: IsType(Encoded(SynAckHeader(id)), SynAck)
    ensures forall id, i :: IsType(Encoded(AckHeader(id, i)), Ack)
    ensures forall id :: IsType(Encoded(SynHeader(id)), Syn)
  {
    forall id
      ensures IsType(Encoded(SynAckHeader(id)), SynAck) && IsType(Encoded(SynHeader(id)), Syn)
    {
      DecodeOfControl(SynAckHeader(id));
      DecodeOfControl(SynHeader(id));
    }
    forall id, i
      ensures IsType(Encoded(AckHeader(id, i)), Ack)
    {
      DecodeOfControl(AckHeader(id, i));
    }
  }

  /** What the sending side writes is never a SYN-ACK. */
  lemma SendingKeepsSyn(s: Session, a: Action)
    requires SynInv(s) && NodeInv(s) && Enabled(s, a) && !a.Read?
    ensures SynInv(Apply(s, a))
  {
    SendsNoSynAck(s, a);
    SynUnaffected(s, Apply(s, a));
  }

  /** Nothing arrived, no lookup was noted, and at most one packet was written, not a SYN-ACK. */
  ghost predicate NoSynStep(s: Session, after: Session) {
    && after.throttle == s.throttle && after.arrivals == s.arrivals
    && (|| after.sent == s.sent
        || (|after.sent| == |s.sent| + 1 && after.sent == s.sent + [after.sent[|s.sent|]]
            && !IsType(after.sent[|s.sent|].packet, SynAck)))
  }

  lemma SynUnaffected(s: Session, after: Session)
    requires SynInv(s) && NoSynStep(s, after)
    ensures SynInv(after)
  {
    if after.sent != s.sent {
      MoreSent(s.sent, after.sent[|s.sent|]);
    }
  }

  lemma SynIsNoSynAck(s: Session, dest: Key, id: MsgId)
    ensures var sent := s.sent + [SynPacket(dest, id)];
            sent[|s.sent|] == SynPacket(dest, id) && !IsType(sent[|s.sent|].packet, SynAck)
  {
    AnswerType(SynPacket(dest, id).packet);
  }

  lemma OnePacketMore(s: Session, after: Session, p: Sent)
    requires after.throttle == s.throttle && after.arrivals == s.arrivals && after.sent == s.sent + [p] && !IsType(p.packet, SynAck)
    ensures NoSynStep(s, after)
  {
  }

  lemma TransmitSendsData(s: Session, id: MsgId)
    requires NodeInv(s) && Enabled(s, Transmit(id))
    ensures NoSynStep(s, OnTransmit(s, id))
  {
    var t := s.tx.tasks[id];
    var after := OnTransmit(s, id);
    SegmentIsData(t, id, t.phase.cursor);
    if after.sent != s.sent {
      OnePacketMore(s, after, Sent(t.dest, DataPacket(id, t.message, t.phase.cursor)));
    }
  }

  lemma BeginSendsSyn(s: Session, dest: Key, message: bytes)
    requires Enabled(s, Begin(dest, message))
    ensures NoSynStep(s, OnBegin(s, dest, message))
  {
    SynIsNoSynAck(s, dest, s.tx.nextId);
  }

  lemma TimeoutSendsSyn(s: Session, id: MsgId)
    requires InPhaseHandshake(s, id)
    ensures NoSynStep(s, OnHandshakeTimeout(s, id))
  {
    SynIsNoSynAck(s, s.tx.tasks[id].dest, id);
  }

  lemma WakeSendsNothing(s: Session, id: MsgId)
    requires InPhaseTransfer(s, id)
    ensures NoSynStep(s, OnWake(s, id))
  {
  }

  lemma OthersSendNothing(s: Session, a: Action)
    requires NodeInv(s) && Enabled(s, a) && (a.HandshakeDone? || a.TransferTimeout? || a.Cleanup?)
    ensures NoSynStep(s, Apply(s, a))
  {
  }

  lemma SendsNoSynAck(s: Session, a: Action)
    requires NodeInv(s) && Enabled(s, a) && !a.Read?
    ensures NoSynStep(s, Apply(s, a))
  {
    match a
    case Begin(dest, message) => BeginSendsSyn(s, dest, message);
    case HandshakeTimeout(id) => TimeoutSendsSyn(s, id);
    case Transmit(id) => TransmitSendsData(s, id);
    case Wake(id) => WakeSendsNothing(s, id);
    case _ => OthersSendNothing(s, a);
  }

  lemma MoreSent(sent: seq<Sent>, p: Sent)
    requires !IsType(p.packet, SynAck)
    ensures forall k :: SynAcksTo(sent + [p], k) == SynAcksTo(sent, k)
  {
    forall k
      ensures SynAcksTo(sent + [p], k) == SynAcksTo(sent, k)
    {
      SentStep(sent, p, k);
    }
  }

  lemma SegmentIsData(t: Task, id: MsgId, i: nat)
    requires |t.message| <= MAX_MESSAGE_SIZE && i < SegmentsOf(t)
    ensures i * FRAGMENT_SIZE <= |t.message|
    ensures IsType(DataPacket(id, t.message, i), Data)
  {
    CastsAreExact(|t.message|);
    ParseOfDataPacket(id, t.message, i);
  }

  lemma {:induction false} RunsKeepSyn(run: seq<Mesh>, i: nat, n: Key)
    requires IsRun(run) && i < |run| && n in run[i]
    ensures SynInv(run[i][n])
  {
    if i > 0 {
      var before, after := run[i - 1], run[i];
      var d: Key, a: Action :| d in before && CanHappen(before, d, a) && MessagesFit(before[d]) && after == before[d := Apply(before[d], a)];
      RunsKeepInvariant(run, i - 1);
      RunsKeepSyn(run, i - 1, n);
      if d == n {
        if a.Read? {
          ReadingKeepsSyn(before[n], a.src, a.packet, a.now, a.victim);
        } else {
          SendingKeepsSyn(before[n], a);
        }
      }
    }
  }

  /** In every run, a node has written exactly one SYN-ACK to a source per SYN read from it. */
  lemma EverySynIsAnswered(run: seq<Mesh>, i: nat, n: Key, k: Key)
    requires IsRun(run) && i < |run| && n in run[i]
    ensures SynAcksTo(run[i][n].sent, k) == SynsFrom(run[i][n].arrivals, k)
  {
    RunsKeepSyn(run, i, n);
  }

  /**
   * In every run, a SYN triggers a lookup towards its source exactly when all
   * earlier lookups it triggered are at least two seconds old.
   */
  lemma LookupsFollowHistory(run: seq<Mesh>, i: nat, n: Key, src: Key, packet: bytes, now: Time, victim: BufferKey)
    requires IsRun(run) && i < |run| && n in run[i] && IsType(packet, Syn)
    requires SynThrottle.Monotone(SynHistory(run[i][n].arrivals) + [SynThrottle.Syn(src, now)])
    ensures var s := run[i][n];
            var syns := SynHistory(s.arrivals) + [SynThrottle.Syn(src, now)];
            OnPacket(s, src, packet, now, victim).lookups ==
            s.lookups + (if SynThrottle.Due(syns, |syns| - 1, true) then [src] else [])
  {
    var s := run[i][n];
    RunsKeepSyn(run, i, n);
    var syns := SynHistory(s.arrivals) + [SynThrottle.Syn(src, now)];
    assert syns[..|syns| - 1] == SynHistory(s.arrivals);
    SynThrottle.LooksUpExactlyWhenDue(syns, |syns| - 1, true);
  }
}
