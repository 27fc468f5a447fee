// What a call of `send` has put on the wire, whatever else happens: how many
// copies of its SYN and of each of its segments, at every moment of every run.
module YmpWritten {
  import opened Bytes
  import opened Wrappers
  import opened YmpWire
  import opened YmpSegments
  import opened YmpState
  import opened YmpReceiverProofs
  import opened YmpMesh

  /** How often this packet has been written. */
  ghost function Count(sent: seq<Sent>, p: Sent): nat {
    multiset(sent)[p]
  }

  ghost function SynCount(sent: seq<Sent>, t: Task, id: MsgId): nat {
    Count(sent, SynPacket(t.dest, id))
  }

  /** The segment has been written `n` times. */
  ghost predicate Written(sent: seq<Sent>, t: Task, id: MsgId, i: u16, n: nat) {
    i * FRAGMENT_SIZE <= |t.message| && Count(sent, Sent(t.dest, DataPacket(id, t.message, i))) == n
  }

  /** At most `n` times. */
  ghost predicate WrittenAtMost(sent: seq<Sent>, t: Task, id: MsgId, i: u16, n: nat) {
    i * FRAGMENT_SIZE <= |t.message| && Count(sent, Sent(t.dest, DataPacket(id, t.message, i))) <= n
  }

  /** The acknowledgement flags of a transfer. */
  function FlagsOf(tx: Sender, id: MsgId): seq<bool> {
    if id in tx.pending then tx.pending[id].acked else []
  }

  /** Bursts that have reached segment `i`. */
  function BurstsPast(i: nat, attempt: nat, cursor: nat): nat {
    if i < cursor then attempt + 1 else attempt
  }

  /** As many copies as bursts have reached the segment, fewer only if it is acknowledged. */
  ghost predicate SegmentWritten(sent: seq<Sent>, t: Task, id: MsgId, i: u16, acked: bool, n: nat) {
    WrittenAtMost(sent, t, id, i, n) && (acked || Written(sent, t, id, i, n))
  }

  ghost predicate BurstsWritten(sent: seq<Sent>, t: Task, id: MsgId, flags: seq<bool>, attempt: nat, cursor: nat) {
    |flags| == SegmentsOf(t) && cursor <= |flags|
    && forall i: u16 :: i < |flags| ==> SegmentWritten(sent, t, id, i, flags[i], BurstsPast(i, attempt, cursor))
  }

  /** Written in all twelve bursts, or acknowledged. */
  ghost predicate UsedUp(sent: seq<Sent>, t: Task, id: MsgId, i: u16, arrivals: seq<Arrival>) {
    WrittenAtMost(sent, t, id, i, 12) && (Written(sent, t, id, i, 12) || AckArrived(arrivals, id, i))
  }

  ghost predicate AllAtMost(sent: seq<Sent>, t: Task, id: MsgId, n: nat) {
    forall i: u16 :: i < SegmentsOf(t) ==> WrittenAtMost(sent, t, id, i, n)
  }

  /** What one call of `send` has written. */
  ghost predicate TaskWritten(sent: seq<Sent>, t: Task, id: MsgId, flags: seq<bool>, arrivals: seq<Arrival>) {
    match t.phase
    case Handshake(attempt) => attempt < 5 && SynCount(sent, t, id) == attempt + 1 && AllAtMost(sent, t, id, 0)
    case Transfer(attempt, cursor) =>
      attempt < 12 && 1 <= SynCount(sent, t, id) <= 5 && BurstsWritten(sent, t, id, flags, attempt, cursor)
    case Finished(Ok(_)) => 1 <= SynCount(sent, t, id) <= 5 && AllAtMost(sent, t, id, 12)
    case Finished(Err(error)) =>
      if error == MaxRetriesExceeded then
        && 1 <= SynCount(sent, t, id) <= 5
        && forall i: u16 :: i < SegmentsOf(t) ==> UsedUp(sent, t, id, i, arrivals)
      else error == Unreachable && SynCount(sent, t, id) == 5 && AllAtMost(sent, t, id, 0)
  }

  /** Who is waited for in a handshake, and that a complete transfer has been notified. */
  ghost predicate TaskAwaits(tx: Sender, id: MsgId)
    requires id in tx.tasks
  {
    && (tx.tasks[id].phase.Handshake? ==> id in tx.syns && tx.syns[id].expectedSrc == tx.tasks[id].dest)
    && (id in tx.pending && AllAcked(tx.pending[id].acked) ==> tx.pending[id].notified)
  }

  /** No SYN is about an id not given out yet. */
  ghost predicate SynsKnown(sent: seq<Sent>, nextId: nat) {
    forall n :: 0 <= n < |sent| && IsSyn(sent[n]) ==> Decode(sent[n].packet).value.msgId < nextId
  }

  predicate IsSyn(p: Sent) {
    Decode(p.packet).Some? && Decode(p.packet).value.pktType.Syn?
  }

  ghost predicate WrittenInv(s: Session) {
    && (forall id :: id in s.tx.tasks ==> TaskWritten(s.sent, s.tx.tasks[id], id, FlagsOf(s.tx, id), s.arrivals) && TaskAwaits(s.tx, id))
    && SynsKnown(s.sent, s.tx.nextId)
  }

  // ---------------------------------------------------------------- one more packet

  lemma OneMore(sent: seq<Sent>, p: Sent, q: Sent)
    ensures Count(sent + [p], q) == Count(sent, q) + if p == q then 1 else 0
  {
  }

  /** The packet is neither a SYN nor a segment of this message. */
  predicate IsOther(p: Sent, id: MsgId) {
    match Decode(p.packet)
    case None => false
    case Some(h) => h.pktType.Ack? || h.pktType.SynAck? || h.msgId != id
  }

  lemma OtherIsNoSyn(p: Sent, d: Key, id: MsgId)
    requires IsOther(p, id)
    ensures p != SynPacket(d, id)
  {
    DecodeOfControl(SynHeader(id));
  }

  lemma OtherIsNoCopy(p: Sent, t: Task, id: MsgId, i: u16)
    requires IsOther(p, id) && i < SegmentsOf(t) && |t.message| <= MAX_MESSAGE_SIZE && i * FRAGMENT_SIZE <= |t.message|
    ensures p != Sent(t.dest, DataPacket(id, t.message, i))
  {
    ParseOfDataPacket(id, t.message, i);
  }

  lemma OtherWritten(sent: seq<Sent>, p: Sent, t: Task, id: MsgId, i: u16, n: nat)
    requires IsOther(p, id) && i < SegmentsOf(t) && |t.message| <= MAX_MESSAGE_SIZE
    ensures Written(sent + [p], t, id, i, n) <==> Written(sent, t, id, i, n)
    ensures WrittenAtMost(sent + [p], t, id, i, n) <==> WrittenAtMost(sent, t, id, i, n)
  {
    if i * FRAGMENT_SIZE <= |t.message| {
      OtherIsNoCopy(p, t, id, i);
      OneMore(sent, p, Sent(t.dest, DataPacket(id, t.message, i)));
    }
  }

  lemma OtherKeepsBursts(sent: seq<Sent>, p: Sent, t: Task, id: MsgId, flags: seq<bool>, attempt: nat, cursor: nat)
    requires IsOther(p, id) && |t.message| <= MAX_MESSAGE_SIZE && BurstsWritten(sent, t, id, flags, attempt, cursor)
    ensures BurstsWritten(sent + [p], t, id, flags, attempt, cursor)
  {
    forall i: u16 | i < |flags|
      ensures SegmentWritten(sent + [p], t, id, i, flags[i], BurstsPast(i, attempt, cursor))
    {
      OtherWritten(sent, p, t, id, i, BurstsPast(i, attempt, cursor));
    }
  }

  lemma OtherKeepsAtMost(sent: seq<Sent>, p: Sent, t: Task, id: MsgId, n: nat)
    requires IsOther(p, id) && |t.message| <= MAX_MESSAGE_SIZE && AllAtMost(sent, t, id, n)
    ensures AllAtMost(sent + [p], t, id, n)
  {
    forall i: u16 | i < SegmentsOf(t)
      ensures WrittenAtMost(sent + [p], t, id, i, n)
    {
      OtherWritten(sent, p, t, id, i, n);
    }
  }

  lemma OtherKeepsUsedUp(sent: seq<Sent>, p: Sent, t: Task, id: MsgId, arrivals: seq<Arrival>)
    requires IsOther(p, id) && |t.message| <= MAX_MESSAGE_SIZE
    requires forall i: u16 :: i < SegmentsOf(t) ==> UsedUp(sent, t, id, i, arrivals)
    ensures forall i: u16 :: i < SegmentsOf(t) ==> UsedUp(sent + [p], t, id, i, arrivals)
  {
    forall i: u16 | i < SegmentsOf(t)
      ensures UsedUp(sent + [p], t, id, i, arrivals)
    {
      assert UsedUp(sent, t, id, i, arrivals);
      OtherWritten(sent, p, t, id, i, 12);
    }
  }

  lemma OtherKeepsTask(sent: seq<Sent>, p: Sent, t: Task, id: MsgId, flags: seq<bool>, arrivals: seq<Arrival>)
    requires IsOther(p, id) && |t.message| <= MAX_MESSAGE_SIZE && TaskWritten(sent, t, id, flags, arrivals)
    ensures TaskWritten(sent + [p], t, id, flags, arrivals)
  {
    OtherIsNoSyn(p, t.dest, id);
    OneMore(sent, p, SynPacket(t.dest, id));
    if t.phase.Transfer? {
      OtherKeepsBursts(sent, p, t, id, flags, t.phase.attempt, t.phase.cursor);
    } else if t.phase.Finished? && t.phase.result == Err(MaxRetriesExceeded) {
      OtherKeepsUsedUp(sent, p, t, id, arrivals);
    } else {
      OtherKeepsAtMost(sent, p, t, id, if t.phase.Finished? && t.phase.result.Ok? then 12 else 0);
    }
  }

  lemma UsedUpStays(sent: seq<Sent>, t: Task, id: MsgId, i: u16, arrivals: seq<Arrival>, a: Arrival)
    requires UsedUp(sent, t, id, i, arrivals)
    ensures UsedUp(sent, t, id, i, arrivals + [a])
  {
    if AckArrived(arrivals, id, i) {
      AcksGrow(arrivals, a, id, i);
    }
  }

  /** Acknowledgements only add up. */
  lemma ArrivalKeepsTask(sent: seq<Sent>, t: Task, id: MsgId, flags: seq<bool>, arrivals: seq<Arrival>, a: Arrival)
    requires TaskWritten(sent, t, id, flags, arrivals)
    ensures TaskWritten(sent, t, id, flags, arrivals + [a])
  {
    if t.phase.Finished? && t.phase.result == Err(MaxRetriesExceeded) {
      forall i: u16 | i < SegmentsOf(t)
        ensures UsedUp(sent, t, id, i, arrivals + [a])
      {
        UsedUpStays(sent, t, id, i, arrivals, a);
      }
    }
  }

  lemma SynsStayKnown(sent: seq<Sent>, p: Sent, nextId: nat, more: nat)
    requires SynsKnown(sent, nextId) && nextId <= more && (IsSyn(p) ==> Decode(p.packet).value.msgId < more)
    ensures SynsKnown(sent + [p], more)
  {
  }

  // ---------------------------------------------------------------- reading

  /** More flags are set, none is cleared. */
  predicate FlagsGrow(before: seq<bool>, after: seq<bool>) {
    |after| == |before| && forall i :: 0 <= i < |before| && before[i] ==> after[i]
  }

  lemma FlagsKeepTask(sent: seq<Sent>, t: Task, id: MsgId, flags: seq<bool>, more: seq<bool>, arrivals: seq<Arrival>)
    requires TaskWritten(sent, t, id, flags, arrivals) && FlagsGrow(flags, more)
    ensures TaskWritten(sent, t, id, more, arrivals)
  {
    if t.phase.Transfer? {
      forall i: u16 | i < |more|
        ensures SegmentWritten(sent, t, id, i, more[i], BurstsPast(i, t.phase.attempt, t.phase.cursor))
      {
        assert SegmentWritten(sent, t, id, i, flags[i], BurstsPast(i, t.phase.attempt, t.phase.cursor));
      }
    }
  }

  lemma AckFlags(tx: Sender, id: MsgId, index: u16, other: MsgId)
    requires other in tx.tasks && TaskAwaits(tx, other)
    ensures FlagsGrow(FlagsOf(tx, other), FlagsOf(OnAck(tx, id, index), other))
    ensures OnAck(tx, id, index).tasks == tx.tasks && OnAck(tx, id, index).nextId == tx.nextId && TaskAwaits(OnAck(tx, id, index), other)
  {
  }

  lemma SynAckFlags(tx: Sender, src: Key, id: MsgId, other: MsgId)
    requires other in tx.tasks && TaskAwaits(tx, other)
    ensures FlagsOf(OnSynAck(tx, src, id), other) == FlagsOf(tx, other)
    ensures OnSynAck(tx, src, id).tasks == tx.tasks && OnSynAck(tx, src, id).nextId == tx.nextId && TaskAwaits(OnSynAck(tx, src, id), other)
  {
  }

  /** What reading does to the sending half: at most one reply, more flags, one more arrival. */
  ghost predicate ReadsOnly(s: Session, after: Session, a: Arrival) {
    && after.arrivals == s.arrivals + [a] && after.tx.tasks == s.tx.tasks && after.tx.nextId == s.tx.nextId
    && (forall id :: id in s.tx.tasks && TaskAwaits(s.tx, id) ==> FlagsGrow(FlagsOf(s.tx, id), FlagsOf(after.tx, id)) && TaskAwaits(after.tx, id))
    && (after.sent == s.sent || (|after.sent| > 0 && after.sent == s.sent + [after.sent[|after.sent| - 1]] && IsReply(after.sent[|after.sent| - 1])))
  }

  predicate IsReply(p: Sent) {
    Decode(p.packet).Some? && (Decode(p.packet).value.pktType.Ack? || Decode(p.packet).value.pktType.SynAck?)
  }

  lemma SynReplies(s: Session, src: Key, id: MsgId, now: Time)
    ensures OnSyn(s, src, id, now).tx == s.tx && OnSyn(s, src, id, now).arrivals == s.arrivals
    ensures var p := Sent(src, Encoded(SynAckHeader(id)));
            OnSyn(s, src, id, now).sent == s.sent + [p] && IsReply(p)
  {
    DecodeOfControl(SynAckHeader(id));
  }

  lemma DataReplies(s: Session, src: Key, packet: bytes, now: Time, victim: BufferKey)
    ensures var after := OnData(s, src, packet, now, victim);
            && after.tx == s.tx && after.arrivals == s.arrivals
            && (after.sent == s.sent || (|after.sent| > 0 && after.sent == s.sent + [after.sent[|after.sent| - 1]] && IsReply(after.sent[|after.sent| - 1])))
  {
    match ParseData(packet)
    case None =>
    case Some(seg) => DecodeOfControl(AckHeader(seg.msgId, seg.index));
  }

  lemma AckReads(s: Session, id: MsgId, index: u16, a: Arrival)
    ensures ReadsOnly(s, s.(tx := OnAck(s.tx, id, index), arrivals := s.arrivals + [a]), a)
  {
    var after := s.(tx := OnAck(s.tx, id, index), arrivals := s.arrivals + [a]);
    forall other | other in s.tx.tasks && TaskAwaits(s.tx, other)
      ensures FlagsGrow(FlagsOf(s.tx, other), FlagsOf(after.tx, other)) && TaskAwaits(after.tx, other)
    {
      AckFlags(s.tx, id, index, other);
    }
  }

  lemma SynAckReads(s: Session, src: Key, id: MsgId, a: Arrival)
    ensures ReadsOnly(s, s.(tx := OnSynAck(s.tx, src, id), arrivals := s.arrivals + [a]), a)
  {
    var after := s.(tx := OnSynAck(s.tx, src, id), arrivals := s.arrivals + [a]);
    forall other | other in s.tx.tasks && TaskAwaits(s.tx, other)
      ensures FlagsGrow(FlagsOf(s.tx, other), FlagsOf(after.tx, other)) && TaskAwaits(after.tx, other)
    {
      SynAckFlags(s.tx, src, id, other);
    }
  }

  lemma SameSender(s: Session, after: Session, a: Arrival)
    requires after.tx == s.tx && after.arrivals == s.arrivals + [a]
    requires after.sent == s.sent || (|after.sent| > 0 && after.sent == s.sent + [after.sent[|after.sent| - 1]] && IsReply(after.sent[|after.sent| - 1]))
    ensures ReadsOnly(s, after, a)
  {
  }

  lemma ReadingReplies(s: Session, src: Key, packet: bytes, now: Time, victim: BufferKey)
    ensures ReadsOnly(s, OnPacket(s, src, packet, now, victim), Arrival(src, packet, now))
  {
    var after, a := OnPacket(s, src, packet, now, victim), Arrival(src, packet, now);
    var read := s.(arrivals := s.arrivals + [a]);
    match Decode(packet)
    case None => SameSender(s, after, a);
    case Some(h) =>
      match h.pktType
      case Syn =>
        SynReplies(read, src, h.msgId, now);
        SameSender(s, after, a);
      case Data =>
        DataReplies(read, src, packet, now, victim);
        SameSender(s, after, a);
      case SynAck => SynAckReads(s, src, h.msgId, a);
      case Ack => AckReads(s, h.msgId, h.seqNo, a);
  }

  lemma ReplyIsOther(p: Sent, id: MsgId)
    requires IsReply(p)
    ensures IsOther(p, id) && !IsSyn(p)
  {
  }

  lemma ReadKeepsTask(s: Session, after: Session, a: Arrival, id: MsgId)
    requires WrittenInv(s) && ReadsOnly(s, after, a) && id in s.tx.tasks && |s.tx.tasks[id].message| <= MAX_MESSAGE_SIZE
    ensures TaskWritten(after.sent, after.tx.tasks[id], id, FlagsOf(after.tx, id), after.arrivals) && TaskAwaits(after.tx, id)
  {
    var t := s.tx.tasks[id];
    ArrivalKeepsTask(s.sent, t, id, FlagsOf(s.tx, id), s.arrivals, a);
    FlagsKeepTask(s.sent, t, id, FlagsOf(s.tx, id), FlagsOf(after.tx, id), after.arrivals);
    if after.sent != s.sent {
      var p := after.sent[|after.sent| - 1];
      ReplyIsOther(p, id);
      OtherKeepsTask(s.sent, p, t, id, FlagsOf(after.tx, id), after.arrivals);
    }
  }

  lemma ReadKeepsWritten(s: Session, src: Key, packet: bytes, now: Time, victim: BufferKey)
    requires WrittenInv(s) && MessagesFit(s)
    ensures WrittenInv(OnPacket(s, src, packet, now, victim))
  {
    var after, a := OnPacket(s, src, packet, now, victim), Arrival(src, packet, now);
    ReadingReplies(s, src, packet, now, victim);
    forall id | id in after.tx.tasks
      ensures TaskWritten(after.sent, after.tx.tasks[id], id, FlagsOf(after.tx, id), after.arrivals) && TaskAwaits(after.tx, id)
    {
      ReadKeepsTask(s, after, a, id);
    }
    if after.sent != s.sent {
      ReplyIsOther(after.sent[|after.sent| - 1], 0);
      SynsStayKnown(s.sent, after.sent[|after.sent| - 1], s.tx.nextId, s.tx.nextId);
    }
  }

  // ---------------------------------------------------------------- one call of `send` moves

  /** Call `id` moves and writes at most packet `p`, about itself; nothing else changes. */
  ghost predicate MovesOnly(s: Session, after: Session, id: MsgId, p: Sent) {
    && after.arrivals == s.arrivals && id in after.tx.tasks
    && (forall other :: other in after.tx.tasks <==> other in s.tx.tasks || other == id)
    && (forall other :: other in s.tx.tasks && other != id ==>
          after.tx.tasks[other] == s.tx.tasks[other] && FlagsOf(after.tx, other) == FlagsOf(s.tx, other)
          && (TaskAwaits(s.tx, other) ==> TaskAwaits(after.tx, other)))
    && (after.sent == s.sent || after.sent == s.sent + [p])
    && s.tx.nextId <= after.tx.nextId && Decode(p.packet).Some? && Decode(p.packet).value.msgId == id && id < after.tx.nextId
  }

  lemma MoveKeepsWritten(s: Session, after: Session, id: MsgId, p: Sent)
    requires WrittenInv(s) && MessagesFit(s) && MovesOnly(s, after, id, p)
    requires TaskWritten(after.sent, after.tx.tasks[id], id, FlagsOf(after.tx, id), after.arrivals) && TaskAwaits(after.tx, id)
    ensures WrittenInv(after)
  {
    forall other | other in after.tx.tasks
      ensures TaskWritten(after.sent, after.tx.tasks[other], other, FlagsOf(after.tx, other), after.arrivals) && TaskAwaits(after.tx, other)
    {
      if other != id && after.sent != s.sent {
        OtherKeepsTask(s.sent, p, s.tx.tasks[other], other, FlagsOf(s.tx, other), s.arrivals);
      }
    }
    if after.sent != s.sent {
      SynsStayKnown(s.sent, p, s.tx.nextId, after.tx.nextId);
    }
  }

  /** Nothing has been written about an id not given out yet. */
  lemma FreshUnwritten(s: Session, t: Task, id: MsgId)
    requires NodeInv(s) && WrittenInv(s) && id >= s.tx.nextId && |t.message| <= MAX_MESSAGE_SIZE
    ensures SynCount(s.sent, t, id) == 0 && AllAtMost(s.sent, t, id, 0)
  {
    DecodeOfControl(SynHeader(id));
    assert SynPacket(t.dest, id) !in s.sent;
    CastsAreExact(|t.message|);
    forall i: u16 | i < SegmentsOf(t)
      ensures WrittenAtMost(s.sent, t, id, i, 0)
    {
      FreshUncopied(s, t, id, i);
    }
  }

  /** Every segment written is of a message under an id given out. */
  lemma CopiesAreKnown(s: Session)
    requires NodeInv(s)
    ensures forall p :: p in s.sent && Decode(p.packet).Some? && Decode(p.packet).value.pktType.Data? ==> Decode(p.packet).value.msgId < s.tx.nextId
  {
    forall p | p in s.sent && Decode(p.packet).Some? && Decode(p.packet).value.pktType.Data?
      ensures Decode(p.packet).value.msgId < s.tx.nextId
    {
      var n :| 0 <= n < |s.sent| && s.sent[n] == p;
      assert SentOk(s.sent[n], s.tx.tasks, s.arrivals);
      assert SenderInv(s.tx, s.arrivals);
    }
  }

  lemma FreshUncopied(s: Session, t: Task, id: MsgId, i: u16)
    requires NodeInv(s) && id >= s.tx.nextId && |t.message| <= MAX_MESSAGE_SIZE && i < SegmentsOf(t)
    ensures WrittenAtMost(s.sent, t, id, i, 0)
  {
    CastsAreExact(|t.message|);
    ParseOfDataPacket(id, t.message, i);
    CopiesAreKnown(s);
    assert Sent(t.dest, DataPacket(id, t.message, i)) !in s.sent;
  }

  lemma SynIsNoCopy(d: Key, t: Task, id: MsgId, i: u16)
    requires i < SegmentsOf(t) && |t.message| <= MAX_MESSAGE_SIZE && i * FRAGMENT_SIZE <= |t.message|
    ensures SynPacket(d, id) != Sent(t.dest, DataPacket(id, t.message, i))
  {
    DecodeOfControl(SynHeader(id));
    ParseOfDataPacket(id, t.message, i);
  }

  /** A SYN counts as one and is no segment. */
  lemma OneMoreSyn(sent: seq<Sent>, t: Task, id: MsgId)
    requires |t.message| <= MAX_MESSAGE_SIZE
    ensures SynCount(sent + [SynPacket(t.dest, id)], t, id) == SynCount(sent, t, id) + 1
    ensures AllAtMost(sent, t, id, 0) ==> AllAtMost(sent + [SynPacket(t.dest, id)], t, id, 0)
  {
    var p := SynPacket(t.dest, id);
    OneMore(sent, p, p);
    forall i: u16 | i < SegmentsOf(t) && WrittenAtMost(sent, t, id, i, 0)
      ensures WrittenAtMost(sent + [p], t, id, i, 0)
    {
      SynIsNoCopy(t.dest, t, id, i);
      OneMore(sent, p, Sent(t.dest, DataPacket(id, t.message, i)));
    }
  }

  lemma NewCallMoves(s: Session, after: Session, id: MsgId, t: Task, p: Sent)
    requires id == s.tx.nextId && id !in s.tx.tasks && after.arrivals == s.arrivals && after.sent == s.sent + [p]
    requires after.tx == s.tx.(nextId := id + 1, tasks := s.tx.tasks[id := t], syns := s.tx.syns[id := PendingSyn(t.dest, false)])
    requires Decode(p.packet).Some? && Decode(p.packet).value.msgId == id
    ensures MovesOnly(s, after, id, p)
  {
  }

  lemma FirstSyn(sent: seq<Sent>, t: Task, id: MsgId, arrivals: seq<Arrival>)
    requires t.phase == Handshake(0) && |t.message| <= MAX_MESSAGE_SIZE && SynCount(sent, t, id) == 0 && AllAtMost(sent, t, id, 0)
    ensures TaskWritten(sent + [SynPacket(t.dest, id)], t, id, [], arrivals)
  {
    OneMoreSyn(sent, t, id);
  }

  lemma NewCallKeeps(s: Session, after: Session, id: MsgId, t: Task)
    requires NodeInv(s) && WrittenInv(s) && id == s.tx.nextId && t.phase == Handshake(0) && |t.message| <= MAX_MESSAGE_SIZE
    requires after.arrivals == s.arrivals && after.sent == s.sent + [SynPacket(t.dest, id)]
    requires after.tx == s.tx.(nextId := id + 1, tasks := s.tx.tasks[id := t], syns := s.tx.syns[id := PendingSyn(t.dest, false)])
    ensures WrittenInv(after)
  {
    assert MessagesFit(s) && id !in s.tx.tasks && id !in s.tx.pending by {
      assert SenderInv(s.tx, s.arrivals);
    }
    FreshUnwritten(s, t, id);
    FirstSyn(s.sent, t, id, s.arrivals);
    DecodeOfControl(SynHeader(id));
    NewCallMoves(s, after, id, t, SynPacket(t.dest, id));
    assert FlagsOf(after.tx, id) == [] && TaskAwaits(after.tx, id);
    MoveKeepsWritten(s, after, id, SynPacket(t.dest, id));
  }

  lemma BeginKeepsWritten(s: Session, dest: Key, message: bytes)
    requires NodeInv(s) && WrittenInv(s) && Enabled(s, Begin(dest, message))
    ensures WrittenInv(OnBegin(s, dest, message))
  {
    NewCallKeeps(s, OnBegin(s, dest, message), s.tx.nextId, Task(dest, message, Handshake(0)));
  }

  lemma OnlyPhaseMoves(s: Session, after: Session, id: MsgId, phase: Phase, p: Sent)
    requires id in s.tx.tasks && id < s.tx.nextId && after.arrivals == s.arrivals && after.tx == WithPhase(s.tx, id, phase)
    requires (phase.Handshake? ==> s.tx.tasks[id].phase.Handshake?) && TaskAwaits(s.tx, id)
    requires after.sent == s.sent || after.sent == s.sent + [p]
    requires Decode(p.packet).Some? && Decode(p.packet).value.msgId == id
    ensures MovesOnly(s, after, id, p) && TaskAwaits(after.tx, id) && FlagsOf(after.tx, id) == FlagsOf(s.tx, id)
    ensures after.tx.tasks[id] == s.tx.tasks[id].(phase := phase)
  {
  }

  /** The handshake entry goes with the phase. */
  lemma AwaitingGoes(s: Session, after: Session, id: MsgId, phase: Phase, p: Sent)
    requires id in s.tx.tasks && id < s.tx.nextId && after.arrivals == s.arrivals && after.sent == s.sent
    requires after.tx == WithPhase(s.tx.(syns := s.tx.syns - {id}), id, phase) && phase.Finished? && TaskAwaits(s.tx, id)
    requires Decode(p.packet).Some? && Decode(p.packet).value.msgId == id
    ensures MovesOnly(s, after, id, p) && TaskAwaits(after.tx, id) && FlagsOf(after.tx, id) == FlagsOf(s.tx, id)
    ensures after.tx.tasks[id] == s.tx.tasks[id].(phase := phase)
  {
  }

  lemma SynAgainEffect(s: Session, id: MsgId, attempt: nat)
    requires InPhaseHandshake(s, id) && attempt == s.tx.tasks[id].phase.attempt + 1 && attempt < 5
    ensures var after := OnHandshakeTimeout(s, id);
            && after.tx == WithPhase(s.tx, id, Handshake(attempt)) && after.arrivals == s.arrivals
            && after.sent == s.sent + [SynPacket(s.tx.tasks[id].dest, id)]
  {
  }

  lemma UnreachableEffect(s: Session, id: MsgId)
    requires InPhaseHandshake(s, id) && s.tx.tasks[id].phase.attempt >= 4
    ensures var after := OnHandshakeTimeout(s, id);
            && after.tx == WithPhase(s.tx.(syns := s.tx.syns - {id}), id, Finished(Err(Unreachable)))
            && after.arrivals == s.arrivals && after.sent == s.sent
  {
  }

  /** A registered call is under an id given out, and its message fits. */
  lemma CallKnown(s: Session, id: MsgId)
    requires NodeInv(s) && id in s.tx.tasks
    ensures MessagesFit(s) && id < s.tx.nextId && |s.tx.tasks[id].message| <= MAX_MESSAGE_SIZE && SegmentsOf(s.tx.tasks[id]) > 0
    ensures s.tx.tasks[id].phase.Transfer? <==> id in s.tx.pending
    ensures id in s.tx.pending ==> PendingOk(s.tx.pending[id], id, s.tx.tasks[id], s.arrivals)
  {
    assert SenderInv(s.tx, s.arrivals);
    CastsAreExact(|s.tx.tasks[id].message|);
  }

  lemma SynRepeated(sent: seq<Sent>, t: Task, id: MsgId, flags: seq<bool>, arrivals: seq<Arrival>)
    requires t.phase.Handshake? && TaskWritten(sent, t, id, flags, arrivals) && |t.message| <= MAX_MESSAGE_SIZE
    ensures if t.phase.attempt < 4
            then TaskWritten(sent + [SynPacket(t.dest, id)], t.(phase := Handshake(t.phase.attempt + 1)), id, flags, arrivals)
            else TaskWritten(sent, t.(phase := Finished(Err(Unreachable))), id, flags, arrivals)
  {
    OneMoreSyn(sent, t, id);
    PhaseOnly(sent, t, t.(phase := Finished(Err(Unreachable))), id);
    PhaseOnly(sent + [SynPacket(t.dest, id)], t, t.(phase := Handshake(t.phase.attempt + 1)), id);
  }

  /** The counts do not depend on the phase. */
  lemma PhaseOnly(sent: seq<Sent>, t: Task, u: Task, id: MsgId)
    requires u == t.(phase := u.phase)
    ensures SynCount(sent, u, id) == SynCount(sent, t, id)
    ensures forall n: nat :: AllAtMost(sent, t, id, n) ==> AllAtMost(sent, u, id, n)
    ensures forall i: u16, acked: bool, n: nat :: SegmentWritten(sent, t, id, i, acked, n) ==> SegmentWritten(sent, u, id, i, acked, n)
  {
    forall n: nat | AllAtMost(sent, t, id, n)
      ensures AllAtMost(sent, u, id, n)
    {
      forall i: u16 | i < SegmentsOf(u)
        ensures WrittenAtMost(sent, u, id, i, n)
      {
        assert WrittenAtMost(sent, t, id, i, n);
      }
    }
  }

  lemma HandshakeTimeoutKeepsWritten(s: Session, id: MsgId)
    requires NodeInv(s) && WrittenInv(s) && InPhaseHandshake(s, id)
    ensures WrittenInv(OnHandshakeTimeout(s, id))
  {
    var t, after := s.tx.tasks[id], OnHandshakeTimeout(s, id);
    CallKnown(s, id);
    DecodeOfControl(SynHeader(id));
    SynRepeated(s.sent, t, id, FlagsOf(s.tx, id), s.arrivals);
    if t.phase.attempt < 4 {
      SynAgainEffect(s, id, t.phase.attempt + 1);
      OnlyPhaseMoves(s, after, id, Handshake(t.phase.attempt + 1), SynPacket(t.dest, id));
    } else {
      UnreachableEffect(s, id);
      AwaitingGoes(s, after, id, Finished(Err(Unreachable)), SynPacket(t.dest, id));
    }
    MoveKeepsWritten(s, after, id, SynPacket(t.dest, id));
  }

  lemma NothingYet(sent: seq<Sent>, t: Task, id: MsgId, flags: seq<bool>, arrivals: seq<Arrival>, total: u16)
    requires t.phase.Handshake? && TaskWritten(sent, t, id, flags, arrivals) && total == SegmentsOf(t)
    ensures TaskWritten(sent, t.(phase := Transfer(0, 0)), id, seq(total, _ => false), arrivals)
  {
    var u, none := t.(phase := Transfer(0, 0)), seq(total, _ => false);
    PhaseOnly(sent, t, u, id);
    forall i: u16 | i < total
      ensures SegmentWritten(sent, u, id, i, none[i], BurstsPast(i, 0, 0))
    {
      assert WrittenAtMost(sent, u, id, i, 0);
    }
  }

  lemma DoneMoves(s: Session, id: MsgId)
    requires InPhaseHandshake(s, id) && id < s.tx.nextId && SegmentsOf(s.tx.tasks[id]) > 0
    ensures var t, after := s.tx.tasks[id], OnHandshakeDone(s, id);
            && MovesOnly(s, after, id, SynPacket(t.dest, id)) && FlagsOf(after.tx, id) == seq(SegmentsOf(t), _ => false) && TaskAwaits(after.tx, id)
            && after.tx.tasks[id] == t.(phase := Transfer(0, 0)) && after.sent == s.sent
  {
    DecodeOfControl(SynHeader(id));
    assert !OnHandshakeDone(s, id).tx.pending[id].acked[0];
  }

  lemma HandshakeDoneKeepsWritten(s: Session, id: MsgId)
    requires NodeInv(s) && WrittenInv(s) && InPhaseHandshake(s, id)
    ensures WrittenInv(OnHandshakeDone(s, id))
  {
    var t := s.tx.tasks[id];
    CallKnown(s, id);
    DoneMoves(s, id);
    NothingYet(s.sent, t, id, FlagsOf(s.tx, id), s.arrivals, SegmentsOf(t));
    MoveKeepsWritten(s, OnHandshakeDone(s, id), id, SynPacket(t.dest, id));
  }

  // ---------------------------------------------------------------- the transfer

  /** Copies of different segments are different packets. */
  lemma CopiesDiffer(t: Task, id: MsgId, i: u16, j: u16)
    requires |t.message| <= MAX_MESSAGE_SIZE && i < SegmentsOf(t) && j < SegmentsOf(t) && i != j
    requires i * FRAGMENT_SIZE <= |t.message| && j * FRAGMENT_SIZE <= |t.message|
    ensures DataPacket(id, t.message, i) != DataPacket(id, t.message, j)
  {
    ParseOfDataPacket(id, t.message, i);
    ParseOfDataPacket(id, t.message, j);
  }

  lemma TransmitWrites(s: Session, id: MsgId, i: u16)
    requires Enabled(s, Transmit(id)) && i == s.tx.tasks[id].phase.cursor && |s.tx.tasks[id].message| <= MAX_MESSAGE_SIZE
    requires i * FRAGMENT_SIZE <= |s.tx.tasks[id].message| && id in s.tx.pending && i < |s.tx.pending[id].acked|
    ensures var t, after := s.tx.tasks[id], OnTransmit(s, id);
            && after.arrivals == s.arrivals && after.tx == WithPhase(s.tx, id, Transfer(t.phase.attempt, i + 1))
            && after.sent == s.sent + if s.tx.pending[id].acked[i] then [] else [Sent(t.dest, DataPacket(id, t.message, i))]
  {
  }

  /** Whether the turn at the cursor writes is decided by the flag alone. */
  lemma TransmitMoves(s: Session, id: MsgId, i: u16)
    requires NodeInv(s) && Enabled(s, Transmit(id)) && i == s.tx.tasks[id].phase.cursor
    ensures i < SegmentsOf(s.tx.tasks[id]) && i * FRAGMENT_SIZE <= |s.tx.tasks[id].message| <= MAX_MESSAGE_SIZE
    ensures id in s.tx.pending && |s.tx.pending[id].acked| == SegmentsOf(s.tx.tasks[id])
    ensures var t, after := s.tx.tasks[id], OnTransmit(s, id);
            && after.arrivals == s.arrivals && after.tx == WithPhase(s.tx, id, Transfer(t.phase.attempt, i + 1))
            && after.sent == s.sent + if s.tx.pending[id].acked[i] then [] else [Sent(t.dest, DataPacket(id, t.message, i))]
  {
    CallKnown(s, id);
    CastsAreExact(|s.tx.tasks[id].message|);
    TransmitWrites(s, id, i);
  }

  lemma CopyHeader(t: Task, id: MsgId, i: u16)
    requires |t.message| <= MAX_MESSAGE_SIZE && i < SegmentsOf(t) && i * FRAGMENT_SIZE <= |t.message|
    ensures var p := DataPacket(id, t.message, i);
            Decode(p).Some? && Decode(p).value.pktType.Data? && Decode(p).value.msgId == id
  {
    ParseOfDataPacket(id, t.message, i);
  }

  /** One more copy of segment `i`: the others keep their counts. */
  lemma OneMoreCopy(sent: seq<Sent>, t: Task, id: MsgId, i: u16, j: u16, acked: bool, n: nat)
    requires |t.message| <= MAX_MESSAGE_SIZE && i < SegmentsOf(t) && j < SegmentsOf(t) && i * FRAGMENT_SIZE <= |t.message|
    requires SegmentWritten(sent, t, id, j, acked, n)
    ensures SegmentWritten(sent + [Sent(t.dest, DataPacket(id, t.message, i))], t, id, j, acked, if i == j then n + 1 else n)
  {
    var p, q := Sent(t.dest, DataPacket(id, t.message, i)), Sent(t.dest, DataPacket(id, t.message, j));
    OneMore(sent, p, q);
    if i != j {
      CopiesDiffer(t, id, i, j);
    }
  }

  /** The cursor moves past segment `i`, which is written unless it is acknowledged. */
  lemma TurnWritten(sent: seq<Sent>, t: Task, id: MsgId, flags: seq<bool>, i: u16, more: seq<Sent>)
    requires |t.message| <= MAX_MESSAGE_SIZE && t.phase.Transfer? && i == t.phase.cursor < |flags| == SegmentsOf(t) && i * FRAGMENT_SIZE <= |t.message|
    requires BurstsWritten(sent, t, id, flags, t.phase.attempt, i)
    requires more == sent + if flags[i] then [] else [Sent(t.dest, DataPacket(id, t.message, i))]
    ensures BurstsWritten(more, t, id, flags, t.phase.attempt, i + 1)
  {
    forall j: u16 | j < |flags|
      ensures SegmentWritten(more, t, id, j, flags[j], BurstsPast(j, t.phase.attempt, i + 1))
    {
      assert SegmentWritten(sent, t, id, j, flags[j], BurstsPast(j, t.phase.attempt, i));
      if flags[i] {
        assert more == sent;
      } else {
        OneMoreCopy(sent, t, id, i, j, flags[j], BurstsPast(j, t.phase.attempt, i));
      }
    }
  }

  lemma CopyIsNoSyn(sent: seq<Sent>, t: Task, id: MsgId, i: u16)
    requires |t.message| <= MAX_MESSAGE_SIZE && i < SegmentsOf(t) && i * FRAGMENT_SIZE <= |t.message|
    ensures SynCount(sent + [Sent(t.dest, DataPacket(id, t.message, i))], t, id) == SynCount(sent, t, id)
  {
    SynIsNoCopy(t.dest, t, id, i);
    OneMore(sent, Sent(t.dest, DataPacket(id, t.message, i)), SynPacket(t.dest, id));
  }

  lemma TurnKeepsTask(sent: seq<Sent>, t: Task, id: MsgId, flags: seq<bool>, arrivals: seq<Arrival>, i: u16, more: seq<Sent>)
    requires |t.message| <= MAX_MESSAGE_SIZE && t.phase.Transfer? && i == t.phase.cursor < |flags| == SegmentsOf(t) && i * FRAGMENT_SIZE <= |t.message|
    requires TaskWritten(sent, t, id, flags, arrivals)
    requires more == sent + if flags[i] then [] else [Sent(t.dest, DataPacket(id, t.message, i))]
    ensures TaskWritten(more, t.(phase := Transfer(t.phase.attempt, i + 1)), id, flags, arrivals)
  {
    var u := t.(phase := Transfer(t.phase.attempt, i + 1));
    TurnWritten(sent, t, id, flags, i, more);
    if flags[i] {
      assert more == sent;
    } else {
      CopyIsNoSyn(sent, t, id, i);
    }
    PhaseOnly(more, t, u, id);
    assert BurstsWritten(more, u, id, flags, t.phase.attempt, i + 1);
  }

  lemma TransmitKeepsWritten(s: Session, id: MsgId)
    requires NodeInv(s) && WrittenInv(s) && Enabled(s, Transmit(id))
    ensures WrittenInv(OnTransmit(s, id))
  {
    var t := s.tx.tasks[id];
    var i: u16 := t.phase.cursor;
    CallKnown(s, id);
    TransmitMoves(s, id, i);
    CopyHeader(t, id, i);
    TurnKeepsTask(s.sent, t, id, FlagsOf(s.tx, id), s.arrivals, i, OnTransmit(s, id).sent);
    OnlyPhaseMoves(s, OnTransmit(s, id), id, Transfer(t.phase.attempt, i + 1), Sent(t.dest, DataPacket(id, t.message, i)));
    MoveKeepsWritten(s, OnTransmit(s, id), id, Sent(t.dest, DataPacket(id, t.message, i)));
  }

  /** The pending entry goes with the phase. */
  lemma EntryGoes(s: Session, after: Session, id: MsgId, phase: Phase, p: Sent)
    requires id in s.tx.tasks && id < s.tx.nextId && after.arrivals == s.arrivals && after.sent == s.sent
    requires after.tx == WithPhase(s.tx.(pending := s.tx.pending - {id}), id, phase) && phase.Finished?
    requires Decode(p.packet).Some? && Decode(p.packet).value.msgId == id
    ensures MovesOnly(s, after, id, p) && TaskAwaits(after.tx, id) && FlagsOf(after.tx, id) == []
    ensures after.tx.tasks[id] == s.tx.tasks[id].(phase := phase)
  {
  }

  /** The entry is marked as not notified. */
  lemma EntryWaits(s: Session, after: Session, id: MsgId, p: Sent)
    requires id in s.tx.tasks && id in s.tx.pending && id < s.tx.nextId && !AllAcked(s.tx.pending[id].acked)
    requires after == s.(tx := s.tx.(pending := s.tx.pending[id := s.tx.pending[id].(notified := false)]))
    requires Decode(p.packet).Some? && Decode(p.packet).value.msgId == id && TaskAwaits(s.tx, id)
    ensures MovesOnly(s, after, id, p) && TaskAwaits(after.tx, id) && FlagsOf(after.tx, id) == FlagsOf(s.tx, id)
    ensures after.tx.tasks[id] == s.tx.tasks[id]
  {
  }

  lemma AtMostTwelve(sent: seq<Sent>, t: Task, id: MsgId, flags: seq<bool>, attempt: nat, cursor: nat, i: u16)
    requires BurstsWritten(sent, t, id, flags, attempt, cursor) && attempt < 12 && i < |flags|
    ensures WrittenAtMost(sent, t, id, i, 12)
  {
    assert SegmentWritten(sent, t, id, i, flags[i], BurstsPast(i, attempt, cursor));
  }

  lemma WakeKeepsWritten(s: Session, id: MsgId)
    requires NodeInv(s) && WrittenInv(s) && Enabled(s, Wake(id))
    ensures WrittenInv(OnWake(s, id))
  {
    var t, after := s.tx.tasks[id], OnWake(s, id);
    CallKnown(s, id);
    DecodeOfControl(SynHeader(id));
    if AllAcked(s.tx.pending[id].acked) {
      FinishedWell(s.sent, t, id, FlagsOf(s.tx, id), s.arrivals, []);
      EntryGoes(s, after, id, Finished(Ok(id)), SynPacket(t.dest, id));
    } else {
      EntryWaits(s, after, id, SynPacket(t.dest, id));
    }
    MoveKeepsWritten(s, after, id, SynPacket(t.dest, id));
  }

  lemma FinishedWell(sent: seq<Sent>, t: Task, id: MsgId, flags: seq<bool>, arrivals: seq<Arrival>, more: seq<bool>)
    requires t.phase.Transfer? && TaskWritten(sent, t, id, flags, arrivals)
    ensures TaskWritten(sent, t.(phase := Finished(Ok(id))), id, more, arrivals)
  {
    var u := t.(phase := Finished(Ok(id)));
    forall i: u16 | i < SegmentsOf(t)
      ensures WrittenAtMost(sent, u, id, i, 12)
    {
      AtMostTwelve(sent, t, id, flags, t.phase.attempt, t.phase.cursor, i);
    }
  }

  /** The next burst starts over, or after the twelfth the call gives up. */
  lemma BurstOver(sent: seq<Sent>, t: Task, id: MsgId, flags: seq<bool>, arrivals: seq<Arrival>, more: seq<bool>)
    requires t.phase.Transfer? && t.phase.cursor >= SegmentsOf(t) && TaskWritten(sent, t, id, flags, arrivals)
    requires forall i: u16 :: i < |flags| && flags[i] ==> AckArrived(arrivals, id, i)
    ensures if t.phase.attempt < 11
            then TaskWritten(sent, t.(phase := Transfer(t.phase.attempt + 1, 0)), id, flags, arrivals)
            else TaskWritten(sent, t.(phase := Finished(Err(MaxRetriesExceeded))), id, more, arrivals)
  {
    var u := t.(phase := Transfer(t.phase.attempt + 1, 0));
    var v := t.(phase := Finished(Err(MaxRetriesExceeded)));
    forall i: u16 | i < SegmentsOf(t)
      ensures SegmentWritten(sent, u, id, i, flags[i], t.phase.attempt + 1) && SegmentWritten(sent, v, id, i, flags[i], t.phase.attempt + 1)
    {
      assert SegmentWritten(sent, t, id, i, flags[i], BurstsPast(i, t.phase.attempt, t.phase.cursor));
    }
    if t.phase.attempt < 11 {
      assert BurstsWritten(sent, u, id, flags, t.phase.attempt + 1, 0);
    } else {
      forall i: u16 | i < SegmentsOf(v)
        ensures UsedUp(sent, v, id, i, arrivals)
      {
        assert SegmentWritten(sent, v, id, i, flags[i], 12);
      }
    }
  }

  lemma RetryKeepsWritten(s: Session, id: MsgId)
    requires InPhaseTransfer(s, id) && s.tx.tasks[id].phase.attempt < 11 && s.tx.tasks[id].phase.cursor >= SegmentsOf(s.tx.tasks[id])
    requires NodeInv(s) && WrittenInv(s)
    ensures WrittenInv(OnTransferTimeout(s, id))
  {
    var t := s.tx.tasks[id];
    CallKnown(s, id);
    DecodeOfControl(SynHeader(id));
    BurstOver(s.sent, t, id, FlagsOf(s.tx, id), s.arrivals, []);
    RetryEffect(s, id, t.phase.attempt + 1);
    var after := s.(tx := WithPhase(s.tx, id, Transfer(t.phase.attempt + 1, 0)));
    OnlyPhaseMoves(s, after, id, Transfer(t.phase.attempt + 1, 0), SynPacket(t.dest, id));
    MoveKeepsWritten(s, after, id, SynPacket(t.dest, id));
  }

  lemma GivingUpEffect(s: Session, id: MsgId)
    requires InPhaseTransfer(s, id) && s.tx.tasks[id].phase.attempt >= 11
    ensures OnTransferTimeout(s, id) == s.(tx := WithPhase(s.tx.(pending := s.tx.pending - {id}), id, Finished(Err(MaxRetriesExceeded))))
  {
  }

  lemma GivingUpKeepsWritten(s: Session, id: MsgId)
    requires InPhaseTransfer(s, id) && s.tx.tasks[id].phase.attempt >= 11 && s.tx.tasks[id].phase.cursor >= SegmentsOf(s.tx.tasks[id])
    requires NodeInv(s) && WrittenInv(s)
    ensures WrittenInv(OnTransferTimeout(s, id))
  {
    var t := s.tx.tasks[id];
    CallKnown(s, id);
    DecodeOfControl(SynHeader(id));
    BurstOver(s.sent, t, id, FlagsOf(s.tx, id), s.arrivals, []);
    GivingUpEffect(s, id);
    var after := s.(tx := WithPhase(s.tx.(pending := s.tx.pending - {id}), id, Finished(Err(MaxRetriesExceeded))));
    EntryGoes(s, after, id, Finished(Err(MaxRetriesExceeded)), SynPacket(t.dest, id));
    MoveKeepsWritten(s, after, id, SynPacket(t.dest, id));
  }

  lemma TransferTimeoutKeepsWritten(s: Session, id: MsgId)
    requires NodeInv(s) && WrittenInv(s) && Enabled(s, TransferTimeout(id))
    ensures WrittenInv(OnTransferTimeout(s, id))
  {
    if s.tx.tasks[id].phase.attempt < 11 {
      RetryKeepsWritten(s, id);
    } else {
      GivingUpKeepsWritten(s, id);
    }
  }

  // ---------------------------------------------------------------- runs

  lemma StepKeepsWritten(s: Session, a: Action)
    requires NodeInv(s) && WrittenInv(s) && Enabled(s, a) && MessagesFit(s)
    ensures WrittenInv(Apply(s, a))
  {
    match a
    case Read(src, packet, now, victim) => ReadKeepsWritten(s, src, packet, now, victim);
    case Begin(dest, message) => BeginKeepsWritten(s, dest, message);
    case HandshakeTimeout(id) => HandshakeTimeoutKeepsWritten(s, id);
    case HandshakeDone(id) => HandshakeDoneKeepsWritten(s, id);
    case Transmit(id) => TransmitKeepsWritten(s, id);
    case Wake(id) => WakeKeepsWritten(s, id);
    case TransferTimeout(id) => TransferTimeoutKeepsWritten(s, id);
    case Cleanup(now) =>
  }

  ghost predicate AllWritten(m: Mesh) {
    forall n :: n in m ==> WrittenInv(m[n])
  }

  lemma NextKeepsWritten(m: Mesh, after: Mesh)
    requires MeshInv(m) && AllWritten(m) && Next(m, after)
    ensures AllWritten(after)
  {
    var n: Key, a: Action :| n in m && CanHappen(m, n, a) && MessagesFit(m[n]) && after == m[n := Apply(m[n], a)];
    NodeStepsWritten(m[n], a, after[n]);
    OneNodeWritten(m, n, after[n], after);
  }

  lemma OneNodeWritten(m: Mesh, n: Key, s: Session, after: Mesh)
    requires AllWritten(m) && WrittenInv(s) && after == m[n := s]
    ensures AllWritten(after)
  {
  }

  lemma NodeStepsWritten(s: Session, a: Action, after: Session)
    requires NodeInv(s) && WrittenInv(s) && Enabled(s, a) && (MessagesFit(s) ==> after == Apply(s, a))
    ensures WrittenInv(after)
  {
    assert MessagesFit(s) by {
      assert SenderInv(s.tx, s.arrivals);
    }
    StepKeepsWritten(s, a);
  }

  lemma {:induction false} RunsKeepWritten(run: seq<Mesh>, i: nat)
    requires IsRun(run) && i < |run|
    ensures MeshInv(run[i]) && AllWritten(run[i])
  {
    RunsKeepInvariant(run, i);
    if i > 0 {
      RunsKeepWritten(run, i - 1);
      NextKeepsWritten(run[i - 1], run[i]);
    }
  }

  /**
   * At every moment of every run each call of `send` has written just what its
   * phase says: waiting for a SYN-ACK one SYN per attempt, five at most; in the
   * transfer one copy per burst of every segment below the cursor, fewer only of
   * an acknowledged one; unreachable, five SYNs and no segment; out of retries,
   * twelve copies of every segment that nobody has acknowledged.
   */
  lemma EveryCallWrites(run: seq<Mesh>, i: nat, n: Key, id: MsgId)
    requires IsRun(run) && i < |run| && n in run[i] && id in run[i][n].tx.tasks
    ensures var s := run[i][n];
            TaskWritten(s.sent, s.tx.tasks[id], id, FlagsOf(s.tx, id), s.arrivals)
  {
    RunsKeepWritten(run, i);
  }

  /** One turn of a burst writes the segment at its cursor if and only if its flag is unset. */
  lemma TurnWritesUnacknowledged(run: seq<Mesh>, i: nat, n: Key, id: MsgId, at: u16)
    requires IsRun(run) && i < |run| && n in run[i] && id in run[i][n].tx.tasks
    requires run[i][n].tx.tasks[id].phase.Transfer? && run[i][n].tx.tasks[id].phase.cursor == at < SegmentsOf(run[i][n].tx.tasks[id])
    ensures id in run[i][n].tx.pending && at < |run[i][n].tx.pending[id].acked| && Enabled(run[i][n], Transmit(id)) && MessagesFit(run[i][n])
    ensures at * FRAGMENT_SIZE <= |run[i][n].tx.tasks[id].message|
    ensures var s, t := run[i][n], run[i][n].tx.tasks[id];
            Apply(s, Transmit(id)).sent ==
              if s.tx.pending[id].acked[at] then s.sent else s.sent + [Sent(t.dest, DataPacket(id, t.message, at))]
  {
    RunsKeepInvariant(run, i);
    TransmitMoves(run[i][n], id, at);
    CallKnown(run[i][n], id);
  }
}
