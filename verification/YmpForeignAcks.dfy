// What foreign acknowledgements are enough for: the reader's ACK arm looks at
// the message id and the segment, not at the source.
module YmpForeignAcks {
  import opened Bytes
  import opened Wrappers
  import opened YmpWire
  import opened YmpSegments
  import opened YmpState
  import opened YmpReceiverProofs
  import opened YmpMesh

  lemma RunGrows(run: seq<Mesh>, m: Mesh, next: Mesh)
    requires IsRun(run) && m == run[|run| - 1] && Next(m, next)
    ensures IsRun(run + [next])
  {
    var longer := run + [next];
    forall i | 0 <= i < |longer| - 1
      ensures Next(longer[i], longer[i + 1])
    {
      if i < |run| - 1 {
        assert longer[i] == run[i] && longer[i + 1] == run[i + 1];
      } else {
        assert longer[i] == m;
      }
    }
  }

  lemma ReachedFits(run: seq<Mesh>, m: Mesh, n: Key)
    requires IsRun(run) && m == run[|run| - 1] && n in m
    ensures MessagesFit(m[n])
  {
    RunsKeepInvariant(run, |run| - 1);
    assert SenderInv(m[n].tx, m[n].arrivals);
  }

  lemma ActionIsNext(m: Mesh, n: Key, a: Action)
    requires n in m && CanHappen(m, n, a) && MessagesFit(m[n])
    ensures Next(m, m[n := Apply(m[n], a)])
  {
  }

  /** The run goes on by one action of one node. */
  lemma Goes(run: seq<Mesh>, m: Mesh, n: Key, a: Action)
    requires IsRun(run) && m == run[|run| - 1] && n in m && CanHappen(m, n, a)
    ensures MessagesFit(m[n]) && IsRun(run + [m[n := Apply(m[n], a)]])
  {
    ReachedFits(run, m, n);
    ActionIsNext(m, n, a);
    RunGrows(run, m, m[n := Apply(m[n], a)]);
  }

  /** One node's action, out of any mesh. */
  ghost predicate StepsTo(s: Session, a: Action, after: Session) {
    Enabled(s, a) && (MessagesFit(s) ==> after == Apply(s, a))
  }

  lemma Advance(run: seq<Mesh>, m: Mesh, n: Key, a: Action, s: Session) returns (longer: seq<Mesh>, after: Mesh)
    requires IsRun(run) && m == run[|run| - 1] && n in m && StepsTo(m[n], a, s)
    requires a.Read? && a.src in m ==> WasSent(m, a.src, n, a.packet)
    ensures IsRun(longer) && run <= longer && after == m[n := s] && after == longer[|longer| - 1]
  {
    Goes(run, m, n, a);
    after := m[n := s];
    longer := run + [after];
  }

  /** Node `n` alone has moved, and only its sending half; this call of `send` is still for the same message. */
  ghost predicate OnlySends(m: Mesh, after: Mesh, n: Key, id: MsgId)
    requires n in m && id in m[n].tx.tasks
  {
    && after.Keys == m.Keys
    && (forall k :: k in m && k != n ==> after[k] == m[k])
    && after[n].rx == m[n].rx
    && id in after[n].tx.tasks
    && after[n].tx.tasks[id].dest == m[n].tx.tasks[id].dest
    && after[n].tx.tasks[id].message == m[n].tx.tasks[id].message
  }

  predicate InTransfer(m: Mesh, n: Key, id: MsgId) {
    n in m && InPhaseTransfer(m[n], id)
  }

  function CursorOf(m: Mesh, n: Key, id: MsgId): nat
    requires InTransfer(m, n, id)
  {
    m[n].tx.tasks[id].phase.cursor
  }

  lemma OnlySendsMore(m: Mesh, middle: Mesh, after: Mesh, n: Key, id: MsgId)
    requires n in m && id in m[n].tx.tasks && OnlySends(m, middle, n, id) && OnlySends(middle, after, n, id)
    ensures OnlySends(m, after, n, id)
  {
  }

  /** One segment of the burst. */
  lemma BurstGoesOn(run: seq<Mesh>, m: Mesh, n: Key, id: MsgId) returns (longer: seq<Mesh>, next: Mesh)
    requires IsRun(run) && m == run[|run| - 1] && InTransfer(m, n, id) && CursorOf(m, n, id) < SegmentsOf(m[n].tx.tasks[id])
    ensures IsRun(longer) && run <= longer && next == longer[|longer| - 1] && OnlySends(m, next, n, id)
    ensures next[n].arrivals == m[n].arrivals && next[n].tx.pending == m[n].tx.pending
    ensures InTransfer(next, n, id) && CursorOf(next, n, id) == CursorOf(m, n, id) + 1
  {
    Goes(run, m, n, Transmit(id));
    next := m[n := OnTransmit(m[n], id)];
    longer := run + [next];
  }

  /** The burst is sent to its end. */
  lemma {:induction false} BurstEnds(run: seq<Mesh>, m: Mesh, n: Key, id: MsgId) returns (longer: seq<Mesh>, after: Mesh)
    requires IsRun(run) && m == run[|run| - 1] && InTransfer(m, n, id)
    ensures IsRun(longer) && run <= longer && after == longer[|longer| - 1] && OnlySends(m, after, n, id)
    ensures after[n].arrivals == m[n].arrivals && after[n].tx.pending == m[n].tx.pending
    ensures InTransfer(after, n, id) && CursorOf(after, n, id) >= SegmentsOf(after[n].tx.tasks[id])
    decreases SegmentsOf(m[n].tx.tasks[id]) - CursorOf(m, n, id)
  {
    if CursorOf(m, n, id) >= SegmentsOf(m[n].tx.tasks[id]) {
      longer, after := run, m;
    } else {
      var middle;
      longer, middle := BurstGoesOn(run, m, n, id);
      longer, after := BurstEnds(longer, middle, n, id);
      OnlySendsMore(m, middle, after, n, id);
    }
  }

  ghost predicate AckedBelow(s: Session, id: MsgId, j: nat)
    requires id in s.tx.tasks
  {
    && id in s.tx.pending && j <= |s.tx.pending[id].acked| == SegmentsOf(s.tx.tasks[id]) == s.tx.pending[id].total
    && (forall i :: 0 <= i < j ==> s.tx.pending[id].acked[i])
    && (j == |s.tx.pending[id].acked| ==> s.tx.pending[id].notified)
  }

  /** Reading one ACK, whoever sent it. */
  lemma AckCounts(s: Session, x: Key, id: MsgId, j: u16, k: BufferKey) returns (after: Session)
    requires s.rx.alive && id in s.tx.tasks && AckedBelow(s, id, j) && j < SegmentsOf(s.tx.tasks[id])
    ensures StepsTo(s, Read(x, Encoded(AckHeader(id, j)), 0, k), after)
    ensures after.tx.tasks == s.tx.tasks && after.rx == s.rx && AckedBelow(after, id, j + 1)
  {
    DecodeOfControl(AckHeader(id, j));
    after := OnPacket(s, x, Encoded(AckHeader(id, j)), 0, k);
  }

  /** One foreign ACK is read. */
  lemma ForeignAckCounts(run: seq<Mesh>, m: Mesh, n: Key, x: Key, id: MsgId, j: u16) returns (longer: seq<Mesh>, next: Mesh)
    requires IsRun(run) && m == run[|run| - 1] && InTransfer(m, n, id) && AckedBelow(m[n], id, j) && j < SegmentsOf(m[n].tx.tasks[id])
    requires x !in m && m[n].rx.alive
    ensures IsRun(longer) && run <= longer && next == longer[|longer| - 1] && OnlySends(m, next, n, id)
    ensures next[n].tx.tasks == m[n].tx.tasks && AckedBelow(next[n], id, j + 1)
  {
    var k: BufferKey := (id, x);
    var s := AckCounts(m[n], x, id, j, k);
    longer, next := Advance(run, m, n, Read(x, Encoded(AckHeader(id, j)), 0, k), s);
  }

  /** A foreign key acknowledges the segments from `j` on, one ACK each. */
  lemma {:induction false} ForeignAcksCount(run: seq<Mesh>, m: Mesh, n: Key, x: Key, id: MsgId, j: nat) returns (longer: seq<Mesh>, after: Mesh)
    requires IsRun(run) && m == run[|run| - 1] && InTransfer(m, n, id) && AckedBelow(m[n], id, j)
    requires x !in m && m[n].rx.alive
    ensures IsRun(longer) && run <= longer && after == longer[|longer| - 1] && OnlySends(m, after, n, id)
    ensures after[n].tx.tasks == m[n].tx.tasks && AckedBelow(after[n], id, SegmentsOf(m[n].tx.tasks[id]))
    decreases SegmentsOf(m[n].tx.tasks[id]) - j
  {
    if j == SegmentsOf(m[n].tx.tasks[id]) {
      longer, after := run, m;
    } else {
      var middle;
      longer, middle := ForeignAckCounts(run, m, n, x, id, j);
      longer, after := ForeignAcksCount(longer, middle, n, x, id, j + 1);
      OnlySendsMore(m, middle, after, n, id);
    }
  }

  lemma BeforeAcks(run: seq<Mesh>, m: Mesh, n: Key, id: MsgId)
    requires IsRun(run) && m == run[|run| - 1] && InTransfer(m, n, id)
    ensures AckedBelow(m[n], id, 0)
  {
    RunsKeepInvariant(run, |run| - 1);
    assert PendingOk(m[n].tx.pending[id], id, m[n].tx.tasks[id], m[n].arrivals);
    CastsAreExact(|m[n].tx.tasks[id].message|);
  }

  /** With every segment acknowledged `send` wakes up and succeeds. */
  lemma WakeSucceeds(s: Session, id: MsgId)
    requires InPhaseTransfer(s, id) && s.tx.tasks[id].phase.cursor >= SegmentsOf(s.tx.tasks[id])
    requires AckedBelow(s, id, SegmentsOf(s.tx.tasks[id]))
    ensures Enabled(s, Wake(id))
    ensures var after := OnWake(s, id);
            && after.rx == s.rx && id in after.tx.tasks && Succeeded(after.tx.tasks[id])
            && after.tx.tasks[id].dest == s.tx.tasks[id].dest && after.tx.tasks[id].message == s.tx.tasks[id].message
  {
  }

  /**
   * The other half of acknowledgement soundness: one foreign ACK per segment is
   * enough. From any reachable state in which a `send` is past its handshake and
   * its reader lives, that `send` can return Ok while no other node of the mesh,
   * its destination included, moves at all.
   */
  lemma ForeignAcksSuffice(run: seq<Mesh>, m: Mesh, n: Key, x: Key, id: MsgId) returns (longer: seq<Mesh>, after: Mesh)
    requires IsRun(run) && m == run[|run| - 1] && InTransfer(m, n, id) && x !in m && m[n].rx.alive
    ensures IsRun(longer) && run <= longer && after == longer[|longer| - 1]
    ensures OnlySends(m, after, n, id) && Succeeded(after[n].tx.tasks[id])
  {
    var sent, burst := BurstEnds(run, m, n, id);
    BeforeAcks(sent, burst, n, id);
    var acked, all := ForeignAcksCount(sent, burst, n, x, id, 0);
    WakeSucceeds(all[n], id);
    Goes(acked, all, n, Wake(id));
    after := all[n := Apply(all[n], Wake(id))];
    longer := acked + [after];
  }

  // ---------------------------------------------------------------- a run in which it happens

  /** What the destination has of message 0 from `n`: no segment, no buffer dropped, nothing handed over. */
  ghost predicate NothingArrived(s: Session, n: Key) {
    && s.rx.delivered == [] && s.rx.dropped == {}
    && forall j: nat :: !IndexArrived(s.arrivals, (0, n), j)
  }

  lemma Begun(d: Key, message: bytes) returns (s: Session)
    requires |message| <= MAX_MESSAGE_SIZE
    ensures StepsTo(INITIAL, Begin(d, message), s) && s.sent == [SynPacket(d, 0)] && s.rx.alive
    ensures s.tx.tasks == map[0 := Task(d, message, Handshake(0))] && s.tx.syns == map[0 := PendingSyn(d, false)]
  {
    s := OnBegin(INITIAL, d, message);
  }

  lemma SynAckRead(s: Session, d: Key, k: BufferKey) returns (after: Session)
    requires s.rx.alive && 0 in s.tx.syns && s.tx.syns[0].expectedSrc == d
    ensures StepsTo(s, Read(d, Encoded(SynAckHeader(0)), 0, k), after)
    ensures after.rx == s.rx && after.tx.tasks == s.tx.tasks && 0 in after.tx.syns && after.tx.syns[0].notified
  {
    DecodeOfControl(SynAckHeader(0));
    after := OnPacket(s, d, Encoded(SynAckHeader(0)), 0, k);
  }

  /** The handshake from the side of the caller of `send`. */
  lemma CallerSide(d: Key, message: bytes, k: BufferKey) returns (s1: Session, s2: Session, s3: Session)
    requires |message| <= MAX_MESSAGE_SIZE
    ensures StepsTo(INITIAL, Begin(d, message), s1) && s1.sent == [SynPacket(d, 0)]
    ensures StepsTo(s1, Read(d, Encoded(SynAckHeader(0)), 0, k), s2)
    ensures StepsTo(s2, HandshakeDone(0), s3)
    ensures s3.rx.alive && InPhaseTransfer(s3, 0) && s3.tx.tasks[0].message == message && s3.tx.tasks[0].dest == d
  {
    s1 := Begun(d, message);
    s2 := SynAckRead(s1, d, k);
    s3 := OnHandshakeDone(s2, 0);
  }

  /** And from the side of the destination. */
  lemma CalleeSide(n: Key, k: BufferKey) returns (s: Session)
    ensures StepsTo(INITIAL, Read(n, Encoded(SynHeader(0)), 0, k), s)
    ensures s.sent == [Sent(n, Encoded(SynAckHeader(0)))] && NothingArrived(s, n)
  {
    DecodeOfControl(SynHeader(0));
    s := OnPacket(INITIAL, n, Encoded(SynHeader(0)), 0, k);
  }

  /** The first half of a handshake: Begin, and the SYN is read. */
  lemma Greeted(n: Key, d: Key, begin: Action, read: Action, s1: Session, answered: Session) returns (run: seq<Mesh>, m: Mesh)
    requires n != d && begin.Begin? && read.Read? && read.src == n && s1.sent == [Sent(d, read.packet)]
    requires StepsTo(INITIAL, begin, s1) && StepsTo(INITIAL, read, answered)
    ensures IsRun(run) && m == run[|run| - 1] && m.Keys == {n, d} && m[n] == s1 && m[d] == answered
  {
    var m0: Mesh := map[n := INITIAL, d := INITIAL];
    var run1, m1 := Advance([m0], m0, n, begin, s1);
    assert m1[n].sent[0] == Sent(d, read.packet);
    run, m := Advance(run1, m1, d, read, answered);
  }

  /** The second half: the SYN-ACK is read, and the transfer begins. */
  lemma Joins(run: seq<Mesh>, m: Mesh, n: Key, d: Key, read: Action, go: Action, s2: Session, s3: Session) returns (longer: seq<Mesh>, after: Mesh)
    requires IsRun(run) && m == run[|run| - 1] && n != d && m.Keys == {n, d}
    requires read.Read? && read.src == d && m[d].sent == [Sent(n, read.packet)] && !go.Read?
    requires StepsTo(m[n], read, s2) && StepsTo(s2, go, s3)
    ensures IsRun(longer) && after == longer[|longer| - 1] && after.Keys == {n, d} && after[n] == s3 && after[d] == m[d]
  {
    assert m[d].sent[0] == Sent(n, read.packet);
    var run1, m1 := Advance(run, m, n, read, s2);
    longer, after := Advance(run1, m1, n, go, s3);
  }

  lemma Handshaken(n: Key, d: Key, message: bytes) returns (run: seq<Mesh>, m: Mesh)
    requires n != d && |message| <= MAX_MESSAGE_SIZE
    ensures IsRun(run) && m == run[|run| - 1] && m.Keys == {n, d} && InTransfer(m, n, 0) && m[n].rx.alive
    ensures m[n].tx.tasks[0].message == message && m[n].tx.tasks[0].dest == d && NothingArrived(m[d], n)
  {
    var k: BufferKey := (0, n);
    var syn := Read(n, Encoded(SynHeader(0)), 0, k);
    var synAck := Read(d, Encoded(SynAckHeader(0)), 0, k);
    var s1, s2, s3 := CallerSide(d, message, k);
    var answered := CalleeSide(n, k);
    run, m := Greeted(n, d, Begin(d, message), syn, s1, answered);
    run, m := Joins(run, m, n, d, synAck, HandshakeDone(0), s2, s3);
  }

  /**
   * The failing input, for a message of any length: on a mesh of two nodes a
   * `send` returns Ok although its destination, which dropped nothing, has
   * received no segment and handed nothing over.
   */
  lemma OkWithoutDelivery(n: Key, d: Key, x: Key, message: bytes)
    requires n != d && x !in {n, d} && |message| <= MAX_MESSAGE_SIZE
    ensures exists run: seq<Mesh> ::
      && IsRun(run) && run[|run| - 1].Keys == {n, d}
      && 0 in run[|run| - 1][n].tx.tasks
      && var t := run[|run| - 1][n].tx.tasks[0];
         t.dest == d && t.message == message && Succeeded(t) && NothingArrived(run[|run| - 1][d], n)
  {
    var run, m := Handshaken(n, d, message);
    var longer, after := ForeignAcksSuffice(run, m, n, x, 0);
    assert after[d] == m[d];
  }
}
