// What a lossy mesh never takes away: from every reachable state a call of
// `send` under way has a continuation, of itself and its destination only, in
// which the message is handed over and the call returns Ok.
module YmpProgress {
  import opened Bytes
  import opened Wrappers
  import opened YmpWire
  import opened YmpSegments
  import opened YmpState
  import opened YmpReceiverProofs
  import opened YmpMesh
  import opened YmpForeignAcks
  import opened YmpWritten

  /** A call of `n` to a live destination that can take its message and has not dropped it. */
  ghost predicate OnTheWay(m: Mesh, n: Key, d: Key, id: MsgId, message: bytes) {
    && n in m && d in m && n != d && m[n].rx.alive && m[d].rx.alive
    && id in m[n].tx.tasks && m[n].tx.tasks[id].dest == d && m[n].tx.tasks[id].message == message
    && (id, n) !in m[d].rx.dropped
  }

  /** Every flag that is set stands for a segment that the destination has accepted. */
  ghost predicate FlagsEarned(m: Mesh, n: Key, id: MsgId)
    requires n in m && id in m[n].tx.tasks
  {
    forall i: u16 :: i < |FlagsOf(m[n].tx, id)| && FlagsOf(m[n].tx, id)[i] ==> Reached(m, n, id, i)
  }

  /** What arrived later came from `peer`. */
  ghost predicate ArrivedFrom(before: seq<Arrival>, after: seq<Arrival>, peer: Key) {
    |before| <= |after| && after[..|before|] == before && forall k :: |before| <= k < |after| ==> after[k].src == peer
  }

  /** Only these two nodes have moved, on nothing but each other's packets. */
  ghost predicate BetweenThem(m: Mesh, after: Mesh, n: Key, d: Key) {
    && n in m && d in m && after.Keys == m.Keys && (forall k :: k in m && k != n && k != d ==> after[k] == m[k])
    && ArrivedFrom(m[n].arrivals, after[n].arrivals, d) && ArrivedFrom(m[d].arrivals, after[d].arrivals, n)
  }

  lemma BetweenThemGoesOn(m: Mesh, middle: Mesh, after: Mesh, n: Key, d: Key)
    requires BetweenThem(m, middle, n, d) && BetweenThem(middle, after, n, d)
    ensures BetweenThem(m, after, n, d)
  {
    ArrivedGoesOn(m[n].arrivals, middle[n].arrivals, after[n].arrivals, d);
    ArrivedGoesOn(m[d].arrivals, middle[d].arrivals, after[d].arrivals, n);
  }

  lemma ArrivedGoesOn(a: seq<Arrival>, b: seq<Arrival>, c: seq<Arrival>, peer: Key)
    requires ArrivedFrom(a, b, peer) && ArrivedFrom(b, c, peer)
    ensures ArrivedFrom(a, c, peer)
  {
    forall k | |a| <= k < |c|
      ensures c[k].src == peer
    {
      if k < |b| {
        assert c[..|b|][k] == b[k];
      }
    }
    assert c[..|a|] == c[..|b|][..|a|];
  }

  lemma OneArrival(before: seq<Arrival>, a: Arrival)
    ensures ArrivedFrom(before, before + [a], a.src) && ArrivedFrom(before, before, a.src)
  {
  }

  // ---------------------------------------------------------------- the handshake

  lemma SynWritten(run: seq<Mesh>, m: Mesh, n: Key, id: MsgId)
    requires IsRun(run) && m == run[|run| - 1] && n in m && InPhaseHandshake(m[n], id)
    ensures WasSent(m, n, m[n].tx.tasks[id].dest, Encoded(SynHeader(id)))
    ensures id in m[n].tx.syns && m[n].tx.syns[id].expectedSrc == m[n].tx.tasks[id].dest
  {
    RunsKeepWritten(run, |run| - 1);
    var s, t := m[n], m[n].tx.tasks[id];
    assert TaskWritten(s.sent, t, id, FlagsOf(s.tx, id), s.arrivals) && TaskAwaits(s.tx, id);
    assert SynPacket(t.dest, id) in s.sent;
  }

  lemma SynReadBy(s: Session, n: Key, id: MsgId, now: Time, k: BufferKey) returns (after: Session)
    requires s.rx.alive
    ensures StepsTo(s, Read(n, Encoded(SynHeader(id)), now, k), after)
    ensures after.rx == s.rx && after.tx == s.tx && after.arrivals == s.arrivals + [Arrival(n, Encoded(SynHeader(id)), now)]
    ensures after.sent == s.sent + [Sent(n, Encoded(SynAckHeader(id)))]
  {
    DecodeOfControl(SynHeader(id));
    after := OnPacket(s, n, Encoded(SynHeader(id)), now, k);
  }

  lemma SynAckReadBy(s: Session, d: Key, id: MsgId, now: Time, k: BufferKey) returns (after: Session)
    requires s.rx.alive && InPhaseHandshake(s, id) && id in s.tx.syns && s.tx.syns[id].expectedSrc == d
    ensures StepsTo(s, Read(d, Encoded(SynAckHeader(id)), now, k), after)
    ensures after.rx == s.rx && after.tx.tasks == s.tx.tasks && id in after.tx.syns && after.tx.syns[id].notified
    ensures after.arrivals == s.arrivals + [Arrival(d, Encoded(SynAckHeader(id)), now)]
  {
    DecodeOfControl(SynAckHeader(id));
    after := OnPacket(s, d, Encoded(SynAckHeader(id)), now, k);
  }

  lemma DoneWithHandshake(s: Session, id: MsgId) returns (after: Session)
    requires InPhaseHandshake(s, id) && id in s.tx.syns && s.tx.syns[id].notified
    ensures StepsTo(s, HandshakeDone(id), after)
    ensures after.rx == s.rx && after.arrivals == s.arrivals && InPhaseTransfer(after, id)
    ensures after.tx.tasks[id].dest == s.tx.tasks[id].dest && after.tx.tasks[id].message == s.tx.tasks[id].message
    ensures FlagsOf(after.tx, id) == seq(SegmentsOf(s.tx.tasks[id]), _ => false)
  {
    after := OnHandshakeDone(s, id);
  }

  /** A SYN that is on the wire is read and answered, and the answer is read. */
  lemma HandshakeCompletes(run: seq<Mesh>, m: Mesh, n: Key, d: Key, id: MsgId, message: bytes, now: Time) returns (longer: seq<Mesh>, after: Mesh)
    requires IsRun(run) && m == run[|run| - 1] && OnTheWay(m, n, d, id, message) && InPhaseHandshake(m[n], id)
    ensures IsRun(longer) && run <= longer && after == longer[|longer| - 1]
    ensures OnTheWay(after, n, d, id, message) && InTransfer(after, n, id) && FlagsEarned(after, n, id) && BetweenThem(m, after, n, d)
  {
    SynWritten(run, m, n, id);
    var k: BufferKey := (id, n);
    var answered := SynReadBy(m[d], n, id, now, k);
    var run1, m1 := Advance(run, m, d, Read(n, Encoded(SynHeader(id)), now, k), answered);
    assert m1[d].sent[|m[d].sent|] == Sent(n, Encoded(SynAckHeader(id)));
    assert WasSent(m1, d, n, Encoded(SynAckHeader(id)));
    var told := SynAckReadBy(m1[n], d, id, now, k);
    var run2, m2 := Advance(run1, m1, n, Read(d, Encoded(SynAckHeader(id)), now, k), told);
    var through := DoneWithHandshake(m2[n], id);
    longer, after := Advance(run2, m2, n, HandshakeDone(id), through);
    OneArrival(m[d].arrivals, Arrival(n, Encoded(SynHeader(id)), now));
    OneArrival(m[n].arrivals, Arrival(d, Encoded(SynAckHeader(id)), now));
  }

  // ---------------------------------------------------------------- one segment

  lemma {:induction false} OldestExists(buffers: map<BufferKey, Buffer>, keys: set<BufferKey>) returns (k: BufferKey)
    requires keys != {} && forall x :: x in keys ==> x in buffers
    ensures k in keys && forall x :: x in keys ==> buffers[k].created <= buffers[x].created
    decreases |keys|
  {
    var first :| first in keys;
    var rest := keys - {first};
    assert forall x :: x in keys ==> x == first || x in rest;
    k := first;
    if rest != {} {
      var other := OldestExists(buffers, rest);
      if buffers[other].created < buffers[first].created {
        k := other;
      }
    }
  }

  /** A victim, if one is needed. */
  lemma VictimFor(rx: Receiver, src: Key, packet: bytes) returns (k: BufferKey)
    ensures VictimOk(rx, src, packet, k)
  {
    k := (0, src);
    if rx.buffers.Keys != {} {
      k := OldestExists(rx.buffers, rx.buffers.Keys);
    } else {
      assert |rx.buffers.Keys| == 0 && |rx.buffers| == |rx.buffers.Keys|;
    }
  }

  /** A segment of a live message is acknowledged, and its buffer is neither evicted nor dropped by it. */
  lemma SegmentTaken(rx: Receiver, n: Key, seg: Segment, now: Time, victim: BufferKey)
    requires var key := (seg.msgId, n);
             && key !in rx.dropped && seg.index < seg.total && rx.alive
             && (key in rx.buffers ==> |rx.buffers[key].segments| == seg.total)
             && (MustEvict(rx, key) ==> victim in rx.buffers)
    ensures var after := OnSegment(rx, n, seg, now, victim);
            after.alive && (seg.msgId, n) !in after.dropped
  {
  }

  /** One copy of segment `j` reaches the destination's reader. */
  lemma SegmentReadBy(s: Session, n: Key, packet: bytes, seg: Segment, now: Time, victim: BufferKey) returns (after: Session)
    requires s.rx.alive && ParseData(packet) == Some(seg) && seg.index < seg.total && (seg.msgId, n) !in s.rx.dropped
    requires (seg.msgId, n) in s.rx.buffers ==> |s.rx.buffers[(seg.msgId, n)].segments| == seg.total
    requires VictimOk(s.rx, n, packet, victim)
    ensures StepsTo(s, Read(n, packet, now, victim), after)
    ensures after.rx.alive && (seg.msgId, n) !in after.rx.dropped && after.arrivals == s.arrivals + [Arrival(n, packet, now)]
    ensures after.sent == s.sent + [Sent(n, Encoded(AckHeader(seg.msgId, seg.index)))]
  {
    SegmentTaken(s.rx, n, seg, now, victim);
    after := OnPacket(s, n, packet, now, victim);
  }

  /** Reading the ACK sets the flag and no other. */
  lemma AckReadBy(s: Session, d: Key, id: MsgId, j: u16, now: Time, k: BufferKey) returns (after: Session)
    requires s.rx.alive && id in s.tx.tasks && id in s.tx.pending && j < |s.tx.pending[id].acked| == s.tx.pending[id].total
    ensures StepsTo(s, Read(d, Encoded(AckHeader(id, j)), now, k), after)
    ensures after.rx == s.rx && after.tx.tasks == s.tx.tasks && after.arrivals == s.arrivals + [Arrival(d, Encoded(AckHeader(id, j)), now)]
    ensures FlagsOf(after.tx, id) == FlagsOf(s.tx, id)[j := true]
  {
    DecodeOfControl(AckHeader(id, j));
    after := OnPacket(s, d, Encoded(AckHeader(id, j)), now, k);
  }

  lemma FlagMeansWritten(s: Session, t: Task, id: MsgId, j: u16, flags: seq<bool>)
    requires t.phase.Transfer? && j < t.phase.cursor && j < |flags| && !flags[j]
    requires TaskWritten(s.sent, t, id, flags, s.arrivals)
    ensures j * FRAGMENT_SIZE <= |t.message| && Sent(t.dest, DataPacket(id, t.message, j)) in s.sent
  {
    assert SegmentWritten(s.sent, t, id, j, flags[j], BurstsPast(j, t.phase.attempt, t.phase.cursor));
  }

  /** A segment whose flag is unset has been written once its burst has passed it. */
  lemma SegmentOnTheWire(run: seq<Mesh>, m: Mesh, n: Key, id: MsgId, j: u16)
    requires IsRun(run) && m == run[|run| - 1] && InTransfer(m, n, id) && j < CursorOf(m, n, id)
    requires j < SegmentsOf(m[n].tx.tasks[id])
    ensures id in m[n].tx.pending && |m[n].tx.pending[id].acked| == m[n].tx.pending[id].total == SegmentsOf(m[n].tx.tasks[id])
    ensures j * FRAGMENT_SIZE <= |m[n].tx.tasks[id].message| <= MAX_MESSAGE_SIZE
    ensures !m[n].tx.pending[id].acked[j] ==> WasSent(m, n, m[n].tx.tasks[id].dest, DataPacket(id, m[n].tx.tasks[id].message, j))
  {
    RunsKeepWritten(run, |run| - 1);
    CallKnown(m[n], id);
    CastsAreExact(|m[n].tx.tasks[id].message|);
    if !m[n].tx.pending[id].acked[j] {
      FlagMeansWritten(m[n], m[n].tx.tasks[id], id, j, FlagsOf(m[n].tx, id));
    }
  }

  lemma ReachedGrows(m: Mesh, after: Mesh, n: Key, id: MsgId, a: Arrival, i: u16)
    requires n in m && n in after && id in m[n].tx.tasks && id in after[n].tx.tasks && m[n].tx.tasks[id].dest == after[n].tx.tasks[id].dest
    requires after.Keys == m.Keys && Reached(m, n, id, i)
    requires var d := m[n].tx.tasks[id].dest;
             after[d].arrivals == m[d].arrivals || after[d].arrivals == m[d].arrivals + [a]
    ensures Reached(after, n, id, i)
  {
    IndexGrows(m[m[n].tx.tasks[id].dest].arrivals, a, (id, n), i);
  }

  /** The destination reads segment `j`; nothing else happens. */
  lemma SegmentArrives(run: seq<Mesh>, m: Mesh, n: Key, d: Key, id: MsgId, message: bytes, j: u16, now: Time) returns (longer: seq<Mesh>, after: Mesh)
    requires IsRun(run) && m == run[|run| - 1] && OnTheWay(m, n, d, id, message)
    requires j < SegmentCount(|message|) && Admitted(SegmentCount(|message|)) && j * FRAGMENT_SIZE <= |message| <= MAX_MESSAGE_SIZE
    requires WasSent(m, n, d, DataPacket(id, message, j))
    ensures IsRun(longer) && run <= longer && after == longer[|longer| - 1]
    ensures OnTheWay(after, n, d, id, message) && BetweenThem(m, after, n, d) && after[n] == m[n]
    ensures WasSent(after, d, n, Encoded(AckHeader(id, j))) && IndexArrived(after[d].arrivals, (id, n), j)
    ensures exists a :: after[d].arrivals == m[d].arrivals + [a]
  {
    var packet := DataPacket(id, message, j);
    ParseOfDataPacket(id, message, j);
    var seg := ParseData(packet).value;
    BufferFits(run, m, n, d, id, message);
    var k := VictimFor(m[d].rx, n, packet);
    var s := SegmentReadBy(m[d], n, packet, seg, now, k);
    longer, after := Advance(run, m, d, Read(n, packet, now, k), s);
    var a := Arrival(n, packet, now);
    OneArrival(m[d].arrivals, a);
    OneArrival(m[n].arrivals, a.(src := d));
    assert after[d].sent[|m[d].sent|] == Sent(n, Encoded(AckHeader(id, j)));
    assert after[d].arrivals[|m[d].arrivals|] == a;
  }

  lemma BufferFits(run: seq<Mesh>, m: Mesh, n: Key, d: Key, id: MsgId, message: bytes)
    requires IsRun(run) && m == run[|run| - 1] && OnTheWay(m, n, d, id, message)
    ensures (id, n) in m[d].rx.buffers ==> |m[d].rx.buffers[(id, n)].segments| == SegmentCount(|message|)
  {
    BuffersAreGenuine(run, |run| - 1, d);
    if (id, n) in m[d].rx.buffers {
      assert BufferIsGenuine(m, d, (id, n));
    }
  }

  /** The caller reads the acknowledgement of segment `j`. */
  lemma AckArrives(run: seq<Mesh>, m: Mesh, n: Key, d: Key, id: MsgId, message: bytes, j: u16, now: Time) returns (longer: seq<Mesh>, after: Mesh)
    requires IsRun(run) && m == run[|run| - 1] && OnTheWay(m, n, d, id, message) && FlagsEarned(m, n, id)
    requires id in m[n].tx.pending && j < |m[n].tx.pending[id].acked| == m[n].tx.pending[id].total
    requires WasSent(m, d, n, Encoded(AckHeader(id, j))) && Reached(m, n, id, j)
    ensures IsRun(longer) && run <= longer && after == longer[|longer| - 1]
    ensures OnTheWay(after, n, d, id, message) && FlagsEarned(after, n, id) && BetweenThem(m, after, n, d)
    ensures after[n].tx.tasks == m[n].tx.tasks && FlagsOf(after[n].tx, id) == FlagsOf(m[n].tx, id)[j := true]
  {
    var k: BufferKey := (id, n);
    var s := AckReadBy(m[n], d, id, j, now, k);
    longer, after := Advance(run, m, n, Read(d, Encoded(AckHeader(id, j)), now, k), s);
    var a := Arrival(d, Encoded(AckHeader(id, j)), now);
    OneArrival(m[n].arrivals, a);
    OneArrival(m[d].arrivals, a.(src := n));
    forall i: u16 | i < |FlagsOf(after[n].tx, id)| && FlagsOf(after[n].tx, id)[i]
      ensures Reached(after, n, id, i)
    {
      assert i == j || FlagsOf(m[n].tx, id)[i];
      ReachedGrows(m, after, n, id, a, i);
    }
  }

  lemma EarnedStays(m: Mesh, after: Mesh, n: Key, d: Key, id: MsgId, message: bytes, a: Arrival)
    requires OnTheWay(m, n, d, id, message) && FlagsEarned(m, n, id) && after.Keys == m.Keys && after[n] == m[n]
    requires after[d].arrivals == m[d].arrivals + [a]
    ensures FlagsEarned(after, n, id)
  {
    forall i: u16 | i < |FlagsOf(after[n].tx, id)| && FlagsOf(after[n].tx, id)[i]
      ensures Reached(after, n, id, i)
    {
      ReachedGrows(m, after, n, id, a, i);
    }
  }

  /** In the transfer, with its burst written. */
  ghost predicate BurstDone(m: Mesh, n: Key, d: Key, id: MsgId, message: bytes) {
    && OnTheWay(m, n, d, id, message) && InTransfer(m, n, id) && FlagsEarned(m, n, id)
    && CursorOf(m, n, id) >= SegmentCount(|message|)
  }

  ghost predicate FlagsBelow(m: Mesh, n: Key, id: MsgId, j: nat)
    requires n in m
  {
    j <= |FlagsOf(m[n].tx, id)| && forall i :: 0 <= i < j ==> FlagsOf(m[n].tx, id)[i]
  }

  /** Segment `j` goes over and is acknowledged. */
  lemma SegmentExchanged(run: seq<Mesh>, m: Mesh, n: Key, d: Key, id: MsgId, message: bytes, j: u16, now: Time) returns (longer: seq<Mesh>, after: Mesh)
    requires IsRun(run) && m == run[|run| - 1] && OnTheWay(m, n, d, id, message) && FlagsEarned(m, n, id)
    requires j < SegmentCount(|message|) && Admitted(SegmentCount(|message|)) && j * FRAGMENT_SIZE <= |message| <= MAX_MESSAGE_SIZE
    requires id in m[n].tx.pending && |m[n].tx.pending[id].acked| == m[n].tx.pending[id].total == SegmentCount(|message|)
    requires WasSent(m, n, d, DataPacket(id, message, j))
    ensures IsRun(longer) && run <= longer && after == longer[|longer| - 1]
    ensures OnTheWay(after, n, d, id, message) && FlagsEarned(after, n, id) && BetweenThem(m, after, n, d)
    ensures after[n].tx.tasks == m[n].tx.tasks && FlagsOf(after[n].tx, id) == FlagsOf(m[n].tx, id)[j := true]
  {
    var run1, m1 := SegmentArrives(run, m, n, d, id, message, j, now);
    var a :| m1[d].arrivals == m[d].arrivals + [a];
    EarnedStays(m, m1, n, d, id, message, a);
    longer, after := AckArrives(run1, m1, n, d, id, message, j, now);
    BetweenThemGoesOn(m, m1, after, n, d);
  }

  /** Segment `j` is settled: acknowledged before, or now. */
  lemma SegmentSettles(run: seq<Mesh>, m: Mesh, n: Key, d: Key, id: MsgId, message: bytes, j: u16, now: Time) returns (longer: seq<Mesh>, after: Mesh)
    requires IsRun(run) && m == run[|run| - 1] && BurstDone(m, n, d, id, message)
    requires j < SegmentCount(|message|) && Admitted(SegmentCount(|message|)) && FlagsBelow(m, n, id, j)
    ensures IsRun(longer) && run <= longer && after == longer[|longer| - 1]
    ensures BurstDone(after, n, d, id, message) && BetweenThem(m, after, n, d) && FlagsBelow(after, n, id, j + 1)
  {
    SegmentOnTheWire(run, m, n, id, j);
    if m[n].tx.pending[id].acked[j] {
      longer, after := run, m;
      Untouched(m, n, d, id, message);
    } else {
      longer, after := SegmentExchanged(run, m, n, d, id, message, j, now);
      StillDone(m, after, n, d, id, message, j);
    }
  }

  lemma StillDone(m: Mesh, after: Mesh, n: Key, d: Key, id: MsgId, message: bytes, j: u16)
    requires BurstDone(m, n, d, id, message) && OnTheWay(after, n, d, id, message) && FlagsEarned(after, n, id)
    requires after[n].tx.tasks == m[n].tx.tasks && FlagsBelow(m, n, id, j) && j < |FlagsOf(m[n].tx, id)|
    requires FlagsOf(after[n].tx, id) == FlagsOf(m[n].tx, id)[j := true]
    ensures BurstDone(after, n, d, id, message) && FlagsBelow(after, n, id, j + 1)
  {
  }

  lemma Untouched(m: Mesh, n: Key, d: Key, id: MsgId, message: bytes)
    requires OnTheWay(m, n, d, id, message)
    ensures BetweenThem(m, m, n, d)
  {
  }

  /** All segments from `j` on go over. */
  lemma {:induction false} SegmentsSettle(run: seq<Mesh>, m: Mesh, n: Key, d: Key, id: MsgId, message: bytes, j: nat, now: Time)
    returns (longer: seq<Mesh>, after: Mesh)
    requires IsRun(run) && m == run[|run| - 1] && BurstDone(m, n, d, id, message)
    requires j <= SegmentCount(|message|) && Admitted(SegmentCount(|message|)) && FlagsBelow(m, n, id, j)
    ensures IsRun(longer) && run <= longer && after == longer[|longer| - 1]
    ensures BurstDone(after, n, d, id, message) && BetweenThem(m, after, n, d) && FlagsBelow(after, n, id, SegmentCount(|message|))
    decreases SegmentCount(|message|) - j
  {
    if j == SegmentCount(|message|) {
      longer, after := run, m;
      Untouched(m, n, d, id, message);
    } else {
      var middle;
      longer, middle := SegmentSettles(run, m, n, d, id, message, j, now);
      longer, after := SegmentsSettle(longer, middle, n, d, id, message, j + 1, now);
      BetweenThemGoesOn(m, middle, after, n, d);
    }
  }

  // ---------------------------------------------------------------- the end

  lemma FlagsSettled(run: seq<Mesh>, m: Mesh, n: Key, id: MsgId)
    requires IsRun(run) && m == run[|run| - 1] && InTransfer(m, n, id) && FlagsBelow(m, n, id, SegmentsOf(m[n].tx.tasks[id]))
    ensures AckedBelow(m[n], id, SegmentsOf(m[n].tx.tasks[id]))
  {
    RunsKeepWritten(run, |run| - 1);
    CallKnown(m[n], id);
    assert TaskAwaits(m[n].tx, id);
  }

  /** With every flag set the call wakes up and succeeds. */
  lemma AllSettled(run: seq<Mesh>, m: Mesh, n: Key, d: Key, id: MsgId, message: bytes) returns (longer: seq<Mesh>, after: Mesh)
    requires IsRun(run) && m == run[|run| - 1] && BurstDone(m, n, d, id, message) && FlagsBelow(m, n, id, SegmentCount(|message|))
    ensures IsRun(longer) && run <= longer && after == longer[|longer| - 1] && BetweenThem(m, after, n, d)
    ensures OnTheWay(after, n, d, id, message) && Succeeded(after[n].tx.tasks[id]) && after[d] == m[d]
  {
    FlagsSettled(run, m, n, id);
    WakeSucceeds(m[n], id);
    longer, after := Advance(run, m, n, Wake(id), OnWake(m[n], id));
    OneArrival(m[n].arrivals, Arrival(d, [], 0));
    OneArrival(m[d].arrivals, Arrival(n, [], 0));
  }

  lemma {:induction false} SomeDelivery(delivered: seq<Delivery>, k: BufferKey) returns (d: Delivery)
    requires Deliveries(delivered, k, 0) > 0
    ensures d in delivered && KeyOf(d) == k
  {
    var n := |delivered| - 1;
    if KeyOf(delivered[n]) == k {
      d := delivered[n];
    } else {
      d := SomeDelivery(delivered[..n], k);
    }
  }

  /** The destination has handed the message over under its source. */
  ghost predicate HandedOver(s: Session, n: Key, id: MsgId, message: bytes) {
    exists d: Delivery :: d in s.rx.delivered && d.msgId == id && d.src == n && Joined(d.segments) == message
  }

  lemma SettledIsHandedOver(run: seq<Mesh>, m: Mesh, n: Key, d: Key, id: MsgId, message: bytes)
    requires IsRun(run) && m == run[|run| - 1] && BurstDone(m, n, d, id, message) && FlagsBelow(m, n, id, SegmentCount(|message|))
    ensures HandedOver(m[d], n, id, message)
  {
    RunsKeepInvariant(run, |run| - 1);
    forall j: u16 | j < SegmentsOf(m[n].tx.tasks[id])
      ensures IndexArrived(m[d].arrivals, (id, n), j)
    {
      assert Reached(m, n, id, j);
    }
    AcceptedMeansDelivered(m, n, id);
    var delivery := SomeDelivery(m[d].rx.delivered, (id, n));
    Integrity(run, |run| - 1, d, delivery);
  }

  lemma TransferCompletes(run: seq<Mesh>, m: Mesh, n: Key, d: Key, id: MsgId, message: bytes, now: Time) returns (longer: seq<Mesh>, after: Mesh)
    requires IsRun(run) && m == run[|run| - 1] && OnTheWay(m, n, d, id, message) && InTransfer(m, n, id) && FlagsEarned(m, n, id)
    requires Admitted(SegmentCount(|message|))
    ensures IsRun(longer) && run <= longer && after == longer[|longer| - 1] && BetweenThem(m, after, n, d)
    ensures OnTheWay(after, n, d, id, message) && Succeeded(after[n].tx.tasks[id]) && HandedOver(after[d], n, id, message)
  {
    var run1, m1 := BurstEnds(run, m, n, id);
    BurstLeaves(m, m1, n, d, id, message);
    var run2, m2 := SegmentsSettle(run1, m1, n, d, id, message, 0, now);
    SettledIsHandedOver(run2, m2, n, d, id, message);
    BetweenThemGoesOn(m, m1, m2, n, d);
    longer, after := AllSettled(run2, m2, n, d, id, message);
    BetweenThemGoesOn(m, m2, after, n, d);
  }

  lemma BurstLeaves(m: Mesh, after: Mesh, n: Key, d: Key, id: MsgId, message: bytes)
    requires OnTheWay(m, n, d, id, message) && InTransfer(m, n, id) && FlagsEarned(m, n, id)
    requires OnlySends(m, after, n, id) && after[n].arrivals == m[n].arrivals && after[n].tx.pending == m[n].tx.pending
    ensures OnTheWay(after, n, d, id, message) && FlagsEarned(after, n, id) && BetweenThem(m, after, n, d)
  {
    forall i: u16 | i < |FlagsOf(after[n].tx, id)| && FlagsOf(after[n].tx, id)[i]
      ensures Reached(after, n, id, i)
    {
      ReachedGrows(m, after, n, id, Arrival(n, [], 0), i);
    }
  }

  /**
   * Liveness, as far as a lossy mesh has it. Whatever has been lost, duplicated or
   * evicted so far: while both readers live and the destination has not dropped
   * the message's buffer, a `send` still under way, of a message that a receiver
   * admits and no segment of which counts as acknowledged without having arrived,
   * can be completed by its two ends alone. The destination hands the message
   * over, whole, and `send` returns Ok.
   */
  lemma SendCanComplete(run: seq<Mesh>, m: Mesh, n: Key, d: Key, id: MsgId, message: bytes, now: Time) returns (longer: seq<Mesh>, after: Mesh)
    requires IsRun(run) && m == run[|run| - 1] && OnTheWay(m, n, d, id, message) && FlagsEarned(m, n, id)
    requires !m[n].tx.tasks[id].phase.Finished? && |message| <= 33554432 - 8192
    ensures IsRun(longer) && run <= longer && after == longer[|longer| - 1] && BetweenThem(m, after, n, d)
    ensures id in after[n].tx.tasks && Succeeded(after[n].tx.tasks[id]) && HandedOver(after[d], n, id, message)
  {
    AdmissionBound(|message|);
    if InPhaseHandshake(m[n], id) {
      var run1, m1 := HandshakeCompletes(run, m, n, d, id, message, now);
      longer, after := TransferCompletes(run1, m1, n, d, id, message, now);
      BetweenThemGoesOn(m, m1, after, n, d);
    } else {
      longer, after := TransferCompletes(run, m, n, d, id, message, now);
    }
  }

  lemma FlagIsEarned(m: Mesh, n: Key, id: MsgId, i: u16)
    requires MeshInv(m) && n in m && id in m[n].tx.tasks && AckArrived(m[n].arrivals, id, i) && !ForeignAck(m, n, id, i)
    ensures Reached(m, n, id, i)
  {
    var j :| 0 <= j < |m[n].arrivals| && IsAck(m[n].arrivals[j].packet, id, i);
    AckMeansReached(m, n, id, i, j);
  }

  lemma FlagsAreBacked(s: Session, id: MsgId)
    requires NodeInv(s) && id in s.tx.tasks
    ensures |FlagsOf(s.tx, id)| <= SegmentsOf(s.tx.tasks[id])
    ensures forall i: u16 :: i < |FlagsOf(s.tx, id)| && FlagsOf(s.tx, id)[i] ==> AckArrived(s.arrivals, id, i)
  {
    CallKnown(s, id);
  }

  /** Before any foreign acknowledgement every flag is earned, so nothing but a dropped buffer stands in the way. */
  lemma WithoutForeignAcks(run: seq<Mesh>, m: Mesh, n: Key, id: MsgId)
    requires IsRun(run) && m == run[|run| - 1] && n in m && id in m[n].tx.tasks
    requires forall i: u16 :: i < SegmentsOf(m[n].tx.tasks[id]) ==> !ForeignAck(m, n, id, i)
    ensures FlagsEarned(m, n, id)
  {
    RunsKeepInvariant(run, |run| - 1);
    FlagsAreBacked(m[n], id);
    forall i: u16 | i < |FlagsOf(m[n].tx, id)| && FlagsOf(m[n].tx, id)[i]
      ensures Reached(m, n, id, i)
    {
      FlagIsEarned(m, n, id, i);
    }
  }
}
