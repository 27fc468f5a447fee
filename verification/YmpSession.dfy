// ymp/mod.rs: the session object. Its fields are the shared maps that the
// reader task, the cleanup task and the running calls of `send` update; each
// method is one of their atomic steps and is proved against YmpState.
module YmpSession {
  import opened Bytes
  import opened Wrappers
  import opened YmpWire
  import opened YmpSegments
  import opened YmpState
  import SynThrottle

  /** What the delivery channel carries for a completed reassembly. */
  function Handed(d: Delivery): (Key, bytes) {
    (d.src, Joined(d.segments))
  }

  class YmpSession {
    var nextId: nat
    var tasks: map<MsgId, Task>
    var pending: map<MsgId, PendingSend>
    var pendingSyns: map<MsgId, PendingSyn>
    var synThrottle: map<Key, Time>
    var reassembly: map<BufferKey, Buffer>
    var channel: seq<(Key, bytes)>
    var written: seq<Sent>
    var lookups: seq<Key>
    var readerAlive: bool

    ghost var arrivals: seq<Arrival>
    ghost var delivered: seq<Delivery>
    ghost var dropped: set<BufferKey>

    ghost function State(): Session
      reads this
    {
      Session(Receiver(reassembly, delivered, dropped, readerAlive),
              Sender(nextId, tasks, pending, pendingSyns),
              synThrottle, written, lookups, arrivals)
    }

    /** The channel carries exactly the completed reassemblies, in order. */
    ghost predicate Valid()
      reads this
    {
      && |channel| == |delivered|
      && (forall i :: 0 <= i < |channel| ==> channel[i] == Handed(delivered[i]))
      && TasksFit(tasks)
    }

    constructor ()
      ensures Valid() && State() == INITIAL && channel == []
    {
      nextId, tasks, pending, pendingSyns := 0, map[], map[], map[];
      synThrottle, reassembly := map[], map[];
      channel, written, lookups, readerAlive := [], [], [], true;
      arrivals, delivered, dropped := [], [], {};
    }

    /** Encode a header into a fresh buffer and write it, with a payload, to `dest`. */
    method Write(dest: Key, h: SegmentHeader, payload: bytes)
      requires Valid()
      modifies this`written
      ensures Valid()
      ensures written == old(written) + [Sent(dest, Encoded(h) + payload)]
    {
      var buf := new byte[HEADER_SIZE];
      Encode(h, buf);
      assert buf[..] == Encoded(h);
      written := written + [Sent(dest, buf[..] + payload)];
    }

    // -------------------------------------------------------------- the reader task

    /** One iteration of the reader loop. */
    method OnRead(src: Key, packet: bytes, now: Time) returns (ghost victim: BufferKey)
      requires Valid() && readerAlive
      modifies this
      ensures Valid()
      ensures Enabled(old(State()), Read(src, packet, now, victim))
      ensures State() == OnPacket(old(State()), src, packet, now, victim)
    {
      victim := (0, src);
      arrivals := arrivals + [Arrival(src, packet, now)];
      if |packet| < HEADER_SIZE {
        return;
      }
      var decoded := Decode(packet);
      if decoded.None? {
        return;
      }
      var h := decoded.value;
      match h.pktType {
        case Syn => OnSynPacket(src, h.msgId, now);
        case SynAck => OnSynAckPacket(src, h.msgId);
        case Data => victim := OnDataPacket(src, packet, h, now);
        case Ack => OnAckPacket(h.msgId, h.seqNo);
      }
    }

    /** The oldest live buffer by creation time, when there is one. */
    method OldestBuffer() returns (oldest: BufferKey)
      requires reassembly != map[]
      ensures IsOldest(reassembly, oldest)
    {
      oldest := (0, seq(32, _ => 0));
      var rest := reassembly.Keys;
      while rest != {}
        invariant rest <= reassembly.Keys
        invariant rest != reassembly.Keys ==> oldest in reassembly
        invariant forall k :: k in reassembly && k !in rest ==> reassembly[oldest].created <= reassembly[k].created
        decreases rest
      {
        var k :| k in rest;
        if rest == reassembly.Keys || reassembly[k].created < reassembly[oldest].created {
          oldest := k;
        }
        rest := rest - {k};
      }
    }

    method OnSynPacket(src: Key, id: MsgId, now: Time)
      requires Valid()
      modifies this`synThrottle, this`lookups, this`written
      ensures Valid() && State() == OnSyn(old(State()), src, id, now)
    {
      var doLookup;
      if src in synThrottle && now - synThrottle[src] < SynThrottle.INTERVAL {
        doLookup := false;
      } else {
        synThrottle := synThrottle[src := now];
        if |synThrottle| > SynThrottle.CAPACITY {
          synThrottle := map k | k in synThrottle && now - synThrottle[k] < 4 * SynThrottle.INTERVAL :: synThrottle[k];
        }
        doLookup := true;
      }
      if doLookup {
        lookups := lookups + [src];
      }
      Write(src, SynAckHeader(id), []);
      assert Encoded(SynAckHeader(id)) + [] == Encoded(SynAckHeader(id));
    }

    method OnSynAckPacket(src: Key, id: MsgId)
      requires Valid()
      modifies this`pendingSyns
      ensures Valid() && State() == old(State()).(tx := OnSynAck(old(State()).tx, src, id))
    {
      if id in pendingSyns {
        var ps := pendingSyns[id];
        if ps.expectedSrc == src {
          pendingSyns := pendingSyns[id := ps.(notified := true)];
        }
      }
    }

    method OnAckPacket(id: MsgId, index: u16)
      requires Valid()
      modifies this`pending
      ensures Valid() && State() == old(State()).(tx := OnAck(old(State()).tx, id, index))
    {
      if id in pending {
        var ps := pending[id];
        if index < ps.total && index < |ps.acked| {
          ps := ps.(acked := ps.acked[index := true]);
        }
        if AllAcked(ps.acked) {
          ps := ps.(notified := true);
        }
        pending := pending[id := ps];
      }
    }

    method OnDataPacket(src: Key, packet: bytes, h: SegmentHeader, now: Time) returns (ghost victim: BufferKey)
      requires Valid() && Decode(packet) == Some(h) && h.pktType.Data?
      modifies this
      ensures Valid()
      ensures VictimOk(old(State()).rx, src, packet, victim)
      ensures State() == OnData(old(State()), src, packet, now, victim)
    {
      victim := (0, src);
      var payload := packet[HEADER_SIZE..];
      if |payload| != h.payloadLen {
        return;
      }
      if h.seqNo >= h.total || h.total == 0 {
        return;
      }
      if h.total * FRAGMENT_SIZE > MAX_MESSAGE_SIZE {
        return;
      }
      Write(src, AckHeader(h.msgId, h.seqNo), []);
      assert Encoded(AckHeader(h.msgId, h.seqNo)) + [] == Encoded(AckHeader(h.msgId, h.seqNo));
      victim := StoreSegment(src, Segment(h.msgId, h.seqNo, h.total, payload), now);
    }

    /** Evict an oldest buffer if a new one would exceed the cap. */
    method MakeRoom(key: BufferKey) returns (ghost victim: BufferKey)
      requires Valid()
      modifies this`reassembly, this`dropped
      ensures Valid()
      ensures MustEvict(old(State()).rx, key) ==> IsOldest(old(reassembly), victim)
      ensures State() == old(State()).(rx := Evicted(old(State()).rx, key, victim))
    {
      victim := key;
      if key !in reassembly && |reassembly| >= MAX_REASSEMBLY_BUFFERS {
        var oldest := OldestBuffer();
        victim := oldest;
        reassembly := reassembly - {oldest};
        dropped := dropped + {oldest};
      }
    }

    /** Evict if a new buffer would exceed the cap, fill the slot, deliver when complete. */
    method StoreSegment(src: Key, seg: Segment, now: Time) returns (ghost victim: BufferKey)
      requires Valid()
      modifies this`reassembly, this`dropped, this`delivered, this`channel, this`readerAlive
      ensures Valid()
      ensures MustEvict(old(State()).rx, (seg.msgId, src)) ==> IsOldest(old(reassembly), victim)
      ensures State() == old(State()).(rx := OnSegment(old(State()).rx, src, seg, now, victim))
    {
      var key := (seg.msgId, src);
      victim := MakeRoom(key);
      var entry := if key in reassembly then reassembly[key] else Buffer(seg.total, seq(seg.total, _ => None), 0, now);
      if seg.index >= |entry.segments| {
        readerAlive := false;
        dropped := dropped + {key};
        return;
      }
      if entry.segments[seg.index].None? {
        entry := entry.(segments := entry.segments[seg.index := Some(seg.payload)], received := entry.received + 1);
      }
      PutOrDeliver(key, entry);
    }

    method PutOrDeliver(key: BufferKey, entry: Buffer)
      requires Valid()
      modifies this`reassembly, this`channel, this`delivered
      ensures Valid()
      ensures entry.received == entry.total ==>
        && reassembly == old(reassembly) - {key}
        && delivered == old(delivered) + [Delivery(key.0, key.1, entry.segments)]
      ensures entry.received != entry.total ==>
        reassembly == old(reassembly)[key := entry] && delivered == old(delivered)
    {
      if entry.received == entry.total {
        var data := Reassemble(entry.segments);
        reassembly := reassembly - {key};
        channel := channel + [(key.1, data)];
        delivered := delivered + [Delivery(key.0, key.1, entry.segments)];
      } else {
        reassembly := reassembly[key := entry];
      }
    }

    // -------------------------------------------------------------- the cleanup task

    method CleanUp(now: Time)
      requires Valid()
      modifies this`reassembly, this`dropped
      ensures Valid() && State() == Apply(old(State()), Cleanup(now))
    {
      var kept := map k | k in reassembly && !Expired(reassembly[k], now) :: reassembly[k];
      dropped := dropped + (reassembly.Keys - kept.Keys);
      reassembly := kept;
    }

    // -------------------------------------------------------------- calls of `send`

    /** Up to and including the first SYN. */
    method BeginSend(dest: Key, message: bytes) returns (r: Result<MsgId, Failure>)
      requires Valid() && nextId < 0x1_0000_0000_0000_0000
      modifies this
      ensures Valid()
      ensures r == if |message| > MAX_MESSAGE_SIZE then Err(TooLarge) else Ok(old(nextId))
      ensures State() == if r.Ok? then OnBegin(old(State()), dest, message) else old(State())
    {
      if |message| > MAX_MESSAGE_SIZE {
        return Err(TooLarge);
      }
      var id := Register(dest, message);
      ProbePath(dest, id);
      return Ok(id);
    }

    /** The next id, and the entry that waits for the SYN-ACK. */
    method Register(dest: Key, message: bytes) returns (id: MsgId)
      requires Valid() && nextId < 0x1_0000_0000_0000_0000 && |message| <= MAX_MESSAGE_SIZE
      modifies this`nextId, this`tasks, this`pendingSyns
      ensures Valid() && id == old(nextId) && nextId == id + 1
      ensures tasks == old(tasks)[id := Task(dest, message, Handshake(0))]
      ensures pendingSyns == old(pendingSyns)[id := PendingSyn(dest, false)]
    {
      id := nextId;
      nextId := nextId + 1;
      tasks := tasks[id := Task(dest, message, Handshake(0))];
      pendingSyns := pendingSyns[id := PendingSyn(dest, false)];
    }

    /** Warm the forward path and write a SYN. */
    method ProbePath(dest: Key, id: MsgId)
      requires Valid()
      modifies this`lookups, this`written
      ensures Valid()
      ensures lookups == old(lookups) + [dest] && written == old(written) + [SynPacket(dest, id)]
    {
      lookups := lookups + [dest];
      Write(dest, SynHeader(id), []);
      assert Encoded(SynHeader(id)) + [] == Encoded(SynHeader(id));
    }

    /** The wait for a SYN-ACK timed out. */
    method SynTimedOut(id: MsgId)
      requires Valid() && Enabled(State(), HandshakeTimeout(id))
      modifies this
      ensures Valid() && State() == OnHandshakeTimeout(old(State()), id)
    {
      var t := tasks[id];
      if t.phase.attempt + 1 < MAX_SYN_RETRIES {
        tasks := tasks[id := t.(phase := Handshake(t.phase.attempt + 1))];
        ProbePath(t.dest, id);
      } else {
        pendingSyns := pendingSyns - {id};
        tasks := tasks[id := t.(phase := Finished(Err(Unreachable)))];
      }
    }

    /** The SYN-ACK arrived: register the transfer. */
    method SynAcked(id: MsgId)
      requires Valid() && Enabled(State(), HandshakeDone(id))
      modifies this
      ensures Valid() && State() == OnHandshakeDone(old(State()), id)
    {
      var t := tasks[id];
      var total := SegmentCount(|t.message|);
      pendingSyns := pendingSyns - {id};
      pending := pending[id := PendingSend(total, seq(total, _ => false), false)];
      tasks := tasks[id := t.(phase := Transfer(0, 0))];
    }

    /** One segment of the burst. */
    method TransmitNext(id: MsgId)
      requires Valid() && Enabled(State(), Transmit(id))
      modifies this
      ensures Valid() && State() == OnTransmit(old(State()), id)
    {
      var t := tasks[id];
      var i: u16 := t.phase.cursor;
      CastsAreExact(|t.message|);
      var alreadyAcked := true;
      if id in pending {
        alreadyAcked := i < |pending[id].acked| && pending[id].acked[i];
      }
      if !alreadyAcked {
        WriteSegment(t.dest, id, t.message, i);
      }
      tasks := tasks[id := t.(phase := Transfer(t.phase.attempt, i + 1))];
    }

    method WriteSegment(dest: Key, id: MsgId, message: bytes, i: u16)
      requires Valid() && |message| <= MAX_MESSAGE_SIZE && i < SegmentCount(|message|) && i * FRAGMENT_SIZE <= |message|
      modifies this`written
      ensures Valid()
      ensures written == old(written) + [Sent(dest, DataPacket(id, message, i))]
    {
      var segment := SegmentBytes(message, i);
      CastsAreExact(|message|);
      Write(dest, DataHeader(id, i, SegmentCount(|message|), |segment| % 0x1_0000), segment);
    }

    method SegmentBytes(message: bytes, i: u16) returns (segment: bytes)
      requires |message| <= MAX_MESSAGE_SIZE && i < SegmentCount(|message|) && i * FRAGMENT_SIZE <= |message|
      ensures segment == Slice(message, i) && |segment| <= FRAGMENT_SIZE
    {
      CastsAreExact(|message|);
      var segments := Fragment(message, SegmentCount(|message|));
      segment := segments[i];
    }

    /** The notification fired: done when every segment is acknowledged. */
    method Woken(id: MsgId)
      requires Valid() && Enabled(State(), Wake(id))
      modifies this
      ensures Valid() && State() == OnWake(old(State()), id)
    {
      if id in pending && !AllAcked(pending[id].acked) {
        pending := pending[id := pending[id].(notified := false)];
      } else {
        pending := pending - {id};
        tasks := tasks[id := tasks[id].(phase := Finished(Ok(id)))];
      }
    }

    /** The wait for acknowledgements timed out. */
    method TransferTimedOut(id: MsgId)
      requires Valid() && Enabled(State(), TransferTimeout(id))
      modifies this
      ensures Valid() && State() == OnTransferTimeout(old(State()), id)
    {
      var t := tasks[id];
      if t.phase.attempt + 1 < MAX_RETRIES {
        tasks := tasks[id := t.(phase := Transfer(t.phase.attempt + 1, 0))];
      } else {
        pending := pending - {id};
        tasks := tasks[id := t.(phase := Finished(Err(MaxRetriesExceeded)))];
      }
    }
  }
}
