// What the receiving half keeps, whatever packets arrive: every filled slot
// came from an arrival, deliveries are paid for by copies of each segment,
// and nothing that arrived is forgotten unless its buffer is dropped.
module YmpReceiverProofs {
  import opened Bytes
  import opened Wrappers
  import opened YmpSegments
  import opened YmpWire
  import opened YmpState

  // ---------------------------------------------------------------- definitions

  /** The segment of message `k` that an arrival carries, if it carries one. */
  function SegmentFor(a: Arrival, k: BufferKey): Option<Segment> {
    var p := ParseData(a.packet);
    if a.src == k.1 && p.Some? && p.value.msgId == k.0 then p else None
  }

  ghost predicate SlotArrived(arrivals: seq<Arrival>, k: BufferKey, i: nat, payload: bytes) {
    exists n :: 0 <= n < |arrivals| && SegmentFor(arrivals[n], k).Some?
      && SegmentFor(arrivals[n], k).value.index == i && SegmentFor(arrivals[n], k).value.payload == payload
  }

  ghost predicate IndexArrived(arrivals: seq<Arrival>, k: BufferKey, i: nat) {
    exists n :: 0 <= n < |arrivals| && SegmentFor(arrivals[n], k).Some? && SegmentFor(arrivals[n], k).value.index == i
  }

  ghost predicate TotalArrived(arrivals: seq<Arrival>, k: BufferKey, total: nat) {
    exists n :: 0 <= n < |arrivals| && SegmentFor(arrivals[n], k).Some? && SegmentFor(arrivals[n], k).value.total == total
  }

  ghost predicate FromArrivals(arrivals: seq<Arrival>, k: BufferKey, segments: seq<Option<bytes>>) {
    && TotalArrived(arrivals, k, |segments|)
    && forall i :: 0 <= i < |segments| && segments[i].Some? ==> SlotArrived(arrivals, k, i, segments[i].value)
  }

  function Filled(segments: seq<Option<bytes>>): nat {
    if segments == [] then 0
    else Filled(segments[..|segments| - 1]) + (if segments[|segments| - 1].Some? then 1 else 0)
  }

  predicate AllFilled(segments: seq<Option<bytes>>) {
    forall i :: 0 <= i < |segments| ==> segments[i].Some?
  }

  /** A live buffer: sized by its total, `received` counts its filled slots, at least one is missing. */
  predicate BufferOk(b: Buffer) {
    0 < b.total && |b.segments| == b.total && b.received == Filled(b.segments) < b.total
  }

  function KeyOf(d: Delivery): BufferKey {
    (d.msgId, d.src)
  }

  /** How many copies of segment `i` of message `k` arrived. */
  function Copies(arrivals: seq<Arrival>, k: BufferKey, i: nat): nat {
    if arrivals == [] then 0
    else
      var s := SegmentFor(arrivals[|arrivals| - 1], k);
      Copies(arrivals[..|arrivals| - 1], k, i) + (if s.Some? && s.value.index == i then 1 else 0)
  }

  /** How many deliveries of message `k` used a segment `i`. */
  function Deliveries(delivered: seq<Delivery>, k: BufferKey, i: nat): nat {
    if delivered == [] then 0
    else
      var d := delivered[|delivered| - 1];
      Deliveries(delivered[..|delivered| - 1], k, i) + (if KeyOf(d) == k && i < |d.segments| then 1 else 0)
  }

  function Slot(buffers: map<BufferKey, Buffer>, k: BufferKey, i: nat): nat {
    if k in buffers && i < |buffers[k].segments| && buffers[k].segments[i].Some? then 1 else 0
  }

  ghost predicate BuffersOk(rx: Receiver) {
    && |rx.buffers| <= MAX_REASSEMBLY_BUFFERS
    && forall k :: k in rx.buffers ==> BufferOk(rx.buffers[k])
  }

  ghost predicate BuffersArrived(rx: Receiver, arrivals: seq<Arrival>) {
    forall k :: k in rx.buffers ==> FromArrivals(arrivals, k, rx.buffers[k].segments)
  }

  ghost predicate DeliveryOk(d: Delivery, arrivals: seq<Arrival>) {
    0 < |d.segments| && AllFilled(d.segments) && FromArrivals(arrivals, KeyOf(d), d.segments)
  }

  ghost predicate DeliveriesOk(rx: Receiver, arrivals: seq<Arrival>) {
    forall n :: 0 <= n < |rx.delivered| ==> DeliveryOk(rx.delivered[n], arrivals)
  }

  /** Each delivery and each filled slot is paid for by a copy of the segment that arrived. */
  ghost predicate Counted(rx: Receiver, arrivals: seq<Arrival>) {
    forall k: BufferKey, i: nat ::
      Deliveries(rx.delivered, k, i) + Slot(rx.buffers, k, i) <= Copies(arrivals, k, i)
  }

  /** A segment of a message never delivered and never dropped is still in its buffer. */
  ghost predicate Retained(rx: Receiver, arrivals: seq<Arrival>) {
    forall k: BufferKey, n :: 0 <= n < |arrivals| && SegmentFor(arrivals[n], k).Some?
      && k !in rx.dropped && Deliveries(rx.delivered, k, 0) == 0
      ==> Slot(rx.buffers, k, SegmentFor(arrivals[n], k).value.index) == 1
  }

  ghost predicate ReceiverInv(rx: Receiver, arrivals: seq<Arrival>) {
    && BuffersOk(rx)
    && BuffersArrived(rx, arrivals)
    && DeliveriesOk(rx, arrivals)
    && Counted(rx, arrivals)
    && Retained(rx, arrivals)
  }

  // ---------------------------------------------------------------- arithmetic of slots

  lemma {:induction false} FilledBound(segments: seq<Option<bytes>>)
    ensures Filled(segments) <= |segments|
    ensures Filled(segments) == |segments| <==> AllFilled(segments)
  {
    if segments != [] {
      FilledBound(segments[..|segments| - 1]);
    }
  }

  lemma {:induction false} FilledUpdate(segments: seq<Option<bytes>>, i: nat, payload: bytes)
    requires i < |segments| && segments[i].None?
    ensures Filled(segments[i := Some(payload)]) == Filled(segments) + 1
  {
    var n := |segments| - 1;
    var after := segments[i := Some(payload)];
    if i == n {
      assert after[..n] == segments[..n];
    } else {
      FilledUpdate(segments[..n], i, payload);
      assert after[..n] == segments[..n][i := Some(payload)];
    }
  }

  lemma {:induction false} FilledEmpty(n: nat)
    ensures Filled(seq(n, _ => None)) == 0
  {
    if n > 0 {
      FilledEmpty(n - 1);
      var s: seq<Option<bytes>> := seq(n, _ => None);
      assert s[..n - 1] == seq(n - 1, _ => None);
    }
  }

  // ---------------------------------------------------------------- one more arrival

  lemma CopiesStep(arrivals: seq<Arrival>, a: Arrival, k: BufferKey, i: nat)
    ensures var s := SegmentFor(a, k);
            Copies(arrivals + [a], k, i) == Copies(arrivals, k, i) + (if s.Some? && s.value.index == i then 1 else 0)
  {
    assert (arrivals + [a])[..|arrivals|] == arrivals;
  }

  lemma DeliveriesStep(delivered: seq<Delivery>, d: Delivery, k: BufferKey, i: nat)
    ensures Deliveries(delivered + [d], k, i)
         == Deliveries(delivered, k, i) + (if KeyOf(d) == k && i < |d.segments| then 1 else 0)
  {
    assert (delivered + [d])[..|delivered|] == delivered;
  }

  lemma SlotArrivedGrows(arrivals: seq<Arrival>, a: Arrival, k: BufferKey, i: nat, payload: bytes)
    requires SlotArrived(arrivals, k, i, payload)
    ensures SlotArrived(arrivals + [a], k, i, payload)
  {
    var n :| 0 <= n < |arrivals| && SegmentFor(arrivals[n], k).Some?
      && SegmentFor(arrivals[n], k).value.index == i && SegmentFor(arrivals[n], k).value.payload == payload;
    assert (arrivals + [a])[n] == arrivals[n];
  }

  lemma FromArrivalsGrows(arrivals: seq<Arrival>, a: Arrival, k: BufferKey, segments: seq<Option<bytes>>)
    requires FromArrivals(arrivals, k, segments)
    ensures FromArrivals(arrivals + [a], k, segments)
  {
    var n :| 0 <= n < |arrivals| && SegmentFor(arrivals[n], k).Some? && SegmentFor(arrivals[n], k).value.total == |segments|;
    assert (arrivals + [a])[n] == arrivals[n];
    forall i | 0 <= i < |segments| && segments[i].Some?
      ensures SlotArrived(arrivals + [a], k, i, segments[i].value)
    {
      SlotArrivedGrows(arrivals, a, k, i, segments[i].value);
    }
  }

  /** Facts about arrivals survive one more arrival. */
  lemma HistoryGrows(rx: Receiver, arrivals: seq<Arrival>, a: Arrival)
    requires BuffersArrived(rx, arrivals) && DeliveriesOk(rx, arrivals)
    ensures BuffersArrived(rx, arrivals + [a]) && DeliveriesOk(rx, arrivals + [a])
  {
    forall k | k in rx.buffers
      ensures FromArrivals(arrivals + [a], k, rx.buffers[k].segments)
    {
      FromArrivalsGrows(arrivals, a, k, rx.buffers[k].segments);
    }
    forall n | 0 <= n < |rx.delivered|
      ensures DeliveryOk(rx.delivered[n], arrivals + [a])
    {
      FromArrivalsGrows(arrivals, a, KeyOf(rx.delivered[n]), rx.delivered[n].segments);
    }
  }

  /** A packet that is not an accepted segment changes nothing. */
  lemma OtherPacketKeeps(rx: Receiver, arrivals: seq<Arrival>, a: Arrival)
    requires ReceiverInv(rx, arrivals) && ParseData(a.packet).None?
    ensures ReceiverInv(rx, arrivals + [a])
  {
    HistoryGrows(rx, arrivals, a);
    forall k: BufferKey, i: nat
      ensures Deliveries(rx.delivered, k, i) + Slot(rx.buffers, k, i) <= Copies(arrivals + [a], k, i)
    {
      CopiesStep(arrivals, a, k, i);
    }
    forall k: BufferKey, n | 0 <= n < |arrivals + [a]| && SegmentFor((arrivals + [a])[n], k).Some?
      && k !in rx.dropped && Deliveries(rx.delivered, k, 0) == 0
      ensures Slot(rx.buffers, k, SegmentFor((arrivals + [a])[n], k).value.index) == 1
    {
      assert (arrivals + [a])[n] == arrivals[n];
    }
  }

  // ---------------------------------------------------------------- dropping buffers

  lemma DroppingCounts(rx: Receiver, arrivals: seq<Arrival>, after: Receiver)
    requires Counted(rx, arrivals) && after.delivered == rx.delivered
    requires forall k :: k in after.buffers ==> k in rx.buffers && after.buffers[k] == rx.buffers[k]
    ensures Counted(after, arrivals)
  {
    forall k: BufferKey, i: nat
      ensures Deliveries(after.delivered, k, i) + Slot(after.buffers, k, i) <= Copies(arrivals, k, i)
    {
      assert Deliveries(rx.delivered, k, i) + Slot(rx.buffers, k, i) <= Copies(arrivals, k, i);
    }
  }

  lemma DroppingRetains(rx: Receiver, arrivals: seq<Arrival>, after: Receiver)
    requires Retained(rx, arrivals) && after.delivered == rx.delivered && rx.dropped <= after.dropped
    requires forall k :: k in rx.buffers && k !in after.dropped ==> k in after.buffers && after.buffers[k] == rx.buffers[k]
    requires forall k :: k in after.buffers ==> k in rx.buffers
    ensures Retained(after, arrivals)
  {
    forall k: BufferKey, i: nat
      ensures k !in after.dropped ==> Slot(after.buffers, k, i) == Slot(rx.buffers, k, i)
    {
    }
  }

  /** Dropping buffers is safe as long as the drop is remembered. */
  lemma DroppingKeeps(rx: Receiver, arrivals: seq<Arrival>, after: Receiver)
    requires ReceiverInv(rx, arrivals)
    requires after.buffers.Keys <= rx.buffers.Keys
    requires forall k :: k in after.buffers ==> after.buffers[k] == rx.buffers[k]
    requires after.delivered == rx.delivered
    requires rx.dropped + (rx.buffers.Keys - after.buffers.Keys) <= after.dropped
    ensures ReceiverInv(after, arrivals)
  {
    FewerKeys(after.buffers, rx.buffers);
    DroppingCounts(rx, arrivals, after);
    DroppingRetains(rx, arrivals, after);
  }

  lemma FewerKeys(a: map<BufferKey, Buffer>, b: map<BufferKey, Buffer>)
    requires a.Keys <= b.Keys
    ensures |a| <= |b|
  {
    assert |a| == |a.Keys| && |b| == |b.Keys|;
    SubsetSize(a.Keys, b.Keys);
  }

  lemma {:induction false} SubsetSize(a: set<BufferKey>, b: set<BufferKey>)
    requires a <= b
    ensures |a| <= |b|
  {
    if a != {} {
      var x :| x in a;
      SubsetSize(a - {x}, b - {x});
    }
  }

  lemma CleanupKeeps(rx: Receiver, arrivals: seq<Arrival>, now: Time)
    requires ReceiverInv(rx, arrivals)
    ensures ReceiverInv(Cleaned(rx, now), arrivals)
  {
    DroppingKeeps(rx, arrivals, Cleaned(rx, now));
  }

  // ---------------------------------------------------------------- storing a segment

  lemma EvictionMakesRoom(rx: Receiver, arrivals: seq<Arrival>, key: BufferKey, victim: BufferKey)
    requires ReceiverInv(rx, arrivals)
    requires MustEvict(rx, key) ==> victim in rx.buffers
    ensures var after := Evicted(rx, key, victim);
            && ReceiverInv(after, arrivals)
            && (key !in after.buffers ==> |after.buffers| < MAX_REASSEMBLY_BUFFERS)
            && (key in after.buffers <==> key in rx.buffers)
  {
    var after := Evicted(rx, key, victim);
    if MustEvict(rx, key) {
      assert after.buffers.Keys == rx.buffers.Keys - {victim};
      assert |after.buffers| == |after.buffers.Keys| && |rx.buffers| == |rx.buffers.Keys|;
      DroppingKeeps(rx, arrivals, after);
    }
  }

  /** The buffer an accepted segment goes into. */
  function Target(rx: Receiver, key: BufferKey, total: u16, now: Time): Buffer {
    if key in rx.buffers then rx.buffers[key] else EmptyBuffer(total, now)
  }

  /** `b` stands for the buffer of `key`, empty when there is none. */
  ghost predicate Represents(b: Buffer, rx: Receiver, key: BufferKey) {
    forall i: nat :: Slot(rx.buffers, key, i) == if i < |b.segments| && b.segments[i].Some? then 1 else 0
  }

  lemma TargetOk(rx: Receiver, arrivals: seq<Arrival>, src: Key, seg: Segment, a: Arrival, now: Time)
    requires BuffersOk(rx) && BuffersArrived(rx, arrivals)
    requires a.src == src && ParseData(a.packet) == Some(seg)
    ensures var key := (seg.msgId, src);
            var b := Target(rx, key, seg.total, now);
            && BufferOk(b) && FromArrivals(arrivals + [a], key, b.segments)
            && Represents(b, rx, key)
  {
    var key := (seg.msgId, src);
    var b := Target(rx, key, seg.total, now);
    if key in rx.buffers {
      FromArrivalsGrows(arrivals, a, key, b.segments);
    } else {
      FilledEmpty(seg.total);
      assert (arrivals + [a])[|arrivals|] == a;
      assert SegmentFor((arrivals + [a])[|arrivals|], key) == Some(seg);
    }
  }

  lemma FillingKeeps(b: Buffer, arrivals: seq<Arrival>, key: BufferKey, seg: Segment, a: Arrival)
    requires BufferOk(b) && FromArrivals(arrivals + [a], key, b.segments)
    requires a.src == key.1 && key.0 == seg.msgId && ParseData(a.packet) == Some(seg) && seg.index < |b.segments|
    ensures var after := WithSegment(b, seg.index, seg.payload);
            && |after.segments| == after.total == b.total
            && after.received == Filled(after.segments) <= after.total
            && after.segments[seg.index].Some?
            && FromArrivals(arrivals + [a], key, after.segments)
  {
    var after := WithSegment(b, seg.index, seg.payload);
    if b.segments[seg.index].None? {
      FilledUpdate(b.segments, seg.index, seg.payload);
      FilledBound(after.segments);
      assert SlotArrived(arrivals + [a], key, seg.index, seg.payload) by {
        assert (arrivals + [a])[|arrivals|] == a;
        assert SegmentFor((arrivals + [a])[|arrivals|], key) == Some(seg);
      }
    }
  }

  /** What storing a segment does to slots and deliveries, key by key. */
  ghost predicate Stored(rx: Receiver, after: Receiver, key: BufferKey, index: nat) {
    && after.dropped == rx.dropped
    && (forall k: BufferKey, i: nat :: k != key ==>
          Slot(after.buffers, k, i) == Slot(rx.buffers, k, i) && Deliveries(after.delivered, k, i) == Deliveries(rx.delivered, k, i))
    && (forall i: nat ::
          Deliveries(after.delivered, key, i) + Slot(after.buffers, key, i)
          <= Deliveries(rx.delivered, key, i) + Slot(rx.buffers, key, i) + (if i == index then 1 else 0))
    && (Deliveries(after.delivered, key, 0) > 0
        || (Slot(after.buffers, key, index) == 1 && Deliveries(rx.delivered, key, 0) == 0
            && forall i: nat :: Slot(rx.buffers, key, i) == 1 ==> Slot(after.buffers, key, i) == 1))
  }

  lemma StoredKeeps(rx: Receiver, arrivals: seq<Arrival>, after: Receiver, key: BufferKey, seg: Segment, a: Arrival)
    requires Counted(rx, arrivals) && Retained(rx, arrivals)
    requires a.src == key.1 && key.0 == seg.msgId && ParseData(a.packet) == Some(seg)
    requires Stored(rx, after, key, seg.index)
    ensures Counted(after, arrivals + [a]) && Retained(after, arrivals + [a])
  {
    forall k: BufferKey, i: nat
      ensures Deliveries(after.delivered, k, i) + Slot(after.buffers, k, i) <= Copies(arrivals + [a], k, i)
    {
      CopiesStep(arrivals, a, k, i);
      assert Deliveries(rx.delivered, k, i) + Slot(rx.buffers, k, i) <= Copies(arrivals, k, i);
    }
    forall k: BufferKey, n | 0 <= n < |arrivals + [a]| && SegmentFor((arrivals + [a])[n], k).Some?
      && k !in after.dropped && Deliveries(after.delivered, k, 0) == 0
      ensures Slot(after.buffers, k, SegmentFor((arrivals + [a])[n], k).value.index) == 1
    {
      if n < |arrivals| {
        assert (arrivals + [a])[n] == arrivals[n];
        assert Slot(rx.buffers, k, SegmentFor(arrivals[n], k).value.index) == 1;
      } else {
        assert k == key;
      }
    }
  }

  lemma PutBackStores(rx: Receiver, key: BufferKey, index: nat, payload: bytes, b: Buffer)
    requires index < |b.segments| && Represents(b, rx, key)
    ensures Stored(rx, rx.(buffers := rx.buffers[key := WithSegment(b, index, payload)]), key, index)
  {
    var filled := WithSegment(b, index, payload);
    var after := rx.(buffers := rx.buffers[key := filled]);
    forall i: nat
      ensures Slot(after.buffers, key, i) == if i == index then 1 else Slot(rx.buffers, key, i)
    {
    }
  }

  lemma OneMoreKey(buffers: map<BufferKey, Buffer>, key: BufferKey, filled: Buffer)
    ensures |buffers[key := filled]| == |buffers| + if key in buffers then 0 else 1
  {
    var after := buffers[key := filled];
    assert after.Keys == buffers.Keys + {key};
    assert |after| == |after.Keys| && |buffers| == |buffers.Keys|;
  }

  lemma AddedBuffer(rx: Receiver, arrivals: seq<Arrival>, key: BufferKey, filled: Buffer)
    requires BuffersOk(rx) && BuffersArrived(rx, arrivals)
    requires key !in rx.buffers ==> |rx.buffers| < MAX_REASSEMBLY_BUFFERS
    requires BufferOk(filled) && FromArrivals(arrivals, key, filled.segments)
    ensures var after := rx.(buffers := rx.buffers[key := filled]);
            BuffersOk(after) && BuffersArrived(after, arrivals)
  {
    OneMoreKey(rx.buffers, key, filled);
  }

  /** An incomplete buffer is put back. */
  lemma PutBack(rx: Receiver, arrivals: seq<Arrival>, key: BufferKey, seg: Segment, a: Arrival, b: Buffer)
    requires ReceiverInv(rx, arrivals)
    requires key !in rx.buffers ==> |rx.buffers| < MAX_REASSEMBLY_BUFFERS
    requires a.src == key.1 && key.0 == seg.msgId && ParseData(a.packet) == Some(seg) && seg.index < |b.segments|
    requires Represents(b, rx, key)
    requires var filled := WithSegment(b, seg.index, seg.payload);
             BufferOk(filled) && FromArrivals(arrivals + [a], key, filled.segments)
    ensures ReceiverInv(rx.(buffers := rx.buffers[key := WithSegment(b, seg.index, seg.payload)]), arrivals + [a])
  {
    var filled := WithSegment(b, seg.index, seg.payload);
    HistoryGrows(rx, arrivals, a);
    AddedBuffer(rx, arrivals + [a], key, filled);
    PutBackStores(rx, key, seg.index, seg.payload, b);
    StoredKeeps(rx, arrivals, rx.(buffers := rx.buffers[key := filled]), key, seg, a);
  }

  lemma DeliveryStores(rx: Receiver, key: BufferKey, index: nat, payload: bytes, b: Buffer, after: Receiver)
    requires index < |b.segments| && Represents(b, rx, key)
    requires var filled := WithSegment(b, index, payload);
             && AllFilled(filled.segments) && b.segments[index].None?
             && after == rx.(buffers := rx.buffers - {key},
                             delivered := rx.delivered + [Delivery(key.0, key.1, filled.segments)])
    ensures Stored(rx, after, key, index)
  {
    var d := after.delivered[|rx.delivered|];
    forall k: BufferKey, i: nat
      ensures Deliveries(after.delivered, k, i) == Deliveries(rx.delivered, k, i) + (if k == key && i < |d.segments| then 1 else 0)
    {
      DeliveriesStep(rx.delivered, d, k, i);
    }
    forall i: nat
      ensures i < |d.segments| && i != index ==> Slot(rx.buffers, key, i) == 1
    {
      assert i < |d.segments| ==> d.segments[i].Some?;
    }
    assert Deliveries(after.delivered, key, 0) > 0;
  }

  lemma AddedDelivery(rx: Receiver, arrivals: seq<Arrival>, key: BufferKey, d: Delivery)
    requires BuffersOk(rx) && BuffersArrived(rx, arrivals) && DeliveriesOk(rx, arrivals) && DeliveryOk(d, arrivals)
    ensures var after := rx.(buffers := rx.buffers - {key}, delivered := rx.delivered + [d]);
            BuffersOk(after) && BuffersArrived(after, arrivals) && DeliveriesOk(after, arrivals)
  {
    FewerKeys(rx.buffers - {key}, rx.buffers);
  }

  /** A full buffer is removed and delivered. */
  lemma Delivered(rx: Receiver, arrivals: seq<Arrival>, key: BufferKey, seg: Segment, a: Arrival, b: Buffer)
    requires ReceiverInv(rx, arrivals) && BufferOk(b) && Represents(b, rx, key)
    requires a.src == key.1 && key.0 == seg.msgId && ParseData(a.packet) == Some(seg) && seg.index < |b.segments|
    requires var filled := WithSegment(b, seg.index, seg.payload);
             && |filled.segments| == filled.total && filled.received == Filled(filled.segments) == filled.total
             && FromArrivals(arrivals + [a], key, filled.segments)
    ensures ReceiverInv(rx.(buffers := rx.buffers - {key}, delivered := rx.delivered +
                            [Delivery(key.0, key.1, WithSegment(b, seg.index, seg.payload).segments)]), arrivals + [a])
  {
    var d := Delivery(key.0, key.1, WithSegment(b, seg.index, seg.payload).segments);
    var after := rx.(buffers := rx.buffers - {key}, delivered := rx.delivered + [d]);
    FilledBound(d.segments);
    HistoryGrows(rx, arrivals, a);
    AddedDelivery(rx, arrivals + [a], key, d);
    DeliveryStores(rx, key, seg.index, seg.payload, b, after);
    StoredKeeps(rx, arrivals, after, key, seg, a);
  }

  /** The reader task ends on an index past the first segment's total; the message counts as dropped. */
  lemma Ended(rx: Receiver, arrivals: seq<Arrival>, key: BufferKey, a: Arrival)
    requires ReceiverInv(rx, arrivals)
    requires forall k: BufferKey :: SegmentFor(a, k).Some? ==> k == key
    ensures ReceiverInv(rx.(alive := false, dropped := rx.dropped + {key}), arrivals + [a])
  {
    var after := rx.(alive := false, dropped := rx.dropped + {key});
    HistoryGrows(rx, arrivals, a);
    forall k: BufferKey, i: nat
      ensures Deliveries(after.delivered, k, i) + Slot(after.buffers, k, i) <= Copies(arrivals + [a], k, i)
    {
      CopiesStep(arrivals, a, k, i);
    }
    forall k: BufferKey, n | 0 <= n < |arrivals + [a]| && SegmentFor((arrivals + [a])[n], k).Some?
      && k !in after.dropped && Deliveries(after.delivered, k, 0) == 0
      ensures Slot(after.buffers, k, SegmentFor((arrivals + [a])[n], k).value.index) == 1
    {
      assert (arrivals + [a])[n] == arrivals[n];
    }
  }

  /** Every accepted segment keeps the receiver invariant, eviction included. */
  lemma SegmentKeeps(rx: Receiver, arrivals: seq<Arrival>, src: Key, packet: bytes, seg: Segment, now: Time, victim: BufferKey)
    requires ReceiverInv(rx, arrivals) && ParseData(packet) == Some(seg)
    requires VictimOk(rx, src, packet, victim)
    ensures ReceiverInv(OnSegment(rx, src, seg, now, victim), arrivals + [Arrival(src, packet, now)])
  {
    var key := (seg.msgId, src);
    var a := Arrival(src, packet, now);
    EvictionMakesRoom(rx, arrivals, key, victim);
    var rx1 := Evicted(rx, key, victim);
    TargetOk(rx1, arrivals, src, seg, a, now);
    var b := Target(rx1, key, seg.total, now);
    if seg.index >= |b.segments| {
      Ended(rx1, arrivals, key, a);
    } else {
      FillingKeeps(b, arrivals, key, seg, a);
      var filled := WithSegment(b, seg.index, seg.payload);
      if filled.received == filled.total {
        Delivered(rx1, arrivals, key, seg, a, b);
      } else {
        PutBack(rx1, arrivals, key, seg, a, b);
      }
    }
  }

  // ---------------------------------------------------------------- consequences

  /**
   * If every segment of a message arrived with the same total and its buffer was
   * never dropped, the message was delivered.
   */
  lemma AllArrivedMeansDelivered(rx: Receiver, arrivals: seq<Arrival>, k: BufferKey, total: nat)
    requires ReceiverInv(rx, arrivals) && 0 < total && k !in rx.dropped
    requires forall n :: 0 <= n < |arrivals| && SegmentFor(arrivals[n], k).Some? ==> SegmentFor(arrivals[n], k).value.total == total
    requires forall i: nat :: i < total ==> IndexArrived(arrivals, k, i)
    ensures Deliveries(rx.delivered, k, 0) > 0
  {
    if Deliveries(rx.delivered, k, 0) == 0 {
      forall i: nat | i < total
        ensures Slot(rx.buffers, k, i) == 1
      {
        assert IndexArrived(arrivals, k, i);
        var n :| 0 <= n < |arrivals| && SegmentFor(arrivals[n], k).Some? && SegmentFor(arrivals[n], k).value.index == i;
      }
      assert Slot(rx.buffers, k, 0) == 1;
      var b := rx.buffers[k];
      assert FromArrivals(arrivals, k, b.segments);
      forall i | 0 <= i < |b.segments|
        ensures b.segments[i].Some?
      {
        assert Slot(rx.buffers, k, i) == 1;
      }
      FilledBound(b.segments);
      assert false;
    }
  }

  // ---------------------------------------------------------------- exactly what is accepted and dropped

  /** A packet is a segment iff it is a DATA header of just this payload, within the total, of at most 32 MiB in all. */
  lemma ParsesExactly(packet: bytes, seg: Segment)
    ensures ParseData(packet) == Some(seg) <==>
            && |seg.payload| < 0x1_0000 && seg.index < seg.total && seg.total * 65520 <= 33554432
            && packet == Encoded(DataHeader(seg.msgId, seg.index, seg.total, |seg.payload|)) + seg.payload
  {
    if ParseData(packet) == Some(seg) {
      EncodedOfDecode(packet);
      assert packet == packet[..HEADER_SIZE] + packet[HEADER_SIZE..];
    } else if |seg.payload| < 0x1_0000 {
      var h := DataHeader(seg.msgId, seg.index, seg.total, |seg.payload|);
      DecodeOfEncoded(h, seg.payload);
      assert (Encoded(h) + seg.payload)[HEADER_SIZE..] == seg.payload;
    }
  }

  /** Ageing drops a buffer iff it is ten minutes old. */
  lemma AgeingDrops(rx: Receiver, now: Time, k: BufferKey)
    ensures k in Cleaned(rx, now).buffers <==> k in rx.buffers && now < rx.buffers[k].created + 600_000
    ensures k in Cleaned(rx, now).buffers ==> Cleaned(rx, now).buffers[k] == rx.buffers[k]
    ensures Cleaned(rx, now).delivered == rx.delivered && Cleaned(rx, now).alive == rx.alive
  {
  }

  /**
   * A segment drops another message's buffer only when it opens a buffer of its
   * own and 256 are live, and then just the victim, an oldest one. It ends the
   * reader iff its index lies beyond the buffer it meets, and then drops that.
   */
  lemma SegmentDropsExactly(rx: Receiver, src: Key, seg: Segment, now: Time, victim: BufferKey, k: BufferKey)
    requires var key := (seg.msgId, src); k != key && (key !in rx.buffers && |rx.buffers| >= 256 ==> IsOldest(rx.buffers, victim))
    ensures var key, after := (seg.msgId, src), OnSegment(rx, src, seg, now, victim);
            var full := key !in rx.buffers && |rx.buffers| >= 256;
            && (k in after.buffers <==> k in rx.buffers && !(full && k == victim))
            && (k in after.buffers ==> after.buffers[k] == rx.buffers[k])
            && (after.alive <==> rx.alive && seg.index < (if key in rx.buffers then |rx.buffers[key].segments| else seg.total))
            && (k in after.dropped <==> k in rx.dropped || (full && k == victim))
  {
  }

  /** A buffer keeps the time of the first segment that came for it. */
  lemma BufferKeepsItsTime(rx: Receiver, src: Key, seg: Segment, now: Time, victim: BufferKey)
    requires var key := (seg.msgId, src); key in OnSegment(rx, src, seg, now, victim).buffers
    ensures var key := (seg.msgId, src);
            OnSegment(rx, src, seg, now, victim).buffers[key].created == if key in rx.buffers then rx.buffers[key].created else now
  {
  }
}
