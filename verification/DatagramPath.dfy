// core_conn.rs `demux` and `DemuxedConn`, and the inbound half of
// quic/udp_adapter.rs: from the mesh to quinn.
module DatagramPath {
  import opened Bytes
  import opened Wrappers
  import opened AddrTable
  import YmpWire

  const PUMP_BUF_BYTES: nat := 65535

  /** Bytes and where they came from: a key on the mesh, a socket address for quinn. */
  datatype Packet<A> = Packet(data: bytes, from: A)

  type Datagram = Packet<Key>

  /** The Fixed Bit 0x40 of the first byte (sections 17.2 and 17.3 of RFC 9000). */
  predicate HasFixedBit(b: byte) {
    (b / 0x40) % 2 == 1
  }

  datatype Protocol = Ymp | Quic

  /** By the range of the first byte: 0x40 to 0x7F and 0xC0 to 0xFF are QUIC's, every other is YMP's. */
  predicate IsOf(d: Datagram, protocol: Protocol) {
    d.data != [] && (0x40 <= d.data[0] <= 0x7F || 0xC0 <= d.data[0] <= 0xFF) == protocol.Quic?
  }

  lemma FixedBitRanges(b: byte)
    ensures HasFixedBit(b) <==> 0x40 <= b <= 0x7F || 0xC0 <= b <= 0xFF
  {
  }

  // ---------------------------------------------------------------- the demultiplexer

  /** What can wake the pump: a consumer that left is noticed, a datagram, a failed read. A consumer may leave unnoticed. */
  datatype Event =
    | YmpLeaves
    | QuicLeaves
    | NoticeYmp
    | NoticeQuic
    | Arrives(d: Datagram)
    | ReadFails

  datatype Pump = Pump(
    ympAlive: bool, quicAlive: bool, ympThere: bool, quicThere: bool, running: bool,
    toYmp: seq<Datagram>, toQuic: seq<Datagram>)

  const STARTED := Pump(true, true, true, true, true, [], [])

  /** A datagram goes to the queue of its kind, or reveals that the consumer has left. */
  function Routed(p: Pump, d: Datagram): Pump {
    if d.data == [] then p
    else if HasFixedBit(d.data[0]) then
      if !p.quicAlive then p
      else if p.quicThere then p.(toQuic := p.toQuic + [d])
      else p.(quicAlive := false)
    else if !p.ympAlive then p
    else if p.ympThere then p.(toYmp := p.toYmp + [d])
    else p.(ympAlive := false)
  }

  predicate Looping(p: Pump) {
    p.running && (p.ympAlive || p.quicAlive)
  }

  /** One turn of the select loop; the loop ends when it finds both routes dead. */
  function Turn(p: Pump, e: Event): Pump {
    match e
    case YmpLeaves => p.(ympThere := false)
    case QuicLeaves => p.(quicThere := false)
    case NoticeYmp => if Looping(p) then p.(ympAlive := p.ympAlive && p.ympThere) else p.(running := false)
    case NoticeQuic => if Looping(p) then p.(quicAlive := p.quicAlive && p.quicThere) else p.(running := false)
    case Arrives(d) => if Looping(p) then Routed(p, d) else p.(running := false)
    case ReadFails => p.(running := false)
  }

  function Pumped(p: Pump, events: seq<Event>): Pump {
    if events == [] then p else Turn(Pumped(p, events[..|events| - 1]), events[|events| - 1])
  }

  class Demux {
    var ympAlive: bool
    var quicAlive: bool
    var ympThere: bool
    var quicThere: bool
    var running: bool
    var toYmp: seq<Datagram>
    var toQuic: seq<Datagram>

    function State(): Pump
      reads this
    {
      Pump(ympAlive, quicAlive, ympThere, quicThere, running, toYmp, toQuic)
    }

    constructor ()
      ensures State() == STARTED
    {
      ympAlive, quicAlive, ympThere, quicThere, running, toYmp, toQuic := true, true, true, true, true, [], [];
    }

    /** The pump over what happens to it. */
    method Run(events: seq<Event>)
      modifies this
      ensures State() == Pumped(old(State()), events)
      ensures old(State()) == STARTED && Stays(events, Quic) ==> toQuic == PartOf(events, Quic)
      ensures old(State()) == STARTED && Stays(events, Ymp) ==> toYmp == PartOf(events, Ymp)
    {
      if Stays(events, Quic) { QueueIsItsPart(events, Quic); }
      if Stays(events, Ymp) { QueueIsItsPart(events, Ymp); }
      for i := 0 to |events|
        invariant State() == Pumped(old(State()), events[..i])
      {
        assert events[..i + 1][..i] == events[..i];
        Once(events[i]);
      }
      assert events[..|events|] == events;
    }

    method Once(e: Event)
      modifies this
      ensures State() == Turn(old(State()), e)
    {
      if e.YmpLeaves? {
        ympThere := false;
      } else if e.QuicLeaves? {
        quicThere := false;
      } else if !running || (!ympAlive && !quicAlive) {
        running := false;
      } else {
        match e
        case NoticeYmp => ympAlive := ympAlive && ympThere;
        case NoticeQuic => quicAlive := quicAlive && quicThere;
        case Arrives(d) => Forward(d);
        case ReadFails => running := false;
      }
    }

    method Forward(d: Datagram)
      modifies this
      ensures State() == Routed(old(State()), d)
    {
      if d.data == [] {
        return;
      }
      if HasFixedBit(d.data[0]) {
        if quicAlive {
          if quicThere { toQuic := toQuic + [d]; } else { quicAlive := false; }
        }
      } else if ympAlive {
        if ympThere { toYmp := toYmp + [d]; } else { ympAlive := false; }
      }
    }
  }

  /** The datagrams of one protocol, in order of arrival. */
  function PartOf(events: seq<Event>, protocol: Protocol): seq<Datagram> {
    if events == [] then []
    else
      var before := PartOf(events[..|events| - 1], protocol);
      var e := events[|events| - 1];
      if e.Arrives? && IsOf(e.d, protocol) then before + [e.d] else before
  }

  function QueueOf(p: Pump, protocol: Protocol): seq<Datagram> {
    match protocol
    case Ymp => p.toYmp
    case Quic => p.toQuic
  }

  /** The consumer of this protocol stays, and reads work. */
  ghost predicate Stays(events: seq<Event>, protocol: Protocol) {
    forall i :: 0 <= i < |events| ==>
      !events[i].ReadFails? && !(if protocol.Quic? then events[i].QuicLeaves? else events[i].YmpLeaves?)
  }

  predicate Serves(p: Pump, protocol: Protocol) {
    p.running && if protocol.Quic? then p.quicAlive && p.quicThere else p.ympAlive && p.ympThere
  }

  /**
   * While a consumer stays and reads work, its queue is, in order, exactly its
   * part of what arrives, by the range of the first byte, whatever becomes of the
   * other.
   */
  lemma {:induction false} QueueIsItsPart(events: seq<Event>, protocol: Protocol)
    requires Stays(events, protocol)
    ensures QueueOf(Pumped(STARTED, events), protocol) == PartOf(events, protocol)
    ensures Serves(Pumped(STARTED, events), protocol)
  {
    if events != [] {
      var e := events[|events| - 1];
      if e.Arrives? && e.d.data != [] {
        FixedBitRanges(e.d.data[0]);
      }
      QueueIsItsPart(events[..|events| - 1], protocol);
    }
  }

  /** No packet type of YMP has the Fixed Bit: what decodes as a YMP header is not for QUIC. */
  lemma HeadersAreYmp(d: Datagram)
    requires YmpWire.Decode(d.data).Some?
    ensures IsOf(d, Ymp)
  {
    YmpWire.EncodedOfDecode(d.data);
    assert d.data[0] == d.data[..YmpWire.HEADER_SIZE][0];
  }

  lemma {:induction false} PartHolds(events: seq<Event>, protocol: Protocol, i: nat)
    requires i < |events| && events[i].Arrives? && IsOf(events[i].d, protocol)
    ensures events[i].d in PartOf(events, protocol)
  {
    if i < |events| - 1 {
      PartHolds(events[..|events| - 1], protocol, i);
    }
  }

  lemma {:induction false} QueuesAreSorted(events: seq<Event>)
    ensures forall d :: d in Pumped(STARTED, events).toQuic ==> IsOf(d, Quic)
    ensures forall d :: d in Pumped(STARTED, events).toYmp ==> IsOf(d, Ymp)
  {
    if events != [] {
      var e := events[|events| - 1];
      if e.Arrives? && e.d.data != [] {
        FixedBitRanges(e.d.data[0]);
      }
      QueuesAreSorted(events[..|events| - 1]);
    }
  }

  /**
   * The two protocols do not meet. Whatever happens, nothing in QUIC's queue
   * decodes as a YMP header; and while the YMP consumer stays, every arrival that
   * does, so every packet a YMP node writes, gets into its queue.
   */
  lemma YmpPath(events: seq<Event>, d: Datagram)
    requires YmpWire.Decode(d.data).Some?
    ensures d !in Pumped(STARTED, events).toQuic
    ensures Stays(events, Ymp) && Arrives(d) in events ==> d in Pumped(STARTED, events).toYmp
  {
    HeadersAreYmp(d);
    QueuesAreSorted(events);
    if Stays(events, Ymp) && Arrives(d) in events {
      var i :| 0 <= i < |events| && events[i] == Arrives(d);
      PartHolds(events, Ymp, i);
      QueueIsItsPart(events, Ymp);
    }
  }

  // ---------------------------------------------------------------- bounded readers

  function Fitting<A>(q: seq<Packet<A>>, cap: nat): seq<Packet<A>> {
    if q == [] then []
    else if |q[0].data| <= cap then [q[0]] + Fitting(q[1..], cap)
    else Fitting(q[1..], cap)
  }

  lemma {:induction false} AllFit<A>(q: seq<Packet<A>>, cap: nat)
    requires forall i :: 0 <= i < |q| ==> |q[i].data| <= cap
    ensures Fitting(q, cap) == q
  {
    if q != [] {
      AllFit(q[1..], cap);
    }
  }

  /** A read into a caller's buffer: some datagram, or nothing yet. */
  datatype Received<A> = Received(length: nat, from: A) | Nothing

  /** A queue read into callers' buffers: a view of the demultiplexed connection, or the socket's own. */
  class Inbox<A(==)> {
    var rx: seq<Packet<A>>

    constructor (rx: seq<Packet<A>>)
      ensures this.rx == rx
    {
      this.rx := rx;
    }

    /** `DemuxedConn::read_from` and `poll_recv`: the next datagram that fits, whole, at the start of the buffer. */
    method ReadFrom(buf: array<byte>) returns (r: Received<A>)
      modifies this, buf
      ensures r.Received? ==> r.length <= buf.Length && buf[r.length..] == old(buf[..])[r.length..]
      ensures r.Received? ==> |rx| < |old(rx)| && Fitting(old(rx), buf.Length) == [Packet(buf[..r.length], r.from)] + Fitting(rx, buf.Length)
      ensures r.Nothing? ==> rx == [] && buf[..] == old(buf[..]) && Fitting(old(rx), buf.Length) == []
    {
      while rx != []
        invariant buf[..] == old(buf[..])
        invariant Fitting(rx, buf.Length) == Fitting(old(rx), buf.Length)
        invariant |rx| <= |old(rx)|
        decreases |rx|
      {
        var d := rx[0];
        rx := rx[1..];
        if |d.data| > buf.Length {
          continue;
        }
        CopyIn(buf, d.data);
        assert [Packet(buf[..|d.data|], d.from)] == [d];
        return Received(|d.data|, d.from);
      }
      return Nothing;
    }
  }

  method CopyIn(buf: array<byte>, data: bytes)
    requires |data| <= buf.Length
    modifies buf
    ensures buf[..|data|] == data && buf[|data|..] == old(buf[|data|..])
  {
    for i := 0 to |data|
      invariant buf[..i] == data[..i] && buf[|data|..] == old(buf[|data|..])
    {
      buf[i] := data[i];
    }
  }

  // ---------------------------------------------------------------- the socket

  /** Each packet is its datagram, under an address that means the sender's key. */
  ghost predicate Resolves(t: Table, packets: seq<Packet<SocketAddr>>, datagrams: seq<Datagram>) {
    && |packets| == |datagrams|
    && forall i :: 0 <= i < |packets| ==>
         && packets[i].data == datagrams[i].data
         && packets[i].from in t.byAddr && t.byAddr[packets[i].from] == datagrams[i].from
  }

  class UdpSocket {
    const table: AddrMap
    const inbox: Inbox<SocketAddr>
    var sent: seq<Datagram>

    constructor (table: AddrMap)
      ensures this.table == table && fresh(inbox) && inbox.rx == [] && sent == []
    {
      this.table, sent := table, [];
      inbox := new Inbox([]);
    }

    /** One turn of the inbound pump: one datagram taken from the view goes to quinn under its sender's address. */
    method PumpOne(view: Inbox<Key>, buf: array<byte>) returns (more: bool, ghost d: Datagram, ghost addr: SocketAddr)
      requires Valid(table.State()) && table.next < 0xFFFF_FFFF && buf.Length == PUMP_BUF_BYTES
      modifies view, buf, table, inbox
      ensures Valid(table.State()) && Grows(old(table.State()), table.State()) && table.next <= old(table.next) + 1
      ensures Fitting(old(view.rx), PUMP_BUF_BYTES) == (if more then [d] else []) + Fitting(view.rx, PUMP_BUF_BYTES)
      ensures inbox.rx == old(inbox.rx) + if more then [Packet(d.data, addr)] else []
      ensures more ==> addr in table.byAddr && table.byAddr[addr] == d.from && |view.rx| < |old(view.rx)|
      ensures !more ==> view.rx == [] && table.State() == old(table.State())
    {
      var r := view.ReadFrom(buf);
      if r.Nothing? {
        return false, *, *;
      }
      var data := buf[..r.length];
      d := Packet(data, r.from);
      var a := table.AddrForKey(r.from);
      inbox.rx := inbox.rx + [Packet(data, a)];
      return true, d, a;
    }

    /** The inbound pump on what its view holds: every datagram, in order, under its sender's address. */
    method PumpIn(view: Inbox<Key>, buf: array<byte>) returns (ghost packets: seq<Packet<SocketAddr>>)
      requires Valid(table.State()) && table.next + |view.rx| < 0xFFFF_FFFF
      requires buf.Length == PUMP_BUF_BYTES
      modifies view, buf, table, inbox
      ensures view.rx == []
      ensures inbox.rx == old(inbox.rx) + packets
      ensures Valid(table.State()) && Grows(old(table.State()), table.State())
      ensures Resolves(table.State(), packets, Fitting(old(view.rx), PUMP_BUF_BYTES))
    {
      packets := [];
      ghost var start, done: seq<Datagram>, whole := table.State(), [], Fitting(view.rx, PUMP_BUF_BYTES);
      var more := true;
      while more
        invariant PumpedTo(start, table.State(), packets, done, Fitting(view.rx, PUMP_BUF_BYTES), whole)
        invariant table.next + |view.rx| < 0xFFFF_FFFF
        invariant inbox.rx == old(inbox.rx) + packets
        invariant !more ==> view.rx == []
        decreases |view.rx|, more
      {
        ghost var before, fitting := table.State(), Fitting(view.rx, PUMP_BUF_BYTES);
        ghost var d, addr;
        more, d, addr := PumpOne(view, buf);
        if more {
          OneMorePumped(start, before, table.State(), packets, done, fitting, whole, Fitting(view.rx, PUMP_BUF_BYTES), addr, d);
          Reassociate(old(inbox.rx), packets, [Packet(d.data, addr)]);
          packets, done := packets + [Packet(d.data, addr)], done + [d];
        }
      }
    }

    /** `try_send`: to the key the address means, or not at all. */
    method TrySend(addr: SocketAddr, data: bytes) returns (ok: bool)
      modifies this`sent
      ensures ok <==> addr in table.byAddr
      ensures sent == old(sent) + if ok then [Packet(data, table.byAddr[addr])] else []
    {
      var key := table.KeyForAddr(addr);
      if key.None? {
        return false;
      }
      sent := sent + [Packet(data, key.value)];
      return true;
    }
  }

  /** The packets passed on are the datagrams done, with the fitting ones still to come they are all, and the table has only grown. */
  ghost predicate PumpedTo(start: Table, t: Table, packets: seq<Packet<SocketAddr>>, done: seq<Datagram>, fitting: seq<Datagram>, whole: seq<Datagram>) {
    whole == done + fitting && Resolves(t, packets, done) && Valid(t) && Grows(start, t)
  }

  lemma OneMorePumped(start: Table, before: Table, after: Table, packets: seq<Packet<SocketAddr>>, done: seq<Datagram>, fitting: seq<Datagram>,
                      whole: seq<Datagram>, left: seq<Datagram>, addr: SocketAddr, d: Datagram)
    requires PumpedTo(start, before, packets, done, fitting, whole) && Grows(before, after) && Valid(after)
    requires fitting == [d] + left
    requires addr in after.byAddr && after.byAddr[addr] == d.from
    ensures PumpedTo(start, after, packets + [Packet(d.data, addr)], done + [d], left, whole)
  {
    ResolvesMore(before, after, packets, done, addr, d);
    Reassociate(done, [d], left);
  }

  lemma ResolvesMore(before: Table, after: Table, packets: seq<Packet<SocketAddr>>, datagrams: seq<Datagram>, addr: SocketAddr, d: Datagram)
    requires Resolves(before, packets, datagrams) && Grows(before, after)
    requires addr in after.byAddr && after.byAddr[addr] == d.from
    ensures Resolves(after, packets + [Packet(d.data, addr)], datagrams + [d])
  {
  }

  /** The order and the senders survive the last length check too. */
  lemma {:induction false} FittingResolves(t: Table, packets: seq<Packet<SocketAddr>>, datagrams: seq<Datagram>, cap: nat)
    requires Resolves(t, packets, datagrams)
    ensures Resolves(t, Fitting(packets, cap), Fitting(datagrams, cap))
  {
    if packets != [] {
      FittingResolves(t, packets[1..], datagrams[1..], cap);
    }
  }

  lemma {:induction false} PartIsReadable(events: seq<Event>)
    requires forall i :: 0 <= i < |events| && events[i].Arrives? ==> |events[i].d.data| <= PUMP_BUF_BYTES
    ensures forall i :: 0 <= i < |PartOf(events, Quic)| ==> |PartOf(events, Quic)[i].data| <= PUMP_BUF_BYTES
  {
    if events != [] {
      PartIsReadable(events[..|events| - 1]);
    }
  }

  /**
   * From the mesh to quinn: while QUIC stays and reads work, what quinn's reads
   * with buffers of `cap` bytes return is, in order and byte for byte, the
   * arrivals of QUIC's two byte ranges that fit, and each carries an address that the
   * table resolves to its true sender, now and in every later state. Nothing
   * depends on the YMP view.
   */
  lemma QuicPath(events: seq<Event>, t: Table, packets: seq<Packet<SocketAddr>>, later: Table, cap: nat)
    requires Stays(events, Quic)
    requires forall i :: 0 <= i < |events| && events[i].Arrives? ==> |events[i].d.data| <= 65535
    requires Resolves(t, packets, Fitting(Pumped(STARTED, events).toQuic, PUMP_BUF_BYTES)) && Grows(t, later)
    ensures Resolves(later, Fitting(packets, cap), Fitting(PartOf(events, Quic), cap))
  {
    QueueIsItsPart(events, Quic);
    PartIsReadable(events);
    AllFit(PartOf(events, Quic), PUMP_BUF_BYTES);
    assert Resolves(later, packets, PartOf(events, Quic));
    FittingResolves(later, packets, PartOf(events, Quic), cap);
  }
}
