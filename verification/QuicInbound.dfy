// From the mesh to quinn over time: datagrams that arrive, turns of the socket's
// inbound pump and turns of quinn's reads, in any interleaving.
module QuicInbound {
  import opened Bytes
  import opened AddrTable
  import opened DatagramPath

  /** A packet that a read with a buffer of `cap` bytes has come to. */
  datatype Reached = Reached(packet: Packet<SocketAddr>, cap: nat)

  /**
   * The view's queue, the table, the socket's queue, and what quinn has been
   * given. `events`, `viewed`, `passed` and `gone` are histories: what happened at
   * the demultiplexer, what left the view, what got into the socket, what left it.
   */
  datatype Path = Path(
    pump: Pump, view: seq<Datagram>, table: Table, inbox: seq<Packet<SocketAddr>>, out: seq<Packet<SocketAddr>>,
    events: seq<Event>, viewed: seq<Datagram>, passed: seq<Packet<SocketAddr>>, gone: seq<Reached>)

  const FRESH := Path(STARTED, [], Table(map[], map[], 0), [], [], [], [], [], [])

  /** Each is one turn of its loop: too long a datagram is dropped, and the loop goes on. */
  datatype Action =
    | Wakes(e: Event)
    | PumpTurn
    | ReadTurn(cap: nat)

  predicate Enabled(p: Path, a: Action) {
    match a
    case Wakes(_) => true
    case PumpTurn => p.view != [] && HasRoom(p.table, p.view[0].from)
    case ReadTurn(_) => p.inbox != []
  }

  function AfterWakes(p: Path, e: Event): Path {
    var pump := Turn(p.pump, e);
    var queued := if |p.pump.toQuic| <= |pump.toQuic| then pump.toQuic[|p.pump.toQuic|..] else [];
    p.(pump := pump, view := p.view + queued, events := p.events + [e])
  }

  function AfterPumpTurn(p: Path): Path
    requires Enabled(p, PumpTurn)
  {
    var d := p.view[0];
    var p := p.(view := p.view[1..], viewed := p.viewed + [d]);
    if |d.data| > PUMP_BUF_BYTES then p
    else
      var table := Allocated(p.table, d.from);
      var packet := Packet(d.data, table.byKey[d.from]);
      p.(table := table, inbox := p.inbox + [packet], passed := p.passed + [packet])
  }

  function AfterReadTurn(p: Path, cap: nat): Path
    requires p.inbox != []
  {
    var packet := p.inbox[0];
    p.(inbox := p.inbox[1..], gone := p.gone + [Reached(packet, cap)],
       out := if |packet.data| <= cap then p.out + [packet] else p.out)
  }

  function Step(p: Path, a: Action): Path
    requires Enabled(p, a)
  {
    match a
    case Wakes(e) => AfterWakes(p, e)
    case PumpTurn => AfterPumpTurn(p)
    case ReadTurn(cap) => AfterReadTurn(p, cap)
  }

  ghost predicate StepAt(run: seq<Path>, i: nat)
    requires i < |run| - 1
  {
    exists a: Action :: Enabled(run[i], a) && run[i + 1] == Step(run[i], a)
  }

  ghost predicate IsRun(run: seq<Path>) {
    run != [] && run[0] == FRESH && forall i: nat :: i < |run| - 1 ==> StepAt(run, i)
  }

  // ---------------------------------------------------------------- the invariant

  function PacketsOf(gone: seq<Reached>): seq<Packet<SocketAddr>> {
    if gone == [] then [] else PacketsOf(gone[..|gone| - 1]) + [gone[|gone| - 1].packet]
  }

  /** Those that fitted the buffer of the read that came to them. */
  function Returned(gone: seq<Reached>): seq<Packet<SocketAddr>> {
    if gone == [] then []
    else
      var before, last := Returned(gone[..|gone| - 1]), gone[|gone| - 1];
      if |last.packet.data| <= last.cap then before + [last.packet] else before
  }

  /** The part up to the socket: in order, each under an address that means its sender. */
  ghost predicate PumpInv(p: Path) {
    && p.pump == Pumped(STARTED, p.events) && p.viewed + p.view == p.pump.toQuic
    && Valid(p.table) && Resolves(p.table, p.passed, Fitting(p.viewed, PUMP_BUF_BYTES))
  }

  /** The part from the socket on. */
  ghost predicate ReadInv(p: Path) {
    PacketsOf(p.gone) + p.inbox == p.passed && p.out == Returned(p.gone)
  }

  lemma {:induction false} FittingConcat<A>(q: seq<Packet<A>>, d: Packet<A>, cap: nat)
    ensures Fitting(q + [d], cap) == Fitting(q, cap) + if |d.data| <= cap then [d] else []
    decreases |q|
  {
    if q == [] {
      assert [] + [d] == [d];
    } else {
      assert (q + [d])[1..] == q[1..] + [d];
      FittingConcat(q[1..], d, cap);
    }
  }

  lemma TurnQueues(p: Pump, e: Event)
    ensures Turn(p, e).toQuic == p.toQuic || (e.Arrives? && Turn(p, e).toQuic == p.toQuic + [e.d])
  {
  }

  lemma WakesKeeps(p: Path, e: Event)
    requires PumpInv(p) && ReadInv(p)
    ensures PumpInv(AfterWakes(p, e)) && ReadInv(AfterWakes(p, e))
  {
    var events := p.events + [e];
    assert events[..|p.events|] == p.events;
    TurnQueues(p.pump, e);
    Reassociate(p.viewed, p.view, AfterWakes(p, e).pump.toQuic[|p.pump.toQuic|..]);
  }

  lemma HeadPasses<T>(a: seq<T>, b: seq<T>)
    requires b != []
    ensures a + b == (a + [b[0]]) + b[1..]
  {
  }

  lemma PumpTurnKeeps(p: Path)
    requires PumpInv(p) && ReadInv(p) && Enabled(p, PumpTurn)
    ensures PumpInv(AfterPumpTurn(p)) && ReadInv(AfterPumpTurn(p))
  {
    var d := p.view[0];
    HeadPasses(p.viewed, p.view);
    FittingConcat(p.viewed, d, PUMP_BUF_BYTES);
    if |d.data| <= PUMP_BUF_BYTES {
      var table := Allocated(p.table, d.from);
      AllocatedGrows(p.table, d.from);
      ResolvesMore(p.table, table, p.passed, Fitting(p.viewed, PUMP_BUF_BYTES), table.byKey[d.from], d);
      Reassociate(PacketsOf(p.gone), p.inbox, [Packet(d.data, table.byKey[d.from])]);
    }
  }

  lemma ReadTurnKeeps(p: Path, cap: nat)
    requires PumpInv(p) && ReadInv(p) && p.inbox != []
    ensures PumpInv(AfterReadTurn(p, cap)) && ReadInv(AfterReadTurn(p, cap))
  {
    var gone := p.gone + [Reached(p.inbox[0], cap)];
    assert gone[..|p.gone|] == p.gone;
    HeadPasses(PacketsOf(p.gone), p.inbox);
  }

  lemma RunStepKeeps(run: seq<Path>, i: nat)
    requires IsRun(run) && i < |run| - 1 && PumpInv(run[i]) && ReadInv(run[i])
    ensures PumpInv(run[i + 1]) && ReadInv(run[i + 1])
  {
    assert StepAt(run, i);
    var a: Action :| Enabled(run[i], a) && run[i + 1] == Step(run[i], a);
    match a
    case Wakes(e) => WakesKeeps(run[i], e);
    case PumpTurn => PumpTurnKeeps(run[i]);
    case ReadTurn(cap) => ReadTurnKeeps(run[i], cap);
  }

  lemma {:induction false} RunsKeepInvariant(run: seq<Path>, i: nat)
    requires IsRun(run) && i < |run|
    ensures PumpInv(run[i]) && ReadInv(run[i])
  {
    if i > 0 {
      RunsKeepInvariant(run, i - 1);
      RunStepKeeps(run, i - 1);
    }
  }

  // ---------------------------------------------------------------- what quinn is given

  /**
   * At every moment of every interleaving, while QUIC stays and reads work: what
   * has left the view and what waits in it are exactly the arrivals with the
   * Fixed Bit, in order; what has left the socket and what waits in it are, in
   * order and byte for byte, those of the former that fit the pump's buffer, each
   * under an address that resolves to its true sender; and quinn has been given
   * just those that fitted the read that came to them.
   */
  lemma QuicPathAlways(run: seq<Path>, i: nat)
    requires IsRun(run) && i < |run| && Stays(run[i].events, Quic)
    ensures var p := run[i];
            && p.viewed + p.view == PartOf(p.events, Quic)
            && Resolves(p.table, PacketsOf(p.gone) + p.inbox, Fitting(p.viewed, PUMP_BUF_BYTES))
            && p.out == Returned(p.gone)
  {
    RunsKeepInvariant(run, i);
    QueueIsItsPart(run[i].events, Quic);
  }

  lemma {:induction false} ReturnedAtCap(gone: seq<Reached>, cap: nat)
    requires forall r :: r in gone ==> r.cap == cap
    ensures Returned(gone) == Fitting(PacketsOf(gone), cap)
  {
    if gone != [] {
      var n := |gone| - 1;
      ReturnedAtCap(gone[..n], cap);
      FittingConcat(PacketsOf(gone[..n]), gone[n].packet, cap);
    }
  }

  /** With buffers of one size and all queues drained, quinn has been given exactly the arrivals with the Fixed Bit that fit. */
  lemma DrainedMeansAll(run: seq<Path>, i: nat, cap: nat)
    requires IsRun(run) && i < |run| && Stays(run[i].events, Quic) && run[i].view == [] && run[i].inbox == []
    requires forall r :: r in run[i].gone ==> r.cap == cap
    ensures Resolves(run[i].table, run[i].out, Fitting(Fitting(PartOf(run[i].events, Quic), PUMP_BUF_BYTES), cap))
  {
    var p := run[i];
    QuicPathAlways(run, i);
    ReturnedAtCap(p.gone, cap);
    assert p.viewed + [] == p.viewed && PacketsOf(p.gone) + [] == PacketsOf(p.gone);
    FittingResolves(p.table, PacketsOf(p.gone), Fitting(p.viewed, PUMP_BUF_BYTES), cap);
  }
}
