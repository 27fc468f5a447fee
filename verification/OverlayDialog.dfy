// One mail dialog over a QUIC stream: the client program and the server program
// of quic/smtp_overlay.rs, the kick byte and the final reply of
// quic/transport.rs, over two FIFO byte streams, either of which may be cut.
module OverlayDialog {
  import opened Bytes
  import opened Lines
  import opened Wrappers
  import opened Text
  import opened Address
  import opened OverlayCodec
  import opened OverlayPrograms
  import opened OverlayLines

  const KICK: byte := 0

  /** `seen` counts continuation lines of the reply being read. */
  datatype Dialog = Dialog(client: ClientPhase, seen: nat, server: ServerPhase, toServer: bytes, toClient: bytes)

  /** Who places the order and who serves it. */
  datatype Setting = Setting(order: Order, local: Key, peer: Key)

  datatype Action =
    | ClientReads
    | ServerReads
    | Verdict(durable: bool)
    | ClientGivesUp(delivered: nat)
    | ServerGivesUp(delivered: nat)

  const OPENED := Dialog(AwaitGreeting, 0, Kick, [KICK], [])

  /** The client's half of the stream has ended. */
  predicate ClientGone(d: Dialog) {
    d.client.Finished?
  }

  predicate ServerGone(d: Dialog) {
    d.server.Replied? || d.server.Failed?
  }

  /** A line reader with this cap can return: a whole line, a full line, or the end of the stream. */
  predicate Readable(s: bytes, cap: nat, ended: bool) {
    ended || |s| >= cap || EndsLine(FirstLine(s, cap))
  }

  predicate Enabled(d: Dialog, a: Action) {
    match a
    case ClientReads => !ClientGone(d) && Readable(d.toClient, MAX_LINE_BYTES, ServerGone(d))
    case ServerReads =>
      (match d.server
       case Kick => d.toServer != [] || ClientGone(d)
       case Command(_, _) => Readable(d.toServer, MAX_LINE_BYTES, ClientGone(d))
       case Body(out) => Readable(d.toServer, BodyCap(|out|), ClientGone(d))
       case _ => false)
    case Verdict(_) => d.server.Yielded?
    case ClientGivesUp(n) => n <= |d.toServer|
    case ServerGivesUp(n) => n <= |d.toClient|
  }

  function AfterClientReads(o: Order, d: Dialog): Dialog {
    var line := FirstLine(d.toClient, MAX_LINE_BYTES);
    var rest := d.toClient[|line|..];
    match ReplyLine(line, Wanted(d.client), d.seen)
    case Continued => d.(seen := d.seen + 1, toClient := rest)
    case Refused => d.(client := Finished(false), toClient := rest)
    case Passed =>
      var next := NextPhase(o, d.client);
      d.(client := next, seen := 0, toClient := rest, toServer := d.toServer + CommandText(o, next))
  }

  function Answered(d: Dialog, line: bytes, answer: (ReplyText, ServerPhase)): Dialog
    requires |line| <= |d.toServer|
  {
    d.(server := answer.1, toServer := d.toServer[|line|..], toClient := d.toClient + ReplyBytes(answer.0))
  }

  function AfterServerReads(d: Dialog, local: Key, peer: Key): Dialog {
    match d.server
    case Kick =>
      if d.toServer == [] then d.(server := Failed(Protocol))
      else Answered(d, d.toServer[..1], (Greeting, Command(false, false)))
    case Command(fromOk, rcptOk) =>
      var line := FirstLine(d.toServer, MAX_LINE_BYTES);
      Answered(d, line, ServeCommand(line, fromOk, rcptOk, local, peer))
    case Body(out) =>
      var line := FirstLine(d.toServer, BodyCap(|out|));
      Answered(d, line, ServeBody(line, out))
    case _ => d
  }

  /** The client's call ends early (timeout, write error, crash); a prefix of its bytes may still arrive. */
  function AfterClientGivesUp(d: Dialog, n: nat): Dialog
    requires n <= |d.toServer|
  {
    d.(client := if d.client.Finished? then d.client else Finished(false), toServer := d.toServer[..n])
  }

  function AfterServerGivesUp(d: Dialog, n: nat): Dialog
    requires n <= |d.toClient|
  {
    d.(server := if ServerGone(d) then d.server else Failed(Protocol), toClient := d.toClient[..n])
  }

  function Step(s: Setting, d: Dialog, a: Action): Dialog
    requires Enabled(d, a)
  {
    match a
    case ClientReads => AfterClientReads(s.order, d)
    case ServerReads => AfterServerReads(d, s.local, s.peer)
    case Verdict(durable) =>
      d.(server := Replied(d.server.mail, durable), toClient := d.toClient + ReplyBytes(DataReply(durable)))
    case ClientGivesUp(n) => AfterClientGivesUp(d, n)
    case ServerGivesUp(n) => AfterServerGivesUp(d, n)
  }

  predicate IsFault(a: Action) {
    a.ClientGivesUp? || a.ServerGivesUp?
  }

  ghost predicate Next(s: Setting, d: Dialog, after: Dialog, faults: bool) {
    exists a: Action :: Enabled(d, a) && (IsFault(a) ==> faults) && after == Step(s, d, a)
  }

  ghost predicate StepAt(s: Setting, run: seq<Dialog>, i: nat, faults: bool)
    requires i < |run| - 1
  {
    Next(s, run[i], run[i + 1], faults)
  }

  /** A run of one dialog; with `faults`, either side may give up at any moment. */
  ghost predicate IsRun(s: Setting, run: seq<Dialog>, faults: bool) {
    && run != [] && run[0] == OPENED
    && forall i: nat :: i < |run| - 1 ==> StepAt(s, run, i, faults)
  }

  predicate Fits(o: Order) {
    |Normal(o.body)| <= MAX_DATA_BYTES
  }

  // ---------------------------------------------------------------- the exchange in step

  /** The server's phase while it has not yet answered what the client just wrote. */
  function Before(phase: ClientPhase): ServerPhase {
    match phase
    case AwaitGreeting => Kick
    case AwaitEhlo => Command(false, false)
    case AwaitMail => Command(false, false)
    case AwaitRcpt(i) => Command(true, i > 0)
    case _ => Command(true, true)
  }

  function After(phase: ClientPhase): ServerPhase {
    match phase
    case AwaitGreeting => Command(false, false)
    case AwaitEhlo => Command(false, false)
    case AwaitMail => Command(true, false)
    case AwaitRcpt(_) => Command(true, true)
    case _ => Body([])
  }

  function Answer(phase: ClientPhase): ReplyText {
    match phase
    case AwaitGreeting => Greeting
    case AwaitEhlo => Helo
    case AwaitMail => Okay
    case AwaitRcpt(_) => Okay
    case _ => GoAhead
  }

  /** The bytes of the client's current request. */
  function Request(o: Order, phase: ClientPhase): bytes {
    if phase.AwaitGreeting? then [KICK] else CommandText(o, phase)
  }

  predicate InEnvelope(o: Order, phase: ClientPhase) {
    match phase
    case AwaitGreeting => true
    case AwaitEhlo => true
    case AwaitMail => true
    case AwaitRcpt(i) => i < |o.rcpts|
    case AwaitData => true
    case _ => false
  }

  /** Before the mail: one request or one reply is in flight, never both. */
  predicate InStep(o: Order, d: Dialog) {
    && InEnvelope(o, d.client) && d.seen == 0
    && (|| (d.server == Before(d.client) && d.toServer == Request(o, d.client) && d.toClient == [])
        || (d.server == After(d.client) && d.toServer == [] && d.toClient == ReplyBytes(Answer(d.client))))
  }

  /** Once the mail is written. */
  predicate InMail(o: Order, d: Dialog) {
    && d.client.AwaitFinal? && d.seen == 0
    && match d.server
       case Body(out) =>
         && d.toClient == [] && EndsLine(d.toServer)
         && var read := ReadBody(d.toServer, out);
            if Fits(o) then read == (Ok(Normal(o.body)), []) else read.0 == Err(TooLarge)
       case Yielded(mail) => Fits(o) && mail == Normal(o.body) && d.toServer == [] && d.toClient == []
       case Replied(mail, durable) =>
         Fits(o) && mail == Normal(o.body) && d.toServer == [] && d.toClient == ReplyBytes(DataReply(durable))
       case Failed(error) => !Fits(o) && error == TooLarge && d.toClient == ReplyBytes(TooBig)
       case _ => false
  }

  /** Both sides are done. */
  predicate Over(o: Order, d: Dialog) {
    && d.client.Finished?
    && match d.server
       case Replied(mail, durable) => Fits(o) && mail == Normal(o.body) && durable == d.client.ok
       case Failed(error) => !Fits(o) && error == TooLarge && !d.client.ok
       case _ => false
  }

  /** The states of a run in which nobody gives up. */
  predicate Live(o: Order, d: Dialog) {
    InStep(o, d) || InMail(o, d) || Over(o, d)
  }

  lemma Opening(s: Setting)
    ensures InStep(s.order, OPENED)
  {
  }

  /** The pending request is answered as expected. */
  lemma RequestAnswered(s: Setting, d: Dialog)
    requires Conformant(s.order, s.local, s.peer)
    requires InStep(s.order, d) && d.server == Before(d.client) && d.toServer == Request(s.order, d.client) && d.toClient == []
    ensures Enabled(d, ServerReads)
    ensures AfterServerReads(d, s.local, s.peer) ==
            d.(server := After(d.client), toServer := [], toClient := ReplyBytes(Answer(d.client)))
  {
    var o := s.order;
    match d.client
    case AwaitGreeting =>
      assert d.toServer[1..] == [] && [] + ReplyBytes(Greeting) == ReplyBytes(Greeting);
    case AwaitEhlo => EhloServed(o, s.local, s.peer, false, false); OneLineAnswered(s, d, Helo);
    case AwaitMail => MailServed(o, s.local, s.peer, false, false); OneLineAnswered(s, d, Okay);
    case AwaitRcpt(i) => RcptServed(o, i, s.local, s.peer, true, i > 0); OneLineAnswered(s, d, Okay);
    case AwaitData => DataServed(s.local, s.peer); OneLineAnswered(s, d, GoAhead);
  }

  lemma OneLineAnswered(s: Setting, d: Dialog, r: ReplyText)
    requires d.server.Command? && IsLine(d.toServer) && d.toClient == []
    requires ServeCommand(d.toServer, d.server.fromOk, d.server.rcptOk, s.local, s.peer).0 == r
    ensures Enabled(d, ServerReads)
    ensures AfterServerReads(d, s.local, s.peer) ==
            d.(server := ServeCommand(d.toServer, d.server.fromOk, d.server.rcptOk, s.local, s.peer).1, toServer := [], toClient := ReplyBytes(r))
  {
    LineReadWhole(d.toServer);
    assert [] + ReplyBytes(r) == ReplyBytes(r);
  }

  /** The pending reply takes the client to its next phase. */
  lemma ReplyAccepted(s: Setting, d: Dialog)
    requires !d.client.Finished? && d.toServer == [] && d.toClient != []
    requires var b := d.toClient;
             && FirstLine(b, MAX_LINE_BYTES) == b && b[|b|..] == [] && EndsLine(b)
             && ReplyLine(b, Wanted(d.client), d.seen) == Passed
    ensures Enabled(d, ClientReads)
    ensures var next := NextPhase(s.order, d.client);
            AfterClientReads(s.order, d) == d.(client := next, seen := 0, toServer := CommandText(s.order, next), toClient := [])
  {
    var next := NextPhase(s.order, d.client);
    assert [] + CommandText(s.order, next) == CommandText(s.order, next);
  }

  lemma AfterIsBefore(o: Order, phase: ClientPhase)
    requires InEnvelope(o, phase) && !phase.AwaitData? && o.rcpts != []
    ensures InEnvelope(o, NextPhase(o, phase)) && After(phase) == Before(NextPhase(o, phase))
    ensures Request(o, NextPhase(o, phase)) == CommandText(o, NextPhase(o, phase))
  {
  }

  /** The reply to what was last asked takes the client to its next phase. */
  lemma AnswerAccepted(s: Setting, d: Dialog)
    requires InStep(s.order, d) && d.server == After(d.client) && d.toServer == [] && d.toClient == ReplyBytes(Answer(d.client))
    ensures Enabled(d, ClientReads)
    ensures var next := NextPhase(s.order, d.client);
            AfterClientReads(s.order, d) == d.(client := next, seen := 0, toServer := CommandText(s.order, next), toClient := [])
  {
    ReplyIsLine(Answer(d.client));
    ReplyRead(Answer(d.client), Wanted(d.client), d.seen);
    ReplyAccepted(s, d);
  }

  lemma MailBegins(o: Order, e: Dialog)
    requires e.client.AwaitFinal? && e.seen == 0 && e.server == Body([]) && e.toServer == CommandText(o, e.client) && e.toClient == []
    ensures InMail(o, e)
  {
    DotStuffingRoundTrip(o.body, []);
    var text := Stuffed(o.body) + TERMINATOR;
    assert text + [] == text;
  }

  /** The pending reply of the envelope moves the dialog on. */
  lemma EnvelopeMovesOn(s: Setting, d: Dialog)
    requires s.order.rcpts != []
    requires InStep(s.order, d) && d.server == After(d.client) && d.toServer == [] && d.toClient == ReplyBytes(Answer(d.client))
    ensures Enabled(d, ClientReads)
    ensures var e := AfterClientReads(s.order, d);
            e.client == NextPhase(s.order, d.client) && e.toServer == CommandText(s.order, e.client) && Live(s.order, e)
  {
    AnswerAccepted(s, d);
    if d.client.AwaitData? {
      MailBegins(s.order, AfterClientReads(s.order, d));
    } else {
      AfterIsBefore(s.order, d.client);
    }
  }

  /** Nothing of an empty or unfinished input can be read while the other side is there. */
  lemma NothingReadable(s: bytes, cap: nat)
    requires s == [] && cap > 0
    ensures !Readable(s, cap, false)
  {
  }

  // ---------------------------------------------------------------- runs without faults

  /** Two for every byte still to be read by the server, and what later phases will add. */
  function Owed(o: Order, phase: ClientPhase): nat
    decreases Distance(o, phase)
  {
    if phase.Finished? then 0
    else
      var next := NextPhase(o, phase);
      1 + 2 * |CommandText(o, next)| + Owed(o, next)
  }

  function Work(o: Order, d: Dialog): nat {
    Owed(o, d.client) + 2 * |d.toServer| + if d.server.Yielded? then 1 else 0
  }

  lemma RequestGoesOn(s: Setting, d: Dialog)
    requires Conformant(s.order, s.local, s.peer) && InEnvelope(s.order, d.client) && d.seen == 0
    requires d.server == Before(d.client) && d.toServer == Request(s.order, d.client) && d.toClient == []
    ensures var e := AfterServerReads(d, s.local, s.peer); InStep(s.order, e) && Work(s.order, e) < Work(s.order, d)
  {
    RequestAnswered(s, d);
    RequestIsSomething(s, d);
  }

  lemma ReplyGoesOn(s: Setting, d: Dialog)
    requires s.order.rcpts != []
    requires InStep(s.order, d) && d.server == After(d.client) && d.toServer == [] && d.toClient == ReplyBytes(Answer(d.client))
    ensures var e := AfterClientReads(s.order, d); Live(s.order, e) && Work(s.order, e) < Work(s.order, d)
  {
    EnvelopeMovesOn(s, d);
  }

  /** In step, the one party that has something to read is the one that can move. */
  lemma InStepTurn(o: Order, d: Dialog, a: Action)
    requires InStep(o, d) && Enabled(d, a) && !IsFault(a)
    ensures if d.server == Before(d.client) && d.toServer == Request(o, d.client) && d.toClient == [] then a.ServerReads? else a.ClientReads?
  {
    NothingReadable([], MAX_LINE_BYTES);
  }

  lemma InStepGoesOn(s: Setting, d: Dialog, a: Action)
    requires Conformant(s.order, s.local, s.peer) && InStep(s.order, d) && Enabled(d, a) && !IsFault(a)
    ensures Live(s.order, Step(s, d, a)) && Work(s.order, Step(s, d, a)) < Work(s.order, d)
  {
    InStepTurn(s.order, d, a);
    if d.server == Before(d.client) && d.toServer == Request(s.order, d.client) && d.toClient == [] {
      RequestGoesOn(s, d);
    } else {
      ReplyGoesOn(s, d);
    }
  }

  lemma RequestIsSomething(s: Setting, d: Dialog)
    requires Conformant(s.order, s.local, s.peer) && InEnvelope(s.order, d.client)
    ensures Request(s.order, d.client) != [] && (!d.client.AwaitGreeting? ==> IsLine(Request(s.order, d.client)))
  {
    match d.client
    case AwaitGreeting =>
    case AwaitEhlo => EhloServed(s.order, s.local, s.peer, false, false);
    case AwaitMail => MailServed(s.order, s.local, s.peer, false, false);
    case AwaitRcpt(i) => RcptServed(s.order, i, s.local, s.peer, true, true);
    case AwaitData => DataServed(s.local, s.peer);
  }

  lemma VerdictGoesOn(s: Setting, d: Dialog, durable: bool)
    requires InMail(s.order, d) && d.server.Yielded?
    ensures var e := Step(s, d, Verdict(durable)); InMail(s.order, e) && Work(s.order, e) < Work(s.order, d)
  {
    assert [] + ReplyBytes(DataReply(durable)) == ReplyBytes(DataReply(durable));
  }

  lemma FinalReplyGoesOn(s: Setting, d: Dialog)
    requires InMail(s.order, d) && (d.server.Replied? || d.server.Failed?)
    ensures var e := AfterClientReads(s.order, d); Over(s.order, e) && Work(s.order, e) < Work(s.order, d)
  {
    if d.server.Replied? {
      VerdictRead(s, d, d.server.stored, d.server.durable);
    } else {
      RefusalRead(s, d);
    }
  }

  lemma VerdictRead(s: Setting, d: Dialog, mail: bytes, durable: bool)
    requires InMail(s.order, d) && d.server == Replied(mail, durable)
    ensures var e := AfterClientReads(s.order, d); Over(s.order, e) && Work(s.order, e) < Work(s.order, d)
  {
    FinalReplyRead(s, d, DataReply(durable));
  }

  lemma RefusalRead(s: Setting, d: Dialog)
    requires InMail(s.order, d) && d.server.Failed?
    ensures var e := AfterClientReads(s.order, d); Over(s.order, e) && Work(s.order, e) < Work(s.order, d)
  {
    FinalReplyRead(s, d, TooBig);
  }

  /** Once the mail is written, the server moves until it is gone, then the client. */
  lemma InMailTurn(o: Order, d: Dialog, a: Action)
    requires InMail(o, d) && Enabled(d, a) && !IsFault(a)
    ensures if d.server.Body? then a.ServerReads? else if d.server.Yielded? then a.Verdict? else a.ClientReads?
  {
    NothingReadable([], MAX_LINE_BYTES);
  }

  lemma InMailGoesOn(s: Setting, d: Dialog, a: Action)
    requires InMail(s.order, d) && Enabled(d, a) && !IsFault(a)
    ensures Live(s.order, Step(s, d, a)) && Work(s.order, Step(s, d, a)) < Work(s.order, d)
  {
    InMailTurn(s.order, d, a);
    if d.server.Body? {
      BodyGoesOn(s, d);
    } else if d.server.Yielded? {
      VerdictGoesOn(s, d, a.durable);
    } else {
      FinalReplyGoesOn(s, d);
    }
  }

  /** The final reply ends the client, successfully iff it is positive. */
  lemma FinalReplyRead(s: Setting, d: Dialog, r: ReplyText)
    requires d.client.AwaitFinal? && r != Silence && d.toClient == ReplyBytes(r)
    ensures var e := AfterClientReads(s.order, d);
            && e.client == Finished(ClassOf(r) == Wanted(d.client))
            && e.server == d.server && Owed(s.order, d.client) == 1 + 2 * |CommandText(s.order, Finished(true))|
            && e.toServer == d.toServer + if e.client.ok then CommandText(s.order, Finished(true)) else []
  {
    ReplyRead(r, Wanted(d.client), d.seen);
    assert d.toServer + [] == d.toServer;
  }

  /** One turn of the body loop on a stream that ends in LF. */
  lemma BodyTurn(input: bytes, out: bytes)
    requires EndsLine(input)
    ensures var line := FirstLine(input, BodyCap(|out|));
            var rest := input[|line|..];
            && 0 < |line| <= |input|
            && match BodyLine(line, out)
               case Done(result) => ReadBody(input, out) == (result, rest)
               case More(more) =>
                 && ReadBody(input, out) == ReadBody(rest, more)
                 && (ReadBody(input, out).0 != Err(Protocol) ==> EndsLine(rest))
  {
    var line := FirstLine(input, BodyCap(|out|));
    var rest := input[|line|..];
    assert |line| > 0;
    if BodyLine(line, out).More? && rest == [] {
      assert ReadBody(rest, BodyLine(line, out).out).0 == Err(Protocol);
    }
  }

  lemma BodyGoesOn(s: Setting, d: Dialog)
    requires InMail(s.order, d) && d.server.Body? && Enabled(d, ServerReads)
    ensures var e := Step(s, d, ServerReads); InMail(s.order, e) && Work(s.order, e) < Work(s.order, d)
  {
    BodyTurn(d.toServer, d.server.out);
    assert [] + ReplyBytes(Silence) == [] && [] + ReplyBytes(TooBig) == ReplyBytes(TooBig);
  }

  lemma LiveGoesOn(s: Setting, d: Dialog, a: Action)
    requires Conformant(s.order, s.local, s.peer) && Live(s.order, d) && Enabled(d, a) && !IsFault(a)
    ensures Live(s.order, Step(s, d, a)) && Work(s.order, Step(s, d, a)) < Work(s.order, d)
  {
    if InStep(s.order, d) { InStepGoesOn(s, d, a); }
    else if InMail(s.order, d) { InMailGoesOn(s, d, a); }
  }

  /** Unless both sides are done, one of them can move. */
  lemma NeverStuck(s: Setting, d: Dialog)
    requires Conformant(s.order, s.local, s.peer) && Live(s.order, d)
    ensures Over(s.order, d) <==> !exists a: Action :: Enabled(d, a) && !IsFault(a)
  {
    if InStep(s.order, d) {
      if d.server == Before(d.client) && d.toServer == Request(s.order, d.client) && d.toClient == [] {
        RequestAnswered(s, d);
        assert Enabled(d, ServerReads) && !IsFault(ServerReads);
      } else {
        EnvelopeMovesOn(s, d);
        assert Enabled(d, ClientReads) && !IsFault(ClientReads);
      }
    } else if InMail(s.order, d) {
      MailCanMove(s, d);
    }
  }

  lemma MailCanMove(s: Setting, d: Dialog)
    requires InMail(s.order, d)
    ensures exists a: Action :: Enabled(d, a) && !IsFault(a)
  {
    match d.server
    case Body(out) =>
      var cap := BodyCap(|out|);
      if |d.toServer| < cap && !EndsLine(FirstLine(d.toServer, cap)) {
        UnfinishedLineIsAll(d.toServer, cap);
        assert false;
      }
      assert Enabled(d, ServerReads) && !IsFault(ServerReads);
    case Yielded(mail) => assert Enabled(d, Verdict(true)) && !IsFault(Verdict(true));
    case Replied(mail, durable) => assert Enabled(d, ClientReads) && !IsFault(ClientReads);
    case Failed(error) => assert Enabled(d, ClientReads) && !IsFault(ClientReads);
  }

  lemma UnfinishedLineIsAll(b: bytes, cap: nat)
    requires |b| < cap && !EndsLine(FirstLine(b, cap))
    ensures FirstLine(b, cap) == b && b[|b|..] == []
  {
    LineShape(b);
  }

  lemma RunStepIsLive(s: Setting, run: seq<Dialog>, i: nat)
    requires Conformant(s.order, s.local, s.peer) && IsRun(s, run, false) && i < |run| - 1 && Live(s.order, run[i])
    ensures Live(s.order, run[i + 1]) && Work(s.order, run[i + 1]) < Work(s.order, run[i])
  {
    assert StepAt(s, run, i, false);
    var a: Action :| Enabled(run[i], a) && !IsFault(a) && run[i + 1] == Step(s, run[i], a);
    LiveGoesOn(s, run[i], a);
  }

  lemma {:induction false} RunsAreLive(s: Setting, run: seq<Dialog>, i: nat)
    requires Conformant(s.order, s.local, s.peer) && IsRun(s, run, false) && i < |run|
    ensures Live(s.order, run[i]) && i + Work(s.order, run[i]) <= Work(s.order, OPENED)
  {
    if i == 0 {
      Opening(s);
    } else {
      RunsAreLive(s, run, i - 1);
      RunStepIsLive(s, run, i - 1);
    }
  }

  lemma SettledIsOver(s: Setting, d: Dialog)
    requires Conformant(s.order, s.local, s.peer) && Live(s.order, d)
    ensures (forall a: Action :: Enabled(d, a) ==> IsFault(a)) <==> Over(s.order, d)
  {
    NeverStuck(s, d);
  }

  /**
   * Composition: when nobody gives up, every run ends, and one that can go no
   * further ends with both sides agreeing. The client succeeds iff the server
   * holds exactly the normal form of the body and wrote the durable reply; it
   * fails iff the reply was not durable or the body was too large.
   */
  lemma DialogSettles(s: Setting, run: seq<Dialog>)
    requires Conformant(s.order, s.local, s.peer) && IsRun(s, run, false)
    ensures |run| <= 1 + Work(s.order, OPENED)
    ensures (forall a: Action :: Enabled(run[|run| - 1], a) ==> IsFault(a)) <==> Over(s.order, run[|run| - 1])
  {
    RunsAreLive(s, run, |run| - 1);
    SettledIsOver(s, run[|run| - 1]);
  }

  // ---------------------------------------------------------------- runs with faults

  /** The client gave up or was refused: whatever still arrives, the server can only come by the true mail. */
  ghost predicate ClientLeft(o: Order, d: Dialog) {
    && d.client == Finished(false)
    && match d.server
       case Kick => |d.toServer| <= 1
       case Command(_, _) => AtMostOneLine(d.toServer)
       case Body(out) => ReadBody(d.toServer, out).0.Err? || (Fits(o) && ReadBody(d.toServer, out).0 == Ok(Normal(o.body)))
       case Yielded(mail) => Fits(o) && mail == Normal(o.body)
       case Replied(mail, _) => Fits(o) && mail == Normal(o.body)
       case Failed(_) => true
  }

  /** The server gave up or has replied: no positive final reply is under way unless it holds the mail. */
  ghost predicate ServerLeft(o: Order, d: Dialog) {
    && !d.client.Finished?
    && match d.server
       case Replied(mail, durable) =>
         Fits(o) && mail == Normal(o.body) && d.client.AwaitFinal? && d.toClient <= ReplyBytes(DataReply(durable))
       case Failed(_) =>
         if d.client.AwaitFinal? then d.toClient <= ReplyBytes(TooBig) else AtMostOneLine(d.toClient)
       case _ => false
  }

  predicate Concluded(o: Order, d: Dialog) {
    d.client == Finished(true) && d.server == Replied(Normal(o.body), true) && Fits(o)
  }

  ghost predicate Sound(o: Order, d: Dialog) {
    InStep(o, d) || InMail(o, d) || Concluded(o, d) || ClientLeft(o, d) || ServerLeft(o, d)
  }

  lemma InStepGivesUp(s: Setting, d: Dialog, a: Action)
    requires Conformant(s.order, s.local, s.peer) && InStep(s.order, d) && Enabled(d, a) && IsFault(a)
    ensures Sound(s.order, Step(s, d, a))
  {
    match a
    case ClientGivesUp(n) =>
      RequestIsSomething(s, d);
      AtMostOneRequest(s.order, d, n);
    case ServerGivesUp(n) => AtMostOneReply(s.order, d, n);
  }

  lemma AtMostOneRequest(o: Order, d: Dialog, n: nat)
    requires InStep(o, d) && n <= |d.toServer|
    requires !d.client.AwaitGreeting? ==> IsLine(Request(o, d.client))
    ensures ClientLeft(o, AfterClientGivesUp(d, n))
  {
    if d.toServer == [] {
      EmptyIsNoRequest(d, n);
    } else if !d.client.AwaitGreeting? {
      LineReadWhole(d.toServer);
      CutOfLine(d.toServer, n);
    }
  }

  lemma EmptyIsNoRequest(d: Dialog, n: nat)
    requires d.toServer == [] && n == 0
    ensures d.toServer[..n] == [] && AtMostOneLine([]) && ReadBody([], []).0 == Err(Protocol)
  {
  }

  lemma CutReply(r: ReplyText, n: nat)
    requires r != Silence && n <= |ReplyBytes(r)|
    ensures AtMostOneLine(ReplyBytes(r)[..n])
  {
    ReplyIsLine(r);
    LineReadWhole(ReplyBytes(r));
    CutOfLine(ReplyBytes(r), n);
  }

  lemma AtMostOneReply(o: Order, d: Dialog, n: nat)
    requires InStep(o, d) && n <= |d.toClient|
    ensures ServerLeft(o, AfterServerGivesUp(d, n))
  {
    if d.toClient != [] {
      CutReply(Answer(d.client), n);
    } else {
      assert AtMostOneLine([]);
    }
  }

  lemma InMailGivesUp(s: Setting, d: Dialog, a: Action)
    requires InMail(s.order, d) && Enabled(d, a) && IsFault(a)
    ensures Sound(s.order, Step(s, d, a))
  {
    if a.ClientGivesUp? {
      if d.server.Body? {
        CutInventsNothing(d.toServer, a.delivered, d.server.out);
      }
    }
  }

  lemma ServerReadsOn(s: Setting, d: Dialog)
    requires ClientLeft(s.order, d) && Enabled(d, ServerReads)
    ensures ClientLeft(s.order, Step(s, d, ServerReads))
  {
    match d.server
    case Kick => assert d.toServer != [] ==> d.toServer[1..] == [];
    case Command(fromOk, rcptOk) => CommandReadsOn(s, d);
    case Body(out) =>
  }

  lemma CommandReadsOn(s: Setting, d: Dialog)
    requires ClientLeft(s.order, d) && d.server.Command?
    ensures ClientLeft(s.order, AfterServerReads(d, s.local, s.peer))
  {
    var line := FirstLine(d.toServer, MAX_LINE_BYTES);
    OneLineRead(d.toServer, MAX_LINE_BYTES);
    var answer := ServeCommand(line, d.server.fromOk, d.server.rcptOk, s.local, s.peer);
    assert ReadBody([], []).0 == Err(Protocol);
    assert answer.1.Failed? || (d.toServer[|line|..] == [] && (answer.1.Command? || answer.1 == Body([])));
  }

  lemma ClientLeftGoesOn(s: Setting, d: Dialog, a: Action)
    requires ClientLeft(s.order, d) && Enabled(d, a)
    ensures ClientLeft(s.order, Step(s, d, a))
  {
    match a
    case ServerReads => ServerReadsOn(s, d);
    case ClientGivesUp(n) =>
      if d.server.Body? {
        CutInventsNothing(d.toServer, n, d.server.out);
      } else if d.server.Command? {
        CutOfLine(d.toServer, n);
      }
    case _ =>
  }

  /** A prefix of a line, read to the end of the stream. */
  lemma PrefixRead(b: bytes, whole: bytes)
    requires IsLine(whole) && b <= whole
    ensures FirstLine(b, MAX_LINE_BYTES) == b && AtMostOneLine(b)
  {
    LineReadWhole(whole);
    CutOfLine(whole, |b|);
    assert b == whole[..|b|];
  }

  /** A prefix of a reply is refused, or is of the reply's own class. */
  lemma PrefixOfReply(b: bytes, r: ReplyText, seen: nat)
    requires r != Silence && b <= ReplyBytes(r)
    ensures FirstLine(b, MAX_LINE_BYTES) == b
    ensures ReplyLine(b, 50, seen) == Refused || (ReplyLine(b, 50, seen) == Passed && ClassOf(r) == 50)
  {
    ReplyIsLine(r);
    PrefixRead(b, ReplyBytes(r));
  }

  lemma LastReply(o: Order, d: Dialog, r: ReplyText)
    requires d.client.AwaitFinal? && d.toClient <= ReplyBytes(r) && r != Silence
    ensures AfterClientReads(o, d).client.Finished?
    ensures AfterClientReads(o, d).client.ok ==> ClassOf(r) == 50
    ensures AfterClientReads(o, d).server == d.server
  {
    PrefixOfReply(d.toClient, r, d.seen);
  }

  /** The client is done, and a server that holds the mail or has failed is where it was. */
  lemma ClientDone(o: Order, d: Dialog, e: Dialog)
    requires ServerLeft(o, d) && d.client.AwaitFinal? && e.server == d.server && e.client.Finished?
    requires e.client.ok ==> d.server.Replied? && d.server.durable
    ensures Sound(o, e)
  {
    assert if e.client.ok then Concluded(o, e) else ClientLeft(o, e);
  }

  lemma LastReplyRead(s: Setting, d: Dialog)
    requires ServerLeft(s.order, d) && d.client.AwaitFinal?
    ensures Sound(s.order, AfterClientReads(s.order, d))
  {
    if d.server.Replied? {
      LastReply(s.order, d, DataReply(d.server.durable));
    } else {
      LastReply(s.order, d, TooBig);
    }
    ClientDone(s.order, d, AfterClientReads(s.order, d));
  }

  lemma ServerGivesUpAgain(o: Order, d: Dialog, n: nat)
    requires ServerLeft(o, d) && n <= |d.toClient|
    ensures ServerLeft(o, AfterServerGivesUp(d, n))
  {
    if !d.client.AwaitFinal? {
      CutOfLine(d.toClient, n);
    }
  }

  lemma ClientLeavesToo(o: Order, d: Dialog, n: nat)
    requires ServerLeft(o, d) && n <= |d.toServer|
    ensures ClientLeft(o, AfterClientGivesUp(d, n))
  {
  }

  lemma ServerLeftGoesOn(s: Setting, d: Dialog, a: Action)
    requires ServerLeft(s.order, d) && Enabled(d, a)
    ensures Sound(s.order, Step(s, d, a))
  {
    match a
    case ClientReads =>
      if d.client.AwaitFinal? { LastReplyRead(s, d); } else { EarlierReply(s.order, d); }
    case ServerGivesUp(n) => ServerGivesUpAgain(s.order, d, n);
    case ClientGivesUp(n) => ClientLeavesToo(s.order, d, n);
    case _ =>
  }

  lemma EarlierReply(o: Order, d: Dialog)
    requires ServerLeft(o, d) && !d.client.AwaitFinal?
    ensures Sound(o, AfterClientReads(o, d))
  {
    OneLineRead(d.toClient, MAX_LINE_BYTES);
    var line := FirstLine(d.toClient, MAX_LINE_BYTES);
    assert ReplyLine(line, Wanted(d.client), d.seen) != Refused ==> d.toClient[|line|..] == [];
  }

  lemma SoundGoesOn(s: Setting, d: Dialog, a: Action)
    requires Conformant(s.order, s.local, s.peer) && Sound(s.order, d) && Enabled(d, a)
    ensures Sound(s.order, Step(s, d, a))
  {
    if ClientLeft(s.order, d) {
      ClientLeftGoesOn(s, d, a);
    } else if ServerLeft(s.order, d) {
      ServerLeftGoesOn(s, d, a);
    } else if InStep(s.order, d) {
      if IsFault(a) { InStepGivesUp(s, d, a); } else { InStepGoesOn(s, d, a); }
    } else if InMail(s.order, d) {
      if IsFault(a) { InMailGivesUp(s, d, a); } else { InMailGoesOn(s, d, a); }
    }
  }

  lemma RunStepIsSound(s: Setting, run: seq<Dialog>, i: nat)
    requires Conformant(s.order, s.local, s.peer) && IsRun(s, run, true) && i < |run| - 1 && Sound(s.order, run[i])
    ensures Sound(s.order, run[i + 1])
  {
    assert StepAt(s, run, i, true);
    var a: Action :| Enabled(run[i], a) && run[i + 1] == Step(s, run[i], a);
    SoundGoesOn(s, run[i], a);
  }

  lemma {:induction false} RunsAreSound(s: Setting, run: seq<Dialog>, i: nat)
    requires Conformant(s.order, s.local, s.peer) && IsRun(s, run, true) && i < |run|
    ensures Sound(s.order, run[i])
  {
    if i == 0 {
      Opening(s);
    } else {
      RunsAreSound(s, run, i - 1);
      RunStepIsSound(s, run, i - 1);
    }
  }

  /**
   * Safety, with either side giving up and either stream cut anywhere, any
   * number of times: the only mail a server ever yields is the normal form of
   * the whole body, and a client that succeeds has a server that yielded it and
   * replied that it is durable.
   */
  lemma DialogSafety(s: Setting, run: seq<Dialog>, i: nat)
    requires Conformant(s.order, s.local, s.peer) && IsRun(s, run, true) && i < |run|
    ensures run[i].server.Yielded? ==> run[i].server.mail == Normal(s.order.body)
    ensures run[i].server.Replied? ==> run[i].server.stored == Normal(s.order.body)
    ensures run[i].client == Finished(true) ==> run[i].server == Replied(Normal(s.order.body), true)
    ensures !Fits(s.order) ==> !run[i].server.Yielded? && !run[i].server.Replied?
  {
    RunsAreSound(s, run, i);
  }
}
