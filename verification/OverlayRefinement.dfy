// The steps of a dialog and the two programs over whole inputs say the same:
// one side, run to its end on a stream that has ended, does what its program does.
module OverlayRefinement {
  import opened Bytes
  import opened Wrappers
  import opened OverlayCodec
  import opened OverlayPrograms
  import opened OverlayDialog

  // ---------------------------------------------------------------- the server

  predicate Serving(d: Dialog) {
    d.server.Command? || d.server.Body?
  }

  /** The server reads on until it is through with a stream that has ended. */
  function ServerDrained(d: Dialog, local: Key, peer: Key): Dialog
    decreases |d.toServer|, if Serving(d) then 1 else 0
  {
    if !Serving(d) then d else ServerDrained(AfterServerReads(d, local, peer), local, peer)
  }

  /** Where the server ends up with the outcome of a body. */
  function AfterBody(result: Result<bytes, OverlayError>): ServerPhase {
    match result
    case Ok(mail) => Yielded(mail)
    case Err(error) => Failed(error)
  }

  lemma {:induction false} BodyDrained(d: Dialog, local: Key, peer: Key)
    requires d.server.Body?
    ensures var (result, left) := ReadBody(d.toServer, d.server.out);
            ServerDrained(d, local, peer) == d.(server := AfterBody(result), toServer := left, toClient := d.toClient + BodyReply(result))
    decreases |d.toServer|
  {
    var out := d.server.out;
    var line := FirstLine(d.toServer, BodyCap(|out|));
    var next := AfterServerReads(d, local, peer);
    assert d.toClient + [] == d.toClient;
    if BodyLine(line, out).More? {
      BodyDrained(next, local, peer);
    } else {
      assert !Serving(next);
    }
  }

  /** Where the server ends up with the outcome of a run. */
  function AfterRun(result: Result<(Key, bytes), OverlayError>): ServerPhase {
    match result
    case Ok((_, mail)) => Yielded(mail)
    case Err(error) => Failed(error)
  }

  /** Run to the end, the server does what this run says. */
  predicate EndsAs(d: Dialog, run: ServedRun, local: Key, peer: Key) {
    && ServerDrained(d, local, peer) == d.(server := AfterRun(run.1), toServer := run.2, toClient := d.toClient + run.0)
    && (run.1.Ok? ==> run.1.value.0 == peer)
  }

  /** The first command read and answered. */
  function Answering(d: Dialog, text: ReplyText, phase: ServerPhase, rest: bytes): Dialog {
    d.(server := phase, toServer := rest, toClient := d.toClient + ReplyBytes(text))
  }

  /** One command read, as a step: the reply, the next phase and what is left. */
  lemma CommandStep(d: Dialog, local: Key, peer: Key)
    requires d.server.Command?
    ensures var line := FirstLine(d.toServer, MAX_LINE_BYTES);
            var answer := ServeCommand(line, d.server.fromOk, d.server.rcptOk, local, peer);
            ServerDrained(d, local, peer) == ServerDrained(Answering(d, answer.0, answer.1, d.toServer[|line|..]), local, peer)
  {
  }

  lemma FirstCommand(d: Dialog, local: Key, peer: Key) returns (text: ReplyText, phase: ServerPhase, rest: bytes)
    requires d.server.Command?
    ensures ServerDrained(d, local, peer) == ServerDrained(Answering(d, text, phase, rest), local, peer)
    ensures RunBegins(Served(d.toServer, d.server.fromOk, d.server.rcptOk, local, peer), text, phase, rest, local, peer)
    ensures phase.Command? ==> |rest| < |d.toServer|
  {
    CommandStep(d, local, peer);
    text, phase, rest := ServedStep(d.toServer, d.server.fromOk, d.server.rcptOk, local, peer);
  }

  lemma ReplyFirst(d: Dialog, text: ReplyText, phase: ServerPhase, rest: bytes, tail: ServedRun, local: Key, peer: Key)
    requires EndsAs(Answering(d, text, phase, rest), tail, local, peer)
    requires ServerDrained(d, local, peer) == ServerDrained(Answering(d, text, phase, rest), local, peer)
    ensures EndsAs(d, (ReplyBytes(text) + tail.0, tail.1, tail.2), local, peer)
  {
    Reassociate(d.toClient, ReplyBytes(text), tail.0);
  }

  lemma BodyEnds(d: Dialog, local: Key, peer: Key)
    requires d.server == Body([])
    ensures EndsAs(d, (BodyReply(ReadBody(d.toServer, []).0), WithSender(ReadBody(d.toServer, []).0, peer), ReadBody(d.toServer, []).1), local, peer)
  {
    BodyDrained(d, local, peer);
  }

  lemma FailureEnds(d: Dialog, error: OverlayError, local: Key, peer: Key)
    requires d.server == Failed(error)
    ensures EndsAs(d, ([], Err(error), d.toServer), local, peer)
  {
    assert d.toClient + [] == d.toClient;
  }

  lemma LastCommand(d: Dialog, run: ServedRun, text: ReplyText, phase: ServerPhase, rest: bytes, local: Key, peer: Key)
    requires ServerDrained(d, local, peer) == ServerDrained(Answering(d, text, phase, rest), local, peer)
    requires RunBegins(run, text, phase, rest, local, peer) && !phase.Command?
    ensures EndsAs(d, run, local, peer)
  {
    var next := Answering(d, text, phase, rest);
    match phase
    case Body(_) =>
      var read := ReadBody(rest, []);
      BodyEnds(next, local, peer);
      ReplyFirst(d, text, phase, rest, (BodyReply(read.0), WithSender(read.0, peer), read.1), local, peer);
    case Failed(error) =>
      FailureEnds(next, error, local, peer);
      ReplyFirst(d, text, phase, rest, ([], Err(error), rest), local, peer);
      assert ReplyBytes(text) + [] == ReplyBytes(text);
  }

  /** The server's steps, run to the end, are `overlay_serve_stream` after its greeting: same text, same outcome, same input left. */
  lemma {:induction false} ServerRefinesProgram(d: Dialog, local: Key, peer: Key)
    requires d.server.Command?
    ensures EndsAs(d, Served(d.toServer, d.server.fromOk, d.server.rcptOk, local, peer), local, peer)
    decreases |d.toServer|
  {
    var text, phase, rest := FirstCommand(d, local, peer);
    if phase.Command? {
      ServerRefinesProgram(Answering(d, text, phase, rest), local, peer);
      ReplyFirst(d, text, phase, rest, Served(rest, phase.fromOk, phase.rcptOk, local, peer), local, peer);
    } else {
      LastCommand(d, Served(d.toServer, d.server.fromOk, d.server.rcptOk, local, peer), text, phase, rest, local, peer);
    }
  }

  // ---------------------------------------------------------------- the client

  /** The client reads on until it is through with a stream that has ended. */
  function ClientDrained(o: Order, d: Dialog): Dialog
    decreases Distance(o, d.client), |d.toClient|
  {
    if d.client.Finished? then d else ClientDrained(o, AfterClientReads(o, d))
  }

  /** Apart from the count of continuation lines, which a finished client no longer needs. */
  predicate SameButSeen(a: Dialog, b: Dialog) {
    a.(seen := 0) == b.(seen := 0)
  }

  /** What awaiting one reply comes to: on to the next phase, or the end. */
  predicate AwaitsAs(o: Order, d: Dialog, outcome: (bool, bytes)) {
    var next := NextPhase(o, d.client);
    if outcome.0
    then ClientDrained(o, d) == ClientDrained(o, d.(client := next, seen := 0, toClient := outcome.1, toServer := d.toServer + CommandText(o, next)))
    else SameButSeen(ClientDrained(o, d), d.(client := Finished(false), toClient := outcome.1))
  }

  /** One reply awaited by steps is one reply awaited by `expect_code`. */
  lemma {:induction false} ReplyDrained(o: Order, d: Dialog)
    requires !d.client.Finished?
    ensures AwaitsAs(o, d, Expected(d.toClient, Wanted(d.client), d.seen))
    decreases |d.toClient|
  {
    var line := FirstLine(d.toClient, MAX_LINE_BYTES);
    var rest := d.toClient[|line|..];
    match ReplyLine(line, Wanted(d.client), d.seen)
    case Continued =>
      var next := d.(seen := d.seen + 1, toClient := rest);
      ReplyDrained(o, next);
      assert ClientDrained(o, d) == ClientDrained(o, next);
    case Passed =>
    case Refused =>
      assert ClientDrained(o, d) == d.(client := Finished(false), toClient := rest);
  }

  /** The client's steps, run to the end, are `overlay_send_stream`: same text, same outcome, same input left. */
  lemma {:induction false} ClientRefinesProgram(o: Order, d: Dialog)
    requires d.seen == 0
    ensures var (text, ok, left) := SentFrom(o, d.client, d.toClient);
            SameButSeen(ClientDrained(o, d), d.(client := Finished(ok), toServer := d.toServer + text, toClient := left))
    decreases Distance(o, d.client)
  {
    if d.client.Finished? {
      assert d.toServer + [] == d.toServer;
    } else {
      var (passed, rest) := Expected(d.toClient, Wanted(d.client), 0);
      ReplyDrained(o, d);
      if passed {
        var next := NextPhase(o, d.client);
        ClientRefinesProgram(o, d.(client := next, toClient := rest, toServer := d.toServer + CommandText(o, next)));
        Reassociate(d.toServer, CommandText(o, next), SentFrom(o, next, rest).0);
      } else {
        assert d.toServer + [] == d.toServer;
      }
    }
  }
}
