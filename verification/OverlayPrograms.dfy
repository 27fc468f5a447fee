// quic/smtp_overlay.rs: the server and the client of one mail dialog, as
// programs over a reader and a writer.
module OverlayPrograms {
  import opened Bytes
  import opened Lines
  import opened Wrappers
  import opened Text
  import opened Address
  import opened OverlayCodec

  const MAX_CONTINUATION_LINES: nat := 32

  type ascii = s: string | IsAscii(s) witness []

  /** The replies of the server. */
  datatype ReplyText =
    | Silence | Greeting | Helo | Okay | GoAhead | Bye
    | BadSender | NoUser | BadSequence | TooBig | TryAgain

  /** The reply without its line end. */
  function Wording(r: ReplyText): string {
    match r
    case Silence => ""
    case Greeting => "220 yggmail-ng overlay ready"
    case Helo => "250 yggmail-ng"
    case Okay => "250 OK"
    case GoAhead => "354 go ahead"
    case Bye => "221 bye"
    case BadSender => "550 sender not permitted"
    case NoUser => "550 no such user"
    case BadSequence => "503 bad sequence"
    case TooBig => "552 message size limit exceeded"
    case TryAgain => "451 4.3.0 mail not stored, try again later"
  }

  /** The bytes of text of which only the low seven bits are used. */
  function WireBytes(s: string): (b: bytes)
    ensures IsAscii(s) ==> b == AsciiBytes(s)
  {
    if IsAscii(s) then AsciiBytes(s) else []
  }

  function ReplyBytes(r: ReplyText): bytes {
    if r == Silence then [] else WireBytes(Wording(r) + "\r\n")
  }

  function UpperByte(b: byte): byte {
    if 97 <= b <= 122 then b - 32 else b
  }

  /** The line starts with `verb`, whatever the case of its letters. */
  predicate HasVerb(line: bytes, verb: string) {
    |line| >= |verb| && forall i :: 0 <= i < |verb| ==> UpperByte(line[i]) == verb[i] as int
  }

  // ---------------------------------------------------------------- the server

  datatype ServerPhase =
    | Kick
    | Command(fromOk: bool, rcptOk: bool)
    | Body(out: bytes)
    | Yielded(mail: bytes)
    | Replied(stored: bytes, durable: bool)
    | Failed(error: OverlayError)

  /** One command line: what the server writes and where it goes. */
  function ServeCommand(line: bytes, fromOk: bool, rcptOk: bool, local: Key, peer: Key): (ReplyText, ServerPhase) {
    if LineTooLong(line, MAX_LINE_BYTES) || line == [] then (Silence, Failed(Protocol))
    else if HasVerb(line, "HELO") || HasVerb(line, "EHLO") then (Helo, Command(fromOk, rcptOk))
    else if HasVerb(line, "MAIL FROM:") then
      if PathKey(line, "MAIL FROM:") == Some(peer) then (Okay, Command(true, rcptOk))
      else (BadSender, Failed(SpoofedSender))
    else if HasVerb(line, "RCPT TO:") then
      if PathKey(line, "RCPT TO:") == Some(local) then (Okay, Command(fromOk, true))
      else (NoUser, Command(fromOk, rcptOk))
    else if HasVerb(line, "DATA") then
      if !fromOk || !rcptOk then (BadSequence, Failed(Protocol))
      else (GoAhead, Body([]))
    else if HasVerb(line, "QUIT") then (Bye, Failed(Protocol))
    else (Okay, Command(fromOk, rcptOk))
  }

  /** One body line. Nothing is written when the body is complete: its fate is not known yet. */
  function ServeBody(line: bytes, out: bytes): (ReplyText, ServerPhase) {
    match BodyLine(line, out)
    case More(more) => (Silence, Body(more))
    case Done(Ok(mail)) => (Silence, Yielded(mail))
    case Done(Err(error)) => (if error == TooLarge then TooBig else Silence, Failed(error))
  }

  function DataReply(durable: bool): ReplyText {
    if durable then Okay else TryAgain
  }

  type ServedRun = (bytes, Result<(Key, bytes), OverlayError>, bytes)

  /** The command loop over a whole input: text written, outcome, input left. */
  function Served(input: bytes, fromOk: bool, rcptOk: bool, local: Key, peer: Key): ServedRun
    decreases |input|
  {
    var line := FirstLine(input, MAX_LINE_BYTES);
    var rest := input[|line|..];
    var (text, phase) := ServeCommand(line, fromOk, rcptOk, local, peer);
    match phase
    case Command(f, r) =>
      var (more, result, left) := Served(rest, f, r, local, peer);
      (ReplyBytes(text) + more, result, left)
    case Body(_) => BodyRun(ReplyBytes(text), ReadBody(rest, []), peer)
    case Failed(error) => (ReplyBytes(text), Err(error), rest)
    case _ => (ReplyBytes(text), Err(Protocol), rest)
  }

  class ByteWriter {
    var written: bytes

    constructor ()
      ensures written == []
    {
      written := [];
    }

    method WriteBytes(b: bytes)
      modifies this
      ensures written == old(written) + b
    {
      written := written + b;
    }

    method Write(text: ReplyText)
      modifies this
      ensures written == old(written) + ReplyBytes(text)
    {
      written := written + ReplyBytes(text);
    }
  }

  /** The run so far, continued by this run, is the whole run. */
  ghost predicate GoesOnAs(whole: ServedRun, start: bytes, written: bytes, run: ServedRun) {
    exists sofar: bytes :: written == start + sofar && whole == (sofar + run.0, run.1, run.2)
  }

  ghost predicate ServedFrom(whole: ServedRun, start: bytes, written: bytes, input: bytes,
                             fromOk: bool, rcptOk: bool, local: Key, peer: Key) {
    GoesOnAs(whole, start, written, Served(input, fromOk, rcptOk, local, peer))
  }

  lemma ServedStart(whole: ServedRun, start: bytes)
    ensures GoesOnAs(whole, start, start, whole)
  {
    assert start == start + [] && [] + whole.0 == whole.0;
  }

  lemma ServedMore(whole: ServedRun, start: bytes, written: bytes, reply: bytes, tail: ServedRun)
    requires GoesOnAs(whole, start, written, (reply + tail.0, tail.1, tail.2))
    ensures GoesOnAs(whole, start, written + reply, tail)
  {
    var sofar: bytes :| written == start + sofar && whole == (sofar + (reply + tail.0), tail.1, tail.2);
    Reassociate(start, sofar, reply);
    Reassociate(sofar, reply, tail.0);
  }

  lemma ServedLast(whole: ServedRun, start: bytes, written: bytes, run: ServedRun)
    requires GoesOnAs(whole, start, written, run)
    ensures start + whole.0 == written + run.0 && whole.1 == run.1 && whole.2 == run.2
  {
    var sofar: bytes :| written == start + sofar && whole == (sofar + run.0, run.1, run.2);
    Reassociate(start, sofar, run.0);
  }

  /** Only an oversized body is answered before its fate is known. */
  function BodyReply(result: Result<bytes, OverlayError>): bytes {
    if result == Err(TooLarge) then ReplyBytes(TooBig) else []
  }

  function WithSender(result: Result<bytes, OverlayError>, peer: Key): Result<(Key, bytes), OverlayError> {
    match result
    case Ok(mail) => Ok((peer, mail))
    case Err(error) => Err(error)
  }

  /** A run that ends with the body. */
  function BodyRun(reply: bytes, read: (Result<bytes, OverlayError>, bytes), peer: Key): ServedRun {
    (reply + BodyReply(read.0), WithSender(read.0, peer), read.1)
  }

  /** The run begins with this reply and goes on as the phase has it. */
  predicate RunBegins(run: ServedRun, text: ReplyText, phase: ServerPhase, rest: bytes, local: Key, peer: Key) {
    match phase
    case Command(f, r) =>
      var tail := Served(rest, f, r, local, peer);
      run == (ReplyBytes(text) + tail.0, tail.1, tail.2)
    case Body(out) => out == [] && run == BodyRun(ReplyBytes(text), ReadBody(rest, []), peer)
    case Failed(error) => run == (ReplyBytes(text), Err(error), rest)
    case _ => false
  }

  lemma CommandShape(line: bytes, fromOk: bool, rcptOk: bool, local: Key, peer: Key)
    ensures var phase := ServeCommand(line, fromOk, rcptOk, local, peer).1;
            (phase.Command? && line != []) || phase == Body([]) || phase.Failed?
  {
  }

  lemma ServedBegins(input: bytes, fromOk: bool, rcptOk: bool, local: Key, peer: Key)
    ensures var line := FirstLine(input, MAX_LINE_BYTES);
            var (text, phase) := ServeCommand(line, fromOk, rcptOk, local, peer);
            RunBegins(Served(input, fromOk, rcptOk, local, peer), text, phase, input[|line|..], local, peer)
  {
    CommandShape(FirstLine(input, MAX_LINE_BYTES), fromOk, rcptOk, local, peer);
  }

  /** The run on an input begins with the first command's reply and goes on as its phase has it. */
  lemma ServedStep(input: bytes, fromOk: bool, rcptOk: bool, local: Key, peer: Key)
    returns (text: ReplyText, phase: ServerPhase, rest: bytes)
    ensures var line := FirstLine(input, MAX_LINE_BYTES);
            rest == input[|line|..] && (text, phase) == ServeCommand(line, fromOk, rcptOk, local, peer)
    ensures RunBegins(Served(input, fromOk, rcptOk, local, peer), text, phase, rest, local, peer)
    ensures phase.Command? ==> |rest| < |input|
  {
    var line := FirstLine(input, MAX_LINE_BYTES);
    rest := input[|line|..];
    var answer := ServeCommand(line, fromOk, rcptOk, local, peer);
    text, phase := answer.0, answer.1;
    ServedBegins(input, fromOk, rcptOk, local, peer);
    CommandShape(line, fromOk, rcptOk, local, peer);
  }

  /** One command read and answered. */
  lemma OneCommand(whole: ServedRun, start: bytes, written: bytes, input: bytes,
                   fromOk: bool, rcptOk: bool, local: Key, peer: Key)
    requires ServedFrom(whole, start, written, input, fromOk, rcptOk, local, peer)
    ensures var line := FirstLine(input, MAX_LINE_BYTES);
            var rest := input[|line|..];
            var (text, phase) := ServeCommand(line, fromOk, rcptOk, local, peer);
            var reply := ReplyBytes(text);
            match phase
            case Command(f, r) => ServedFrom(whole, start, written + reply, rest, f, r, local, peer)
            case Body(_) =>
              var read := ReadBody(rest, []);
              start + whole.0 == written + reply + BodyReply(read.0) && whole.1 == WithSender(read.0, peer) && whole.2 == read.1
            case Failed(error) => whole.1 == Err(error) && whole.2 == rest && start + whole.0 == written + reply
            case _ => false
  {
    var text, phase, rest := ServedStep(input, fromOk, rcptOk, local, peer);
    match phase
    case Command(f, r) => ServedMore(whole, start, written, ReplyBytes(text), Served(rest, f, r, local, peer));
    case Body(_) =>
      ServedLast(whole, start, written, Served(input, fromOk, rcptOk, local, peer));
      Reassociate(written, ReplyBytes(text), BodyReply(ReadBody(rest, []).0));
    case _ => ServedLast(whole, start, written, Served(input, fromOk, rcptOk, local, peer));
  }

  /** The body, and the reply that only an oversized body gets here. */
  method ServeMail(reader: ByteReader, writer: ByteWriter, peer: Key) returns (r: Result<(Key, bytes), OverlayError>)
    modifies reader, writer
    ensures var (result, left) := ReadBody(old(reader.input), []);
            && reader.input == left && r == WithSender(result, peer)
            && writer.written == old(writer.written) + BodyReply(result)
  {
    var body, _ := reader.ReadData();
    if body == Err(TooLarge) {
      writer.Write(TooBig);
    }
    return if body.Ok? then Ok((peer, body.value)) else Err(body.error);
  }

  /** `overlay_serve_stream`: the sender's key and the mail exactly as received, or an error. */
  method OverlayServeStream(reader: ByteReader, writer: ByteWriter, local: Key, peer: Key)
    returns (r: Result<(Key, bytes), OverlayError>)
    modifies reader, writer
    ensures var (text, result, left) := Served(old(reader.input), false, false, local, peer);
            && r == result && reader.input == left
            && writer.written == old(writer.written) + ReplyBytes(Greeting) + text
  {
    writer.Write(Greeting);
    ghost var start := writer.written;
    ghost var whole := Served(reader.input, false, false, local, peer);
    ServedStart(whole, start);
    r := ServeCommands(reader, writer, local, peer, start, whole);
  }

  method ServeCommands(reader: ByteReader, writer: ByteWriter, local: Key, peer: Key, ghost start: bytes, ghost whole: ServedRun)
    returns (r: Result<(Key, bytes), OverlayError>)
    requires ServedFrom(whole, start, writer.written, reader.input, false, false, local, peer)
    modifies reader, writer
    ensures r == whole.1 && reader.input == whole.2 && writer.written == start + whole.0
  {
    var fromOk, rcptOk := false, false;
    while true
      invariant ServedFrom(whole, start, writer.written, reader.input, fromOk, rcptOk, local, peer)
      decreases |reader.input|
    {
      ghost var input, written := reader.input, writer.written;
      var phase := AnswerCommand(reader, writer, fromOk, rcptOk, local, peer);
      OneCommand(whole, start, written, input, fromOk, rcptOk, local, peer);
      if phase.Failed? {
        return Err(phase.error);
      }
      if phase.Body? {
        r := FinishWithMail(reader, writer, peer, start, whole);
        return;
      }
      fromOk, rcptOk := phase.fromOk, phase.rcptOk;
    }
  }

  /** The end of a run whose `DATA` has been answered. */
  method FinishWithMail(reader: ByteReader, writer: ByteWriter, peer: Key, ghost start: bytes, ghost whole: ServedRun)
    returns (r: Result<(Key, bytes), OverlayError>)
    requires var read := ReadBody(reader.input, []);
             start + whole.0 == writer.written + BodyReply(read.0) && whole.1 == WithSender(read.0, peer) && whole.2 == read.1
    modifies reader, writer
    ensures r == whole.1 && reader.input == whole.2 && writer.written == start + whole.0
  {
    r := ServeMail(reader, writer, peer);
  }

  /** One turn of the command loop. */
  method AnswerCommand(reader: ByteReader, writer: ByteWriter, fromOk: bool, rcptOk: bool, local: Key, peer: Key)
    returns (phase: ServerPhase)
    modifies reader, writer
    ensures var line := FirstLine(old(reader.input), MAX_LINE_BYTES);
            && reader.input == old(reader.input)[|line|..]
            && (!phase.Failed? ==> line != [])
            && (ReplyTextWritten(old(writer.written), writer.written, ServeCommand(line, fromOk, rcptOk, local, peer), phase))
  {
    var read, consumed := reader.ReadLineCapped(MAX_LINE_BYTES);
    if read.Err? || read.value == [] {
      return Failed(Protocol);
    }
    var (text, next) := ServeCommand(read.value, fromOk, rcptOk, local, peer);
    writer.Write(text);
    return next;
  }

  ghost predicate ReplyTextWritten(before: bytes, after: bytes, answer: (ReplyText, ServerPhase), phase: ServerPhase) {
    after == before + ReplyBytes(answer.0) && phase == answer.1
  }

  /** `write_data_reply`. */
  method WriteDataReply(writer: ByteWriter, durable: bool)
    modifies writer
    ensures writer.written == old(writer.written) + ReplyBytes(DataReply(durable))
  {
    writer.Write(if durable then Okay else TryAgain);
  }

  // ---------------------------------------------------------------- the client

  datatype Order = Order(hostname: ascii, from: ascii, rcpts: seq<ascii>, body: bytes)

  datatype ClientPhase =
    | AwaitGreeting
    | AwaitEhlo
    | AwaitMail
    | AwaitRcpt(i: nat)
    | AwaitData
    | AwaitFinal
    | Finished(ok: bool)

  function EhloLine(o: Order): bytes {
    WireBytes("EHLO " + o.hostname + "\r\n")
  }

  function PathCommand(verb: string, addr: string): bytes {
    WireBytes(PathLine(verb, addr))
  }

  function Wanted(phase: ClientPhase): byte {
    if phase.AwaitData? then '3' as int else '2' as int
  }

  function RcptOrData(o: Order, i: nat): ClientPhase {
    if i < |o.rcpts| then AwaitRcpt(i) else AwaitData
  }

  /** The phase after a positive reply. */
  function NextPhase(o: Order, phase: ClientPhase): ClientPhase {
    match phase
    case AwaitGreeting => AwaitEhlo
    case AwaitEhlo => AwaitMail
    case AwaitMail => RcptOrData(o, 0)
    case AwaitRcpt(i) => RcptOrData(o, i + 1)
    case AwaitData => AwaitFinal
    case AwaitFinal => Finished(true)
    case Finished(ok) => Finished(ok)
  }

  /** What the client writes on entering a phase. */
  function CommandText(o: Order, phase: ClientPhase): bytes {
    match phase
    case AwaitGreeting => []
    case AwaitEhlo => EhloLine(o)
    case AwaitMail => PathCommand("MAIL FROM:", o.from)
    case AwaitRcpt(i) => if i < |o.rcpts| then PathCommand("RCPT TO:", o.rcpts[i]) else []
    case AwaitData => WireBytes("DATA\r\n")
    case AwaitFinal => Stuffed(o.body) + TERMINATOR
    case Finished(_) => WireBytes("QUIT\r\n")
  }

  datatype Reply = Continued | Passed | Refused

  /** One reply line, `seen` continuation lines into the reply. */
  function ReplyLine(line: bytes, code: byte, seen: nat): Reply {
    if LineTooLong(line, MAX_LINE_BYTES) || line == [] then Refused
    else if |line| > 3 && line[3] == '-' as int then (if seen + 1 < MAX_CONTINUATION_LINES then Continued else Refused)
    else if line[0] == code then Passed
    else Refused
  }

  /** `expect_code` over a whole input. */
  function Expected(input: bytes, code: byte, seen: nat): (bool, bytes)
    decreases |input|
  {
    var line := FirstLine(input, MAX_LINE_BYTES);
    var rest := input[|line|..];
    match ReplyLine(line, code, seen)
    case Continued => Expected(rest, code, seen + 1)
    case Passed => (true, rest)
    case Refused => (false, rest)
  }

  /** A line with its LF that fits the reader. */
  predicate IsWholeLine(line: bytes) {
    0 < |line| <= 65536 && line[|line| - 1] == 10 && forall i :: 0 <= i < |line| - 1 ==> line[i] != 10
  }

  /** What a stream that ends without LF leaves of a line. */
  predicate IsOpenLine(line: bytes) {
    0 < |line| < 65536 && forall i :: 0 <= i < |line| ==> line[i] != 10
  }

  /** A hyphen after the three digits. */
  predicate HasHyphen(line: bytes) {
    |line| > 3 && line[3] == 45
  }

  function Flat(lines: seq<bytes>): bytes {
    if lines == [] then [] else lines[0] + Flat(lines[1..])
  }

  ghost predicate AreContinued(lines: seq<bytes>) {
    forall l :: l in lines ==> IsWholeLine(l) && HasHyphen(l)
  }

  /** The input is these continued lines, a last line that is not continued, and the rest. */
  ghost predicate IsReply(input: bytes, lines: seq<bytes>, last: bytes, rest: bytes) {
    && input == Flat(lines) + last + rest && AreContinued(lines) && !HasHyphen(last)
    && (IsWholeLine(last) || (IsOpenLine(last) && rest == []))
  }

  /** Continued lines without end, as far as the client looks. */
  ghost predicate IsEndless(input: bytes, lines: seq<bytes>, rest: bytes) {
    input == Flat(lines) + rest && AreContinued(lines) && |lines| == 32
  }

  lemma WholeLineRead(line: bytes, rest: bytes)
    requires IsWholeLine(line)
    ensures FirstLine(line + rest, MAX_LINE_BYTES) == line && (line + rest)[|line|..] == rest && !LineTooLong(line, MAX_LINE_BYTES)
  {
    LineOfConcat(line, rest);
  }

  lemma OpenLineRead(line: bytes)
    requires IsOpenLine(line)
    ensures FirstLine(line, MAX_LINE_BYTES) == line && line[|line|..] == [] && !LineTooLong(line, MAX_LINE_BYTES)
  {
    NoEndYet(line, |line|);
  }

  /** A line with a hyphen is passed over. */
  lemma ContinuedStep(line: bytes, rest: bytes, code: byte, seen: nat)
    requires IsWholeLine(line) && HasHyphen(line)
    ensures Expected(line + rest, code, seen) == if seen < 31 then Expected(rest, code, seen + 1) else (false, rest)
  {
    WholeLineRead(line, rest);
  }

  lemma LastStep(last: bytes, rest: bytes, code: byte, seen: nat)
    requires !HasHyphen(last) && (IsWholeLine(last) || (IsOpenLine(last) && rest == []))
    ensures Expected(last + rest, code, seen) == (last[0] == code, rest)
  {
    if IsWholeLine(last) {
      WholeLineRead(last, rest);
    } else {
      OpenLineRead(last);
      assert last + [] == last;
    }
  }

  lemma {:induction false} WholeReplyRead(input: bytes, lines: seq<bytes>, last: bytes, rest: bytes, code: byte, seen: nat)
    requires IsReply(input, lines, last, rest) && seen + |lines| < 32
    ensures Expected(input, code, seen) == (last[0] == code, rest)
    decreases |lines|
  {
    if lines == [] {
      assert [] + last + rest == last + rest;
      LastStep(last, rest, code, seen);
    } else {
      var more := Flat(lines[1..]) + last + rest;
      assert input == lines[0] + more;
      ContinuedStep(lines[0], more, code, seen);
      WholeReplyRead(more, lines[1..], last, rest, code, seen + 1);
    }
  }

  lemma {:induction false} EndlessReply(input: bytes, lines: seq<bytes>, rest: bytes, code: byte, seen: nat)
    requires input == Flat(lines) + rest && AreContinued(lines) && lines != [] && seen + |lines| == 32
    ensures Expected(input, code, seen) == (false, rest)
    decreases |lines|
  {
    var more := Flat(lines[1..]) + rest;
    assert input == lines[0] + more;
    ContinuedStep(lines[0], more, code, seen);
    if |lines| > 1 {
      EndlessReply(more, lines[1..], rest, code, seen + 1);
    } else {
      assert lines[1..] == [] && more == rest;
    }
  }

  /** What is passed as a reply is one, and its last line begins with the digit. */
  ghost predicate PassedAs(input: bytes, code: byte, n: nat) {
    exists lines, last, rest :: |lines| < n && IsReply(input, lines, last, rest) && last[0] == code
  }

  lemma {:induction false} PassedIsReply(input: bytes, code: byte, seen: nat)
    requires Expected(input, code, seen).0 && seen < 32
    ensures PassedAs(input, code, 32 - seen)
    decreases |input|
  {
    var line := FirstLine(input, MAX_LINE_BYTES);
    var rest := input[|line|..];
    FirstLineKind(input);
    if ReplyLine(line, code, seen).Continued? {
      if IsOpenLine(line) {
        NothingPasses(rest, code, seen + 1);
      }
      PassedIsReply(rest, code, seen + 1);
      MoreContinued(input, line, rest, code, 32 - seen);
    } else {
      assert [] + line + rest == input;
      assert IsReply(input, [], line, rest);
    }
  }

  lemma NothingPasses(input: bytes, code: byte, seen: nat)
    ensures input == [] ==> !Expected(input, code, seen).0
  {
  }

  lemma FirstLineKind(input: bytes)
    ensures var line := FirstLine(input, MAX_LINE_BYTES);
            input == line + input[|line|..]
            && (LineTooLong(line, MAX_LINE_BYTES) || line == [] || IsWholeLine(line) || (IsOpenLine(line) && input[|line|..] == []))
  {
    LineShape(input);
  }

  lemma MoreContinued(input: bytes, line: bytes, rest: bytes, code: byte, n: nat)
    requires input == line + rest && IsWholeLine(line) && HasHyphen(line) && n > 0 && PassedAs(rest, code, n - 1)
    ensures PassedAs(input, code, n)
  {
    var lines, last, tail :| |lines| < n - 1 && IsReply(rest, lines, last, tail) && last[0] == code;
    var all := [line] + lines;
    assert all[1..] == lines;
    assert line + (Flat(lines) + last + tail) == Flat(all) + last + tail;
    assert IsReply(input, all, last, tail);
  }

  /** How many phases the client still has to go. */
  function Distance(o: Order, phase: ClientPhase): nat {
    match phase
    case AwaitGreeting => |o.rcpts| + 5
    case AwaitEhlo => |o.rcpts| + 4
    case AwaitMail => |o.rcpts| + 3
    case AwaitRcpt(i) => if i < |o.rcpts| then |o.rcpts| - i + 2 else 3
    case AwaitData => 2
    case AwaitFinal => 1
    case Finished(_) => 0
  }

  /** The client over a whole input: text written, success, input left. */
  function SentFrom(o: Order, phase: ClientPhase, input: bytes): (bytes, bool, bytes)
    decreases Distance(o, phase)
  {
    if phase.Finished? then ([], phase.ok, input)
    else
      var (passed, rest) := Expected(input, Wanted(phase), 0);
      if !passed then ([], false, rest)
      else
        var next := NextPhase(o, phase);
        var (more, ok, left) := SentFrom(o, next, rest);
        (CommandText(o, next) + more, ok, left)
  }

  /** The reply passes exactly when its last line begins with the digit, and just the reply is consumed. */
  lemma ReplyMeans(input: bytes, code: byte)
    ensures Expected(input, code, 0).0 <==> exists lines, last, rest :: |lines| < 32 && IsReply(input, lines, last, rest) && last[0] == code
    ensures forall lines, last, rest :: |lines| < 32 && IsReply(input, lines, last, rest) ==> Expected(input, code, 0).1 == rest
    ensures forall lines, rest :: IsEndless(input, lines, rest) ==> Expected(input, code, 0) == (false, rest)
  {
    forall lines, rest | IsEndless(input, lines, rest)
      ensures Expected(input, code, 0) == (false, rest)
    {
      EndlessReply(input, lines, rest, code, 0);
    }
    if Expected(input, code, 0).0 {
      PassedIsReply(input, code, 0);
    }
    forall lines, last, rest | |lines| < 32 && IsReply(input, lines, last, rest)
      ensures Expected(input, code, 0) == (last[0] == code, rest)
    {
      WholeReplyRead(input, lines, last, rest, code, 0);
    }
  }

  /**
   * `expect_code`: a line whose fourth byte is a hyphen is passed over, up to 31
   * of them; the first that has none decides by its first byte, and what follows
   * it is left unread. With 32 of them it gives up.
   */
  method ExpectCode(reader: ByteReader, code: byte) returns (ok: bool)
    modifies reader
    ensures (ok, reader.input) == Expected(old(reader.input), code, 0)
    ensures ok <==> exists lines, last, rest :: |lines| < 32 && IsReply(old(reader.input), lines, last, rest) && last[0] == code
    ensures forall lines, last, rest :: |lines| < 32 && IsReply(old(reader.input), lines, last, rest) ==> reader.input == rest
    ensures forall lines, rest :: IsEndless(old(reader.input), lines, rest) ==> !ok && reader.input == rest
  {
    ReplyMeans(reader.input, code);
    var n := 0;
    while n < MAX_CONTINUATION_LINES
      invariant n <= MAX_CONTINUATION_LINES
      invariant n < MAX_CONTINUATION_LINES ==> Expected(reader.input, code, n) == Expected(old(reader.input), code, 0)
      invariant n == MAX_CONTINUATION_LINES ==> (false, reader.input) == Expected(old(reader.input), code, 0)
    {
      var read, consumed := reader.ReadLineCapped(MAX_LINE_BYTES);
      if read.Err? || read.value == [] {
        return false;
      }
      var line := read.value;
      if |line| > 3 && line[3] == '-' as int {
        n := n + 1;
        continue;
      }
      return line[0] == code;
    }
    return false;
  }

  /** What a run from `phase` on `input` still writes and leaves completes the whole run. */
  ghost predicate Completes(o: Order, phase: ClientPhase, input: bytes, sofar: bytes, whole: (bytes, bool, bytes)) {
    var (text, ok, left) := SentFrom(o, phase, input);
    whole == (sofar + text, ok, left)
  }

  /** One reply awaited and, when positive, the next text written. */
  lemma OneExchange(o: Order, phase: ClientPhase, input: bytes, sofar: bytes, whole: (bytes, bool, bytes))
    requires Completes(o, phase, input, sofar, whole) && !phase.Finished?
    ensures var (passed, rest) := Expected(input, Wanted(phase), 0);
            var next := NextPhase(o, phase);
            if passed then Completes(o, next, rest, sofar + CommandText(o, next), whole) else whole == (sofar, false, rest)
  {
    var (passed, rest) := Expected(input, Wanted(phase), 0);
    if passed {
      var next := NextPhase(o, phase);
      var (more, ok, left) := SentFrom(o, next, rest);
      assert sofar + (CommandText(o, next) + more) == (sofar + CommandText(o, next)) + more;
    } else {
      assert sofar + [] == sofar;
    }
  }

  lemma Start(o: Order, input: bytes, start: bytes)
    ensures ComesTo(o, AwaitGreeting, input, start, start, SentFrom(o, AwaitGreeting, input))
  {
    assert start == start + [];
    var (text, ok, left) := SentFrom(o, AwaitGreeting, input);
    assert [] + text == text;
  }

  /** Writes what the client says on entering a phase. */
  method Say(writer: ByteWriter, o: Order, phase: ClientPhase)
    modifies writer
    ensures writer.written == old(writer.written) + CommandText(o, phase)
  {
    var text := CommandText(o, phase);
    if phase.AwaitFinal? {
      var stuffed := WriteDotStuffed(o.body);
      text := stuffed + TERMINATOR;
    }
    writer.WriteBytes(text);
  }

  /** The run has come to `phase` with the reader at `input`, having written `written` in all. */
  ghost predicate ComesTo(o: Order, phase: ClientPhase, input: bytes, start: bytes, written: bytes, whole: (bytes, bool, bytes)) {
    exists sofar: bytes :: written == start + sofar && Completes(o, phase, input, sofar, whole)
  }

  /** Await the reply to the previous command, then write the next one. */
  method Exchange(reader: ByteReader, writer: ByteWriter, o: Order, phase: ClientPhase, ghost start: bytes, ghost whole: (bytes, bool, bytes))
    returns (ok: bool)
    requires !phase.Finished?
    requires ComesTo(o, phase, reader.input, start, writer.written, whole)
    modifies reader, writer
    ensures ok ==> ComesTo(o, NextPhase(o, phase), reader.input, start, writer.written, whole)
    ensures !ok ==> writer.written == start + whole.0 && !whole.1 && reader.input == whole.2
  {
    ghost var sofar: bytes :| writer.written == start + sofar && Completes(o, phase, reader.input, sofar, whole);
    OneExchange(o, phase, reader.input, sofar, whole);
    ok := ExpectCode(reader, Wanted(phase));
    if ok {
      Say(writer, o, NextPhase(o, phase));
      Reassociate(start, sofar, CommandText(o, NextPhase(o, phase)));
    }
  }

  /** One command per recipient. */
  method SendRecipients(reader: ByteReader, writer: ByteWriter, o: Order, ghost start: bytes, ghost whole: (bytes, bool, bytes))
    returns (ok: bool, phase: ClientPhase)
    requires ComesTo(o, AwaitMail, reader.input, start, writer.written, whole)
    modifies reader, writer
    ensures ok ==> !phase.Finished? && NextPhase(o, phase) == AwaitData
                   && ComesTo(o, phase, reader.input, start, writer.written, whole)
    ensures !ok ==> writer.written == start + whole.0 && !whole.1 && reader.input == whole.2
  {
    ok, phase := true, AwaitMail;
    var i := 0;
    while i < |o.rcpts|
      invariant ok && i <= |o.rcpts| && !phase.Finished? && NextPhase(o, phase) == RcptOrData(o, i)
      invariant ComesTo(o, phase, reader.input, start, writer.written, whole)
    {
      ok := Exchange(reader, writer, o, phase, start, whole);
      if !ok { return; }
      phase := AwaitRcpt(i);
      i := i + 1;
    }
  }

  /** The commands up to and including the last recipient. */
  method SendEnvelope(reader: ByteReader, writer: ByteWriter, o: Order, ghost start: bytes, ghost whole: (bytes, bool, bytes))
    returns (ok: bool, phase: ClientPhase)
    requires ComesTo(o, AwaitGreeting, reader.input, start, writer.written, whole)
    modifies reader, writer
    ensures ok ==> !phase.Finished? && NextPhase(o, phase) == AwaitData
                   && ComesTo(o, phase, reader.input, start, writer.written, whole)
    ensures !ok ==> writer.written == start + whole.0 && !whole.1 && reader.input == whole.2
  {
    phase := AwaitMail;
    ok := Exchange(reader, writer, o, AwaitGreeting, start, whole);
    if !ok { return; }
    ok := Exchange(reader, writer, o, AwaitEhlo, start, whole);
    if !ok { return; }
    ok, phase := SendRecipients(reader, writer, o, start, whole);
  }

  /** `overlay_send_stream`. */
  method OverlaySendStream(reader: ByteReader, writer: ByteWriter, o: Order) returns (ok: bool)
    modifies reader, writer
    ensures var (text, success, left) := SentFrom(o, AwaitGreeting, old(reader.input));
            && ok == success && reader.input == left
            && writer.written == old(writer.written) + text
  {
    ghost var whole := SentFrom(o, AwaitGreeting, reader.input);
    ghost var start := writer.written;
    Start(o, reader.input, start);
    var phase;
    ok, phase := SendEnvelope(reader, writer, o, start, whole);
    if ok {
      ok := SendMail(reader, writer, o, phase, start, whole);
    }
  }

  /** `DATA`, the mail itself, and the goodbye once the mail is acknowledged. */
  method SendMail(reader: ByteReader, writer: ByteWriter, o: Order, last: ClientPhase, ghost start: bytes, ghost whole: (bytes, bool, bytes))
    returns (ok: bool)
    requires !last.Finished? && NextPhase(o, last) == AwaitData
    requires ComesTo(o, last, reader.input, start, writer.written, whole)
    modifies reader, writer
    ensures ok == whole.1 && reader.input == whole.2 && writer.written == start + whole.0
  {
    ok := Exchange(reader, writer, o, last, start, whole);
    if !ok { return; }
    ok := Exchange(reader, writer, o, AwaitData, start, whole);
    if !ok { return; }
    ok := Exchange(reader, writer, o, AwaitFinal, start, whole);
    if ok {
      Arrived(o, reader.input, start, writer.written, whole);
    }
  }

  lemma Arrived(o: Order, input: bytes, start: bytes, written: bytes, whole: (bytes, bool, bytes))
    requires ComesTo(o, Finished(true), input, start, written, whole)
    ensures written == start + whole.0 && whole.1 && input == whole.2
  {
    var sofar: bytes :| written == start + sofar && Completes(o, Finished(true), input, sofar, whole);
    assert sofar + [] == sofar;
  }
}
