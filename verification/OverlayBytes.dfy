// The overlay protocol as its bytes: dot stuffing, the body reader, the replies
// to each command line, and all that a successful client writes.
module OverlayBytes {
  import opened Bytes
  import opened Lines
  import opened Wrappers
  import opened Text
  import opened Address
  import opened OverlayCodec
  import opened OverlayPrograms
  import opened OverlayLines
  import opened OverlayEnvelope

  // ---------------------------------------------------------------- stuffing

  /** Ends in LF, with none before. */
  predicate IsEnded(line: bytes) {
    line != [] && line[|line| - 1] == 10 && forall i :: 0 <= i < |line| - 1 ==> line[i] != 10
  }

  lemma EndedLineFirst(line: bytes, rest: bytes)
    requires IsEnded(line)
    ensures LineLength(line + rest) == |line| && (line + rest)[..|line|] == line && (line + rest)[|line|..] == rest
  {
    LineOfConcat(line, rest);
  }

  lemma OpenLineOnly(line: bytes)
    requires forall i :: 0 <= i < |line| ==> line[i] != 10
    ensures LineLength(line) == |line|
  {
    NoEndYet(line, |line|);
  }

  lemma {:induction false} EndedLineStuffed(line: bytes, rest: bytes)
    requires IsEnded(line)
    ensures Stuffed(line + rest) == (if line[0] == 46 then [46] else []) + line + Stuffed(rest)
  {
    EndedLineFirst(line, rest);
    StuffedStep(line + rest);
    assert Escaped(line) == (if line[0] == 46 then [46] else []) + line;
  }

  lemma {:induction false} OpenLineStuffed(line: bytes)
    requires line != [] && forall i :: 0 <= i < |line| ==> line[i] != 10
    ensures Stuffed(line) == (if line[0] == 46 then [46] else []) + line + [13, 10]
  {
    OpenLineOnly(line);
    OnlyLine(line);
    assert Escaped(line) == (if line[0] == 46 then [46] else []) + line;
  }

  /**
   * What the writer makes of a body, line by line: a line that begins with a dot
   * gets one more in front, a last line without LF gets CR LF, and nothing else
   * changes.
   */
  lemma {:induction false} StuffingInBytes(line: bytes, rest: bytes)
    ensures Stuffed([]) == []
    ensures IsEnded(line) ==> Stuffed(line + rest) == (if line[0] == 46 then [46] else []) + line + Stuffed(rest)
    ensures line != [] && (forall i :: 0 <= i < |line| ==> line[i] != 10) ==>
              Stuffed(line) == (if line[0] == 46 then [46] else []) + line + [13, 10]
  {
    if IsEnded(line) {
      EndedLineStuffed(line, rest);
    }
    if line != [] && forall i :: 0 <= i < |line| ==> line[i] != 10 {
      OpenLineStuffed(line);
    }
  }

  // ---------------------------------------------------------------- reading the body

  lemma ShortLineRead(line: bytes, rest: bytes, cap: nat)
    requires IsEnded(line) && |line| <= cap
    ensures FirstLine(line + rest, cap) == line && (line + rest)[|line|..] == rest && !LineTooLong(line, cap)
  {
    EndedLineFirst(line, rest);
  }

  lemma LongLineRead(input: bytes, cap: nat)
    requires |input| >= cap && forall i :: 0 <= i < cap ==> input[i] != 10
    ensures FirstLine(input, cap) == input[..cap] && LineTooLong(input[..cap], cap)
  {
    NoEndYet(input, cap);
    LineShape(input);
  }

  /** A dot alone on its line ends the body. */
  predicate IsLoneDot(line: bytes) {
    line == [46, 13, 10] || line == [46, 10]
  }

  /** One of two leading dots is taken away. */
  function OneDotLess(line: bytes): bytes {
    if |line| >= 2 && line[0] == 46 && line[1] == 46 then line[1..] else line
  }

  /**
   * What the reader makes of a line of at most 65536 bytes, with `out` bytes of
   * body so far: the lone dot ends it, whatever follows; any other line is added
   * with one of two leading dots taken away, while the whole stays within
   * 34603008 bytes, and found too large otherwise.
   */
  lemma BodyLineInBytes(line: bytes, rest: bytes, out: bytes)
    requires IsEnded(line) && |line| <= 65536
    ensures ReadBody(line + rest, out) ==
            if IsLoneDot(line) then (Ok(out), rest)
            else if |out| + |OneDotLess(line)| > 34603008 then (Err(TooLarge), rest)
            else ReadBody(rest, out + OneDotLess(line))
  {
    ShortLineRead(line, rest, BodyCap(|out|));
  }

  /** A stream that ends inside the body yields nothing; a line without end is cut off. */
  lemma BodyCutInBytes(input: bytes, out: bytes)
    requires |out| <= 34603008
    ensures ReadBody([], out).0 == Err(Protocol)
    ensures |input| >= 34603008 - |out| + 65536 && (forall i :: 0 <= i < 34603008 - |out| + 65536 ==> input[i] != 10) ==>
              ReadBody(input, out).0 == Err(TooLarge)
  {
    if |input| >= 34603008 - |out| + 65536 && forall i :: 0 <= i < 34603008 - |out| + 65536 ==> input[i] != 10 {
      LongLineRead(input, BodyCap(|out|));
    }
  }

  // ---------------------------------------------------------------- replies

  /** The three digits a reply begins with. */
  function CodeOf(r: ReplyText): seq<byte> {
    match r
    case Silence => []
    case Greeting => [50, 50, 48]
    case Helo => [50, 53, 48]
    case Okay => [50, 53, 48]
    case GoAhead => [51, 53, 52]
    case Bye => [50, 50, 49]
    case BadSender => [53, 53, 48]
    case NoUser => [53, 53, 48]
    case BadSequence => [53, 48, 51]
    case TooBig => [53, 53, 50]
    case TryAgain => [52, 53, 49]
  }

  /** The text begins with these three digits. */
  predicate HasDigits(text: string, code: seq<byte>) {
    |text| >= 3 && |code| == 3 && text[0] as int == code[0] && text[1] as int == code[1] && text[2] as int == code[2]
  }

  lemma PositiveDigits(r: ReplyText)
    requires r in {Greeting, Helo, Okay, GoAhead, Bye}
    ensures HasDigits(Wording(r), CodeOf(r))
  {
    match r {
      case Greeting =>
      case Helo =>
      case Okay =>
      case GoAhead =>
      case Bye =>
    }
  }

  lemma NegativeDigits(r: ReplyText)
    requires r in {BadSender, NoUser, BadSequence, TooBig}
    ensures HasDigits(Wording(r), CodeOf(r))
  {
    match r {
      case BadSender =>
      case NoUser =>
      case BadSequence =>
      case TooBig =>
    }
  }

  lemma TryAgainDigits()
    ensures HasDigits(Wording(TryAgain), [52, 53, 49])
  {
    var head, tail := "451 4.3.0 ", "mail not stored" + ", try again later";
    TryAgainWhole();
    assert Wording(TryAgain) == head + tail;
    assert head[0] == '4' && head[1] == '5' && head[2] == '1';
  }

  lemma WordingDigits(r: ReplyText)
    requires r != Silence
    ensures HasDigits(Wording(r), CodeOf(r))
  {
    if r in {Greeting, Helo, Okay, GoAhead, Bye} {
      PositiveDigits(r);
    } else if r == TryAgain {
      TryAgainDigits();
    } else {
      NegativeDigits(r);
    }
  }

  lemma BytesOfWording(r: ReplyText)
    requires r != Silence && IsAscii(Wording(r) + "\r\n")
    ensures var b, text := ReplyBytes(r), Wording(r);
            && |b| == |text| + 2 && (forall i :: 0 <= i < |text| ==> b[i] == text[i] as int) && b[|text|] == 13 && b[|text| + 1] == 10
  {
  }

  lemma WordingIsAscii(r: ReplyText)
    requires r != Silence
    ensures IsAscii(Wording(r) + "\r\n")
  {
    ReplyIsLine(r);
    assert WireBytes(Wording(r) + "\r\n") != [];
  }

  /** Each reply is one line: three digits, a blank, text, CR LF. */
  lemma ReplyInBytes(r: ReplyText)
    requires r != Silence
    ensures var b := ReplyBytes(r);
            |b| >= 6 && b[..3] == CodeOf(r) && b[3] == 32 && IsEnded(b) && b[|b| - 2] == 13
  {
    ReplyIsLine(r);
    WordingIsAscii(r);
    BytesOfWording(r);
    WordingDigits(r);
  }

  /** A verb letter in either case, any other byte as it is. */
  predicate SaysVerb(line: bytes, verb: string) {
    |line| >= |verb| && forall i :: 0 <= i < |verb| ==>
      line[i] == verb[i] as int || ('A' <= verb[i] <= 'Z' && line[i] == verb[i] as int + 32)
  }

  lemma VerbsInBytes(line: bytes, verb: string)
    requires forall i :: 0 <= i < |verb| ==> 32 <= verb[i] as int <= 90
    ensures HasVerb(line, verb) <==> SaysVerb(line, verb)
  {
  }

  predicate BeginsWith(b: bytes, code: seq<byte>) {
    |b| >= |code| && b[..|code|] == code
  }

  lemma SenderVerb(line: bytes)
    ensures HasVerb(line, "MAIL FROM:") <==> SaysVerb(line, "MAIL FROM:")
  {
    VerbsInBytes(line, "MAIL FROM:");
  }

  lemma RecipientVerb(line: bytes)
    ensures HasVerb(line, "RCPT TO:") <==> SaysVerb(line, "RCPT TO:")
  {
    VerbsInBytes(line, "RCPT TO:");
  }

  /** MAIL is answered 250 for the peer's own address; for any other 550, and the session ends. */
  lemma SenderAnswered(line: bytes, fromOk: bool, rcptOk: bool, local: Key, peer: Key)
    requires line != [] && !LineTooLong(line, 65536) && SaysVerb(line, "MAIL FROM:")
    ensures ServeCommand(line, fromOk, rcptOk, local, peer) ==
            if PathKey(line, "MAIL FROM:") == Some(peer) then (Okay, Command(true, rcptOk)) else (BadSender, Failed(SpoofedSender))
  {
    SenderVerb(line);
    OneVerb(line);
  }

  /** RCPT is answered 250 for the server's own address; for any other 550, and the session goes on. */
  lemma RecipientAnswered(line: bytes, fromOk: bool, rcptOk: bool, local: Key, peer: Key)
    requires line != [] && !LineTooLong(line, 65536) && SaysVerb(line, "RCPT TO:")
    ensures ServeCommand(line, fromOk, rcptOk, local, peer) ==
            if PathKey(line, "RCPT TO:") == Some(local) then (Okay, Command(fromOk, true)) else (NoUser, Command(fromOk, rcptOk))
  {
    RecipientVerb(line);
    OneVerb(line);
  }

  /** DATA is answered 354 once sender and recipient are known, 503 before; QUIT 221. */
  lemma DataAnswered(line: bytes, fromOk: bool, rcptOk: bool, local: Key, peer: Key)
    requires line != [] && !LineTooLong(line, 65536)
    ensures SaysVerb(line, "DATA") ==>
              ServeCommand(line, fromOk, rcptOk, local, peer) == if fromOk && rcptOk then (GoAhead, Body([])) else (BadSequence, Failed(Protocol))
    ensures SaysVerb(line, "QUIT") ==> ServeCommand(line, fromOk, rcptOk, local, peer) == (Bye, Failed(Protocol))
  {
    VerbsInBytes(line, "DATA");
    VerbsInBytes(line, "QUIT");
    OneVerb(line);
  }

  /** A greeting, HELO or EHLO, and every unknown command are answered 250 and change nothing. */
  lemma OthersAnswered(line: bytes, fromOk: bool, rcptOk: bool, local: Key, peer: Key)
    requires line != [] && !LineTooLong(line, 65536)
    requires !SaysVerb(line, "MAIL FROM:") && !SaysVerb(line, "RCPT TO:") && !SaysVerb(line, "DATA") && !SaysVerb(line, "QUIT")
    ensures ServeCommand(line, fromOk, rcptOk, local, peer) ==
            (if SaysVerb(line, "HELO") || SaysVerb(line, "EHLO") then Helo else Okay, Command(fromOk, rcptOk))
  {
    VerbsInBytes(line, "HELO");
    VerbsInBytes(line, "EHLO");
    SenderVerb(line);
    RecipientVerb(line);
    VerbsInBytes(line, "DATA");
    VerbsInBytes(line, "QUIT");
  }

  /** The last reply: 250 only for a mail stored, 451 otherwise; 552 for one too large, and nothing for a body cut short. */
  lemma BodyAnswers(durable: bool, error: OverlayError)
    ensures BeginsWith(ReplyBytes(DataReply(durable)), if durable then [50, 53, 48] else [52, 53, 49])
    ensures BeginsWith(BodyReply(Err(TooLarge)), [53, 53, 50])
    ensures error != TooLarge ==> BodyReply(Err(error)) == []
  {
    ReplyInBytes(DataReply(durable));
    ReplyInBytes(TooBig);
  }

  // ---------------------------------------------------------------- the client

  lemma EhloInBytes(o: Order)
    ensures CommandText(o, AwaitEhlo) == WireBytes("EHLO " + o.hostname + "\r\n")
  {
  }

  lemma SenderInBytes(o: Order)
    ensures CommandText(o, AwaitMail) == WireBytes("MAIL FROM:" + "<" + o.from + ">" + "\r\n")
  {
    PathCommandText("MAIL FROM:", o.from);
  }

  lemma RcptInBytes(o: Order, i: nat)
    requires i < |o.rcpts|
    ensures CommandText(o, AwaitRcpt(i)) == WireBytes("RCPT TO:" + "<" + o.rcpts[i] + ">" + "\r\n")
  {
    PathCommandText("RCPT TO:", o.rcpts[i]);
  }

  lemma MailInBytes(o: Order)
    ensures CommandText(o, AwaitData) == WireBytes("DATA\r\n")
    ensures CommandText(o, AwaitFinal) == Stuffed(o.body) + [46, 13, 10]
    ensures CommandText(o, Finished(true)) == WireBytes("QUIT\r\n")
  {
  }

  /** The command of each phase, spelled out. */
  lemma CommandsInBytes(o: Order)
    ensures CommandText(o, AwaitEhlo) == WireBytes("EHLO " + o.hostname + "\r\n")
    ensures CommandText(o, AwaitMail) == WireBytes("MAIL FROM:" + "<" + o.from + ">" + "\r\n")
    ensures forall i: nat :: i < |o.rcpts| ==> CommandText(o, AwaitRcpt(i)) == WireBytes("RCPT TO:" + "<" + o.rcpts[i] + ">" + "\r\n")
    ensures CommandText(o, AwaitData) == WireBytes("DATA\r\n")
    ensures CommandText(o, AwaitFinal) == Stuffed(o.body) + [46, 13, 10]
    ensures CommandText(o, Finished(true)) == WireBytes("QUIT\r\n")
  {
    EhloInBytes(o);
    SenderInBytes(o);
    MailInBytes(o);
    forall i: nat | i < |o.rcpts|
      ensures CommandText(o, AwaitRcpt(i)) == WireBytes("RCPT TO:" + "<" + o.rcpts[i] + ">" + "\r\n")
    {
      RcptInBytes(o, i);
    }
  }

  lemma PathCommandText(verb: string, addr: string)
    ensures PathCommand(verb, addr) == WireBytes(verb + "<" + addr + ">" + "\r\n")
  {
    assert PathLine(verb, addr) == verb + "<" + addr + ">" + "\r\n";
  }

  /** One RCPT command per recipient from `i` on. */
  function RcptTexts(o: Order, i: nat): bytes
    decreases |o.rcpts| - i
  {
    if i >= |o.rcpts| then [] else CommandText(o, AwaitRcpt(i)) + RcptTexts(o, i + 1)
  }

  /** DATA, the mail, QUIT. */
  function MailTexts(o: Order): bytes {
    CommandText(o, AwaitData) + CommandText(o, AwaitFinal) + CommandText(o, Finished(true))
  }

  /** One phase of a client that succeeds: what it writes next, then the rest. */
  lemma {:induction false} OnePhase(o: Order, phase: ClientPhase, input: bytes, next: ClientPhase, rest: bytes)
    requires !phase.Finished? && SentFrom(o, phase, input).1 && next == NextPhase(o, phase) && rest == Expected(input, Wanted(phase), 0).1
    ensures SentFrom(o, phase, input).0 == CommandText(o, next) + SentFrom(o, next, rest).0 && SentFrom(o, next, rest).1
  {
  }

  lemma {:induction false} DataPhase(o: Order, input: bytes, body: bytes, quit: bytes)
    requires SentFrom(o, AwaitData, input).1 && body == CommandText(o, AwaitFinal) && quit == CommandText(o, Finished(true))
    ensures SentFrom(o, AwaitData, input).0 == body + quit
  {
    var rest := Expected(input, Wanted(AwaitData), 0).1;
    OnePhase(o, AwaitData, input, AwaitFinal, rest);
    FinalPhase(o, rest, quit);
  }

  lemma {:induction false} FinalPhase(o: Order, input: bytes, quit: bytes)
    requires SentFrom(o, AwaitFinal, input).1 && quit == CommandText(o, Finished(true))
    ensures SentFrom(o, AwaitFinal, input).0 == quit
  {
    var rest := Expected(input, Wanted(AwaitFinal), 0).1;
    OnePhase(o, AwaitFinal, input, Finished(true), rest);
    assert quit + [] == quit;
  }

  lemma {:induction false} LastRcptPhase(o: Order, phase: ClientPhase, input: bytes)
    requires !phase.Finished? && NextPhase(o, phase) == AwaitData && SentFrom(o, phase, input).1
    ensures SentFrom(o, phase, input).0 == MailTexts(o)
  {
    var rest := Expected(input, Wanted(phase), 0).1;
    OnePhase(o, phase, input, AwaitData, rest);
    DataPhase(o, rest, CommandText(o, AwaitFinal), CommandText(o, Finished(true)));
    Reassociate(CommandText(o, AwaitData), CommandText(o, AwaitFinal), CommandText(o, Finished(true)));
  }

  lemma {:induction false} RcptPhase(o: Order, phase: ClientPhase, i: nat, input: bytes) returns (rest: bytes)
    requires !phase.Finished? && NextPhase(o, phase) == RcptOrData(o, i) && i < |o.rcpts| && SentFrom(o, phase, input).1
    ensures SentFrom(o, phase, input).0 == CommandText(o, AwaitRcpt(i)) + SentFrom(o, AwaitRcpt(i), rest).0
    ensures SentFrom(o, AwaitRcpt(i), rest).1
  {
    rest := Expected(input, Wanted(phase), 0).1;
    OnePhase(o, phase, input, AwaitRcpt(i), rest);
  }

  /** From the wait for the reply before recipient `i` on. */
  lemma {:induction false} RcptPhases(o: Order, phase: ClientPhase, i: nat, input: bytes)
    requires !phase.Finished? && NextPhase(o, phase) == RcptOrData(o, i) && i <= |o.rcpts| && SentFrom(o, phase, input).1
    ensures SentFrom(o, phase, input).0 == RcptTexts(o, i) + MailTexts(o)
    decreases |o.rcpts| - i
  {
    if i == |o.rcpts| {
      LastRcptPhase(o, phase, input);
      NoMoreRcpts(o, i, MailTexts(o));
    } else {
      var rest := RcptPhase(o, phase, i, input);
      RcptPhases(o, AwaitRcpt(i), i + 1, rest);
      OneMoreRcpt(o, i, SentFrom(o, AwaitRcpt(i), rest).0, MailTexts(o));
    }
  }

  lemma NoMoreRcpts(o: Order, i: nat, mail: bytes)
    requires i == |o.rcpts|
    ensures RcptTexts(o, i) + mail == mail
  {
  }

  lemma OneMoreRcpt(o: Order, i: nat, text: bytes, mail: bytes)
    requires i < |o.rcpts| && text == RcptTexts(o, i + 1) + mail
    ensures CommandText(o, AwaitRcpt(i)) + text == RcptTexts(o, i) + mail
  {
    Reassociate(CommandText(o, AwaitRcpt(i)), RcptTexts(o, i + 1), mail);
  }

  /**
   * All that a client writes whose call succeeds: EHLO, the sender, one command
   * per recipient in order, DATA, the stuffed body with the lone dot, QUIT.
   */
  lemma {:induction false} ClientTranscript(o: Order, input: bytes)
    requires SentFrom(o, AwaitGreeting, input).1
    ensures SentFrom(o, AwaitGreeting, input).0 ==
            CommandText(o, AwaitEhlo) + (CommandText(o, AwaitMail) + (RcptTexts(o, 0) + MailTexts(o)))
  {
    var first := Expected(input, Wanted(AwaitGreeting), 0).1;
    OnePhase(o, AwaitGreeting, input, AwaitEhlo, first);
    var second := Expected(first, Wanted(AwaitEhlo), 0).1;
    OnePhase(o, AwaitEhlo, first, AwaitMail, second);
    RcptPhases(o, AwaitMail, 0, second);
  }
}
