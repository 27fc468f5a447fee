// What the two programs of a dialog make of each other's lines.
module OverlayLines {
  import opened Bytes
  import opened Lines
  import opened Wrappers
  import opened Text
  import opened Address
  import opened OverlayCodec
  import opened OverlayPrograms

  /** Text of one line: "\r\n" at its end and no LF before. */
  predicate IsLineText(s: string) {
    && IsAscii(s) && 2 < |s| < MAX_LINE_BYTES
    && s[|s| - 1] == '\n' && forall i :: 0 <= i < |s| - 1 ==> s[i] != '\n'
  }

  /** Bytes that a line reader returns whole. */
  predicate IsLine(b: bytes) {
    EndsLine(b) && |b| < MAX_LINE_BYTES && forall i :: 0 <= i < |b| - 1 ==> b[i] != LF
  }

  lemma LineReadWhole(b: bytes)
    requires IsLine(b)
    ensures LineLength(b) == |b| && FirstLine(b, MAX_LINE_BYTES) == b && b[|b|..] == []
    ensures !LineTooLong(b, MAX_LINE_BYTES)
  {
    LineOfConcat(b, []);
    assert b + [] == b;
  }

  lemma BytesOfLineText(s: string)
    requires IsLineText(s)
    ensures IsLine(WireBytes(s)) && |WireBytes(s)| == |s|
    ensures forall i :: 0 <= i < |s| ==> WireBytes(s)[i] == s[i] as int
  {
  }

  /** Text of upper-case letters and punctuation, as verbs are written. */
  predicate IsVerb(verb: string) {
    forall i :: 0 <= i < |verb| ==> 32 <= verb[i] as int < 97
  }

  lemma StartsWithVerb(s: string, verb: string)
    requires IsLineText(s) && IsVerb(verb)
    requires |s| >= |verb| && s[..|verb|] == verb
    ensures HasVerb(WireBytes(s), verb)
  {
    BytesOfLineText(s);
    forall i | 0 <= i < |verb|
      ensures UpperByte(WireBytes(s)[i]) == verb[i] as int
    {
      assert s[i] == s[..|verb|][i];
    }
  }

  lemma DifferentVerb(s: string, verb: string)
    requires IsLineText(s) && verb != [] && s[0] != verb[0] && 65 <= s[0] as int <= 90
    ensures !HasVerb(WireBytes(s), verb)
  {
    BytesOfLineText(s);
  }

  predicate Printable(s: string) {
    forall c :: c in s ==> 32 <= c as int < 127
  }

  lemma LineOfText(text: string)
    requires Printable(text) && 3 < |text| < 1000
    ensures var s := text + "\r\n"; IsLineText(s) && s[0] == text[0] && s[3] == text[3]
  {
    var s := text + "\r\n";
    forall i | 0 <= i < |s| - 1
      ensures s[i] as int < 128 && s[i] != '\n'
    {
      if i < |text| {
        assert s[i] == text[i] && text[i] in text;
      }
    }
  }

  // ---------------------------------------------------------------- commands

  /** An order as `dialog` places it: own address and key, one recipient address per entry. */
  ghost predicate Conformant(o: Order, local: Key, peer: Key) {
    && o.hostname == HexEncode(peer)
    && o.from == CreateAddress(peer)
    && o.rcpts != [] && forall i :: 0 <= i < |o.rcpts| ==> o.rcpts[i] == CreateAddress(local)
  }

  lemma PathLineText(verb: string, key: Key)
    requires 0 < |verb| < 16 && IsVerb(verb)
    ensures var s := PathLine(verb, CreateAddress(key));
            IsLineText(s) && |s| >= |verb| && s[..|verb|] == verb && s[0] == verb[0]
  {
    var addr := CreateAddress(key);
    AddressIsPathText(key);
    PathIsPrintable(verb, addr);
    LineOfText(verb + "<" + addr + ">");
    assert PathLine(verb, addr) == verb + "<" + addr + ">" + "\r\n";
  }

  lemma PathIsPrintable(verb: string, addr: string)
    requires IsVerb(verb) && IsPathText(addr)
    ensures Printable(verb + "<" + addr + ">")
  {
    forall c | c in verb + "<" + addr + ">"
      ensures 32 <= c as int < 127
    {
      assert c in verb || c == '<' || c in addr || c == '>';
      if c in verb {
        var i :| 0 <= i < |verb| && verb[i] == c;
      }
    }
  }

  lemma EhloText(host: string)
    requires |host| == 64 && forall i :: 0 <= i < |host| ==> IsHexDigit(host[i])
    ensures var s := "EHLO " + host + "\r\n"; IsLineText(s) && s[..4] == "EHLO"
  {
    var s := "EHLO " + host + "\r\n";
    forall i | 0 <= i < |s| - 1
      ensures s[i] != '\n' && s[i] as int < 128
    {
      if 5 <= i < 69 {
        assert s[i] == host[i - 5];
      }
    }
  }

  /** The greeting command is a line and is answered 250. */
  lemma EhloServed(o: Order, local: Key, peer: Key, fromOk: bool, rcptOk: bool)
    requires Conformant(o, local, peer)
    ensures IsLine(EhloLine(o))
    ensures ServeCommand(EhloLine(o), fromOk, rcptOk, local, peer) == (Helo, Command(fromOk, rcptOk))
  {
    HexAlphabet(peer);
    EhloText(o.hostname);
    var s := "EHLO " + o.hostname + "\r\n";
    BytesOfLineText(s);
    StartsWithVerb(s, "EHLO");
    LineReadWhole(EhloLine(o));
  }

  /** The sender's own address is accepted as the sender. */
  lemma MailServed(o: Order, local: Key, peer: Key, fromOk: bool, rcptOk: bool)
    requires Conformant(o, local, peer)
    ensures IsLine(PathCommand("MAIL FROM:", o.from))
    ensures ServeCommand(PathCommand("MAIL FROM:", o.from), fromOk, rcptOk, local, peer) == (Okay, Command(true, rcptOk))
  {
    var s := PathLine("MAIL FROM:", CreateAddress(peer));
    PathLineText("MAIL FROM:", peer);
    BytesOfLineText(s);
    StartsWithVerb(s, "MAIL FROM:");
    DifferentVerb(s, "HELO");
    DifferentVerb(s, "EHLO");
    LineReadWhole(WireBytes(s));
    PathKeyOfAddress("MAIL FROM:", peer);
  }

  /** The receiver's own address is accepted as the recipient. */
  lemma RcptServed(o: Order, i: nat, local: Key, peer: Key, fromOk: bool, rcptOk: bool)
    requires Conformant(o, local, peer) && i < |o.rcpts|
    ensures IsLine(PathCommand("RCPT TO:", o.rcpts[i]))
    ensures ServeCommand(PathCommand("RCPT TO:", o.rcpts[i]), fromOk, rcptOk, local, peer) == (Okay, Command(fromOk, true))
  {
    var s := PathLine("RCPT TO:", CreateAddress(local));
    PathLineText("RCPT TO:", local);
    BytesOfLineText(s);
    StartsWithVerb(s, "RCPT TO:");
    DifferentVerb(s, "HELO");
    DifferentVerb(s, "EHLO");
    DifferentVerb(s, "MAIL FROM:");
    LineReadWhole(WireBytes(s));
    PathKeyOfAddress("RCPT TO:", local);
  }

  lemma DataServed(local: Key, peer: Key)
    ensures IsLine(WireBytes("DATA\r\n"))
    ensures ServeCommand(WireBytes("DATA\r\n"), true, true, local, peer) == (GoAhead, Body([]))
  {
    var s := "DATA\r\n";
    BytesOfLineText(s);
    assert s[..4] == "DATA";
    StartsWithVerb(s, "DATA");
    DifferentVerb(s, "HELO");
    DifferentVerb(s, "EHLO");
    DifferentVerb(s, "MAIL FROM:");
    DifferentVerb(s, "RCPT TO:");
    LineReadWhole(WireBytes(s));
  }

  // ---------------------------------------------------------------- replies

  /** The class of a reply: its first character. */
  function ClassOf(r: ReplyText): byte {
    match r
    case Greeting => 50
    case Helo => 50
    case Okay => 50
    case Bye => 50
    case GoAhead => 51
    case TryAgain => 52
    case _ => 53
  }

  predicate ReplyWording(text: string, first: byte) {
    Printable(text) && 3 < |text| < 1000 && text[0] as int == first && text[3] == ' '
  }

  lemma TryAgainPieces()
    ensures Printable("451 4.3.0 ") && Printable("mail not stored") && Printable(", try again later")
  {
  }

  lemma TryAgainWording()
    ensures ReplyWording(Wording(TryAgain), 52)
  {
    TryAgainPieces();
    PrintableConcat("mail not stored", ", try again later");
    PrintableConcat("451 4.3.0 ", "mail not stored" + ", try again later");
    TryAgainWhole();
  }

  lemma TryAgainWhole()
    ensures Wording(TryAgain) == "451 4.3.0 " + ("mail not stored" + ", try again later")
  {
  }

  lemma PrintableConcat(head: string, tail: string)
    requires Printable(head) && Printable(tail)
    ensures Printable(head + tail)
  {
  }

  lemma TooBigWording()
    ensures ReplyWording(Wording(TooBig), 53)
  {
  }

  lemma RefusalWording(r: ReplyText)
    requires r in {BadSequence, NoUser, BadSender}
    ensures ReplyWording(Wording(r), 53)
  {
    match r {
      case BadSequence =>
      case NoUser =>
      case BadSender =>
    }
  }

  lemma GreetingWording()
    ensures ReplyWording(Wording(Greeting), 50)
  {
  }

  lemma AcceptanceWording(r: ReplyText)
    requires ClassOf(r) <= 51
    ensures ReplyWording(Wording(r), ClassOf(r))
  {
    match r {
      case Greeting => GreetingWording();
      case Helo =>
      case Okay =>
      case GoAhead =>
      case Bye =>
    }
  }

  lemma ReplyIsLine(r: ReplyText)
    requires r != Silence
    ensures var b := ReplyBytes(r);
            IsLine(b) && |b| > 3 && b[0] == ClassOf(r) && b[3] == ' ' as int
  {
    match r {
      case TryAgain => TryAgainWording();
      case TooBig => TooBigWording();
      case BadSequence | NoUser | BadSender => RefusalWording(r);
      case _ => AcceptanceWording(r);
    }
    LineOfWording(r, Wording(r), ClassOf(r));
  }

  lemma LineOfWording(r: ReplyText, text: string, first: byte)
    requires r != Silence && text == Wording(r) && ReplyWording(text, first)
    ensures var b := ReplyBytes(r);
            IsLine(b) && |b| > 3 && b[0] == first && b[3] == ' ' as int
  {
    LineOfText(text);
    BytesOfLineText(text + "\r\n");
  }

  /** A whole reply of the wanted class passes; any other is refused. */
  lemma ReplyRead(r: ReplyText, code: byte, seen: nat)
    requires r != Silence
    ensures var b := ReplyBytes(r);
            && FirstLine(b, MAX_LINE_BYTES) == b && b[|b|..] == [] && EndsLine(b)
            && ReplyLine(b, code, seen) == if ClassOf(r) == code then Passed else Refused
  {
    ReplyIsLine(r);
    LineReadWhole(ReplyBytes(r));
  }

  /** Bytes with at most one line among them, the last byte included. */
  predicate AtMostOneLine(b: bytes) {
    LineLength(b) == |b|
  }

  lemma CutOfLine(b: bytes, n: nat)
    requires AtMostOneLine(b) && n <= |b|
    ensures AtMostOneLine(b[..n])
  {
    LineShape(b);
    if n > 0 {
      NoEndYet(b[..n], n - 1);
    }
  }

  /** What is left when the one line has been read, or found too long. */
  lemma OneLineRead(b: bytes, cap: nat)
    requires AtMostOneLine(b)
    ensures var line := FirstLine(b, cap); b[|line|..] == [] || LineTooLong(line, cap)
  {
    LineShape(b);
    var line := FirstLine(b, cap);
    if |line| < |b| {
      assert line == b[..cap];
    }
  }
}
