// What a server needs to have read before it yields a mail, whatever its client
// is and whatever it sends.
module OverlayEnvelope {
  import opened Bytes
  import opened Wrappers
  import opened Address
  import opened Lines
  import opened OverlayCodec
  import opened OverlayPrograms
  import Dialog = OverlayDialog
  import Refinement = OverlayRefinement

  /** The input begins with these lines, read one after another, and goes on with `rest`. */
  ghost predicate ReadAs(input: bytes, lines: seq<bytes>, rest: bytes) {
    if lines == [] then rest == input
    else
      var line := FirstLine(input, MAX_LINE_BYTES);
      && lines[0] == line && line != [] && !LineTooLong(line, MAX_LINE_BYTES)
      && ReadAs(input[|line|..], lines[1..], rest)
  }

  predicate IsHello(line: bytes) {
    HasVerb(line, "HELO") || HasVerb(line, "EHLO")
  }

  predicate IsSender(line: bytes, peer: Key) {
    HasVerb(line, "MAIL FROM:") && PathKey(line, "MAIL FROM:") == Some(peer)
  }

  predicate IsRecipient(line: bytes, local: Key) {
    HasVerb(line, "RCPT TO:") && PathKey(line, "RCPT TO:") == Some(local)
  }

  /** A line the server goes on after: no foreign sender, no DATA, no QUIT. */
  predicate IsHarmless(line: bytes, peer: Key) {
    && (HasVerb(line, "MAIL FROM:") ==> IsSender(line, peer))
    && !HasVerb(line, "DATA") && !HasVerb(line, "QUIT")
  }

  /** The lines before the first DATA: each sender in them is the peer, who is named, and so is the recipient, unless already known. */
  ghost predicate IsEnvelope(lines: seq<bytes>, fromOk: bool, rcptOk: bool, local: Key, peer: Key) {
    && (forall line :: line in lines ==> IsHarmless(line, peer))
    && (fromOk || exists line :: line in lines && IsSender(line, peer))
    && (rcptOk || exists line :: line in lines && IsRecipient(line, local))
  }

  /** The verbs differ in their first letters, so a line has at most one of them. */
  lemma OneVerb(line: bytes)
    ensures IsHello(line) ==> !HasVerb(line, "MAIL FROM:") && !HasVerb(line, "RCPT TO:") && !HasVerb(line, "DATA") && !HasVerb(line, "QUIT")
    ensures HasVerb(line, "MAIL FROM:") ==> !HasVerb(line, "RCPT TO:") && !HasVerb(line, "DATA") && !HasVerb(line, "QUIT")
    ensures HasVerb(line, "RCPT TO:") ==> !HasVerb(line, "DATA") && !HasVerb(line, "QUIT")
    ensures HasVerb(line, "DATA") ==> !HasVerb(line, "QUIT")
  {
    var first := if line == [] then 0 else UpperByte(line[0]);
    assert HasVerb(line, "HELO") ==> first == 'H' as int;
    assert HasVerb(line, "EHLO") ==> first == 'E' as int;
    assert HasVerb(line, "MAIL FROM:") ==> first == 'M' as int;
    assert HasVerb(line, "RCPT TO:") ==> first == 'R' as int;
    assert HasVerb(line, "DATA") ==> first == 'D' as int;
    assert HasVerb(line, "QUIT") ==> first == 'Q' as int;
  }

  /** What one command line does to the two flags, or how it ends the loop. */
  lemma LineMeans(line: bytes, fromOk: bool, rcptOk: bool, local: Key, peer: Key)
    ensures var phase := ServeCommand(line, fromOk, rcptOk, local, peer).1;
            var readable := line != [] && !LineTooLong(line, MAX_LINE_BYTES);
            && (phase.Command? <==> readable && IsHarmless(line, peer))
            && (phase.Command? ==> phase.fromOk == (fromOk || IsSender(line, peer)) && phase.rcptOk == (rcptOk || IsRecipient(line, local)))
            && (phase.Body? <==> readable && HasVerb(line, "DATA") && fromOk && rcptOk)
            && (phase.Body? ==> phase == Body([]))
            && (phase.Command? || phase.Body? || phase.Failed?)
            && (HasVerb(line, "DATA") ==> !IsSender(line, peer) && !IsRecipient(line, local))
  {
    OneVerb(line);
  }

  lemma EnvelopeTail(lines: seq<bytes>, fromOk: bool, rcptOk: bool, local: Key, peer: Key)
    requires lines != []
    ensures IsEnvelope(lines, fromOk, rcptOk, local, peer) <==>
            && IsHarmless(lines[0], peer)
            && IsEnvelope(lines[1..], fromOk || IsSender(lines[0], peer), rcptOk || IsRecipient(lines[0], local), local, peer)
  {
    assert forall line :: line in lines <==> line == lines[0] || line in lines[1..];
  }

  /** A DATA command and, after it, a body that reads as this mail. */
  ghost predicate PresentsBody(input: bytes, mail: bytes) {
    var line := FirstLine(input, MAX_LINE_BYTES);
    && line != [] && !LineTooLong(line, MAX_LINE_BYTES) && HasVerb(line, "DATA")
    && ReadBody(input[|line|..], []).0 == Ok(mail)
  }

  /** The input is an envelope, DATA and a body that reads as this mail. */
  ghost predicate Presents(input: bytes, lines: seq<bytes>, rest: bytes, fromOk: bool, rcptOk: bool, local: Key, peer: Key, mail: bytes) {
    ReadAs(input, lines, rest) && IsEnvelope(lines, fromOk, rcptOk, local, peer) && PresentsBody(rest, mail)
  }

  /** After a harmless line the run goes on with what the line has said. */
  lemma HarmlessGoesOn(input: bytes, line: bytes, fromOk: bool, rcptOk: bool, local: Key, peer: Key)
    requires line == FirstLine(input, MAX_LINE_BYTES) && line != [] && !LineTooLong(line, MAX_LINE_BYTES) && IsHarmless(line, peer)
    ensures Served(input, fromOk, rcptOk, local, peer).1
         == Served(input[|line|..], fromOk || IsSender(line, peer), rcptOk || IsRecipient(line, local), local, peer).1
  {
    LineMeans(line, fromOk, rcptOk, local, peer);
    ServedBegins(input, fromOk, rcptOk, local, peer);
  }

  lemma BodyYields(input: bytes, local: Key, peer: Key, mail: bytes)
    requires PresentsBody(input, mail)
    ensures Served(input, true, true, local, peer).1 == Ok((peer, mail))
  {
    LineMeans(FirstLine(input, MAX_LINE_BYTES), true, true, local, peer);
    ServedBegins(input, true, true, local, peer);
  }

  /** The first line of an envelope, read and answered. */
  lemma OneLineOn(input: bytes, line: bytes, lines: seq<bytes>, rest: bytes, fromOk: bool, rcptOk: bool, local: Key, peer: Key)
    requires lines != [] && line == lines[0] && ReadAs(input, lines, rest) && IsHarmless(line, peer)
    ensures |line| <= |input| && ReadAs(input[|line|..], lines[1..], rest)
    ensures Served(input, fromOk, rcptOk, local, peer).1
         == Served(input[|line|..], fromOk || IsSender(line, peer), rcptOk || IsRecipient(line, local), local, peer).1
  {
    HarmlessGoesOn(input, line, fromOk, rcptOk, local, peer);
  }

  /** Through the envelope the run comes to what follows it, with both parties known. */
  lemma {:induction false} EnvelopeServed(input: bytes, lines: seq<bytes>, rest: bytes, fromOk: bool, rcptOk: bool, local: Key, peer: Key)
    requires ReadAs(input, lines, rest) && IsEnvelope(lines, fromOk, rcptOk, local, peer)
    ensures Served(input, fromOk, rcptOk, local, peer).1 == Served(rest, true, true, local, peer).1
    decreases |lines|
  {
    if lines != [] {
      var line := lines[0];
      EnvelopeTail(lines, fromOk, rcptOk, local, peer);
      OneLineOn(input, line, lines, rest, fromOk, rcptOk, local, peer);
      EnvelopeServed(input[|line|..], lines[1..], rest, fromOk || IsSender(line, peer), rcptOk || IsRecipient(line, local), local, peer);
    }
  }

  lemma EnvelopeYields(input: bytes, lines: seq<bytes>, rest: bytes, local: Key, peer: Key, mail: bytes)
    requires Presents(input, lines, rest, false, false, local, peer, mail)
    ensures Served(input, false, false, local, peer).1 == Ok((peer, mail))
  {
    EnvelopeServed(input, lines, rest, false, false, local, peer);
    BodyYields(rest, local, peer, mail);
  }

  lemma {:induction false} YieldHasEnvelope(input: bytes, fromOk: bool, rcptOk: bool, local: Key, peer: Key, sender: Key, mail: bytes)
    returns (lines: seq<bytes>, rest: bytes)
    requires Served(input, fromOk, rcptOk, local, peer).1 == Ok((sender, mail))
    ensures sender == peer && Presents(input, lines, rest, fromOk, rcptOk, local, peer, mail)
    decreases |input|
  {
    var line := FirstLine(input, MAX_LINE_BYTES);
    LineMeans(line, fromOk, rcptOk, local, peer);
    ServedBegins(input, fromOk, rcptOk, local, peer);
    var phase := ServeCommand(line, fromOk, rcptOk, local, peer).1;
    if phase.Body? {
      lines, rest := [], input;
    } else {
      var more;
      more, rest := YieldHasEnvelope(input[|line|..], phase.fromOk, phase.rcptOk, local, peer, sender, mail);
      lines := [line] + more;
      assert lines[1..] == more;
      EnvelopeTail(lines, fromOk, rcptOk, local, peer);
    }
  }

  /**
   * Whatever the client sends: the server yields a mail iff it has read, one
   * after another, command lines with a MAIL FROM among them, each naming the key
   * the stream is authenticated for, and with a RCPT TO naming the server itself,
   * no QUIT and no line that is too long, then DATA, and then a body that reads
   * as that mail. The sender it reports is the peer.
   */
  lemma YieldsExactly(input: bytes, local: Key, peer: Key, sender: Key, mail: bytes)
    ensures Served(input, false, false, local, peer).1 == Ok((sender, mail)) <==>
            sender == peer && exists lines, rest :: Presents(input, lines, rest, false, false, local, peer, mail)
  {
    if Served(input, false, false, local, peer).1 == Ok((sender, mail)) {
      var lines, rest := YieldHasEnvelope(input, false, false, local, peer, sender, mail);
    }
    if sender == peer && exists lines, rest :: Presents(input, lines, rest, false, false, local, peer, mail) {
      var lines, rest :| Presents(input, lines, rest, false, false, local, peer, mail);
      EnvelopeYields(input, lines, rest, local, peer, mail);
    }
  }

  /** The same of the server's steps in a dialog, over whatever bytes have come from the other side before the stream ends. */
  lemma StepsYieldExactly(d: Dialog.Dialog, local: Key, peer: Key, mail: bytes)
    requires d.server == Command(false, false)
    ensures Refinement.ServerDrained(d, local, peer).server == Yielded(mail) <==>
            exists lines, rest :: Presents(d.toServer, lines, rest, false, false, local, peer, mail)
  {
    Refinement.ServerRefinesProgram(d, local, peer);
    YieldsExactly(d.toServer, local, peer, peer, mail);
  }
}
