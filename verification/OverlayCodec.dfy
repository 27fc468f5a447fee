// quic/smtp_overlay.rs: bounded line reading and the dot-stuffed body
// (section 4.5.2 of RFC 5321).
module OverlayCodec {
  import opened Bytes
  import opened Lines
  import opened Wrappers

  const MAX_DATA_BYTES: nat := 33 * 1024 * 1024
  const MAX_LINE_BYTES: nat := 64 * 1024

  const DOT: byte := 46

  const CRLF: bytes := [CR, LF]
  const TERMINATOR: bytes := [DOT, CR, LF]

  datatype OverlayError = Protocol | SpoofedSender | TooLarge

  // ---------------------------------------------------------------- lines

  /** The first line, cut at `cap` bytes. */
  function FirstLine(s: bytes, cap: nat): bytes {
    if LineLength(s) <= cap then s[..LineLength(s)] else s[..cap]
  }

  predicate LineTooLong(line: bytes, cap: nat) {
    |line| >= cap && !EndsLine(line)
  }

  // ---------------------------------------------------------------- stuffing

  /** A line with its leading dot doubled. */
  function Escaped(line: bytes): bytes {
    if line != [] && line[0] == DOT then [DOT] + line else line
  }

  /** One body line as written: escaped, a missing line end added. */
  function StuffedLine(line: bytes): bytes {
    if EndsLine(line) then Escaped(line) else Escaped(line) + CRLF
  }

  /** The body as written to the stream. */
  function Stuffed(body: bytes): bytes {
    if body == [] then []
    else StuffedLine(body[..LineLength(body)]) + Stuffed(body[LineLength(body)..])
  }

  /** The body a receiver ends up with: a last line without LF gains CRLF. */
  function Normal(body: bytes): bytes {
    if body == [] || EndsLine(body) then body else body + CRLF
  }

  /** A leading dot is written twice. */
  method PutLine(w: bytes, line: bytes) returns (r: bytes)
    requires line != []
    ensures r == w + Escaped(line)
  {
    r := w;
    if line[0] == DOT {
      r := r + [DOT];
      assert w + ([DOT] + line) == (w + [DOT]) + line;
    }
    r := r + line;
  }

  /** `write_dot_stuffed`: scan for LF, write line by line. */
  method WriteDotStuffed(body: bytes) returns (w: bytes)
    ensures w == Stuffed(body)
  {
    w := [];
    var start := 0;
    ghost var done, rest: bytes := [], body;
    NothingScanned(body);
    for i := 0 to |body|
      invariant Scanned(body, start, i, w, done, rest)
    {
      if body[i] == LF {
        w, done, rest := PutWholeLine(body, start, i, w, done, rest);
        start := i + 1;
      } else {
        ScanGoesOn(body, start, i, w, done, rest);
      }
    }
    w := PutLastLine(body, start, w, done, rest);
  }

  /** The lines before `start` are written; the line that begins there has not ended before `i`. */
  ghost predicate Scanned(body: bytes, start: nat, i: nat, w: bytes, done: bytes, rest: bytes) {
    start <= i <= |body| && body == done + rest && |done| == start && InLine(rest, i - start) && Written(body, rest, w)
  }

  lemma NothingScanned(body: bytes)
    ensures Scanned(body, 0, 0, [], [], body)
  {
    assert body == [] + body && [] + Stuffed(body) == Stuffed(body);
  }

  lemma ScanGoesOn(body: bytes, start: nat, i: nat, w: bytes, done: bytes, rest: bytes)
    requires i < |body| && Scanned(body, start, i, w, done, rest) && body[i] != LF
    ensures Scanned(body, start, i + 1, w, done, rest)
  {
    LineGoesOn(rest, i - start);
  }

  method PutWholeLine(body: bytes, start: nat, i: nat, w: bytes, ghost done: bytes, ghost rest: bytes)
    returns (r: bytes, ghost more: bytes, ghost left: bytes)
    requires i < |body| && Scanned(body, start, i, w, done, rest) && body[i] == LF
    ensures Scanned(body, i + 1, i + 1, r, more, left)
  {
    ghost var line;
    line, left := LineEnds(body, done, rest, i, w);
    more := done + line;
    r := PutLine(w, body[start..i + 1]);
  }

  method PutLastLine(body: bytes, start: nat, w: bytes, ghost done: bytes, ghost rest: bytes) returns (r: bytes)
    requires Scanned(body, start, |body|, w, done, rest)
    ensures r == Stuffed(body)
  {
    LastLineWritten(body, done, rest, w);
    r := w;
    if start < |body| {
      r := PutLine(r, body[start..]);
      r := r + CRLF;
    }
  }

  /** What is written so far, followed by the rest once stuffed, is all of it. */
  ghost predicate Written(body: bytes, rest: bytes, w: bytes) {
    w + Stuffed(rest) == Stuffed(body)
  }

  /** The first line does not end within the first `n` bytes. */
  ghost predicate InLine(rest: bytes, n: nat) {
    n <= |rest| && n <= LineLength(rest) && (n > 0 ==> rest[n - 1] != LF)
  }

  lemma LineGoesOn(rest: bytes, n: nat)
    requires n < |rest| && InLine(rest, n)
    ensures if rest[n] == LF then LineLength(rest) == n + 1 else InLine(rest, n + 1)
  {
    LineShape(rest);
  }

  lemma CutAt(s: bytes, n: nat) returns (front: bytes, back: bytes)
    requires n <= |s|
    ensures s == front + back && |front| == n && front == s[..n] && back == s[n..]
  {
    front, back := s[..n], s[n..];
  }

  /** The first line of the rest, and what follows it. */
  lemma FirstLineOf(rest: bytes) returns (line: bytes, left: bytes)
    requires rest != []
    ensures rest == line + left && |line| == LineLength(rest) && Stuffed(rest) == StuffedLine(line) + Stuffed(left)
  {
    line, left := CutAt(rest, LineLength(rest));
    StuffedStep(rest);
  }

  lemma LineEnds(body: bytes, done: bytes, rest: bytes, i: nat, w: bytes) returns (line: bytes, left: bytes)
    requires body == done + rest && |done| <= i < |body| && body[i] == LF
    requires InLine(rest, i - |done|) && Written(body, rest, w)
    ensures line == body[|done|..i + 1] && body == done + line + left && |line| == i + 1 - |done|
    ensures InLine(left, 0) && Written(body, left, w + Escaped(line))
  {
    LineGoesOn(rest, i - |done|);
    line, left := FirstLineOf(rest);
    Middle(done, line, left);
    Reassociate(done, line, left);
    Reassociate(w, Escaped(line), Stuffed(left));
  }

  lemma Middle(a: bytes, b: bytes, c: bytes)
    ensures (a + (b + c))[|a|..|a| + |b|] == b
  {
  }

  lemma LastLineWritten(body: bytes, done: bytes, rest: bytes, w: bytes)
    requires body == done + rest && InLine(rest, |rest|) && Written(body, rest, w)
    ensures Stuffed(body) == if rest == [] then w else w + Escaped(body[|done|..]) + CRLF
  {
    if rest != [] {
      OnlyLine(rest);
      Reassociate(w, Escaped(rest), CRLF);
    }
  }

  lemma OnlyLine(s: bytes)
    requires s != [] && LineLength(s) == |s|
    ensures Stuffed(s) == StuffedLine(s)
  {
    StuffedStep(s);
    assert s[..|s|] == s && s[|s|..] == [];
    assert StuffedLine(s) + [] == StuffedLine(s);
  }

  // ---------------------------------------------------------------- reading the body

  predicate IsTerminator(line: bytes) {
    line == TERMINATOR || line == [DOT, LF]
  }

  /** One leading dot of a doubled one is removed. */
  function Unstuffed(line: bytes): bytes {
    if |line| >= 2 && line[0] == DOT && line[1] == DOT then line[1..] else line
  }

  /** What may still be read into a line after `out` bytes of body. */
  function BodyCap(out: nat): nat {
    (if out < MAX_DATA_BYTES then MAX_DATA_BYTES - out else 0) + MAX_LINE_BYTES
  }

  datatype BodyStep = More(out: bytes) | Done(result: Result<bytes, OverlayError>)

  /** One turn of the body loop on a line already read. */
  function BodyLine(line: bytes, out: bytes): BodyStep {
    if LineTooLong(line, BodyCap(|out|)) then Done(Err(TooLarge))
    else if line == [] then Done(Err(Protocol))
    else if IsTerminator(line) then Done(Ok(out))
    else if |out| + |Unstuffed(line)| > MAX_DATA_BYTES then Done(Err(TooLarge))
    else More(out + Unstuffed(line))
  }

  /** The body loop over a whole input: the outcome and the input left unread. */
  function ReadBody(input: bytes, out: bytes): (Result<bytes, OverlayError>, bytes)
    decreases |input|
  {
    var line := FirstLine(input, BodyCap(|out|));
    var rest := input[|line|..];
    match BodyLine(line, out)
    case Done(result) => (result, rest)
    case More(more) => ReadBody(rest, more)
  }

  /** A buffered reader over what is left of a stream that then ends. */
  class ByteReader {
    var input: bytes

    constructor (input: bytes)
      ensures this.input == input
    {
      this.input := input;
    }

    /** `read_line_capped`: up to LF, never more than `cap` bytes; a full line without LF is an error. */
    method ReadLineCapped(cap: nat) returns (r: Result<bytes, OverlayError>, ghost consumed: bytes)
      modifies this
      ensures consumed == FirstLine(old(input), cap)
      ensures input == old(input)[|consumed|..]
      ensures r == if LineTooLong(consumed, cap) then Err(Protocol) else Ok(consumed)
    {
      var out: bytes := [];
      var ended := false;
      while |out| < cap && input != [] && !ended
        invariant |out| <= |old(input)| && out == old(input)[..|out|] && input == old(input)[|out|..] && |out| <= cap
        invariant ended <==> EndsLine(out)
        invariant forall i :: 0 <= i < |out| - 1 ==> out[i] != LF
        decreases |input|
      {
        var b := input[0];
        out := out + [b];
        input := input[1..];
        ended := b == LF;
      }
      FirstLineIs(old(input), out, cap);
      consumed := out;
      if |out| >= cap && !ended {
        return Err(Protocol), consumed;
      }
      return Ok(out), consumed;
    }

    /** `read_data`. At no point are more than MAX_DATA_BYTES + MAX_LINE_BYTES bytes buffered. */
    method ReadData() returns (r: Result<bytes, OverlayError>, ghost peak: nat)
      modifies this
      ensures (r, input) == ReadBody(old(input), [])
      ensures r.Ok? ==> |r.value| <= MAX_DATA_BYTES
      ensures peak <= MAX_DATA_BYTES + MAX_LINE_BYTES
    {
      var out: bytes := [];
      peak := 0;
      while true
        invariant |out| <= MAX_DATA_BYTES && peak <= MAX_DATA_BYTES + MAX_LINE_BYTES
        invariant ReadBody(input, out) == ReadBody(old(input), [])
        decreases |input|
      {
        var cap := (if |out| < MAX_DATA_BYTES then MAX_DATA_BYTES - |out| else 0) + MAX_LINE_BYTES;
        ghost var before := input;
        var read, consumed := ReadLineCapped(cap);
        peak := if |out| + |consumed| > peak then |out| + |consumed| else peak;
        BodyTurnIs(before, out, consumed, input);
        if read.Err? {
          return Err(TooLarge), peak;
        }
        var turn := TakeLine(read.value, out);
        if turn.Done? {
          return turn.result, peak;
        }
        out := turn.out;
      }
    }
  }

  /** One turn of the body loop, on a whole input. */
  lemma BodyTurnIs(input: bytes, out: bytes, line: bytes, rest: bytes)
    requires line == FirstLine(input, BodyCap(|out|)) && rest == input[|line|..]
    ensures var turn := BodyLine(line, out);
            && (turn.Done? ==> ReadBody(input, out) == (turn.result, rest))
            && (turn.More? ==> ReadBody(input, out) == ReadBody(rest, turn.out) && |rest| < |input|)
  {
  }

  /** The part of the loop that acts on a line that is not too long. */
  method TakeLine(line: bytes, out: bytes) returns (turn: BodyStep)
    requires !LineTooLong(line, BodyCap(|out|))
    ensures turn == BodyLine(line, out)
    ensures turn.More? ==> |turn.out| <= MAX_DATA_BYTES
    ensures turn.Done? && turn.result.Ok? ==> turn.result.value == out
  {
    if line == [] {
      return Done(Err(Protocol));
    }
    if line == TERMINATOR || line == [DOT, LF] {
      return Done(Ok(out));
    }
    var stripped := if |line| >= 2 && line[..2] == [DOT, DOT] then line[1..] else line;
    assert stripped == Unstuffed(line);
    if |out| + |stripped| > MAX_DATA_BYTES {
      return Done(Err(TooLarge));
    }
    return More(out + stripped);
  }

  lemma FirstLineIs(s: bytes, out: bytes, cap: nat)
    requires |out| <= |s| && out == s[..|out|] && |out| <= cap
    requires forall i :: 0 <= i < |out| - 1 ==> out[i] != LF
    requires |out| == cap || |out| == |s| || EndsLine(out)
    ensures out == FirstLine(s, cap)
  {
    if EndsLine(out) {
      LineOfConcat(out, s[|out|..]);
      assert s == out + s[|out|..];
    } else {
      assert forall i :: 0 <= i < |out| ==> s[i] == out[i];
      NoEndYet(s, |out|);
    }
  }

  /** A line goes on as far as there is no LF. */
  lemma {:induction false} NoEndYet(s: bytes, n: nat)
    requires n <= |s| && forall i :: 0 <= i < n ==> s[i] != LF
    ensures LineLength(s) >= n && (n < |s| ==> LineLength(s) > n)
  {
    if n > 0 {
      NoEndYet(s[1..], n - 1);
    }
  }

  // ---------------------------------------------------------------- round trip

  /** One stuffed line is read back as the line it came from, or found too large. */
  lemma StuffedLineReadsBack(line: bytes, rest: bytes, out: bytes)
    requires line != [] && forall i :: 0 <= i < |line| - 1 ==> line[i] != LF
    requires |out| <= MAX_DATA_BYTES
    ensures var whole := Normal(line);
            var read := ReadBody(StuffedLine(line) + rest, out);
            if |out| + |whole| <= MAX_DATA_BYTES then read == ReadBody(rest, out + whole) else read.0 == Err(TooLarge)
  {
    var w := StuffedLine(line);
    StuffedLineShape(line);
    LineOfConcat(w, rest);
    var input := w + rest;
    var cap := BodyCap(|out|);
    if |w| <= cap {
      assert FirstLine(input, cap) == w;
      assert input[|w|..] == rest;
    } else {
      assert FirstLine(input, cap) == w[..cap];
      assert !EndsLine(w[..cap]);
    }
  }

  lemma FirstLineShape(body: bytes)
    requires body != []
    ensures var line, more := body[..LineLength(body)], body[LineLength(body)..];
            && line != [] && body == line + more
            && (forall i :: 0 <= i < |line| - 1 ==> line[i] != LF)
            && (more != [] ==> EndsLine(line))
  {
    LineShape(body);
  }

  lemma NormalSplit(line: bytes, more: bytes)
    requires line != [] && (more != [] ==> EndsLine(line))
    ensures Normal(line + more) == Normal(line) + Normal(more)
  {
    if more == [] {
      assert line + more == line;
      assert Normal(line) + [] == Normal(line);
    } else {
      assert EndsLine(line + more) == EndsLine(more);
      assert (line + more) + CRLF == line + (more + CRLF);
    }
  }

  lemma StuffedStep(body: bytes)
    requires body != []
    ensures Stuffed(body) == StuffedLine(body[..LineLength(body)]) + Stuffed(body[LineLength(body)..])
  {
  }

  /** A body is its first line and the rest; so are its stuffed and its normal form. */
  lemma BodySplit(body: bytes)
    requires body != []
    ensures var line, more := body[..LineLength(body)], body[LineLength(body)..];
            && line != [] && (forall i :: 0 <= i < |line| - 1 ==> line[i] != LF)
            && Stuffed(body) == StuffedLine(line) + Stuffed(more)
            && Normal(body) == Normal(line) + Normal(more)
  {
    FirstLineShape(body);
    StuffedStep(body);
    NormalSplit(body[..LineLength(body)], body[LineLength(body)..]);
  }

  lemma {:induction false} StuffedReadsBack(body: bytes, tail: bytes, out: bytes)
    requires |out| <= MAX_DATA_BYTES
    ensures var read := ReadBody(Stuffed(body) + TERMINATOR + tail, out);
            if |out| + |Normal(body)| <= MAX_DATA_BYTES
            then read == (Ok(out + Normal(body)), tail) else read.0 == Err(TooLarge)
    decreases |body|
  {
    var input := Stuffed(body) + TERMINATOR + tail;
    if body == [] {
      assert input == TERMINATOR + tail;
      TerminatorEnds(tail, out);
      assert out + Normal(body) == out;
    } else {
      var line, more := body[..LineLength(body)], body[LineLength(body)..];
      BodySplit(body);
      Regroup(StuffedLine(line), Stuffed(more), TERMINATOR, tail);
      StuffedLineReadsBack(line, Stuffed(more) + TERMINATOR + tail, out);
      if |out| + |Normal(line)| <= MAX_DATA_BYTES {
        StuffedReadsBack(more, tail, out + Normal(line));
        Regroup(out, Normal(line), Normal(more), []);
      }
    }
  }

  lemma Regroup(a: bytes, b: bytes, c: bytes, d: bytes)
    ensures a + b + c + d == a + (b + c + d)
    ensures a + b + c == a + (b + c)
  {
  }

  lemma TerminatorEnds(tail: bytes, out: bytes)
    ensures ReadBody(TERMINATOR + tail, out) == (Ok(out), tail)
  {
    var input := TERMINATOR + tail;
    LineOfConcat(TERMINATOR, tail);
    assert FirstLine(input, BodyCap(|out|)) == TERMINATOR;
    assert input[3..] == tail;
  }

  /**
   * Round trip: what the writer stuffs and terminates, the reader returns in
   * normal form, leaving exactly what follows, if it fits; otherwise TooLarge.
   */
  lemma DotStuffingRoundTrip(body: bytes, tail: bytes)
    ensures var read := ReadBody(Stuffed(body) + TERMINATOR + tail, []);
            && (|Normal(body)| <= MAX_DATA_BYTES ==> read == (Ok(Normal(body)), tail))
            && (|Normal(body)| > MAX_DATA_BYTES ==> read.0 == Err(TooLarge))
  {
    StuffedReadsBack(body, tail, []);
    assert [] + Normal(body) == Normal(body);
  }

  // ---------------------------------------------------------------- truncation

  lemma EscapedShape(line: bytes)
    requires line != [] && forall i :: 0 <= i < |line| - 1 ==> line[i] != LF
    ensures var e := Escaped(line);
            && e != [] && e[|e| - 1] == line[|line| - 1] && (forall i :: 0 <= i < |e| - 1 ==> e[i] != LF)
            && (if line[0] == DOT then |e| >= 2 && e[0] == DOT && e[1] == DOT else e[0] == line[0])
  {
  }

  lemma EndedLineShape(line: bytes)
    requires EndsLine(line) && forall i :: 0 <= i < |line| - 1 ==> line[i] != LF
    ensures var w := Escaped(line);
            && EndsLine(w) && (forall i :: 0 <= i < |w| - 1 ==> w[i] != LF)
            && Unstuffed(w) == line && !IsTerminator(w)
  {
    EscapedShape(line);
  }

  lemma OpenLineShape(line: bytes)
    requires line != [] && !EndsLine(line) && forall i :: 0 <= i < |line| - 1 ==> line[i] != LF
    ensures var w := Escaped(line) + CRLF;
            && EndsLine(w) && (forall i :: 0 <= i < |w| - 1 ==> w[i] != LF)
            && Unstuffed(w) == line + CRLF && !IsTerminator(w)
  {
    EscapedShape(line);
  }

  lemma StuffedLineShape(line: bytes)
    requires line != [] && forall i :: 0 <= i < |line| - 1 ==> line[i] != LF
    ensures var w := StuffedLine(line);
            && EndsLine(w) && (forall i :: 0 <= i < |w| - 1 ==> w[i] != LF)
            && Unstuffed(w) == Normal(line) && !IsTerminator(w)
  {
    if EndsLine(line) {
      EndedLineShape(line);
    } else {
      OpenLineShape(line);
    }
  }

  /** What a stream has yielded, a longer stream yields too, leaving the rest unread. */
  lemma {:induction false} ReadBodyExtends(input: bytes, tail: bytes, out: bytes)
    requires ReadBody(input, out).0.Ok?
    ensures ReadBody(input + tail, out) == (ReadBody(input, out).0, ReadBody(input, out).1 + tail)
    decreases |input|
  {
    var line := FirstLine(input, BodyCap(|out|));
    YieldingLineEnds(input, out);
    SameFirstLine(input, tail, BodyCap(|out|));
    if BodyLine(line, out).More? {
      ReadBodyExtends(input[|line|..], tail, BodyLine(line, out).out);
    }
  }

  /** A line from which a body is read on to its end is a whole line. */
  lemma YieldingLineEnds(input: bytes, out: bytes)
    ensures EndsLine(FirstLine(input, BodyCap(|out|))) || ReadBody(input, out).0.Err?
  {
    var line := FirstLine(input, BodyCap(|out|));
    LineShape(input);
    if !EndsLine(line) && BodyLine(line, out).More? {
      assert line == input && input[|line|..] == [];
      assert FirstLine([], BodyCap(|BodyLine(line, out).out|)) == [];
    }
  }

  /** A whole first line stays the first line of a longer stream. */
  lemma SameFirstLine(input: bytes, tail: bytes, cap: nat)
    requires EndsLine(FirstLine(input, cap))
    ensures FirstLine(input + tail, cap) == FirstLine(input, cap)
    ensures (input + tail)[|FirstLine(input, cap)|..] == input[|FirstLine(input, cap)|..] + tail
  {
    var line := FirstLine(input, cap);
    LineShape(input);
    LineOfConcat(line, input[|line|..] + tail);
    assert input + tail == line + (input[|line|..] + tail);
  }

  /** A stream cut short yields nothing, or exactly what the whole stream yields. */
  lemma CutInventsNothing(input: bytes, n: nat, out: bytes)
    requires n <= |input|
    ensures ReadBody(input[..n], out).0.Err? || ReadBody(input[..n], out).0 == ReadBody(input, out).0
  {
    var front, back := CutAt(input, n);
    PrefixInventsNothing(front, back, out);
  }

  lemma PrefixInventsNothing(front: bytes, back: bytes, out: bytes)
    ensures ReadBody(front, out).0.Err? || ReadBody(front, out).0 == ReadBody(front + back, out).0
  {
    if ReadBody(front, out).0.Ok? {
      ReadBodyExtends(front, back, out);
    }
  }

  /** A stream that yields early leaves what follows unread. */
  lemma YieldsBeforeRest(input: bytes, tail: bytes, out: bytes)
    requires tail != []
    ensures ReadBody(input, out).0.Ok? ==> ReadBody(input + tail, out).0.Ok? && ReadBody(input + tail, out).1 != []
  {
    if ReadBody(input, out).0.Ok? {
      ReadBodyExtends(input, tail, out);
    }
  }

  /** A mail cut before the end of its terminator is never yielded. */
  lemma CutYieldsNothing(body: bytes, n: nat)
    requires n < |Stuffed(body) + TERMINATOR|
    ensures ReadBody((Stuffed(body) + TERMINATOR)[..n], []).0.Err?
  {
    var input := Stuffed(body) + TERMINATOR;
    assert input == input[..n] + input[n..] && input + [] == input;
    DotStuffingRoundTrip(body, []);
    YieldsBeforeRest(input[..n], input[n..], []);
  }
}
