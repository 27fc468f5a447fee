// Text as the repository sees it: UTF-8 decoding, trimming, ASCII case, hex.
module Text {
  import opened Bytes
  import opened Wrappers

  // ---------------------------------------------------------------- ASCII

  predicate IsAscii(s: string) {
    forall i :: 0 <= i < |s| ==> s[i] as int < 128
  }

  /** The bytes of an ASCII string. */
  function AsciiBytes(s: string): (b: bytes)
    requires IsAscii(s)
    ensures |b| == |s| && forall i :: 0 <= i < |s| ==> b[i] == s[i] as int
  {
    if s == [] then []
    else
      var b: byte := s[0] as int;
      [b] + AsciiBytes(s[1..])
  }

  lemma AsciiBytesConcat(a: string, b: string)
    requires IsAscii(a) && IsAscii(b)
    ensures IsAscii(a + b) && AsciiBytes(a + b) == AsciiBytes(a) + AsciiBytes(b)
  {
  }

  function LowerChar(c: char): char {
    if 'A' <= c <= 'Z' then (c as int + 32) as char else c
  }

  function Lower(s: string): (r: string)
    ensures |r| == |s| && forall i :: 0 <= i < |s| ==> r[i] == LowerChar(s[i])
  {
    if s == [] then [] else [LowerChar(s[0])] + Lower(s[1..])
  }

  lemma {:induction false} LowerIs(s: string, r: string)
    requires |r| == |s| && forall i :: 0 <= i < |s| ==> r[i] == LowerChar(s[i])
    ensures Lower(s) == r
  {
  }

  predicate EqIgnoreAsciiCase(a: string, b: string) {
    Lower(a) == Lower(b)
  }

  // ---------------------------------------------------------------- UTF-8

  predicate IsContinuation(b: byte) {
    0x80 <= b < 0xC0
  }

  function Payload(b: byte): int {
    b - 0x80
  }

  /** Number of bytes of the first scalar value, or 0 when the input does not start with one. */
  function ScalarWidth(s: bytes): nat
    requires s != []
  {
    var b := s[0];
    if b < 0x80 then 1
    else if 0xC2 <= b < 0xE0 && |s| >= 2 && IsContinuation(s[1]) then 2
    else if 0xE0 <= b < 0xF0 && |s| >= 3 && IsContinuation(s[1]) && IsContinuation(s[2])
            && (b == 0xE0 ==> s[1] >= 0xA0) && (b == 0xED ==> s[1] < 0xA0) then 3
    else if 0xF0 <= b < 0xF5 && |s| >= 4 && IsContinuation(s[1]) && IsContinuation(s[2]) && IsContinuation(s[3])
            && (b == 0xF0 ==> s[1] >= 0x90) && (b == 0xF4 ==> s[1] < 0x90) then 4
    else 0
  }

  function Scalar(s: bytes): char
    requires s != [] && ScalarWidth(s) > 0 && |s| >= ScalarWidth(s)
  {
    var w := ScalarWidth(s);
    var lead: int := s[0];
    if w == 1 then lead as char
    else if w == 2 then ((lead - 0xC0) * 64 + Payload(s[1])) as char
    else if w == 3 then ((lead - 0xE0) * 4096 + Payload(s[1]) * 64 + Payload(s[2])) as char
    else ((lead - 0xF0) * 262144 + Payload(s[1]) * 4096 + Payload(s[2]) * 64 + Payload(s[3])) as char
  }

  /** `str::from_utf8`. */
  function DecodeUtf8(s: bytes): Option<string> {
    if s == [] then Some([])
    else
      var w := ScalarWidth(s);
      if w == 0 || w > |s| then None
      else match DecodeUtf8(s[w..])
        case None => None
        case Some(rest) => Some([Scalar(s)] + rest)
  }

  lemma OneByteRead(s: bytes)
    requires s != [] && s[0] < 0x80
    ensures ScalarWidth(s) == 1 && Scalar(s) as int == s[0]
  {
  }

  /** Decoding takes one scalar value, then the rest. */
  lemma DecodeStep(s: bytes, c: char, rest: bytes)
    requires s != [] && 0 < ScalarWidth(s) <= |s| && Scalar(s) == c && rest == s[ScalarWidth(s)..]
    ensures DecodeUtf8(s) == match DecodeUtf8(rest) case None => None case Some(text) => Some([c] + text)
  {
  }

  lemma AsciiRead(s: bytes, c: char)
    requires s != [] && s[0] == c as int && c as int < 128
    ensures ScalarWidth(s) == 1 && Scalar(s) == c
  {
    OneByteRead(s);
  }

  lemma {:induction false} AsciiDecodes(b: bytes, s: string)
    requires |b| == |s| && forall i :: 0 <= i < |s| ==> s[i] as int < 128 && b[i] == s[i] as int
    ensures DecodeUtf8(b) == Some(s)
  {
    if s != [] {
      var rest, text := b[1..], s[1..];
      AsciiDecodes(rest, text);
      AsciiRead(b, s[0]);
      DecodeStep(b, s[0], rest);
      assert s == [s[0]] + text;
    }
  }

  lemma DecodeAscii(s: string)
    requires IsAscii(s)
    ensures DecodeUtf8(AsciiBytes(s)) == Some(s)
  {
    AsciiDecodes(AsciiBytes(s), s);
  }

  // ---------------------------------------------------------------- white space

  /** The Unicode White_Space property. */
  predicate IsSpace(c: char) {
    var n := c as int;
    9 <= n <= 13 || n == 32 || n == 0x85 || n == 0xA0 || n == 0x1680 || 0x2000 <= n <= 0x200A
    || n == 0x2028 || n == 0x2029 || n == 0x202F || n == 0x205F || n == 0x3000
  }

  function TrimStart(s: string): string {
    if s != [] && IsSpace(s[0]) then TrimStart(s[1..]) else s
  }

  function TrimEnd(s: string): string {
    if s != [] && IsSpace(s[|s| - 1]) then TrimEnd(s[..|s| - 1]) else s
  }

  function Trim(s: string): string {
    TrimEnd(TrimStart(s))
  }

  /** Everything before the first character satisfying `stop`. */
  function Until(s: string, stop: char -> bool): string {
    if s == [] || stop(s[0]) then [] else [s[0]] + Until(s[1..], stop)
  }

  lemma TrimNothing(s: string)
    requires s == [] || (!IsSpace(s[0]) && !IsSpace(s[|s| - 1]))
    ensures Trim(s) == s
  {
  }

  lemma {:induction false} UntilFirst(s: string, stop: char -> bool, rest: string)
    requires forall c :: c in s ==> !stop(c)
    requires rest != [] && stop(rest[0])
    ensures Until(s + rest, stop) == s
  {
    if s == [] {
      assert s + rest == rest;
    } else {
      UntilFirst(s[1..], stop, rest);
      assert (s + rest)[1..] == s[1..] + rest;
    }
  }

  // ---------------------------------------------------------------- hex

  function HexDigit(n: nat): char
    requires n < 16
  {
    if n < 10 then ('0' as int + n) as char else ('a' as int + n - 10) as char
  }

  function HexValue(c: char): Option<nat> {
    if '0' <= c <= '9' then Some(c as int - '0' as int)
    else if 'a' <= c <= 'f' then Some(c as int - 'a' as int + 10)
    else if 'A' <= c <= 'F' then Some(c as int - 'A' as int + 10)
    else None
  }

  function HexEncode(b: bytes): (s: string)
    ensures |s| == 2 * |b|
  {
    if b == [] then [] else [HexDigit(b[0] / 16), HexDigit(b[0] % 16)] + HexEncode(b[1..])
  }

  /** `hex::decode`: both cases of digits, an even number of them. */
  function HexDecode(s: string): (r: Option<bytes>)
    ensures r.Some? ==> 2 * |r.value| == |s|
  {
    if s == [] then Some([])
    else if |s| == 1 then None
    else match (HexValue(s[0]), HexValue(s[1]), HexDecode(s[2..]))
      case (Some(hi), Some(lo), Some(rest)) => Some([16 * hi + lo] + rest)
      case _ => None
  }

  predicate IsHexDigit(c: char) {
    '0' <= c <= '9' || 'a' <= c <= 'f'
  }

  lemma {:induction false} HexAlphabet(b: bytes)
    ensures forall i :: 0 <= i < |HexEncode(b)| ==> IsHexDigit(HexEncode(b)[i])
  {
    if b != [] {
      HexAlphabet(b[1..]);
    }
  }

  lemma {:induction false} HexRoundTrip(b: bytes)
    ensures HexDecode(HexEncode(b)) == Some(b)
  {
    if b != [] {
      HexRoundTrip(b[1..]);
      assert HexEncode(b)[2..] == HexEncode(b[1..]);
      assert b == [b[0]] + b[1..];
    }
  }

  /** Decoding accepts exactly the encodings, up to the case of letters. */
  lemma {:induction false} HexInverse(s: string)
    requires HexDecode(s).Some?
    ensures HexEncode(HexDecode(s).value) == Lower(s)
  {
    if s != [] {
      HexInverse(s[2..]);
      var b := HexDecode(s).value;
      assert b[1..] == HexDecode(s[2..]).value;
      HexPair(s[0], s[1]);
      LowerPair(s);
    }
  }

  lemma HexPair(c: char, d: char)
    requires HexValue(c).Some? && HexValue(d).Some?
    ensures var b := 16 * HexValue(c).value + HexValue(d).value;
            b < 256 && HexDigit(b / 16) == LowerChar(c) && HexDigit(b % 16) == LowerChar(d)
  {
  }

  lemma {:induction false} LowerPair(s: string)
    requires |s| >= 2
    ensures Lower(s) == [LowerChar(s[0]), LowerChar(s[1])] + Lower(s[2..])
  {
    var tail := s[2..];
    LowerIs(s, [LowerChar(s[0]), LowerChar(s[1])] + Lower(tail));
  }

  const LOWER_DIGITS: string := "0123456789abcdef"

  /** Each byte is two digits, the high half first. */
  lemma {:induction false} HexDigitsOf(b: bytes, k: nat)
    requires k < |b|
    ensures HexEncode(b)[2 * k] == LOWER_DIGITS[b[k] / 16] && HexEncode(b)[2 * k + 1] == LOWER_DIGITS[b[k] % 16]
  {
    if k > 0 {
      HexDigitsOf(b[1..], k - 1);
    }
  }

  /** Every spelling of an encoding decodes, and to the bytes encoded. */
  lemma {:induction false} EverySpellingDecodes(s: string, b: bytes)
    requires Lower(s) == HexEncode(b)
    ensures HexDecode(s) == Some(b)
  {
    if b != [] {
      LowerPair(s);
      assert HexEncode(b)[2..] == HexEncode(b[1..]);
      EverySpellingDecodes(s[2..], b[1..]);
      HexDigitBack(s[0], b[0] / 16);
      HexDigitBack(s[1], b[0] % 16);
      assert b == [b[0]] + b[1..];
    } else {
      assert |s| == 0;
    }
  }

  lemma HexDigitBack(c: char, n: nat)
    requires n < 16 && LowerChar(c) == HexDigit(n)
    ensures HexValue(c) == Some(n)
  {
  }

  /** Text decodes to these bytes iff its letters, lowered, are their encoding. */
  lemma HexDecodesExactly(s: string, b: bytes)
    ensures HexDecode(s) == Some(b) <==> Lower(s) == HexEncode(b)
  {
    if HexDecode(s) == Some(b) {
      HexInverse(s);
    } else if Lower(s) == HexEncode(b) {
      EverySpellingDecodes(s, b);
    }
  }

  // ---------------------------------------------------------------- UTF-8, written

  /** A scalar value in UTF-8 (section 3 of RFC 3629). */
  function ScalarBytes(c: char): (b: bytes)
    ensures 1 <= |b| <= 4
  {
    var n := c as int;
    if n < 0x80 then [n]
    else if n < 0x800 then [0xC0 + n / 0x40, 0x80 + n % 0x40]
    else if n < 0x10000 then [0xE0 + n / 0x1000, 0x80 + n / 0x40 % 0x40, 0x80 + n % 0x40]
    else [0xF0 + n / 0x40000, 0x80 + n / 0x1000 % 0x40, 0x80 + n / 0x40 % 0x40, 0x80 + n % 0x40]
  }

  function EncodeUtf8(s: string): bytes {
    if s == [] then [] else ScalarBytes(s[0]) + EncodeUtf8(s[1..])
  }

  /** A number split at 6 and 12 bits. */
  lemma SplitIn64s(n: nat)
    ensures n == n / 0x40 * 0x40 + n % 0x40 && n / 0x40 == n / 0x1000 * 0x40 + n / 0x40 % 0x40
    ensures n / 0x1000 == n / 0x40000 * 0x40 + n / 0x1000 % 0x40
  {
  }

  lemma JoinedFromTwo(c: nat, d: nat)
    requires d < 0x40
    ensures (c * 0x40 + d) % 0x40 == d && (c * 0x40 + d) / 0x40 == c
  {
  }

  lemma JoinedFromThree(b: nat, c: nat, d: nat)
    requires c < 0x40 && d < 0x40
    ensures var n := b * 0x1000 + c * 0x40 + d;
            n % 0x40 == d && n / 0x40 == b * 0x40 + c && n / 0x40 % 0x40 == c && n / 0x1000 == b
  {
    JoinedFromTwo(b * 0x40 + c, d);
    JoinedFromTwo(b, c);
  }

  lemma JoinedFromFour(a: nat, b: nat, c: nat, d: nat)
    requires b < 0x40 && c < 0x40 && d < 0x40
    ensures var n := a * 0x40000 + b * 0x1000 + c * 0x40 + d;
            n % 0x40 == d && n / 0x40 % 0x40 == c && n / 0x1000 % 0x40 == b && n / 0x40000 == a
  {
    JoinedFromThree(a * 0x40 + b, c, d);
    JoinedFromTwo(a, b);
  }

  lemma TwoBytesRead(n: nat, s: bytes)
    requires 0x80 <= n < 0x800 && |s| >= 2 && s[0] == 0xC0 + n / 0x40 && s[1] == 0x80 + n % 0x40
    ensures ScalarWidth(s) == 2 && Scalar(s) as int == n
  {
    SplitIn64s(n);
  }

  lemma ThreeBytesRead(n: nat, s: bytes)
    requires 0x800 <= n < 0x10000 && !(0xD800 <= n < 0xE000) && |s| >= 3
    requires s[0] == 0xE0 + n / 0x1000 && s[1] == 0x80 + n / 0x40 % 0x40 && s[2] == 0x80 + n % 0x40
    ensures ScalarWidth(s) == 3 && Scalar(s) as int == n
  {
    SplitIn64s(n);
  }

  lemma FourBytesRead(n: nat, s: bytes)
    requires 0x10000 <= n < 0x110000 && |s| >= 4
    requires s[0] == 0xF0 + n / 0x40000 && s[1] == 0x80 + n / 0x1000 % 0x40 && s[2] == 0x80 + n / 0x40 % 0x40 && s[3] == 0x80 + n % 0x40
    ensures ScalarWidth(s) == 4 && Scalar(s) as int == n
  {
    SplitIn64s(n);
  }

  lemma ScalarRead(c: char, rest: bytes)
    ensures var s := ScalarBytes(c) + rest;
            ScalarWidth(s) == |ScalarBytes(c)| && Scalar(s) == c && s[ScalarWidth(s)..] == rest
  {
    var s := ScalarBytes(c) + rest;
    assert s[|ScalarBytes(c)|..] == rest;
    if c as int >= 0x10000 {
      FourBytesRead(c as int, s);
    } else if c as int >= 0x800 {
      ThreeBytesRead(c as int, s);
    } else if c as int >= 0x80 {
      TwoBytesRead(c as int, s);
    }
  }

  lemma TwoBytesWritten(s: bytes)
    requires s != [] && ScalarWidth(s) == 2
    ensures |s| >= 2 && ScalarBytes(Scalar(s)) == [s[0], s[1]]
  {
    JoinedFromTwo(s[0] - 0xC0, s[1] - 0x80);
  }

  lemma ThreeBytesWritten(s: bytes)
    requires s != [] && ScalarWidth(s) == 3
    ensures |s| >= 3 && ScalarBytes(Scalar(s)) == [s[0], s[1], s[2]]
  {
    JoinedFromThree(s[0] - 0xE0, s[1] - 0x80, s[2] - 0x80);
  }

  lemma FourBytesWritten(s: bytes)
    requires s != [] && ScalarWidth(s) == 4
    ensures |s| >= 4 && ScalarBytes(Scalar(s)) == [s[0], s[1], s[2], s[3]]
  {
    JoinedFromFour(s[0] - 0xF0, s[1] - 0x80, s[2] - 0x80, s[3] - 0x80);
  }

  lemma ScalarWritten(s: bytes)
    requires s != [] && ScalarWidth(s) > 0
    ensures ScalarWidth(s) <= |s| && ScalarBytes(Scalar(s)) == s[..ScalarWidth(s)]
  {
    if ScalarWidth(s) == 2 {
      TwoBytesWritten(s);
    } else if ScalarWidth(s) == 3 {
      ThreeBytesWritten(s);
    } else if ScalarWidth(s) == 4 {
      FourBytesWritten(s);
    }
  }

  lemma {:induction false} Utf8RoundTrip(s: string)
    ensures DecodeUtf8(EncodeUtf8(s)) == Some(s)
  {
    if s != [] {
      Utf8RoundTrip(s[1..]);
      ScalarRead(s[0], EncodeUtf8(s[1..]));
      DecodeStep(EncodeUtf8(s), s[0], EncodeUtf8(s[1..]));
      assert s == [s[0]] + s[1..];
    }
  }

  /** Bytes decode to this text iff they are its encoding: nothing overlong, no surrogate, nothing cut short is taken. */
  lemma {:induction false} Utf8Exactly(b: bytes, s: string)
    ensures DecodeUtf8(b) == Some(s) <==> EncodeUtf8(s) == b
  {
    if EncodeUtf8(s) == b {
      Utf8RoundTrip(s);
    } else if DecodeUtf8(b) == Some(s) {
      Utf8Inverse(b);
    }
  }

  lemma EncodeMore(c: char, text: string)
    ensures EncodeUtf8([c] + text) == ScalarBytes(c) + EncodeUtf8(text)
  {
    assert ([c] + text)[1..] == text;
  }

  lemma OneScalarBack(b: bytes, rest: bytes, text: string)
    requires b != [] && 0 < ScalarWidth(b) <= |b| && rest == b[ScalarWidth(b)..] && EncodeUtf8(text) == rest
    ensures EncodeUtf8([Scalar(b)] + text) == b
  {
    ScalarWritten(b);
    EncodeMore(Scalar(b), text);
    assert b == b[..ScalarWidth(b)] + rest;
  }

  lemma {:induction false} Utf8Inverse(b: bytes)
    requires DecodeUtf8(b).Some?
    ensures EncodeUtf8(DecodeUtf8(b).value) == b
  {
    if b != [] {
      var rest := b[ScalarWidth(b)..];
      DecodeStep(b, Scalar(b), rest);
      Utf8Inverse(rest);
      OneScalarBack(b, rest, DecodeUtf8(rest).value);
    }
  }
}
