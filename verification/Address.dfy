// address.rs and the path extraction of quic/smtp_overlay.rs.
module Address {
  import opened Bytes
  import opened Wrappers
  import opened Text

  const DOMAIN: string := "yggmail"
  const DOMAIN_ALIAS: string := "yggmail.local"

  /** `create_address`: hex(key)@yggmail. */
  function CreateAddress(key: Key): string {
    HexEncode(key) + "@" + DOMAIN
  }

  /** Position of the last '@', or -1. */
  function LastAt(s: string): (at: int)
    ensures -1 <= at < |s|
    ensures at >= 0 ==> s[at] == '@'
    ensures forall i :: at < i < |s| ==> s[i] != '@'
  {
    if s == [] then -1
    else if s[|s| - 1] == '@' then |s| - 1
    else LastAt(s[..|s| - 1])
  }

  /** `parse_address`. */
  function ParseAddress(email: string): Option<Key> {
    var at := LastAt(email);
    if at <= 0 then None
    else
      var domain := Trim(email[at + 1..]);
      if !EqIgnoreAsciiCase(domain, DOMAIN) && !EqIgnoreAsciiCase(domain, DOMAIN_ALIAS) then None
      else match HexDecode(email[..at])
        case None => None
        case Some(key) => if |key| == 32 then Some(key) else None
  }

  predicate ClosesPath(c: char) {
    c == '>'
  }

  /** The text between the angle brackets, or the first word when there are none. */
  function Bare(rest: string): string {
    if rest != [] && rest[0] == '<' then Until(rest[1..], ClosesPath) else Until(rest, IsSpace)
  }

  /** `extract_path`: the address of MAIL FROM / RCPT TO, parameters cut off. */
  function ExtractPath(line: bytes, prefix: string): Option<string> {
    if |line| < |prefix| then None
    else match DecodeUtf8(line[|prefix|..])
      case None => None
      case Some(text) =>
        var addr := Trim(Bare(Trim(text)));
        if addr == [] then None else Some(addr)
  }

  /** The key a command line names, if its address parses. */
  function PathKey(line: bytes, prefix: string): Option<Key> {
    match ExtractPath(line, prefix)
    case None => None
    case Some(addr) => ParseAddress(addr)
  }

  // ---------------------------------------------------------------- inverses

  lemma LastAtIs(s: string, at: nat)
    requires at < |s| && s[at] == '@' && forall i :: at < i < |s| ==> s[i] != '@'
    ensures LastAt(s) == at
  {
  }

  lemma LastAtOfAddress(local: string, domain: string)
    requires '@' !in domain
    ensures LastAt(local + "@" + domain) == |local|
  {
    AfterTheAt(local, domain);
    LastAtIs(local + "@" + domain, |local|);
  }

  lemma AfterTheAt(local: string, domain: string)
    requires '@' !in domain
    ensures var s := local + "@" + domain;
            |s| == |local| + 1 + |domain| && s[|local|] == '@' && forall i :: |local| < i < |s| ==> s[i] != '@'
  {
    var s := local + "@" + domain;
    assert s[|local| + 1..] == domain;
    forall i | |local| < i < |s|
      ensures s[i] != '@'
    {
      assert s[i] == s[|local| + 1..][i - |local| - 1];
      assert s[|local| + 1..][i - |local| - 1] in domain;
    }
  }

  /** Both domains name the same key; parsing undoes creating. */
  lemma ParseOfCreate(key: Key)
    ensures ParseAddress(CreateAddress(key)) == Some(key)
    ensures ParseAddress(HexEncode(key) + "@" + DOMAIN_ALIAS) == Some(key)
  {
    assert IsDomain(DOMAIN) && IsDomain(DOMAIN_ALIAS);
    ParseOfAddress(key, DOMAIN);
    ParseOfAddress(key, DOMAIN_ALIAS);
  }

  /** Text that `parse_address` takes for the domain as it stands. */
  predicate IsDomain(domain: string) {
    && domain != [] && '@' !in domain && !IsSpace(domain[0]) && !IsSpace(domain[|domain| - 1])
    && (EqIgnoreAsciiCase(domain, DOMAIN) || EqIgnoreAsciiCase(domain, DOMAIN_ALIAS))
  }

  /** Parsing, once the two parts are known. */
  lemma ParseSplit(local: string, domain: string)
    requires local != [] && LastAt(local + "@" + domain) == |local|
    ensures ParseAddress(local + "@" + domain) ==
            var d := Trim(domain);
            if !EqIgnoreAsciiCase(d, DOMAIN) && !EqIgnoreAsciiCase(d, DOMAIN_ALIAS) then None
            else match HexDecode(local)
              case None => None
              case Some(key) => if |key| == 32 then Some(key) else None
  {
    var email := local + "@" + domain;
    assert email[..|local|] == local && email[|local| + 1..] == domain;
  }

  lemma ParseOfAddress(key: Key, domain: string)
    requires IsDomain(domain)
    ensures ParseAddress(HexEncode(key) + "@" + domain) == Some(key)
  {
    LastAtOfAddress(HexEncode(key), domain);
    ParseSplit(HexEncode(key), domain);
    TrimNothing(domain);
    HexRoundTrip(key);
  }

  /** The address is `key` in hex, in either case, at one of the two domains. */
  ghost predicate Spells(email: string, at: nat, key: Key)
    requires at < |email|
  {
    && email[at] == '@' && Lower(email[..at]) == HexEncode(key)
    && var domain := Trim(email[at + 1..]);
       EqIgnoreAsciiCase(domain, DOMAIN) || EqIgnoreAsciiCase(domain, DOMAIN_ALIAS)
  }

  /** Every address that parses spells the key it parses to. */
  lemma AddressOfParse(email: string)
    requires ParseAddress(email).Some?
    ensures LastAt(email) > 0 && Spells(email, LastAt(email), ParseAddress(email).value)
  {
    HexInverse(email[..LastAt(email)]);
  }

  /** One of the two domains, letters in either case. */
  predicate IsOurDomain(domain: string) {
    Lower(domain) == "yggmail" || Lower(domain) == "yggmail.local"
  }

  /** Text of these two parts, with blanks around the domain, is an address of the key. */
  ghost predicate IsAddressOf(email: string, local: string, domain: string, key: Key) {
    email == local + "@" + domain && '@' !in domain && Lower(local) == HexEncode(key) && IsOurDomain(Trim(domain))
  }

  lemma OurDomains(domain: string)
    ensures IsOurDomain(domain) <==> EqIgnoreAsciiCase(domain, DOMAIN) || EqIgnoreAsciiCase(domain, DOMAIN_ALIAS)
  {
    LowerIs("yggmail", "yggmail");
    LowerIs("yggmail.local", "yggmail.local");
  }

  /** What parses: the key in hex digits of either case, an `@`, and one of the two domains in either case. */
  lemma {:induction false} ParsesExactly(email: string, key: Key)
    ensures ParseAddress(email) == Some(key) <==> exists local, domain :: IsAddressOf(email, local, domain, key)
  {
    if ParseAddress(email) == Some(key) {
      ParsedIsAddress(email, key);
    }
    forall local, domain | IsAddressOf(email, local, domain, key)
      ensures ParseAddress(email) == Some(key)
    {
      AddressParses(email, local, domain, key);
    }
  }

  lemma {:induction false} ParsedParts(email: string, key: Key)
    requires ParseAddress(email) == Some(key)
    ensures LastAt(email) > 0 && HexDecode(email[..LastAt(email)]) == Some(key)
    ensures IsOurDomain(Trim(email[LastAt(email) + 1..]))
  {
    OurDomains(Trim(email[LastAt(email) + 1..]));
  }

  lemma {:induction false} ParsedIsAddress(email: string, key: Key)
    requires ParseAddress(email) == Some(key)
    ensures IsAddressOf(email, email[..LastAt(email)], email[LastAt(email) + 1..], key)
  {
    ParsedParts(email, key);
    SplitAtAt(email, LastAt(email));
    HexInverse(email[..LastAt(email)]);
  }

  lemma SplitAtAt(email: string, at: nat)
    requires at < |email| && email[at] == '@' && forall i :: at < i < |email| ==> email[i] != '@'
    ensures email == email[..at] + "@" + email[at + 1..] && '@' !in email[at + 1..]
  {
  }

  lemma {:induction false} AddressParses(email: string, local: string, domain: string, key: Key)
    requires IsAddressOf(email, local, domain, key)
    ensures ParseAddress(email) == Some(key)
  {
    OurDomains(Trim(domain));
    LastAtOfAddress(local, domain);
    ParseSplit(local, domain);
    EverySpellingDecodes(local, key);
  }

  /** Two spellings parse to one key exactly when their hex parts agree up to case. */
  lemma SameKeySameHex(a: string, b: string)
    requires ParseAddress(a).Some? && ParseAddress(b).Some?
    ensures ParseAddress(a) == ParseAddress(b) <==> Lower(a[..LastAt(a)]) == Lower(b[..LastAt(b)])
  {
    var x, y := a[..LastAt(a)], b[..LastAt(b)];
    HexInverse(x);
    HexInverse(y);
    HexRoundTrip(HexDecode(x).value);
    HexRoundTrip(HexDecode(y).value);
  }

  predicate IsPathText(addr: string) {
    addr != [] && forall c :: c in addr ==> 33 <= c as int < 127 && c != '>'
  }

  /** A command line as the client writes it. */
  function PathLine(prefix: string, addr: string): string {
    prefix + "<" + addr + ">\r\n"
  }

  /** Extraction undoes the angle brackets, whatever the verb. */
  lemma ExtractOfPathLine(prefix: string, addr: string)
    requires IsAscii(prefix) && IsPathText(addr)
    ensures IsAscii(PathLine(prefix, addr))
    ensures ExtractPath(AsciiBytes(PathLine(prefix, addr)), prefix) == Some(addr)
  {
    var path := "<" + addr + ">";
    var tail := path + "\r\n";
    PathTextIsAscii(addr);
    assert PathLine(prefix, addr) == prefix + tail;
    TailBytes(prefix, tail);
    TrimLineEnd(path);
    BareOfPath(addr);
    TrimNothing(addr);
  }

  /** Blanks that may stand around a path. */
  predicate IsPad(pad: string) {
    forall c :: c in pad ==> c == ' ' || c == '\t' || c == '\r' || c == '\n'
  }

  lemma {:induction false} TrimStartOfPad(pad: string, s: string)
    requires IsPad(pad) && s != [] && !IsSpace(s[0])
    ensures TrimStart(pad + s) == s
  {
    if pad == [] {
      assert pad + s == s;
    } else {
      assert (pad + s)[1..] == pad[1..] + s;
      assert pad[0] in pad && forall c :: c in pad[1..] ==> c in pad;
      TrimStartOfPad(pad[1..], s);
    }
  }

  /** Trimming at the end takes nothing of what ends in no blank. */
  lemma {:induction false} TrimEndKeeps(s: string, tail: string)
    requires s != [] && !IsSpace(s[|s| - 1])
    ensures exists rest: string :: TrimEnd(s + tail) == s + rest
  {
    if tail == [] || !IsSpace(tail[|tail| - 1]) {
      assert TrimEnd(s + tail) == s + tail;
    } else {
      assert (s + tail)[..|s + tail| - 1] == s + tail[..|tail| - 1];
      TrimEndKeeps(s, tail[..|tail| - 1]);
    }
  }

  lemma BracketsRead(addr: string, rest: string)
    requires IsPathText(addr)
    ensures Bare("<" + addr + ">" + rest) == addr
  {
    var path := "<" + addr + ">" + rest;
    assert path[1..] == addr + (">" + rest);
    assert forall c :: c in addr ==> !ClosesPath(c);
    UntilFirst(addr, ClosesPath, ">" + rest);
  }

  /** Blanks before the path and parameters after it do not matter. */
  lemma ExtractTolerates(prefix: string, pad: string, addr: string, tail: string)
    requires IsAscii(prefix) && IsAscii(tail) && IsPad(pad) && IsPathText(addr)
    ensures var line := prefix + (pad + "<" + addr + ">" + tail);
            IsAscii(line) && ExtractPath(AsciiBytes(line), prefix) == Some(addr)
  {
    var path := "<" + addr + ">";
    var text := pad + "<" + addr + ">" + tail;
    assert text == pad + (path + tail);
    TextIsAscii(pad, addr, tail);
    TailBytes(prefix, text);
    TrimStartOfPad(pad, path + tail);
    TrimEndKeeps(path, tail);
    var rest: string :| TrimEnd(path + tail) == path + rest;
    BracketsRead(addr, rest);
    PathTextIsAscii(addr);
    TrimNothing(addr);
  }

  lemma TextIsAscii(pad: string, addr: string, tail: string)
    requires IsAscii(tail) && IsPad(pad) && IsPathText(addr)
    ensures IsAscii(pad + "<" + addr + ">" + tail)
  {
    var text := pad + "<" + addr + ">" + tail;
    forall i | 0 <= i < |text|
      ensures text[i] as int < 128
    {
      if i < |pad| {
        assert text[i] == pad[i] && pad[i] in pad;
      } else if |pad| + 1 <= i < |pad| + 1 + |addr| {
        assert text[i] == addr[i - |pad| - 1] && addr[i - |pad| - 1] in addr;
      } else if i >= |pad| + |addr| + 2 {
        assert text[i] == tail[i - |pad| - |addr| - 2];
      }
    }
  }

  lemma {:induction false} TrimOfPad(pad: string)
    requires IsPad(pad)
    ensures TrimStart(pad) == []
  {
    if pad != [] {
      assert pad[0] in pad && forall c :: c in pad[1..] ==> c in pad;
      TrimOfPad(pad[1..]);
    }
  }

  /** Blanks alone are no path. */
  lemma NoPathInBlanks(prefix: string, pad: string)
    requires IsAscii(prefix) && IsPad(pad)
    ensures IsAscii(prefix + pad) && ExtractPath(AsciiBytes(prefix + pad), prefix) == None
  {
    forall i | 0 <= i < |pad|
      ensures pad[i] as int < 128
    {
      assert pad[i] in pad;
    }
    TailBytes(prefix, pad);
    TrimOfPad(pad);
  }

  lemma {:induction false} UntilAll(s: string, stop: char -> bool)
    requires forall c :: c in s ==> !stop(c)
    ensures Until(s, stop) == s
  {
    if s != [] {
      UntilAll(s[1..], stop);
    }
  }

  /** An address without brackets ends at the first blank. */
  lemma BareAddressRead(prefix: string, pad: string, addr: string, tail: string)
    requires IsAscii(prefix) && IsAscii(tail) && IsPad(pad) && IsPathText(addr) && addr[0] != '<'
    requires tail != [] ==> tail[0] == ' ' || tail[0] == '\r'
    ensures var line := prefix + (pad + addr + tail);
            IsAscii(line) && ExtractPath(AsciiBytes(line), prefix) == Some(addr)
  {
    var text := pad + addr + tail;
    assert text == pad + (addr + tail);
    BareTextIsAscii(pad, addr, tail);
    TailBytes(prefix, text);
    PathTextIsAscii(addr);
    TrimStartOfPad(pad, addr + tail);
    BareTrimmed(addr, tail);
    TrimNothing(addr);
  }

  lemma BareTextIsAscii(pad: string, addr: string, tail: string)
    requires IsAscii(tail) && IsPad(pad) && IsPathText(addr)
    ensures IsAscii(pad + addr + tail)
  {
    var text := pad + addr + tail;
    forall i | 0 <= i < |text|
      ensures text[i] as int < 128
    {
      if i < |pad| {
        assert text[i] == pad[i] && pad[i] in pad;
      } else if i < |pad| + |addr| {
        assert text[i] == addr[i - |pad|] && addr[i - |pad|] in addr;
      } else {
        assert text[i] == tail[i - |pad| - |addr|];
      }
    }
  }

  /** What is left of the text behind the address begins with its blank, or is nothing. */
  lemma {:induction false} BareTrimmed(addr: string, tail: string)
    requires IsPathText(addr) && addr[0] != '<' && (tail != [] ==> IsSpace(tail[0]))
    ensures Bare(TrimEnd(addr + tail)) == addr
    decreases |tail|
  {
    assert forall c :: c in addr ==> !IsSpace(c);
    if tail != [] && IsSpace(tail[|tail| - 1]) {
      assert (addr + tail)[..|addr + tail| - 1] == addr + tail[..|tail| - 1];
      BareTrimmed(addr, tail[..|tail| - 1]);
    } else if tail != [] {
      assert TrimEnd(addr + tail) == addr + tail;
      UntilFirst(addr, IsSpace, tail);
    } else {
      assert addr + tail == addr && addr[|addr| - 1] in addr;
      UntilAll(addr, IsSpace);
    }
  }

  lemma TailBytes(prefix: string, tail: string)
    requires IsAscii(prefix) && IsAscii(tail)
    ensures IsAscii(prefix + tail)
    ensures |AsciiBytes(prefix + tail)| >= |prefix| && DecodeUtf8(AsciiBytes(prefix + tail)[|prefix|..]) == Some(tail)
  {
    AsciiBytesConcat(prefix, tail);
    assert AsciiBytes(prefix + tail)[|prefix|..] == AsciiBytes(tail);
    DecodeAscii(tail);
  }

  lemma BareOfPath(addr: string)
    requires IsPathText(addr)
    ensures Bare("<" + addr + ">") == addr
  {
    var path := "<" + addr + ">";
    assert path[1..] == addr + ">";
    assert forall c :: c in addr ==> !ClosesPath(c);
    UntilFirst(addr, ClosesPath, ">");
  }

  lemma PathTextIsAscii(addr: string)
    requires IsPathText(addr)
    ensures IsAscii("<" + addr + ">" + "\r\n")
    ensures !IsSpace(addr[0]) && !IsSpace(addr[|addr| - 1])
  {
    var tail := "<" + addr + ">" + "\r\n";
    assert addr[0] in addr && addr[|addr| - 1] in addr;
    forall i | 0 <= i < |tail|
      ensures tail[i] as int < 128
    {
      if 1 <= i <= |addr| {
        assert tail[i] == addr[i - 1] && addr[i - 1] in addr;
      }
    }
  }

  lemma TrimLineEnd(s: string)
    requires s != [] && !IsSpace(s[0]) && !IsSpace(s[|s| - 1])
    ensures Trim(s + "\r\n") == s
  {
    var line := s + "\r\n";
    assert TrimStart(line) == line;
    assert line[..|line| - 1] == s + "\r";
    assert (s + "\r")[..|s|] == s;
    assert TrimEnd(s + "\r") == TrimEnd(s) == s;
  }

  lemma AddressIsPathText(key: Key)
    ensures IsPathText(CreateAddress(key))
  {
    HexAlphabet(key);
    var s := CreateAddress(key);
    forall c | c in s
      ensures 33 <= c as int < 127 && c != '>'
    {
      assert c in HexEncode(key) || c in "@yggmail";
    }
  }

  /** The server reads back the key that the client put on the line. */
  lemma PathKeyOfAddress(prefix: string, key: Key)
    requires IsAscii(prefix)
    ensures IsAscii(PathLine(prefix, CreateAddress(key)))
    ensures PathKey(AsciiBytes(PathLine(prefix, CreateAddress(key))), prefix) == Some(key)
  {
    AddressIsPathText(key);
    ExtractOfPathLine(prefix, CreateAddress(key));
    ParseOfCreate(key);
  }
}
