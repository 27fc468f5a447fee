// The tables of the mail store (storage/mod.rs, storage/mails.rs,
// storage/queue.rs) as values: what each statement does, constraints and
// cascades included.
module StorageState {
  import opened Bytes
  import opened Lines
  import opened Wrappers

  const OUTBOX: string := "Outbox"
  const SENT: string := "Sent"
  const INBOX: string := "INBOX"
  const CHAT: string := "TyrChat"

  const DEDUP_WINDOW_SECS: int := 600

  datatype MailId = MailId(mailbox: string, id: nat)

  datatype Mail = Mail(content: bytes, deleted: bool)

  /** Primary key of the queue table; `dest` is a public key in hex. */
  datatype QueueKey = QueueKey(dest: string, mail: MailId)

  datatype QueueRow = QueueRow(from: string, rcpt: string)

  /** The fingerprint of an inbound mail, idealised as collision-free. */
  datatype Fingerprint = Fingerprint(from: Key, raw: bytes)

  datatype Db = Db(
    mailboxes: map<string, nat>,
    mails: map<MailId, Mail>,
    queue: map<QueueKey, QueueRow>,
    seen: map<Fingerprint, int>)

  /** Every mail names a mailbox, every queue row names a mail. */
  ghost predicate ForeignKeys(db: Db) {
    && (forall m :: m in db.mails ==> m.mailbox in db.mailboxes)
    && (forall q :: q in db.queue ==> q.mail in db.mails)
  }

  // ---------------------------------------------------------------- statements

  function UidNext(db: Db, mailbox: string): nat {
    if mailbox in db.mailboxes then db.mailboxes[mailbox] else 1
  }

  /** INSERT OR IGNORE INTO mailboxes. */
  function WithMailbox(db: Db, mailbox: string): Db {
    if mailbox in db.mailboxes then db else db.(mailboxes := db.mailboxes[mailbox := 1])
  }

  /** UPDATE mailboxes SET uid_next = uid_next + 1. */
  function Bumped(db: Db, mailbox: string): Db {
    if mailbox in db.mailboxes then db.(mailboxes := db.mailboxes[mailbox := db.mailboxes[mailbox] + 1]) else db
  }

  /** `insert_with` when every statement succeeds. */
  function Inserted(db: Db, mailbox: string, content: bytes): Db {
    Bumped(WithMailbox(db, mailbox), mailbox).(mails := db.mails[MailId(mailbox, UidNext(db, mailbox)) := Mail(content, false)])
  }

  /** Ids start at 1 and go up by one; the mail is new, not flagged, and nothing else changes. */
  lemma InsertedExactly(db: Db, mailbox: string, content: bytes)
    ensures var id := if mailbox in db.mailboxes then db.mailboxes[mailbox] else 1;
            Inserted(db, mailbox, content) ==
            Db(db.mailboxes[mailbox := id + 1], db.mails[MailId(mailbox, id) := Mail(content, false)], db.queue, db.seen)
  {
  }

  /** INSERT INTO queue succeeds only for a new row that names a mail. */
  predicate QueueInsertable(db: Db, key: QueueKey) {
    key !in db.queue && key.mail in db.mails
  }

  function QueueInserted(db: Db, key: QueueKey, row: QueueRow): Db {
    db.(queue := db.queue[key := row])
  }

  function QueueDeleted(db: Db, key: QueueKey): Db {
    db.(queue := map q | q in db.queue && q != key :: db.queue[q])
  }

  /** Rows of the queue that name the mail. */
  function RowsOf(db: Db, m: MailId): set<QueueKey> {
    set q | q in db.queue && q.mail == m
  }

  /** UPDATE mails SET deleted = 1. */
  function FlaggedDeleted(db: Db, m: MailId): Db {
    if m in db.mails then db.(mails := db.mails[m := db.mails[m].(deleted := true)]) else db
  }

  predicate Expunges(db: Db, mailbox: string, m: MailId) {
    m in db.mails && m.mailbox == mailbox && db.mails[m].deleted
  }

  /** DELETE FROM mails ... deleted = 1; the queue rows of the deleted mails go with them. */
  function Expunged(db: Db, mailbox: string): Db {
    db.(mails := map m | m in db.mails && !Expunges(db, mailbox, m) :: db.mails[m],
        queue := map q | q in db.queue && !Expunges(db, mailbox, q.mail) :: db.queue[q])
  }

  /** UPDATE mails SET mailbox: fails when the key is taken or the mailbox is missing. */
  predicate Movable(db: Db, from: string, to: string, id: nat) {
    MailId(from, id) !in db.mails || from == to || (MailId(to, id) !in db.mails && to in db.mailboxes)
  }

  /** The move; queue rows of the mail follow it to the new mailbox. */
  function Moved(db: Db, from: string, to: string, id: nat): Db {
    if MailId(from, id) !in db.mails || from == to then db
    else
      db.(mails := (map m | m in db.mails && m != MailId(from, id) :: db.mails[m])[MailId(to, id) := db.mails[MailId(from, id)]],
          queue := (map q | q in db.queue && q.mail != MailId(from, id) :: db.queue[q])
                   + (map q | q in CascadedRows(db, from, to, id) :: db.queue[QueueKey(q.dest, MailId(from, id))]))
  }

  /** The rows of the moved mail under their new key. */
  function CascadedRows(db: Db, from: string, to: string, id: nat): (rows: set<QueueKey>)
    ensures forall q :: q in rows <==> q.mail == MailId(to, id) && QueueKey(q.dest, MailId(from, id)) in db.queue
  {
    set q | q in RowsOf(db, MailId(from, id)) :: QueueKey(q.dest, MailId(to, id))
  }

  // ---------------------------------------------------------------- inbound mail

  /** DELETE FROM inbox_seen WHERE datetime < now - window. */
  function PrunedSeen(seen: map<Fingerprint, int>, now: int): map<Fingerprint, int> {
    map f | f in seen && seen[f] >= now - DEDUP_WINDOW_SECS :: seen[f]
  }

  function Pruned(db: Db, now: int): Db {
    db.(seen := PrunedSeen(db.seen, now))
  }

  predicate IsDuplicate(db: Db, f: Fingerprint, now: int) {
    f in Pruned(db, now).seen
  }

  const COLON: byte := 58

  /** The bytes before the first LF. */
  function LineOf(raw: bytes): (line: bytes)
    ensures |line| <= |raw|
    ensures |line| < |raw| ==> raw[|line|] == LF
  {
    var n := LineLength(raw);
    LineShape(raw);
    if EndsLine(raw[..n]) then raw[..n - 1] else raw[..n]
  }

  function WithoutCr(line: bytes): bytes {
    if line != [] && line[|line| - 1] == CR then line[..|line| - 1] else line
  }

  /** Position of the first colon, or the length. */
  function ColonAt(line: bytes): (n: nat)
    ensures n <= |line|
  {
    if line == [] || line[0] == COLON then 0 else 1 + ColonAt(line[1..])
  }

  predicate IsAsciiSpace(b: byte) {
    b == 32 || b == 9 || b == 10 || b == 12 || b == 13
  }

  function TrimAscii(b: bytes): bytes {
    if b != [] && IsAsciiSpace(b[0]) then TrimAscii(b[1..])
    else if b != [] && IsAsciiSpace(b[|b| - 1]) then TrimAscii(b[..|b| - 1])
    else b
  }

  function LowerByte(b: byte): byte {
    if 65 <= b <= 90 then b + 32 else b
  }

  const CHAT_HEADER: bytes := [120, 45, 116, 121, 114, 45, 99, 104, 97, 116]

  /** `X-Tyr-Chat: 1`, whatever the case of the name. */
  predicate IsChatHeader(line: bytes) {
    var at := ColonAt(line);
    && at < |line| && |line[..at]| == |CHAT_HEADER|
    && (forall i :: 0 <= i < at ==> LowerByte(line[i]) == CHAT_HEADER[i])
    && TrimAscii(line[at + 1..]) == [49]
  }

  /** Some line before the first empty one is the chat header. */
  predicate HasChatHeader(raw: bytes) {
    var line := LineOf(raw);
    WithoutCr(line) != [] && (IsChatHeader(WithoutCr(line)) || (|line| < |raw| && HasChatHeader(raw[|line| + 1..])))
  }

  /** `inbound_mailbox`. */
  function InboundMailbox(raw: bytes): string {
    if HasChatHeader(raw) then CHAT else INBOX
  }

  /** `mail_insert_inbox_dedup` when it stores the mail. */
  function Stored(db: Db, f: Fingerprint, now: int): Db {
    var pruned := Pruned(db, now);
    Inserted(pruned.(seen := pruned.seen[f := now]), InboundMailbox(f.raw), f.raw)
  }

  /** The mail's id when it is stored. */
  function StoredAs(db: Db, f: Fingerprint): MailId {
    MailId(InboundMailbox(f.raw), UidNext(db, InboundMailbox(f.raw)))
  }

  lemma LineBeforeLf(line: bytes, rest: bytes)
    requires LF !in line
    ensures LineOf(line + [LF] + rest) == line
  {
    var whole := line + [LF];
    LineOfConcat(whole, rest);
    assert (whole + rest)[..|whole|] == whole;
  }

  /** Lines of a header block, none of them empty, each ended by LF. */
  function HeaderBlock(lines: seq<bytes>): bytes {
    if lines == [] then [] else lines[0] + [LF] + HeaderBlock(lines[1..])
  }

  /** The header lines before the first empty one decide, the first line first. */
  lemma OneMoreLine(line: bytes, rest: bytes)
    requires LF !in line && WithoutCr(line) != []
    ensures HasChatHeader(line + [LF] + rest) <==> IsChatHeader(WithoutCr(line)) || HasChatHeader(rest)
  {
    var raw := line + [LF] + rest;
    LineBeforeLf(line, rest);
    assert raw[|line| + 1..] == rest;
  }

  lemma BlankLineEnds(blank: bytes, body: bytes)
    requires blank == [LF] || blank == [CR, LF]
    ensures !HasChatHeader(blank + body)
  {
    var cr := blank[..|blank| - 1];
    assert blank + body == cr + [LF] + body;
    LineBeforeLf(cr, body);
  }

  /** A letter in either case, or the very byte. */
  predicate SameLetter(b: byte, c: char) {
    b == c as int || ('a' <= c <= 'z' && b == c as int - 32)
  }

  /** Space, tab, line feed, form feed or carriage return. */
  predicate IsBlank(b: byte) {
    b in {32, 9, 10, 12, 13}
  }

  /** `X-Tyr-Chat:` with letters of either case, then a 1 among blanks. */
  predicate IsChatLine(line: bytes) {
    && |line| >= 12 && (forall i :: 0 <= i < 10 ==> SameLetter(line[i], "x-tyr-chat"[i])) && line[10] == 58
    && exists k :: 11 <= k < |line| && line[k] == 49 && forall i :: 11 <= i < |line| && i != k ==> IsBlank(line[i])
  }

  lemma {:induction false} ColonFirst(line: bytes, at: nat)
    requires at < |line| && line[at] == COLON && forall i :: 0 <= i < at ==> line[i] != COLON
    ensures ColonAt(line) == at
  {
    if at > 0 {
      ColonFirst(line[1..], at - 1);
    }
  }

  lemma {:induction false} ColonFound(line: bytes)
    ensures ColonAt(line) < |line| ==> line[ColonAt(line)] == COLON
  {
    if line != [] && line[0] != COLON {
      ColonFound(line[1..]);
    }
  }

  /** Position `k` of `b` holds a 1, every other a blank. */
  ghost predicate LoneOne(b: bytes, k: nat) {
    k < |b| && b[k] == 49 && forall i :: 0 <= i < |b| && i != k ==> IsBlank(b[i])
  }

  lemma {:induction false} TrimmedLone(b: bytes, k: nat)
    requires LoneOne(b, k)
    ensures TrimAscii(b) == [49]
    decreases |b|
  {
    if k > 0 {
      assert LoneOne(b[1..], k - 1);
      TrimmedLone(b[1..], k - 1);
    } else if |b| > 1 {
      assert LoneOne(b[..|b| - 1], 0);
      TrimmedLone(b[..|b| - 1], 0);
    } else {
      assert b == [49];
    }
  }

  lemma {:induction false} TrimmedToLone(b: bytes) returns (k: nat)
    requires TrimAscii(b) == [49]
    ensures LoneOne(b, k)
    decreases |b|
  {
    if b != [] && IsAsciiSpace(b[0]) {
      k := TrimmedToLone(b[1..]);
      assert forall i :: 1 <= i < |b| ==> b[i] == b[1..][i - 1];
      k := k + 1;
    } else if b != [] && IsAsciiSpace(b[|b| - 1]) {
      k := TrimmedToLone(b[..|b| - 1]);
    } else {
      k := 0;
    }
  }

  lemma ChatNameRead(line: bytes)
    requires |line| >= 10 && forall i :: 0 <= i < 10 ==> SameLetter(line[i], "x-tyr-chat"[i])
    ensures forall i :: 0 <= i < 10 ==> LowerByte(line[i]) == CHAT_HEADER[i] && line[i] != COLON
  {
  }

  lemma ChatLineRead(line: bytes)
    requires IsChatLine(line)
    ensures IsChatHeader(line)
  {
    ChatNameRead(line);
    ColonFirst(line, 10);
    var k :| 11 <= k < |line| && line[k] == 49 && forall i :: 11 <= i < |line| && i != k ==> IsBlank(line[i]);
    assert LoneOne(line[11..], k - 11);
    TrimmedLone(line[11..], k - 11);
  }

  lemma ChatHeaderIsLine(line: bytes)
    requires IsChatHeader(line)
    ensures IsChatLine(line)
  {
    ColonFound(line);
    assert ColonAt(line) == 10;
    var k := TrimmedToLone(line[11..]);
    assert line[k + 11] == 49;
    assert forall i :: 11 <= i < |line| ==> line[i] == line[11..][i - 11];
    forall i | 0 <= i < 10
      ensures SameLetter(line[i], "x-tyr-chat"[i])
    {
      assert LowerByte(line[i]) == CHAT_HEADER[i];
    }
  }

  lemma ChatHeaderBytes(line: bytes)
    ensures IsChatHeader(line) <==> IsChatLine(line)
  {
    if IsChatHeader(line) {
      ChatHeaderIsLine(line);
    } else if IsChatLine(line) {
      ChatLineRead(line);
    }
  }

  predicate MakesChat(line: bytes) {
    IsChatLine(line) || (EndsInCr(line) && IsChatLine(line[..|line| - 1]))
  }

  lemma MakesChatExactly(line: bytes)
    ensures IsChatHeader(WithoutCr(line)) <==> MakesChat(line)
  {
    ChatHeaderBytes(WithoutCr(line));
    if EndsInCr(line) && IsChatLine(line) {
      LineWithoutCr(line);
    }
  }

  /**
   * Nothing after the blank line decides the mailbox; before it an `X-Tyr-Chat: 1`
   * line does, in whatever case and blanks.
   */
  lemma BodyNeverReroutes(lines: seq<bytes>, blank: bytes, body: bytes)
    requires forall l :: l in lines ==> 10 !in l && l != [] && l != [13]
    requires blank == [10] || blank == [13, 10]
    ensures InboundMailbox(HeaderBlock(lines) + blank + body) == if exists l :: l in lines && MakesChat(l) then "TyrChat" else "INBOX"
  {
    HeadersDecide(lines, blank + body);
    Reassociate(HeaderBlock(lines), blank, body);
    BlankLineEnds(blank, body);
    forall l
      ensures IsChatHeader(WithoutCr(l)) <==> MakesChat(l)
    {
      MakesChatExactly(l);
    }
  }

  /** A mail without a blank line is all header, its last line included. */
  lemma HeaderOnlyMail(lines: seq<bytes>, last: bytes)
    requires forall l :: l in lines ==> 10 !in l && l != [] && l != [13]
    requires 10 !in last
    ensures InboundMailbox(HeaderBlock(lines) + last) == if MakesChat(last) || exists l :: l in lines && MakesChat(l) then "TyrChat" else "INBOX"
  {
    HeadersDecide(lines, last);
    LastLineAlone(last);
    forall l
      ensures IsChatHeader(WithoutCr(l)) <==> MakesChat(l)
    {
      MakesChatExactly(l);
    }
  }

  lemma LastLineAlone(last: bytes)
    requires 10 !in last
    ensures HasChatHeader(last) <==> IsChatHeader(WithoutCr(last))
  {
    NoLfNoEnd(last);
    assert last[..|last|] == last;
  }

  lemma {:induction false} NoLfNoEnd(s: bytes)
    requires 10 !in s
    ensures LineLength(s) == |s|
  {
    if s != [] {
      NoLfNoEnd(s[1..]);
    }
  }

  predicate EndsInCr(line: bytes) {
    line != [] && line[|line| - 1] == 13
  }

  lemma LineWithoutCr(line: bytes)
    requires EndsInCr(line) && IsChatLine(line)
    ensures IsChatLine(line[..|line| - 1])
  {
  }

  lemma {:induction false} HeadersDecide(lines: seq<bytes>, rest: bytes)
    requires forall l :: l in lines ==> LF !in l && WithoutCr(l) != []
    ensures HasChatHeader(HeaderBlock(lines) + rest) <==> (exists l :: l in lines && IsChatHeader(WithoutCr(l))) || HasChatHeader(rest)
  {
    if lines == [] {
      assert HeaderBlock(lines) + rest == rest;
    } else {
      HeadersDecide(lines[1..], rest);
      OneMoreLine(lines[0], HeaderBlock(lines[1..]) + rest);
      Reassociate(lines[0] + [LF], HeaderBlock(lines[1..]), rest);
      assert forall l :: l in lines <==> l == lines[0] || l in lines[1..];
    }
  }

  // ---------------------------------------------------------------- what statements keep

  lemma InsertKeepsKeys(db: Db, mailbox: string, content: bytes)
    requires ForeignKeys(db)
    ensures ForeignKeys(Inserted(db, mailbox, content))
  {
  }

  lemma MoveKeepsKeys(db: Db, from: string, to: string, id: nat)
    requires ForeignKeys(db) && Movable(db, from, to, id)
    ensures ForeignKeys(Moved(db, from, to, id))
  {
    var after := Moved(db, from, to, id);
    if after != db {
      forall q | q in after.queue
        ensures q.mail in after.mails
      {
        assert q in db.queue || q in CascadedRows(db, from, to, id);
      }
    }
  }

  lemma ExpungeKeepsKeys(db: Db, mailbox: string)
    requires ForeignKeys(db)
    ensures ForeignKeys(Expunged(db, mailbox))
  {
  }

  /** A move takes the mail and exactly its rows along, so moving back restores everything. */
  lemma MoveBack(db: Db, from: string, to: string, id: nat)
    requires ForeignKeys(db) && Movable(db, from, to, id) && MailId(from, id) in db.mails
    ensures var after := Moved(db, from, to, id);
            && MailId(to, id) in after.mails && after.mails[MailId(to, id)] == db.mails[MailId(from, id)]
            && Movable(after, to, from, id) && Moved(after, to, from, id) == db
  {
    var after := Moved(db, from, to, id);
    if from != to {
      var back := Moved(after, to, from, id);
      assert back.mails == db.mails;
      MoveKeepsKeys(db, from, to, id);
      RowsReturn(db, from, to, id);
    }
  }

  /** One row: under the moved mail it goes there and back, any other stays. */
  lemma RowReturns(db: Db, from: string, to: string, id: nat, q: QueueKey)
    requires ForeignKeys(db) && Movable(db, from, to, id) && MailId(from, id) in db.mails && from != to
    ensures q in Moved(db, from, to, id).queue <==>
            if q.mail == MailId(to, id) then QueueKey(q.dest, MailId(from, id)) in db.queue else q.mail != MailId(from, id) && q in db.queue
    ensures q in Moved(db, from, to, id).queue ==>
            Moved(db, from, to, id).queue[q] == db.queue[if q.mail == MailId(to, id) then QueueKey(q.dest, MailId(from, id)) else q]
  {
  }

  lemma RowsReturn(db: Db, from: string, to: string, id: nat)
    requires ForeignKeys(db) && Movable(db, from, to, id) && MailId(from, id) in db.mails && from != to
    requires var after := Moved(db, from, to, id);
             ForeignKeys(after) && Movable(after, to, from, id) && MailId(to, id) in after.mails
    ensures Moved(Moved(db, from, to, id), to, from, id).queue == db.queue
  {
    var after := Moved(db, from, to, id);
    var back := Moved(after, to, from, id).queue;
    forall q
      ensures q in back <==> q in db.queue
      ensures q in db.queue ==> back[q] == db.queue[q]
    {
      RowReturns(after, to, from, id, q);
      RowReturns(db, from, to, id, q);
      RowReturns(db, from, to, id, QueueKey(q.dest, MailId(to, id)));
    }
  }
}
