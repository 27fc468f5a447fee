// smtp/mod.rs `accept_mail`: a mail from the local client goes to the Outbox
// with one queue row per distinct recipient, or not at all.
module Submission {
  import opened Bytes
  import opened Wrappers
  import opened Text
  import opened Address
  import opened StorageState
  import opened SqliteStorage
  import opened OutboundQueue

  datatype Recipient = Recipient(dest: string, rcpt: string)

  /** How far a submission got whose queue row failed: rows inserted, and which statements of the rollback worked. */
  datatype Failure = Failure(rows: nat, flagged: bool, expunged: bool)

  datatype Reply = NoSender | InvalidRecipient | StorageError | QueueError | Accepted

  predicate Parses(rcpt: string) {
    ParseAddress(rcpt).Some?
  }

  predicate AllParse(rcpts: seq<string>) {
    forall r :: r in rcpts ==> Parses(r)
  }

  /** The destination column: the recipient's key in hex. */
  function Dest(rcpt: string): string {
    match ParseAddress(rcpt)
    case Some(key) => HexEncode(key)
    case None => ""
  }

  function TagOf(rcpt: string): Recipient {
    Recipient(Dest(rcpt), rcpt)
  }

  function Mapped(rcpts: seq<string>, tag: string -> Recipient): seq<Recipient> {
    if rcpts == [] then [] else Mapped(rcpts[..|rcpts| - 1], tag) + [tag(rcpts[|rcpts| - 1])]
  }

  /** Each RCPT argument with the destination it names. */
  function Tagged(rcpts: seq<string>): seq<Recipient> {
    Mapped(rcpts, TagOf)
  }

  function Dests(recipients: seq<Recipient>): set<string> {
    if recipients == [] then {}
    else Dests(recipients[..|recipients| - 1]) + {recipients[|recipients| - 1].dest}
  }

  /** The recipients in order, later spellings of a destination already named left out. */
  function Distinct(recipients: seq<Recipient>): seq<Recipient> {
    if recipients == [] then []
    else
      var earlier := Distinct(recipients[..|recipients| - 1]);
      var last := recipients[|recipients| - 1];
      if last.dest in Dests(earlier) then earlier else earlier + [last]
  }

  function RowOf(r: Recipient, mail: MailId): QueueKey {
    QueueKey(r.dest, mail)
  }

  /** One row per recipient. */
  function Enqueued(db: Db, recipients: seq<Recipient>, mail: MailId, from: string): Db {
    if recipients == [] then db
    else
      var last := recipients[|recipients| - 1];
      QueueInserted(Enqueued(db, recipients[..|recipients| - 1], mail, from), RowOf(last, mail), QueueRow(from, last.rcpt))
  }

  /** The uid counter of the Outbox after one insertion, and nothing else changed. */
  function Counted(db: Db): Db {
    Bumped(WithMailbox(db, OUTBOX), OUTBOX)
  }

  function Submitted(db: Db, from: string, rcpts: seq<string>, content: bytes): Db {
    Enqueued(Inserted(db, OUTBOX, content), Distinct(Tagged(rcpts)), MailId(OUTBOX, UidNext(db, OUTBOX)), from)
  }

  /** A submission given up after these rows; either statement of the rollback may fail too. */
  function Abandoned(db: Db, from: string, rows: seq<Recipient>, content: bytes, flagged: bool, expunged: bool): Db {
    var mail := MailId(OUTBOX, UidNext(db, OUTBOX));
    var partial := Enqueued(Inserted(db, OUTBOX, content), rows, mail, from);
    var marked := if flagged then FlaggedDeleted(partial, mail) else partial;
    if expunged then Expunged(marked, OUTBOX) else marked
  }

  /** The submission failed as told by `how`, and the tables are where that leaves them. */
  predicate IsAbandoned(before: Db, after: Db, from: string, recipients: seq<Recipient>, content: bytes, how: Failure) {
    && how.rows < |recipients|
    && after == Abandoned(before, from, recipients[..how.rows], content, how.flagged, how.expunged)
  }

  // ---------------------------------------------------------------- recipients

  lemma {:induction false} DestsAre(recipients: seq<Recipient>, d: string)
    ensures d in Dests(recipients) <==> exists i :: 0 <= i < |recipients| && recipients[i].dest == d
  {
    if recipients != [] {
      var n := |recipients| - 1;
      DestsAre(recipients[..n], d);
      if i :| 0 <= i < |recipients| && recipients[i].dest == d {
        assert i < n ==> recipients[..n][i].dest == d;
      }
    }
  }

  /** `r` is the first entry with its destination. */
  ghost predicate IsFirst(recipients: seq<Recipient>, r: Recipient) {
    exists i :: 0 <= i < |recipients| && recipients[i] == r && forall k :: 0 <= k < i ==> recipients[k].dest != r.dest
  }

  /** The kept entries name every destination, each once. */
  lemma {:induction false} DistinctIsExact(recipients: seq<Recipient>)
    ensures Dests(Distinct(recipients)) == Dests(recipients)
    ensures forall i, j :: 0 <= i < j < |Distinct(recipients)| ==> Distinct(recipients)[i].dest != Distinct(recipients)[j].dest
  {
    if recipients != [] {
      var n := |recipients| - 1;
      var earlier, last := Distinct(recipients[..n]), recipients[n];
      DistinctIsExact(recipients[..n]);
      if last.dest !in Dests(earlier) {
        DestsAre(earlier, last.dest);
        assert (earlier + [last])[..|earlier|] == earlier;
      }
    }
  }

  /** The entry kept for a destination is the first that names it. */
  lemma {:induction false} DistinctKeepsFirst(recipients: seq<Recipient>, r: Recipient)
    ensures r in Distinct(recipients) ==> IsFirst(recipients, r)
  {
    if recipients != [] && r in Distinct(recipients) {
      var n := |recipients| - 1;
      if r in Distinct(recipients[..n]) {
        DistinctKeepsFirst(recipients[..n], r);
        FirstStays(recipients, r);
      } else {
        DistinctIsExact(recipients[..n]);
        DestsAre(recipients[..n], r.dest);
        assert recipients[n] == r;
        forall k | 0 <= k < n
          ensures recipients[k].dest != r.dest
        {
          assert recipients[..n][k] == recipients[k];
        }
      }
    }
  }

  lemma FirstStays(recipients: seq<Recipient>, r: Recipient)
    requires recipients != [] && IsFirst(recipients[..|recipients| - 1], r)
    ensures IsFirst(recipients, r)
  {
    var init := recipients[..|recipients| - 1];
    var i :| 0 <= i < |init| && init[i] == r && forall k :: 0 <= k < i ==> init[k].dest != r.dest;
    assert recipients[i] == r;
    assert forall k :: 0 <= k < i ==> recipients[k] == init[k];
  }

  /** Two spellings of one key, at either domain and in either case, are one destination. */
  lemma AliasesCollapse(a: string, b: string)
    requires ParseAddress(a).Some? && ParseAddress(b).Some?
    ensures Dest(a) == Dest(b) <==> ParseAddress(a) == ParseAddress(b)
  {
    HexRoundTrip(ParseAddress(a).value);
    HexRoundTrip(ParseAddress(b).value);
  }

  // ---------------------------------------------------------------- rows

  lemma {:induction false} EnqueuedRows(db: Db, recipients: seq<Recipient>, mail: MailId, from: string)
    ensures var after := Enqueued(db, recipients, mail, from);
            && after == db.(queue := after.queue)
            && (forall q :: q in after.queue <==> q in db.queue || (q.mail == mail && q.dest in Dests(recipients)))
            && (forall q :: q in db.queue && q.mail != mail ==> after.queue[q] == db.queue[q])
  {
    if recipients != [] {
      var n := |recipients| - 1;
      EnqueuedRows(db, recipients[..n], mail, from);
      assert recipients == recipients[..n] + [recipients[n]];
      assert forall d :: d in Dests(recipients) <==> d in Dests(recipients[..n]) || d == recipients[n].dest;
    }
  }

  /** The row of each recipient carries that recipient's own spelling. */
  lemma {:induction false} RowsCarryRecipients(db: Db, recipients: seq<Recipient>, mail: MailId, from: string, i: nat)
    requires forall j, k :: 0 <= j < k < |recipients| ==> recipients[j].dest != recipients[k].dest
    requires i < |recipients|
    ensures var after := Enqueued(db, recipients, mail, from);
            RowOf(recipients[i], mail) in after.queue && after.queue[RowOf(recipients[i], mail)] == QueueRow(from, recipients[i].rcpt)
  {
    var n := |recipients| - 1;
    if i < n {
      RowsCarryRecipients(db, recipients[..n], mail, from, i);
    }
  }

  lemma LastIsNew(recipients: seq<Recipient>)
    requires recipients != [] && DistinctDests(recipients)
    ensures recipients[|recipients| - 1].dest !in Dests(recipients[..|recipients| - 1])
  {
    DestsAre(recipients[..|recipients| - 1], recipients[|recipients| - 1].dest);
  }

  /** As many rows as recipients. */
  lemma {:induction false} CountRows(recipients: seq<Recipient>)
    requires DistinctDests(recipients)
    ensures |Dests(recipients)| == |recipients|
  {
    if recipients != [] {
      CountRows(recipients[..|recipients| - 1]);
      LastIsNew(recipients);
    }
  }

  // ---------------------------------------------------------------- the session

  class SmtpSession {
    var from: Option<string>
    var rcpts: seq<string>
    var expectMail: bool
    const store: Storage

    constructor (store: Storage)
      ensures this.store == store && from == None && rcpts == [] && !expectMail
    {
      this.store, from, rcpts, expectMail := store, None, [], false;
    }

    method Reset()
      modifies this
      ensures from == None && rcpts == [] && expectMail
    {
      from, rcpts, expectMail := None, [], true;
    }

    /**
     * `accept_mail`. `received` is the trace header; `how` tells how far a
     * submission got that ended in a queue error.
     */
    method AcceptMail(received: bytes, body: bytes) returns (reply: Reply, ghost how: Failure)
      requires ForeignKeys(store.State())
      modifies this, store
      ensures ForeignKeys(store.State())
      ensures reply.NoSender? <==> old(from).None?
      ensures reply.InvalidRecipient? <==> old(from).Some? && !AllParse(old(rcpts))
      ensures reply.NoSender? ==> from == old(from) && rcpts == old(rcpts) && expectMail == old(expectMail)
      ensures !reply.NoSender? ==> from == None && rcpts == [] && expectMail
      ensures reply.NoSender? || reply.InvalidRecipient? ==> store.State() == old(store.State())
      ensures reply.StorageError? ==> OnlyCounted(old(store.State()), store.State(), OUTBOX)
      ensures reply.QueueError? ==>
        && IsAbandoned(old(store.State()), store.State(), old(from).value, Distinct(Tagged(old(rcpts))), received + body, how)
        && (store.healthy ==> how.flagged && how.expunged)
      ensures reply.QueueError? && how.flagged && how.expunged ==> store.State() == Expunged(Counted(old(store.State())), OUTBOX)
      ensures reply.Accepted? ==> && store.State() == Submitted(old(store.State()), old(from).value, old(rcpts), received + body)
                                  && MailId(OUTBOX, UidNext(old(store.State()), OUTBOX)) !in old(store.mails)
      ensures store.healthy && QueueInv(old(store.State())) && old(from).Some? && AllParse(old(rcpts)) ==> reply.Accepted?
    {
      if from.None? {
        return NoSender, Failure(0, false, false);
      }
      var recipients := ParseRecipients(rcpts);
      if recipients.None? {
        reply, how := InvalidRecipient, Failure(0, false, false);
      } else {
        DistinctIsExact(Tagged(rcpts));
        reply, how := StoreAndEnqueue(store, from.value, recipients.value, received + body);
      }
      Reset();
    }
  }

  method ParseOne(rcpt: string) returns (r: Option<Recipient>)
    ensures r == if Parses(rcpt) then Some(TagOf(rcpt)) else None
  {
    var key := ParseAddress(rcpt);
    if key.None? {
      return None;
    }
    return Some(Recipient(HexEncode(key.value), rcpt));
  }

  /** Parses and deduplicates the recipients before anything is stored. */
  method ParseRecipients(rcpts: seq<string>) returns (recipients: Option<seq<Recipient>>)
    ensures recipients == if AllParse(rcpts) then Some(Distinct(Tagged(rcpts))) else None
  {
    var seen: set<string> := {};
    var out: seq<Recipient> := [];
    ghost var tags: seq<Recipient> := [];
    for i := 0 to |rcpts|
      invariant AllParse(rcpts[..i]) && tags == Tagged(rcpts[..i])
      invariant out == Distinct(tags) && seen == Dests(out)
    {
      var r := ParseOne(rcpts[i]);
      if r.None? {
        SomeDoesNotParse(rcpts, i);
        return None;
      }
      TaggedTake(rcpts, i);
      AllParseTake(rcpts, i);
      OneMoreDistinct(tags, r.value);
      OneMoreDest(out, r.value);
      tags := tags + [r.value];
      if r.value.dest !in seen {
        seen := seen + {r.value.dest};
        out := out + [r.value];
      }
    }
    assert rcpts[..|rcpts|] == rcpts;
    return Some(out);
  }

  lemma SomeDoesNotParse(rcpts: seq<string>, i: nat)
    requires i < |rcpts| && !Parses(rcpts[i])
    ensures !AllParse(rcpts)
  {
    assert rcpts[i] in rcpts;
  }

  lemma OneMoreDest(out: seq<Recipient>, r: Recipient)
    ensures Dests(out + [r]) == Dests(out) + {r.dest}
  {
    assert (out + [r])[..|out|] == out;
  }

  lemma OneMoreDistinct(recipients: seq<Recipient>, r: Recipient)
    ensures Distinct(recipients + [r]) ==
            var earlier := Distinct(recipients);
            if r.dest in Dests(earlier) then earlier else earlier + [r]
  {
    assert (recipients + [r])[..|recipients|] == recipients;
  }

  lemma TaggedMore(rcpts: seq<string>, rcpt: string)
    ensures Tagged(rcpts + [rcpt]) == Tagged(rcpts) + [TagOf(rcpt)]
  {
    MappedMore(rcpts, rcpt, TagOf);
  }

  lemma TaggedTake(rcpts: seq<string>, i: nat)
    requires i < |rcpts|
    ensures Tagged(rcpts[..i + 1]) == Tagged(rcpts[..i]) + [TagOf(rcpts[i])]
  {
    assert rcpts[..i + 1] == rcpts[..i] + [rcpts[i]];
    TaggedMore(rcpts[..i], rcpts[i]);
  }

  lemma AllParseTake(rcpts: seq<string>, i: nat)
    requires i < |rcpts| && AllParse(rcpts[..i]) && Parses(rcpts[i])
    ensures AllParse(rcpts[..i + 1])
  {
    forall r | r in rcpts[..i + 1]
      ensures Parses(r)
    {
      var j :| 0 <= j < i + 1 && rcpts[j] == r;
      assert j < i ==> rcpts[..i][j] == r;
    }
  }

  /** The part of `accept_mail` that writes: the mail, then one row after another. */
  method StoreAndEnqueue(store: Storage, from: string, recipients: seq<Recipient>, content: bytes) returns (reply: Reply, ghost how: Failure)
    requires ForeignKeys(store.State())
    modifies store
    ensures ForeignKeys(store.State())
    ensures reply in {StorageError, QueueError, Accepted}
    ensures reply.StorageError? ==> OnlyCounted(old(store.State()), store.State(), OUTBOX)
    ensures reply.QueueError? ==>
      && IsAbandoned(old(store.State()), store.State(), from, recipients, content, how)
      && (store.healthy ==> how.flagged && how.expunged)
    ensures reply.QueueError? && how.flagged && how.expunged ==> store.State() == Expunged(Counted(old(store.State())), OUTBOX)
    ensures reply.Accepted? ==> var mail := MailId(OUTBOX, UidNext(old(store.State()), OUTBOX));
                                && store.State() == Enqueued(Inserted(old(store.State()), OUTBOX, content), recipients, mail, from)
                                && mail !in old(store.mails)
    ensures store.healthy && QueueInv(old(store.State())) && DistinctDests(recipients) ==> reply.Accepted?
  {
    ghost var before := store.State();
    var inserted := store.InsertWith(OUTBOX, content);
    if inserted.Err? {
      return StorageError, Failure(0, false, false);
    }
    InsertKeepsKeys(before, OUTBOX, content);
    var mail := MailId(OUTBOX, inserted.value);
    var rows := EnqueueRows(store, mail, before, content, recipients, from);
    if rows < |recipients| {
      how := Undo(store, mail, before, content, recipients, rows, from);
      return QueueError, how;
    }
    assert recipients[..|recipients|] == recipients;
    return Accepted, Failure(0, false, false);
  }

  /** One row after another, up to the first that fails. */
  method EnqueueRows(store: Storage, mail: MailId, ghost before: Db, ghost content: bytes, recipients: seq<Recipient>, from: string)
    returns (rows: nat)
    requires ForeignKeys(before) && mail == MailId(OUTBOX, UidNext(before, OUTBOX)) && mail !in before.mails
    requires store.State() == Inserted(before, OUTBOX, content) && ForeignKeys(store.State())
    modifies store
    ensures rows <= |recipients| && ForeignKeys(store.State())
    ensures store.State() == Enqueued(Inserted(before, OUTBOX, content), recipients[..rows], mail, from)
    ensures store.healthy && DistinctDests(recipients) ==> rows == |recipients|
  {
    for i := 0 to |recipients|
      invariant store.State() == Enqueued(Inserted(before, OUTBOX, content), recipients[..i], mail, from) && ForeignKeys(store.State())
    {
      var r := recipients[i];
      RowIsNew(before, content, recipients, i, from);
      assert recipients[..i + 1][..i] == recipients[..i];
      var ok := store.QueueInsert(r.dest, OUTBOX, mail.id, from, r.rcpt);
      if !ok {
        return i;
      }
    }
    return |recipients|;
  }

  ghost predicate DistinctDests(recipients: seq<Recipient>) {
    forall i, j :: 0 <= i < j < |recipients| ==> recipients[i].dest != recipients[j].dest
  }

  /** The next row of a new mail can be inserted. */
  lemma RowIsNew(db: Db, content: bytes, recipients: seq<Recipient>, i: nat, from: string)
    requires ForeignKeys(db) && i < |recipients| && MailId(OUTBOX, UidNext(db, OUTBOX)) !in db.mails
    ensures var mail := MailId(OUTBOX, UidNext(db, OUTBOX));
            DistinctDests(recipients) ==>
              QueueInsertable(Enqueued(Inserted(db, OUTBOX, content), recipients[..i], mail, from), RowOf(recipients[i], mail))
  {
    var mail := MailId(OUTBOX, UidNext(db, OUTBOX));
    EnqueuedRows(Inserted(db, OUTBOX, content), recipients[..i], mail, from);
    DestsAre(recipients[..i], recipients[i].dest);
  }

  /** Flags the new mail deleted and expunges the Outbox. */
  method Undo(store: Storage, mail: MailId, ghost before: Db, ghost content: bytes, ghost recipients: seq<Recipient>, ghost rows: nat, ghost from: string)
    returns (ghost how: Failure)
    requires ForeignKeys(before) && mail == MailId(OUTBOX, UidNext(before, OUTBOX)) && mail !in before.mails && rows < |recipients|
    requires store.State() == Enqueued(Inserted(before, OUTBOX, content), recipients[..rows], mail, from) && ForeignKeys(store.State())
    modifies store
    ensures ForeignKeys(store.State())
    ensures IsAbandoned(before, store.State(), from, recipients, content, how)
    ensures store.healthy ==> how.flagged && how.expunged
    ensures how.flagged && how.expunged ==> store.State() == Expunged(Counted(before), OUTBOX)
  {
    var flagged := store.DeleteMail(OUTBOX, mail.id);
    ghost var marked := store.State();
    var expunged := store.Expunge(OUTBOX);
    how := Failure(rows, flagged, expunged);
    if expunged {
      ExpungeKeepsKeys(marked, OUTBOX);
    }
    UndoneIsExpunged(before, content, recipients[..rows], from);
  }

  lemma UndoneIsExpunged(before: Db, content: bytes, done: seq<Recipient>, from: string)
    requires ForeignKeys(before) && MailId(OUTBOX, UidNext(before, OUTBOX)) !in before.mails
    ensures var mail := MailId(OUTBOX, UidNext(before, OUTBOX));
            Expunged(FlaggedDeleted(Enqueued(Inserted(before, OUTBOX, content), done, mail, from), mail), OUTBOX)
            == Expunged(Counted(before), OUTBOX)
  {
    var mail := MailId(OUTBOX, UidNext(before, OUTBOX));
    var partial := Enqueued(Inserted(before, OUTBOX, content), done, mail, from);
    EnqueuedRows(Inserted(before, OUTBOX, content), done, mail, from);
    PartialIsUndone(before, content, partial, mail);
  }

  lemma PartialIsUndone(before: Db, content: bytes, partial: Db, mail: MailId)
    requires ForeignKeys(before) && mail == MailId(OUTBOX, UidNext(before, OUTBOX)) && mail !in before.mails
    requires partial == Inserted(before, OUTBOX, content).(queue := partial.queue)
    requires forall q :: q in partial.queue ==> q in before.queue || q.mail == mail
    requires forall q :: q in before.queue ==> q in partial.queue && partial.queue[q] == before.queue[q]
    ensures Expunged(FlaggedDeleted(partial, mail), OUTBOX) == Expunged(Counted(before), OUTBOX)
  {
    MarkedIsExtra(before, content, partial, mail);
    ExpungedAway(Counted(before), FlaggedDeleted(partial, mail), mail);
  }

  /** The state to be undone is the state before, the counter apart, with one flagged mail and rows of that mail. */
  ghost predicate IsExtra(db: Db, marked: Db, mail: MailId) {
    && mail in marked.mails && marked.mails[mail].deleted && marked.mails - {mail} == db.mails
    && marked.mailboxes == db.mailboxes && marked.seen == db.seen
    && (forall q :: q in db.queue ==> q in marked.queue && marked.queue[q] == db.queue[q])
    && (forall q :: q in marked.queue && q !in db.queue ==> q.mail == mail)
  }

  lemma MarkedIsExtra(before: Db, content: bytes, partial: Db, mail: MailId)
    requires ForeignKeys(before) && mail == MailId(OUTBOX, UidNext(before, OUTBOX)) && mail !in before.mails
    requires partial == Inserted(before, OUTBOX, content).(queue := partial.queue)
    requires forall q :: q in before.queue ==> q in partial.queue && partial.queue[q] == before.queue[q]
    requires forall q :: q in partial.queue && q !in before.queue ==> q.mail == mail
    ensures IsExtra(Counted(before), FlaggedDeleted(partial, mail), mail)
  {
    assert FlaggedDeleted(partial, mail).mails - {mail} == before.mails;
  }

  lemma ExpungesAlike(db: Db, marked: Db, mail: MailId, m: MailId)
    requires mail !in db.mails && mail.mailbox == OUTBOX && IsExtra(db, marked, mail)
    ensures Expunges(marked, OUTBOX, m) <==> m == mail || Expunges(db, OUTBOX, m)
    ensures m != mail ==> (m in marked.mails <==> m in db.mails) && (m in db.mails ==> marked.mails[m] == db.mails[m])
  {
    assert m != mail ==> (m in marked.mails - {mail} <==> m in marked.mails);
  }

  /** Expunging drops a flagged mail with its rows, as if it had never been there. */
  lemma ExpungedAway(db: Db, marked: Db, mail: MailId)
    requires ForeignKeys(db) && mail !in db.mails && mail.mailbox == OUTBOX && IsExtra(db, marked, mail)
    ensures Expunged(marked, OUTBOX) == Expunged(db, OUTBOX)
  {
    forall m
      ensures Expunges(marked, OUTBOX, m) <==> m == mail || Expunges(db, OUTBOX, m)
      ensures m != mail ==> (m in marked.mails <==> m in db.mails) && (m in db.mails ==> marked.mails[m] == db.mails[m])
    {
      ExpungesAlike(db, marked, mail, m);
    }
    assert Expunged(marked, OUTBOX).mails == Expunged(db, OUTBOX).mails;
    assert Expunged(marked, OUTBOX).queue == Expunged(db, OUTBOX).queue;
  }

  // ---------------------------------------------------------------- all or nothing

  /** The mail belongs to the recipient list under some spelling of the row's destination. */
  predicate Names(rcpts: seq<string>, dest: string) {
    exists i :: 0 <= i < |rcpts| && Dest(rcpts[i]) == dest
  }

  lemma {:induction false} MappedAt(rcpts: seq<string>, tag: string -> Recipient, i: nat)
    requires i < |rcpts|
    ensures |Mapped(rcpts, tag)| == |rcpts| && Mapped(rcpts, tag)[i] == tag(rcpts[i])
  {
    var n := |rcpts| - 1;
    if n > 0 {
      MappedAt(rcpts[..n], tag, if i < n then i else 0);
    }
  }

  lemma MappedMore(rcpts: seq<string>, rcpt: string, tag: string -> Recipient)
    ensures Mapped(rcpts + [rcpt], tag) == Mapped(rcpts, tag) + [tag(rcpt)]
  {
    assert (rcpts + [rcpt])[..|rcpts|] == rcpts;
  }

  lemma DestsOfTagged(rcpts: seq<string>, d: string)
    ensures d in Dests(Tagged(rcpts)) <==> Names(rcpts, d)
  {
    DestsAre(Tagged(rcpts), d);
    if rcpts != [] {
      MappedAt(rcpts, TagOf, 0);
    }
    if Names(rcpts, d) {
      var i :| 0 <= i < |rcpts| && Dest(rcpts[i]) == d;
      MappedAt(rcpts, TagOf, i);
    }
    if i :| 0 <= i < |Tagged(rcpts)| && Tagged(rcpts)[i].dest == d {
      MappedAt(rcpts, TagOf, i);
      assert Dest(rcpts[i]) == d;
    }
  }

  /** 250: one new mail under an unused id, exactly one row per distinct recipient key, nothing else. */
  lemma AcceptedMeansAllRows(db: Db, from: string, rcpts: seq<string>, content: bytes)
    requires QueueInv(db)
    ensures var id := UidNext(db, OUTBOX);
            var mail := MailId(OUTBOX, id);
            var after := Submitted(db, from, rcpts, content);
            && QueueInv(after)
            && mail !in db.mails && after.mails == db.mails[mail := Mail(content, false)]
            && (forall q :: q in after.queue <==> q in db.queue || (q.mail == mail && Names(rcpts, q.dest)))
            && (forall q :: q in db.queue ==> q.mail != mail && after.queue[q] == db.queue[q])
            && |RowsOf(after, mail)| == |Distinct(Tagged(rcpts))|
  {
    var mail := MailId(OUTBOX, UidNext(db, OUTBOX));
    NextIdIsFree(db);
    SubmittedRows(db, from, rcpts, content);
    RowsCounted(db, from, rcpts, content);
    SubmittedKeepsQueue(db, from, rcpts, content);
  }

  lemma SubmittedRows(db: Db, from: string, rcpts: seq<string>, content: bytes)
    requires QueueInv(db)
    ensures var mail := MailId(OUTBOX, UidNext(db, OUTBOX));
            var after := Submitted(db, from, rcpts, content);
            && after == Inserted(db, OUTBOX, content).(queue := after.queue)
            && (forall q :: q in after.queue <==> q in db.queue || (q.mail == mail && Names(rcpts, q.dest)))
            && (forall q :: q in db.queue && q.mail != mail ==> after.queue[q] == db.queue[q])
  {
    var mail := MailId(OUTBOX, UidNext(db, OUTBOX));
    var kept := Distinct(Tagged(rcpts));
    EnqueuedRows(Inserted(db, OUTBOX, content), kept, mail, from);
    DistinctIsExact(Tagged(rcpts));
    var after := Submitted(db, from, rcpts, content);
    forall q
      ensures q in after.queue <==> q in db.queue || (q.mail == mail && Names(rcpts, q.dest))
    {
      DestsOfTagged(rcpts, q.dest);
    }
  }

  lemma SubmittedKeepsQueue(db: Db, from: string, rcpts: seq<string>, content: bytes)
    requires QueueInv(db)
    ensures QueueInv(Submitted(db, from, rcpts, content))
  {
    InsertKeepsQueue(db, OUTBOX, content);
    SubmittedRows(db, from, rcpts, content);
  }

  lemma RowsCounted(db: Db, from: string, rcpts: seq<string>, content: bytes)
    requires QueueInv(db)
    ensures |RowsOf(Submitted(db, from, rcpts, content), MailId(OUTBOX, UidNext(db, OUTBOX)))| == |Distinct(Tagged(rcpts))|
  {
    var mail := MailId(OUTBOX, UidNext(db, OUTBOX));
    var kept := Distinct(Tagged(rcpts));
    NextIdIsFree(db);
    EnqueuedRows(Inserted(db, OUTBOX, content), kept, mail, from);
    DistinctIsExact(Tagged(rcpts));
    CountRows(kept);
    NoEarlierRows(db, mail);
    RowsAreDests(Submitted(db, from, rcpts, content), mail, Dests(kept));
  }

  lemma NoEarlierRows(db: Db, mail: MailId)
    requires RowsOf(db, mail) == {}
    ensures forall q :: q in db.queue ==> q.mail != mail
  {
    forall q | q in db.queue
      ensures q.mail != mail
    {
      assert q !in RowsOf(db, mail);
    }
  }

  lemma {:induction false} RowsAreDests(db: Db, mail: MailId, dests: set<string>)
    requires forall q :: q in RowsOf(db, mail) <==> q.mail == mail && q.dest in dests
    ensures |RowsOf(db, mail)| == |dests|
  {
    SameSize(RowsOf(db, mail), mail, dests);
  }

  lemma {:induction false} SameSize(rows: set<QueueKey>, mail: MailId, dests: set<string>)
    requires forall q :: q in rows <==> q.mail == mail && q.dest in dests
    ensures |rows| == |dests|
  {
    if d :| d in dests {
      var q := QueueKey(d, mail);
      assert q in rows;
      SameSize(rows - {q}, mail, dests - {d});
    } else {
      assert rows == {};
    }
  }

  lemma ExpungeChanges(db: Db)
    requires ForeignKeys(db)
    ensures var after := Expunged(db, OUTBOX);
            after.mails == db.mails && after.queue == db.queue <==> !exists m :: Expunges(db, OUTBOX, m)
  {
    var after := Expunged(db, OUTBOX);
    if m :| Expunges(db, OUTBOX, m) {
      assert m in db.mails && m !in after.mails;
    } else {
      assert after.mails == db.mails && after.queue == db.queue;
    }
  }

  /** Any other answer, rollback done: mails and queue are as before iff no Outbox mail was flagged before. */
  lemma RefusedMeansUnchanged(db: Db)
    requires ForeignKeys(db)
    ensures var after := Expunged(Counted(db), OUTBOX);
            && (forall mb :: mb in db.mailboxes && mb != OUTBOX ==> mb in after.mailboxes && after.mailboxes[mb] == db.mailboxes[mb])
            && (after.mails == db.mails && after.queue == db.queue <==> !exists m :: Expunges(db, OUTBOX, m))
  {
    assert forall m :: Expunges(Counted(db), OUTBOX, m) <==> Expunges(db, OUTBOX, m);
    ExpungeChanges(Counted(db));
  }
}
