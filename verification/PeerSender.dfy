// peer/sender.rs: one pass over the outbound queue.
module PeerSender {
  import opened Bytes
  import opened Wrappers
  import opened Text
  import opened StorageState
  import opened SqliteStorage
  import opened OutboundQueue

  /**
   * What a pass has done for a row: its mail was accepted in this attempt, an
   * index into the link's log, or went home at this reading of the clock.
   */
  datatype Outcome =
    | Accepted(content: bytes, attempt: nat)
    | Home(content: bytes, now: int)

  type Outcomes = map<QueueKey, Outcome>

  /**
   * Between `before` and `now` only rows with an outcome have gone, each with
   * the content its mail had; every other row is still there with its mail.
   */
  ghost predicate Progress(before: Db, now: Db, done: Outcomes) {
    && QueueInv(now)
    && (forall q :: q in now.queue ==> q in before.queue && now.queue[q] == before.queue[q]
                                       && q.mail in before.mails && now.mails[q.mail] == before.mails[q.mail])
    && (forall q :: q in before.queue && q !in now.queue ==> q in done)
    && (forall q :: q in done ==> q in before.queue && q.mail in before.mails && before.mails[q.mail].content == done[q].content)
  }

  /** `queue_delete`, then `queue_count_for_mail`, then the best-effort move to Sent. */
  method FinishRow(store: Storage, dest: string, id: nat) returns (ok: bool)
    requires QueueInv(store.State())
    modifies store
    ensures ok ==> exists moves :: store.State() == RowDone(old(store.State()), dest, id, moves)
    ensures !ok ==> store.State() == old(store.State()) || store.State() == RowDone(old(store.State()), dest, id, false)
    ensures store.healthy ==> ok && store.State() == RowDone(old(store.State()), dest, id, true)
    ensures store.healthy && MailId("Outbox", id) in old(store.mails) ==>
              var last := forall q :: q in old(store.queue) && q.mail == MailId("Outbox", id) ==> q.dest == dest;
              if last && MailId("Sent", id) !in old(store.mails) then Filed(old(store.State()), store.State(), id)
              else store.mails == old(store.mails)
  {
    ghost var before := store.State();
    if MailId("Outbox", id) in store.mails {
      LastRowFiles(before, dest, id);
    }
    var deleted := store.QueueDelete(dest, OUTBOX, id);
    if !deleted { return false; }
    var count := store.QueueCountForMail(OUTBOX, id);
    if count.Err? { return false; }
    assert store.State() == RowDone(before, dest, id, false);
    if count.value == 0 {
      assert RowsOf(store.State(), MailId(OUTBOX, id)) == {};
      var moved := store.MoveMail(OUTBOX, SENT, id);
      assert store.State() == RowDone(before, dest, id, moved);
    }
    return true;
  }

  lemma RowDoneProgress(before: Db, now: Db, done: Outcomes, q: QueueKey, o: Outcome, moves: bool)
    requires Progress(before, now, done) && q in now.queue && o.content == now.mails[q.mail].content
    ensures Progress(before, RowDone(now, q.dest, q.mail.id, moves), done[q := o])
  {
    NoOrphans(now, q);
    RowDoneKeepsQueue(now, q.dest, q.mail.id, moves);
  }

  /** What a pass does to mails that go out: always kept in order, and filed when the store works. */
  ghost predicate Outgoing(before: Db, now: Db, healthy: bool) {
    OutgoingKept(before, now) && (healthy ==> FilesServed(before, now))
  }

  lemma FinishedOutgoing(before: Db, now: Db, done: Outcomes, q: QueueKey, after: Db, moves: bool, healthy: bool)
    requires Progress(before, now, done) && Outgoing(before, now, healthy) && q in now.queue
    requires after == RowDone(now, q.dest, q.mail.id, moves) && (healthy ==> after == RowDone(now, q.dest, q.mail.id, true))
    ensures Outgoing(before, after, healthy)
  {
    NoOrphans(now, q);
    RowDoneFiles(now, q);
    OthersNotFiled(now, q.dest, q.mail.id, moves);
    OutgoingComposes(before, now, after, done, healthy);
  }

  lemma OutgoingComposes(before: Db, middle: Db, after: Db, done: Outcomes, healthy: bool)
    requires Progress(before, middle, done) && Outgoing(before, middle, healthy) && Outgoing(middle, after, healthy)
    requires forall q :: q in after.queue ==> q in middle.queue
    ensures Outgoing(before, after, healthy)
  {
    if healthy {
      NoOrphansAtAll(middle);
      FilesServedComposes(before, middle, after);
    }
  }

  lemma NoOrphansAtAll(db: Db)
    requires QueueInv(db)
    ensures forall q :: q in db.queue ==> q.mail in db.mails
  {
  }

  lemma NothingGone(db: Db, healthy: bool)
    ensures Outgoing(db, db, healthy)
  {
    NothingServed(db, db);
  }

  lemma MoreOutcomes(before: Db, now: Db, done: Outcomes, q: QueueKey, o: Outcome)
    requires Progress(before, now, done) && q in now.queue && o.content == now.mails[q.mail].content
    ensures Progress(before, now, done[q := o])
  {
  }

  // ---------------------------------------------------------------- the rows of one destination

  ghost predicate AllDiffer(rows: seq<QueueKey>) {
    forall i, j :: 0 <= i < j < |rows| ==> rows[i] != rows[j]
  }

  ghost predicate RowsLeft(rows: seq<QueueKey>, i: nat, db: Db) {
    forall j :: i <= j < |rows| ==> rows[j] in db.queue
  }

  ghost predicate RowsGone(rows: seq<QueueKey>, i: nat, db: Db) {
    forall j :: 0 <= j < i && j < |rows| ==> rows[j] !in db.queue
  }

  /** One row has had its turn; the others are still there, and those gone are gone. */
  lemma OneRowOn(rows: seq<QueueKey>, i: nat, before: Db, db: Db)
    requires i < |rows| && AllDiffer(rows) && RowsLeft(rows, i, before)
    requires forall p :: p in before.queue && p != rows[i] ==> p in db.queue
    requires forall p :: p in db.queue ==> p in before.queue
    ensures RowsLeft(rows, i + 1, db)
    ensures RowsGone(rows, i, before) && rows[i] !in db.queue ==> RowsGone(rows, i + 1, db)
  {
  }

  /** With all its rows gone, nothing of the destination is left. */
  lemma NoRowLeft(before: Db, db: Db, done: Outcomes, rows: seq<QueueKey>, dest: string)
    requires Progress(before, db, done) && RowsGone(rows, |rows|, db)
    requires forall q :: q in rows <==> q in before.queue && q.dest == dest
    ensures forall q :: q in db.queue ==> q.dest != dest
  {
    assert forall q :: q in rows ==> q !in db.queue;
  }

  // ---------------------------------------------------------------- the inbound mailboxes

  predicate IsInbound(m: MailId) {
    m.mailbox == INBOX || m.mailbox == CHAT
  }

  /** No counter of an inbound mailbox runs into a mail. */
  ghost predicate InboundFree(db: Db) {
    forall m :: m in db.mails && IsInbound(m) ==> m.id < UidNext(db, m.mailbox)
  }

  /** Nothing of what inbound mail touches has changed. */
  ghost predicate InboundSame(before: Db, db: Db) {
    && db.seen == before.seen
    && (forall m :: IsInbound(m) ==> (m in db.mails <==> m in before.mails) && UidNext(db, m.mailbox) == UidNext(before, m.mailbox))
    && (forall m :: IsInbound(m) && m in before.mails ==> db.mails[m] == before.mails[m])
  }

  /** A mail with these bytes that was not there before, in the mailbox they belong to. */
  ghost predicate IsNewMail(before: Db, db: Db, m: MailId, content: bytes) {
    m in db.mails && m !in before.mails && m.mailbox == InboundMailbox(content) && db.mails[m].content == content
  }

  ghost predicate HasNewMail(before: Db, db: Db, content: bytes) {
    exists m :: IsNewMail(before, db, m, content)
  }

  /** At this time of the clock the mail was a duplicate of one stored before, or it is stored now. */
  ghost predicate AtHome(before: Db, db: Db, f: Fingerprint, now: int) {
    IsDuplicate(before, f, now) || HasNewMail(before, db, f.raw)
  }

  /** Inbound mails stay as they are, and every fingerprint is as noted before or has a new mail. */
  ghost predicate HomeKept(before: Db, db: Db) {
    && (forall m :: m in before.mails && IsInbound(m) ==> m in db.mails && db.mails[m] == before.mails[m])
    && (forall f :: f in db.seen ==> (f in before.seen && before.seen[f] == db.seen[f]) || HasNewMail(before, db, f.raw))
  }

  /** A new mail stays new while inbound mails stay. */
  lemma NewMailStays(before: Db, middle: Db, db: Db, content: bytes)
    requires HasNewMail(before, middle, content)
    requires forall m :: m in middle.mails && IsInbound(m) ==> m in db.mails && db.mails[m] == middle.mails[m]
    ensures HasNewMail(before, db, content)
  {
    var m :| IsNewMail(before, middle, m, content);
    assert IsNewMail(before, db, m, content);
  }

  lemma NewMailIsNew(before: Db, middle: Db, db: Db, content: bytes)
    requires HasNewMail(middle, db, content)
    requires forall m :: m in before.mails && IsInbound(m) ==> m in middle.mails
    ensures HasNewMail(before, db, content)
  {
    var m :| IsNewMail(middle, db, m, content);
    assert IsNewMail(before, db, m, content);
  }

  /** A duplicate in the middle was one before, or its mail has come since. */
  lemma DuplicateIsHome(before: Db, middle: Db, f: Fingerprint, now: int)
    requires HomeKept(before, middle) && IsDuplicate(middle, f, now)
    ensures AtHome(before, middle, f, now)
  {
  }

  lemma InboundSameKeeps(before: Db, middle: Db, db: Db)
    requires InboundSame(middle, db)
    ensures HomeKept(before, middle) ==> HomeKept(before, db)
    ensures forall f, now :: AtHome(before, middle, f, now) ==> AtHome(before, db, f, now)
    ensures InboundFree(middle) ==> InboundFree(db)
  {
    forall content: bytes | HasNewMail(before, middle, content)
      ensures HasNewMail(before, db, content)
    {
      NewMailStays(before, middle, db, content);
    }
  }

  lemma AtHomeComposes(before: Db, middle: Db, db: Db, f: Fingerprint, now: int)
    requires HomeKept(before, middle) && HomeKept(middle, db)
    requires AtHome(middle, db, f, now) || AtHome(before, middle, f, now)
    ensures AtHome(before, db, f, now)
  {
    if HasNewMail(middle, db, f.raw) {
      NewMailIsNew(before, middle, db, f.raw);
    } else {
      if !AtHome(before, middle, f, now) {
        DuplicateIsHome(before, middle, f, now);
      }
      if HasNewMail(before, middle, f.raw) {
        NewMailStays(before, middle, db, f.raw);
      }
    }
  }

  lemma HomeComposes(before: Db, middle: Db, db: Db)
    requires HomeKept(before, middle) && HomeKept(middle, db)
    ensures HomeKept(before, db)
  {
    forall f | f in db.seen
      ensures (f in before.seen && before.seen[f] == db.seen[f]) || HasNewMail(before, db, f.raw)
    {
      if HasNewMail(middle, db, f.raw) {
        NewMailIsNew(before, middle, db, f.raw);
      } else if HasNewMail(before, middle, f.raw) {
        NewMailStays(before, middle, db, f.raw);
      }
    }
  }

  /** The sender's own statements do not touch inbound mail. */
  lemma RowDoneIsOutbound(db: Db, dest: string, id: nat, moves: bool)
    ensures InboundSame(db, RowDone(db, dest, id, moves))
  {
  }

  lemma StoredAtHome(polled: Db, f: Fingerprint, now: int)
    requires StoredAs(polled, f) !in polled.mails
    ensures var home := Stored(polled, f, now);
            && HasNewMail(polled, home, f.raw) && HomeKept(polled, home) && (InboundFree(polled) ==> InboundFree(home))
  {
    var home := Stored(polled, f, now);
    StoredMails(polled, f, now);
    assert IsNewMail(polled, home, StoredAs(polled, f), f.raw);
  }

  /** What storing a mail does to mails, fingerprints and inbound counters. */
  lemma StoredMails(polled: Db, f: Fingerprint, now: int)
    ensures var home := Stored(polled, f, now);
            && home.mails == polled.mails[StoredAs(polled, f) := Mail(f.raw, false)] && IsInbound(StoredAs(polled, f))
            && home.seen == PrunedSeen(polled.seen, now)[f := now]
            && (forall mailbox :: UidNext(home, mailbox) >= UidNext(polled, mailbox))
            && StoredAs(polled, f).id < UidNext(home, StoredAs(polled, f).mailbox)
  {
  }

  // ---------------------------------------------------------------- mail to oneself

  /** Everything done so far was at home before, or is now. */
  ghost predicate AllHome(before: Db, db: Db, dest: string, key: Key, done: Outcomes) {
    forall q :: q in done ==>
      q.dest == dest && done[q].Home? && AtHome(before, db, Fingerprint(key, done[q].content), done[q].now)
  }

  /** What the loop of `deliver_to_self` keeps. */
  ghost predicate SelfInv(before: Db, db: Db, dest: string, key: Key, done: Outcomes) {
    Progress(before, db, done) && AllHome(before, db, dest, key, done) && HomeKept(before, db)
  }

  /** The clock, read anew for each mail; it may do anything. */
  method ReadClock() returns (now: int) {
    now := *;
  }

  /** One turn of the loop of `deliver_to_self`. */
  method DeliverOneToSelf(store: Storage, q: QueueKey, key: Key, ghost before: Db, ghost done: Outcomes)
    returns (ok: bool, ghost all: Outcomes)
    requires q in store.queue && SelfInv(before, store.State(), q.dest, key, done) && Outgoing(before, store.State(), store.healthy)
    modifies store
    ensures SelfInv(before, store.State(), q.dest, key, all) && Outgoing(before, store.State(), store.healthy)
    ensures ok ==> forall p :: p in store.queue <==> p in old(store.queue) && p != q
    ensures InboundFree(old(store.State())) ==> InboundFree(store.State()) && (store.healthy ==> ok)
  {
    NoOrphans(store.State(), q);
    all := done;
    var mail := store.MailGet(OUTBOX, q.mail.id);
    if mail.Err? { return false, all; }
    if mail.value.None? {
      // Unreachable by NoOrphans; the source drops the row here.
      assert false;
    }
    var content := mail.value.value;
    ghost var polled := store.State();
    var now := ReadClock();
    var stored := store.MailInsertInboxDedup(key, content, now);
    if stored.Failed? { return false, all; }
    ghost var home := store.State();
    HomeKeeps(before, polled, home, done, q.dest, key, content, now);
    StoredOutgoing(before, polled, home, Fingerprint(key, content), now, done, store.healthy);
    ok := FinishRow(store, q.dest, q.mail.id);
    if ok || store.State() != home {
      ghost var moves :| store.State() == RowDone(home, q.dest, q.mail.id, moves);
      FinishedOutgoing(before, home, done, q, store.State(), moves, store.healthy);
      DoneAtHome(before, home, done, q, Home(content, now), moves, key);
      all := done[q := Home(content, now)];
    }
  }

  /**
   * `deliver_to_self`: for each row that goes the clock was read, and its mail was
   * within the dedup window of one stored on entry, or is now new in the mailbox
   * its bytes belong to. With a store that works no row is left.
   */
  method DeliverToSelf(store: Storage, dest: string, key: Key) returns (ok: bool, ghost done: Outcomes)
    requires QueueInv(store.State())
    modifies store
    ensures SelfInv(old(store.State()), store.State(), dest, key, done) && Outgoing(old(store.State()), store.State(), store.healthy)
    ensures ok ==> forall q :: q in store.queue ==> q.dest != dest
    ensures InboundFree(old(store.State())) ==> InboundFree(store.State()) && (store.healthy ==> ok)
  {
    done := map[];
    NothingDone(store.State());
    NothingGone(store.State(), store.healthy);
    var rows := store.QueueGetForDestination(dest);
    if rows.Err? { return false, done; }
    for i := 0 to |rows.value|
      invariant SelfInv(old(store.State()), store.State(), dest, key, done) && Outgoing(old(store.State()), store.State(), store.healthy)
      invariant RowsLeft(rows.value, i, store.State()) && RowsGone(rows.value, i, store.State())
      invariant InboundFree(old(store.State())) ==> InboundFree(store.State())
    {
      ghost var before := store.State();
      ok, done := DeliverOneToSelf(store, rows.value[i], key, old(store.State()), done);
      if !ok { return false, done; }
      OneRowOn(rows.value, i, before, store.State());
    }
    NoRowLeft(old(store.State()), store.State(), done, rows.value, dest);
    return true, done;
  }

  lemma StoredOutgoing(before: Db, polled: Db, home: Db, f: Fingerprint, now: int, done: Outcomes, healthy: bool)
    requires Progress(before, polled, done) && Outgoing(before, polled, healthy) && home.queue == polled.queue
    requires home == polled || home == Stored(polled, f, now)
    ensures Outgoing(before, home, healthy)
  {
    if home != polled {
      StoredMails(polled, f, now);
    }
    NothingServed(polled, home);
    OutgoingComposes(before, polled, home, done, healthy);
  }

  lemma HomeKeeps(before: Db, polled: Db, home: Db, done: Outcomes, dest: string, key: Key, content: bytes, now: int)
    requires SelfInv(before, polled, dest, key, done)
    requires var f := Fingerprint(key, content);
             || (IsDuplicate(polled, f, now) && home == polled)
             || (StoredAs(polled, f) !in polled.mails && home == Stored(polled, f, now))
    ensures SelfInv(before, home, dest, key, done) && home.queue == polled.queue
    ensures forall q :: q in polled.queue ==> home.mails[q.mail] == polled.mails[q.mail]
    ensures AtHome(before, home, Fingerprint(key, content), now)
    ensures InboundFree(polled) ==> InboundFree(home)
  {
    var f := Fingerprint(key, content);
    if home == polled {
      DuplicateIsHome(before, polled, f, now);
    } else {
      StoredAtHome(polled, f, now);
      HomeComposes(before, polled, home);
      StoreKeepsQueue(polled, f, now);
      AllHomeStays(before, polled, home, dest, key, done);
      AtHomeComposes(before, polled, home, f, now);
    }
  }

  lemma AllHomeStays(before: Db, middle: Db, db: Db, dest: string, key: Key, done: Outcomes)
    requires HomeKept(before, middle) && HomeKept(middle, db) && AllHome(before, middle, dest, key, done)
    ensures AllHome(before, db, dest, key, done)
  {
    forall q | q in done
      ensures AtHome(before, db, Fingerprint(key, done[q].content), done[q].now)
    {
      AtHomeComposes(before, middle, db, Fingerprint(key, done[q].content), done[q].now);
    }
  }

  lemma DoneAtHome(before: Db, home: Db, done: Outcomes, q: QueueKey, o: Outcome, moves: bool, key: Key)
    requires SelfInv(before, home, q.dest, key, done) && q in home.queue
    requires o.Home? && o.content == home.mails[q.mail].content && AtHome(before, home, Fingerprint(key, o.content), o.now)
    ensures var after := RowDone(home, q.dest, q.mail.id, moves);
            && SelfInv(before, after, q.dest, key, done[q := o])
            && (forall p :: p in after.queue <==> p in home.queue && p != q)
            && (InboundFree(home) ==> InboundFree(after))
  {
    var after := RowDone(home, q.dest, q.mail.id, moves);
    RowDoneProgress(before, home, done, q, o, moves);
    RowGone(home, q, moves);
    InboundSameKeeps(before, home, after);
    MoreAtHome(before, home, after, q.dest, key, done, q, o);
  }

  lemma MoreAtHome(before: Db, home: Db, after: Db, dest: string, key: Key, done: Outcomes, q: QueueKey, o: Outcome)
    requires AllHome(before, home, dest, key, done) && q.dest == dest
    requires o.Home? && AtHome(before, home, Fingerprint(key, o.content), o.now)
    requires forall f, now :: AtHome(before, home, f, now) ==> AtHome(before, after, f, now)
    ensures AllHome(before, after, dest, key, done[q := o])
  {
  }

  /** Exactly this row goes. */
  lemma RowGone(db: Db, q: QueueKey, moves: bool)
    requires QueueInv(db) && q in db.queue
    ensures var after := RowDone(db, q.dest, q.mail.id, moves);
            && (forall p :: p in after.queue <==> p in db.queue && p != q)
            && InboundSame(db, after)
  {
    NoOrphans(db, q);
    RowDoneKeepsQueue(db, q.dest, q.mail.id, moves);
    RowDoneIsOutbound(db, q.dest, q.mail.id, moves);
  }

  // ---------------------------------------------------------------- mail to others

  /** One attempt to deliver and how it was answered. */
  datatype Attempt = Attempt(dest: Key, content: bytes, accepted: bool)

  /** The way to other nodes, with a record of every attempt. */
  class Link {
    var log: seq<Attempt>
    /** Some peer is always up. */
    const meshUp: bool
    /** It is, and every destination accepts what it is sent. */
    const willing: bool

    constructor (meshUp: bool, willing: bool)
      ensures log == [] && this.meshUp == meshUp && this.willing == willing
    {
      log := [];
      this.meshUp, this.willing := meshUp, willing;
    }

    /** The readiness gate: some peer link is up before the deadline. */
    method PeerIsUp() returns (up: bool)
      ensures willing || meshUp ==> up
    {
      up := *;
      up := up || willing || meshUp;
    }

    /** `QuicMailTransport::send`: `true` only when the peer answered 250. */
    method Send(dest: Key, content: bytes) returns (ok: bool)
      modifies this
      ensures log == old(log) + [Attempt(dest, content, ok)]
      ensures willing ==> ok
    {
      ok := *;
      ok := ok || willing;
      log := log + [Attempt(dest, content, ok)];
    }
  }

  /** An attempt of this pass, from `from` on, in which the destination accepted the row's mail. */
  predicate IsAttempt(from: nat, log: seq<Attempt>, key: Key, o: Outcome) {
    o.Accepted? && from <= o.attempt < |log| && log[o.attempt] == Attempt(key, o.content, true)
  }

  /** Different rows have different attempts. */
  ghost predicate OwnAttempts(done: Outcomes) {
    forall q, p :: q in done && p in done && done[q].Accepted? && done[p].Accepted? && done[q].attempt == done[p].attempt ==> q == p
  }

  /** Everything done so far was accepted by the destination, each row in an attempt of its own. */
  ghost predicate AllAccepted(from: nat, log: seq<Attempt>, dest: string, key: Key, done: Outcomes) {
    OwnAttempts(done) && forall q :: q in done ==> q.dest == dest && IsAttempt(from, log, key, done[q])
  }

  /** Since `from` the mail has been offered to the destination and refused. */
  ghost predicate Refused(from: nat, log: seq<Attempt>, key: Key, content: bytes) {
    exists k :: from <= k < |log| && log[k] == Attempt(key, content, false)
  }

  /** The row has gone, or its mail has been refused. */
  ghost predicate HadItsTurn(db: Db, from: nat, log: seq<Attempt>, key: Key, q: QueueKey) {
    q in db.queue ==> q.mail in db.mails && Refused(from, log, key, db.mails[q.mail].content)
  }

  ghost predicate HadTheirTurns(rows: seq<QueueKey>, i: nat, db: Db, from: nat, log: seq<Attempt>, key: Key) {
    forall j :: 0 <= j < i && j < |rows| ==> HadItsTurn(db, from, log, key, rows[j])
  }

  lemma RefusedStays(from: nat, log: seq<Attempt>, later: seq<Attempt>, key: Key, content: bytes)
    requires Refused(from, log, key, content) && log <= later
    ensures Refused(from, later, key, content)
  {
    var k :| from <= k < |log| && log[k] == Attempt(key, content, false);
    assert later[k] == log[k];
  }

  lemma TurnStays(before: Db, middle: Db, db: Db, done: Outcomes, all: Outcomes, from: nat, log: seq<Attempt>, later: seq<Attempt>, key: Key, q: QueueKey)
    requires Progress(before, middle, done) && Progress(before, db, all) && log <= later && HadItsTurn(middle, from, log, key, q)
    requires q in db.queue ==> q in middle.queue
    ensures HadItsTurn(db, from, later, key, q)
  {
    if q in db.queue {
      NoOrphans(db, q);
      RefusedStays(from, log, later, key, middle.mails[q.mail].content);
    }
  }

  /** One more row has had its turn. */
  lemma OneTurnOn(rows: seq<QueueKey>, i: nat, before: Db, middle: Db, db: Db, done: Outcomes, all: Outcomes,
                  from: nat, log: seq<Attempt>, later: seq<Attempt>, key: Key)
    requires i < |rows| && Progress(before, middle, done) && Progress(before, db, all) && log <= later
    requires forall p :: p in db.queue ==> p in middle.queue
    requires HadTheirTurns(rows, i, middle, from, log, key) && HadItsTurn(db, from, later, key, rows[i])
    ensures HadTheirTurns(rows, i + 1, db, from, later, key)
  {
    forall j | 0 <= j < i
      ensures HadItsTurn(db, from, later, key, rows[j])
    {
      TurnStays(before, middle, db, done, all, from, log, later, key, rows[j]);
    }
  }

  /** All rows of the destination that are left have been refused. */
  ghost predicate AllRefused(db: Db, from: nat, log: seq<Attempt>, dest: string, key: Key) {
    forall q :: q in db.queue && q.dest == dest ==> HadItsTurn(db, from, log, key, q)
  }

  lemma AllHadTheirTurns(before: Db, db: Db, done: Outcomes, rows: seq<QueueKey>, from: nat, log: seq<Attempt>, dest: string, key: Key)
    requires Progress(before, db, done) && HadTheirTurns(rows, |rows|, db, from, log, key)
    requires forall q :: q in rows <==> q in before.queue && q.dest == dest
    ensures AllRefused(db, from, log, dest, key)
  {
    forall q | q in db.queue && q.dest == dest
      ensures HadItsTurn(db, from, log, key, q)
    {
      assert q in rows;
      var j :| 0 <= j < |rows| && rows[j] == q;
    }
  }

  lemma OfferRefused(db: Db, from: nat, log: seq<Attempt>, later: seq<Attempt>, key: Key, q: QueueKey, content: bytes, taken: bool)
    requires from <= |log| && later == log + [Attempt(key, content, taken)]
    requires q in db.queue ==> !taken && q.mail in db.mails && db.mails[q.mail].content == content
    ensures HadItsTurn(db, from, later, key, q)
  {
    if q in db.queue {
      assert later[|log|] == Attempt(key, content, false);
    }
  }

  lemma OneMoreAccepted(from: nat, log: seq<Attempt>, dest: string, key: Key, done: Outcomes, q: QueueKey, content: bytes)
    requires AllAccepted(from, log, dest, key, done) && q.dest == dest && from <= |log|
    ensures AllAccepted(from, log + [Attempt(key, content, true)], dest, key, done[q := Accepted(content, |log|)])
  {
  }

  lemma LaterAccepted(from: nat, log: seq<Attempt>, later: seq<Attempt>, dest: string, key: Key, done: Outcomes)
    requires AllAccepted(from, log, dest, key, done) && log <= later
    ensures AllAccepted(from, later, dest, key, done)
  {
  }

  /** The rows of one remote destination: a row goes only when its mail was accepted, in an attempt made for it. */
  method ProcessDestination(store: Storage, link: Link, dest: string, key: Key) returns (ok: bool, ghost done: Outcomes)
    requires QueueInv(store.State())
    modifies store, link
    ensures Progress(old(store.State()), store.State(), done) && InboundSame(old(store.State()), store.State())
    ensures Outgoing(old(store.State()), store.State(), store.healthy)
    ensures AllAccepted(|old(link.log)|, link.log, dest, key, done) && old(link.log) <= link.log
    ensures store.healthy && link.willing ==> ok && forall q :: q in store.queue ==> q.dest != dest
    ensures store.healthy && link.meshUp ==> ok && AllRefused(store.State(), |old(link.log)|, link.log, dest, key)
  {
    done := map[];
    NothingGone(store.State(), store.healthy);
    var rows := store.QueueGetForDestination(dest);
    if rows.Err? { return false, done; }
    for i := 0 to |rows.value|
      invariant Progress(old(store.State()), store.State(), done) && InboundSame(old(store.State()), store.State())
      invariant Outgoing(old(store.State()), store.State(), store.healthy)
      invariant AllAccepted(|old(link.log)|, link.log, dest, key, done) && old(link.log) <= link.log
      invariant RowsLeft(rows.value, i, store.State())
      invariant store.healthy && link.willing ==> RowsGone(rows.value, i, store.State())
      invariant store.healthy && link.meshUp ==> HadTheirTurns(rows.value, i, store.State(), |old(link.log)|, link.log, key)
    {
      ghost var before, log, sofar := store.State(), link.log, done;
      ok, done := DeliverOne(store, link, rows.value[i], key, old(store.State()), |old(link.log)|, done);
      if !ok { return false, done; }
      OneRowOn(rows.value, i, before, store.State());
      if store.healthy && link.meshUp {
        OneTurnOn(rows.value, i, old(store.State()), before, store.State(), sofar, done, |old(link.log)|, log, link.log, key);
      }
    }
    if store.healthy && link.meshUp {
      AllHadTheirTurns(old(store.State()), store.State(), done, rows.value, |old(link.log)|, link.log, dest, key);
    }
    if RowsGone(rows.value, |rows.value|, store.State()) {
      NoRowLeft(old(store.State()), store.State(), done, rows.value, dest);
    }
    return true, done;
  }

  /** One turn of the loop over a destination's rows. A refused mail keeps its row. */
  method DeliverOne(store: Storage, link: Link, q: QueueKey, key: Key, ghost before: Db, ghost from: nat, ghost done: Outcomes)
    returns (ok: bool, ghost all: Outcomes)
    requires q in store.queue && Progress(before, store.State(), done) && Outgoing(before, store.State(), store.healthy)
    requires from <= |link.log| && AllAccepted(from, link.log, q.dest, key, done)
    modifies store, link
    ensures Progress(before, store.State(), all) && InboundSame(old(store.State()), store.State())
    ensures Outgoing(before, store.State(), store.healthy)
    ensures AllAccepted(from, link.log, q.dest, key, all) && old(link.log) <= link.log
    ensures forall p :: p in old(store.queue) && p != q ==> p in store.queue
    ensures forall p :: p in store.queue ==> p in old(store.queue)
    ensures store.healthy && link.log != old(link.log) ==>
              && q.mail in old(store.mails)
              && var attempt := Attempt(key, old(store.mails)[q.mail].content, q !in store.queue);
                 link.log == old(link.log) + [attempt]
    ensures store.healthy && link.willing ==> ok && q !in store.queue
    ensures store.healthy && link.meshUp ==> ok && HadItsTurn(store.State(), from, link.log, key, q)
  {
    NoOrphans(store.State(), q);
    all := done;
    var mail := store.MailGet(OUTBOX, q.mail.id);
    if mail.Err? { return false, all; }
    if mail.value.None? {
      // Unreachable by NoOrphans; the source drops the row here.
      assert false;
    }
    var content := mail.value.value;
    var up := link.PeerIsUp();
    if !up { return false, all; }
    ghost var log := link.log;
    var accepted := link.Send(key, content);
    LaterAccepted(from, log, link.log, q.dest, key, done);
    if !accepted {
      OfferRefused(store.State(), from, log, link.log, key, q, content, false);
      return true, all;
    }
    ghost var polled := store.State();
    ghost var o := Accepted(content, |log|);
    MoreOutcomes(before, polled, done, q, o);
    OneMoreAccepted(from, log, q.dest, key, done, q, content);
    all := done[q := o];
    ok := FinishRow(store, q.dest, q.mail.id);
    if ok || store.State() != polled {
      ghost var moves :| store.State() == RowDone(polled, q.dest, q.mail.id, moves);
      RowDoneProgress(before, polled, done, q, o, moves);
      FinishedOutgoing(before, polled, done, q, store.State(), moves, store.healthy);
      RowGone(polled, q, moves);
    }
  }

  // ---------------------------------------------------------------- the pass

  lemma ProgressComposes(before: Db, middle: Db, now: Db, first: Outcomes, second: Outcomes)
    requires Progress(before, middle, first) && Progress(middle, now, second)
    ensures Progress(before, now, first + second)
  {
    forall q | q in second
      ensures q in before.queue && q.mail in before.mails && before.mails[q.mail].content == second[q].content
    {
      assert q in middle.queue;
    }
  }

  predicate IsAddress(dest: string) {
    HexDecode(dest).Some? && |HexDecode(dest).value| == 32
  }

  /** The row's exact mail was accepted by its destination in this pass, or, for a mail to oneself, is at home. */
  ghost predicate RightFor(before: Db, db: Db, from: nat, log: seq<Attempt>, own: Key, q: QueueKey, o: Outcome) {
    && IsAddress(q.dest)
    && var key := HexDecode(q.dest).value;
       if key == own then o.Home? && AtHome(before, db, Fingerprint(own, o.content), o.now) else IsAttempt(from, log, key, o)
  }

  /** So for every row done, and no two rows share an attempt. */
  ghost predicate DoneRight(before: Db, db: Db, from: nat, log: seq<Attempt>, own: Key, done: Outcomes) {
    OwnAttempts(done) && forall q :: q in done ==> RightFor(before, db, from, log, own, q, done[q])
  }

  /** What a pass keeps. */
  ghost predicate PassInv(before: Db, db: Db, from: nat, log: seq<Attempt>, own: Key, done: Outcomes) {
    Progress(before, db, done) && DoneRight(before, db, from, log, own, done) && HomeKept(before, db)
  }

  /** The store works, peers are up and accept, and no counter runs into a mail. */
  ghost predicate AllWell(store: Storage, link: Link)
    reads store
  {
    store.healthy && link.willing && InboundFree(store.State())
  }

  /** The store works, some peer is up, and no counter runs into a mail. */
  ghost predicate MeshWell(store: Storage, link: Link)
    reads store
  {
    store.healthy && link.meshUp && InboundFree(store.State())
  }

  /** Rows of this destination that are left: it names no key, or another node's, which refused their mails. */
  ghost predicate DestOffered(db: Db, from: nat, log: seq<Attempt>, own: Key, dest: string) {
    forall q :: q in db.queue && q.dest == dest && IsAddress(dest) ==>
      HexDecode(dest).value != own && HadItsTurn(db, from, log, HexDecode(dest).value, q)
  }

  /** So for every destination but the rest. */
  ghost predicate AllOffered(db: Db, from: nat, log: seq<Attempt>, own: Key, rest: set<string>) {
    forall q :: q in db.queue && q.dest !in rest && IsAddress(q.dest) ==>
      HexDecode(q.dest).value != own && HadItsTurn(db, from, log, HexDecode(q.dest).value, q)
  }

  lemma EarlierTurn(before: Db, middle: Db, db: Db, first: Outcomes, second: Outcomes, from: nat, log: seq<Attempt>, later: seq<Attempt>, key: Key, q: QueueKey)
    requires Progress(before, middle, first) && Progress(middle, db, second) && log <= later && HadItsTurn(middle, from, log, key, q)
    ensures HadItsTurn(db, from, later, key, q)
  {
    if q in db.queue {
      NoOrphans(db, q);
      RefusedStays(from, log, later, key, middle.mails[q.mail].content);
    }
  }

  lemma LaterTurn(db: Db, from: nat, reached: nat, log: seq<Attempt>, key: Key, q: QueueKey)
    requires from <= reached && HadItsTurn(db, reached, log, key, q)
    ensures HadItsTurn(db, from, log, key, q)
  {
  }

  lemma MoreOffered(before: Db, middle: Db, db: Db, first: Outcomes, second: Outcomes, from: nat, reached: seq<Attempt>, log: seq<Attempt>, own: Key,
                    rest: set<string>, dest: string)
    requires Progress(before, middle, first) && Progress(middle, db, second) && from <= |reached| && reached <= log
    requires AllOffered(middle, from, reached, own, rest + {dest}) && DestOffered(db, |reached|, log, own, dest)
    ensures AllOffered(db, from, log, own, rest)
  {
    forall q | q in db.queue && q.dest !in rest && IsAddress(q.dest)
      ensures HexDecode(q.dest).value != own && HadItsTurn(db, from, log, HexDecode(q.dest).value, q)
    {
      if q.dest == dest {
        LaterTurn(db, from, |reached|, log, HexDecode(q.dest).value, q);
      } else {
        assert q in middle.queue;
        EarlierTurn(before, middle, db, first, second, from, reached, log, HexDecode(q.dest).value, q);
      }
    }
  }

  /**
   * `process_queue`: whatever fails and wherever it stops, a row has gone only
   * if its mail was delivered in this pass, over the network in an attempt of its
   * own; no other row and no mail of a row has changed.
   * And when nothing fails, every row that names a key has gone. While the
   * store works, a mail whose last row went is in Sent as it was, if its id was
   * free there; and if some peer is up, every row that names a key and is still
   * there has been offered in this pass and refused: no mail waits for another.
   */
  method ProcessQueue(store: Storage, link: Link, own: Key) returns (ok: bool, ghost done: Outcomes)
    requires QueueInv(store.State())
    modifies store, link
    ensures PassInv(old(store.State()), store.State(), |old(link.log)|, link.log, own, done)
    ensures store.healthy ==>
              forall id: nat :: Awaited(old(store.State()), id) && !Awaited(store.State(), id) && MailId("Sent", id) !in old(store.mails) ==>
                Filed(old(store.State()), store.State(), id)
    ensures old(AllWell(store, link)) ==> ok && AllWell(store, link) && forall q :: q in store.queue ==> !IsAddress(q.dest)
    ensures old(MeshWell(store, link)) ==> ok && AllOffered(store.State(), |old(link.log)|, link.log, own, {})
  {
    ghost var before := store.State();
    done := map[];
    NothingDone(before);
    NothingGone(before, store.healthy);
    var listed := store.QueueListDestinations();
    if listed.Err? { return false, done; }
    var dests := listed.value;
    while dests != {}
      invariant PassInv(before, store.State(), |old(link.log)|, link.log, own, done) && old(link.log) <= link.log
      invariant Outgoing(before, store.State(), store.healthy)
      invariant old(AllWell(store, link)) ==> AllWell(store, link)
      invariant old(AllWell(store, link)) ==> forall q :: q in store.queue && IsAddress(q.dest) ==> q.dest in dests
      invariant old(MeshWell(store, link)) ==> MeshWell(store, link) && AllOffered(store.State(), |old(link.log)|, link.log, own, dests)
      decreases |dests|
    {
      var dest :| dest in dests;
      dests := dests - {dest};
      ghost var middle, reached := store.State(), link.log;
      ghost var more;
      ok, more := ProcessOneDestination(store, link, own, dest);
      if old(MeshWell(store, link)) {
        MoreOffered(before, middle, store.State(), done, more, |old(link.log)|, reached, link.log, own, dests, dest);
      }
      OutgoingComposes(before, middle, store.State(), done, store.healthy);
      PassComposes(before, middle, store.State(), |old(link.log)|, reached, link.log, own, done, more);
      done := done + more;
      if !ok { return false, done; }
    }
    return true, done;
  }

  method ProcessOneDestination(store: Storage, link: Link, own: Key, dest: string) returns (ok: bool, ghost done: Outcomes)
    requires QueueInv(store.State())
    modifies store, link
    ensures PassInv(old(store.State()), store.State(), |old(link.log)|, link.log, own, done)
    ensures old(link.log) <= link.log && Outgoing(old(store.State()), store.State(), store.healthy)
    ensures forall q :: q in store.queue ==> q in old(store.queue)
    ensures old(AllWell(store, link)) ==> ok && AllWell(store, link)
    ensures old(AllWell(store, link)) && IsAddress(dest) ==> forall q :: q in store.queue ==> q.dest != dest
    ensures old(MeshWell(store, link)) ==> ok && MeshWell(store, link) && DestOffered(store.State(), |old(link.log)|, link.log, own, dest)
  {
    var key := HexDecode(dest);
    NothingDone(store.State());
    NothingGone(store.State(), store.healthy);
    if key.None? || |key.value| != 32 {
      return true, map[];
    }
    if key.value == own {
      ok, done := DeliverToSelf(store, dest, own);
    } else {
      ghost var before := store.State();
      ok, done := ProcessDestination(store, link, dest, key.value);
      InboundSameKeeps(before, before, store.State());
    }
  }

  lemma PassComposes(before: Db, middle: Db, db: Db, from: nat, reached: seq<Attempt>, log: seq<Attempt>, own: Key,
                     first: Outcomes, second: Outcomes)
    requires PassInv(before, middle, from, reached, own, first) && PassInv(middle, db, |reached|, log, own, second)
    requires from <= |reached| && reached <= log
    ensures PassInv(before, db, from, log, own, first + second)
  {
    ProgressComposes(before, middle, db, first, second);
    HomeComposes(before, middle, db);
    OwnAttemptsCompose(before, middle, db, from, reached, log, own, first, second);
    forall q | q in first + second
      ensures RightFor(before, db, from, log, own, q, (first + second)[q])
    {
      RightComposes(before, middle, db, from, reached, log, own, q, (first + second)[q], q in second);
    }
  }

  lemma RightComposes(before: Db, middle: Db, db: Db, from: nat, reached: seq<Attempt>, log: seq<Attempt>, own: Key,
                      q: QueueKey, o: Outcome, later: bool)
    requires HomeKept(before, middle) && HomeKept(middle, db) && from <= |reached| && reached <= log
    requires if later then RightFor(middle, db, |reached|, log, own, q, o) else RightFor(before, middle, from, reached, own, q, o)
    ensures RightFor(before, db, from, log, own, q, o)
  {
    if HexDecode(q.dest).value == own {
      AtHomeComposes(before, middle, db, Fingerprint(own, o.content), o.now);
    }
  }

  lemma OwnAttemptsCompose(before: Db, middle: Db, db: Db, from: nat, reached: seq<Attempt>, log: seq<Attempt>, own: Key,
                           first: Outcomes, second: Outcomes)
    requires DoneRight(before, middle, from, reached, own, first) && DoneRight(middle, db, |reached|, log, own, second)
    ensures OwnAttempts(first + second)
  {
    forall q | q in first && first[q].Accepted?
      ensures first[q].attempt < |reached|
    {
      assert RightFor(before, middle, from, reached, own, q, first[q]);
    }
    forall q | q in second && second[q].Accepted?
      ensures second[q].attempt >= |reached|
    {
      assert RightFor(middle, db, |reached|, log, own, q, second[q]);
    }
  }

  lemma NothingDone(db: Db)
    requires QueueInv(db)
    ensures Progress(db, db, map[]) && HomeKept(db, db)
  {
  }
}
