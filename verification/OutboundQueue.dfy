// The outbound queue: what keeps its rows attached to mails in the Outbox.
module OutboundQueue {
  import opened Bytes
  import opened Wrappers
  import opened StorageState

  /** Every row names a mail in the Outbox, and the next Outbox id is above every one in use. */
  ghost predicate QueueInv(db: Db) {
    && ForeignKeys(db)
    && OUTBOX in db.mailboxes && SENT in db.mailboxes
    && (forall q :: q in db.queue ==> q.mail.mailbox == OUTBOX)
    && (forall m :: m in db.mails && m.mailbox == OUTBOX ==> m.id < db.mailboxes[OUTBOX])
  }

  /** The next Outbox id has never been used. */
  lemma NextIdIsFree(db: Db)
    requires QueueInv(db)
    ensures MailId(OUTBOX, UidNext(db, OUTBOX)) !in db.mails
    ensures RowsOf(db, MailId(OUTBOX, UidNext(db, OUTBOX))) == {}
  {
  }

  lemma InsertKeepsQueue(db: Db, mailbox: string, content: bytes)
    requires QueueInv(db)
    ensures QueueInv(Inserted(db, mailbox, content))
  {
  }

  lemma EnqueueKeepsQueue(db: Db, key: QueueKey, row: QueueRow)
    requires QueueInv(db) && QueueInsertable(db, key)
    ensures QueueInv(QueueInserted(db, key, row)) <==> key.mail.mailbox == OUTBOX
  {
    var after := QueueInserted(db, key, row);
    assert key in after.queue;
  }

  lemma DequeueKeepsQueue(db: Db, key: QueueKey)
    requires QueueInv(db)
    ensures QueueInv(QueueDeleted(db, key))
  {
  }

  lemma ExpungeKeepsQueue(db: Db, mailbox: string, m: MailId)
    requires QueueInv(db)
    ensures QueueInv(Expunged(db, mailbox)) && QueueInv(FlaggedDeleted(db, m))
  {
  }

  lemma StoreKeepsQueue(db: Db, f: Fingerprint, now: int)
    requires QueueInv(db)
    ensures QueueInv(Stored(db, f, now))
    ensures Stored(db, f, now).queue == db.queue
    ensures forall m :: m in db.mails && m.mailbox == OUTBOX ==> m in Stored(db, f, now).mails && Stored(db, f, now).mails[m] == db.mails[m]
  {
  }

  /** A row of the moved mail goes with it. */
  lemma RowFollows(db: Db, q: QueueKey)
    requires q in db.queue && q.mail.mailbox == OUTBOX && q.mail in db.mails
    ensures QueueKey(q.dest, MailId(SENT, q.mail.id)) in Moved(db, OUTBOX, SENT, q.mail.id).queue
  {
    assert QueueKey(q.dest, MailId(SENT, q.mail.id)) in CascadedRows(db, OUTBOX, SENT, q.mail.id);
  }

  lemma MoveWithoutRows(db: Db, id: nat)
    requires QueueInv(db) && Movable(db, OUTBOX, SENT, id) && RowsOf(db, MailId(OUTBOX, id)) == {}
    ensures QueueInv(Moved(db, OUTBOX, SENT, id)) && Moved(db, OUTBOX, SENT, id).queue == db.queue
  {
    MoveKeepsKeys(db, OUTBOX, SENT, id);
    assert CascadedRows(db, OUTBOX, SENT, id) == {};
    forall q | q in db.queue
      ensures q.mail != MailId(OUTBOX, id)
    {
      assert q !in RowsOf(db, MailId(OUTBOX, id));
    }
  }

  /** Moving a mail out of the Outbox keeps the invariant exactly when no row names it any more. */
  lemma MoveKeepsQueue(db: Db, id: nat)
    requires QueueInv(db) && Movable(db, OUTBOX, SENT, id)
    ensures QueueInv(Moved(db, OUTBOX, SENT, id)) <==> RowsOf(db, MailId(OUTBOX, id)) == {}
    ensures RowsOf(db, MailId(OUTBOX, id)) == {} ==> Moved(db, OUTBOX, SENT, id).queue == db.queue
  {
    if q :| q in RowsOf(db, MailId(OUTBOX, id)) {
      RowFollows(db, q);
    } else {
      MoveWithoutRows(db, id);
    }
  }

  /** The orphan branch of the sender is not reachable: a polled row has its mail in the Outbox. */
  lemma NoOrphans(db: Db, q: QueueKey)
    requires QueueInv(db) && q in db.queue
    ensures MailId(OUTBOX, q.mail.id) in db.mails && q == QueueKey(q.dest, MailId(OUTBOX, q.mail.id))
  {
  }

  // ---------------------------------------------------------------- open

  ghost function IdsIn(db: Db, mailbox: string): set<nat> {
    set m | m in db.mails && m.mailbox == mailbox :: m.id
  }

  /** MAX(id) + 1, or 1 for an empty mailbox. */
  ghost function AboveAll(ids: set<nat>): (n: nat)
    ensures forall i :: i in ids ==> i < n
    ensures n == 1 || (n > 0 && n - 1 in ids)
  {
    if ids == {} then 1
    else
      var i :| i in ids;
      assert forall j :: j in ids ==> j == i || j in ids - {i};
      Max(AboveAll(ids - {i}), i + 1)
  }

  ghost function Max(a: nat, b: nat): nat {
    if a < b then b else a
  }

  /** The table part of `open`: protected mailboxes, uid counters lifted, rows outside the Outbox dropped. */
  ghost function Opened(db: Db): Db {
    var ready := WithMailbox(WithMailbox(WithMailbox(db, INBOX), OUTBOX), SENT);
    ready.(mailboxes := map mb | mb in ready.mailboxes :: Max(ready.mailboxes[mb], AboveAll(IdsIn(db, mb))),
           queue := map q | q in db.queue && q.mail.mailbox == OUTBOX :: db.queue[q])
  }

  lemma CounterLifted(db: Db, m: MailId)
    requires m in db.mails && m.mailbox in db.mailboxes
    ensures m.mailbox in Opened(db).mailboxes && m.id < UidNext(Opened(db), m.mailbox)
  {
    assert m.id in IdsIn(db, m.mailbox);
  }

  lemma OpenLifts(db: Db)
    requires ForeignKeys(db)
    ensures forall m :: m in db.mails ==> m.mailbox in Opened(db).mailboxes && m.id < UidNext(Opened(db), m.mailbox)
  {
    forall m | m in db.mails
      ensures m.mailbox in Opened(db).mailboxes && m.id < UidNext(Opened(db), m.mailbox)
    {
      CounterLifted(db, m);
    }
  }

  lemma OpenKeepsKeys(db: Db)
    requires ForeignKeys(db)
    ensures ForeignKeys(Opened(db)) && Opened(db).mails == db.mails
  {
  }

  /** Whatever the tables held, they satisfy the invariant once opened. */
  lemma OpenEstablishes(db: Db)
    requires ForeignKeys(db)
    ensures QueueInv(Opened(db)) && Opened(db).mails == db.mails
    ensures forall m :: m in db.mails ==> m.id < UidNext(Opened(db), m.mailbox)
  {
    OpenKeepsKeys(db);
    OpenHasMailboxes(db);
    OpenLifts(db);
  }

  /** Opening takes no counter back. */
  lemma OpenLowersNothing(db: Db, mailbox: string)
    requires mailbox in db.mailboxes
    ensures mailbox in Opened(db).mailboxes && UidNext(db, mailbox) <= UidNext(Opened(db), mailbox)
  {
  }

  /** Opening creates the protected mailboxes and forgets no fingerprint. */
  lemma OpenHasMailboxes(db: Db)
    ensures Opened(db).seen == db.seen
    ensures OUTBOX in Opened(db).mailboxes && SENT in Opened(db).mailboxes && INBOX in Opened(db).mailboxes
  {
  }

  lemma OutboxCounterStays(db: Db)
    requires QueueInv(db) && UidNext(db, OUTBOX) > 0
    ensures OUTBOX in Opened(db).mailboxes && UidNext(Opened(db), OUTBOX) == UidNext(db, OUTBOX)
  {
    var n := AboveAll(IdsIn(db, OUTBOX));
    assert n == 1 || n - 1 in IdsIn(db, OUTBOX);
  }

  /** Opening again after orderly work drops no row and reuses no Outbox id. */
  lemma OpenChangesNothing(db: Db)
    requires QueueInv(db) && UidNext(db, OUTBOX) > 0
    ensures Opened(db).queue == db.queue && Opened(db).mails == db.mails
    ensures UidNext(Opened(db), OUTBOX) == UidNext(db, OUTBOX)
  {
    OutboxCounterStays(db);
  }

  // ---------------------------------------------------------------- the sender's statements

  /** Delivered: the row goes, and with the last one the mail moves to Sent if it can. */
  function RowDone(db: Db, dest: string, id: nat, moves: bool): Db {
    var after := QueueDeleted(db, QueueKey(dest, MailId(OUTBOX, id)));
    if moves && RowsOf(after, MailId(OUTBOX, id)) == {} && Movable(after, OUTBOX, SENT, id)
    then Moved(after, OUTBOX, SENT, id) else after
  }

  /** One row goes and no other; its mail leaves the Outbox only with its last row. */
  lemma RowDoneKeepsQueue(db: Db, dest: string, id: nat, moves: bool)
    requires QueueInv(db)
    ensures var after := RowDone(db, dest, id, moves);
            && QueueInv(after)
            && after.queue == QueueDeleted(db, QueueKey(dest, MailId(OUTBOX, id))).queue
            && (forall q :: q in after.queue ==> q.mail in after.mails && after.mails[q.mail] == db.mails[q.mail])
            && (MailId(OUTBOX, id) in db.mails && MailId(OUTBOX, id) !in after.mails ==>
                  RowsOf(after, MailId(OUTBOX, id)) == {} && MailId(SENT, id) in after.mails
                  && after.mails[MailId(SENT, id)] == db.mails[MailId(OUTBOX, id)])
  {
    var next := QueueDeleted(db, QueueKey(dest, MailId(OUTBOX, id)));
    DequeueKeepsQueue(db, QueueKey(dest, MailId(OUTBOX, id)));
    if RowsOf(next, MailId(OUTBOX, id)) == {} && Movable(next, OUTBOX, SENT, id) {
      MoveKeepsQueue(next, id);
    }
  }

  /** Some row names this mail of the Outbox. */
  ghost predicate Awaited(db: Db, id: nat) {
    exists q :: q in db.queue && q.mail == MailId("Outbox", id)
  }

  /** The mail has left the Outbox and is in Sent as it was. */
  ghost predicate Filed(before: Db, after: Db, id: nat) {
    && MailId("Outbox", id) in before.mails && MailId("Outbox", id) !in after.mails
    && MailId("Sent", id) in after.mails && after.mails[MailId("Sent", id)] == before.mails[MailId("Outbox", id)]
  }

  /**
   * Between `before` and `after` every mail with a place in Sent kept it while
   * some row still names it, and was filed once none does.
   */
  ghost predicate FilesServed(before: Db, after: Db) {
    forall id: nat :: Awaited(before, id) && MailId("Sent", id) !in before.mails ==>
      if Awaited(after, id) then MailId("Sent", id) !in after.mails else Filed(before, after, id)
  }

  /** Nothing comes into the Outbox, and nothing in Sent changes. */
  ghost predicate OutgoingKept(before: Db, after: Db) {
    && (forall m :: m in after.mails && m.mailbox == "Outbox" ==> m in before.mails)
    && (forall m :: m in before.mails && m.mailbox == "Sent" ==> m in after.mails && after.mails[m] == before.mails[m])
  }

  /** With the last row that names it, a mail goes to Sent if its id is free there; otherwise it stays. */
  lemma LastRowFiles(db: Db, dest: string, id: nat)
    requires QueueInv(db) && MailId("Outbox", id) in db.mails
    ensures var after := RowDone(db, dest, id, true);
            var last := forall q :: q in db.queue && q.mail == MailId("Outbox", id) ==> q.dest == dest;
            if last && MailId("Sent", id) !in db.mails then Filed(db, after, id) else after.mails == db.mails
  {
    var next := QueueDeleted(db, QueueKey(dest, MailId(OUTBOX, id)));
    assert (forall q :: q in db.queue && q.mail == MailId("Outbox", id) ==> q.dest == dest) <==> RowsOf(next, MailId(OUTBOX, id)) == {} by {
      if q :| q in db.queue && q.mail == MailId("Outbox", id) && q.dest != dest {
        assert q in RowsOf(next, MailId(OUTBOX, id));
      }
    }
  }

  /** Other mails do not notice. */
  lemma OthersNotFiled(db: Db, dest: string, id: nat, moves: bool)
    requires QueueInv(db)
    ensures var after := RowDone(db, dest, id, moves);
            && OutgoingKept(db, after)
            && (forall m: MailId :: m.id != id ==> (m in after.mails <==> m in db.mails))
            && (forall q :: q in db.queue && q.mail.id != id ==> q in after.queue)
            && (forall q :: q in after.queue ==> q in db.queue)
  {
    RowDoneKeepsQueue(db, dest, id, moves);
  }

  lemma RowDoneFiles(db: Db, q: QueueKey)
    requires QueueInv(db) && q in db.queue
    ensures FilesServed(db, RowDone(db, q.dest, q.mail.id, true))
  {
    var after := RowDone(db, q.dest, q.mail.id, true);
    NoOrphans(db, q);
    RowDoneKeepsQueue(db, q.dest, q.mail.id, true);
    LastRowFiles(db, q.dest, q.mail.id);
    OthersNotFiled(db, q.dest, q.mail.id, true);
    forall id: nat | Awaited(db, id) && MailId("Sent", id) !in db.mails
      ensures if Awaited(after, id) then MailId("Sent", id) !in after.mails else Filed(db, after, id)
    {
      var p :| p in db.queue && p.mail == MailId("Outbox", id);
      if id != q.mail.id {
        assert p in after.queue;
      } else if Awaited(after, id) {
        var r :| r in after.queue && r.mail == MailId("Outbox", id);
        assert r.dest != q.dest;
      }
    }
  }

  lemma NothingServed(db: Db, after: Db)
    requires after.queue == db.queue
    requires forall m: MailId :: m.mailbox == "Outbox" || m.mailbox == "Sent" ==> (m in after.mails <==> m in db.mails) && (m in db.mails ==> after.mails[m] == db.mails[m])
    ensures FilesServed(db, after) && OutgoingKept(db, after)
  {
    forall id: nat | Awaited(db, id)
      ensures Awaited(after, id)
    {
      var q :| q in db.queue && q.mail == MailId("Outbox", id);
      assert q in after.queue;
    }
  }

  lemma FilesServedComposes(before: Db, middle: Db, after: Db)
    requires FilesServed(before, middle) && FilesServed(middle, after) && OutgoingKept(before, middle) && OutgoingKept(middle, after)
    requires forall q :: q in after.queue ==> q in middle.queue
    requires forall q :: q in middle.queue ==> q.mail in before.mails && q.mail in middle.mails && middle.mails[q.mail] == before.mails[q.mail]
    ensures FilesServed(before, after) && OutgoingKept(before, after)
  {
    forall id: nat | Awaited(before, id) && MailId("Sent", id) !in before.mails
      ensures if Awaited(after, id) then MailId("Sent", id) !in after.mails else Filed(before, after, id)
    {
      if Awaited(after, id) {
        var q :| q in after.queue && q.mail == MailId("Outbox", id);
        assert q in middle.queue;
      }
    }
  }

  /** The mail has been submitted and its only row so far served: no row is left to count. */
  lemma ServedEarly(db: Db, content: bytes, first: string, row: QueueRow)
    requires QueueInv(db)
    ensures var mail := MailId(OUTBOX, UidNext(db, OUTBOX));
            var submitted := Inserted(db, OUTBOX, content);
            var served := QueueDeleted(QueueInserted(submitted, QueueKey(first, mail), row), QueueKey(first, mail));
            && QueueInv(served) && mail in served.mails && served.queue == db.queue && RowsOf(served, mail) == {}
            && (MailId(SENT, mail.id) in served.mails <==> MailId(SENT, mail.id) in db.mails)
  {
    var mail := MailId(OUTBOX, UidNext(db, OUTBOX));
    NextIdIsFree(db);
    var submitted := Inserted(db, OUTBOX, content);
    InsertKeepsQueue(db, OUTBOX, content);
    var served := QueueDeleted(QueueInserted(submitted, QueueKey(first, mail), row), QueueKey(first, mail));
    assert served.queue == db.queue;
  }

  /** A mail moved from under a row: the row follows it, out of the sender's reach. */
  lemma MovedFromUnder(db: Db, dest: string, id: nat)
    requires QueueInv(db) && MailId(OUTBOX, id) in db.mails && MailId(SENT, id) !in db.mails
    requires QueueKey(dest, MailId(OUTBOX, id)) in db.queue
    ensures var moved := Moved(db, OUTBOX, SENT, id);
            && QueueKey(dest, MailId(SENT, id)) in moved.queue && MailId(OUTBOX, id) !in moved.mails
            && QueueDeleted(moved, QueueKey(dest, MailId(OUTBOX, id))) == moved
            && (forall q :: q in Opened(moved).queue ==> q.mail.id != id)
  {
    var moved := Moved(db, OUTBOX, SENT, id);
    RowFollows(db, QueueKey(dest, MailId(OUTBOX, id)));
    NoRowsLeft(db, id);
    DeletingNothing(moved, QueueKey(dest, MailId(OUTBOX, id)));
  }

  lemma DeletingNothing(db: Db, key: QueueKey)
    requires key !in db.queue
    ensures QueueDeleted(db, key) == db
  {
    assert QueueDeleted(db, key).queue == db.queue;
  }

  /** After the move no row names the mail under the Outbox, and opening drops the moved ones. */
  lemma NoRowsLeft(db: Db, id: nat)
    requires QueueInv(db) && MailId(OUTBOX, id) in db.mails
    ensures forall q :: q in Moved(db, OUTBOX, SENT, id).queue ==> q.mail != MailId(OUTBOX, id)
    ensures forall q :: q in Opened(Moved(db, OUTBOX, SENT, id)).queue ==> q.mail.id != id
  {
  }

  /**
   * At the granularity of single statements the invariant does not hold. The
   * first recipient of a mail being submitted is served between the two inserts
   * of its rows, and the count that finds none is followed by the insert of the
   * second row before the move. That row then names ("Sent", id): the sender
   * finds no mail for it, its clean-up misses it, and the next open drops it.
   */
  lemma InterleavedSubmissionLosesRow(db: Db, content: bytes, first: string, second: string, row: QueueRow)
    requires QueueInv(db) && first != second && MailId(SENT, UidNext(db, OUTBOX)) !in db.mails
    ensures var id := UidNext(db, OUTBOX);
            var mail := MailId(OUTBOX, id);
            var submitted := Inserted(db, OUTBOX, content);
            var served := QueueDeleted(QueueInserted(submitted, QueueKey(first, mail), row), QueueKey(first, mail));
            var enqueued := QueueInserted(served, QueueKey(second, mail), row);
            var moved := Moved(enqueued, OUTBOX, SENT, id);
            && RowsOf(served, mail) == {} && QueueInsertable(served, QueueKey(second, mail)) && Movable(enqueued, OUTBOX, SENT, id)
            && QueueKey(second, MailId(SENT, id)) in moved.queue && mail !in moved.mails
            && QueueDeleted(moved, QueueKey(second, mail)) == moved
            && (forall q :: q in Opened(moved).queue ==> q.mail.id != id)
  {
    var mail := MailId(OUTBOX, UidNext(db, OUTBOX));
    ServedEarly(db, content, first, row);
    var submitted := Inserted(db, OUTBOX, content);
    var served := QueueDeleted(QueueInserted(submitted, QueueKey(first, mail), row), QueueKey(first, mail));
    assert QueueKey(second, mail) !in RowsOf(served, mail);
    EnqueueKeepsQueue(served, QueueKey(second, mail), row);
    MovedFromUnder(QueueInserted(served, QueueKey(second, mail), row), second, mail.id);
  }
}
