// The store as an object: each method runs its statements in the order of
// storage/mod.rs, storage/mails.rs and storage/queue.rs, and any statement may fail.
module SqliteStorage {
  import opened Bytes
  import opened Wrappers
  import opened StorageState

  datatype DbError = DbError

  datatype StoreOutcome = New(id: nat) | Duplicate | Failed

  /** The uid counter may have moved and the mailbox may exist; nothing else has changed. */
  predicate OnlyCounted(before: Db, after: Db, mailbox: string) {
    after == before || after == WithMailbox(before, mailbox) || after == Bumped(WithMailbox(before, mailbox), mailbox)
  }

  class Storage {
    var mailboxes: map<string, nat>
    var mails: map<MailId, Mail>
    var queue: map<QueueKey, QueueRow>
    var seen: map<Fingerprint, int>
    /** No statement ever fails but for a constraint. */
    const healthy: bool

    function State(): Db
      reads this
    {
      Db(mailboxes, mails, queue, seen)
    }

    constructor (healthy: bool)
      ensures State() == Db(map[], map[], map[], map[]) && this.healthy == healthy
    {
      mailboxes, mails, queue, seen := map[], map[], map[], map[];
      this.healthy := healthy;
    }

    /** Whether the next statement fails for a reason outside the model (disk, lock). */
    method Broken() returns (broken: bool)
      ensures healthy ==> !broken
    {
      broken := *;
      broken := broken && !healthy;
    }

    /** `insert_with`: four statements, each committed on its own. */
    method InsertWith(mailbox: string, content: bytes) returns (r: Result<nat, DbError>)
      modifies this
      ensures r.Ok? ==> && r.value == UidNext(old(State()), mailbox) && MailId(mailbox, r.value) !in old(mails)
                        && State() == Inserted(old(State()), mailbox, content)
      ensures r.Err? ==> OnlyCounted(old(State()), State(), mailbox)
      ensures healthy ==> (r.Ok? <==> MailId(mailbox, UidNext(old(State()), mailbox)) !in old(mails))
    {
      var broken := Broken();
      if broken { return Err(DbError); }
      if mailbox !in mailboxes {
        mailboxes := mailboxes[mailbox := 1];
      }
      broken := Broken();
      if broken { return Err(DbError); }
      var id := mailboxes[mailbox];
      broken := Broken();
      if broken { return Err(DbError); }
      mailboxes := mailboxes[mailbox := mailboxes[mailbox] + 1];
      broken := Broken();
      if broken || MailId(mailbox, id) in mails { return Err(DbError); }
      mails := mails[MailId(mailbox, id) := Mail(content, false)];
      return Ok(id);
    }

    /** `mail_get`; at-rest encryption is a separate concern. */
    method MailGet(mailbox: string, id: nat) returns (r: Result<Option<bytes>, DbError>)
      ensures healthy ==> r.Ok?
      ensures r.Ok? ==> r.value == if MailId(mailbox, id) in mails then Some(mails[MailId(mailbox, id)].content) else None
    {
      var broken := Broken();
      if broken { return Err(DbError); }
      return Ok(if MailId(mailbox, id) in mails then Some(mails[MailId(mailbox, id)].content) else None);
    }

    method DeleteMail(mailbox: string, id: nat) returns (ok: bool)
      modifies this`mails
      ensures healthy ==> ok
      ensures State() == if ok then FlaggedDeleted(old(State()), MailId(mailbox, id)) else old(State())
      ensures forall m :: m in mails <==> m in old(mails)
      ensures forall m :: m in mails ==>
                mails[m] == if ok && m == MailId(mailbox, id) then old(mails)[m].(deleted := true) else old(mails)[m]
    {
      var broken := Broken();
      if broken { return false; }
      var m := MailId(mailbox, id);
      if m in mails {
        mails := mails[m := mails[m].(deleted := true)];
      }
      return true;
    }

    method Expunge(mailbox: string) returns (ok: bool)
      modifies this`mails, this`queue
      ensures healthy ==> ok
      ensures State() == if ok then Expunged(old(State()), mailbox) else old(State())
      ensures ok ==> forall m :: m in mails <==> m in old(mails) && !(m.mailbox == mailbox && old(mails)[m].deleted)
      ensures ok ==> forall q :: q in queue <==> q in old(queue) && !(q.mail in old(mails) && q.mail.mailbox == mailbox && old(mails)[q.mail].deleted)
    {
      var broken := Broken();
      if broken { return false; }
      var doomed := set m | m in mails && m.mailbox == mailbox && mails[m].deleted;
      ExpungedInSteps(State(), mailbox, doomed);
      queue := map q | q in queue && q.mail !in doomed :: queue[q];
      mails := mails - doomed;
      return true;
    }

    method MoveMail(from: string, to: string, id: nat) returns (ok: bool)
      modifies this`mails, this`queue
      ensures ok ==> Movable(old(State()), from, to, id)
      ensures healthy ==> ok == Movable(old(State()), from, to, id)
      ensures State() == if ok then Moved(old(State()), from, to, id) else old(State())
      ensures ok && MailId(from, id) in old(mails) && from != to ==>
                && MailId(to, id) !in old(mails) && to in mailboxes
                && (forall m :: m in mails <==> m == MailId(to, id) || (m in old(mails) && m != MailId(from, id)))
                && mails[MailId(to, id)] == old(mails)[MailId(from, id)]
    {
      var broken := Broken();
      if broken { return false; }
      var source, target := MailId(from, id), MailId(to, id);
      if source !in mails || from == to {
        return true;
      }
      if target in mails || to !in mailboxes {
        return false;
      }
      var before := State();
      var mail := mails[source];
      mails := (map m | m in mails && m != source :: mails[m])[target := mail];
      var moved := map q | q in CascadedRows(before, from, to, id) :: queue[QueueKey(q.dest, source)];
      queue := (map q | q in queue && q.mail != source :: queue[q]) + moved;
      return true;
    }

    method QueueInsert(dest: string, mailbox: string, id: nat, from: string, rcpt: string) returns (ok: bool)
      modifies this`queue
      ensures ok ==> QueueInsertable(old(State()), QueueKey(dest, MailId(mailbox, id)))
      ensures healthy ==> ok == QueueInsertable(old(State()), QueueKey(dest, MailId(mailbox, id)))
      ensures State() == if ok then QueueInserted(old(State()), QueueKey(dest, MailId(mailbox, id)), QueueRow(from, rcpt))
                         else old(State())
      ensures ok ==> queue == old(queue)[QueueKey(dest, MailId(mailbox, id)) := QueueRow(from, rcpt)] && MailId(mailbox, id) in mails
    {
      var broken := Broken();
      var key := QueueKey(dest, MailId(mailbox, id));
      if broken || key in queue || key.mail !in mails { return false; }
      queue := queue[key := QueueRow(from, rcpt)];
      return true;
    }

    method QueueDelete(dest: string, mailbox: string, id: nat) returns (ok: bool)
      modifies this`queue
      ensures healthy ==> ok
      ensures State() == if ok then QueueDeleted(old(State()), QueueKey(dest, MailId(mailbox, id))) else old(State())
      ensures ok ==> forall q :: q in queue <==> q in old(queue) && q != QueueKey(dest, MailId(mailbox, id))
    {
      var broken := Broken();
      if broken { return false; }
      queue := map q | q in queue && q != QueueKey(dest, MailId(mailbox, id)) :: queue[q];
      return true;
    }

    /** Rows for one destination, the newest mail first. */
    method QueueGetForDestination(dest: string) returns (r: Result<seq<QueueKey>, DbError>)
      ensures healthy ==> r.Ok?
      ensures r.Ok? ==> && (forall q :: q in r.value <==> q in queue && q.dest == dest)
                        && (forall i, j :: 0 <= i < j < |r.value| ==> r.value[i] != r.value[j] && r.value[i].mail.id >= r.value[j].mail.id)
    {
      var broken := Broken();
      if broken { return Err(DbError); }
      var rest := set q | q in queue && q.dest == dest;
      var rows: seq<QueueKey> := [];
      while rest != {}
        invariant forall q :: q in queue && q.dest == dest <==> q in rest || q in rows
        invariant forall q :: q in rows ==> q !in rest
        invariant forall q, p :: q in rows && p in rest ==> q.mail.id >= p.mail.id
        invariant forall i, j :: 0 <= i < j < |rows| ==> rows[i] != rows[j] && rows[i].mail.id >= rows[j].mail.id
        decreases |rest|
      {
        NewestExists(rest);
        var q :| q in rest && forall p :: p in rest ==> p.mail.id <= q.mail.id;
        rows := rows + [q];
        rest := rest - {q};
      }
      return Ok(rows);
    }

    method QueueListDestinations() returns (r: Result<set<string>, DbError>)
      ensures healthy ==> r.Ok?
      ensures r.Ok? ==> forall d :: d in r.value <==> exists q :: q in queue && q.dest == d
    {
      var broken := Broken();
      if broken { return Err(DbError); }
      return Ok(set q | q in queue :: q.dest);
    }

    method QueueCountForMail(mailbox: string, id: nat) returns (r: Result<nat, DbError>)
      ensures healthy ==> r.Ok?
      ensures r.Ok? ==> r.value == |RowsOf(State(), MailId(mailbox, id))|
    {
      var broken := Broken();
      if broken { return Err(DbError); }
      return Ok(|set q | q in queue && q.mail == MailId(mailbox, id)|);
    }

    /** `mail_insert_inbox_dedup`: one transaction, undone by every return but the last. */
    method MailInsertInboxDedup(from: Key, raw: bytes, now: int) returns (r: StoreOutcome)
      modifies this
      ensures var f := Fingerprint(from, raw);
              match r
              case New(id) => !IsDuplicate(old(State()), f, now) && MailId(InboundMailbox(raw), id) == StoredAs(old(State()), f)
                              && MailId(InboundMailbox(raw), id) !in old(mails) && State() == Stored(old(State()), f, now)
              case Duplicate => IsDuplicate(old(State()), f, now) && State() == old(State())
              case Failed => State() == old(State())
                             && (healthy ==> !IsDuplicate(old(State()), f, now) && StoredAs(old(State()), f) in old(mails))
    {
      var f := Fingerprint(from, raw);
      var before := State();
      var broken := Broken();
      if broken { return Failed; }
      PruneSeen(now);
      broken := Broken();
      if broken { Rollback(before); return Failed; }
      if f in seen {
        Rollback(before);
        return Duplicate;
      }
      seen := seen[f := now];
      var inserted := InsertNoted(f, before, now);
      broken := Broken();
      if inserted.Err? || broken { Rollback(before); return Failed; }
      return New(inserted.value);
    }

    method PruneSeen(now: int)
      modifies this`seen
      ensures State() == Pruned(old(State()), now)
    {
      seen := map x | x in seen && !(seen[x] < now - DEDUP_WINDOW_SECS) :: seen[x];
    }

    /** The rest of the transaction, once the fingerprint is noted. */
    method InsertNoted(f: Fingerprint, ghost before: Db, ghost now: int) returns (r: Result<nat, DbError>)
      requires State() == Pruned(before, now).(seen := PrunedSeen(before.seen, now)[f := now])
      modifies this
      ensures r.Ok? ==> && MailId(InboundMailbox(f.raw), r.value) == StoredAs(before, f) && StoredAs(before, f) !in before.mails
                        && State() == Stored(before, f, now)
      ensures healthy && r.Err? ==> StoredAs(before, f) in before.mails
    {
      ghost var noted := State();
      var mailbox := InboundMailbox(f.raw);
      if mailbox != INBOX {
        var broken := Broken();
        if broken { return Err(DbError); }
        if mailbox !in mailboxes {
          mailboxes := mailboxes[mailbox := 1];
        }
      }
      StoredInSteps(before, f, now, noted, State());
      r := InsertWith(mailbox, f.raw);
    }

    method Rollback(before: Db)
      modifies this
      ensures State() == before
    {
      mailboxes, mails, queue, seen := before.mailboxes, before.mails, before.queue, before.seen;
    }
  }

  /** Dropping the flagged mails and their rows is the expunge. */
  lemma ExpungedInSteps(db: Db, mailbox: string, doomed: set<MailId>)
    requires forall m :: m in doomed <==> m in db.mails && m.mailbox == mailbox && db.mails[m].deleted
    ensures Expunged(db, mailbox) == db.(mails := db.mails - doomed, queue := map q | q in db.queue && q.mail !in doomed :: db.queue[q])
  {
    assert forall m :: m in doomed <==> Expunges(db, mailbox, m);
    assert Expunged(db, mailbox).mails == db.mails - doomed;
  }

  /** Noting the fingerprint, creating the mailbox and inserting make up the whole store. */
  lemma StoredInSteps(before: Db, f: Fingerprint, now: int, noted: Db, ready: Db)
    requires noted == Pruned(before, now).(seen := PrunedSeen(before.seen, now)[f := now])
    requires ready == noted || ready == WithMailbox(noted, InboundMailbox(f.raw))
    ensures Inserted(ready, InboundMailbox(f.raw), f.raw) == Stored(before, f, now)
    ensures UidNext(ready, InboundMailbox(f.raw)) == UidNext(before, InboundMailbox(f.raw)) && ready.mails == before.mails
  {
  }

  lemma {:induction false} NewestExists(rows: set<QueueKey>)
    requires rows != {}
    ensures exists q :: q in rows && forall p :: p in rows ==> p.mail.id <= q.mail.id
    decreases |rows|
  {
    var q :| q in rows;
    if rows - {q} != {} {
      NewestExists(rows - {q});
      var n :| n in rows - {q} && forall p :: p in rows - {q} ==> p.mail.id <= n.mail.id;
      var newest := if n.mail.id < q.mail.id then q else n;
      assert forall p :: p in rows ==> p == q || p in rows - {q};
      assert newest in rows && forall p :: p in rows ==> p.mail.id <= newest.mail.id;
    } else {
      assert rows == {q};
    }
  }
}
