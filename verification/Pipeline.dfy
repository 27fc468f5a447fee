// From the Outbox of one node to the mailbox of another: submissions, the
// sender's statements, dialogs, the receiver's store, crashes and restarts, in
// any interleaving. A submission is one step; every other statement is its own.
module Pipeline {
  import opened Bytes
  import opened Wrappers
  import opened Text
  import opened Address
  import opened StorageState
  import opened OutboundQueue
  import Submission
  import OverlayCodec

  /** Where a node's sender is. */
  datatype Pc =
    | Idle
    | Sending(row: QueueKey, dialog: nat)
    | Delivered(row: QueueKey)
    | Dequeued(id: nat)
    | LastGone(id: nat)

  datatype Node = Node(db: Db, pc: Pc)

  /** One dialog about the sender's mail `id`, seen from its server: the mail yielded, queued for the receiver, acknowledged, answered. */
  datatype Exchange = Exchange(
    sender: Key, id: nat, dest: Key, content: bytes,
    yielded: bool, inChannel: bool, acked: bool, reply: Option<bool>)

  /** A recipient row answered with 250. */
  datatype Obligation = Obligation(sender: Key, id: nat, dest: Key, content: bytes)

  /** A mail stored by a node, at the time of its clock. */
  datatype Commit = Commit(node: Key, f: Fingerprint, at: int)

  /** At `at` of its clock the destination's store took the mail of this row: as new, or as the mail it had committed at `since`. */
  datatype Receipt = Receipt(sender: Key, id: nat, dest: Key, at: int, since: int)

  datatype Log = Log(commits: set<Commit>, receipts: set<Receipt>)

  /** `accepted` and `log` are histories: rows answered with 250, what the stores did. */
  datatype Net = Net(nodes: map<Key, Node>, dialogs: seq<Exchange>, accepted: set<Obligation>, log: Log)

  /** What arrives at the destination: over the network the normal form, at home the mail itself. */
  function Arriving(sender: Key, dest: Key, content: bytes): Fingerprint {
    Fingerprint(sender, if sender == dest then content else OverlayCodec.Normal(content))
  }

  function KeyOf(rcpt: string): Key {
    match ParseAddress(rcpt)
    case Some(key) => key
    case None => seq(32, _ => 0)
  }

  datatype Action =
    | Submit(n: Key, from: string, rcpts: seq<string>, content: bytes)
    | SubmitFails(n: Key, from: string, rcpts: seq<string>, content: bytes, rows: nat, flagged: bool, expunged: bool)
    | InsertFails(n: Key)
    | Poll(n: Key, row: QueueKey)
    | DropOrphan(n: Key, row: QueueKey)
    | DeliverHome(n: Key, row: QueueKey, now: int, works: bool)
    | ClientSucceeds(n: Key)
    | ClientFails(n: Key)
    | Dequeue(n: Key, works: bool)
    | CountRows(n: Key, works: bool)
    | MoveToSent(n: Key, works: bool)
    | Yield(d: nat)
    | StoreYielded(d: nat, now: int, works: bool)
    | Answer(d: nat, durable: bool)
    | StoreOther(n: Key, f: Fingerprint, now: int)
    | ExpungeElsewhere(n: Key, mailbox: string)
    | Restart(n: Key)

  predicate Polled(node: Node, row: QueueKey) {
    node.pc.Idle? && row in node.db.queue && HexDecode(row.dest).Some? && |HexDecode(row.dest).value| == 32
  }

  function DestOf(row: QueueKey): Key {
    match HexDecode(row.dest)
    case Some(key) => if |key| == 32 then key else seq(32, _ => 0)
    case None => seq(32, _ => 0)
  }

  /** The mail the sender reads for a row: always from the Outbox, whatever mailbox the row names. */
  function PolledMail(row: QueueKey): MailId {
    MailId(OUTBOX, row.mail.id)
  }

  predicate Enabled(net: Net, a: Action) {
    match a
    case Submit(n, _, rcpts, _) => n in net.nodes && Submission.AllParse(rcpts)
    case SubmitFails(n, _, rcpts, _, rows, _, _) =>
      n in net.nodes && Submission.AllParse(rcpts) && rows < |Submission.Distinct(Submission.Tagged(rcpts))|
    case InsertFails(n) => n in net.nodes
    case Poll(n, row) =>
      n in net.nodes && Polled(net.nodes[n], row) && DestOf(row) != n && PolledMail(row) in net.nodes[n].db.mails
    case DropOrphan(n, row) =>
      n in net.nodes && Polled(net.nodes[n], row) && PolledMail(row) !in net.nodes[n].db.mails
    case DeliverHome(n, row, _, _) =>
      n in net.nodes && Polled(net.nodes[n], row) && DestOf(row) == n && PolledMail(row) in net.nodes[n].db.mails
    case ClientSucceeds(n) =>
      && n in net.nodes && net.nodes[n].pc.Sending?
      && net.nodes[n].pc.dialog < |net.dialogs| && net.dialogs[net.nodes[n].pc.dialog].reply == Some(true)
    case ClientFails(n) => n in net.nodes && net.nodes[n].pc.Sending?
    case Dequeue(n, _) => n in net.nodes && net.nodes[n].pc.Delivered?
    case CountRows(n, _) => n in net.nodes && net.nodes[n].pc.Dequeued?
    case MoveToSent(n, _) => n in net.nodes && net.nodes[n].pc.LastGone?
    case Yield(d) =>
      && d < |net.dialogs| && !net.dialogs[d].yielded && net.dialogs[d].dest in net.nodes
      && |OverlayCodec.Normal(net.dialogs[d].content)| <= OverlayCodec.MAX_DATA_BYTES
    case StoreYielded(d, _, _) => d < |net.dialogs| && net.dialogs[d].inChannel && net.dialogs[d].dest in net.nodes
    case Answer(d, durable) =>
      d < |net.dialogs| && net.dialogs[d].yielded && net.dialogs[d].reply.None? && (durable ==> net.dialogs[d].acked)
    case StoreOther(n, _, _) => n in net.nodes
    case ExpungeElsewhere(n, mailbox) => n in net.nodes && mailbox != OUTBOX
    case Restart(n) => n in net.nodes
  }

  function WithNode(net: Net, n: Key, node: Node): Net {
    net.(nodes := net.nodes[n := node])
  }

  function WithDialog(net: Net, d: nat, x: Exchange): Net
    requires d < |net.dialogs|
  {
    net.(dialogs := net.dialogs[d := x])
  }

  /** `store` calls the mail durable: it is stored now, or a duplicate; not when a statement fails or the id is taken. */
  predicate Durable(db: Db, f: Fingerprint, now: int, works: bool) {
    works && (IsDuplicate(db, f, now) || StoredAs(db, f) !in db.mails)
  }

  /** When the mail that makes this one durable was committed. */
  function Since(db: Db, f: Fingerprint, now: int): int {
    if f in db.seen && IsDuplicate(db, f, now) then db.seen[f] else now
  }

  function Committed(log: Log, n: Key, f: Fingerprint, now: int): Log {
    log.(commits := log.commits + {Commit(n, f, now)})
  }

  function Receipted(net: Net, r: Receipt): Net {
    net.(log := net.log.(receipts := net.log.receipts + {r}))
  }

  /** `store` at node `n`: a new mail is committed, a duplicate or a failure changes nothing. */
  function AfterStore(net: Net, n: Key, f: Fingerprint, now: int, works: bool): Net
    requires n in net.nodes
  {
    if !Durable(net.nodes[n].db, f, now, works) || IsDuplicate(net.nodes[n].db, f, now) then net
    else WithNode(net, n, net.nodes[n].(db := Stored(net.nodes[n].db, f, now))).(log := Committed(net.log, n, f, now))
  }

  function NewObligations(n: Key, id: nat, rcpts: seq<string>, content: bytes): set<Obligation> {
    set r | r in rcpts :: Obligation(n, id, KeyOf(r), content)
  }

  ghost function Dropped(x: Exchange, n: Key): Exchange {
    if x.dest == n then x.(inChannel := false) else x
  }

  /** Mails handed over but not stored are gone with the process. */
  ghost function WithoutChannel(dialogs: seq<Exchange>, n: Key): (r: seq<Exchange>)
    ensures |r| == |dialogs| && forall d :: 0 <= d < |r| ==> r[d] == Dropped(dialogs[d], n)
  {
    if dialogs == [] then [] else WithoutChannel(dialogs[..|dialogs| - 1], n) + [Dropped(dialogs[|dialogs| - 1], n)]
  }

  ghost function Step(net: Net, a: Action): Net
    requires Enabled(net, a)
  {
    match a
    case Submit(n, from, rcpts, content) =>
      var db := net.nodes[n].db;
      WithNode(net, n, net.nodes[n].(db := Submission.Submitted(db, from, rcpts, content)))
        .(accepted := net.accepted + NewObligations(n, UidNext(db, OUTBOX), rcpts, content))
    case SubmitFails(n, from, rcpts, content, rows, flagged, expunged) =>
      var recipients := Submission.Distinct(Submission.Tagged(rcpts))[..rows];
      WithNode(net, n, net.nodes[n].(db := Submission.Abandoned(net.nodes[n].db, from, recipients, content, flagged, expunged)))
    case InsertFails(n) => WithNode(net, n, net.nodes[n].(db := Submission.Counted(net.nodes[n].db)))
    case Poll(n, row) =>
      var node := net.nodes[n];
      var x := Exchange(n, row.mail.id, DestOf(row), node.db.mails[PolledMail(row)].content, false, false, false, None);
      WithNode(net, n, node.(pc := Sending(row, |net.dialogs|))).(dialogs := net.dialogs + [x])
    case DropOrphan(n, row) =>
      var node := net.nodes[n];
      WithNode(net, n, node.(db := QueueDeleted(node.db, QueueKey(row.dest, PolledMail(row)))))
    case DeliverHome(n, row, now, works) =>
      var f := Fingerprint(n, net.nodes[n].db.mails[PolledMail(row)].content);
      if !Durable(net.nodes[n].db, f, now, works) then net
      else
        var stored := Receipted(AfterStore(net, n, f, now, works), Receipt(n, row.mail.id, n, now, Since(net.nodes[n].db, f, now)));
        WithNode(stored, n, stored.nodes[n].(pc := Delivered(row)))
    case ClientSucceeds(n) => WithNode(net, n, net.nodes[n].(pc := Delivered(net.nodes[n].pc.row)))
    case ClientFails(n) => WithNode(net, n, net.nodes[n].(pc := Idle))
    case Dequeue(n, works) =>
      var node := net.nodes[n];
      var row := node.pc.row;
      if works
      then WithNode(net, n, Node(QueueDeleted(node.db, QueueKey(row.dest, PolledMail(row))), Dequeued(row.mail.id)))
      else WithNode(net, n, node.(pc := Idle))
    case CountRows(n, works) =>
      var node := net.nodes[n];
      var last := works && RowsOf(node.db, MailId(OUTBOX, node.pc.id)) == {};
      WithNode(net, n, node.(pc := if last then LastGone(node.pc.id) else Idle))
    case MoveToSent(n, works) =>
      var node := net.nodes[n];
      WithNode(net, n, Node(if works && Movable(node.db, OUTBOX, SENT, node.pc.id) then Moved(node.db, OUTBOX, SENT, node.pc.id) else node.db, Idle))
    case Yield(d) => WithDialog(net, d, net.dialogs[d].(yielded := true, inChannel := true))
    case StoreYielded(d, now, works) =>
      var x := net.dialogs[d];
      var f := Arriving(x.sender, x.dest, x.content);
      var durable := Durable(net.nodes[x.dest].db, f, now, works);
      var stored := AfterStore(net, x.dest, f, now, works);
      var noted := if durable then Receipted(stored, Receipt(x.sender, x.id, x.dest, now, Since(net.nodes[x.dest].db, f, now))) else stored;
      WithDialog(noted, d, x.(inChannel := false, acked := durable))
    case Answer(d, durable) => WithDialog(net, d, net.dialogs[d].(reply := Some(durable)))
    case StoreOther(n, f, now) => AfterStore(net, n, f, now, true)
    case ExpungeElsewhere(n, mailbox) => WithNode(net, n, net.nodes[n].(db := Expunged(net.nodes[n].db, mailbox)))
    case Restart(n) =>
      WithNode(net, n, Node(Opened(net.nodes[n].db), Idle)).(dialogs := WithoutChannel(net.dialogs, n))
  }

  ghost predicate Next(net: Net, after: Net) {
    exists a: Action :: Enabled(net, a) && after == Step(net, a)
  }

  /** Nodes with freshly opened, empty stores. */
  ghost predicate Initial(net: Net) {
    && net.dialogs == [] && net.accepted == {} && net.log == Log({}, {})
    && forall n :: n in net.nodes ==> net.nodes[n] == Node(Opened(Db(map[], map[], map[], map[])), Idle)
  }

  ghost predicate StepAt(run: seq<Net>, i: nat)
    requires i < |run| - 1
  {
    Next(run[i], run[i + 1])
  }

  ghost predicate IsRun(run: seq<Net>) {
    run != [] && Initial(run[0]) && forall i: nat :: i < |run| - 1 ==> StepAt(run, i)
  }

  // ---------------------------------------------------------------- the invariant

  predicate HasCommit(log: Log, n: Key, f: Fingerprint, at: int) {
    Commit(n, f, at) in log.commits
  }

  /** The receipt is for this row, and its mail was committed inside the dedup window of the store that took it. */
  predicate IsReceipt(log: Log, r: Receipt, sender: Key, id: nat, dest: Key, f: Fingerprint) {
    && r in log.receipts && r.sender == sender && r.id == id && r.dest == dest
    && r.since >= r.at - 600 && HasCommit(log, dest, f, r.since)
  }

  ghost predicate Received(log: Log, sender: Key, id: nat, dest: Key, f: Fingerprint) {
    exists r :: IsReceipt(log, r, sender, id, dest, f)
  }

  predicate Covers(log: Log, more: Log) {
    log.commits <= more.commits && log.receipts <= more.receipts
  }

  lemma ReceivedGrows(log: Log, more: Log)
    requires Covers(log, more)
    ensures forall sender, id, dest, f :: Received(log, sender, id, dest, f) ==> Received(more, sender, id, dest, f)
  {
    forall sender, id, dest, f | Received(log, sender, id, dest, f)
      ensures Received(more, sender, id, dest, f)
    {
      var r :| IsReceipt(log, r, sender, id, dest, f);
      assert IsReceipt(more, r, sender, id, dest, f);
    }
  }

  /** The row is still queued and its mail is intact. */
  predicate StillQueued(db: Db, o: Obligation) {
    var mail := MailId(OUTBOX, o.id);
    QueueKey(HexEncode(o.dest), mail) in db.queue && mail in db.mails && db.mails[mail] == Mail(o.content, false)
  }

  /** The destination's store took the mail of this very row. */
  ghost predicate Arrived(log: Log, o: Obligation) {
    Received(log, o.sender, o.id, o.dest, Arriving(o.sender, o.dest, o.content))
  }

  ghost predicate Met(net: Net, o: Obligation) {
    o.sender in net.nodes && (StillQueued(net.nodes[o.sender].db, o) || Arrived(net.log, o))
  }

  /** A row, present or gone, of a mail that has had its Outbox id. */
  predicate IsOutboxRow(db: Db, row: QueueKey) {
    row.mail.mailbox == OUTBOX && row.mail.id < UidNext(db, OUTBOX)
  }

  ghost predicate PcInv(n: Key, node: Node, dialogs: seq<Exchange>, log: Log) {
    match node.pc
    case Idle => true
    case Sending(row, d) =>
      && IsOutboxRow(node.db, row) && d < |dialogs|
      && dialogs[d].sender == n && dialogs[d].id == row.mail.id && dialogs[d].dest == DestOf(row)
      && (row.mail in node.db.mails ==> dialogs[d].content == node.db.mails[row.mail].content)
    case Delivered(row) =>
      && IsOutboxRow(node.db, row)
      && (row.mail in node.db.mails ==> Received(log, n, row.mail.id, DestOf(row), Arriving(n, DestOf(row), node.db.mails[row.mail].content)))
    case Dequeued(id) => id < UidNext(node.db, OUTBOX)
    case LastGone(id) => id < UidNext(node.db, OUTBOX) && RowsOf(node.db, MailId(OUTBOX, id)) == {}
  }

  ghost predicate NodeInv(n: Key, node: Node, dialogs: seq<Exchange>, log: Log) {
    && QueueInv(node.db) && UidNext(node.db, OUTBOX) > 0
    && (forall f :: f in node.db.seen ==> HasCommit(log, n, f, node.db.seen[f]))
    && PcInv(n, node, dialogs, log)
  }

  /** The mail of an exchange acknowledged or answered with 250 has been taken. */
  ghost predicate ExchangeInv(x: Exchange, log: Log) {
    x.acked || x.reply == Some(true) ==> Received(log, x.sender, x.id, x.dest, Arriving(x.sender, x.dest, x.content))
  }

  ghost predicate NetInv(net: Net) {
    && (forall n :: n in net.nodes ==> NodeInv(n, net.nodes[n], net.dialogs, net.log))
    && (forall d :: 0 <= d < |net.dialogs| ==> ExchangeInv(net.dialogs[d], net.log))
    && (forall o :: o in net.accepted ==> Met(net, o))
  }

  // ---------------------------------------------------------------- frames

  lemma LogGrows(n: Key, node: Node, dialogs: seq<Exchange>, log: Log, more: Log)
    requires NodeInv(n, node, dialogs, log) && Covers(log, more)
    ensures NodeInv(n, node, dialogs, more)
  {
    ReceivedGrows(log, more);
  }

  /** One node changes: enough that it keeps its own invariant and its own obligations. */
  lemma NodeChanges(net: Net, n: Key, node: Node, log: Log)
    requires NetInv(net) && n in net.nodes && Covers(net.log, log)
    requires NodeInv(n, node, net.dialogs, log)
    requires forall o :: o in net.accepted && o.sender == n && StillQueued(net.nodes[n].db, o) ==> StillQueued(node.db, o) || Arrived(log, o)
    ensures NetInv(WithNode(net, n, node).(log := log))
  {
    var after := WithNode(net, n, node).(log := log);
    ReceivedGrows(net.log, log);
    forall m | m in after.nodes
      ensures NodeInv(m, after.nodes[m], after.dialogs, after.log)
    {
      if m != n {
        LogGrows(m, net.nodes[m], net.dialogs, net.log, log);
      }
    }
    forall o | o in after.accepted
      ensures Met(after, o)
    {
      assert Met(net, o);
    }
  }

  lemma NodeMoves(net: Net, n: Key, node: Node)
    requires NetInv(net) && n in net.nodes && NodeInv(n, node, net.dialogs, net.log)
    requires forall o :: o in net.accepted && o.sender == n && StillQueued(net.nodes[n].db, o) ==> StillQueued(node.db, o) || Arrived(net.log, o)
    ensures NetInv(WithNode(net, n, node))
  {
    NodeChanges(net, n, node, net.log);
    assert WithNode(net, n, node).(log := net.log) == WithNode(net, n, node);
  }

  /** Dialogs may gain entries and change state, but not parties or content. */
  ghost predicate SameParties(before: seq<Exchange>, after: seq<Exchange>) {
    && |before| <= |after|
    && forall d :: 0 <= d < |before| ==>
         after[d].sender == before[d].sender && after[d].id == before[d].id && after[d].dest == before[d].dest && after[d].content == before[d].content
  }

  lemma DialogsChange(net: Net, dialogs: seq<Exchange>)
    requires NetInv(net) && SameParties(net.dialogs, dialogs)
    requires forall d :: 0 <= d < |dialogs| ==> ExchangeInv(dialogs[d], net.log)
    ensures NetInv(net.(dialogs := dialogs))
  {
    var after := net.(dialogs := dialogs);
    forall n | n in after.nodes
      ensures NodeInv(n, after.nodes[n], dialogs, net.log)
    {
      assert NodeInv(n, net.nodes[n], net.dialogs, net.log);
    }
    forall o | o in after.accepted
      ensures Met(after, o)
    {
      assert Met(net, o);
    }
  }

  // ---------------------------------------------------------------- the store

  /** The receiver's half: what `store` does keeps everything, and what it calls durable is committed, now or within the window. */
  lemma StoreKeeps(net: Net, n: Key, f: Fingerprint, now: int, works: bool)
    requires NetInv(net) && n in net.nodes
    ensures NetInv(AfterStore(net, n, f, now, works))
    ensures Durable(net.nodes[n].db, f, now, works) ==>
      HasCommit(AfterStore(net, n, f, now, works).log, n, f, Since(net.nodes[n].db, f, now)) && Since(net.nodes[n].db, f, now) >= now - DEDUP_WINDOW_SECS
  {
    var node := net.nodes[n];
    if Durable(node.db, f, now, works) && !IsDuplicate(node.db, f, now) {
      var stored := node.(db := Stored(node.db, f, now));
      StoreKeepsNode(net, n, f, now);
      NodeChanges(net, n, stored, Committed(net.log, n, f, now));
    } else if Durable(node.db, f, now, works) {
      DuplicateMeansCommitted(net, n, f, now);
    }
  }

  lemma StoreKeepsNode(net: Net, n: Key, f: Fingerprint, now: int)
    requires NetInv(net) && n in net.nodes
    ensures var node := net.nodes[n];
            var stored := node.(db := Stored(node.db, f, now));
            && NodeInv(n, stored, net.dialogs, Committed(net.log, n, f, now))
            && (forall o :: StillQueued(node.db, o) ==> StillQueued(stored.db, o))
  {
    var node := net.nodes[n];
    LogGrows(n, node, net.dialogs, net.log, Committed(net.log, n, f, now));
    StoreKeepsQueue(node.db, f, now);
    StoreKeepsOutbox(node.db, f, now);
  }

  /** The store's receipt for one row. */
  lemma ReceiptKeeps(net: Net, r: Receipt, f: Fingerprint)
    requires NetInv(net) && HasCommit(net.log, r.dest, f, r.since) && r.since >= r.at - DEDUP_WINDOW_SECS
    ensures NetInv(Receipted(net, r)) && Received(Receipted(net, r).log, r.sender, r.id, r.dest, f)
  {
    var after := Receipted(net, r);
    assert IsReceipt(after.log, r, r.sender, r.id, r.dest, f);
    LogMayGrow(net, after.log);
  }

  lemma LogMayGrow(net: Net, log: Log)
    requires NetInv(net) && Covers(net.log, log)
    ensures NetInv(net.(log := log))
  {
    var after := net.(log := log);
    ReceivedGrows(net.log, log);
    forall n | n in after.nodes
      ensures NodeInv(n, after.nodes[n], after.dialogs, log)
    {
      LogGrows(n, net.nodes[n], net.dialogs, net.log, log);
    }
    forall d | 0 <= d < |after.dialogs|
      ensures ExchangeInv(after.dialogs[d], log)
    {
      assert ExchangeInv(net.dialogs[d], net.log);
    }
    forall o | o in after.accepted
      ensures Met(after, o)
    {
      assert Met(net, o);
    }
  }

  lemma StoreKeepsOutbox(db: Db, f: Fingerprint, now: int)
    requires QueueInv(db)
    ensures UidNext(Stored(db, f, now), OUTBOX) == UidNext(db, OUTBOX)
    ensures forall g :: g in Stored(db, f, now).seen ==> g == f || g in db.seen
    ensures forall id :: RowsOf(Stored(db, f, now), MailId(OUTBOX, id)) == RowsOf(db, MailId(OUTBOX, id))
  {
  }

  /** A duplicate answer implies a commit of the very same mail from the same sender within the window. */
  lemma DuplicateMeansCommitted(net: Net, n: Key, f: Fingerprint, now: int)
    requires NetInv(net) && n in net.nodes && IsDuplicate(net.nodes[n].db, f, now)
    ensures HasCommit(net.log, n, f, net.nodes[n].db.seen[f]) && net.nodes[n].db.seen[f] >= now - DEDUP_WINDOW_SECS
  {
    assert NodeInv(n, net.nodes[n], net.dialogs, net.log);
  }

  lemma StoreYieldedKeeps(net: Net, d: nat, now: int, works: bool)
    requires NetInv(net) && Enabled(net, StoreYielded(d, now, works))
    ensures NetInv(Step(net, StoreYielded(d, now, works)))
  {
    var x := net.dialogs[d];
    var f := Arriving(x.sender, x.dest, x.content);
    var durable := Durable(net.nodes[x.dest].db, f, now, works);
    var stored := AfterStore(net, x.dest, f, now, works);
    StoreKeeps(net, x.dest, f, now, works);
    if durable {
      var r := Receipt(x.sender, x.id, x.dest, now, Since(net.nodes[x.dest].db, f, now));
      ReceiptKeeps(stored, r, f);
      stored := Receipted(stored, r);
    }
    OneDialogChanges(stored, d, x.(inChannel := false, acked := durable));
  }

  lemma OneDialogChanges(net: Net, d: nat, x: Exchange)
    requires NetInv(net) && d < |net.dialogs| && ExchangeInv(x, net.log)
    requires x.sender == net.dialogs[d].sender && x.id == net.dialogs[d].id && x.dest == net.dialogs[d].dest && x.content == net.dialogs[d].content
    ensures NetInv(WithDialog(net, d, x))
  {
    DialogsChange(net, net.dialogs[d := x]);
  }

  lemma YieldKeeps(net: Net, d: nat)
    requires NetInv(net) && Enabled(net, Yield(d))
    ensures NetInv(Step(net, Yield(d)))
  {
    assert ExchangeInv(net.dialogs[d], net.log);
    OneDialogChanges(net, d, net.dialogs[d].(yielded := true, inChannel := true));
  }

  lemma AnswerKeeps(net: Net, d: nat, durable: bool)
    requires NetInv(net) && Enabled(net, Answer(d, durable))
    ensures NetInv(Step(net, Answer(d, durable)))
  {
    assert ExchangeInv(net.dialogs[d], net.log);
    OneDialogChanges(net, d, net.dialogs[d].(reply := Some(durable)));
  }

  // ---------------------------------------------------------------- the sender

  lemma PollKeeps(net: Net, n: Key, row: QueueKey)
    requires NetInv(net) && Enabled(net, Poll(n, row))
    ensures NetInv(Step(net, Poll(n, row)))
  {
    var node := net.nodes[n];
    assert NodeInv(n, node, net.dialogs, net.log);
    NoOrphans(node.db, row);
    var x := Exchange(n, row.mail.id, DestOf(row), node.db.mails[PolledMail(row)].content, false, false, false, None);
    var dialogs := net.dialogs + [x];
    DialogsChange(net, dialogs);
    var sending := node.(pc := Sending(row, |net.dialogs|));
    NodeMoves(net.(dialogs := dialogs), n, sending);
    assert WithNode(net, n, sending).(dialogs := dialogs) == WithNode(net.(dialogs := dialogs), n, sending);
  }

  /** The orphan branch is never taken. */
  lemma NoOrphanIsPolled(net: Net, n: Key, row: QueueKey)
    requires NetInv(net)
    ensures !Enabled(net, DropOrphan(n, row))
  {
    if Enabled(net, DropOrphan(n, row)) {
      assert NodeInv(n, net.nodes[n], net.dialogs, net.log);
      NoOrphans(net.nodes[n].db, row);
    }
  }

  lemma PcChanges(net: Net, n: Key, pc: Pc)
    requires NetInv(net) && n in net.nodes && PcInv(n, net.nodes[n].(pc := pc), net.dialogs, net.log)
    ensures NetInv(WithNode(net, n, net.nodes[n].(pc := pc)))
  {
    assert NodeInv(n, net.nodes[n], net.dialogs, net.log);
    NodeMoves(net, n, net.nodes[n].(pc := pc));
  }

  /** Storing at home leaves the rows and their mails as they are. */
  lemma HomeStored(net: Net, n: Key, f: Fingerprint, now: int, row: QueueKey)
    requires NetInv(net) && n in net.nodes && row in net.nodes[n].db.queue
    ensures var after := AfterStore(net, n, f, now, true).nodes[n].db;
            row.mail in net.nodes[n].db.mails && row.mail in after.mails && after.mails[row.mail] == net.nodes[n].db.mails[row.mail]
            && IsOutboxRow(after, row)
  {
    assert NodeInv(n, net.nodes[n], net.dialogs, net.log);
    NoOrphans(net.nodes[n].db, row);
    StoreKeepsQueue(net.nodes[n].db, f, now);
  }

  lemma DeliverHomeKeeps(net: Net, n: Key, row: QueueKey, now: int, works: bool)
    requires NetInv(net) && Enabled(net, DeliverHome(n, row, now, works))
    ensures NetInv(Step(net, DeliverHome(n, row, now, works)))
  {
    var f := Fingerprint(n, net.nodes[n].db.mails[PolledMail(row)].content);
    if Durable(net.nodes[n].db, f, now, works) {
      var r := Receipt(n, row.mail.id, n, now, Since(net.nodes[n].db, f, now));
      var stored := Receipted(AfterStore(net, n, f, now, works), r);
      StoreKeeps(net, n, f, now, works);
      ReceiptKeeps(AfterStore(net, n, f, now, works), r, f);
      HomeStored(net, n, f, now, row);
      PolledIsNamed(net, n, row);
      assert PcInv(n, stored.nodes[n].(pc := Delivered(row)), stored.dialogs, stored.log);
      PcChanges(stored, n, Delivered(row));
    }
  }

  lemma PolledIsNamed(net: Net, n: Key, row: QueueKey)
    requires NetInv(net) && n in net.nodes && row in net.nodes[n].db.queue
    ensures PolledMail(row) == row.mail
  {
    assert NodeInv(n, net.nodes[n], net.dialogs, net.log);
  }

  lemma ClientSucceedsKeeps(net: Net, n: Key)
    requires NetInv(net) && Enabled(net, ClientSucceeds(n))
    ensures NetInv(Step(net, ClientSucceeds(n)))
  {
    var pc := net.nodes[n].pc;
    assert NodeInv(n, net.nodes[n], net.dialogs, net.log);
    assert ExchangeInv(net.dialogs[pc.dialog], net.log);
    PcChanges(net, n, Delivered(pc.row));
  }

  /** The row that goes is a met obligation. */
  lemma DequeuedIsMet(n: Key, node: Node, row: QueueKey, o: Obligation, dialogs: seq<Exchange>, log: Log)
    requires NodeInv(n, node, dialogs, log) && node.pc == Delivered(row) && o.sender == n && StillQueued(node.db, o)
    ensures StillQueued(QueueDeleted(node.db, row), o) || Arrived(log, o)
  {
    HexRoundTrip(o.dest);
    if QueueKey(HexEncode(o.dest), MailId(OUTBOX, o.id)) == row {
      assert DestOf(row) == o.dest;
    }
  }

  lemma DequeueKeeps(net: Net, n: Key, works: bool)
    requires NetInv(net) && Enabled(net, Dequeue(n, works))
    ensures NetInv(Step(net, Dequeue(n, works)))
  {
    var node := net.nodes[n];
    var row := node.pc.row;
    assert NodeInv(n, node, net.dialogs, net.log);
    if works {
      DequeueKeepsQueue(node.db, row);
      var done := Node(QueueDeleted(node.db, row), Dequeued(row.mail.id));
      forall o | o in net.accepted && o.sender == n && StillQueued(node.db, o)
        ensures StillQueued(done.db, o) || Arrived(net.log, o)
      {
        DequeuedIsMet(n, node, row, o, net.dialogs, net.log);
      }
      NodeMoves(net, n, done);
    } else {
      PcChanges(net, n, Idle);
    }
  }

  lemma CountRowsKeeps(net: Net, n: Key, works: bool)
    requires NetInv(net) && Enabled(net, CountRows(n, works))
    ensures NetInv(Step(net, CountRows(n, works)))
  {
    var node := net.nodes[n];
    assert NodeInv(n, node, net.dialogs, net.log);
    var last := works && RowsOf(node.db, MailId(OUTBOX, node.pc.id)) == {};
    PcChanges(net, n, if last then LastGone(node.pc.id) else Idle);
  }

  /** The rest of the store does not notice a mail without rows moving out. */
  ghost predicate OutboxKept(db: Db, after: Db) {
    && QueueInv(after) && after.queue == db.queue && after.seen == db.seen
    && UidNext(after, OUTBOX) == UidNext(db, OUTBOX)
    && forall q :: q in db.queue && q.mail in db.mails ==> q.mail in after.mails && after.mails[q.mail] == db.mails[q.mail]
  }

  lemma OutboxKeptRows(db: Db, after: Db)
    requires OutboxKept(db, after)
    ensures forall id :: RowsOf(after, MailId(OUTBOX, id)) == RowsOf(db, MailId(OUTBOX, id))
  {
  }

  lemma MovedOut(db: Db, id: nat)
    requires QueueInv(db) && Movable(db, OUTBOX, SENT, id) && RowsOf(db, MailId(OUTBOX, id)) == {}
    ensures OutboxKept(db, Moved(db, OUTBOX, SENT, id))
  {
    MoveKeepsQueue(db, id);
    forall q | q in db.queue
      ensures q.mail != MailId(OUTBOX, id)
    {
      assert q !in RowsOf(db, MailId(OUTBOX, id));
    }
  }

  lemma ExpungedElsewhere(db: Db, mailbox: string)
    requires QueueInv(db) && mailbox != OUTBOX
    ensures OutboxKept(db, Expunged(db, mailbox))
  {
    ExpungeKeepsQueue(db, mailbox, MailId(mailbox, 0));
    assert Expunged(db, mailbox).queue == db.queue;
  }

  lemma Reopened(db: Db)
    requires QueueInv(db) && UidNext(db, OUTBOX) > 0
    ensures OutboxKept(db, Opened(db))
  {
    OpenChangesNothing(db);
    OpenEstablishes(db);
  }

  lemma MoveToSentKeeps(net: Net, n: Key, works: bool)
    requires NetInv(net) && Enabled(net, MoveToSent(n, works))
    ensures NetInv(Step(net, MoveToSent(n, works)))
  {
    var node := net.nodes[n];
    var id := node.pc.id;
    assert NodeInv(n, node, net.dialogs, net.log);
    if works && Movable(node.db, OUTBOX, SENT, id) {
      MovedOut(node.db, id);
      NodeMoves(net, n, Node(Moved(node.db, OUTBOX, SENT, id), Idle));
    } else {
      PcChanges(net, n, Idle);
    }
  }

  // ---------------------------------------------------------------- the rest

  lemma ExpungeElsewhereKeeps(net: Net, n: Key, mailbox: string)
    requires NetInv(net) && Enabled(net, ExpungeElsewhere(n, mailbox))
    ensures NetInv(Step(net, ExpungeElsewhere(n, mailbox)))
  {
    var node := net.nodes[n];
    assert NodeInv(n, node, net.dialogs, net.log);
    var after := node.(db := Expunged(node.db, mailbox));
    ExpungedElsewhere(node.db, mailbox);
    OutboxKeptRows(node.db, after.db);
    NodeMoves(net, n, after);
  }

  lemma ReopenedKeeps(net: Net, n: Key)
    requires NetInv(net) && n in net.nodes
    ensures NetInv(WithNode(net, n, Node(Opened(net.nodes[n].db), Idle)))
    ensures Opened(net.nodes[n].db).queue == net.nodes[n].db.queue
  {
    var node := net.nodes[n];
    assert NodeInv(n, node, net.dialogs, net.log);
    Reopened(node.db);
    NodeMoves(net, n, Node(Opened(node.db), Idle));
  }

  /** Opening the store again drops no queue row. */
  lemma RestartKeeps(net: Net, n: Key)
    requires NetInv(net) && Enabled(net, Restart(n))
    ensures NetInv(Step(net, Restart(n)))
    ensures Step(net, Restart(n)).nodes[n].db.queue == net.nodes[n].db.queue
  {
    ReopenedKeeps(net, n);
    ChannelLost(WithNode(net, n, Node(Opened(net.nodes[n].db), Idle)), n);
  }

  /** What was handed over but not stored is forgotten; nothing had been promised for it. */
  lemma ChannelLost(net: Net, n: Key)
    requires NetInv(net)
    ensures NetInv(net.(dialogs := WithoutChannel(net.dialogs, n)))
  {
    var dialogs := WithoutChannel(net.dialogs, n);
    forall d | 0 <= d < |dialogs|
      ensures ExchangeInv(dialogs[d], net.log)
    {
      assert ExchangeInv(net.dialogs[d], net.log);
    }
    DialogsChange(net, dialogs);
  }

  lemma SubmitKeeps(net: Net, n: Key, from: string, rcpts: seq<string>, content: bytes)
    requires NetInv(net) && Enabled(net, Submit(n, from, rcpts, content))
    ensures NetInv(Step(net, Submit(n, from, rcpts, content)))
  {
    var node := net.nodes[n];
    assert NodeInv(n, node, net.dialogs, net.log);
    var id := UidNext(node.db, OUTBOX);
    var after := node.(db := Submission.Submitted(node.db, from, rcpts, content));
    SubmittedKeepsNode(net, n, from, rcpts, content);
    NodeMoves(net, n, after);
    forall o | o in NewObligations(n, id, rcpts, content)
      ensures StillQueued(after.db, o)
    {
      NewRowIsQueued(n, node.db, from, rcpts, content, o);
    }
    ObligationsAdded(WithNode(net, n, after), n, NewObligations(n, id, rcpts, content));
  }

  lemma SubmittedKeepsNode(net: Net, n: Key, from: string, rcpts: seq<string>, content: bytes)
    requires NetInv(net) && n in net.nodes
    ensures var node := net.nodes[n];
            var after := node.(db := Submission.Submitted(node.db, from, rcpts, content));
            && NodeInv(n, after, net.dialogs, net.log)
            && (forall o :: StillQueued(node.db, o) ==> StillQueued(after.db, o))
  {
    var node := net.nodes[n];
    assert NodeInv(n, node, net.dialogs, net.log);
    Submission.AcceptedMeansAllRows(node.db, from, rcpts, content);
    SubmittedElsewhere(node.db, from, rcpts, content);
    var after := Submission.Submitted(node.db, from, rcpts, content);
    AddedKeepsNode(n, node, after, MailId(OUTBOX, UidNext(node.db, OUTBOX)), Mail(content, false), net.dialogs, net.log);
  }

  /** One new mail under the next id, with rows of its own. */
  lemma AddedKeepsNode(n: Key, node: Node, db: Db, mail: MailId, added: Mail, dialogs: seq<Exchange>, log: Log)
    requires NodeInv(n, node, dialogs, log) && QueueInv(db) && mail.mailbox == OUTBOX && mail.id == UidNext(node.db, OUTBOX)
    requires db.seen == node.db.seen && UidNext(db, OUTBOX) == mail.id + 1
    requires mail !in node.db.mails && db.mails == node.db.mails[mail := added]
    requires forall q :: q in node.db.queue ==> q in db.queue
    requires forall id: nat :: id < mail.id ==> RowsOf(db, MailId(OUTBOX, id)) == RowsOf(node.db, MailId(OUTBOX, id))
    ensures NodeInv(n, node.(db := db), dialogs, log)
    ensures forall o :: StillQueued(node.db, o) ==> StillQueued(db, o)
  {
  }

  /** Each recipient accepted has its row. */
  lemma NewRowIsQueued(n: Key, db: Db, from: string, rcpts: seq<string>, content: bytes, o: Obligation)
    requires QueueInv(db) && Submission.AllParse(rcpts)
    requires o in NewObligations(n, UidNext(db, OUTBOX), rcpts, content)
    ensures StillQueued(Submission.Submitted(db, from, rcpts, content), o)
  {
    Submission.AcceptedMeansAllRows(db, from, rcpts, content);
    var r :| r in rcpts && o == Obligation(n, UidNext(db, OUTBOX), KeyOf(r), content);
    RecipientIsNamed(rcpts, r);
  }

  lemma RecipientIsNamed(rcpts: seq<string>, r: string)
    requires Submission.AllParse(rcpts) && r in rcpts
    ensures Submission.Names(rcpts, HexEncode(KeyOf(r)))
  {
    var i :| 0 <= i < |rcpts| && rcpts[i] == r;
    assert Submission.Parses(r);
    assert Submission.Dest(rcpts[i]) == HexEncode(KeyOf(r));
  }

  /** A failed submission, however far it and its rollback got, leaves every obligation alone. */
  lemma FailureKeepsNode(net: Net, n: Key, from: string, rows: seq<Submission.Recipient>, content: bytes, flagged: bool, expunged: bool)
    requires NetInv(net) && n in net.nodes
    ensures var node := net.nodes[n];
            var after := node.(db := Submission.Abandoned(node.db, from, rows, content, flagged, expunged));
            && NodeInv(n, after, net.dialogs, net.log)
            && (forall o :: StillQueued(node.db, o) ==> StillQueued(after.db, o))
  {
    var node := net.nodes[n];
    assert NodeInv(n, node, net.dialogs, net.log);
    var mail := MailId(OUTBOX, UidNext(node.db, OUTBOX));
    var partial := Submission.Enqueued(Inserted(node.db, OUTBOX, content), rows, mail, from);
    PartialKeeps(node.db, from, rows, content);
    UndoKeeps(node.db, partial, mail, flagged, expunged);
  }

  /** Only additions, all about mails from `id` on. */
  ghost predicate Extends(db: Db, after: Db, id: nat) {
    && QueueInv(after) && after.seen == db.seen && UidNext(after, OUTBOX) >= UidNext(db, OUTBOX)
    && (forall m: MailId :: m.mailbox == OUTBOX && m.id < id ==> (m in after.mails ==> m in db.mails && after.mails[m] == db.mails[m]))
    && (forall q: QueueKey :: q.mail.id < id ==> (q in after.queue ==> q in db.queue))
    && (forall o :: StillQueued(db, o) ==> StillQueued(after, o))
  }

  lemma PartialKeeps(db: Db, from: string, rows: seq<Submission.Recipient>, content: bytes)
    requires QueueInv(db)
    ensures var mail := MailId(OUTBOX, UidNext(db, OUTBOX));
            var partial := Submission.Enqueued(Inserted(db, OUTBOX, content), rows, mail, from);
            Extends(db, partial, mail.id) && mail in partial.mails && UidNext(partial, OUTBOX) == mail.id + 1
  {
    var mail := MailId(OUTBOX, UidNext(db, OUTBOX));
    NextIdIsFree(db);
    InsertKeepsQueue(db, OUTBOX, content);
    Submission.EnqueuedRows(Inserted(db, OUTBOX, content), rows, mail, from);
  }

  lemma FlagKeeps(db: Db, partial: Db, mail: MailId)
    requires QueueInv(db) && mail == MailId(OUTBOX, UidNext(db, OUTBOX)) && Extends(db, partial, mail.id)
    ensures Extends(db, FlaggedDeleted(partial, mail), mail.id)
  {
    ExpungeKeepsQueue(partial, OUTBOX, mail);
    forall o | StillQueued(db, o)
      ensures StillQueued(FlaggedDeleted(partial, mail), o)
    {
      assert StillQueued(partial, o) && o.id < mail.id;
    }
  }

  lemma ExpungeKeeps(db: Db, marked: Db, id: nat)
    requires Extends(db, marked, id)
    ensures Extends(db, Expunged(marked, OUTBOX), id)
  {
    ExpungeKeepsQueue(marked, OUTBOX, MailId(OUTBOX, id));
    forall o | StillQueued(db, o)
      ensures StillQueued(Expunged(marked, OUTBOX), o)
    {
      assert StillQueued(marked, o);
    }
  }

  lemma UndoKeeps(db: Db, partial: Db, mail: MailId, flagged: bool, expunged: bool)
    requires QueueInv(db) && mail == MailId(OUTBOX, UidNext(db, OUTBOX)) && Extends(db, partial, mail.id)
    ensures var marked := if flagged then FlaggedDeleted(partial, mail) else partial;
            Extends(db, if expunged then Expunged(marked, OUTBOX) else marked, mail.id)
  {
    FlagKeeps(db, partial, mail);
    ExpungeKeeps(db, if flagged then FlaggedDeleted(partial, mail) else partial, mail.id);
  }

  lemma InsertFailsKeeps(net: Net, n: Key)
    requires NetInv(net) && Enabled(net, InsertFails(n))
    ensures NetInv(Step(net, InsertFails(n)))
  {
    var node := net.nodes[n];
    assert NodeInv(n, node, net.dialogs, net.log);
    NodeMoves(net, n, node.(db := Submission.Counted(node.db)));
  }

  lemma SubmitFailsKeeps(net: Net, a: Action)
    requires NetInv(net) && a.SubmitFails? && Enabled(net, a)
    ensures NetInv(Step(net, a))
  {
    var node := net.nodes[a.n];
    var rows := Submission.Distinct(Submission.Tagged(a.rcpts))[..a.rows];
    FailureKeepsNode(net, a.n, a.from, rows, a.content, a.flagged, a.expunged);
    NodeMoves(net, a.n, node.(db := Submission.Abandoned(node.db, a.from, rows, a.content, a.flagged, a.expunged)));
  }

  lemma ObligationsAdded(net: Net, n: Key, more: set<Obligation>)
    requires NetInv(net) && n in net.nodes
    requires forall o :: o in more ==> o.sender == n && StillQueued(net.nodes[n].db, o)
    ensures NetInv(net.(accepted := net.accepted + more))
  {
    var after := net.(accepted := net.accepted + more);
    forall o | o in after.accepted
      ensures Met(after, o)
    {
      assert o in net.accepted ==> Met(net, o);
    }
  }

  lemma SubmittedElsewhere(db: Db, from: string, rcpts: seq<string>, content: bytes)
    requires QueueInv(db)
    ensures var after := Submission.Submitted(db, from, rcpts, content);
            && after.seen == db.seen && UidNext(after, OUTBOX) == UidNext(db, OUTBOX) + 1
            && (forall id: nat :: id < UidNext(db, OUTBOX) ==> RowsOf(after, MailId(OUTBOX, id)) == RowsOf(db, MailId(OUTBOX, id)))
  {
    var mail := MailId(OUTBOX, UidNext(db, OUTBOX));
    Submission.EnqueuedRows(Inserted(db, OUTBOX, content), Submission.Distinct(Submission.Tagged(rcpts)), mail, from);
  }

  /** The actions that submit, or try to. */
  predicate IsSubmission(a: Action) {
    a.Submit? || a.SubmitFails? || a.InsertFails?
  }

  /** The actions that run `store`. */
  predicate IsStore(a: Action) {
    a.StoreYielded? || a.StoreOther? || a.DeliverHome?
  }

  lemma SubmissionsKeep(net: Net, a: Action)
    requires NetInv(net) && Enabled(net, a) && IsSubmission(a)
    ensures NetInv(Step(net, a))
  {
    match a
    case Submit(n, from, rcpts, content) => SubmitKeeps(net, n, from, rcpts, content);
    case SubmitFails(_, _, _, _, _, _, _) => SubmitFailsKeeps(net, a);
    case InsertFails(n) => InsertFailsKeeps(net, n);
  }

  lemma StoresKeep(net: Net, a: Action)
    requires NetInv(net) && Enabled(net, a) && IsStore(a)
    ensures NetInv(Step(net, a))
  {
    match a
    case StoreYielded(d, now, works) => StoreYieldedKeeps(net, d, now, works);
    case StoreOther(n, f, now) => StoreKeeps(net, n, f, now, true);
    case DeliverHome(n, row, now, works) => DeliverHomeKeeps(net, n, row, now, works);
  }

  lemma SenderKeeps(net: Net, a: Action)
    requires NetInv(net) && Enabled(net, a) && (a.Poll? || a.ClientSucceeds? || a.ClientFails? || a.Dequeue? || a.CountRows? || a.MoveToSent?)
    ensures NetInv(Step(net, a))
  {
    match a
    case Poll(n, row) => PollKeeps(net, n, row);
    case ClientSucceeds(n) => ClientSucceedsKeeps(net, n);
    case ClientFails(n) => PcChanges(net, n, Idle);
    case Dequeue(n, works) => DequeueKeeps(net, n, works);
    case CountRows(n, works) => CountRowsKeeps(net, n, works);
    case MoveToSent(n, works) => MoveToSentKeeps(net, n, works);
  }

  lemma RestKeeps(net: Net, a: Action)
    requires NetInv(net) && Enabled(net, a) && (a.DropOrphan? || a.Yield? || a.Answer? || a.ExpungeElsewhere? || a.Restart?)
    ensures NetInv(Step(net, a))
  {
    match a
    case DropOrphan(n, row) => NoOrphanIsPolled(net, n, row);
    case Yield(d) => YieldKeeps(net, d);
    case Answer(d, durable) => AnswerKeeps(net, d, durable);
    case ExpungeElsewhere(n, mailbox) => ExpungeElsewhereKeeps(net, n, mailbox);
    case Restart(n) => RestartKeeps(net, n);
  }

  /** Every step of every node keeps the invariant. */
  lemma StepKeeps(net: Net, a: Action)
    requires NetInv(net) && Enabled(net, a)
    ensures NetInv(Step(net, a))
  {
    if IsSubmission(a) {
      SubmissionsKeep(net, a);
    } else if IsStore(a) {
      StoresKeep(net, a);
    } else if a.Poll? || a.ClientSucceeds? || a.ClientFails? || a.Dequeue? || a.CountRows? || a.MoveToSent? {
      SenderKeeps(net, a);
    } else {
      RestKeeps(net, a);
    }
  }

  lemma InitialInv(net: Net)
    requires Initial(net)
    ensures NetInv(net)
  {
    var empty := Db(map[], map[], map[], map[]);
    OpenEstablishes(empty);
    forall n | n in net.nodes
      ensures NodeInv(n, net.nodes[n], net.dialogs, net.log)
    {
      OpenedCounts(empty);
    }
  }

  lemma OpenedCounts(db: Db)
    requires db == Db(map[], map[], map[], map[])
    ensures UidNext(Opened(db), OUTBOX) > 0 && Opened(db).seen == map[]
  {
  }

  lemma NextKeeps(net: Net, after: Net)
    requires NetInv(net) && Next(net, after)
    ensures NetInv(after)
  {
    var a: Action :| Enabled(net, a) && after == Step(net, a);
    StepKeeps(net, a);
  }

  lemma RunStepKeeps(run: seq<Net>, i: nat)
    requires IsRun(run) && i < |run| - 1 && NetInv(run[i])
    ensures NetInv(run[i + 1])
  {
    assert StepAt(run, i);
    NextKeeps(run[i], run[i + 1]);
  }

  lemma {:induction false} RunsKeepInvariant(run: seq<Net>, i: nat)
    requires IsRun(run) && i < |run|
    ensures NetInv(run[i])
  {
    if i == 0 {
      InitialInv(run[i]);
    } else {
      RunsKeepInvariant(run, i - 1);
      RunStepKeeps(run, i - 1);
    }
  }

  // ---------------------------------------------------------------- what follows

  /**
   * No mail is lost: at every moment of every run, a recipient row answered
   * with 250 is still queued at its sender with its mail intact, or its
   * destination's store has taken the mail of that very row, having committed
   * exactly these bytes then or within the 600 seconds of its clock before.
   */
  lemma NoMailIsLost(run: seq<Net>, i: nat, o: Obligation)
    requires IsRun(run) && i < |run| && o in run[i].accepted
    ensures o.sender in run[i].nodes
    ensures StillQueued(run[i].nodes[o.sender].db, o) || Arrived(run[i].log, o)
  {
    RunsKeepInvariant(run, i);
    assert Met(run[i], o);
  }

  // ---------------------------------------------------------------- a receipt is for one submission only

  /** The node has given out this Outbox id. */
  predicate Used(net: Net, n: Key, id: nat) {
    n in net.nodes && id < UidNext(net.nodes[n].db, OUTBOX)
  }

  /** Dialogs and receipts are about ids given out before. */
  ghost predicate IdsUsed(net: Net) {
    && (forall r :: r in net.log.receipts ==> Used(net, r.sender, r.id))
    && (forall d :: 0 <= d < |net.dialogs| ==> Used(net, net.dialogs[d].sender, net.dialogs[d].id))
  }

  lemma SubmittedCounts(net: Net, a: Action, id: nat)
    requires NetInv(net) && a.Submit? && Enabled(net, a) && Used(net, a.n, id)
    ensures Used(Step(net, a), a.n, id)
  {
    assert NodeInv(a.n, net.nodes[a.n], net.dialogs, net.log);
    SubmittedElsewhere(net.nodes[a.n].db, a.from, a.rcpts, a.content);
  }

  lemma FailedCounts(net: Net, a: Action, id: nat)
    requires NetInv(net) && a.SubmitFails? && Enabled(net, a) && Used(net, a.n, id)
    ensures Used(Step(net, a), a.n, id)
  {
    assert NodeInv(a.n, net.nodes[a.n], net.dialogs, net.log);
    FailureCounts(net.nodes[a.n].db, a.from, Submission.Distinct(Submission.Tagged(a.rcpts))[..a.rows], a.content, a.flagged, a.expunged);
  }

  lemma CountedCounts(net: Net, n: Key, id: nat)
    requires n in net.nodes && Used(net, n, id)
    ensures Used(Step(net, InsertFails(n)), n, id)
  {
  }

  lemma SubmissionCounts(net: Net, a: Action, n: Key, id: nat)
    requires NetInv(net) && Enabled(net, a) && IsSubmission(a) && Used(net, n, id)
    ensures Used(Step(net, a), n, id)
  {
    if a.n != n {
      SubmissionIsLocal(net, a, n);
    } else if a.Submit? {
      SubmittedCounts(net, a, id);
    } else if a.SubmitFails? {
      FailedCounts(net, a, id);
    } else {
      CountedCounts(net, n, id);
    }
  }

  lemma FailureCounts(db: Db, from: string, rows: seq<Submission.Recipient>, content: bytes, flagged: bool, expunged: bool)
    requires QueueInv(db)
    ensures UidNext(db, OUTBOX) <= UidNext(Submission.Abandoned(db, from, rows, content, flagged, expunged), OUTBOX)
  {
    var mail := MailId(OUTBOX, UidNext(db, OUTBOX));
    PartialKeeps(db, from, rows, content);
    UndoKeeps(db, Submission.Enqueued(Inserted(db, OUTBOX, content), rows, mail, from), mail, flagged, expunged);
  }

  lemma StoreCounts(net: Net, m: Key, f: Fingerprint, now: int, works: bool, n: Key, id: nat)
    requires NetInv(net) && m in net.nodes && Used(net, n, id)
    ensures Used(AfterStore(net, m, f, now, works), n, id)
  {
    assert NodeInv(n, net.nodes[n], net.dialogs, net.log);
    StoreKeepsOutbox(net.nodes[n].db, f, now);
  }

  lemma YieldedCounts(net: Net, d: nat, now: int, works: bool, n: Key, id: nat)
    requires NetInv(net) && Enabled(net, StoreYielded(d, now, works)) && Used(net, n, id)
    ensures Used(Step(net, StoreYielded(d, now, works)), n, id)
  {
    var x := net.dialogs[d];
    StoreCounts(net, x.dest, Arriving(x.sender, x.dest, x.content), now, works, n, id);
  }

  /** Delivering at home does to the databases what its store does. */
  lemma HomeStores(net: Net, m: Key, row: QueueKey, now: int, works: bool, n: Key)
    requires Enabled(net, DeliverHome(m, row, now, works)) && n in net.nodes
    ensures var stored := AfterStore(net, m, Fingerprint(m, net.nodes[m].db.mails[PolledMail(row)].content), now, works);
            var after := Step(net, DeliverHome(m, row, now, works));
            n in stored.nodes && n in after.nodes && after.nodes[n].db == stored.nodes[n].db
  {
  }

  lemma HomeCounts(net: Net, m: Key, row: QueueKey, now: int, works: bool, n: Key, id: nat)
    requires NetInv(net) && Enabled(net, DeliverHome(m, row, now, works)) && Used(net, n, id)
    ensures Used(Step(net, DeliverHome(m, row, now, works)), n, id)
  {
    HomeStores(net, m, row, now, works, n);
    StoreCounts(net, m, Fingerprint(m, net.nodes[m].db.mails[PolledMail(row)].content), now, works, n, id);
  }

  lemma StoresCount(net: Net, a: Action, n: Key, id: nat)
    requires NetInv(net) && Enabled(net, a) && IsStore(a) && Used(net, n, id)
    ensures Used(Step(net, a), n, id)
  {
    match a
    case StoreYielded(d, now, works) => YieldedCounts(net, d, now, works, n, id);
    case StoreOther(m, f, now) => StoreCounts(net, m, f, now, true, n, id);
    case DeliverHome(m, row, now, works) => HomeCounts(net, m, row, now, works, n, id);
  }

  lemma RestartCounts(net: Net, m: Key, n: Key, id: nat)
    requires NetInv(net) && m in net.nodes && Used(net, n, id)
    ensures Used(Step(net, Restart(m)), n, id)
  {
    RestartOpens(net, m, n);
    if m == n {
      assert NodeInv(n, net.nodes[n], net.dialogs, net.log);
      OpenChangesNothing(net.nodes[n].db);
    }
  }

  lemma RestartOpens(net: Net, m: Key, n: Key)
    requires m in net.nodes && n in net.nodes
    ensures var after := Step(net, Restart(m));
            n in after.nodes && after.nodes[n].db == if n == m then Opened(net.nodes[n].db) else net.nodes[n].db
  {
  }

  lemma OthersCount(net: Net, a: Action, n: Key, id: nat)
    requires Enabled(net, a) && !IsSubmission(a) && !IsStore(a) && !a.Restart? && Used(net, n, id)
    ensures Used(Step(net, a), n, id)
  {
  }

  /** No Outbox counter ever goes back. */
  lemma CountersGrow(net: Net, a: Action, n: Key, id: nat)
    requires NetInv(net) && Enabled(net, a) && Used(net, n, id)
    ensures Used(Step(net, a), n, id)
  {
    if IsSubmission(a) {
      SubmissionCounts(net, a, n, id);
    } else if IsStore(a) {
      StoresCount(net, a, n, id);
    } else if a.Restart? {
      RestartCounts(net, a.n, n, id);
    } else {
      OthersCount(net, a, n, id);
    }
  }

  lemma PolledIsUsed(net: Net, n: Key, row: QueueKey)
    requires NetInv(net) && n in net.nodes && row in net.nodes[n].db.queue
    ensures Used(net, n, row.mail.id)
  {
    assert NodeInv(n, net.nodes[n], net.dialogs, net.log);
    NoOrphans(net.nodes[n].db, row);
  }

  lemma OthersGiveNoReceipt(net: Net, a: Action)
    requires Enabled(net, a) && !a.StoreYielded? && !a.DeliverHome?
    ensures Step(net, a).log.receipts == net.log.receipts
  {
  }

  lemma YieldedReceipts(net: Net, d: nat, now: int, works: bool, r: Receipt)
    requires Enabled(net, StoreYielded(d, now, works)) && r in Step(net, StoreYielded(d, now, works)).log.receipts
    ensures r in net.log.receipts || (r.sender == net.dialogs[d].sender && r.id == net.dialogs[d].id)
  {
  }

  lemma HomeReceipts(net: Net, n: Key, row: QueueKey, now: int, works: bool, r: Receipt)
    requires Enabled(net, DeliverHome(n, row, now, works)) && r in Step(net, DeliverHome(n, row, now, works)).log.receipts
    ensures r in net.log.receipts || (r.sender == n && r.id == row.mail.id)
  {
  }

  /** What a step adds to the receipts is about an id given out before it. */
  lemma NewReceiptIsUsed(net: Net, a: Action, r: Receipt)
    requires NetInv(net) && IdsUsed(net) && Enabled(net, a) && r in Step(net, a).log.receipts
    ensures Used(net, r.sender, r.id)
  {
    if a.DeliverHome? {
      PolledIsUsed(net, a.n, a.row);
      HomeReceipts(net, a.n, a.row, a.now, a.works, r);
    } else if a.StoreYielded? {
      YieldedReceipts(net, a.d, a.now, a.works, r);
    } else {
      OthersGiveNoReceipt(net, a);
    }
  }

  /** The actions that touch dialogs. */
  predicate TouchesDialogs(a: Action) {
    a.Poll? || a.Yield? || a.StoreYielded? || a.Answer? || a.Restart?
  }

  lemma OthersLeaveDialogs(net: Net, a: Action)
    requires Enabled(net, a) && !TouchesDialogs(a)
    ensures Step(net, a).dialogs == net.dialogs
  {
  }

  lemma RestartKeepsParties(net: Net, n: Key)
    requires Enabled(net, Restart(n))
    ensures SameParties(net.dialogs, Step(net, Restart(n)).dialogs) && |Step(net, Restart(n)).dialogs| == |net.dialogs|
  {
  }

  lemma DialogsKeepParties(net: Net, a: Action)
    requires Enabled(net, a) && TouchesDialogs(a)
    ensures SameParties(net.dialogs, Step(net, a).dialogs) && (a.Poll? || |Step(net, a).dialogs| == |net.dialogs|)
  {
    if a.Restart? {
      RestartKeepsParties(net, a.n);
    }
  }

  /** A dialog keeps its parties, its mail and its place. */
  lemma PartiesStay(net: Net, a: Action, k: nat)
    requires Enabled(net, a) && k < |net.dialogs|
    ensures var after := Step(net, a);
            && k < |after.dialogs| && after.dialogs[k].id == net.dialogs[k].id && after.dialogs[k].sender == net.dialogs[k].sender
            && after.dialogs[k].dest == net.dialogs[k].dest && after.dialogs[k].content == net.dialogs[k].content
  {
    if TouchesDialogs(a) {
      DialogsKeepParties(net, a);
    } else {
      OthersLeaveDialogs(net, a);
    }
  }

  lemma TouchedElsewhere(net: Net, a: Action, k: nat)
    requires Enabled(net, a) && k < |net.dialogs| && TouchesDialogs(a) && !(a.Yield? && a.d == k) && !(a.Answer? && a.d == k)
    ensures var after := Step(net, a);
            k < |after.dialogs| && after.dialogs[k].yielded == net.dialogs[k].yielded && after.dialogs[k].reply == net.dialogs[k].reply
  {
  }

  /** Only its own Yield and Answer change what an exchange has yielded and replied. */
  lemma ExchangeStays(net: Net, a: Action, k: nat)
    requires Enabled(net, a) && k < |net.dialogs| && !(a.Yield? && a.d == k) && !(a.Answer? && a.d == k)
    ensures var after := Step(net, a);
            && k < |after.dialogs| && after.dialogs[k].sender == net.dialogs[k].sender && after.dialogs[k].dest == net.dialogs[k].dest
            && after.dialogs[k].content == net.dialogs[k].content
            && after.dialogs[k].yielded == net.dialogs[k].yielded && after.dialogs[k].reply == net.dialogs[k].reply
  {
    PartiesStay(net, a, k);
    if TouchesDialogs(a) {
      TouchedElsewhere(net, a, k);
    } else {
      OthersLeaveDialogs(net, a);
    }
  }

  /** Nodes neither come nor go. */
  lemma NodesStay(net: Net, a: Action)
    requires Enabled(net, a)
    ensures Step(net, a).nodes.Keys == net.nodes.Keys
  {
  }

  /** A sender waits for its dialog until that ends or it restarts. */
  lemma SendingStays(net: Net, a: Action, n: Key)
    requires Enabled(net, a) && n in net.nodes && net.nodes[n].pc.Sending?
    requires !(a.ClientSucceeds? && a.n == n) && !(a.ClientFails? && a.n == n) && !(a.Restart? && a.n == n)
    ensures n in Step(net, a).nodes && Step(net, a).nodes[n].pc == net.nodes[n].pc
  {
  }

  lemma NewDialogIsUsed(net: Net, a: Action, d: nat)
    requires NetInv(net) && IdsUsed(net) && Enabled(net, a) && d < |Step(net, a).dialogs|
    ensures Used(net, Step(net, a).dialogs[d].sender, Step(net, a).dialogs[d].id)
  {
    if !TouchesDialogs(a) {
      OthersLeaveDialogs(net, a);
    } else {
      DialogsKeepParties(net, a);
      if a.Poll? {
        PolledIsUsed(net, a.n, a.row);
      }
    }
  }

  lemma IdsStayUsed(net: Net, a: Action)
    requires NetInv(net) && IdsUsed(net) && Enabled(net, a)
    ensures IdsUsed(Step(net, a))
  {
    var after := Step(net, a);
    forall r | r in after.log.receipts
      ensures Used(after, r.sender, r.id)
    {
      NewReceiptIsUsed(net, a, r);
      CountersGrow(net, a, r.sender, r.id);
    }
    forall d | 0 <= d < |after.dialogs|
      ensures Used(after, after.dialogs[d].sender, after.dialogs[d].id)
    {
      NewDialogIsUsed(net, a, d);
      CountersGrow(net, a, after.dialogs[d].sender, after.dialogs[d].id);
    }
  }

  lemma RunStepStaysUsed(run: seq<Net>, i: nat)
    requires IsRun(run) && i < |run| - 1 && NetInv(run[i]) && IdsUsed(run[i])
    ensures IdsUsed(run[i + 1])
  {
    assert StepAt(run, i);
    var a: Action :| Enabled(run[i], a) && run[i + 1] == Step(run[i], a);
    IdsStayUsed(run[i], a);
  }

  lemma {:induction false} RunsUseIds(run: seq<Net>, i: nat)
    requires IsRun(run) && i < |run|
    ensures IdsUsed(run[i])
  {
    if i > 0 {
      RunsUseIds(run, i - 1);
      RunsKeepInvariant(run, i - 1);
      RunStepStaysUsed(run, i - 1);
    }
  }

  /**
   * A submission is not met by anything that happened before it, whatever was
   * sent or stored earlier, the same bytes included: when its rows are answered
   * with 250, none of them has a receipt.
   */
  lemma SubmissionIsUnmet(run: seq<Net>, i: nat, a: Action, o: Obligation)
    requires IsRun(run) && i < |run| && a.Submit? && Enabled(run[i], a)
    requires o in NewObligations(a.n, UidNext(run[i].nodes[a.n].db, OUTBOX), a.rcpts, a.content)
    ensures !Arrived(run[i].log, o) && !Arrived(Step(run[i], a).log, o)
  {
    RunsUseIds(run, i);
  }

  // ---------------------------------------------------------------- mails leave the Outbox last

  lemma SubmittedStays(net: Net, a: Action, id: nat)
    requires NetInv(net) && a.Submit? && Enabled(net, a) && MailId(OUTBOX, id) in net.nodes[a.n].db.mails
    ensures MailId(OUTBOX, id) in Step(net, a).nodes[a.n].db.mails
  {
    assert NodeInv(a.n, net.nodes[a.n], net.dialogs, net.log);
    Submission.AcceptedMeansAllRows(net.nodes[a.n].db, a.from, a.rcpts, a.content);
  }

  lemma YieldedStays(net: Net, d: nat, now: int, works: bool, n: Key, id: nat)
    requires Enabled(net, StoreYielded(d, now, works)) && n in net.nodes && MailId(OUTBOX, id) in net.nodes[n].db.mails
    ensures var after := Step(net, StoreYielded(d, now, works)); n in after.nodes && MailId(OUTBOX, id) in after.nodes[n].db.mails
  {
    var x := net.dialogs[d];
    StoreStays(net, x.dest, Arriving(x.sender, x.dest, x.content), now, works, n, id);
  }

  lemma HomeStays(net: Net, m: Key, row: QueueKey, now: int, works: bool, n: Key, id: nat)
    requires Enabled(net, DeliverHome(m, row, now, works)) && n in net.nodes && MailId(OUTBOX, id) in net.nodes[n].db.mails
    ensures var after := Step(net, DeliverHome(m, row, now, works)); n in after.nodes && MailId(OUTBOX, id) in after.nodes[n].db.mails
  {
    StoreStays(net, m, Fingerprint(m, net.nodes[m].db.mails[PolledMail(row)].content), now, works, n, id);
  }

  lemma StoresStay(net: Net, a: Action, n: Key, id: nat)
    requires Enabled(net, a) && n in net.nodes && IsStore(a)
    requires MailId(OUTBOX, id) in net.nodes[n].db.mails
    ensures n in Step(net, a).nodes && MailId(OUTBOX, id) in Step(net, a).nodes[n].db.mails
  {
    match a
    case StoreYielded(d, now, works) => YieldedStays(net, d, now, works, n, id);
    case StoreOther(m, f, now) => StoreStays(net, m, f, now, true, n, id);
    case DeliverHome(m, row, now, works) => HomeStays(net, m, row, now, works, n, id);
  }

  lemma StaysThroughFailure(db: Db, from: string, rows: seq<Submission.Recipient>, content: bytes, flagged: bool, expunged: bool, m: MailId)
    requires QueueInv(db) && m.mailbox == OUTBOX && m in db.mails && !db.mails[m].deleted
    ensures m in Submission.Abandoned(db, from, rows, content, flagged, expunged).mails
  {
    var mail := MailId(OUTBOX, UidNext(db, OUTBOX));
    Submission.EnqueuedRows(Inserted(db, OUTBOX, content), rows, mail, from);
  }

  lemma FailureStays(net: Net, a: Action, id: nat)
    requires NetInv(net) && a.SubmitFails? && Enabled(net, a)
    requires MailId(OUTBOX, id) in net.nodes[a.n].db.mails && !net.nodes[a.n].db.mails[MailId(OUTBOX, id)].deleted
    ensures MailId(OUTBOX, id) in Step(net, a).nodes[a.n].db.mails
  {
    assert NodeInv(a.n, net.nodes[a.n], net.dialogs, net.log);
    var rows := Submission.Distinct(Submission.Tagged(a.rcpts))[..a.rows];
    StaysThroughFailure(net.nodes[a.n].db, a.from, rows, a.content, a.flagged, a.expunged, MailId(OUTBOX, id));
  }

  lemma CountingStays(net: Net, m: Key, n: Key, id: nat)
    requires m in net.nodes && n in net.nodes && MailId(OUTBOX, id) in net.nodes[n].db.mails
    ensures var after := Step(net, InsertFails(m)); n in after.nodes && MailId(OUTBOX, id) in after.nodes[n].db.mails
  {
  }

  lemma SubmissionsStay(net: Net, a: Action, n: Key, id: nat)
    requires NetInv(net) && Enabled(net, a) && n in net.nodes && IsSubmission(a)
    requires MailId(OUTBOX, id) in net.nodes[n].db.mails && !net.nodes[n].db.mails[MailId(OUTBOX, id)].deleted
    ensures n in Step(net, a).nodes && MailId(OUTBOX, id) in Step(net, a).nodes[n].db.mails
  {
    if a.InsertFails? {
      CountingStays(net, a.n, n, id);
    } else if a.n != n {
      SubmissionIsLocal(net, a, n);
    } else if a.Submit? {
      SubmittedStays(net, a, id);
    } else {
      FailureStays(net, a, id);
    }
  }

  lemma SubmissionIsLocal(net: Net, a: Action, n: Key)
    requires Enabled(net, a) && n in net.nodes && IsSubmission(a) && a.n != n
    ensures n in Step(net, a).nodes && Step(net, a).nodes[n] == net.nodes[n]
  {
  }

  /** Whatever else happens, a mail not flagged deleted stays in the Outbox. */
  lemma OutboxStays(net: Net, a: Action, n: Key, id: nat)
    requires NetInv(net) && Enabled(net, a) && n in net.nodes && !a.MoveToSent?
    requires MailId(OUTBOX, id) in net.nodes[n].db.mails && !net.nodes[n].db.mails[MailId(OUTBOX, id)].deleted
    ensures n in Step(net, a).nodes && MailId(OUTBOX, id) in Step(net, a).nodes[n].db.mails
  {
    if IsSubmission(a) {
      SubmissionsStay(net, a, n, id);
    } else if IsStore(a) {
      StoresStay(net, a, n, id);
    } else {
      OthersStay(net, a, n, id);
    }
  }

  lemma OthersStay(net: Net, a: Action, n: Key, id: nat)
    requires Enabled(net, a) && n in net.nodes && !a.MoveToSent? && !IsSubmission(a) && !IsStore(a)
    requires MailId(OUTBOX, id) in net.nodes[n].db.mails
    ensures n in Step(net, a).nodes && MailId(OUTBOX, id) in Step(net, a).nodes[n].db.mails
  {
  }

  lemma StoreStays(net: Net, m: Key, f: Fingerprint, now: int, works: bool, n: Key, id: nat)
    requires m in net.nodes && n in net.nodes && MailId(OUTBOX, id) in net.nodes[n].db.mails
    ensures var after := AfterStore(net, m, f, now, works);
            n in after.nodes && MailId(OUTBOX, id) in after.nodes[n].db.mails
  {
  }

  /** A mail not flagged deleted leaves the Outbox only for Sent, with its last queue row gone. */
  lemma LeavesOutboxLast(net: Net, a: Action, n: Key, id: nat)
    requires NetInv(net) && Enabled(net, a) && n in net.nodes
    requires MailId(OUTBOX, id) in net.nodes[n].db.mails && !net.nodes[n].db.mails[MailId(OUTBOX, id)].deleted
    ensures n in Step(net, a).nodes
    ensures var before, after := net.nodes[n].db, Step(net, a).nodes[n].db;
            MailId(OUTBOX, id) in after.mails
            || (RowsOf(before, MailId(OUTBOX, id)) == {} && MailId(SENT, id) in after.mails
                && after.mails[MailId(SENT, id)] == before.mails[MailId(OUTBOX, id)])
  {
    if a.MoveToSent? {
      assert NodeInv(a.n, net.nodes[a.n], net.dialogs, net.log);
    } else {
      OutboxStays(net, a, n, id);
    }
  }

  /** The mail is stored in its mailbox under the next id. */
  predicate IsStored(db: Db, m: MailId, f: Fingerprint) {
    m in db.mails && m.mailbox == InboundMailbox(f.raw) && db.mails[m] == Mail(f.raw, false)
  }

  /** A commit is a mail that was not there before and now is, byte for byte. */
  lemma CommitStoresMail(net: Net, n: Key, f: Fingerprint, now: int, works: bool, c: Commit)
    requires n in net.nodes && c !in net.log.commits && c in AfterStore(net, n, f, now, works).log.commits
    ensures c.node == n && c.f == f
    ensures var m := StoredAs(net.nodes[n].db, f);
            m !in net.nodes[n].db.mails && IsStored(AfterStore(net, n, f, now, works).nodes[n].db, m, f)
  {
  }

  /** From one state to the next a new mail with the committed bytes has come to the committing node. */
  ghost predicate StoredBetween(net: Net, after: Net, c: Commit, m: MailId) {
    && c.node in net.nodes && c.node in after.nodes
    && m !in net.nodes[c.node].db.mails && IsStored(after.nodes[c.node].db, m, c.f)
  }

  lemma OthersCommitNothing(net: Net, a: Action)
    requires Enabled(net, a) && !a.StoreYielded? && !a.StoreOther? && !a.DeliverHome?
    ensures Step(net, a).log.commits == net.log.commits
  {
  }

  lemma NewCommitIsStored(net: Net, a: Action, c: Commit)
    requires Enabled(net, a) && c !in net.log.commits && c in Step(net, a).log.commits
    ensures c.node in net.nodes && StoredBetween(net, Step(net, a), c, StoredAs(net.nodes[c.node].db, c.f))
  {
    match a
    case StoreYielded(d, now, works) =>
      CommitStoresMail(net, net.dialogs[d].dest, Arriving(net.dialogs[d].sender, net.dialogs[d].dest, net.dialogs[d].content), now, works, c);
    case StoreOther(n, f, now) => CommitStoresMail(net, n, f, now, true, c);
    case DeliverHome(n, row, now, works) =>
      CommitStoresMail(net, n, Fingerprint(n, net.nodes[n].db.mails[PolledMail(row)].content), now, works, c);
    case _ => OthersCommitNothing(net, a);
  }

  ghost predicate StoredInStep(run: seq<Net>, j: nat, c: Commit, m: MailId) {
    j + 1 < |run| && StoredBetween(run[j], run[j + 1], c, m)
  }

  lemma RunStepStores(run: seq<Net>, i: nat, c: Commit)
    requires IsRun(run) && i < |run| - 1 && c !in run[i].log.commits && c in run[i + 1].log.commits
    ensures exists m :: StoredInStep(run, i, c, m)
  {
    assert StepAt(run, i);
    var a: Action :| Enabled(run[i], a) && run[i + 1] == Step(run[i], a);
    NewCommitIsStored(run[i], a, c);
    assert StoredInStep(run, i, c, StoredAs(run[i].nodes[c.node].db, c.f));
  }

  /**
   * Every commit that a receipt may rest on is a real one: at some step of the
   * run its node, which had no such mail, got one with exactly these bytes in
   * the mailbox they belong to.
   */
  lemma {:induction false} CommitsAreStored(run: seq<Net>, i: nat, c: Commit)
    requires IsRun(run) && i < |run| && c in run[i].log.commits
    ensures exists j: nat, m :: j < i && StoredInStep(run, j, c, m)
  {
    if i > 0 {
      if c in run[i - 1].log.commits {
        CommitsAreStored(run, i - 1, c);
      } else {
        RunStepStores(run, i - 1, c);
      }
    }
  }
}
