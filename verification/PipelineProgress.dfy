// From every reachable state of the network a queued mail can still be
// delivered, and what a delivery that meets no fault leaves behind.
module PipelineProgress {
  import opened Bytes
  import opened Wrappers
  import opened Text
  import opened StorageState
  import opened OutboundQueue
  import opened Pipeline
  import OverlayCodec

  /** Some run of at most this many steps leads from one state to the other. */
  ghost predicate Reaches(net: Net, after: Net, steps: nat)
    decreases steps
  {
    net == after || (steps > 0 && exists mid :: Next(net, mid) && Reaches(mid, after, steps - 1))
  }

  lemma OneStep(net: Net, a: Action, after: Net, steps: nat)
    requires Enabled(net, a) && Reaches(Step(net, a), after, steps)
    ensures Reaches(net, after, steps + 1)
  {
    assert Next(net, Step(net, a));
  }

  /** The row is queued at its node with this mail, and its destination takes part. */
  ghost predicate Waits(net: Net, n: Key, row: QueueKey, content: bytes) {
    && NetInv(net) && n in net.nodes && row in net.nodes[n].db.queue && row.mail in net.nodes[n].db.mails
    && net.nodes[n].db.mails[row.mail].content == content
    && HexDecode(row.dest).Some? && |HexDecode(row.dest).value| == 32 && DestOf(row) in net.nodes
  }

  /** No counter runs into a mail. */
  ghost predicate CountersClear(db: Db) {
    forall m :: m in db.mails ==> m.id < UidNext(db, m.mailbox)
  }

  /** What goes out is as before. */
  ghost predicate SameOutgoing(before: Db, db: Db) {
    && db.queue == before.queue
    && forall m: MailId :: m.mailbox == "Outbox" || m.mailbox == "Sent" ==>
         (m in db.mails <==> m in before.mails) && (m in before.mails ==> db.mails[m] == before.mails[m])
  }

  lemma RestartClears(net: Net, n: Key)
    requires NetInv(net) && n in net.nodes
    ensures var after := Step(net, Restart(n));
            && NetInv(after) && after.nodes.Keys == net.nodes.Keys
            && after.nodes[n].pc == Idle && CountersClear(after.nodes[n].db)
            && after.nodes[n].db.queue == net.nodes[n].db.queue && after.nodes[n].db.mails == net.nodes[n].db.mails
            && (forall m :: m in net.nodes && m != n ==> after.nodes[m] == net.nodes[m])
  {
    RestartKeeps(net, n);
    assert NodeInv(n, net.nodes[n], net.dialogs, net.log);
    OpenEstablishes(net.nodes[n].db);
    OpenChangesNothing(net.nodes[n].db);
    RestartLeaves(net, n);
  }

  lemma RestartLeaves(net: Net, n: Key)
    requires n in net.nodes
    ensures var after := Step(net, Restart(n));
            && after.nodes.Keys == net.nodes.Keys && after.nodes[n] == Node(Opened(net.nodes[n].db), Idle)
            && (forall m :: m in net.nodes && m != n ==> after.nodes[m] == net.nodes[m])
  {
  }

  /** With its counters clear, a store takes whatever it is given. */
  lemma ClearMeansDurable(db: Db, f: Fingerprint, now: int)
    requires CountersClear(db)
    ensures Durable(db, f, now, true)
  {
  }

  // ---------------------------------------------------------------- the rest of a delivery

  /** The row has gone and no other; the mail has gone with its last row if it had a place to go to. */
  ghost predicate Served(before: Db, after: Db, row: QueueKey) {
    && (forall q :: q in after.queue <==> q in before.queue && q != row)
    && ((forall q :: q in before.queue && q.mail == row.mail ==> q == row) && MailId("Sent", row.mail.id) !in before.mails ==>
          Filed(before, after, row.mail.id))
  }

  lemma ServedAfter(before: Db, middle: Db, after: Db, row: QueueKey)
    requires SameOutgoing(before, middle) && Served(middle, after, row)
    ensures Served(before, after, row)
  {
  }

  /** Served from here: the destination's store has the mail, and the row's node has seen to the row. */
  ghost predicate Completed(net: Net, after: Net, n: Key, row: QueueKey, dest: Key, content: bytes)
    requires n in net.nodes
  {
    && NetInv(after) && n in after.nodes && Served(net.nodes[n].db, after.nodes[n].db, row)
    && Received(after.log, n, row.mail.id, dest, Fingerprint(n, if dest == n then content else OverlayCodec.Normal(content)))
  }

  /** Delivered: the statements that follow remove the row and file the mail. */
  lemma DeliveredIsServed(net: Net, n: Key, row: QueueKey) returns (after: Net)
    requires NetInv(net) && n in net.nodes && net.nodes[n].pc == Delivered(row) && row in net.nodes[n].db.queue
    ensures Reaches(net, after, 3) && NetInv(after) && n in after.nodes && after.log == net.log
    ensures Served(net.nodes[n].db, after.nodes[n].db, row)
  {
    var dequeued := Step(net, Dequeue(n, true));
    DequeueKeeps(net, n, true);
    RowDequeued(net, n, row);
    var counted := Step(dequeued, CountRows(n, true));
    CountRowsKeeps(dequeued, n, true);
    if counted.nodes[n].pc.LastGone? {
      after := Step(counted, MoveToSent(n, true));
      MoveToSentKeeps(counted, n, true);
      LastRowMoved(net.nodes[n].db, dequeued.nodes[n].db, after.nodes[n].db, row);
      OneStep(counted, MoveToSent(n, true), after, 0);
    } else {
      after := counted;
      OthersLeft(net.nodes[n].db, dequeued.nodes[n].db, row);
    }
    OneStep(dequeued, CountRows(n, true), after, 1);
    OneStep(net, Dequeue(n, true), after, 2);
  }

  lemma RowDequeued(net: Net, n: Key, row: QueueKey)
    requires NetInv(net) && n in net.nodes && net.nodes[n].pc == Delivered(row) && row in net.nodes[n].db.queue
    ensures row.mail == MailId(OUTBOX, row.mail.id) && row.mail in net.nodes[n].db.mails
    ensures QueueInv(net.nodes[n].db)
    ensures var after := Step(net, Dequeue(n, true));
            after.nodes[n] == Node(QueueDeleted(net.nodes[n].db, row), Dequeued(row.mail.id)) && after.log == net.log
  {
    assert NodeInv(n, net.nodes[n], net.dialogs, net.log);
    NoOrphans(net.nodes[n].db, row);
  }

  lemma LastRowMoved(before: Db, dequeued: Db, after: Db, row: QueueKey)
    requires QueueInv(before) && row in before.queue && row.mail == MailId(OUTBOX, row.mail.id) && row.mail in before.mails
    requires dequeued == QueueDeleted(before, row) && RowsOf(dequeued, row.mail) == {}
    requires after == if Movable(dequeued, OUTBOX, SENT, row.mail.id) then Moved(dequeued, OUTBOX, SENT, row.mail.id) else dequeued
    ensures Served(before, after, row)
  {
    assert QueueKey(row.dest, MailId(OUTBOX, row.mail.id)) == row;
    assert after == RowDone(before, row.dest, row.mail.id, true);
    RowDoneKeepsQueue(before, row.dest, row.mail.id, true);
    LastRowFiles(before, row.dest, row.mail.id);
  }

  lemma OthersLeft(before: Db, dequeued: Db, row: QueueKey)
    requires dequeued == QueueDeleted(before, row) && RowsOf(dequeued, row.mail) != {}
    ensures Served(before, dequeued, row)
  {
    var q :| q in RowsOf(dequeued, row.mail);
    assert q in before.queue && q != row;
  }

  // ---------------------------------------------------------------- a delivery over the network

  /** The sender waits on dialog `d` about this row. */
  ghost predicate Underway(net: Net, n: Key, row: QueueKey, content: bytes, d: nat) {
    && Waits(net, n, row, content) && net.nodes[n].pc == Sending(row, d) && d < |net.dialogs|
    && net.dialogs[d].sender == n && net.dialogs[d].id == row.mail.id && net.dialogs[d].dest == DestOf(row) && net.dialogs[d].content == content
  }

  lemma PollStarts(net: Net, n: Key, row: QueueKey, content: bytes)
    requires Waits(net, n, row, content) && net.nodes[n].pc == Idle && DestOf(row) != n
    ensures Enabled(net, Poll(n, row))
    ensures var after := Step(net, Poll(n, row));
            && Underway(after, n, row, content, |net.dialogs|) && !after.dialogs[|net.dialogs|].yielded && after.dialogs[|net.dialogs|].reply == None
            && after.nodes[n].db == net.nodes[n].db && after.nodes[DestOf(row)] == net.nodes[DestOf(row)]
  {
    PolledIsNamed(net, n, row);
    PollKeeps(net, n, row);
  }

  lemma YieldHands(net: Net, n: Key, row: QueueKey, content: bytes, d: nat)
    requires Underway(net, n, row, content, d) && !net.dialogs[d].yielded && net.dialogs[d].reply == None
    requires |OverlayCodec.Normal(content)| <= 34603008
    ensures Enabled(net, Yield(d))
    ensures var after := Step(net, Yield(d));
            && Underway(after, n, row, content, d) && after.dialogs[d].yielded && after.dialogs[d].inChannel && after.dialogs[d].reply == None
            && after.nodes == net.nodes
  {
    YieldKeeps(net, d);
  }

  lemma StoreTakes(net: Net, n: Key, row: QueueKey, content: bytes, d: nat, now: int)
    requires Underway(net, n, row, content, d) && DestOf(row) != n && CountersClear(net.nodes[DestOf(row)].db)
    requires net.dialogs[d].yielded && net.dialogs[d].inChannel && net.dialogs[d].reply == None
    ensures Enabled(net, StoreYielded(d, now, true))
    ensures var after := Step(net, StoreYielded(d, now, true));
            && Underway(after, n, row, content, d) && after.dialogs[d].yielded && after.dialogs[d].acked && after.dialogs[d].reply == None
            && after.nodes[n] == net.nodes[n]
  {
    ClearMeansDurable(net.nodes[DestOf(row)].db, Arriving(n, DestOf(row), content), now);
    StoreYieldedKeeps(net, d, now, true);
  }

  lemma AnswerGiven(net: Net, n: Key, row: QueueKey, content: bytes, d: nat)
    requires Underway(net, n, row, content, d) && net.dialogs[d].yielded && net.dialogs[d].acked && net.dialogs[d].reply == None
    ensures Enabled(net, Answer(d, true))
    ensures var after := Step(net, Answer(d, true));
            && Underway(after, n, row, content, d) && after.dialogs[d].reply == Some(true) && after.nodes == net.nodes
  {
    AnswerKeeps(net, d, true);
  }

  lemma ClientReads(net: Net, n: Key, row: QueueKey, content: bytes, d: nat)
    requires Underway(net, n, row, content, d) && net.dialogs[d].reply == Some(true)
    ensures Enabled(net, ClientSucceeds(n))
    ensures var after := Step(net, ClientSucceeds(n));
            && NetInv(after) && n in after.nodes && after.nodes[n].pc == Delivered(row) && after.nodes[n].db == net.nodes[n].db
            && Received(after.log, n, row.mail.id, DestOf(row), Arriving(n, DestOf(row), content))
  {
    ClientSucceedsKeeps(net, n);
    assert ExchangeInv(net.dialogs[d], net.log);
  }

  /** One fault-free dialog, from the poll to the client's last reply. */
  lemma DialogDelivers(net: Net, n: Key, row: QueueKey, content: bytes, now: int) returns (after: Net)
    requires Waits(net, n, row, content) && net.nodes[n].pc == Idle && DestOf(row) != n
    requires CountersClear(net.nodes[DestOf(row)].db) && |OverlayCodec.Normal(content)| <= 34603008
    ensures Reaches(net, after, 8) && Completed(net, after, n, row, DestOf(row), content)
  {
    var d := |net.dialogs|;
    PollStarts(net, n, row, content);
    var polled := Step(net, Poll(n, row));
    after := YieldedDelivers(polled, n, row, content, d, now);
    OneStep(net, Poll(n, row), after, 7);
  }

  lemma YieldedDelivers(net: Net, n: Key, row: QueueKey, content: bytes, d: nat, now: int) returns (after: Net)
    requires Underway(net, n, row, content, d) && DestOf(row) != n && CountersClear(net.nodes[DestOf(row)].db)
    requires !net.dialogs[d].yielded && net.dialogs[d].reply == None && |OverlayCodec.Normal(content)| <= 34603008
    ensures Reaches(net, after, 7) && NetInv(after) && n in after.nodes
    ensures Received(after.log, n, row.mail.id, DestOf(row), Arriving(n, DestOf(row), content))
    ensures Served(net.nodes[n].db, after.nodes[n].db, row)
  {
    YieldHands(net, n, row, content, d);
    var yielded := Step(net, Yield(d));
    StoreTakes(yielded, n, row, content, d, now);
    var stored := Step(yielded, StoreYielded(d, now, true));
    AnswerGiven(stored, n, row, content, d);
    var answered := Step(stored, Answer(d, true));
    ClientReads(answered, n, row, content, d);
    var read := Step(answered, ClientSucceeds(n));
    after := DeliveredIsServed(read, n, row);
    OneStep(answered, ClientSucceeds(n), after, 3);
    OneStep(stored, Answer(d, true), after, 4);
    OneStep(yielded, StoreYielded(d, now, true), after, 5);
    OneStep(net, Yield(d), after, 6);
  }

  // ---------------------------------------------------------------- a delivery at home

  lemma HomeTakes(net: Net, n: Key, row: QueueKey, content: bytes, now: int)
    requires Waits(net, n, row, content) && net.nodes[n].pc == Idle && DestOf(row) == n && CountersClear(net.nodes[n].db)
    ensures Enabled(net, DeliverHome(n, row, now, true))
    ensures var after := Step(net, DeliverHome(n, row, now, true));
            && Waits(after, n, row, content) && after.nodes[n].pc == Delivered(row)
            && SameOutgoing(net.nodes[n].db, after.nodes[n].db)
            && Received(after.log, n, row.mail.id, n, Fingerprint(n, content))
  {
    PolledIsNamed(net, n, row);
    ClearMeansDurable(net.nodes[n].db, Fingerprint(n, content), now);
    DeliverHomeKeeps(net, n, row, now, true);
    HomeState(net, n, row, content, now);
    var after := Step(net, DeliverHome(n, row, now, true));
    HomeReceived(after, n, row, content);
  }

  lemma HomeReceived(net: Net, n: Key, row: QueueKey, content: bytes)
    requires Waits(net, n, row, content) && net.nodes[n].pc == Delivered(row)
    ensures Received(net.log, n, row.mail.id, DestOf(row), Arriving(n, DestOf(row), content))
  {
    assert PcInv(n, net.nodes[n], net.dialogs, net.log);
  }

  lemma HomeState(net: Net, n: Key, row: QueueKey, content: bytes, now: int)
    requires Enabled(net, DeliverHome(n, row, now, true)) && PolledMail(row) == row.mail && row.mail in net.nodes[n].db.mails
    requires net.nodes[n].db.mails[row.mail].content == content && Durable(net.nodes[n].db, Fingerprint(n, content), now, true)
    requires QueueInv(net.nodes[n].db)
    ensures var after := Step(net, DeliverHome(n, row, now, true));
            && n in after.nodes && after.nodes.Keys == net.nodes.Keys && after.nodes[n].pc == Delivered(row)
            && SameOutgoing(net.nodes[n].db, after.nodes[n].db)
  {
    StoreIsInbound(net.nodes[n].db, Fingerprint(n, content), now);
  }

  lemma StoreIsInbound(db: Db, f: Fingerprint, now: int)
    ensures SameOutgoing(db, Stored(db, f, now))
  {
  }

  lemma HomeDelivers(net: Net, n: Key, row: QueueKey, content: bytes, now: int) returns (after: Net)
    requires Waits(net, n, row, content) && net.nodes[n].pc == Idle && DestOf(row) == n && CountersClear(net.nodes[n].db)
    ensures Reaches(net, after, 4) && Completed(net, after, n, row, DestOf(row), content)
  {
    HomeTakes(net, n, row, content, now);
    var home := Step(net, DeliverHome(n, row, now, true));
    after := DeliveredIsServed(home, n, row);
    ServedAfter(net.nodes[n].db, home.nodes[n].db, after.nodes[n].db, row);
    OneStep(net, DeliverHome(n, row, now, true), after, 3);
  }

  // ---------------------------------------------------------------- the theorem

  lemma LongerReaches(net: Net, after: Net, steps: nat, more: nat)
    requires Reaches(net, after, steps) && steps <= more
    ensures Reaches(net, after, more)
    decreases steps
  {
    if net != after {
      var mid :| Next(net, mid) && Reaches(mid, after, steps - 1);
      LongerReaches(mid, after, steps - 1, more - 1);
    }
  }

  lemma RestartWaits(net: Net, m: Key, n: Key, row: QueueKey, content: bytes)
    requires Waits(net, n, row, content) && m in net.nodes
    ensures var after := Step(net, Restart(m));
            && Waits(after, n, row, content) && after.nodes[m].pc == Idle && CountersClear(after.nodes[m].db)
            && SameOutgoing(net.nodes[n].db, after.nodes[n].db)
            && (m != n ==> after.nodes[n] == net.nodes[n])
  {
    RestartClears(net, m);
  }

  lemma WaitingIsServed(net: Net, n: Key, row: QueueKey, content: bytes, now: int) returns (after: Net)
    requires Waits(net, n, row, content) && |OverlayCodec.Normal(content)| <= 34603008
    ensures Reaches(net, after, 10) && Completed(net, after, n, row, DestOf(row), content)
  {
    RestartWaits(net, n, n, row, content);
    var up := Step(net, Restart(n));
    after := IdleDelivers(up, n, row, content, now);
    OnceRestarted(net, n, after, n, row, content, 9);
  }

  lemma OnceRestarted(net: Net, m: Key, after: Net, n: Key, row: QueueKey, content: bytes, steps: nat)
    requires n in net.nodes && Enabled(net, Restart(m)) && n in Step(net, Restart(m)).nodes
    requires SameOutgoing(net.nodes[n].db, Step(net, Restart(m)).nodes[n].db)
    requires Reaches(Step(net, Restart(m)), after, steps) && Completed(Step(net, Restart(m)), after, n, row, DestOf(row), content)
    ensures Reaches(net, after, steps + 1) && Completed(net, after, n, row, DestOf(row), content)
  {
    OneStep(net, Restart(m), after, steps);
    ServedAfter(net.nodes[n].db, Step(net, Restart(m)).nodes[n].db, after.nodes[n].db, row);
  }

  lemma IdleDelivers(net: Net, n: Key, row: QueueKey, content: bytes, now: int) returns (after: Net)
    requires Waits(net, n, row, content) && net.nodes[n].pc == Idle && CountersClear(net.nodes[n].db) && |OverlayCodec.Normal(content)| <= 34603008
    ensures Reaches(net, after, 9) && Completed(net, after, n, row, DestOf(row), content)
  {
    if DestOf(row) == n {
      after := HomeDelivers(net, n, row, content, now);
      LongerReaches(net, after, 4, 9);
    } else {
      after := RemoteDelivers(net, n, row, content, now);
    }
  }

  lemma RemoteDelivers(net: Net, n: Key, row: QueueKey, content: bytes, now: int) returns (after: Net)
    requires Waits(net, n, row, content) && net.nodes[n].pc == Idle && DestOf(row) != n && |OverlayCodec.Normal(content)| <= 34603008
    ensures Reaches(net, after, 9) && Completed(net, after, n, row, DestOf(row), content)
  {
    var dest := DestOf(row);
    RestartWaits(net, dest, n, row, content);
    var both := Step(net, Restart(dest));
    after := DialogDelivers(both, n, row, content, now);
    OnceRestarted(net, dest, after, n, row, content, 8);
  }

  lemma QueuedWaits(net: Net, n: Key, row: QueueKey)
    requires NetInv(net) && n in net.nodes && row in net.nodes[n].db.queue
    requires HexDecode(row.dest).Some? && |HexDecode(row.dest).value| == 32 && HexDecode(row.dest).value in net.nodes
    ensures row.mail in net.nodes[n].db.mails && Waits(net, n, row, net.nodes[n].db.mails[row.mail].content)
    ensures DestOf(row) == HexDecode(row.dest).value
  {
    assert NodeInv(n, net.nodes[n], net.dialogs, net.log);
    NoOrphans(net.nodes[n].db, row);
  }

  /**
   * In whatever state crashes, refusals and other mail have left the network, a
   * row that waits for a node of it, with a mail that fits, is ten steps away
   * from being served: the destination's store has taken its mail, the row has
   * gone and no other, and with the last row the mail is in Sent as it was.
   */
  lemma QueuedMailCanBeDelivered(run: seq<Net>, i: nat, n: Key, row: QueueKey, now: int) returns (content: bytes, after: Net)
    requires IsRun(run) && i < |run| && n in run[i].nodes && row in run[i].nodes[n].db.queue
    requires HexDecode(row.dest).Some? && |HexDecode(row.dest).value| == 32 && HexDecode(row.dest).value in run[i].nodes
    ensures row.mail in run[i].nodes[n].db.mails && content == run[i].nodes[n].db.mails[row.mail].content
    ensures |OverlayCodec.Normal(content)| <= 34603008 ==>
              Reaches(run[i], after, 10) && Completed(run[i], after, n, row, HexDecode(row.dest).value, content)
  {
    RunsKeepInvariant(run, i);
    QueuedWaits(run[i], n, row);
    content := run[i].nodes[n].db.mails[row.mail].content;
    after := run[i];
    if |OverlayCodec.Normal(content)| <= 34603008 {
      after := WaitingIsServed(run[i], n, row, content, now);
    }
  }
}
