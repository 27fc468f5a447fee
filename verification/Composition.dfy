// The dialog as the pipeline sees it: one exchange between a node that is
// sending a row and the node the row is for.
module Composition {
  import opened Bytes
  import opened Wrappers
  import opened OverlayCodec
  import opened OverlayPrograms
  import opened OverlayLines
  import Dialog = OverlayDialog
  import opened StorageState
  import Pipeline

  /** The server's phase and what the pipeline records of it. */
  predicate ServerMirrored(server: ServerPhase, x: Pipeline.Exchange) {
    match server
    case Yielded(_) => x.yielded && x.reply.None?
    case Replied(_, durable) => x.yielded && x.reply == Some(durable)
    case Failed(_) => x.reply.None?
    case _ => !x.yielded && x.reply.None?
  }

  /** Exchange `k` of the network is this dialog: client `s.peer`, server `s.local`, the order's body. */
  predicate Mirrors(s: Dialog.Setting, d: Dialog.Dialog, net: Pipeline.Net, k: nat) {
    && k < |net.dialogs| && s.peer in net.nodes && s.local in net.nodes
    && (!d.client.Finished? ==> net.nodes[s.peer].pc.Sending? && net.nodes[s.peer].pc.dialog == k)
    && var x := net.dialogs[k];
       x.sender == s.peer && x.dest == s.local && x.content == s.order.body && ServerMirrored(d.server, x)
  }

  /** The pipeline's step for a step of the dialog, if it is not a stutter. */
  function MoveOf(s: Dialog.Setting, d: Dialog.Dialog, a: Dialog.Action, k: nat): Option<Pipeline.Action>
    requires Dialog.Enabled(d, a)
  {
    var after := Dialog.Step(s, d, a);
    match a
    case ServerReads => if after.server.Yielded? then Some(Pipeline.Yield(k)) else None
    case Verdict(durable) => Some(Pipeline.Answer(k, durable))
    case ServerGivesUp(_) => None
    case _ =>
      if d.client.Finished? || !after.client.Finished? then None
      else if after.client.ok then Some(Pipeline.ClientSucceeds(s.peer))
      else Some(Pipeline.ClientFails(s.peer))
  }

  // ---------------------------------------------------------------- the dialog's side

  ghost predicate PartiesFit(s: Dialog.Setting) {
    Conformant(s.order, s.local, s.peer) && s.local != s.peer
  }

  /** What a mail in the server's hands is. */
  predicate HoldsMail(s: Dialog.Setting, server: ServerPhase) {
    server.Yielded? ==> server.mail == Normal(s.order.body) && |Normal(s.order.body)| <= MAX_DATA_BYTES
  }

  lemma SoundHolds(s: Dialog.Setting, d: Dialog.Dialog)
    requires Dialog.Sound(s.order, d)
    ensures HoldsMail(s, d.server)
    ensures d.client == Finished(true) ==> d.server.Replied? && d.server.durable
  {
  }

  predicate Early(server: ServerPhase) {
    server.Kick? || server.Command? || server.Body?
  }

  lemma CommandReadOnly(s: Dialog.Setting, d: Dialog.Dialog)
    requires d.server.Command?
    ensures var after := Dialog.AfterServerReads(d, s.local, s.peer);
            after.client == d.client && (Early(after.server) || after.server.Failed?)
  {
    CommandShape(FirstLine(d.toServer, MAX_LINE_BYTES), d.server.fromOk, d.server.rcptOk, s.local, s.peer);
  }

  lemma BodyReadOnly(s: Dialog.Setting, d: Dialog.Dialog)
    requires d.server.Body?
    ensures var after := Dialog.AfterServerReads(d, s.local, s.peer);
            after.client == d.client && (Early(after.server) || after.server.Yielded? || after.server.Failed?)
  {
  }

  lemma KickReadOnly(s: Dialog.Setting, d: Dialog.Dialog)
    requires d.server.Kick?
    ensures var after := Dialog.AfterServerReads(d, s.local, s.peer);
            after.client == d.client && (Early(after.server) || after.server.Failed?)
  {
  }

  lemma ServerReadsOnly(s: Dialog.Setting, d: Dialog.Dialog)
    requires Dialog.Enabled(d, Dialog.ServerReads)
    ensures var after := Dialog.AfterServerReads(d, s.local, s.peer);
            after.client == d.client && Early(d.server) && (Early(after.server) || after.server.Yielded? || after.server.Failed?)
  {
    if d.server.Kick? {
      KickReadOnly(s, d);
    } else if d.server.Command? {
      CommandReadOnly(s, d);
    } else {
      BodyReadOnly(s, d);
    }
  }

  lemma ClientReadsOnly(s: Dialog.Setting, d: Dialog.Dialog, a: Dialog.Action)
    requires Dialog.Enabled(d, a) && (a.ClientReads? || a.ClientGivesUp?)
    ensures var after := Dialog.Step(s, d, a);
            after.server == d.server && (d.client.Finished? ==> after.client == d.client)
  {
  }

  // ---------------------------------------------------------------- the pipeline's side

  lemma YieldMirrors(s: Dialog.Setting, d: Dialog.Dialog, after: Dialog.Dialog, net: Pipeline.Net, k: nat)
    requires Mirrors(s, d, net, k) && Early(d.server) && after.server.Yielded? && after.client == d.client
    requires |Normal(s.order.body)| <= MAX_DATA_BYTES
    ensures Pipeline.Enabled(net, Pipeline.Yield(k)) && Mirrors(s, after, Pipeline.Step(net, Pipeline.Yield(k)), k)
  {
  }

  lemma AnswerMirrors(s: Dialog.Setting, d: Dialog.Dialog, after: Dialog.Dialog, net: Pipeline.Net, k: nat, durable: bool)
    requires Mirrors(s, d, net, k) && d.server.Yielded? && after.client == d.client
    requires after.server.Replied? && after.server.durable == durable && (durable ==> net.dialogs[k].acked)
    ensures Pipeline.Enabled(net, Pipeline.Answer(k, durable)) && Mirrors(s, after, Pipeline.Step(net, Pipeline.Answer(k, durable)), k)
  {
  }

  lemma ClientEndMirrors(s: Dialog.Setting, d: Dialog.Dialog, after: Dialog.Dialog, net: Pipeline.Net, k: nat)
    requires Mirrors(s, d, net, k) && after.server == d.server && !d.client.Finished? && after.client.Finished?
    requires after.client.ok ==> d.server.Replied? && d.server.durable
    ensures var b := if after.client.ok then Pipeline.ClientSucceeds(s.peer) else Pipeline.ClientFails(s.peer);
            Pipeline.Enabled(net, b) && Mirrors(s, after, Pipeline.Step(net, b), k)
  {
  }

  /** The move is enabled and leads to a mirror again; without a move the mirror stays. */
  ghost predicate Follows(s: Dialog.Setting, after: Dialog.Dialog, net: Pipeline.Net, k: nat, move: Option<Pipeline.Action>) {
    match move
    case None => Mirrors(s, after, net, k)
    case Some(b) => Pipeline.Enabled(net, b) && Mirrors(s, after, Pipeline.Step(net, b), k)
  }

  lemma ServerReadsMirror(s: Dialog.Setting, d: Dialog.Dialog, net: Pipeline.Net, k: nat)
    requires Dialog.Enabled(d, Dialog.ServerReads) && Mirrors(s, d, net, k)
    requires HoldsMail(s, Dialog.AfterServerReads(d, s.local, s.peer).server)
    ensures Follows(s, Dialog.AfterServerReads(d, s.local, s.peer), net, k, MoveOf(s, d, Dialog.ServerReads, k))
  {
    var after := Dialog.AfterServerReads(d, s.local, s.peer);
    ServerReadsOnly(s, d);
    if after.server.Yielded? {
      YieldMirrors(s, d, after, net, k);
    }
  }

  lemma ClientMirrors(s: Dialog.Setting, d: Dialog.Dialog, a: Dialog.Action, net: Pipeline.Net, k: nat)
    requires Dialog.Enabled(d, a) && (a.ClientReads? || a.ClientGivesUp?) && Mirrors(s, d, net, k)
    requires var after := Dialog.Step(s, d, a); after.client == Finished(true) ==> after.server.Replied? && after.server.durable
    ensures Follows(s, Dialog.Step(s, d, a), net, k, MoveOf(s, d, a, k))
  {
    var after := Dialog.Step(s, d, a);
    ClientReadsOnly(s, d, a);
    if !d.client.Finished? && after.client.Finished? {
      ClientEndMirrors(s, d, after, net, k);
    }
  }

  lemma SoundStepHolds(s: Dialog.Setting, d: Dialog.Dialog, a: Dialog.Action)
    requires PartiesFit(s) && Dialog.Sound(s.order, d) && Dialog.Enabled(d, a)
    ensures var after := Dialog.Step(s, d, a);
            && Dialog.Sound(s.order, after) && HoldsMail(s, after.server)
            && (after.client == Finished(true) ==> after.server.Replied? && after.server.durable)
  {
    Dialog.SoundGoesOn(s, d, a);
    SoundHolds(s, Dialog.Step(s, d, a));
  }

  /** The mail in the server's hands is the one that counts as arriving. */
  lemma HeldIsArriving(s: Dialog.Setting, server: ServerPhase, x: Pipeline.Exchange)
    requires PartiesFit(s) && HoldsMail(s, server) && server.Yielded?
    requires x.sender == s.peer && x.dest == s.local && x.content == s.order.body
    ensures Fingerprint(s.peer, server.mail) == Pipeline.Arriving(x.sender, x.dest, x.content)
  {
  }

  /**
   * Step simulation. While an exchange of the pipeline mirrors a dialog, faults
   * included, each step of the dialog is one of the pipeline's Yield, Answer,
   * ClientSucceeds and ClientFails, enabled and leading to a mirror again, or it
   * leaves the pipeline where it is. The verdict `durable` is given only on an
   * acknowledgement from the store. The mail the receiver is handed is the one
   * that counts as arriving.
   */
  lemma DialogStepIsPipelineStep(s: Dialog.Setting, d: Dialog.Dialog, a: Dialog.Action, net: Pipeline.Net, k: nat)
    requires PartiesFit(s) && Dialog.Sound(s.order, d) && Dialog.Enabled(d, a) && Mirrors(s, d, net, k)
    requires a == Dialog.Verdict(true) ==> net.dialogs[k].acked
    ensures var after := Dialog.Step(s, d, a);
            && Follows(s, after, net, k, MoveOf(s, d, a, k))
            && (after.server.Yielded? ==>
                  Fingerprint(s.peer, after.server.mail) == Pipeline.Arriving(net.dialogs[k].sender, net.dialogs[k].dest, net.dialogs[k].content))
  {
    var after := Dialog.Step(s, d, a);
    SoundStepHolds(s, d, a);
    if after.server.Yielded? {
      HeldIsArriving(s, after.server, net.dialogs[k]);
    }
    match a
    case ServerReads => ServerReadsMirror(s, d, net, k);
    case Verdict(durable) => AnswerMirrors(s, d, after, net, k, durable);
    case ServerGivesUp(_) =>
    case _ => ClientMirrors(s, d, a, net, k);
  }

  /** A poll opens a dialog that its exchange mirrors. */
  lemma PollOpensMirror(s: Dialog.Setting, net: Pipeline.Net, row: QueueKey)
    requires Pipeline.Enabled(net, Pipeline.Poll(s.peer, row)) && Pipeline.DestOf(row) == s.local && s.local in net.nodes
    requires net.nodes[s.peer].db.mails[Pipeline.PolledMail(row)].content == s.order.body
    ensures Mirrors(s, Dialog.OPENED, Pipeline.Step(net, Pipeline.Poll(s.peer, row)), |net.dialogs|)
  {
  }

  /** The pipeline's own moves of this exchange; a sender that restarts has given its dialog up. */
  predicate IsMoveOf(s: Dialog.Setting, d: Dialog.Dialog, b: Pipeline.Action, k: nat) {
    match b
    case Yield(x) => x == k
    case Answer(x, _) => x == k
    case ClientSucceeds(n) => n == s.peer
    case ClientFails(n) => n == s.peer
    case Restart(n) => n == s.peer && !d.client.Finished?
    case _ => false
  }

  /** Everything else that happens in the network leaves the mirror alone. */
  lemma OthersKeepMirror(s: Dialog.Setting, d: Dialog.Dialog, net: Pipeline.Net, b: Pipeline.Action, k: nat)
    requires Mirrors(s, d, net, k) && Pipeline.Enabled(net, b) && !IsMoveOf(s, d, b, k)
    ensures Mirrors(s, d, Pipeline.Step(net, b), k)
  {
    Pipeline.NodesStay(net, b);
    Pipeline.ExchangeStays(net, b, k);
    if !d.client.Finished? {
      Pipeline.SendingStays(net, b, s.peer);
    }
  }

  // ---------------------------------------------------------------- runs of both

  /** The bytes of one dialog, and the network around it. */
  datatype Joint = Joint(dialog: Dialog.Dialog, net: Pipeline.Net)

  /** A step of the dialog takes the network along. `durable` is only said on an acknowledgement. */
  ghost predicate DialogMoves(s: Dialog.Setting, k: nat, j: Joint, after: Joint, a: Dialog.Action) {
    && Dialog.Enabled(j.dialog, a) && k < |j.net.dialogs| && (a == Dialog.Verdict(true) ==> j.net.dialogs[k].acked)
    && after.dialog == Dialog.Step(s, j.dialog, a)
    && match MoveOf(s, j.dialog, a, k)
       case None => after.net == j.net
       case Some(b) => Pipeline.Enabled(j.net, b) && after.net == Pipeline.Step(j.net, b)
  }

  /** Anything else that happens in the network. */
  ghost predicate OthersMove(s: Dialog.Setting, k: nat, j: Joint, after: Joint, b: Pipeline.Action) {
    !IsMoveOf(s, j.dialog, b, k) && Pipeline.Enabled(j.net, b) && after == Joint(j.dialog, Pipeline.Step(j.net, b))
  }

  /** The sending node restarts in the middle of the dialog; a prefix of what it wrote may still arrive. */
  ghost predicate SenderRestarts(s: Dialog.Setting, j: Joint, after: Joint, delivered: nat) {
    && Dialog.Enabled(j.dialog, Dialog.ClientGivesUp(delivered)) && Pipeline.Enabled(j.net, Pipeline.Restart(s.peer))
    && after == Joint(Dialog.Step(s, j.dialog, Dialog.ClientGivesUp(delivered)), Pipeline.Step(j.net, Pipeline.Restart(s.peer)))
  }

  ghost predicate JointNext(s: Dialog.Setting, k: nat, j: Joint, after: Joint) {
    || (exists a: Dialog.Action :: DialogMoves(s, k, j, after, a))
    || (exists b: Pipeline.Action :: OthersMove(s, k, j, after, b))
    || (exists delivered: nat :: SenderRestarts(s, j, after, delivered))
  }

  ghost predicate JointStepAt(s: Dialog.Setting, k: nat, run: seq<Joint>, i: nat)
    requires i < |run| - 1
  {
    JointNext(s, k, run[i], run[i + 1])
  }

  /** The setting fits the poll of this row: the two parties and the mail. */
  ghost predicate Opens(s: Dialog.Setting, net: Pipeline.Net, row: QueueKey) {
    && Pipeline.Enabled(net, Pipeline.Poll(s.peer, row)) && Pipeline.DestOf(row) == s.local && s.local in net.nodes
    && net.nodes[s.peer].db.mails[Pipeline.PolledMail(row)].content == s.order.body
  }

  /** The two at the moment the row is polled. */
  ghost function Opened(s: Dialog.Setting, start: Pipeline.Net, row: QueueKey): Joint
    requires Pipeline.Enabled(start, Pipeline.Poll(s.peer, row))
  {
    Joint(Dialog.OPENED, Pipeline.Step(start, Pipeline.Poll(s.peer, row)))
  }

  ghost predicate JointSteps(s: Dialog.Setting, k: nat, run: seq<Joint>) {
    forall i: nat :: i < |run| - 1 ==> JointStepAt(s, k, run, i)
  }

  /** From here on: the dialog, byte by byte, among everything else that happens. */
  ghost predicate IsJointRun(s: Dialog.Setting, k: nat, first: Joint, run: seq<Joint>) {
    run != [] && run[0] == first && JointSteps(s, k, run)
  }

  /** Dialog and exchange correspond, and the exchange is about this mail. */
  predicate MirrorsMail(s: Dialog.Setting, k: nat, id: nat, j: Joint) {
    Mirrors(s, j.dialog, j.net, k) && j.net.dialogs[k].id == id
  }

  // Three things are kept: the dialog's soundness, the network's invariant, and the mirror.

  lemma SoundStays(s: Dialog.Setting, k: nat, j: Joint, after: Joint)
    requires PartiesFit(s) && Dialog.Sound(s.order, j.dialog) && JointNext(s, k, j, after)
    ensures Dialog.Sound(s.order, after.dialog)
  {
    if a: Dialog.Action :| DialogMoves(s, k, j, after, a) {
      Dialog.SoundGoesOn(s, j.dialog, a);
    } else if b: Pipeline.Action :| OthersMove(s, k, j, after, b) {
    } else {
      var delivered: nat :| SenderRestarts(s, j, after, delivered);
      Dialog.SoundGoesOn(s, j.dialog, Dialog.ClientGivesUp(delivered));
    }
  }

  lemma NetStays(s: Dialog.Setting, k: nat, j: Joint, after: Joint)
    requires Pipeline.NetInv(j.net) && JointNext(s, k, j, after)
    ensures Pipeline.NetInv(after.net)
  {
    if a: Dialog.Action :| DialogMoves(s, k, j, after, a) {
      var move := MoveOf(s, j.dialog, a, k);
      if move.Some? {
        Pipeline.StepKeeps(j.net, move.value);
      }
    } else if b: Pipeline.Action :| OthersMove(s, k, j, after, b) {
      Pipeline.StepKeeps(j.net, b);
    } else {
      Pipeline.StepKeeps(j.net, Pipeline.Restart(s.peer));
    }
  }

  lemma DialogMovesMirror(s: Dialog.Setting, k: nat, id: nat, j: Joint, after: Joint, a: Dialog.Action)
    requires PartiesFit(s) && Dialog.Sound(s.order, j.dialog) && MirrorsMail(s, k, id, j) && DialogMoves(s, k, j, after, a)
    ensures MirrorsMail(s, k, id, after)
  {
    DialogStepIsPipelineStep(s, j.dialog, a, j.net, k);
    var move := MoveOf(s, j.dialog, a, k);
    if move.Some? {
      Pipeline.PartiesStay(j.net, move.value, k);
    }
  }

  lemma OthersMoveMirror(s: Dialog.Setting, k: nat, id: nat, j: Joint, after: Joint, b: Pipeline.Action)
    requires MirrorsMail(s, k, id, j) && OthersMove(s, k, j, after, b)
    ensures MirrorsMail(s, k, id, after)
  {
    OthersKeepMirror(s, j.dialog, j.net, b, k);
    Pipeline.PartiesStay(j.net, b, k);
  }

  lemma RestartMirrors(s: Dialog.Setting, d: Dialog.Dialog, after: Dialog.Dialog, net: Pipeline.Net, k: nat)
    requires Mirrors(s, d, net, k) && after.server == d.server && after.client.Finished?
    ensures Mirrors(s, after, Pipeline.Step(net, Pipeline.Restart(s.peer)), k)
  {
  }

  lemma SenderRestartsMirror(s: Dialog.Setting, k: nat, id: nat, j: Joint, after: Joint, delivered: nat)
    requires MirrorsMail(s, k, id, j) && SenderRestarts(s, j, after, delivered)
    ensures MirrorsMail(s, k, id, after)
  {
    RestartMirrors(s, j.dialog, after.dialog, j.net, k);
    Pipeline.PartiesStay(j.net, Pipeline.Restart(s.peer), k);
  }

  lemma MirrorStays(s: Dialog.Setting, k: nat, id: nat, j: Joint, after: Joint)
    requires PartiesFit(s) && Dialog.Sound(s.order, j.dialog) && MirrorsMail(s, k, id, j) && JointNext(s, k, j, after)
    ensures MirrorsMail(s, k, id, after)
  {
    if a: Dialog.Action :| DialogMoves(s, k, j, after, a) {
      DialogMovesMirror(s, k, id, j, after, a);
    } else if b: Pipeline.Action :| OthersMove(s, k, j, after, b) {
      OthersMoveMirror(s, k, id, j, after, b);
    } else {
      var delivered: nat :| SenderRestarts(s, j, after, delivered);
      SenderRestartsMirror(s, k, id, j, after, delivered);
    }
  }

  lemma JointRunStepIsSound(s: Dialog.Setting, k: nat, run: seq<Joint>, i: nat)
    requires PartiesFit(s) && JointSteps(s, k, run) && i < |run| - 1 && Dialog.Sound(s.order, run[i].dialog)
    ensures Dialog.Sound(s.order, run[i + 1].dialog)
  {
    assert JointStepAt(s, k, run, i);
    SoundStays(s, k, run[i], run[i + 1]);
  }

  lemma {:induction false} JointRunsSound(s: Dialog.Setting, k: nat, run: seq<Joint>, i: nat)
    requires PartiesFit(s) && JointSteps(s, k, run) && i < |run| && Dialog.Sound(s.order, run[0].dialog)
    ensures Dialog.Sound(s.order, run[i].dialog)
  {
    if i > 0 {
      JointRunsSound(s, k, run, i - 1);
      JointRunStepIsSound(s, k, run, i - 1);
    }
  }

  lemma JointRunStepKeepsNet(s: Dialog.Setting, k: nat, run: seq<Joint>, i: nat)
    requires JointSteps(s, k, run) && i < |run| - 1 && Pipeline.NetInv(run[i].net)
    ensures Pipeline.NetInv(run[i + 1].net)
  {
    assert JointStepAt(s, k, run, i);
    NetStays(s, k, run[i], run[i + 1]);
  }

  lemma {:induction false} JointRunsKeepNet(s: Dialog.Setting, k: nat, run: seq<Joint>, i: nat)
    requires JointSteps(s, k, run) && i < |run| && Pipeline.NetInv(run[0].net)
    ensures Pipeline.NetInv(run[i].net)
  {
    if i > 0 {
      JointRunsKeepNet(s, k, run, i - 1);
      JointRunStepKeepsNet(s, k, run, i - 1);
    }
  }

  lemma JointRunStepMirrors(s: Dialog.Setting, k: nat, id: nat, run: seq<Joint>, i: nat)
    requires PartiesFit(s) && JointSteps(s, k, run) && i < |run| - 1 && Dialog.Sound(s.order, run[0].dialog)
    requires MirrorsMail(s, k, id, run[i])
    ensures MirrorsMail(s, k, id, run[i + 1])
  {
    JointRunsSound(s, k, run, i);
    assert JointStepAt(s, k, run, i);
    MirrorStays(s, k, id, run[i], run[i + 1]);
  }

  lemma {:induction false} JointRunsMirror(s: Dialog.Setting, k: nat, id: nat, run: seq<Joint>, i: nat)
    requires PartiesFit(s) && JointSteps(s, k, run) && i < |run| && Dialog.Sound(s.order, run[0].dialog) && MirrorsMail(s, k, id, run[0])
    ensures MirrorsMail(s, k, id, run[i])
  {
    if i > 0 {
      JointRunsMirror(s, k, id, run, i - 1);
      JointRunStepMirrors(s, k, id, run, i - 1);
    }
  }

  lemma OpeningJoint(s: Dialog.Setting, start: Pipeline.Net, row: QueueKey)
    requires Pipeline.NetInv(start) && Opens(s, start, row)
    ensures var first := Opened(s, start, row);
            Dialog.Sound(s.order, first.dialog) && Pipeline.NetInv(first.net) && MirrorsMail(s, |start.dialogs|, row.mail.id, first)
  {
    PollOpensMirror(s, start, row);
    Dialog.Opening(s);
    Pipeline.StepKeeps(start, Pipeline.Poll(s.peer, row));
  }

  /** The mail of row `id` has been taken once the client has succeeded, and what was yielded is its normal form. */
  ghost predicate TakenOnSuccess(s: Dialog.Setting, id: nat, j: Joint) {
    && (j.dialog.client == Finished(true) ==>
          Pipeline.Received(j.net.log, s.peer, id, s.local, Fingerprint(s.peer, Normal(s.order.body))))
    && (j.dialog.server.Yielded? ==> j.dialog.server.mail == Normal(s.order.body))
  }

  lemma MirrorsTake(s: Dialog.Setting, k: nat, id: nat, j: Joint)
    requires PartiesFit(s) && Dialog.Sound(s.order, j.dialog) && Pipeline.NetInv(j.net) && MirrorsMail(s, k, id, j)
    ensures TakenOnSuccess(s, id, j)
  {
    SoundHolds(s, j.dialog);
    assert Pipeline.ExchangeInv(j.net.dialogs[k], j.net.log);
  }

  lemma JointRunsTake(s: Dialog.Setting, k: nat, id: nat, first: Joint, run: seq<Joint>, i: nat)
    requires PartiesFit(s) && IsJointRun(s, k, first, run) && i < |run|
    requires Dialog.Sound(s.order, first.dialog) && Pipeline.NetInv(first.net) && MirrorsMail(s, k, id, first)
    ensures TakenOnSuccess(s, id, run[i])
  {
    JointRunsSound(s, k, run, i);
    JointRunsKeepNet(s, k, run, i);
    JointRunsMirror(s, k, id, run, i);
    MirrorsTake(s, k, id, run[i]);
  }

  /**
   * From bytes to the store. Let the sender poll a row in any state that has the
   * network's invariant, as every reachable one does. Over every joint run from
   * there, with cut streams, parties that give up, restarts of any node and
   * failing statements: as soon as the client program has read its final 250, the
   * destination's store has taken the mail of this very row, having committed the
   * normal form of its bytes then or within the dedup window before; and whatever
   * the server has yielded is that form.
   */
  lemma SuccessMeansTaken(s: Dialog.Setting, start: Pipeline.Net, row: QueueKey, run: seq<Joint>, i: nat)
    requires PartiesFit(s) && Pipeline.NetInv(start) && Opens(s, start, row)
    requires IsJointRun(s, |start.dialogs|, Opened(s, start, row), run) && i < |run|
    ensures TakenOnSuccess(s, row.mail.id, run[i])
  {
    OpeningJoint(s, start, row);
    JointRunsTake(s, |start.dialogs|, row.mail.id, Opened(s, start, row), run, i);
  }

  /** The network can take this step of the dialog along. */
  ghost predicate CanFollow(s: Dialog.Setting, k: nat, j: Joint, a: Dialog.Action) {
    exists after: Joint :: DialogMoves(s, k, j, after, a)
  }

  lemma FollowsStep(s: Dialog.Setting, k: nat, id: nat, j: Joint, a: Dialog.Action)
    requires PartiesFit(s) && Dialog.Sound(s.order, j.dialog) && MirrorsMail(s, k, id, j) && Dialog.Enabled(j.dialog, a)
    requires a == Dialog.Verdict(true) ==> j.net.dialogs[k].acked
    ensures CanFollow(s, k, j, a)
  {
    DialogStepIsPipelineStep(s, j.dialog, a, j.net, k);
    var net := match MoveOf(s, j.dialog, a, k)
      case None => j.net
      case Some(b) => Pipeline.Step(j.net, b);
    assert DialogMoves(s, k, j, Joint(Dialog.Step(s, j.dialog, a), net), a);
  }

  lemma JointRunsFollow(s: Dialog.Setting, k: nat, id: nat, first: Joint, run: seq<Joint>, i: nat, a: Dialog.Action)
    requires PartiesFit(s) && IsJointRun(s, k, first, run) && i < |run| && Dialog.Enabled(run[i].dialog, a)
    requires Dialog.Sound(s.order, first.dialog) && MirrorsMail(s, k, id, first)
    requires a == Dialog.Verdict(true) ==> k < |run[i].net.dialogs| && run[i].net.dialogs[k].acked
    ensures CanFollow(s, k, run[i], a)
  {
    JointRunsSound(s, k, run, i);
    JointRunsMirror(s, k, id, run, i);
    FollowsStep(s, k, id, run[i], a);
  }

  /**
   * The bytes never get stuck on the network: in every state of a joint run each
   * step the dialog can take is one the network can follow, `durable` being said
   * only on an acknowledgement.
   */
  lemma NetworkFollows(s: Dialog.Setting, start: Pipeline.Net, row: QueueKey, run: seq<Joint>, i: nat, a: Dialog.Action)
    requires PartiesFit(s) && Pipeline.NetInv(start) && Opens(s, start, row)
    requires IsJointRun(s, |start.dialogs|, Opened(s, start, row), run) && i < |run| && Dialog.Enabled(run[i].dialog, a)
    requires a == Dialog.Verdict(true) ==> |start.dialogs| < |run[i].net.dialogs| && run[i].net.dialogs[|start.dialogs|].acked
    ensures CanFollow(s, |start.dialogs|, run[i], a)
  {
    OpeningJoint(s, start, row);
    JointRunsFollow(s, |start.dialogs|, row.mail.id, Opened(s, start, row), run, i, a);
  }
}
