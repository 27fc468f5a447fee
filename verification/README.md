# A verified model of yggmail

Yggmail carries mail between nodes of a Yggdrasil mesh. A node accepts mail from
a local client, keeps it in an SQLite Outbox with one queue row per recipient,
and sends it to each recipient's node, today in an SMTP dialog over a QUIC
stream, before that over YMP, a small packet protocol of its own. The receiving
node stores the mail once and only then answers 250. Mail and the node's key are
encrypted at rest; a picker in the mobile crate chooses the peers.

This project models that in Dafny and proves what the parts promise each other.
Programs that change state are methods and classes proved against specification
functions; protocols are state machines whose runs interleave all parties, with
loss, duplication, reordering, crashes, cut streams and failing statements. What
a specification function computes is stated a second time without it, in bytes,
numbers or rows, and beside each safety result stands one that says what can
still be reached: `YmpProgress.SendCanComplete`,
`PipelineProgress.QueuedMailCanBeDelivered`, `PeerSender.ProcessQueue`,
`OverlayDialog.DialogSettles`.

| files | what they model |
|---|---|
| `YmpWire`, `YmpSegments`, `SynThrottle` | the wire format, fragmentation, the lookup throttle |
| `YmpState`, `YmpSession`, `YmpReceiverProofs`, `YmpMesh` | a YMP session as a state machine, as an object, and over a lossy mesh |
| `YmpSyn`, `YmpWritten`, `YmpHandshake`, `YmpForeignAcks`, `YmpProgress` | what a session answers, writes and waits for over whole runs; what foreign acknowledgements can do; how every `send` can still be completed |
| `Text`, `Address` | ASCII, UTF-8, hex; mail addresses and command paths |
| `OverlayCodec`, `OverlayPrograms`, `OverlayEnvelope`, `OverlayLines`, `OverlayBytes` | dot-stuffing (section 4.5.2 of RFC 5321), the two dialog programs, what a server needs to yield, and the protocol in bytes |
| `OverlayDialog`, `OverlayRefinement` | the two programs over FIFO streams, and that both views agree |
| `StorageState`, `SqliteStorage`, `OutboundQueue`, `Dedup` | the tables with their constraints and cascades, the store as an object, the queue invariant, the dedup window |
| `Submission`, `PeerSender`, `Pipeline`, `PipelineProgress`, `Composition` | accepting a mail, one pass over the queue, the way from Outbox to INBOX between nodes, how every queued mail can still be delivered, and one dialog's bytes within it |
| `AtRest`, `Identity` | data key, migration and mail blobs; the node's key |
| `Calendar` | two algorithms from day number to date |
| `Picker`, `PickerRanking` | ancestry, the common root, ranking and the decision |
| `AddrTable`, `DatagramPath`, `QuicInbound` | synthetic addresses; datagrams from the mesh to quinn, step by step and over time |
| `Wrappers`, `Bytes`, `Lines` | options and results; bytes, words and keys; lines |

## Findings

Four promises hold only under a condition, which is proved both ways.

* **Timestamps.** The closed form behind the `Received` header has 1461 and
  146097 where the algorithm it follows has 1460 and 146096. On every 29
  February, and only then, its year of era is one too large: the day-of-year
  subtraction goes below zero and the call panics, there or in the month lookup,
  except in years divisible by 400, where the date comes out as 1 March
  (`Calendar.ChronoAgainstLoop`, `Calendar.AgreeExactlyOffLeapDay`).
* **Submission against the sender.** `accept_mail` inserts a mail and its rows in
  separate statements. Moving a mail to Sent keeps the queue invariant iff no row
  names it at that moment (`OutboundQueue.MoveKeepsQueue`); a row inserted
  between the sender's count and its move is lost
  (`OutboundQueue.InterleavedSubmissionLosesRow`). The pipeline takes a
  submission as one step.
* **Acknowledgements.** YMP's reader takes an ACK from any source, whereas it
  compares that of a SYN-ACK (`ymp/mod.rs`, lines 629 to 643 against line 524).
  So `send` returning Ok means that each segment reached the destination or was
  acknowledged by a key outside the mesh (`YmpMesh.AckSoundness`), and one such
  acknowledgement per segment is enough for Ok (`YmpForeignAcks.ForeignAcksSuffice`).
  There are runs in which `send` returns Ok and nothing has arrived
  (`YmpForeignAcks.OkWithoutDelivery`).
* **Identity.** A failed read of the legacy row or of the stored one counts as an
  absent row. A load that succeeds returns the settled key iff it reads the legacy
  key, or that key from the stored row, or reads no key and happens to be offered
  the same one (`Identity.FailedReadReplacesKey`; over whole runs
  `Identity.StableExactly`). Without a legacy key anything else replaces the
  identity for good. With one, the other key is stored and returned until a load
  reads the legacy row again, so two loads in a row may succeed and disagree
  (`Identity.FailedLegacyReadDisagrees`).

Smaller ones: no receiver admits, nor acknowledges, a message in the last 8192
lengths that YMP's `send` accepts, so such a `send` returns Ok only on foreign
acknowledgements of every segment (`YmpSegments.AdmissionBound`,
`YmpMesh.OversizeNeedsForeignAcks`); a mail inserted without a password that starts
with the byte 0x01 can never be read back (`AtRest.ReadableExactly`); a completed
rollback of a submission restores mails and queue iff no Outbox mail was already
flagged deleted (`Submission.RefusedMeansUnchanged`). The module
comment of `ymp/mod.rs` (lines 8 and 48) calls acknowledgements cumulative; the
code acknowledges single segments, and so does the model.

## Assumptions

* Keys authenticate: a datagram's source and a stream's peer are who they claim.
  A key outside the mesh of modelled nodes may send anything.
* One YMP session per node, fewer than 2^64 messages, and one constant `total`
  per message id; an index past the first segment's `total` ends the reader task.
* Fingerprints are collision-free, the cipher is ideal (what is sealed under one
  key opens under that key only and nothing else opens), key derivation is
  injective. Which 64-byte strings are keypairs is a parameter.
* The dedup refinement and the throttle assume a clock that does not run
  backwards; the other results about the store do not.
* Fewer than 2^32 - 1 keys are given synthetic addresses.
* A statement of the store may fail at any time and then has no effect; a store
  declared `healthy` fails only where a constraint does.

`dafny verify dfyconfig.toml` checks the whole project.

## Model

| member | source | states |
|---|---|---|
| `YmpWire.Encode` | crates/yggmail/src/ymp/types.rs:78-96 | in-place encoding fills the first 15 bytes of the caller's buffer with the header layout and leaves the rest as it was |
| `YmpWire.DecodeOfEncoded` | crates/yggmail/src/ymp/types.rs:78-121 | every header is read back from its encoding, whatever payload follows |
| `YmpWire.EncodedOfDecode` | crates/yggmail/src/ymp/types.rs:99-121 | a header that decodes came from exactly one byte string: decoding is injective on the first 15 bytes |
| `YmpWire.HeaderInBytes` | crates/yggmail/src/ymp/types.rs:78-96 | the layout byte for byte: type 0x10 to 0x13, then message id, segment, total and length most significant byte first |
| `YmpSegments.Fragment` | crates/yggmail/src/ymp/mod.rs:380-388 | the loop produces `total` slices, each the i-th window of 65520 bytes |
| `YmpSegments.Reassemble` | crates/yggmail/src/ymp/mod.rs:390-403 | the loop joins the filled slots in order |
| `YmpSegments.CastsAreExact` | crates/yggmail/src/ymp/mod.rs:375-378 | for every length up to 32 MiB the u16 casts lose nothing and the last slice starts inside the message |
| `YmpSegments.FragmentReassemble` | crates/yggmail/src/ymp/mod.rs:375-403 | fragmenting and reassembling gives back every message up to 32 MiB |
| `YmpSegments.AdmissionBound` | crates/yggmail/src/ymp/mod.rs:562-571 | the receiver's size check admits exactly the lengths up to 512 segments, 8192 below what `send` accepts |
| `YmpSegments.SegmentsNeeded` | crates/yggmail/src/ymp/mod.rs:375-378 | as many segments of 65520 bytes as the message takes and no more, one for the empty message |
| `SynThrottle.LooksUpExactlyWhenDue` | crates/yggmail/src/ymp/mod.rs:480-502 | over any run with a monotone clock a SYN triggers a lookup iff no lookup for its source happened in the last 2 seconds, with the pruned table as with an unpruned one |
| `SynThrottle.PruningIsInvisible` | crates/yggmail/src/ymp/mod.rs:492-499 | pruning the throttle table never changes a decision |
| `SynThrottle.RetryIsNeverThrottled` | crates/yggmail/src/ymp/mod.rs:408-415 | a SYN at least one handshake timeout after the earlier ones always triggers a lookup |
| `SynThrottle.TableIsPruned` | crates/yggmail/src/ymp/mod.rs:492-499 | after a lookup the table has at most 256 entries or none older than eight seconds |
| `YmpSession.YmpSession.OnRead` | crates/yggmail/src/ymp/mod.rs:428-646 | one turn of the reader loop takes the whole session state exactly where the transition function says, with an oldest buffer as eviction victim |
| `YmpSession.YmpSession.StoreSegment` | crates/yggmail/src/ymp/mod.rs:579-628 | eviction at 256 buffers, filling a slot once, delivering a complete buffer: the receiver state is the specified one |
| `YmpSession.YmpSession.CleanUp` | crates/yggmail/src/ymp/mod.rs:137-146 | ageing drops exactly the buffers older than 600 seconds |
| `YmpSession.YmpSession.BeginSend` | crates/yggmail/src/ymp/mod.rs:168-216 | an oversized message is refused without a trace; any other gets the next id, a pending handshake and a first SYN |
| `YmpSession.YmpSession.SynAcked` | crates/yggmail/src/ymp/mod.rs:218-258 | after the SYN-ACK the transfer is registered with no segment acknowledged |
| `YmpSession.YmpSession.SynTimedOut` | crates/yggmail/src/ymp/mod.rs:202-243 | a handshake timeout repeats the SYN or, after five, ends unreachable |
| `YmpSession.YmpSession.TransmitNext` | crates/yggmail/src/ymp/mod.rs:271-308 | one turn of the burst as the transition function has it; what it writes is said by YmpWritten.TurnWritesUnacknowledged |
| `YmpWritten.TurnWritesUnacknowledged` | crates/yggmail/src/ymp/mod.rs:279-297 | in every run one turn writes exactly the segment at the cursor, to the destination, iff its flag is unset, and nothing otherwise |
| `YmpWritten.EveryCallWrites` | crates/yggmail/src/ymp/mod.rs:196-346 | at every moment of every run each call of `send` has written what its phase says: one SYN per attempt and at most five; one copy per burst of every segment below the cursor, fewer only of an acknowledged one; unreachable means five SYNs and no segment; out of retries means that every segment was written twelve times or acknowledged |
| `YmpHandshake.SegmentsFollowHandshake` | crates/yggmail/src/ymp/mod.rs:218-258 | in every run a segment is written only to a destination that has answered a SYN of its message with a SYN-ACK |
| `YmpHandshake.EverySynIsLookedUp` | crates/yggmail/src/ymp/mod.rs:196-216 | in every run there has been at least one lookup of a destination for each SYN written to it |
| `YmpHandshake.HandshakesAreTracked` | crates/yggmail/src/ymp/mod.rs:196-258 | the table of handshakes holds exactly the calls that wait for a SYN-ACK |
| `YmpSession.YmpSession.Woken` | crates/yggmail/src/ymp/mod.rs:310-329 | the sender succeeds iff every segment is acknowledged (or its entry is gone) |
| `YmpSession.YmpSession.TransferTimedOut` | crates/yggmail/src/ymp/mod.rs:331-337 | a transfer timeout starts another burst or, after twelve, fails |
| `YmpReceiverProofs.SegmentKeeps` | crates/yggmail/src/ymp/mod.rs:578-628 | every accepted segment keeps the receiver invariant: slots come from arrivals, `received` counts them, at most 256 buffers live, every drop is remembered |
| `YmpReceiverProofs.CleanupKeeps` | crates/yggmail/src/ymp/mod.rs:137-146 | ageing keeps the receiver invariant |
| `YmpReceiverProofs.ParsesExactly` | crates/yggmail/src/ymp/mod.rs:535-571 | a packet is taken for a segment iff it is a DATA header with just this payload behind it, the index below the total and the total at most 32 MiB of full segments |
| `YmpReceiverProofs.AgeingDrops` | crates/yggmail/src/ymp/mod.rs:137-146 | ageing drops a buffer iff it is 600 seconds old, and touches nothing else |
| `YmpReceiverProofs.SegmentDropsExactly` | crates/yggmail/src/ymp/mod.rs:578-628 | a segment drops another message's buffer only when it opens one beyond the 256th, and then an oldest; it ends the reader iff its index lies beyond the buffer it meets |
| `YmpReceiverProofs.BufferKeepsItsTime` | crates/yggmail/src/ymp/mod.rs:597-603 | a buffer keeps the time of the first segment that came for it |
| `YmpReceiverProofs.AllArrivedMeansDelivered` | crates/yggmail/src/ymp/mod.rs:578-628 | if every segment of a message arrived and its buffer was never dropped, the message was delivered |
| `YmpMesh.RunsKeepInvariant` | crates/yggmail/src/ymp/mod.rs:168-646 | over every interleaving of senders, readers, evictions and cleanups on a lossy, duplicating, reordering mesh the sender, receiver and packet invariants hold |
| `YmpMesh.Integrity` | crates/yggmail/src/ymp/mod.rs:535-628 | every pair handed to `recv` from a node of the mesh is one whole message that node passed to `send`, to this destination |
| `YmpMesh.BuffersAreGenuine` | crates/yggmail/src/ymp/mod.rs:601-614 | each filled slot holds the matching fragment of that message and `received` is the number of filled slots |
| `YmpMesh.DeliveryCountBound` | crates/yggmail/src/ymp/mod.rs:582-628 | a message is delivered at most as often as any one of its segments arrived, eviction and ageing included |
| `YmpMesh.AckSoundness` | crates/yggmail/src/ymp/mod.rs:629-643 | over every run: once `send` has returned Ok, each single segment reached the destination's reader or was acknowledged by a key outside the mesh; without such acknowledgements of this message every segment reached it, and it delivered the message unless it dropped a buffer of it |
| `YmpForeignAcks.ForeignAcksSuffice` | crates/yggmail/src/ymp/mod.rs:629-643 | the converse: from every reachable state with a `send` past its handshake, one foreign acknowledgement per segment makes it return Ok while no other node moves; the reader compares the source of a SYN-ACK (line 524) but not of an ACK |
| `YmpForeignAcks.OkWithoutDelivery` | crates/yggmail/src/ymp/mod.rs:524-643 | a run on two nodes, for a message of any length, in which `send` returns Ok, the destination dropped nothing, and not one segment has reached it |
| `YmpProgress.SendCanComplete` | crates/yggmail/src/ymp/mod.rs:168-646 | liveness on a lossy mesh: from every reachable state in which a `send` is under way, both readers live, the destination has not dropped the message's buffer and every segment that counts as acknowledged has arrived, its two ends alone, on each other's packets, can go on until the destination hands the whole message over and `send` returns Ok; for every length that a receiver admits |
| `YmpProgress.WithoutForeignAcks` | crates/yggmail/src/ymp/mod.rs:629-643 | as long as no key outside the mesh has acknowledged a segment of the message, every segment that counts as acknowledged has arrived |
| `YmpMesh.OversizeNeedsForeignAcks` | crates/yggmail/src/ymp/mod.rs:562-571 | no receiver admits the last 8192 lengths that `send` accepts: such a `send` returns Ok only if keys outside the mesh acknowledged every single segment |
| `YmpMesh.WakeKeeps` | crates/yggmail/src/ymp/mod.rs:310-325 | the branch that takes a missing pending entry for success is never reached |
| `YmpSyn.EverySynIsAnswered` | crates/yggmail/src/ymp/mod.rs:480-519 | in every run a node has written exactly one SYN-ACK to a source for each SYN it read from it |
| `YmpSyn.LookupsFollowHistory` | crates/yggmail/src/ymp/mod.rs:480-502 | in every run the reader's lookup decisions are those of the throttle rule on the SYNs actually read |
| `Text.HexRoundTrip` | crates/yggmail/src/address.rs:11-34 | hex decoding undoes hex encoding |
| `Text.HexInverse` | crates/yggmail/src/address.rs:26-27 | hex decoding accepts exactly the encodings, up to letter case |
| `Text.HexDecodesExactly` | crates/yggmail/src/address.rs:26-27 | a string decodes to these bytes iff its lower-case form is their encoding: upper-case and mixed digits are taken |
| `Text.HexDigitsOf` | crates/yggmail/src/address.rs:11-15 | each byte becomes two of the digits 0123456789abcdef, the high half first |
| `Text.Utf8Exactly` | crates/yggmail/src/quic/smtp_overlay.rs:369-380 | bytes decode to a text iff they are its UTF-8 encoding (section 3 of RFC 3629): nothing overlong, no surrogate, nothing cut short |
| `Address.ParseOfCreate` | crates/yggmail/src/address.rs:11-34 | parsing undoes creating, at the domain and at its alias |
| `Address.AddressOfParse` | crates/yggmail/src/address.rs:17-34 | an address that parses spells that key before its last @, at one of the two domains |
| `Address.ParsesExactly` | crates/yggmail/src/address.rs:17-34 | an address parses to a key iff it is the key in hex digits of either case, an @ and, blanks aside, `yggmail` or `yggmail.local` in either case |
| `Address.SameKeySameHex` | crates/yggmail/src/address.rs:17-34 | two addresses parse to one key iff their hex parts agree up to case |
| `Address.ExtractOfPathLine` | crates/yggmail/src/quic/smtp_overlay.rs:369-380 | extracting the path undoes the angle brackets of the command line, for every verb |
| `Address.ExtractTolerates` | crates/yggmail/src/quic/smtp_overlay.rs:369-380 | blanks before the bracketed path and any parameters after it change nothing |
| `Address.BareAddressRead` | crates/yggmail/src/quic/smtp_overlay.rs:369-380 | an address without brackets ends at the first blank |
| `Address.NoPathInBlanks` | crates/yggmail/src/quic/smtp_overlay.rs:369-380 | blanks alone are no path |
| `Address.PathKeyOfAddress` | crates/yggmail/src/quic/smtp_overlay.rs:87-111 | the server reads from the command line exactly the key the client put on it |
| `OverlayCodec.ByteReader.ReadLineCapped` | crates/yggmail/src/quic/smtp_overlay.rs:192-203 | reads the first line or the first `cap` bytes, and fails exactly on a full line without LF |
| `OverlayCodec.ByteReader.ReadData` | crates/yggmail/src/quic/smtp_overlay.rs:224-250 | the body loop computes the specified outcome, never more than MAX_DATA_BYTES, never buffering more than MAX_DATA_BYTES + MAX_LINE_BYTES |
| `OverlayCodec.WriteDotStuffed` | crates/yggmail/src/quic/smtp_overlay.rs:310-334 | the scanning loop writes the stuffed form, defined line by line |
| `OverlayCodec.DotStuffingRoundTrip` | crates/yggmail/src/quic/smtp_overlay.rs:224-334 | reading a stuffed and terminated body gives its normal form and leaves exactly what follows, iff it fits; otherwise TooLarge |
| `OverlayCodec.ReadBodyExtends` | crates/yggmail/src/quic/smtp_overlay.rs:224-250 | what a stream has yielded a longer stream yields too, leaving the rest unread |
| `OverlayCodec.CutInventsNothing` | crates/yggmail/src/quic/smtp_overlay.rs:224-250 | a stream cut anywhere yields nothing or what the whole stream yields |
| `OverlayCodec.CutYieldsNothing` | crates/yggmail/src/quic/smtp_overlay.rs:224-250 | a mail cut before the end of its terminator is never yielded |
| `OverlayBytes.StuffingInBytes` | crates/yggmail/src/quic/smtp_overlay.rs:310-334 | what is written, line by line: a line that begins with byte 46 gets one more in front, a last line without byte 10 gets 13 10, nothing else changes |
| `OverlayBytes.BodyLineInBytes` | crates/yggmail/src/quic/smtp_overlay.rs:224-250 | what is read, line by line: 46 13 10 or 46 10 ends the body whatever follows, one of two leading 46 is taken away, and more than 34603008 bytes in all is too large |
| `OverlayBytes.BodyCutInBytes` | crates/yggmail/src/quic/smtp_overlay.rs:192-250 | a stream that ends inside the body yields nothing, and a line without end is cut off after 65536 bytes beyond what may still come |
| `OverlayPrograms.OverlayServeStream` | crates/yggmail/src/quic/smtp_overlay.rs:63-152 | the server program against the specified run: text written, outcome, input left, on every input |
| `OverlayPrograms.ServeMail` | crates/yggmail/src/quic/smtp_overlay.rs:123-138 | only an oversized body is answered (552) before its fate is known |
| `OverlayPrograms.WriteDataReply` | crates/yggmail/src/quic/smtp_overlay.rs:175-190 | the final reply, 250 or 451, is appended to what was written before |
| `OverlayBytes.ReplyInBytes` | crates/yggmail/src/quic/smtp_overlay.rs:72-190 | each reply is one line of its three digits, a blank, text, 13 10 |
| `OverlayBytes.SenderAnswered` | crates/yggmail/src/quic/smtp_overlay.rs:87-99 | MAIL FROM in letters of either case: 250 for the peer's own address, for any other 550 and the end |
| `OverlayBytes.RecipientAnswered` | crates/yggmail/src/quic/smtp_overlay.rs:100-111 | RCPT TO in letters of either case: 250 for the server's own address, for any other 550 and on |
| `OverlayBytes.DataAnswered` | crates/yggmail/src/quic/smtp_overlay.rs:112-143 | DATA: 354 once sender and recipient are known, 503 and the end before; QUIT: 221 |
| `OverlayBytes.OthersAnswered` | crates/yggmail/src/quic/smtp_overlay.rs:82-152 | HELO, EHLO and every unknown command: 250, and nothing changes |
| `OverlayBytes.BodyAnswers` | crates/yggmail/src/quic/smtp_overlay.rs:123-190 | after the body: 250 only for a mail stored, 451 for one not stored, 552 for one too large, and nothing for one cut short |
| `OverlayEnvelope.YieldsExactly` | crates/yggmail/src/quic/smtp_overlay.rs:63-152 | on every input, whatever the client: a mail is yielded iff the lines read before the first DATA contain a MAIL FROM, all of them naming the authenticated peer, and a RCPT TO naming the server, no QUIT and no line too long, and the body after DATA reads as that mail; the sender reported is the peer |
| `OverlayPrograms.OverlaySendStream` | crates/yggmail/src/quic/smtp_overlay.rs:258-308 | the client program against the specified run: text written, success, input left, on every input |
| `OverlayBytes.ClientTranscript` | crates/yggmail/src/quic/smtp_overlay.rs:258-308 | all that a successful client writes: EHLO, MAIL, one RCPT per recipient in order, DATA, the stuffed body with its terminator, QUIT |
| `OverlayBytes.CommandsInBytes` | crates/yggmail/src/quic/smtp_overlay.rs:258-308 | the text of each of these commands, host name and addresses included |
| `OverlayPrograms.ExpectCode` | crates/yggmail/src/quic/smtp_overlay.rs:336-361 | the reply passes iff, after fewer than 32 whole lines whose fourth byte is 45, the first line whose fourth byte is not begins with the wanted digit, and exactly what follows that line is left unread; after 32 such lines it fails |
| `OverlayLines.EhloServed` | crates/yggmail/src/quic/smtp_overlay.rs:82-86 | the client's EHLO is one line and is answered 250 |
| `OverlayLines.MailServed` | crates/yggmail/src/quic/smtp_overlay.rs:87-98 | MAIL FROM with the peer's own address is accepted |
| `OverlayLines.RcptServed` | crates/yggmail/src/quic/smtp_overlay.rs:100-111 | RCPT TO with the server's own address is accepted |
| `OverlayLines.DataServed` | crates/yggmail/src/quic/smtp_overlay.rs:112-121 | DATA after both is answered 354 and starts the body |
| `OverlayDialog.LiveGoesOn` | crates/yggmail/src/quic/smtp_overlay.rs:63-308 | each step of a dialog in which nobody gives up keeps the two programs in step and uses up finite work |
| `OverlayDialog.NeverStuck` | crates/yggmail/src/quic/transport.rs:278-313 | as long as one side is not done, one of the two programs can move |
| `OverlayDialog.DialogSettles` | crates/yggmail/src/quic/transport.rs:278-313 | every fault-free run is finite; when it can go no further the client succeeds iff the server holds the normal form and replied durable |
| `OverlayDialog.DialogSafety` | crates/yggmail/src/quic/transport.rs:424-481 | with either side giving up and either stream cut anywhere: a server only ever yields the normal form of the whole body, and a client that succeeds has a server that replied durable |
| `OverlayRefinement.ServerRefinesProgram` | crates/yggmail/src/quic/smtp_overlay.rs:63-152 | the server's steps of the dialog, run to the end of a stream, are the server program on that input: same text, outcome and input left |
| `OverlayRefinement.ClientRefinesProgram` | crates/yggmail/src/quic/smtp_overlay.rs:258-308 | the client's steps of the dialog, run to the end of a stream, are the client program on that input |
| `OverlayEnvelope.StepsYieldExactly` | crates/yggmail/src/quic/smtp_overlay.rs:63-152 | the same of the server's steps in a dialog, over any bytes the other side has sent |
| `Composition.DialogStepIsPipelineStep` | crates/yggmail/src/quic/transport.rs:424-481 | step simulation: each step of a dialog, faults included, is an enabled Yield, Answer, ClientSucceeds or ClientFails of the pipeline and leads to a mirror again, or it is a stutter; the mail yielded is the one that counts as arriving |
| `Composition.PollOpensMirror` | crates/yggmail/src/peer/sender.rs:94-146 | a poll of the sender opens an exchange that mirrors the dialog's opening state |
| `Composition.OthersKeepMirror` | crates/yggmail/src/quic/transport.rs:424-481 | every other step of the network leaves the correspondence of dialog and exchange alone, a restart of the sender once its client is done included |
| `Composition.SuccessMeansTaken` | crates/yggmail/src/quic/transport.rs:278-481 | over every joint run of one dialog's bytes and the whole network, cuts, giving up and restarts of either side included: once the client program has read its final 250, the destination's store has taken the mail of this very row, and a server only ever yields its normal form |
| `Composition.NetworkFollows` | crates/yggmail/src/quic/transport.rs:278-481 | in every state of a joint run the network can take along whatever step the dialog can make, 250 being said only on an acknowledgement from the store |
| `StorageState.BodyNeverReroutes` | crates/yggmail/src/storage/mod.rs:38-50 | in bytes: a mail goes to TyrChat iff one of the lines before the first empty one is X-Tyr-Chat in letters of either case, byte 58, and a lone 1 among blanks; to INBOX otherwise; nothing after the empty line matters |
| `StorageState.HeaderOnlyMail` | crates/yggmail/src/storage/mod.rs:38-50 | the same for a mail without an empty line, its last line included |
| `StorageState.InsertedExactly` | crates/yggmail/src/storage/mails.rs:71-94 | ids start at 1 and go up by one; the mail is new, not flagged, and no other table changes |
| `StorageState.MoveKeepsKeys` | crates/yggmail/src/storage/mails.rs:225-237 | a move keeps the foreign keys, cascade included |
| `StorageState.MoveBack` | crates/yggmail/src/storage/queue.rs:7-18 | a move takes the mail and exactly its queue rows along: moving back restores the database |
| `SqliteStorage.Storage.InsertWith` | crates/yggmail/src/storage/mails.rs:57-96 | the new mail gets the counter's id, unused before; a failure changes at most the counter |
| `SqliteStorage.Storage.Expunge` | crates/yggmail/src/storage/mails.rs:203-210 | exactly the flagged mails of the mailbox go, with their queue rows |
| `SqliteStorage.Storage.DeleteMail` | crates/yggmail/src/storage/mails.rs:212-223 | only the flag of the one mail changes |
| `SqliteStorage.Storage.MoveMail` | crates/yggmail/src/storage/mails.rs:225-237 | succeeds iff the key is free; mail and rows are rekeyed |
| `SqliteStorage.Storage.QueueInsert` | crates/yggmail/src/storage/queue.rs:28-42 | succeeds iff the row is new and names a mail |
| `SqliteStorage.Storage.QueueDelete` | crates/yggmail/src/storage/queue.rs:75-87 | exactly the named row goes |
| `SqliteStorage.Storage.QueueCountForMail` | crates/yggmail/src/storage/queue.rs:89-100 | the number of rows that name the mail |
| `SqliteStorage.Storage.QueueGetForDestination` | crates/yggmail/src/storage/queue.rs:54-73 | exactly the rows of the destination, each once, newest first |
| `SqliteStorage.Storage.MailInsertInboxDedup` | crates/yggmail/src/storage/mod.rs:279-330 | stores a mail iff its fingerprint is not in the window; a duplicate or a failure leaves every table as it was |
| `OutboundQueue.MoveKeepsQueue` | crates/yggmail/src/peer/sender.rs:155-162 | moving a mail to Sent keeps the queue invariant iff no row names it any more |
| `OutboundQueue.OpenEstablishes` | crates/yggmail/src/storage/mod.rs:98-124 | opening any consistent database establishes the queue invariant and lifts every counter above its ids; no mail is touched |
| `OutboundQueue.OpenHasMailboxes` | crates/yggmail/src/storage/mod.rs:98-120 | opening creates INBOX, Outbox and Sent and forgets no fingerprint |
| `OutboundQueue.OpenLowersNothing` | crates/yggmail/src/storage/mod.rs:98-124 | opening takes no counter back, so no id is given out twice |
| `OutboundQueue.OpenChangesNothing` | crates/yggmail/src/storage/mod.rs:121-124 | after orderly work the clean-up in `open` drops no row and moves no counter of the Outbox |
| `OutboundQueue.RowDoneKeepsQueue` | crates/yggmail/src/peer/sender.rs:146-163 | after a delivery one row goes and no other; the mail leaves the Outbox only with its last row, unchanged |
| `OutboundQueue.LastRowFiles` | crates/yggmail/src/peer/sender.rs:155-162 | and it does leave: with the last row that names it the mail is in Sent as it was, if its id is free there; otherwise no mail moves |
| `OutboundQueue.InterleavedSubmissionLosesRow` | crates/yggmail/src/peer/sender.rs:154-162 | counterexample at statement granularity: a row inserted between the count and the move ends up under Sent, is never served and is dropped by the next open |
| `Submission.DistinctIsExact` | crates/yggmail/src/smtp/mod.rs:170-187 | the kept recipients name every destination exactly once |
| `Submission.DistinctKeepsFirst` | crates/yggmail/src/smtp/mod.rs:170-187 | the recipient kept for a destination is the first that names it |
| `Submission.AliasesCollapse` | crates/yggmail/src/smtp/mod.rs:166-187 | two spellings are one destination iff they parse to one key |
| `Submission.ParseRecipients` | crates/yggmail/src/smtp/mod.rs:170-187 | the loop rejects iff some recipient does not parse, before anything is stored |
| `Submission.StoreAndEnqueue` | crates/yggmail/src/smtp/mod.rs:197-250 | the mail and its rows are inserted one statement after another; each outcome with its exact tables: all rows, at most the counter moved, or as many rows as got in with the rollback as far as it worked, completely so on a store that works |
| `Submission.SmtpSession.AcceptMail` | crates/yggmail/src/smtp/mod.rs:142-252 | each answer with the exact state it leaves, a queue error with the rows inserted and the two rollback statements that worked or failed, and the session reset; with a working store every parseable submission is accepted |
| `Submission.AcceptedMeansAllRows` | crates/yggmail/src/smtp/mod.rs:197-243 | 250 means one new mail under an id never used before and exactly one queue row per distinct recipient key, and nothing else changed |
| `Submission.RowsCarryRecipients` | crates/yggmail/src/smtp/mod.rs:211-215 | the row of a recipient carries the sender and that recipient's own spelling |
| `Submission.UndoneIsExpunged` | crates/yggmail/src/smtp/mod.rs:232-237 | after a completed rollback the database is as if only the counter had moved and the Outbox had been expunged |
| `Submission.RefusedMeansUnchanged` | crates/yggmail/src/smtp/mod.rs:232-237 | after a completed rollback mails and queue are as before iff no Outbox mail had been flagged deleted |
| `Dedup.DedupRefinesHistory` | crates/yggmail/src/storage/mod.rs:297-316 | with a monotone clock the pruned table calls a mail a duplicate iff the same mail was committed within the last 600 seconds |
| `Dedup.StoredExactlyWhenNew` | crates/yggmail/src/storage/mod.rs:297-330 | a working call commits iff no call committed the same mail within the window; failures and duplicates leave no trace |
| `Dedup.CommitsAreApart` | crates/yggmail/src/storage/mod.rs:297-316 | two commits of one mail are more than 600 seconds apart |
| `Dedup.StoreRunsFollowHistory` | crates/yggmail/src/storage/mod.rs:279-330 | the tables over any sequence of calls under a monotone clock: a call that works inserts its mail iff no earlier call inserted the same mail within 600 seconds; any other call changes no table |
| `PeerSender.FinishRow` | crates/yggmail/src/peer/sender.rs:154-162 | delete first, then count, then the best-effort move; on a store that works the mail is in Sent as it was iff this was the last row that names it and its id is free there, and otherwise stays |
| `PeerSender.DeliverOne` | crates/yggmail/src/peer/sender.rs:113-170 | one row is tried over the network at most once and is gone afterwards iff the peer accepted it |
| `PeerSender.DeliverToSelf` | crates/yggmail/src/peer/sender.rs:218-243 | each row that goes was, at the reading of the clock made for it, within the dedup window of the same mail stored on entry, or its bytes are now a mail that was not there before in the mailbox they belong to; with a working store no row is left |
| `PeerSender.ProcessQueue` | crates/yggmail/src/peer/sender.rs:83-174 | whatever fails and wherever the pass stops, a row has gone only if its exact mail was accepted by its destination in an attempt of this pass made for this row alone, or is at home; no other row and no mail of a row changed; while the store works every mail whose last row went is in Sent as it was, if its id was free; if some peer is up, every row still there that names a key was offered in this pass and refused; and if peers accept, none is left |
| `Pipeline.StepKeeps` | crates/yggmail/src/peer/sender.rs:83-243 | every step of every node keeps the delivery invariant: submissions, failed submissions, polls, dialogs, stores, answers, deletions, moves, restarts |
| `Pipeline.NoMailIsLost` | crates/yggmail/src/peer/sender.rs:94-170 | at every moment of every run a recipient row answered with 250 is still queued with its mail intact, or its destination's store has taken the mail of that very row, having committed exactly these bytes then or at most 600 seconds of its clock before |
| `Pipeline.SubmissionIsUnmet` | crates/yggmail/src/storage/mails.rs:80-94 | no earlier dialog or commit, of the same bytes included, counts for a later submission: none of its rows has a receipt when it is answered |
| `Pipeline.CommitsAreStored` | crates/yggmail/src/storage/mod.rs:320-329 | every commit of a run is a step at which its node got a mail it did not have, byte for byte, in the mailbox the bytes belong to |
| `Pipeline.NoOrphanIsPolled` | crates/yggmail/src/peer/sender.rs:117-123 | in no reachable state does the sender find a row without its mail |
| `Pipeline.LeavesOutboxLast` | crates/yggmail/src/peer/sender.rs:155-162 | a group mail leaves the Outbox only for Sent, unchanged, after its last recipient row is gone |
| `Pipeline.RestartKeeps` | crates/yggmail/src/storage/mod.rs:98-124 | a crash and a reopening lose no queue row and no obligation |
| `PipelineProgress.QueuedMailCanBeDelivered` | crates/yggmail/src/peer/sender.rs:83-243 | from every reachable state of the network a queued row that names one of its nodes, with a mail that fits, is at most ten steps from this: the destination's store has taken its mail, the row has gone and no other, and with the last row the mail is in Sent as it was |
| `AtRest.KeyStore.OpenKey` | crates/yggmail/src/storage/mod.rs:127-190 | the key part of `open`: no password, no change; otherwise the key that the wrapped blob opens to, or a fresh one only when there is none; a wrong password is an error |
| `AtRest.KeyStore.Rewrap` | crates/yggmail/src/storage/mod.rs:208-225 | the same data key wrapped under the new password, nothing in plaintext mode |
| `AtRest.KeyStore.Migrate` | crates/yggmail/src/storage/mod.rs:231-261 | stopped after any row, each row is as before or was plaintext and is sealed; completed, exactly the plaintext rows that do not start with the byte 1, empty ones included, are sealed under the data key and every other is as it was; repeated, nothing changes |
| `AtRest.KeyStore.Insert` | crates/yggmail/src/storage/mails.rs:57-96 | a mail is stored sealed under the data key or in plaintext without one; a taken id or a failure changes nothing |
| `AtRest.OnlyThePasswordOpens` | crates/yggmail/src/storage/mod.rs:150-175 | a password opens the vault iff it is the current one, and then to the data key |
| `AtRest.DataKeyNeverChanges` | crates/yggmail/src/storage/mod.rs:127-225 | over opens, crashes, password changes and inserts the data key stays the one that was minted |
| `AtRest.WrongPasswordChangesNothing` | crates/yggmail/src/storage/mod.rs:155-175 | a wrong password opens nothing and leaves key material and mails as they are |
| `AtRest.ReadableExactly` | crates/yggmail/src/storage/mails.rs:98-141 | in every run, under the data key a mail reads back as inserted iff it was inserted under a data key, or is empty, or does not start with the byte 1; otherwise it does not read at all |
| `AtRest.WhatBlobsRead` | crates/yggmail/src/storage/mails.rs:119-137 | plaintext that does not start with the byte 1 reads as it is with any key or none; a sealed blob reads under its own key only, without a key and with a wrong one each with its own error |
| `AtRest.NeverWrongBytes` | crates/yggmail/src/storage/mails.rs:119-137 | with any key or none, at any moment, whatever is read is what was inserted |
| `AtRest.MigrationKeepsContent` | crates/yggmail/src/storage/mod.rs:231-261 | however far a migration got, nothing readable changes, and a completed one is final |
| `Identity.KeyTable.LoadOrMigrate` | crates/yggmail/src/identity.rs:65-119 | legacy, stored, generated, in this order, with the exact table left behind |
| `Identity.KeyTable.Regenerate` | crates/yggmail/src/identity.rs:137-169 | legacy row and new key change together or not at all |
| `Identity.PersistRoundTrip` | crates/yggmail/src/identity.rs:174-222 | a persisted key decrypts to itself in either mode, whatever its first byte |
| `Identity.LoadSettles` | crates/yggmail/src/identity.rs:65-119 | whichever statements fail, a load that succeeds leaves its key in the stored row, sealed under the data key iff there is one, and settles the identity on it iff no other legacy key is there; one that fails changes nothing |
| `Identity.UnreadableIsKept` | crates/yggmail/src/identity.rs:96-118 | a stored key that is sealed and not opened, or damaged, makes the load fail and stays as it is; any other text that is no key gives way to the offer |
| `Identity.IdentityIsStable` | crates/yggmail/src/identity.rs:65-119 | from any tables, over any loads with the right, a wrong or no data key and with failing statements, two loads that succeed return one key if in those that succeed from the one to the other the deciding read works: of the legacy row where it holds a key, else of the stored one |
| `Identity.StableExactly` | crates/yggmail/src/identity.rs:65-119 | exact condition over whole runs from a settled identity: all loads that succeed return its key iff each of them reads it, legacy or stored, or reads no key and is offered it |
| `Identity.LegacyWinsAndHeals` | crates/yggmail/src/identity.rs:79-94 | a legacy key that parses wins over anything stored and heals the stored row |
| `Identity.FailedReadReplacesKey` | crates/yggmail/src/identity.rs:77-118 | exact condition, over all settled tables and all failures: a load that succeeds returns the settled key iff it reads the legacy key, or reads that key from the stored row, or reads none and is offered it; without a legacy key anything else replaces the identity |
| `Identity.FailedLegacyReadDisagrees` | crates/yggmail/src/identity.rs:77-94 | a legacy key and one failed read of it: two loads in a row succeed and return different keys |
| `Identity.RegenerateSettles` | crates/yggmail/src/identity.rs:137-169 | after a regeneration the new key is the settled one |
| `Calendar.EpochDaysToYmd` | crates/yggmail/src/imap/mod.rs:540-573 | the loop gives the valid date whose day number is the argument |
| `Calendar.DateIsUnique` | crates/yggmail/src/imap/mod.rs:540-573 | a day number has one date |
| `Calendar.ChronoAgainstLoop` | crates/yggmail/src/smtp/mod.rs:292-307 | off 29 February the closed form gives the loop's date; on it the month lookup panics, except in years divisible by 400, where the result is 1 March |
| `Calendar.AgreeExactlyOffLeapDay` | crates/yggmail/src/smtp/mod.rs:292-307 | the two algorithms agree on a day iff it is not a 29 February |
| `Picker.TreeInfo` | crates/yggmail-mobile/src/picker.rs:303-314 | Some(root, depth) is the first self-parent on the way; None iff an ancestor is missing or the links loop, and then no number of links reaches a root |
| `Picker.AncestryIsUnique` | crates/yggmail-mobile/src/picker.rs:303-314 | root and least depth are determined |
| `Picker.LongClimbIsLoop` | crates/yggmail-mobile/src/picker.rs:305-313 | more steps than nodes means a loop, by the pigeonhole principle |
| `Picker.NetworkRoot` | crates/yggmail-mobile/src/picker.rs:318-327 | no root has more votes than the winner; among those with as many it is the current root, or that is none of them and the winner comes first in byte order |
| `Picker.CommonRootIsUnique` | crates/yggmail-mobile/src/picker.rs:323-326 | the votes alone decide: no visiting order of the counts changes the winner |
| `PickerRanking.NetworkRootIsUnique` | crates/yggmail-mobile/src/picker.rs:348-351 | nor does the order in which the probes are visited |
| `PickerRanking.SortByScore` | crates/yggmail-mobile/src/picker.rs:377 | ascending, the same rows, rows of one score in their old order |
| `PickerRanking.Rank` | crates/yggmail-mobile/src/picker.rs:348-380 | rows judged against the agreed root and stably sorted, and the least score of the configured peers |
| `PickerRanking.CurrentIsLeast` | crates/yggmail-mobile/src/picker.rs:379 | the current score is that of the best configured peer on the root, infinite iff none is on it |
| `PickerRanking.DecidesExactly` | crates/yggmail-mobile/src/picker.rs:285-300 | a switch iff some row beats the current score by the hysteresis, and then to the first row of least score; each reason to keep with its exact condition |
| `PickerRanking.RankedDecision` | crates/yggmail-mobile/src/picker.rs:285-380 | from probes to verdict, on the root most probes see, ties going to that of the first configured peer that has one: a switch iff some candidate on that root has a latency times hops of at most 85 percent of that of every configured peer on it, and then to a candidate of the least product |
| `PickerRanking.CurrentRootBreaksTies` | crates/yggmail-mobile/src/picker.rs:350 | the root that breaks ties is that of the first configured peer whose probe has one |
| `PickerRanking.RowsTell` | crates/yggmail-mobile/src/picker.rs:359-376 | every ranked row tells of a candidate and every candidate has one: its address and latency, its score, its depth, and no tree or another network as the reason it fails |
| `PickerRanking.BackupIsBest` | crates/yggmail-mobile/src/picker.rs:339-346 | a backup iff some row qualifies, and then one of least score among them |
| `PickerRanking.BackupFromProbes` | crates/yggmail-mobile/src/picker.rs:329-380 | from candidates and probes to the backup: there is one iff the main address is known and some other candidate on the root, with a measured latency, has a known address in another /24 or /48, or of the other family; and it has the least latency times hops of those |
| `AddrTable.AddrOfIsInjective` | crates/yggmail/src/quic/addr_table.rs:39-53 | different indices give different addresses |
| `AddrTable.AddrInSegments` | crates/yggmail/src/quic/addr_table.rs:39-53 | the address of an index: fd00::, the index in the last two segments, port 1 |
| `AddrTable.CountsItsKeys` | crates/yggmail/src/quic/addr_table.rs:34-58 | indices are handed out in order, one per key |
| `AddrTable.AddrMap.AddrForKey` | crates/yggmail/src/quic/addr_table.rs:34-58 | the address of a key resolves back to it, everything handed out before resolves as before, and the maps stay inverse |
| `AddrTable.AddressMeansItsKey` | crates/yggmail/src/quic/addr_table.rs:34-68 | an address handed out for a key means that key in every later state and is never given to another |
| `DatagramPath.Demux.Run` | crates/yggmail/src/core_conn.rs:118-172 | the pump loop against the specified routing, over any sequence of events; while its consumer stays, the queue of QUIC is in order exactly the arrivals with a first byte in 0x40 to 0x7F or 0xC0 to 0xFF, and that of YMP exactly the other non-empty ones |
| `DatagramPath.QueueIsItsPart` | crates/yggmail/src/core_conn.rs:118-172 | the same for the specified routing, whatever becomes of the other consumer |
| `DatagramPath.YmpPath` | crates/yggmail/src/core_conn.rs:118-172 | every arrival that decodes as a YMP header gets into the queue of YMP while its consumer stays, and never into that of QUIC |
| `DatagramPath.Inbox.ReadFrom` | crates/yggmail/src/core_conn.rs:189-210 | the next datagram that fits lands whole at the start of the buffer; a longer one is skipped, never cut |
| `DatagramPath.UdpSocket.PumpIn` | crates/yggmail/src/quic/udp_adapter.rs:56-91 | every datagram goes on in order under an address that resolves to its sender |
| `DatagramPath.UdpSocket.TrySend` | crates/yggmail/src/quic/udp_adapter.rs:102-109 | a datagram goes to the key the address means, or not at all |
| `DatagramPath.QuicPath` | crates/yggmail/src/quic/udp_adapter.rs:111-146 | what quinn reads is, in order and byte for byte, the arrivals of QUIC's byte ranges that fit its buffers, each under an address that resolves to its true sender in every later state |
| `QuicInbound.QuicPathAlways` | crates/yggmail/src/quic/udp_adapter.rs:56-146 | over every interleaving of arrivals, turns of the pump and turns of quinn's reads, at every moment: arrivals of QUIC's byte ranges are in order either passed on or waiting; what passed is, in order and byte for byte, what fits the pump, under addresses of the true senders; quinn got just what fitted its read |
| `QuicInbound.DrainedMeansAll` | crates/yggmail/src/quic/udp_adapter.rs:56-146 | with one buffer size and drained queues quinn has been given exactly the arrivals of QUIC's byte ranges that fit |

## Left out

- TLS, QUIC, ironwood and SQLite themselves: streams are FIFO byte sequences that may be cut, datagrams are authentic, statements are atomic.
- Waiting, budgets and timeouts of the transport: a party may give up at any moment instead.
- The connection cache, `active_peers` and the path warmer: no mail depends on them.
- `close` and restarts of a YMP session, and its `recv` channel's back pressure.
- Write errors of YMP: a lost packet stands for them.
- IMAP commands, flags other than `deleted`, mailbox creation and renaming, and the local SMTP command loop around `accept_mail`.
- The user flagging or expunging Outbox mails, and clearing the queue: the pipeline lets other mailboxes be expunged only.
- u32 mail ids: counters are unbounded, so the error at 2^32 ids is not modelled.
- Statement-level interleaving of `accept_mail` with the sender inside the pipeline: it is one step there; the counterexample shows what the finer interleaving does.
- A snapshot of rows that goes stale between the sender's query and its turn: a poll picks a row that is queued at that moment.
- PeerSender.ProcessQueue: runs without interference; the pipeline has the same statements as separate steps of all nodes.
- PickerRanking.DecidesExactly: does not model the rounded percentage shown to the user, because it is display only; scores are exact reals, so floating-point rounding is not modelled.
- OverlayPrograms.OverlayServeStream: does not model write errors, because the dialog lets either side give up at any byte instead.
- Text that is not ASCII in addresses and commands the client writes: the client's own addresses are hex and a fixed domain; the server's side decodes UTF-8.
- Candidate lists, probing and statistics of the picker, and the weekday in the timestamp.
- Nodes of version 1.8: their queue is not part of this repository.
