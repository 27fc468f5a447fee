// ymp/mod.rs: splitting a message into segments and joining them again.
module YmpSegments {
  import opened Bytes
  import opened Wrappers

  const FRAGMENT_SIZE: nat := 65520
  const MAX_MESSAGE_SIZE: nat := 32 * 1024 * 1024

  /** The cast to u16 drops high bits, as `as u16` does. */
  function SegmentCount(len: nat): u16 {
    var n := (len + FRAGMENT_SIZE - 1) / FRAGMENT_SIZE;
    (if n < 1 then 1 else n) % 0x1_0000
  }

  function Min(a: nat, b: nat): nat {
    if a < b then a else b
  }

  /** The `i`-th slice of a message. */
  function Slice(message: bytes, i: nat): bytes
    requires i * FRAGMENT_SIZE <= |message|
  {
    message[i * FRAGMENT_SIZE..Min((i + 1) * FRAGMENT_SIZE, |message|)]
  }

  /** What the receiver's size check lets through. */
  predicate Admitted(total: u16) {
    0 < total && total * FRAGMENT_SIZE <= MAX_MESSAGE_SIZE
  }

  /** `fragment`. The precondition is the one slicing has: the last slice starts inside the message. */
  method Fragment(message: bytes, total: u16) returns (segments: seq<bytes>)
    requires total > 0 ==> (total - 1) * FRAGMENT_SIZE <= |message|
    ensures |segments| == total
    ensures forall i: nat :: i < total ==> i * FRAGMENT_SIZE <= |message| && segments[i] == Slice(message, i)
  {
    segments := [];
    var i := 0;
    while i < total
      invariant 0 <= i <= total && |segments| == i
      invariant forall j: nat :: j < i ==> j * FRAGMENT_SIZE <= |message| && segments[j] == Slice(message, j)
    {
      var start := i * FRAGMENT_SIZE;
      var end := Min((i + 1) * FRAGMENT_SIZE, |message|);
      assert start <= (total - 1) * FRAGMENT_SIZE;
      segments := segments + [message[start..end]];
      i := i + 1;
    }
  }

  /** Concatenation of the slots that are filled. */
  function Joined(segments: seq<Option<bytes>>): bytes {
    if segments == [] then []
    else
      var last := segments[|segments| - 1];
      Joined(segments[..|segments| - 1]) + (if last.Some? then last.value else [])
  }

  /** `reassemble`. */
  method Reassemble(segments: seq<Option<bytes>>) returns (out: bytes)
    ensures out == Joined(segments)
  {
    out := [];
    for i := 0 to |segments|
      invariant out == Joined(segments[..i])
    {
      assert segments[..i + 1][..i] == segments[..i];
      if segments[i].Some? {
        out := out + segments[i].value;
      }
    }
    assert segments[..|segments|] == segments;
  }

  /** Every slot holds the matching slice of `message`. */
  predicate HoldsSlices(segments: seq<Option<bytes>>, message: bytes) {
    forall i: nat :: i < |segments| ==>
      i * FRAGMENT_SIZE <= |message| && segments[i] == Some(Slice(message, i))
  }

  lemma {:induction false} JoinedPrefix(segments: seq<Option<bytes>>, message: bytes)
    requires HoldsSlices(segments, message)
    ensures Joined(segments) == message[..Min(|segments| * FRAGMENT_SIZE, |message|)]
  {
    if segments != [] {
      var n := |segments| - 1;
      JoinedPrefix(segments[..n], message);
      assert message[..n * FRAGMENT_SIZE] + Slice(message, n) == message[..Min((n + 1) * FRAGMENT_SIZE, |message|)];
    }
  }

  /** No u16 cast on the way loses anything, for every length the sender accepts. */
  lemma CastsAreExact(len: nat)
    requires len <= MAX_MESSAGE_SIZE
    ensures 0 < SegmentCount(len) <= 513
    ensures (SegmentCount(len) - 1) * FRAGMENT_SIZE <= len <= SegmentCount(len) * FRAGMENT_SIZE
    ensures FRAGMENT_SIZE < 0x1_0000
  {
  }

  /** Splitting into SegmentCount slices and joining gives the message back. */
  lemma FragmentReassemble(message: bytes, segments: seq<Option<bytes>>)
    requires |message| <= MAX_MESSAGE_SIZE
    requires |segments| == SegmentCount(|message|) && HoldsSlices(segments, message)
    ensures Joined(segments) == message
  {
    CastsAreExact(|message|);
    JoinedPrefix(segments, message);
  }

  /** The receiver's check admits exactly the lengths up to 512 full segments: 8192 short of the sender's limit. */
  lemma AdmissionBound(len: nat)
    requires len <= MAX_MESSAGE_SIZE
    ensures Admitted(SegmentCount(len)) <==> len <= MAX_MESSAGE_SIZE - 8192
    ensures Admitted(SegmentCount(len)) <==> len <= 512 * FRAGMENT_SIZE
  {
  }

  /** As many segments as it takes, and one for the empty message. */
  lemma SegmentsNeeded(len: nat)
    requires len <= 33554432
    ensures if len == 0 then SegmentCount(len) == 1
            else (SegmentCount(len) - 1) * 65520 < len <= SegmentCount(len) * 65520
  {
  }
}
