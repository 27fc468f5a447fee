// Bytes, machine words and 32-byte public keys.
module Bytes {
  type byte = x: int | 0 <= x < 256
  type bytes = seq<byte>

  type u16 = x: int | 0 <= x < 0x1_0000
  type u32 = x: int | 0 <= x < 0x1_0000_0000
  type u64 = x: int | 0 <= x < 0x1_0000_0000_0000_0000

  /** An Ed25519 public key, which is also the address of a node. */
  type Key = k: seq<byte> | |k| == 32 witness seq(32, _ => 0)

  function Pow256(n: nat): (p: nat)
    ensures p > 0
  {
    if n == 0 then 1 else 256 * Pow256(n - 1)
  }

  /** `x` as `width` bytes, most significant first. */
  function ToBigEndian(x: nat, width: nat): (s: bytes)
    requires x < Pow256(width)
    ensures |s| == width
  {
    if width == 0 then [] else ToBigEndian(x / 256, width - 1) + [x % 256]
  }

  function FromBigEndian(s: bytes): nat {
    if s == [] then 0 else 256 * FromBigEndian(s[..|s| - 1]) + s[|s| - 1]
  }

  lemma {:induction false} BigEndianRoundTrip(x: nat, width: nat)
    requires x < Pow256(width)
    ensures FromBigEndian(ToBigEndian(x, width)) == x
  {
    if width > 0 {
      BigEndianRoundTrip(x / 256, width - 1);
      var s := ToBigEndian(x, width);
      assert s[..|s| - 1] == ToBigEndian(x / 256, width - 1);
    }
  }

  lemma {:induction false} BigEndianInverse(s: bytes)
    ensures FromBigEndian(s) < Pow256(|s|)
    ensures ToBigEndian(FromBigEndian(s), |s|) == s
  {
    if s != [] {
      var init := s[..|s| - 1];
      BigEndianInverse(init);
      assert FromBigEndian(s) / 256 == FromBigEndian(init);
      assert s == init + [s[|s| - 1]];
    }
  }

  lemma {:induction false} FromTwoBytes(s: bytes)
    requires |s| == 2
    ensures FromBigEndian(s) == 0x100 * (s[0] as int) + s[1]
  {
    assert s[..1] == [s[0]] && s[..1][..0] == [];
    assert FromBigEndian(s[..1]) == 256 * FromBigEndian([]) + s[0];
  }

  lemma {:induction false} OneByteMore(s: bytes, front: bytes)
    requires s != [] && front == s[..|s| - 1]
    ensures FromBigEndian(s) == 0x100 * FromBigEndian(front) + s[|s| - 1]
  {
  }

  lemma {:induction false} FromFourBytes(s: bytes)
    requires |s| == 4
    ensures FromBigEndian(s) == 0x100_0000 * (s[0] as int) + 0x1_0000 * (s[1] as int) + 0x100 * (s[2] as int) + s[3]
  {
    FromTwoBytes(s[..2]);
    OneByteMore(s[..3], s[..2]);
    OneByteMore(s, s[..3]);
  }

  lemma {:induction false} FromEightBytes(s: bytes)
    requires |s| == 8
    ensures FromBigEndian(s) ==
            0x100_0000_0000_0000 * (s[0] as int) + 0x1_0000_0000_0000 * (s[1] as int) + 0x100_0000_0000 * (s[2] as int) + 0x1_0000_0000 * (s[3] as int)
            + 0x100_0000 * (s[4] as int) + 0x1_0000 * (s[5] as int) + 0x100 * (s[6] as int) + s[7]
  {
    FromFourBytes(s[..4]);
    OneByteMore(s[..5], s[..4]);
    OneByteMore(s[..6], s[..5]);
    OneByteMore(s[..7], s[..6]);
    OneByteMore(s, s[..7]);
  }

  lemma Reassociate<T>(a: seq<T>, b: seq<T>, c: seq<T>)
    ensures a + b + c == a + (b + c)
  {
  }

  lemma WordWidths()
    ensures Pow256(2) == 0x1_0000 && Pow256(4) == 0x1_0000_0000
    ensures Pow256(8) == 0x1_0000_0000_0000_0000
  {
    assert Pow256(2) == 256 * Pow256(1);
    assert Pow256(4) == 256 * Pow256(3);
    assert Pow256(6) == 256 * Pow256(5);
    assert Pow256(8) == 256 * Pow256(7);
  }
}
