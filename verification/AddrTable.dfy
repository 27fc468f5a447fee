// quic/addr_table.rs: synthetic socket addresses for keys, handed out in order
// and never taken back.
module AddrTable {
  import opened Bytes
  import opened Wrappers

  /** An IPv6 socket address: eight segments and a port. */
  datatype SocketAddr = SocketAddr(segments: seq<u16>, port: u16)

  /** fd00::xxxx:xxxx with the index in the last two segments, port 1. */
  function AddrOf(index: u32): SocketAddr {
    AddrOfBytes(IndexBytes(index))
  }

  function AddrOfBytes(seg: bytes): SocketAddr
    requires |seg| == 4
  {
    SocketAddr([0xfd00, 0, 0, 0, 0, 0, Pair(seg[0], seg[1]), Pair(seg[2], seg[3])], 1)
  }

  function IndexBytes(index: u32): (b: bytes)
    ensures |b| == 4
  {
    WordWidths();
    ToBigEndian(index, 4)
  }

  /** `u16::from_be_bytes`. */
  function Pair(hi: byte, lo: byte): u16 {
    256 * hi + lo
  }

  lemma PairIsInjective(a: byte, b: byte, c: byte, d: byte)
    requires Pair(a, b) == Pair(c, d)
    ensures a == c && b == d
  {
  }

  lemma IndexIsInjective(i: u32, j: u32)
    requires IndexBytes(i) == IndexBytes(j)
    ensures i == j
  {
    WordWidths();
    BigEndianRoundTrip(i, 4);
    BigEndianRoundTrip(j, 4);
  }

  lemma BytesOfAddr(a: bytes, b: bytes)
    requires |a| == 4 && |b| == 4 && AddrOfBytes(a) == AddrOfBytes(b)
    ensures a == b
  {
    var s, t := AddrOfBytes(a).segments, AddrOfBytes(b).segments;
    assert s[6] == Pair(a[0], a[1]) && t[6] == Pair(b[0], b[1]);
    assert s[7] == Pair(a[2], a[3]) && t[7] == Pair(b[2], b[3]);
    PairIsInjective(a[0], a[1], b[0], b[1]);
    PairIsInjective(a[2], a[3], b[2], b[3]);
  }

  /** Different indices have different addresses. */
  lemma AddrOfIsInjective(i: u32, j: u32)
    requires AddrOf(i) == AddrOf(j)
    ensures i == j
  {
    BytesOfAddr(IndexBytes(i), IndexBytes(j));
    IndexIsInjective(i, j);
  }

  datatype Table = Table(byKey: map<Key, SocketAddr>, byAddr: map<SocketAddr, Key>, next: u32)

  /** The maps are inverse to each other and every address is one already handed out. */
  ghost predicate Valid(t: Table) {
    && (forall k :: k in t.byKey ==> t.byKey[k] in t.byAddr && t.byAddr[t.byKey[k]] == k)
    && (forall a :: a in t.byAddr ==> t.byAddr[a] in t.byKey && t.byKey[t.byAddr[a]] == a)
    && (forall a :: a in t.byAddr ==> exists i: u32 :: i < t.next && a == AddrOf(i))
  }

  /** Whatever resolves in `t` resolves in the same way in `later`, both ways. */
  ghost predicate Grows(t: Table, later: Table) {
    && t.next <= later.next
    && (forall k :: k in t.byKey ==> k in later.byKey && later.byKey[k] == t.byKey[k])
    && (forall a :: a in t.byAddr ==> a in later.byAddr && later.byAddr[a] == t.byAddr[a])
  }

  /** The counter has not run out: fewer than 2^32 - 1 keys so far. */
  predicate HasRoom(t: Table, key: Key) {
    key in t.byKey || t.next < 0xFFFF_FFFF
  }

  function Allocated(t: Table, key: Key): Table
    requires HasRoom(t, key)
  {
    if key in t.byKey then t
    else
      var a := AddrOf(t.next);
      Table(t.byKey[key := a], t.byAddr[a := key], t.next + 1)
  }

  /** The next address has not been handed out. */
  lemma NextIsFree(t: Table)
    requires Valid(t) && t.next < 0xFFFF_FFFF
    ensures AddrOf(t.next) !in t.byAddr
  {
    var a := AddrOf(t.next);
    if a in t.byAddr {
      var i: u32 :| i < t.next && a == AddrOf(i);
      AddrOfIsInjective(i, t.next);
      assert false;
    }
  }

  lemma HandedOut(t: Table, after: Table, a: SocketAddr)
    requires Valid(t) && t.next < 0xFFFF_FFFF && after.next == t.next + 1
    requires a == AddrOf(t.next) || a in t.byAddr
    ensures exists i: u32 :: i < after.next && a == AddrOf(i)
  {
    if a != AddrOf(t.next) {
      var i: u32 :| i < t.next && a == AddrOf(i);
    }
  }

  /** A free address for a key that has none keeps the maps inverse. */
  lemma NewPairKeeps(t: Table, key: Key, a: SocketAddr, after: Table)
    requires Valid(t) && key !in t.byKey && a !in t.byAddr && a == AddrOf(t.next) && t.next < 0xFFFF_FFFF
    requires after == Table(t.byKey[key := a], t.byAddr[a := key], t.next + 1)
    ensures Valid(after)
  {
    forall b | b in after.byAddr
      ensures exists i: u32 :: i < after.next && b == AddrOf(i)
    {
      HandedOut(t, after, b);
    }
  }

  /** A new address resolves to its key, and every older one as before. */
  lemma AllocatedGrows(t: Table, key: Key)
    requires Valid(t) && HasRoom(t, key)
    ensures var after := Allocated(t, key);
            && Valid(after) && Grows(t, after)
            && key in after.byKey && after.byKey[key] in after.byAddr && after.byAddr[after.byKey[key]] == key
  {
    if key !in t.byKey {
      NextIsFree(t);
      NewPairKeeps(t, key, AddrOf(t.next), Allocated(t, key));
    }
  }

  class AddrMap {
    var byKey: map<Key, SocketAddr>
    var byAddr: map<SocketAddr, Key>
    var next: u32

    function State(): Table
      reads this
    {
      Table(byKey, byAddr, next)
    }

    constructor ()
      ensures State() == Table(map[], map[], 0) && Valid(State())
    {
      byKey, byAddr, next := map[], map[], 0;
    }

    /** `addr_for_key`: the address of a key, allocated at first sight. */
    method AddrForKey(key: Key) returns (addr: SocketAddr)
      requires Valid(State()) && HasRoom(State(), key)
      modifies this
      ensures State() == Allocated(old(State()), key)
      ensures Valid(State()) && Grows(old(State()), State())
      ensures addr in byAddr && byAddr[addr] == key
      ensures key in byKey && byKey[key] == addr
    {
      AllocatedGrows(State(), key);
      if key in byKey {
        return byKey[key];
      }
      var index := next;
      next := next + 1;
      addr := AddrOf(index);
      byKey := byKey[key := addr];
      byAddr := byAddr[addr := key];
    }

    /** `key_for_addr`. */
    method KeyForAddr(addr: SocketAddr) returns (key: Option<Key>)
      ensures key == if addr in byAddr then Some(byAddr[addr]) else None
    {
      return if addr in byAddr then Some(byAddr[addr]) else None;
    }
  }

  // ---------------------------------------------------------------- over time

  ghost predicate IsHistory(history: seq<Table>, keys: seq<Key>) {
    && |history| == |keys| + 1 && history[0] == Table(map[], map[], 0)
    && forall i :: 0 <= i < |keys| ==> HasRoom(history[i], keys[i]) && history[i + 1] == Allocated(history[i], keys[i])
  }

  lemma {:induction false} HistoryIsValid(history: seq<Table>, keys: seq<Key>, i: nat)
    requires IsHistory(history, keys) && i < |history|
    ensures Valid(history[i])
  {
    if i > 0 {
      HistoryIsValid(history, keys, i - 1);
      AllocatedGrows(history[i - 1], keys[i - 1]);
      assert history[i] == Allocated(history[i - 1], keys[i - 1]);
    }
  }

  lemma {:induction false} HistoryGrows(history: seq<Table>, keys: seq<Key>, i: nat, j: nat)
    requires IsHistory(history, keys) && i <= j < |history|
    ensures Grows(history[i], history[j])
  {
    if i < j {
      HistoryGrows(history, keys, i, j - 1);
      HistoryIsValid(history, keys, j - 1);
      AllocatedGrows(history[j - 1], keys[j - 1]);
      assert history[j] == Allocated(history[j - 1], keys[j - 1]);
    }
  }

  /** An address handed out for a key means that key for ever after, and no other key ever gets it. */
  lemma AddressMeansItsKey(history: seq<Table>, keys: seq<Key>, i: nat, j: nat, other: Key)
    requires IsHistory(history, keys) && i < |keys| && i < j < |history|
    ensures keys[i] in history[i + 1].byKey
    ensures var addr := history[i + 1].byKey[keys[i]];
            && addr in history[j].byAddr && history[j].byAddr[addr] == keys[i]
            && (other in history[j].byKey && history[j].byKey[other] == addr ==> other == keys[i])
  {
    HistoryIsValid(history, keys, i);
    AllocatedGrows(history[i], keys[i]);
    assert history[i + 1] == Allocated(history[i], keys[i]);
    HistoryGrows(history, keys, i + 1, j);
    HistoryIsValid(history, keys, j);
  }

  lemma HalvesOf(x: nat, hi: nat, lo: nat)
    requires x == 0x1_0000 * hi + lo && lo < 0x1_0000
    ensures x / 0x1_0000 == hi && x % 0x1_0000 == lo
  {
  }

  /** The address of an index: fd00::, the index in the last two segments, port 1. */
  lemma AddrInSegments(index: u32)
    ensures AddrOf(index) == SocketAddr([0xfd00, 0, 0, 0, 0, 0, index / 0x1_0000, index % 0x1_0000], 1)
  {
    WordWidths();
    BigEndianRoundTrip(index, 4);
    var b := IndexBytes(index);
    FromFourBytes(b);
    HalvesOf(index, Pair(b[0], b[1]), Pair(b[2], b[3]));
  }

  /** The addresses are handed out in order: the table holds as many as it has counted. */
  lemma {:induction false} CountsItsKeys(history: seq<Table>, keys: seq<Key>, i: nat)
    requires IsHistory(history, keys) && i < |history|
    ensures |history[i].byKey| == history[i].next
  {
    if i > 0 {
      CountsItsKeys(history, keys, i - 1);
      assert history[i] == Allocated(history[i - 1], keys[i - 1]);
    }
  }
}
