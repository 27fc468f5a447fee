// identity.rs: the node's key across loads, with or without a data key, from
// the legacy table, the current one, or a generator.
module Identity {
  import opened Bytes
  import opened Wrappers
  import opened Text
  import opened AtRest

  datatype IdentityError = Io | Config

  /** A value of `mobile_config`: text, or the hex of a blob that `persist_identity` sealed. */
  datatype StoredValue = Text(text: string) | SealedHex(dk: Key, nonce: nat, sealed: bytes)

  /** The private keys in the database: `config` of 1.8, which is only read, and `mobile_config`. */
  datatype Keys = Keys(legacy: Option<string>, stored: Option<StoredValue>)

  /** Which of the 64-byte strings are keypairs; `from_keypair_bytes` decides. */
  type Curve = bytes -> bool

  /** `parse_signing_key`. */
  function ParseSigningKey(hex: string, curve: Curve): Option<bytes> {
    match HexDecode(hex)
    case None => None
    case Some(b) => if |b| == 64 && curve(b) then Some(b) else None
  }

  function TextBytes(s: string): bytes {
    if IsAscii(s) then AsciiBytes(s) else []
  }

  /** What `persist_identity` stores for a key in hex. */
  function Persisted(hex: string, dk: Option<Key>, nonce: nat): StoredValue {
    match dk
    case Some(key) => SealedHex(key, nonce, TextBytes(hex))
    case None => Text(hex)
  }

  /** Length of a sealed blob: version, nonce, text and tag. */
  function BlobLength(sealed: bytes): nat {
    1 + 24 + |sealed| + 16
  }

  /** `decrypt_stored_key`: told apart by length first, by the version byte only then. */
  function DecryptStored(v: StoredValue, dk: Option<Key>): Result<string, IdentityError>
    requires v.SealedHex? ==> BlobLength(v.sealed) != 64
  {
    match v
    case Text(s) =>
      var decoded := HexDecode(s);
      if decoded.Some? && |decoded.value| != 64 && decoded.value != [] && decoded.value[0] == VERSION
      then Err(Config)
      else Ok(s)
    case SealedHex(key, nonce, sealed) =>
      match dk
      case None => Err(Config)
      case Some(mine) =>
        match Decrypted(Dk(mine), Sealed(Dk(key), nonce, sealed))
        case None => Err(Config)
        case Some(plain) =>
          match DecodeUtf8(plain)
          case Some(s) => Ok(s)
          case None => Err(Config)
  }

  /** Everything sealed is a key in hex. */
  predicate WellSealed(keys: Keys) {
    keys.stored.Some? && keys.stored.value.SealedHex? ==> |keys.stored.value.sealed| == 128
  }

  /** What may go wrong in a load: either read, or the write. */
  datatype Faults = Faults(legacyReads: bool, storedReads: bool, writes: bool)

  const SOUND := Faults(true, true, true)

  function WriteKey(keys: Keys, key: bytes, hex: string, dk: Option<Key>, nonce: nat, f: Faults): (Keys, Result<bytes, IdentityError>) {
    if f.writes then (keys.(stored := Some(Persisted(hex, dk, nonce))), Ok(key)) else (keys, Err(Io))
  }

  /** `load_or_migrate_identity`. A read that fails counts as an absent row. */
  function Loaded(keys: Keys, dk: Option<Key>, offer: bytes, nonce: nat, curve: Curve, f: Faults): (Keys, Result<bytes, IdentityError>)
    requires WellSealed(keys)
  {
    var legacy := if f.legacyReads && keys.legacy.Some? then ParseSigningKey(keys.legacy.value, curve) else None;
    if legacy.Some? then WriteKey(keys, legacy.value, keys.legacy.value, dk, nonce, f)
    else if f.storedReads && keys.stored.Some? then
      match DecryptStored(keys.stored.value, dk)
      case Err(e) => (keys, Err(e))
      case Ok(hex) =>
        match ParseSigningKey(hex, curve)
        case Some(key) => WriteKey(keys, key, hex, dk, nonce, f)
        case None => WriteKey(keys, offer, HexEncode(offer), dk, nonce, f)
    else WriteKey(keys, offer, HexEncode(offer), dk, nonce, f)
  }

  class KeyTable {
    var legacy: Option<string>
    var stored: Option<StoredValue>

    function State(): Keys
      reads this
    {
      Keys(legacy, stored)
    }

    constructor (legacy: Option<string>)
      ensures State() == Keys(legacy, None)
    {
      this.legacy, stored := legacy, None;
    }

    method Persist(hex: string, dk: Option<Key>, nonce: nat, works: bool) returns (ok: bool)
      modifies this`stored
      ensures ok == works && stored == if ok then Some(Persisted(hex, dk, nonce)) else old(stored)
    {
      if works {
        stored := Some(if dk.Some? then SealedHex(dk.value, nonce, TextBytes(hex)) else Text(hex));
      }
      return works;
    }

    /** `load_or_migrate_identity`, in its order: legacy, stored, generated. */
    method LoadOrMigrate(dk: Option<Key>, offer: bytes, nonce: nat, curve: Curve, f: Faults) returns (r: Result<bytes, IdentityError>)
      requires WellSealed(State())
      modifies this`stored
      ensures (State(), r) == Loaded(old(State()), dk, offer, nonce, curve, f)
    {
      if f.legacyReads && legacy.Some? {
        var key := ParseSigningKey(legacy.value, curve);
        if key.Some? {
          var ok := Persist(legacy.value, dk, nonce, f.writes);
          return if ok then Ok(key.value) else Err(Io);
        }
      }
      if f.storedReads && stored.Some? {
        var hex := DecryptStored(stored.value, dk);
        if hex.Err? {
          return Err(hex.error);
        }
        var key := ParseSigningKey(hex.value, curve);
        if key.Some? {
          var ok := Persist(hex.value, dk, nonce, f.writes);
          return if ok then Ok(key.value) else Err(Io);
        }
      }
      var ok := Persist(HexEncode(offer), dk, nonce, f.writes);
      return if ok then Ok(offer) else Err(Io);
    }

    /** `regenerate_identity`: legacy row and old key go in one transaction with the new key. */
    method Regenerate(dk: Option<Key>, offer: bytes, nonce: nat, works: bool) returns (r: Result<bytes, IdentityError>)
      modifies this
      ensures works ==> r == Ok(offer) && State() == Keys(None, Some(Persisted(HexEncode(offer), dk, nonce)))
      ensures !works ==> r == Err(Io) && State() == old(State())
    {
      var before := legacy;
      legacy := None;
      var ok := Persist(HexEncode(offer), dk, nonce, works);
      if !ok {
        legacy := before;
        return Err(Io);
      }
      return Ok(offer);
    }
  }

  // ---------------------------------------------------------------- keys in hex

  lemma {:induction false} HexIsAscii(s: string)
    requires HexDecode(s).Some?
    ensures IsAscii(s)
  {
    if s != [] {
      HexIsAscii(s[2..]);
      forall i | 0 <= i < |s|
        ensures s[i] as int < 128
      {
        if i >= 2 {
          assert s[i] == s[2..][i - 2];
        }
      }
    }
  }

  lemma PlainRoundTrip(hex: string, curve: Curve)
    requires ParseSigningKey(hex, curve).Some?
    ensures DecryptStored(Text(hex), None) == Ok(hex)
  {
  }

  lemma SealedRoundTrip(hex: string, key: Key, nonce: nat, curve: Curve)
    requires ParseSigningKey(hex, curve).Some?
    ensures |TextBytes(hex)| == 128 && DecryptStored(SealedHex(key, nonce, TextBytes(hex)), Some(key)) == Ok(hex)
  {
    HexIsAscii(hex);
    DecodeAscii(hex);
  }

  /**
   * Round trip, whatever the first byte of the keypair and in either mode: a
   * stored key decrypts to itself under the key it was stored with.
   */
  lemma PersistRoundTrip(hex: string, dk: Option<Key>, nonce: nat, curve: Curve)
    requires ParseSigningKey(hex, curve).Some?
    ensures var v := Persisted(hex, dk, nonce);
            && (v.SealedHex? ==> |v.sealed| == 128)
            && DecryptStored(v, dk) == Ok(hex)
  {
    match dk
    case None => PlainRoundTrip(hex, curve);
    case Some(key) => SealedRoundTrip(hex, key, nonce, curve);
  }

  // ---------------------------------------------------------------- stability

  /** The value holds this key, sealed or in plaintext. */
  predicate Holds(v: StoredValue, key: bytes, curve: Curve) {
    match v
    case Text(s) => ParseSigningKey(s, curve) == Some(key)
    case SealedHex(_, _, sealed) =>
      |sealed| == 128 && DecodeUtf8(sealed).Some? && ParseSigningKey(DecodeUtf8(sealed).value, curve) == Some(key)
  }

  function LegacyKey(keys: Keys, curve: Curve): Option<bytes> {
    match keys.legacy
    case Some(hex) => ParseSigningKey(hex, curve)
    case None => None
  }

  /** The node's identity is `key`: the legacy row says so, or no legacy row says otherwise and the stored one does. */
  predicate Settled(keys: Keys, key: bytes, curve: Curve) {
    && WellSealed(keys)
    && match LegacyKey(keys, curve)
       case Some(legacy) => legacy == key
       case None => keys.stored.Some? && Holds(keys.stored.value, key, curve)
  }

  lemma PersistedHolds(hex: string, dk: Option<Key>, nonce: nat, key: bytes, curve: Curve)
    requires ParseSigningKey(hex, curve) == Some(key)
    ensures var v := Persisted(hex, dk, nonce); Holds(v, key, curve) && (v.SealedHex? ==> |v.sealed| == 128)
  {
    HexIsAscii(hex);
    DecodeAscii(hex);
  }

  lemma FreshParses(offer: bytes, curve: Curve)
    requires |offer| == 64 && curve(offer)
    ensures ParseSigningKey(HexEncode(offer), curve) == Some(offer)
  {
    HexRoundTrip(offer);
  }

  /** The key the load finds in the stored row, if it reads that row at all. */
  function StoredKey(keys: Keys, dk: Option<Key>, curve: Curve, f: Faults): Option<bytes>
    requires WellSealed(keys)
  {
    if f.storedReads && keys.stored.Some? then
      match DecryptStored(keys.stored.value, dk)
      case Ok(hex) => ParseSigningKey(hex, curve)
      case Err(_) => None
    else None
  }

  /** Sealed under the data key where there is one, in plaintext without. */
  predicate IsKeptUnder(v: StoredValue, dk: Option<Key>) {
    if dk.Some? then v.SealedHex? && v.dk == dk.value else v.Text?
  }

  /** A load that succeeds leaves the key it returns in the stored row; one that fails changes nothing. */
  lemma LoadStores(keys: Keys, dk: Option<Key>, offer: bytes, nonce: nat, curve: Curve, f: Faults)
    requires WellSealed(keys) && |offer| == 64 && curve(offer)
    ensures var (after, r) := Loaded(keys, dk, offer, nonce, curve, f);
            && WellSealed(after) && after.legacy == keys.legacy
            && (r.Ok? ==> after.stored.Some? && Holds(after.stored.value, r.value, curve))
            && (r.Ok? ==> IsKeptUnder(after.stored.value, dk))
            && (r.Err? ==> after == keys)
  {
    FreshParses(offer, curve);
    var (after, r) := Loaded(keys, dk, offer, nonce, curve, f);
    if r.Ok? {
      var hex := if f.legacyReads && LegacyKey(keys, curve).Some? then keys.legacy.value
                 else if StoredKey(keys, dk, curve, f).Some? then DecryptStored(keys.stored.value, dk).value
                 else HexEncode(offer);
      PersistedHolds(hex, dk, nonce, r.value, curve);
    }
  }

  lemma LegacyIsReturned(keys: Keys, dk: Option<Key>, offer: bytes, nonce: nat, curve: Curve, f: Faults)
    requires WellSealed(keys) && f.legacyReads && LegacyKey(keys, curve).Some?
    ensures var r := Loaded(keys, dk, offer, nonce, curve, f).1; r.Ok? ==> Some(r.value) == LegacyKey(keys, curve)
  {
  }

  /**
   * Whatever fails, a load that succeeds leaves the key it returns in the stored
   * row, sealed if it has a data key and in plaintext if not, and the identity is settled on that key unless a legacy key, which was
   * not read, says otherwise. A load that fails changes nothing.
   */
  lemma LoadSettles(keys: Keys, dk: Option<Key>, offer: bytes, nonce: nat, curve: Curve, f: Faults)
    requires WellSealed(keys) && |offer| == 64 && curve(offer)
    ensures var (after, r) := Loaded(keys, dk, offer, nonce, curve, f);
            && WellSealed(after) && after.legacy == keys.legacy
            && (r.Ok? ==> after.stored.Some? && Holds(after.stored.value, r.value, curve))
            && (r.Ok? ==> IsKeptUnder(after.stored.value, dk))
            && (r.Ok? ==> (Settled(after, r.value, curve) <==> LegacyKey(keys, curve) in {None, Some(r.value)}))
            && (r.Ok? && f.legacyReads ==> Settled(after, r.value, curve))
            && (r.Err? ==> after == keys)
  {
    LoadStores(keys, dk, offer, nonce, curve, f);
    if f.legacyReads && LegacyKey(keys, curve).Some? {
      LegacyIsReturned(keys, dk, offer, nonce, curve, f);
    }
  }

  /** What a load needs for returning `key`: the legacy key read, that very key in a stored row it reads, or that very offer where it reads no key. */
  predicate FindsKey(keys: Keys, key: bytes, dk: Option<Key>, offer: bytes, curve: Curve, f: Faults)
    requires WellSealed(keys)
  {
    || (f.legacyReads && LegacyKey(keys, curve).Some?)
    || StoredKey(keys, dk, curve, f) == Some(key)
    || (StoredKey(keys, dk, curve, f).None? && offer == key)
  }

  /** Which key a load returns: the legacy one, else the stored one, each if it was read, else the offer. */
  lemma LoadReturns(keys: Keys, dk: Option<Key>, offer: bytes, nonce: nat, curve: Curve, f: Faults)
    requires WellSealed(keys) && Loaded(keys, dk, offer, nonce, curve, f).1.Ok?
    ensures var key := Loaded(keys, dk, offer, nonce, curve, f).1.value;
            if f.legacyReads && LegacyKey(keys, curve).Some? then LegacyKey(keys, curve) == Some(key)
            else if StoredKey(keys, dk, curve, f).Some? then StoredKey(keys, dk, curve, f) == Some(key)
            else key == offer
  {
  }

  /** With nothing in the legacy row, a stored row that is read and decrypts holds the settled key. */
  lemma SettledIsStored(keys: Keys, key: bytes, dk: Option<Key>, curve: Curve, f: Faults)
    requires Settled(keys, key, curve) && LegacyKey(keys, curve).None? && f.storedReads && DecryptStored(keys.stored.value, dk).Ok?
    ensures StoredKey(keys, dk, curve, f) == Some(key)
  {
    if keys.stored.value.Text? {
      assert HexDecode(keys.stored.value.text).Some? && |HexDecode(keys.stored.value.text).value| == 64;
    }
  }

  /**
   * A read that fails is taken for an absent row. From any settled tables, a
   * load that succeeds returns the settled key iff it finds that key; otherwise
   * another key is returned and stored. It replaces the identity for good when
   * there is no legacy key; with one, a later load that reads it goes back.
   */
  lemma FailedReadReplacesKey(keys: Keys, key: bytes, dk: Option<Key>, offer: bytes, nonce: nat, curve: Curve, f: Faults)
    requires Settled(keys, key, curve) && |offer| == 64 && curve(offer)
    requires Loaded(keys, dk, offer, nonce, curve, f).1.Ok?
    ensures var (after, r) := Loaded(keys, dk, offer, nonce, curve, f);
            && (r == Ok(key) <==> FindsKey(keys, key, dk, offer, curve, f))
            && (Settled(after, key, curve) <==> r == Ok(key) || LegacyKey(keys, curve).Some?)
            && (LegacyKey(keys, curve).None? ==> Settled(after, r.value, curve))
            && (LegacyKey(keys, curve).None? ==> (r == Ok(key) <==> f.storedReads || offer == key))
  {
    LoadReturns(keys, dk, offer, nonce, curve, f);
    LoadSettles(keys, dk, offer, nonce, curve, f);
    if LegacyKey(keys, curve).None? && f.storedReads {
      LoadDecrypts(keys, dk, offer, nonce, curve, f);
      SettledIsStored(keys, key, dk, curve, f);
    }
  }

  /** A load that reads a stored row and succeeds has decrypted it. */
  lemma LoadDecrypts(keys: Keys, dk: Option<Key>, offer: bytes, nonce: nat, curve: Curve, f: Faults)
    requires WellSealed(keys) && LegacyKey(keys, curve).None? && f.storedReads && keys.stored.Some?
    requires Loaded(keys, dk, offer, nonce, curve, f).1.Ok?
    ensures DecryptStored(keys.stored.value, dk).Ok?
  {
  }

  /** The failing input for the legacy row: two loads in a row succeed and return different keys. */
  lemma FailedLegacyReadDisagrees(key: bytes, dk: Option<Key>, offer: bytes, nonce: nat, later: bytes, curve: Curve)
    requires |key| == 64 && curve(key) && |offer| == 64 && curve(offer) && key != offer
    ensures var keys := Keys(Some(HexEncode(key)), None);
            var (after, r) := Loaded(keys, dk, offer, nonce, curve, Faults(false, true, true));
            && Settled(keys, key, curve) && r == Ok(offer) && WellSealed(after)
            && Loaded(after, dk, later, nonce, curve, SOUND).1 == Ok(key)
  {
    FreshParses(key, curve);
    FreshParses(offer, curve);
    PersistedHolds(HexEncode(offer), dk, nonce, offer, curve);
  }

  // ---------------------------------------------------------------- runs

  /** One load: its data key, the generator's offer, and what fails. */
  datatype Load = Load(dk: Option<Key>, offer: bytes, nonce: nat, faults: Faults)

  ghost predicate Genuine(loads: seq<Load>, curve: Curve) {
    forall i :: 0 <= i < |loads| ==> |loads[i].offer| == 64 && curve(loads[i].offer)
  }

  function LoadOf(keys: Keys, l: Load, curve: Curve): (Keys, Result<bytes, IdentityError>)
    requires WellSealed(keys)
  {
    Loaded(keys, l.dk, l.offer, l.nonce, curve, l.faults)
  }

  /** The tables after the loads so far. */
  function After(start: Keys, loads: seq<Load>, curve: Curve): (keys: Keys)
    requires WellSealed(start) && Genuine(loads, curve)
    ensures WellSealed(keys)
  {
    if loads == [] then start
    else
      var l := loads[|loads| - 1];
      var before := After(start, loads[..|loads| - 1], curve);
      LoadSettles(before, l.dk, l.offer, l.nonce, curve, l.faults);
      LoadOf(before, l, curve).0
  }

  function Before(start: Keys, loads: seq<Load>, i: nat, curve: Curve): (keys: Keys)
    requires WellSealed(start) && Genuine(loads, curve) && i <= |loads|
    ensures WellSealed(keys)
  {
    After(start, loads[..i], curve)
  }

  function ResultOf(start: Keys, loads: seq<Load>, i: nat, curve: Curve): Result<bytes, IdentityError>
    requires WellSealed(start) && Genuine(loads, curve) && i < |loads|
  {
    LoadOf(Before(start, loads, i, curve), loads[i], curve).1
  }

  lemma NextTables(start: Keys, loads: seq<Load>, i: nat, curve: Curve)
    requires WellSealed(start) && Genuine(loads, curve) && i < |loads|
    ensures Before(start, loads, i + 1, curve) == LoadOf(Before(start, loads, i, curve), loads[i], curve).0
  {
    assert loads[..i + 1][..i] == loads[..i];
  }

  /** Load `i` fails, or finds `key`. */
  predicate FindsAt(start: Keys, loads: seq<Load>, i: nat, key: bytes, curve: Curve)
    requires WellSealed(start) && Genuine(loads, curve) && i < |loads|
  {
    var l := loads[i];
    ResultOf(start, loads, i, curve).Ok? ==> FindsKey(Before(start, loads, i, curve), key, l.dk, l.offer, curve, l.faults)
  }

  predicate ReturnsAt(start: Keys, loads: seq<Load>, i: nat, key: bytes, curve: Curve)
    requires WellSealed(start) && Genuine(loads, curve) && i < |loads|
  {
    ResultOf(start, loads, i, curve).Ok? ==> ResultOf(start, loads, i, curve) == Ok(key)
  }

  /** One load of a run, from tables settled on `key`. */
  lemma SettledStep(start: Keys, loads: seq<Load>, i: nat, key: bytes, curve: Curve)
    requires WellSealed(start) && Genuine(loads, curve) && i < |loads|
    requires Settled(Before(start, loads, i, curve), key, curve)
    ensures FindsAt(start, loads, i, key, curve) <==> ReturnsAt(start, loads, i, key, curve)
    ensures ReturnsAt(start, loads, i, key, curve) ==> Settled(Before(start, loads, i + 1, curve), key, curve)
  {
    var l := loads[i];
    var before := Before(start, loads, i, curve);
    NextTables(start, loads, i, curve);
    LoadSettles(before, l.dk, l.offer, l.nonce, curve, l.faults);
    if ResultOf(start, loads, i, curve).Ok? {
      FailedReadReplacesKey(before, key, l.dk, l.offer, l.nonce, curve, l.faults);
    }
  }

  lemma {:induction false} StaysSettled(start: Keys, loads: seq<Load>, i: nat, j: nat, key: bytes, curve: Curve)
    requires WellSealed(start) && Genuine(loads, curve) && i <= j <= |loads|
    requires Settled(Before(start, loads, i, curve), key, curve)
    requires forall m: nat :: i <= m < j ==> ReturnsAt(start, loads, m, key, curve)
    ensures Settled(Before(start, loads, j, curve), key, curve)
  {
    if i < j {
      StaysSettled(start, loads, i, j - 1, key, curve);
      SettledStep(start, loads, j - 1, key, curve);
    }
  }

  ghost predicate AllReturn(start: Keys, loads: seq<Load>, n: nat, key: bytes, curve: Curve)
    requires WellSealed(start) && Genuine(loads, curve) && n <= |loads|
  {
    forall i: nat :: i < n ==> ReturnsAt(start, loads, i, key, curve)
  }

  ghost predicate AllFind(start: Keys, loads: seq<Load>, n: nat, key: bytes, curve: Curve)
    requires WellSealed(start) && Genuine(loads, curve) && n <= |loads|
  {
    forall i: nat :: i < n ==> FindsAt(start, loads, i, key, curve)
  }

  /** The last of n loads, when all before it returned the key. */
  lemma LastLoad(start: Keys, loads: seq<Load>, n: nat, key: bytes, curve: Curve)
    requires WellSealed(start) && Genuine(loads, curve) && n < |loads| && Settled(start, key, curve)
    requires AllReturn(start, loads, n, key, curve)
    ensures FindsAt(start, loads, n, key, curve) <==> ReturnsAt(start, loads, n, key, curve)
  {
    assert loads[..0] == [];
    StaysSettled(start, loads, 0, n, key, curve);
    SettledStep(start, loads, n, key, curve);
  }

  lemma OneMoreReturns(start: Keys, loads: seq<Load>, n: nat, key: bytes, curve: Curve)
    requires WellSealed(start) && Genuine(loads, curve) && n < |loads|
    ensures AllReturn(start, loads, n + 1, key, curve) <==> AllReturn(start, loads, n, key, curve) && ReturnsAt(start, loads, n, key, curve)
  {
  }

  lemma OneMoreFinds(start: Keys, loads: seq<Load>, n: nat, key: bytes, curve: Curve)
    requires WellSealed(start) && Genuine(loads, curve) && n < |loads|
    ensures AllFind(start, loads, n + 1, key, curve) <==> AllFind(start, loads, n, key, curve) && FindsAt(start, loads, n, key, curve)
  {
  }

  /**
   * Identity stability, exactly: from tables settled on a key, over any loads
   * with the right, a wrong or no data key, failing reads and failing writes,
   * all loads that succeed return that key iff each of them finds it.
   */
  lemma {:induction false} StableExactly(start: Keys, loads: seq<Load>, n: nat, key: bytes, curve: Curve)
    requires WellSealed(start) && Genuine(loads, curve) && n <= |loads| && Settled(start, key, curve)
    ensures AllReturn(start, loads, n, key, curve) <==> AllFind(start, loads, n, key, curve)
  {
    if n > 0 {
      StableExactly(start, loads, n - 1, key, curve);
      OneMoreReturns(start, loads, n - 1, key, curve);
      OneMoreFinds(start, loads, n - 1, key, curve);
      if AllReturn(start, loads, n - 1, key, curve) {
        LastLoad(start, loads, n - 1, key, curve);
      }
    }
  }

  /** The read that decides works: of the legacy row where that holds a key, else of the stored one where there is one. */
  predicate DecidingReadWorks(keys: Keys, curve: Curve, f: Faults) {
    if LegacyKey(keys, curve).Some? then f.legacyReads else f.storedReads || keys.stored.None?
  }

  /**
   * From any tables: two loads that succeed return one key, if in the first, the
   * second and every one that succeeds between them the deciding read works.
   */
  lemma IdentityIsStable(start: Keys, loads: seq<Load>, i: nat, j: nat, curve: Curve)
    requires WellSealed(start) && Genuine(loads, curve) && i < j < |loads|
    requires ResultOf(start, loads, i, curve).Ok? && ResultOf(start, loads, j, curve).Ok?
    requires forall m: nat :: i <= m <= j && ResultOf(start, loads, m, curve).Ok? ==>
      DecidingReadWorks(Before(start, loads, m, curve), curve, loads[m].faults)
    ensures ResultOf(start, loads, i, curve) == ResultOf(start, loads, j, curve)
  {
    var l := loads[i];
    LoadSettles(Before(start, loads, i, curve), l.dk, l.offer, l.nonce, curve, l.faults);
    NextTables(start, loads, i, curve);
    StaysOn(start, loads, i + 1, j, ResultOf(start, loads, i, curve).value, curve);
  }

  /** With working deciding reads a settled run goes on returning its key. */
  lemma {:induction false} StaysOn(start: Keys, loads: seq<Load>, i: nat, j: nat, key: bytes, curve: Curve)
    requires WellSealed(start) && Genuine(loads, curve) && i <= j < |loads|
    requires Settled(Before(start, loads, i, curve), key, curve)
    requires forall m: nat :: i <= m <= j && ResultOf(start, loads, m, curve).Ok? ==>
      DecidingReadWorks(Before(start, loads, m, curve), curve, loads[m].faults)
    ensures ReturnsAt(start, loads, j, key, curve)
    decreases j - i
  {
    var l := loads[i];
    if ResultOf(start, loads, i, curve).Ok? {
      FailedReadReplacesKey(Before(start, loads, i, curve), key, l.dk, l.offer, l.nonce, curve, l.faults);
    }
    SettledStep(start, loads, i, key, curve);
    if i < j {
      StaysOn(start, loads, i + 1, j, key, curve);
    }
  }

  /** A legacy key that parses wins over anything stored, and heals it: without the legacy row the next load returns it too. */
  lemma LegacyWinsAndHeals(keys: Keys, key: bytes, dk: Option<Key>, offer: bytes, nonce: nat, later: bytes, curve: Curve)
    requires WellSealed(keys) && LegacyKey(keys, curve) == Some(key)
    ensures var (after, r) := Loaded(keys, dk, offer, nonce, curve, SOUND);
            && r == Ok(key) && WellSealed(after)
            && Loaded(after.(legacy := None), dk, later, nonce, curve, SOUND).1 == Ok(key)
  {
    PersistRoundTrip(keys.legacy.value, dk, nonce, curve);
  }

  /** After `regenerate_identity` the new key is the settled one, legacy row or not. */
  lemma RegenerateSettles(offer: bytes, dk: Option<Key>, nonce: nat, curve: Curve)
    requires |offer| == 64 && curve(offer)
    ensures Settled(Keys(None, Some(Persisted(HexEncode(offer), dk, nonce))), offer, curve)
  {
    FreshParses(offer, curve);
    PersistedHolds(HexEncode(offer), dk, nonce, offer, curve);
  }

  /** A stored blob too damaged to be told from text: hex of bytes, not 64 of them, of which the first is 1. */
  predicate IsDamaged(v: StoredValue) {
    && v.Text? && HexDecode(v.text).Some?
    && var b := HexDecode(v.text).value;
       |b| != 64 && |b| > 0 && b[0] == 1
  }

  /**
   * A stored key that cannot be opened is never replaced: sealed, without its
   * data key, or damaged, it makes every load fail that reads it and finds no
   * legacy key, and the tables stay as they are. Any other text that is no key
   * gives way to the offer.
   */
  lemma UnreadableIsKept(keys: Keys, dk: Option<Key>, offer: bytes, nonce: nat, curve: Curve, f: Faults)
    requires WellSealed(keys) && LegacyKey(keys, curve).None? && keys.stored.Some? && f.storedReads && f.writes
    ensures var (after, r) := Loaded(keys, dk, offer, nonce, curve, f);
            && ((keys.stored.value.SealedHex? && dk != Some(keys.stored.value.dk)) || IsDamaged(keys.stored.value) ==> r == Err(Config) && after == keys)
            && (keys.stored.value.Text? && !IsDamaged(keys.stored.value) ==>
                  r == Ok(match ParseSigningKey(keys.stored.value.text, curve) case Some(key) => key case None => offer))
  {
  }
}
