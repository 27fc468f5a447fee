// At-rest encryption (storage/mod.rs `open`, `rewrap_data_key`,
// `migrate_plaintext_mails`; storage/mails.rs `get` and `insert_with`), over an
// idealised cipher: what is sealed under one key opens under that key only, and
// nothing else opens.
module AtRest {
  import opened Bytes
  import opened Wrappers
  import opened StorageState

  const VERSION: byte := 1

  /** A key encryption key, derived from password hash and salt, or the data key. */
  datatype CipherKey = Kek(password: string, salt: bytes) | Dk(key: Key)

  /** A blob: bytes as they are, or what `aead_encrypt` made of them. */
  datatype Cell = Plain(raw: bytes) | Sealed(key: CipherKey, nonce: nat, text: bytes)

  datatype ReadError = NoKey | CannotDecrypt

  /** The version byte, a 24-byte nonce, the ciphertext and a 16-byte tag. */
  predicate LooksSealed(c: Cell) {
    match c
    case Plain(raw) => raw != [] && raw[0] == VERSION
    case Sealed(_, _, _) => true
  }

  /** `aead_decrypt`. */
  function Decrypted(key: CipherKey, c: Cell): Option<bytes> {
    if c.Sealed? && c.key == key then Some(c.text) else None
  }

  /** The blob `insert_with` stores. */
  function CellFor(key: Option<Key>, raw: bytes, nonce: nat): Cell {
    match key
    case Some(dk) => Sealed(Dk(dk), nonce, raw)
    case None => Plain(raw)
  }

  /** What `mail_get` makes of a blob. */
  function ReadCell(key: Option<Key>, c: Cell): Result<bytes, ReadError> {
    if !LooksSealed(c) then Ok(c.raw)
    else match key
      case None => Err(NoKey)
      case Some(dk) =>
        match Decrypted(Dk(dk), c)
        case Some(raw) => Ok(raw)
        case None => Err(CannotDecrypt)
  }

  /** The key material and the mail blobs. */
  datatype Vault = Vault(salt: Option<bytes>, wrapped: Option<Cell>, mails: map<MailId, Cell>)

  // ---------------------------------------------------------------- what open does

  /** Every row is as before, or was plaintext and is now sealed under `dk`. */
  ghost predicate PartlyMigrated(before: map<MailId, Cell>, after: map<MailId, Cell>, dk: Key) {
    && after.Keys == before.Keys
    && forall m :: m in before ==> after[m] == before[m] || SealsRow(before[m], after[m], dk)
  }

  predicate SealsRow(before: Cell, after: Cell, dk: Key) {
    !LooksSealed(before) && after.Sealed? && after.key == Dk(dk) && after.text == before.raw
  }

  ghost predicate FullyMigrated(mails: map<MailId, Cell>) {
    forall m :: m in mails ==> LooksSealed(mails[m])
  }

  /** Plaintext that does not start with the byte 1; an empty blob is one. */
  predicate IsOrdinary(c: Cell) {
    c.Plain? && (c.raw == [] || c.raw[0] != 1)
  }

  lemma OrdinaryIsPlaintext()
    ensures forall c :: IsOrdinary(c) <==> !LooksSealed(c)
  {
  }

  /**
   * What a blob reads as: ordinary plaintext as it is, whatever the key; sealed
   * text under its own key only; plaintext that starts with the byte 1 never.
   */
  lemma WhatBlobsRead(c: Cell, key: Option<Key>)
    ensures match c
            case Plain(raw) =>
              ReadCell(key, c) == if raw == [] || raw[0] != 1 then Ok(raw) else if key.None? then Err(NoKey) else Err(CannotDecrypt)
            case Sealed(sealedUnder, _, text) =>
              ReadCell(key, c) == if key.None? then Err(NoKey) else if sealedUnder == Dk(key.value) then Ok(text) else Err(CannotDecrypt)
  {
  }

  predicate IsPassword(password: Option<string>) {
    password.Some? && password.value != ""
  }

  class KeyStore {
    var salt: Option<bytes>
    var wrapped: Option<Cell>
    var mails: map<MailId, Cell>
    /** No statement ever fails. */
    const healthy: bool

    function State(): Vault
      reads this
    {
      Vault(salt, wrapped, mails)
    }

    constructor (healthy: bool)
      ensures State() == Vault(None, None, map[]) && this.healthy == healthy
    {
      salt, wrapped, mails := None, None, map[];
      this.healthy := healthy;
    }

    method Broken() returns (broken: bool)
      ensures healthy ==> !broken
    {
      broken := *;
      broken := broken && !healthy;
    }

    /**
     * The key part of `open`: get or create the salt, then get or mint the data
     * key. `freshSalt` and `freshKey` are what the random generator would give.
     */
    method OpenKey(password: Option<string>, freshSalt: bytes, freshKey: Key, nonce: nat) returns (r: Result<Option<Key>, ReadError>)
      modifies this`salt, this`wrapped
      ensures r == Ok(None) <==> password == None || password.value == ""
      ensures old(salt).Some? ==> salt == old(salt)
      ensures old(salt).None? ==> salt == None || salt == Some(freshSalt)
      ensures old(wrapped).Some? ==> wrapped == old(wrapped)
      ensures !IsPassword(password) ==> State() == old(State())
      ensures r.Ok? && r.value.Some? ==>
                && salt.Some? && wrapped.Some?
                && Decrypted(Kek(password.value, salt.value), wrapped.value) == Some(r.value.value)
                && (old(wrapped).None? ==> r.value == Some(freshKey) && wrapped == Some(Sealed(Kek(password.value, salt.value), nonce, freshKey)))
      ensures r.Err? ==> wrapped == old(wrapped)
      ensures healthy && IsPassword(password) ==>
                match KeyFrom(Salted(old(State()), freshSalt), password.value, freshKey)
                case None => r == Err(CannotDecrypt) && State() == Salted(old(State()), freshSalt)
                case Some(dk) => r == Ok(Some(dk)) && State() == Keyed(old(State()), password.value, freshSalt, freshKey, nonce)
    {
      if !IsPassword(password) {
        return Ok(None);
      }
      var broken := Broken();
      if broken { return Err(CannotDecrypt); }
      if salt.None? {
        broken := Broken();
        if broken { return Err(CannotDecrypt); }
        salt := Some(freshSalt);
      }
      var kek := Kek(password.value, salt.value);
      broken := Broken();
      if broken { return Err(CannotDecrypt); }
      match wrapped
      case Some(cell) =>
        var unwrapped := Decrypted(kek, cell);
        if unwrapped.None? || |unwrapped.value| != 32 {
          return Err(CannotDecrypt);
        }
        return Ok(Some(unwrapped.value));
      case None =>
        broken := Broken();
        if broken { return Err(CannotDecrypt); }
        wrapped := Some(Sealed(kek, nonce, freshKey));
        return Ok(Some(freshKey));
    }

    /** `rewrap_data_key`: the same data key under a new password; nothing in plaintext mode. */
    method Rewrap(key: Option<Key>, password: string, nonce: nat) returns (ok: bool)
      modifies this`wrapped
      ensures ok && key.Some? ==> salt.Some? && wrapped == Some(Sealed(Kek(password, salt.value), nonce, key.value))
      ensures !ok || key.None? ==> wrapped == old(wrapped)
      ensures healthy ==> (ok <==> key.None? || salt.Some?)
    {
      if key.None? { return true; }
      var broken := Broken();
      if broken || salt.None? { return false; }
      wrapped := Some(Sealed(Kek(password, salt.value), nonce, key.value));
      return true;
    }

    /** `migrate_plaintext_mails`: row by row; a failure or a crash may stop it after any row. */
    method Migrate(dk: Key) returns (done: bool)
      modifies this`mails
      ensures PartlyMigrated(old(mails), mails, dk)
      ensures healthy ==> done
      ensures done ==> FullyMigrated(mails)
      ensures mails.Keys == old(mails).Keys
      ensures done ==> forall m :: m in old(mails) && IsOrdinary(old(mails)[m]) ==>
                mails[m].Sealed? && mails[m].key == Dk(dk) && mails[m].text == old(mails)[m].raw
      ensures forall m :: m in old(mails) && !IsOrdinary(old(mails)[m]) ==> mails[m] == old(mails)[m]
      ensures FullyMigrated(old(mails)) ==> mails == old(mails)
    {
      OrdinaryIsPlaintext();
      var rows := set m | m in mails && !LooksSealed(mails[m]);
      ghost var before := mails;
      while rows != {}
        invariant PartlyMigrated(before, mails, dk)
        invariant forall m :: m in mails ==> m in rows || LooksSealed(mails[m])
        invariant forall m :: m in rows ==> m in mails && mails[m] == before[m] && !LooksSealed(mails[m])
        invariant FullyMigrated(before) ==> rows == {} && mails == before
        decreases rows
      {
        var broken := Broken();
        if broken { return false; }
        var m :| m in rows;
        var nonce: nat := *;
        mails := mails[m := Sealed(Dk(dk), nonce, mails[m].raw)];
        rows := rows - {m};
      }
      return true;
    }

    method Insert(m: MailId, raw: bytes, key: Option<Key>, nonce: nat) returns (ok: bool)
      modifies this`mails
      ensures mails == if ok then old(mails)[m := CellFor(key, raw, nonce)] else old(mails)
      ensures ok ==> m !in old(mails) && m in mails
      ensures ok && key.None? ==> mails[m] == Plain(raw)
      ensures ok && key.Some? ==> mails[m].Sealed? && mails[m].key == Dk(key.value) && mails[m].text == raw
      ensures healthy ==> ok == (m !in old(mails))
    {
      var broken := Broken();
      if broken || m in mails { return false; }
      mails := mails[m := CellFor(key, raw, nonce)];
      return true;
    }
  }

  // ---------------------------------------------------------------- runs

  /** How a mail came in: its bytes, and whether a data key was in use. */
  datatype Origin = Origin(raw: bytes, sealed: bool)

  /**
   * The store over time. `session` is the key of the running process, if one is
   * open; `origins`, `minted` and `password` are history.
   */
  datatype Run = Run(
    vault: Vault, session: Option<Option<Key>>,
    origins: map<MailId, Origin>, minted: Option<Key>, password: string)

  datatype Action =
    | Open(given: Option<string>, freshSalt: bytes, freshKey: Key, nonce: nat, rows: map<MailId, Cell>, completes: bool)
    | SaltOnly(freshSalt: bytes)
    | MintOnly(password: string, freshKey: Key, nonce: nat)
    | Stop
    | ChangePassword(password: string, nonce: nat)
    | Put(m: MailId, raw: bytes, nonce: nat)
    | Remove(m: MailId)

  /** The key that `open` arrives at with this password, if it gets that far. */
  function KeyFrom(v: Vault, given: string, freshKey: Key): Option<Key> {
    match v.wrapped
    case None => Some(freshKey)
    case Some(cell) =>
      if v.salt.None? then None
      else match Decrypted(Kek(given, v.salt.value), cell)
        case Some(key) => if |key| == 32 then Some(key) else None
        case None => None
  }

  function Salted(v: Vault, freshSalt: bytes): Vault {
    if v.salt.None? then v.(salt := Some(freshSalt)) else v
  }

  /** Salt and wrapped key after the key part of `open`. */
  function Keyed(v: Vault, given: string, freshSalt: bytes, freshKey: Key, nonce: nat): Vault {
    var salted := Salted(v, freshSalt);
    if v.wrapped.None? then salted.(wrapped := Some(Sealed(Kek(given, salted.salt.value), nonce, freshKey))) else salted
  }

  ghost predicate Enabled(r: Run, a: Action) {
    match a
    case Open(given, freshSalt, freshKey, _, rows, completes) =>
      if !IsPassword(given) then rows == r.vault.mails && completes
      else
        (match KeyFrom(Salted(r.vault, freshSalt), given.value, freshKey)
         case None => rows == r.vault.mails && !completes
         case Some(dk) => PartlyMigrated(r.vault.mails, rows, dk) && (completes ==> FullyMigrated(rows)))
    case SaltOnly(_) => true
    case MintOnly(given, _, _) => given != "" && r.vault.salt.Some? && r.vault.wrapped.None?
    case Stop => true
    case ChangePassword(_, _) => r.session.Some? && (r.session.value.Some? ==> r.vault.salt.Some?)
    case Put(m, _, _) => r.session.Some? && m !in r.vault.mails && m !in r.origins
    case Remove(m) => true
  }

  /** A process that opens the store; unless `completes`, it fails or crashes on the way. */
  ghost function AfterOpen(r: Run, a: Action): Run
    requires a.Open?
  {
    if !IsPassword(a.given) then r.(session := Some(None))
    else match KeyFrom(Salted(r.vault, a.freshSalt), a.given.value, a.freshKey)
      case None => r.(vault := Salted(r.vault, a.freshSalt), session := None)
      case Some(dk) =>
        r.(vault := Keyed(r.vault, a.given.value, a.freshSalt, a.freshKey, a.nonce).(mails := a.rows),
           session := if a.completes then Some(Some(dk)) else None,
           minted := Some(dk),
           password := if r.vault.wrapped.None? then a.given.value else r.password)
  }

  ghost function Step(r: Run, a: Action): Run
    requires Enabled(r, a)
  {
    match a
    case Open(_, _, _, _, _, _) => AfterOpen(r, a)
    case SaltOnly(freshSalt) => r.(vault := Salted(r.vault, freshSalt), session := None)
    case MintOnly(given, freshKey, nonce) =>
      r.(vault := Keyed(r.vault, given, [], freshKey, nonce), session := None, minted := Some(freshKey), password := given)
    case Stop => r.(session := None)
    case ChangePassword(given, nonce) =>
      (match r.session.value
       case None => r
       case Some(dk) =>
         r.(vault := r.vault.(wrapped := Some(Sealed(Kek(given, r.vault.salt.value), nonce, dk))), password := given))
    case Put(m, raw, nonce) =>
      r.(vault := r.vault.(mails := r.vault.mails[m := CellFor(r.session.value, raw, nonce)]),
         origins := r.origins[m := Origin(raw, r.session.value.Some?)])
    case Remove(m) => r.(vault := r.vault.(mails := r.vault.mails - {m}))
  }

  const FRESH := Run(Vault(None, None, map[]), None, map[], None, "")

  ghost predicate StepAt(run: seq<Run>, i: nat)
    requires i < |run| - 1
  {
    exists a: Action :: Enabled(run[i], a) && run[i + 1] == Step(run[i], a)
  }

  ghost predicate IsRun(run: seq<Run>) {
    run != [] && run[0] == FRESH && forall i: nat :: i < |run| - 1 ==> StepAt(run, i)
  }

  // ---------------------------------------------------------------- the invariant

  /** The blob of a mail is its own bytes, or they sealed under the one data key. */
  predicate CellOk(c: Cell, origin: Origin, minted: Option<Key>) {
    match c
    case Plain(raw) => raw == origin.raw && !origin.sealed
    case Sealed(key, _, text) =>
      text == origin.raw && minted.Some? && key == Dk(minted.value) && (origin.sealed || !LooksSealed(Plain(text)))
  }

  /** The wrapped key opens, under the current password, to the data key that was minted. */
  ghost predicate KeyInv(r: Run) {
    && (r.vault.wrapped.Some? <==> r.minted.Some?)
    && (r.minted.Some? ==>
          r.vault.salt.Some? && Decrypted(Kek(r.password, r.vault.salt.value), r.vault.wrapped.value) == Some(r.minted.value))
    && (r.session.Some? && r.session.value.Some? ==> r.session.value == r.minted)
  }

  ghost predicate RunInv(r: Run) {
    && KeyInv(r)
    && forall m :: m in r.vault.mails ==> m in r.origins && CellOk(r.vault.mails[m], r.origins[m], r.minted)
  }

  /** The password opens the vault iff it is the current one, and then to the data key. */
  lemma OnlyThePasswordOpens(r: Run, given: string, freshKey: Key)
    requires KeyInv(r) && r.minted.Some?
    ensures KeyFrom(r.vault, given, freshKey) == if given == r.password then r.minted else None
  {
  }

  lemma OpenKeeps(r: Run, a: Action)
    requires RunInv(r) && a.Open? && Enabled(r, a)
    ensures RunInv(Step(r, a))
  {
    if IsPassword(a.given) && r.minted.Some? {
      OnlyThePasswordOpens(r, a.given.value, a.freshKey);
    }
  }

  lemma StepKeeps(r: Run, a: Action)
    requires RunInv(r) && Enabled(r, a)
    ensures RunInv(Step(r, a))
    ensures r.minted.Some? ==> Step(r, a).minted == r.minted
    ensures forall m :: m in r.origins ==> m in Step(r, a).origins && Step(r, a).origins[m] == r.origins[m]
  {
    if a.Open? {
      OpenKeeps(r, a);
      if IsPassword(a.given) && r.minted.Some? {
        OnlyThePasswordOpens(r, a.given.value, a.freshKey);
      }
    }
  }

  lemma RunStepKeeps(run: seq<Run>, i: nat)
    requires IsRun(run) && i < |run| - 1 && RunInv(run[i])
    ensures RunInv(run[i + 1])
    ensures run[i].minted.Some? ==> run[i + 1].minted == run[i].minted
    ensures forall m :: m in run[i].origins ==> m in run[i + 1].origins && run[i + 1].origins[m] == run[i].origins[m]
  {
    assert StepAt(run, i);
    var a: Action :| Enabled(run[i], a) && run[i + 1] == Step(run[i], a);
    StepKeeps(run[i], a);
  }

  lemma {:induction false} RunsKeepInvariant(run: seq<Run>, i: nat)
    requires IsRun(run) && i < |run|
    ensures RunInv(run[i])
  {
    if i > 0 {
      RunsKeepInvariant(run, i - 1);
      RunStepKeeps(run, i - 1);
    }
  }

  // ---------------------------------------------------------------- what follows

  /** Once minted, the data key is the same for ever, and the current password always opens to it. */
  lemma {:induction false} DataKeyNeverChanges(run: seq<Run>, i: nat, j: nat)
    requires IsRun(run) && i <= j < |run| && run[i].minted.Some?
    ensures run[j].minted == run[i].minted
    ensures forall freshKey :: KeyFrom(run[j].vault, run[j].password, freshKey) == run[i].minted
    decreases j - i
  {
    RunsKeepInvariant(run, i);
    if i < j {
      RunStepKeeps(run, i);
      DataKeyNeverChanges(run, i + 1, j);
    }
  }

  /** A wrong password opens nothing and leaves key material and mails as they are. */
  lemma WrongPasswordChangesNothing(run: seq<Run>, i: nat, a: Action)
    requires IsRun(run) && i < |run| && a.Open? && Enabled(run[i], a)
    requires run[i].minted.Some? && IsPassword(a.given) && a.given.value != run[i].password
    ensures !a.completes && Step(run[i], a) == run[i].(session := None)
  {
    RunsKeepInvariant(run, i);
    OnlyThePasswordOpens(run[i], a.given.value, a.freshKey);
  }

  /**
   * Readability, exactly: under the data key a mail reads back as the bytes
   * inserted, unless it was inserted in plaintext mode starting with the
   * version byte; then it does not read at all, with or without the key.
   */
  lemma ReadableExactly(run: seq<Run>, i: nat, m: MailId)
    requires IsRun(run) && i < |run| && m in run[i].vault.mails
    ensures m in run[i].origins
    ensures var origin := run[i].origins[m];
            var read := ReadCell(run[i].minted, run[i].vault.mails[m]);
            && (read == Ok(origin.raw) <==> origin.sealed || origin.raw == [] || origin.raw[0] != 1)
            && (read.Ok? ==> read.value == origin.raw)
  {
    RunsKeepInvariant(run, i);
  }

  /** No key, a wrong key, a half-migrated table: whatever is read is what was inserted. */
  lemma NeverWrongBytes(run: seq<Run>, i: nat, m: MailId, key: Option<Key>)
    requires IsRun(run) && i < |run| && m in run[i].vault.mails
    ensures var read := ReadCell(key, run[i].vault.mails[m]);
            m in run[i].origins && (read.Ok? ==> read.value == run[i].origins[m].raw)
  {
    RunsKeepInvariant(run, i);
  }

  /** However far a migration got, nothing readable under the key has changed; completed, another one has no rows. */
  lemma MigrationKeepsContent(before: map<MailId, Cell>, after: map<MailId, Cell>, dk: Key, m: MailId)
    requires PartlyMigrated(before, after, dk) && m in before
    ensures ReadCell(Some(dk), after[m]) == ReadCell(Some(dk), before[m])
    ensures FullyMigrated(after) ==> forall again :: PartlyMigrated(after, again, dk) <==> again == after
  {
    if FullyMigrated(after) {
      forall again | PartlyMigrated(after, again, dk)
        ensures again == after
      {
      }
    }
  }
}
