// ymp/mod.rs: the per-source rate limit on reverse-path lookups.
module SynThrottle {
  import opened Bytes

  /** Milliseconds of a monotone clock. */
  type Time = nat

  const INTERVAL: nat := 2000
  const CAPACITY: nat := 256

  type Table = map<Key, Time>

  /** The last lookup towards `src` is recent enough to skip this one. */
  predicate Throttled(table: Table, src: Key, now: Time) {
    src in table && now - table[src] < INTERVAL
  }

  function Retained(table: Table, now: Time): Table {
    map k | k in table && now - table[k] < 4 * INTERVAL :: table[k]
  }

  /** The table after a SYN; `pruning` is how the code runs, its absence the simple form. */
  function After(table: Table, src: Key, now: Time, pruning: bool): Table {
    if Throttled(table, src, now) then table
    else
      var grown := table[src := now];
      if pruning && |grown| > CAPACITY then Retained(grown, now) else grown
  }

  /** After a lookup the table has at most 256 entries, or none older than eight seconds. */
  lemma TableIsPruned(table: Table, src: Key, now: Time)
    requires !Throttled(table, src, now)
    ensures var after := After(table, src, now, true);
            |after| <= 256 || forall k :: k in after ==> now - after[k] < 8000
  {
  }

  // ---------------------------------------------------------------- runs

  datatype Syn = Syn(src: Key, at: Time)

  predicate Monotone(syns: seq<Syn>) {
    forall i, j :: 0 <= i < j < |syns| ==> syns[i].at <= syns[j].at
  }

  function TableAfter(syns: seq<Syn>, pruning: bool): Table {
    if syns == [] then map[]
    else
      var last := syns[|syns| - 1];
      After(TableAfter(syns[..|syns| - 1], pruning), last.src, last.at, pruning)
  }

  /** SYN number `i` of the run triggers a lookup. */
  predicate LooksUp(syns: seq<Syn>, i: nat, pruning: bool)
    requires i < |syns|
  {
    !Throttled(TableAfter(syns[..i], pruning), syns[i].src, syns[i].at)
  }

  /** The history-based rule: every earlier lookup to the same source is at least two seconds old. */
  ghost predicate Due(syns: seq<Syn>, i: nat, pruning: bool)
    requires i < |syns|
  {
    forall j: nat :: j < i && syns[j].src == syns[i].src && LooksUp(syns, j, pruning) ==>
      syns[i].at - syns[j].at >= 2000
  }

  /** The k entry is the time of a lookup among the first `n`. */
  ghost predicate WitnessedAt(syns: seq<Syn>, n: nat, k: Key, at: Time, pruning: bool)
    requires n <= |syns|
  {
    exists j: nat :: j < n && LooksUp(syns, j, pruning) && syns[j].src == k && syns[j].at == at
  }

  /** Every entry of the table is the time of a lookup among the first `n` SYNs. */
  ghost predicate Witnessed(syns: seq<Syn>, n: nat, table: Table, pruning: bool)
    requires n <= |syns|
  {
    forall k :: k in table ==> WitnessedAt(syns, n, k, table[k], pruning)
  }

  /** Every lookup among the first `n` SYNs is covered by the table or long past. */
  ghost predicate Covers(syns: seq<Syn>, n: nat, table: Table, now: Time, pruning: bool)
    requires n <= |syns|
  {
    forall j: nat :: j < n && LooksUp(syns, j, pruning) ==> Covered(syns[j], table, now)
  }

  predicate Covered(syn: Syn, table: Table, now: Time) {
    (syn.src in table && syn.at <= table[syn.src]) || now - syn.at >= 4 * INTERVAL
  }

  lemma AfterKeeps(before: Table, src: Key, now: Time, pruning: bool)
    ensures var after := After(before, src, now, pruning);
            && (!Throttled(before, src, now) ==> src in after && after[src] == now)
            && (forall k :: k in after ==> (k in before && after[k] == before[k]) || (k == src && after[k] == now && !Throttled(before, src, now)))
            && (forall k :: k in before && now >= before[k] && now - before[k] < 4 * INTERVAL ==> k in after && before[k] <= after[k])
  {
  }

  lemma StillWitnessed(syns: seq<Syn>, n: nat, k: Key, pruning: bool)
    requires 0 < n <= |syns| && k in TableAfter(syns[..n], pruning)
    requires Witnessed(syns, n - 1, TableAfter(syns[..n - 1], pruning), pruning)
    ensures WitnessedAt(syns, n, k, TableAfter(syns[..n], pruning)[k], pruning)
  {
    var before, last, after := TableAfter(syns[..n - 1], pruning), syns[n - 1], TableAfter(syns[..n], pruning);
    TableStep(syns, n, pruning);
    AfterKeeps(before, last.src, last.at, pruning);
    if k in before && after[k] == before[k] {
      var j: nat :| j < n - 1 && LooksUp(syns, j, pruning) && syns[j].src == k && syns[j].at == before[k];
    } else {
      assert LooksUp(syns, n - 1, pruning);
    }
  }

  lemma {:induction false} TableWitnessed(syns: seq<Syn>, n: nat, pruning: bool)
    requires n <= |syns|
    ensures Witnessed(syns, n, TableAfter(syns[..n], pruning), pruning)
  {
    if n > 0 {
      TableWitnessed(syns, n - 1, pruning);
      var after := TableAfter(syns[..n], pruning);
      forall k | k in after
        ensures WitnessedAt(syns, n, k, after[k], pruning)
      {
        StillWitnessed(syns, n, k, pruning);
      }
    }
  }

  lemma {:induction false} TableCovers(syns: seq<Syn>, n: nat, pruning: bool)
    requires 0 < n <= |syns| && Monotone(syns)
    ensures Covers(syns, n, TableAfter(syns[..n], pruning), syns[n - 1].at, pruning)
  {
    if n > 1 {
      TableCovers(syns, n - 1, pruning);
    }
    forall j: nat | j < n && LooksUp(syns, j, pruning)
      ensures Covered(syns[j], TableAfter(syns[..n], pruning), syns[n - 1].at)
    {
      if j < n - 1 {
        StillCovered(syns, n, j, pruning);
      } else {
        NewestCovered(syns, n, pruning);
      }
    }
  }

  lemma TableStep(syns: seq<Syn>, n: nat, pruning: bool)
    requires 0 < n <= |syns|
    ensures TableAfter(syns[..n], pruning) == After(TableAfter(syns[..n - 1], pruning), syns[n - 1].src, syns[n - 1].at, pruning)
  {
    assert syns[..n][..n - 1] == syns[..n - 1];
  }

  lemma NewestCovered(syns: seq<Syn>, n: nat, pruning: bool)
    requires 0 < n <= |syns| && LooksUp(syns, n - 1, pruning)
    ensures Covered(syns[n - 1], TableAfter(syns[..n], pruning), syns[n - 1].at)
  {
    TableStep(syns, n, pruning);
    AfterKeeps(TableAfter(syns[..n - 1], pruning), syns[n - 1].src, syns[n - 1].at, pruning);
  }

  /** No entry of the table is later than the next SYN. */
  lemma EntriesArePast(syns: seq<Syn>, n: nat, k: Key, pruning: bool)
    requires n < |syns| && Monotone(syns) && k in TableAfter(syns[..n], pruning)
    ensures TableAfter(syns[..n], pruning)[k] <= syns[n].at
  {
    TableWitnessed(syns, n, pruning);
    assert WitnessedAt(syns, n, k, TableAfter(syns[..n], pruning)[k], pruning);
  }

  lemma CoverStays(syn: Syn, before: Table, earlier: Time, last: Syn, pruning: bool)
    requires Covered(syn, before, earlier) && earlier <= last.at
    requires syn.src in before ==> before[syn.src] <= last.at
    ensures Covered(syn, After(before, last.src, last.at, pruning), last.at)
  {
    AfterKeeps(before, last.src, last.at, pruning);
  }

  lemma StillCovered(syns: seq<Syn>, n: nat, j: nat, pruning: bool)
    requires n <= |syns| && Monotone(syns) && j < n - 1
    requires Covered(syns[j], TableAfter(syns[..n - 1], pruning), syns[n - 2].at)
    ensures Covered(syns[j], TableAfter(syns[..n], pruning), syns[n - 1].at)
  {
    var before := TableAfter(syns[..n - 1], pruning);
    TableStep(syns, n, pruning);
    if syns[j].src in before {
      EntriesArePast(syns, n - 1, syns[j].src, pruning);
    }
    CoverStays(syns[j], before, syns[n - 2].at, syns[n - 1], pruning);
  }

  /** Lookups follow the history-based rule exactly, with and without pruning. */
  lemma LooksUpExactlyWhenDue(syns: seq<Syn>, i: nat, pruning: bool)
    requires i < |syns| && Monotone(syns)
    ensures LooksUp(syns, i, pruning) <==> Due(syns, i, pruning)
  {
    var table := TableAfter(syns[..i], pruning);
    TableWitnessed(syns, i, pruning);
    if i > 0 {
      TableCovers(syns, i, pruning);
    }
    if Throttled(table, syns[i].src, syns[i].at) {
      var j: nat :| j < i && LooksUp(syns, j, pruning) && syns[j].src == syns[i].src && syns[j].at == table[syns[i].src];
      assert !Due(syns, i, pruning);
    }
  }

  /** Pruning never changes a decision. */
  lemma {:induction false} PruningIsInvisible(syns: seq<Syn>, i: nat)
    requires i < |syns| && Monotone(syns)
    ensures LooksUp(syns, i, true) == LooksUp(syns, i, false)
  {
    LooksUpExactlyWhenDue(syns, i, true);
    LooksUpExactlyWhenDue(syns, i, false);
    forall j: nat | j < i
      ensures LooksUp(syns, j, true) == LooksUp(syns, j, false)
    {
      PruningIsInvisible(syns, j);
    }
  }

  /** A SYN repeated after the handshake timeout is never throttled by the ones before it. */
  lemma RetryIsNeverThrottled(syns: seq<Syn>, i: nat)
    requires i < |syns| && Monotone(syns)
    requires forall j: nat :: j < i && syns[j].src == syns[i].src ==> syns[i].at - syns[j].at >= 5000
    ensures LooksUp(syns, i, true)
  {
    LooksUpExactlyWhenDue(syns, i, true);
  }
}
