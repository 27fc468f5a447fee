// The dedup window of `mail_insert_inbox_dedup` against a plain history of what
// has been committed.
module Dedup {
  import opened Bytes
  import opened StorageState

  /** One call: the fingerprint, the clock, and whether all its statements worked. */
  datatype Attempt = Attempt(f: Fingerprint, at: int, works: bool)

  /** The table after the calls so far, starting empty. */
  function SeenAfter(h: seq<Attempt>): map<Fingerprint, int> {
    if h == [] then map[]
    else
      var before := SeenAfter(h[..|h| - 1]);
      var a := h[|h| - 1];
      if !a.works || a.f in PrunedSeen(before, a.at) then before else PrunedSeen(before, a.at)[a.f := a.at]
  }

  /** The i-th call stored its mail. */
  predicate Committed(h: seq<Attempt>, i: nat) {
    i < |h| && h[i].works && h[i].f !in PrunedSeen(SeenAfter(h[..i]), h[i].at)
  }

  predicate Monotone(h: seq<Attempt>) {
    forall i, j :: 0 <= i < j < |h| ==> h[i].at <= h[j].at
  }

  /** Some call stored this fingerprint at time `t`. */
  ghost predicate CommittedAt(h: seq<Attempt>, f: Fingerprint, t: int) {
    exists i: nat :: Committed(h, i) && h[i].f == f && h[i].at == t
  }

  /** Some call stored this fingerprint within the window that ends at `now`. */
  ghost predicate CommittedWithin(h: seq<Attempt>, f: Fingerprint, now: int) {
    exists i: nat :: Committed(h, i) && h[i].f == f && h[i].at >= now - 600
  }

  lemma CommitStays(h: seq<Attempt>, a: Attempt, i: nat)
    requires Committed(h, i)
    ensures Committed(h + [a], i) && (h + [a])[i] == h[i]
  {
    assert (h + [a])[..i] == h[..i];
  }

  lemma CommitSplit(h: seq<Attempt>, i: nat)
    requires h != [] && Committed(h, i) && i < |h| - 1
    ensures Committed(h[..|h| - 1], i) && h[..|h| - 1][i] == h[i]
  {
    assert h[..|h| - 1][..i] == h[..i];
  }

  /** Every row of the table is a commit, with its time. */
  lemma {:induction false} RowsAreCommits(h: seq<Attempt>, f: Fingerprint)
    requires f in SeenAfter(h)
    ensures CommittedAt(h, f, SeenAfter(h)[f])
  {
    var n := |h| - 1;
    var before, a := SeenAfter(h[..n]), h[n];
    assert h == h[..n] + [a];
    if !a.works || a.f in PrunedSeen(before, a.at) || a.f != f {
      RowsAreCommits(h[..n], f);
      var i: nat :| Committed(h[..n], i) && h[..n][i].f == f && h[..n][i].at == before[f];
      CommitStays(h[..n], a, i);
    } else {
      assert Committed(h, n);
    }
  }

  /** A commit within the window of every later call keeps its row. */
  lemma {:induction false} CommitsHaveRows(h: seq<Attempt>, i: nat, now: int)
    requires Monotone(h) && Committed(h, i) && h[i].at >= now - DEDUP_WINDOW_SECS
    requires forall k :: 0 <= k < |h| ==> h[k].at <= now
    ensures h[i].f in SeenAfter(h) && SeenAfter(h)[h[i].f] >= h[i].at
  {
    var n := |h| - 1;
    if i < n {
      CommitSplit(h, i);
      CommitsHaveRows(h[..n], i, now);
    } else {
      assert h[..i] == h[..n];
    }
  }

  /**
   * With a monotone clock the pruned table answers as the whole history would:
   * a mail is a duplicate iff the same mail was committed within the window.
   */
  lemma DedupRefinesHistory(h: seq<Attempt>, f: Fingerprint, now: int)
    requires Monotone(h) && forall k :: 0 <= k < |h| ==> h[k].at <= now
    ensures f in PrunedSeen(SeenAfter(h), now) <==> CommittedWithin(h, f, now)
  {
    if f in PrunedSeen(SeenAfter(h), now) {
      RowsAreCommits(h, f);
      var i: nat :| Committed(h, i) && h[i].f == f && h[i].at == SeenAfter(h)[f];
      assert Committed(h, i) && h[i].f == f && h[i].at >= now - DEDUP_WINDOW_SECS;
    }
    if CommittedWithin(h, f, now) {
      var i: nat :| Committed(h, i) && h[i].f == f && h[i].at >= now - DEDUP_WINDOW_SECS;
      CommitsHaveRows(h, i, now);
    }
  }

  /** A working call stores its mail iff no call committed it within the last 600 seconds. */
  lemma StoredExactlyWhenNew(h: seq<Attempt>, i: nat)
    requires Monotone(h) && i < |h|
    ensures Committed(h, i) <==> h[i].works && !CommittedWithin(h[..i], h[i].f, h[i].at)
  {
    DedupRefinesHistory(h[..i], h[i].f, h[i].at);
  }

  /** Two commits of one mail are more than the window apart. */
  lemma CommitsAreApart(h: seq<Attempt>, i: nat, j: nat)
    requires Monotone(h) && i < j && Committed(h, i) && Committed(h, j) && h[i].f == h[j].f
    ensures h[j].at - h[i].at > 600
  {
    StoredExactlyWhenNew(h, j);
    assert h[..j][..i] == h[..i];
    assert Committed(h[..j], i);
  }

  // ---------------------------------------------------------------- the store over its calls

  /** One call of `mail_insert_inbox_dedup` on the tables. */
  function AfterCall(db: Db, a: Attempt): Db {
    if a.works && !IsDuplicate(db, a.f, a.at) then Stored(db, a.f, a.at) else db
  }

  function AfterCalls(db: Db, h: seq<Attempt>): Db {
    if h == [] then db else AfterCall(AfterCalls(db, h[..|h| - 1]), h[|h| - 1])
  }

  lemma StoredSeen(db: Db, f: Fingerprint, now: int)
    ensures Stored(db, f, now).seen == PrunedSeen(db.seen, now)[f := now]
  {
  }

  /** The dedup table of the store is that of the history. */
  lemma {:induction false} StoreFollowsHistory(db: Db, h: seq<Attempt>)
    requires db.seen == map[]
    ensures AfterCalls(db, h).seen == SeenAfter(h)
  {
    if h != [] {
      var before, a := AfterCalls(db, h[..|h| - 1]), h[|h| - 1];
      StoreFollowsHistory(db, h[..|h| - 1]);
      StoredSeen(before, a.f, a.at);
    }
  }

  /**
   * The store over any sequence of calls under a clock that does not run
   * backwards: a call that works inserts its mail iff no earlier call inserted
   * the same mail within the last 600 seconds; any other leaves every table alone.
   */
  lemma StoreRunsFollowHistory(db: Db, h: seq<Attempt>, i: nat)
    requires db.seen == map[] && Monotone(h) && i < |h|
    ensures var before, after, a := AfterCalls(db, h[..i]), AfterCalls(db, h[..i + 1]), h[i];
            after == if a.works && !CommittedWithin(h[..i], a.f, a.at) then Stored(before, a.f, a.at) else before
  {
    assert h[..i + 1][..i] == h[..i];
    StoreFollowsHistory(db, h[..i]);
    DedupRefinesHistory(h[..i], h[i].f, h[i].at);
  }
}
