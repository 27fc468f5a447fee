// picker.rs `rank`, `decide` and `pick_backup`. Scores are exact reals; a failed
// probe has an infinite one.
module PickerRanking {
  import opened Bytes
  import opened Wrappers
  import opened Picker

  const HYSTERESIS: real := 0.15

  datatype Score = Finite(ms: real) | Infinite

  predicate AtMost(a: Score, b: Score) {
    b.Infinite? || (a.Finite? && a.ms <= b.ms)
  }

  datatype Ip = V4(octets: seq<byte>) | V6(segments: seq<u16>)

  /** Addresses as they come: four octets or eight segments. */
  predicate WellFormed(ip: Ip) {
    match ip
    case V4(o) => |o| == 4
    case V6(s) => |s| == 8
  }

  type Address = ip: Ip | WellFormed(ip) witness V4([0, 0, 0, 0])

  datatype RowReason = NoTree | OtherNetwork

  datatype Probe = Probe(coreMs: real, tree: Option<(Key, nat)>)

  datatype Candidate = Candidate(uri: string, ip: Option<Address>)

  datatype Row = Row(uri: string, latencyMs: real, score: Score, depth: Option<nat>, reason: Option<RowReason>, ip: Option<Address>)

  datatype KeepReason = NonePassed | CurrentBest | SmallGain

  datatype Verdict = Keep(why: KeepReason) | Switch(uri: string)

  function RootOf(p: Probe): Option<Key> {
    match p.tree
    case Some((root, _)) => Some(root)
    case None => None
  }

  // ---------------------------------------------------------------- votes

  /** The probes that see this root. */
  function Voters(probes: map<string, Probe>, root: Key): set<string> {
    set u | u in probes && probes[u].tree.Some? && probes[u].tree.value.0 == root
  }

  ghost predicate AreVotes(votes: multiset<Key>, probes: map<string, Probe>) {
    forall k :: votes[k] == |Voters(probes, k)|
  }

  /** The root most probes agree on; no root when no probe has one. */
  ghost predicate IsNetworkRoot(probes: map<string, Probe>, current: Option<Key>, root: Option<Key>) {
    exists votes :: AreVotes(votes, probes) && if root.None? then votes == multiset{} else IsCommonRoot(votes, current, root.value)
  }

  /** The network root does not depend on the order in which the probes are visited. */
  lemma NetworkRootIsUnique(probes: map<string, Probe>, current: Option<Key>, a: Option<Key>, b: Option<Key>)
    requires IsNetworkRoot(probes, current, a) && IsNetworkRoot(probes, current, b)
    ensures a == b
  {
    var v :| AreVotes(v, probes) && if a.None? then v == multiset{} else IsCommonRoot(v, current, a.value);
    var w :| AreVotes(w, probes) && if b.None? then w == multiset{} else IsCommonRoot(w, current, b.value);
    VotesAreUnique(v, w, probes);
    if a.Some? && b.Some? {
      CommonRootIsUnique(v, current, a.value, b.value);
    }
  }

  lemma VotesAreUnique(v: multiset<Key>, w: multiset<Key>, probes: map<string, Probe>)
    requires AreVotes(v, probes) && AreVotes(w, probes)
    ensures v == w
  {
  }

  /** The root of the first configured peer that has one. */
  function CurrentRoot(configured: seq<string>, probes: map<string, Probe>): Option<Key> {
    if configured == [] then None
    else if configured[0] in probes && RootOf(probes[configured[0]]).Some? then RootOf(probes[configured[0]])
    else CurrentRoot(configured[1..], probes)
  }

  /** Peer `k` is the first configured one whose probe has a root, this one. */
  ghost predicate IsFirstWithRoot(configured: seq<string>, probes: map<string, Probe>, k: nat, root: Key) {
    && k < |configured| && configured[k] in probes && probes[configured[k]].tree.Some? && probes[configured[k]].tree.value.0 == root
    && forall j :: 0 <= j < k ==> configured[j] in probes ==> probes[configured[j]].tree.None?
  }

  ghost predicate NoneHasRoot(configured: seq<string>, probes: map<string, Probe>) {
    forall j :: 0 <= j < |configured| ==> configured[j] in probes ==> probes[configured[j]].tree.None?
  }

  /** The root that breaks ties is that of the first configured peer that has one. */
  ghost predicate BreaksTies(configured: seq<string>, probes: map<string, Probe>, current: Option<Key>) {
    match current
    case Some(root) => exists k :: IsFirstWithRoot(configured, probes, k, root)
    case None => NoneHasRoot(configured, probes)
  }

  lemma {:induction false} CurrentRootBreaksTies(configured: seq<string>, probes: map<string, Probe>)
    ensures BreaksTies(configured, probes, CurrentRoot(configured, probes))
  {
    if configured != [] && !IsFirstWithRoot(configured, probes, 0, if configured[0] in probes && probes[configured[0]].tree.Some? then probes[configured[0]].tree.value.0 else seq(32, _ => 0)) {
      CurrentRootBreaksTies(configured[1..], probes);
      var current := CurrentRoot(configured, probes);
      assert current == CurrentRoot(configured[1..], probes);
      if current.Some? {
        var k: nat :| IsFirstWithRoot(configured[1..], probes, k, current.value);
        assert forall j :: 0 < j < |configured| ==> configured[j] == configured[1..][j - 1];
        assert IsFirstWithRoot(configured, probes, k + 1, current.value);
      } else {
        assert forall j :: 0 < j < |configured| ==> configured[j] == configured[1..][j - 1];
      }
    }
  }

  lemma TieBreakerIsUnique(configured: seq<string>, probes: map<string, Probe>, a: Option<Key>, b: Option<Key>)
    requires BreaksTies(configured, probes, a) && BreaksTies(configured, probes, b)
    ensures a == b
  {
    if a.Some? && b.Some? {
      var i: nat :| IsFirstWithRoot(configured, probes, i, a.value);
      var j: nat :| IsFirstWithRoot(configured, probes, j, b.value);
    }
  }

  method CollectRoots(probes: map<string, Probe>) returns (roots: seq<Key>)
    ensures AreVotes(multiset(roots), probes)
  {
    roots := [];
    var rest := probes.Keys;
    while rest != {}
      invariant rest <= probes.Keys && Counted(multiset(roots), probes, rest)
      decreases rest
    {
      var u :| u in rest;
      var root := RootOf(probes[u]);
      OneMoreCounted(multiset(roots), probes, rest, u);
      if root.Some? {
        assert multiset(roots + [root.value]) == multiset(roots) + multiset{root.value};
        roots := roots + [root.value];
      }
      rest := rest - {u};
    }
    AllCounted(multiset(roots), probes);
  }

  /** The votes of all probes but the rest. */
  ghost predicate Counted(votes: multiset<Key>, probes: map<string, Probe>, rest: set<string>) {
    forall k :: votes[k] == |Voters(probes, k) - rest|
  }

  lemma AllCounted(votes: multiset<Key>, probes: map<string, Probe>)
    requires Counted(votes, probes, {})
    ensures AreVotes(votes, probes)
  {
    forall k
      ensures votes[k] == |Voters(probes, k)|
    {
      assert Voters(probes, k) - {} == Voters(probes, k);
    }
  }

  lemma OneMoreCounted(votes: multiset<Key>, probes: map<string, Probe>, rest: set<string>, u: string)
    requires Counted(votes, probes, rest) && u in rest && u in probes
    ensures Counted(match RootOf(probes[u]) case Some(root) => votes + multiset{root} case None => votes, probes, rest - {u})
  {
    forall k
      ensures |Voters(probes, k) - (rest - {u})| == |Voters(probes, k) - rest| + if RootOf(probes[u]) == Some(k) then 1 else 0
    {
      OneMoreVoter(probes, rest, u, k);
    }
  }

  lemma OneMoreVoter(probes: map<string, Probe>, rest: set<string>, u: string, k: Key)
    requires u in rest && u in probes
    ensures |Voters(probes, k) - (rest - {u})| == |Voters(probes, k) - rest| + if RootOf(probes[u]) == Some(k) then 1 else 0
  {
    var all := Voters(probes, k);
    if RootOf(probes[u]) == Some(k) {
      assert all - (rest - {u}) == (all - rest) + {u};
    } else {
      assert all - (rest - {u}) == all - rest;
    }
  }

  // ---------------------------------------------------------------- scores

  /** Latency times hops to the root for a peer on the network's root, infinite for any other. */
  function Judge(p: Probe, root: Option<Key>): (Score, Option<RowReason>) {
    match p.tree
    case None => (Infinite, Some(NoTree))
    case Some((r, depth)) =>
      if Some(r) != root then (Infinite, Some(OtherNetwork))
      else if p.coreMs <= 0.0 then (Infinite, None)
      else (Finite(p.coreMs * (depth + 1) as real), None)
  }

  function RowFor(c: Candidate, probes: map<string, Probe>, root: Option<Key>): Row {
    if c.uri in probes then
      var p := probes[c.uri];
      var (score, reason) := Judge(p, root);
      Row(c.uri, p.coreMs, score, if p.tree.Some? then Some(p.tree.value.1) else None, reason, c.ip)
    else Row(c.uri, 0.0, Infinite, None, None, c.ip)
  }

  function RowsFor(top: seq<Candidate>, probes: map<string, Probe>, root: Option<Key>): (rows: seq<Row>)
    ensures |rows| == |top| && forall i :: 0 <= i < |top| ==> rows[i] == RowFor(top[i], probes, root)
  {
    if top == [] then [] else [RowFor(top[0], probes, root)] + RowsFor(top[1..], probes, root)
  }

  ghost predicate Sorted(rows: seq<Row>) {
    forall i, j :: 0 <= i < j < |rows| ==> AtMost(rows[i].score, rows[j].score)
  }

  /** The rows with this score, in order. */
  function WithScore(rows: seq<Row>, s: Score): seq<Row> {
    if rows == [] then []
    else (if rows[0].score == s then [rows[0]] else []) + WithScore(rows[1..], s)
  }

  lemma {:induction false} WithScoreConcat(a: seq<Row>, b: seq<Row>, s: Score)
    ensures WithScore(a + b, s) == WithScore(a, s) + WithScore(b, s)
  {
    if a == [] {
      assert a + b == b;
    } else {
      assert (a + b)[1..] == a[1..] + b;
      WithScoreConcat(a[1..], b, s);
    }
  }

  lemma {:induction false} NoneWithScore(rows: seq<Row>, s: Score)
    requires forall r :: r in rows ==> r.score != s
    ensures WithScore(rows, s) == []
  {
    if rows != [] {
      NoneWithScore(rows[1..], s);
    }
  }

  /** A stable sort: ascending, the same rows, and rows of one score in their old order. */
  ghost predicate StablySorted(rows: seq<Row>, all: seq<Row>) {
    && Sorted(rows)
    && multiset(rows) == multiset(all)
    && forall s :: WithScore(rows, s) == WithScore(all, s)
  }

  /** `sort_by` on the score. */
  method SortByScore(all: seq<Row>) returns (rows: seq<Row>)
    ensures StablySorted(rows, all)
  {
    rows := [];
    for i := 0 to |all|
      invariant StablySorted(rows, all[..i])
    {
      var at := |rows|;
      while at > 0 && !AtMost(rows[at - 1].score, all[i].score)
        invariant 0 <= at <= |rows|
        invariant forall j :: at <= j < |rows| ==> !AtMost(rows[j].score, all[i].score)
      {
        at := at - 1;
      }
      InsertedStably(rows, all[..i], at, all[i]);
      assert all[..i + 1] == all[..i] + [all[i]];
      rows := rows[..at] + [all[i]] + rows[at..];
    }
    assert all[..|all|] == all;
  }

  lemma InsertedSame(rows: seq<Row>, all: seq<Row>, at: nat, r: Row)
    requires multiset(rows) == multiset(all) && at <= |rows|
    ensures multiset(rows[..at] + [r] + rows[at..]) == multiset(all + [r])
  {
    assert rows == rows[..at] + rows[at..];
  }

  lemma InsertedStably(rows: seq<Row>, all: seq<Row>, at: nat, r: Row)
    requires StablySorted(rows, all) && at <= |rows|
    requires at > 0 ==> AtMost(rows[at - 1].score, r.score)
    requires forall j :: at <= j < |rows| ==> !AtMost(rows[j].score, r.score)
    ensures StablySorted(rows[..at] + [r] + rows[at..], all + [r])
  {
    InsertedSorted(rows, at, r);
    InsertedSame(rows, all, at, r);
    forall s
      ensures WithScore(rows[..at] + [r] + rows[at..], s) == WithScore(all + [r], s)
    {
      InsertedInPlace(rows, all, at, r, s);
    }
  }

  lemma InsertedSorted(rows: seq<Row>, at: nat, r: Row)
    requires Sorted(rows) && at <= |rows|
    requires at > 0 ==> AtMost(rows[at - 1].score, r.score)
    requires forall j :: at <= j < |rows| ==> !AtMost(rows[j].score, r.score)
    ensures Sorted(rows[..at] + [r] + rows[at..])
  {
    var after := rows[..at] + [r] + rows[at..];
    forall i, j | 0 <= i < j < |after|
      ensures AtMost(after[i].score, after[j].score)
    {
      if j == at && i < at - 1 {
        assert AtMost(rows[i].score, rows[at - 1].score);
      }
    }
  }

  lemma InsertedInPlace(rows: seq<Row>, all: seq<Row>, at: nat, r: Row, s: Score)
    requires WithScore(rows, s) == WithScore(all, s) && at <= |rows|
    requires forall j :: at <= j < |rows| ==> !AtMost(rows[j].score, r.score)
    ensures WithScore(rows[..at] + [r] + rows[at..], s) == WithScore(all + [r], s)
  {
    var head, tail := rows[..at], rows[at..];
    assert rows == head + tail;
    WithScoreConcat(all, [r], s);
    WithScoreConcat(head, tail, s);
    TailWithScore(rows, at, r, s);
    InTheMiddle(head, r, tail, s);
    EitherEmpty(WithScore(head, s), WithScore([r], s), WithScore(tail, s));
  }

  lemma InTheMiddle(head: seq<Row>, r: Row, tail: seq<Row>, s: Score)
    ensures WithScore(head + [r] + tail, s) == WithScore(head, s) + WithScore([r], s) + WithScore(tail, s)
  {
    WithScoreConcat(head + [r], tail, s);
    WithScoreConcat(head, [r], s);
  }

  lemma TailWithScore(rows: seq<Row>, at: nat, r: Row, s: Score)
    requires at <= |rows| && forall j :: at <= j < |rows| ==> !AtMost(rows[j].score, r.score)
    ensures WithScore(rows[at..], s) == [] || WithScore([r], s) == []
  {
    if s == r.score {
      NoneWithScore(rows[at..], s);
    } else {
      NoneWithScore([r], s);
    }
  }

  lemma EitherEmpty(a: seq<Row>, b: seq<Row>, c: seq<Row>)
    requires b == [] || c == []
    ensures a + b + c == a + c + b
  {
  }

  /** The least score of the configured peers that were probed. */
  function CurrentScore(configured: seq<string>, probes: map<string, Probe>, root: Option<Key>): Score {
    if configured == [] then Infinite
    else
      var n := |configured| - 1;
      var before := CurrentScore(configured[..n], probes, root);
      if configured[n] !in probes then before
      else
        var s := Judge(probes[configured[n]], root).0;
        if AtMost(before, s) then before else s
  }

  /** Rows judged against the network's root and stably sorted, and the score of the configured peers against that root. */
  ghost predicate Ranked(top: seq<Candidate>, configured: seq<string>, probes: map<string, Probe>, rows: seq<Row>, current: Score) {
    exists root :: IsNetworkRoot(probes, CurrentRoot(configured, probes), root)
      && StablySorted(rows, RowsFor(top, probes, root)) && current == CurrentScore(configured, probes, root)
  }

  /** `rank`. */
  method Rank(top: seq<Candidate>, configured: seq<string>, probes: map<string, Probe>)
    returns (rows: seq<Row>, current: Score)
    ensures Ranked(top, configured, probes, rows, current)
  {
    var roots := CollectRoots(probes);
    var currentRoot := CurrentRoot(configured, probes);
    var agreed := NetworkRoot(roots, currentRoot);
    assert AreVotes(multiset(roots), probes);
    rows := SortByScore(RowsFor(top, probes, agreed));
    current := Infinite;
    for i := 0 to |configured|
      invariant current == CurrentScore(configured[..i], probes, agreed)
    {
      assert configured[..i + 1][..i] == configured[..i];
      if configured[i] in probes {
        var s := Judge(probes[configured[i]], agreed).0;
        current := if AtMost(current, s) then current else s;
      }
    }
    assert configured[..|configured|] == configured;
    assert IsNetworkRoot(probes, CurrentRoot(configured, probes), agreed);
  }

  // ---------------------------------------------------------------- the decision

  /** Index of the first row of least score. */
  function FirstBest(rows: seq<Row>): (b: nat)
    requires rows != []
    ensures b < |rows|
  {
    var n := |rows| - 1;
    if n == 0 then 0
    else
      var b := FirstBest(rows[..n]);
      if AtMost(rows[b].score, rows[n].score) then b else n
  }

  function Decide(current: Score, rows: seq<Row>): Verdict {
    if rows == [] then Keep(NonePassed)
    else
      var best := rows[FirstBest(rows)];
      if best.score.Infinite? then Keep(NonePassed)
      else if current.Infinite? then Switch(best.uri)
      else if best.score.ms >= current.ms then Keep(CurrentBest)
      else if best.score.ms > current.ms * (1.0 - HYSTERESIS) then Keep(SmallGain)
      else Switch(best.uri)
  }

  lemma {:induction false} FirstBestIsFirstLeast(rows: seq<Row>)
    requires rows != []
    ensures var b := FirstBest(rows);
            && (forall i :: 0 <= i < |rows| ==> AtMost(rows[b].score, rows[i].score))
            && (forall i :: 0 <= i < b ==> !AtMost(rows[i].score, rows[b].score))
  {
    var n := |rows| - 1;
    if n > 0 {
      FirstBestIsFirstLeast(rows[..n]);
      assert forall i :: 0 <= i < n ==> rows[i] == rows[..n][i];
    }
  }

  /** The score beats the current one by the hysteresis, or there is no current one. */
  predicate Beats(s: Score, current: Score) {
    s.Finite? && (current.Infinite? || (s.ms < current.ms && s.ms <= current.ms * 0.85))
  }

  /** Switching happens iff some row beats the current score, and then to the first row of least score. */
  lemma DecidesExactly(current: Score, rows: seq<Row>)
    ensures Decide(current, rows).Switch? <==> exists r :: r in rows && Beats(r.score, current)
    ensures Decide(current, rows).Switch? ==>
              rows != [] && Decide(current, rows).uri == rows[FirstBest(rows)].uri && Beats(rows[FirstBest(rows)].score, current)
    ensures Decide(current, rows) == Keep(NonePassed) <==> forall r :: r in rows ==> r.score.Infinite?
    ensures Decide(current, rows) == Keep(CurrentBest) <==>
            (exists r :: r in rows && r.score.Finite?) && current.Finite? && forall r :: r in rows && r.score.Finite? ==> r.score.ms >= current.ms
  {
    if rows != [] {
      FirstBestIsFirstLeast(rows);
      var best := rows[FirstBest(rows)];
      assert best in rows;
      forall r | r in rows && Beats(r.score, current)
        ensures Beats(best.score, current)
      {
        var i :| 0 <= i < |rows| && rows[i] == r;
      }
      forall r | r in rows
        ensures AtMost(best.score, r.score)
      {
        var i :| 0 <= i < |rows| && rows[i] == r;
      }
    }
  }

  /** The peer is linked on this root with a measured latency; its score is latency times hops. */
  predicate Scores(uri: string, probes: map<string, Probe>, root: Option<Key>, s: real) {
    && uri in probes
    && var p := probes[uri];
       p.tree.Some? && Some(p.tree.value.0) == root && p.coreMs > 0.0 && s == p.coreMs * (p.tree.value.1 + 1) as real
  }

  lemma ScoreMeans(uri: string, probes: map<string, Probe>, root: Option<Key>, s: real)
    ensures uri in probes ==> (Judge(probes[uri], root).0 == Finite(s) <==> Scores(uri, probes, root, s))
    ensures Scores(uri, probes, root, s) ==> s > 0.0
  {
    if Scores(uri, probes, root, s) {
      var p := probes[uri];
      assert p.coreMs * (p.tree.value.1 + 1) as real >= p.coreMs * 1.0;
    }
  }

  /** The current score is the least of the configured peers that are on the root, infinite if none is. */
  lemma {:induction false} CurrentIsLeast(configured: seq<string>, probes: map<string, Probe>, root: Option<Key>)
    ensures var current := CurrentScore(configured, probes, root);
            && (current.Finite? ==> exists k :: 0 <= k < |configured| && Scores(configured[k], probes, root, current.ms))
            && (forall k, c :: 0 <= k < |configured| && Scores(configured[k], probes, root, c) ==> AtMost(current, Finite(c)))
  {
    if configured != [] {
      var n := |configured| - 1;
      var before := configured[..n];
      CurrentIsLeast(before, probes, root);
      var current := CurrentScore(configured, probes, root);
      if configured[n] in probes {
        var s := Judge(probes[configured[n]], root).0;
        if s.Finite? {
          ScoreMeans(configured[n], probes, root, s.ms);
        }
      }
      assert forall k :: 0 <= k < n ==> configured[k] == before[k];
      forall k, c | 0 <= k < |configured| && Scores(configured[k], probes, root, c)
        ensures AtMost(current, Finite(c))
      {
        ScoreMeans(configured[k], probes, root, c);
        if k < n {
          assert Scores(before[k], probes, root, c);
        }
      }
    }
  }

  /** At most 85 percent of the score of every configured peer on the root. */
  ghost predicate BeatsConfigured(configured: seq<string>, probes: map<string, Probe>, root: Option<Key>, s: real) {
    forall k, c :: 0 <= k < |configured| && Scores(configured[k], probes, root, c) ==> s <= c * 0.85
  }

  lemma LeastIsScored(configured: seq<string>, probes: map<string, Probe>, root: Option<Key>) returns (k: nat)
    requires CurrentScore(configured, probes, root).Finite?
    ensures k < |configured| && Scores(configured[k], probes, root, CurrentScore(configured, probes, root).ms)
    ensures CurrentScore(configured, probes, root).ms > 0.0
  {
    CurrentIsLeast(configured, probes, root);
    k :| 0 <= k < |configured| && Scores(configured[k], probes, root, CurrentScore(configured, probes, root).ms);
    ScoreMeans(configured[k], probes, root, CurrentScore(configured, probes, root).ms);
  }

  lemma BeatsMeans(configured: seq<string>, probes: map<string, Probe>, root: Option<Key>, s: real)
    ensures Beats(Finite(s), CurrentScore(configured, probes, root)) <==> BeatsConfigured(configured, probes, root, s)
  {
    var current := CurrentScore(configured, probes, root);
    if current.Finite? {
      var k := LeastIsScored(configured, probes, root);
    }
    if Beats(Finite(s), current) {
      forall k, c | 0 <= k < |configured| && Scores(configured[k], probes, root, c)
        ensures s <= c * 0.85
      {
        CurrentAtMost(configured, probes, root, k, c);
      }
    }
  }

  lemma CurrentAtMost(configured: seq<string>, probes: map<string, Probe>, root: Option<Key>, k: nat, c: real)
    requires k < |configured| && Scores(configured[k], probes, root, c)
    ensures AtMost(CurrentScore(configured, probes, root), Finite(c))
  {
    CurrentIsLeast(configured, probes, root);
  }

  /**
   * From probes to decision: with the network's own root as `rank` finds it,
   * there is a switch iff some candidate on that root has a latency times hops
   * of at most 85 percent of that of every configured peer on it; and the switch
   * goes to a candidate for which that product is least.
   */
  lemma RankedDecision(top: seq<Candidate>, configured: seq<string>, probes: map<string, Probe>, tie: Option<Key>, root: Option<Key>, rows: seq<Row>, current: Score)
    requires BreaksTies(configured, probes, tie) && IsNetworkRoot(probes, tie, root) && Ranked(top, configured, probes, rows, current)
    ensures Decide(current, rows).Switch? <==>
            exists j, t :: 0 <= j < |top| && Scores(top[j].uri, probes, root, t) && BeatsConfigured(configured, probes, root, t)
    ensures var v := Decide(current, rows);
            v.Switch? ==> exists i, s :: 0 <= i < |top| && top[i].uri == v.uri && Scores(top[i].uri, probes, root, s)
                            && forall j, t :: 0 <= j < |top| && Scores(top[j].uri, probes, root, t) ==> s <= t
  {
    RankedOn(top, configured, probes, tie, root, rows, current);
    if Decide(current, rows).Switch? {
      var i, s := SwitchedTo(top, probes, root, rows, current);
      BeatsMeans(configured, probes, root, s);
    }
    forall j, t | 0 <= j < |top| && Scores(top[j].uri, probes, root, t) && BeatsConfigured(configured, probes, root, t)
      ensures Decide(current, rows).Switch?
    {
      BeatsMeans(configured, probes, root, t);
      ScoreMeans(top[j].uri, probes, root, t);
      DecidesExactly(current, rows);
      var k := SameRow(RowsFor(top, probes, root), rows, j);
    }
  }

  /** The rows were ranked on the network's own root. */
  lemma RankedOn(top: seq<Candidate>, configured: seq<string>, probes: map<string, Probe>, tie: Option<Key>, root: Option<Key>, rows: seq<Row>, current: Score)
    requires BreaksTies(configured, probes, tie) && IsNetworkRoot(probes, tie, root) && Ranked(top, configured, probes, rows, current)
    ensures StablySorted(rows, RowsFor(top, probes, root)) && current == CurrentScore(configured, probes, root)
  {
    var found :| IsNetworkRoot(probes, CurrentRoot(configured, probes), found)
      && StablySorted(rows, RowsFor(top, probes, found)) && current == CurrentScore(configured, probes, found);
    CurrentRootBreaksTies(configured, probes);
    TieBreakerIsUnique(configured, probes, tie, CurrentRoot(configured, probes));
    NetworkRootIsUnique(probes, tie, root, found);
  }

  /** The candidate switched to, and its score. */
  lemma SwitchedTo(top: seq<Candidate>, probes: map<string, Probe>, root: Option<Key>, rows: seq<Row>, current: Score) returns (i: nat, s: real)
    requires StablySorted(rows, RowsFor(top, probes, root)) && Decide(current, rows).Switch?
    ensures i < |top| && top[i].uri == Decide(current, rows).uri && Scores(top[i].uri, probes, root, s) && Beats(Finite(s), current)
    ensures forall j, t :: 0 <= j < |top| && Scores(top[j].uri, probes, root, t) ==> s <= t
  {
    DecidesExactly(current, rows);
    FirstBestIsFirstLeast(rows);
    var best := FirstBest(rows);
    i := SameRow(rows, RowsFor(top, probes, root), best);
    s := rows[best].score.ms;
    ScoreMeans(top[i].uri, probes, root, s);
    forall j, t | 0 <= j < |top| && Scores(top[j].uri, probes, root, t)
      ensures s <= t
    {
      ScoreMeans(top[j].uri, probes, root, t);
      var k := SameRow(RowsFor(top, probes, root), rows, j);
      assert AtMost(rows[best].score, rows[k].score);
    }
  }

  lemma SameRow(a: seq<Row>, b: seq<Row>, i: nat) returns (k: nat)
    requires multiset(a) == multiset(b) && i < |a|
    ensures k < |b| && b[k] == a[i]
  {
    assert a[i] in multiset(a);
    assert a[i] in b;
    k :| 0 <= k < |b| && b[k] == a[i];
  }

  // ---------------------------------------------------------------- the backup

  /** Same /24 for IPv4, same /48 for IPv6. */
  predicate SameNet(a: Address, b: Address) {
    match (a, b)
    case (V4(x), V4(y)) => x[..3] == y[..3]
    case (V6(x), V6(y)) => x[..3] == y[..3]
    case _ => false
  }

  predicate Qualifies(r: Row, main: string, mainIp: Address) {
    r.uri != main && r.score.Finite? && r.ip.Some? && !SameNet(r.ip.value, mainIp)
  }

  function PickBackup(rows: seq<Row>, main: string, mainIp: Option<Address>): Option<string> {
    if mainIp.None? || rows == [] then None
    else if Qualifies(rows[0], main, mainIp.value) then Some(rows[0].uri)
    else PickBackup(rows[1..], main, mainIp)
  }

  /** On ranked rows: a backup iff some row qualifies, and then one of least score among those that do. */
  lemma {:induction false} BackupIsBest(rows: seq<Row>, main: string, mainIp: Address)
    requires Sorted(rows)
    ensures PickBackup(rows, main, Some(mainIp)).None? <==> forall r :: r in rows ==> !Qualifies(r, main, mainIp)
    ensures PickBackup(rows, main, Some(mainIp)).Some? ==>
              exists i :: 0 <= i < |rows| && rows[i].uri == PickBackup(rows, main, Some(mainIp)).value && Qualifies(rows[i], main, mainIp)
                          && forall r :: r in rows && Qualifies(r, main, mainIp) ==> AtMost(rows[i].score, r.score)
  {
    if rows != [] {
      var rest := rows[1..];
      assert forall r :: r in rows <==> r == rows[0] || r in rest;
      BackupIsBest(rest, main, mainIp);
      if Qualifies(rows[0], main, mainIp) {
        assert forall r :: r in rows ==> AtMost(rows[0].score, r.score);
      } else if PickBackup(rest, main, Some(mainIp)).Some? {
        var i :| 0 <= i < |rest| && rest[i].uri == PickBackup(rest, main, Some(mainIp)).value && Qualifies(rest[i], main, mainIp)
                 && forall r :: r in rest && Qualifies(r, main, mainIp) ==> AtMost(rest[i].score, r.score);
        assert rows[i + 1] == rest[i];
      }
    }
  }

  /** In the same /24, or the same /48. */
  predicate InOneNet(a: Address, b: Address) {
    || (a.V4? && b.V4? && a.octets[0] == b.octets[0] && a.octets[1] == b.octets[1] && a.octets[2] == b.octets[2])
    || (a.V6? && b.V6? && a.segments[0] == b.segments[0] && a.segments[1] == b.segments[1] && a.segments[2] == b.segments[2])
  }

  lemma SameNetMeans(a: Address, b: Address)
    ensures SameNet(a, b) <==> InOneNet(a, b)
  {
    if a.V4? && b.V4? {
      assert a.octets[..3] == b.octets[..3] <==> a.octets[0] == b.octets[0] && a.octets[1] == b.octets[1] && a.octets[2] == b.octets[2];
    }
    if a.V6? && b.V6? {
      assert a.segments[..3] == b.segments[..3] <==> a.segments[0] == b.segments[0] && a.segments[1] == b.segments[1] && a.segments[2] == b.segments[2];
    }
  }

  /** A candidate that can back the main peer up: another one, on the root, with this score, at a known address in another net. */
  ghost predicate CanBackUp(c: Candidate, probes: map<string, Probe>, root: Option<Key>, main: string, mainIp: Address, s: real) {
    c.uri != main && Scores(c.uri, probes, root, s) && c.ip.Some? && !InOneNet(c.ip.value, mainIp)
  }

  /** A row qualifies as a backup iff its candidate can back up, and its score is the candidate's. */
  lemma RowQualifies(c: Candidate, probes: map<string, Probe>, root: Option<Key>, main: string, mainIp: Address)
    ensures var r := RowFor(c, probes, root);
            && r.uri == c.uri && r.ip == c.ip
            && (forall s :: CanBackUp(c, probes, root, main, mainIp, s) <==> Qualifies(r, main, mainIp) && r.score == Finite(s))
  {
    if c.ip.Some? {
      SameNetMeans(c.ip.value, mainIp);
    }
    forall s
      ensures Scores(c.uri, probes, root, s) <==> RowFor(c, probes, root).score == Finite(s)
    {
      ScoreMeans(c.uri, probes, root, s);
    }
  }

  /** A ranked row that qualifies is that of a candidate that can back up with its score. */
  lemma QualifiedCandidate(top: seq<Candidate>, probes: map<string, Probe>, root: Option<Key>, rows: seq<Row>, main: string, mainIp: Address, k: nat)
    returns (i: nat)
    requires multiset(rows) == multiset(RowsFor(top, probes, root)) && k < |rows| && Qualifies(rows[k], main, mainIp)
    ensures i < |top| && top[i].uri == rows[k].uri && rows[k].score.Finite? && CanBackUp(top[i], probes, root, main, mainIp, rows[k].score.ms)
  {
    i := SameRow(rows, RowsFor(top, probes, root), k);
    RowQualifies(top[i], probes, root, main, mainIp);
  }

  lemma CandidateQualifies(top: seq<Candidate>, probes: map<string, Probe>, root: Option<Key>, rows: seq<Row>, main: string, mainIp: Address, i: nat, s: real)
    returns (k: nat)
    requires multiset(rows) == multiset(RowsFor(top, probes, root)) && i < |top| && CanBackUp(top[i], probes, root, main, mainIp, s)
    ensures k < |rows| && Qualifies(rows[k], main, mainIp) && rows[k].score == Finite(s)
  {
    RowQualifies(top[i], probes, root, main, mainIp);
    k := SameRow(RowsFor(top, probes, root), rows, i);
  }

  /**
   * From candidates and probes to the backup: with the network's own root as
   * `rank` finds it, there is one iff the main peer's address is known and some
   * other candidate on that root, with a measured latency, has a known address
   * in another /24 or /48; and it is one of those with the least latency times
   * hops.
   */
  lemma BackupFromProbes(top: seq<Candidate>, configured: seq<string>, probes: map<string, Probe>, tie: Option<Key>, root: Option<Key>,
                         rows: seq<Row>, current: Score, main: string, mainIp: Option<Address>)
    requires BreaksTies(configured, probes, tie) && IsNetworkRoot(probes, tie, root) && Ranked(top, configured, probes, rows, current)
    ensures PickBackup(rows, main, mainIp).Some? <==>
            mainIp.Some? && exists i, s :: 0 <= i < |top| && CanBackUp(top[i], probes, root, main, mainIp.value, s)
    ensures PickBackup(rows, main, mainIp).Some? ==>
            exists i, s :: 0 <= i < |top| && top[i].uri == PickBackup(rows, main, mainIp).value && CanBackUp(top[i], probes, root, main, mainIp.value, s)
                           && forall j, t :: 0 <= j < |top| && CanBackUp(top[j], probes, root, main, mainIp.value, t) ==> s <= t
  {
    RankedOn(top, configured, probes, tie, root, rows, current);
    if mainIp.Some? {
      BackupIfAny(top, probes, root, rows, main, mainIp.value);
      if PickBackup(rows, main, mainIp).Some? {
        var i, s := BackupCandidate(top, probes, root, rows, main, mainIp.value);
      }
    }
  }

  lemma BackupIfAny(top: seq<Candidate>, probes: map<string, Probe>, root: Option<Key>, rows: seq<Row>, main: string, mainIp: Address)
    requires StablySorted(rows, RowsFor(top, probes, root))
    ensures (exists i, s :: 0 <= i < |top| && CanBackUp(top[i], probes, root, main, mainIp, s)) ==> PickBackup(rows, main, Some(mainIp)).Some?
  {
    BackupIsBest(rows, main, mainIp);
    forall j, t | 0 <= j < |top| && CanBackUp(top[j], probes, root, main, mainIp, t)
      ensures PickBackup(rows, main, Some(mainIp)).Some?
    {
      var k := CandidateQualifies(top, probes, root, rows, main, mainIp, j, t);
    }
  }

  /** The candidate picked, and its score. */
  lemma BackupCandidate(top: seq<Candidate>, probes: map<string, Probe>, root: Option<Key>, rows: seq<Row>, main: string, mainIp: Address)
    returns (i: nat, s: real)
    requires StablySorted(rows, RowsFor(top, probes, root)) && PickBackup(rows, main, Some(mainIp)).Some?
    ensures i < |top| && top[i].uri == PickBackup(rows, main, Some(mainIp)).value && CanBackUp(top[i], probes, root, main, mainIp, s)
    ensures forall j, t :: 0 <= j < |top| && CanBackUp(top[j], probes, root, main, mainIp, t) ==> s <= t
  {
    BackupIsBest(rows, main, mainIp);
    var k: nat :| k < |rows| && rows[k].uri == PickBackup(rows, main, Some(mainIp)).value && Qualifies(rows[k], main, mainIp)
             && forall r :: r in rows && Qualifies(r, main, mainIp) ==> AtMost(rows[k].score, r.score);
    i := QualifiedCandidate(top, probes, root, rows, main, mainIp, k);
    s := rows[k].score.ms;
    forall j, t | 0 <= j < |top| && CanBackUp(top[j], probes, root, main, mainIp, t)
      ensures s <= t
    {
      var l := CandidateQualifies(top, probes, root, rows, main, mainIp, j, t);
      assert rows[l] in rows;
    }
  }

  /** What the row of a candidate tells: nothing of it probed, no tree, another network, or its place in the tree. */
  ghost predicate Tells(r: Row, c: Candidate, probes: map<string, Probe>, root: Option<Key>) {
    && r.uri == c.uri && r.ip == c.ip
    && if c.uri !in probes then r.latencyMs == 0.0 && r.score == Infinite && r.depth == None && r.reason == None
       else
         var p := probes[c.uri];
         && r.latencyMs == p.coreMs && (r.score.Finite? ==> Scores(c.uri, probes, root, r.score.ms))
         && match p.tree
            case None => r.score == Infinite && r.depth == None && r.reason == Some(NoTree)
            case Some((own, depth)) =>
              r.depth == Some(depth) && r.reason == (if Some(own) == root then None else Some(OtherNetwork))
              && (r.score.Finite? <==> Some(own) == root && p.coreMs > 0.0)
  }

  lemma RowTells(c: Candidate, probes: map<string, Probe>, root: Option<Key>)
    ensures Tells(RowFor(c, probes, root), c, probes, root)
  {
  }

  /** Every ranked row tells of a candidate, and every candidate has one. */
  lemma RowsTell(top: seq<Candidate>, configured: seq<string>, probes: map<string, Probe>, tie: Option<Key>, root: Option<Key>,
                 rows: seq<Row>, current: Score)
    requires BreaksTies(configured, probes, tie) && IsNetworkRoot(probes, tie, root) && Ranked(top, configured, probes, rows, current)
    ensures |rows| == |top|
    ensures forall k :: 0 <= k < |rows| ==> exists i :: 0 <= i < |top| && Tells(rows[k], top[i], probes, root)
    ensures forall i :: 0 <= i < |top| ==> exists k :: 0 <= k < |rows| && Tells(rows[k], top[i], probes, root)
  {
    RankedOn(top, configured, probes, tie, root, rows, current);
    var all := RowsFor(top, probes, root);
    assert |multiset(rows)| == |multiset(all)|;
    forall k: nat | k < |rows|
      ensures exists i :: 0 <= i < |top| && Tells(rows[k], top[i], probes, root)
    {
      var i := SameRow(rows, all, k);
      RowTells(top[i], probes, root);
    }
    forall i: nat | i < |top|
      ensures exists k :: 0 <= k < |rows| && Tells(rows[k], top[i], probes, root)
    {
      var k := SameRow(all, rows, i);
      RowTells(top[i], probes, root);
    }
  }
}
