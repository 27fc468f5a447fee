// The peer picker of the mobile crate (picker.rs): ancestry, the root most links
// agree on, ranking, and the decision to switch.
module Picker {
  import opened Bytes
  import opened Wrappers

  // ---------------------------------------------------------------- ancestry

  /** The node reached from `key` by `n` parent links, if all are known. */
  function Follow(tree: map<Key, Key>, key: Key, n: nat): Option<Key> {
    if n == 0 then Some(key)
    else match Follow(tree, key, n - 1)
      case None => None
      case Some(k) => if k in tree then Some(tree[k]) else None
  }

  predicate IsRootOf(tree: map<Key, Key>, k: Key) {
    k in tree && tree[k] == k
  }

  /** `n` links lead to a node that is its own parent. */
  predicate Reaches(tree: map<Key, Key>, key: Key, root: Key, n: nat) {
    Follow(tree, key, n) == Some(root) && IsRootOf(tree, root)
  }

  /** An ancestor is missing. */
  ghost predicate HasGap(tree: map<Key, Key>, key: Key) {
    exists n :: Follow(tree, key, n).Some? && Follow(tree, key, n).value !in tree
  }

  /** The links come back to a node that is not its own parent. */
  ghost predicate HasLoop(tree: map<Key, Key>, key: Key) {
    exists m, n :: m < n && Follow(tree, key, m).Some? && Follow(tree, key, m) == Follow(tree, key, n)
                   && !IsRootOf(tree, Follow(tree, key, m).value)
  }

  /** The first `n` nodes on the way are known and none is a root. */
  ghost predicate Climbs(tree: map<Key, Key>, key: Key, n: nat) {
    forall i: nat :: i < n ==> Follow(tree, key, i).Some? && Follow(tree, key, i).value in tree && !IsRootOf(tree, Follow(tree, key, i).value)
  }

  /** `tree_info`: one step more than there are nodes means a loop. */
  method TreeInfo(tree: map<Key, Key>, key: Key) returns (r: Option<(Key, nat)>)
    ensures r.Some? ==> Reaches(tree, key, r.value.0, r.value.1) && Climbs(tree, key, r.value.1)
    ensures r.None? ==> forall root, n :: !Reaches(tree, key, root, n)
    ensures r.None? <==> HasGap(tree, key) || HasLoop(tree, key)
  {
    var next := key;
    for depth := 0 to |tree| + 1
      invariant Follow(tree, key, depth) == Some(next) && Climbs(tree, key, depth)
    {
      if next !in tree {
        GapMeansNoRoot(tree, key, depth);
        return None;
      }
      var parent := tree[next];
      if parent == next {
        RootMeansNoGapNorLoop(tree, key, next, depth);
        return Some((next, depth));
      }
      next := parent;
    }
    LongClimbIsLoop(tree, key);
    return None;
  }

  lemma {:induction false} FollowStays(tree: map<Key, Key>, key: Key, root: Key, n: nat, m: nat)
    requires Reaches(tree, key, root, n) && n <= m
    ensures Follow(tree, key, m) == Some(root)
    decreases m
  {
    if n < m {
      FollowStays(tree, key, root, n, m - 1);
    }
  }

  lemma {:induction false} FollowEnds(tree: map<Key, Key>, key: Key, n: nat, m: nat)
    requires Follow(tree, key, n).Some? && Follow(tree, key, n).value !in tree && n < m
    ensures Follow(tree, key, m).None?
    decreases m
  {
    if n < m - 1 {
      FollowEnds(tree, key, n, m - 1);
    }
  }

  lemma GapMeansNoRoot(tree: map<Key, Key>, key: Key, n: nat)
    requires Climbs(tree, key, n) && Follow(tree, key, n).Some? && Follow(tree, key, n).value !in tree
    ensures HasGap(tree, key) && forall root, m :: !Reaches(tree, key, root, m)
  {
    forall root, m: nat
      ensures !Reaches(tree, key, root, m)
    {
      if m > n {
        FollowEnds(tree, key, n, m);
      }
    }
  }

  lemma RootMeansNoGapNorLoop(tree: map<Key, Key>, key: Key, root: Key, n: nat)
    requires Reaches(tree, key, root, n) && Climbs(tree, key, n)
    ensures !HasGap(tree, key) && !HasLoop(tree, key)
  {
    forall m: nat | Follow(tree, key, m).Some? && Follow(tree, key, m).value !in tree
      ensures false
    {
      if m >= n {
        FollowStays(tree, key, root, n, m);
      }
    }
    forall i: nat, j: nat | i < j && Follow(tree, key, i).Some? && Follow(tree, key, i) == Follow(tree, key, j)
                  && !IsRootOf(tree, Follow(tree, key, i).value)
      ensures false
    {
      LoopMeansNoRoot(tree, key, i, j, n);
    }
  }

  /** A repeated node repeats everything after it. */
  lemma {:induction false} FollowRepeats(tree: map<Key, Key>, key: Key, i: nat, j: nat, n: nat)
    requires i < j && Follow(tree, key, i) == Follow(tree, key, j)
    ensures Follow(tree, key, i + n) == Follow(tree, key, j + n)
  {
    if n > 0 {
      FollowRepeats(tree, key, i, j, n - 1);
      assert i + n - 1 == i + (n - 1) && j + n - 1 == j + (n - 1);
    }
  }

  /** On a loop no number of links reaches a root. */
  lemma {:induction false} LoopMeansNoRoot(tree: map<Key, Key>, key: Key, i: nat, j: nat, n: nat)
    requires i < j && Follow(tree, key, i).Some? && Follow(tree, key, i) == Follow(tree, key, j)
    requires !IsRootOf(tree, Follow(tree, key, i).value)
    ensures forall root :: !Reaches(tree, key, root, n)
  {
    forall root | Reaches(tree, key, root, n)
      ensures false
    {
      if n <= i {
        FollowStays(tree, key, root, n, i);
      } else {
        // Going round the loop often enough passes n, and comes back to node i.
        Rounds(tree, key, i, j, n);
        FollowStays(tree, key, root, n, i + n * (j - i));
      }
    }
  }

  lemma {:induction false} Rounds(tree: map<Key, Key>, key: Key, i: nat, j: nat, n: nat)
    requires i < j && Follow(tree, key, i) == Follow(tree, key, j)
    ensures Follow(tree, key, i + n * (j - i)) == Follow(tree, key, i)
    ensures i + n * (j - i) >= n
  {
    if n > 0 {
      Rounds(tree, key, i, j, n - 1);
      FollowRepeats(tree, key, i, j, (n - 1) * (j - i));
      assert j + (n - 1) * (j - i) == i + n * (j - i);
    }
  }

  ghost function NodesOf(tree: map<Key, Key>, key: Key, n: nat): (s: seq<Key>)
    requires Climbs(tree, key, n)
    ensures |s| == n && forall i: nat :: i < n ==> s[i] == Follow(tree, key, i).value && s[i] in tree.Keys
  {
    seq(n, i requires 0 <= i < n => Follow(tree, key, i).value)
  }

  /** More items than the set they come from: two are equal. */
  lemma {:induction false} Pigeonhole(items: seq<Key>, from: set<Key>) returns (i: nat, j: nat)
    requires |items| > |from| && forall k :: 0 <= k < |items| ==> items[k] in from
    ensures i < j < |items| && items[i] == items[j]
    decreases |from|
  {
    var last := items[|items| - 1];
    if k :| 0 <= k < |items| - 1 && items[k] == last {
      i, j := k, |items| - 1;
    } else {
      i, j := Pigeonhole(items[..|items| - 1], from - {last});
    }
  }

  lemma LongClimbIsLoop(tree: map<Key, Key>, key: Key)
    requires Climbs(tree, key, |tree| + 1)
    ensures HasLoop(tree, key) && forall root, n :: !Reaches(tree, key, root, n)
  {
    var nodes := NodesOf(tree, key, |tree| + 1);
    assert |tree.Keys| == |tree|;
    var i, j := Pigeonhole(nodes, tree.Keys);
    assert Follow(tree, key, i).value == Follow(tree, key, j).value;
    forall root, n: nat
      ensures !Reaches(tree, key, root, n)
    {
      LoopMeansNoRoot(tree, key, i, j, n);
    }
  }

  /** Root and depth are determined: two answers for one key are the same. */
  lemma AncestryIsUnique(tree: map<Key, Key>, key: Key, a: Key, m: nat, b: Key, n: nat)
    requires Reaches(tree, key, a, m) && Climbs(tree, key, m)
    requires Reaches(tree, key, b, n)
    ensures a == b && m <= n
  {
    if n >= m {
      FollowStays(tree, key, a, m, n);
    }
  }

  // ---------------------------------------------------------------- the common root

  /** The order of keys as byte strings of one length. */
  function KeyOrder(k: Key): nat {
    FromBigEndian(k)
  }

  lemma KeyOrderIsInjective(a: Key, b: Key)
    requires KeyOrder(a) == KeyOrder(b)
    ensures a == b
  {
    BigEndianInverse(a);
    BigEndianInverse(b);
  }

  /** The order is that of byte strings: the first byte that differs decides. */
  lemma {:induction false} KeyOrderIsByteOrder(a: bytes, b: bytes, i: nat)
    requires |a| == |b| && i < |a| && a[..i] == b[..i] && a[i] < b[i]
    ensures FromBigEndian(a) < FromBigEndian(b)
  {
    var n := |a| - 1;
    if i == n {
      assert a[..n] == b[..n];
    } else {
      assert a[..n][..i] == b[..n][..i];
      KeyOrderIsByteOrder(a[..n], b[..n], i);
    }
  }

  /** `a` comes out ahead of `b`: more votes, then the current root, then the smaller key. */
  predicate Ahead(votes: multiset<Key>, current: Option<Key>, a: Key, b: Key) {
    || votes[a] > votes[b]
    || (votes[a] == votes[b] && current == Some(a) && current != Some(b))
    || (votes[a] == votes[b] && (current == Some(a) <==> current == Some(b)) && KeyOrder(a) < KeyOrder(b))
  }

  ghost predicate IsCommonRoot(votes: multiset<Key>, current: Option<Key>, r: Key) {
    r in votes && forall o :: o in votes && o != r ==> Ahead(votes, current, r, o)
  }

  /** The first byte in which they differ is smaller in `a`. */
  ghost predicate ComesBefore(a: Key, b: Key) {
    exists i: nat :: i < 32 && a[..i] == b[..i] && a[i] < b[i]
  }

  lemma {:induction false} FirstDifference(a: bytes, b: bytes, n: nat) returns (i: nat)
    requires |a| == |b| && n <= |a| && a[..n] == b[..n] && a != b
    ensures i < |a| && a[..i] == b[..i] && a[i] != b[i]
    decreases |a| - n
  {
    assert n < |a| by {
      assert a[..|a|] == a && b[..|b|] == b;
    }
    if a[n] != b[n] {
      i := n;
    } else {
      assert a[..n + 1] == a[..n] + [a[n]] && b[..n + 1] == b[..n] + [b[n]];
      i := FirstDifference(a, b, n + 1);
    }
  }

  lemma OrderMeans(a: Key, b: Key)
    ensures KeyOrder(a) < KeyOrder(b) <==> ComesBefore(a, b)
  {
    if a != b {
      var i := FirstDifference(a, b, 0);
      if a[i] < b[i] {
        KeyOrderIsByteOrder(a, b, i);
      } else {
        KeyOrderIsByteOrder(b, a, i);
      }
    }
    forall i: nat | i < 32 && a[..i] == b[..i] && a[i] < b[i]
      ensures KeyOrder(a) < KeyOrder(b)
    {
      KeyOrderIsByteOrder(a, b, i);
    }
  }

  /** No key has more votes; among those with as many it is the current root, or there is none such and it comes first. */
  ghost predicate WinsVote(votes: multiset<Key>, current: Option<Key>, r: Key) {
    && r in votes && (forall o :: o in votes ==> votes[o] <= votes[r])
    && forall o :: o in votes && o != r && votes[o] == votes[r] && current != Some(r) ==> current != Some(o) && ComesBefore(r, o)
  }

  /** The common root is the winner of the vote. */
  lemma CommonRootWins(votes: multiset<Key>, current: Option<Key>, r: Key)
    requires IsCommonRoot(votes, current, r)
    ensures WinsVote(votes, current, r)
  {
    forall o | o in votes && o != r
      ensures votes[o] <= votes[r] && (votes[o] == votes[r] && current != Some(r) ==> current != Some(o) && ComesBefore(r, o))
    {
      assert Ahead(votes, current, r, o);
      OrderMeans(r, o);
    }
  }

  lemma AheadIsTotal(votes: multiset<Key>, current: Option<Key>, a: Key, b: Key)
    requires a != b
    ensures Ahead(votes, current, a, b) <==> !Ahead(votes, current, b, a)
  {
    if KeyOrder(a) == KeyOrder(b) {
      KeyOrderIsInjective(a, b);
    }
  }

  lemma AheadIsTransitive(votes: multiset<Key>, current: Option<Key>, a: Key, b: Key, c: Key)
    requires Ahead(votes, current, a, b) && Ahead(votes, current, b, c)
    ensures Ahead(votes, current, a, c)
  {
  }

  /** The votes alone decide: in whatever order the counts are visited the winner is the same. */
  lemma CommonRootIsUnique(votes: multiset<Key>, current: Option<Key>, a: Key, b: Key)
    requires IsCommonRoot(votes, current, a) && IsCommonRoot(votes, current, b)
    ensures a == b
  {
    if a != b {
      AheadIsTotal(votes, current, a, b);
    }
  }

  /** `network_root`: count, then the maximum over the counts in arbitrary order. */
  method NetworkRoot(roots: seq<Key>, current: Option<Key>) returns (r: Option<Key>)
    ensures r.None? <==> roots == []
    ensures r.Some? ==> IsCommonRoot(multiset(roots), current, r.value) && WinsVote(multiset(roots), current, r.value)
  {
    var counts: map<Key, nat> := map[];
    for i := 0 to |roots|
      invariant forall k :: k in counts <==> k in multiset(roots[..i])
      invariant forall k :: k in counts ==> counts[k] == multiset(roots[..i])[k]
    {
      assert roots[..i + 1] == roots[..i] + [roots[i]];
      counts := counts[roots[i] := (if roots[i] in counts then counts[roots[i]] else 0) + 1];
    }
    assert roots[..|roots|] == roots;
    r := BestOf(counts, current, multiset(roots));
    if r.Some? {
      CommonRootWins(multiset(roots), current, r.value);
    }
  }

  method BestOf(counts: map<Key, nat>, current: Option<Key>, ghost votes: multiset<Key>) returns (r: Option<Key>)
    requires forall k :: k in counts <==> k in votes
    requires forall k :: k in counts ==> counts[k] == votes[k]
    ensures r.None? <==> counts == map[]
    ensures r.Some? ==> IsCommonRoot(votes, current, r.value)
  {
    r := None;
    var rest := counts.Keys;
    while rest != {}
      invariant rest <= counts.Keys
      invariant r.None? <==> rest == counts.Keys
      invariant r.Some? ==> r.value in counts.Keys - rest
      invariant r.Some? ==> forall o :: o in counts.Keys - rest && o != r.value ==> Ahead(votes, current, r.value, o)
      decreases rest
    {
      var k :| k in rest;
      rest := rest - {k};
      if r.None? {
        r := Some(k);
      } else {
        var best := r.value;
        AheadIsTotal(votes, current, k, best);
        var wins := counts[k] > counts[best]
                    || (counts[k] == counts[best] && current == Some(k) && current != Some(best))
                    || (counts[k] == counts[best] && (current == Some(k) <==> current == Some(best)) && KeyOrder(k) < KeyOrder(best));
        if wins {
          forall o | o in counts.Keys - rest && o != k && o != best
            ensures Ahead(votes, current, k, o)
          {
            AheadIsTransitive(votes, current, k, best, o);
          }
          r := Some(k);
        }
      }
    }
  }
}
