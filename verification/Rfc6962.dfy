/** The recursive tree and audit path of section 2.1 of RFC 6962, and their agreement with the levels. */
module Rfc6962 {
  import opened LevelTree
  import opened Bytes

  /** The largest power of two smaller than n, found by doubling k. */
  function SplitFrom(k: nat, n: nat): (split: nat)
    requires 1 <= k < n
    ensures k <= split < n <= 2 * split
    decreases n - k
  {
    if 2 * k < n then SplitFrom(2 * k, n) else k
  }

  function Split(n: nat): (k: nat)
    requires n >= 2
    ensures 1 <= k < n <= 2 * k
  {
    SplitFrom(1, n)
  }

  ghost predicate PowerOfTwo(k: nat) {
    exists e: nat :: Pow2(e) == k
  }

  lemma {:induction false} SplitFromPower(k: nat, n: nat)
    requires 1 <= k < n && PowerOfTwo(k)
    ensures PowerOfTwo(SplitFrom(k, n))
    decreases n - k
  {
    if 2 * k < n {
      var e: nat :| Pow2(e) == k;
      assert Pow2(e + 1) == 2 * k;
      SplitFromPower(2 * k, n);
    }
  }

  /** Split is the k of RFC 6962: a power of two with k < n <= 2k. */
  lemma SplitMeaning(n: nat)
    requires n >= 2
    ensures PowerOfTwo(Split(n)) && Split(n) < n <= 2 * Split(n)
  {
    assert Pow2(0) == 1;
    SplitFromPower(1, n);
  }

  lemma {:induction false} SplitFromDoubles(k: nat, n: nat)
    requires 1 <= k && 2 * k < n
    ensures SplitFrom(2 * k, n) == 2 * SplitFrom(k, (n + 1) / 2)
    decreases n - k
  {
    if 4 * k < n {
      SplitFromDoubles(2 * k, n);
    }
  }

  /** Halving a level halves its split. */
  lemma SplitOfHalf(n: nat, k: nat)
    requires n >= 3 && k == Split(n)
    ensures k % 2 == 0 && (n + 1) / 2 >= 2 && Split((n + 1) / 2) == k / 2
  {
    SplitFromDoubles(1, n);
  }

  /** MTH over given leaf hashes. */
  function TreeHash<T>(join: Join<T>, leaves: seq<T>): T
    requires leaves != []
    decreases |leaves|
  {
    if |leaves| == 1 then leaves[0]
    else
      var k := Split(|leaves|);
      join(TreeHash(join, leaves[..k]), TreeHash(join, leaves[k..]))
  }

  /** PATH(m, D[n]), each node marked with the side it stands on. */
  function AuditPath<T>(join: Join<T>, m: nat, leaves: seq<T>): seq<Step<T>>
    requires m < |leaves|
    decreases |leaves|
  {
    if |leaves| == 1 then []
    else
      var k := Split(|leaves|);
      if m < k then AuditPath(join, m, leaves[..k]) + [Step(TreeHash(join, leaves[k..]), Right)]
      else AuditPath(join, m - k, leaves[k..]) + [Step(TreeHash(join, leaves[..k]), Left)]
  }

  // One level of the iterative tree is one level of the recursive one.

  lemma {:induction false} NextLevelSplits<T>(join: Join<T>, level: seq<T>, j: nat)
    requires 2 * j <= |level|
    ensures NextLevel(join, level) == NextLevel(join, level[..2 * j]) + NextLevel(join, level[2 * j..])
    decreases j
  {
    if j == 0 {
      assert level[2 * j..] == level;
    } else {
      var rest := level[2..];
      NextLevelSplits(join, rest, j - 1);
      assert level[..2 * j][2..] == rest[..2 * (j - 1)];
      assert level[2 * j..] == rest[2 * (j - 1)..];
    }
  }

  /** For three or more nodes, the split of the next level lies over the split of this one. */
  lemma SplitOfNextLevel<T>(join: Join<T>, level: seq<T>, k: nat, next: seq<T>)
    requires |level| >= 3 && k == Split(|level|) && next == NextLevel(join, level)
    ensures k % 2 == 0 && |next| >= 2 && Split(|next|) == k / 2
    ensures next[..k / 2] == NextLevel(join, level[..k])
    ensures next[k / 2..] == NextLevel(join, level[k..])
  {
    hide *;
    SplitOfHalf(|level|, k);
    var j := k / 2;
    assert k == 2 * j;
    NextLevelSplits(join, level, j);
    assert |NextLevel(join, level[..k])| == j;
  }

  lemma {:induction false} TreeHashOfNextLevel<T>(join: Join<T>, level: seq<T>)
    requires level != []
    ensures TreeHash(join, NextLevel(join, level)) == TreeHash(join, level)
    decreases |level|
  {
    if |level| >= 3 {
      var k := Split(|level|);
      SplitOfNextLevel(join, level, k, NextLevel(join, level));
      TreeHashOfNextLevel(join, level[..k]);
      TreeHashOfNextLevel(join, level[k..]);
    }
  }

  /** The level-by-level root with odd promotion is RFC 6962's tree hash. */
  lemma {:induction false} RootIsTreeHash<T>(join: Join<T>, level: seq<T>)
    requires level != []
    ensures Root(join, level) == TreeHash(join, level)
    decreases |level|
  {
    if |level| > 1 {
      RootIsTreeHash(join, NextLevel(join, level));
      TreeHashOfNextLevel(join, level);
    }
  }

  lemma LevelStepSplits<T>(level: seq<T>, m: nat, k: nat)
    requires m < |level| && 0 < k < |level| && k % 2 == 0
    ensures LevelStep(level, m) == if m < k then LevelStep(level[..k], m) else LevelStep(level[k..], m - k)
  {
  }

  lemma UnfoldAuditPath<T>(join: Join<T>, m: nat, leaves: seq<T>, k: nat)
    requires m < |leaves| && |leaves| > 1 && k == Split(|leaves|)
    ensures AuditPath(join, m, leaves) ==
            if m < k then AuditPath(join, m, leaves[..k]) + [Step(TreeHash(join, leaves[k..]), Right)]
            else AuditPath(join, m - k, leaves[k..]) + [Step(TreeHash(join, leaves[..k]), Left)]
  {
  }

  lemma AuditPathOfFew<T>(join: Join<T>, m: nat, level: seq<T>)
    requires m < |level| <= 2
    ensures AuditPath(join, m, level) == LevelStep(level, m) + AuditPath(join, m / 2, NextLevel(join, level))
  {
  }

  /** The first step comes from the lowest level and the rest from the level above. */
  lemma {:induction false} AuditPathOfNextLevel<T>(join: Join<T>, m: nat, level: seq<T>)
    requires m < |level|
    ensures AuditPath(join, m, level) == LevelStep(level, m) + AuditPath(join, m / 2, NextLevel(join, level))
    decreases |level|
  {
    hide *;
    if |level| <= 2 {
      AuditPathOfFew(join, m, level);
    } else {
      var k, next := Split(|level|), NextLevel(join, level);
      SplitOfNextLevel(join, level, k, next);
      LevelStepSplits(level, m, k);
      UnfoldAuditPath(join, m, level, k);
      UnfoldAuditPath(join, m / 2, next, k / 2);
      TreeHashOfNextLevel(join, level[..k]);
      TreeHashOfNextLevel(join, level[k..]);
      if m < k {
        AuditPathOfNextLevel(join, m, level[..k]);
      } else {
        AuditPathOfNextLevel(join, m - k, level[k..]);
        assert (m - k) / 2 == m / 2 - k / 2;
      }
    }
  }

  /** The sparse proof is RFC 6962's audit path. */
  lemma {:induction false} ProofIsAuditPath<T>(join: Join<T>, level: seq<T>, m: nat)
    requires m < |level|
    ensures Proof(join, level, m) == AuditPath(join, m, level)
    decreases |level|
  {
    if |level| > 1 {
      AuditPathOfNextLevel(join, m, level);
      ProofIsAuditPath(join, NextLevel(join, level), m / 2);
    }
  }

  // The pairs that get joined are the same in both forms.

  ghost function LevelPairs<T>(level: seq<T>): set<(T, T)>
    decreases |level|
  {
    if |level| < 2 then {} else {(level[0], level[1])} + LevelPairs(level[2..])
  }

  /** Every pair that the level-by-level form joins. */
  ghost function JoinedPairs<T>(join: Join<T>, level: seq<T>): set<(T, T)>
    decreases |level|
  {
    if |level| < 2 then {} else LevelPairs(level) + JoinedPairs(join, NextLevel(join, level))
  }

  /** Every pair that the recursive form joins. */
  ghost function TreePairs<T>(join: Join<T>, leaves: seq<T>): set<(T, T)>
    decreases |leaves|
  {
    if |leaves| < 2 then {}
    else
      var k := Split(|leaves|);
      {(TreeHash(join, leaves[..k]), TreeHash(join, leaves[k..]))}
        + TreePairs(join, leaves[..k]) + TreePairs(join, leaves[k..])
  }

  lemma {:induction false} LevelPairsSplit<T>(level: seq<T>, j: nat)
    requires 2 * j <= |level|
    ensures LevelPairs(level) == LevelPairs(level[..2 * j]) + LevelPairs(level[2 * j..])
    decreases j
  {
    if j == 0 {
      assert level[2 * j..] == level;
    } else {
      var rest := level[2..];
      LevelPairsSplit(rest, j - 1);
      assert level[..2 * j][2..] == rest[..2 * (j - 1)];
      assert level[2 * j..] == rest[2 * (j - 1)..];
    }
  }

  lemma UnfoldTreePairs<T>(join: Join<T>, leaves: seq<T>, k: nat)
    requires |leaves| >= 2 && k == Split(|leaves|)
    ensures TreePairs(join, leaves) == {(TreeHash(join, leaves[..k]), TreeHash(join, leaves[k..]))}
                                       + TreePairs(join, leaves[..k]) + TreePairs(join, leaves[k..])
  {
  }

  lemma TreePairsOfFew<T>(join: Join<T>, level: seq<T>)
    requires |level| <= 2
    ensures TreePairs(join, level) == LevelPairs(level) + TreePairs(join, NextLevel(join, level))
  {
  }

  lemma {:induction false} TreePairsOfNextLevel<T>(join: Join<T>, level: seq<T>)
    requires level != []
    ensures TreePairs(join, level) == LevelPairs(level) + TreePairs(join, NextLevel(join, level))
    decreases |level|
  {
    hide *;
    if |level| <= 2 {
      TreePairsOfFew(join, level);
    } else {
      var k, next := Split(|level|), NextLevel(join, level);
      SplitOfNextLevel(join, level, k, next);
      LevelPairsSplit(level, k / 2);
      assert 2 * (k / 2) == k;
      UnfoldTreePairs(join, level, k);
      UnfoldTreePairs(join, next, k / 2);
      TreeHashOfNextLevel(join, level[..k]);
      TreeHashOfNextLevel(join, level[k..]);
      TreePairsOfNextLevel(join, level[..k]);
      TreePairsOfNextLevel(join, level[k..]);
    }
  }

  lemma {:induction false} JoinedPairsAreTreePairs<T>(join: Join<T>, level: seq<T>)
    requires level != []
    ensures JoinedPairs(join, level) == TreePairs(join, level)
    decreases |level|
  {
    if |level| > 1 {
      TreePairsOfNextLevel(join, level);
      JoinedPairsAreTreePairs(join, NextLevel(join, level));
    }
  }
}
