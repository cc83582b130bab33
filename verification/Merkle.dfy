/** The Merkle tree over sorted leaf hashes: levels with odd-node promotion, sparse proofs. */
module Merkle {
  import opened Bytes
  import ByteOrder
  import Lexicographic
  import Sorting
  import opened LevelTree
  import Rfc6962

  datatype MerkleError = EmptyLeafSet | LeafNotDigest(length: nat) | DuplicateLeaf | TargetNotDigest | TargetNotInLeafSet | ChildNotDigest

  type ProofStep = Step<Bytes>

  type Level = s: seq<Digest> | s != [] witness [ZERO_DIGEST]

  function NodeInput(left: Digest, right: Digest): Bytes {
    [0x01] + left + right
  }

  function NodeHash(h: HashFn, left: Digest, right: Digest): Digest {
    h(NodeInput(left, right))
  }

  function JoinBy(h: HashFn): Join<Digest> {
    (left: Digest, right: Digest) => NodeHash(h, left, right)
  }

  /** The node's input is assembled in a 65-byte buffer. */
  method HashInternalNode(h: HashFn, left: Bytes, right: Bytes) returns (r: Result<Digest, MerkleError>)
    ensures r == if |left| == 32 == |right| then Ok(NodeHash(h, left, right)) else Err(ChildNotDigest)
  {
    if |left| != 32 || |right| != 32 {
      return Err(ChildNotDigest);
    }
    var buf := new byte[65];
    buf[0] := 0x01;
    forall i | 0 <= i < 32 {
      buf[1 + i] := left[i];
    }
    forall i | 0 <= i < 32 {
      buf[33 + i] := right[i];
    }
    assert buf[..] == NodeInput(left, right);
    r := Ok(h(buf[..]));
  }

  // Sorting and checking the leaves.

  function FirstNonDigest(s: seq<Bytes>): Option<nat> {
    if s == [] then None
    else if |s[0]| != 32 then Some(|s[0]|)
    else FirstNonDigest(s[1..])
  }

  predicate HasAdjacentPair(s: seq<Bytes>) {
    exists i :: 1 <= i < |s| && s[i - 1] == s[i]
  }

  function SortedLeaves(leafHashes: seq<Bytes>): Result<Level, MerkleError> {
    if leafHashes == [] then Err(EmptyLeafSet)
    else if FirstNonDigest(leafHashes).Some? then Err(LeafNotDigest(FirstNonDigest(leafHashes).value))
    else
      var sorted := Sorting.Sort(ByteOrder.Less, leafHashes);
      if HasAdjacentPair(sorted) then Err(DuplicateLeaf)
      else
        SortedDigests(leafHashes);
        Ok(sorted)
  }

  lemma {:induction false} AllDigests(s: seq<Bytes>)
    ensures FirstNonDigest(s).None? <==> forall b :: b in s ==> |b| == 32
  {
    if s != [] {
      AllDigests(s[1..]);
      assert s == [s[0]] + s[1..];
    }
  }

  lemma SortedDigests(s: seq<Bytes>)
    requires FirstNonDigest(s).None?
    ensures |Sorting.Sort(ByteOrder.Less, s)| == |s|
    ensures forall b :: b in Sorting.Sort(ByteOrder.Less, s) ==> |b| == 32
  {
    AllDigests(s);
    Sorting.SortKeeps(ByteOrder.Less, s);
    Sorting.SameElements(s, Sorting.Sort(ByteOrder.Less, s));
  }

  method FindNonDigest(leafHashes: seq<Bytes>) returns (r: Option<nat>)
    ensures r == FirstNonDigest(leafHashes)
  {
    var i := 0;
    while i < |leafHashes|
      invariant 0 <= i <= |leafHashes|
      invariant FirstNonDigest(leafHashes) == FirstNonDigest(leafHashes[i..])
    {
      if |leafHashes[i]| != 32 {
        return Some(|leafHashes[i]|);
      }
      assert leafHashes[i..][1..] == leafHashes[i + 1..];
      i := i + 1;
    }
    r := None;
  }

  method FindAdjacentPair(sorted: seq<Bytes>) returns (found: bool)
    ensures found == HasAdjacentPair(sorted)
  {
    var i := 1;
    while i < |sorted|
      invariant forall k :: 1 <= k < i && k < |sorted| ==> sorted[k - 1] != sorted[k]
    {
      var order := ByteOrder.Compare(sorted[i - 1], sorted[i]);
      if order == 0 {
        return true;
      }
      i := i + 1;
    }
    found := false;
  }

  method ValidateAndSort(leafHashes: seq<Bytes>) returns (r: Result<Level, MerkleError>)
    ensures r == SortedLeaves(leafHashes)
  {
    if |leafHashes| == 0 {
      return Err(EmptyLeafSet);
    }
    var bad := FindNonDigest(leafHashes);
    if bad.Some? {
      return Err(LeafNotDigest(bad.value));
    }
    var sorted := Sorting.Sort(ByteOrder.Less, leafHashes);
    var duplicate := FindAdjacentPair(sorted);
    if duplicate {
      return Err(DuplicateLeaf);
    }
    SortedDigests(leafHashes);
    r := Ok(sorted);
  }

  /** Exactly when the leaves are accepted, and what comes back. */
  lemma SortedLeavesMeaning(leafHashes: seq<Bytes>)
    ensures SortedLeaves(leafHashes).Ok? <==>
            leafHashes != [] && (forall b :: b in leafHashes ==> |b| == 32) && Sorting.Distinct(leafHashes)
    ensures SortedLeaves(leafHashes).Ok? ==>
            var s: seq<Bytes> := SortedLeaves(leafHashes).value;
            Sorting.Ascending(ByteOrder.Less, s) && multiset(s) == multiset(leafHashes)
  {
    if leafHashes != [] && FirstNonDigest(leafHashes).None? {
      var s := Sorting.Sort(ByteOrder.Less, leafHashes);
      ByteOrder.IsStrictOrder();
      Sorting.SortSorts(ByteOrder.Less, leafHashes);
      Sorting.SortKeeps(ByteOrder.Less, leafHashes);
      Sorting.DistinctByCount(leafHashes, s);
      if !HasAdjacentPair(s) {
        forall i | 1 <= i < |s| ensures ByteOrder.Less(s[i - 1], s[i]) {
          assert s[i - 1] != s[i] && !ByteOrder.Less(s[i], s[i - 1]);
          Lexicographic.Connected(s[i - 1], s[i]);
        }
        Sorting.AdjacentAscending(ByteOrder.Less, s);
        Sorting.AscendingIsSorted(ByteOrder.Less, s);
      }
    }
    AllDigests(leafHashes);
  }

  // Levels and the root.

  method BuildNextLevel(h: HashFn, level: seq<Digest>) returns (next: seq<Digest>)
    ensures next == NextLevel(JoinBy(h), level)
  {
    hide NextLevel;
    next := [];
    var i: nat := 0;
    while 2 * i < |level|
      invariant 2 * i <= |level| + 1
      invariant |next| == i
      invariant forall k :: 0 <= k < i ==> next[k] == NextLevel(JoinBy(h), level)[k]
    {
      NextLevelAt(JoinBy(h), level, i);
      if 2 * i + 1 < |level| {
        var node := HashInternalNode(h, level[2 * i], level[2 * i + 1]);
        next := next + [node.value];
      } else {
        next := next + [level[2 * i]];
      }
      i := i + 1;
    }
  }

  function MerkleRoot(h: HashFn, leafHashes: seq<Bytes>): Result<Digest, MerkleError> {
    match SortedLeaves(leafHashes)
    case Err(e) => Err(e)
    case Ok(level) => Ok(Root(JoinBy(h), level))
  }

  method ComputeMerkleRoot(h: HashFn, leafHashes: seq<Bytes>) returns (r: Result<Digest, MerkleError>)
    ensures r == MerkleRoot(h, leafHashes)
  {
    var sorted := ValidateAndSort(leafHashes);
    if sorted.Err? {
      return Err(sorted.error);
    }
    hide NextLevel;
    var level: seq<Digest> := sorted.value;
    while |level| > 1
      invariant level != [] && Root(JoinBy(h), level) == Root(JoinBy(h), sorted.value)
      decreases |level|
    {
      level := BuildNextLevel(h, level);
    }
    r := Ok(level[0]);
  }

  // Proofs.

  function IndexOf(s: seq<Bytes>, target: Bytes): Option<nat> {
    if s == [] then None
    else if s[0] == target then Some(0)
    else match IndexOf(s[1..], target) case None => None case Some(i) => Some(i + 1)
  }

  lemma {:induction false} IndexOfMeaning(s: seq<Bytes>, target: Bytes)
    ensures IndexOf(s, target).Some? <==> target in s
    ensures IndexOf(s, target).Some? ==> IndexOf(s, target).value < |s| && s[IndexOf(s, target).value] == target
  {
    if s != [] {
      IndexOfMeaning(s[1..], target);
      assert s == [s[0]] + s[1..];
    }
  }

  function MerkleProof(h: HashFn, leafHashes: seq<Bytes>, target: Bytes): Result<seq<Step<Digest>>, MerkleError> {
    if |target| != 32 then Err(TargetNotDigest)
    else
      match SortedLeaves(leafHashes)
      case Err(e) => Err(e)
      case Ok(level) =>
        IndexOfMeaning(level, target);
        match IndexOf(level, target)
        case None => Err(TargetNotInLeafSet)
        case Some(idx) => Ok(Proof(JoinBy(h), level, idx))
  }

  method BuildMerkleProof(h: HashFn, leafHashes: seq<Bytes>, target: Bytes)
    returns (r: Result<seq<Step<Digest>>, MerkleError>)
    ensures r == MerkleProof(h, leafHashes, target)
  {
    if |target| != 32 {
      return Err(TargetNotDigest);
    }
    var sorted := ValidateAndSort(leafHashes);
    if sorted.Err? {
      return Err(sorted.error);
    }
    IndexOfMeaning(sorted.value, target);
    var found := IndexOf(sorted.value, target);
    if found.None? {
      return Err(TargetNotInLeafSet);
    }
    var proof := CollectSiblings(h, sorted.value, found.value);
    r := Ok(proof);
  }

  lemma NextSiblings(h: HashFn, level: seq<Digest>, idx: nat, before: seq<Step<Digest>>)
    requires idx < |level| && |level| > 1
    ensures (before + LevelStep(level, idx)) + Proof(JoinBy(h), NextLevel(JoinBy(h), level), idx / 2) ==
            before + Proof(JoinBy(h), level, idx)
  {
    hide NextLevel, LevelStep;
  }

  method CollectSiblings(h: HashFn, leaves: seq<Digest>, start: nat) returns (proof: seq<Step<Digest>>)
    requires start < |leaves|
    ensures proof == Proof(JoinBy(h), leaves, start)
  {
    hide NextLevel, Proof;
    var level, idx: nat := leaves, start;
    proof := [];
    while |level| > 1
      invariant idx < |level|
      invariant proof + Proof(JoinBy(h), level, idx) == Proof(JoinBy(h), leaves, start)
      decreases |level|
    {
      ghost var before := proof;
      NextSiblings(h, level, idx, before);
      var promoted := idx == |level| - 1 && |level| % 2 == 1;
      if !promoted {
        if idx % 2 == 0 {
          proof := proof + [Step(level[idx + 1], Right)];
        } else {
          proof := proof + [Step(level[idx - 1], Left)];
        }
      }
      assert proof == before + LevelStep(level, idx);
      level := BuildNextLevel(h, level);
      idx := idx / 2;
    }
    LastSiblings(h, level, idx);
  }

  lemma LastSiblings(h: HashFn, level: seq<Digest>, idx: nat)
    requires idx < |level| <= 1
    ensures Proof(JoinBy(h), level, idx) == []
  {
  }

  predicate WellFormed(step: ProofStep) {
    |step.sibling| == 32 && step.position != OtherPosition
  }

  /** The digest a proof leads to, if every step of it is well formed. */
  function Walk(h: HashFn, current: Digest, proof: seq<ProofStep>): Option<Digest>
    decreases |proof|
  {
    if proof == [] then Some(current)
    else if !WellFormed(proof[0]) then None
    else Walk(h, Apply<Digest>(JoinBy(h), current, proof[0]), proof[1..])
  }

  predicate Verifies(h: HashFn, leafHash: Bytes, proof: seq<ProofStep>, expectedRoot: Bytes) {
    |leafHash| == 32 && |expectedRoot| == 32 && Walk(h, leafHash, proof) == Some(expectedRoot)
  }

  method VerifyMerkleProof(h: HashFn, leafHash: Bytes, proof: seq<ProofStep>, expectedRoot: Bytes) returns (ok: bool)
    ensures ok == Verifies(h, leafHash, proof, expectedRoot)
  {
    if |leafHash| != 32 || |expectedRoot| != 32 {
      return false;
    }
    var current: Digest := leafHash;
    var i := 0;
    while i < |proof|
      invariant 0 <= i <= |proof|
      invariant Walk(h, leafHash, proof) == Walk(h, current, proof[i..])
    {
      var step := proof[i];
      assert proof[i..][0] == step && proof[i..][1..] == proof[i + 1..];
      if |step.sibling| != 32 {
        return false;
      }
      if step.position != Left && step.position != Right {
        return false;
      }
      var node;
      if step.position == Left {
        node := HashInternalNode(h, step.sibling, current);
      } else {
        node := HashInternalNode(h, current, step.sibling);
      }
      current := node.value;
      i := i + 1;
    }
    var order := ByteOrder.Compare(current, expectedRoot);
    ok := order == 0;
  }

  /** On well-formed steps, walking is climbing. */
  lemma {:induction false} WalkIsClimb(h: HashFn, current: Digest, proof: seq<Step<Digest>>)
    requires forall step :: step in proof ==> step.position != OtherPosition
    ensures Walk(h, current, proof) == Some(Climb(JoinBy(h), current, proof))
    decreases |proof|
  {
    if proof != [] {
      assert proof[0] in proof && forall step :: step in proof[1..] ==> step in proof;
      WalkIsClimb(h, Apply(JoinBy(h), current, proof[0]), proof[1..]);
    }
  }

  /** Every member of every set of distinct leaf hashes has a proof that verifies. */
  lemma ProofsComplete(h: HashFn, leafHashes: seq<Bytes>, target: Bytes)
    requires forall b :: b in leafHashes ==> |b| == 32
    requires Sorting.Distinct(leafHashes) && target in leafHashes
    ensures MerkleRoot(h, leafHashes).Ok?
    ensures MerkleProof(h, leafHashes, target).Ok?
    ensures Verifies(h, target, MerkleProof(h, leafHashes, target).value, MerkleRoot(h, leafHashes).value)
  {
    SortedLeavesMeaning(leafHashes);
    hide SortedLeaves, NextLevel, Root, Proof, Walk;
    var level: Level := SortedLeaves(leafHashes).value;
    var asBytes: seq<Bytes> := level;
    Sorting.SameElements(asBytes, leafHashes);
    IndexOfMeaning(level, target);
    var idx := IndexOf(level, target).value;
    ProofReachesRoot(JoinBy(h), level, idx);
    WalkIsClimb(h, target, Proof(JoinBy(h), level, idx));
  }

  /** A proof is built only for a member of an accepted set. */
  lemma ProofsOnlyForMembers(h: HashFn, leafHashes: seq<Bytes>, target: Bytes)
    ensures MerkleProof(h, leafHashes, target).Ok? <==> SortedLeaves(leafHashes).Ok? && target in leafHashes
  {
    if SortedLeaves(leafHashes).Ok? {
      SortedLeavesMeaning(leafHashes);
      hide SortedLeaves, Proof;
      var level: seq<Bytes> := SortedLeaves(leafHashes).value;
      Sorting.SameElements(level, leafHashes);
      IndexOfMeaning(level, target);
    }
  }

  lemma SortedLeavesPermuted(s: seq<Bytes>, t: seq<Bytes>)
    requires multiset(s) == multiset(t)
    ensures SortedLeaves(s).Ok? <==> SortedLeaves(t).Ok?
    ensures SortedLeaves(s).Ok? ==> SortedLeaves(s) == SortedLeaves(t)
  {
    AllDigests(s);
    AllDigests(t);
    Sorting.SameElements(s, t);
    ByteOrder.IsStrictOrder();
    ByteOrder.NeverTies(s);
    Sorting.SortPermuted(ByteOrder.Less, s, t);
  }

  /** The order in which leaves arrive matters neither to the root nor to any proof. */
  lemma OrderIrrelevant(h: HashFn, s: seq<Bytes>, t: seq<Bytes>, target: Bytes)
    requires multiset(s) == multiset(t)
    ensures MerkleRoot(h, s).Ok? <==> MerkleRoot(h, t).Ok?
    ensures MerkleRoot(h, s).Ok? ==> MerkleRoot(h, s) == MerkleRoot(h, t)
    ensures MerkleProof(h, s, target).Ok? ==> MerkleProof(h, s, target) == MerkleProof(h, t, target)
  {
    hide SortedLeaves, Root, IndexOf, Proof;
    SortedLeavesPermuted(s, t);
  }

  /** Roots and proofs are those of RFC 6962 over the sorted leaf hashes. */
  lemma AgreesWithRfc6962(h: HashFn, leafHashes: seq<Bytes>, target: Bytes) returns (m: nat)
    requires SortedLeaves(leafHashes).Ok? && target in leafHashes
    ensures var level := SortedLeaves(leafHashes).value;
            && m < |level| && level[m] == target
            && MerkleRoot(h, leafHashes) == Ok(Rfc6962.TreeHash(JoinBy(h), level))
            && MerkleProof(h, leafHashes, target) == Ok(Rfc6962.AuditPath(JoinBy(h), m, level))
  {
    SortedLeavesMeaning(leafHashes);
    hide SortedLeaves, Root, Proof, Rfc6962.TreeHash, Rfc6962.AuditPath;
    var level: Level := SortedLeaves(leafHashes).value;
    var asBytes: seq<Bytes> := level;
    Sorting.SameElements(asBytes, leafHashes);
    IndexOfMeaning(level, target);
    m := IndexOf(level, target).value;
    Rfc6962.RootIsTreeHash(JoinBy(h), level);
    Rfc6962.ProofIsAuditPath(JoinBy(h), level, m);
  }

  /** Leaves that already ascend are taken as they are. */
  lemma AscendingAccepted(leaves: seq<Bytes>)
    requires leaves != [] && forall b :: b in leaves ==> |b| == 32
    requires Sorting.Ascending(ByteOrder.Less, leaves)
    ensures SortedLeaves(leaves).Ok? && SortedLeaves(leaves).value == leaves
  {
    ByteOrder.IsStrictOrder();
    Sorting.AscendingIsSorted(ByteOrder.Less, leaves);
    Sorting.SortSorts(ByteOrder.Less, leaves);
    Sorting.SortKeeps(ByteOrder.Less, leaves);
    Sorting.SortedUnique(ByteOrder.Less, leaves, Sorting.Sort(ByteOrder.Less, leaves));
    AllDigests(leaves);
  }

  // The layout of nodes, read apart from how they are put together.

  /** A byte 0x01, the left child in bytes 1 to 32, the right child in bytes 33 to 64. */
  function ReadNode(b: Bytes): Option<(Digest, Digest)> {
    if |b| == 65 && b[0] == 0x01 then Some((b[1..33], b[33..65])) else None
  }

  /** The one string that reads as two children is the one that is hashed for them. */
  lemma NodeReads(h: HashFn, left: Digest, right: Digest, b: Bytes)
    ensures ReadNode(b) == Some((left, right)) <==> b == NodeInput(left, right)
    ensures ReadNode(b) == Some((left, right)) ==> NodeHash(h, left, right) == h(b)
  {
    if ReadNode(b) == Some((left, right)) {
      assert b == [b[0]] + b[1..33] + b[33..65];
    }
    assert NodeInput(left, right)[1..33] == left && NodeInput(left, right)[33..65] == right;
  }

  /** The hash of section 2.1 of RFC 6962 over given leaf hashes, with its bytes written out. */
  function TreeHashOf(h: HashFn, d: seq<Digest>): Digest
    requires d != []
    decreases |d|
  {
    if |d| == 1 then d[0]
    else
      var k := Rfc6962.Split(|d|);
      h([0x01] + TreeHashOf(h, d[..k]) + TreeHashOf(h, d[k..]))
  }

  lemma {:induction false} TreeHashesAgree(h: HashFn, d: seq<Digest>)
    requires d != []
    ensures Rfc6962.TreeHash(JoinBy(h), d) == TreeHashOf(h, d)
    decreases |d|
  {
    if |d| >= 2 {
      var k := Rfc6962.Split(|d|);
      TreeHashesAgree(h, d[..k]);
      TreeHashesAgree(h, d[k..]);
    }
  }

  /** The root of distinct digests is that hash over them in ascending order. */
  lemma RootBytes(h: HashFn, leafHashes: seq<Bytes>)
    requires MerkleRoot(h, leafHashes).Ok?
    ensures var level: seq<Bytes> := SortedLeaves(leafHashes).value;
            && multiset(level) == multiset(leafHashes)
            && (forall i, j :: 0 <= i < j < |level| ==> Lexicographic.Precedes(level[i], level[j]))
    ensures MerkleRoot(h, leafHashes) == Ok(TreeHashOf(h, SortedLeaves(leafHashes).value))
  {
    hide Root, TreeHashOf, SortedLeaves;
    var level: seq<Bytes> := SortedLeaves(leafHashes).value;
    SortedLeavesMeaning(leafHashes);
    forall i, j | 0 <= i < j < |level| ensures Lexicographic.Precedes(level[i], level[j]) {
      assert ByteOrder.Less(level[i], level[j]);
      Lexicographic.LessMeans(level[i], level[j]);
    }
    Rfc6962.RootIsTreeHash(JoinBy(h), SortedLeaves(leafHashes).value);
    TreeHashesAgree(h, SortedLeaves(leafHashes).value);
  }

  /** The smaller of two leaves is the left child, and each one's proof is the other with its side. */
  lemma TwoLeaves(h: HashFn, a: Digest, b: Digest, x: Bytes)
    requires ByteOrder.Less(a, b) && ReadNode(x) == Some((a, b))
    ensures MerkleRoot(h, [b, a]) == Ok(h(x)) && MerkleRoot(h, [a, b]) == Ok(h(x))
    ensures MerkleProof(h, [b, a], a) == Ok([Step(b, Right)]) && MerkleProof(h, [b, a], b) == Ok([Step(a, Left)])
  {
    var s: seq<Bytes> := [a, b];
    var t: seq<Bytes> := [b, a];
    NodeReads(h, a, b, x);
    TwoAscend(a, b);
    AscendingAccepted(s);
    assert multiset(s) == multiset(t);
    SortedLeavesPermuted(s, t);
    hide SortedLeaves, ByteOrder.Less;
    TwoLevel(h, a, b);
  }

  lemma TwoAscend(a: Bytes, b: Bytes)
    requires ByteOrder.Less(a, b)
    ensures Sorting.Ascending(ByteOrder.Less, [a, b]) && a != b
  {
    Lexicographic.Irreflexive(a);
  }

  lemma TwoLevel(h: HashFn, a: Digest, b: Digest)
    requires a != b
    ensures Root(JoinBy(h), [a, b]) == NodeHash(h, a, b)
    ensures Proof(JoinBy(h), [a, b], 0) == [Step(b, Right)] && Proof(JoinBy(h), [a, b], 1) == [Step(a, Left)]
    ensures IndexOf([a, b], a) == Some(0) && IndexOf([a, b], b) == Some(1)
  {
    var level: seq<Digest> := [a, b];
    assert NextLevel(JoinBy(h), level) == [NodeHash(h, a, b)] by {
      assert level[2..] == [];
    }
    assert level[1..] == [b];
  }

  /** A sibling on the left stands before the current digest in what is hashed, one on the right after it. */
  lemma StepBytes(h: HashFn, current: Digest, sibling: Digest, x: Bytes)
    ensures ReadNode(x) == Some((sibling, current)) ==> Walk(h, current, [Step(sibling, Left)]) == Some(h(x))
    ensures ReadNode(x) == Some((current, sibling)) ==> Walk(h, current, [Step(sibling, Right)]) == Some(h(x))
    ensures Walk(h, current, [Step(sibling, OtherPosition)]) == None
  {
    NodeReads(h, sibling, current, x);
    NodeReads(h, current, sibling, x);
    WalkOne(h, current, Step(sibling, Left));
    WalkOne(h, current, Step(sibling, Right));
  }

  lemma WalkOne(h: HashFn, current: Digest, step: ProofStep)
    requires WellFormed(step)
    ensures Walk(h, current, [step]) == Some(Apply<Digest>(JoinBy(h), current, step))
  {
    assert [step][1..] == [];
  }

  /** Which sets of leaves are refused, and why: the first reason that applies. */
  lemma RefusedExactly(leafHashes: seq<Bytes>)
    ensures SortedLeaves(leafHashes) == Err(EmptyLeafSet) <==> leafHashes == []
    ensures SortedLeaves(leafHashes) == Err(DuplicateLeaf) <==>
            leafHashes != [] && (forall b :: b in leafHashes ==> |b| == 32) && !Sorting.Distinct(leafHashes)
    ensures forall n :: SortedLeaves(leafHashes) == Err(LeafNotDigest(n)) <==>
              exists i :: 0 <= i < |leafHashes| && |leafHashes[i]| == n != 32 && forall j :: 0 <= j < i ==> |leafHashes[j]| == 32
    ensures SortedLeaves(leafHashes).Err? ==> SortedLeaves(leafHashes) != Err(TargetNotDigest)
  {
    AllDigests(leafHashes);
    SortedLeavesMeaning(leafHashes);
    FirstNonDigestIs(leafHashes);
  }

  /** Why there is no proof: the target's length, what the sorting refuses, a target that is no leaf, in this order. */
  lemma ProofRefusedExactly(h: HashFn, leafHashes: seq<Bytes>, target: Bytes)
    ensures MerkleProof(h, leafHashes, target) == Err(TargetNotDigest) <==> |target| != 32
    ensures |target| == 32 && SortedLeaves(leafHashes).Err? ==>
              MerkleProof(h, leafHashes, target) == Err(SortedLeaves(leafHashes).error)
    ensures MerkleProof(h, leafHashes, target) == Err(TargetNotInLeafSet) <==>
            |target| == 32 && SortedLeaves(leafHashes).Ok? && target !in leafHashes
  {
    ProofsOnlyForMembers(h, leafHashes, target);
    hide Proof;
  }

  lemma {:induction false} FirstNonDigestIs(s: seq<Bytes>)
    ensures forall n :: FirstNonDigest(s) == Some(n) <==>
              exists i :: 0 <= i < |s| && |s[i]| == n != 32 && forall j :: 0 <= j < i ==> |s[j]| == 32
  {
    if s != [] {
      FirstNonDigestIs(s[1..]);
      forall n ensures FirstNonDigest(s) == Some(n) <==> IsFirstNonDigest(s, n) {
        assert FirstNonDigest(s[1..]) == Some(n) <==> IsFirstNonDigest(s[1..], n);
        FirstNonDigestStep(s, n);
      }
    }
  }

  predicate IsFirstNonDigest(s: seq<Bytes>, n: int) {
    exists i :: 0 <= i < |s| && |s[i]| == n != 32 && forall j :: 0 <= j < i ==> |s[j]| == 32
  }

  lemma FirstNonDigestStep(s: seq<Bytes>, n: int)
    requires s != []
    ensures IsFirstNonDigest(s, n) <==> if |s[0]| != 32 then |s[0]| == n else IsFirstNonDigest(s[1..], n)
  {
    if |s[0]| == 32 {
      if i :| 0 <= i < |s| && |s[i]| == n != 32 && forall j :: 0 <= j < i ==> |s[j]| == 32 {
        assert |s[1..][i - 1]| == n;
        assert forall j :: 0 <= j < i - 1 ==> |s[1..][j]| == 32;
      }
      if i :| 0 <= i < |s[1..]| && |s[1..][i]| == n != 32 && forall j :: 0 <= j < i ==> |s[1..][j]| == 32 {
        assert |s[i + 1]| == n;
        assert forall j :: 0 <= j < i + 1 ==> |s[j]| == 32 by {
          forall j | 0 <= j < i + 1 ensures |s[j]| == 32 {
            if j > 0 { assert s[j] == s[1..][j - 1]; }
          }
        }
      }
    } else if |s[0]| == n {
      assert |s[0]| == n != 32;
    }
  }
}
