/** What a root commits to, up to a pair of byte strings that share a digest. */
module TreeBinding {
  import opened Bytes
  import opened LevelTree
  import opened Rfc6962
  import opened Merkle

  type Pair = (Bytes, Bytes)

  /** Byte strings that are hashed into leaves: their first byte is 0x00, a node's is 0x01. */
  ghost predicate LeafInputs(inputs: seq<Bytes>) {
    inputs != [] && forall x :: x in inputs ==> IsLeafInput(x)
  }

  predicate IsLeafInput(x: Bytes) {
    x != [] && x[0] == 0x00
  }

  function Hashes(h: HashFn, inputs: seq<Bytes>): (r: seq<Digest>)
    ensures |r| == |inputs|
  {
    seq(|inputs|, i requires 0 <= i < |inputs| => h(inputs[i]))
  }

  function RootOver(h: HashFn, inputs: seq<Bytes>): Digest
    requires inputs != []
  {
    TreeHash(JoinBy(h), Hashes(h, inputs))
  }

  ghost function NodeInputs(pairs: set<(Digest, Digest)>): set<Bytes> {
    set p | p in pairs :: NodeInput(p.0, p.1)
  }

  /** Every byte string hashed to get from leaf inputs to the root. */
  ghost function HashedForRoot(h: HashFn, inputs: seq<Bytes>): set<Bytes> {
    (set x | x in inputs) + NodeInputs(JoinedPairs(JoinBy(h), Hashes(h, inputs)))
  }

  function StepInput(current: Digest, step: ProofStep): Bytes
    requires |step.sibling| == 32
  {
    if step.position == Left then NodeInput(step.sibling, current) else NodeInput(current, step.sibling)
  }

  /** Every byte string hashed by a walk up from one leaf input. */
  ghost function HashedForWalk(h: HashFn, current: Digest, proof: seq<ProofStep>): set<Bytes>
    decreases |proof|
  {
    if proof == [] || !WellFormed(proof[0]) then {}
    else {StepInput(current, proof[0])} + HashedForWalk(h, h(StepInput(current, proof[0])), proof[1..])
  }

  /** The input of the topmost node. */
  function TopInput(h: HashFn, inputs: seq<Bytes>): Bytes
    requires |inputs| >= 2
  {
    var k := Split(|inputs|);
    NodeInput(RootOver(h, inputs[..k]), RootOver(h, inputs[k..]))
  }

  lemma RootOverTop(h: HashFn, inputs: seq<Bytes>)
    requires inputs != []
    ensures |inputs| == 1 ==> RootOver(h, inputs) == h(inputs[0])
    ensures |inputs| >= 2 ==> RootOver(h, inputs) == h(TopInput(h, inputs))
  {
    if |inputs| >= 2 {
      var k := Split(|inputs|);
      assert Hashes(h, inputs)[..k] == Hashes(h, inputs[..k]);
      assert Hashes(h, inputs)[k..] == Hashes(h, inputs[k..]);
    }
  }

  lemma JoinedPairsSplit(h: HashFn, inputs: seq<Bytes>, k: nat)
    requires |inputs| >= 2 && k == Split(|inputs|)
    ensures (RootOver(h, inputs[..k]), RootOver(h, inputs[k..])) in JoinedPairs(JoinBy(h), Hashes(h, inputs))
    ensures JoinedPairs(JoinBy(h), Hashes(h, inputs[..k])) <= JoinedPairs(JoinBy(h), Hashes(h, inputs))
    ensures JoinedPairs(JoinBy(h), Hashes(h, inputs[k..])) <= JoinedPairs(JoinBy(h), Hashes(h, inputs))
  {
    var join, hashes := JoinBy(h), Hashes(h, inputs);
    var left, right := Hashes(h, inputs[..k]), Hashes(h, inputs[k..]);
    assert hashes[..k] == left && hashes[k..] == right;
    hide TreeHash, TreePairs, JoinedPairs, Split, Hashes;
    JoinedPairsAreTreePairs(join, hashes);
    JoinedPairsAreTreePairs(join, left);
    JoinedPairsAreTreePairs(join, right);
    UnfoldTreePairs(join, hashes, k);
  }

  lemma NodeInputsMonotone(p: set<(Digest, Digest)>, q: set<(Digest, Digest)>)
    requires p <= q
    ensures NodeInputs(p) <= NodeInputs(q)
  {
  }

  lemma HashedForRootSplits(h: HashFn, inputs: seq<Bytes>)
    requires |inputs| >= 2
    ensures TopInput(h, inputs) in HashedForRoot(h, inputs)
    ensures HashedForRoot(h, inputs[..Split(|inputs|)]) <= HashedForRoot(h, inputs)
    ensures HashedForRoot(h, inputs[Split(|inputs|)..]) <= HashedForRoot(h, inputs)
  {
    hide RootOver, JoinedPairs, Split, Hashes, NodeInput;
    var k := Split(|inputs|);
    JoinedPairsSplit(h, inputs, k);
    NodeInputsMonotone(JoinedPairs(JoinBy(h), Hashes(h, inputs[..k])), JoinedPairs(JoinBy(h), Hashes(h, inputs)));
    NodeInputsMonotone(JoinedPairs(JoinBy(h), Hashes(h, inputs[k..])), JoinedPairs(JoinBy(h), Hashes(h, inputs)));
    assert inputs == inputs[..k] + inputs[k..];
  }

  /** Descends two trees side by side to the first place where they hash different strings. */
  function TreeCollision(h: HashFn, a: seq<Bytes>, b: seq<Bytes>): Option<Pair>
    requires a != [] && b != []
    decreases |a|
  {
    if |a| == 1 && |b| == 1 then if a[0] == b[0] then None else Some((a[0], b[0]))
    else if |a| == 1 then Some((a[0], TopInput(h, b)))
    else if |b| == 1 then Some((TopInput(h, a), b[0]))
    else if TopInput(h, a) != TopInput(h, b) then Some((TopInput(h, a), TopInput(h, b)))
    else
      match TreeCollision(h, a[..Split(|a|)], b[..Split(|b|)])
      case Some(pair) => Some(pair)
      case None => TreeCollision(h, a[Split(|a|)..], b[Split(|b|)..])
  }

  lemma NodeInputInjective(l: Digest, r: Digest, l': Digest, r': Digest)
    requires NodeInput(l, r) == NodeInput(l', r')
    ensures l == l' && r == r'
  {
    assert l == NodeInput(l, r)[1..33] == NodeInput(l', r')[1..33] == l';
    assert r == NodeInput(l, r)[33..] == NodeInput(l', r')[33..] == r';
  }

  lemma SameTops(h: HashFn, a: seq<Bytes>, b: seq<Bytes>)
    requires |a| >= 2 && |b| >= 2 && TopInput(h, a) == TopInput(h, b)
    ensures RootOver(h, a[..Split(|a|)]) == RootOver(h, b[..Split(|b|)])
    ensures RootOver(h, a[Split(|a|)..]) == RootOver(h, b[Split(|b|)..])
  {
    hide RootOver, NodeInput;
    NodeInputInjective(RootOver(h, a[..Split(|a|)]), RootOver(h, a[Split(|a|)..]),
                       RootOver(h, b[..Split(|b|)]), RootOver(h, b[Split(|b|)..]));
  }

  lemma TopIsNoLeaf(h: HashFn, inputs: seq<Bytes>, x: Bytes)
    requires |inputs| >= 2 && IsLeafInput(x)
    ensures TopInput(h, inputs) != x
  {
  }

  /** The pair found is a collision among the strings that the two roots were computed from. */
  ghost predicate Witnesses(h: HashFn, pair: Pair, left: set<Bytes>, right: set<Bytes>) {
    Collides(h, pair.0, pair.1) && pair.0 in left && pair.1 in right
  }

  lemma LeafInputsSplit(inputs: seq<Bytes>, k: nat)
    requires LeafInputs(inputs) && 0 < k < |inputs|
    ensures LeafInputs(inputs[..k]) && LeafInputs(inputs[k..])
  {
  }

  lemma LoneInputHashed(h: HashFn, inputs: seq<Bytes>)
    requires |inputs| == 1
    ensures inputs[0] in HashedForRoot(h, inputs)
  {
  }

  /** Two trees with one root hold the same leaf inputs, whatever their sizes, or a collision is named. */
  lemma {:induction false} RootBinds(h: HashFn, a: seq<Bytes>, b: seq<Bytes>)
    requires LeafInputs(a) && LeafInputs(b)
    requires RootOver(h, a) == RootOver(h, b)
    ensures match TreeCollision(h, a, b)
            case None => a == b
            case Some(pair) => Witnesses(h, pair, HashedForRoot(h, a), HashedForRoot(h, b))
    decreases |a|
  {
    hide RootOver, HashedForRoot, TopInput, Split;
    RootOverTop(h, a);
    RootOverTop(h, b);
    if |a| == 1 { LoneInputHashed(h, a); } else { HashedForRootSplits(h, a); }
    if |b| == 1 { LoneInputHashed(h, b); } else { HashedForRootSplits(h, b); }
    if |a| == 1 && |b| >= 2 {
      TopIsNoLeaf(h, b, a[0]);
    } else if |a| >= 2 && |b| == 1 {
      TopIsNoLeaf(h, a, b[0]);
    } else if |a| >= 2 && |b| >= 2 && TopInput(h, a) == TopInput(h, b) {
      SameTops(h, a, b);
      LeafInputsSplit(a, Split(|a|));
      LeafInputsSplit(b, Split(|b|));
      RootBinds(h, a[..Split(|a|)], b[..Split(|b|)]);
      if TreeCollision(h, a[..Split(|a|)], b[..Split(|b|)]).None? {
        RootBinds(h, a[Split(|a|)..], b[Split(|b|)..]);
        assert a == a[..Split(|a|)] + a[Split(|a|)..] && b == b[..Split(|b|)] + b[Split(|b|)..];
      }
    }
  }

  // A walk that ends at the root.

  /** Descends a tree beside a proof, from its last step, to the first place where they hash different strings. */
  function WalkCollision(h: HashFn, x: Bytes, proof: seq<ProofStep>, inputs: seq<Bytes>): Option<Pair>
    requires inputs != []
    decreases |proof|
  {
    if proof == [] then
      if |inputs| >= 2 then Some((x, TopInput(h, inputs)))
      else if x == inputs[0] then None else Some((x, inputs[0]))
    else
      var below, last := proof[..|proof| - 1], proof[|proof| - 1];
      match Walk(h, h(x), below)
      case None => None
      case Some(current) =>
        if !WellFormed(last) then None
        else if |inputs| == 1 then Some((StepInput(current, last), inputs[0]))
        else if StepInput(current, last) != TopInput(h, inputs) then
          Some((StepInput(current, last), TopInput(h, inputs)))
        else if last.position == Left then WalkCollision(h, x, below, inputs[Split(|inputs|)..])
        else WalkCollision(h, x, below, inputs[..Split(|inputs|)])
  }

  lemma {:induction false} WalkAppend(h: HashFn, current: Digest, p: seq<ProofStep>, last: ProofStep)
    ensures Walk(h, current, p + [last]) ==
            match Walk(h, current, p)
            case None => None
            case Some(d) => if WellFormed(last) then Some(h(StepInput(d, last))) else None
    ensures HashedForWalk(h, current, p) <= HashedForWalk(h, current, p + [last])
    ensures Walk(h, current, p).Some? && WellFormed(last) ==>
            StepInput(Walk(h, current, p).value, last) in HashedForWalk(h, current, p + [last])
    decreases |p|
  {
    var all := p + [last];
    if p == [] {
      assert all[1..] == [];
    } else if WellFormed(p[0]) {
      assert all[1..] == p[1..] + [last];
      WalkAppend(h, h(StepInput(current, p[0])), p[1..], last);
    }
  }

  lemma StepIsNoLeaf(current: Digest, step: ProofStep, x: Bytes)
    requires WellFormed(step) && IsLeafInput(x)
    ensures StepInput(current, step) != x
  {
  }

  lemma StepSides(h: HashFn, current: Digest, step: ProofStep, inputs: seq<Bytes>)
    requires WellFormed(step) && |inputs| >= 2
    requires StepInput(current, step) == TopInput(h, inputs)
    ensures step.position == Left ==> current == RootOver(h, inputs[Split(|inputs|)..])
    ensures step.position == Right ==> current == RootOver(h, inputs[..Split(|inputs|)])
  {
    hide RootOver, NodeInput;
    var left, right := RootOver(h, inputs[..Split(|inputs|)]), RootOver(h, inputs[Split(|inputs|)..]);
    if step.position == Left {
      NodeInputInjective(step.sibling, current, left, right);
    } else {
      NodeInputInjective(current, step.sibling, left, right);
    }
  }

  /** A leaf input that climbs to a root is one of the root's leaf inputs, or a collision is named. */
  lemma {:induction false} WalkBinds(h: HashFn, x: Bytes, proof: seq<ProofStep>, inputs: seq<Bytes>)
    requires LeafInputs(inputs) && IsLeafInput(x)
    requires Walk(h, h(x), proof) == Some(RootOver(h, inputs))
    ensures match WalkCollision(h, x, proof, inputs)
            case None => x in inputs
            case Some(pair) => Witnesses(h, pair, {x} + HashedForWalk(h, h(x), proof), HashedForRoot(h, inputs))
    decreases |proof|
  {
    hide RootOver, HashedForRoot, TopInput, Split, StepInput, Walk;
    RootOverTop(h, inputs);
    if |inputs| == 1 { LoneInputHashed(h, inputs); } else { HashedForRootSplits(h, inputs); }
    if proof == [] {
      EmptyWalk(h, h(x));
      if |inputs| >= 2 { TopIsNoLeaf(h, inputs, x); }
    } else {
      var below, last := proof[..|proof| - 1], proof[|proof| - 1];
      assert proof == below + [last];
      WalkAppend(h, h(x), below, last);
      var current := Walk(h, h(x), below).value;
      if |inputs| == 1 {
        StepIsNoLeaf(current, last, inputs[0]);
      } else if StepInput(current, last) == TopInput(h, inputs) {
        StepSides(h, current, last, inputs);
        LeafInputsSplit(inputs, Split(|inputs|));
        PositionOf(last);
        if last.position == Left {
          WalkBinds(h, x, below, inputs[Split(|inputs|)..]);
        } else {
          WalkBinds(h, x, below, inputs[..Split(|inputs|)]);
        }
      }
    }
  }

  lemma EmptyWalk(h: HashFn, current: Digest)
    ensures Walk(h, current, []) == Some(current)
  {
  }

  lemma PositionOf(step: ProofStep)
    requires WellFormed(step)
    ensures step.position == Left || step.position == Right
  {
  }
}
